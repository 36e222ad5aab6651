/** The buffer pool (src/buffer_pool.cpp): frames over a file of pages, evicted by a clock sweep.
    It must look like the plain array of pages it caches. */
module BufferPool {
  import opened StorageTypes
  import W = WalManager

  const BUF_USAGECOUNT_MAX := 5

  /** Page bytes, of which the pool itself only looks at the LSN. */
  datatype Content = Content(lsn: nat, body: seq<int>)

  const ZEROED := Content(0, [])
  const FORMATTED := Content(0, [0])  // what Page::init leaves behind

  datatype Frame = Frame(content: Content, pageId: Option<PageId>, pinCount: nat, dirty: bool, usage: nat)

  datatype Fetch = Fetched(frame: nat) | OutOfRange | AllPinned

  /** The pool's fields and the file under it. `touched` is a ghost of the callers: the pages
      written through a pin that has not been released as dirty yet. */
  datatype State = State(frames: seq<Frame>, pageTable: map<PageId, nat>, freeList: seq<nat>, disk: seq<Content>,
                         touched: set<PageId>)

  /** The page table is injective and agrees with the frames; free frames hold no page. */
  ghost predicate Shape(s: State) {
    && 0 < |s.frames|
    && (forall pid :: pid in s.pageTable ==>
          pid < |s.disk| && s.pageTable[pid] < |s.frames| && s.frames[s.pageTable[pid]].pageId == Some(pid))
    && (forall f :: 0 <= f < |s.frames| && s.frames[f].pageId.Some? ==>
          s.frames[f].pageId.value in s.pageTable && s.pageTable[s.frames[f].pageId.value] == f)
    && (forall f :: 0 <= f < |s.frames| ==>
          s.frames[f].usage <= BUF_USAGECOUNT_MAX && (s.frames[f].pageId == None ==> s.frames[f].pinCount == 0))
    && (forall k :: 0 <= k < |s.freeList| ==> s.freeList[k] < |s.frames| && s.frames[s.freeList[k]].pageId == None)
    && (forall k, m :: 0 <= k < m < |s.freeList| ==> s.freeList[k] != s.freeList[m])
  }

  /** A clean page nobody is writing is the same in its frame and on disk; writers hold a pin. */
  ghost predicate Coherent(s: State)
    requires Shape(s)
  {
    && (forall pid :: pid in s.pageTable && !s.frames[s.pageTable[pid]].dirty && pid !in s.touched ==>
          s.frames[s.pageTable[pid]].content == s.disk[pid])
    && (forall pid :: pid in s.touched ==> pid in s.pageTable && s.frames[s.pageTable[pid]].pinCount > 0)
  }

  ghost predicate Inv(s: State) {
    Shape(s) && Coherent(s)
  }

  /** The page array the pool stands for. */
  ghost function Logical(s: State): (pages: seq<Content>)
    requires Shape(s)
    ensures |pages| == |s.disk|
  {
    seq(|s.disk|, pid requires 0 <= pid < |s.disk| =>
      if pid in s.pageTable then s.frames[s.pageTable[pid]].content else s.disk[pid])
  }

  function PinCount(s: State, pid: PageId): nat
    requires pid in s.pageTable ==> s.pageTable[pid] < |s.frames|
  {
    if pid in s.pageTable then s.frames[s.pageTable[pid]].pinCount else 0
  }

  // ---- what the operations do ---------------------------------------------

  /** write_frame. */
  function WriteBack(s: State, f: nat): State
    requires f < |s.frames| && s.frames[f].pageId.Some? && s.frames[f].pageId.value < |s.disk|
  {
    s.(disk := s.disk[s.frames[f].pageId.value := s.frames[f].content],
       frames := s.frames[f := s.frames[f].(dirty := false)])
  }

  /** Cache hit. */
  function Hit(s: State, f: nat): State
    requires f < |s.frames|
  {
    var fr := s.frames[f];
    s.(frames := s.frames[f := fr.(pinCount := fr.pinCount + 1,
                                   usage := if fr.usage < BUF_USAGECOUNT_MAX then fr.usage + 1 else fr.usage)])
  }

  /** Read a page into a frame whose old page, if any, is clean and unpinned. */
  function Load(s: State, f: nat, pid: PageId): State
    requires f < |s.frames| && pid < |s.disk|
  {
    var evicted := s.frames[f].pageId;
    var table := if evicted.Some? then s.pageTable - {evicted.value} else s.pageTable;
    s.(frames := s.frames[f := Frame(s.disk[pid], Some(pid), 1, false, 1)], pageTable := table[pid := f])
  }

  function Unpinned(s: State, pid: PageId, dirty: bool): State
    requires pid in s.pageTable && s.pageTable[pid] < |s.frames|
  {
    var f := s.pageTable[pid];
    var fr := s.frames[f];
    s.(frames := s.frames[f := fr.(dirty := fr.dirty || dirty, pinCount := if fr.pinCount > 0 then fr.pinCount - 1 else 0)],
       touched := if dirty then s.touched - {pid} else s.touched)
  }

  /** A caller changes a page through its pin. */
  function Modified(s: State, pid: PageId, c: Content): State
    requires pid in s.pageTable && s.pageTable[pid] < |s.frames|
  {
    var f := s.pageTable[pid];
    s.(frames := s.frames[f := s.frames[f].(content := c)], touched := s.touched + {pid})
  }

  /** The clock sweep lowers usage counts of unpinned frames and changes nothing else. */
  ghost predicate Swept(s: State, s': State) {
    && s' == s.(frames := s'.frames) && |s'.frames| == |s.frames|
    && forall f :: 0 <= f < |s.frames| ==> SweptFrame(s.frames[f], s'.frames[f])
  }

  ghost predicate SweptFrame(a: Frame, b: Frame) {
    b == a.(usage := b.usage) && b.usage <= a.usage && (a.pinCount > 0 ==> b == a)
  }

  ghost predicate EveryFramePinned(s: State) {
    forall f :: 0 <= f < |s.frames| ==> s.frames[f].pinCount > 0
  }

  // ---- none of them changes what the pool stands for ----------------------

  lemma WriteBackKeeps(s: State, f: nat)
    requires Inv(s) && f < |s.frames| && s.frames[f].pageId.Some?
    ensures Inv(WriteBack(s, f)) && Logical(WriteBack(s, f)) == Logical(s)
  {
  }

  lemma HitKeeps(s: State, pid: PageId)
    requires Inv(s) && pid in s.pageTable
    ensures Inv(Hit(s, s.pageTable[pid])) && Logical(Hit(s, s.pageTable[pid])) == Logical(s)
  {
  }

  ghost predicate Loadable(s: State, f: nat, pid: PageId)
    requires Shape(s)
  {
    && f < |s.frames| && pid < |s.disk| && pid !in s.pageTable && f !in s.freeList && s.frames[f].pinCount == 0
    && (s.frames[f].pageId.Some? ==> !s.frames[f].dirty)
  }

  lemma LoadKeepsShape(s: State, f: nat, pid: PageId)
    requires Shape(s) && Loadable(s, f, pid)
    ensures Shape(Load(s, f, pid))
  {
    var s' := Load(s, f, pid);
    forall k | 0 <= k < |s'.freeList| ensures s'.frames[s'.freeList[k]].pageId == None {
      assert s.freeList[k] in s.freeList;
    }
  }

  /** The other resident pages stay in their frames. */
  lemma LoadKeepsOthers(s: State, f: nat, pid: PageId)
    requires Inv(s) && Loadable(s, f, pid)
    ensures var s' := Load(s, f, pid);
      forall q :: q in s'.pageTable && q != pid ==> q in s.pageTable && s'.pageTable[q] == s.pageTable[q] != f
    ensures s.frames[f].pageId.Some? ==> s.frames[f].pageId.value !in s.touched
  {
  }

  lemma LoadKeepsCoherent(s: State, f: nat, pid: PageId)
    requires Inv(s) && Loadable(s, f, pid)
    ensures Inv(Load(s, f, pid))
  {
    LoadKeepsShape(s, f, pid);
    LoadKeepsOthers(s, f, pid);
  }

  lemma LoadKeeps(s: State, f: nat, pid: PageId)
    requires Inv(s) && Loadable(s, f, pid)
    ensures Inv(Load(s, f, pid)) && Logical(Load(s, f, pid)) == Logical(s)
  {
    LoadKeepsCoherent(s, f, pid);
    LoadKeepsOthers(s, f, pid);
    var s' := Load(s, f, pid);
    forall q | 0 <= q < |s.disk| ensures Logical(s')[q] == Logical(s)[q] {
    }
  }

  lemma SweptKeeps(s: State, s': State)
    requires Inv(s) && Swept(s, s')
    ensures Inv(s') && Logical(s') == Logical(s)
  {
  }

  /** Releasing the last pin of a page one has written requires saying so. */
  lemma UnpinnedKeeps(s: State, pid: PageId, dirty: bool)
    requires Inv(s) && pid in s.pageTable && (pid in s.touched && PinCount(s, pid) == 1 ==> dirty)
    ensures Inv(Unpinned(s, pid, dirty)) && Logical(Unpinned(s, pid, dirty)) == Logical(s)
  {
  }

  lemma ModifiedKeeps(s: State, pid: PageId, c: Content)
    requires Inv(s) && pid in s.pageTable && PinCount(s, pid) > 0
    ensures Inv(Modified(s, pid, c)) && Logical(Modified(s, pid, c)) == Logical(s)[pid := c]
  {
  }

  lemma ExtendedKeeps(s: State, c: Content)
    requires Inv(s)
    ensures Inv(s.(disk := s.disk + [c])) && Logical(s.(disk := s.disk + [c])) == Logical(s) + [c]
  {
  }

  lemma PopKeeps(s: State)
    requires Inv(s) && s.freeList != []
    ensures var f := s.freeList[|s.freeList| - 1]; var s' := s.(freeList := s.freeList[..|s.freeList| - 1]);
      Inv(s') && Logical(s') == Logical(s) && f !in s'.freeList && f < |s.frames|
      && s.frames[f].pageId == None && s.frames[f].pinCount == 0
  {
  }

  // ---- the clock ----------------------------------------------------------

  /** Steps in `u` rounds of the hand. */
  function Rounds(u: nat, n: nat): nat {
    if u == 0 then 0 else n + Rounds(u - 1, n)
  }

  lemma {:induction false} RoundsBound(u: nat, n: nat)
    requires u <= 5
    ensures Rounds(u, n) <= 5 * n
  {
    if u == 5 {
      assert Rounds(4, n) == n + Rounds(3, n) && Rounds(3, n) == n + Rounds(2, n) && Rounds(2, n) == n + Rounds(1, n);
    } else if u > 0 {
      RoundsBound(u - 1, n);
      assert u == 4 || u == 3 || u == 2 || u == 1;
      assert Rounds(3, n) == n + Rounds(2, n) && Rounds(2, n) == n + Rounds(1, n);
    }
  }

  lemma ModStep(h: nat, n: nat)
    requires h < n
    ensures (h + 1) % n == if h + 1 == n then 0 else h + 1
  {
  }

  // ---- the pool itself ----------------------------------------------------

  lemma LastReplaced<X>(pages: seq<X>, a: X, b: X)
    ensures (pages + [a])[|pages| := b] == pages + [b]
  {
  }

  class Pool {
    const frames: array<Frame>
    const wal: W.Wal?
    var pageTable: map<PageId, nat>
    var freeList: seq<nat>
    var clockHand: nat
    var disk: seq<Content>
    ghost var touched: set<PageId>

    ghost function View(): State
      reads this, frames
    {
      State(frames[..], pageTable, freeList, disk, touched)
    }

    ghost predicate Valid()
      reads this, frames, wal
    {
      Inv(View()) && clockHand < frames.Length && (wal != null ==> wal.Valid())
    }

    constructor (disk: seq<Content>, poolSize: nat, wal: W.Wal?)
      requires poolSize > 0 && (wal != null ==> wal.Valid())
      ensures Valid() && Logical(View()) == disk == this.disk && touched == {} && this.wal == wal
      ensures fresh(frames) && frames.Length == poolSize
    {
      frames := new Frame[poolSize](_ => Frame(ZEROED, None, 0, false, 0));
      this.wal := wal;
      this.disk := disk;
      pageTable, clockHand, touched := map[], 0, {};
      freeList := seq(poolSize, i => i);
      new;
      assert Logical(View()) == disk;
    }

    /** The WAL rule: the log is made durable up to the page's LSN before the page is written. */
    method WriteFrame(f: nat)
      requires Valid() && f < frames.Length && frames[f].pageId.Some?
      modifies this`disk, frames, wal
      ensures Valid() && View() == WriteBack(old(View()), f) && Logical(View()) == old(Logical(View()))
      ensures wal != null ==> wal.Covers(frames[f].content.lsn)
    {
      ghost var s := View();
      WriteBackKeeps(s, f);
      if wal != null {
        wal.FlushUpTo(frames[f].content.lsn);
      }
      disk := disk[frames[f].pageId.value := frames[f].content];
      frames[f] := frames[f].(dirty := false);
      assert View() == WriteBack(s, f);
    }

    method FetchPage(pid: PageId) returns (r: Fetch)
      requires Valid()
      modifies this, frames, wal
      ensures Valid() && Logical(View()) == old(Logical(View())) && touched == old(touched)
      ensures r.Fetched? ==> pid in pageTable && pageTable[pid] == r.frame
      ensures r.Fetched? ==> PinCount(View(), pid) == old(PinCount(View(), pid)) + 1
      ensures r.OutOfRange? <==> pid >= |old(disk)|
      ensures r.AllPinned? <==> pid < |old(disk)| && pid !in old(pageTable) && old(freeList) == [] && EveryFramePinned(old(View()))
    {
      if pid in pageTable {
        var fid := PinResident(pid);
        return Fetched(fid);
      }
      if pid >= |disk| {
        return OutOfRange;
      }
      var fid := TakeFrame();
      if fid.None? {
        return AllPinned;
      }
      LoadPage(fid.value, pid);
      return Fetched(fid.value);
    }

    /** Lines 38-47: a hit. */
    method PinResident(pid: PageId) returns (fid: nat)
      requires Valid() && pid in pageTable
      modifies frames
      ensures Valid() && fid == pageTable[pid] && View() == Hit(old(View()), fid)
      ensures Logical(View()) == old(Logical(View()))
    {
      HitKeeps(View(), pid);
      ghost var s := View();
      fid := pageTable[pid];
      var fr := frames[fid];
      frames[fid] := fr.(pinCount := fr.pinCount + 1,
                         usage := if fr.usage < BUF_USAGECOUNT_MAX then fr.usage + 1 else fr.usage);
      assert View() == Hit(s, fid);
    }

    /** Lines 57-63: the free list first, then the clock sweep. */
    method TakeFrame() returns (fid: Option<nat>)
      requires Valid()
      modifies this`freeList, this`clockHand, this`disk, frames, wal
      ensures Valid() && Logical(View()) == old(Logical(View())) && pageTable == old(pageTable) && |disk| == |old(disk)|
      ensures fid.None? <==> old(freeList) == [] && EveryFramePinned(old(View()))
      ensures fid.Some? ==> fid.value < frames.Length && fid.value !in freeList && frames[fid.value].pinCount == 0
      ensures fid.Some? && frames[fid.value].pageId.Some? ==> !frames[fid.value].dirty
      ensures if old(freeList) == [] then freeList == []
              else fid == Some(old(freeList)[|old(freeList)| - 1]) && freeList == old(freeList)[..|old(freeList)| - 1]
                   && frames[..] == old(frames[..]) && disk == old(disk)
    {
      if freeList != [] {
        PopKeeps(View());
        fid := Some(freeList[|freeList| - 1]);
        freeList := freeList[..|freeList| - 1];
      } else {
        var steps;
        fid, steps := VictimFrame();
      }
    }

    /** Lines 65-71, and line 173's erasure of the evicted page. */
    method LoadPage(fid: nat, pid: PageId)
      requires Valid() && Loadable(View(), fid, pid)
      modifies this`pageTable, frames
      ensures Valid() && View() == Load(old(View()), fid, pid) && Logical(View()) == old(Logical(View()))
    {
      ghost var s := View();
      if frames[fid].pageId.Some? {
        pageTable := pageTable - {frames[fid].pageId.value};
      }
      frames[fid] := Frame(disk[pid], Some(pid), 1, false, 1);
      pageTable := pageTable[pid := fid];
      assert View() == Load(s, fid, pid);
      LoadKeeps(s, fid, pid);
    }

    /** The clock sweep gives up exactly when every frame is pinned. Otherwise it has found an
        unpinned frame before it has gone round six times, so the coded limit of seven rounds
        never cuts it short. */
    method Sweep() returns (victim: Option<nat>, steps: nat)
      requires 0 < frames.Length && clockHand < frames.Length
      requires forall f :: 0 <= f < frames.Length ==> frames[f].usage <= BUF_USAGECOUNT_MAX
      modifies this`clockHand, frames
      ensures clockHand < frames.Length && Swept(old(View()), View())
      ensures victim.None? <==> EveryFramePinned(old(View()))
      ensures victim.Some? ==> victim.value < frames.Length && frames[victim.value].pinCount == 0
      ensures victim.Some? ==> steps <= 6 * frames.Length
    {
      ghost var n := frames.Length;
      ghost var hopeless := EveryFramePinned(View());
      ghost var unpinned: nat, dist: nat := 0, 0;
      if !hopeless {
        unpinned :| unpinned < n && frames[..][unpinned].pinCount == 0;
        dist := if clockHand <= unpinned then unpinned - clockHand else unpinned + n - clockHand;
        RoundsBound(frames[unpinned].usage, n);
      }
      var scanLimit := frames.Length * (BUF_USAGECOUNT_MAX + 2);
      steps := 0;
      while steps < scanLimit
        invariant clockHand < frames.Length
        invariant forall f :: 0 <= f < n ==> SweptFrame(old(frames[f]), frames[f])
        // an unpinned frame is `dist` steps ahead; it is taken before usage + 1 rounds are over
        invariant hopeless || (dist < n && (clockHand + dist == unpinned || clockHand + dist == unpinned + n))
        invariant hopeless || steps + Rounds(frames[unpinned].usage, n) + dist < 6 * n
        decreases scanLimit - steps
      {
        var fid := clockHand;
        steps := steps + 1;
        ModStep(clockHand, frames.Length);
        clockHand := (clockHand + 1) % frames.Length;
        if frames[fid].pinCount == 0 {
          if frames[fid].usage == 0 {
            return Some(fid), steps;
          }
          frames[fid] := frames[fid].(usage := frames[fid].usage - 1);
        }
        dist := if hopeless then 0 else if dist == 0 then n - 1 else dist - 1;
      }
      return None, steps;
    }

    /** victim_frame: the swept frame, written back if dirty. */
    method VictimFrame() returns (victim: Option<nat>, steps: nat)
      requires Valid()
      modifies this`clockHand, this`disk, frames, wal
      ensures Valid() && Logical(View()) == old(Logical(View()))
      ensures pageTable == old(pageTable) && freeList == old(freeList) && |disk| == |old(disk)|
      ensures victim.None? <==> EveryFramePinned(old(View()))
      ensures victim.Some? ==> victim.value < frames.Length && frames[victim.value].pinCount == 0
      ensures victim.Some? && frames[victim.value].pageId.Some? ==> !frames[victim.value].dirty
      ensures victim.Some? ==> steps <= 6 * frames.Length
    {
      ghost var s := View();
      victim, steps := Sweep();
      SweptKeeps(s, View());
      if victim.Some? && frames[victim.value].dirty && frames[victim.value].pageId.Some? {
        WriteFrame(victim.value);
      }
    }

    method UnpinPage(pid: PageId, dirty: bool) returns (known: bool)
      requires Valid()
      // a caller that has written the page says so before it lets go of the last pin
      requires pid in touched && PinCount(View(), pid) == 1 ==> dirty
      modifies this`touched, frames
      ensures Valid() && Logical(View()) == old(Logical(View()))
      ensures known <==> pid in pageTable
      ensures View() == if known then Unpinned(old(View()), pid, dirty) else old(View())
      ensures PinCount(View(), pid) == if old(PinCount(View(), pid)) == 0 then 0 else old(PinCount(View(), pid)) - 1
      ensures known ==> (frames[pageTable[pid]].dirty <==> dirty || old(frames[pageTable[pid]].dirty))
    {
      if pid !in pageTable {
        return false;
      }
      ghost var s := View();
      var fid := pageTable[pid];
      var fr := frames[fid];
      if dirty {
        fr := fr.(dirty := true);
        touched := touched - {pid};
      }
      if fr.pinCount > 0 {
        fr := fr.(pinCount := fr.pinCount - 1);
      }
      frames[fid] := fr;
      assert View() == Unpinned(s, pid, dirty);
      UnpinnedKeeps(s, pid, dirty);
      return true;
    }

    /** What a holder of a pin does through the Page view it was given. */
    method WriteThroughPin(pid: PageId, c: Content)
      requires Valid() && pid in pageTable && PinCount(View(), pid) > 0
      modifies this`touched, frames
      ensures Valid() && Logical(View()) == old(Logical(View()))[pid := c] && touched == old(touched) + {pid}
      ensures PinCount(View(), pid) == old(PinCount(View(), pid))
    {
      ghost var s := View();
      ModifiedKeeps(s, pid, c);
      frames[pageTable[pid]] := frames[pageTable[pid]].(content := c);
      touched := touched + {pid};
      assert View() == Modified(s, pid, c);
    }

    method FlushPage(pid: PageId) returns (known: bool)
      requires Valid()
      modifies this`disk, frames, wal
      ensures Valid() && Logical(View()) == old(Logical(View()))
      ensures known <==> pid in pageTable
      ensures known ==> !frames[pageTable[pid]].dirty
      ensures forall f :: 0 <= f < frames.Length && !old(frames[f].dirty) ==> !frames[f].dirty
      ensures |disk| == |old(disk)|
    {
      if pid !in pageTable {
        return false;
      }
      if frames[pageTable[pid]].dirty {
        WriteFrame(pageTable[pid]);
      }
      return true;
    }

    /** Every resident page outside `todo` is clean. */
    ghost predicate CleanBut(todo: set<PageId>)
      reads this, frames
    {
      forall pid :: pid in pageTable && pid !in todo ==> pageTable[pid] < frames.Length && !frames[pageTable[pid]].dirty
    }

    method FlushOne(pid: PageId, ghost todo: set<PageId>)
      requires Valid() && CleanBut(todo) && pid in todo
      modifies this`disk, frames, wal
      ensures Valid() && CleanBut(todo - {pid}) && Logical(View()) == old(Logical(View()))
    {
      var _ := FlushPage(pid);
    }

    /** After flush_all the file holds every page's logical contents, but for pages that some
        pin holder has changed and not yet declared dirty. */
    method FlushAll()
      requires Valid()
      modifies this`disk, frames, wal
      ensures Valid() && Logical(View()) == old(Logical(View()))
      ensures forall pid :: 0 <= pid < |disk| && pid !in touched ==> disk[pid] == Logical(View())[pid]
    {
      ghost var pages := Logical(View());
      var todo := pageTable.Keys;
      while todo != {}
        invariant Valid() && Logical(View()) == pages && todo <= pageTable.Keys && CleanBut(todo)
        decreases todo
      {
        var pid :| pid in todo;
        FlushOne(pid, todo);
        todo := todo - {pid};
      }
      CleanMatchesDisk(View());
    }

    /** Relation extension: the new page is pinned, formatted and dirty. If no frame can be had the
        file has grown by a zeroed page all the same. */
    method NewPage() returns (r: Fetch, pid: PageId)
      requires Valid()
      modifies this, frames, wal
      ensures Valid() && pid == |old(disk)| && !r.OutOfRange?
      ensures Logical(View()) == old(Logical(View())) + [if r.Fetched? then FORMATTED else ZEROED]
      ensures r.Fetched? ==> pid in pageTable && PinCount(View(), pid) == 1 && frames[pageTable[pid]].dirty
    {
      ghost var pages := Logical(View());
      r, pid := FetchNew();
      if r.Fetched? {
        LastReplaced(pages, ZEROED, FORMATTED);
        Format(pid);
      }
    }

    /** A page at the end of the file, zeroed, pinned if a frame can be had. */
    method FetchNew() returns (r: Fetch, pid: PageId)
      requires Valid()
      modifies this, frames, wal
      ensures Valid() && pid == |old(disk)| && !r.OutOfRange? && Logical(View()) == old(Logical(View())) + [ZEROED]
      ensures r.Fetched? ==> pid in pageTable && PinCount(View(), pid) == 1
    {
      pid := |disk|;
      Extend();
      r := FetchPage(pid);
    }

    /** Lines 85-89. */
    method Format(pid: PageId)
      requires Valid() && pid in pageTable && PinCount(View(), pid) > 0
      modifies this`touched, frames
      ensures Valid() && Logical(View()) == old(Logical(View()))[pid := FORMATTED]
      ensures frames[pageTable[pid]].dirty && PinCount(View(), pid) == old(PinCount(View(), pid))
    {
      WriteThroughPin(pid, FORMATTED);
      MarkDirty(pid);
    }

    /** Pager::allocate_page. */
    method Extend()
      requires Valid()
      modifies this`disk
      ensures Valid() && View() == old(View()).(disk := old(disk) + [ZEROED])
      ensures Logical(View()) == old(Logical(View())) + [ZEROED]
      ensures |old(disk)| !in pageTable && PinCount(View(), |old(disk)|) == 0
    {
      ExtendedKeeps(View(), ZEROED);
      disk := disk + [ZEROED];
    }

    method MarkDirty(pid: PageId)
      requires Valid() && pid in pageTable
      modifies this`touched, frames
      ensures Valid() && Logical(View()) == old(Logical(View())) && frames[pageTable[pid]].dirty
      ensures PinCount(View(), pid) == old(PinCount(View(), pid))
    {
      ghost var s := View();
      MarkedKeeps(s, pid);
      frames[pageTable[pid]] := frames[pageTable[pid]].(dirty := true);
      touched := touched - {pid};
      assert View() == Marked(s, pid);
    }
  }

  lemma CleanMatchesDisk(s: State)
    requires Inv(s) && forall pid :: pid in s.pageTable ==> !s.frames[s.pageTable[pid]].dirty
    ensures forall pid :: 0 <= pid < |s.disk| && pid !in s.touched ==> s.disk[pid] == Logical(s)[pid]
  {
  }

  /** new_page sets the dirty flag without releasing the pin. */
  function Marked(s: State, pid: PageId): State
    requires pid in s.pageTable && s.pageTable[pid] < |s.frames|
  {
    s.(frames := s.frames[s.pageTable[pid] := s.frames[s.pageTable[pid]].(dirty := true)], touched := s.touched - {pid})
  }

  lemma MarkedKeeps(s: State, pid: PageId)
    requires Inv(s) && pid in s.pageTable
    ensures Inv(Marked(s, pid)) && Logical(Marked(s, pid)) == Logical(s)
  {
  }
}
