/** Logging, flushing and crashing over whole runs: heap operations (src/heap.cpp) stamp pages with
    lsn + 1, the buffer pool writes them whenever it likes under the WAL rule
    (src/buffer_pool.cpp, lines 24-34), and a crash keeps some prefix of the log. */
module Durability {
  import opened StorageTypes
  import opened Redo

  type Pages = map<PageId, PageState>

  /** A page the file lacks counts as fresh: recovery adds it formatted. */
  function At(pages: Pages, pid: PageId): PageState {
    if pid in pages then pages[pid] else FRESH
  }

  /** `durable` counts the records the last sync forced out; `base` is the disk as of the last
      checkpoint. Both are ghosts of the system: no code reads them. */
  datatype Sys = Sys(log: Log, durable: nat, flushedLsn: nat, pool: Pages, disk: Pages, ckpt: nat, base: Pages)

  const EMPTY := Sys([], 0, 0, map[], map[], 0, map[])

  function NextLsn(log: Log): nat {
    if log == [] then 0 else log[|log| - 1].end
  }

  function Record(log: Log, a: Action, size: nat): Entry {
    Entry(NextLsn(log), NextLsn(log) + size, a)
  }

  // ---- steps --------------------------------------------------------------

  datatype Event =
    | NewPage(pid: PageId)          // the file grows by zeroes, the pool formats its own copy
    | NewPageNoFrame(pid: PageId)   // the file grows, but every frame is pinned
    | LogImage(pid: PageId)
    | InsertRow(pid: PageId, slot: SlotId, tuple: HeapTuple)
    | HotUpdate(pid: PageId, oldSlot: SlotId, newSlot: SlotId, tuple: HeapTuple, xid: TxId)
    | StampOld(xid: TxId, from: Ctid, to: Ctid, tuple: HeapTuple)
    | UpdateHeader(ctid: Ctid, header: TupleHeader)
    | Commit
    | WritePage(page: PageId)
    | TakeCheckpoint

  predicate HasTuple(p: PageState, slot: SlotId) {
    1 <= slot <= |p.slots| && p.slots[slot - 1].Normal?
  }

  /** The heap changes only pages it can pin and that have slots or room for them. */
  predicate Usable(s: Sys, pid: PageId) {
    pid in s.pool && s.pool[pid].formatted
  }

  /** When the heap code performs each operation. */
  predicate Enabled(s: Sys, e: Event) {
    match e
    case NewPage(pid) => pid !in s.disk
    case NewPageNoFrame(pid) => pid !in s.disk
    case LogImage(pid) => Usable(s, pid)
    case InsertRow(pid, slot, _) => Usable(s, pid) && slot != INVALID_SLOT_ID
    case HotUpdate(pid, oldSlot, newSlot, _, _) =>
      Usable(s, pid) && HasTuple(At(s.pool, pid), oldSlot) && newSlot != INVALID_SLOT_ID && newSlot != oldSlot
    case StampOld(_, from, to, tuple) =>
      // the new version has just been inserted at `to`
      && Usable(s, from.page) && HasTuple(At(s.pool, from.page), from.slot) && HasTuple(At(s.pool, to.page), to.slot) && from != to
      && Plain(At(s.pool, to.page).slots[to.slot - 1]) == Plain(Normal(tuple))
    case UpdateHeader(ctid, _) => Usable(s, ctid.page) && HasTuple(At(s.pool, ctid.page), ctid.slot)
    case WritePage(page) => page in s.pool
    case _ => true
  }

  /** The log record an operation writes. */
  function Logged(s: Sys, e: Event): Action
    requires Enabled(s, e)
  {
    match e
    case LogImage(pid) => FullPage(pid, At(s.pool, pid).slots)
    case InsertRow(pid, slot, tuple) => Insert(pid, slot, tuple)
    case HotUpdate(pid, oldSlot, newSlot, tuple, xid) => Update(xid, Ctid(pid, oldSlot), Ctid(pid, newSlot), tuple)
    case StampOld(xid, from, to, tuple) => Update(xid, from, to, tuple)
    case UpdateHeader(ctid, header) =>
      Update(header.xmax, ctid, ctid, At(s.pool, ctid.page).slots[ctid.slot - 1].item.(header := header))
    case TakeCheckpoint => Checkpoint
    case _ => Other
  }

  predicate Logs(e: Event) {
    !e.NewPage? && !e.NewPageNoFrame? && !e.WritePage?
  }

  /** What an operation does to the one page it changes; None if it changes no page. */
  function Changed(s: Sys, e: Event): Option<(PageId, HeapPage)>
    requires Enabled(s, e)
  {
    match e
    case InsertRow(pid, slot, tuple) => Some((pid, PutAt(At(s.pool, pid).slots, slot, tuple)))
    case HotUpdate(pid, oldSlot, newSlot, tuple, xid) =>
      // the new version goes in first, then the old one is stamped
      Some((pid, Stamp(PutAt(At(s.pool, pid).slots, newSlot, tuple), oldSlot, xid, Ctid(pid, newSlot), true)))
    case StampOld(xid, from, to, _) =>
      // HeapFile::update sets no HOT flag, even when both versions share a page
      Some((from.page, Stamp(At(s.pool, from.page).slots, from.slot, xid, to, false)))
    case UpdateHeader(ctid, header) =>
      var p := At(s.pool, ctid.page);
      Some((ctid.page, p.slots[ctid.slot - 1 := Normal(p.slots[ctid.slot - 1].item.(header := header))]))
    case _ => None
  }

  /** flush(target): nothing if the target is already behind flushed_lsn_, else one sync. */
  function FlushTo(s: Sys, target: nat): Sys {
    if target <= s.flushedLsn then s
    else s.(durable := |s.log|, flushedLsn := if target < NextLsn(s.log) then target else NextLsn(s.log))
  }

  /** `size` is the length of the record the step appends, if it appends one. */
  function Next(s: Sys, e: Event, size: nat): Sys
    requires Enabled(s, e)
  {
    if e.NewPage? then Extended(s, e.pid, FRESH)
    else if e.NewPageNoFrame? then Extended(s, e.pid, BLANK)
    else if e.WritePage? then Written(s, e.page)
    else if e.TakeCheckpoint? then Checkpointed(s, size)
    else if e.Commit? then FlushTo(Appended(s, e, size), NextLsn(s.log))
    else Appended(s, e, size)
  }

  /** BufferPoolManager::new_page: nothing is logged, and the file gets a page of zeroes. */
  function Extended(s: Sys, pid: PageId, inPool: PageState): Sys {
    s.(disk := s.disk[pid := BLANK], pool := s.pool[pid := inPool])
  }

  /** write_frame: make the log durable up to the page's LSN, then write the page. */
  function Written(s: Sys, pid: PageId): Sys {
    FlushTo(s, At(s.pool, pid).lsn).(disk := s.disk[pid := At(s.pool, pid)])
  }

  /** log_checkpoint: write every page, then log the checkpoint and flush past it. */
  function Checkpointed(s: Sys, size: nat): Sys {
    var log := s.log + [Record(s.log, Checkpoint, size)];
    Sys(log, |log|, NextLsn(log), s.pool, s.pool, |s.log|, s.pool)
  }

  /** Append one record; stamp the page the operation changes, if any, with its lsn + 1. */
  function Appended(s: Sys, e: Event, size: nat): Sys
    requires Enabled(s, e)
  {
    var x := Record(s.log, Logged(s, e), size);
    var logged := s.(log := s.log + [x]);
    var change := Changed(s, e);
    if change.None? then logged
    else logged.(pool := s.pool[change.value.0 := PageState(x.lsn + 1, true, change.value.1)])
  }

  // ---- the log and the pages agree ----------------------------------------

  /** s' is s with record x appended, and in the pool each page is either left alone or stamped
      just past the start of x; both ways it is what redoing x would make of it. */
  ghost predicate AppendsTo(s: Sys, x: Entry, s': Sys) {
    && s' == s.(log := s.log + [x], pool := s'.pool) && s'.pool.Keys == s.pool.Keys
    && forall pid ::
      && (At(s'.pool, pid) == At(s.pool, pid) || (At(s'.pool, pid).lsn == x.lsn + 1 && At(s'.pool, pid).formatted))
      && Same(At(s'.pool, pid).slots, ApplyTo(x.action, pid, At(s.pool, pid).slots))
  }

  lemma {:induction false} HotUpdateMatchesRedo(s: Sys, e: Event, pid: PageId)
    requires Enabled(s, e) && e.HotUpdate? && e.pid == pid
    ensures Same(Changed(s, e).value.1, ApplyTo(Logged(s, e), pid, At(s.pool, pid).slots))
  {
  }

  /** Whatever a heap operation does to a page in the pool, redoing its record does too, up to
      infomask bits; the other pages are left as they are by both. */
  lemma {:induction false} HeapMatchesRedo(s: Sys, e: Event, pid: PageId)
    requires Enabled(s, e)
    ensures var before, change := At(s.pool, pid).slots, Changed(s, e);
      var after := if change.Some? && change.value.0 == pid then change.value.1 else before;
      Same(after, ApplyTo(Logged(s, e), pid, before))
    ensures Logged(s, e).Checkpoint? <==> e.TakeCheckpoint?
  {
    if e.HotUpdate? && e.pid == pid {
      HotUpdateMatchesRedo(s, e, pid);
    }
  }

  lemma {:induction false} OperationAppends(s: Sys, x: Entry, change: Option<(PageId, HeapPage)>, s': Sys)
    requires s' == (var logged := s.(log := s.log + [x]);
      if change.None? then logged
      else logged.(pool := s.pool[change.value.0 := PageState(x.lsn + 1, true, change.value.1)]))
    requires change.Some? ==> change.value.0 in s.pool
    requires forall pid ::
      var before := At(s.pool, pid).slots;
      var after := if change.Some? && change.value.0 == pid then change.value.1 else before;
      Same(after, ApplyTo(x.action, pid, before))
    ensures AppendsTo(s, x, s')
  {
  }

  lemma {:induction false} AppendedAppends(s: Sys, e: Event, size: nat)
    requires Enabled(s, e) && Logs(e) && !e.TakeCheckpoint?
    ensures AppendsTo(s, Record(s.log, Logged(s, e), size), Appended(s, e, size))
    ensures !Logged(s, e).Checkpoint?
  {
    forall pid {
      HeapMatchesRedo(s, e, pid);
    }
    OperationAppends(s, Record(s.log, Logged(s, e), size), Changed(s, e), Appended(s, e, size));
  }

  ghost predicate Ordered(s: Sys) {
    && WellFormed(s.log)
    && s.durable <= |s.log| && s.flushedLsn <= NextLsn(s.log)
    && (forall i :: s.durable <= i < |s.log| ==> s.flushedLsn <= s.log[i].lsn)
    && s.ckpt == LastCheckpoint(s.log) <= s.durable
    && (s.ckpt < |s.log| && s.log[s.ckpt].action.Checkpoint? ==> s.ckpt < s.durable)
    && s.pool.Keys == s.disk.Keys && s.base.Keys <= s.disk.Keys
  }

  /** The page on disk claims only records that are durable. */
  ghost predicate WalRule(s: Sys, pid: PageId) {
    forall i :: 0 <= i < |s.log| && s.log[i].lsn < At(s.disk, pid).lsn ==> i < s.durable
  }

  /** The pool holds the replay of the whole log, and both copies hold what their LSNs name. */
  ghost predicate PageOk(tail: Log, next: nat, pid: PageId, base: HeapPage, pool: PageState, disk: PageState) {
    && pool.lsn <= next && disk.lsn <= next
    && Same(pool.slots, Replay(tail, pid, base))
    && Reflects(tail, pid, base, pool)
    && Reflects(tail, pid, base, disk)
    && (!disk.formatted ==> disk.slots == base == [])
    && (!pool.formatted ==> pool.slots == base == [])
  }

  function Tail(s: Sys): Log
    requires s.ckpt <= |s.log|
  {
    s.log[s.ckpt..]
  }

  ghost predicate PageInv(s: Sys, pid: PageId)
    requires s.ckpt <= |s.log|
  {
    PageOk(Tail(s), NextLsn(s.log), pid, At(s.base, pid).slots, At(s.pool, pid), At(s.disk, pid))
  }

  ghost predicate Inv(s: Sys) {
    && Ordered(s)
    && (forall pid :: PageInv(s, pid))
    && (forall pid :: WalRule(s, pid))
  }

  // ---- every step keeps it ------------------------------------------------

  lemma {:induction false} AppendKeepsOrder(log: Log, x: Entry)
    requires WellFormed(log) && x.lsn == NextLsn(log) < x.end
    ensures WellFormed(log + [x]) && NextLsn(log + [x]) == x.end
    ensures LastCheckpoint(log + [x]) == if x.action.Checkpoint? then |log| else LastCheckpoint(log)
  {
    assert (log + [x])[..|log|] == log;
    forall i, j | 0 <= i < j < |log + [x]| ensures Precedes(log + [x], i, j) {
      if j < |log| {
        assert Precedes(log, i, j);
      } else if i < |log| - 1 {
        assert Precedes(log, i, |log| - 1);
      }
    }
  }

  /** Two logs that agree on the records starting below an LSN name the same prefix. */
  lemma {:induction false} NamedAgrees(a: Log, b: Log, lsn: nat)
    requires WellFormed(a) && WellFormed(b) && |a| <= |b| && forall i :: 0 <= i < |a| ==> a[i] == b[i]
    requires |a| < |b| ==> b[|a|].lsn >= lsn
    ensures Named(a, lsn) == Named(b, lsn) && a[..Named(a, lsn)] == b[..Named(b, lsn)]
  {
    var m, n := Named(a, lsn), Named(b, lsn);
    assert n <= |a| by {
      NamedIs(b, lsn);
    }
    assert m == n by {
      NamedIs(a, lsn);
      NamedIs(b, lsn);
      assert m < |a| ==> !(a[m].lsn < lsn);
      assert n < |a| ==> !(b[n].lsn < lsn);
    }
  }

  /** A page that a record leaves alone still holds exactly what its LSN names. */
  lemma {:induction false} StillReflects(tail: Log, x: Entry, pid: PageId, base: HeapPage, p: PageState)
    requires WellFormed(tail) && WellFormed(tail + [x]) && p.lsn <= x.lsn && Reflects(tail, pid, base, p)
    ensures Reflects(tail + [x], pid, base, p)
  {
    NamedAgrees(tail, tail + [x], p.lsn);
  }

  lemma {:induction false} ReplaySnoc(tail: Log, x: Entry, pid: PageId, base: HeapPage, before: HeapPage, after: HeapPage)
    requires Same(before, Replay(tail, pid, base)) && Same(after, ApplyTo(x.action, pid, before))
    ensures Same(after, Replay(tail + [x], pid, base))
  {
    assert (tail + [x])[..|tail|] == tail;
    ApplyRespectsSame(x.action, pid, before, Replay(tail, pid, base));
  }

  /** The page an operation changes and stamps with lsn + 1 holds everything up to that record. */
  lemma {:induction false} NowReflects(tail: Log, x: Entry, pid: PageId, base: HeapPage, after: HeapPage)
    requires WellFormed(tail + [x]) && Same(after, Replay(tail + [x], pid, base))
    ensures Reflects(tail + [x], pid, base, PageState(x.lsn + 1, true, after))
  {
    var longer := tail + [x];
    NamedIs(longer, x.lsn + 1);
    assert longer[|tail|] == x;
    assert longer[..|tail| + 1] == longer;
  }

  lemma {:induction false} FlushKeepsInv(s: Sys, target: nat)
    requires Inv(s)
    ensures Inv(FlushTo(s, target))
    ensures forall i :: 0 <= i < |s.log| && s.log[i].lsn < target ==> i < FlushTo(s, target).durable
  {
    var s' := FlushTo(s, target);
    forall pid ensures PageInv(s', pid) && WalRule(s', pid) {
      assert PageInv(s, pid) && WalRule(s, pid);
    }
  }

  /** The disk copy of one page is replaced by the pool's. */
  lemma {:induction false} WrittenPage(f: Sys, f': Sys, pid: PageId, q: PageId)
    requires f' == f.(disk := f.disk[pid := At(f.pool, pid)]) && f.ckpt <= |f.log| && PageInv(f, q)
    requires WalRule(f, q) && forall i :: 0 <= i < |f.log| && f.log[i].lsn < At(f.pool, pid).lsn ==> i < f.durable
    ensures PageInv(f', q) && WalRule(f', q)
  {
  }

  /** A page may be written once the log is durable up to its LSN. */
  lemma {:induction false} CopyKeepsInv(f: Sys, pid: PageId)
    requires Inv(f) && pid in f.pool
    requires forall i :: 0 <= i < |f.log| && f.log[i].lsn < At(f.pool, pid).lsn ==> i < f.durable
    ensures Inv(f.(disk := f.disk[pid := At(f.pool, pid)]))
  {
    var f' := f.(disk := f.disk[pid := At(f.pool, pid)]);
    assert Ordered(f');
    forall q ensures PageInv(f', q) && WalRule(f', q) {
      assert PageInv(f, q) && WalRule(f, q);
      WrittenPage(f, f', pid, q);
    }
  }

  lemma {:induction false} WriteKeepsInv(s: Sys, pid: PageId)
    requires Inv(s) && pid in s.pool
    ensures Inv(Written(s, pid))
  {
    FlushKeepsInv(s, At(s.pool, pid).lsn);
    CopyKeepsInv(FlushTo(s, At(s.pool, pid).lsn), pid);
  }

  /** A page of zeroes in the file, formatted or not in the pool, is the page the file lacked so far. */
  lemma {:induction false} ExtendKeepsInv(s: Sys, pid: PageId, inPool: PageState)
    requires Inv(s) && pid !in s.disk && (inPool == FRESH || inPool == BLANK)
    ensures Inv(Extended(s, pid, inPool))
  {
    var s' := Extended(s, pid, inPool);
    forall q ensures PageInv(s', q) && WalRule(s', q) {
      assert PageInv(s, q) && WalRule(s, q);
    }
  }

  lemma {:induction false} FreshCheckpoint(x: Entry, pid: PageId, p: PageState)
    requires x.action.Checkpoint? && p.lsn <= x.lsn < x.end && (!p.formatted ==> p.slots == [])
    ensures PageOk([x], x.end, pid, p.slots, p, p)
  {
    assert [x][..0] == [];
    assert Replay([x], pid, p.slots) == p.slots;
    assert Named([x], p.lsn) == 0;
  }

  lemma {:induction false} CheckpointKeepsInv(s: Sys, size: nat)
    requires Inv(s) && size > 0
    ensures Inv(Checkpointed(s, size))
  {
    var s' := Checkpointed(s, size);
    var x := Record(s.log, Checkpoint, size);
    AppendKeepsOrder(s.log, x);
    assert Tail(s') == [x];
    forall pid ensures PageInv(s', pid) {
      assert PageInv(s, pid);
      FreshCheckpoint(x, pid, At(s.pool, pid));
    }
  }

  /** One page across one appended record. */
  lemma {:induction false} AppendedPage(tail: Log, x: Entry, pid: PageId, base: HeapPage,
                                        pool: PageState, stamped: PageState, disk: PageState)
    requires WellFormed(tail) && WellFormed(tail + [x]) && PageOk(tail, x.lsn, pid, base, pool, disk)
    requires Same(stamped.slots, ApplyTo(x.action, pid, pool.slots))
    requires stamped == pool || (stamped.lsn == x.lsn + 1 && stamped.formatted)
    ensures PageOk(tail + [x], x.end, pid, base, stamped, disk)
  {
    assert (tail + [x])[|tail|].lsn < x.end;
    ReplaySnoc(tail, x, pid, base, pool.slots, stamped.slots);
    StillReflects(tail, x, pid, base, disk);
    if stamped == pool {
      StillReflects(tail, x, pid, base, pool);
    } else {
      NowReflects(tail, x, pid, base, stamped.slots);
    }
  }

  lemma {:induction false} AppendedTail(log: Log, x: Entry, ckpt: nat)
    requires WellFormed(log + [x]) && ckpt <= |log|
    ensures (log + [x])[ckpt..] == log[ckpt..] + [x]
    ensures WellFormed(log[ckpt..]) && WellFormed(log[ckpt..] + [x])
  {
    assert (log + [x])[ckpt..] == log[ckpt..] + [x];
    TailIsWellFormed(log + [x], ckpt);
    assert (log[ckpt..] + [x])[..|log[ckpt..]|] == log[ckpt..];
    PrefixIsWellFormed(log[ckpt..] + [x], |log[ckpt..]|);
  }

  lemma {:induction false} AppendKeepsPage(s: Sys, x: Entry, after: Sys, pid: PageId)
    requires Ordered(s) && PageInv(s, pid) && AppendsTo(s, x, after) && x.lsn == NextLsn(s.log) && x.lsn < x.end
    ensures PageInv(after, pid)
  {
    AppendKeepsOrder(s.log, x);
    AppendedTail(s.log, x, s.ckpt);
    AppendedPage(Tail(s), x, pid, At(s.base, pid).slots, At(s.pool, pid), At(after.pool, pid), At(s.disk, pid));
  }

  lemma {:induction false} AppendKeepsWalRule(s: Sys, x: Entry, after: Sys, pid: PageId)
    requires WalRule(s, pid) && AppendsTo(s, x, after) && At(s.disk, pid).lsn <= x.lsn
    ensures WalRule(after, pid)
  {
  }

  lemma {:induction false} AppendKeepsOrdered(s: Sys, x: Entry, after: Sys)
    requires Ordered(s) && AppendsTo(s, x, after)
    requires x.lsn == NextLsn(s.log) && x.lsn < x.end && !x.action.Checkpoint?
    ensures Ordered(after)
  {
    AppendKeepsOrder(s.log, x);
  }

  lemma {:induction false} AppendKeepsInv(s: Sys, x: Entry, after: Sys)
    requires Inv(s) && AppendsTo(s, x, after) && x.lsn == NextLsn(s.log) && x.lsn < x.end && !x.action.Checkpoint?
    ensures Inv(after)
  {
    AppendKeepsOrdered(s, x, after);
    forall pid ensures PageInv(after, pid) && WalRule(after, pid) {
      AppendKeepsPage(s, x, after, pid);
      AppendKeepsWalRule(s, x, after, pid);
    }
  }
}
