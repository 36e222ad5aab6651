/** Redo (src/wal.cpp, lines 204-226 and 307-372): what replaying a log does to the pages, and why
    it may be repeated, interrupted, and started from any mixture of flushed pages. */
module Redo {
  import opened StorageTypes

  /** A page as redo sees it: its LSN, whether its header was ever written, and what its slots hold. */
  datatype PageState = PageState(lsn: nat, formatted: bool, slots: HeapPage)

  const FRESH := PageState(0, true, [])   // Page::init
  const BLANK := PageState(0, false, [])  // the zeroes Pager::allocate_page puts in the file

  datatype Action =
    | Insert(page: PageId, slot: SlotId, tuple: HeapTuple)
    | Update(xid: TxId, from: Ctid, to: Ctid, newTuple: HeapTuple)
    | FullPage(pid: PageId, image: HeapPage)
    | Checkpoint
    | Other  // COMMIT, ABORT, CLR and TOAST records change no heap page

  /** A log record: where it starts, where the next one starts, and what it did. */
  datatype Entry = Entry(lsn: nat, end: nat, action: Action)

  type Log = seq<Entry>

  ghost predicate Precedes(log: Log, i: nat, j: nat) {
    i < |log| && j < |log| && log[i].end <= log[j].lsn
  }

  ghost predicate WellFormed(log: Log) {
    && (forall i :: 0 <= i < |log| ==> log[i].lsn < log[i].end)
    && (forall i, j :: 0 <= i < j < |log| ==> Precedes(log, i, j))
  }

  lemma TailIsWellFormed(log: Log, k: nat)
    requires WellFormed(log) && k <= |log|
    ensures WellFormed(log[k..])
  {
    forall i, j | 0 <= i < j < |log[k..]| ensures Precedes(log[k..], i, j) {
      assert Precedes(log, k + i, k + j);
    }
  }

  lemma PrefixIsWellFormed(log: Log, k: nat)
    requires WellFormed(log) && k <= |log|
    ensures WellFormed(log[..k])
  {
    forall i, j | 0 <= i < j < |log[..k]| ensures Precedes(log[..k], i, j) {
      assert Precedes(log, i, j);
    }
  }

  predicate Touches(a: Action, pid: PageId) {
    match a
    case Insert(page, _, _) => page == pid
    case Update(_, from, to, _) => from.page == pid || to.page == pid
    case FullPage(page, _) => page == pid
    case _ => false
  }

  /** insert_tuple_at on a page with room. */
  function PutAt(slots: HeapPage, slot: SlotId, t: HeapTuple): HeapPage {
    if slot == INVALID_SLOT_ID then slots
    else if slot <= |slots| then slots[slot - 1 := Normal(t)]
    else slots + seq(slot - 1 - |slots|, _ => Unused) + [Normal(t)]
  }

  /** Mark a version as superseded, if a tuple is there. */
  function Stamp(slots: HeapPage, slot: SlotId, xid: TxId, to: Ctid, hot: bool): HeapPage {
    if 1 <= slot <= |slots| && slots[slot - 1].Normal? then
      var t := slots[slot - 1].item;
      var h := t.header.(xmax := xid, tCtid := to, hotUpdated := t.header.hotUpdated || hot);
      slots[slot - 1 := Normal(t.(header := h))]
    else slots
  }

  function ApplyTo(a: Action, pid: PageId, slots: HeapPage): HeapPage {
    match a
    case Insert(page, slot, t) => if page == pid then PutAt(slots, slot, t) else slots
    case Update(xid, from, to, t) =>
      var s := if from.page == pid then Stamp(slots, from.slot, xid, to, from.page == to.page) else slots;
      if to.page == pid then PutAt(s, to.slot, t) else s
    case FullPage(page, image) => if page == pid then image else slots
    case _ => slots
  }

  /** A page of zeroes has neither slots nor room for one: every change to it fails. */
  function Applied(a: Action, pid: PageId, p: PageState): HeapPage {
    if p.formatted then ApplyTo(a, pid, p.slots) else p.slots
  }

  /** One record against one page. A full-page image is applied unconditionally; any other
      record only if the page's LSN says it is not there yet. The page is stamped even when the
      change failed. */
  function RedoEntry(e: Entry, pid: PageId, p: PageState): PageState {
    if !Touches(e.action, pid) then p
    else if e.action.FullPage? then PageState(e.end, true, e.action.image)
    else if p.lsn > e.lsn then p
    else PageState(e.end, p.formatted, Applied(e.action, pid, p))
  }

  function RedoPage(log: Log, pid: PageId, p: PageState): PageState {
    if log == [] then p else RedoEntry(log[|log| - 1], pid, RedoPage(log[..|log| - 1], pid, p))
  }

  /** What the records say the page should hold, LSNs aside. */
  function Replay(log: Log, pid: PageId, slots: HeapPage): HeapPage {
    if log == [] then slots else ApplyTo(log[|log| - 1].action, pid, Replay(log[..|log| - 1], pid, slots))
  }

  /** How many records a page LSN claims: those that start below it. */
  function Named(log: Log, lsn: nat): (n: nat)
    ensures n <= |log|
  {
    if log == [] || log[0].lsn >= lsn then 0 else 1 + Named(log[1..], lsn)
  }

  lemma {:induction false} NamedIs(log: Log, lsn: nat)
    requires WellFormed(log)
    ensures forall i :: 0 <= i < |log| ==> (i < Named(log, lsn) <==> log[i].lsn < lsn)
  {
    if log != [] {
      if log[0].lsn < lsn {
        TailIsWellFormed(log, 1);
        NamedIs(log[1..], lsn);
      }
      forall i | 0 <= i < |log| ensures i < Named(log, lsn) <==> log[i].lsn < lsn {
        if i > 0 {
          assert log[1..][i - 1] == log[i] && Precedes(log, 0, i);
        }
      }
    }
  }

  // ---- tuples up to infomask ----------------------------------------------

  function Plain(s: Slot<HeapTuple>): Slot<HeapTuple> {
    if s.Normal? then
      Normal(s.item.(header := s.item.header.(hotUpdated := false, heapOnly := false, hasExternal := false)))
    else s
  }

  /** The same slots, except that infomask bits may differ. */
  ghost predicate Same(a: HeapPage, b: HeapPage) {
    |a| == |b| && forall i :: 0 <= i < |a| ==> Plain(a[i]) == Plain(b[i])
  }

  lemma ApplyRespectsSame(a: Action, pid: PageId, s: HeapPage, t: HeapPage)
    requires Same(s, t)
    ensures Same(ApplyTo(a, pid, s), ApplyTo(a, pid, t))
  {
  }

  // ---- repeat history -----------------------------------------------------

  /** The page holds exactly the records its LSN names, applied to `base`. */
  ghost predicate Reflects(log: Log, pid: PageId, base: HeapPage, p: PageState) {
    Same(p.slots, Replay(log[..Named(log, p.lsn)], pid, base))
  }

  function Max(a: nat, b: nat): nat {
    if a < b then b else a
  }

  lemma UntouchedReplay(log: Log, i: nat, pid: PageId, base: HeapPage)
    requires i < |log|
    ensures Replay(log[..i + 1], pid, base) == ApplyTo(log[i].action, pid, Replay(log[..i], pid, base))
    ensures !Touches(log[i].action, pid) ==> Replay(log[..i + 1], pid, base) == Replay(log[..i], pid, base)
  {
    assert log[..i + 1][..i] == log[..i];
  }

  /** After i records, the page holds the longer of those i and what it held to begin with. */
  lemma {:induction false} RedoProgress(log: Log, pid: PageId, base: HeapPage, p: PageState, i: nat)
    requires WellFormed(log) && Reflects(log, pid, base, p) && p.formatted && i <= |log|
    ensures var q := RedoPage(log[..i], pid, p);
      q.formatted && Same(q.slots, Replay(log[..Max(i, Named(log, q.lsn))], pid, base))
  {
    NamedIs(log, p.lsn);
    if i > 0 {
      RedoProgress(log, pid, base, p, i - 1);
      assert log[..i][..i - 1] == log[..i - 1];
      RedoStep(log, pid, base, RedoPage(log[..i - 1], pid, p), i - 1);
    }
  }

  lemma RedoStep(log: Log, pid: PageId, base: HeapPage, q: PageState, i: nat)
    requires WellFormed(log) && i < |log| && q.formatted
    requires Same(q.slots, Replay(log[..Max(i, Named(log, q.lsn))], pid, base))
    ensures var r := RedoEntry(log[i], pid, q);
      r.formatted && Same(r.slots, Replay(log[..Max(i + 1, Named(log, r.lsn))], pid, base))
  {
    var e := log[i];
    NamedIs(log, q.lsn);
    NamedIs(log, e.end);
    UntouchedReplay(log, i, pid, base);
    if Touches(e.action, pid) && (e.action.FullPage? || q.lsn <= e.lsn) {
      assert Named(log, e.end) == i + 1 by {
        if i + 1 < |log| {
          assert Precedes(log, i, i + 1);
        }
      }
      if !e.action.FullPage? {
        ApplyRespectsSame(e.action, pid, q.slots, Replay(log[..i], pid, base));
      }
    }
  }

  /** Repeat history. If a formatted page on disk holds exactly the records its LSN names, whichever
      prefix that is, redo brings it to the replay of the whole log. */
  lemma RepeatHistory(log: Log, pid: PageId, base: HeapPage, p: PageState)
    requires WellFormed(log) && Reflects(log, pid, base, p) && p.formatted
    ensures Same(RedoPage(log, pid, p).slots, Replay(log, pid, base))
  {
    RedoProgress(log, pid, base, p, |log|);
    assert log[..|log|] == log;
    NamedIs(log, RedoPage(log, pid, p).lsn);
  }

  // ---- redo after redo ----------------------------------------------------

  predicate HasImage(log: Log, pid: PageId) {
    exists i :: 0 <= i < |log| && log[i].action.FullPage? && log[i].action.pid == pid
  }

  lemma ImageInPrefix(log: Log, n: nat, pid: PageId)
    requires n <= |log|
    ensures HasImage(log[..n], pid) ==> HasImage(log, pid)
  {
    if HasImage(log[..n], pid) {
      var i :| 0 <= i < n && log[..n][i].action.FullPage? && log[..n][i].action.pid == pid;
      assert log[i].action.FullPage? && log[i].action.pid == pid;
    }
  }

  /** A full-page image makes the outcome independent of what was on disk. */
  lemma {:induction false} ImageForgetsDisk(log: Log, pid: PageId, p: PageState, q: PageState)
    requires HasImage(log, pid)
    ensures RedoPage(log, pid, p) == RedoPage(log, pid, q)
    decreases |log|
  {
    var n := |log| - 1;
    if !(log[n].action.FullPage? && log[n].action.pid == pid) {
      var i :| 0 <= i < |log| && log[i].action.FullPage? && log[i].action.pid == pid;
      assert log[..n][i] == log[i];
      ImageForgetsDisk(log[..n], pid, p, q);
    }
  }

  /** Without an image for the page, redo only ever raises the LSN, past every record it meets. */
  lemma {:induction false} RedoPassesAll(log: Log, pid: PageId, p: PageState)
    requires WellFormed(log)
    ensures !HasImage(log, pid) ==> RedoPage(log, pid, p).lsn >= p.lsn
    ensures forall i :: 0 <= i < |log| && Touches(log[i].action, pid) ==> log[i].lsn < RedoPage(log, pid, p).lsn
    decreases |log|
  {
    if log != [] {
      var n := |log| - 1;
      PrefixIsWellFormed(log, n);
      RedoPassesAll(log[..n], pid, p);
      ImageInPrefix(log, n, pid);
      forall i | 0 <= i < |log| && Touches(log[i].action, pid) ensures log[i].lsn < RedoPage(log, pid, p).lsn {
        if i < n {
          assert log[..n][i] == log[i];
          assert Precedes(log, i, n);
        }
      }
    }
  }

  lemma {:induction false} RedoSkips(log: Log, pid: PageId, p: PageState)
    requires !HasImage(log, pid)
    requires forall i :: 0 <= i < |log| && Touches(log[i].action, pid) ==> log[i].lsn < p.lsn
    ensures RedoPage(log, pid, p) == p
    decreases |log|
  {
    if log != [] {
      var n := |log| - 1;
      ImageInPrefix(log, n, pid);
      forall i | 0 <= i < n && Touches(log[..n][i].action, pid) ensures log[..n][i].lsn < p.lsn {
        assert log[i] == log[..n][i];
      }
      RedoSkips(log[..n], pid, p);
    }
  }

  lemma {:induction false} RedoSplit(log: Log, i: nat, pid: PageId, p: PageState)
    requires i <= |log|
    ensures RedoPage(log, pid, p) == RedoPage(log[i..], pid, RedoPage(log[..i], pid, p))
    decreases |log|
  {
    if i == |log| {
      assert log[i..] == [] && log[..i] == log;
    } else {
      var n := |log| - 1;
      RedoSplit(log[..n], i, pid, p);
      assert log[..n][..i] == log[..i];
      assert log[..n][i..] == log[i..][..n - i];
      assert log[i..][n - i] == log[n];
    }
  }

  /** Crash during recovery: redo from the start after any part of it was done and flushed ends
      exactly where one uninterrupted redo would have ended, page LSN included. */
  lemma RedoAfterPartialRedo(log: Log, i: nat, pid: PageId, p: PageState)
    requires WellFormed(log) && i <= |log|
    ensures RedoPage(log, pid, RedoPage(log[..i], pid, p)) == RedoPage(log, pid, p)
  {
    var mid := RedoPage(log[..i], pid, p);
    if HasImage(log, pid) {
      ImageForgetsDisk(log, pid, mid, p);
    } else {
      PrefixIsWellFormed(log, i);
      RedoPassesAll(log[..i], pid, p);
      forall k | 0 <= k < i && Touches(log[..i][k].action, pid) ensures log[..i][k].lsn < mid.lsn {}
      ImageInPrefix(log, i, pid);
      RedoSkips(log[..i], pid, mid);
      RedoSplit(log, i, pid, mid);
      RedoSplit(log, i, pid, p);
    }
  }

  /** A second redo changes nothing, not even a page LSN. */
  lemma SecondRedoChangesNothing(log: Log, pid: PageId, p: PageState)
    requires WellFormed(log)
    ensures RedoPage(log, pid, RedoPage(log, pid, p)) == RedoPage(log, pid, p)
  {
    RedoAfterPartialRedo(log, |log|, pid, p);
    assert log[..|log|] == log;
  }

  // ---- pages that were allocated and never written -------------------------

  /** The record is to leave a tuple on the page. */
  predicate Puts(a: Action, pid: PageId) {
    match a
    case Insert(page, slot, _) => page == pid && slot != INVALID_SLOT_ID
    case Update(_, _, to, _) => to.page == pid && to.slot != INVALID_SLOT_ID
    case _ => false
  }

  predicate PutsNothing(log: Log, pid: PageId) {
    forall i :: 0 <= i < |log| ==> !Puts(log[i].action, pid)
  }

  lemma {:induction false} BlankStaysBlank(log: Log, pid: PageId, p: PageState)
    requires !p.formatted && !HasImage(log, pid)
    ensures RedoPage(log, pid, p).slots == p.slots && !RedoPage(log, pid, p).formatted
    decreases |log|
  {
    if log != [] {
      var n := |log| - 1;
      ImageInPrefix(log, n, pid);
      BlankStaysBlank(log[..n], pid, p);
      assert !(log[n].action.FullPage? && log[n].action.pid == pid);
    }
  }

  /** From an empty page, history ends with slots exactly when some record put a tuple there. */
  lemma {:induction false} ReplayStaysEmptyExactlyWhen(log: Log, pid: PageId)
    requires !HasImage(log, pid)
    ensures Replay(log, pid, []) == [] <==> PutsNothing(log, pid)
    decreases |log|
  {
    if log != [] {
      var n := |log| - 1;
      ImageInPrefix(log, n, pid);
      ReplayStaysEmptyExactlyWhen(log[..n], pid);
      assert !(log[n].action.FullPage? && log[n].action.pid == pid);
      assert PutsNothing(log, pid) <==> PutsNothing(log[..n], pid) && !Puts(log[n].action, pid) by {
        assert forall i :: 0 <= i < n ==> log[..n][i] == log[i];
      }
      var before := Replay(log[..n], pid, []);
      assert |ApplyTo(log[n].action, pid, before)| >= |before|;
    }
  }

  /** The exact reach of redo. It brings a page to the replay of the log exactly when its copy on disk
      was formatted, or an image of it is replayed, or no replayed record puts a tuple on it. */
  lemma {:induction false} RedoRestoresExactlyWhen(log: Log, pid: PageId, base: HeapPage, p: PageState)
    requires WellFormed(log) && Reflects(log, pid, base, p) && (!p.formatted ==> p.slots == base == [])
    ensures Same(RedoPage(log, pid, p).slots, Replay(log, pid, base)) <==> p.formatted || HasImage(log, pid) || PutsNothing(log, pid)
  {
    if p.formatted {
      RepeatHistory(log, pid, base, p);
    } else if HasImage(log, pid) {
      RepeatHistory(log, pid, base, p.(formatted := true));
      ImageForgetsDisk(log, pid, p, p.(formatted := true));
    } else {
      BlankStaysBlank(log, pid, p);
      ReplayStaysEmptyExactlyWhen(log, pid);
    }
  }

  // ---- the recovery loops -------------------------------------------------

  function PageOf(pages: seq<PageState>, pid: PageId): PageState {
    if pid < |pages| then pages[pid] else FRESH
  }

  /** Where redo starts: the last checkpoint record, or the start of the log. */
  function LastCheckpoint(log: Log): (i: nat)
    ensures i <= |log|
    ensures i == 0 || (i < |log| && log[i].action.Checkpoint?)
  {
    if log == [] then 0
    else if log[|log| - 1].action.Checkpoint? then |log| - 1
    else LastCheckpoint(log[..|log| - 1])
  }

  class Recovery {
    var pages: seq<PageState>

    constructor (pages: seq<PageState>)
      ensures this.pages == pages
    {
      this.pages := pages;
    }

    /** Pages the file lacks are added formatted; pages of zeroes already in it stay what they are. */
    method EnsurePages(upto: PageId)
      modifies this
      ensures |pages| == (if upto < old(|pages|) then old(|pages|) else upto + 1) && old(pages) <= pages
      ensures forall pid :: PageOf(pages, pid) == PageOf(old(pages), pid)
    {
      while |pages| <= upto
        invariant old(|pages|) <= |pages| && (|pages| <= upto + 1 || |pages| == old(|pages|))
        invariant old(pages) <= pages && forall pid :: PageOf(pages, pid) == PageOf(old(pages), pid)
        decreases upto + 1 - |pages|
      {
        pages := pages + [FRESH];
      }
    }

    /** with_page: skip a record the page already reflects, otherwise apply it and stamp the page. */
    method WithPage(pid: PageId, e: Entry)
      requires Touches(e.action, pid) && !e.action.FullPage?
      modifies this
      ensures PageOf(pages, pid) == RedoEntry(e, pid, PageOf(old(pages), pid))
      ensures forall q :: q != pid ==> PageOf(pages, q) == PageOf(old(pages), q)
    {
      EnsurePages(pid);
      if pages[pid].lsn > e.lsn {
        return;
      }
      pages := pages[pid := PageState(e.end, pages[pid].formatted, Applied(e.action, pid, pages[pid]))];
    }

    method RedoOne(e: Entry)
      modifies this
      ensures forall q :: PageOf(pages, q) == RedoEntry(e, q, PageOf(old(pages), q))
    {
      match e.action {
        case FullPage(pid, image) =>
          EnsurePages(pid);
          pages := pages[pid := PageState(e.end, true, image)];
        case Insert(page, _, _) =>
          WithPage(page, e);
        case Update(_, from, to, _) =>
          WithPage(from.page, e);
          if from.page != to.page {
            WithPage(to.page, e);
          }
        case _ =>
      }
    }

    /** Pass 1's search for the checkpoint and pass 2. */
    method Run(log: Log)
      modifies this
      ensures forall pid :: PageOf(pages, pid) == RedoPage(log[LastCheckpoint(log)..], pid, PageOf(old(pages), pid))
    {
      var start := 0;
      for i := 0 to |log|
        invariant start == LastCheckpoint(log[..i]) <= i
        invariant pages == old(pages)
      {
        assert log[..i + 1][..i] == log[..i];
        if log[i].action.Checkpoint? {
          start := i;
        }
      }
      assert log[..|log|] == log;
      var n := |log| - start;
      for i := 0 to n
        invariant forall pid :: PageOf(pages, pid) == RedoPage(log[start..][..i], pid, PageOf(old(pages), pid))
      {
        assert log[start..][..i + 1][..i] == log[start..][..i];
        RedoOne(log[start + i]);
      }
      assert log[start..][..n] == log[start..];
    }
  }
}
