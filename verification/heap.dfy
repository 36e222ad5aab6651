/** Version chains: the HOT walk and the sequential scan over slotted heap pages
    (src/heap.cpp, lines 327-414), on the meaning of the line pointers. */
module Heap {
  import opened StorageTypes
  import opened Transactions

  predicate ValidSlot(page: HeapPage, s: SlotId) {
    1 <= s <= |page|
  }

  /** A HOT-updated version whose t_ctid names another slot of its own page. */
  predicate HasSuccessor(t: HeapTuple, pid: PageId, s: SlotId) {
    t.header.hotUpdated && t.header.tCtid.page == pid && t.header.tCtid.slot != s
  }

  predicate VisibleAt(page: HeapPage, s: SlotId, snap: Snapshot, tm: State) {
    ValidSlot(page, s) && page[s - 1].Normal? && IsTupleVisible(page[s - 1].item.header, snap, tm)
  }

  /** Where the walk goes from a slot that does not answer it. */
  function NextSlot(page: HeapPage, pid: PageId, s: SlotId): Option<SlotId> {
    if !ValidSlot(page, s) then None
    else match page[s - 1]
      case Redirect(target) => if target == INVALID_SLOT_ID then None else Some(target)
      case Normal(t) => if HasSuccessor(t, pid, s) then Some(t.header.tCtid.slot) else None
      case _ => None
  }

  /** The walk of hot_search, allowed `steps` iterations. */
  function Walk(page: HeapPage, pid: PageId, s: SlotId, snap: Snapshot, tm: State, steps: nat): Option<SlotId>
    decreases steps
  {
    if steps == 0 then None
    else if VisibleAt(page, s, snap, tm) then Some(s)
    else match NextSlot(page, pid, s)
      case None => None
      case Some(n) => Walk(page, pid, n, snap, tm, steps - 1)
  }

  /** hot_search: at most num_slots + 1 steps. */
  function HotResult(pages: seq<HeapPage>, root: Ctid, snap: Snapshot, tm: State): Option<(Ctid, HeapTuple)> {
    if root.slot == INVALID_SLOT_ID || root.page >= |pages| then None
    else
      var page := pages[root.page];
      match Walk(page, root.page, root.slot, snap, tm, |page| + 1)
      case None => None
      case Some(s) => if VisibleAt(page, s, snap, tm) then Some((Ctid(root.page, s), page[s - 1].item)) else None
  }

  // ---- the bounded walk misses nothing ------------------------------------

  /** The slot reached after k hops, with no bound on k. */
  function Hop(page: HeapPage, pid: PageId, root: SlotId, k: nat): Option<SlotId> {
    if k == 0 then Some(root)
    else match Hop(page, pid, root, k - 1)
      case None => None
      case Some(s) => NextSlot(page, pid, s)
  }

  /** `s` is the first version on the unbounded chain that the snapshot sees. */
  ghost predicate FirstVisible(page: HeapPage, pid: PageId, root: SlotId, snap: Snapshot, tm: State, s: SlotId, k: nat) {
    && Hop(page, pid, root, k) == Some(s) && VisibleAt(page, s, snap, tm)
    && forall j :: 0 <= j < k ==>
         Hop(page, pid, root, j).Some? && !VisibleAt(page, Hop(page, pid, root, j).value, snap, tm)
  }

  lemma {:induction false} HopFromNext(page: HeapPage, pid: PageId, root: SlotId, k: nat)
    requires NextSlot(page, pid, root).Some?
    ensures Hop(page, pid, root, k + 1) == Hop(page, pid, NextSlot(page, pid, root).value, k)
  {
    if k > 0 {
      HopFromNext(page, pid, root, k - 1);
    } else {
      assert Hop(page, pid, root, 0) == Some(root);
    }
  }

  lemma {:induction false} WalkFindsFirst(page: HeapPage, pid: PageId, root: SlotId, snap: Snapshot, tm: State,
                                          steps: nat, s: SlotId, k: nat)
    requires FirstVisible(page, pid, root, snap, tm, s, k)
    ensures Walk(page, pid, root, snap, tm, steps) == if k < steps then Some(s) else None
    decreases steps
  {
    if steps > 0 && k > 0 {
      assert Hop(page, pid, root, 0) == Some(root);
      if NextSlot(page, pid, root).None? {
        NoHopPastEnd(page, pid, root, k);
      } else {
        var n := NextSlot(page, pid, root).value;
        forall j | 0 <= j < k ensures Hop(page, pid, root, j + 1) == Hop(page, pid, n, j) {
          HopFromNext(page, pid, root, j);
        }
        forall j | 0 <= j < k - 1
          ensures Hop(page, pid, n, j).Some? && !VisibleAt(page, Hop(page, pid, n, j).value, snap, tm)
        {
          assert Hop(page, pid, root, j + 1).Some?;
        }
        WalkFindsFirst(page, pid, n, snap, tm, steps - 1, s, k - 1);
      }
    }
  }

  lemma {:induction false} NoHopPastEnd(page: HeapPage, pid: PageId, root: SlotId, k: nat)
    requires NextSlot(page, pid, root).None? && k > 0
    ensures Hop(page, pid, root, k).None?
  {
    if k > 1 {
      NoHopPastEnd(page, pid, root, k - 1);
    } else {
      assert Hop(page, pid, root, 0) == Some(root);
    }
  }

  lemma {:induction false} WalkAnswers(page: HeapPage, pid: PageId, root: SlotId, snap: Snapshot, tm: State,
                                       steps: nat) returns (k: nat)
    requires Walk(page, pid, root, snap, tm, steps).Some?
    ensures FirstVisible(page, pid, root, snap, tm, Walk(page, pid, root, snap, tm, steps).value, k)
    decreases steps
  {
    assert Hop(page, pid, root, 0) == Some(root);
    if VisibleAt(page, root, snap, tm) {
      k := 0;
    } else {
      var n := NextSlot(page, pid, root).value;
      var k' := WalkAnswers(page, pid, n, snap, tm, steps - 1);
      k := k' + 1;
      forall j | 0 <= j < k ensures Hop(page, pid, root, j + 1) == Hop(page, pid, n, j) {
        HopFromNext(page, pid, root, j);
      }
      forall j | 0 <= j < k
        ensures Hop(page, pid, root, j).Some? && !VisibleAt(page, Hop(page, pid, root, j).value, snap, tm)
      {
        if j > 0 {
          assert Hop(page, pid, root, (j - 1) + 1) == Hop(page, pid, n, j - 1);
        }
      }
    }
  }

  /** After a repeated slot the chain only repeats itself. */
  lemma {:induction false} ChainRepeats(page: HeapPage, pid: PageId, root: SlotId, i: nat, j: nat, m: nat)
    requires Hop(page, pid, root, i) == Hop(page, pid, root, j)
    ensures Hop(page, pid, root, i + m) == Hop(page, pid, root, j + m)
  {
    if m > 0 {
      ChainRepeats(page, pid, root, i, j, m - 1);
    }
  }

  lemma {:induction false} DistinctSlotsFit(page: HeapPage, pid: PageId, root: SlotId, k: nat)
    requires forall j :: 0 <= j < k ==> Hop(page, pid, root, j).Some? && ValidSlot(page, Hop(page, pid, root, j).value)
    requires forall i, j :: 0 <= i < j < k ==> Hop(page, pid, root, i) != Hop(page, pid, root, j)
    ensures k <= |page|
  {
    var visited := SlotsVisited(page, pid, root, k);
    var all := SlotNumbers(|page|);
    assert visited <= all;
    Subset(visited, all);
  }

  lemma {:induction false} Subset(a: set<nat>, b: set<nat>)
    requires a <= b
    ensures |a| <= |b|
  {
    if a != {} {
      var x :| x in a;
      Subset(a - {x}, b - {x});
    }
  }

  lemma {:induction false} SlotNumbers(n: nat) returns (all: set<nat>)
    ensures |all| == n && forall s: nat :: s in all <==> 1 <= s <= n
  {
    if n == 0 {
      all := {};
    } else {
      var rest := SlotNumbers(n - 1);
      all := rest + {n};
    }
  }

  ghost predicate Visited(page: HeapPage, pid: PageId, root: SlotId, k: nat, s: SlotId) {
    exists j :: 0 <= j < k && Hop(page, pid, root, j) == Some(s)
  }

  lemma {:induction false} SlotsVisited(page: HeapPage, pid: PageId, root: SlotId, k: nat) returns (visited: set<nat>)
    requires forall j :: 0 <= j < k ==> Hop(page, pid, root, j).Some?
    requires forall i, j :: 0 <= i < j < k ==> Hop(page, pid, root, i) != Hop(page, pid, root, j)
    ensures |visited| == k
    ensures forall s :: s in visited ==> Visited(page, pid, root, k, s)
  {
    if k == 0 {
      visited := {};
    } else {
      var rest := SlotsVisited(page, pid, root, k - 1);
      var last := Hop(page, pid, root, k - 1).value;
      visited := rest + {last};
      forall s | s in visited ensures Visited(page, pid, root, k, s) {
        if s == last {
          assert Hop(page, pid, root, k - 1) == Some(s);
        } else {
          assert Visited(page, pid, root, k - 1, s);
        }
      }
    }
  }

  /** A first visible version sits fewer hops away than the page has slots. */
  lemma FirstVisibleIsNear(page: HeapPage, pid: PageId, root: SlotId, snap: Snapshot, tm: State, s: SlotId, k: nat)
    requires FirstVisible(page, pid, root, snap, tm, s, k)
    ensures k < |page|
  {
    forall i, j | 0 <= i < j <= k ensures Hop(page, pid, root, i) != Hop(page, pid, root, j) {
      if Hop(page, pid, root, i) == Hop(page, pid, root, j) {
        ChainRepeats(page, pid, root, i, j, k - j);
        assert false;
      }
    }
    forall j | 0 <= j < k + 1
      ensures Hop(page, pid, root, j).Some? && ValidSlot(page, Hop(page, pid, root, j).value)
    {
      if j < k {
        assert Hop(page, pid, root, j + 1).Some?;
      }
    }
    DistinctSlotsFit(page, pid, root, k + 1);
  }

  /** The step limit never hides a version, whatever the page looks like: hot_search answers
      with a slot exactly when it is the first visible one on the unbounded chain. */
  lemma BoundedWalkIsComplete(pages: seq<HeapPage>, root: Ctid, snap: Snapshot, tm: State, s: SlotId)
    requires root.slot != INVALID_SLOT_ID && root.page < |pages|
    ensures (exists k :: FirstVisible(pages[root.page], root.page, root.slot, snap, tm, s, k))
       <==> (HotResult(pages, root, snap, tm).Some? && HotResult(pages, root, snap, tm).value.0 == Ctid(root.page, s))
  {
    var page := pages[root.page];
    if k :| FirstVisible(page, root.page, root.slot, snap, tm, s, k) {
      FirstVisibleIsNear(page, root.page, root.slot, snap, tm, s, k);
      WalkFindsFirst(page, root.page, root.slot, snap, tm, |page| + 1, s, k);
    }
    if Walk(page, root.page, root.slot, snap, tm, |page| + 1).Some? {
      var k := WalkAnswers(page, root.page, root.slot, snap, tm, |page| + 1);
    }
  }

  // ---- sequential scan ----------------------------------------------------

  function PageRows(page: HeapPage, pid: PageId, from: nat, snap: Snapshot, tm: State): seq<(Ctid, HeapTuple)>
    decreases |page| - from
  {
    if from >= |page| then []
    else if VisibleAt(page, from + 1, snap, tm) then
      [(Ctid(pid, from + 1), page[from].item)] + PageRows(page, pid, from + 1, snap, tm)
    else PageRows(page, pid, from + 1, snap, tm)
  }

  /** seq_scan under a snapshot: the visible rows in page and slot order. */
  function VisibleRows(pages: seq<HeapPage>, from: nat, snap: Snapshot, tm: State): seq<(Ctid, HeapTuple)>
    decreases |pages| - from
  {
    if from >= |pages| then []
    else PageRows(pages[from], from, 0, snap, tm) + VisibleRows(pages, from + 1, snap, tm)
  }

  // ---- the file -----------------------------------------------------------

  class HeapFile {
    var pages: seq<HeapPage>

    constructor (pages: seq<HeapPage>)
      ensures this.pages == pages
    {
      this.pages := pages;
    }

    method HotSearch(root: Ctid, snap: Snapshot, tm: TransactionManager) returns (hit: Option<(Ctid, HeapTuple)>)
      ensures hit == HotResult(pages, root, snap, tm.View())
    {
      if root.slot == INVALID_SLOT_ID || root.page >= |pages| {
        return None;
      }
      var page := pages[root.page];
      var slot := root.slot;
      var step := 0;
      while step < |page| + 1
        invariant step <= |page| + 1
        invariant Walk(page, root.page, root.slot, snap, tm.View(), |page| + 1)
               == Walk(page, root.page, slot, snap, tm.View(), |page| + 1 - step)
      {
        step := step + 1;
        if !ValidSlot(page, slot) {
          return None;
        }
        match page[slot - 1] {
          case Redirect(target) =>
            slot := target;
            if slot == INVALID_SLOT_ID {
              return None;
            }
          case Normal(tuple) =>
            if IsTupleVisible(tuple.header, snap, tm.View()) {
              return Some((Ctid(root.page, slot), tuple));
            }
            if !HasSuccessor(tuple, root.page, slot) {
              return None;
            }
            slot := tuple.header.tCtid.slot;
          case _ =>
            return None;
        }
      }
      return None;
    }

    method SeqScan(snap: Snapshot, tm: TransactionManager) returns (rows: seq<(Ctid, HeapTuple)>)
      ensures rows == VisibleRows(pages, 0, snap, tm.View())
    {
      rows := [];
      var pid := 0;
      while pid < |pages|
        invariant pid <= |pages|
        invariant rows + VisibleRows(pages, pid, snap, tm.View()) == VisibleRows(pages, 0, snap, tm.View())
      {
        var page := pages[pid];
        ghost var before := rows;
        var s := 1;
        while s <= |page|
          invariant 1 <= s <= |page| + 1
          invariant rows + PageRows(page, pid, s - 1, snap, tm.View()) == before + PageRows(page, pid, 0, snap, tm.View())
        {
          if page[s - 1].Normal? && IsTupleVisible(page[s - 1].item.header, snap, tm.View()) {
            rows := rows + [(Ctid(pid, s), page[s - 1].item)];
          }
          s := s + 1;
        }
        assert rows == before + PageRows(page, pid, 0, snap, tm.View());
        pid := pid + 1;
      }
    }
  }
}
