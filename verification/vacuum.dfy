/** Three-phase VACUUM (src/vacuum.cpp) over the meaning of the line pointers. */
module Vacuum {
  import opened StorageTypes
  import opened Transactions
  import opened Mvcc
  import opened Heap
  import M = MultimapIndex

  // ---- what the phases do -------------------------------------------------

  /** Phase 1 on one slot: a dead chain root becomes a redirect, any other dead version DEAD. */
  function MarkSlot(slot: Slot<HeapTuple>, pid: PageId, s: SlotId, tm: State, horizon: TxId): Slot<HeapTuple> {
    if slot.Normal? && IsDead(slot.item.header, tm, horizon) then
      if HasSuccessor(slot.item, pid, s) then Redirect(slot.item.header.tCtid.slot) else Dead
    else slot
  }

  function MarkPage(page: HeapPage, pid: PageId, tm: State, horizon: TxId): HeapPage {
    seq(|page|, i requires 0 <= i < |page| => MarkSlot(page[i], pid, i + 1, tm, horizon))
  }

  /** The versions phase 1 marks DEAD on a page, in slot order, as (key, TID). */
  function DeadOnPage(page: HeapPage, pid: PageId, upto: nat, tm: State, horizon: TxId): seq<IndexEntry>
    requires upto <= |page|
  {
    if upto == 0 then []
    else
      var slot := page[upto - 1];
      var rest := DeadOnPage(page, pid, upto - 1, tm, horizon);
      if slot.Normal? && MarkSlot(slot, pid, upto, tm, horizon).Dead?
      then rest + [IndexEntry(slot.item.itemId, Ctid(pid, upto))]
      else rest
  }

  function DeadTids(pages: seq<HeapPage>, upto: nat, tm: State, horizon: TxId): seq<IndexEntry>
    requires upto <= |pages|
  {
    if upto == 0 then []
    else
      var page := pages[upto - 1];
      DeadTids(pages, upto - 1, tm, horizon) + DeadOnPage(page, upto - 1, |page|, tm, horizon)
  }

  function AllDead(pages: seq<HeapPage>, tm: State, horizon: TxId): seq<IndexEntry> {
    DeadTids(pages, |pages|, tm, horizon)
  }

  function RemoveAll(entries: seq<IndexEntry>, dead: seq<IndexEntry>): seq<IndexEntry> {
    if dead == [] then entries
    else M.Remove(RemoveAll(entries, dead[..|dead| - 1]), dead[|dead| - 1])
  }

  function ReclaimSlot(slot: Slot<HeapTuple>): Slot<HeapTuple> {
    if slot.Dead? then Unused else slot
  }

  function ReclaimPage(page: HeapPage): HeapPage {
    seq(|page|, i requires 0 <= i < |page| => ReclaimSlot(page[i]))
  }

  function MarkAll(pages: seq<HeapPage>, tm: State, horizon: TxId): seq<HeapPage> {
    seq(|pages|, i requires 0 <= i < |pages| => MarkPage(pages[i], i, tm, horizon))
  }

  /** The heap after run: phase 3 is skipped when phase 1 found nothing to remove. */
  function Vacuumed(pages: seq<HeapPage>, tm: State, horizon: TxId): seq<HeapPage> {
    var marked := MarkAll(pages, tm, horizon);
    if AllDead(pages, tm, horizon) == [] then marked
    else seq(|marked|, i requires 0 <= i < |marked| => ReclaimPage(marked[i]))
  }

  // ---- the phases themselves ----------------------------------------------

  method CollectDead(page0: HeapPage, pid: PageId, horizon: TxId, tm: TransactionManager)
    returns (page: HeapPage, dead: seq<IndexEntry>)
    ensures page == MarkPage(page0, pid, tm.View(), horizon)
    ensures dead == DeadOnPage(page0, pid, |page0|, tm.View(), horizon)
    // a version goes exactly when its creator rolled back, or its deleter committed below the horizon
    ensures |page| == |page0| && forall i :: 0 <= i < |page0| ==>
      if !page0[i].Normal? then page[i] == page0[i]
      else
        var h := page0[i].item.header;
        if tm.View().GetStatus(h.xmin) == Aborted || (h.xmax != 0 && tm.View().GetStatus(h.xmax) == Committed && h.xmax < horizon) then
          page[i] == if h.hotUpdated && h.tCtid.page == pid && h.tCtid.slot != i + 1 then Redirect(h.tCtid.slot) else Dead
        else page[i] == page0[i]
  {
    page, dead := page0, [];
    for i := 0 to |page0|
      invariant |page| == |page0| && page[i..] == page0[i..]
      invariant forall j :: 0 <= j < i ==> page[j] == MarkSlot(page0[j], pid, j + 1, tm.View(), horizon)
      invariant dead == DeadOnPage(page0, pid, i, tm.View(), horizon)
    {
      assert page[i] == page[i..][0] == page0[i];
      if page[i].Normal? {
        var tuple := page[i].item;
        var isDead := false;
        if tm.View().GetStatus(tuple.header.xmin) == Aborted {
          isDead := true;
        } else if tuple.header.xmax != 0 && tm.View().GetStatus(tuple.header.xmax) == Committed
               && tuple.header.xmax < horizon {
          isDead := true;
        }
        if isDead {
          if HasSuccessor(tuple, pid, i + 1) {
            page := page[i := Redirect(tuple.header.tCtid.slot)];
          } else {
            page := page[i := Dead];
            dead := dead + [IndexEntry(tuple.itemId, Ctid(pid, i + 1))];
          }
        }
      }
    }
  }

  method Reclaim(page0: HeapPage) returns (page: HeapPage, freed: nat)
    ensures page == ReclaimPage(page0)
    ensures freed == multiset(page0)[Dead]
  {
    page, freed := page0, 0;
    for i := 0 to |page0|
      invariant |page| == |page0| && page[i..] == page0[i..]
      invariant forall j :: 0 <= j < i ==> page[j] == ReclaimSlot(page0[j])
      invariant freed == multiset(page0[..i])[Dead]
    {
      assert page[i] == page[i..][0] == page0[i];
      assert page0[..i + 1] == page0[..i] + [page0[i]];
      if page[i].Dead? {
        page := page[i := Unused];
        freed := freed + 1;
      }
    }
    assert page0[..|page0|] == page0;
  }

  /** Phase 1 over every page. */
  method MarkPhase(heap: HeapFile, horizon: TxId, tm: TransactionManager) returns (dead: seq<IndexEntry>)
    modifies heap
    ensures heap.pages == MarkAll(old(heap.pages), old(tm.View()), horizon)
    ensures dead == AllDead(old(heap.pages), old(tm.View()), horizon)
  {
    dead := [];
    ghost var pages0, view := heap.pages, tm.View();
    for pid := 0 to |heap.pages|
      invariant |heap.pages| == |pages0| && heap.pages[pid..] == pages0[pid..] && tm.View() == view
      invariant forall j :: 0 <= j < pid ==> heap.pages[j] == MarkPage(pages0[j], j, view, horizon)
      invariant dead == DeadTids(pages0, pid, view, horizon)
    {
      assert heap.pages[pid] == heap.pages[pid..][0] == pages0[pid];
      var page, found := CollectDead(heap.pages[pid], pid, horizon, tm);
      heap.pages := heap.pages[pid := page];
      dead := dead + found;
    }
  }

  /** Phase 2 for one index. */
  method CleanIndex(index: M.BTreeIndex, dead: seq<IndexEntry>)
    requires M.Sorted(index.tree)
    modifies index
    ensures index.tree == RemoveAll(old(index.tree), dead) && M.Sorted(index.tree)
  {
    for d := 0 to |dead|
      invariant M.Sorted(index.tree) && index.tree == RemoveAll(old(index.tree), dead[..d])
    {
      assert dead[..d + 1][..d] == dead[..d];
      var removed := index.RemoveEntry(dead[d].key, dead[d].ctid);
    }
    assert dead[..|dead|] == dead;
  }

  /** Phase 3 over every page. */
  method ReclaimPhase(heap: HeapFile)
    modifies heap
    ensures |heap.pages| == |old(heap.pages)|
    ensures forall j :: 0 <= j < |heap.pages| ==> heap.pages[j] == ReclaimPage(old(heap.pages)[j])
  {
    ghost var marked := heap.pages;
    for pid := 0 to |heap.pages|
      invariant |heap.pages| == |marked| && heap.pages[pid..] == marked[pid..]
      invariant forall j :: 0 <= j < pid ==> heap.pages[j] == ReclaimPage(marked[j])
    {
      assert heap.pages[pid] == heap.pages[pid..][0] == marked[pid];
      var page, freed := Reclaim(heap.pages[pid]);
      heap.pages := heap.pages[pid := page];
    }
  }

  method Run(heap: HeapFile, tm: TransactionManager, indexes: seq<M.BTreeIndex>)
    requires forall i, j :: 0 <= i < j < |indexes| ==> indexes[i] != indexes[j]
    requires forall k :: 0 <= k < |indexes| ==> M.Sorted(indexes[k].tree)
    modifies heap, set k | 0 <= k < |indexes| :: indexes[k]
    ensures forall horizon :: IsHorizon(old(tm.View()), horizon) ==>
      heap.pages == Vacuumed(old(heap.pages), old(tm.View()), horizon)
    ensures forall horizon, k :: IsHorizon(old(tm.View()), horizon) && 0 <= k < |indexes| ==>
      indexes[k].tree == RemoveAll(old(indexes[k].tree), AllDead(old(heap.pages), old(tm.View()), horizon))
  {
    var oldest := tm.OldestSnapshotXmin();
    ghost var view := tm.View();
    assert forall horizon :: IsHorizon(view, horizon) ==> horizon == oldest;
    var dead := MarkPhase(heap, oldest, tm);
    if dead == [] {
      return;
    }
    ghost var marked := heap.pages;
    for k := 0 to |indexes|
      invariant heap.pages == marked
      invariant forall m :: 0 <= m < k ==> indexes[m].tree == RemoveAll(old(indexes[m].tree), dead)
      invariant forall m :: k <= m < |indexes| ==> indexes[m].tree == old(indexes[m].tree)
      invariant forall m :: k <= m < |indexes| ==> M.Sorted(indexes[m].tree)
    {
      CleanIndex(indexes[k], dead);
    }
    ReclaimPhase(heap);
    assert heap.pages == Vacuumed(old(heap.pages), view, oldest);
  }
}
