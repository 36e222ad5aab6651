/** What HOT updates do for readers (src/heap.cpp, lines 217-262 and 357-414): the chain of versions an
    index entry leads to, and the one that hot_search answers with, before and after VACUUM. */
module HotChains {
  import opened StorageTypes
  import opened Transactions
  import opened Heap
  import Mvcc
  import Vacuum

  // ---- what a snapshot sees of one version ---------------------------------------

  /** The transaction's work is part of the snapshot: it is the owner's own, or had committed before. */
  ghost predicate Sees(snap: Snapshot, tm: State, x: TxId) {
    || (x == snap.owner && x != 0)
    || (Mvcc.HadCommitted(tm, x) && x < snap.xmax && x !in snap.activeTxs)
  }

  /** A version is visible exactly when its creator is seen and its deleter, if there is one, is not. */
  lemma VisibleExactlyWhen(h: TupleHeader, snap: Snapshot, tm: State)
    ensures IsTupleVisible(h, snap, tm) <==> Sees(snap, tm, h.xmin) && (h.xmax == 0 || !Sees(snap, tm, h.xmax))
  {
  }

  // ---- one HOT update on a page ----------------------------------------------------

  /** The old version is marked with its deleter and its successor, and keeps everything else. */
  ghost predicate Superseded(before: Slot<HeapTuple>, after: Slot<HeapTuple>, xid: TxId, to: Ctid) {
    && before.Normal? && after.Normal?
    && after.item.itemId == before.item.itemId && after.item.price == before.item.price
    && after.item.header.xmin == before.item.header.xmin
    && after.item.header.xmax == xid && after.item.header.tCtid == to
    && after.item.header.heapOnly == before.item.header.heapOnly
    && after.item.header.hasExternal == before.item.header.hasExternal
  }

  /** `v` has been put into an unused slot as the heap-only successor of the version in slot `from`. */
  ghost predicate HotUpdated(page: HeapPage, after: HeapPage, pid: PageId, from: SlotId, v: Version) {
    && ValidSlot(page, from) && |page| <= |after| && ValidSlot(after, v.slot) && v.slot != from
    && (v.slot <= |page| ==> page[v.slot - 1].Unused?)
    && Superseded(page[from - 1], after[from - 1], v.xid, Ctid(pid, v.slot)) && after[from - 1].item.header.hotUpdated
    && after[v.slot - 1] == Normal(HeapTuple(TupleHeader(v.xid, 0, Ctid(pid, v.slot), false, true, false), v.itemId, v.price))
    && forall i :: 0 <= i < |page| && i != from - 1 && i != v.slot - 1 ==> after[i] == page[i]
  }

  // ---- chains ------------------------------------------------------------------------

  /** A row version: where it lies, who made it and what it says. */
  datatype Version = Version(slot: SlotId, xid: TxId, itemId: int, price: int)

  /** Who ended version j: the maker of the next one, or whoever ended the last. */
  function EnderOf(chain: seq<Version>, j: nat, end: TxId): TxId
    requires j < |chain|
  {
    if j + 1 < |chain| then chain[j + 1].xid else end
  }

  /** Slot `chain[j].slot` still holds version j. */
  ghost predicate VersionAt(page: HeapPage, pid: PageId, chain: seq<Version>, j: nat, end: TxId) {
    && j < |chain| && ValidSlot(page, chain[j].slot) && page[chain[j].slot - 1].Normal?
    && var t := page[chain[j].slot - 1].item;
       && t.header.xmin == chain[j].xid && t.header.xmax == EnderOf(chain, j, end)
       && t.itemId == chain[j].itemId && t.price == chain[j].price
       && if j + 1 < |chain| then
            t.header.hotUpdated && t.header.tCtid == Ctid(pid, chain[j + 1].slot) && chain[j + 1].slot != chain[j].slot
          else !t.header.hotUpdated
  }

  /** VACUUM has turned version j into a redirect to the next one. */
  ghost predicate RedirectAt(page: HeapPage, chain: seq<Version>, j: nat) {
    && j + 1 < |chain| && ValidSlot(page, chain[j].slot) && chain[j + 1].slot != INVALID_SLOT_ID
    && page[chain[j].slot - 1] == Redirect(chain[j + 1].slot)
  }

  ghost predicate ChainAt(page: HeapPage, pid: PageId, chain: seq<Version>, j: nat, end: TxId) {
    VersionAt(page, pid, chain, j, end) || RedirectAt(page, chain, j)
  }

  ghost predicate IsChain(page: HeapPage, pid: PageId, chain: seq<Version>, end: TxId) {
    chain != [] && forall j: nat :: j < |chain| ==> ChainAt(page, pid, chain, j, end)
  }

  /** Version j is there and the snapshot sees it. */
  ghost predicate Answers(page: HeapPage, pid: PageId, chain: seq<Version>, j: nat, end: TxId, snap: Snapshot, tm: State) {
    && VersionAt(page, pid, chain, j, end)
    && Sees(snap, tm, chain[j].xid) && (EnderOf(chain, j, end) == 0 || !Sees(snap, tm, EnderOf(chain, j, end)))
  }

  // ---- what hot_search answers ----------------------------------------------------------

  lemma {:induction false} HopsAlongChain(page: HeapPage, pid: PageId, chain: seq<Version>, end: TxId, k: nat)
    requires IsChain(page, pid, chain, end)
    ensures Hop(page, pid, chain[0].slot, k) == if k < |chain| then Some(chain[k].slot) else None
  {
    if k > 0 {
      HopsAlongChain(page, pid, chain, end, k - 1);
      if k <= |chain| {
        assert ChainAt(page, pid, chain, k - 1, end);
      }
    }
  }

  lemma AnswersIsVisible(page: HeapPage, pid: PageId, chain: seq<Version>, j: nat, end: TxId, snap: Snapshot, tm: State)
    requires j < |chain| && ChainAt(page, pid, chain, j, end)
    ensures VisibleAt(page, chain[j].slot, snap, tm) <==> Answers(page, pid, chain, j, end, snap, tm)
  {
    if VersionAt(page, pid, chain, j, end) {
      VisibleExactlyWhen(page[chain[j].slot - 1].item.header, snap, tm);
    }
  }

  /** hot_search gives the first version of the chain that the snapshot sees. */
  lemma ChainAnswers(pages: seq<HeapPage>, pid: PageId, chain: seq<Version>, end: TxId, snap: Snapshot, tm: State, i: nat)
    requires pid < |pages| && IsChain(pages[pid], pid, chain, end)
    requires Answers(pages[pid], pid, chain, i, end, snap, tm)
    requires forall j: nat :: j < i ==> !Answers(pages[pid], pid, chain, j, end, snap, tm)
    ensures var hit := HotResult(pages, Ctid(pid, chain[0].slot), snap, tm);
      hit.Some? && hit.value.0 == Ctid(pid, chain[i].slot)
      && hit.value.1.itemId == chain[i].itemId && hit.value.1.price == chain[i].price
  {
    var page, root := pages[pid], chain[0].slot;
    assert ChainAt(page, pid, chain, 0, end);
    HopsAlongChain(page, pid, chain, end, i);
    AnswersIsVisible(page, pid, chain, i, end, snap, tm);
    forall j: nat | j < i ensures Hop(page, pid, root, j).Some? && !VisibleAt(page, Hop(page, pid, root, j).value, snap, tm) {
      HopsAlongChain(page, pid, chain, end, j);
      assert ChainAt(page, pid, chain, j, end);
      AnswersIsVisible(page, pid, chain, j, end, snap, tm);
    }
    assert FirstVisible(page, pid, root, snap, tm, chain[i].slot, i);
    BoundedWalkIsComplete(pages, Ctid(pid, root), snap, tm, chain[i].slot);
  }

  lemma NothingAnswers(pages: seq<HeapPage>, pid: PageId, chain: seq<Version>, end: TxId, snap: Snapshot, tm: State)
    requires pid < |pages| && IsChain(pages[pid], pid, chain, end)
    requires forall j: nat :: j < |chain| ==> !Answers(pages[pid], pid, chain, j, end, snap, tm)
    ensures HotResult(pages, Ctid(pid, chain[0].slot), snap, tm) == None
  {
    var page, root := pages[pid], chain[0].slot;
    assert ChainAt(page, pid, chain, 0, end);
    var hit := HotResult(pages, Ctid(pid, root), snap, tm);
    if hit.Some? {
      BoundedWalkIsComplete(pages, Ctid(pid, root), snap, tm, hit.value.0.slot);
      var k :| FirstVisible(page, pid, root, snap, tm, hit.value.0.slot, k);
      HopsAlongChain(page, pid, chain, end, k);
      assert ChainAt(page, pid, chain, k, end);
      AnswersIsVisible(page, pid, chain, k, end, snap, tm);
      assert false;
    }
  }

  lemma {:induction false} FirstAnswer(page: HeapPage, pid: PageId, chain: seq<Version>, end: TxId, snap: Snapshot, tm: State, j: nat) returns (i: nat)
    requires Answers(page, pid, chain, j, end, snap, tm)
    ensures i <= j && Answers(page, pid, chain, i, end, snap, tm)
    ensures forall k: nat :: k < i ==> !Answers(page, pid, chain, k, end, snap, tm)
    decreases j
  {
    if k: nat :| k < j && Answers(page, pid, chain, k, end, snap, tm) {
      i := FirstAnswer(page, pid, chain, end, snap, tm, k);
    } else {
      i := j;
    }
  }

  // ---- HOT updates -----------------------------------------------------------------------

  /** A HOT update of the last version makes the chain one version longer. */
  lemma HotUpdateExtendsChain(page: HeapPage, after: HeapPage, pid: PageId, chain: seq<Version>, v: Version)
    requires IsChain(page, pid, chain, 0) && HotUpdated(page, after, pid, chain[|chain| - 1].slot, v)
    ensures IsChain(after, pid, chain + [v], 0)
    ensures forall j: nat :: j < |chain| ==> (VersionAt(page, pid, chain, j, 0) <==> VersionAt(after, pid, chain + [v], j, 0))
  {
    var longer, last := chain + [v], |chain| - 1;
    assert ChainAt(page, pid, chain, last, 0);
    forall j: nat | j < |longer|
      ensures ChainAt(after, pid, longer, j, 0)
      ensures j < |chain| ==> (VersionAt(page, pid, chain, j, 0) <==> VersionAt(after, pid, longer, j, 0))
    {
      if j < last {
        assert ChainAt(page, pid, chain, j, 0);
        assert chain[j].slot != chain[last].slot;
        assert chain[j].slot != v.slot;
        assert after[chain[j].slot - 1] == page[chain[j].slot - 1];
      }
    }
  }

  ghost predicate SameAnswer(a: Option<(Ctid, HeapTuple)>, b: Option<(Ctid, HeapTuple)>) {
    if a.None? || b.None? then a.None? && b.None?
    else a.value.0 == b.value.0 && a.value.1.itemId == b.value.1.itemId && a.value.1.price == b.value.1.price
  }

  /** A snapshot that does not see the updater is answered as before. */
  lemma HotUpdateUnseen(pages: seq<HeapPage>, after: HeapPage, pid: PageId, chain: seq<Version>, v: Version, snap: Snapshot, tm: State)
    requires pid < |pages| && IsChain(pages[pid], pid, chain, 0) && HotUpdated(pages[pid], after, pid, chain[|chain| - 1].slot, v)
    requires !Sees(snap, tm, v.xid)
    ensures SameAnswer(HotResult(pages[pid := after], Ctid(pid, chain[0].slot), snap, tm), HotResult(pages, Ctid(pid, chain[0].slot), snap, tm))
  {
    var longer, pages' := chain + [v], pages[pid := after];
    HotUpdateExtendsChain(pages[pid], after, pid, chain, v);
    forall j: nat | j < |longer|
      ensures Answers(after, pid, longer, j, 0, snap, tm) <==> j < |chain| && Answers(pages[pid], pid, chain, j, 0, snap, tm) {
    }
    if j: nat :| j < |chain| && Answers(pages[pid], pid, chain, j, 0, snap, tm) {
      var i := FirstAnswer(pages[pid], pid, chain, 0, snap, tm, j);
      ChainAnswers(pages, pid, chain, 0, snap, tm, i);
      ChainAnswers(pages', pid, longer, 0, snap, tm, i);
    } else {
      NothingAnswers(pages, pid, chain, 0, snap, tm);
      NothingAnswers(pages', pid, longer, 0, snap, tm);
    }
  }

  /** A snapshot that sees the updater is answered with the new version, exactly when it sees no earlier
      version whose successor it does not see. */
  lemma HotUpdateSeenExactlyWhen(pages: seq<HeapPage>, after: HeapPage, pid: PageId, chain: seq<Version>, v: Version, snap: Snapshot, tm: State)
    requires pid < |pages| && IsChain(pages[pid], pid, chain, 0) && HotUpdated(pages[pid], after, pid, chain[|chain| - 1].slot, v)
    requires v.xid != 0 && Sees(snap, tm, v.xid)
    ensures var hit := HotResult(pages[pid := after], Ctid(pid, chain[0].slot), snap, tm);
      && hit.Some?
      && (hit.value.0 == Ctid(pid, v.slot) ==> hit.value.1.itemId == v.itemId && hit.value.1.price == v.price)
      && (hit.value.0 == Ctid(pid, v.slot) <==>
           forall j: nat :: j < |chain| ==> !Answers(after, pid, chain + [v], j, 0, snap, tm))
  {
    var longer, pages' := chain + [v], pages[pid := after];
    HotUpdateExtendsChain(pages[pid], after, pid, chain, v);
    assert ChainAt(after, pid, longer, |chain|, 0);
    assert Answers(after, pid, longer, |chain|, 0, snap, tm);
    var i := FirstAnswer(after, pid, longer, 0, snap, tm, |chain|);
    ChainAnswers(pages', pid, longer, 0, snap, tm, i);
    if i < |chain| {
      assert ChainAt(pages[pid], pid, chain, i, 0);
      assert longer[i].slot != v.slot;
    }
  }

  // ---- VACUUM ------------------------------------------------------------------------------

  /** As long as its last version stays, VACUUM leaves the chain a chain, whatever becomes of the others. */
  lemma VacuumKeepsChain(page: HeapPage, pid: PageId, chain: seq<Version>, end: TxId, tm: State, horizon: TxId)
    requires IsChain(page, pid, chain, end)
    requires var last := chain[|chain| - 1].slot;
      ValidSlot(page, last) && Vacuum.MarkPage(page, pid, tm, horizon)[last - 1] == page[last - 1]
    ensures IsChain(Vacuum.MarkPage(page, pid, tm, horizon), pid, chain, end)
    ensures IsChain(Vacuum.ReclaimPage(Vacuum.MarkPage(page, pid, tm, horizon)), pid, chain, end)
  {
    var marked := Vacuum.MarkPage(page, pid, tm, horizon);
    var reclaimed := Vacuum.ReclaimPage(marked);
    forall j: nat | j < |chain| ensures ChainAt(marked, pid, chain, j, end) && ChainAt(reclaimed, pid, chain, j, end) {
      assert ChainAt(page, pid, chain, j, end);
      assert j + 1 < |chain| ==> ChainAt(page, pid, chain, j + 1, end);
    }
  }

  // ---- any number of updates and VACUUMs ---------------------------------------------------------

  /** What can happen to a page while its row is only updated in place. */
  datatype PageEvent = Updated(v: Version) | Vacuumed(tm: State, horizon: TxId)

  ghost predicate Happens(page: HeapPage, e: PageEvent, after: HeapPage, pid: PageId, chain: seq<Version>)
    requires chain != []
  {
    match e
    case Updated(v) => HotUpdated(page, after, pid, chain[|chain| - 1].slot, v)
    case Vacuumed(tm, horizon) =>
      && ValidSlot(page, chain[|chain| - 1].slot)
      && Vacuum.MarkPage(page, pid, tm, horizon)[chain[|chain| - 1].slot - 1] == page[chain[|chain| - 1].slot - 1]
      && after == Vacuum.ReclaimPage(Vacuum.MarkPage(page, pid, tm, horizon))
  }

  /** The versions made so far. */
  function VersionsOf(first: Version, events: seq<PageEvent>): (chain: seq<Version>)
    ensures chain != [] && chain[0] == first
  {
    if events == [] then [first]
    else
      var before := VersionsOf(first, events[..|events| - 1]);
      match events[|events| - 1]
      case Updated(v) => before + [v]
      case Vacuumed(_, _) => before
  }

  ghost predicate HappensAt(pages: seq<HeapPage>, events: seq<PageEvent>, pid: PageId, first: Version, i: nat) {
    i < |events| && i + 1 < |pages| && Happens(pages[i], events[i], pages[i + 1], pid, VersionsOf(first, events[..i]))
  }

  /** After any number of HOT updates, with VACUUM in between, the page holds the chain of all versions
      from the root on, some of them redirects by now. */
  lemma {:induction false} ChainAfter(pages: seq<HeapPage>, events: seq<PageEvent>, pid: PageId, first: Version, n: nat)
    requires |pages| == |events| + 1 && n <= |events| && IsChain(pages[0], pid, [first], 0)
    requires forall i: nat :: i < |events| ==> HappensAt(pages, events, pid, first, i)
    ensures IsChain(pages[n], pid, VersionsOf(first, events[..n]), 0)
  {
    if n > 0 {
      ChainAfter(pages, events, pid, first, n - 1);
      assert HappensAt(pages, events, pid, first, n - 1);
      assert events[..n][..n - 1] == events[..n - 1] && events[..n][n - 1] == events[n - 1];
      var chain := VersionsOf(first, events[..n - 1]);
      match events[n - 1]
      case Updated(v) => HotUpdateExtendsChain(pages[n - 1], pages[n], pid, chain, v);
      case Vacuumed(tm, horizon) => VacuumKeepsChain(pages[n - 1], pid, chain, 0, tm, horizon);
    } else {
      assert events[..0] == [];
    }
  }

  /** A row updated in place any number of times, vacuumed or not: whoever sees some version, and with each
      version every earlier one, is answered with the newest version it sees, if VACUUM has left that one. */
  lemma NewestSeenIsFound(file: seq<HeapPage>, pages: seq<HeapPage>, events: seq<PageEvent>, pid: PageId, first: Version,
                          snap: Snapshot, tm: State, i: nat)
    requires |pages| == |events| + 1 && IsChain(pages[0], pid, [first], 0)
    requires forall k: nat :: k < |events| ==> HappensAt(pages, events, pid, first, k)
    requires pid < |file| && file[pid] == pages[|events|]
    requires var chain := VersionsOf(first, events);
      && i < |chain| && VersionAt(file[pid], pid, chain, i, 0)
      && forall j: nat :: j < |chain| ==> chain[j].xid != 0 && (Sees(snap, tm, chain[j].xid) <==> j <= i)
    ensures var v, hit := VersionsOf(first, events)[i], HotResult(file, Ctid(pid, first.slot), snap, tm);
      hit.Some? && hit.value.0 == Ctid(pid, v.slot) && hit.value.1.itemId == v.itemId && hit.value.1.price == v.price
  {
    ChainAfter(pages, events, pid, first, |events|);
    assert events[..|events|] == events;
    var chain := VersionsOf(first, events);
    forall j: nat | j < i ensures !Answers(file[pid], pid, chain, j, 0, snap, tm) {
      assert Sees(snap, tm, chain[j + 1].xid);
    }
    ChainAnswers(file, pid, chain, 0, snap, tm, i);
  }
}
