/** VACUUM removes all it may (src/vacuum.cpp, lines 9-76): which versions no reader at the horizon can
    see, and which of them VACUUM leaves in place all the same. */
module VacuumMaximality {
  import opened StorageTypes
  import opened Transactions
  import opened Mvcc
  import opened Heap
  import opened Vacuum

  /** A snapshot that somebody who has written nothing may hold while VACUUM's horizon is `horizon`. */
  ghost predicate ReadsAt(tm: State, horizon: TxId, snap: Snapshot) {
    && snap.owner == INVALID_TX_ID && horizon <= snap.xmin && snap.xmax <= tm.nextTxId
    && IsLeast(snap.xmin, snap.xmax, snap.activeTxs)
  }

  ghost predicate SeenBySomebody(h: TupleHeader, tm: State, horizon: TxId) {
    exists snap :: ReadsAt(tm, horizon, snap) && IsTupleVisible(h, snap, tm)
  }

  /** Some reader at the horizon sees a version exactly when its creator committed, and it was never deleted,
      or the deleter has not committed, or committed at or above the horizon and is not the creator. */
  lemma SeenExactlyWhen(h: TupleHeader, tm: State, horizon: TxId)
    requires TmInv(tm) && horizon <= tm.nextTxId
    ensures SeenBySomebody(h, tm, horizon) <==>
      && HadCommitted(tm, h.xmin)
      && (h.xmax == 0 || !HadCommitted(tm, h.xmax) || (horizon <= h.xmax && h.xmax != h.xmin))
  {
    if HadCommitted(tm, h.xmin) && (h.xmax == 0 || !HadCommitted(tm, h.xmax)) {
      var newest := Snapshot(INVALID_TX_ID, tm.nextTxId, tm.nextTxId, {});
      assert ReadsAt(tm, horizon, newest) && IsTupleVisible(h, newest, tm);
    } else if HadCommitted(tm, h.xmin) && horizon <= h.xmax && h.xmax != h.xmin {
      assert h.xmax < tm.nextTxId;
      var before := Snapshot(INVALID_TX_ID, h.xmax, tm.nextTxId, {h.xmax});
      assert ReadsAt(tm, horizon, before) && IsTupleVisible(h, before, tm);
    }
  }

  /** The version was made and ended by one transaction, which is too recent for VACUUM. */
  predicate OwnDeletion(h: TupleHeader, tm: State, horizon: TxId) {
    h.xmax == h.xmin != 0 && tm.GetStatus(h.xmin) == Committed && horizon <= h.xmax
  }

  /** Phase 1 is maximal: of the versions whose creator has decided, it takes exactly those that no reader at
      the horizon can see, except what a transaction at or above the horizon made and deleted itself. */
  lemma VacuumTakesExactly(page: HeapPage, pid: PageId, s: SlotId, tm: State, horizon: TxId)
    requires TmInv(tm) && horizon <= tm.nextTxId && ValidSlot(page, s) && page[s - 1].Normal?
    requires var h := page[s - 1].item.header;
      // set_status is never called with SUB_COMMITTED
      && tm.GetStatus(h.xmin) != InProgress && tm.GetStatus(h.xmin) != SubCommitted && tm.GetStatus(h.xmax) != SubCommitted
    ensures var h := page[s - 1].item.header;
      MarkPage(page, pid, tm, horizon)[s - 1] != page[s - 1] <==>
        !SeenBySomebody(h, tm, horizon) && !OwnDeletion(h, tm, horizon)
  {
    SeenExactlyWhen(page[s - 1].item.header, tm, horizon);
  }

  /** What is left in place is needed: its creator is still running, or some reader at the horizon sees it, or
      it is such a deletion of its own maker. */
  lemma KeptIsNeeded(page: HeapPage, pid: PageId, s: SlotId, tm: State, horizon: TxId)
    requires TmInv(tm) && horizon <= tm.nextTxId && ValidSlot(page, s) && page[s - 1].Normal?
    requires tm.GetStatus(page[s - 1].item.header.xmin) != SubCommitted && tm.GetStatus(page[s - 1].item.header.xmax) != SubCommitted
    requires MarkPage(page, pid, tm, horizon)[s - 1] == page[s - 1]
    ensures var h := page[s - 1].item.header;
      tm.GetStatus(h.xmin) == InProgress || SeenBySomebody(h, tm, horizon) || OwnDeletion(h, tm, horizon)
  {
    SeenExactlyWhen(page[s - 1].item.header, tm, horizon);
  }

  /** The horizon is as high as it may be: above it lies an id that is active, or the xmin that an active
      transaction has published. */
  lemma HorizonIsGreatest(tm: State, horizon: TxId, higher: TxId)
    requires IsHorizon(tm, horizon) && horizon < higher <= tm.nextTxId
    ensures exists tx :: tx in tm.activeTxs && (tx < higher || (tx in tm.snapshotXmins && tm.snapshotXmins[tx] < higher))
  {
    if horizon !in tm.activeTxs {
      var tx :| tx in tm.snapshotXmins && tx in tm.activeTxs && tm.snapshotXmins[tx] == horizon;
    }
  }

  /** The rows of a rolled back transaction go at once, whatever the horizon. */
  lemma AbortedRowsGo(pages: seq<HeapPage>, pid: PageId, s: SlotId, tm: State, horizon: TxId)
    requires pid < |pages| && ValidSlot(pages[pid], s) && pages[pid][s - 1].Normal?
    requires tm.GetStatus(pages[pid][s - 1].item.header.xmin) == Aborted
    ensures !Vacuumed(pages, tm, horizon)[pid][s - 1].Normal?
  {
    assert MarkAll(pages, tm, horizon)[pid] == MarkPage(pages[pid], pid, tm, horizon);
  }
}
