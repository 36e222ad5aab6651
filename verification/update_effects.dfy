/** What an update does to the row versions (src/heap.cpp, lines 182-262 and 295-325), in the pool, under redo
    (src/wal.cpp, lines 312-372) and after a crash: headers and slots, and what readers then see. */
module UpdateEffects {
  import opened StorageTypes
  import opened Transactions
  import opened Redo
  import opened Durability
  import opened CrashRecovery
  import opened HotChains
  import Heap

  // ---- one heap operation on the pool ------------------------------------------------

  ghost predicate OtherPagesStay(s: Sys, s': Sys, pid: PageId) {
    forall q :: q != pid ==> At(s'.pool, q) == At(s.pool, q)
  }

  /** A slot array that agrees with another one except at the given places; it may have grown. */
  ghost predicate SameBut(before: HeapPage, after: HeapPage, places: set<SlotId>) {
    |before| <= |after| && forall i :: 0 <= i < |before| && i + 1 !in places ==> after[i] == before[i]
  }

  lemma InsertEffect(s: Sys, pid: PageId, slot: SlotId, t: HeapTuple, size: nat)
    requires Enabled(s, InsertRow(pid, slot, t))
    ensures var s' := Next(s, InsertRow(pid, slot, t), size);
      var before, after := At(s.pool, pid).slots, At(s'.pool, pid).slots;
      && slot <= |after| && after[slot - 1] == Normal(t) && SameBut(before, after, {slot})
      && (forall i :: |before| <= i < |after| && i != slot - 1 ==> after[i].Unused?)
      && At(s'.pool, pid).lsn == NextLsn(s.log) + 1 && OtherPagesStay(s, s', pid)
  {
  }

  /** HOT update: the old version is marked, with its deleter, its successor and the HOT bit; the new one is
      in its slot; nothing else changes. */
  lemma HotUpdateEffect(s: Sys, pid: PageId, from: SlotId, slot: SlotId, t: HeapTuple, xid: TxId, size: nat)
    requires Enabled(s, HotUpdate(pid, from, slot, t, xid))
    ensures var s' := Next(s, HotUpdate(pid, from, slot, t, xid), size);
      var before, after := At(s.pool, pid).slots, At(s'.pool, pid).slots;
      && SameBut(before, after, {from, slot}) && slot <= |after| && after[slot - 1] == Normal(t)
      && Superseded(before[from - 1], after[from - 1], xid, Ctid(pid, slot)) && after[from - 1].item.header.hotUpdated
      && At(s'.pool, pid).lsn == NextLsn(s.log) + 1 && OtherPagesStay(s, s', pid)
  {
  }

  /** On the version that hot_update writes into an unused slot, that is what lengthens the chain. */
  lemma HotUpdateIsChainStep(s: Sys, pid: PageId, from: SlotId, v: Version, size: nat)
    requires var t := HeapTuple(TupleHeader(v.xid, 0, Ctid(pid, v.slot), false, true, false), v.itemId, v.price);
      Enabled(s, HotUpdate(pid, from, v.slot, t, v.xid))
    requires v.slot <= |At(s.pool, pid).slots| ==> At(s.pool, pid).slots[v.slot - 1].Unused?
    ensures var t := HeapTuple(TupleHeader(v.xid, 0, Ctid(pid, v.slot), false, true, false), v.itemId, v.price);
      HotUpdated(At(s.pool, pid).slots, At(Next(s, HotUpdate(pid, from, v.slot, t, v.xid), size).pool, pid).slots, pid, from, v)
  {
    var t := HeapTuple(TupleHeader(v.xid, 0, Ctid(pid, v.slot), false, true, false), v.itemId, v.price);
    HotUpdateEffect(s, pid, from, v.slot, t, v.xid, size);
  }

  /** Ordinary update, second half: the old version is marked, HOT bit untouched; nothing else changes. */
  lemma StampEffect(s: Sys, xid: TxId, from: Ctid, to: Ctid, t: HeapTuple, size: nat)
    requires Enabled(s, StampOld(xid, from, to, t))
    ensures var s' := Next(s, StampOld(xid, from, to, t), size);
      var before, after := At(s.pool, from.page).slots, At(s'.pool, from.page).slots;
      && |after| == |before| && SameBut(before, after, {from.slot})
      && Superseded(before[from.slot - 1], after[from.slot - 1], xid, to)
      && after[from.slot - 1].item.header.hotUpdated == before[from.slot - 1].item.header.hotUpdated
      && At(s'.pool, from.page).lsn == NextLsn(s.log) + 1 && OtherPagesStay(s, s', from.page)
  {
  }

  lemma HeaderEffect(s: Sys, ctid: Ctid, h: TupleHeader, size: nat)
    requires Enabled(s, UpdateHeader(ctid, h))
    ensures var s' := Next(s, UpdateHeader(ctid, h), size);
      var before, after := At(s.pool, ctid.page).slots, At(s'.pool, ctid.page).slots;
      && |after| == |before| && SameBut(before, after, {ctid.slot})
      && after[ctid.slot - 1] == Normal(HeapTuple(h, before[ctid.slot - 1].item.itemId, before[ctid.slot - 1].item.price))
      && At(s'.pool, ctid.page).lsn == NextLsn(s.log) + 1 && OtherPagesStay(s, s', ctid.page)
  {
  }

  /** A full-page image logs what the pool holds, and changes nothing. */
  lemma ImageEffect(s: Sys, pid: PageId, size: nat)
    requires Enabled(s, LogImage(pid))
    ensures var s' := Next(s, LogImage(pid), size);
      && s'.log == s.log + [Entry(NextLsn(s.log), NextLsn(s.log) + size, FullPage(pid, At(s.pool, pid).slots))]
      && s'.pool == s.pool && s'.disk == s.disk
  {
  }

  /** Writing a page, and a checkpoint for all pages, puts on disk what the pool holds. */
  lemma WriteEffect(s: Sys, pid: PageId, size: nat)
    requires pid in s.pool
    ensures At(Next(s, WritePage(pid), size).disk, pid) == At(s.pool, pid)
    ensures Next(s, WritePage(pid), size).pool == s.pool && Next(s, WritePage(pid), size).log == s.log
    ensures Next(s, TakeCheckpoint, size).disk == s.pool == Next(s, TakeCheckpoint, size).pool
  {
  }

  // ---- one record under redo --------------------------------------------------------------

  /** Redo of an insertion that the page has not seen yet. */
  lemma RedoInsertEffect(lsn: nat, end: nat, slot: SlotId, t: HeapTuple, pid: PageId, p: PageState)
    requires p.formatted && p.lsn <= lsn && slot != INVALID_SLOT_ID
    ensures var q := RedoEntry(Entry(lsn, end, Insert(pid, slot, t)), pid, p);
      && q.lsn == end && q.formatted && SameBut(p.slots, q.slots, {slot})
      && slot <= |q.slots| && q.slots[slot - 1] == Normal(t)
      && forall i :: |p.slots| <= i < |q.slots| && i != slot - 1 ==> q.slots[i].Unused?
  {
  }

  /** Redo of an image, whatever the page held. */
  lemma RedoImageEffect(lsn: nat, end: nat, image: HeapPage, pid: PageId, p: PageState)
    ensures RedoEntry(Entry(lsn, end, FullPage(pid, image)), pid, p) == PageState(end, true, image)
  {
  }

  /** Redo of an update record that the page has not seen yet. */
  lemma RedoUpdateEffect(lsn: nat, end: nat, xid: TxId, from: Ctid, to: Ctid, t: HeapTuple, pid: PageId, p: PageState)
    requires p.formatted && p.lsn <= lsn && to.slot != INVALID_SLOT_ID && (from.page == pid || to.page == pid)
    ensures var q := RedoEntry(Entry(lsn, end, Update(xid, from, to, t)), pid, p);
      && q.lsn == end && q.formatted
      && SameBut(p.slots, q.slots, (if from.page == pid then {from.slot} else {}) + (if to.page == pid then {to.slot} else {}))
      && (to.page == pid ==> to.slot <= |q.slots| && q.slots[to.slot - 1] == Normal(t))
      && (from.page == pid && from != to && 1 <= from.slot <= |p.slots| && p.slots[from.slot - 1].Normal? ==>
           && Superseded(p.slots[from.slot - 1], q.slots[from.slot - 1], xid, to)
           && (q.slots[from.slot - 1].item.header.hotUpdated <==>
                p.slots[from.slot - 1].item.header.hotUpdated || from.page == to.page))
  {
  }

  /** The same record again, or on a page that has it already: nothing happens. */
  lemma RedoUpdateOnce(lsn: nat, end: nat, xid: TxId, from: Ctid, to: Ctid, t: HeapTuple, pid: PageId, p: PageState)
    requires p.lsn > lsn
    ensures RedoEntry(Entry(lsn, end, Update(xid, from, to, t)), pid, p) == p
  {
  }

  // ---- a slot over whole runs --------------------------------------------------------------

  /** The heap operation writes this slot. */
  predicate Rewrites(e: Event, pid: PageId, slot: SlotId) {
    match e
    case InsertRow(page, n, _) => page == pid && n == slot
    case HotUpdate(page, o, n, _, _) => page == pid && (o == slot || n == slot)
    case StampOld(_, from, _, _) => from == Ctid(pid, slot)
    case UpdateHeader(ctid, _) => ctid == Ctid(pid, slot)
    case _ => false
  }

  ghost predicate SlotHolds(s: Sys, pid: PageId, slot: SlotId, content: Slot<HeapTuple>) {
    1 <= slot <= |At(s.pool, pid).slots| && At(s.pool, pid).slots[slot - 1] == content
  }

  lemma StepKeepsSlot(s: Sys, e: Event, size: nat, s': Sys, pid: PageId, slot: SlotId, content: Slot<HeapTuple>)
    requires Inv(s) && Step(s, e, size, s') && SlotHolds(s, pid, slot, content) && !Rewrites(e, pid, slot)
    ensures SlotHolds(s', pid, slot, content)
  {
    match e
    case InsertRow(page, n, t) => InsertEffect(s, page, n, t, size);
    case HotUpdate(page, o, n, t, xid) => HotUpdateEffect(s, page, o, n, t, xid, size);
    case StampOld(xid, from, to, t) => StampEffect(s, xid, from, to, t, size);
    case UpdateHeader(ctid, h) => HeaderEffect(s, ctid, h, size);
    case NewPage(q) => assert q != pid;
    case NewPageNoFrame(q) => assert q != pid;
    case _ => assert s'.pool == s.pool;
  }

  lemma {:induction false} SlotStays(states: seq<Sys>, events: seq<Event>, sizes: seq<nat>, m: nat, i: nat,
                                     pid: PageId, slot: SlotId, content: Slot<HeapTuple>)
    requires Run(states, events, sizes) && m <= i < |states| && SlotHolds(states[m], pid, slot, content)
    requires forall n :: m <= n < i ==> !Rewrites(events[n], pid, slot)
    ensures SlotHolds(states[i], pid, slot, content)
  {
    if m < i {
      SlotStays(states, events, sizes, m, i - 1, pid, slot, content);
      RunKeepsInv(states, events, sizes, i - 1);
      assert StepAt(states, events, sizes, i - 1);
      StepKeepsSlot(states[i - 1], events[i - 1], sizes[i - 1], states[i], pid, slot, content);
    }
  }

  // ---- after a crash -------------------------------------------------------------------------

  /** The crash comes at moment j, the first k records survive, and the record logged by step m - 1 is one of them. */
  ghost predicate SurvivesCrash(states: seq<Sys>, m: nat, j: nat, k: nat) {
    && 0 < m <= j < |states| && states[j].durable <= k <= |states[j].log|
    && |states[m - 1].log| < |states[m].log| <= k
  }

  /** What redo leaves on a page. */
  function Recovered(s: Sys, k: nat, pid: PageId): PageState
    requires k <= |s.log|
  {
    RedoPage(Replayed(s.log[..k]), pid, At(s.disk, pid))
  }

  /** The condition under which redo restores the page at all. */
  ghost predicate Recoverable(s: Sys, k: nat, pid: PageId)
    requires k <= |s.log|
  {
    At(s.disk, pid).formatted || HasImage(Replayed(s.log[..k]), pid) || PutsNothing(Replayed(s.log[..k]), pid)
  }

  /** The row version in a slot says this, whatever its HOT bits. */
  ghost predicate RowIs(slots: HeapPage, slot: SlotId, xmin: TxId, xmax: TxId, to: Ctid, itemId: int, price: int) {
    && 1 <= slot <= |slots| && slots[slot - 1].Normal?
    && var t := slots[slot - 1].item;
       t.header.xmin == xmin && t.header.xmax == xmax && t.header.tCtid == to && t.itemId == itemId && t.price == price
  }

  /** A slot that is not written again is found after the crash as it was left. */
  lemma SlotAfterRedo(states: seq<Sys>, events: seq<Event>, sizes: seq<nat>, m: nat, j: nat, k: nat, pid: PageId, slot: SlotId,
                      xmin: TxId, xmax: TxId, to: Ctid, itemId: int, price: int)
    requires Run(states, events, sizes) && SurvivesCrash(states, m, j, k) && Recoverable(states[j], k, pid)
    requires RowIs(At(states[m].pool, pid).slots, slot, xmin, xmax, to, itemId, price)
    requires forall n :: m <= n < j ==> !Rewrites(events[n], pid, slot)
    ensures RowIs(Recovered(states[j], k, pid).slots, slot, xmin, xmax, to, itemId, price)
  {
    var i := RedoRestoresHistory(states, events, sizes, j, k, pid);
    if i < m {
      LogGrows(states, events, sizes, i, m - 1);
    }
    var content := At(states[m].pool, pid).slots[slot - 1];
    SlotStays(states, events, sizes, m, i, pid, slot, content);
    var recovered := Recovered(states[j], k, pid).slots;
    assert Plain(recovered[slot - 1]) == Plain(content);
  }

  /** The new version and the old one, as a snapshot sees them: the new one instead of the old one if it
      sees the updater, and the other way round if it does not. */
  ghost predicate SeenAsUpdated(recoveredOld: HeapPage, from: SlotId, recoveredNew: HeapPage, slot: SlotId, creator: TxId, xid: TxId,
                                snap: Snapshot, tm: State) {
    && Heap.VisibleAt(recoveredNew, slot, snap, tm) == Sees(snap, tm, xid)
    && Heap.VisibleAt(recoveredOld, from, snap, tm) == (Sees(snap, tm, creator) && !Sees(snap, tm, xid))
  }

  lemma UpdatedRowsAreSeen(olds: HeapPage, from: SlotId, news: HeapPage, slot: SlotId, creator: TxId, xid: TxId, a: Ctid, b: Ctid,
                           x: int, p: int, y: int, q: int, snap: Snapshot, tm: State)
    requires xid != 0 && RowIs(olds, from, creator, xid, a, x, p) && RowIs(news, slot, xid, 0, b, y, q)
    ensures SeenAsUpdated(olds, from, news, slot, creator, xid, snap, tm)
  {
    VisibleExactlyWhen(olds[from - 1].item.header, snap, tm);
    VisibleExactlyWhen(news[slot - 1].item.header, snap, tm);
  }

  /** A HOT update whose record survives the crash, and whose two slots are not written again, is there after redo:
      the old version points at the new one, which carries the new row; and a snapshot sees the one or the other
      by whether it sees the updater. */
  lemma HotUpdateSurvivesCrash(states: seq<Sys>, events: seq<Event>, sizes: seq<nat>, m: nat, j: nat, k: nat,
                               pid: PageId, from: SlotId, slot: SlotId, t: HeapTuple, xid: TxId, snap: Snapshot, tm: State)
    requires Run(states, events, sizes) && SurvivesCrash(states, m, j, k) && Recoverable(states[j], k, pid)
    requires events[m - 1] == HotUpdate(pid, from, slot, t, xid) && xid != 0 && t.header.xmin == xid && t.header.xmax == 0
    requires forall n :: m <= n < j ==> !Rewrites(events[n], pid, from) && !Rewrites(events[n], pid, slot)
    ensures HasTuple(At(states[m - 1].pool, pid), from)
    ensures var was, recovered := At(states[m - 1].pool, pid).slots[from - 1].item, Recovered(states[j], k, pid).slots;
      && RowIs(recovered, from, was.header.xmin, xid, Ctid(pid, slot), was.itemId, was.price)
      && RowIs(recovered, slot, xid, 0, t.header.tCtid, t.itemId, t.price)
      && SeenAsUpdated(recovered, from, recovered, slot, was.header.xmin, xid, snap, tm)
  {
    assert StepAt(states, events, sizes, m - 1);
    var s := states[m - 1];
    HotUpdateEffect(s, pid, from, slot, t, xid, sizes[m - 1]);
    var was, recovered := At(s.pool, pid).slots[from - 1].item, Recovered(states[j], k, pid).slots;
    SlotAfterRedo(states, events, sizes, m, j, k, pid, from, was.header.xmin, xid, Ctid(pid, slot), was.itemId, was.price);
    SlotAfterRedo(states, events, sizes, m, j, k, pid, slot, xid, 0, t.header.tCtid, t.itemId, t.price);
    UpdatedRowsAreSeen(recovered, from, recovered, slot, was.header.xmin, xid, Ctid(pid, slot), t.header.tCtid,
                       was.itemId, was.price, t.itemId, t.price, snap, tm);
  }

  /** The same for an ordinary update: the insertion of the new version by step a, on any page, and the
      marking of the old one by a later step b. */
  lemma UpdateSurvivesCrash(states: seq<Sys>, events: seq<Event>, sizes: seq<nat>, a: nat, b: nat, j: nat, k: nat,
                            from: Ctid, to: Ctid, t: HeapTuple, n: HeapTuple, xid: TxId, snap: Snapshot, tm: State)
    requires Run(states, events, sizes) && SurvivesCrash(states, a + 1, j, k) && SurvivesCrash(states, b + 1, j, k)
    requires Recoverable(states[j], k, from.page) && Recoverable(states[j], k, to.page)
    requires events[a] == InsertRow(to.page, to.slot, t) && events[b] == StampOld(xid, from, to, n)
    requires xid != 0 && t.header.xmin == xid && t.header.xmax == 0
    requires forall i :: b < i < j ==> !Rewrites(events[i], from.page, from.slot)
    requires forall i :: a < i < j ==> !Rewrites(events[i], to.page, to.slot)
    ensures HasTuple(At(states[b].pool, from.page), from.slot)
    ensures var was := At(states[b].pool, from.page).slots[from.slot - 1].item;
      var olds, news := Recovered(states[j], k, from.page).slots, Recovered(states[j], k, to.page).slots;
      && RowIs(olds, from.slot, was.header.xmin, xid, to, was.itemId, was.price)
      && RowIs(news, to.slot, xid, 0, t.header.tCtid, t.itemId, t.price)
      && SeenAsUpdated(olds, from.slot, news, to.slot, was.header.xmin, xid, snap, tm)
  {
    assert StepAt(states, events, sizes, a) && StepAt(states, events, sizes, b);
    InsertEffect(states[a], to.page, to.slot, t, sizes[a]);
    StampEffect(states[b], xid, from, to, n, sizes[b]);
    var was := At(states[b].pool, from.page).slots[from.slot - 1].item;
    SlotAfterRedo(states, events, sizes, b + 1, j, k, from.page, from.slot, was.header.xmin, xid, to, was.itemId, was.price);
    SlotAfterRedo(states, events, sizes, a + 1, j, k, to.page, to.slot, xid, 0, t.header.tCtid, t.itemId, t.price);
    UpdatedRowsAreSeen(Recovered(states[j], k, from.page).slots, from.slot, Recovered(states[j], k, to.page).slots, to.slot,
                       was.header.xmin, xid, to, t.header.tCtid, was.itemId, was.price, t.itemId, t.price, snap, tm);
  }
}
