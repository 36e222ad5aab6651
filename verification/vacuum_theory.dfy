/** No reader can tell that VACUUM ran, and no index entry is left pointing at a freed slot. */
module VacuumTheory {
  import opened StorageTypes
  import opened Transactions
  import opened Mvcc
  import opened Heap
  import opened Vacuum
  import M = MultimapIndex

  // ---- reading through an index -------------------------------------------

  /** index_lookup: the first candidate with a visible version answers (src/btree.cpp, lines 77-92). */
  function FirstHit(ctids: seq<Ctid>, pages: seq<HeapPage>, snap: Snapshot, tm: State): Option<(Ctid, HeapTuple)> {
    if ctids == [] then None
    else match HotResult(pages, ctids[0], snap, tm)
      case Some(hit) => Some(hit)
      case None => FirstHit(ctids[1..], pages, snap, tm)
  }

  /** IndexScanNode: every candidate's version, each version once (src/executor.cpp, lines 109-134). */
  function ScanHits(ctids: seq<Ctid>, visited: seq<Ctid>, pages: seq<HeapPage>, snap: Snapshot, tm: State):
      seq<(Ctid, HeapTuple)> {
    if ctids == [] then []
    else match HotResult(pages, ctids[0], snap, tm)
      case None => ScanHits(ctids[1..], visited, pages, snap, tm)
      case Some(hit) =>
        if hit.0 in visited then ScanHits(ctids[1..], visited, pages, snap, tm)
        else [hit] + ScanHits(ctids[1..], visited + [hit.0], pages, snap, tm)
  }

  // ---- one page -----------------------------------------------------------

  /** What VACUUM may turn a slot into. */
  ghost predicate SlotVacuumed(a: Slot<HeapTuple>, b: Slot<HeapTuple>, pid: PageId, s: SlotId, tm: State, horizon: TxId) {
    || b == a
    || b == MarkSlot(a, pid, s, tm, horizon)
    || b == ReclaimSlot(MarkSlot(a, pid, s, tm, horizon))
  }

  ghost predicate PageVacuumed(p: HeapPage, q: HeapPage, pid: PageId, tm: State, horizon: TxId) {
    |q| == |p| && forall i :: 0 <= i < |p| ==> SlotVacuumed(p[i], q[i], pid, i + 1, tm, horizon)
  }

  lemma VisibilityUnchanged(p: HeapPage, q: HeapPage, pid: PageId, s: SlotId,
                            tm: State, horizon: TxId, snap: Snapshot, now: State)
    requires PageVacuumed(p, q, pid, tm, horizon)
    requires forall h :: IsDead(h, tm, horizon) ==> !IsTupleVisible(h, snap, now)
    ensures VisibleAt(p, s, snap, now) <==> VisibleAt(q, s, snap, now)
    ensures VisibleAt(p, s, snap, now) ==> q[s - 1] == p[s - 1]
    ensures VisibleAt(p, s, snap, now)
         || NextSlot(q, pid, s) == NextSlot(p, pid, s)
         || (NextSlot(p, pid, s) == Some(INVALID_SLOT_ID) && NextSlot(q, pid, s) == None)
  {
    if ValidSlot(p, s) {
      assert SlotVacuumed(p[s - 1], q[s - 1], pid, s, tm, horizon);
    }
  }

  /** The walk takes the same steps on both pages: a dead root answers nobody and, as a redirect,
      still leads to the same successor; a dead chain end leads nowhere either way. */
  lemma {:induction false} WalkUnchanged(p: HeapPage, q: HeapPage, pid: PageId, s: SlotId,
                                         tm: State, horizon: TxId, snap: Snapshot, now: State, steps: nat)
    requires PageVacuumed(p, q, pid, tm, horizon)
    requires forall h :: IsDead(h, tm, horizon) ==> !IsTupleVisible(h, snap, now)
    ensures Walk(p, pid, s, snap, now, steps) == Walk(q, pid, s, snap, now, steps)
    decreases steps
  {
    if steps > 0 {
      VisibilityUnchanged(p, q, pid, s, tm, horizon, snap, now);
      if !VisibleAt(p, s, snap, now) && NextSlot(p, pid, s).Some? {
        WalkUnchanged(p, q, pid, NextSlot(p, pid, s).value, tm, horizon, snap, now, steps - 1);
      }
    }
  }

  lemma {:induction false} PageRowsUnchanged(p: HeapPage, q: HeapPage, pid: PageId, from: nat,
                                             tm: State, horizon: TxId, snap: Snapshot, now: State)
    requires PageVacuumed(p, q, pid, tm, horizon)
    requires forall h :: IsDead(h, tm, horizon) ==> !IsTupleVisible(h, snap, now)
    ensures PageRows(p, pid, from, snap, now) == PageRows(q, pid, from, snap, now)
    decreases |p| - from
  {
    if from < |p| {
      VisibilityUnchanged(p, q, pid, from + 1, tm, horizon, snap, now);
      PageRowsUnchanged(p, q, pid, from + 1, tm, horizon, snap, now);
    }
  }

  // ---- the whole heap -----------------------------------------------------

  ghost predicate HeapVacuumed(pages: seq<HeapPage>, pages': seq<HeapPage>, tm: State, horizon: TxId) {
    |pages'| == |pages| && forall i :: 0 <= i < |pages| ==> PageVacuumed(pages[i], pages'[i], i, tm, horizon)
  }

  lemma VacuumedHeap(pages: seq<HeapPage>, tm: State, horizon: TxId)
    ensures HeapVacuumed(pages, Vacuumed(pages, tm, horizon), tm, horizon)
  {
  }

  lemma {:induction false} RowsUnchanged(pages: seq<HeapPage>, pages': seq<HeapPage>, from: nat,
                                         tm: State, horizon: TxId, snap: Snapshot, now: State)
    requires HeapVacuumed(pages, pages', tm, horizon)
    requires forall h :: IsDead(h, tm, horizon) ==> !IsTupleVisible(h, snap, now)
    ensures VisibleRows(pages, from, snap, now) == VisibleRows(pages', from, snap, now)
    decreases |pages| - from
  {
    if from < |pages| {
      PageRowsUnchanged(pages[from], pages'[from], from, 0, tm, horizon, snap, now);
      RowsUnchanged(pages, pages', from + 1, tm, horizon, snap, now);
    }
  }

  lemma HotResultUnchanged(pages: seq<HeapPage>, pages': seq<HeapPage>, root: Ctid,
                           tm: State, horizon: TxId, snap: Snapshot, now: State)
    requires HeapVacuumed(pages, pages', tm, horizon)
    requires forall h :: IsDead(h, tm, horizon) ==> !IsTupleVisible(h, snap, now)
    ensures HotResult(pages, root, snap, now) == HotResult(pages', root, snap, now)
  {
    if root.slot != INVALID_SLOT_ID && root.page < |pages| {
      var p, q := pages[root.page], pages'[root.page];
      WalkUnchanged(p, q, root.page, root.slot, tm, horizon, snap, now, |p| + 1);
      var found := Walk(p, root.page, root.slot, snap, now, |p| + 1);
      if found.Some? {
        VisibilityUnchanged(p, q, root.page, found.value, tm, horizon, snap, now);
      }
    }
  }

  // ---- the indexes --------------------------------------------------------

  /** A version phase 1 marked DEAD: dead and not the root of a chain. */
  ghost predicate IsDeadEnd(pages: seq<HeapPage>, e: IndexEntry, tm: State, horizon: TxId) {
    && e.ctid.page < |pages| && ValidSlot(pages[e.ctid.page], e.ctid.slot)
    && var slot := pages[e.ctid.page][e.ctid.slot - 1];
       slot.Normal? && slot.item.itemId == e.key && IsDead(slot.item.header, tm, horizon)
       && !HasSuccessor(slot.item, e.ctid.page, e.ctid.slot)
  }

  lemma {:induction false} DeadOnPageMembers(pages: seq<HeapPage>, pid: PageId, upto: nat, tm: State, horizon: TxId, e: IndexEntry)
    requires pid < |pages| && upto <= |pages[pid]|
    ensures e in DeadOnPage(pages[pid], pid, upto, tm, horizon)
       <==> e.ctid.page == pid && e.ctid.slot <= upto && IsDeadEnd(pages, e, tm, horizon)
  {
    if upto > 0 {
      DeadOnPageMembers(pages, pid, upto - 1, tm, horizon, e);
    }
  }

  lemma {:induction false} DeadTidsMembers(pages: seq<HeapPage>, upto: nat, tm: State, horizon: TxId, e: IndexEntry)
    requires upto <= |pages|
    ensures e in DeadTids(pages, upto, tm, horizon) <==> e.ctid.page < upto && IsDeadEnd(pages, e, tm, horizon)
  {
    if upto > 0 {
      DeadTidsMembers(pages, upto - 1, tm, horizon, e);
      DeadOnPageMembers(pages, upto - 1, |pages[upto - 1]|, tm, horizon, e);
    }
  }

  lemma {:induction false} RemoveHitless(entries: seq<IndexEntry>, e: IndexEntry, key: int, visited: seq<Ctid>,
                                         pages: seq<HeapPage>, snap: Snapshot, tm: State)
    requires HotResult(pages, e.ctid, snap, tm) == None
    ensures FirstHit(M.Find(M.Remove(entries, e), key), pages, snap, tm) == FirstHit(M.Find(entries, key), pages, snap, tm)
    ensures ScanHits(M.Find(M.Remove(entries, e), key), visited, pages, snap, tm)
         == ScanHits(M.Find(entries, key), visited, pages, snap, tm)
    decreases |entries|
  {
    if entries != [] && entries[0] != e {
      var rest := M.Remove(entries[1..], e);
      assert M.Remove(entries, e)[1..] == rest;
      RemoveHitless(entries[1..], e, key, visited, pages, snap, tm);
      var c := entries[0].ctid;
      if entries[0].key == key {
        assert M.Find(entries, key) == [c] + M.Find(entries[1..], key);
        assert M.Find(M.Remove(entries, e), key) == [c] + M.Find(rest, key);
        assert ([c] + M.Find(rest, key))[1..] == M.Find(rest, key);
        assert ([c] + M.Find(entries[1..], key))[1..] == M.Find(entries[1..], key);
        match HotResult(pages, c, snap, tm)
        case None =>
        case Some(hit) => RemoveHitless(entries[1..], e, key, visited + [hit.0], pages, snap, tm);
      } else {
        assert M.Find(entries, key) == M.Find(entries[1..], key);
        assert M.Find(M.Remove(entries, e), key) == M.Find(rest, key);
      }
    } else if entries != [] {
      if e.key == key {
        assert ([e.ctid] + M.Find(entries[1..], key))[1..] == M.Find(entries[1..], key);
      } else {
        assert M.Find(entries, key) == M.Find(entries[1..], key);
      }
    }
  }

  lemma {:induction false} RemoveAllHitless(entries: seq<IndexEntry>, dead: seq<IndexEntry>, key: int, visited: seq<Ctid>,
                                            pages: seq<HeapPage>, snap: Snapshot, tm: State)
    requires forall e :: e in dead ==> HotResult(pages, e.ctid, snap, tm) == None
    ensures FirstHit(M.Find(RemoveAll(entries, dead), key), pages, snap, tm) == FirstHit(M.Find(entries, key), pages, snap, tm)
    ensures ScanHits(M.Find(RemoveAll(entries, dead), key), visited, pages, snap, tm)
         == ScanHits(M.Find(entries, key), visited, pages, snap, tm)
    decreases |dead|
  {
    if dead != [] {
      var n := |dead| - 1;
      RemoveAllHitless(entries, dead[..n], key, visited, pages, snap, tm);
      assert dead[n] in dead;
      RemoveHitless(RemoveAll(entries, dead[..n]), dead[n], key, visited, pages, snap, tm);
    }
  }

  lemma {:induction false} HitsUnchanged(ctids: seq<Ctid>, visited: seq<Ctid>, pages: seq<HeapPage>, pages': seq<HeapPage>,
                                         snap: Snapshot, tm: State)
    requires forall c :: HotResult(pages, c, snap, tm) == HotResult(pages', c, snap, tm)
    ensures FirstHit(ctids, pages, snap, tm) == FirstHit(ctids, pages', snap, tm)
    ensures ScanHits(ctids, visited, pages, snap, tm) == ScanHits(ctids, visited, pages', snap, tm)
    decreases |ctids|
  {
    if ctids != [] {
      var hit := HotResult(pages, ctids[0], snap, tm);
      assert hit == HotResult(pages', ctids[0], snap, tm);
      HitsUnchanged(ctids[1..], visited, pages, pages', snap, tm);
      if hit.Some? {
        HitsUnchanged(ctids[1..], visited + [hit.value.0], pages, pages', snap, tm);
      }
    }
  }

  lemma DeadEndAnswersNobody(pages: seq<HeapPage>, e: IndexEntry, tm: State, horizon: TxId, snap: Snapshot, now: State)
    requires IsDeadEnd(pages, e, tm, horizon)
    requires forall h :: IsDead(h, tm, horizon) ==> !IsTupleVisible(h, snap, now)
    ensures HotResult(pages, e.ctid, snap, now) == None
  {
  }

  // ---- main theorems ------------------------------------------------------

  /** VACUUM is invisible. Take any run of transactions that begins when VACUUM runs. Whatever
      snapshot a running transaction holds later, one taken before VACUUM or one taken after, it
      reads the same through every root, by sequential scan, and by lookup or scan of an index. */
  lemma VacuumIsInvisible(states: seq<System>, events: seq<Event>, i: nat, horizon: TxId, tx: TxId,
                          pages: seq<HeapPage>, entries: seq<IndexEntry>, root: Ctid, key: int)
    requires TxRun(states, events) && Inv(states[0]) && i < |states|
    requires IsHorizon(states[0].tm, horizon) && tx in states[i].held
    ensures
      var tm, now, snap := states[0].tm, states[i].tm, states[i].held[tx];
      var pages', entries' := Vacuumed(pages, tm, horizon), RemoveAll(entries, AllDead(pages, tm, horizon));
      && HotResult(pages', root, snap, now) == HotResult(pages, root, snap, now)
      && VisibleRows(pages', 0, snap, now) == VisibleRows(pages, 0, snap, now)
      && FirstHit(M.Find(entries', key), pages', snap, now) == FirstHit(M.Find(entries, key), pages, snap, now)
      && ScanHits(M.Find(entries', key), [], pages', snap, now) == ScanHits(M.Find(entries, key), [], pages, snap, now)
  {
    var tm, now, snap := states[0].tm, states[i].tm, states[i].held[tx];
    var pages', dead := Vacuumed(pages, tm, horizon), AllDead(pages, tm, horizon);
    forall h | IsDead(h, tm, horizon) ensures !IsTupleVisible(h, snap, now) {
      DeadStaysInvisible(states, events, i, horizon, tx, h);
    }
    VacuumedHeap(pages, tm, horizon);
    forall c ensures HotResult(pages, c, snap, now) == HotResult(pages', c, snap, now) {
      HotResultUnchanged(pages, pages', c, tm, horizon, snap, now);
    }
    RowsUnchanged(pages, pages', 0, tm, horizon, snap, now);
    forall e | e in dead ensures HotResult(pages, e.ctid, snap, now) == None {
      DeadTidsMembers(pages, |pages|, tm, horizon, e);
      DeadEndAnswersNobody(pages, e, tm, horizon, snap, now);
    }
    RemoveAllHitless(entries, dead, key, [], pages, snap, now);
    HitsUnchanged(M.Find(RemoveAll(entries, dead), key), [], pages, pages', snap, now);
  }

  /** An index whose entries lead to rows with their key, or to redirects, none twice. */
  ghost predicate IndexSound(entries: seq<IndexEntry>, pages: seq<HeapPage>) {
    forall e :: e in multiset(entries) ==> multiset(entries)[e] == 1 && EntryLeadsSomewhere(e, pages)
  }

  ghost predicate EntryLeadsSomewhere(e: IndexEntry, pages: seq<HeapPage>) {
    && e.ctid.page < |pages| && ValidSlot(pages[e.ctid.page], e.ctid.slot)
    && var slot := pages[e.ctid.page][e.ctid.slot - 1];
       slot.Redirect? || (slot.Normal? && slot.item.itemId == e.key)
  }

  lemma LastMember(s: seq<IndexEntry>)
    requires s != []
    ensures multiset(s) == multiset(s[..|s| - 1]) + multiset{s[|s| - 1]}
  {
    assert s == s[..|s| - 1] + [s[|s| - 1]];
  }

  lemma RemovedInTurn(a: multiset<IndexEntry>, b: multiset<IndexEntry>, c: multiset<IndexEntry>)
    ensures a - b - c == a - (b + c)
  {
  }

  lemma {:induction false} RemoveAllMembers(s: seq<IndexEntry>, dead: seq<IndexEntry>)
    ensures multiset(RemoveAll(s, dead)) == multiset(s) - multiset(dead)
    decreases |dead|
  {
    if dead != [] {
      var rest, last := dead[..|dead| - 1], dead[|dead| - 1];
      RemoveAllMembers(s, rest);
      M.RemoveKeepsOthers(RemoveAll(s, rest), last);
      RemovedInTurn(multiset(s), multiset(rest), multiset{last});
      LastMember(dead);
    }
  }

  lemma RemovedOnce(s: seq<IndexEntry>, dead: seq<IndexEntry>, e: IndexEntry)
    requires multiset(s)[e] <= 1 && e in multiset(RemoveAll(s, dead))
    ensures e in multiset(s) && e !in dead && multiset(RemoveAll(s, dead))[e] == 1
  {
    RemoveAllMembers(s, dead);
    assert multiset(RemoveAll(s, dead))[e] == multiset(s)[e] - multiset(dead)[e];
  }

  lemma EntryStillLeadsSomewhere(pages: seq<HeapPage>, e: IndexEntry, tm: State, horizon: TxId)
    requires EntryLeadsSomewhere(e, pages) && e !in AllDead(pages, tm, horizon)
    ensures EntryLeadsSomewhere(e, Vacuumed(pages, tm, horizon))
  {
    DeadTidsMembers(pages, |pages|, tm, horizon, e);
    var page := pages[e.ctid.page];
    var marked := MarkPage(page, e.ctid.page, tm, horizon);
    assert MarkAll(pages, tm, horizon)[e.ctid.page] == marked;
    assert !marked[e.ctid.slot - 1].Dead?;
  }

  /** The reason for three phases: when a slot becomes free, no index entry points at it. */
  lemma NoEntryNamesFreedSlot(pages: seq<HeapPage>, entries: seq<IndexEntry>, tm: State, horizon: TxId)
    requires IndexSound(entries, pages)
    ensures IndexSound(RemoveAll(entries, AllDead(pages, tm, horizon)), Vacuumed(pages, tm, horizon))
  {
    var dead := AllDead(pages, tm, horizon);
    var pages' := Vacuumed(pages, tm, horizon);
    forall e | e in multiset(RemoveAll(entries, dead))
      ensures multiset(RemoveAll(entries, dead))[e] == 1 && EntryLeadsSomewhere(e, pages')
    {
      assert multiset(entries)[e] <= 1 by {
        if e in multiset(entries) {}
      }
      RemovedOnce(entries, dead, e);
      EntryStillLeadsSomewhere(pages, e, tm, horizon);
    }
  }

  /** Which slots VACUUM leaves free: those that were, and with anything to remove at all also the DEAD
      ones and the dead ends of chains. */
  lemma FreeExactlyWhen(pages: seq<HeapPage>, pid: PageId, s: SlotId, tm: State, horizon: TxId)
    requires pid < |pages| && ValidSlot(pages[pid], s)
    ensures Vacuumed(pages, tm, horizon)[pid][s - 1].Unused? <==>
      || pages[pid][s - 1].Unused?
      || (AllDead(pages, tm, horizon) != [] && MarkSlot(pages[pid][s - 1], pid, s, tm, horizon).Dead?)
  {
    assert MarkAll(pages, tm, horizon)[pid] == MarkPage(pages[pid], pid, tm, horizon);
  }

  /** An entry that names a redirect may still lead on to a free slot: exactly if the version it is
      redirected to was a dead end itself, or was free already. */
  lemma RedirectLeadsToFreeSlotExactlyWhen(pages: seq<HeapPage>, e: IndexEntry, tm: State, horizon: TxId)
    requires e.ctid.page < |pages| && ValidSlot(pages[e.ctid.page], e.ctid.slot)
    requires AllDead(pages, tm, horizon) != []
    ensures var page, page' := pages[e.ctid.page], Vacuumed(pages, tm, horizon)[e.ctid.page];
      var to := page'[e.ctid.slot - 1];
      to.Redirect? && ValidSlot(page, to.target) ==>
        (page'[to.target - 1].Unused? <==>
          page[to.target - 1].Unused? || MarkSlot(page[to.target - 1], e.ctid.page, to.target, tm, horizon).Dead?)
  {
    var to := Vacuumed(pages, tm, horizon)[e.ctid.page][e.ctid.slot - 1];
    if to.Redirect? && ValidSlot(pages[e.ctid.page], to.target) {
      FreeExactlyWhen(pages, e.ctid.page, to.target, tm, horizon);
    }
  }
}
