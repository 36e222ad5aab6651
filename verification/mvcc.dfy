/** What snapshots see over whole runs, and why VACUUM's horizon is safe for them. */
module Mvcc {
  import opened StorageTypes
  import opened Transactions

  ghost predicate TmInv(tm: State) {
    && 0 < tm.nextTxId
    && (forall x :: x in tm.activeTxs ==> 0 < x < tm.nextTxId && tm.GetStatus(x) == InProgress)
    && (forall x: TxId :: x >= tm.nextTxId ==> tm.GetStatus(x) == InProgress)
  }

  /** The manager together with the latest snapshot of every running transaction. */
  datatype System = System(tm: State, held: map<TxId, Snapshot>)

  datatype Event =
    | Begin
    | Take(tx: TxId, snap: Snapshot)
    | Commit(tx: TxId)
    | Abort(tx: TxId)
    | Set(tx: TxId, status: Status)

  /** set_status leaves what is decided alone: the transaction is running, or not yet known, or already so. */
  predicate MaySet(tm: State, tx: TxId, status: Status) {
    tx == 0 || tx >= tm.nextTxId || tx in tm.activeTxs || tm.GetStatus(tx) == status
  }

  /** Only a running transaction takes a snapshot, commits or aborts. */
  ghost predicate Step(s: System, e: Event, s': System) {
    match e
    case Begin => s' == System(s.tm.Begin(), s.held)
    case Take(tx, snap) =>
      && tx in s.tm.activeTxs && IsSnapshot(s.tm, tx, snap)
      && s' == System(s.tm.Publish(tx, snap.xmin), s.held[tx := snap])
    case Commit(tx) => tx in s.tm.activeTxs && s' == System(s.tm.Finish(tx, Committed), s.held - {tx})
    case Abort(tx) => tx in s.tm.activeTxs && s' == System(s.tm.Finish(tx, Aborted), s.held - {tx})
    case Set(tx, status) =>
      && MaySet(s.tm, tx, status)
      && s' == System(s.tm.SetStatus(tx, status), if status == InProgress then s.held else s.held - {tx})
  }

  ghost predicate TxRun(states: seq<System>, events: seq<Event>) {
    && |states| == |events| + 1
    && forall i :: 0 <= i < |events| ==> StepAt(states, events, i)
  }

  ghost predicate StepAt(states: seq<System>, events: seq<Event>, i: nat) {
    i < |events| && i + 1 < |states| && Step(states[i], events[i], states[i + 1])
  }

  ghost predicate Inv(s: System) {
    && TmInv(s.tm)
    && (forall tx :: tx in s.tm.snapshotXmins ==> tx < s.tm.nextTxId)
    && (forall tx :: tx in s.held ==>
          && tx in s.tm.activeTxs && tx in s.tm.snapshotXmins && s.tm.snapshotXmins[tx] == s.held[tx].xmin
          && s.held[tx].owner == tx && 0 < s.held[tx].xmax && 0 !in s.held[tx].activeTxs
          && IsLeast(s.held[tx].xmin, s.held[tx].xmax, s.held[tx].activeTxs))
    && forall tx :: tx in s.tm.activeTxs && tx in s.tm.snapshotXmins ==> tx in s.held
  }

  /** How far a manager can move: finished transactions keep their fate, ids only grow. */
  ghost predicate Evolves(tm: State, tm': State) {
    && tm.nextTxId <= tm'.nextTxId
    && (forall x: TxId :: x < tm.nextTxId && x !in tm.activeTxs ==>
          tm'.GetStatus(x) == tm.GetStatus(x) && x !in tm'.activeTxs)
  }

  /** set_status keeps the manager consistent for any arguments, and rewrites no decided fate exactly when
      the transaction is running, unknown so far, or has the status already. */
  lemma SetStatusExactlyWhen(tm: State, tx: TxId, status: Status)
    requires TmInv(tm)
    ensures TmInv(tm.SetStatus(tx, status))
    ensures Evolves(tm, tm.SetStatus(tx, status)) <==> MaySet(tm, tx, status)
  {
    var tm' := tm.SetStatus(tx, status);
    assert tx != 0 ==> tm'.GetStatus(tx) == status;
    forall x: TxId | x >= tm'.nextTxId ensures tm'.GetStatus(x) == InProgress {
      assert tm.GetStatus(x) == InProgress;
    }
    forall x: TxId | x < tm.nextTxId && x != tx ensures tm'.GetStatus(x) == tm.GetStatus(x) {
    }
  }

  lemma SetKeepsInv(s: System, tx: TxId, status: Status, s': System)
    requires Inv(s) && Step(s, Set(tx, status), s')
    ensures Inv(s') && Evolves(s.tm, s'.tm)
  {
    SetStatusExactlyWhen(s.tm, tx, status);
  }

  lemma BeginKeepsInv(s: System, s': System)
    requires Inv(s) && Step(s, Begin, s')
    ensures Inv(s') && Evolves(s.tm, s'.tm)
  {
    forall x: TxId | x >= s'.tm.nextTxId ensures s'.tm.GetStatus(x) == InProgress {
      assert s.tm.GetStatus(x) == InProgress;
    }
  }

  lemma TakeKeepsInv(s: System, tx: TxId, snap: Snapshot, s': System)
    requires Inv(s) && Step(s, Take(tx, snap), s')
    ensures Inv(s') && Evolves(s.tm, s'.tm)
  {
    forall x: TxId | x >= s'.tm.nextTxId ensures s'.tm.GetStatus(x) == InProgress {
      assert s.tm.GetStatus(x) == InProgress;
    }
  }

  lemma FinishKeepsInv(s: System, tx: TxId, status: Status, s': System)
    requires Inv(s) && tx in s.tm.activeTxs && s' == System(s.tm.Finish(tx, status), s.held - {tx})
    ensures Inv(s') && Evolves(s.tm, s'.tm)
  {
    forall x: TxId | x >= s'.tm.nextTxId ensures s'.tm.GetStatus(x) == InProgress {
      assert s.tm.GetStatus(x) == InProgress;
    }
  }

  lemma StepKeepsInv(s: System, e: Event, s': System)
    requires Inv(s) && Step(s, e, s')
    ensures Inv(s') && Evolves(s.tm, s'.tm)
  {
    match e
    case Begin => BeginKeepsInv(s, s');
    case Take(tx, snap) => TakeKeepsInv(s, tx, snap, s');
    case Commit(tx) => FinishKeepsInv(s, tx, Committed, s');
    case Abort(tx) => FinishKeepsInv(s, tx, Aborted, s');
    case Set(tx, status) => SetKeepsInv(s, tx, status, s');
  }

  lemma {:induction false} RunKeepsInv(states: seq<System>, events: seq<Event>, i: nat)
    requires TxRun(states, events) && Inv(states[0]) && i < |states|
    ensures Inv(states[i]) && Evolves(states[0].tm, states[i].tm)
  {
    if i > 0 {
      RunKeepsInv(states, events, i - 1);
      assert StepAt(states, events, i - 1);
      StepKeepsInv(states[i - 1], events[i - 1], states[i]);
    }
  }

  // ---- what a snapshot sees -----------------------------------------------

  ghost predicate HadCommitted(tm: State, tx: TxId) {
    tm.GetStatus(tx) == Committed || tm.GetStatus(tx) == SubCommitted
  }

  /** The reference meaning of a snapshot: its owner's work and everything committed at `past`. */
  ghost predicate SeenFrom(past: State, owner: TxId, h: TupleHeader) {
    && (h.xmin == owner || HadCommitted(past, h.xmin))
    && !(h.xmax != 0 && (h.xmax == owner || HadCommitted(past, h.xmax)))
  }

  /** However many transactions begin, commit or abort later, as long as the owner is running
      its snapshot sees what had committed when it was taken, plus the owner's own work. */
  lemma SnapshotViewIsFixed(states: seq<System>, events: seq<Event>, i: nat, owner: TxId, snap: Snapshot, h: TupleHeader)
    requires TxRun(states, events) && Inv(states[0]) && i < |states|
    requires owner in states[0].tm.activeTxs && IsSnapshot(states[0].tm, owner, snap)
    requires owner in states[i].tm.activeTxs
    ensures IsTupleVisible(h, snap, states[i].tm) <==> SeenFrom(states[0].tm, owner, h)
  {
    RunKeepsInv(states, events, i);
    CreatorSeen(states[0].tm, states[i].tm, owner, snap, h.xmin);
    CreatorSeen(states[0].tm, states[i].tm, owner, snap, h.xmax);
  }

  /** One transaction's effects, as creator or deleter, against a snapshot taken at `past`. */
  lemma CreatorSeen(past: State, now: State, owner: TxId, snap: Snapshot, x: TxId)
    requires TmInv(past) && TmInv(now) && Evolves(past, now)
    requires owner in past.activeTxs && owner in now.activeTxs && IsSnapshot(past, owner, snap)
    ensures CreationVisible(x, snap, now) <==> (x == owner || HadCommitted(past, x))
    ensures x != 0 ==> (DeletionVisible(x, snap, now) <==> CreationVisible(x, snap, now))
  {
    if x != owner && x < past.nextTxId && x !in past.activeTxs {
      assert now.GetStatus(x) == past.GetStatus(x);
    }
  }

  /** A transaction's inserts are seen all or none, and its deletes exactly when its inserts are. */
  lemma AllOrNothing(states: seq<System>, events: seq<Event>, i: nat, owner: TxId, snap: Snapshot,
                     x: TxId, inserted: TupleHeader, deleted: TupleHeader)
    requires TxRun(states, events) && Inv(states[0]) && i < |states|
    requires owner in states[0].tm.activeTxs && IsSnapshot(states[0].tm, owner, snap)
    requires owner in states[i].tm.activeTxs
    requires x != 0 && inserted.xmin == x && inserted.xmax == 0
    requires deleted.xmax == x && SeenFrom(states[0].tm, owner, deleted.(xmax := 0))
    ensures IsTupleVisible(inserted, snap, states[i].tm) <==> !IsTupleVisible(deleted, snap, states[i].tm)
  {
    SnapshotViewIsFixed(states, events, i, owner, snap, inserted);
    SnapshotViewIsFixed(states, events, i, owner, snap, deleted);
  }

  // ---- the horizon --------------------------------------------------------

  /** collect_dead's test (src/vacuum.cpp, lines 34-43). */
  predicate IsDead(h: TupleHeader, tm: State, horizon: TxId) {
    || tm.GetStatus(h.xmin) == Aborted
    || (h.xmax != 0 && tm.GetStatus(h.xmax) == Committed && h.xmax < horizon)
  }

  /** Everything committed below the horizon lies in the snapshot's past. */
  ghost predicate Covers(tm: State, horizon: TxId, snap: Snapshot) {
    forall x: TxId :: 0 < x < horizon && tm.GetStatus(x) == Committed ==> x < snap.xmax && x !in snap.activeTxs
  }

  ghost predicate LosesNothing(tm: State, horizon: TxId, snap: Snapshot) {
    forall h :: IsDead(h, tm, horizon) ==> !IsTupleVisible(h, snap, tm)
  }

  /** Removing dead versions is invisible to a running transaction's snapshot exactly when
      everything committed below the horizon lies in the snapshot's past. */
  lemma SafeExactlyWhen(tm: State, horizon: TxId, snap: Snapshot)
    requires TmInv(tm) && snap.owner in tm.activeTxs && 0 < snap.xmax && 0 !in snap.activeTxs
    ensures LosesNothing(tm, horizon, snap) <==> Covers(tm, horizon, snap)
  {
    if LosesNothing(tm, horizon, snap) {
      forall x: TxId | 0 < x < horizon && tm.GetStatus(x) == Committed
        ensures x < snap.xmax && x !in snap.activeTxs
      {
        var h := TupleHeader(0, x, Ctid(0, 1), false, false, false);
        assert IsDead(h, tm, horizon);
      }
    }
  }

  ghost predicate BoundedBy(s: System, h: TxId) {
    && h <= s.tm.nextTxId
    && (forall x :: x in s.tm.activeTxs ==> h <= x)
    && (forall tx :: tx in s.held ==> h <= s.held[tx].xmin)
  }

  lemma {:induction false} RunKeepsBound(states: seq<System>, events: seq<Event>, i: nat, h: TxId)
    requires TxRun(states, events) && Inv(states[0]) && BoundedBy(states[0], h) && i < |states|
    ensures BoundedBy(states[i], h)
  {
    if i > 0 {
      RunKeepsBound(states, events, i - 1, h);
      RunKeepsInv(states, events, i - 1);
      assert StepAt(states, events, i - 1);
    }
  }

  lemma HorizonIsBound(s: System, h: TxId)
    requires Inv(s) && IsHorizon(s.tm, h)
    ensures BoundedBy(s, h)
  {
    forall tx | tx in s.held ensures h <= s.held[tx].xmin {
      assert s.tm.snapshotXmins[tx] in s.tm.LiveXmins();
    }
  }

  /** The horizon never moves back, and it bounds every snapshot held then or taken later. */
  lemma HorizonIsMonotone(states: seq<System>, events: seq<Event>, i: nat, h: TxId, h': TxId)
    requires TxRun(states, events) && Inv(states[0]) && i < |states|
    requires IsHorizon(states[0].tm, h) && IsHorizon(states[i].tm, h')
    ensures h <= h'
    ensures forall tx :: tx in states[i].held ==> h <= states[i].held[tx].xmin
  {
    HorizonIsBound(states[0], h);
    RunKeepsBound(states, events, i, h);
    RunKeepsInv(states, events, i);
    if h' in states[i].tm.LiveXmins() {
      var tx :| tx in states[i].tm.snapshotXmins && tx in states[i].tm.activeTxs && states[i].tm.snapshotXmins[tx] == h';
      assert tx in states[i].held;
    }
  }

  /** A version found dead at one moment is invisible, from then on, to the snapshot of every
      running transaction, whether it was taken before or after. */
  lemma DeadStaysInvisible(states: seq<System>, events: seq<Event>, i: nat, horizon: TxId, tx: TxId, h: TupleHeader)
    requires TxRun(states, events) && Inv(states[0]) && i < |states|
    requires IsHorizon(states[0].tm, horizon) && IsDead(h, states[0].tm, horizon)
    requires tx in states[i].held
    ensures !IsTupleVisible(h, states[i].held[tx], states[i].tm)
  {
    HorizonIsBound(states[0], horizon);
    RunKeepsBound(states, events, i, horizon);
    RunKeepsInv(states, events, i);
    var tm, now := states[0].tm, states[i].tm;
    if tm.GetStatus(h.xmin) == Aborted {
      assert now.GetStatus(h.xmin) == Aborted;
    } else {
      assert now.GetStatus(h.xmax) == Committed;
    }
  }

  /** A transaction that takes a second snapshot publishes only the second one. Here it loses a
      row its first snapshot still sees: transaction 1 deleted the row and committed in between. */
  lemma StaleSnapshotLosesRow() returns (states: seq<System>, events: seq<Event>, horizon: TxId, h: TupleHeader)
    ensures TxRun(states, events) && Inv(states[0]) && |events| == 5
    ensures events[2].Take? && events[2].tx == 2 && 2 in states[5].tm.activeTxs
    ensures IsHorizon(states[5].tm, horizon) && IsDead(h, states[5].tm, horizon)
    ensures IsTupleVisible(h, events[2].snap, states[5].tm)
  {
    var tm0 := State(1, None, map[0 := Committed], {}, map[]);
    var s0 := System(tm0, map[]);
    var stale, renewed := Snapshot(2, 1, 3, {1}), Snapshot(2, 3, 3, {});
    var s1 := System(tm0.Begin(), map[]);
    var s2 := System(s1.tm.Begin(), map[]);
    var s3 := System(s2.tm.Publish(2, 1), map[2 := stale]);
    var s4 := System(s3.tm.Finish(1, Committed), map[2 := stale]);
    var s5 := System(s4.tm.Publish(2, 3), map[2 := renewed]);
    assert s4.held == s3.held - {1};
    assert s3.held == s2.held[2 := stale];
    assert s5.held == s4.held[2 := renewed];
    assert s2.tm.activeTxs == {1, 2};
    assert s4.tm.activeTxs == {2};
    states := [s0, s1, s2, s3, s4, s5];
    events := [Begin, Begin, Take(2, stale), Commit(1), Take(2, renewed)];
    assert Step(s0, events[0], s1) && Step(s1, events[1], s2) && Step(s2, events[2], s3);
    assert Step(s3, events[3], s4) && Step(s4, events[4], s5);
    assert TxRun(states, events);
    assert s5.tm.LiveXmins() == {3} by {
      assert s5.tm.snapshotXmins[2] == 3;
    }
    horizon := 2;
    h := TupleHeader(0, 1, Ctid(0, 1), false, false, false);
    assert states[5] == s5;
  }
}
