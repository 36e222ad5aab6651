/** Queued upgrades: a holder that asks for EXCLUSIVE waits for its own lock, and build_wait_for_graph
    leaves that edge out. Who is blamed for a wait, over every way the run can go on. */
module LockUpgrades {
  import opened StorageTypes
  import opened LockSpec
  import opened LockTheory
  import opened LockRuns
  import G = WaitForGraph

  ghost predicate Blamed(s: State, tx: TxId) {
    exists v :: G.Edge(WaitFor(s.table), tx, v)
  }

  ghost predicate Upgrades(s: State, tx: TxId, res: Resource) {
    Holds(s, tx, res) && Waits(s, tx, res)
  }

  ghost predicate ByOthers(events: seq<Event>, tx: TxId) {
    forall i :: 0 <= i < |events| ==> events[i].tx != tx
  }

  // ---- who waits for whom ----------------------------------------------------

  /** In a reachable state a waiter is blamed on nobody exactly when it alone holds what it waits for. */
  lemma BlamedExactlyWhen(s: State, tx: TxId)
    requires Inv(s) && tx in s.waiting
    ensures Blamed(s, tx) <==> !BlocksItself(s, tx)
  {
    var res := s.waiting[tx];
    assert Waits(s, tx, res);
    var q := s.table[res].grantedList;
    assert q[0].tx in Txs(q);
    if v :| v in Txs(q) && v != tx {
      assert Blocks(s.table, res, tx, v);
      WaitForEdges(s.table, tx, v);
    }
    if v :| G.Edge(WaitFor(s.table), tx, v) {
      WaitForEdges(s.table, tx, v);
      var r :| Blocks(s.table, r, tx, v);
      assert Waits(s, tx, r);
    }
  }

  // ---- what other transactions can do to a waiter -------------------------------

  /** What `tx` asked for is still queued, or has been granted. */
  ghost predicate StillAsks(s: State, tx: TxId, res: Resource, holds: bool) {
    tx in s.waiting ==> s.waiting[tx] == res && Holds(s, tx, res) == holds
  }

  lemma PromoteKeepsAsking(s: State, r: Resource, tx: TxId, res: Resource, holds: bool)
    requires Consistent(s) && r in s.table && s.table[r].IsPromotable() && StillAsks(s, tx, res, holds)
    ensures StillAsks(PromoteFront(s, r), tx, res, holds)
    ensures holds && tx in s.waiting ==> tx in PromoteFront(s, r).waiting
  {
    PromotableHoldsNothing(s.table[r]);
    TxsSnoc(s.table[r].grantedList, s.table[r].waitQueue[0].(granted := true));
    var front := s.table[r].waitQueue[0].tx;
    assert front in Txs(s.table[r].waitQueue);
    assert Waits(s, front, r);
  }

  lemma {:induction false} PromotionsKeepAsking(
      s: State, order: seq<Resource>, s': State, tx: TxId, res: Resource, holds: bool)
    requires Consistent(s) && NoEmptyHeads(s) && Promotes(s, order, s') && StillAsks(s, tx, res, holds)
    ensures StillAsks(s', tx, res, holds)
    ensures holds && tx in s.waiting ==> tx in s'.waiting
    decreases |order|
  {
    if order != [] {
      PromoteKeepsAsking(s, order[0], tx, res, holds);
      PromoteKeepsConsistent(s, order[0]);
      PromotionsKeepAsking(PromoteFront(s, order[0]), order[1..], s', tx, res, holds);
    }
  }

  lemma ReleaseKeepsAsking(s: State, other: TxId, s': State, tx: TxId, res: Resource, holds: bool)
    requires Inv(s) && ReleaseNext(s, other, s') && other != tx && StillAsks(s, tx, res, holds)
    ensures StillAsks(s', tx, res, holds)
    ensures holds && tx in s.waiting ==> tx in s'.waiting
  {
    var mid := ReleaseCore(s, other);
    ReleaseCoreKeepsConsistent(s, other);
    assert Holds(s, tx, res) <==> tx in s.held && res in s.held[tx];
    assert Holds(mid, tx, res) <==> tx in mid.held && res in mid.held[tx];
    var order :| Promotes(mid, order, s');
    PromotionsKeepAsking(mid, order, s', tx, res, holds);
  }

  lemma StepKeepsAsking(s: State, e: Event, s': State, tx: TxId, res: Resource, holds: bool)
    requires Inv(s) && Legal(s, e) && Next(s, e, s') && e.tx != tx && StillAsks(s, tx, res, holds)
    ensures StillAsks(s', tx, res, holds)
    ensures holds && tx in s.waiting ==> tx in s'.waiting
  {
    assert Holds(s, tx, res) <==> tx in s.held && res in s.held[tx];
    StepKeepsInv(s, e, s');
    assert Holds(s', tx, res) <==> tx in s'.held && res in s'.held[tx];
    match e
    case Timeout(other, r) =>
    case Release(other) => ReleaseKeepsAsking(s, other, s', tx, res, holds);
    case Acquire(other, r, mode, timeoutMs) =>
      if G.CycleReachable(WaitFor(Enqueue(s, r, other, mode).table), other) && !HeadOf(s.table, r).IsEmpty() {
        DeadlockRestores(s, r, other, mode);
      }
  }

  lemma {:induction false} OthersKeepAsking(
      states: seq<State>, events: seq<Event>, i: nat, tx: TxId, res: Resource, holds: bool)
    requires Steps(states, events) && ByOthers(events, tx) && i < |states|
    requires Inv(states[0]) && StillAsks(states[0], tx, res, holds)
    ensures Inv(states[i]) && StillAsks(states[i], tx, res, holds)
    ensures holds && tx in states[0].waiting ==> tx in states[i].waiting
  {
    if i > 0 {
      OthersKeepAsking(states, events, i - 1, tx, res, holds);
      assert StepAt(states, events, i - 1);
      StepKeepsInv(states[i - 1], events[i - 1], states[i]);
      StepKeepsAsking(states[i - 1], events[i - 1], states[i], tx, res, holds);
    }
  }

  /** Whatever the others do, an upgrade is never granted: it stays queued, beside the lock its
      owner holds, until the owner itself times out or releases. */
  lemma UpgradeIsNeverGranted(states: seq<State>, events: seq<Event>, i: nat, tx: TxId, res: Resource)
    requires Steps(states, events) && Inv(states[0]) && ByOthers(events, tx) && i < |states|
    requires Upgrades(states[0], tx, res)
    ensures Upgrades(states[i], tx, res)
  {
    assert Waits(states[0], tx, res);
    OthersKeepAsking(states, events, i, tx, res, true);
  }

  // ---- the others can all leave -------------------------------------------------

  /** wake_up_waiters comes to an end: every promotion takes one waiter away. */
  lemma {:induction false} SomePromotionsSettle(s: State) returns (order: seq<Resource>, s': State)
    requires Consistent(s) && NoEmptyHeads(s)
    ensures Promotes(s, order, s') && Settled(s')
    decreases |s.waiting|
  {
    if r :| r in s.table && s.table[r].IsPromotable() {
      var next := PromoteFront(s, r);
      assert Waits(s, s.table[r].waitQueue[0].tx, r) by {
        assert s.table[r].waitQueue[0].tx in Txs(s.table[r].waitQueue);
      }
      PromoteKeepsConsistent(s, r);
      assert |next.waiting| < |s.waiting| by { SmallerMap(s.waiting, s.table[r].waitQueue[0].tx); }
      var rest, last := SomePromotionsSettle(next);
      order, s' := [r] + rest, last;
      assert order[1..] == rest;
    } else {
      order, s' := [], s;
    }
  }

  lemma SmallerMap<K, V>(m: map<K, V>, k: K)
    requires k in m
    ensures |m - {k}| < |m|
  {
    assert (m - {k}).Keys == m.Keys - {k};
    assert |(m - {k}).Keys| == |m - {k}| && |m.Keys| == |m|;
  }

  function Active(s: State): set<TxId> {
    s.held.Keys + s.waiting.Keys
  }

  lemma {:induction false} PromotionsAddNobody(s: State, order: seq<Resource>, s': State)
    requires Consistent(s) && NoEmptyHeads(s) && Promotes(s, order, s')
    ensures Active(s') <= Active(s)
    decreases |order|
  {
    if order != [] {
      var h := s.table[order[0]];
      assert Waits(s, h.waitQueue[0].tx, order[0]) by {
        assert h.waitQueue[0].tx in Txs(h.waitQueue);
      }
      PromoteKeepsConsistent(s, order[0]);
      PromotionsAddNobody(PromoteFront(s, order[0]), order[1..], s');
    }
  }

  lemma ReleaseStep(s: State, tx: TxId) returns (s': State)
    requires Inv(s) && tx in s.held
    ensures ReleaseNext(s, tx, s') && Inv(s') && Active(s') < Active(s)
  {
    ReleaseCoreKeepsConsistent(s, tx);
    var order, last := SomePromotionsSettle(ReleaseCore(s, tx));
    s' := last;
    PromotionsAddNobody(ReleaseCore(s, tx), order, s');
    ReleaseKeepsInv(s, tx, s');
  }

  lemma StepsCons(s: State, e: Event, states: seq<State>, events: seq<Event>, tx: TxId)
      returns (longer: seq<State>, es: seq<Event>)
    requires Steps(states, events) && Legal(s, e) && Next(s, e, states[0])
    requires ByOthers(events, tx) && e.tx != tx
    ensures Steps(longer, es) && ByOthers(es, tx)
    ensures longer[0] == s && longer[|longer| - 1] == states[|states| - 1]
  {
    longer, es := [s] + states, [e] + events;
    forall i | 0 <= i < |es| ensures StepAt(longer, es, i) {
      if i > 0 {
        assert StepAt(states, events, i - 1);
        assert es[i] == events[i - 1] && longer[i] == states[i - 1] && longer[i + 1] == states[i];
      }
    }
  }

  /** One other holder leaves, and the upgrade is where it was. */
  lemma OtherLeaves(s: State, tx: TxId, res: Resource, other: TxId) returns (s': State)
    requires Inv(s) && Upgrades(s, tx, res) && Holds(s, other, res) && other != tx
    ensures ReleaseNext(s, other, s') && Inv(s') && Upgrades(s', tx, res) && Active(s') < Active(s)
  {
    assert Waits(s, tx, res);
    s' := ReleaseStep(s, other);
    ReleaseKeepsAsking(s, other, s', tx, res, true);
    assert Waits(s', tx, res);
  }

  lemma {:induction false} OthersCanLeave(s: State, tx: TxId, res: Resource)
      returns (states: seq<State>, events: seq<Event>)
    requires Inv(s) && Upgrades(s, tx, res)
    ensures Steps(states, events) && ByOthers(events, tx) && states[0] == s
    ensures BlocksItself(states[|states| - 1], tx)
    decreases Active(s)
  {
    assert Waits(s, tx, res) && Holds(s, tx, res);
    var q := s.table[res].grantedList;
    if v :| v in Txs(q) && v != tx {
      var next := OtherLeaves(s, tx, res, v);
      var rest, es := OthersCanLeave(next, tx, res);
      states, events := StepsCons(s, Release(v), rest, es, tx);
    } else {
      states, events := [s], [];
    }
  }

  // ---- the exact condition --------------------------------------------------------

  /** Whatever the others do after `s`, as long as `tx` waits it is blamed on somebody. */
  ghost predicate AlwaysBlamed(s: State, tx: TxId) {
    forall states: seq<State>, events ::
      Steps(states, events) && states[0] == s && ByOthers(events, tx) && tx in states[|states| - 1].waiting
      ==> Blamed(states[|states| - 1], tx)
  }

  /** A waiter is always blamed on another transaction, however the run goes on, exactly when it
      did not already hold the resource it asked for. */
  lemma AlwaysBlamedExactlyWhen(states: seq<State>, events: seq<Event>, i: nat, tx: TxId)
    requires Run(states, events) && i < |states| && tx in states[i].waiting
    ensures AlwaysBlamed(states[i], tx) <==> !Holds(states[i], tx, states[i].waiting[tx])
  {
    RunKeepsInv(states, events, i);
    var s := states[i];
    var res := s.waiting[tx];
    if Holds(s, tx, res) {
      assert Waits(s, tx, res);
      var more, es := OthersCanLeave(s, tx, res);
      OthersKeepAsking(more, es, |more| - 1, tx, res, true);
      BlamedExactlyWhen(more[|more| - 1], tx);
    } else {
      forall more: seq<State>, es | Steps(more, es) && more[0] == s && ByOthers(es, tx) && tx in more[|more| - 1].waiting
        ensures Blamed(more[|more| - 1], tx) {
        OthersKeepAsking(more, es, |more| - 1, tx, res, false);
        BlamedExactlyWhen(more[|more| - 1], tx);
      }
    }
  }

  /** A queued request waits for somebody exactly when another transaction holds the resource. */
  lemma QueuedRequestIsBlockedBySomebody(s: State, res: Resource, tx: TxId, mode: Mode)
    requires Mirrored(s) && tx !in s.waiting && res in s.table
    ensures (exists v :: G.Edge(WaitFor(Enqueue(s, res, tx, mode).table), tx, v))
       <==> (exists v :: v in Txs(s.table[res].grantedList) && v != tx)
  {
    var t := Enqueue(s, res, tx, mode).table;
    TxsSnoc(s.table[res].waitQueue, Request(tx, mode, false));
    if v :| v in Txs(s.table[res].grantedList) && v != tx {
      assert Blocks(t, res, tx, v);
      WaitForEdges(t, tx, v);
    }
    if v :| G.Edge(WaitFor(t), tx, v) {
      WaitForEdges(t, tx, v);
      var r :| Blocks(t, r, tx, v);
      assert !Waits(s, tx, r);
    }
  }

  lemma HasEdge(table: Table, u: TxId)
    ensures u in WaitFor(table) ==> exists v :: G.Edge(WaitFor(table), u, v)
  {
    if u in WaitFor(table) {
      var v :| v in WaitFor(table)[u];
      assert G.Edge(WaitFor(table), u, v);
    }
  }

  /** The upgrade that waits for itself: transaction 1 alone holds a row SHARED and asks for
      EXCLUSIVE. It is queued, no cycle is reported, and it waits for nobody. */
  lemma UpgradeBlocksOnItself(res: Resource)
    ensures
      var s := Grant(INITIAL, res, 1, Shared);
      var s' := AcquireNext(s, res, 1, Exclusive, -1);
      && Inv(s) && AcquireOutcome(s, res, 1, Exclusive, -1, Blocked)
      && s'.waiting == map[1 := res] && WaitFor(s'.table) == map[]
  {
    InitialInv();
    GrantKeepsInv(INITIAL, res, 1, Shared);
    var s := Grant(INITIAL, res, 1, Shared);
    assert s.table[res].grantedList == [Request(1, Shared, true)];
    var queued := Enqueue(s, res, 1, Exclusive);
    assert queued.table[res].waitQueue == [Request(1, Exclusive, false)];
    var g := WaitFor(queued.table);
    forall v ensures !G.Edge(g, 1, v) {
      WaitForEdges(queued.table, 1, v);
    }
    assert g == map[] by {
      forall u, v ensures !G.Edge(g, u, v) {
        WaitForEdges(queued.table, u, v);
      }
      forall u ensures u !in g {
        HasEdge(queued.table, u);
      }
    }
    G.TopologicalMeansNoCycle(g, [1], 1);
  }
}
