/** What transactions asked for and what they were told (src/lock.cpp): a granted request holds its
    lock in the mode asked for, and exclusion is between requests, not only between table entries. */
module LockRequests {
  import opened StorageTypes
  import opened LockSpec
  import opened LockTheory
  import opened LockRuns
  import G = WaitForGraph

  /** A lock that serves a request for mode `m`. */
  predicate Serves(lock: Request, tx: TxId, m: Mode) {
    lock.tx == tx && (m == Exclusive ==> lock.mode == Exclusive)
  }

  ghost predicate HoldsAtLeast(s: State, tx: TxId, res: Resource, m: Mode) {
    exists lock :: HasLock(s, res, lock) && Serves(lock, tx, m)
  }

  ghost predicate QueuedAs(s: State, tx: TxId, res: Resource, m: Mode) {
    res in s.table && exists r :: r in s.table[res].waitQueue && r.tx == tx && r.mode == m
  }

  // ---- one call ---------------------------------------------------------------

  /** A request is granted at once exactly when its owner holds as much already, or nobody is queued and
      the resource is free or shared by readers only and wanted for reading. */
  lemma GrantedExactlyWhen(s: State, res: Resource, tx: TxId, m: Mode, timeoutMs: int)
    ensures AcquireOutcome(s, res, tx, m, timeoutMs, Granted) <==>
      || HoldsAtLeast(s, tx, res, m)
      || ((forall r :: !QueuedEntry(s, res, r)) && forall lock :: HasLock(s, res, lock) ==> m == Shared && lock.mode == Shared)
  {
    var h := HeadOf(s.table, res);
    if HoldsAtLeast(s, tx, res, m) {
      var lock :| HasLock(s, res, lock) && Serves(lock, tx, m);
      assert h.IsHeldBy(tx, m);
    }
    if h.IsHeldBy(tx, m) {
      var r :| r in h.grantedList && r.tx == tx && (m == Shared || r.mode == Exclusive);
      assert HasLock(s, res, r) && Serves(r, tx, m);
    }
    if h.waitQueue != [] {
      assert QueuedEntry(s, res, h.waitQueue[0]);
    }
    if h.grantedList != [] {
      assert HasLock(s, res, h.grantedList[0]);
    }
    assert forall r :: r in h.grantedList ==> HasLock(s, res, r);
  }

  ghost predicate QueuedEntry(s: State, res: Resource, r: Request) {
    res in s.table && r in s.table[res].waitQueue
  }

  /** Granted means held, in the mode asked for. */
  lemma GrantedMeansHeld(s: State, res: Resource, tx: TxId, m: Mode, timeoutMs: int)
    requires AcquireOutcome(s, res, tx, m, timeoutMs, Granted)
    ensures HoldsAtLeast(AcquireNext(s, res, tx, m, timeoutMs), tx, res, m)
  {
    var s', h := AcquireNext(s, res, tx, m, timeoutMs), HeadOf(s.table, res);
    if h.IsHeldBy(tx, m) {
      var r :| r in h.grantedList && r.tx == tx && (m == Shared || r.mode == Exclusive);
      assert HasLock(s', res, r) && Serves(r, tx, m);
    } else {
      var last := |s'.table[res].grantedList| - 1;
      assert HasLock(s', res, s'.table[res].grantedList[last]);
      assert Serves(s'.table[res].grantedList[last], tx, m);
    }
  }

  lemma BlockedMeansQueued(s: State, res: Resource, tx: TxId, m: Mode, timeoutMs: int)
    requires AcquireOutcome(s, res, tx, m, timeoutMs, Blocked)
    ensures QueuedAs(AcquireNext(s, res, tx, m, timeoutMs), tx, res, m)
  {
    var q := AcquireNext(s, res, tx, m, timeoutMs).table[res].waitQueue;
    assert q[|q| - 1].tx == tx && q[|q| - 1].mode == m;
  }

  /** A request that is turned down, at once or because of a deadlock, leaves everything as it was. */
  lemma TurnedDownLeavesNoTrace(s: State, res: Resource, tx: TxId, m: Mode, timeoutMs: int, o: Outcome)
    requires Inv(s) && tx !in s.waiting && AcquireOutcome(s, res, tx, m, timeoutMs, o) && o != Granted && o != Blocked
    ensures AcquireNext(s, res, tx, m, timeoutMs) == s
    ensures o == Refused <==> timeoutMs == 0
  {
    if timeoutMs != 0 {
      DeadlockRestores(s, res, tx, m);
    }
  }

  /** release_all leaves its owner nothing, neither locks nor requests. */
  lemma ReleasedEverything(s: State, tx: TxId, s': State, res: Resource)
    requires Inv(s) && ReleaseNext(s, tx, s')
    ensures !Holds(s', tx, res) && !Waits(s', tx, res)
  {
    var mid := ReleaseCore(s, tx);
    ReleaseCoreKeepsConsistent(s, tx);
    assert forall r :: !Holds(mid, tx, r) && !Waits(mid, tx, r);
    var order :| Promotes(mid, order, s');
    PromotionsOnlyServeWaiters(mid, order, s', tx, res);
  }

  lemma {:induction false} PromotionsOnlyServeWaiters(s: State, order: seq<Resource>, s': State, tx: TxId, res: Resource)
    requires Consistent(s) && NoEmptyHeads(s) && Promotes(s, order, s') && tx !in s.waiting && tx !in s.held
    ensures !Holds(s', tx, res) && !Waits(s', tx, res)
    decreases |order|
  {
    if order == [] {
      assert Holds(s, tx, res) ==> tx in s.held;
      assert Waits(s, tx, res) ==> tx in s.waiting;
    } else {
      var front := s.table[order[0]].waitQueue[0].tx;
      assert Waits(s, front, order[0]) by {
        assert front in Txs(s.table[order[0]].waitQueue);
      }
      PromoteKeepsConsistent(s, order[0]);
      PromotionsOnlyServeWaiters(PromoteFront(s, order[0]), order[1..], s', tx, res);
    }
  }

  ghost predicate Conflicts(lock: Request, r: Request) {
    lock.mode == Exclusive || r.mode == Exclusive
  }

  /** Nobody is kept waiting for nothing: wake_up_waiters stops exactly when every queue front conflicts with
      some lock on its resource. */
  lemma SettledMeansBlocked(s: State)
    ensures Settled(s) <==> forall res :: res in s.table && s.table[res].waitQueue != [] ==>
      exists lock :: HasLock(s, res, lock) && Conflicts(lock, s.table[res].waitQueue[0])
  {
    forall res | res in s.table && s.table[res].waitQueue != []
      ensures s.table[res].IsPromotable() <==> !exists lock :: HasLock(s, res, lock) && Conflicts(lock, s.table[res].waitQueue[0]) {
      var h := s.table[res];
      if h.grantedList != [] && !h.IsPromotable() {
        assert HasLock(s, res, h.grantedList[0]);
        if h.waitQueue[0].mode == Shared {
          var lock :| lock in h.grantedList && lock.mode == Exclusive;
          assert HasLock(s, res, lock);
        }
      }
    }
  }

  // ---- from the request to the lock ------------------------------------------------

  /** The request is still queued in its mode, or its owner holds the lock in that mode. */
  ghost predicate Served(s: State, tx: TxId, res: Resource, m: Mode) {
    QueuedAs(s, tx, res, m) || (tx !in s.waiting && HoldsAtLeast(s, tx, res, m))
  }

  lemma PromoteServes(s: State, r: Resource, tx: TxId, res: Resource, m: Mode)
    requires Consistent(s) && r in s.table && s.table[r].IsPromotable() && Served(s, tx, res, m)
    ensures Served(PromoteFront(s, r), tx, res, m)
  {
    var s', front := PromoteFront(s, r), s.table[r].waitQueue[0];
    assert Waits(s, front.tx, r) by { assert front.tx in Txs(s.table[r].waitQueue); }
    if QueuedAs(s, tx, res, m) {
      var q := s.table[res].waitQueue;
      var i :| 0 <= i < |q| && q[i].tx == tx && q[i].mode == m;
      if r == res && i == 0 {
        var granted := s'.table[res].grantedList;
        assert HasLock(s', res, granted[|granted| - 1]) && Serves(granted[|granted| - 1], tx, m);
      } else {
        assert q[i] in s'.table[res].waitQueue;
      }
    } else {
      var lock :| HasLock(s, res, lock) && Serves(lock, tx, m);
      assert HasLock(s', res, lock);
    }
  }

  lemma {:induction false} PromotionsServe(s: State, order: seq<Resource>, s': State, tx: TxId, res: Resource, m: Mode)
    requires Consistent(s) && NoEmptyHeads(s) && Promotes(s, order, s') && Served(s, tx, res, m)
    ensures Served(s', tx, res, m)
    decreases |order|
  {
    if order != [] {
      PromoteServes(s, order[0], tx, res, m);
      PromoteKeepsConsistent(s, order[0]);
      PromotionsServe(PromoteFront(s, order[0]), order[1..], s', tx, res, m);
    }
  }

  lemma ReleaseServes(s: State, other: TxId, s': State, tx: TxId, res: Resource, m: Mode)
    requires Inv(s) && ReleaseNext(s, other, s') && other != tx && Served(s, tx, res, m)
    ensures Served(s', tx, res, m)
  {
    var mid := ReleaseCore(s, other);
    ReleaseCoreKeepsConsistent(s, other);
    ReleasedHead(s, other, res);
    if QueuedAs(s, tx, res, m) {
      var r :| r in s.table[res].waitQueue && r.tx == tx && r.mode == m;
      WithoutKeepsOthers(s.table[res].waitQueue, other, r);
      assert r in mid.table[res].waitQueue;
    } else {
      var lock :| HasLock(s, res, lock) && Serves(lock, tx, m);
      WithoutKeepsOthers(s.table[res].grantedList, other, lock);
      assert HasLock(mid, res, lock);
    }
    var order :| Promotes(mid, order, s');
    PromotionsServe(mid, order, s', tx, res, m);
  }

  lemma WithdrawServes(s: State, r: Resource, other: TxId, tx: TxId, res: Resource, m: Mode)
    requires Inv(s) && Waits(s, other, r) && other != tx && Served(s, tx, res, m)
    ensures Served(Withdraw(s, r, other), tx, res, m)
  {
    var s' := Withdraw(s, r, other);
    ShrunkHeadInv(s.table[r], other);
    if QueuedAs(s, tx, res, m) {
      var e :| e in s.table[res].waitQueue && e.tx == tx && e.mode == m;
      WithoutKeepsOthers(s.table[res].waitQueue, other, e);
      assert e in s'.table[res].waitQueue;
    } else {
      var lock :| HasLock(s, res, lock) && Serves(lock, tx, m);
      assert HasLock(s', res, lock);
    }
  }

  /** acquire only adds to the lists: each is a prefix of what it becomes. */
  lemma AcquireGrows(s: State, r: Resource, other: TxId, mode: Mode, timeoutMs: int, res: Resource)
    requires Inv(s) && other !in s.waiting && res in s.table
    ensures var s' := AcquireNext(s, r, other, mode, timeoutMs);
      && res in s'.table
      && s.table[res].grantedList <= s'.table[res].grantedList && s.table[res].waitQueue <= s'.table[res].waitQueue
      && s'.waiting.Keys <= s.waiting.Keys + {other}
  {
    if G.CycleReachable(WaitFor(Enqueue(s, r, other, mode).table), other) && !HeadOf(s.table, r).IsEmpty() {
      DeadlockRestores(s, r, other, mode);
    }
  }

  lemma AcquireServes(s: State, r: Resource, other: TxId, mode: Mode, timeoutMs: int, tx: TxId, res: Resource, m: Mode)
    requires Inv(s) && other !in s.waiting && other != tx && Served(s, tx, res, m)
    ensures Served(AcquireNext(s, r, other, mode, timeoutMs), tx, res, m)
  {
    var s' := AcquireNext(s, r, other, mode, timeoutMs);
    AcquireGrows(s, r, other, mode, timeoutMs, res);
    if QueuedAs(s, tx, res, m) {
      var e :| e in s.table[res].waitQueue && e.tx == tx && e.mode == m;
      assert e in s'.table[res].waitQueue;
    } else {
      var lock :| HasLock(s, res, lock) && Serves(lock, tx, m);
      assert HasLock(s', res, lock);
    }
  }

  lemma {:induction false} OthersServe(states: seq<State>, events: seq<Event>, k: nat, l: nat, tx: TxId, res: Resource, m: Mode)
    requires Run(states, events) && k <= l < |states| && Served(states[k], tx, res, m)
    requires forall i :: k <= i < l ==> events[i].tx != tx
    ensures Served(states[l], tx, res, m)
  {
    if k < l {
      OthersServe(states, events, k, l - 1, tx, res, m);
      RunKeepsInv(states, events, l - 1);
      assert StepAt(states, events, l - 1);
      match events[l - 1]
      case Timeout(other, r) => WithdrawServes(states[l - 1], r, other, tx, res, m);
      case Release(other) => ReleaseServes(states[l - 1], other, states[l], tx, res, m);
      case Acquire(other, r, mode, timeoutMs) => AcquireServes(states[l - 1], r, other, mode, timeoutMs, tx, res, m);
    }
  }

  // ---- exclusion between requests -----------------------------------------------------

  /** The request made at step k has been answered: granted on the spot, or, after it was queued and
      without any step of its owner, promoted by step l. */
  ghost predicate AnsweredAt(states: seq<State>, events: seq<Event>, k: nat, l: nat) {
    && k <= l < |events| && |states| == |events| + 1 && events[k].Acquire?
    && var e := events[k];
       if k == l then AcquireOutcome(states[k], e.res, e.tx, e.mode, e.timeoutMs, Granted)
       else
         && AcquireOutcome(states[k], e.res, e.tx, e.mode, e.timeoutMs, Blocked)
         && (forall i :: k < i <= l ==> events[i].tx != e.tx)
         && e.tx in states[l].waiting && e.tx !in states[l + 1].waiting
  }

  /** A request that was granted or promoted by step l, and whose owner has released nothing before state j. */
  ghost predicate Obtained(states: seq<State>, events: seq<Event>, k: nat, l: nat, j: nat) {
    && AnsweredAt(states, events, k, l) && l < j < |states|
    && forall i :: l < i < j ==> events[i] != Release(events[k].tx)
  }

  lemma AnsweredMeansHeld(states: seq<State>, events: seq<Event>, k: nat, l: nat)
    requires Run(states, events) && AnsweredAt(states, events, k, l)
    ensures HoldsAtLeast(states[l + 1], events[k].tx, events[k].res, events[k].mode)
  {
    var e := events[k];
    assert StepAt(states, events, k);
    if k == l {
      GrantedMeansHeld(states[k], e.res, e.tx, e.mode, e.timeoutMs);
    } else {
      BlockedMeansQueued(states[k], e.res, e.tx, e.mode, e.timeoutMs);
      OthersServe(states, events, k + 1, l + 1, e.tx, e.res, e.mode);
      if QueuedAs(states[l + 1], e.tx, e.res, e.mode) {
        QueuedMeansWaiting(states, events, l + 1, e.tx, e.res, e.mode);
      }
    }
  }

  lemma QueuedMeansWaiting(states: seq<State>, events: seq<Event>, i: nat, tx: TxId, res: Resource, m: Mode)
    requires Run(states, events) && i < |states| && QueuedAs(states[i], tx, res, m)
    ensures tx in states[i].waiting && states[i].waiting[tx] == res
  {
    RunKeepsInv(states, events, i);
    var q := states[i].table[res].waitQueue;
    var n :| 0 <= n < |q| && q[n].tx == tx;
    assert Waits(states[i], tx, res);
  }

  /** A request that was granted or promoted holds its resource in the mode asked for, until its owner
      calls release_all. */
  lemma ObtainedMeansHeld(states: seq<State>, events: seq<Event>, k: nat, l: nat, j: nat)
    requires Run(states, events) && Obtained(states, events, k, l, j)
    ensures HoldsAtLeast(states[j], events[k].tx, events[k].res, events[k].mode)
  {
    AnsweredMeansHeld(states, events, k, l);
    var lock :| HasLock(states[l + 1], events[k].res, lock) && Serves(lock, events[k].tx, events[k].mode);
    LocksLastUntilRelease(states, events, l + 1, j, events[k].res, lock);
  }

  /** Exclusion between requests: of two requests of different transactions for one resource that have
      both been granted or promoted, and neither released, each asked for SHARED. */
  lemma RequestsExclude(states: seq<State>, events: seq<Event>, k: nat, l: nat, k': nat, l': nat, j: nat)
    requires Run(states, events) && Obtained(states, events, k, l, j) && Obtained(states, events, k', l', j)
    requires events[k].res == events[k'].res && events[k].tx != events[k'].tx
    ensures events[k].mode == Shared && events[k'].mode == Shared
  {
    ObtainedMeansHeld(states, events, k, l, j);
    ObtainedMeansHeld(states, events, k', l', j);
    var a :| HasLock(states[j], events[k].res, a) && Serves(a, events[k].tx, events[k].mode);
    var b :| HasLock(states[j], events[k'].res, b) && Serves(b, events[k'].tx, events[k'].mode);
    MutualExclusion(states, events, j, events[k].res, a, b);
  }

  // ---- queues are first in, first out --------------------------------------------------

  ghost predicate InOrder(q: seq<Request>, i: nat, j: nat, a: TxId, b: TxId) {
    i < j < |q| && q[i].tx == a && q[j].tx == b
  }

  /** Both queue for `res`, a before b. */
  ghost predicate QueuedBefore(s: State, res: Resource, a: TxId, b: TxId) {
    res in s.table && exists i: nat, j: nat :: InOrder(s.table[res].waitQueue, i, j, a, b)
  }

  lemma {:induction false} WithoutKeepsOrder(q: seq<Request>, other: TxId, i: nat, j: nat, a: TxId, b: TxId) returns (i': nat, j': nat)
    requires InOrder(q, i, j, a, b) && a != other && b != other
    ensures InOrder(Without(q, other), i', j', a, b)
  {
    if q[0].tx == other {
      i', j' := WithoutKeepsOrder(q[1..], other, i - 1, j - 1, a, b);
    } else if i > 0 {
      i', j' := WithoutKeepsOrder(q[1..], other, i - 1, j - 1, a, b);
      i', j' := i' + 1, j' + 1;
    } else {
      i' := 0;
      assert q[1..][j - 1] == q[j];
      WithoutKeepsOthers(q[1..], other, q[j]);
      var n :| 0 <= n < |Without(q[1..], other)| && Without(q[1..], other)[n] == q[j];
      j' := n + 1;
    }
  }

  lemma PromoteKeepsOrder(s: State, r: Resource, res: Resource, a: TxId, b: TxId)
    requires Consistent(s) && r in s.table && s.table[r].IsPromotable() && QueuedBefore(s, res, a, b)
    ensures QueuedBefore(PromoteFront(s, r), res, a, b) || Holds(PromoteFront(s, r), a, res)
  {
    var s', q := PromoteFront(s, r), s.table[res].waitQueue;
    var i: nat, j: nat :| InOrder(q, i, j, a, b);
    if r != res {
      assert s'.table[res] == s.table[res];
    } else if i == 0 {
      TxsSnoc(s.table[r].grantedList, q[0].(granted := true));
    } else {
      assert InOrder(s'.table[res].waitQueue, i - 1, j - 1, a, b);
    }
  }

  lemma PromoteKeepsHolding(s: State, r: Resource, res: Resource, a: TxId)
    requires r in s.table && s.table[r].IsPromotable() && Holds(s, a, res)
    ensures Holds(PromoteFront(s, r), a, res)
  {
    TxsSnoc(s.table[r].grantedList, s.table[r].waitQueue[0].(granted := true));
  }

  lemma {:induction false} PromotionsKeepOrder(s: State, order: seq<Resource>, s': State, res: Resource, a: TxId, b: TxId)
    requires Consistent(s) && NoEmptyHeads(s) && Promotes(s, order, s') && (QueuedBefore(s, res, a, b) || Holds(s, a, res))
    ensures QueuedBefore(s', res, a, b) || Holds(s', a, res)
    decreases |order|
  {
    if order != [] {
      PromoteKeepsConsistent(s, order[0]);
      if Holds(s, a, res) {
        PromoteKeepsHolding(s, order[0], res, a);
      } else {
        PromoteKeepsOrder(s, order[0], res, a, b);
      }
      PromotionsKeepOrder(PromoteFront(s, order[0]), order[1..], s', res, a, b);
    }
  }

  lemma ReleaseKeepsOrder(s: State, other: TxId, s': State, res: Resource, a: TxId, b: TxId)
    requires Inv(s) && ReleaseNext(s, other, s') && other != a && other != b && QueuedBefore(s, res, a, b)
    ensures QueuedBefore(s', res, a, b) || Holds(s', a, res)
  {
    ReleaseCoreKeepsConsistent(s, other);
    ReleasedHead(s, other, res);
    var i: nat, j: nat :| InOrder(s.table[res].waitQueue, i, j, a, b);
    var i', j' := WithoutKeepsOrder(s.table[res].waitQueue, other, i, j, a, b);
    var order :| Promotes(ReleaseCore(s, other), order, s');
    PromotionsKeepOrder(ReleaseCore(s, other), order, s', res, a, b);
  }

  lemma WithdrawKeepsOrder(s: State, r: Resource, other: TxId, res: Resource, a: TxId, b: TxId)
    requires Inv(s) && Waits(s, other, r) && other != a && other != b && QueuedBefore(s, res, a, b)
    ensures QueuedBefore(Withdraw(s, r, other), res, a, b)
  {
    ShrunkHeadInv(s.table[r], other);
    var i: nat, j: nat :| InOrder(s.table[res].waitQueue, i, j, a, b);
    var i', j' := WithoutKeepsOrder(s.table[res].waitQueue, other, i, j, a, b);
    assert Withdraw(s, r, other).table[res].waitQueue
        == if r == res then Without(s.table[res].waitQueue, other) else s.table[res].waitQueue;
  }

  lemma AcquireKeepsOrder(s: State, r: Resource, other: TxId, mode: Mode, timeoutMs: int, res: Resource, a: TxId, b: TxId)
    requires Inv(s) && other !in s.waiting && QueuedBefore(s, res, a, b)
    ensures QueuedBefore(AcquireNext(s, r, other, mode, timeoutMs), res, a, b)
  {
    AcquireGrows(s, r, other, mode, timeoutMs, res);
    var i: nat, j: nat :| InOrder(s.table[res].waitQueue, i, j, a, b);
    assert InOrder(AcquireNext(s, r, other, mode, timeoutMs).table[res].waitQueue, i, j, a, b);
  }

  lemma StepKeepsOrder(s: State, e: Event, s': State, res: Resource, a: TxId, b: TxId)
    requires Inv(s) && Legal(s, e) && Next(s, e, s') && e.tx != a && e.tx != b && QueuedBefore(s, res, a, b)
    ensures QueuedBefore(s', res, a, b) || Holds(s', a, res)
  {
    match e
    case Timeout(other, r) => WithdrawKeepsOrder(s, r, other, res, a, b);
    case Release(other) => ReleaseKeepsOrder(s, other, s', res, a, b);
    case Acquire(other, r, mode, timeoutMs) => AcquireKeepsOrder(s, r, other, mode, timeoutMs, res, a, b);
  }

  lemma HoldingLasts(states: seq<State>, events: seq<Event>, i: nat, res: Resource, a: TxId)
    requires Run(states, events) && i < |events| && Holds(states[i], a, res) && events[i].tx != a
    ensures Holds(states[i + 1], a, res)
  {
    var q := states[i].table[res].grantedList;
    var n :| 0 <= n < |q| && q[n].tx == a;
    RunStepKeepsLock(states, events, i, res, q[n]);
    assert q[n] in states[i + 1].table[res].grantedList;
  }

  /** No overtaking: of two waiters for one resource that do nothing themselves, the one that queued
      later is still behind the other, or the other has been served. */
  lemma {:induction false} NoOvertaking(states: seq<State>, events: seq<Event>, k: nat, l: nat, res: Resource, a: TxId, b: TxId)
    requires Run(states, events) && k <= l < |states| && QueuedBefore(states[k], res, a, b)
    requires forall i :: k <= i < l ==> events[i].tx != a && events[i].tx != b
    ensures QueuedBefore(states[l], res, a, b) || Holds(states[l], a, res)
  {
    if k < l {
      NoOvertaking(states, events, k, l - 1, res, a, b);
      if Holds(states[l - 1], a, res) {
        HoldingLasts(states, events, l - 1, res, a);
      } else {
        RunKeepsInv(states, events, l - 1);
        assert StepAt(states, events, l - 1);
        StepKeepsOrder(states[l - 1], events[l - 1], states[l], res, a, b);
      }
    }
  }
}
