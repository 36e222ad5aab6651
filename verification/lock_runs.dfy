/** Runs of the lock manager: safety and progress in every reachable state. */
module LockRuns {
  import opened StorageTypes
  import opened LockSpec
  import opened LockTheory
  import G = WaitForGraph

  // ---- runs ---------------------------------------------------------------

  datatype Event =
    | Acquire(tx: TxId, res: Resource, mode: Mode, timeoutMs: int)
    | Timeout(tx: TxId, res: Resource)
    | Release(tx: TxId)

  /** A thread blocked in acquire issues no second request, and a timeout fires only for a
      queued request. Everything else is allowed, upgrades from SHARED to EXCLUSIVE included. */
  ghost predicate Legal(s: State, e: Event) {
    match e
    case Acquire(tx, res, mode, _) => tx !in s.waiting
    case Timeout(tx, res) => Waits(s, tx, res)
    case Release(_) => true
  }

  ghost predicate Next(s: State, e: Event, s': State) {
    match e
    case Acquire(tx, res, mode, timeoutMs) => s' == AcquireNext(s, res, tx, mode, timeoutMs)
    case Timeout(tx, res) => s' == Withdraw(s, res, tx)
    case Release(tx) => ReleaseNext(s, tx, s')
  }

  ghost predicate Steps(states: seq<State>, events: seq<Event>) {
    && |states| == |events| + 1
    && forall i :: 0 <= i < |events| ==> StepAt(states, events, i)
  }

  ghost predicate StepAt(states: seq<State>, events: seq<Event>, i: nat) {
    && i < |events| && i + 1 < |states|
    && Legal(states[i], events[i]) && Next(states[i], events[i], states[i + 1])
  }

  ghost predicate Run(states: seq<State>, events: seq<Event>) {
    Steps(states, events) && states[0] == INITIAL
  }

  lemma CompatibleMeansNew(h: Head, tx: TxId, mode: Mode)
    requires h.IsCompatible(mode) && !h.IsHeldBy(tx, mode)
    ensures tx !in Txs(h.grantedList)
  {
  }

  lemma StepKeepsInv(s: State, e: Event, s': State)
    requires Inv(s) && Legal(s, e) && Next(s, e, s')
    ensures Inv(s')
  {
    match e
    case Timeout(tx, res) => WithdrawKeepsInv(s, res, tx);
    case Release(tx) => ReleaseKeepsInv(s, tx, s');
    case Acquire(tx, res, mode, timeoutMs) =>
      var h := HeadOf(s.table, res);
      if !h.IsHeldBy(tx, mode) {
        if h.IsCompatible(mode) && h.waitQueue == [] {
          CompatibleMeansNew(h, tx, mode);
          GrantKeepsInv(s, res, tx, mode);
        } else if timeoutMs != 0 {
          if G.CycleReachable(WaitFor(Enqueue(s, res, tx, mode).table), tx) {
            DeadlockRestores(s, res, tx, mode);
          } else {
            EnqueueKeepsInv(s, res, tx, mode);
          }
        }
      }
  }

  lemma InitialInv()
    ensures Inv(INITIAL)
  {
    var rank := (v: TxId) => 0;
    assert RankedBy(WaitFor(INITIAL.table), rank, 1);
  }

  lemma {:induction false} RunKeepsInv(states: seq<State>, events: seq<Event>, i: nat)
    requires Run(states, events) && i < |states|
    ensures Inv(states[i])
  {
    if i == 0 {
      InitialInv();
    } else {
      RunKeepsInv(states, events, i - 1);
      assert StepAt(states, events, i - 1);
      StepKeepsInv(states[i - 1], events[i - 1], states[i]);
    }
  }

  ghost predicate HoldsSomething(s: State, tx: TxId) {
    tx in s.held && s.held[tx] != {}
  }

  // ---- main theorems ------------------------------------------------------

  /** In every state of every run the wait-for graph is acyclic; and nobody waits for itself, not
      even through the queues, exactly as long as no holder is queued to upgrade its lock. */
  lemma NeverDeadlocked(states: seq<State>, events: seq<Event>, i: nat)
    requires Run(states, events) && i < |states|
    ensures G.Acyclic(WaitFor(states[i].table))
    ensures G.Acyclic(Dependencies(states[i].table)) <==> NoUpgrades(states[i])
  {
    var s := states[i];
    RunKeepsInv(states, events, i);
    RankedIsAcyclic(WaitFor(s.table));
    if NoUpgrades(s) {
      QueueEdgesKeepRanks(s);
      RankedIsAcyclic(Dependencies(s.table));
    } else {
      var tx, res :| Waits(s, tx, res) && Holds(s, tx, res);
      assert G.Edge(Dependencies(s.table), tx, tx);
      assert G.ClosedWalk(Dependencies(s.table), [tx, tx]);
    }
  }

  /** Two transactions hold the same resource only if both hold it SHARED. */
  lemma MutualExclusion(states: seq<State>, events: seq<Event>, i: nat, res: Resource, a: Request, b: Request)
    requires Run(states, events) && i < |states| && res in states[i].table
    requires a in states[i].table[res].grantedList && b in states[i].table[res].grantedList && a.tx != b.tx
    ensures a.mode == Shared && b.mode == Shared
  {
    RunKeepsInv(states, events, i);
    var q := states[i].table[res].grantedList;
    var m :| 0 <= m < |q| && q[m] == a;
    var n :| 0 <= n < |q| && q[n] == b;
    assert HeadInv(states[i].table[res]);
    if m < n {
      assert q[m].mode == Shared && q[n].mode == Shared;
    } else {
      assert q[n].mode == Shared && q[m].mode == Shared;
    }
  }

  /** `tx` waits for a resource that nobody else holds. */
  ghost predicate BlocksItself(s: State, tx: TxId) {
    && tx in s.waiting && s.waiting[tx] in s.table
    && Txs(s.table[s.waiting[tx]].grantedList) == {tx}
  }

  /** Where the blame ends: with a holder that is running, or with one that waits only for itself. */
  ghost predicate BlameEnds(s: State, tx: TxId) {
    HoldsSomething(s, tx) && (tx in s.waiting ==> BlocksItself(s, tx))
  }

  lemma WalkCons(g: G.Graph, u: TxId, p: seq<TxId>)
    requires G.Walk(g, p) && G.Edge(g, u, p[0])
    ensures G.Walk(g, [u] + p)
  {
    var q := [u] + p;
    forall i | 0 <= i < |q| - 1 ensures G.Edge(g, q[i], q[i + 1]) {
      assert i > 0 ==> G.Edge(g, p[i - 1], p[i]);
    }
  }

  lemma {:induction false} BlamePath(s: State, tx: TxId, rank: TxId -> nat, bound: nat) returns (p: seq<TxId>)
    requires Inv(s) && tx in s.waiting && RankedBy(WaitFor(s.table), rank, bound)
    ensures G.Walk(WaitFor(s.table), p) && p[0] == tx && BlameEnds(s, p[|p| - 1])
    decreases rank(tx)
  {
    var res := s.waiting[tx];
    assert Waits(s, tx, res);
    var h := s.table[res];
    if holder :| holder in Txs(h.grantedList) && holder != tx {
      assert Blocks(s.table, res, tx, holder);
      WaitForEdges(s.table, tx, holder);
      assert Holds(s, holder, res);
      if holder in s.waiting {
        p := BlamePath(s, holder, rank, bound);
      } else {
        p := [holder];
      }
      WalkCons(WaitFor(s.table), tx, p);
      p := [tx] + p;
    } else {
      assert h.grantedList[0].tx in Txs(h.grantedList);
      assert Holds(s, tx, res);
      p := [tx];
    }
  }

  /** Progress: following wait-for edges from any waiter leads to a lock holder that is running,
      or to one that is queued to upgrade a lock it holds alone. */
  lemma SomeHolderCanRun(states: seq<State>, events: seq<Event>, i: nat, tx: TxId) returns (p: seq<TxId>)
    requires Run(states, events) && i < |states| && tx in states[i].waiting
    ensures G.Walk(WaitFor(states[i].table), p) && p[0] == tx
    ensures HoldsSomething(states[i], p[|p| - 1])
    ensures p[|p| - 1] !in states[i].waiting || BlocksItself(states[i], p[|p| - 1])
    ensures NoUpgrades(states[i]) ==> p[|p| - 1] !in states[i].waiting
  {
    RunKeepsInv(states, events, i);
    var rank: TxId -> nat, bound: nat :| RankedBy(WaitFor(states[i].table), rank, bound);
    p := BlamePath(states[i], tx, rank, bound);
    var last := p[|p| - 1];
    if last in states[i].waiting {
      var res := states[i].waiting[last];
      assert Waits(states[i], last, res) && Holds(states[i], last, res);
    }
  }

  // ---- strict two-phase locking -------------------------------------------

  lemma {:induction false} WithoutKeepsOthers(q: seq<Request>, tx: TxId, r: Request)
    requires r in q && r.tx != tx
    ensures r in Without(q, tx)
  {
    if q[0] != r {
      WithoutKeepsOthers(q[1..], tx, r);
    }
  }

  ghost predicate HasLock(s: State, res: Resource, lock: Request) {
    res in s.table && lock in s.table[res].grantedList
  }

  lemma {:induction false} PromotionsKeepLocks(s: State, order: seq<Resource>, s': State, res: Resource, lock: Request)
    requires Promotes(s, order, s') && HasLock(s, res, lock)
    ensures HasLock(s', res, lock)
    decreases |order|
  {
    if order != [] {
      PromotionsKeepLocks(PromoteFront(s, order[0]), order[1..], s', res, lock);
    }
  }

  lemma StepKeepsLock(s: State, e: Event, s': State, res: Resource, lock: Request)
    requires Inv(s) && Legal(s, e) && Next(s, e, s') && HasLock(s, res, lock)
    requires e != Release(lock.tx)
    ensures HasLock(s', res, lock)
  {
    match e
    case Timeout(tx, r) =>
    case Release(tx) =>
      WithoutKeepsOthers(s.table[res].grantedList, tx, lock);
      ReleasedHead(s, tx, res);
      var order :| Promotes(ReleaseCore(s, tx), order, s');
      PromotionsKeepLocks(ReleaseCore(s, tx), order, s', res, lock);
    case Acquire(tx, r, mode, timeoutMs) =>
      if G.CycleReachable(WaitFor(Enqueue(s, r, tx, mode).table), tx) && !HeadOf(s.table, r).IsEmpty() {
        DeadlockRestores(s, r, tx, mode);
      }
  }

  lemma RunStepKeepsLock(states: seq<State>, events: seq<Event>, k: nat, res: Resource, lock: Request)
    requires Run(states, events) && k < |events| && HasLock(states[k], res, lock)
    requires events[k] != Release(lock.tx)
    ensures HasLock(states[k + 1], res, lock)
  {
    RunKeepsInv(states, events, k);
    assert StepAt(states, events, k);
    StepKeepsLock(states[k], events[k], states[k + 1], res, lock);
  }

  /** A granted lock stays granted, in the same mode, until its owner calls release_all. */
  lemma LocksLastUntilRelease(
      states: seq<State>, events: seq<Event>, i: nat, j: nat, res: Resource, lock: Request)
    requires Run(states, events) && i <= j < |states| && HasLock(states[i], res, lock)
    requires forall k :: i <= k < j ==> events[k] != Release(lock.tx)
    ensures HasLock(states[j], res, lock)
  {
    var k := i;
    while k < j
      invariant i <= k <= j && HasLock(states[k], res, lock)
    {
      RunStepKeepsLock(states, events, k, res, lock);
      k := k + 1;
    }
  }

  // ---- what timeouts break, and exactly when ------------------

  ghost predicate StrandsNextWaiter(s: State, e: Event)
    requires Legal(s, e)
  {
    && e.Timeout?
    && s.table[e.res].waitQueue[0].tx == e.tx && |s.table[e.res].waitQueue| >= 2
    && s.table[e.res].IsCompatible(s.table[e.res].waitQueue[1].mode)
  }

  lemma TimeoutUnsettlesExactlyWhen(s: State, res: Resource, tx: TxId)
    requires Inv(s) && Settled(s) && Waits(s, tx, res)
    ensures Settled(Withdraw(s, res, tx)) <==> !StrandsNextWaiter(s, Timeout(tx, res))
  {
    var s' := Withdraw(s, res, tx);
    var h := s.table[res];
    var q := RemoveFirst(h.waitQueue, tx);
    if h.waitQueue[0].tx != tx {
      assert q[0] == h.waitQueue[0];
    } else {
      assert q == h.waitQueue[1..];
    }
    assert s'.table == s.table[res := h.(waitQueue := q)];
    assert s'.table[res].IsPromotable() <==> q != [] && h.IsCompatible(q[0].mode);
  }

  lemma AcquireStaysSettled(s: State, res: Resource, tx: TxId, mode: Mode, timeoutMs: int)
    requires Inv(s) && Settled(s) && tx !in s.waiting
    ensures Settled(AcquireNext(s, res, tx, mode, timeoutMs))
  {
    var h := HeadOf(s.table, res);
    if !h.IsHeldBy(tx, mode) && !(h.IsCompatible(mode) && h.waitQueue == []) && timeoutMs != 0 {
      DeadlockRestores(s, res, tx, mode);
      assert h.waitQueue != [] ==> (h.waitQueue + [Request(tx, mode, false)])[0] == h.waitQueue[0];
    }
  }

  /** No grantable request is left at the front of a queue, except by a timeout that takes the
      front away from a request that is compatible with the holders: lines 75-91 do not promote. */
  lemma SettledExactlyWhen(s: State, e: Event, s': State)
    requires Inv(s) && Settled(s) && Legal(s, e) && Next(s, e, s')
    ensures Settled(s') <==> !StrandsNextWaiter(s, e)
  {
    match e
    case Release(tx) =>
    case Timeout(tx, res) => TimeoutUnsettlesExactlyWhen(s, res, tx);
    case Acquire(tx, res, mode, timeoutMs) => AcquireStaysSettled(s, res, tx, mode, timeoutMs);
  }

  lemma OneHolderNoCycle(table: Table, res: Resource, holder: TxId, tx: TxId)
    requires table.Keys == {res} && Txs(table[res].grantedList) == {holder}
    ensures !G.CycleReachable(WaitFor(table), tx)
  {
    var g := WaitFor(table);
    var rank: TxId -> nat := (v: TxId) => if v == holder then 0 else 1;
    forall u, v | G.Edge(g, u, v) ensures rank(v) < rank(u) {
      WaitForEdges(table, u, v);
    }
    assert RankedBy(g, rank, 2);
    RankedIsAcyclic(g);
  }

  /** The state in which 1 holds `res` SHARED and the given requests are queued. */
  function HeldByOne(res: Resource, queue: seq<Request>, waiting: map<TxId, Resource>): State {
    State(map[res := Head([Request(1, Shared, true)], queue)], map[1 := {res}], waiting)
  }

  lemma QueuedBehindOne(res: Resource, queue: seq<Request>, waiting: map<TxId, Resource>, tx: TxId, mode: Mode)
    requires tx != 1 && (mode == Exclusive || queue != [])
    ensures var s := HeldByOne(res, queue, waiting);
      AcquireNext(s, res, tx, mode, -1) == HeldByOne(res, queue + [Request(tx, mode, false)], waiting[tx := res])
  {
    var s := HeldByOne(res, queue, waiting);
    assert Request(1, Shared, true) in s.table[res].grantedList;
    OneHolderNoCycle(Enqueue(s, res, tx, mode).table, res, 1, tx);
  }

  lemma FirstLock(res: Resource)
    ensures AcquireNext(INITIAL, res, 1, Shared, -1) == HeldByOne(res, [], map[])
  {
    assert HeadOf(INITIAL.table, res) == EMPTY_HEAD && HeldBy(INITIAL, 1) == {};
    assert EMPTY_HEAD.grantedList + [Request(1, Shared, true)] == [Request(1, Shared, true)];
    var s := Grant(INITIAL, res, 1, Shared);
    assert HeldBy(INITIAL, 1) + {res} == {res};
    assert s.held == map[1 := {res}];
    assert s.table == map[res := Head([Request(1, Shared, true)], [])];
  }

  lemma FrontGivesUp(res: Resource)
    ensures var r2, r3 := Request(2, Exclusive, false), Request(3, Shared, false);
      var s := HeldByOne(res, [r2, r3], map[2 := res, 3 := res]);
      && Waits(s, 2, res) && Settled(s)
      && Withdraw(s, res, 2) == HeldByOne(res, [r3], map[3 := res])
      && HeldByOne(res, [r3], map[3 := res]).table[res].IsPromotable()
  {
    var r2, r3 := Request(2, Exclusive, false), Request(3, Shared, false);
    var s := HeldByOne(res, [r2, r3], map[2 := res, 3 := res]);
    assert s.table[res].waitQueue[0].tx == 2;
    assert RemoveFirst([r2, r3], 2) == [r3];
  }

  lemma FourSteps(states: seq<State>, events: seq<Event>)
    requires |states| == 5 && |events| == 4 && states[0] == INITIAL
    requires Legal(states[0], events[0]) && Next(states[0], events[0], states[1])
    requires Legal(states[1], events[1]) && Next(states[1], events[1], states[2])
    requires Legal(states[2], events[2]) && Next(states[2], events[2], states[3])
    requires Legal(states[3], events[3]) && Next(states[3], events[3], states[4])
    ensures Run(states, events)
  {
    assert StepAt(states, events, 0) && StepAt(states, events, 1);
    assert StepAt(states, events, 2) && StepAt(states, events, 3);
  }

  /** The stranded waiter: 1 holds a row SHARED, 2 queues for EXCLUSIVE, 3 queues behind it for
      SHARED, and 2 gives up. Nothing stands in the way of 3 any more, and it is left waiting. */
  lemma TimeoutStrandsWaiter(res: Resource) returns (states: seq<State>, events: seq<Event>)
    ensures Run(states, events) && |events| == 4
    ensures events[3] == Timeout(2, res) && Settled(states[3]) && !Settled(states[4])
    ensures states[4] == HeldByOne(res, [Request(3, Shared, false)], map[3 := res])
  {
    var r2, r3 := Request(2, Exclusive, false), Request(3, Shared, false);
    var s1, s2 := HeldByOne(res, [], map[]), HeldByOne(res, [r2], map[2 := res]);
    var s3, s4 := HeldByOne(res, [r2, r3], map[2 := res, 3 := res]), HeldByOne(res, [r3], map[3 := res]);
    events := [Acquire(1, res, Shared, -1), Acquire(2, res, Exclusive, -1), Acquire(3, res, Shared, -1), Timeout(2, res)];
    states := [INITIAL, s1, s2, s3, s4];
    FirstLock(res);
    QueuedBehindOne(res, [], map[], 2, Exclusive);
    QueuedBehindOne(res, [r2], map[2 := res], 3, Shared);
    assert [] + [r2] == [r2] && [r2] + [r3] == [r2, r3];
    FrontGivesUp(res);
    FourSteps(states, events);
  }
}
