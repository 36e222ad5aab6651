/** Strict two-phase locking with FIFO queues (src/lock.cpp, include/pg/lock.h). One critical
    section at a time is a function on values; LockManager performs the same steps in place. */
module LockSpec {
  import opened StorageTypes
  import G = WaitForGraph

  datatype ResourceKind = Row | Relation
  datatype Resource = Resource(kind: ResourceKind, relId: nat, ctid: Ctid)
  datatype Mode = Shared | Exclusive
  datatype Request = Request(tx: TxId, mode: Mode, granted: bool)

  datatype Head = Head(grantedList: seq<Request>, waitQueue: seq<Request>) {
    predicate IsCompatible(mode: Mode) {
      || grantedList == []
      || (mode == Shared && forall r :: r in grantedList ==> r.mode != Exclusive)
    }

    predicate IsHeldBy(tx: TxId, mode: Mode) {
      exists r :: r in grantedList && r.tx == tx && (mode == Shared || r.mode == Exclusive)
    }

    predicate IsEmpty() {
      grantedList == [] && waitQueue == []
    }

    predicate IsPromotable() {
      waitQueue != [] && IsCompatible(waitQueue[0].mode)
    }

    function Promoted(): Head
      requires waitQueue != []
    {
      Head(grantedList + [waitQueue[0].(granted := true)], waitQueue[1..])
    }
  }

  type Table = map<Resource, Head>

  /** lock_table_, held_by_tx_ and waiting_on_. */
  datatype State = State(table: Table, held: map<TxId, set<Resource>>, waiting: map<TxId, Resource>)

  const EMPTY_HEAD := Head([], [])
  const INITIAL := State(map[], map[], map[])

  datatype Outcome = Granted | Refused | Blocked | Deadlock(cycle: seq<TxId>)

  function Txs(q: seq<Request>): set<TxId> {
    set i | 0 <= i < |q| :: q[i].tx
  }

  function HeadOf(table: Table, res: Resource): Head {
    if res in table then table[res] else EMPTY_HEAD
  }

  function HeldBy(s: State, tx: TxId): set<Resource> {
    if tx in s.held then s.held[tx] else {}
  }

  /** Erase the first entry of a transaction, as the three erase loops over a queue do. */
  function RemoveFirst(q: seq<Request>, tx: TxId): seq<Request> {
    if q == [] then []
    else if q[0].tx == tx then q[1..]
    else [q[0]] + RemoveFirst(q[1..], tx)
  }

  /** std::remove_if: drop every entry of a transaction. */
  function Without(q: seq<Request>, tx: TxId): seq<Request> {
    if q == [] then []
    else if q[0].tx == tx then Without(q[1..], tx)
    else [q[0]] + Without(q[1..], tx)
  }

  // ---- the wait-for graph ------------------------------------------------

  function Waiters(table: Table): set<TxId> {
    set r, i | r in table && 0 <= i < |table[r].waitQueue| :: table[r].waitQueue[i].tx
  }

  function Blockers(table: Table, u: TxId): set<TxId> {
    set r, v | r in table && u in Txs(table[r].waitQueue) && v in Txs(table[r].grantedList) && v != u :: v
  }

  function WaitFor(table: Table): G.Graph {
    map u | u in Waiters(table) && Blockers(table, u) != {} :: Blockers(table, u)
  }

  // ---- one critical section at a time ------------------------------------

  function Grant(s: State, res: Resource, tx: TxId, mode: Mode): State {
    var h := HeadOf(s.table, res);
    s.(table := s.table[res := h.(grantedList := h.grantedList + [Request(tx, mode, true)])],
       held := s.held[tx := HeldBy(s, tx) + {res}])
  }

  function Enqueue(s: State, res: Resource, tx: TxId, mode: Mode): State {
    var h := HeadOf(s.table, res);
    s.(table := s.table[res := h.(waitQueue := h.waitQueue + [Request(tx, mode, false)])],
       waiting := s.waiting[tx := res])
  }

  function PutHead(table: Table, res: Resource, h: Head): Table {
    if h.IsEmpty() then table - {res} else table[res := h]
  }

  /** Leave a wait queue after a deadlock (lines 38-48) or a timeout (lines 75-90). */
  function Withdraw(s: State, res: Resource, tx: TxId): State {
    s.(table := if res !in s.table then s.table
                else var h := s.table[res]; PutHead(s.table, res, h.(waitQueue := RemoveFirst(h.waitQueue, tx))),
       waiting := s.waiting - {tx})
  }

  ghost function AcquireNext(s: State, res: Resource, tx: TxId, mode: Mode, timeoutMs: int): State {
    var h := HeadOf(s.table, res);
    if h.IsHeldBy(tx, mode) then s
    else if h.IsCompatible(mode) && h.waitQueue == [] then Grant(s, res, tx, mode)
    else if timeoutMs == 0 then s
    else
      var queued := Enqueue(s, res, tx, mode);
      if G.CycleReachable(WaitFor(queued.table), tx) then Withdraw(queued, res, tx) else queued
  }

  ghost predicate AcquireOutcome(s: State, res: Resource, tx: TxId, mode: Mode, timeoutMs: int, o: Outcome) {
    var h := HeadOf(s.table, res);
    if h.IsHeldBy(tx, mode) || (h.IsCompatible(mode) && h.waitQueue == []) then o == Granted
    else if timeoutMs == 0 then o == Refused
    else
      var g := WaitFor(Enqueue(s, res, tx, mode).table);
      if G.CycleReachable(g, tx) then o.Deadlock? && G.ClosedWalk(g, o.cycle) else o == Blocked
  }

  function PromoteFront(s: State, res: Resource): State
    requires res in s.table && s.table[res].waitQueue != []
  {
    var front := s.table[res].waitQueue[0];
    State(s.table[res := s.table[res].Promoted()],
          s.held[front.tx := HeldBy(s, front.tx) + {res}],
          s.waiting - {front.tx})
  }

  /** Steps 1 to 3 of release_all: forget the locks, the queue entry and then every empty head. */
  function ReleaseCore(s: State, tx: TxId): State {
    var t1 := map r | r in s.table ::
      if r in HeldBy(s, tx) then s.table[r].(grantedList := Without(s.table[r].grantedList, tx)) else s.table[r];
    var t2 := if tx in s.waiting && s.waiting[tx] in t1
              then var r := s.waiting[tx]; t1[r := t1[r].(waitQueue := RemoveFirst(t1[r].waitQueue, tx))]
              else t1;
    State(map r | r in t2 && !t2[r].IsEmpty() :: t2[r], s.held - {tx}, s.waiting - {tx})
  }

  /** wake_up_waiters visits the heads in an unspecified order; each promotion moves one queue front. */
  ghost predicate Promotes(s: State, order: seq<Resource>, s': State)
    decreases |order|
  {
    if order == [] then s == s'
    else
      && order[0] in s.table && s.table[order[0]].IsPromotable()
      && Promotes(PromoteFront(s, order[0]), order[1..], s')
  }

  ghost predicate Settled(s: State) {
    forall r :: r in s.table ==> !s.table[r].IsPromotable()
  }

  ghost predicate ReleaseNext(s: State, tx: TxId, s': State) {
    (exists order :: Promotes(ReleaseCore(s, tx), order, s')) && Settled(s')
  }

  lemma {:induction false} PromotesSnoc(s: State, order: seq<Resource>, mid: State, r: Resource)
    requires Promotes(s, order, mid) && r in mid.table && mid.table[r].IsPromotable()
    ensures Promotes(s, order + [r], PromoteFront(mid, r))
    decreases |order|
  {
    if order == [] {
      assert (order + [r])[1..] == [];
    } else {
      PromotesSnoc(PromoteFront(s, order[0]), order[1..], mid, r);
      assert (order + [r])[1..] == order[1..] + [r];
    }
  }
}
