/** The lock manager itself: three maps updated in place under one mutex. Each method is one
    critical section; a blocked acquire resumes through ReleaseAll or GiveUp. */
module LockManager {
  import opened StorageTypes
  import opened LockSpec
  import LockTheory
  import G = WaitForGraph

  class Manager {
    var lockTable: Table
    var heldByTx: map<TxId, set<Resource>>
    var waitingOn: map<TxId, Resource>

    constructor ()
      ensures View() == INITIAL
    {
      lockTable, heldByTx, waitingOn := map[], map[], map[];
    }

    ghost function View(): State
      reads this
    {
      State(lockTable, heldByTx, waitingOn)
    }

    method BuildWaitForGraph() returns (g: G.Graph)
      ensures g == WaitFor(lockTable)
    {
      g := map[];
      var todo := lockTable.Keys;
      while todo != {}
        invariant todo <= lockTable.Keys
        invariant forall u :: u in g ==> g[u] != {}
        invariant forall u, v :: G.Edge(g, u, v) <==>
          exists r :: r in lockTable.Keys - todo && LockTheory.Blocks(lockTable, r, u, v)
        decreases todo
      {
        var res :| res in todo;
        ghost var before := g;
        g := AddHead(g, lockTable[res]);
        todo := todo - {res};
        forall u, v ensures G.Edge(g, u, v) <==>
            exists r :: r in lockTable.Keys - todo && LockTheory.Blocks(lockTable, r, u, v) {
          assert G.Edge(g, u, v) <==> G.Edge(before, u, v) || LockTheory.Blocks(lockTable, res, u, v);
        }
      }
      GraphFromEdges(g, lockTable);
    }

    method Acquire(res: Resource, tx: TxId, mode: Mode, timeoutMs: int) returns (o: Outcome)
      modifies this
      ensures View() == AcquireNext(old(View()), res, tx, mode, timeoutMs)
      ensures AcquireOutcome(old(View()), res, tx, mode, timeoutMs, o)
    {
      var head := HeadOf(lockTable, res);
      if head.IsHeldBy(tx, mode) {
        return Granted;
      }
      if head.IsCompatible(mode) && head.waitQueue == [] {
        lockTable := lockTable[res := head.(grantedList := head.grantedList + [Request(tx, mode, true)])];
        heldByTx := heldByTx[tx := (if tx in heldByTx then heldByTx[tx] else {}) + {res}];
        return Granted;
      }
      if timeoutMs == 0 {
        return Refused;
      }
      lockTable := lockTable[res := head.(waitQueue := head.waitQueue + [Request(tx, mode, false)])];
      waitingOn := waitingOn[tx := res];
      var g := BuildWaitForGraph();
      var found, cycle := G.FindCycle(g, tx);
      if found {
        GiveUp(res, tx);
        return Deadlock(cycle);
      }
      return Blocked;
    }

    /** Leave the queue of a resource: after a reported deadlock, or when the wait times out. */
    method GiveUp(res: Resource, tx: TxId)
      modifies this
      ensures View() == Withdraw(old(View()), res, tx)
    {
      if res in lockTable {
        var head := lockTable[res];
        head := head.(waitQueue := RemoveFirst(head.waitQueue, tx));
        if head.IsEmpty() {
          lockTable := lockTable - {res};
        } else {
          lockTable := lockTable[res := head];
        }
      }
      waitingOn := waitingOn - {tx};
    }

    method ReleaseAll(tx: TxId)
      modifies this
      ensures ReleaseNext(old(View()), tx, View())
    {
      ghost var s := View();
      if tx in heldByTx {
        DropGrants(tx, heldByTx[tx]);
        heldByTx := heldByTx - {tx};
      }
      ghost var t1 := lockTable;
      assert t1 == map r | r in s.table ::
        if r in HeldBy(s, tx) then s.table[r].(grantedList := Without(s.table[r].grantedList, tx)) else s.table[r];
      if tx in waitingOn {
        var res := waitingOn[tx];
        if res in lockTable {
          var head := lockTable[res];
          lockTable := lockTable[res := head.(waitQueue := RemoveFirst(head.waitQueue, tx))];
        }
        waitingOn := waitingOn - {tx};
      }
      DropEmptyHeads();
      assert View() == ReleaseCore(s, tx);
      WakeUpWaiters();
    }

    method DropGrants(tx: TxId, resources: set<Resource>)
      modifies this`lockTable
      ensures lockTable == map r | r in old(lockTable) ::
        if r in resources then old(lockTable)[r].(grantedList := Without(old(lockTable)[r].grantedList, tx))
        else old(lockTable)[r]
    {
      var todo := resources;
      while todo != {}
        invariant todo <= resources
        invariant lockTable == map r | r in old(lockTable) ::
          if r in resources - todo then old(lockTable)[r].(grantedList := Without(old(lockTable)[r].grantedList, tx))
          else old(lockTable)[r]
        decreases todo
      {
        var res :| res in todo;
        todo := todo - {res};
        if res in lockTable {
          var head := lockTable[res];
          lockTable := lockTable[res := head.(grantedList := Without(head.grantedList, tx))];
        }
      }
    }

    method DropEmptyHeads()
      modifies this`lockTable
      ensures lockTable == map r | r in old(lockTable) && !old(lockTable)[r].IsEmpty() :: old(lockTable)[r]
    {
      var todo := lockTable.Keys;
      while todo != {}
        invariant todo <= old(lockTable).Keys
        invariant lockTable == map r | r in old(lockTable) && (r in todo || !old(lockTable)[r].IsEmpty())
          :: old(lockTable)[r]
        decreases todo
      {
        var res :| res in todo;
        todo := todo - {res};
        if lockTable[res].IsEmpty() {
          lockTable := lockTable - {res};
        }
      }
    }

    method WakeUpWaiters()
      modifies this
      ensures exists order :: Promotes(old(View()), order, View())
      ensures Settled(View())
    {
      ghost var order: seq<Resource> := [];
      var todo := lockTable.Keys;
      while todo != {}
        invariant Promotes(old(View()), order, View())
        invariant lockTable.Keys == old(lockTable.Keys) && todo <= lockTable.Keys
        invariant forall r :: r in lockTable.Keys - todo ==> !lockTable[r].IsPromotable()
        decreases todo
      {
        var res :| res in todo;
        while lockTable[res].IsPromotable()
          invariant Promotes(old(View()), order, View())
          invariant lockTable.Keys == old(lockTable.Keys)
          invariant forall r :: r in lockTable.Keys - todo ==> !lockTable[r].IsPromotable()
          decreases |lockTable[res].waitQueue|
        {
          PromotesSnoc(old(View()), order, View(), res);
          order := order + [res];
          var front := lockTable[res].waitQueue[0];
          lockTable := lockTable[res := lockTable[res].Promoted()];
          heldByTx := heldByTx[front.tx := (if front.tx in heldByTx then heldByTx[front.tx] else {}) + {res}];
          waitingOn := waitingOn - {front.tx};
        }
        todo := todo - {res};
      }
    }
  }

  /** The edges one lock head contributes: every waiter to every other holder. */
  function WithEdge(g: G.Graph, waiter: TxId, holder: TxId): (after: G.Graph)
    requires forall u :: u in g ==> g[u] != {}
    ensures forall u :: u in after ==> after[u] != {}
    ensures forall u, v :: G.Edge(after, u, v) <==> G.Edge(g, u, v) || (u == waiter && v == holder)
  {
    g[waiter := (if waiter in g then g[waiter] else {}) + {holder}]
  }

  method AddHead(g0: G.Graph, head: Head) returns (g: G.Graph)
    requires forall u :: u in g0 ==> g0[u] != {}
    ensures forall u :: u in g ==> g[u] != {}
    ensures forall u, v :: G.Edge(g, u, v) <==>
      G.Edge(g0, u, v) || (u in Txs(head.waitQueue) && v in Txs(head.grantedList) && u != v)
  {
    g := g0;
    for i := 0 to |head.waitQueue|
      invariant forall u :: u in g ==> g[u] != {}
      invariant forall u, v :: G.Edge(g, u, v) <==>
        G.Edge(g0, u, v) || (u in Txs(head.waitQueue[..i]) && v in Txs(head.grantedList) && u != v)
    {
      var waiter := head.waitQueue[i].tx;
      ghost var before := g;
      for j := 0 to |head.grantedList|
        invariant forall u :: u in g ==> g[u] != {}
        invariant forall u, v :: G.Edge(g, u, v) <==>
          G.Edge(before, u, v) || (u == waiter && v in Txs(head.grantedList[..j]) && u != v)
      {
        var holder := head.grantedList[j].tx;
        LockTheory.TxsSnoc(head.grantedList[..j], head.grantedList[j]);
        assert head.grantedList[..j + 1] == head.grantedList[..j] + [head.grantedList[j]];
        if waiter != holder {
          g := WithEdge(g, waiter, holder);
        }
      }
      assert head.grantedList[..|head.grantedList|] == head.grantedList;
      LockTheory.TxsSnoc(head.waitQueue[..i], head.waitQueue[i]);
      assert head.waitQueue[..i + 1] == head.waitQueue[..i] + [head.waitQueue[i]];
    }
    assert head.waitQueue[..|head.waitQueue|] == head.waitQueue;
  }

  lemma GraphFromEdges(g: G.Graph, table: Table)
    requires forall u :: u in g ==> g[u] != {}
    requires forall u, v :: G.Edge(g, u, v) <==> exists r :: r in table.Keys && LockTheory.Blocks(table, r, u, v)
    ensures g == WaitFor(table)
  {
    var w := WaitFor(table);
    forall u, v ensures G.Edge(g, u, v) <==> G.Edge(w, u, v) {
      LockTheory.WaitForEdges(table, u, v);
    }
    forall u ensures (u in g <==> u in w) && (u in g ==> g[u] == w[u]) {
      assert G.Successors(g, u) == G.Successors(w, u) by {
        forall v ensures v in G.Successors(g, u) <==> v in G.Successors(w, u) {
          assert G.Edge(g, u, v) <==> G.Edge(w, u, v);
        }
      }
    }
  }
}
