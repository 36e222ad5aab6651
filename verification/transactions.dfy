/** Transaction ids, snapshots, the VACUUM horizon (src/tx.cpp) and tuple visibility (src/mvcc.cpp). */
module Transactions {
  import opened StorageTypes

  datatype Status = InProgress | Committed | Aborted | SubCommitted

  datatype Snapshot = Snapshot(owner: TxId, xmin: TxId, xmax: TxId, activeTxs: set<TxId>) {
    predicate IsActive(tx: TxId) {
      tx in activeTxs
    }
  }

  /** The manager's fields. `clog` is the commit log's answer for each id, if one is attached. */
  datatype State = State(nextTxId: TxId, clog: Option<map<TxId, Status>>, statusMap: map<TxId, Status>,
                         activeTxs: set<TxId>, snapshotXmins: map<TxId, TxId>)
  {
    function GetStatus(tx: TxId): Status {
      if tx == 0 then Committed
      else if tx in statusMap then statusMap[tx]
      else if clog.Some? then (if tx in clog.value then clog.value[tx] else InProgress)
      else if tx < nextTxId then Aborted
      else InProgress
    }

    function RecordStatus(tx: TxId, status: Status): State {
      this.(statusMap := statusMap[tx := status],
            clog := if clog.Some? then Some(clog.value[tx := status]) else None)
    }

    function Begin(): State {
      this.(nextTxId := nextTxId + 1, statusMap := statusMap[nextTxId := InProgress],
            activeTxs := activeTxs + {nextTxId})
    }

    function Publish(tx: TxId, xmin: TxId): State {
      if tx == INVALID_TX_ID then this else this.(snapshotXmins := snapshotXmins[tx := xmin])
    }

    /** commit and abort differ only in the status they record. */
    function Finish(tx: TxId, status: Status): State {
      RecordStatus(tx, status).(activeTxs := activeTxs - {tx}, snapshotXmins := snapshotXmins - {tx})
    }

    function SetStatus(tx: TxId, status: Status): State {
      var s := if status == InProgress then RecordStatus(tx, status) else Finish(tx, status);
      s.(nextTxId := if tx >= nextTxId then tx + 1 else nextTxId)
    }

    /** The xmins published by transactions that are still running. */
    function LiveXmins(): set<TxId> {
      set tx | tx in snapshotXmins && tx in activeTxs :: snapshotXmins[tx]
    }
  }

  /** `m` is the least of `cap` and the members of `s`. */
  ghost predicate IsLeast(m: TxId, cap: TxId, s: set<TxId>) {
    && m <= cap && (m == cap || m in s)
    && forall x :: x in s ==> m <= x
  }

  lemma LeastWith(m: TxId, cap: TxId, s: set<TxId>, x: TxId)
    requires IsLeast(m, cap, s)
    ensures IsLeast(if x < m then x else m, cap, s + {x})
  {
  }

  ghost predicate IsSnapshot(tm: State, tx: TxId, snap: Snapshot) {
    && snap.owner == tx && snap.xmax == tm.nextTxId && snap.activeTxs == tm.activeTxs - {tx}
    && IsLeast(snap.xmin, tm.nextTxId, snap.activeTxs)
  }

  ghost predicate IsHorizon(tm: State, h: TxId) {
    IsLeast(h, tm.nextTxId, tm.activeTxs + tm.LiveXmins())
  }

  // ---- visibility ---------------------------------------------------------

  /** is_tuple_visible, branch by branch. */
  predicate IsTupleVisible(h: TupleHeader, snap: Snapshot, tm: State) {
    CreationVisible(h.xmin, snap, tm) && !DeletionVisible(h.xmax, snap, tm)
  }

  predicate CreationVisible(xmin: TxId, snap: Snapshot, tm: State) {
    if xmin == snap.owner && snap.owner != 0 then true
    else
      var status := tm.GetStatus(xmin);
      if status == Aborted then false
      else if status == InProgress then false
      else if xmin >= snap.xmax then false
      else !snap.IsActive(xmin)
  }

  predicate DeletionVisible(xmax: TxId, snap: Snapshot, tm: State) {
    if xmax == 0 then false
    else if xmax == snap.owner && snap.owner != 0 then true
    else
      var status := tm.GetStatus(xmax);
      if status == Aborted then false
      else if status == InProgress then false
      else if xmax >= snap.xmax then false
      else !snap.IsActive(xmax)
  }

  // ---- the manager --------------------------------------------------------

  class TransactionManager {
    var nextTxId: TxId
    var clog: Option<map<TxId, Status>>
    var statusMap: map<TxId, Status>
    var activeTxs: set<TxId>
    var snapshotXmins: map<TxId, TxId>

    constructor (clog: Option<map<TxId, Status>>)
      ensures View() == State(1, if clog.Some? then Some(clog.value[0 := Committed]) else None,
                              map[0 := Committed], {}, map[])
    {
      nextTxId, statusMap, activeTxs, snapshotXmins := 1, map[0 := Committed], {}, map[];
      this.clog := if clog.Some? then Some(clog.value[0 := Committed]) else None;
    }

    function View(): State
      reads this
    {
      State(nextTxId, clog, statusMap, activeTxs, snapshotXmins)
    }

    method BeginTransaction() returns (tx: TxId)
      modifies this
      ensures tx == old(nextTxId) && View() == old(View()).Begin()
      ensures nextTxId == tx + 1 && activeTxs == old(activeTxs) + {tx} && (tx != 0 ==> View().GetStatus(tx) == InProgress)
    {
      tx := nextTxId;
      nextTxId := nextTxId + 1;
      statusMap := statusMap[tx := InProgress];
      activeTxs := activeTxs + {tx};
    }

    method TakeSnapshot(tx: TxId) returns (snap: Snapshot)
      modifies this
      ensures IsSnapshot(old(View()), tx, snap)
      ensures View() == old(View()).Publish(tx, snap.xmin)
    {
      var minActive := nextTxId;
      var others: set<TxId> := {};
      var todo := activeTxs;
      while todo != {}
        invariant View() == old(View())
        invariant todo <= activeTxs && others == activeTxs - todo - {tx}
        invariant IsLeast(minActive, nextTxId, others)
        decreases todo
      {
        var id :| id in todo;
        todo := todo - {id};
        if id != tx {
          LeastWith(minActive, nextTxId, others, id);
          minActive := if id < minActive then id else minActive;
          others := others + {id};
        }
      }
      snap := Snapshot(tx, minActive, nextTxId, others);
      if tx != INVALID_TX_ID {
        snapshotXmins := snapshotXmins[tx := snap.xmin];
      }
    }

    method OldestSnapshotXmin() returns (horizon: TxId)
      ensures IsHorizon(View(), horizon)
    {
      horizon := nextTxId;
      var todo := activeTxs;
      while todo != {}
        invariant todo <= activeTxs
        invariant IsLeast(horizon, nextTxId, activeTxs - todo)
        decreases todo
      {
        var id :| id in todo;
        LeastWith(horizon, nextTxId, activeTxs - todo, id);
        assert activeTxs - todo + {id} == activeTxs - (todo - {id});
        todo := todo - {id};
        horizon := if id < horizon then id else horizon;
      }
      assert activeTxs - todo == activeTxs;
      ghost var published: set<TxId> := {};
      var keys := snapshotXmins.Keys;
      while keys != {}
        invariant keys <= snapshotXmins.Keys
        invariant published == set tx | tx in snapshotXmins && tx !in keys && tx in activeTxs :: snapshotXmins[tx]
        invariant IsLeast(horizon, nextTxId, activeTxs + published)
        decreases keys
      {
        var tx :| tx in keys;
        keys := keys - {tx};
        if tx in activeTxs {
          LeastWith(horizon, nextTxId, activeTxs + published, snapshotXmins[tx]);
          assert activeTxs + published + {snapshotXmins[tx]} == activeTxs + (published + {snapshotXmins[tx]});
          published := published + {snapshotXmins[tx]};
          horizon := if snapshotXmins[tx] < horizon then snapshotXmins[tx] else horizon;
        }
      }
      assert published == View().LiveXmins();
    }

    method Commit(tx: TxId)
      modifies this
      ensures View() == old(View()).Finish(tx, Committed)
      ensures tx !in activeTxs && tx !in snapshotXmins && (tx != 0 ==> View().GetStatus(tx) == Committed)
    {
      FinishAs(tx, Committed);
    }

    method Abort(tx: TxId)
      modifies this
      ensures View() == old(View()).Finish(tx, Aborted)
      ensures tx !in activeTxs && tx !in snapshotXmins && (tx != 0 ==> View().GetStatus(tx) == Aborted)
    {
      FinishAs(tx, Aborted);
    }

    method FinishAs(tx: TxId, status: Status)
      modifies this
      ensures View() == old(View()).Finish(tx, status)
    {
      statusMap := statusMap[tx := status];
      activeTxs := activeTxs - {tx};
      snapshotXmins := snapshotXmins - {tx};
      if clog.Some? {
        clog := Some(clog.value[tx := status]);
      }
    }

    method SetStatus(tx: TxId, status: Status)
      modifies this
      ensures View() == old(View()).SetStatus(tx, status)
    {
      statusMap := statusMap[tx := status];
      if clog.Some? {
        clog := Some(clog.value[tx := status]);
      }
      if status != InProgress {
        activeTxs := activeTxs - {tx};
        snapshotXmins := snapshotXmins - {tx};
      }
      if tx >= nextTxId {
        nextTxId := tx + 1;
      }
    }
  }
}
