/** What every run of the lock manager keeps, and what follows from it. */
module LockTheory {
  import opened StorageTypes
  import opened LockSpec
  import G = WaitForGraph

  // ---- invariants ---------------------------------------------------------

  ghost predicate Distinct(q: seq<Request>) {
    forall i, j :: 0 <= i < j < |q| ==> q[i].tx != q[j].tx
  }

  /** Two different entries of a granted list are both shared. */
  ghost predicate Compatible(q: seq<Request>) {
    forall i, j :: 0 <= i < j < |q| ==> q[i].mode == Shared && q[j].mode == Shared
  }

  /** Only a request for EXCLUSIVE can be queued for a resource its owner already holds. */
  ghost predicate OnlyUpgradesOverlap(h: Head) {
    forall r :: r in h.waitQueue && r.tx in Txs(h.grantedList) ==> r.mode == Exclusive
  }

  ghost predicate HeadInv(h: Head) {
    && Distinct(h.grantedList) && Distinct(h.waitQueue) && Compatible(h.grantedList)
    && OnlyUpgradesOverlap(h)
  }

  ghost predicate Holds(s: State, tx: TxId, res: Resource) {
    res in s.table && tx in Txs(s.table[res].grantedList)
  }

  ghost predicate Waits(s: State, tx: TxId, res: Resource) {
    res in s.table && tx in Txs(s.table[res].waitQueue)
  }

  /** No holder of a resource is queued for the same resource. */
  ghost predicate NoUpgrades(s: State) {
    forall tx, res :: Waits(s, tx, res) ==> !Holds(s, tx, res)
  }

  /** held_by_tx_ and waiting_on_ say exactly what the lists say. */
  ghost predicate Mirrored(s: State) {
    && (forall tx, res :: Holds(s, tx, res) <==> tx in s.held && res in s.held[tx])
    && (forall tx, res :: Waits(s, tx, res) <==> tx in s.waiting && s.waiting[tx] == res)
  }

  /** `rank` decreases along every edge, so no walk can come back. */
  ghost predicate RankedBy(g: G.Graph, rank: TxId -> nat, bound: nat) {
    && (forall u, v :: G.Edge(g, u, v) ==> rank(v) < rank(u))
    && (forall v :: rank(v) < bound)
  }

  ghost predicate Ranked(g: G.Graph) {
    exists rank, bound :: RankedBy(g, rank, bound)
  }

  /** Holds also in the middle of release_all, when a queue may have lost its last holder. */
  ghost predicate Consistent(s: State) {
    && (forall r :: r in s.table ==> HeadInv(s.table[r]))
    && Mirrored(s)
    && Ranked(WaitFor(s.table))
  }

  /** Every head in the table has a holder, so nobody queues behind nobody. */
  ghost predicate Busy(s: State) {
    forall r :: r in s.table ==> s.table[r].grantedList != []
  }

  ghost predicate Inv(s: State) {
    Consistent(s) && Busy(s)
  }

  // ---- acyclicity from ranks ----------------------------------------------

  lemma {:induction false} RankFallsAlongWalk(g: G.Graph, rank: TxId -> nat, bound: nat, p: seq<TxId>, i: nat)
    requires RankedBy(g, rank, bound) && G.Walk(g, p) && i < |p|
    ensures rank(p[i]) + i <= rank(p[0])
  {
    if i > 0 {
      RankFallsAlongWalk(g, rank, bound, p, i - 1);
      assert G.Edge(g, p[i - 1], p[i]);
    }
  }

  lemma RankedIsAcyclic(g: G.Graph)
    requires Ranked(g)
    ensures G.Acyclic(g)
  {
    var rank, bound :| RankedBy(g, rank, bound);
    forall p | G.ClosedWalk(g, p) ensures false {
      RankFallsAlongWalk(g, rank, bound, p, |p| - 1);
    }
  }

  // ---- the graph with queue edges -----------------------------------------

  /** The waiters in front of `u` in the queue it stands in. */
  function Ahead(table: Table, u: TxId): set<TxId> {
    set r, i, j | r in table && 0 <= i < j < |table[r].waitQueue| && table[r].waitQueue[j].tx == u
      :: table[r].waitQueue[i].tx
  }

  /** Everybody whose lock has to go before `u` is granted, `u` itself included. */
  function Holders(table: Table, u: TxId): set<TxId> {
    set r, v | r in table && u in Txs(table[r].waitQueue) && v in Txs(table[r].grantedList) :: v
  }

  /** Whom a waiter depends on: the wait-for graph, an edge to every waiter queued before it, and
      the edge to itself that build_wait_for_graph leaves out. */
  function Dependencies(table: Table): G.Graph {
    map u | u in Waiters(table) :: Holders(table, u) + Ahead(table, u)
  }

  function Position(q: seq<Request>, tx: TxId): nat {
    if q == [] || q[0].tx == tx then 0 else 1 + Position(q[1..], tx)
  }

  lemma {:induction false} PositionAt(q: seq<Request>, i: nat)
    requires Distinct(q) && i < |q|
    ensures Position(q, q[i].tx) == i
  {
    if i > 0 {
      assert Distinct(q[1..]);
      assert q[0].tx != q[i].tx;
      PositionAt(q[1..], i - 1);
    }
  }

  function TopRank(q: seq<Request>, rank: TxId -> nat): nat {
    if q == [] then 0
    else
      var rest := TopRank(q[1..], rank);
      if rank(q[0].tx) + 1 > rest then rank(q[0].tx) + 1 else rest
  }

  lemma {:induction false} TopRankBounds(q: seq<Request>, rank: TxId -> nat, bound: nat)
    requires forall i :: 0 <= i < |q| ==> rank(q[i].tx) < bound
    ensures TopRank(q, rank) <= bound
    ensures forall v :: v in Txs(q) ==> rank(v) < TopRank(q, rank)
  {
    if q != [] {
      forall i | 0 <= i < |q[1..]| ensures rank(q[1..][i].tx) < bound {
        assert q[1..][i] == q[i + 1];
      }
      TopRankBounds(q[1..], rank, bound);
      forall v | v in Txs(q) ensures rank(v) < TopRank(q, rank) {
        var i :| 0 <= i < |q| && q[i].tx == v;
        if i > 0 {
          assert q[1..][i - 1].tx == v;
          assert v in Txs(q[1..]);
        }
      }
    }
  }

  lemma {:induction false} QueueLengthBound(table: Table, keys: set<Resource>) returns (bound: nat)
    requires keys <= table.Keys
    ensures forall r :: r in keys ==> |table[r].waitQueue| < bound
    decreases keys
  {
    if keys == {} {
      bound := 0;
    } else {
      var r :| r in keys;
      var rest := QueueLengthBound(table, keys - {r});
      bound := rest + |table[r].waitQueue| + 1;
    }
  }

  /** Waiters are ordered by the ranks of the holders they wait for, then by their place in the queue. */
  function Level(s: State, rank: TxId -> nat, v: TxId): nat {
    if v in s.waiting then TopRank(HeadOf(s.table, s.waiting[v]).grantedList, rank) else 0
  }

  function Place(s: State, v: TxId): nat {
    if v in s.waiting then Position(HeadOf(s.table, s.waiting[v]).waitQueue, v) else 0
  }

  lemma WaiterPlace(s: State, r: Resource, j: nat)
    requires Consistent(s) && r in s.table && j < |s.table[r].waitQueue|
    ensures var v := s.table[r].waitQueue[j].tx;
      v in s.waiting && s.waiting[v] == r && Place(s, v) == j
  {
    assert Waits(s, s.table[r].waitQueue[j].tx, r);
    PositionAt(s.table[r].waitQueue, j);
  }

  lemma AheadIsLower(s: State, rank: TxId -> nat, u: TxId, v: TxId)
    requires Consistent(s) && v in Ahead(s.table, u)
    ensures Level(s, rank, v) == Level(s, rank, u) && Place(s, v) < Place(s, u)
  {
    var r, i, j :| r in s.table && 0 <= i < j < |s.table[r].waitQueue|
      && s.table[r].waitQueue[j].tx == u && s.table[r].waitQueue[i].tx == v;
    WaiterPlace(s, r, i);
    WaiterPlace(s, r, j);
  }

  lemma LevelOfWaiter(s: State, rank: TxId -> nat, bound: nat, v: TxId)
    requires Consistent(s) && NoUpgrades(s) && RankedBy(WaitFor(s.table), rank, bound)
    ensures Level(s, rank, v) <= rank(v)
  {
    if v in s.waiting {
      var r := s.waiting[v];
      assert Waits(s, v, r);
      var q := s.table[r].grantedList;
      forall i | 0 <= i < |q| ensures rank(q[i].tx) < rank(v) {
        assert q[i].tx in Txs(q);
        assert Holds(s, q[i].tx, r);
        assert q[i].tx in Blockers(s.table, v);
        assert v in Waiters(s.table);
        assert G.Edge(WaitFor(s.table), v, q[i].tx);
      }
      TopRankBounds(q, rank, rank(v));
    }
  }

  lemma BlockerIsLower(s: State, rank: TxId -> nat, bound: nat, u: TxId, v: TxId)
    requires Consistent(s) && NoUpgrades(s) && RankedBy(WaitFor(s.table), rank, bound)
    requires v in Holders(s.table, u)
    ensures Level(s, rank, v) < Level(s, rank, u)
  {
    var r :| r in s.table && u in Txs(s.table[r].waitQueue) && v in Txs(s.table[r].grantedList);
    assert Waits(s, u, r);
    TopRankBounds(s.table[r].grantedList, rank, bound);
    LevelOfWaiter(s, rank, bound, v);
  }

  lemma PlaceIsBounded(s: State, width: nat, v: TxId)
    requires Consistent(s) && width > 0 && forall r :: r in s.table ==> |s.table[r].waitQueue| < width
    ensures Place(s, v) < width
  {
    if v in s.waiting {
      var r := s.waiting[v];
      assert Waits(s, v, r);
      var j :| 0 <= j < |s.table[r].waitQueue| && s.table[r].waitQueue[j].tx == v;
      WaiterPlace(s, r, j);
    }
  }

  lemma LexicographicLess(a: nat, b: nat, c: nat, d: nat, width: nat)
    requires b < width && (a < c || (a == c && b < d))
    ensures a * width + b < c * width + d
  {
    if a < c {
      assert (a + 1) * width <= c * width;
    }
  }

  function Combined(s: State, rank: TxId -> nat, width: nat, v: TxId): nat {
    Level(s, rank, v) * width + Place(s, v)
  }

  lemma CombinedFalls(s: State, rank: TxId -> nat, bound: nat, width: nat, u: TxId, v: TxId)
    requires Consistent(s) && NoUpgrades(s) && RankedBy(WaitFor(s.table), rank, bound)
    requires width > 0 && forall r :: r in s.table ==> |s.table[r].waitQueue| < width
    requires G.Edge(Dependencies(s.table), u, v)
    ensures Combined(s, rank, width, v) < Combined(s, rank, width, u)
  {
    assert Place(s, v) < width by { PlaceIsBounded(s, width, v); }
    var lv, pv, lu, pu := Level(s, rank, v), Place(s, v), Level(s, rank, u), Place(s, u);
    assert lv < lu || (lv == lu && pv < pu) by {
      if v in Ahead(s.table, u) {
        AheadIsLower(s, rank, u, v);
      } else {
        BlockerIsLower(s, rank, bound, u, v);
      }
    }
    LexicographicLess(lv, pv, lu, pu, width);
  }

  lemma CombinedIsBounded(s: State, rank: TxId -> nat, bound: nat, width: nat, v: TxId)
    requires Consistent(s) && NoUpgrades(s) && RankedBy(WaitFor(s.table), rank, bound)
    requires width > 0 && forall r :: r in s.table ==> |s.table[r].waitQueue| < width
    ensures Combined(s, rank, width, v) < bound * width + width
  {
    PlaceIsBounded(s, width, v);
    LevelOfWaiter(s, rank, bound, v);
    LexicographicLess(Level(s, rank, v), Place(s, v), bound, width, width);
  }

  /** While no upgrade is queued, queueing behind other waiters adds no cycle: a chain of queue
      edges can always be cut short, because everybody in one queue waits for the same holders. */
  lemma QueueEdgesKeepRanks(s: State)
    requires Consistent(s) && NoUpgrades(s)
    ensures Ranked(Dependencies(s.table))
  {
    var rank, bound :| RankedBy(WaitFor(s.table), rank, bound);
    var longest := QueueLengthBound(s.table, s.table.Keys);
    var width := longest + 1;
    var combined := (v: TxId) => Combined(s, rank, width, v);
    assert RankedBy(Dependencies(s.table), combined, bound * width + width) by {
      forall u, v | G.Edge(Dependencies(s.table), u, v) ensures combined(v) < combined(u) {
        CombinedFalls(s, rank, bound, width, u, v);
      }
      forall v ensures combined(v) < bound * width + width {
        CombinedIsBounded(s, rank, bound, width, v);
      }
    }
  }

  // ---- lists --------------------------------------------------------------

  lemma TxsSnoc(q: seq<Request>, r: Request)
    ensures Txs(q + [r]) == Txs(q) + {r.tx}
  {
    assert (q + [r])[|q|] == r;
    forall i | 0 <= i < |q| ensures q[i].tx in Txs(q + [r]) {
      assert (q + [r])[i] == q[i];
    }
  }

  lemma TxsCons(q: seq<Request>)
    requires q != []
    ensures Txs(q) == {q[0].tx} + Txs(q[1..])
  {
    forall v | v in Txs(q) ensures v in {q[0].tx} + Txs(q[1..]) {
      var i :| 0 <= i < |q| && q[i].tx == v;
      if i > 0 {
        assert q[1..][i - 1].tx == v;
      }
    }
    forall i | 0 <= i < |q[1..]| ensures q[1..][i].tx in Txs(q) {
      assert q[i + 1].tx in Txs(q);
    }
  }

  lemma {:induction false} RemoveFirstProps(q: seq<Request>, tx: TxId)
    requires Distinct(q)
    ensures Distinct(RemoveFirst(q, tx)) && Txs(RemoveFirst(q, tx)) == Txs(q) - {tx}
    ensures RemoveFirst(q, tx) == Without(q, tx)
  {
    if q != [] {
      assert Distinct(q[1..]);
      TxsCons(q);
      RemoveFirstProps(q[1..], tx);
      assert q[0].tx !in Txs(q[1..]);
      WithoutProps(q[1..], tx);
      var rest := RemoveFirst(q, tx);
      if q[0].tx == tx {
        WithoutAbsent(q[1..], tx);
      } else {
        TxsCons(rest);
        assert rest[1..] == RemoveFirst(q[1..], tx);
        forall j | 0 < j < |rest| ensures rest[j].tx != q[0].tx {
          assert rest[1..][j - 1].tx in Txs(rest[1..]);
        }
        DistinctCons(rest);
      }
    }
  }

  lemma DistinctCons(q: seq<Request>)
    requires q != [] && Distinct(q[1..]) && q[0].tx !in Txs(q[1..])
    ensures Distinct(q)
  {
    forall i, j | 0 <= i < j < |q| ensures q[i].tx != q[j].tx {
      assert q[1..][j - 1].tx in Txs(q[1..]);
      if i > 0 {
        assert q[1..][i - 1].tx != q[1..][j - 1].tx;
      }
    }
  }

  lemma {:induction false} WithoutAbsent(q: seq<Request>, tx: TxId)
    requires tx !in Txs(q)
    ensures Without(q, tx) == q
  {
    if q != [] {
      TxsCons(q);
      WithoutAbsent(q[1..], tx);
    }
  }

  lemma {:induction false} WithoutProps(q: seq<Request>, tx: TxId)
    ensures Txs(Without(q, tx)) == Txs(q) - {tx}
    ensures forall r :: r in Without(q, tx) ==> r in q
  {
    if q != [] {
      TxsCons(q);
      WithoutProps(q[1..], tx);
      var rest := Without(q, tx);
      if q[0].tx != tx {
        TxsCons(rest);
        assert rest[1..] == Without(q[1..], tx);
      }
    }
  }

  lemma SharersAreShared(q: seq<Request>, i: nat)
    requires Compatible(q) && |q| >= 2 && i < |q|
    ensures q[i].mode == Shared
  {
    var first, second, other := q[0], q[1], q[i];
    if i == 0 {
      assert second.mode == Shared && first.mode == Shared;
    } else {
      assert first.mode == Shared && other.mode == Shared;
    }
  }

  /** A list with distinct owners that allows sharing still does after one owner leaves. */
  lemma {:induction false} WithoutKeepsCompatible(q: seq<Request>, tx: TxId)
    requires Distinct(q) && Compatible(q)
    ensures Compatible(Without(q, tx))
  {
    if |q| >= 2 {
      forall r | r in q ensures r.mode == Shared {
        var i :| 0 <= i < |q| && q[i] == r;
        SharersAreShared(q, i);
      }
      WithoutProps(q, tx);
    } else if |q| == 1 {
      assert Without(q[1..], tx) == [];
    }
  }

  lemma DistinctSnoc(q: seq<Request>, r: Request)
    requires Distinct(q) && r.tx !in Txs(q)
    ensures Distinct(q + [r])
  {
  }

  /** A head whose lists lose one transaction, from either or both, is still in order. */
  lemma ShrunkHeadInv(h: Head, tx: TxId)
    requires HeadInv(h)
    ensures RemoveFirst(h.waitQueue, tx) == Without(h.waitQueue, tx)
    ensures Txs(Without(h.grantedList, tx)) == Txs(h.grantedList) - {tx}
    ensures Txs(Without(h.waitQueue, tx)) == Txs(h.waitQueue) - {tx}
    ensures HeadInv(h.(waitQueue := Without(h.waitQueue, tx)))
    ensures HeadInv(Head(Without(h.grantedList, tx), Without(h.waitQueue, tx)))
  {
    RemoveFirstProps(h.waitQueue, tx);
    RemoveFirstProps(h.grantedList, tx);
    WithoutProps(h.waitQueue, tx);
    WithoutKeepsCompatible(h.grantedList, tx);
  }

  // ---- edges --------------------------------------------------------------

  ghost predicate Blocks(table: Table, r: Resource, u: TxId, v: TxId) {
    r in table && u in Txs(table[r].waitQueue) && v in Txs(table[r].grantedList) && u != v
  }

  /** build_wait_for_graph has an edge exactly from each waiter to each other holder of the resource. */
  lemma WaitForEdges(table: Table, u: TxId, v: TxId)
    ensures G.Edge(WaitFor(table), u, v) <==> exists r :: Blocks(table, r, u, v)
  {
    if r :| Blocks(table, r, u, v) {
      assert u in Waiters(table);
      assert v in Blockers(table, u);
    }
    if G.Edge(WaitFor(table), u, v) {
      var r :| r in table && u in Txs(table[r].waitQueue) && v in Txs(table[r].grantedList) && v != u;
      assert Blocks(table, r, u, v);
    }
  }

  lemma FewerEdgesStayRanked(g: G.Graph, g': G.Graph)
    requires Ranked(g) && forall u, v :: G.Edge(g', u, v) ==> G.Edge(g, u, v)
    ensures Ranked(g')
  {
    var rank, bound :| RankedBy(g, rank, bound);
    assert RankedBy(g', rank, bound);
  }

  /** New edges into a vertex that has none of its own keep a graph ranked. */
  lemma SinkStaysRanked(g: G.Graph, g': G.Graph, sink: TxId)
    requires Ranked(g)
    requires forall u, v :: G.Edge(g', u, v) ==> u != sink && (v == sink || G.Edge(g, u, v))
    ensures Ranked(g')
  {
    var rank: TxId -> nat, bound: nat :| RankedBy(g, rank, bound);
    var lifted: TxId -> nat := (v: TxId) => if v == sink then 0 else rank(v) + 1;
    assert RankedBy(g', lifted, bound + 1);
  }

  // ---- acquire ------------------------------------------------------------

  lemma GrantMirrored(s: State, res: Resource, tx: TxId, mode: Mode)
    requires Mirrored(s)
    ensures Mirrored(Grant(s, res, tx, mode))
  {
    var s' := Grant(s, res, tx, mode);
    TxsSnoc(HeadOf(s.table, res).grantedList, Request(tx, mode, true));
    forall t, r ensures Holds(s', t, r) <==> t in s'.held && r in s'.held[t] {
      assert Holds(s, t, r) <==> t in s.held && r in s.held[t];
    }
    forall t, r ensures Waits(s', t, r) <==> t in s'.waiting && s'.waiting[t] == r {
      assert Waits(s, t, r) <==> t in s.waiting && s.waiting[t] == r;
    }
  }

  lemma GrantKeepsInv(s: State, res: Resource, tx: TxId, mode: Mode)
    requires Inv(s) && tx !in s.waiting && tx !in Txs(HeadOf(s.table, res).grantedList)
    requires HeadOf(s.table, res).IsCompatible(mode) && HeadOf(s.table, res).waitQueue == []
    ensures Inv(Grant(s, res, tx, mode))
  {
    var s' := Grant(s, res, tx, mode);
    var h := HeadOf(s.table, res);
    var entry := Request(tx, mode, true);
    TxsSnoc(h.grantedList, entry);
    DistinctSnoc(h.grantedList, entry);
    assert HeadInv(s'.table[res]);
    GrantMirrored(s, res, tx, mode);
    forall u, v | G.Edge(WaitFor(s'.table), u, v) ensures G.Edge(WaitFor(s.table), u, v) {
      WaitForEdges(s'.table, u, v);
      var r :| Blocks(s'.table, r, u, v);
      assert Blocks(s.table, r, u, v);
      WaitForEdges(s.table, u, v);
    }
    FewerEdgesStayRanked(WaitFor(s.table), WaitFor(s'.table));
  }

  ghost predicate Reaches(g: G.Graph, u: TxId, v: TxId) {
    exists p :: G.Walk(g, p) && p[0] == u && p[|p| - 1] == v
  }

  lemma ReachesStep(g: G.Graph, u: TxId, v: TxId, w: TxId)
    requires G.Edge(g, u, v) && Reaches(g, v, w)
    ensures Reaches(g, u, w)
    ensures u == w ==> G.CycleReachable(g, u)
  {
    var p :| G.Walk(g, p) && p[0] == v && p[|p| - 1] == w;
    var longer := [u] + p;
    forall i | 0 <= i < |longer| - 1 ensures G.Edge(g, longer[i], longer[i + 1]) {
      if i > 0 {
        assert G.Edge(g, p[i - 1], p[i]);
      }
    }
    assert G.Walk(g, longer);
    assert longer[|longer| - 1] == w;
    if u == w {
      assert G.Enters(g, [u], u, longer);
    }
  }

  /** New edges out of one vertex keep a graph ranked when the search from it finds no cycle. */
  lemma NewWaiterStaysRanked(g: G.Graph, g': G.Graph, tx: TxId)
    requires Ranked(g) && !G.CycleReachable(g', tx)
    requires forall u, v :: u != tx && G.Edge(g', u, v) ==> G.Edge(g, u, v)
    ensures Ranked(g')
  {
    var rank, bound :| RankedBy(g, rank, bound);
    var shifted := (v: TxId) => if Reaches(g', v, tx) then rank(v) + bound else rank(v);
    forall u, v | G.Edge(g', u, v) ensures shifted(v) < shifted(u) {
      if Reaches(g', v, tx) {
        ReachesStep(g', u, v, tx);
      } else if u == tx {
        assert G.Walk(g', [tx]);
        assert Reaches(g', tx, tx);
      }
    }
    assert RankedBy(g', shifted, 2 * bound);
  }

  lemma EnqueueMirrored(s: State, res: Resource, tx: TxId, mode: Mode)
    requires Mirrored(s) && tx !in s.waiting && res in s.table
    ensures Mirrored(Enqueue(s, res, tx, mode))
  {
    var s' := Enqueue(s, res, tx, mode);
    TxsSnoc(s.table[res].waitQueue, Request(tx, mode, false));
    forall t, r ensures Holds(s', t, r) <==> t in s'.held && r in s'.held[t] {
      assert Holds(s, t, r) <==> t in s.held && r in s.held[t];
    }
    forall t, r ensures Waits(s', t, r) <==> t in s'.waiting && s'.waiting[t] == r {
      assert Waits(s, t, r) <==> t in s.waiting && s.waiting[t] == r;
    }
  }

  lemma QueuedHeadInv(h: Head, entry: Request)
    requires HeadInv(h) && entry.tx !in Txs(h.waitQueue) && !h.IsHeldBy(entry.tx, entry.mode)
    ensures HeadInv(h.(waitQueue := h.waitQueue + [entry]))
    ensures Txs(h.waitQueue + [entry]) == Txs(h.waitQueue) + {entry.tx}
  {
    TxsSnoc(h.waitQueue, entry);
    DistinctSnoc(h.waitQueue, entry);
  }

  lemma EnqueuedEdges(s: State, res: Resource, tx: TxId, mode: Mode, u: TxId, v: TxId)
    requires res in s.table && u != tx && G.Edge(WaitFor(Enqueue(s, res, tx, mode).table), u, v)
    ensures G.Edge(WaitFor(s.table), u, v)
  {
    var s' := Enqueue(s, res, tx, mode);
    TxsSnoc(s.table[res].waitQueue, Request(tx, mode, false));
    WaitForEdges(s'.table, u, v);
    var r :| Blocks(s'.table, r, u, v);
    assert Blocks(s.table, r, u, v);
    WaitForEdges(s.table, u, v);
  }

  lemma EnqueueKeepsInv(s: State, res: Resource, tx: TxId, mode: Mode)
    requires Inv(s) && tx !in s.waiting && res in s.table && !s.table[res].IsHeldBy(tx, mode)
    requires !G.CycleReachable(WaitFor(Enqueue(s, res, tx, mode).table), tx)
    ensures Inv(Enqueue(s, res, tx, mode))
  {
    var s' := Enqueue(s, res, tx, mode);
    var h := s.table[res];
    var entry := Request(tx, mode, false);
    assert !Waits(s, tx, res);
    QueuedHeadInv(h, entry);
    EnqueueMirrored(s, res, tx, mode);
    forall u, v | u != tx && G.Edge(WaitFor(s'.table), u, v) ensures G.Edge(WaitFor(s.table), u, v) {
      EnqueuedEdges(s, res, tx, mode, u, v);
    }
    NewWaiterStaysRanked(WaitFor(s.table), WaitFor(s'.table), tx);
  }

  lemma {:induction false} RemoveFirstUndoesSnoc(q: seq<Request>, r: Request)
    requires r.tx !in Txs(q)
    ensures RemoveFirst(q + [r], r.tx) == q
  {
    if q == [] {
      assert q + [r] == [r];
    } else {
      TxsCons(q);
      RemoveFirstUndoesSnoc(q[1..], r);
      assert (q + [r])[1..] == q[1..] + [r];
    }
  }

  /** A request that would close a cycle leaves no trace: the manager is back where it was. */
  lemma DeadlockRestores(s: State, res: Resource, tx: TxId, mode: Mode)
    requires Mirrored(s) && tx !in s.waiting && res in s.table && !s.table[res].IsEmpty()
    ensures Withdraw(Enqueue(s, res, tx, mode), res, tx) == s
  {
    var h := s.table[res];
    assert !Waits(s, tx, res);
    RemoveFirstUndoesSnoc(h.waitQueue, Request(tx, mode, false));
    var s' := Withdraw(Enqueue(s, res, tx, mode), res, tx);
    assert s'.table == s.table;
    assert s'.waiting == s.waiting;
  }

  // ---- timeout ------------------------------------------------------------

  lemma WithdrawKeepsInv(s: State, res: Resource, tx: TxId)
    requires Inv(s) && Waits(s, tx, res)
    ensures Inv(Withdraw(s, res, tx))
  {
    var s' := Withdraw(s, res, tx);
    ShrunkHeadInv(s.table[res], tx);
    forall t, r ensures Holds(s', t, r) <==> t in s'.held && r in s'.held[t] {
      assert Holds(s, t, r) <==> t in s.held && r in s.held[t];
    }
    forall t, r ensures Waits(s', t, r) <==> t in s'.waiting && s'.waiting[t] == r {
      assert Waits(s, t, r) <==> t in s.waiting && s.waiting[t] == r;
      assert Waits(s, t, res) <==> t in s.waiting && s.waiting[t] == res;
    }
    forall u, v | G.Edge(WaitFor(s'.table), u, v) ensures G.Edge(WaitFor(s.table), u, v) {
      WaitForEdges(s'.table, u, v);
      var r :| Blocks(s'.table, r, u, v);
      assert Blocks(s.table, r, u, v);
      WaitForEdges(s.table, u, v);
    }
    FewerEdgesStayRanked(WaitFor(s.table), WaitFor(s'.table));
  }

  // ---- release and promotion ----------------------------------------------

  ghost predicate NoEmptyHeads(s: State) {
    forall r :: r in s.table ==> !s.table[r].IsEmpty()
  }

  lemma PromoteMirrored(s: State, res: Resource)
    requires Consistent(s) && res in s.table && s.table[res].waitQueue != []
    ensures Mirrored(PromoteFront(s, res))
  {
    var s' := PromoteFront(s, res);
    var h := s.table[res];
    var front := h.waitQueue[0];
    TxsCons(h.waitQueue);
    TxsSnoc(h.grantedList, front.(granted := true));
    assert front.tx !in Txs(h.waitQueue[1..]) by {
      assert forall i :: 0 <= i < |h.waitQueue[1..]| ==> h.waitQueue[1..][i].tx == h.waitQueue[i + 1].tx;
    }
    forall t, r ensures Holds(s', t, r) <==> t in s'.held && r in s'.held[t] {
      assert Holds(s, t, r) <==> t in s.held && r in s.held[t];
    }
    forall t, r ensures Waits(s', t, r) <==> t in s'.waiting && s'.waiting[t] == r {
      assert Waits(s, t, r) <==> t in s.waiting && s.waiting[t] == r;
      assert Waits(s, front.tx, res);
    }
  }

  /** A promotion adds only edges to the promoted transaction, which waits for nobody any more. */
  lemma PromoteEdges(s: State, res: Resource, u: TxId, v: TxId)
    requires Consistent(s) && res in s.table && s.table[res].waitQueue != []
    requires G.Edge(WaitFor(PromoteFront(s, res).table), u, v)
    ensures u != s.table[res].waitQueue[0].tx
    ensures v == s.table[res].waitQueue[0].tx || G.Edge(WaitFor(s.table), u, v)
  {
    var s' := PromoteFront(s, res);
    var h := s.table[res];
    WaitForEdges(s'.table, u, v);
    var r :| Blocks(s'.table, r, u, v);
    PromoteMirrored(s, res);
    assert Waits(s', u, r);
    TxsCons(h.waitQueue);
    TxsSnoc(h.grantedList, h.waitQueue[0].(granted := true));
    if v != h.waitQueue[0].tx {
      assert Blocks(s.table, r, u, v);
      WaitForEdges(s.table, u, v);
    }
  }

  /** The front of a queue that can be granted holds nothing of the resource yet. */
  lemma PromotableHoldsNothing(h: Head)
    requires HeadInv(h) && h.IsPromotable()
    ensures h.waitQueue[0].tx !in Txs(h.grantedList)
    ensures HeadInv(h.Promoted())
  {
    var entry := h.waitQueue[0].(granted := true);
    assert h.waitQueue[0].tx !in Txs(h.grantedList);
    TxsSnoc(h.grantedList, entry);
    DistinctSnoc(h.grantedList, entry);
    var h' := h.Promoted();
    forall r | r in h'.waitQueue && r.tx in Txs(h'.grantedList) ensures r.mode == Exclusive {
      var i :| 0 < i < |h.waitQueue| && h.waitQueue[i] == r;
      assert h.waitQueue[0].tx != h.waitQueue[i].tx;
    }
  }

  lemma PromoteKeepsConsistent(s: State, res: Resource)
    requires Consistent(s) && NoEmptyHeads(s) && res in s.table && s.table[res].IsPromotable()
    ensures Consistent(PromoteFront(s, res)) && NoEmptyHeads(PromoteFront(s, res))
  {
    var s' := PromoteFront(s, res);
    var front := s.table[res].waitQueue[0].tx;
    PromotableHoldsNothing(s.table[res]);
    PromoteMirrored(s, res);
    forall u, v | G.Edge(WaitFor(s'.table), u, v)
      ensures u != front && (v == front || G.Edge(WaitFor(s.table), u, v)) {
      PromoteEdges(s, res, u, v);
    }
    SinkStaysRanked(WaitFor(s.table), WaitFor(s'.table), front);
  }

  lemma {:induction false} PromotionsKeepConsistent(s: State, order: seq<Resource>, s': State)
    requires Consistent(s) && NoEmptyHeads(s) && Promotes(s, order, s')
    ensures Consistent(s') && NoEmptyHeads(s')
    decreases |order|
  {
    if order != [] {
      PromoteKeepsConsistent(s, order[0]);
      PromotionsKeepConsistent(PromoteFront(s, order[0]), order[1..], s');
    }
  }

  /** The head of one resource once a transaction has let go of it. */
  lemma ReleasedHead(s: State, tx: TxId, r: Resource)
    requires Consistent(s) && r in s.table
    ensures var h := Head(Without(s.table[r].grantedList, tx), Without(s.table[r].waitQueue, tx));
      && HeadInv(h)
      && Txs(h.grantedList) == Txs(s.table[r].grantedList) - {tx}
      && Txs(h.waitQueue) == Txs(s.table[r].waitQueue) - {tx}
      && (if h.IsEmpty() then r !in ReleaseCore(s, tx).table
          else r in ReleaseCore(s, tx).table && ReleaseCore(s, tx).table[r] == h)
  {
    var h := s.table[r];
    ShrunkHeadInv(h, tx);
    assert Holds(s, tx, r) <==> r in HeldBy(s, tx);
    assert Waits(s, tx, r) <==> tx in s.waiting && s.waiting[tx] == r;
    if !Holds(s, tx, r) {
      WithoutAbsent(h.grantedList, tx);
    }
    if !Waits(s, tx, r) {
      WithoutAbsent(h.waitQueue, tx);
    }
  }

  lemma ReleasedMirrors(s: State, tx: TxId)
    requires Consistent(s)
    ensures Mirrored(ReleaseCore(s, tx))
  {
    var s' := ReleaseCore(s, tx);
    forall t, r ensures Holds(s', t, r) <==> t in s'.held && r in s'.held[t] {
      assert Holds(s, t, r) <==> t in s.held && r in s.held[t];
      if r in s.table { ReleasedHead(s, tx, r); }
    }
    forall t, r ensures Waits(s', t, r) <==> t in s'.waiting && s'.waiting[t] == r {
      assert Waits(s, t, r) <==> t in s.waiting && s.waiting[t] == r;
      if r in s.table { ReleasedHead(s, tx, r); }
    }
  }

  lemma ReleasedEdges(s: State, tx: TxId, u: TxId, v: TxId)
    requires Consistent(s) && G.Edge(WaitFor(ReleaseCore(s, tx).table), u, v)
    ensures G.Edge(WaitFor(s.table), u, v)
  {
    var s' := ReleaseCore(s, tx);
    WaitForEdges(s'.table, u, v);
    var r :| Blocks(s'.table, r, u, v);
    assert r in s.table;
    ReleasedHead(s, tx, r);
    assert Blocks(s.table, r, u, v);
    WaitForEdges(s.table, u, v);
  }

  lemma ReleaseCoreKeepsConsistent(s: State, tx: TxId)
    requires Consistent(s)
    ensures Consistent(ReleaseCore(s, tx)) && NoEmptyHeads(ReleaseCore(s, tx))
  {
    var s' := ReleaseCore(s, tx);
    forall r | r in s'.table ensures r in s.table && HeadInv(s'.table[r]) {
      ReleasedHead(s, tx, r);
    }
    ReleasedMirrors(s, tx);
    forall u, v | G.Edge(WaitFor(s'.table), u, v) ensures G.Edge(WaitFor(s.table), u, v) {
      ReleasedEdges(s, tx, u, v);
    }
    FewerEdgesStayRanked(WaitFor(s.table), WaitFor(s'.table));
  }

  lemma ReleaseKeepsInv(s: State, tx: TxId, s': State)
    requires Inv(s) && ReleaseNext(s, tx, s')
    ensures Inv(s') && Settled(s')
  {
    ReleaseCoreKeepsConsistent(s, tx);
    var order :| Promotes(ReleaseCore(s, tx), order, s');
    PromotionsKeepConsistent(ReleaseCore(s, tx), order, s');
    forall r | r in s'.table ensures s'.table[r].grantedList != [] {
      assert !s'.table[r].IsPromotable() && !s'.table[r].IsEmpty();
    }
  }
}
