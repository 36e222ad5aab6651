/** The wait-for graph of the lock manager and the three-colour depth-first search
    that looks for a cycle in it (src/lock.cpp, lines 206-246). */
module WaitForGraph {
  type TxId = nat

  /** waiter -> the transactions it waits for */
  type Graph = map<TxId, set<TxId>>

  function Successors(g: Graph, v: TxId): set<TxId> {
    if v in g then g[v] else {}
  }

  predicate Edge(g: Graph, u: TxId, v: TxId) {
    v in Successors(g, u)
  }

  function Vertices(g: Graph): set<TxId> {
    g.Keys + set u, v | u in g && v in g[u] :: v
  }

  /** A non-empty list of vertices, each joined to the next by an edge. */
  ghost predicate Walk(g: Graph, p: seq<TxId>) {
    && |p| > 0
    && forall i :: 0 <= i < |p| - 1 ==> Edge(g, p[i], p[i + 1])
  }

  ghost predicate ClosedWalk(g: Graph, p: seq<TxId>) {
    |p| >= 2 && Walk(g, p) && p[0] == p[|p| - 1]
  }

  /** A walk, or a tail of it, can be extended by one edge. */
  lemma WalkSnoc(g: Graph, p: seq<TxId>, from: nat, v: TxId)
    requires Walk(g, p) && from < |p| && Edge(g, p[|p| - 1], v)
    ensures Walk(g, p[from..] + [v])
  {
    var longer := p[from..] + [v];
    forall i | 0 <= i < |longer| - 1 ensures Edge(g, longer[i], longer[i + 1]) {
      assert longer[i] == p[from + i];
      if i < |longer| - 2 {
        assert longer[i + 1] == p[from + i + 1];
      }
    }
  }

  ghost predicate Acyclic(g: Graph) {
    forall p :: !ClosedWalk(g, p)
  }

  /** `stem` leads from `start` to the first vertex of the closed walk `loop`. */
  ghost predicate Enters(g: Graph, stem: seq<TxId>, start: TxId, loop: seq<TxId>) {
    && Walk(g, stem) && stem[0] == start
    && ClosedWalk(g, loop) && stem[|stem| - 1] == loop[0]
  }

  ghost predicate CycleReachable(g: Graph, start: TxId) {
    exists stem, loop :: Enters(g, stem, start, loop)
  }

  /** `order` lists vertices so that everything a listed vertex points to comes before it. */
  ghost predicate Topological(g: Graph, order: seq<TxId>) {
    forall i, v :: 0 <= i < |order| && Edge(g, order[i], v) ==> v in order[..i]
  }

  /** A walk that starts inside a topological order only ever moves towards its front. */
  lemma {:induction false} WalkDescends(g: Graph, order: seq<TxId>, p: seq<TxId>, i: nat) returns (j: nat)
    requires Topological(g, order) && Walk(g, p)
    requires i < |order| && order[i] == p[0]
    ensures j + |p| - 1 <= i && order[j] == p[|p| - 1]
    decreases |p|
  {
    if |p| == 1 {
      j := i;
    } else {
      assert Edge(g, p[0], p[1]);
      var k :| 0 <= k < i && order[k] == p[1];
      assert Walk(g, p[1..]) by {
        forall m | 0 <= m < |p[1..]| - 1 ensures Edge(g, p[1..][m], p[1..][m + 1]) {
          assert Edge(g, p[m + 1], p[m + 2]);
        }
      }
      j := WalkDescends(g, order, p[1..], k);
    }
  }

  lemma {:induction false} NoClosedWalkInOrder(g: Graph, order: seq<TxId>, loop: seq<TxId>, i: nat)
    requires Topological(g, order) && ClosedWalk(g, loop)
    requires i < |order| && order[i] == loop[0]
    ensures false
    decreases i
  {
    var j := WalkDescends(g, order, loop, i);
    NoClosedWalkInOrder(g, order, loop, j);
  }

  /** A vertex of a topological order reaches no cycle. */
  lemma TopologicalMeansNoCycle(g: Graph, order: seq<TxId>, start: TxId)
    requires Topological(g, order) && start in order
    ensures !CycleReachable(g, start)
  {
    forall stem, loop | Enters(g, stem, start, loop)
      ensures false
    {
      var i :| 0 <= i < |order| && order[i] == start;
      var j := WalkDescends(g, order, stem, i);
      NoClosedWalkInOrder(g, order, loop, j);
    }
  }

  lemma InSnoc(s: seq<TxId>, x: TxId)
    ensures forall v :: v in s + [x] <==> v in s || v == x
  {
  }

  lemma TopologicalSnoc(g: Graph, order: seq<TxId>, v: TxId)
    requires Topological(g, order)
    requires forall w :: Edge(g, v, w) ==> w in order
    ensures Topological(g, order + [v])
  {
    var longer := order + [v];
    forall i, w | 0 <= i < |longer| && Edge(g, longer[i], w) ensures w in longer[..i] {
      if i < |order| {
        assert longer[..i] == order[..i];
      } else {
        assert longer[..i] == order;
      }
    }
  }

  const WHITE := 0
  const GRAY := 1
  const BLACK := 2

  /** The mutable state of one search: colours, the recursion path and the reported cycle. */
  class DeadlockSearch {
    const graph: Graph
    var color: map<TxId, int>
    var path: seq<TxId>
    var cycle: seq<TxId>
    ghost var finished: seq<TxId>  // black vertices in the order they were finished

    constructor (g: Graph)
      ensures graph == g && Valid() && path == [] && finished == []
      ensures forall v :: ColorOf(v) == WHITE
    {
      graph, color, path, cycle, finished := g, map[], [], [], [];
    }

    function ColorOf(v: TxId): int
      reads this
    {
      if v in color then color[v] else WHITE
    }

    ghost predicate Valid()
      reads this
    {
      && (forall v :: ColorOf(v) == GRAY <==> v in path)
      && (forall v :: ColorOf(v) == BLACK <==> v in finished)
      && (forall v :: ColorOf(v) == GRAY || ColorOf(v) == BLACK || ColorOf(v) == WHITE)
      && (path == [] || Walk(graph, path))
      && Topological(graph, finished)
    }

    ghost function White(): set<TxId>
      reads this
    {
      set v | v in Vertices(graph) && ColorOf(v) == WHITE
    }

    /** Lines 213-214: colour a white vertex grey and put it on the recursion path. */
    method Enter(curr: TxId)
      requires Valid() && ColorOf(curr) == WHITE
      requires path == [] || Edge(graph, path[|path| - 1], curr)
      modifies this
      ensures Valid() && path == old(path) + [curr] && finished == old(finished)
      ensures White() == old(White()) - {curr}
    {
      if path != [] {
        WalkSnoc(graph, path, 0, curr);
        assert path[0..] == path;
      }
      color := color[curr := GRAY];
      path := path + [curr];
    }

    /** Lines 235-236: everything below the last vertex of the path is explored; colour it black. */
    method Leave(ghost before: seq<TxId>, curr: TxId)
      requires Valid() && path == before + [curr] && curr !in before
      requires forall v :: Edge(graph, curr, v) ==> v in finished
      modifies this
      ensures Valid() && path == before && finished == old(finished) + [curr]
      ensures White() == old(White())
    {
      TopologicalSnoc(graph, finished, curr);
      assert ColorOf(curr) == GRAY by { assert curr == path[|path| - 1]; }
      color := color[curr := BLACK];
      path := path[..|path| - 1];
      finished := finished + [curr];
      assert path == before;
      InSnoc(before, curr);
    }

    /** Lines 222-225: a grey neighbour closes a cycle along the recursion path. */
    method Report(curr: TxId, neighbor: TxId)
      requires Valid() && path != [] && path[|path| - 1] == curr
      requires Edge(graph, curr, neighbor) && ColorOf(neighbor) == GRAY
      modifies this`cycle
      ensures ClosedWalk(graph, cycle) && cycle[0] in path
    {
      var start := IndexOf(path, neighbor);
      WalkSnoc(graph, path, start, neighbor);
      cycle := path[start..] + [neighbor];
    }

    /** Explores everything below `curr`. On success `cycle` is a closed walk hanging off the path. */
    method Visit(curr: TxId) returns (found: bool)
      requires Valid() && ColorOf(curr) == WHITE
      requires path == [] || Edge(graph, path[|path| - 1], curr)
      modifies this
      ensures old(path) + [curr] <= path || !found
      ensures found ==> Walk(graph, path) && ClosedWalk(graph, cycle) && cycle[0] in path
      ensures !found ==> Valid() && path == old(path)
      ensures !found ==> old(finished) <= finished && curr in finished
      ensures White() <= old(White())
      decreases White()
    {
      ghost var white0, path0 := White(), path;
      Enter(curr);
      var todo := Successors(graph, curr);
      while todo != {}
        invariant Valid() && path == path0 + [curr] && old(finished) <= finished
        invariant todo <= Successors(graph, curr)
        invariant forall v :: v in Successors(graph, curr) - todo ==> v in finished
        invariant White() <= white0 - {curr}
        decreases todo
      {
        var neighbor :| neighbor in todo;
        todo := todo - {neighbor};
        var neighborColor := ColorOf(neighbor);
        if neighborColor == GRAY {
          Report(curr, neighbor);
          return true;
        }
        if neighborColor == WHITE {
          assert curr in white0;
          var deeper := Visit(neighbor);
          if deeper {
            return true;
          }
        }
      }
      Leave(path0, curr);
      return false;
    }
  }

  /** std::find: the first position of a vertex known to be in the list. */
  method IndexOf(p: seq<TxId>, v: TxId) returns (i: nat)
    requires v in p
    ensures i < |p| && p[i] == v && v !in p[..i]
  {
    i := 0;
    while p[i] != v
      invariant i < |p| && v !in p[..i] && v in p[i..]
      decreases |p| - i
    {
      i := i + 1;
    }
  }

  /** check_deadlock: a cycle is reported exactly when one can be reached from the waiter, and
      what is reported is a closed walk along real edges of the graph. */
  method FindCycle(g: Graph, waiter: TxId) returns (found: bool, cycle: seq<TxId>)
    ensures found <==> CycleReachable(g, waiter)
    ensures found ==> ClosedWalk(g, cycle) && (exists stem :: Enters(g, stem, waiter, cycle))
  {
    var search := new DeadlockSearch(g);
    found := search.Visit(waiter);
    cycle := search.cycle;
    if found {
      var i :| 0 <= i < |search.path| && search.path[i] == cycle[0];
      assert Enters(g, search.path[..i + 1], waiter, cycle);
    } else {
      TopologicalMeansNoCycle(g, search.finished, waiter);
    }
  }
}
