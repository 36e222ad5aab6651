/** A whole plan, run row by row (src/executor.cpp): each node pulls from its children, whatever they
    are, and what the plan hands out in the end is what it stands for. The states of the nodes are
    values here; the classes of module Executor take the same steps in place. */
module PlanRun {
  import opened StorageTypes
  import opened Plans

  /** A node in the middle of its work. */
  datatype Node =
    | Scanning(rows: seq<TupleSlot>)
    | Filtering(child: Node, pred: Predicate)
    | Limiting(child: Node, left: nat)
    | Looping(outer: Node, inner: Node, again: Plan, current: Option<TupleSlot>, joinPred: JoinPredicate)
    | Probing(outer: Node, table: seq<HashEntry>, bucket: seq<HashEntry>, current: Option<TupleSlot>, outerKey: KeyExtractor)

  /** What one call of next gives: a row, or none, and the node afterwards. */
  datatype Pulled = Pulled(row: Option<TupleSlot>, node: Node)

  /** The matches of an outer row that have not been handed out yet. */
  function Pending(bucket: seq<HashEntry>, current: Option<TupleSlot>): (rows: seq<TupleSlot>)
    ensures current.Some? ==> |rows| == |bucket|
  {
    if current.Some? then seq(|bucket|, j requires 0 <= j < |bucket| => Joined(current.value, bucket[j].ctid, bucket[j].tuple)) else []
  }

  /** What is still to come. */
  function Remaining(n: Node): seq<TupleSlot> {
    match n
    case Scanning(rows) => rows
    case Filtering(child, pred) => Select(Remaining(child), pred)
    case Limiting(child, left) => Take(Remaining(child), left)
    case Looping(outer, inner, again, current, joinPred) =>
      (if current.Some? then Matches(Remaining(inner), current.value, joinPred) else []) + LoopRows(Remaining(outer), Rows(again), joinPred)
    case Probing(outer, table, bucket, current, outerKey) =>
      Pending(bucket, current) + ProbeRows(Remaining(outer), table, outerKey)
  }

  /** The row handed out is the first of those to come, and the others remain. */
  ghost predicate Pulls(before: seq<TupleSlot>, row: Option<TupleSlot>, after: seq<TupleSlot>) {
    if before == [] then row == None && after == [] else row == Some(before[0]) && after == before[1..]
  }

  // ---- termination ----------------------------------------------------------

  function Max(a: nat, b: nat): nat {
    if a < b then b else a
  }

  function PlanHeight(p: Plan): nat {
    match p
    case SeqScan(_, _, _) => 0
    case IndexScan(_, _, _, _, _) => 0
    case Filter(child, _) => PlanHeight(child) + 1
    case Limit(child, _, _) => PlanHeight(child) + 1
    case NestedLoop(outer, inner, _) => Max(PlanHeight(outer), PlanHeight(inner)) + 1
    case HashJoin(outer, inner, _, _, _) => Max(PlanHeight(outer), PlanHeight(inner)) + 1
  }

  function Height(n: Node): nat {
    match n
    case Scanning(_) => 0
    case Filtering(child, _) => Height(child) + 1
    case Limiting(child, _) => Height(child) + 1
    case Looping(outer, inner, again, _, _) => LoopHeight(Height(outer), Height(inner), PlanHeight(again))
    case Probing(outer, _, _, _, _) => Height(outer) + 1
  }

  function LoopHeight(outer: nat, inner: nat, again: nat): nat {
    Max(Max(outer, inner), again) + 1
  }

  // ---- next -----------------------------------------------------------------

  function Next(n: Node): (p: Pulled)
    ensures Height(p.node) <= Height(n) && Pulls(Remaining(n), p.row, Remaining(p.node))
    decreases Height(n), 1, 0, 0
  {
    match n
    case Scanning(rows) => if rows == [] then Pulled(None, n) else Pulled(Some(rows[0]), Scanning(rows[1..]))
    case Filtering(child, pred) => NextPassing(child, pred)
    case Limiting(child, left) =>
      if left == 0 then Pulled(None, n)
      else
        var p := Next(child);
        Pulled(p.row, Limiting(p.node, if p.row.Some? then left - 1 else left))
    case Looping(outer, inner, again, None, joinPred) => NextOuter(outer, inner, again, joinPred)
    case Looping(outer, inner, again, Some(current), joinPred) => NextInner(outer, inner, again, current, joinPred)
    case Probing(outer, table, bucket, current, outerKey) => NextProbed(outer, table, bucket, current, outerKey)
  }

  /** FilterNode: pull until a row passes. */
  function NextPassing(child: Node, pred: Predicate): (p: Pulled)
    ensures Height(p.node) <= Height(child) + 1 && Pulls(Select(Remaining(child), pred), p.row, Remaining(p.node))
    decreases Height(child) + 1, 0, |Remaining(child)|, 0
  {
    var p := Next(child);
    SelectOfFirst(Remaining(child), pred);
    if p.row == None || pred(p.row.value) then Pulled(p.row, Filtering(p.node, pred))
    else NextPassing(p.node, pred)
  }

  lemma SelectOfFirst(rows: seq<TupleSlot>, pred: Predicate)
    ensures Select(rows, pred) == if rows == [] then [] else if pred(rows[0]) then [rows[0]] + Select(rows[1..], pred) else Select(rows[1..], pred)
  {
  }

  /** NestedLoopJoinNode between two outer rows: the inner relation is opened again for the next one. */
  function NextOuter(outer: Node, inner: Node, again: Plan, joinPred: JoinPredicate): (p: Pulled)
    ensures Height(p.node) <= LoopHeight(Height(outer), Height(inner), PlanHeight(again))
    ensures Pulls(LoopRows(Remaining(outer), Rows(again), joinPred), p.row, Remaining(p.node))
    decreases LoopHeight(Height(outer), Height(inner), PlanHeight(again)), 0, |Remaining(outer)|, 0
  {
    var o := Next(outer);
    if o.row == None then Pulled(None, Looping(o.node, inner, again, None, joinPred))
    else
      LoopRowsOfFirst(Remaining(outer), Rows(again), joinPred);
      NextInner(o.node, Open(again), again, o.row.value, joinPred)
  }

  /** NestedLoopJoinNode with an outer row: the next inner row that joins with it. */
  function NextInner(outer: Node, inner: Node, again: Plan, current: TupleSlot, joinPred: JoinPredicate): (p: Pulled)
    ensures Height(p.node) <= LoopHeight(Height(outer), Height(inner), PlanHeight(again))
    ensures Pulls(Matches(Remaining(inner), current, joinPred) + LoopRows(Remaining(outer), Rows(again), joinPred), p.row, Remaining(p.node))
    decreases LoopHeight(Height(outer), Height(inner), PlanHeight(again)), 0, |Remaining(outer)|, |Remaining(inner)| + 1
  {
    var i := Next(inner);
    MatchesOfFirst(Remaining(inner), current, joinPred, LoopRows(Remaining(outer), Rows(again), joinPred));
    if i.row == None then NextOuter(outer, i.node, again, joinPred)
    else if joinPred(current, i.row.value) then Pulled(Some(PairOf(current, i.row.value)), Looping(outer, i.node, again, Some(current), joinPred))
    else NextInner(outer, i.node, again, current, joinPred)
  }

  function PairOf(outer: TupleSlot, inner: TupleSlot): TupleSlot {
    Joined(outer, inner.ctid, inner.tuple)
  }

  lemma LoopRowsOfFirst(os: seq<TupleSlot>, ns: seq<TupleSlot>, joinPred: JoinPredicate)
    requires os != []
    ensures LoopRows(os, ns, joinPred) == Matches(ns, os[0], joinPred) + LoopRows(os[1..], ns, joinPred)
  {
  }

  lemma MatchesOfFirst(ns: seq<TupleSlot>, o: TupleSlot, joinPred: JoinPredicate, behind: seq<TupleSlot>)
    ensures ns == [] ==> Matches(ns, o, joinPred) + behind == behind
    ensures ns != [] ==> var rest := Matches(ns[1..], o, joinPred) + behind;
      Matches(ns, o, joinPred) + behind == if joinPred(o, ns[0]) then [PairOf(o, ns[0])] + rest else rest
  {
  }

  /** HashJoinNode: the bucket first, then the next outer row's. */
  function NextProbed(outer: Node, table: seq<HashEntry>, bucket: seq<HashEntry>, current: Option<TupleSlot>, outerKey: KeyExtractor): (p: Pulled)
    ensures Height(p.node) <= Height(outer) + 1
    ensures Pulls(Pending(bucket, current) + ProbeRows(Remaining(outer), table, outerKey), p.row, Remaining(p.node))
    decreases Height(outer) + 1, 0, |Remaining(outer)|, 0
  {
    PendingOfFirst(bucket, current, ProbeRows(Remaining(outer), table, outerKey));
    if current.Some? && bucket != [] then
      Pulled(Some(Joined(current.value, bucket[0].ctid, bucket[0].tuple)), Probing(outer, table, bucket[1..], current, outerKey))
    else
      var o := Next(outer);
      if o.row == None then
        NothingPending([]);
        Pulled(None, Probing(o.node, table, [], None, outerKey))
      else
        ProbeRowsOfFirst(Remaining(outer), table, outerKey);
        NextProbed(o.node, table, EqualRange(table, outerKey(o.row.value)), o.row, outerKey)
  }

  lemma PendingOfFirst(bucket: seq<HashEntry>, current: Option<TupleSlot>, behind: seq<TupleSlot>)
    ensures bucket == [] || current == None ==> Pending(bucket, current) + behind == behind
    ensures bucket != [] && current.Some? ==>
      Pending(bucket, current) + behind == [Joined(current.value, bucket[0].ctid, bucket[0].tuple)] + (Pending(bucket[1..], current) + behind)
  {
  }

  lemma ProbeRowsOfFirst(os: seq<TupleSlot>, table: seq<HashEntry>, outerKey: KeyExtractor)
    requires os != []
    ensures ProbeRows(os, table, outerKey)
         == Pending(EqualRange(table, outerKey(os[0])), Some(os[0])) + ProbeRows(os[1..], table, outerKey)
  {
    BucketIsPending(table, os[0], outerKey(os[0]));
  }

  lemma BucketIsPending(table: seq<HashEntry>, o: TupleSlot, key: int)
    ensures Bucket(table, o, key) == Pending(EqualRange(table, key), Some(o))
  {
    BucketIsEqualRange(table, o, key);
  }

  // ---- init -----------------------------------------------------------------

  /** Nothing of the plan has been handed out: everything it stands for is still to come. */
  function Open(p: Plan): (n: Node)
    ensures Height(n) <= PlanHeight(p) && Remaining(n) == Rows(p)
    decreases PlanHeight(p), 3, 0, 0
  {
    match p
    case SeqScan(_, _, _) => Scanning(Rows(p))
    case IndexScan(_, _, _, _, _) => Scanning(Rows(p))
    case Filter(child, pred) => Filtering(Open(child), pred)
    case Limit(child, count, offset) => Limiting(Skip(Open(child), offset), count)
    case NestedLoop(outer, inner, joinPred) => Looping(Open(outer), Open(inner), inner, None, joinPred)
    case HashJoin(outer, inner, outerKey, innerKey, place) => OpenHashJoin(outer, inner, outerKey, innerKey, place)
  }

  /** HashJoinNode::init: the table is complete before the outer relation is opened. */
  function OpenHashJoin(outer: Plan, inner: Plan, outerKey: KeyExtractor, innerKey: KeyExtractor, place: Placement): (n: Node)
    ensures Height(n) <= PlanHeight(outer) + 1
    ensures Remaining(n) == ProbeRows(Rows(outer), HashTable(Rows(inner), innerKey, place), outerKey)
    decreases Max(PlanHeight(outer), PlanHeight(inner)) + 1, 2, 0, 0
  {
    var table := OpenTable(inner, innerKey, place);
    NothingPending(ProbeRows(Rows(outer), table, outerKey));
    Probing(Open(outer), table, [], None, outerKey)
  }

  function OpenTable(inner: Plan, innerKey: KeyExtractor, place: Placement): (table: seq<HashEntry>)
    ensures table == HashTable(Rows(inner), innerKey, place)
    decreases PlanHeight(inner), 4, 0, 0
  {
    assert [] + Rows(inner) == Rows(inner);
    Build(Open(inner), innerKey, place, [], [])
  }

  lemma NothingPending(behind: seq<TupleSlot>)
    ensures Pending([], None) + behind == behind
  {
  }

  /** LimitNode::init discards up to `offset` rows. */
  function Skip(n: Node, offset: nat): (after: Node)
    ensures Height(after) <= Height(n) && Remaining(after) == Drop(Remaining(n), offset)
    decreases Height(n), 2, offset, 0
  {
    if offset == 0 then n
    else
      var p := Next(n);
      if p.row == None then p.node else Skip(p.node, offset - 1)
  }

  /** HashJoinNode::init pulls every inner row into the hash table. */
  function Build(n: Node, innerKey: KeyExtractor, place: Placement, table: seq<HashEntry>, ghost done: seq<TupleSlot>): (built: seq<HashEntry>)
    requires table == HashTable(done, innerKey, place)
    ensures built == HashTable(done + Remaining(n), innerKey, place)
    decreases Height(n), 2, |Remaining(n)|, 0
  {
    var p := Next(n);
    if p.row == None then
      assert done + Remaining(n) == done;
      table
    else
      assert done + [p.row.value] + Remaining(p.node) == done + Remaining(n);
      TableGrowsByOne(done, p.row.value, innerKey, place);
      Build(p.node, innerKey, place, Emplace(table, EntryOf(p.row.value, innerKey), place), done + [p.row.value])
  }

  lemma TableGrowsByOne(done: seq<TupleSlot>, row: TupleSlot, innerKey: KeyExtractor, place: Placement)
    ensures HashTable(done + [row], innerKey, place) == Emplace(HashTable(done, innerKey, place), EntryOf(row, innerKey), place)
  {
    assert (done + [row])[..|done|] == done;
  }

  // ---- execution -------------------------------------------------------------

  /** execute_slots: opening any plan and pulling until there is no row left yields its rows, in order. */
  method ExecuteSlots(p: Plan) returns (results: seq<TupleSlot>)
    ensures results == Rows(p)
  {
    var node := Open(p);
    results := [];
    while true
      invariant results + Remaining(node) == Rows(p)
      decreases |Remaining(node)|
    {
      var pulled := Next(node);
      node := pulled.node;
      if pulled.row == None {
        return;
      }
      results := results + [pulled.row.value];
    }
  }
}
