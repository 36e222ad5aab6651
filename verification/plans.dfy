/** Query plans (include/pg/executor.h): which rows each kind of plan node stands for, and when one
    plan may be run in place of another. The nodes that compute them are in module Executor. */
module Plans {
  import opened StorageTypes
  import opened Transactions
  import opened Heap
  import M = MultimapIndex
  import V = VacuumTheory
  import Vacuum
  import Mvcc

  /** TupleTableSlot: a row, or the columns of a joined pair. */
  datatype TupleSlot = TupleSlot(ctid: Ctid, tuple: HeapTuple, inner: Option<(Ctid, HeapTuple)>)

  /** set_join keeps the outer row's own columns and the inner row's own columns. */
  function Joined(outer: TupleSlot, ctid: Ctid, tuple: HeapTuple): TupleSlot {
    TupleSlot(outer.ctid, outer.tuple, Some((ctid, tuple)))
  }

  type Predicate = TupleSlot -> bool
  type JoinPredicate = (TupleSlot, TupleSlot) -> bool
  type KeyExtractor = TupleSlot -> int

  datatype HashEntry = HashEntry(key: int, ctid: Ctid, tuple: HeapTuple)

  /** Where an unordered_multimap puts a new entry among those it holds: any fixed rule. */
  type Placement = (seq<HashEntry>, HashEntry) -> nat

  datatype Plan =
    | SeqScan(pages: seq<HeapPage>, snap: Snapshot, tm: State)
    | IndexScan(entries: seq<IndexEntry>, key: int, pages: seq<HeapPage>, snap: Snapshot, tm: State)
    | Filter(child: Plan, pred: Predicate)
    | Limit(child: Plan, count: nat, offset: nat)
    | NestedLoop(outer: Plan, inner: Plan, joinPred: JoinPredicate)
    | HashJoin(outer: Plan, inner: Plan, outerKey: KeyExtractor, innerKey: KeyExtractor, place: Placement)

  // ---- what a plan means --------------------------------------------------

  function AsSlots(rows: seq<(Ctid, HeapTuple)>): seq<TupleSlot> {
    if rows == [] then [] else [TupleSlot(rows[0].0, rows[0].1, None)] + AsSlots(rows[1..])
  }

  /** The rows that pass a filter. */
  function Select(rows: seq<TupleSlot>, pred: Predicate): seq<TupleSlot> {
    if rows == [] then []
    else (if pred(rows[0]) then [rows[0]] else []) + Select(rows[1..], pred)
  }

  /** The inner rows that join with o. */
  function Matches(inner: seq<TupleSlot>, o: TupleSlot, joinPred: JoinPredicate): seq<TupleSlot> {
    if inner == [] then []
    else (if joinPred(o, inner[0]) then [Joined(o, inner[0].ctid, inner[0].tuple)] else []) + Matches(inner[1..], o, joinPred)
  }

  /** For each outer row in turn, the inner rows it joins with. */
  function LoopRows(outer: seq<TupleSlot>, inner: seq<TupleSlot>, joinPred: JoinPredicate): seq<TupleSlot> {
    if outer == [] then [] else Matches(inner, outer[0], joinPred) + LoopRows(outer[1..], inner, joinPred)
  }

  function EqualRange(table: seq<HashEntry>, key: int): seq<HashEntry> {
    if table == [] then []
    else (if table[0].key == key then [table[0]] else []) + EqualRange(table[1..], key)
  }

  /** What o joins into with the entries of its key. */
  function Bucket(table: seq<HashEntry>, o: TupleSlot, key: int): seq<TupleSlot> {
    if table == [] then []
    else (if table[0].key == key then [Joined(o, table[0].ctid, table[0].tuple)] else []) + Bucket(table[1..], o, key)
  }

  /** For each outer row in turn, the bucket of its key. */
  function ProbeRows(outer: seq<TupleSlot>, table: seq<HashEntry>, outerKey: KeyExtractor): seq<TupleSlot> {
    if outer == [] then [] else Bucket(table, outer[0], outerKey(outer[0])) + ProbeRows(outer[1..], table, outerKey)
  }

  lemma {:induction false} BucketIsEqualRange(table: seq<HashEntry>, o: TupleSlot, key: int)
    ensures |Bucket(table, o, key)| == |EqualRange(table, key)|
    ensures forall j :: 0 <= j < |EqualRange(table, key)| ==>
      Bucket(table, o, key)[j] == Joined(o, EqualRange(table, key)[j].ctid, EqualRange(table, key)[j].tuple)
  {
    if table != [] {
      BucketIsEqualRange(table[1..], o, key);
    }
  }

  function Entries(rows: seq<TupleSlot>, innerKey: KeyExtractor): (es: seq<HashEntry>)
    ensures |es| == |rows|
  {
    seq(|rows|, i requires 0 <= i < |rows| => EntryOf(rows[i], innerKey))
  }

  function Emplace(table: seq<HashEntry>, e: HashEntry, place: Placement): (after: seq<HashEntry>)
    ensures multiset(after) == multiset(table) + multiset{e}
  {
    var i := if place(table, e) < |table| then place(table, e) else |table|;
    assert table == table[..i] + table[i..];
    table[..i] + [e] + table[i..]
  }

  function EntryOf(row: TupleSlot, innerKey: KeyExtractor): HashEntry {
    HashEntry(innerKey(row), row.ctid, row.tuple)
  }

  /** The table after its build phase has read these rows. */
  function HashTable(rows: seq<TupleSlot>, innerKey: KeyExtractor, place: Placement): seq<HashEntry> {
    if rows == [] then []
    else Emplace(HashTable(rows[..|rows| - 1], innerKey, place), EntryOf(rows[|rows| - 1], innerKey), place)
  }

  function Drop<X>(xs: seq<X>, n: nat): seq<X> {
    if n < |xs| then xs[n..] else []
  }

  function Take<X>(xs: seq<X>, n: nat): seq<X> {
    if n < |xs| then xs[..n] else xs
  }

  /** The rows a plan produces, in order. */
  function Rows(p: Plan): seq<TupleSlot> {
    match p
    case SeqScan(pages, snap, tm) => AsSlots(VisibleRows(pages, 0, snap, tm))
    case IndexScan(entries, key, pages, snap, tm) => AsSlots(V.ScanHits(M.Find(entries, key), [], pages, snap, tm))
    case Filter(child, pred) => Select(Rows(child), pred)
    case Limit(child, count, offset) => Take(Drop(Rows(child), offset), count)
    case NestedLoop(outer, inner, joinPred) => LoopRows(Rows(outer), Rows(inner), joinPred)
    case HashJoin(outer, inner, outerKey, innerKey, place) => ProbeRows(Rows(outer), HashTable(Rows(inner), innerKey, place), outerKey)
  }

  // ---- order does not matter ----------------------------------------------

  function FlatMap<X, Y>(xs: seq<X>, f: X -> seq<Y>): seq<Y> {
    if xs == [] then [] else f(xs[0]) + FlatMap(xs[1..], f)
  }

  function Passing(pred: Predicate): TupleSlot -> seq<TupleSlot> {
    x => if pred(x) then [x] else []
  }

  function Matching(o: TupleSlot, joinPred: JoinPredicate): TupleSlot -> seq<TupleSlot> {
    i => if joinPred(o, i) then [Joined(o, i.ctid, i.tuple)] else []
  }

  function Pairing(inner: seq<TupleSlot>, joinPred: JoinPredicate): TupleSlot -> seq<TupleSlot> {
    o => Matches(inner, o, joinPred)
  }

  function InBucket(o: TupleSlot, key: int): HashEntry -> seq<TupleSlot> {
    (e: HashEntry) => if e.key == key then [Joined(o, e.ctid, e.tuple)] else []
  }

  lemma {:induction false} SelectIsFlatMap(rows: seq<TupleSlot>, pred: Predicate)
    ensures Select(rows, pred) == FlatMap(rows, Passing(pred))
  {
    if rows != [] {
      SelectIsFlatMap(rows[1..], pred);
    }
  }

  lemma {:induction false} MatchesIsFlatMap(inner: seq<TupleSlot>, o: TupleSlot, joinPred: JoinPredicate)
    ensures Matches(inner, o, joinPred) == FlatMap(inner, Matching(o, joinPred))
  {
    if inner != [] {
      MatchesIsFlatMap(inner[1..], o, joinPred);
    }
  }

  lemma {:induction false} LoopRowsIsFlatMap(outer: seq<TupleSlot>, inner: seq<TupleSlot>, joinPred: JoinPredicate)
    ensures LoopRows(outer, inner, joinPred) == FlatMap(outer, Pairing(inner, joinPred))
  {
    if outer != [] {
      LoopRowsIsFlatMap(outer[1..], inner, joinPred);
    }
  }

  lemma {:induction false} BucketIsFlatMap(table: seq<HashEntry>, o: TupleSlot, key: int)
    ensures Bucket(table, o, key) == FlatMap(table, InBucket(o, key))
  {
    if table != [] {
      BucketIsFlatMap(table[1..], o, key);
    }
  }

  lemma {:induction false} FlatMapConcat<X, Y>(xs: seq<X>, ys: seq<X>, f: X -> seq<Y>)
    ensures FlatMap(xs + ys, f) == FlatMap(xs, f) + FlatMap(ys, f)
  {
    if xs == [] {
      assert xs + ys == ys;
    } else {
      assert (xs + ys)[1..] == xs[1..] + ys;
      FlatMapConcat(xs[1..], ys, f);
    }
  }

  lemma WithoutOne<X>(x: X, xs: seq<X>, ys: seq<X>, i: nat)
    requires multiset([x] + xs) == multiset(ys) && i < |ys| && ys[i] == x
    ensures multiset(xs) == multiset(ys[..i] + ys[i + 1..]) && ys == ys[..i] + ([x] + ys[i + 1..])
  {
    var front, back := ys[..i], ys[i + 1..];
    assert ys == front + ([x] + back);
    assert multiset(ys) == multiset(front) + (multiset{x} + multiset(back));
    assert multiset(front + back) == multiset(front) + multiset(back);
    assert multiset([x] + xs) == multiset{x} + multiset(xs);
    assert multiset(xs) == multiset([x] + xs) - multiset{x};
    assert multiset(front + back) == multiset(ys) - multiset{x};
  }

  /** Permuting the input permutes the output. */
  lemma {:induction false} FlatMapPermuted<X, Y>(xs: seq<X>, ys: seq<X>, f: X -> seq<Y>)
    requires multiset(xs) == multiset(ys)
    ensures multiset(FlatMap(xs, f)) == multiset(FlatMap(ys, f))
  {
    if xs == [] {
      assert |multiset(ys)| == 0;
    } else {
      assert xs == [xs[0]] + xs[1..];
      assert xs[0] in multiset(ys);
      var i :| 0 <= i < |ys| && ys[i] == xs[0];
      var front, back := ys[..i], ys[i + 1..];
      WithoutOne(xs[0], xs[1..], ys, i);
      FlatMapPermuted(xs[1..], front + back, f);
      FlatMapConcat(front, back, f);
      FlatMapConcat(front, [xs[0]] + back, f);
      assert ([xs[0]] + back)[1..] == back;
    }
  }

  // ---- hash join and nested loop ------------------------------------------

  function KeysEqual(outerKey: KeyExtractor, innerKey: KeyExtractor): JoinPredicate {
    (o, i) => outerKey(o) == innerKey(i)
  }

  /** Probing the entries in insertion order finds what the inner loop finds, in the same order. */
  lemma {:induction false} ProbeFindsMatches(rows: seq<TupleSlot>, o: TupleSlot, outerKey: KeyExtractor, innerKey: KeyExtractor)
    ensures Bucket(Entries(rows, innerKey), o, outerKey(o)) == Matches(rows, o, KeysEqual(outerKey, innerKey))
  {
    if rows != [] {
      ProbeFindsMatches(rows[1..], o, outerKey, innerKey);
      assert Entries(rows, innerKey)[1..] == Entries(rows[1..], innerKey);
    }
  }

  lemma {:induction false} TableHoldsEntries(rows: seq<TupleSlot>, innerKey: KeyExtractor, place: Placement)
    ensures multiset(HashTable(rows, innerKey, place)) == multiset(Entries(rows, innerKey))
  {
    if rows != [] {
      var n := |rows| - 1;
      TableHoldsEntries(rows[..n], innerKey, place);
      assert Entries(rows, innerKey) == Entries(rows[..n], innerKey) + [EntryOf(rows[n], innerKey)];
    }
  }

  lemma BucketPermuted(table: seq<HashEntry>, es: seq<HashEntry>, o: TupleSlot, key: int)
    requires multiset(table) == multiset(es)
    ensures multiset(Bucket(table, o, key)) == multiset(Bucket(es, o, key))
  {
    BucketIsFlatMap(table, o, key);
    BucketIsFlatMap(es, o, key);
    FlatMapPermuted(table, es, InBucket(o, key));
  }

  /** Both joins give every outer row the same inner rows, whatever order the buckets have. */
  lemma ProbeIsPair(rows: seq<TupleSlot>, outerKey: KeyExtractor, innerKey: KeyExtractor, table: seq<HashEntry>, o: TupleSlot)
    requires multiset(table) == multiset(Entries(rows, innerKey))
    ensures multiset(Bucket(table, o, outerKey(o))) == multiset(Matches(rows, o, KeysEqual(outerKey, innerKey)))
  {
    BucketPermuted(table, Entries(rows, innerKey), o, outerKey(o));
    ProbeFindsMatches(rows, o, outerKey, innerKey);
  }

  lemma {:induction false} JoinsAgree(os: seq<TupleSlot>, rows: seq<TupleSlot>, outerKey: KeyExtractor, innerKey: KeyExtractor, table: seq<HashEntry>)
    requires multiset(table) == multiset(Entries(rows, innerKey))
    ensures multiset(ProbeRows(os, table, outerKey)) == multiset(LoopRows(os, rows, KeysEqual(outerKey, innerKey)))
  {
    if os != [] {
      ProbeIsPair(rows, outerKey, innerKey, table, os[0]);
      JoinsAgree(os[1..], rows, outerKey, innerKey, table);
    }
  }

  /** Hash join yields the same rows, each as often, as nested loop with key equality. */
  lemma {:induction false} HashJoinIsNestedLoop(p: Plan)
    requires p.HashJoin?
    ensures multiset(Rows(p)) == multiset(LoopRows(Rows(p.outer), Rows(p.inner), KeysEqual(p.outerKey, p.innerKey)))
  {
    TableHoldsEntries(Rows(p.inner), p.innerKey, p.place);
    JoinsAgree(Rows(p.outer), Rows(p.inner), p.outerKey, p.innerKey, HashTable(Rows(p.inner), p.innerKey, p.place));
  }

  predicate HasHashJoin(p: Plan) {
    match p
    case SeqScan(_, _, _) => false
    case IndexScan(_, _, _, _, _) => false
    case Filter(child, _) => HasHashJoin(child)
    case Limit(child, _, _) => HasHashJoin(child)
    case NestedLoop(outer, inner, _) => HasHashJoin(outer) || HasHashJoin(inner)
    case HashJoin(_, _, _, _, _) => true
  }

  /** No LIMIT chooses among rows whose order comes from a hash table. */
  predicate LimitsAreOrdered(p: Plan) {
    match p
    case SeqScan(_, _, _) => true
    case IndexScan(_, _, _, _, _) => true
    case Filter(child, _) => LimitsAreOrdered(child)
    case Limit(child, _, _) => !HasHashJoin(child)
    case NestedLoop(outer, inner, _) => LimitsAreOrdered(outer) && LimitsAreOrdered(inner)
    case HashJoin(outer, inner, _, _, _) => LimitsAreOrdered(outer) && LimitsAreOrdered(inner)
  }

  /** The same plan with every hash join run as a nested loop. */
  function WithoutHashJoins(p: Plan): Plan {
    match p
    case SeqScan(_, _, _) => p
    case IndexScan(_, _, _, _, _) => p
    case Filter(child, pred) => Filter(WithoutHashJoins(child), pred)
    case Limit(child, count, offset) => Limit(WithoutHashJoins(child), count, offset)
    case NestedLoop(outer, inner, joinPred) => NestedLoop(WithoutHashJoins(outer), WithoutHashJoins(inner), joinPred)
    case HashJoin(outer, inner, outerKey, innerKey, _) =>
      NestedLoop(WithoutHashJoins(outer), WithoutHashJoins(inner), KeysEqual(outerKey, innerKey))
  }

  lemma {:induction false} NothingToReplace(p: Plan)
    requires !HasHashJoin(p)
    ensures WithoutHashJoins(p) == p
  {
    match p
    case SeqScan(_, _, _) =>
    case IndexScan(_, _, _, _, _) =>
    case Filter(child, _) => NothingToReplace(child);
    case Limit(child, _, _) => NothingToReplace(child);
    case NestedLoop(outer, inner, _) => NothingToReplace(outer); NothingToReplace(inner);
  }

  lemma MatchesPermuted(ns: seq<TupleSlot>, ns': seq<TupleSlot>, o: TupleSlot, joinPred: JoinPredicate)
    requires multiset(ns) == multiset(ns')
    ensures multiset(Matches(ns, o, joinPred)) == multiset(Matches(ns', o, joinPred))
  {
    MatchesIsFlatMap(ns, o, joinPred);
    MatchesIsFlatMap(ns', o, joinPred);
    FlatMapPermuted(ns, ns', Matching(o, joinPred));
  }

  lemma {:induction false} InnerPermuted(os: seq<TupleSlot>, ns: seq<TupleSlot>, ns': seq<TupleSlot>, joinPred: JoinPredicate)
    requires multiset(ns) == multiset(ns')
    ensures multiset(LoopRows(os, ns, joinPred)) == multiset(LoopRows(os, ns', joinPred))
  {
    if os != [] {
      MatchesPermuted(ns, ns', os[0], joinPred);
      InnerPermuted(os[1..], ns, ns', joinPred);
    }
  }

  lemma OuterPermuted(os: seq<TupleSlot>, os': seq<TupleSlot>, ns: seq<TupleSlot>, joinPred: JoinPredicate)
    requires multiset(os) == multiset(os')
    ensures multiset(LoopRows(os, ns, joinPred)) == multiset(LoopRows(os', ns, joinPred))
  {
    LoopRowsIsFlatMap(os, ns, joinPred);
    LoopRowsIsFlatMap(os', ns, joinPred);
    FlatMapPermuted(os, os', Pairing(ns, joinPred));
  }

  /** A nested loop over permuted inputs yields a permuted output. */
  lemma NestedLoopPermuted(os: seq<TupleSlot>, ns: seq<TupleSlot>, os': seq<TupleSlot>, ns': seq<TupleSlot>, joinPred: JoinPredicate)
    requires multiset(os) == multiset(os') && multiset(ns) == multiset(ns')
    ensures multiset(LoopRows(os, ns, joinPred)) == multiset(LoopRows(os', ns', joinPred))
  {
    InnerPermuted(os, ns, ns', joinPred);
    OuterPermuted(os, os', ns', joinPred);
  }

  lemma SelectPermuted(rows: seq<TupleSlot>, rows': seq<TupleSlot>, pred: Predicate)
    requires multiset(rows) == multiset(rows')
    ensures multiset(Select(rows, pred)) == multiset(Select(rows', pred))
  {
    SelectIsFlatMap(rows, pred);
    SelectIsFlatMap(rows', pred);
    FlatMapPermuted(rows, rows', Passing(pred));
  }

  lemma FilterReplaced(p: Plan, q: Plan)
    requires p.Filter? && q.Filter? && q.pred == p.pred && multiset(Rows(q.child)) == multiset(Rows(p.child))
    ensures multiset(Rows(q)) == multiset(Rows(p))
  {
    SelectPermuted(Rows(q.child), Rows(p.child), p.pred);
  }

  lemma LoopReplaced(p: Plan, q: Plan)
    requires p.NestedLoop? && q.NestedLoop? && q.joinPred == p.joinPred
    requires multiset(Rows(q.outer)) == multiset(Rows(p.outer)) && multiset(Rows(q.inner)) == multiset(Rows(p.inner))
    ensures multiset(Rows(q)) == multiset(Rows(p))
  {
    NestedLoopPermuted(Rows(q.outer), Rows(q.inner), Rows(p.outer), Rows(p.inner), p.joinPred);
  }

  lemma JoinReplaced(p: Plan, q: Plan)
    requires p.HashJoin? && q.NestedLoop? && q.joinPred == KeysEqual(p.outerKey, p.innerKey)
    requires multiset(Rows(q.outer)) == multiset(Rows(p.outer)) && multiset(Rows(q.inner)) == multiset(Rows(p.inner))
    ensures multiset(Rows(q)) == multiset(Rows(p))
  {
    HashJoinIsNestedLoop(p);
    NestedLoopPermuted(Rows(q.outer), Rows(q.inner), Rows(p.outer), Rows(p.inner), q.joinPred);
  }

  /** The plan change preserves meaning anywhere inside a plan: the same rows come out, each as
      often, as long as no LIMIT depends on the order of a hash table. */
  lemma {:induction false} PlanChangePreservesRows(p: Plan)
    requires LimitsAreOrdered(p)
    ensures multiset(Rows(WithoutHashJoins(p))) == multiset(Rows(p))
  {
    var q := WithoutHashJoins(p);
    if p.Limit? {
      NothingToReplace(p.child);
    } else if p.Filter? {
      PlanChangePreservesRows(p.child);
      FilterReplaced(p, q);
    } else if p.NestedLoop? {
      PlanChangePreservesRows(p.outer);
      PlanChangePreservesRows(p.inner);
      LoopReplaced(p, q);
    } else if p.HashJoin? {
      PlanChangePreservesRows(p.outer);
      PlanChangePreservesRows(p.inner);
      JoinReplaced(p, q);
    }
  }

  // ---- queries and VACUUM -------------------------------------------------

  /** Every scan of the plan reads this heap and index under this snapshot. */
  predicate Reads(p: Plan, pages: seq<HeapPage>, entries: seq<IndexEntry>, snap: Snapshot, tm: State) {
    match p
    case SeqScan(h, s, t) => h == pages && s == snap && t == tm
    case IndexScan(es, _, h, s, t) => es == entries && h == pages && s == snap && t == tm
    case Filter(child, _) => Reads(child, pages, entries, snap, tm)
    case Limit(child, _, _) => Reads(child, pages, entries, snap, tm)
    case NestedLoop(outer, inner, _) => Reads(outer, pages, entries, snap, tm) && Reads(inner, pages, entries, snap, tm)
    case HashJoin(outer, inner, _, _, _) => Reads(outer, pages, entries, snap, tm) && Reads(inner, pages, entries, snap, tm)
  }

  /** The same query on another heap and index. */
  function On(p: Plan, pages: seq<HeapPage>, entries: seq<IndexEntry>): Plan {
    match p
    case SeqScan(_, s, t) => SeqScan(pages, s, t)
    case IndexScan(_, key, _, s, t) => IndexScan(entries, key, pages, s, t)
    case Filter(child, pred) => Filter(On(child, pages, entries), pred)
    case Limit(child, count, offset) => Limit(On(child, pages, entries), count, offset)
    case NestedLoop(outer, inner, joinPred) => NestedLoop(On(outer, pages, entries), On(inner, pages, entries), joinPred)
    case HashJoin(outer, inner, outerKey, innerKey, place) =>
      HashJoin(On(outer, pages, entries), On(inner, pages, entries), outerKey, innerKey, place)
  }

  /** No query of a running transaction, however it is planned, can tell that VACUUM has run. */
  lemma {:induction false} QueriesDoNotNoticeVacuum(states: seq<Mvcc.System>, events: seq<Mvcc.Event>, i: nat, horizon: TxId, tx: TxId,
                                                    pages: seq<HeapPage>, entries: seq<IndexEntry>, p: Plan)
    requires Mvcc.TxRun(states, events) && Mvcc.Inv(states[0]) && i < |states|
    requires IsHorizon(states[0].tm, horizon) && tx in states[i].held
    requires Reads(p, pages, entries, states[i].held[tx], states[i].tm)
    ensures Rows(On(p, Vacuum.Vacuumed(pages, states[0].tm, horizon), Vacuum.RemoveAll(entries, Vacuum.AllDead(pages, states[0].tm, horizon))))
         == Rows(p)
  {
    match p
    case SeqScan(_, _, _) =>
      V.VacuumIsInvisible(states, events, i, horizon, tx, pages, entries, Ctid(0, 0), 0);
    case IndexScan(_, key, _, _, _) =>
      V.VacuumIsInvisible(states, events, i, horizon, tx, pages, entries, Ctid(0, 0), key);
    case Filter(child, _) =>
      QueriesDoNotNoticeVacuum(states, events, i, horizon, tx, pages, entries, child);
    case Limit(child, _, _) =>
      QueriesDoNotNoticeVacuum(states, events, i, horizon, tx, pages, entries, child);
    case NestedLoop(outer, inner, _) =>
      QueriesDoNotNoticeVacuum(states, events, i, horizon, tx, pages, entries, outer);
      QueriesDoNotNoticeVacuum(states, events, i, horizon, tx, pages, entries, inner);
    case HashJoin(outer, inner, _, _, _) =>
      QueriesDoNotNoticeVacuum(states, events, i, horizon, tx, pages, entries, outer);
      QueriesDoNotNoticeVacuum(states, events, i, horizon, tx, pages, entries, inner);
  }
}
