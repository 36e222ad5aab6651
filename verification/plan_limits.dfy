/** LIMIT above a hash join (src/executor.cpp): which rows it lets through depends on the order of the
    hash table exactly when it cuts through one outer row's matches and they are not all alike. */
module PlanLimits {
  import opened StorageTypes
  import opened Transactions
  import opened Heap
  import opened Plans

  predicate AllSame(rows: seq<TupleSlot>) {
    forall i :: 0 <= i < |rows| ==> rows[i] == rows[0]
  }

  /** Of the joined rows the first n are taken: they end with the matches of some outer row, or in the
      middle of matches that are all the same. */
  predicate HarmlessCut(os: seq<TupleSlot>, ns: seq<TupleSlot>, outerKey: KeyExtractor, innerKey: KeyExtractor, n: nat) {
    if os == [] then true
    else
      var matches := Matches(ns, os[0], KeysEqual(outerKey, innerKey));
      if n >= |matches| then HarmlessCut(os[1..], ns, outerKey, innerKey, n - |matches|)
      else n == 0 || AllSame(matches)
  }

  lemma TakeConcat<X>(a: seq<X>, b: seq<X>, n: nat)
    ensures Take(a + b, n) == if n >= |a| then a + Take(b, n - |a|) else Take(a, n)
  {
  }

  lemma SameMultiset(a: seq<TupleSlot>, b: seq<TupleSlot>)
    requires multiset(a) == multiset(b) && AllSame(b)
    ensures a == b
  {
    assert |a| == |multiset(a)| == |multiset(b)| == |b|;
    forall i | 0 <= i < |a| ensures a[i] == b[i] {
      assert a[i] in multiset(b);
    }
  }

  // ---- harmless cuts ----------------------------------------------------------

  lemma {:induction false} HarmlessMeansSame(os: seq<TupleSlot>, ns: seq<TupleSlot>, outerKey: KeyExtractor, innerKey: KeyExtractor,
                                             table: seq<HashEntry>, n: nat)
    requires multiset(table) == multiset(Entries(ns, innerKey)) && HarmlessCut(os, ns, outerKey, innerKey, n)
    ensures multiset(Take(ProbeRows(os, table, outerKey), n)) == multiset(Take(LoopRows(os, ns, KeysEqual(outerKey, innerKey)), n))
  {
    if os != [] {
      var matches, bucket := Matches(ns, os[0], KeysEqual(outerKey, innerKey)), Bucket(table, os[0], outerKey(os[0]));
      ProbeIsPair(ns, outerKey, innerKey, table, os[0]);
      assert |bucket| == |multiset(bucket)| == |multiset(matches)| == |matches|;
      TakeConcat(bucket, ProbeRows(os[1..], table, outerKey), n);
      TakeConcat(matches, LoopRows(os[1..], ns, KeysEqual(outerKey, innerKey)), n);
      if n >= |matches| {
        HarmlessMeansSame(os[1..], ns, outerKey, innerKey, table, n - |matches|);
      } else if n > 0 {
        SameMultiset(bucket, matches);
      }
    }
  }

  // ---- two orders of the hash table ---------------------------------------------

  /** The entry comes before all others, or behind them. */
  function Foremost(a: HashEntry): Placement {
    (table: seq<HashEntry>, e: HashEntry) => if e == a then 0 else |table|
  }

  function Hindmost(a: HashEntry): Placement {
    (table: seq<HashEntry>, e: HashEntry) => if e == a then |table| else 0
  }

  ghost predicate Only<X>(s: seq<X>, x: X) {
    forall i :: 0 <= i < |s| ==> s[i] == x
  }

  lemma EmplaceFirst(table: seq<HashEntry>, e: HashEntry, place: Placement)
    requires place(table, e) == 0
    ensures Emplace(table, e, place) == [e] + table
  {
  }

  lemma EmplaceLast(table: seq<HashEntry>, e: HashEntry, place: Placement)
    requires place(table, e) == |table|
    ensures Emplace(table, e, place) == table + [e]
  {
  }

  lemma ForemostStep(f: seq<HashEntry>, b: seq<HashEntry>, e: HashEntry, a: HashEntry)
      returns (front: seq<HashEntry>, back: seq<HashEntry>)
    requires Only(f, a) && a !in b
    ensures Emplace(f + b, e, Foremost(a)) == front + back && Only(front, a) && a !in back
  {
    if e == a {
      EmplaceFirst(f + b, e, Foremost(a));
      front, back := [e] + f, b;
    } else {
      EmplaceLast(f + b, e, Foremost(a));
      front, back := f, b + [e];
    }
  }

  lemma {:induction false} ForemostSplits(rows: seq<TupleSlot>, innerKey: KeyExtractor, a: HashEntry)
      returns (front: seq<HashEntry>, back: seq<HashEntry>)
    ensures HashTable(rows, innerKey, Foremost(a)) == front + back && Only(front, a) && a !in back
  {
    front, back := [], [];
    if rows != [] {
      front, back := ForemostSplits(rows[..|rows| - 1], innerKey, a);
      front, back := ForemostStep(front, back, EntryOf(rows[|rows| - 1], innerKey), a);
    }
  }

  lemma HindmostStep(f: seq<HashEntry>, b: seq<HashEntry>, e: HashEntry, a: HashEntry)
      returns (front: seq<HashEntry>, back: seq<HashEntry>)
    requires a !in f && Only(b, a)
    ensures Emplace(f + b, e, Hindmost(a)) == front + back && a !in front && Only(back, a)
  {
    if e == a {
      EmplaceLast(f + b, e, Hindmost(a));
      front, back := f, b + [e];
    } else {
      EmplaceFirst(f + b, e, Hindmost(a));
      front, back := [e] + f, b;
    }
  }

  lemma {:induction false} HindmostSplits(rows: seq<TupleSlot>, innerKey: KeyExtractor, a: HashEntry)
      returns (front: seq<HashEntry>, back: seq<HashEntry>)
    ensures HashTable(rows, innerKey, Hindmost(a)) == front + back && a !in front && Only(back, a)
  {
    front, back := [], [];
    if rows != [] {
      front, back := HindmostSplits(rows[..|rows| - 1], innerKey, a);
      front, back := HindmostStep(front, back, EntryOf(rows[|rows| - 1], innerKey), a);
    }
  }

  lemma {:induction false} BucketConcat(a: seq<HashEntry>, b: seq<HashEntry>, o: TupleSlot, key: int)
    ensures Bucket(a + b, o, key) == Bucket(a, o, key) + Bucket(b, o, key)
  {
    BucketIsFlatMap(a + b, o, key);
    BucketIsFlatMap(a, o, key);
    BucketIsFlatMap(b, o, key);
    FlatMapConcat(a, b, InBucket(o, key));
  }

  lemma {:induction false} BucketMember(table: seq<HashEntry>, o: TupleSlot, key: int, r: TupleSlot) returns (e: HashEntry)
    requires r in Bucket(table, o, key)
    ensures e in table && e.key == key && r == Joined(o, e.ctid, e.tuple)
  {
    if table[0].key == key && r == Joined(o, table[0].ctid, table[0].tuple) {
      e := table[0];
    } else {
      e := BucketMember(table[1..], o, key, r);
    }
  }

  lemma OnlyIn(table: seq<HashEntry>, o: TupleSlot, a: HashEntry)
    ensures Only(table, a) ==> Only(Bucket(table, o, a.key), Joined(o, a.ctid, a.tuple))
    ensures a !in table ==> Joined(o, a.ctid, a.tuple) !in Bucket(table, o, a.key)
  {
    var bucket := Bucket(table, o, a.key);
    forall i | 0 <= i < |bucket| && Only(table, a) ensures bucket[i] == Joined(o, a.ctid, a.tuple) {
      var e := BucketMember(table, o, a.key, bucket[i]);
    }
    if Joined(o, a.ctid, a.tuple) in bucket {
      var e := BucketMember(table, o, a.key, Joined(o, a.ctid, a.tuple));
      assert e == a;
    }
  }

  // ---- counting one row in what is taken ------------------------------------------

  lemma {:induction false} CountAll(s: seq<TupleSlot>, r: TupleSlot)
    requires Only(s, r)
    ensures multiset(s)[r] == |s|
  {
    if s != [] {
      assert s == [s[0]] + s[1..];
      CountAll(s[1..], r);
    }
  }

  lemma CountFirst(xs: seq<TupleSlot>, ys: seq<TupleSlot>, r: TupleSlot, n: nat)
    requires Only(xs, r) && r !in ys
    ensures multiset(Take(xs + ys, n))[r] == if n <= |xs| then n else |xs|
  {
    TakeConcat(xs, ys, n);
    if n <= |xs| {
      CountAll(xs[..n], r);
      assert Take(xs + ys, n) == xs[..n];
    } else {
      CountAll(xs, r);
      assert r !in Take(ys, n - |xs|);
    }
  }

  lemma CountLast(ys: seq<TupleSlot>, xs: seq<TupleSlot>, r: TupleSlot, n: nat)
    requires Only(xs, r) && r !in ys && n <= |ys| + |xs|
    ensures multiset(Take(ys + xs, n))[r] == if n <= |ys| then 0 else n - |ys|
  {
    TakeConcat(ys, xs, n);
    if n <= |ys| {
      assert Take(ys + xs, n) == ys[..n];
    } else {
      CountAll(xs[..n - |ys|], r);
      assert Take(xs, n - |ys|) == xs[..n - |ys|];
    }
  }

  /** With the favoured row first or last, the first n rows contain it more or less often. */
  lemma CutsDiffer(xs: seq<TupleSlot>, ys: seq<TupleSlot>, ys': seq<TupleSlot>, xs': seq<TupleSlot>, r: TupleSlot, n: nat)
    requires Only(xs, r) && r !in ys && Only(xs', r) && r !in ys'
    requires multiset(xs + ys) == multiset(ys' + xs') && 0 < n < |xs| + |ys| && xs != [] && ys != []
    ensures multiset(Take(xs + ys, n)) != multiset(Take(ys' + xs', n))
  {
    assert |xs + ys| == |multiset(xs + ys)| == |multiset(ys' + xs')| == |ys' + xs'|;
    CountAll(xs, r);
    CountAll(xs', r);
    assert multiset(xs + ys)[r] == multiset(xs)[r] + multiset(ys)[r];
    assert multiset(ys' + xs')[r] == multiset(ys')[r] + multiset(xs')[r];
    CountFirst(xs, ys, r, n);
    CountLast(ys', xs', r, n);
  }

  // ---- harmful cuts -------------------------------------------------------------

  /** What the bucket of o takes part in being cut, under two placements. */
  lemma BucketsDiffer(ns: seq<TupleSlot>, o: TupleSlot, outerKey: KeyExtractor, innerKey: KeyExtractor, n: nat)
      returns (place: Placement, table: seq<HashEntry>)
    requires var matches := Matches(ns, o, KeysEqual(outerKey, innerKey)); 0 < n < |matches| && !AllSame(matches)
    ensures table == HashTable(ns, innerKey, place) && multiset(table) == multiset(Entries(ns, innerKey))
    ensures multiset(Take(Bucket(table, o, outerKey(o)), n)) != multiset(Take(Matches(ns, o, KeysEqual(outerKey, innerKey)), n))
  {
    var matches, key := Matches(ns, o, KeysEqual(outerKey, innerKey)), outerKey(o);
    var r := matches[0];
    ProbeFindsMatches(ns, o, outerKey, innerKey);
    var a := BucketMember(Entries(ns, innerKey), o, key, r);
    var front, back := ForemostSplits(ns, innerKey, a);
    var front', back' := HindmostSplits(ns, innerKey, a);
    OnlyIn(front, o, a);
    OnlyIn(back, o, a);
    OnlyIn(front', o, a);
    OnlyIn(back', o, a);
    BucketConcat(front, back, o, key);
    BucketConcat(front', back', o, key);
    BothHold(ns, o, outerKey, innerKey, Foremost(a));
    BothHold(ns, o, outerKey, innerKey, Hindmost(a));
    RowsOnBothSides(matches, Bucket(front, o, key), Bucket(back, o, key));
    CutsDiffer(Bucket(front, o, key), Bucket(back, o, key), Bucket(front', o, key), Bucket(back', o, key), r, n);
    if multiset(Take(Bucket(front + back, o, key), n)) != multiset(Take(matches, n)) {
      place, table := Foremost(a), front + back;
    } else {
      place, table := Hindmost(a), front' + back';
    }
    TableHoldsEntries(ns, innerKey, place);
  }

  lemma BothHold(ns: seq<TupleSlot>, o: TupleSlot, outerKey: KeyExtractor, innerKey: KeyExtractor, place: Placement)
    ensures multiset(Bucket(HashTable(ns, innerKey, place), o, outerKey(o))) == multiset(Matches(ns, o, KeysEqual(outerKey, innerKey)))
  {
    TableHoldsEntries(ns, innerKey, place);
    ProbeIsPair(ns, outerKey, innerKey, HashTable(ns, innerKey, place), o);
  }

  lemma RowsOnBothSides(matches: seq<TupleSlot>, xs: seq<TupleSlot>, ys: seq<TupleSlot>)
    requires multiset(xs + ys) == multiset(matches) && matches != [] && !AllSame(matches)
    requires Only(xs, matches[0]) && matches[0] !in ys
    ensures xs != [] && ys != [] && |xs| + |ys| == |matches|
  {
    assert |xs + ys| == |multiset(xs + ys)| == |multiset(matches)| == |matches|;
    assert matches[0] in multiset(matches);
    assert matches[0] in xs + ys;
    var i :| 0 <= i < |matches| && matches[i] != matches[0];
    assert matches[i] in multiset(matches);
    assert matches[i] in xs + ys;
  }

  /** Two lists whose first parts hold the same rows: what is taken differs where the cut falls. */
  lemma TakenFromBoth(a: seq<TupleSlot>, a': seq<TupleSlot>, b: seq<TupleSlot>, b': seq<TupleSlot>, n: nat)
    requires multiset(a) == multiset(a')
    ensures |a| == |a'|
    ensures multiset(Take(a + b, n)) == multiset(Take(a' + b', n)) <==>
      if n >= |a| then multiset(Take(b, n - |a|)) == multiset(Take(b', n - |a|)) else multiset(Take(a, n)) == multiset(Take(a', n))
  {
    assert |a| == |multiset(a)| == |multiset(a')| == |a'|;
    TakeConcat(a, b, n);
    TakeConcat(a', b', n);
    if n >= |a| {
      var t, t' := multiset(Take(b, n - |a|)), multiset(Take(b', n - |a|));
      assert multiset(Take(a + b, n)) == multiset(a) + t && multiset(Take(a' + b', n)) == multiset(a) + t';
      assert (multiset(a) + t) - multiset(a) == t && (multiset(a) + t') - multiset(a) == t';
    }
  }

  /** The first n rows of the joins, with this hash table, are not the same. */
  ghost predicate Differs(os: seq<TupleSlot>, ns: seq<TupleSlot>, outerKey: KeyExtractor, innerKey: KeyExtractor, n: nat, table: seq<HashEntry>) {
    multiset(Take(ProbeRows(os, table, outerKey), n)) != multiset(Take(LoopRows(os, ns, KeysEqual(outerKey, innerKey)), n))
  }

  lemma JoinsOfFirst(os: seq<TupleSlot>, ns: seq<TupleSlot>, outerKey: KeyExtractor, innerKey: KeyExtractor, table: seq<HashEntry>)
    requires os != []
    ensures ProbeRows(os, table, outerKey) == Bucket(table, os[0], outerKey(os[0])) + ProbeRows(os[1..], table, outerKey)
    ensures LoopRows(os, ns, KeysEqual(outerKey, innerKey))
         == Matches(ns, os[0], KeysEqual(outerKey, innerKey)) + LoopRows(os[1..], ns, KeysEqual(outerKey, innerKey))
  {
  }

  lemma DiffersInFirst(os: seq<TupleSlot>, ns: seq<TupleSlot>, outerKey: KeyExtractor, innerKey: KeyExtractor, n: nat, table: seq<HashEntry>)
    requires os != [] && multiset(table) == multiset(Entries(ns, innerKey))
    requires n < |Matches(ns, os[0], KeysEqual(outerKey, innerKey))|
    requires multiset(Take(Bucket(table, os[0], outerKey(os[0])), n)) != multiset(Take(Matches(ns, os[0], KeysEqual(outerKey, innerKey)), n))
    ensures Differs(os, ns, outerKey, innerKey, n, table)
  {
    ProbeIsPair(ns, outerKey, innerKey, table, os[0]);
    JoinsOfFirst(os, ns, outerKey, innerKey, table);
    TakenFromBoth(Bucket(table, os[0], outerKey(os[0])), Matches(ns, os[0], KeysEqual(outerKey, innerKey)),
                  ProbeRows(os[1..], table, outerKey), LoopRows(os[1..], ns, KeysEqual(outerKey, innerKey)), n);
  }

  lemma DiffersInRest(os: seq<TupleSlot>, ns: seq<TupleSlot>, outerKey: KeyExtractor, innerKey: KeyExtractor,
                      n: nat, rest: nat, table: seq<HashEntry>)
    requires CutsRest(os, ns, outerKey, innerKey, n, rest) && multiset(table) == multiset(Entries(ns, innerKey))
    requires Differs(os[1..], ns, outerKey, innerKey, rest, table)
    ensures Differs(os, ns, outerKey, innerKey, n, table)
  {
    ProbeIsPair(ns, outerKey, innerKey, table, os[0]);
    JoinsOfFirst(os, ns, outerKey, innerKey, table);
    TakenFromBoth(Bucket(table, os[0], outerKey(os[0])), Matches(ns, os[0], KeysEqual(outerKey, innerKey)),
                  ProbeRows(os[1..], table, outerKey), LoopRows(os[1..], ns, KeysEqual(outerKey, innerKey)), n);
  }

  /** The cut falls into the matches of the first outer row, or behind them. */
  ghost predicate CutsFirst(os: seq<TupleSlot>, ns: seq<TupleSlot>, outerKey: KeyExtractor, innerKey: KeyExtractor, n: nat) {
    && os != [] && 0 < n < |Matches(ns, os[0], KeysEqual(outerKey, innerKey))|
    && !AllSame(Matches(ns, os[0], KeysEqual(outerKey, innerKey)))
  }

  ghost predicate CutsRest(os: seq<TupleSlot>, ns: seq<TupleSlot>, outerKey: KeyExtractor, innerKey: KeyExtractor, n: nat, rest: nat) {
    && os != [] && n == rest + |Matches(ns, os[0], KeysEqual(outerKey, innerKey))|
    && !HarmlessCut(os[1..], ns, outerKey, innerKey, rest)
  }

  lemma WhereItCuts(os: seq<TupleSlot>, ns: seq<TupleSlot>, outerKey: KeyExtractor, innerKey: KeyExtractor, n: nat) returns (rest: nat)
    requires !HarmlessCut(os, ns, outerKey, innerKey, n)
    ensures CutsFirst(os, ns, outerKey, innerKey, n) || CutsRest(os, ns, outerKey, innerKey, n, rest)
  {
    var matches := Matches(ns, os[0], KeysEqual(outerKey, innerKey));
    rest := if n >= |matches| then n - |matches| else 0;
  }

  lemma FirstDiffers(os: seq<TupleSlot>, ns: seq<TupleSlot>, outerKey: KeyExtractor, innerKey: KeyExtractor, n: nat)
      returns (place: Placement, table: seq<HashEntry>)
    requires CutsFirst(os, ns, outerKey, innerKey, n)
    ensures table == HashTable(ns, innerKey, place) && multiset(table) == multiset(Entries(ns, innerKey))
    ensures Differs(os, ns, outerKey, innerKey, n, table)
  {
    place, table := BucketsDiffer(ns, os[0], outerKey, innerKey, n);
    DiffersInFirst(os, ns, outerKey, innerKey, n, table);
  }

  lemma {:induction false} HarmfulMeansDifferent(os: seq<TupleSlot>, ns: seq<TupleSlot>, outerKey: KeyExtractor, innerKey: KeyExtractor, n: nat)
      returns (place: Placement, table: seq<HashEntry>)
    requires !HarmlessCut(os, ns, outerKey, innerKey, n)
    ensures table == HashTable(ns, innerKey, place) && multiset(table) == multiset(Entries(ns, innerKey))
    ensures Differs(os, ns, outerKey, innerKey, n, table)
  {
    var rest := WhereItCuts(os, ns, outerKey, innerKey, n);
    if CutsFirst(os, ns, outerKey, innerKey, n) {
      place, table := FirstDiffers(os, ns, outerKey, innerKey, n);
    } else {
      place, table := HarmfulMeansDifferent(os[1..], ns, outerKey, innerKey, rest);
      DiffersInRest(os, ns, outerKey, innerKey, n, rest, table);
    }
  }

  // ---- the exact condition ----------------------------------------------------------

  /** With this placement a LIMIT above the hash join lets the rows through that it lets through above the
      nested loop, each as often. */
  ghost predicate LimitAgrees(outer: Plan, inner: Plan, outerKey: KeyExtractor, innerKey: KeyExtractor, count: nat, place: Placement) {
    multiset(Rows(Limit(HashJoin(outer, inner, outerKey, innerKey, place), count, 0)))
      == multiset(Rows(Limit(NestedLoop(outer, inner, KeysEqual(outerKey, innerKey)), count, 0)))
  }

  lemma LimitTakes(child: Plan, count: nat)
    ensures Rows(Limit(child, count, 0)) == Take(Rows(child), count)
  {
    assert Drop(Rows(child), 0) == Rows(child);
  }

  lemma LimitTakesJoin(outer: Plan, inner: Plan, outerKey: KeyExtractor, innerKey: KeyExtractor, count: nat, place: Placement)
    ensures LimitAgrees(outer, inner, outerKey, innerKey, count, place)
      <==> !Differs(Rows(outer), Rows(inner), outerKey, innerKey, count, HashTable(Rows(inner), innerKey, place))
  {
    var hash, loop := HashJoin(outer, inner, outerKey, innerKey, place), NestedLoop(outer, inner, KeysEqual(outerKey, innerKey));
    LimitTakes(hash, count);
    LimitTakes(loop, count);
    assert Rows(hash) == ProbeRows(Rows(outer), HashTable(Rows(inner), innerKey, place), outerKey);
    assert Rows(loop) == LoopRows(Rows(outer), Rows(inner), KeysEqual(outerKey, innerKey));
  }

  /** A LIMIT above a hash join lets the same rows through as above the nested loop, whatever order the
      hash table keeps, exactly when its cut is harmless. */
  lemma LimitAgreesExactlyWhen(outer: Plan, inner: Plan, outerKey: KeyExtractor, innerKey: KeyExtractor, count: nat)
    ensures (forall place: Placement :: LimitAgrees(outer, inner, outerKey, innerKey, count, place))
      <==> HarmlessCut(Rows(outer), Rows(inner), outerKey, innerKey, count)
  {
    if HarmlessCut(Rows(outer), Rows(inner), outerKey, innerKey, count) {
      forall place: Placement ensures LimitAgrees(outer, inner, outerKey, innerKey, count, place) {
        TableHoldsEntries(Rows(inner), innerKey, place);
        HarmlessMeansSame(Rows(outer), Rows(inner), outerKey, innerKey, HashTable(Rows(inner), innerKey, place), count);
        LimitTakesJoin(outer, inner, outerKey, innerKey, count, place);
      }
    } else {
      var place, table := HarmfulMeansDifferent(Rows(outer), Rows(inner), outerKey, innerKey, count);
      LimitTakesJoin(outer, inner, outerKey, innerKey, count, place);
    }
  }

  // ---- a plan whose rows the hash table decides ---------------------------------------

  const ONE_KEY: KeyExtractor := (row: TupleSlot) => 0

  lemma PairMatches(o: TupleSlot, a: TupleSlot, b: TupleSlot)
    ensures Matches([a, b], o, KeysEqual(ONE_KEY, ONE_KEY)) == [Joined(o, a.ctid, a.tuple), Joined(o, b.ctid, b.tuple)]
  {
    assert [a, b][1..] == [b] && [b][1..] == [];
    assert Matches([], o, KeysEqual(ONE_KEY, ONE_KEY)) == [];
    assert Matches([b], o, KeysEqual(ONE_KEY, ONE_KEY)) == [Joined(o, b.ctid, b.tuple)];
  }

  /** Any relation of two different rows, joined with itself on a constant, under LIMIT 1. */
  lemma LimitDependsOnHashOrder(scan: Plan) returns (place: Placement)
    requires |Rows(scan)| == 2 && Rows(scan)[0].ctid != Rows(scan)[1].ctid
    ensures !LimitAgrees(scan, scan, ONE_KEY, ONE_KEY, 1, place)
  {
    var rows := Rows(scan);
    assert rows == [rows[0], rows[1]];
    PairMatches(rows[0], rows[0], rows[1]);
    var matches := Matches(rows, rows[0], KeysEqual(ONE_KEY, ONE_KEY));
    assert |matches| == 2 && matches[0].inner == Some((rows[0].ctid, rows[0].tuple)) != matches[1].inner;
    assert !AllSame(matches);
    assert !HarmlessCut(rows, rows, ONE_KEY, ONE_KEY, 1);
    var p, table := HarmfulMeansDifferent(rows, rows, ONE_KEY, ONE_KEY, 1);
    place := p;
    LimitTakesJoin(scan, scan, ONE_KEY, ONE_KEY, 1, place);
  }

  /** Such a relation: one page with two rows that their creator sees. */
  lemma TwoRows() returns (scan: Plan)
    ensures scan.SeqScan? && |Rows(scan)| == 2 && Rows(scan)[0].ctid != Rows(scan)[1].ctid
  {
    var t := HeapTuple(TupleHeader(1, 0, Ctid(0, 1), false, false, false), 7, 0);
    var page: HeapPage := [Normal(t), Normal(t)];
    var snap, tm := Snapshot(1, 1, 2, {}), State(2, None, map[0 := Committed], {1}, map[]);
    assert IsTupleVisible(t.header, snap, tm);
    assert PageRows(page, 0, 2, snap, tm) == [];
    assert PageRows(page, 0, 1, snap, tm) == [(Ctid(0, 2), t)];
    assert PageRows(page, 0, 0, snap, tm) == [(Ctid(0, 1), t), (Ctid(0, 2), t)];
    assert VisibleRows([page], 1, snap, tm) == [];
    scan := SeqScan([page], snap, tm);
    var rows := VisibleRows([page], 0, snap, tm);
    assert rows == [(Ctid(0, 1), t), (Ctid(0, 2), t)];
    assert rows[1..] == [(Ctid(0, 2), t)];
    assert AsSlots(rows) == [TupleSlot(Ctid(0, 1), t, None)] + AsSlots(rows[1..]);
  }
}
