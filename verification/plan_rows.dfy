/** What the rows of a plan are, column by column (src/executor.cpp, include/pg/executor.h lines 35-47): which rows
    a filter, a limit, a join or a scan hands out, from which inputs, how often and in which order. */
module PlanRows {
  import opened StorageTypes
  import opened Transactions
  import opened Heap
  import opened Plans
  import opened Positions
  import V = VacuumTheory
  import M = MultimapIndex

  // ---- joins --------------------------------------------------------------------

  /** Which outer and which inner row, by position. */
  datatype Pair = Pair(o: nat, i: nat)

  /** The columns of a joined row: the outer row's own, then the inner row's own. */
  predicate HasColumns(row: TupleSlot, o: TupleSlot, i: TupleSlot) {
    row.ctid == o.ctid && row.tuple == o.tuple && row.inner == Some((i.ctid, i.tuple))
  }

  ghost predicate JoinsPair(row: TupleSlot, os: seq<TupleSlot>, ns: seq<TupleSlot>, p: Pair) {
    p.o < |os| && p.i < |ns| && HasColumns(row, os[p.o], ns[p.i])
  }

  /** Outer-major order. */
  ghost predicate Earlier(p: Pair, q: Pair) {
    p.o < q.o || (p.o == q.o && p.i < q.i)
  }

  ghost predicate PairsAscend(pairs: seq<Pair>, a: nat, b: nat) {
    a < |pairs| && b < |pairs| && Earlier(pairs[a], pairs[b])
  }

  /** Row k is made from pair k; the pairs are all that satisfy the predicate, each once, in outer-major order. */
  ghost predicate IsJoin(rows: seq<TupleSlot>, os: seq<TupleSlot>, ns: seq<TupleSlot>, joinPred: JoinPredicate, pairs: seq<Pair>) {
    && |pairs| == |rows|
    && (forall k :: 0 <= k < |rows| ==> JoinsPair(rows[k], os, ns, pairs[k]) && joinPred(os[pairs[k].o], ns[pairs[k].i]))
    && (forall a, b :: 0 <= a < b < |pairs| ==> PairsAscend(pairs, a, b))
    && (forall o: nat, i: nat :: o < |os| && i < |ns| && joinPred(os[o], ns[i]) ==> Pair(o, i) in pairs)
  }

  /** The same for the matches of one outer row: which inner rows, in order. */
  ghost predicate IsMatches(rows: seq<TupleSlot>, ns: seq<TupleSlot>, o: TupleSlot, joinPred: JoinPredicate, at: seq<nat>) {
    && |at| == |rows|
    && (forall k :: 0 <= k < |rows| ==> at[k] < |ns| && joinPred(o, ns[at[k]]) && HasColumns(rows[k], o, ns[at[k]]))
    && Ascending(at)
    && (forall i :: 0 <= i < |ns| && joinPred(o, ns[i]) ==> i in at)
  }

  lemma {:induction false} MatchesAre(ns: seq<TupleSlot>, o: TupleSlot, joinPred: JoinPredicate) returns (at: seq<nat>)
    ensures IsMatches(Matches(ns, o, joinPred), ns, o, joinPred, at)
  {
    if ns == [] {
      at := [];
    } else {
      var tail := MatchesAre(ns[1..], o, joinPred);
      at := ConsPositions(tail, joinPred(o, ns[0]));
      forall i | 0 <= i < |ns| && joinPred(o, ns[i]) ensures i in at {
        assert i > 0 ==> ns[1..][i - 1] == ns[i];
      }
    }
  }

  function PairsOf(at: seq<nat>): (pairs: seq<Pair>)
    ensures |pairs| == |at| && forall k :: 0 <= k < |at| ==> pairs[k] == Pair(0, at[k])
  {
    seq(|at|, k requires 0 <= k < |at| => Pair(0, at[k]))
  }

  function Behind(pairs: seq<Pair>): (s: seq<Pair>)
    ensures |s| == |pairs| && forall k :: 0 <= k < |pairs| ==> s[k] == Pair(pairs[k].o + 1, pairs[k].i)
  {
    seq(|pairs|, k requires 0 <= k < |pairs| => Pair(pairs[k].o + 1, pairs[k].i))
  }

  lemma PairsAscendJoined(at: seq<nat>, pairs: seq<Pair>)
    requires Ascending(at)
    requires forall a, b :: 0 <= a < b < |pairs| ==> PairsAscend(pairs, a, b)
    ensures var all := PairsOf(at) + Behind(pairs); forall a, b :: 0 <= a < b < |all| ==> PairsAscend(all, a, b)
  {
    var all := PairsOf(at) + Behind(pairs);
    forall a, b | 0 <= a < b < |all| ensures PairsAscend(all, a, b) {
      if b < |at| {
        assert Ascends(at, a, b);
      } else if a >= |at| {
        assert PairsAscend(pairs, a - |at|, b - |at|);
      }
    }
  }

  lemma AllPairs(os: seq<TupleSlot>, ns: seq<TupleSlot>, joinPred: JoinPredicate, at: seq<nat>, pairs: seq<Pair>)
    requires os != [] && forall i :: 0 <= i < |ns| && joinPred(os[0], ns[i]) ==> i in at
    requires forall o: nat, i: nat :: o < |os[1..]| && i < |ns| && joinPred(os[1..][o], ns[i]) ==> Pair(o, i) in pairs
    ensures forall o: nat, i: nat :: o < |os| && i < |ns| && joinPred(os[o], ns[i]) ==> Pair(o, i) in PairsOf(at) + Behind(pairs)
  {
    forall o: nat, i: nat | o < |os| && i < |ns| && joinPred(os[o], ns[i]) ensures Pair(o, i) in PairsOf(at) + Behind(pairs) {
      if o == 0 {
        var k :| 0 <= k < |at| && at[k] == i;
        assert PairsOf(at)[k] == Pair(o, i);
      } else {
        assert os[1..][o - 1] == os[o];
        var k :| 0 <= k < |pairs| && pairs[k] == Pair(o - 1, i);
        assert Behind(pairs)[k] == Pair(o, i);
      }
    }
  }

  /** The rows of a nested loop: one for each pair of positions that satisfies the predicate, in outer-major order,
      each with the outer row's columns first and the inner row's columns second. */
  lemma {:induction false} LoopRowsAre(os: seq<TupleSlot>, ns: seq<TupleSlot>, joinPred: JoinPredicate) returns (pairs: seq<Pair>)
    ensures IsJoin(LoopRows(os, ns, joinPred), os, ns, joinPred, pairs)
  {
    if os == [] {
      pairs := [];
    } else {
      var at := MatchesAre(ns, os[0], joinPred);
      var tail := LoopRowsAre(os[1..], ns, joinPred);
      pairs := PairsOf(at) + Behind(tail);
      PairsAscendJoined(at, tail);
      AllPairs(os, ns, joinPred, at, tail);
      RowsOfPairs(Matches(ns, os[0], joinPred), LoopRows(os[1..], ns, joinPred), os, ns, joinPred, at, tail);
    }
  }

  lemma RowsOfPairs(first: seq<TupleSlot>, rest: seq<TupleSlot>, os: seq<TupleSlot>, ns: seq<TupleSlot>, joinPred: JoinPredicate,
                    at: seq<nat>, tail: seq<Pair>)
    requires os != [] && IsMatches(first, ns, os[0], joinPred, at) && IsJoin(rest, os[1..], ns, joinPred, tail)
    ensures var rows, pairs := first + rest, PairsOf(at) + Behind(tail);
      |pairs| == |rows| && forall k :: 0 <= k < |rows| ==> JoinsPair(rows[k], os, ns, pairs[k]) && joinPred(os[pairs[k].o], ns[pairs[k].i])
  {
    var rows, pairs := first + rest, PairsOf(at) + Behind(tail);
    forall k | 0 <= k < |rows| ensures JoinsPair(rows[k], os, ns, pairs[k]) && joinPred(os[pairs[k].o], ns[pairs[k].i]) {
      if k >= |first| {
        assert JoinsPair(rest[k - |first|], os[1..], ns, tail[k - |first|]);
      }
    }
  }

  /** What a nested loop plan yields. */
  lemma NestedLoopRowsAre(p: Plan) returns (pairs: seq<Pair>)
    requires p.NestedLoop?
    ensures IsJoin(Rows(p), Rows(p.outer), Rows(p.inner), p.joinPred, pairs)
  {
    pairs := LoopRowsAre(Rows(p.outer), Rows(p.inner), p.joinPred);
  }

  /** A hash join yields such rows for the pairs with equal keys, each as often, in some order. */
  lemma HashJoinRowsAre(p: Plan) returns (sorted: seq<TupleSlot>, pairs: seq<Pair>)
    requires p.HashJoin?
    ensures multiset(Rows(p)) == multiset(sorted)
    ensures IsJoin(sorted, Rows(p.outer), Rows(p.inner), (o: TupleSlot, i: TupleSlot) => p.outerKey(o) == p.innerKey(i), pairs)
  {
    HashJoinIsNestedLoop(p);
    sorted := LoopRows(Rows(p.outer), Rows(p.inner), KeysEqual(p.outerKey, p.innerKey));
    pairs := LoopRowsAre(Rows(p.outer), Rows(p.inner), KeysEqual(p.outerKey, p.innerKey));
  }

  /** Membership: a row is handed out by a nested loop exactly when it is made from an outer and an inner row
      that satisfy the predicate. */
  lemma NestedLoopRowExactlyWhen(p: Plan, row: TupleSlot)
    requires p.NestedLoop?
    ensures row in Rows(p) <==>
      exists o, i :: o in Rows(p.outer) && i in Rows(p.inner) && p.joinPred(o, i) && HasColumns(row, o, i)
  {
    var pairs := NestedLoopRowsAre(p);
    JoinRowExactlyWhen(Rows(p), Rows(p.outer), Rows(p.inner), p.joinPred, pairs, row);
  }

  lemma HashJoinRowExactlyWhen(p: Plan, row: TupleSlot)
    requires p.HashJoin?
    ensures row in Rows(p) <==>
      exists o, i :: o in Rows(p.outer) && i in Rows(p.inner) && p.outerKey(o) == p.innerKey(i) && HasColumns(row, o, i)
  {
    var sorted, pairs := HashJoinRowsAre(p);
    assert row in multiset(Rows(p)) <==> row in multiset(sorted);
    var keys: JoinPredicate := (o: TupleSlot, i: TupleSlot) => p.outerKey(o) == p.innerKey(i);
    JoinRowExactlyWhen(sorted, Rows(p.outer), Rows(p.inner), keys, pairs, row);
  }

  lemma JoinRowExactlyWhen(rows: seq<TupleSlot>, os: seq<TupleSlot>, ns: seq<TupleSlot>, joinPred: JoinPredicate, pairs: seq<Pair>, row: TupleSlot)
    requires IsJoin(rows, os, ns, joinPred, pairs)
    ensures row in rows <==> exists o, i :: o in os && i in ns && joinPred(o, i) && HasColumns(row, o, i)
  {
    if row in rows {
      var k :| 0 <= k < |rows| && rows[k] == row;
      assert JoinsPair(rows[k], os, ns, pairs[k]) && joinPred(os[pairs[k].o], ns[pairs[k].i]);
    }
    if o, i :| o in os && i in ns && joinPred(o, i) && HasColumns(row, o, i) {
      var m, n :| 0 <= m < |os| && os[m] == o && 0 <= n < |ns| && ns[n] == i;
      assert Pair(m, n) in pairs;
      var k :| 0 <= k < |pairs| && pairs[k] == Pair(m, n);
      assert JoinsPair(rows[k], os, ns, pairs[k]);
    }
  }

  // ---- filters, limits ------------------------------------------------------------

  /** A filter hands out the rows that pass, in their order, each once for each time it came. */
  ghost predicate IsSelection(rows: seq<TupleSlot>, from: seq<TupleSlot>, pred: Predicate, at: seq<nat>) {
    && |at| == |rows|
    && (forall k :: 0 <= k < |rows| ==> at[k] < |from| && rows[k] == from[at[k]] && pred(rows[k]))
    && Ascending(at)
    && (forall i :: 0 <= i < |from| && pred(from[i]) ==> i in at)
  }

  lemma SelectionAt(rest: seq<TupleSlot>, from: seq<TupleSlot>, pred: Predicate, tail: seq<nat>, at: seq<nat>)
    requires from != [] && IsSelection(rest, from[1..], pred, tail) && at == (if pred(from[0]) then [0] else []) + Shifted(tail)
    ensures var rows := (if pred(from[0]) then [from[0]] else []) + rest;
      |at| == |rows| && forall k :: 0 <= k < |rows| ==> at[k] < |from| && rows[k] == from[at[k]] && pred(rows[k])
  {
    var d := if pred(from[0]) then 1 else 0;
    var rows := (if pred(from[0]) then [from[0]] else []) + rest;
    forall k | 0 <= k < |rows| ensures at[k] < |from| && rows[k] == from[at[k]] && pred(rows[k]) {
      if k >= d {
        assert rows[k] == rest[k - d] && at[k] == tail[k - d] + 1;
      }
    }
  }

  lemma SelectionAll(from: seq<TupleSlot>, pred: Predicate, tail: seq<nat>, at: seq<nat>)
    requires from != [] && (pred(from[0]) ==> 0 in at) && forall i :: i in tail ==> i + 1 in at
    requires forall i :: 0 <= i < |from[1..]| && pred(from[1..][i]) ==> i in tail
    ensures forall i :: 0 <= i < |from| && pred(from[i]) ==> i in at
  {
    forall i | 0 <= i < |from| && pred(from[i]) ensures i in at {
      if i > 0 {
        assert from[1..][i - 1] == from[i];
        assert i - 1 in tail;
      }
    }
  }

  lemma {:induction false} FilterRowsAre(from: seq<TupleSlot>, pred: Predicate) returns (at: seq<nat>)
    ensures IsSelection(Select(from, pred), from, pred, at)
  {
    if from == [] {
      at := [];
    } else {
      var tail := FilterRowsAre(from[1..], pred);
      at := ConsPositions(tail, pred(from[0]));
      SelectionAt(Select(from[1..], pred), from, pred, tail, at);
      SelectionAll(from, pred, tail, at);
    }
  }

  /** A limit hands out the rows from the offset on, at most so many. */
  lemma LimitRowsAre(p: Plan)
    requires p.Limit?
    ensures |Rows(p)| == (if |Rows(p.child)| <= p.offset then 0
                          else if |Rows(p.child)| - p.offset < p.count then |Rows(p.child)| - p.offset else p.count)
    ensures forall k :: 0 <= k < |Rows(p)| ==> Rows(p)[k] == Rows(p.child)[p.offset + k]
  {
  }

  // ---- scans --------------------------------------------------------------------------

  ghost predicate IsVisibleRow(row: (Ctid, HeapTuple), pages: seq<HeapPage>, snap: Snapshot, tm: State) {
    && row.0.page < |pages| && ValidSlot(pages[row.0.page], row.0.slot)
    && pages[row.0.page][row.0.slot - 1] == Normal(row.1) && IsTupleVisible(row.1.header, snap, tm)
  }

  ghost predicate ScanOrder(rows: seq<(Ctid, HeapTuple)>, a: nat, b: nat) {
    && a < |rows| && b < |rows|
    && (rows[a].0.page < rows[b].0.page || (rows[a].0.page == rows[b].0.page && rows[a].0.slot < rows[b].0.slot))
  }

  lemma {:induction false} PageRowsAre(pages: seq<HeapPage>, pid: PageId, from: nat, snap: Snapshot, tm: State)
    requires pid < |pages|
    ensures var rows := PageRows(pages[pid], pid, from, snap, tm);
      && (forall row :: row in rows <==> row.0.page == pid && from < row.0.slot && IsVisibleRow(row, pages, snap, tm))
      && (forall a, b :: 0 <= a < b < |rows| ==> ScanOrder(rows, a, b))
    decreases |pages[pid]| - from
  {
    if from < |pages[pid]| {
      PageRowsAre(pages, pid, from + 1, snap, tm);
      var rows, rest := PageRows(pages[pid], pid, from, snap, tm), PageRows(pages[pid], pid, from + 1, snap, tm);
      forall a, b | 0 <= a < b < |rows| ensures ScanOrder(rows, a, b) {
        if rows == rest {
          assert ScanOrder(rest, a, b);
        } else {
          assert rows[1..] == rest && rows[b] in rest;
          assert a > 0 ==> ScanOrder(rest, a - 1, b - 1);
        }
      }
    }
  }

  /** A sequential scan hands out exactly the visible rows, each once, by page and slot. */
  lemma {:induction false} SeqScanRowsAre(pages: seq<HeapPage>, from: nat, snap: Snapshot, tm: State)
    ensures var rows := VisibleRows(pages, from, snap, tm);
      && (forall row :: row in rows <==> from <= row.0.page && IsVisibleRow(row, pages, snap, tm))
      && (forall a, b :: 0 <= a < b < |rows| ==> ScanOrder(rows, a, b))
    decreases |pages| - from
  {
    if from < |pages| {
      SeqScanRowsAre(pages, from + 1, snap, tm);
      PageRowsAre(pages, from, 0, snap, tm);
      var first, rest := PageRows(pages[from], from, 0, snap, tm), VisibleRows(pages, from + 1, snap, tm);
      ScansJoined(first, rest);
    }
  }

  lemma ScansJoined(first: seq<(Ctid, HeapTuple)>, rest: seq<(Ctid, HeapTuple)>)
    requires forall a, b :: 0 <= a < b < |first| ==> ScanOrder(first, a, b)
    requires forall a, b :: 0 <= a < b < |rest| ==> ScanOrder(rest, a, b)
    requires forall x, y :: x in first && y in rest ==> x.0.page < y.0.page
    ensures forall a, b :: 0 <= a < b < |first + rest| ==> ScanOrder(first + rest, a, b)
  {
    forall a, b | 0 <= a < b < |first + rest| ensures ScanOrder(first + rest, a, b) {
      if b < |first| {
        assert ScanOrder(first, a, b);
      } else if a >= |first| {
        assert ScanOrder(rest, a - |first|, b - |first|);
      } else {
        assert first[a] in first && rest[b - |first|] in rest;
      }
    }
  }

  ghost predicate NotTwice(rows: seq<(Ctid, HeapTuple)>, a: nat, b: nat) {
    a < |rows| && b < |rows| && rows[a].0 != rows[b].0
  }

  lemma FirstNotTwice(first: (Ctid, HeapTuple), rest: seq<(Ctid, HeapTuple)>)
    requires (forall row :: row in rest ==> row.0 != first.0) && forall a, b :: 0 <= a < b < |rest| ==> NotTwice(rest, a, b)
    ensures forall a, b :: 0 <= a < b < |[first] + rest| ==> NotTwice([first] + rest, a, b)
  {
    forall a, b | 0 <= a < b < |[first] + rest| ensures NotTwice([first] + rest, a, b) {
      assert rest[b - 1] in rest;
      assert a > 0 ==> NotTwice(rest, a - 1, b - 1);
    }
  }

  /** Row k is what hot_search finds from candidate at[k]. */
  ghost predicate HitsAt(rows: seq<(Ctid, HeapTuple)>, ctids: seq<Ctid>, at: seq<nat>, pages: seq<HeapPage>, snap: Snapshot, tm: State) {
    && Ascending(at) && |at| == |rows|
    && forall k :: 0 <= k < |rows| ==> at[k] < |ctids| && HotResult(pages, ctids[at[k]], snap, tm) == Some(rows[k])
  }

  lemma HitsCons(rest: seq<(Ctid, HeapTuple)>, ctids: seq<Ctid>, tail: seq<nat>, here: bool, pages: seq<HeapPage>, snap: Snapshot, tm: State)
      returns (at: seq<nat>)
    requires ctids != [] && HitsAt(rest, ctids[1..], tail, pages, snap, tm)
    requires here ==> HotResult(pages, ctids[0], snap, tm).Some?
    ensures HitsAt((if here then [HotResult(pages, ctids[0], snap, tm).value] else []) + rest, ctids, at, pages, snap, tm)
  {
    at := ConsPositions(tail, here);
  }

  lemma {:induction false} HitsInOrder(ctids: seq<Ctid>, visited: seq<Ctid>, pages: seq<HeapPage>, snap: Snapshot, tm: State) returns (at: seq<nat>)
    ensures HitsAt(V.ScanHits(ctids, visited, pages, snap, tm), ctids, at, pages, snap, tm)
  {
    if ctids == [] {
      at := [];
    } else {
      var hit := HotResult(pages, ctids[0], snap, tm);
      var isNew := hit.Some? && hit.value.0 !in visited;
      var seen := if isNew then visited + [hit.value.0] else visited;
      var tail := HitsInOrder(ctids[1..], seen, pages, snap, tm);
      at := HitsCons(V.ScanHits(ctids[1..], seen, pages, snap, tm), ctids, tail, isNew, pages, snap, tm);
    }
  }

  lemma {:induction false} HitsOnce(ctids: seq<Ctid>, visited: seq<Ctid>, pages: seq<HeapPage>, snap: Snapshot, tm: State)
    ensures var rows := V.ScanHits(ctids, visited, pages, snap, tm);
      && (forall row :: row in rows ==> row.0 !in visited)
      && (forall a, b :: 0 <= a < b < |rows| ==> NotTwice(rows, a, b))
  {
    if ctids != [] {
      var hit := HotResult(pages, ctids[0], snap, tm);
      if hit.Some? && hit.value.0 !in visited {
        HitsOnce(ctids[1..], visited + [hit.value.0], pages, snap, tm);
        FirstNotTwice(hit.value, V.ScanHits(ctids[1..], visited + [hit.value.0], pages, snap, tm));
      } else {
        HitsOnce(ctids[1..], visited, pages, snap, tm);
      }
    }
  }

  lemma {:induction false} HitsAll(ctids: seq<Ctid>, visited: seq<Ctid>, pages: seq<HeapPage>, snap: Snapshot, tm: State, n: nat)
    requires n < |ctids| && HotResult(pages, ctids[n], snap, tm).Some?
    ensures var hit := HotResult(pages, ctids[n], snap, tm).value;
      hit.0 in visited || exists row :: row in V.ScanHits(ctids, visited, pages, snap, tm) && row.0 == hit.0
  {
    var hit := HotResult(pages, ctids[0], snap, tm);
    var isNew := hit.Some? && hit.value.0 !in visited;
    var seen := if isNew then visited + [hit.value.0] else visited;
    if n > 0 {
      HitsAll(ctids[1..], seen, pages, snap, tm, n - 1);
      var rows, rest := V.ScanHits(ctids, visited, pages, snap, tm), V.ScanHits(ctids[1..], seen, pages, snap, tm);
      assert rows == (if isNew then [hit.value] else []) + rest;
      if isNew {
        assert hit.value in rows;
      }
    } else if isNew {
      assert V.ScanHits(ctids, visited, pages, snap, tm)[0] == hit.value;
    }
  }

  /** An index scan hands out, in the order of the candidates, what hot_search finds from them: every version that
      is found, and none twice. */
  lemma IndexScanRowsAre(ctids: seq<Ctid>, pages: seq<HeapPage>, snap: Snapshot, tm: State) returns (at: seq<nat>)
    ensures var rows := V.ScanHits(ctids, [], pages, snap, tm);
      && HitsAt(rows, ctids, at, pages, snap, tm)
      && (forall a, b :: 0 <= a < b < |rows| ==> NotTwice(rows, a, b))
      && (forall n :: 0 <= n < |ctids| && HotResult(pages, ctids[n], snap, tm).Some? ==>
            exists row :: row in rows && row.0 == HotResult(pages, ctids[n], snap, tm).value.0)
  {
    at := HitsInOrder(ctids, [], pages, snap, tm);
    HitsOnce(ctids, [], pages, snap, tm);
    forall n | 0 <= n < |ctids| && HotResult(pages, ctids[n], snap, tm).Some?
      ensures exists row :: row in V.ScanHits(ctids, [], pages, snap, tm) && row.0 == HotResult(pages, ctids[n], snap, tm).value.0 {
      HitsAll(ctids, [], pages, snap, tm, n);
    }
  }

  /** index_lookup answers with the first candidate from which hot_search finds a version. */
  lemma {:induction false} LookupIs(ctids: seq<Ctid>, pages: seq<HeapPage>, snap: Snapshot, tm: State) returns (i: nat)
    ensures i <= |ctids| && forall k :: 0 <= k < i ==> HotResult(pages, ctids[k], snap, tm) == None
    ensures V.FirstHit(ctids, pages, snap, tm) == if i < |ctids| then HotResult(pages, ctids[i], snap, tm) else None
    ensures i < |ctids| ==> HotResult(pages, ctids[i], snap, tm).Some?
  {
    if ctids == [] || HotResult(pages, ctids[0], snap, tm).Some? {
      i := 0;
    } else {
      var rest := LookupIs(ctids[1..], pages, snap, tm);
      i := rest + 1;
      forall k | 0 <= k < i ensures HotResult(pages, ctids[k], snap, tm) == None {
        assert k > 0 ==> ctids[1..][k - 1] == ctids[k];
      }
    }
  }

  /** A scan's rows as slots: no inner columns. */
  lemma {:induction false} SlotsAre(rows: seq<(Ctid, HeapTuple)>)
    ensures |AsSlots(rows)| == |rows|
    ensures forall k :: 0 <= k < |rows| ==> AsSlots(rows)[k] == TupleSlot(rows[k].0, rows[k].1, None)
  {
    if rows != [] {
      SlotsAre(rows[1..]);
    }
  }
}
