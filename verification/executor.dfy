/** The demand-driven executor (src/executor.cpp): plan nodes with cursors, each answering Init and
    Next. A node's inputs are row sources that replay their rows on every Init; the node then keeps
    the same promise about the rows its plan means. */
module Executor {
  import opened StorageTypes
  import opened Transactions
  import opened Heap
  import opened Plans
  import M = MultimapIndex
  import V = VacuumTheory

  // ---- counting what has been handed out ----------------------------------

  /** How many rows the first k inputs turn into. */
  function Emitted<X, Y>(xs: seq<X>, f: X -> seq<Y>, k: nat): nat
    requires k <= |xs|
  {
    if k == 0 then 0 else Emitted(xs, f, k - 1) + |f(xs[k - 1])|
  }

  /** Row j made from input k stands where the counts say. */
  lemma {:induction false} RowAt<X, Y>(xs: seq<X>, f: X -> seq<Y>, k: nat, j: nat)
    requires k < |xs| && j < |f(xs[k])|
    ensures Emitted(xs, f, k) + j < |FlatMap(xs, f)| && FlatMap(xs, f)[Emitted(xs, f, k) + j] == f(xs[k])[j]
  {
    if k == 0 {
    } else {
      RowAt(xs[1..], f, k - 1, j);
      EmittedTail(xs, f, k);
    }
  }

  lemma {:induction false} EmittedTail<X, Y>(xs: seq<X>, f: X -> seq<Y>, k: nat)
    requires 0 < k <= |xs|
    ensures Emitted(xs, f, k) == |f(xs[0])| + Emitted(xs[1..], f, k - 1)
  {
    if k > 1 {
      EmittedTail(xs, f, k - 1);
    }
  }

  lemma {:induction false} EmittedAll<X, Y>(xs: seq<X>, f: X -> seq<Y>)
    ensures Emitted(xs, f, |xs|) == |FlatMap(xs, f)|
  {
    if xs != [] {
      EmittedAll(xs[1..], f);
      EmittedTail(xs, f, |xs|);
    }
  }

  /** `rest` is what is still to come of `rows` once `done` of them are out. */
  ghost predicate ToCome<X>(rows: seq<X>, done: nat, rest: seq<X>) {
    |rows| == done + |rest| && forall j :: 0 <= j < |rest| ==> rest[j] == rows[done + j]
  }

  lemma NextIs<X>(rows: seq<X>, done: nat, x: X, tail: seq<X>)
    requires ToCome(rows, done, [x] + tail)
    ensures done < |rows| && rows[done] == x && ToCome(rows, done + 1, tail)
  {
    assert ([x] + tail)[0] == x;
    forall j | 0 <= j < |tail| ensures tail[j] == rows[done + 1 + j] {
      assert ([x] + tail)[1 + j] == tail[j];
    }
  }

  /** What a node that has handed out k of its rows returns next. */
  function RowNo(rows: seq<TupleSlot>, k: nat): Option<TupleSlot> {
    if k < |rows| then Some(rows[k]) else None
  }

  lemma RowNoWithin(a: seq<TupleSlot>, b: seq<TupleSlot>, c: seq<TupleSlot>, j: nat)
    requires j < |b|
    ensures RowNo(a + (b + c), |a| + j) == RowNo(b, j)
  {
  }

  lemma Associates<X>(a: seq<X>, b: seq<X>, c: seq<X>)
    ensures a + b + c == a + (b + c)
  {
  }

  // ---- an input -----------------------------------------------------------

  /** Any plan node, seen from the node above it. */
  class RowSource {
    const rows: seq<TupleSlot>
    var done: nat

    constructor (rows: seq<TupleSlot>)
      ensures this.rows == rows && done == 0
    {
      this.rows, done := rows, 0;
    }

    method Init()
      modifies this
      ensures done == 0
    {
      done := 0;
    }

    method Next() returns (r: Option<TupleSlot>)
      modifies this
      ensures r == RowNo(rows, old(done)) && done == old(done) + (if r.Some? then 1 else 0)
    {
      if done < |rows| {
        r := Some(rows[done]);
        done := done + 1;
      } else {
        r := None;
      }
    }
  }

  // ---- sequential scan ----------------------------------------------------

  lemma {:induction false} SlotAt(rows: seq<(Ctid, HeapTuple)>, k: nat)
    requires k < |rows|
    ensures RowNo(AsSlots(rows), k) == Some(TupleSlot(rows[k].0, rows[k].1, None))
  {
    if k > 0 {
      SlotAt(rows[1..], k - 1);
    }
  }

  lemma {:induction false} AsManySlots(rows: seq<(Ctid, HeapTuple)>)
    ensures |AsSlots(rows)| == |rows|
  {
    if rows != [] {
      AsManySlots(rows[1..]);
    }
  }

  /** How many of the first k slots of a page hold rows the snapshot sees. */
  function PageCount(page: HeapPage, snap: Snapshot, tm: State, k: nat): nat {
    if k == 0 then 0 else PageCount(page, snap, tm, k - 1) + if VisibleAt(page, k, snap, tm) then 1 else 0
  }

  function PagesCount(pages: seq<HeapPage>, snap: Snapshot, tm: State, p: nat): nat
    requires p <= |pages|
  {
    if p == 0 then 0 else PagesCount(pages, snap, tm, p - 1) + PageCount(pages[p - 1], snap, tm, |pages[p - 1]|)
  }

  lemma {:induction false} PageRowAt(page: HeapPage, pid: PageId, from: nat, s: SlotId, snap: Snapshot, tm: State)
    requires from < s && VisibleAt(page, s, snap, tm)
    ensures PageCount(page, snap, tm, from) <= PageCount(page, snap, tm, s - 1)
    ensures RowNo(AsSlots(PageRows(page, pid, from, snap, tm)), PageCount(page, snap, tm, s - 1) - PageCount(page, snap, tm, from))
         == Some(TupleSlot(Ctid(pid, s), page[s - 1].item, None))
    decreases s - from
  {
    if from + 1 < s {
      PageRowAt(page, pid, from + 1, s, snap, tm);
    }
  }

  lemma {:induction false} PageCountAll(page: HeapPage, pid: PageId, from: nat, snap: Snapshot, tm: State)
    requires from <= |page|
    ensures PageCount(page, snap, tm, |page|) == PageCount(page, snap, tm, from) + |PageRows(page, pid, from, snap, tm)|
    decreases |page| - from
  {
    if from < |page| {
      PageCountAll(page, pid, from + 1, snap, tm);
    }
  }

  lemma {:induction false} AsSlotsConcat(a: seq<(Ctid, HeapTuple)>, b: seq<(Ctid, HeapTuple)>)
    ensures AsSlots(a + b) == AsSlots(a) + AsSlots(b)
  {
    if a == [] {
      assert a + b == b;
    } else {
      assert (a + b)[1..] == a[1..] + b;
      AsSlotsConcat(a[1..], b);
    }
  }

  /** What page `from` adds to the scan's output. */
  lemma FirstPageScanned(pages: seq<HeapPage>, from: nat, snap: Snapshot, tm: State)
    requires from < |pages|
    ensures var first := AsSlots(PageRows(pages[from], from, 0, snap, tm));
      && AsSlots(VisibleRows(pages, from, snap, tm)) == first + AsSlots(VisibleRows(pages, from + 1, snap, tm))
      && |first| == PageCount(pages[from], snap, tm, |pages[from]|) == PagesCount(pages, snap, tm, from + 1) - PagesCount(pages, snap, tm, from)
  {
    AsSlotsConcat(PageRows(pages[from], from, 0, snap, tm), VisibleRows(pages, from + 1, snap, tm));
    AsManySlots(PageRows(pages[from], from, 0, snap, tm));
    PageCountAll(pages[from], from, 0, snap, tm);
  }

  ghost predicate IsRow(rows: seq<TupleSlot>, n: int, row: TupleSlot) {
    0 <= n < |rows| && rows[n] == row
  }

  lemma IsRowConcat(a: seq<TupleSlot>, b: seq<TupleSlot>, n: nat, row: TupleSlot)
    ensures IsRow(a, n, row) ==> IsRow(a + b, n, row)
    ensures IsRow(b, n, row) ==> IsRow(a + b, |a| + n, row)
  {
  }

  lemma RowOnFirstPage(pages: seq<HeapPage>, from: nat, s: SlotId, snap: Snapshot, tm: State)
    requires from < |pages| && VisibleAt(pages[from], s, snap, tm)
    ensures IsRow(AsSlots(VisibleRows(pages, from, snap, tm)), PageCount(pages[from], snap, tm, s - 1),
                  TupleSlot(Ctid(from, s), pages[from][s - 1].item, None))
  {
    FirstPageScanned(pages, from, snap, tm);
    PageRowAt(pages[from], from, 0, s, snap, tm);
    IsRowConcat(AsSlots(PageRows(pages[from], from, 0, snap, tm)), AsSlots(VisibleRows(pages, from + 1, snap, tm)),
                PageCount(pages[from], snap, tm, s - 1), TupleSlot(Ctid(from, s), pages[from][s - 1].item, None));
  }

  lemma RowBehindFirstPage(pages: seq<HeapPage>, from: nat, n: nat, row: TupleSlot, snap: Snapshot, tm: State)
    requires from < |pages| && IsRow(AsSlots(VisibleRows(pages, from + 1, snap, tm)), n, row)
    ensures PagesCount(pages, snap, tm, from) <= PagesCount(pages, snap, tm, from + 1)
    ensures IsRow(AsSlots(VisibleRows(pages, from, snap, tm)), PagesCount(pages, snap, tm, from + 1) - PagesCount(pages, snap, tm, from) + n, row)
  {
    FirstPageScanned(pages, from, snap, tm);
    IsRowConcat(AsSlots(PageRows(pages[from], from, 0, snap, tm)), AsSlots(VisibleRows(pages, from + 1, snap, tm)), n, row);
  }

  /** A visible row stands in the scan's output behind all that precede it in page and slot order. */
  lemma {:induction false} ScannedRowAt(pages: seq<HeapPage>, from: nat, pid: PageId, s: SlotId, snap: Snapshot, tm: State)
    requires from <= pid < |pages| && VisibleAt(pages[pid], s, snap, tm)
    ensures PagesCount(pages, snap, tm, from) <= PagesCount(pages, snap, tm, pid)
    ensures IsRow(AsSlots(VisibleRows(pages, from, snap, tm)),
                  PagesCount(pages, snap, tm, pid) - PagesCount(pages, snap, tm, from) + PageCount(pages[pid], snap, tm, s - 1),
                  TupleSlot(Ctid(pid, s), pages[pid][s - 1].item, None))
    decreases pid - from
  {
    if from == pid {
      RowOnFirstPage(pages, from, s, snap, tm);
    } else {
      ScannedRowAt(pages, from + 1, pid, s, snap, tm);
      RowBehindFirstPage(pages, from,
                         PagesCount(pages, snap, tm, pid) - PagesCount(pages, snap, tm, from + 1) + PageCount(pages[pid], snap, tm, s - 1),
                         TupleSlot(Ctid(pid, s), pages[pid][s - 1].item, None), snap, tm);
    }
  }

  lemma {:induction false} PagesCountAll(pages: seq<HeapPage>, from: nat, snap: Snapshot, tm: State)
    requires from <= |pages|
    ensures PagesCount(pages, snap, tm, |pages|) == PagesCount(pages, snap, tm, from) + |AsSlots(VisibleRows(pages, from, snap, tm))|
    decreases |pages| - from
  {
    if from < |pages| {
      FirstPageScanned(pages, from, snap, tm);
      PagesCountAll(pages, from + 1, snap, tm);
    }
  }

  class SeqScanNode {
    const pages: seq<HeapPage>
    const snap: Snapshot
    const tm: State
    var pageHeld: bool
    var pageId: PageId
    var slotId: SlotId
    ghost var done: nat

    ghost function AllRows(): seq<TupleSlot> {
      AsSlots(VisibleRows(pages, 0, snap, tm))
    }

    ghost predicate Valid()
      reads this
    {
      && pageId <= |pages|
      && (pageHeld ==> pageId < |pages| && 1 <= slotId <= |pages[pageId]| + 1)
      && done == PagesCount(pages, snap, tm, pageId) + if pageHeld then PageCount(pages[pageId], snap, tm, slotId - 1) else 0
    }

    constructor (pages: seq<HeapPage>, snap: Snapshot, tm: State)
      ensures this.pages == pages && this.snap == snap && this.tm == tm
    {
      this.pages, this.snap, this.tm := pages, snap, tm;
    }

    method Init()
      modifies this
      ensures Valid() && done == 0
    {
      pageHeld, pageId, slotId, done := false, 0, 1, 0;
    }

    /** Holds at most one page, and lets go of it before asking for the next. */
    method Next() returns (r: Option<TupleSlot>)
      requires Valid()
      modifies this
      ensures Valid() && r == RowNo(AllRows(), old(done)) && done == old(done) + (if r.Some? then 1 else 0)
    {
      while true
        invariant Valid() && done == old(done)
        decreases |pages| - pageId
      {
        if !pageHeld {
          if pageId >= |pages| {
            PagesCountAll(pages, 0, snap, tm);
            return None;
          }
          pageHeld, slotId := true, 1;
        }
        r := NextOnPage();
        if r.Some? {
          return;
        }
        pageHeld, pageId := false, pageId + 1;
      }
    }

    /** The next visible row of the page that is held. */
    method NextOnPage() returns (r: Option<TupleSlot>)
      requires Valid() && pageHeld
      modifies this`slotId, this`done
      ensures Valid()
      ensures r.Some? ==> r == RowNo(AllRows(), old(done)) && done == old(done) + 1
      ensures r == None ==> done == old(done) && slotId == |pages[pageId]| + 1
    {
      var page := pages[pageId];
      while slotId <= |page|
        invariant Valid() && done == old(done) && slotId <= |page| + 1
      {
        var s := slotId;
        slotId := slotId + 1;
        if VisibleAt(page, s, snap, tm) {
          ScannedRowAt(pages, 0, pageId, s, snap, tm);
          done := done + 1;
          return Some(TupleSlot(Ctid(pageId, s), page[s - 1].item, None));
        }
      }
      return None;
    }
  }

  // ---- index scan ---------------------------------------------------------

  class IndexScanNode {
    const entries: seq<IndexEntry>
    const key: int
    const pages: seq<HeapPage>
    const snap: Snapshot
    const tm: State
    var candidates: seq<Ctid>
    var visited: seq<Ctid>
    var cursor: nat
    ghost var done: nat

    ghost function AllRows(): seq<TupleSlot> {
      AsSlots(V.ScanHits(M.Find(entries, key), [], pages, snap, tm))
    }

    ghost predicate Valid()
      reads this
    {
      && cursor <= |candidates|
      && ToCome(V.ScanHits(M.Find(entries, key), [], pages, snap, tm), done, V.ScanHits(candidates[cursor..], visited, pages, snap, tm))
    }

    constructor (entries: seq<IndexEntry>, key: int, pages: seq<HeapPage>, snap: Snapshot, tm: State)
      ensures this.entries == entries && this.key == key && this.pages == pages && this.snap == snap && this.tm == tm
    {
      this.entries, this.key, this.pages, this.snap, this.tm := entries, key, pages, snap, tm;
    }

    method Init()
      modifies this
      ensures Valid() && done == 0
    {
      candidates, visited, cursor, done := M.Find(entries, key), [], 0, 0;
      assert candidates[0..] == candidates;
    }

    /** Two roots may lead to one version; it is produced once. */
    method Next() returns (r: Option<TupleSlot>)
      requires Valid()
      modifies this
      ensures Valid() && r == RowNo(AllRows(), old(done)) && done == old(done) + (if r.Some? then 1 else 0)
    {
      ghost var all := V.ScanHits(M.Find(entries, key), [], pages, snap, tm);
      while cursor < |candidates|
        invariant Valid() && done == old(done)
        decreases |candidates| - cursor
      {
        var hit := HotResult(pages, candidates[cursor], snap, tm);
        assert candidates[cursor..][1..] == candidates[cursor + 1..];
        cursor := cursor + 1;
        if hit.Some? && hit.value.0 !in visited {
          NextIs(all, done, hit.value, V.ScanHits(candidates[cursor..], visited + [hit.value.0], pages, snap, tm));
          SlotAt(all, done);
          visited, done := visited + [hit.value.0], done + 1;
          return Some(TupleSlot(hit.value.0, hit.value.1, None));
        }
      }
      AsManySlots(all);
      return None;
    }
  }

  // ---- Filter -------------------------------------------------------------

  class FilterNode {
    const child: RowSource
    const pred: Predicate
    ghost var done: nat

    ghost function AllRows(): seq<TupleSlot> {
      Select(child.rows, pred)
    }

    ghost predicate Valid()
      reads this, child
    {
      child.done <= |child.rows| && done == Emitted(child.rows, Passing(pred), child.done)
    }

    constructor (child: RowSource, pred: Predicate)
      ensures this.child == child && this.pred == pred
    {
      this.child, this.pred := child, pred;
    }

    method Init()
      modifies this, child
      ensures Valid() && done == 0
    {
      child.Init();
      done := 0;
    }

    method Next() returns (r: Option<TupleSlot>)
      requires Valid()
      modifies this, child
      ensures Valid() && r == RowNo(AllRows(), old(done)) && done == old(done) + (if r.Some? then 1 else 0)
    {
      while true
        invariant Valid() && done == old(done)
        decreases |child.rows| - child.done
      {
        r := child.Next();
        if r == None {
          SelectIsFlatMap(child.rows, pred);
          EmittedAll(child.rows, Passing(pred));
          return;
        }
        if pred(r.value) {
          SelectIsFlatMap(child.rows, pred);
          RowAt(child.rows, Passing(pred), child.done - 1, 0);
          done := done + 1;
          return;
        }
      }
    }
  }

  // ---- Limit --------------------------------------------------------------

  class LimitNode {
    const child: RowSource
    const count: nat
    const offset: nat
    var returned: nat
    ghost var done: nat

    ghost function AllRows(): seq<TupleSlot> {
      Take(Drop(child.rows, offset), count)
    }

    ghost predicate Valid()
      reads this, child
    {
      && done == returned <= count
      && child.done == (if offset < |child.rows| then offset else |child.rows|) + returned <= |child.rows|
    }

    constructor (child: RowSource, count: nat, offset: nat)
      ensures this.child == child && this.count == count && this.offset == offset
    {
      this.child, this.count, this.offset := child, count, offset;
    }

    /** Discards the offset right away. */
    method Init()
      modifies this, child
      ensures Valid() && done == 0
    {
      child.Init();
      returned, done := 0, 0;
      for i := 0 to offset
        invariant child.done == i <= |child.rows| && returned == done == 0
      {
        var discard := child.Next();
        if discard == None {
          break;
        }
      }
    }

    /** Stops pulling rows as soon as the limit is reached. */
    method Next() returns (r: Option<TupleSlot>)
      requires Valid()
      modifies this, child
      ensures Valid() && r == RowNo(AllRows(), old(done)) && done == old(done) + (if r.Some? then 1 else 0)
    {
      if returned >= count {
        return None;
      }
      r := child.Next();
      if r.Some? {
        returned, done := returned + 1, done + 1;
      }
    }
  }

  // ---- nested loop --------------------------------------------------------

  /** How many of the first i inner rows join with o. */
  function MatchCount(inner: seq<TupleSlot>, o: TupleSlot, joinPred: JoinPredicate, i: nat): nat
    requires i <= |inner|
  {
    if i == 0 then 0 else MatchCount(inner, o, joinPred, i - 1) + if joinPred(o, inner[i - 1]) then 1 else 0
  }

  /** How many rows the first k outer rows join into. */
  function LoopCount(outer: seq<TupleSlot>, inner: seq<TupleSlot>, joinPred: JoinPredicate, k: nat): nat
    requires k <= |outer|
  {
    if k == 0 then 0 else LoopCount(outer, inner, joinPred, k - 1) + MatchCount(inner, outer[k - 1], joinPred, |inner|)
  }

  lemma {:induction false} MatchCountIsEmitted(inner: seq<TupleSlot>, o: TupleSlot, joinPred: JoinPredicate, i: nat)
    requires i <= |inner|
    ensures MatchCount(inner, o, joinPred, i) == Emitted(inner, Matching(o, joinPred), i)
  {
    if i > 0 {
      MatchCountIsEmitted(inner, o, joinPred, i - 1);
    }
  }

  lemma MatchCountAll(inner: seq<TupleSlot>, o: TupleSlot, joinPred: JoinPredicate)
    ensures MatchCount(inner, o, joinPred, |inner|) == |Matches(inner, o, joinPred)|
  {
    MatchCountIsEmitted(inner, o, joinPred, |inner|);
    MatchesIsFlatMap(inner, o, joinPred);
    EmittedAll(inner, Matching(o, joinPred));
  }

  /** The row that inner row i becomes when it joins with o. */
  lemma MatchedRowAt(inner: seq<TupleSlot>, o: TupleSlot, joinPred: JoinPredicate, i: nat)
    requires i < |inner| && joinPred(o, inner[i])
    ensures MatchCount(inner, o, joinPred, i) < |Matches(inner, o, joinPred)|
    ensures RowNo(Matches(inner, o, joinPred), MatchCount(inner, o, joinPred, i)) == Some(Joined(o, inner[i].ctid, inner[i].tuple))
  {
    MatchCountIsEmitted(inner, o, joinPred, i);
    MatchesIsFlatMap(inner, o, joinPred);
    RowAt(inner, Matching(o, joinPred), i, 0);
  }

  lemma {:induction false} LoopConcat(a: seq<TupleSlot>, b: seq<TupleSlot>, inner: seq<TupleSlot>, joinPred: JoinPredicate)
    ensures LoopRows(a + b, inner, joinPred) == LoopRows(a, inner, joinPred) + LoopRows(b, inner, joinPred)
  {
    if a == [] {
      assert a + b == b;
    } else {
      assert (a + b)[1..] == a[1..] + b && (a + b)[0] == a[0];
      LoopConcat(a[1..], b, inner, joinPred);
      Associates(Matches(inner, a[0], joinPred), LoopRows(a[1..], inner, joinPred), LoopRows(b, inner, joinPred));
    }
  }

  lemma LoopOne(o: TupleSlot, inner: seq<TupleSlot>, joinPred: JoinPredicate)
    ensures LoopRows([o], inner, joinPred) == Matches(inner, o, joinPred)
  {
    assert [o][1..] == [];
  }

  lemma {:induction false} LoopCountIsLength(outer: seq<TupleSlot>, inner: seq<TupleSlot>, joinPred: JoinPredicate, k: nat)
    requires k <= |outer|
    ensures LoopCount(outer, inner, joinPred, k) == |LoopRows(outer[..k], inner, joinPred)|
  {
    if k > 0 {
      var o := outer[k - 1];
      LoopCountIsLength(outer, inner, joinPred, k - 1);
      assert outer[..k] == outer[..k - 1] + [o];
      LoopConcat(outer[..k - 1], [o], inner, joinPred);
      LoopOne(o, inner, joinPred);
      MatchCountAll(inner, o, joinPred);
    }
  }

  lemma {:induction false} LoopAround(outer: seq<TupleSlot>, inner: seq<TupleSlot>, joinPred: JoinPredicate, k: nat)
    requires k < |outer|
    ensures LoopRows(outer, inner, joinPred)
         == LoopRows(outer[..k], inner, joinPred) + (Matches(inner, outer[k], joinPred) + LoopRows(outer[k + 1..], inner, joinPred))
  {
    var front, back := outer[..k], outer[k + 1..];
    assert outer == front + ([outer[k]] + back);
    LoopConcat(front, [outer[k]] + back, inner, joinPred);
    LoopConcat([outer[k]], back, inner, joinPred);
    LoopOne(outer[k], inner, joinPred);
  }

  lemma {:induction false} PairedRowAt(outer: seq<TupleSlot>, inner: seq<TupleSlot>, joinPred: JoinPredicate, k: nat, j: nat)
    requires k < |outer| && j < |Matches(inner, outer[k], joinPred)|
    ensures RowNo(LoopRows(outer, inner, joinPred), LoopCount(outer, inner, joinPred, k) + j) == RowNo(Matches(inner, outer[k], joinPred), j)
  {
    LoopAround(outer, inner, joinPred, k);
    LoopCountIsLength(outer, inner, joinPred, k);
    RowNoWithin(LoopRows(outer[..k], inner, joinPred), Matches(inner, outer[k], joinPred), LoopRows(outer[k + 1..], inner, joinPred), j);
  }

  lemma LoopCountAll(outer: seq<TupleSlot>, inner: seq<TupleSlot>, joinPred: JoinPredicate)
    ensures LoopCount(outer, inner, joinPred, |outer|) == |LoopRows(outer, inner, joinPred)|
  {
    LoopCountIsLength(outer, inner, joinPred, |outer|);
    assert outer[..|outer|] == outer;
  }

  ghost predicate NoMatch(inner: seq<TupleSlot>, o: TupleSlot, joinPred: JoinPredicate, i: nat, j: nat) {
    j <= |inner| && forall k :: i <= k < j ==> !joinPred(o, inner[k])
  }

  lemma {:induction false} NoMatchNoCount(inner: seq<TupleSlot>, o: TupleSlot, joinPred: JoinPredicate, i: nat, j: nat)
    requires i <= j <= |inner| && NoMatch(inner, o, joinPred, i, j)
    ensures MatchCount(inner, o, joinPred, j) == MatchCount(inner, o, joinPred, i)
  {
    if i < j {
      NoMatchNoCount(inner, o, joinPred, i, j - 1);
    }
  }

  /** `done` rows are out when the loop stands behind inner row i of outer row o - 1, or before outer row o. */
  ghost predicate LoopAt(outer: seq<TupleSlot>, inner: seq<TupleSlot>, joinPred: JoinPredicate,
                         o: nat, i: nat, betweenOuters: bool, done: nat) {
    && o <= |outer| && i <= |inner|
    && if betweenOuters then done == LoopCount(outer, inner, joinPred, o)
       else o > 0 && done == LoopCount(outer, inner, joinPred, o - 1) + MatchCount(inner, outer[o - 1], joinPred, i)
  }

  lemma MatchCounts(inner: seq<TupleSlot>, o: TupleSlot, joinPred: JoinPredicate, i: nat, j: nat)
    requires i <= j < |inner| && NoMatch(inner, o, joinPred, i, j) && joinPred(o, inner[j])
    ensures MatchCount(inner, o, joinPred, j) == MatchCount(inner, o, joinPred, i)
    ensures MatchCount(inner, o, joinPred, j + 1) == MatchCount(inner, o, joinPred, i) + 1
  {
    NoMatchNoCount(inner, o, joinPred, i, j);
  }

  lemma {:induction false} LoopFinds(outer: seq<TupleSlot>, inner: seq<TupleSlot>, joinPred: JoinPredicate, k: nat, j: nat, n: nat)
    requires k < |outer| && j < |inner| && joinPred(outer[k], inner[j]) && n == MatchCount(inner, outer[k], joinPred, j)
    ensures RowNo(LoopRows(outer, inner, joinPred), LoopCount(outer, inner, joinPred, k) + n) == Some(Joined(outer[k], inner[j].ctid, inner[j].tuple))
  {
    MatchedRowAt(inner, outer[k], joinPred, j);
    PairedRowAt(outer, inner, joinPred, k, n);
  }

  lemma {:induction false} LoopMatches(outer: seq<TupleSlot>, inner: seq<TupleSlot>, joinPred: JoinPredicate, o: nat, i: nat, j: nat, done: nat)
    requires LoopAt(outer, inner, joinPred, o, i, false, done) && i <= j < |inner|
    requires NoMatch(inner, outer[o - 1], joinPred, i, j) && joinPred(outer[o - 1], inner[j])
    ensures RowNo(LoopRows(outer, inner, joinPred), done) == Some(Joined(outer[o - 1], inner[j].ctid, inner[j].tuple))
    ensures LoopAt(outer, inner, joinPred, o, j + 1, false, done + 1)
  {
    MatchCounts(inner, outer[o - 1], joinPred, i, j);
    LoopFinds(outer, inner, joinPred, o - 1, j, MatchCount(inner, outer[o - 1], joinPred, j));
  }

  lemma LoopLeavesOuter(outer: seq<TupleSlot>, inner: seq<TupleSlot>, joinPred: JoinPredicate, o: nat, i: nat, done: nat)
    requires LoopAt(outer, inner, joinPred, o, i, false, done) && NoMatch(inner, outer[o - 1], joinPred, i, |inner|)
    ensures LoopAt(outer, inner, joinPred, o, |inner|, true, done)
  {
    NoMatchNoCount(inner, outer[o - 1], joinPred, i, |inner|);
  }

  lemma LoopEnters(outer: seq<TupleSlot>, inner: seq<TupleSlot>, joinPred: JoinPredicate, o: nat, i: nat, done: nat)
    requires LoopAt(outer, inner, joinPred, o, i, true, done) && o < |outer|
    ensures LoopAt(outer, inner, joinPred, o + 1, 0, false, done)
  {
  }

  lemma LoopEnds(outer: seq<TupleSlot>, inner: seq<TupleSlot>, joinPred: JoinPredicate, i: nat, done: nat)
    requires LoopAt(outer, inner, joinPred, |outer|, i, true, done)
    ensures RowNo(LoopRows(outer, inner, joinPred), done) == None
  {
    LoopCountAll(outer, inner, joinPred);
  }

  class NestedLoopJoinNode {
    const outer: RowSource
    const inner: RowSource
    const joinPred: JoinPredicate
    var currentOuter: Option<TupleSlot>
    var needNewOuter: bool
    var outerExhausted: bool
    ghost var done: nat

    ghost function AllRows(): seq<TupleSlot> {
      LoopRows(outer.rows, inner.rows, joinPred)
    }

    ghost predicate Valid()
      reads this, outer, inner
    {
      && outer != inner
      && (outerExhausted ==> needNewOuter && outer.done == |outer.rows|)
      && LoopAt(outer.rows, inner.rows, joinPred, outer.done, inner.done, needNewOuter, done)
      && (!needNewOuter ==> currentOuter == Some(outer.rows[outer.done - 1]))
    }

    constructor (outer: RowSource, inner: RowSource, joinPred: JoinPredicate)
      ensures this.outer == outer && this.inner == inner && this.joinPred == joinPred
    {
      this.outer, this.inner, this.joinPred := outer, inner, joinPred;
    }

    method Init()
      requires outer != inner
      modifies this, outer, inner
      ensures Valid() && done == 0
    {
      outer.Init();
      inner.Init();
      currentOuter, needNewOuter, outerExhausted, done := None, true, false, 0;
    }

    method Next() returns (r: Option<TupleSlot>)
      requires Valid()
      modifies this, outer, inner
      ensures Valid() && r == RowNo(AllRows(), old(done)) && done == old(done) + (if r.Some? then 1 else 0)
    {
      if outerExhausted {
        LoopEnds(outer.rows, inner.rows, joinPred, inner.done, done);
        return None;
      }
      while true
        invariant Valid() && !outerExhausted && done == old(done)
        decreases |outer.rows| - outer.done, if needNewOuter then 0 else 1
      {
        if needNewOuter {
          NextOuter();
          if outerExhausted {
            LoopEnds(outer.rows, inner.rows, joinPred, inner.done, done);
            return None;
          }
        }
        r := NextMatch();
        if r.Some? {
          return;
        }
      }
    }

    /** Fetches the next outer row and rewinds the inner relation for it. */
    method NextOuter()
      requires Valid() && needNewOuter && !outerExhausted
      modifies this`outerExhausted, this`currentOuter, this`needNewOuter, outer, inner
      ensures Valid() && needNewOuter == outerExhausted
      ensures outer.done == old(outer.done) + if outerExhausted then 0 else 1
    {
      var row := outer.Next();
      if row == None {
        outerExhausted := true;
        return;
      }
      LoopEnters(outer.rows, inner.rows, joinPred, old(outer.done), inner.done, done);
      currentOuter := row;
      inner.Init();
      needNewOuter := false;
    }

    /** The inner relation's next row that joins with the current outer one. */
    method NextMatch() returns (r: Option<TupleSlot>)
      requires Valid() && !needNewOuter
      modifies this`done, this`needNewOuter, inner
      ensures Valid() && (needNewOuter <==> r == None)
      ensures r.Some? ==> r == RowNo(AllRows(), old(done)) && done == old(done) + 1
      ensures r == None ==> done == old(done)
    {
      ghost var i := inner.done;
      var found := SkipToMatch();
      if found == None {
        LoopLeavesOuter(outer.rows, inner.rows, joinPred, outer.done, i, done);
        needNewOuter := true;
        return None;
      }
      LoopMatches(outer.rows, inner.rows, joinPred, outer.done, i, inner.done - 1, done);
      done := done + 1;
      r := Some(Joined(currentOuter.value, found.value.ctid, found.value.tuple));
    }

    method SkipToMatch() returns (r: Option<TupleSlot>)
      requires currentOuter.Some? && inner.done <= |inner.rows|
      modifies inner
      ensures inner.done <= |inner.rows|
      ensures r == None ==> inner.done == |inner.rows| && NoMatch(inner.rows, currentOuter.value, joinPred, old(inner.done), |inner.rows|)
      ensures r.Some? ==> old(inner.done) < inner.done && r.value == inner.rows[inner.done - 1]
      ensures r.Some? ==> joinPred(currentOuter.value, r.value) && NoMatch(inner.rows, currentOuter.value, joinPred, old(inner.done), inner.done - 1)
    {
      while true
        invariant old(inner.done) <= inner.done <= |inner.rows|
        invariant NoMatch(inner.rows, currentOuter.value, joinPred, old(inner.done), inner.done)
        decreases |inner.rows| - inner.done
      {
        r := inner.Next();
        if r == None || joinPred(currentOuter.value, r.value) {
          return;
        }
      }
    }
  }

  // ---- hash join ----------------------------------------------------------

  /** How many rows the first k outer rows find in the table. */
  function ProbeCount(outer: seq<TupleSlot>, table: seq<HashEntry>, outerKey: KeyExtractor, k: nat): nat
    requires k <= |outer|
  {
    if k == 0 then 0 else ProbeCount(outer, table, outerKey, k - 1) + |EqualRange(table, outerKey(outer[k - 1]))|
  }

  lemma {:induction false} ProbeConcat(a: seq<TupleSlot>, b: seq<TupleSlot>, table: seq<HashEntry>, outerKey: KeyExtractor)
    ensures ProbeRows(a + b, table, outerKey) == ProbeRows(a, table, outerKey) + ProbeRows(b, table, outerKey)
  {
    if a == [] {
      assert a + b == b;
    } else {
      assert (a + b)[1..] == a[1..] + b && (a + b)[0] == a[0];
      ProbeConcat(a[1..], b, table, outerKey);
      Associates(Bucket(table, a[0], outerKey(a[0])), ProbeRows(a[1..], table, outerKey), ProbeRows(b, table, outerKey));
    }
  }

  lemma ProbeOne(o: TupleSlot, table: seq<HashEntry>, outerKey: KeyExtractor)
    ensures ProbeRows([o], table, outerKey) == Bucket(table, o, outerKey(o))
  {
    assert [o][1..] == [];
  }

  lemma {:induction false} ProbeCountIsLength(outer: seq<TupleSlot>, table: seq<HashEntry>, outerKey: KeyExtractor, k: nat)
    requires k <= |outer|
    ensures ProbeCount(outer, table, outerKey, k) == |ProbeRows(outer[..k], table, outerKey)|
  {
    if k > 0 {
      var o := outer[k - 1];
      ProbeCountIsLength(outer, table, outerKey, k - 1);
      assert outer[..k] == outer[..k - 1] + [o];
      ProbeConcat(outer[..k - 1], [o], table, outerKey);
      ProbeOne(o, table, outerKey);
      BucketIsEqualRange(table, o, outerKey(o));
    }
  }

  lemma {:induction false} ProbeAround(outer: seq<TupleSlot>, table: seq<HashEntry>, outerKey: KeyExtractor, k: nat)
    requires k < |outer|
    ensures ProbeRows(outer, table, outerKey)
         == ProbeRows(outer[..k], table, outerKey) + (Bucket(table, outer[k], outerKey(outer[k])) + ProbeRows(outer[k + 1..], table, outerKey))
  {
    var front, back := outer[..k], outer[k + 1..];
    assert outer == front + ([outer[k]] + back);
    ProbeConcat(front, [outer[k]] + back, table, outerKey);
    ProbeConcat([outer[k]], back, table, outerKey);
    ProbeOne(outer[k], table, outerKey);
  }

  /** The output before the bucket of outer row k, the bucket, and the output behind it. */
  lemma ProbedAround(outer: seq<TupleSlot>, table: seq<HashEntry>, outerKey: KeyExtractor, k: nat, j: nat)
      returns (before: seq<TupleSlot>, mine: seq<TupleSlot>, behind: seq<TupleSlot>)
    requires k < |outer| && j < |EqualRange(table, outerKey(outer[k]))|
    ensures ProbeRows(outer, table, outerKey) == before + (mine + behind)
    ensures |before| == ProbeCount(outer, table, outerKey, k)
    ensures var e := EqualRange(table, outerKey(outer[k]))[j]; IsRow(mine, j, Joined(outer[k], e.ctid, e.tuple))
  {
    before, mine, behind := ProbeRows(outer[..k], table, outerKey), Bucket(table, outer[k], outerKey(outer[k])), ProbeRows(outer[k + 1..], table, outerKey);
    ProbeAround(outer, table, outerKey, k);
    ProbeCountIsLength(outer, table, outerKey, k);
    BucketIsEqualRange(table, outer[k], outerKey(outer[k]));
  }

  /** The rows of an outer row's bucket follow those of all earlier outer rows. */
  lemma ProbedRowAt(outer: seq<TupleSlot>, table: seq<HashEntry>, outerKey: KeyExtractor, k: nat, j: nat)
    requires k < |outer| && j < |EqualRange(table, outerKey(outer[k]))|
    ensures var e := EqualRange(table, outerKey(outer[k]))[j];
      IsRow(ProbeRows(outer, table, outerKey), ProbeCount(outer, table, outerKey, k) + j, Joined(outer[k], e.ctid, e.tuple))
  {
    var e := EqualRange(table, outerKey(outer[k]))[j];
    var before, mine, behind := ProbedAround(outer, table, outerKey, k, j);
    IsRowConcat(mine, behind, j, Joined(outer[k], e.ctid, e.tuple));
    IsRowConcat(before, mine + behind, j, Joined(outer[k], e.ctid, e.tuple));
  }

  lemma TableGrows(rows: seq<TupleSlot>, innerKey: KeyExtractor, place: Placement, n: nat)
    requires 0 < n <= |rows|
    ensures HashTable(rows[..n], innerKey, place) == Emplace(HashTable(rows[..n - 1], innerKey, place), EntryOf(rows[n - 1], innerKey), place)
  {
    assert rows[..n][..n - 1] == rows[..n - 1];
  }

  lemma ProbeCountAll(outer: seq<TupleSlot>, table: seq<HashEntry>, outerKey: KeyExtractor)
    ensures ProbeCount(outer, table, outerKey, |outer|) == |ProbeRows(outer, table, outerKey)|
  {
    ProbeCountIsLength(outer, table, outerKey, |outer|);
    assert outer[..|outer|] == outer;
  }

  class HashJoinNode {
    const outer: RowSource
    const inner: RowSource
    const outerKey: KeyExtractor
    const innerKey: KeyExtractor
    const place: Placement
    var hashTable: seq<HashEntry>
    var currentOuter: Option<TupleSlot>
    var bucket: seq<HashEntry>  // the equal_range being probed, and how far
    var probed: nat
    var outerExhausted: bool
    ghost var done: nat

    ghost function AllRows(): seq<TupleSlot>
      reads this
    {
      ProbeRows(outer.rows, hashTable, outerKey)
    }

    ghost predicate Valid()
      reads this, outer
    {
      && outer.done <= |outer.rows| && probed <= |bucket|
      && (outerExhausted ==> outer.done == |outer.rows| && probed == |bucket|)
      && if outer.done == 0 then bucket == [] && done == 0
         else BucketOk() && done == ProbeCount(outer.rows, hashTable, outerKey, outer.done - 1) + probed
    }

    ghost predicate BucketOk()
      reads this, outer
    {
      && 0 < outer.done <= |outer.rows| && currentOuter == Some(outer.rows[outer.done - 1])
      && bucket == EqualRange(hashTable, outerKey(outer.rows[outer.done - 1]))
    }

    constructor (outer: RowSource, inner: RowSource, outerKey: KeyExtractor, innerKey: KeyExtractor, place: Placement)
      ensures this.outer == outer && this.inner == inner
      ensures this.outerKey == outerKey && this.innerKey == innerKey && this.place == place
    {
      this.outer, this.inner, this.outerKey, this.innerKey, this.place := outer, inner, outerKey, innerKey, place;
    }

    method Build()
      modifies this`hashTable, inner
      ensures hashTable == HashTable(inner.rows, innerKey, place)
    {
      hashTable := [];
      inner.Init();
      while true
        invariant inner.done <= |inner.rows| && hashTable == HashTable(inner.rows[..inner.done], innerKey, place)
        decreases |inner.rows| - inner.done
      {
        var row := inner.Next();
        if row == None {
          break;
        }
        TableGrows(inner.rows, innerKey, place, inner.done);
        hashTable := Emplace(hashTable, EntryOf(row.value, innerKey), place);
      }
      assert inner.rows[..inner.done] == inner.rows;
    }

    /** Builds the hash table from the inner relation, then opens the outer one. */
    method Init()
      modifies this, outer, inner
      ensures Valid() && done == 0
      ensures AllRows() == ProbeRows(outer.rows, HashTable(inner.rows, innerKey, place), outerKey)
    {
      Build();
      outer.Init();
      outerExhausted, currentOuter, bucket, probed, done := false, None, [], 0, 0;
    }

    method Next() returns (r: Option<TupleSlot>)
      requires Valid()
      modifies this, outer
      ensures Valid() && hashTable == old(hashTable)
      ensures r == RowNo(AllRows(), old(done)) && done == old(done) + (if r.Some? then 1 else 0)
    {
      ghost var rows := AllRows();
      while !outerExhausted
        invariant Valid() && done == old(done) && hashTable == old(hashTable) && AllRows() == rows
        decreases |outer.rows| - outer.done, !outerExhausted
      {
        if probed != |bucket| {
          r := Emit();
          return;
        }
        Advance();
      }
      ProbeCountAll(outer.rows, hashTable, outerKey);
      r := None;
    }

    /** A pending match of the current outer row. */
    method Emit() returns (r: Option<TupleSlot>)
      requires Valid() && probed != |bucket| && !outerExhausted
      modifies this`probed, this`done
      ensures Valid() && r == RowNo(AllRows(), old(done)) && r.Some? && done == old(done) + 1
    {
      ProbedRowAt(outer.rows, hashTable, outerKey, outer.done - 1, probed);
      r := Some(Joined(currentOuter.value, bucket[probed].ctid, bucket[probed].tuple));
      probed, done := probed + 1, done + 1;
    }

    /** The next outer row, and its bucket. */
    method Advance()
      requires Valid() && probed == |bucket| && !outerExhausted
      modifies this`outerExhausted, this`currentOuter, this`bucket, this`probed, outer
      ensures Valid()
      ensures outer.done == old(outer.done) + if outerExhausted then 0 else 1
    {
      var row := outer.Next();
      if row == None {
        outerExhausted := true;
        return;
      }
      currentOuter := row;
      bucket := EqualRange(hashTable, outerKey(row.value));
      probed := 0;
    }
  }
}
