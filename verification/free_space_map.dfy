/** The free space map (src/fsm.cpp, include/pg/fsm.h): per FSM page a perfect binary max-tree of
    free-space categories, searched from the root and repaired upwards after an update. */
module FreeSpace {
  import opened StorageTypes

  const PAGE_SIZE: nat := 8192
  const BYTES_PER_CAT: nat := 32

  function Pow2(n: nat): (p: nat)
    ensures p > 0
  {
    if n == 0 then 1 else 2 * Pow2(n - 1)
  }

  function BytesToCategory(free: nat): nat {
    if free >= PAGE_SIZE then 255 else free / BYTES_PER_CAT
  }

  function RequiredCategory(needed: nat): nat {
    if needed == 0 then 0
    else
      var cat := (needed + BYTES_PER_CAT - 1) / BYTES_PER_CAT;
      if cat < 255 then cat else 255
  }

  /** A page whose category suffices really has the space exactly when no more than 8160 bytes are
      asked for: above that the required category saturates at 255. */
  lemma CategorySufficesExactlyWhen(needed: nat)
    requires needed <= PAGE_SIZE
    ensures (forall free: nat :: BytesToCategory(free) >= RequiredCategory(needed) ==> free >= needed) <==> needed <= 8160
  {
    if needed > 8160 {
      assert BytesToCategory(8160) == 255 == RequiredCategory(needed);
    }
  }

  lemma RequiredIsPositive(needed: nat)
    ensures RequiredCategory(needed) > 0 <==> needed > 0
  {
  }

  lemma EnoughBytes(free: nat, needed: nat)
    requires needed <= 8160 && BytesToCategory(free) >= RequiredCategory(needed)
    ensures free >= needed
  {
    CategorySufficesExactlyWhen(needed);
  }

  // ---- one tree -----------------------------------------------------------

  type Tree = seq<nat>

  function Internal(depth: nat): nat {
    Pow2(depth) - 1
  }

  function MaxOf(a: nat, b: nat): nat {
    if a < b then b else a
  }

  ghost predicate NodeOk(t: Tree, i: nat)
    requires 2 * i + 2 < |t|
  {
    t[i] == MaxOf(t[2 * i + 1], t[2 * i + 2])
  }

  /** Every internal node is the maximum of its children. */
  ghost predicate TreeOk(t: Tree, depth: nat) {
    && |t| == 2 * Internal(depth) + 1
    && forall i :: 0 <= i < Internal(depth) ==> NodeOk(t, i)
  }

  /** The leftmost leaf below node i when i is h levels above the leaves. */
  function LeftLeaf(i: nat, h: nat): nat
    decreases h
  {
    if h == 0 then i else LeftLeaf(2 * i + 1, h - 1)
  }

  /** Neighbours on one level have adjacent blocks of leaves. */
  lemma {:induction false} NextLeaf(i: nat, h: nat)
    ensures LeftLeaf(i + 1, h) == LeftLeaf(i, h) + Pow2(h)
    decreases h
  {
    if h > 0 {
      NextLeaf(2 * i + 1, h - 1);
      NextLeaf(2 * i + 2, h - 1);
    }
  }

  lemma {:induction false} FirstLeaf(h: nat)
    ensures LeftLeaf(0, h) == Pow2(h) - 1
  {
    if h > 0 {
      FirstLeaf(h - 1);
      NextLeaf(0, h - 1);
    }
  }

  /** Node i stands h levels above the leaves of a tree of the given depth. */
  ghost predicate AtHeight(i: nat, h: nat, depth: nat) {
    h <= depth && Pow2(depth - h) <= i + 1 < 2 * Pow2(depth - h) && i < 2 * Internal(depth) + 1
  }

  lemma {:induction false} Pow2Grows(m: nat, n: nat)
    requires m <= n
    ensures Pow2(m) <= Pow2(n)
  {
    if m < n {
      Pow2Grows(m, n - 1);
    }
  }

  lemma ChildHeights(i: nat, h: nat, depth: nat)
    requires AtHeight(i, h, depth) && h > 0
    ensures i < Internal(depth) && AtHeight(2 * i + 1, h - 1, depth) && AtHeight(2 * i + 2, h - 1, depth)
  {
    Pow2Grows(depth - h + 1, depth);
  }

  /** No leaf below a node exceeds it. */
  lemma {:induction false} SubtreeBound(t: Tree, i: nat, h: nat, depth: nat, leaf: nat)
    requires TreeOk(t, depth) && AtHeight(i, h, depth) && LeftLeaf(i, h) <= leaf < LeftLeaf(i + 1, h)
    ensures leaf < |t| && t[leaf] <= t[i]
    decreases h
  {
    if h == 0 {
    } else {
      ChildHeights(i, h, depth);
      assert NodeOk(t, i);
      if leaf < LeftLeaf(2 * i + 2, h - 1) {
        SubtreeBound(t, 2 * i + 1, h - 1, depth, leaf);
      } else {
        SubtreeBound(t, 2 * i + 2, h - 1, depth, leaf);
      }
    }
  }

  lemma RootBounds(t: Tree, depth: nat, slot: nat)
    requires TreeOk(t, depth) && slot < Pow2(depth)
    ensures t[Internal(depth) + slot] <= t[0]
  {
    FirstLeaf(depth);
    NextLeaf(0, depth);
    SubtreeBound(t, 0, depth, depth, Internal(depth) + slot);
  }

  ghost predicate LeavesBelow(t: Tree, low: nat, high: nat, target: nat)
  {
    high <= |t| && forall leaf :: low <= leaf < high ==> t[leaf] < target
  }

  lemma SubtreeBelow(t: Tree, i: nat, h: nat, depth: nat, low: nat, target: nat)
    requires TreeOk(t, depth) && AtHeight(i, h, depth) && t[i] < target
    requires low <= LeftLeaf(i, h) && LeavesBelow(t, low, LeftLeaf(i, h), target)
    ensures LeavesBelow(t, low, LeftLeaf(i + 1, h), target)
  {
    NextLeaf(i, h);
    SubtreeBound(t, i, h, depth, LeftLeaf(i + 1, h) - 1);
    forall leaf: nat | LeftLeaf(i, h) <= leaf < LeftLeaf(i + 1, h) ensures leaf < |t| && t[leaf] < target {
      SubtreeBound(t, i, h, depth, leaf);
    }
  }

  /** The descent of search_page in a tree whose root is large enough: the leftmost good leaf. */
  method Descend(t: Tree, ghost depth: nat, internal: nat, target: nat) returns (slot: nat)
    requires TreeOk(t, depth) && internal == Internal(depth) && t[0] >= target
    ensures slot < Pow2(depth) && t[internal + slot] >= target && LeavesBelow(t, internal, internal + slot, target)
  {
    var i: nat := 0;
    ghost var h := depth;
    FirstLeaf(depth);
    while i < internal
      invariant AtHeight(i, h, depth) && t[i] >= target
      invariant internal <= LeftLeaf(i, h) && LeavesBelow(t, internal, LeftLeaf(i, h), target)
      decreases h
    {
      assert h > 0;
      ChildHeights(i, h, depth);
      assert NodeOk(t, i);
      var left, right := 2 * i + 1, 2 * i + 2;
      if t[left] >= target {
        i := left;
      } else {
        NextLeaf(left, h - 1);
        SubtreeBelow(t, left, h - 1, depth, internal, target);
        i := right;
      }
      h := h - 1;
    }
    if h > 0 {
      ChildHeights(i, h, depth);
    }
    slot := i - internal;
  }

  // ---- repairing a tree ---------------------------------------------------

  /** Every internal node but possibly the parent of i is right. */
  ghost predicate OkBut(t: Tree, depth: nat, i: nat) {
    && |t| == 2 * Internal(depth) + 1
    && forall j :: 0 <= j < Internal(depth) && (i == 0 || j != (i - 1) / 2) ==> NodeOk(t, j)
  }

  lemma BubbleStep(t: Tree, depth: nat, i: nat, parent: nat, newMax: nat)
    requires OkBut(t, depth, i) && 0 < i < |t| && parent == (i - 1) / 2
    requires newMax == MaxOf(t[2 * parent + 1], t[2 * parent + 2])
    ensures OkBut(t[parent := newMax], depth, parent)
  {
    var t' := t[parent := newMax];
    forall j | 0 <= j < Internal(depth) && (parent == 0 || j != (parent - 1) / 2) ensures NodeOk(t', j) {
      if j != parent {
        assert NodeOk(t, j);
        assert 2 * j + 1 != parent && 2 * j + 2 != parent;
      }
    }
  }

  lemma Siblings(t: Tree, depth: nat, i: nat, parent: nat, sibling: nat)
    requires |t| == 2 * Internal(depth) + 1 && 0 < i < |t| && parent == (i - 1) / 2
    requires sibling == if i % 2 == 1 then i + 1 else i - 1
    ensures sibling < |t| && parent < Internal(depth)
    ensures (2 * parent + 1 == i && 2 * parent + 2 == sibling) || (2 * parent + 1 == sibling && 2 * parent + 2 == i)
  {
  }

  lemma BubbleDone(t: Tree, depth: nat, i: nat, parent: nat)
    requires OkBut(t, depth, i) && 0 < i < |t| && parent == (i - 1) / 2 && parent < Internal(depth) && NodeOk(t, parent)
    ensures TreeOk(t, depth)
  {
  }

  /** update_page's walk to the root, which stops early at a node that already has the right maximum. */
  method BubbleUp(t0: Tree, ghost depth: nat, leaf: nat) returns (t: Tree)
    requires leaf < |t0| && OkBut(t0, depth, leaf)
    ensures TreeOk(t, depth)
    ensures forall k :: Internal(depth) <= k < |t| ==> t[k] == t0[k]
  {
    t := t0;
    var i: nat := leaf;
    while i > 0
      invariant i < |t| && OkBut(t, depth, i)
      invariant forall k :: Internal(depth) <= k < |t| ==> t[k] == t0[k]
      decreases i
    {
      var parent := (i - 1) / 2;
      var sibling := if i % 2 == 1 then i + 1 else i - 1;
      Siblings(t, depth, i, parent, sibling);
      var newMax := MaxOf(t[i], t[sibling]);
      if t[parent] == newMax {
        BubbleDone(t, depth, i, parent);
        return;
      }
      BubbleStep(t, depth, i, parent, newMax);
      t := t[parent := newMax];
      i := parent;
    }
  }

  // ---- page numbers -------------------------------------------------------

  lemma MulAtLeast(d: int, n: nat)
    requires d >= 1
    ensures d * n >= n
  {
    assert d * n == (d - 1) * n + n;
  }

  /** The heap page of leaf `slot` on FSM page `p`, and back. */
  lemma SplitOf(q: nat, p: nat, slot: nat, n: nat)
    requires slot < n && q == p * n + slot
    ensures q / n == p && q % n == slot
  {
    var d := q / n - p;
    assert d * n == slot - q % n;
    if d >= 1 {
      MulAtLeast(d, n);
    } else if d <= -1 {
      MulAtLeast(-d, n);
    }
  }

  lemma SplitOrder(q: nat, p: nat, slot: nat, n: nat)
    requires slot < n && q < p * n + slot
    ensures q / n < p || (q / n == p && q % n < slot)
  {
    var d := q / n - p;
    assert d * n < slot - q % n;
    if d >= 1 {
      MulAtLeast(d, n);
    }
  }

  function CategoryAt(pages: seq<Tree>, p: nat, leaf: nat): nat {
    if p < |pages| && leaf < |pages[p]| then pages[p][leaf] else 0
  }

  /** get_category. */
  function CategoryIn(pages: seq<Tree>, leafCount: nat, q: PageId): nat
    requires leafCount > 0
  {
    CategoryAt(pages, q / leafCount, leafCount - 1 + q % leafCount)
  }

  lemma OtherPage(p: nat, q: nat, n: nat)
    requires n > 0 && p != q
    ensures p / n != q / n || p % n != q % n
  {
    assert p == p / n * n + p % n && q == q / n * n + q % n;
  }

  ghost predicate OneLeafChanged(before: seq<Tree>, after: seq<Tree>, page: nat, leaf: nat, low: nat) {
    forall p: nat, k: nat :: low <= k && (p != page || k != leaf) ==> CategoryAt(after, p, k) == CategoryAt(before, p, k)
  }

  lemma OneCategoryChanged(before: seq<Tree>, after: seq<Tree>, n: nat, q: PageId)
    requires n > 0 && OneLeafChanged(before, after, q / n, n - 1 + q % n, n - 1)
    ensures forall p: PageId :: p != q ==> CategoryIn(after, n, p) == CategoryIn(before, n, p)
  {
    var page, leaf := q / n, n - 1 + q % n;
    forall p: PageId | p != q ensures CategoryIn(after, n, p) == CategoryIn(before, n, p) {
      OtherPage(p, q, n);
      SameCategory(before, after, page, leaf, n - 1, p / n, n - 1 + p % n);
    }
  }

  lemma SameCategory(before: seq<Tree>, after: seq<Tree>, page: nat, leaf: nat, low: nat, p: nat, k: nat)
    requires OneLeafChanged(before, after, page, leaf, low) && low <= k && (p != page || k != leaf)
    ensures CategoryAt(after, p, k) == CategoryAt(before, p, k)
  {
  }

  /** `found` is the lowest heap page with category `target` or more; None when there is none. */
  ghost predicate IsLowestGood(pages: seq<Tree>, n: nat, target: nat, found: Option<PageId>)
    requires n > 0
  {
    && (found.Some? ==> CategoryIn(pages, n, found.value) >= target)
    && (forall q: PageId :: found == None || q < found.value ==> CategoryIn(pages, n, q) < target)
  }

  ghost predicate AllBelow(pages: seq<Tree>, n: nat, p: nat, target: nat)
    requires n > 0
  {
    forall p': nat, leaf: nat :: p' < p && n - 1 <= leaf < 2 * n - 1 ==> CategoryAt(pages, p', leaf) < target
  }

  /** The first good leaf of the first good tree is the lowest good heap page. */
  lemma LowestPage(pages: seq<Tree>, n: nat, p: nat, slot: nat, target: nat)
    requires slot < n && p < |pages| && |pages[p]| == 2 * n - 1 && pages[p][n - 1 + slot] >= target
    requires AllBelow(pages, n, p, target) && LeavesBelow(pages[p], n - 1, n - 1 + slot, target)
    ensures CategoryIn(pages, n, p * n + slot) >= target
    ensures forall q: PageId :: q < p * n + slot ==> CategoryIn(pages, n, q) < target
  {
    SplitOf(p * n + slot, p, slot, n);
    forall q: PageId | q < p * n + slot ensures CategoryIn(pages, n, q) < target {
      SplitOrder(q, p, slot, n);
      var a, b := q / n, q % n;
      if a == p {
        assert pages[p][n - 1 + b] < target;
      } else {
        assert CategoryAt(pages, a, n - 1 + b) < target;
      }
    }
  }

  lemma NoPage(pages: seq<Tree>, n: nat, target: nat)
    requires n > 0 && target > 0 && AllBelow(pages, n, |pages|, target)
    ensures forall q: PageId :: CategoryIn(pages, n, q) < target
  {
    forall q: PageId ensures CategoryIn(pages, n, q) < target {
      var a, b := q / n, q % n;
      assert a < |pages| ==> CategoryAt(pages, a, n - 1 + b) < target;
    }
  }

  lemma RootBelow(pages: seq<Tree>, depth: nat, p: nat, target: nat)
    requires p < |pages| && TreeOk(pages[p], depth) && pages[p][0] < target
    requires AllBelow(pages, Pow2(depth), p, target)
    ensures AllBelow(pages, Pow2(depth), p + 1, target)
  {
    var n := Pow2(depth);
    forall leaf: nat | n - 1 <= leaf < 2 * n - 1 ensures CategoryAt(pages, p, leaf) < target {
      RootBounds(pages[p], depth, leaf - (n - 1));
    }
  }

  lemma NoPagesNoCategory(n: nat)
    requires n > 0
    ensures forall q: PageId :: CategoryIn([], n, q) == 0
  {
  }

  // ---- the map ------------------------------------------------------------

  class FreeSpaceMap {
    ghost const depth: nat
    const leafCount: nat
    var pages: seq<Tree>
    ghost var recorded: map<PageId, nat>  // the free bytes last reported for each heap page

    ghost predicate TreesOk()
      reads this
    {
      leafCount == Pow2(depth) && forall p :: 0 <= p < |pages| ==> TreeOk(pages[p], depth)
    }

    ghost predicate Valid()
      reads this
    {
      && TreesOk()
      && (forall q :: q in recorded ==> Category(q) == BytesToCategory(recorded[q]))
      && (forall q: PageId :: q !in recorded ==> Category(q) == 0)
    }

    function Category(q: PageId): nat
      requires leafCount > 0
      reads this
    {
      CategoryIn(pages, leafCount, q)
    }

    constructor (depth: nat)
      ensures Valid() && this.depth == depth && pages == [] && recorded == map[]
    {
      this.depth := depth;
      leafCount := Pow2(depth);
      pages, recorded := [], map[];
      NoPagesNoCategory(Pow2(depth));
    }

    /** A fresh FSM page is all zeroes. */
    method EnsureCapacity(needed: nat)
      requires TreesOk()
      modifies this`pages
      ensures TreesOk() && |pages| == if needed <= old(|pages|) then old(|pages|) else needed
      ensures forall p: nat, leaf: nat :: CategoryAt(pages, p, leaf) == CategoryAt(old(pages), p, leaf)
    {
      while |pages| < needed
        invariant TreesOk() && old(|pages|) <= |pages| && (|pages| <= needed || |pages| == old(|pages|))
        invariant forall p: nat, leaf: nat :: CategoryAt(pages, p, leaf) == CategoryAt(old(pages), p, leaf)
        decreases needed - |pages|
      {
        var zeroes: Tree := seq(2 * leafCount - 1, _ => 0);
        assert TreeOk(zeroes, depth);
        pages := pages + [zeroes];
      }
    }

    method UpdatePage(q: PageId, free: nat)
      requires Valid()
      modifies this
      ensures Valid() && recorded == old(recorded)[q := free]
    {
      ghost var before := pages;
      var page, leaf := q / leafCount, leafCount - 1 + q % leafCount;
      EnsureCapacity(page + 1);
      SetLeaf(page, leaf, BytesToCategory(free));
      recorded := recorded[q := free];
      OneCategoryChanged(before, pages, leafCount, q);
    }

    /** update_page on one tree: writes the leaf, unless it already holds the category, and repairs
        the maxima above it. */
    method SetLeaf(page: nat, leaf: nat, cat: nat)
      requires TreesOk() && page < |pages| && leafCount - 1 <= leaf < 2 * leafCount - 1
      modifies this`pages
      ensures TreesOk() && CategoryAt(pages, page, leaf) == cat
      ensures OneLeafChanged(old(pages), pages, page, leaf, leafCount - 1)
    {
      if pages[page][leaf] == cat {
        return;
      }
      var changed := pages[page][leaf := cat];
      forall j | 0 <= j < Internal(depth) && (leaf == 0 || j != (leaf - 1) / 2) ensures NodeOk(changed, j) {
        assert NodeOk(pages[page], j);
      }
      var t := BubbleUp(changed, depth, leaf);
      pages := pages[page := t];
    }

    /** The lowest-numbered page whose category suffices, or none exactly when no page's does. */
    method SearchPage(needed: nat) returns (found: Option<PageId>)
      requires Valid()
      ensures if pages == [] || needed > PAGE_SIZE then found == None else IsLowestGood(pages, leafCount, RequiredCategory(needed), found)
      ensures found.Some? && 0 < needed <= 8160 ==> found.value in recorded && recorded[found.value] >= needed
    {
      if pages == [] || needed > PAGE_SIZE {
        return None;
      }
      found := SearchTrees(RequiredCategory(needed));
      if found.Some? && 0 < needed <= 8160 {
        RoomIsRecorded(found.value, needed);
      }
    }

    lemma RoomIsRecorded(q: PageId, needed: nat)
      requires Valid() && 0 < needed <= 8160 && Category(q) >= RequiredCategory(needed)
      ensures q in recorded && recorded[q] >= needed
    {
      RequiredIsPositive(needed);
      assert q in recorded;
      EnoughBytes(recorded[q], needed);
    }

    /** The scan over the FSM pages, skipping a page whose root is too small. */
    method SearchTrees(target: nat) returns (found: Option<PageId>)
      requires TreesOk() && pages != []
      ensures IsLowestGood(pages, leafCount, target, found)
    {
      for p := 0 to |pages|
        invariant AllBelow(pages, leafCount, p, target)
      {
        if pages[p][0] >= target {
          var slot := Descend(pages[p], depth, leafCount - 1, target);
          LowestPage(pages, leafCount, p, slot, target);
          return Some(p * leafCount + slot);
        }
        RootBelow(pages, depth, p, target);
      }
      assert CategoryAt(pages, 0, leafCount - 1) < target;
      NoPage(pages, leafCount, target);
      return None;
    }
  }
}
