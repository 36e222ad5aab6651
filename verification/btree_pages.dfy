/** The pages of the on-disk B+tree (src/disk_btree.cpp): leaves chained left to right, a root that is
    the only leaf or points at all of them, and what it takes for searches to be right. */
module BTreePages {
  import opened StorageTypes
  import M = MultimapIndex

  /** The lowest value of the key type, which fills the first entry of an internal page. */
  const KEY_MIN: int := -0x8000_0000

  datatype Child = Child(key: int, pid: PageId)

  datatype Node =
    | Leaf(isRoot: bool, parent: Option<PageId>, right: Option<PageId>, entries: seq<IndexEntry>)
    | Internal(isRoot: bool, parent: Option<PageId>, level: nat, children: seq<Child>)

  /** The file, the root's page number, and (for the proofs) the leaves from left to right. */
  datatype Tree = Tree(pages: seq<Node>, root: PageId, leaves: seq<PageId>)

  function LevelOf(n: Node): nat {
    if n.Leaf? then 0 else n.level
  }

  // ---- descending ---------------------------------------------------------

  /** The scan of an internal page: on from entry i while the next key is not above the one sought. */
  function Route(children: seq<Child>, key: int, i: nat): (r: nat)
    requires i < |children|
    ensures i <= r < |children|
    ensures r > i ==> children[r].key <= key
    ensures r + 1 < |children| ==> key < children[r + 1].key
    decreases |children| - i
  {
    if i + 1 < |children| && children[i + 1].key <= key then Route(children, key, i + 1) else i
  }

  /** find_leaf_page from page `pid`; None would mean that the pages do not form a tree. */
  function Descend(pages: seq<Node>, pid: PageId, key: int): Option<PageId>
    decreases if pid < |pages| then LevelOf(pages[pid]) else 0
  {
    if pid >= |pages| then None
    else if pages[pid].Leaf? then Some(pid)
    else if pages[pid].children == [] then None
    else
      var next := pages[pid].children[Route(pages[pid].children, key, 0)].pid;
      if next < |pages| && LevelOf(pages[next]) < LevelOf(pages[pid]) then Descend(pages, next, key) else None
  }

  // ---- the leaf chain -----------------------------------------------------

  function NextOf(leaves: seq<PageId>, i: nat): Option<PageId> {
    if i + 1 < |leaves| then Some(leaves[i + 1]) else None
  }

  ghost predicate LinkOk(t: Tree, i: nat) {
    && i < |t.leaves| && t.leaves[i] < |t.pages|
    && t.pages[t.leaves[i]].Leaf? && t.pages[t.leaves[i]].right == NextOf(t.leaves, i)
  }

  ghost predicate Apart(leaves: seq<PageId>, i: nat, j: nat) {
    i < |leaves| && j < |leaves| && leaves[i] != leaves[j]
  }

  ghost predicate ChainOk(t: Tree) {
    && t.leaves != []
    && (forall i :: 0 <= i < |t.leaves| ==> LinkOk(t, i))
    && (forall i, j :: 0 <= i < j < |t.leaves| ==> Apart(t.leaves, i, j))
  }

  /** What leaf i holds. */
  function Run(t: Tree, i: nat): seq<IndexEntry> {
    if i < |t.leaves| && t.leaves[i] < |t.pages| && t.pages[t.leaves[i]].Leaf? then t.pages[t.leaves[i]].entries else []
  }

  /** Leaves i up to j, one after the other. */
  function Flat(t: Tree, i: nat, j: nat): seq<IndexEntry>
    decreases j - i
  {
    if i >= j then [] else Run(t, i) + Flat(t, i + 1, j)
  }

  function Contents(t: Tree): seq<IndexEntry> {
    Flat(t, 0, |t.leaves|)
  }

  lemma {:induction false} FlatSplit(t: Tree, i: nat, k: nat, j: nat)
    requires i <= k <= j
    ensures Flat(t, i, j) == Flat(t, i, k) + Flat(t, k, j)
    decreases k - i
  {
    if i < k {
      FlatSplit(t, i + 1, k, j);
    }
  }

  /** Equal leaves, perhaps at other positions, have equal contents. */
  lemma {:induction false} FlatSame(t: Tree, i: nat, j: nat, u: Tree, shift: int)
    requires i <= j && i + shift >= 0 && forall k :: i <= k < j ==> Run(t, k) == Run(u, k + shift)
    ensures Flat(t, i, j) == Flat(u, i + shift, j + shift)
    decreases j - i
  {
    if i < j {
      FlatSame(t, i + 1, j, u, shift);
    }
  }

  lemma FlatEqual(t: Tree, i: nat, j: nat, u: Tree)
    requires i <= j && forall k: nat :: i <= k < j ==> Run(u, k) == Run(t, k)
    ensures Flat(u, i, j) == Flat(t, i, j)
  {
    FlatSame(t, i, j, u, 0);
  }

  lemma OneMoreLeaf(t: Tree, i: nat, k: nat)
    requires i <= k
    ensures Flat(t, i, k + 1) == Flat(t, i, k) + Run(t, k)
  {
    FlatSplit(t, i, k, k + 1);
    assert Flat(t, k, k + 1) == Run(t, k) + Flat(t, k + 1, k + 1);
  }

  /** Leaf i's entries in their place. */
  lemma AroundLeaf(t: Tree, i: nat)
    requires i < |t.leaves|
    ensures Contents(t) == Flat(t, 0, i) + Run(t, i) + Flat(t, i + 1, |t.leaves|)
  {
    FlatSplit(t, 0, i, |t.leaves|);
  }

  // ---- order --------------------------------------------------------------

  ghost predicate Below(s: seq<IndexEntry>, key: int) {
    forall k :: 0 <= k < |s| ==> s[k].key < key
  }

  ghost predicate Above(s: seq<IndexEntry>, key: int) {
    forall k :: 0 <= k < |s| ==> key < s[k].key
  }

  /** Parts of a sorted sequence are sorted, and what comes first is not larger. */
  lemma SortedParts(a: seq<IndexEntry>, b: seq<IndexEntry>)
    requires M.Sorted(a + b)
    ensures M.Sorted(a) && M.Sorted(b)
    ensures forall i, j :: 0 <= i < |a| && 0 <= j < |b| ==> a[i].key <= b[j].key
  {
    forall i, j | 0 <= i < j < |a| ensures M.Before(a, i, j) {
      assert M.Before(a + b, i, j);
    }
    forall i, j | 0 <= i < j < |b| ensures M.Before(b, i, j) {
      assert M.Before(a + b, |a| + i, |a| + j);
    }
    forall i, j | 0 <= i < |a| && 0 <= j < |b| ensures a[i].key <= b[j].key {
      assert M.Before(a + b, i, |a| + j);
    }
  }

  lemma SortedConcat(a: seq<IndexEntry>, b: seq<IndexEntry>)
    requires M.Sorted(a) && M.Sorted(b) && forall i, j :: 0 <= i < |a| && 0 <= j < |b| ==> a[i].key <= b[j].key
    ensures M.Sorted(a + b)
  {
    forall i, j | 0 <= i < j < |a + b| ensures M.Before(a + b, i, j) {
      if j < |a| {
        assert M.Before(a, i, j);
      } else if i >= |a| {
        assert M.Before(b, i - |a|, j - |a|);
      }
    }
  }

  lemma SortedSlice(s: seq<IndexEntry>, k: nat)
    requires M.Sorted(s) && k <= |s|
    ensures M.Sorted(s[..k]) && M.Sorted(s[k..])
    ensures forall i, j :: 0 <= i < k <= j < |s| ==> s[i].key <= s[j].key
  {
    assert s == s[..k] + s[k..];
    SortedParts(s[..k], s[k..]);
    forall i, j | 0 <= i < k <= j < |s| ensures s[i].key <= s[j].key {
      assert M.Before(s, i, j);
    }
  }

  ghost predicate Within(s: seq<IndexEntry>, low: int, high: Option<int>) {
    forall k :: 0 <= k < |s| ==> low <= s[k].key && (high.Some? ==> s[k].key < high.value)
  }

  // ---- trees that can be searched -----------------------------------------

  /** The descent for `key` ends in leaf i. */
  ghost predicate StartsAt(t: Tree, key: int, i: nat) {
    i < |t.leaves| && Descend(t.pages, t.root, key) == Some(t.leaves[i])
  }

  ghost predicate Reached(t: Tree, key: int) {
    exists i: nat :: StartsAt(t, key, i)
  }

  /** Sorted leaves in one chain, and every descent ends in one of them: searches come to an end,
      with or without the right answer. */
  ghost predicate Walkable(t: Tree) {
    && ChainOk(t) && M.Sorted(Contents(t))
    && forall key: int :: Reached(t, key)
  }

  /** The descent for `key` ends in leaf i, and no other leaf may hold it. */
  ghost predicate RoutesTo(t: Tree, key: int, i: nat) {
    && StartsAt(t, key, i)
    && Below(Flat(t, 0, i), key) && Above(Flat(t, i + 1, |t.leaves|), key)
  }

  ghost predicate Routed(t: Tree, key: int) {
    exists i: nat :: RoutesTo(t, key, i)
  }

  ghost predicate Searchable(t: Tree) {
    && ChainOk(t) && M.Sorted(Contents(t))
    && forall key: int :: Routed(t, key)
  }

  // ---- trees of height 0 and 1 --------------------------------------------

  /** Lower bounds of the leaves: the root's keys. */
  function Lows(t: Tree): seq<int>
    requires t.root < |t.pages|
  {
    var n := t.pages[t.root];
    if n.Leaf? then [KEY_MIN] else seq(|n.children|, i requires 0 <= i < |n.children| => n.children[i].key)
  }

  function HighOf(lows: seq<int>, i: nat): Option<int> {
    if i + 1 < |lows| then Some(lows[i + 1]) else None
  }

  ghost predicate LeafOk(t: Tree, lows: seq<int>, i: nat)
    requires |lows| == |t.leaves| && LinkOk(t, i) && t.root < |t.pages|
  {
    var n := t.pages[t.leaves[i]];
    && n.parent == (if t.pages[t.root].Leaf? then None else Some(t.root))
    && M.Sorted(n.entries) && Within(n.entries, lows[i], HighOf(lows, i))
  }

  ghost predicate RootOk(t: Tree) {
    && t.root < |t.pages| && t.pages[t.root].parent == None
    && (forall p :: 0 <= p < |t.pages| ==> (t.pages[p].isRoot <==> p == t.root))
    && var n := t.pages[t.root];
       if n.Leaf? then t.leaves == [t.root]
       else n.level == 1 && |n.children| == |t.leaves| && forall i :: 0 <= i < |t.leaves| ==> n.children[i].pid == t.leaves[i]
  }

  ghost predicate Less(lows: seq<int>, i: nat, j: nat) {
    i < |lows| && j < |lows| && lows[i] < lows[j]
  }

  ghost predicate LowsOk(lows: seq<int>) {
    && lows != [] && lows[0] == KEY_MIN
    && forall i, j :: 0 <= i < j < |lows| ==> Less(lows, i, j)
  }

  /** One root flag, separators that bound the leaves, parents that are the root. */
  ghost predicate Shape(t: Tree) {
    && ChainOk(t) && RootOk(t) && LowsOk(Lows(t))
    && forall i :: 0 <= i < |t.leaves| ==> LeafOk(t, Lows(t), i)
  }

  /** Every page is below the size at which it splits. */
  ghost predicate Small(t: Tree, maxLeafKeys: nat, maxInternalKeys: nat) {
    && (forall i: nat :: i < |t.leaves| ==> |Run(t, i)| < maxLeafKeys)
    && (t.root < |t.pages| && t.pages[t.root].Internal? ==> |t.pages[t.root].children| < maxInternalKeys)
  }

  lemma {:induction false} FlatBounds(t: Tree, i: nat, j: nat)
    requires Shape(t) && i <= j <= |t.leaves|
    ensures M.Sorted(Flat(t, i, j))
    ensures i < j ==> Within(Flat(t, i, j), Lows(t)[i], HighOf(Lows(t), j - 1))
    decreases j - i
  {
    if i < j {
      FlatBounds(t, i + 1, j);
      assert LinkOk(t, i) && LeafOk(t, Lows(t), i);
      assert i + 1 < j ==> Less(Lows(t), i, i + 1);
      assert i + 1 < j < |Lows(t)| ==> Less(Lows(t), i + 1, j);
      SortedConcat(Run(t, i), Flat(t, i + 1, j));
    }
  }

  /** In a tree of height 0 or 1 every search is right. */
  lemma ShapeIsSearchable(t: Tree)
    requires Shape(t)
    ensures Searchable(t)
  {
    FlatBounds(t, 0, |t.leaves|);
    forall key: int ensures Routed(t, key) {
      var i := RouteInShape(t, key);
    }
  }

  lemma RouteInShape(t: Tree, key: int) returns (i: nat)
    requires Shape(t)
    ensures RoutesTo(t, key, i)
    ensures KEY_MIN <= key ==> Lows(t)[i] <= key && (HighOf(Lows(t), i).Some? ==> key < HighOf(Lows(t), i).value)
  {
    var n := t.pages[t.root];
    i := if n.Leaf? then 0 else Route(n.children, key, 0);
    assert LinkOk(t, i);
    FlatBounds(t, 0, i);
    FlatBounds(t, i + 1, |t.leaves|);
  }
}
