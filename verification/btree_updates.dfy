/** What insert_entry, the splits and remove_entry do to the pages of the B+tree, and what they keep. */
module BTreeUpdates {
  import opened StorageTypes
  import opened BTreePages
  import opened BTreeSearch
  import M = MultimapIndex

  // ---- one leaf gets other entries ----------------------------------------

  ghost function WithRun(t: Tree, i: nat, entries: seq<IndexEntry>): Tree
    requires LinkOk(t, i)
  {
    t.(pages := t.pages[t.leaves[i] := t.pages[t.leaves[i]].(entries := entries)])
  }

  lemma WithRunChain(t: Tree, i: nat, entries: seq<IndexEntry>)
    requires ChainOk(t) && LinkOk(t, i)
    ensures ChainOk(WithRun(t, i, entries))
    ensures Run(WithRun(t, i, entries), i) == entries
    ensures forall j: nat :: j < |t.leaves| && j != i ==> Run(WithRun(t, i, entries), j) == Run(t, j)
  {
    var u := WithRun(t, i, entries);
    forall j: nat | j < |t.leaves| ensures LinkOk(u, j) && Run(u, j) == if j == i then entries else Run(t, j) {
      assert LinkOk(t, j);
      assert j < i ==> Apart(t.leaves, j, i);
      assert i < j ==> Apart(t.leaves, i, j);
    }
    forall j, k | 0 <= j < k < |u.leaves| ensures Apart(u.leaves, j, k) {
      assert Apart(t.leaves, j, k);
    }
  }

  lemma WithRunContents(t: Tree, i: nat, entries: seq<IndexEntry>)
    requires ChainOk(t) && LinkOk(t, i)
    ensures Contents(WithRun(t, i, entries)) == Flat(t, 0, i) + entries + Flat(t, i + 1, |t.leaves|)
  {
    var u := WithRun(t, i, entries);
    WithRunChain(t, i, entries);
    FlatEqual(t, 0, i, u);
    FlatEqual(t, i + 1, |t.leaves|, u);
    AroundLeaf(u, i);
  }

  lemma {:induction false} WithRunDescends(t: Tree, i: nat, entries: seq<IndexEntry>, pid: PageId, key: int)
    requires LinkOk(t, i)
    ensures Descend(WithRun(t, i, entries).pages, pid, key) == Descend(t.pages, pid, key)
    decreases if pid < |t.pages| then LevelOf(t.pages[pid]) else 0
  {
    if pid < |t.pages| && t.pages[pid].Internal? && t.pages[pid].children != [] {
      var next := t.pages[pid].children[Route(t.pages[pid].children, key, 0)].pid;
      if next < |t.pages| && LevelOf(t.pages[next]) < LevelOf(t.pages[pid]) {
        WithRunDescends(t, i, entries, next, key);
      }
    }
  }

  // ---- inserting into a leaf ----------------------------------------------

  /** The first place behind every entry whose key is not above `key`. */
  function Position(s: seq<IndexEntry>, key: int): (p: nat)
    ensures p <= |s| && (p < |s| ==> key < s[p].key)
  {
    if s == [] || key < s[0].key then 0 else 1 + Position(s[1..], key)
  }

  lemma {:induction false} InsertIsAtPosition(s: seq<IndexEntry>, e: IndexEntry)
    ensures M.Insert(s, e) == s[..Position(s, e.key)] + [e] + s[Position(s, e.key)..]
  {
    if s != [] && s[0].key <= e.key {
      InsertIsAtPosition(s[1..], e);
      var p := Position(s[1..], e.key);
      assert s[..p + 1] == [s[0]] + s[1..][..p] && s[p + 1..] == s[1..][p..];
    }
  }

  lemma {:induction false} InsertInMiddle(a: seq<IndexEntry>, b: seq<IndexEntry>, c: seq<IndexEntry>, e: IndexEntry)
    requires Below(a, e.key) && Above(c, e.key)
    ensures M.Insert(a + b + c, e) == a + M.Insert(b, e) + c
  {
    if a != [] {
      assert (a + b + c)[1..] == a[1..] + b + c;
      InsertInMiddle(a[1..], b, c, e);
      assert a + M.Insert(b, e) + c == [a[0]] + (a[1..] + M.Insert(b, e) + c);
    } else if b != [] && b[0].key <= e.key {
      assert a + b + c == b + c && (b + c)[1..] == [] + b[1..] + c;
      InsertInMiddle([], b[1..], c, e);
      assert [] + M.Insert(b[1..], e) + c == M.Insert(b[1..], e) + c;
    } else {
      assert a + b + c == b + c;
    }
  }

  lemma {:induction false} InsertAscends(s: seq<IndexEntry>, e: IndexEntry, low: int, high: Option<int>)
    requires M.Sorted(s) && Within(s, low, high)
    requires low <= e.key && (high.Some? ==> e.key < high.value)
    ensures M.Sorted(M.Insert(s, e)) && Within(M.Insert(s, e), low, high)
  {
    var p := Position(s, e.key);
    InsertIsAtPosition(s, e);
    PositionSplits(s, e.key);
    SortedSlice(s, p);
    SortedConcat(s[..p], [e]);
    SortedConcat(s[..p] + [e], s[p..]);
  }

  lemma {:induction false} PositionSplits(s: seq<IndexEntry>, key: int)
    requires M.Sorted(s)
    ensures forall k :: 0 <= k < Position(s, key) ==> s[k].key <= key
    ensures forall k :: Position(s, key) <= k < |s| ==> key < s[k].key
  {
    if s != [] {
      SortedSlice(s, 1);
      if s[0].key <= key {
        PositionSplits(s[1..], key);
      } else {
        assert forall k :: 1 <= k < |s| ==> s[0].key <= s[k].key;
      }
    }
  }

  /** Inserting an entry into the leaf its key routes to is inserting it into the index. */
  lemma {:induction false} PutKeepsShape(t: Tree, i: nat, e: IndexEntry)
    requires Shape(t) && LinkOk(t, i) && RoutesTo(t, e.key, i)
    requires Lows(t)[i] <= e.key && (HighOf(Lows(t), i).Some? ==> e.key < HighOf(Lows(t), i).value)
    ensures var u := WithRun(t, i, M.Insert(Run(t, i), e)); Shape(u) && Contents(u) == M.Insert(Contents(t), e)
  {
    var u := WithRun(t, i, M.Insert(Run(t, i), e));
    WithRunChain(t, i, M.Insert(Run(t, i), e));
    WithRunContents(t, i, M.Insert(Run(t, i), e));
    AroundLeaf(t, i);
    InsertInMiddle(Flat(t, 0, i), Run(t, i), Flat(t, i + 1, |t.leaves|), e);
    assert LeafOk(t, Lows(t), i);
    InsertAscends(Run(t, i), e, Lows(t)[i], HighOf(Lows(t), i));
    assert Lows(u) == Lows(t);
    forall j | 0 <= j < |u.leaves| ensures LeafOk(u, Lows(u), j) {
      assert LinkOk(t, j) && LinkOk(u, j) && LeafOk(t, Lows(t), j);
      assert j < i ==> Apart(t.leaves, j, i);
      assert i < j ==> Apart(t.leaves, i, j);
    }
  }

  // ---- splitting a leaf ---------------------------------------------------

  /** x right behind place i. */
  ghost function Inserted<X>(s: seq<X>, i: nat, x: X): seq<X>
    requires i < |s|
  {
    s[..i + 1] + [x] + s[i + 1..]
  }

  lemma InsertedAt<X>(s: seq<X>, i: nat, x: X, j: nat)
    requires i < |s| && j <= |s|
    ensures |Inserted(s, i, x)| == |s| + 1
    ensures Inserted(s, i, x)[j] == if j <= i then s[j] else if j == i + 1 then x else s[j - 1]
  {
  }

  /** The two leaf pages of a split, before any internal page hears of it. */
  ghost function SplitHalf(t: Tree, i: nat): Tree
    requires LinkOk(t, i)
  {
    var n, right := t.pages[t.leaves[i]], |t.pages|;
    var mid := |n.entries| / 2;
    Tree(t.pages[t.leaves[i] := n.(right := Some(right), entries := n.entries[..mid])] + [Leaf(false, n.parent, n.right, n.entries[mid..])],
         t.root, Inserted(t.leaves, i, right))
  }

  function Unrooted(n: Node, parent: PageId): Node {
    n.(isRoot := false, parent := Some(parent))
  }

  /** A new root over the two halves of the old one. */
  function NewRoot(t: Tree, left: PageId, key: int, right: PageId): Tree
    requires left < |t.pages| && right < |t.pages|
  {
    var root := |t.pages|;
    Tree(t.pages[left := Unrooted(t.pages[left], root)][right := Unrooted(t.pages[right], root)]
           + [Internal(true, None, LevelOf(t.pages[left]) + 1, [Child(KEY_MIN, left), Child(key, right)])],
         root, t.leaves)
  }

  function ChildPosition(children: seq<Child>, key: int): (p: nat)
    ensures p <= |children| && (p < |children| ==> key < children[p].key)
  {
    if children == [] || key < children[0].key then 0 else 1 + ChildPosition(children[1..], key)
  }

  function InsertChild(t: Tree, p: PageId, key: int, child: PageId): Tree
    requires p < |t.pages| && t.pages[p].Internal?
  {
    var n := t.pages[p];
    var at := ChildPosition(n.children, key);
    t.(pages := t.pages[p := n.(children := n.children[..at] + [Child(key, child)] + n.children[at..])])
  }

  lemma SplitHalfLeaves(t: Tree, i: nat)
    requires ChainOk(t) && LinkOk(t, i)
    ensures var u, n := SplitHalf(t, i), t.pages[t.leaves[i]];
      && |u.leaves| == |t.leaves| + 1 && u.leaves[i] == t.leaves[i] && u.leaves[i + 1] == |t.pages|
      && (forall j :: 0 <= j < i ==> u.leaves[j] == t.leaves[j])
      && (forall j :: i + 2 <= j < |u.leaves| ==> u.leaves[j] == t.leaves[j - 1])
  {
    InsertedAt(t.leaves, i, |t.pages|, 0);
  }

  lemma SplitHalfChain(t: Tree, i: nat)
    requires ChainOk(t) && LinkOk(t, i)
    ensures ChainOk(SplitHalf(t, i))
  {
    var u := SplitHalf(t, i);
    SplitHalfLeaves(t, i);
    forall j | 0 <= j < |u.leaves| ensures LinkOk(u, j) {
      if j <= i {
        assert LinkOk(t, j);
        assert j < i ==> Apart(t.leaves, j, i);
      } else if j >= i + 2 {
        assert LinkOk(t, j - 1) && Apart(t.leaves, i, j - 1);
      }
    }
    forall j, k | 0 <= j < k < |u.leaves| ensures Apart(u.leaves, j, k) {
      var j0, k0 := if j <= i then j else j - 1, if k <= i then k else k - 1;
      assert LinkOk(t, j0) && LinkOk(t, k0);
      assert j0 < k0 ==> Apart(t.leaves, j0, k0);
    }
  }

  lemma SplitHalfRuns(t: Tree, i: nat)
    requires ChainOk(t) && LinkOk(t, i)
    ensures var u, n := SplitHalf(t, i), t.pages[t.leaves[i]];
      && Run(u, i) == n.entries[..|n.entries| / 2] && Run(u, i + 1) == n.entries[|n.entries| / 2..]
      && (forall j: nat :: j < i ==> Run(u, j) == Run(t, j))
      && (forall j: nat :: i < j < |t.leaves| ==> Run(u, j + 1) == Run(t, j))
  {
    var u := SplitHalf(t, i);
    SplitHalfLeaves(t, i);
    forall j: nat | j < i ensures Run(u, j) == Run(t, j) {
      assert LinkOk(t, j) && Apart(t.leaves, j, i);
    }
    forall j: nat | i < j < |t.leaves| ensures Run(u, j + 1) == Run(t, j) {
      assert LinkOk(t, j) && Apart(t.leaves, i, j);
      assert u.leaves[j + 1] == t.leaves[j];
    }
  }

  lemma JoinHalves(a: seq<IndexEntry>, b: seq<IndexEntry>, mid: nat, c: seq<IndexEntry>)
    requires mid <= |b|
    ensures a + b[..mid] + (b[mid..] + c) == a + b + c
  {
  }

  lemma SplitHalfAround(t: Tree, i: nat)
    requires ChainOk(t) && LinkOk(t, i)
    ensures var u, n := SplitHalf(t, i), |t.leaves|;
      |u.leaves| == n + 1 && Flat(u, 0, i) == Flat(t, 0, i) && Flat(u, i + 2, n + 1) == Flat(t, i + 1, n)
  {
    var u, n := SplitHalf(t, i), |t.leaves|;
    SplitHalfRuns(t, i);
    FlatEqual(t, 0, i, u);
    FlatSame(t, i + 1, n, u, 1);
  }

  lemma SplitHalfContents(t: Tree, i: nat)
    requires ChainOk(t) && LinkOk(t, i)
    ensures Contents(SplitHalf(t, i)) == Contents(t)
  {
    var u, n := SplitHalf(t, i), |t.leaves|;
    SplitHalfRuns(t, i);
    SplitHalfAround(t, i);
    AroundLeaf(t, i);
    AroundLeaf(u, i);
    assert Flat(u, i + 1, n + 1) == Run(u, i + 1) + Flat(u, i + 2, n + 1);
    JoinHalves(Flat(t, 0, i), Run(t, i), |Run(t, i)| / 2, Flat(t, i + 1, n));
  }

  /** Two pages change flag or parent and one is added: the leaves are what they were. */
  lemma NewRootChain(t: Tree, left: PageId, key: int, right: PageId)
    requires ChainOk(t) && left < |t.pages| && right < |t.pages|
    ensures ChainOk(NewRoot(t, left, key, right)) && Contents(NewRoot(t, left, key, right)) == Contents(t)
  {
    var u := NewRoot(t, left, key, right);
    forall j | 0 <= j < |t.leaves| ensures LinkOk(u, j) && Run(u, j) == Run(t, j) {
      assert LinkOk(t, j);
    }
    FlatEqual(t, 0, |t.leaves|, u);
  }

  lemma InsertChildChain(t: Tree, p: PageId, key: int, child: PageId)
    requires ChainOk(t) && p < |t.pages| && t.pages[p].Internal?
    ensures ChainOk(InsertChild(t, p, key, child)) && Contents(InsertChild(t, p, key, child)) == Contents(t)
  {
    var u := InsertChild(t, p, key, child);
    forall j | 0 <= j < |t.leaves| ensures LinkOk(u, j) && Run(u, j) == Run(t, j) {
      assert LinkOk(t, j);
    }
    FlatEqual(t, 0, |t.leaves|, u);
  }

  /** The two halves do not meet in one key. */
  predicate CleanCut(s: seq<IndexEntry>) {
    |s| >= 2 && s[|s| / 2 - 1].key < s[|s| / 2].key
  }

  lemma SplitRun(s: seq<IndexEntry>, mid: nat, low: int, high: Option<int>)
    requires M.Sorted(s) && Within(s, low, high) && CleanCut(s) && mid == |s| / 2
    ensures M.Sorted(s[..mid]) && Within(s[..mid], low, Some(s[mid].key))
    ensures M.Sorted(s[mid..]) && Within(s[mid..], s[mid].key, high)
    ensures low < s[mid].key && (high.Some? ==> s[mid].key < high.value)
  {
    SortedSlice(s, mid);
    forall k | 0 <= k < mid ensures s[k].key < s[mid].key {
      assert k < mid - 1 ==> M.Before(s, k, mid - 1);
    }
    forall k | 0 <= k < |s[mid..]| ensures s[mid].key <= s[mid..][k].key {
      assert k > 0 ==> M.Before(s, mid, mid + k);
    }
  }

  lemma RootHalves(t: Tree, u: Tree, key: int)
    requires Shape(t) && t.pages[t.root].Leaf? && LinkOk(t, 0) && CleanCut(Run(t, 0)) && ChainOk(u)
    requires key == Run(t, 0)[|Run(t, 0)| / 2].key && u == NewRoot(SplitHalf(t, 0), t.root, key, |t.pages|)
    ensures u.leaves == [t.root, |t.pages|] && Lows(u) == [KEY_MIN, key] && KEY_MIN < key
    ensures LeafOk(u, Lows(u), 0) && LeafOk(u, Lows(u), 1)
  {
    assert LeafOk(t, Lows(t), 0);
    SplitRun(Run(t, 0), |Run(t, 0)| / 2, KEY_MIN, None);
    assert u.leaves == [t.root, |t.pages|];
    assert Lows(u) == [KEY_MIN, key];
    assert LinkOk(u, 0) && LinkOk(u, 1);
  }

  /** The root was the only leaf: height 1, two leaves. */
  lemma RootLeafSplit(t: Tree)
    requires Shape(t) && t.pages[t.root].Leaf? && LinkOk(t, 0) && CleanCut(Run(t, 0))
    ensures var n := t.pages[t.root];
      var u := NewRoot(SplitHalf(t, 0), t.root, n.entries[|n.entries| / 2].key, |t.pages|);
      Shape(u) && Contents(u) == Contents(t)
  {
    var h, key := SplitHalf(t, 0), Run(t, 0)[|Run(t, 0)| / 2].key;
    var u := NewRoot(h, t.root, key, |t.pages|);
    SplitHalfChain(t, 0);
    SplitHalfContents(t, 0);
    NewRootChain(h, t.root, key, |t.pages|);
    RootHalves(t, u, key);
    forall i | 0 <= i < |u.leaves| ensures LeafOk(u, Lows(u), i) {
      assert i == 0 || i == 1;
    }
  }

  lemma {:induction false} ChildPositionIs(children: seq<Child>, key: int, i: nat)
    requires i < |children| && children[i].key <= key && (i + 1 < |children| ==> key < children[i + 1].key)
    requires forall a, b :: 0 <= a < b < |children| ==> children[a].key < children[b].key
    ensures ChildPosition(children, key) == i + 1
  {
    if i > 0 {
      ChildPositionIs(children[1..], key, i - 1);
    }
  }

  ghost function MidKey(t: Tree, i: nat): int
    requires |Run(t, i)| >= 2
  {
    Run(t, i)[|Run(t, i)| / 2].key
  }

  lemma LowsInserted(t: Tree, u: Tree, i: nat, c: Child)
    requires t.root < |t.pages| && u.root < |u.pages| && t.pages[t.root].Internal? && u.pages[u.root].Internal?
    requires i < |t.pages[t.root].children| && u.pages[u.root].children == Inserted(t.pages[t.root].children, i, c)
    ensures Lows(u) == Inserted(Lows(t), i, c.key)
  {
  }

  /** The separator of the new leaf goes right behind that of the leaf it came from. */
  lemma SeparatorGoesBehind(t: Tree, i: nat)
    requires Shape(t) && t.pages[t.root].Internal? && LinkOk(t, i) && |Run(t, i)| >= 2
    ensures var u := InsertChild(SplitHalf(t, i), t.root, MidKey(t, i), |t.pages|);
      && u.pages[t.root].children == Inserted(t.pages[t.root].children, i, Child(MidKey(t, i), |t.pages|))
      && Lows(u) == Inserted(Lows(t), i, MidKey(t, i))
    ensures Lows(t)[i] <= MidKey(t, i) && (HighOf(Lows(t), i).Some? ==> MidKey(t, i) < HighOf(Lows(t), i).value)
  {
    var lows, children := Lows(t), t.pages[t.root].children;
    assert LeafOk(t, lows, i);
    assert SplitHalf(t, i).pages[t.root].children == children;
    forall a, b | 0 <= a < b < |children| ensures children[a].key < children[b].key {
      assert Less(lows, a, b);
    }
    ChildPositionIs(children, MidKey(t, i), i);
    LowsInserted(t, InsertChild(SplitHalf(t, i), t.root, MidKey(t, i), |t.pages|), i, Child(MidKey(t, i), |t.pages|));
  }

  lemma InsertedLowsOk(lows: seq<int>, i: nat, key: int)
    requires LowsOk(lows) && i < |lows| && lows[i] < key && (HighOf(lows, i).Some? ==> key < HighOf(lows, i).value)
    ensures LowsOk(Inserted(lows, i, key))
  {
    var after := Inserted(lows, i, key);
    forall a, b | 0 <= a < b < |after| ensures Less(after, a, b) {
      var a0, b0 := if a <= i then a else a - 1, if b <= i then b else b - 1;
      assert a0 < b0 ==> Less(lows, a0, b0);
      assert a < i ==> Less(lows, a, i);
      assert b > i + 2 ==> Less(lows, i + 1, b - 1);
    }
  }

  ghost predicate IsInnerSplit(t: Tree, i: nat, u: Tree) {
    && Shape(t) && t.pages[t.root].Internal? && LinkOk(t, i) && |Run(t, i)| >= 2 && ChainOk(u)
    && u == InsertChild(SplitHalf(t, i), t.root, MidKey(t, i), |t.pages|)
    && Lows(u) == Inserted(Lows(t), i, MidKey(t, i))
  }

  /** Which leaf of t leaf j of the split tree is. */
  function OldLeaf(i: nat, j: nat): nat {
    if j <= i then j else j - 1
  }

  lemma SplitLows(t: Tree, i: nat, u: Tree, j: nat)
    requires IsInnerSplit(t, i, u) && j <= |t.leaves|
    ensures |Lows(u)| == |u.leaves| == |t.leaves| + 1
    ensures Lows(u)[j] == if j == i + 1 then MidKey(t, i) else Lows(t)[OldLeaf(i, j)]
    ensures HighOf(Lows(u), j) == if j == i then Some(MidKey(t, i)) else HighOf(Lows(t), OldLeaf(i, j))
  {
    InsertedAt(t.leaves, i, |t.pages|, j);
    InsertedAt(Lows(t), i, MidKey(t, i), j);
    if j < |t.leaves| {
      InsertedAt(Lows(t), i, MidKey(t, i), j + 1);
    }
  }

  lemma OtherPageAfterSplit(t: Tree, i: nat, u: Tree, j: nat)
    requires IsInnerSplit(t, i, u) && j <= |t.leaves| && j != i && j != i + 1
    ensures |u.leaves| == |t.leaves| + 1 && LinkOk(t, OldLeaf(i, j))
    ensures u.leaves[j] < |u.pages| && u.pages[u.leaves[j]] == t.pages[t.leaves[OldLeaf(i, j)]]
  {
    SplitHalfLeaves(t, i);
    assert LinkOk(t, OldLeaf(i, j));
    assert j < i ==> Apart(t.leaves, j, i);
    assert i < j ==> Apart(t.leaves, i, j - 1);
  }

  lemma HalfPagesAfterSplit(t: Tree, i: nat, u: Tree)
    requires IsInnerSplit(t, i, u)
    ensures |u.leaves| == |t.leaves| + 1 && u.leaves[i] < |u.pages| && u.leaves[i + 1] < |u.pages|
    ensures var n, left, right := t.pages[t.leaves[i]], u.pages[u.leaves[i]], u.pages[u.leaves[i + 1]];
      && left.Leaf? && left.parent == n.parent && left.entries == n.entries[..|n.entries| / 2]
      && right.Leaf? && right.parent == n.parent && right.entries == n.entries[|n.entries| / 2..]
  {
    SplitHalfLeaves(t, i);
  }

  lemma HalvesAfterSplit(t: Tree, i: nat, u: Tree)
    requires IsInnerSplit(t, i, u) && CleanCut(Run(t, i))
    ensures |u.leaves| == |t.leaves| + 1 == |Lows(u)|
    ensures LeafOk(u, Lows(u), i) && LeafOk(u, Lows(u), i + 1)
  {
    assert LeafOk(t, Lows(t), i);
    SplitLows(t, i, u, i);
    SplitLows(t, i, u, i + 1);
    HalfPagesAfterSplit(t, i, u);
    SplitRun(Run(t, i), |Run(t, i)| / 2, Lows(t)[i], HighOf(Lows(t), i));
    assert LinkOk(u, i) && LinkOk(u, i + 1);
  }

  lemma OtherLeafAfterSplit(t: Tree, i: nat, u: Tree, j: nat)
    requires IsInnerSplit(t, i, u) && j < |u.leaves| && j != i && j != i + 1
    ensures |u.leaves| == |Lows(u)| && LeafOk(u, Lows(u), j)
  {
    SplitHalfLeaves(t, i);
    SplitLows(t, i, u, j);
    OtherPageAfterSplit(t, i, u, j);
    assert LinkOk(u, j) && LeafOk(t, Lows(t), OldLeaf(i, j));
  }

  lemma LeavesAfterSplit(t: Tree, i: nat, u: Tree)
    requires IsInnerSplit(t, i, u) && CleanCut(Run(t, i))
    ensures |u.leaves| == |Lows(u)| && forall j :: 0 <= j < |u.leaves| ==> LeafOk(u, Lows(u), j)
  {
    HalvesAfterSplit(t, i, u);
    forall j | 0 <= j < |u.leaves| ensures LeafOk(u, Lows(u), j) {
      if j != i && j != i + 1 {
        OtherLeafAfterSplit(t, i, u, j);
      }
    }
  }

  lemma ChildrenAfterSplit(t: Tree, i: nat, u: Tree, j: nat)
    requires IsInnerSplit(t, i, u) && j <= |t.leaves|
    requires u.pages[t.root].children == Inserted(t.pages[t.root].children, i, Child(MidKey(t, i), |t.pages|))
    ensures |u.leaves| == |t.leaves| + 1 == |u.pages[t.root].children| && u.pages[t.root].children[j].pid == u.leaves[j]
  {
    InsertedAt(t.leaves, i, |t.pages|, j);
    InsertedAt(t.pages[t.root].children, i, Child(MidKey(t, i), |t.pages|), j);
  }

  lemma RootAfterSplit(t: Tree, i: nat, u: Tree)
    requires IsInnerSplit(t, i, u)
    requires u.pages[t.root].children == Inserted(t.pages[t.root].children, i, Child(MidKey(t, i), |t.pages|))
    ensures RootOk(u)
  {
    assert u.root == t.root && u.pages[t.root].parent == None && u.pages[t.root].level == 1;
    forall j | 0 <= j <= |t.leaves|
      ensures |u.leaves| == |t.leaves| + 1 == |u.pages[t.root].children| && u.pages[t.root].children[j].pid == u.leaves[j] {
      ChildrenAfterSplit(t, i, u, j);
    }
    forall p | 0 <= p < |u.pages| ensures u.pages[p].isRoot <==> p == t.root {
    }
  }

  lemma InnerLeafSplit(t: Tree, i: nat)
    requires Shape(t) && t.pages[t.root].Internal? && LinkOk(t, i) && CleanCut(Run(t, i))
    ensures var u := InsertChild(SplitHalf(t, i), t.root, MidKey(t, i), |t.pages|);
      Shape(u) && Contents(u) == Contents(t)
  {
    var h := SplitHalf(t, i);
    var u := InsertChild(h, t.root, MidKey(t, i), |t.pages|);
    SplitHalfChain(t, i);
    SplitHalfContents(t, i);
    InsertChildChain(h, t.root, MidKey(t, i), |t.pages|);
    SeparatorGoesBehind(t, i);
    RootAfterSplit(t, i, u);
    assert LeafOk(t, Lows(t), i);
    SplitRun(Run(t, i), |Run(t, i)| / 2, Lows(t)[i], HighOf(Lows(t), i));
    InsertedLowsOk(Lows(t), i, MidKey(t, i));
    LeavesAfterSplit(t, i, u);
  }

  // ---- splitting the root -------------------------------------------------

  /** split_internal_page when the page is the root, whatever its level. */
  function SplitRoot(t: Tree): Tree
    requires t.root < |t.pages| && t.pages[t.root].Internal? && |t.pages[t.root].children| >= 2
  {
    var n, right := t.pages[t.root], |t.pages|;
    var mid := |n.children| / 2;
    NewRoot(t.(pages := t.pages[t.root := n.(children := n.children[..mid])] + [Internal(false, n.parent, n.level, n.children[mid..])]),
            t.root, n.children[mid].key, right)
  }

  ghost predicate KeysAscend(children: seq<Child>) {
    forall a, b :: 0 <= a < b < |children| ==> children[a].key <= children[b].key
  }

  lemma {:induction false} RouteIs(children: seq<Child>, key: int, i: nat, r: nat)
    requires KeysAscend(children) && i <= r < |children|
    requires i < r ==> children[r].key <= key
    requires r + 1 < |children| ==> key < children[r + 1].key
    ensures Route(children, key, i) == r
    decreases r - i
  {
    if i < r {
      RouteIs(children, key, i + 1, r);
    }
  }

  /** Routing through the new root and one half is routing through the old root. */
  lemma RouteThroughHalves(children: seq<Child>, key: int, mid: nat)
    requires KeysAscend(children) && 0 < mid < |children|
    ensures key < children[mid].key ==> Route(children, key, 0) == Route(children[..mid], key, 0)
    ensures children[mid].key <= key ==> Route(children, key, 0) == mid + Route(children[mid..], key, 0)
  {
    if key < children[mid].key {
      var r := Route(children[..mid], key, 0);
      assert r > 0 ==> children[..mid][r].key <= key;
      assert r + 1 < mid ==> key < children[..mid][r + 1].key;
      RouteIs(children, key, 0, r);
    } else {
      var r := Route(children[mid..], key, 0);
      assert r > 0 ==> children[mid..][r].key <= key;
      assert r + 1 < |children| - mid ==> key < children[mid..][r + 1].key;
      RouteIs(children, key, 0, mid + r);
    }
  }

  /** Below the root nothing has changed. */
  lemma {:induction false} DescendBelowRoot(t: Tree, pid: PageId, key: int)
    requires t.root < |t.pages| && t.pages[t.root].Internal? && |t.pages[t.root].children| >= 2
    requires pid < |t.pages| && LevelOf(t.pages[pid]) < LevelOf(t.pages[t.root]) && Descend(t.pages, pid, key).Some?
    ensures Descend(SplitRoot(t).pages, pid, key) == Descend(t.pages, pid, key)
    decreases LevelOf(t.pages[pid])
  {
    var u := SplitRoot(t);
    assert u.pages[pid] == t.pages[pid];
    if t.pages[pid].Internal? {
      var next := t.pages[pid].children[Route(t.pages[pid].children, key, 0)].pid;
      assert u.pages[next] == t.pages[next];
      DescendBelowRoot(t, next, key);
    }
  }

  /** Splitting the root leaves find_leaf_page unchanged for every key. */
  lemma SplitRootDescends(t: Tree, key: int)
    requires t.root < |t.pages| && t.pages[t.root].Internal? && |t.pages[t.root].children| >= 2
    requires KeysAscend(t.pages[t.root].children) && Descend(t.pages, t.root, key).Some?
    ensures Descend(SplitRoot(t).pages, SplitRoot(t).root, key) == Descend(t.pages, t.root, key)
  {
    var u, n := SplitRoot(t), t.pages[t.root];
    var mid := |n.children| / 2;
    var next := n.children[Route(n.children, key, 0)].pid;
    RouteThroughHalves(n.children, key, mid);
    DescendBelowRoot(t, next, key);
    assert u.pages[next] == t.pages[next];
    var half := if key < n.children[mid].key then t.root else |t.pages|;
    HalfDescends(t, key, half);
    var top := u.pages[u.root].children;
    assert top[Route(top, key, 0)].pid == half;
  }

  lemma HalfDescends(t: Tree, key: int, half: PageId)
    requires t.root < |t.pages| && t.pages[t.root].Internal? && |t.pages[t.root].children| >= 2
    requires KeysAscend(t.pages[t.root].children) && Descend(t.pages, t.root, key).Some?
    requires half == if key < t.pages[t.root].children[|t.pages[t.root].children| / 2].key then t.root else |t.pages|
    ensures Descend(SplitRoot(t).pages, half, key) == Descend(t.pages, t.root, key)
  {
    var u, n := SplitRoot(t), t.pages[t.root];
    var mid := |n.children| / 2;
    var next := n.children[Route(n.children, key, 0)].pid;
    RouteThroughHalves(n.children, key, mid);
    DescendBelowRoot(t, next, key);
    assert u.pages[next] == t.pages[next];
    assert u.pages[half].children == if key < n.children[mid].key then n.children[..mid] else n.children[mid..];
    assert u.pages[half].children[Route(u.pages[half].children, key, 0)].pid == next;
  }

  lemma SplitRootChain(t: Tree)
    requires ChainOk(t) && t.root < |t.pages| && t.pages[t.root].Internal? && |t.pages[t.root].children| >= 2
    ensures ChainOk(SplitRoot(t)) && SplitRoot(t).leaves == t.leaves
    ensures forall j: nat :: j < |t.leaves| ==> Run(SplitRoot(t), j) == Run(t, j)
  {
    var u := SplitRoot(t);
    forall j: nat | j < |t.leaves| ensures LinkOk(u, j) && Run(u, j) == Run(t, j) {
      assert LinkOk(t, j);
    }
    forall j, k | 0 <= j < k < |u.leaves| ensures Apart(u.leaves, j, k) {
      assert Apart(t.leaves, j, k);
    }
  }

  /** A tree whose root has split can still be searched, with the same answers. */
  lemma SplitRootSearchable(t: Tree)
    requires Searchable(t) && t.root < |t.pages| && t.pages[t.root].Internal?
    requires |t.pages[t.root].children| >= 2 && KeysAscend(t.pages[t.root].children)
    ensures Searchable(SplitRoot(t)) && Contents(SplitRoot(t)) == Contents(t)
  {
    var u := SplitRoot(t);
    SplitRootChain(t);
    FlatEqual(t, 0, |t.leaves|, u);
    forall key: int ensures Routed(u, key) {
      assert Routed(t, key);
      var i: nat :| RoutesTo(t, key, i);
      SplitRootDescends(t, key);
      FlatEqual(t, 0, i, u);
      FlatEqual(t, i + 1, |t.leaves|, u);
      assert RoutesTo(u, key, i);
    }
  }

  lemma ShapeKeysAscend(t: Tree)
    requires Shape(t) && t.pages[t.root].Internal?
    ensures KeysAscend(t.pages[t.root].children)
  {
    var children := t.pages[t.root].children;
    forall a, b | 0 <= a < b < |children| ensures children[a].key <= children[b].key {
      assert Less(Lows(t), a, b);
    }
  }

  // ---- removing an entry --------------------------------------------------

  function Without(s: seq<IndexEntry>, k: nat): seq<IndexEntry>
    requires k < |s|
  {
    s[..k] + s[k + 1..]
  }

  lemma RemoveInMiddle(a: seq<IndexEntry>, b: seq<IndexEntry>, k: nat, c: seq<IndexEntry>)
    requires M.Sorted(a + b + c) && k < |b| && b[k] !in a && b[k] !in b[..k]
    ensures M.Remove(a + b + c, b[k]) == a + Without(b, k) + c
    ensures M.Sorted(a + Without(b, k) + c)
  {
    PlaceInMiddle(a, b, k, c);
    M.RemoveFirstAt(a + b + c, |a| + k);
    WithoutAscends(a + b + c, |a| + k);
  }

  lemma PlaceInMiddle(a: seq<IndexEntry>, b: seq<IndexEntry>, k: nat, c: seq<IndexEntry>)
    requires k < |b|
    ensures var s := a + b + c;
      s[|a| + k] == b[k] && s[..|a| + k] == a + b[..k] && Without(s, |a| + k) == a + Without(b, k) + c
  {
  }

  lemma WithoutAscends(s: seq<IndexEntry>, k: nat)
    requires M.Sorted(s) && k < |s|
    ensures M.Sorted(Without(s, k))
  {
    SortedSlice(s, k);
    SortedSlice(s, k + 1);
    SortedConcat(s[..k], s[k + 1..]);
  }

  lemma {:induction false} BelowByRuns(t: Tree, i: nat, j: nat, key: int)
    ensures Below(Flat(t, i, j), key) <==> forall k: nat :: i <= k < j ==> Below(Run(t, k), key)
    decreases j - i
  {
    if i < j {
      BelowByRuns(t, i + 1, j, key);
      BelowConcat(Run(t, i), Flat(t, i + 1, j), key);
    }
  }

  lemma BelowConcat(a: seq<IndexEntry>, b: seq<IndexEntry>, key: int)
    ensures Below(a + b, key) <==> Below(a, key) && Below(b, key)
    ensures Above(a + b, key) <==> Above(a, key) && Above(b, key)
  {
    assert forall k :: 0 <= k < |a| ==> (a + b)[k] == a[k];
    assert forall k :: 0 <= k < |b| ==> (a + b)[|a| + k] == b[k];
  }

  lemma {:induction false} AboveByRuns(t: Tree, i: nat, j: nat, key: int)
    ensures Above(Flat(t, i, j), key) <==> forall k: nat :: i <= k < j ==> Above(Run(t, k), key)
    decreases j - i
  {
    if i < j {
      AboveByRuns(t, i + 1, j, key);
      BelowConcat(Run(t, i), Flat(t, i + 1, j), key);
    }
  }

  lemma FewerRoutes(t: Tree, u: Tree, key: int, r: nat)
    requires RoutesTo(t, key, r) && u.leaves == t.leaves && Descend(u.pages, u.root, key) == Descend(t.pages, t.root, key)
    requires forall j: nat :: j < |t.leaves| && Below(Run(t, j), key) ==> Below(Run(u, j), key)
    requires forall j: nat :: j < |t.leaves| && Above(Run(t, j), key) ==> Above(Run(u, j), key)
    ensures RoutesTo(u, key, r)
  {
    BelowByRuns(t, 0, r, key);
    BelowByRuns(u, 0, r, key);
    AboveByRuns(t, r + 1, |t.leaves|, key);
    AboveByRuns(u, r + 1, |t.leaves|, key);
  }

  /** Entry k of leaf i is the first of its kind. */
  ghost predicate FirstAt(t: Tree, i: nat, k: nat) {
    k < |Run(t, i)| && Run(t, i)[k] !in Flat(t, 0, i) && Run(t, i)[k] !in Run(t, i)[..k]
  }

  lemma TakeContents(t: Tree, i: nat, k: nat)
    requires ChainOk(t) && M.Sorted(Contents(t)) && LinkOk(t, i) && FirstAt(t, i, k)
    ensures var u := WithRun(t, i, Without(Run(t, i), k));
      Contents(u) == M.Remove(Contents(t), Run(t, i)[k]) && M.Sorted(Contents(u))
  {
    WithRunContents(t, i, Without(Run(t, i), k));
    AroundLeaf(t, i);
    RemoveInMiddle(Flat(t, 0, i), Run(t, i), k, Flat(t, i + 1, |t.leaves|));
  }

  lemma TakeRoutes(t: Tree, i: nat, k: nat, key: int)
    requires ChainOk(t) && Routed(t, key) && LinkOk(t, i) && k < |Run(t, i)|
    ensures Routed(WithRun(t, i, Without(Run(t, i), k)), key)
  {
    var es := Without(Run(t, i), k);
    var r: nat :| RoutesTo(t, key, r);
    WithRunChain(t, i, es);
    WithRunDescends(t, i, es, t.root, key);
    FewerRoutes(t, WithRun(t, i, es), key, r);
  }

  /** Taking the first such entry out of its leaf is removing it from the index; searches stay right. */
  lemma TakeKeepsSearchable(t: Tree, i: nat, k: nat)
    requires Searchable(t) && LinkOk(t, i) && FirstAt(t, i, k)
    ensures var u := WithRun(t, i, Without(Run(t, i), k)); Searchable(u) && Contents(u) == M.Remove(Contents(t), Run(t, i)[k])
  {
    TakeContents(t, i, k);
    WithRunChain(t, i, Without(Run(t, i), k));
    forall key: int ensures Routed(WithRun(t, i, Without(Run(t, i), k)), key) {
      assert Routed(t, key);
      TakeRoutes(t, i, k, key);
    }
  }

  lemma TakeKeepsShape(t: Tree, i: nat, k: nat)
    requires Shape(t) && LinkOk(t, i) && k < |Run(t, i)|
    ensures Shape(WithRun(t, i, Without(Run(t, i), k)))
  {
    var u := WithRun(t, i, Without(Run(t, i), k));
    WithRunChain(t, i, Without(Run(t, i), k));
    assert LeafOk(t, Lows(t), i);
    WithoutAscends(Run(t, i), k);
    assert Lows(u) == Lows(t);
    forall j | 0 <= j < |u.leaves| ensures LeafOk(u, Lows(u), j) {
      assert LinkOk(t, j) && LinkOk(u, j) && LeafOk(t, Lows(t), j);
      assert j < i ==> Apart(t.leaves, j, i);
      assert i < j ==> Apart(t.leaves, i, j);
    }
  }
}
