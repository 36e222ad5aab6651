/** Equal keys in the B+tree (src/disk_btree.cpp): a leaf may hold one key many times, and a split that
    cuts through such a key loses the entries on its left. */
module BTreeCuts {
  import opened StorageTypes
  import opened BTreePages
  import opened BTreeSearch
  import opened BTreeUpdates
  import M = MultimapIndex

  /** split_leaf_page on leaf i, in a tree of height 0 or 1. */
  ghost function SplitLeaf(t: Tree, i: nat): Tree
    requires t.root < |t.pages| && LinkOk(t, i) && |Run(t, i)| >= 2
  {
    if t.pages[t.root].Leaf? then NewRoot(SplitHalf(t, i), t.root, MidKey(t, i), |t.pages|)
    else InsertChild(SplitHalf(t, i), t.root, MidKey(t, i), |t.pages|)
  }

  // ---- where searches start after any split ------------------------------------

  /** The key of the separator is searched from the right half on. */
  ghost predicate IsSplit(t: Tree, i: nat, u: Tree, key: int) {
    && ChainOk(u) && RootOk(u) && Contents(u) == Contents(t) && u.pages[u.root].Internal?
    && KeysAscend(u.pages[u.root].children) && StartsAt(u, key, i + 1)
  }

  lemma StartInRooted(t: Tree, key: int)
    requires ChainOk(t) && RootOk(t)
    ensures StartsAt(t, key, if t.pages[t.root].Leaf? then 0 else Route(t.pages[t.root].children, key, 0))
  {
    var i := if t.pages[t.root].Leaf? then 0 else Route(t.pages[t.root].children, key, 0);
    assert LinkOk(t, i);
  }

  lemma RootedIsWalkable(t: Tree)
    requires ChainOk(t) && RootOk(t) && M.Sorted(Contents(t))
    ensures Walkable(t)
  {
    forall key: int ensures Reached(t, key) {
      StartInRooted(t, key);
    }
  }

  /** The pages and the leaves when the root was the only leaf. */
  lemma RootLeafHalves(t: Tree)
    requires Shape(t) && t.pages[t.root].Leaf? && LinkOk(t, 0) && |Run(t, 0)| >= 2
    ensures var u := SplitLeaf(t, 0);
      && u.leaves == [t.root, |t.pages|] && u.root == |t.pages| + 1 == |u.pages| - 1
      && u.pages[u.root] == Internal(true, None, 1, [Child(KEY_MIN, t.root), Child(MidKey(t, 0), |t.pages|)])
      && forall p :: 0 <= p < |u.pages| - 1 ==> !u.pages[p].isRoot
    ensures KEY_MIN <= MidKey(t, 0)
  {
    assert SplitLeaf(t, 0).leaves == [t.root, |t.pages|];
    assert LeafOk(t, Lows(t), 0);
  }

  lemma RootLeafSplits(t: Tree)
    requires Shape(t) && t.pages[t.root].Leaf? && LinkOk(t, 0) && |Run(t, 0)| >= 2
    ensures IsSplit(t, 0, SplitLeaf(t, 0), MidKey(t, 0))
  {
    var h, key := SplitHalf(t, 0), MidKey(t, 0);
    var u := SplitLeaf(t, 0);
    SplitHalfChain(t, 0);
    SplitHalfContents(t, 0);
    NewRootChain(h, t.root, key, |t.pages|);
    RootLeafHalves(t);
    StartInRooted(u, key);
  }

  lemma InsertedAscends(children: seq<Child>, i: nat, c: Child)
    requires KeysAscend(children) && i < |children| && children[i].key <= c.key
    requires i + 1 < |children| ==> c.key < children[i + 1].key
    ensures KeysAscend(Inserted(children, i, c))
    ensures Route(Inserted(children, i, c), c.key, 0) == i + 1
  {
    var after := Inserted(children, i, c);
    forall a, b | 0 <= a < b < |after| ensures after[a].key <= after[b].key {
      var a0, b0 := if a <= i then a else a - 1, if b <= i then b else b - 1;
      assert a0 < b0 ==> children[a0].key <= children[b0].key;
      assert a < i ==> children[a].key <= children[i].key;
      assert b > i + 2 ==> children[i + 1].key <= children[b - 1].key;
    }
    RouteIs(after, c.key, 0, i + 1);
  }

  lemma InnerLeafSplits(t: Tree, i: nat)
    requires Shape(t) && t.pages[t.root].Internal? && LinkOk(t, i) && |Run(t, i)| >= 2
    ensures IsSplit(t, i, SplitLeaf(t, i), MidKey(t, i))
  {
    var h, key := SplitHalf(t, i), MidKey(t, i);
    var u := SplitLeaf(t, i);
    SplitHalfChain(t, i);
    SplitHalfContents(t, i);
    InsertChildChain(h, t.root, key, |t.pages|);
    SeparatorGoesBehind(t, i);
    RootAfterSplit(t, i, u);
    ShapeKeysAscend(t);
    InsertedAscends(t.pages[t.root].children, i, Child(key, |t.pages|));
    StartInRooted(u, key);
  }

  lemma LeafSplits(t: Tree, i: nat)
    requires Shape(t) && LinkOk(t, i) && |Run(t, i)| >= 2
    ensures IsSplit(t, i, SplitLeaf(t, i), MidKey(t, i)) && Walkable(SplitLeaf(t, i))
  {
    if t.pages[t.root].Leaf? {
      RootLeafSplits(t);
    } else {
      InnerLeafSplits(t, i);
    }
    FlatBounds(t, 0, |t.leaves|);
    RootedIsWalkable(SplitLeaf(t, i));
  }

  // ---- exactly when searches stay right -----------------------------------------

  lemma HalvesOfSplit(t: Tree, i: nat)
    requires Shape(t) && LinkOk(t, i) && |Run(t, i)| >= 2
    ensures var es, u := Run(t, i), SplitLeaf(t, i);
      |u.leaves| == |t.leaves| + 1 && Run(u, i) == es[..|es| / 2] && Run(u, i + 1) == es[|es| / 2..]
  {
    SplitHalfRuns(t, i);
    SplitHalfLeaves(t, i);
  }

  lemma HitUpToLeaf(t: Tree, i: nat, k: nat)
    requires k < |Run(t, i)|
    ensures M.Find(Flat(t, 0, i + 1), Run(t, i)[k].key) != []
  {
    FindHits(Run(t, i), k);
    OneMoreLeaf(t, 0, i);
    FindConcat(Flat(t, 0, i), Run(t, i), Run(t, i)[k].key);
  }

  lemma MidKeyOnBothSides(t: Tree, i: nat)
    requires Shape(t) && LinkOk(t, i) && |Run(t, i)| >= 2 && !CleanCut(Run(t, i))
    ensures Run(t, i)[|Run(t, i)| / 2 - 1].key == MidKey(t, i)
  {
    assert LeafOk(t, Lows(t), i);
    assert M.Before(Run(t, i), |Run(t, i)| / 2 - 1, |Run(t, i)| / 2);
  }

  lemma LeftHalfEndsInMidKey(t: Tree, i: nat) returns (last: nat)
    requires Shape(t) && LinkOk(t, i) && |Run(t, i)| >= 2 && !CleanCut(Run(t, i))
    ensures last < |Run(SplitLeaf(t, i), i)| && Run(SplitLeaf(t, i), i)[last].key == MidKey(t, i)
  {
    last := |Run(t, i)| / 2 - 1;
    MidKeyOnBothSides(t, i);
    HalvesOfSplit(t, i);
  }

  lemma HitBeforeStartIsLost(t: Tree, key: int, i: nat, k: nat)
    requires Walkable(t) && StartsAt(t, key, i + 1) && k < |Run(t, i)| && Run(t, i)[k].key == key
    ensures !AnswersRight(t)
  {
    HitUpToLeaf(t, i, k);
    EarlierEntryIsLost(t, key, i + 1);
  }

  lemma CutKeyIsLost(t: Tree, i: nat)
    requires Shape(t) && LinkOk(t, i) && |Run(t, i)| >= 2 && !CleanCut(Run(t, i))
    ensures Walkable(SplitLeaf(t, i)) && !AnswersRight(SplitLeaf(t, i))
  {
    LeafSplits(t, i);
    var last := LeftHalfEndsInMidKey(t, i);
    HitBeforeStartIsLost(SplitLeaf(t, i), MidKey(t, i), i, last);
  }

  /** After the split of any leaf, find_entries gives the multimap's answer for every key exactly when
      the two halves do not meet in one key; then the tree keeps its shape, too. */
  lemma SplitAnswersExactlyWhen(t: Tree, i: nat)
    requires Shape(t) && LinkOk(t, i) && |Run(t, i)| >= 2
    ensures var u := SplitLeaf(t, i);
      && Walkable(u) && Contents(u) == Contents(t)
      && (AnswersRight(u) <==> CleanCut(Run(t, i)))
      && (Searchable(u) <==> CleanCut(Run(t, i)))
      && (Shape(u) <==> CleanCut(Run(t, i)))
  {
    var u := SplitLeaf(t, i);
    LeafSplits(t, i);
    if CleanCut(Run(t, i)) {
      if t.pages[t.root].Leaf? {
        RootLeafSplit(t);
      } else {
        InnerLeafSplit(t, i);
      }
      ShapeIsSearchable(u);
      SearchableAnswers(u);
    } else {
      CutKeyIsLost(t, i);
      if Shape(u) {
        ShapeIsSearchable(u);
      }
      if Searchable(u) {
        SearchableAnswers(u);
      }
    }
  }

  // ---- a concrete loss -------------------------------------------------------

  lemma {:induction false} FindAllEqual(s: seq<IndexEntry>, key: int)
    requires forall k :: 0 <= k < |s| ==> s[k].key == key
    ensures |M.Find(s, key)| == |s|
  {
    if s != [] {
      FindAllEqual(s[1..], key);
    }
  }

  lemma LastLeafCollects(t: Tree, key: int, i: nat)
    requires ChainOk(t) && StartsAt(t, key, i) && i + 1 == |t.leaves|
    ensures Found(t, key) == M.Find(Run(t, i), key)
  {
    FoundFrom(t, key, i);
    assert Collected(Runs(t), i + 1, key, M.Find(Run(t, i), key) != []) == [];
  }

  lemma OneLeafContents(t: Tree)
    requires |t.leaves| == 1
    ensures Contents(t) == Run(t, 0)
  {
    assert Flat(t, 1, 1) == [];
  }

  /** A root leaf full of one key: the split loses the left half of the entries. */
  lemma OneKeyLosesHalf(t: Tree, key: int)
    requires Shape(t) && t.pages[t.root].Leaf? && LinkOk(t, 0) && |Run(t, 0)| >= 2
    requires forall k :: 0 <= k < |Run(t, 0)| ==> Run(t, 0)[k].key == key
    ensures Walkable(SplitLeaf(t, 0))
    ensures |M.Find(Contents(t), key)| == |Run(t, 0)|
    ensures |Found(SplitLeaf(t, 0), key)| == |Run(t, 0)| - |Run(t, 0)| / 2
  {
    var es := Run(t, 0);
    var upper := es[|es| / 2..];
    assert forall k :: 0 <= k < |upper| ==> upper[k].key == key;
    FindAllEqual(es, key);
    FindAllEqual(upper, key);
    OneLeafContents(t);
    LeafSplits(t, 0);
    HalvesOfSplit(t, 0);
    LastLeafCollects(SplitLeaf(t, 0), key, 1);
  }

  /** With the limit of the source, 64 keys a leaf: 64 versions of item 7, of which 32 are found. */
  lemma VersionsAreLost() returns (t: Tree)
    ensures Shape(t) && LinkOk(t, 0) && |Run(t, 0)| == 64 && |M.Find(Contents(t), 7)| == 64
    ensures Walkable(SplitLeaf(t, 0)) && |Found(SplitLeaf(t, 0), 7)| == 32
  {
    var es := seq(64, (k: nat) => IndexEntry(7, Ctid(k, 0)));
    t := Tree([Leaf(true, None, None, es)], 0, [0]);
    assert Lows(t) == [KEY_MIN];
    assert LinkOk(t, 0) && Run(t, 0) == es && LeafOk(t, Lows(t), 0);
    OneKeyLosesHalf(t, 7);
  }

  // ---- splitting the root above -------------------------------------------------

  /** Splitting an internal root changes no answer, right or wrong. */
  lemma SplitRootFinds(t: Tree)
    requires Walkable(t) && t.root < |t.pages| && t.pages[t.root].Internal?
    requires |t.pages[t.root].children| >= 2 && KeysAscend(t.pages[t.root].children)
    ensures Walkable(SplitRoot(t)) && Contents(SplitRoot(t)) == Contents(t)
    ensures forall key: int :: Found(SplitRoot(t), key) == Found(t, key)
  {
    var u := SplitRoot(t);
    SplitRootChain(t);
    FlatEqual(t, 0, |t.leaves|, u);
    assert Runs(u) == Runs(t);
    forall key: int ensures Reached(u, key) && Found(u, key) == Found(t, key) {
      assert Reached(t, key);
      var i: nat :| StartsAt(t, key, i);
      SplitRootDescends(t, key);
      assert StartsAt(u, key, i);
      FoundFrom(t, key, i);
      FoundFrom(u, key, i);
    }
  }

  /** The parent of leaf j is a page that points back at it, so a split of the leaf reaches the right page. */
  ghost predicate ParentPointsBack(t: Tree, j: nat)
    requires LinkOk(t, j)
  {
    var parent := t.pages[t.leaves[j]].parent;
    && parent.Some? && parent.value < |t.pages| && t.pages[parent.value].Internal?
    && exists k :: 0 <= k < |t.pages[parent.value].children| && t.pages[parent.value].children[k].pid == t.leaves[j]
  }

  /** Why insertion stops at height 1: split_internal_page does not touch the children it moves, so
      exactly the leaves of the left half keep a parent that points back. */
  lemma ParentsAfterRootSplit(t: Tree, j: nat)
    requires Shape(t) && t.pages[t.root].Internal? && |t.pages[t.root].children| >= 2 && j < |t.leaves|
    ensures LinkOk(SplitRoot(t), j)
    ensures ParentPointsBack(SplitRoot(t), j) <==> j < |t.leaves| / 2
  {
    var u, children, mid := SplitRoot(t), t.pages[t.root].children, |t.leaves| / 2;
    SplitRootChain(t);
    assert LinkOk(t, j) && LeafOk(t, Lows(t), j) && LinkOk(u, j);
    assert u.pages[t.leaves[j]].parent == Some(t.root);
    assert u.pages[t.root].children == children[..mid];
    if j < mid {
      assert children[..mid][j].pid == t.leaves[j];
    } else {
      forall k | 0 <= k < mid ensures children[..mid][k].pid != t.leaves[j] {
        assert children[k].pid == t.leaves[k] && Apart(t.leaves, k, j);
      }
    }
  }
}
