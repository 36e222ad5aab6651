/** The on-disk B+tree itself (src/disk_btree.cpp), held to the multimap index. Keys may repeat. While the
    root is at level 0 or 1, every operation does to the pages what the multimap does, except that an
    insertion whose split cuts through one key leaves a tree that does not find all of them. */
module DiskIndex {
  import opened StorageTypes
  import opened BTreePages
  import opened BTreeSearch
  import opened BTreeUpdates
  import opened BTreeCuts
  import M = MultimapIndex

  // ---- searching parts ----------------------------------------------------

  lemma {:induction false} RangeConcat(a: seq<IndexEntry>, b: seq<IndexEntry>, lo: int, hi: int)
    ensures M.Range(a + b, lo, hi) == M.Range(a, lo, hi) + M.Range(b, lo, hi)
  {
    if a == [] {
      assert a + b == b;
    } else {
      assert (a + b)[1..] == a[1..] + b && (a + b)[0] == a[0];
      RangeConcat(a[1..], b, lo, hi);
      Associates(if lo <= a[0].key <= hi then [a[0]] else [], M.Range(a[1..], lo, hi), M.Range(b, lo, hi));
    }
  }

  lemma {:induction false} RangeNowhere(s: seq<IndexEntry>, lo: int, hi: int)
    requires Below(s, lo) || Above(s, hi)
    ensures M.Range(s, lo, hi) == []
  {
    if s != [] {
      RangeNowhere(s[1..], lo, hi);
    }
  }

  lemma PastMeansRestAbove(a: seq<IndexEntry>, b: seq<IndexEntry>, key: int)
    requires M.Sorted(a + b) && GoesPast(a, key)
    ensures Above(b, key)
  {
    var k :| 0 <= k < |a| && key < a[k].key;
    SortedParts(a, b);
    assert forall j :: 0 <= j < |b| ==> a[k].key <= b[j].key;
  }

  lemma RestAbove(s: seq<IndexEntry>, i: nat, key: int)
    requires M.Sorted(s) && i < |s| && key < s[i].key
    ensures Above(s[i..], key) && GoesPast(s, key)
  {
    forall k | 0 <= k < |s[i..]| ensures key < s[i..][k].key {
      assert k > 0 ==> M.Before(s, i, i + k);
    }
  }

  /** The leaves from k on hold an ascending part of the contents. */
  lemma TailOfContents(t: Tree, k: nat)
    requires M.Sorted(Contents(t)) && k < |t.leaves|
    ensures M.Sorted(Run(t, k) + Flat(t, k + 1, |t.leaves|)) && M.Sorted(Run(t, k))
    ensures Contents(t) == Flat(t, 0, k) + (Run(t, k) + Flat(t, k + 1, |t.leaves|))
  {
    FlatSplit(t, 0, k, |t.leaves|);
    SortedParts(Flat(t, 0, k), Run(t, k) + Flat(t, k + 1, |t.leaves|));
    SortedParts(Run(t, k), Flat(t, k + 1, |t.leaves|));
  }

  // ---- the index ----------------------------------------------------------

  class DiskBTree {
    const maxLeafKeys: nat
    const maxInternalKeys: nat
    var pages: seq<Node>
    var root: PageId
    ghost var leaves: seq<PageId>

    ghost function View(): Tree
      reads this
    {
      Tree(pages, root, leaves)
    }

    /** Height 0 or 1, no page at its limit. */
    ghost predicate Valid()
      reads this
    {
      maxLeafKeys >= 2 && maxInternalKeys >= 3 && Shape(View()) && Small(View(), maxLeafKeys, maxInternalKeys)
    }

    /** A new file. */
    constructor (maxLeafKeys: nat, maxInternalKeys: nat)
      requires maxLeafKeys >= 2 && maxInternalKeys >= 3
      ensures Valid() && Contents(View()) == []
    {
      this.maxLeafKeys, this.maxInternalKeys := maxLeafKeys, maxInternalKeys;
      pages, root, leaves := [Leaf(true, None, None, [])], 0, [0];
      new;
      assert Lows(View()) == [KEY_MIN] && LinkOk(View(), 0) && LeafOk(View(), Lows(View()), 0);
      assert Contents(View()) == Run(View(), 0) + Flat(View(), 1, 1);
    }

    /** Opens a file: the first page with the root flag is the root, the only one there is. */
    constructor Open(maxLeafKeys: nat, maxInternalKeys: nat, file: seq<Node>, ghost t: Tree)
      requires maxLeafKeys >= 2 && maxInternalKeys >= 3
      requires t.pages == file && Shape(t) && Small(t, maxLeafKeys, maxInternalKeys)
      ensures Valid() && View() == t
    {
      this.maxLeafKeys, this.maxInternalKeys := maxLeafKeys, maxInternalKeys;
      pages, root, leaves := file, 0, t.leaves;
      new;
      for pid := 0 to |pages|
        invariant root == 0 && pages == file && leaves == t.leaves && t.root >= pid
      {
        if pages[pid].isRoot {
          root := pid;
          return;
        }
      }
    }

    method FindLeafPage(key: int) returns (pid: PageId)
      requires Walkable(View())
      ensures Descend(pages, root, key) == Some(pid) && pid < |pages| && pages[pid].Leaf?
    {
      assert Reached(View(), key);
      ghost var i: nat :| StartsAt(View(), key, i);
      assert LinkOk(View(), i);
      pid := root;
      while pages[pid].Internal?
        invariant pid < |pages| && Descend(pages, pid, key) == Descend(pages, root, key) && Descend(pages, pid, key).Some?
        decreases LevelOf(pages[pid])
      {
        var children := pages[pid].children;
        var at := 0;
        while at + 1 < |children| && children[at + 1].key <= key
          invariant at < |children| && Route(children, key, 0) == Route(children, key, at)
        {
          at := at + 1;
        }
        pid := children[at].pid;
      }
    }

    /** What the walk collects; every stored ctid of the key, as the multimap lists them, if the tree is searchable. */
    method FindEntries(key: int) returns (results: seq<Ctid>)
      requires Walkable(View())
      ensures results == Found(View(), key)
      ensures Searchable(View()) ==> results == M.Find(Contents(View()), key)
    {
      var pid := FindLeafPage(key);
      assert Reached(View(), key);
      ghost var k: nat :| StartsAt(View(), key, k);
      FoundFrom(View(), key, k);
      results := FindFrom(pid, key, k);
      if Searchable(View()) {
        SearchableAnswers(View());
      }
    }

    /** The walk along the leaf chain from leaf k. */
    method FindFrom(pid: PageId, key: int, ghost start: nat) returns (results: seq<Ctid>)
      requires ChainOk(View()) && M.Sorted(Contents(View())) && start < |leaves| && pid == leaves[start]
      ensures results == Collected(Runs(View()), start, key, false)
    {
      ghost var t, n, k := View(), |leaves|, start;
      ghost var all := Collected(Runs(t), start, key, false);
      var leaf := Some(pid);
      results := [];
      while leaf.Some?
        invariant start <= k <= n && leaf == (if k < n then Some(leaves[k]) else None)
        invariant results + Collected(Runs(t), k, key, results != []) == all
        decreases n - k
      {
        LeafAscends(t, k);
        var hits, pastKey := FindInLeaf(pages[leaf.value].entries, key);
        var finished := pastKey || (hits == [] && results != []);
        OneLeafSearched(t, k, key, results, hits, pastKey);
        results := results + hits;
        if finished {
          return;
        }
        leaf := pages[leaf.value].right;
        k := k + 1;
      }
    }

    static method FindInLeaf(entries: seq<IndexEntry>, key: int) returns (hits: seq<Ctid>, pastKey: bool)
      requires M.Sorted(entries)
      ensures hits == M.Find(entries, key) && pastKey == GoesPast(entries, key)
    {
      hits, pastKey := [], false;
      ghost var all := M.Find(entries, key);
      for i := 0 to |entries|
        invariant hits + M.Find(entries[i..], key) == all
        invariant forall k :: 0 <= k < i ==> entries[k].key <= key
      {
        assert entries[i..][1..] == entries[i + 1..];
        if entries[i].key == key {
          hits := hits + [entries[i].ctid];
        } else if entries[i].key > key {
          RestAbove(entries, i, key);
          FindNowhere(entries[i..], key);
          pastKey := true;
          return;
        }
      }
    }

    method RangeScan(lo: int, hi: int) returns (results: seq<IndexEntry>)
      requires Searchable(View())
      ensures results == M.Range(Contents(View()), lo, hi)
    {
      SearchableIsWalkable(View());
      var pid := FindLeafPage(lo);
      assert Routed(View(), lo);
      ghost var k: nat :| RoutesTo(View(), lo, k);
      StartOfRange(View(), lo, hi, k);
      results := RangeFrom(pid, lo, hi, k);
    }

    method RangeFrom(pid: PageId, lo: int, hi: int, ghost start: nat) returns (results: seq<IndexEntry>)
      requires ChainOk(View()) && M.Sorted(Contents(View())) && start < |leaves| && pid == leaves[start]
      requires M.Range(Flat(View(), start, |leaves|), lo, hi) == M.Range(Contents(View()), lo, hi)
      ensures results == M.Range(Contents(View()), lo, hi)
    {
      ghost var t, n, k := View(), |leaves|, start;
      var leaf := Some(pid);
      results := [];
      while leaf.Some?
        invariant start <= k <= n && leaf == (if k < n then Some(leaves[k]) else None)
        invariant results == M.Range(Flat(t, start, k), lo, hi)
        decreases n - k
      {
        LeafAscends(t, k);
        var hits, stop := RangeInLeaf(pages[leaf.value].entries, lo, hi);
        OneLeafScanned(t, start, k, lo, hi, stop);
        results := results + hits;
        if stop {
          return;
        }
        leaf := pages[leaf.value].right;
        k := k + 1;
      }
    }

    static method RangeInLeaf(entries: seq<IndexEntry>, lo: int, hi: int) returns (hits: seq<IndexEntry>, stop: bool)
      requires M.Sorted(entries)
      ensures hits == M.Range(entries, lo, hi) && (stop ==> GoesPast(entries, hi))
    {
      hits, stop := [], false;
      ghost var all := M.Range(entries, lo, hi);
      for i := 0 to |entries|
        invariant hits + M.Range(entries[i..], lo, hi) == all
      {
        assert entries[i..][1..] == entries[i + 1..];
        if lo <= entries[i].key <= hi {
          hits := hits + [entries[i]];
        } else if entries[i].key > hi {
          RestAbove(entries, i, hi);
          RangeNowhere(entries[i..], lo, hi);
          stop := true;
          return;
        }
      }
    }

    /** Takes out the entry, if the index has it. */
    method RemoveEntry(key: int, ctid: Ctid) returns (removed: bool)
      requires Searchable(View())
      modifies this`pages
      ensures removed <==> IndexEntry(key, ctid) in old(Contents(View()))
      ensures Contents(View()) == M.Remove(old(Contents(View())), IndexEntry(key, ctid))
      ensures Searchable(View()) && (old(Valid()) ==> Valid())
    {
      ghost var t, n := View(), |leaves|;
      var e := IndexEntry(key, ctid);
      SearchableIsWalkable(t);
      var pid := FindLeafPage(key);
      assert Routed(t, key);
      ghost var start: nat :| RoutesTo(t, key, start);
      ghost var k := start;
      var leaf := Some(pid);
      while leaf.Some?
        invariant start <= k <= n && leaf == (if k < n then Some(leaves[k]) else None) && View() == t
        invariant forall j: nat :: start <= j < k ==> e !in Run(t, j)
        decreases n - k
      {
        LeafAscends(t, k);
        var at, pastKey := FindEntryInLeaf(pages[leaf.value].entries, e);
        if at.Some? {
          var node := pages[leaf.value];
          pages := pages[leaf.value := node.(entries := node.entries[..at.value] + node.entries[at.value + 1..])];
          FirstOfItsKind(t, e, start, k, at.value);
          EntryTaken(t, k, at.value, maxLeafKeys, maxInternalKeys);
          assert View() == WithRun(t, k, Without(Run(t, k), at.value));
          return true;
        }
        if pastKey {
          EntryNowhere(t, e, start, k + 1);
          return false;
        }
        leaf := pages[leaf.value].right;
        k := k + 1;
      }
      EntryNowhere(t, e, start, k);
      return false;
    }

    static method FindEntryInLeaf(entries: seq<IndexEntry>, e: IndexEntry) returns (at: Option<nat>, pastKey: bool)
      requires M.Sorted(entries)
      ensures at.Some? ==> at.value < |entries| && entries[at.value] == e && e !in entries[..at.value]
      ensures at == None ==> e !in entries && (pastKey ==> GoesPast(entries, e.key))
    {
      for i := 0 to |entries|
        invariant e !in entries[..i]
      {
        if entries[i] == e {
          return Some(i), false;
        } else if entries[i].key > e.key {
          RestAbove(entries, i, e.key);
          assert entries == entries[..i] + entries[i..];
          return None, true;
        }
      }
      assert entries[..|entries|] == entries;
      return None, false;
    }

    /** The entry goes where the multimap puts it, and a page that reaches its limit splits. Searches stay
        right exactly if that split does not cut through a key. */
    method InsertEntry(key: int, ctid: Ctid)
      requires Valid() && KEY_MIN <= key
      modifies this
      ensures Contents(View()) == M.Insert(old(Contents(View())), IndexEntry(key, ctid))
      ensures Walkable(View()) && root < |pages|
      ensures AnswersRight(View()) <==> !CutsThroughKey(old(View()), IndexEntry(key, ctid), maxLeafKeys)
      ensures Searchable(View()) <==> !CutsThroughKey(old(View()), IndexEntry(key, ctid), maxLeafKeys)
      ensures Searchable(View()) && LevelOf(pages[root]) <= 1 ==> Valid()
    {
      ghost var t := View();
      ShapeIsSearchable(t);
      SearchableIsWalkable(t);
      var pid := FindLeafPage(key);
      ghost var i := RouteInShape(t, key);
      var e := IndexEntry(key, ctid);
      EntryPut(t, i, e, maxLeafKeys, maxInternalKeys);
      CutsThroughKeyAt(t, e, maxLeafKeys, i);
      var after := InsertInLeaf(pages[pid].entries, e);
      pages := pages[pid := pages[pid].(entries := after)];
      assert View() == WithRun(t, i, M.Insert(Run(t, i), e));
      if |after| >= maxLeafKeys {
        SplitLeafPage(pid, i);
      } else {
        ShapeIsSearchable(View());
        SearchableAnswers(View());
        NowSmall(View(), i, maxLeafKeys, maxInternalKeys);
      }
    }

    /** The entries of the leaf with e in its place, the later ones shifted. */
    static method InsertInLeaf(entries: seq<IndexEntry>, e: IndexEntry) returns (after: seq<IndexEntry>)
      ensures after == M.Insert(entries, e)
    {
      var at := 0;
      while at < |entries| && entries[at].key <= e.key
        invariant at <= |entries| && Position(entries, e.key) == at + Position(entries[at..], e.key)
      {
        at := at + 1;
      }
      InsertIsAtPosition(entries, e);
      after := entries[..at] + [e] + entries[at..];
    }

    /** The contents stay; the tree stays of height 0 or 1 or has just outgrown it; searches stay right
        exactly if the halves do not meet in one key. */
    method SplitLeafPage(pid: PageId, ghost i: nat)
      requires Shape(View()) && LinkOk(View(), i) && leaves[i] == pid && maxLeafKeys >= 2 && maxInternalKeys >= 3
      requires |pages[pid].entries| == maxLeafKeys && SmallBut(View(), i, maxLeafKeys, maxInternalKeys)
      modifies this
      ensures Contents(View()) == old(Contents(View()))
      ensures Walkable(View()) && root < |pages|
      ensures AnswersRight(View()) <==> CleanCut(old(pages[pid].entries))
      ensures Searchable(View()) <==> CleanCut(old(pages[pid].entries))
      // the lower half stays, the upper half is on the new page
      ensures pid < |pages| && pages[pid].Leaf? && pages[pid].entries == old(pages[pid].entries)[..maxLeafKeys / 2]
      ensures |old(pages)| < |pages| && pages[|old(pages)|].Leaf?
           && pages[|old(pages)|].entries == old(pages[pid].entries)[maxLeafKeys / 2..]
      ensures Searchable(View()) && LevelOf(pages[root]) <= 1 ==> Valid()
    {
      ghost var t := View();
      assert LeafOk(t, Lows(t), i);
      var node, right := pages[pid], |pages|;
      var mid := |node.entries| / 2;
      var promoted := node.entries[mid].key;
      var leftNode := node.(right := Some(right), entries := node.entries[..mid]);
      var rightNode := Leaf(false, node.parent, node.right, node.entries[mid..]);
      if node.isRoot {
        var newRoot := right + 1;
        pages := pages[pid := Unrooted(leftNode, newRoot)]
          + [Unrooted(rightNode, newRoot), Internal(true, None, 1, [Child(KEY_MIN, pid), Child(promoted, right)])];
        root := newRoot;
        leaves := SplitHalf(t, i).leaves;
        assert i == 0 && View() == NewRoot(SplitHalf(t, 0), t.root, promoted, right);
      } else {
        pages := pages[pid := leftNode] + [rightNode];
        leaves := SplitHalf(t, i).leaves;
        assert View() == SplitHalf(t, i);
        InsertIntoInternal(node.parent.value, promoted, right);
      }
      assert View() == Grown(t, i, maxInternalKeys);
      LeafGrows(t, i, maxLeafKeys, maxInternalKeys);
      GrownHalves(t, i, maxInternalKeys);
    }

    method InsertIntoInternal(p: PageId, key: int, child: PageId)
      requires p == root < |pages| && pages[p].Internal? && pages[p].isRoot && pages[p].children != [] && maxInternalKeys >= 3
      modifies this`pages, this`root
      ensures View() == AfterInsertChild(InsertChild(old(View()), p, key, child), maxInternalKeys)
    {
      ghost var t := View();
      var node := pages[p];
      var at := 0;
      while at < |node.children| && node.children[at].key <= key
        invariant at <= |node.children| && ChildPosition(node.children, key) == at + ChildPosition(node.children[at..], key)
      {
        at := at + 1;
      }
      pages := pages[p := node.(children := node.children[..at] + [Child(key, child)] + node.children[at..])];
      assert View() == InsertChild(t, p, key, child);
      if |pages[p].children| >= maxInternalKeys {
        SplitInternalPage(p);
      }
    }

    /** The case of the root, the only internal page there is at height 1. */
    method SplitInternalPage(p: PageId)
      requires p == root < |pages| && pages[p].Internal? && pages[p].isRoot && |pages[p].children| >= 2
      modifies this`pages, this`root
      ensures View() == SplitRoot(old(View()))
    {
      ghost var t := View();
      var node, right := pages[p], |pages|;
      var mid, newRoot := |node.children| / 2, right + 1;
      var promoted := node.children[mid].key;
      pages := pages[p := Unrooted(node.(children := node.children[..mid]), newRoot)]
        + [Unrooted(Internal(false, node.parent, node.level, node.children[mid..]), newRoot),
           Internal(true, None, node.level + 1, [Child(KEY_MIN, p), Child(promoted, right)])];
      root := newRoot;
      assert View() == SplitRoot(t);
    }
  }

  /** Leaf k's hits join those before. */
  lemma OneLeafSearched(t: Tree, k: nat, key: int, before: seq<Ctid>, hits: seq<Ctid>, pastKey: bool)
    requires k < |t.leaves| && hits == M.Find(Run(t, k), key) && pastKey == GoesPast(Run(t, k), key)
    ensures var all := before + Collected(Runs(t), k, key, before != []);
      if pastKey || (hits == [] && before != []) then before + hits == all
      else before + hits + Collected(Runs(t), k + 1, key, before + hits != []) == all
  {
    Associates(before, hits, Collected(Runs(t), k + 1, key, before != [] || hits != []));
  }

  lemma StartOfRange(t: Tree, lo: int, hi: int, k: nat)
    requires RoutesTo(t, lo, k)
    ensures M.Range(Contents(t), lo, hi) == M.Range(Flat(t, k, |t.leaves|), lo, hi)
  {
    FlatSplit(t, 0, k, |t.leaves|);
    RangeConcat(Flat(t, 0, k), Flat(t, k, |t.leaves|), lo, hi);
    RangeNowhere(Flat(t, 0, k), lo, hi);
  }

  lemma OneLeafScanned(t: Tree, start: nat, k: nat, lo: int, hi: int, stop: bool)
    requires M.Sorted(Contents(t)) && start <= k < |t.leaves|
    requires stop ==> GoesPast(Run(t, k), hi)
    ensures M.Range(Flat(t, start, k + 1), lo, hi) == M.Range(Flat(t, start, k), lo, hi) + M.Range(Run(t, k), lo, hi)
    ensures stop ==> M.Range(Flat(t, start, |t.leaves|), lo, hi) == M.Range(Flat(t, start, k + 1), lo, hi)
  {
    var rest := Flat(t, k + 1, |t.leaves|);
    OneMoreLeaf(t, start, k);
    RangeConcat(Flat(t, start, k), Run(t, k), lo, hi);
    if stop {
      TailOfContents(t, k);
      PastMeansRestAbove(Run(t, k), rest, hi);
      RangeNowhere(rest, lo, hi);
      FlatSplit(t, start, k + 1, |t.leaves|);
      RangeConcat(Flat(t, start, k + 1), rest, lo, hi);
    }
  }

  lemma LeafAscends(t: Tree, k: nat)
    requires ChainOk(t) && M.Sorted(Contents(t)) && k < |t.leaves|
    ensures LinkOk(t, k) && M.Sorted(t.pages[t.leaves[k]].entries) && Run(t, k) == t.pages[t.leaves[k]].entries
  {
    assert LinkOk(t, k);
    TailOfContents(t, k);
  }

  // ---- removing -----------------------------------------------------------

  lemma {:induction false} NotInFlat(t: Tree, i: nat, j: nat, e: IndexEntry)
    requires forall k: nat :: i <= k < j ==> e !in Run(t, k)
    ensures e !in Flat(t, i, j)
    decreases j - i
  {
    if i < j {
      NotInFlat(t, i + 1, j, e);
    }
  }

  /** Neither before the leaf where the search starts, nor in the leaves searched, nor behind them. */
  lemma {:induction false} EntryNowhere(t: Tree, e: IndexEntry, start: nat, k: nat)
    requires Searchable(t) && RoutesTo(t, e.key, start) && start < k <= |t.leaves|
    requires forall j: nat :: start <= j < k ==> e !in Run(t, j)
    requires k == |t.leaves| || GoesPast(Run(t, k - 1), e.key)
    ensures e !in Contents(t) && M.Remove(Contents(t), e) == Contents(t)
  {
    var rest := Flat(t, k, |t.leaves|);
    FlatSplit(t, 0, start, |t.leaves|);
    FlatSplit(t, start, k, |t.leaves|);
    NotInFlat(t, start, k, e);
    if k < |t.leaves| {
      TailOfContents(t, k - 1);
      PastMeansRestAbove(Run(t, k - 1), rest, e.key);
    }
    assert e !in Flat(t, 0, start) && e !in rest;
    M.RemoveAbsent(Contents(t), e);
  }

  lemma FirstOfItsKind(t: Tree, e: IndexEntry, start: nat, i: nat, k: nat)
    requires RoutesTo(t, e.key, start) && start <= i && k < |Run(t, i)| && Run(t, i)[k] == e && e !in Run(t, i)[..k]
    requires forall j: nat :: start <= j < i ==> e !in Run(t, j)
    ensures FirstAt(t, i, k)
  {
    FlatSplit(t, 0, start, i);
    NotInFlat(t, start, i, e);
    assert e !in Flat(t, 0, start);
  }

  lemma EntryTaken(t: Tree, i: nat, k: nat, maxLeafKeys: nat, maxInternalKeys: nat)
    requires Searchable(t) && LinkOk(t, i) && FirstAt(t, i, k)
    ensures var u := WithRun(t, i, Without(Run(t, i), k));
      && Searchable(u) && Contents(u) == M.Remove(Contents(t), Run(t, i)[k])
      && (Shape(t) && Small(t, maxLeafKeys, maxInternalKeys) ==> Shape(u) && Small(u, maxLeafKeys, maxInternalKeys))
    ensures Run(t, i)[k] in Contents(t)
  {
    TakeKeepsSearchable(t, i, k);
    AroundLeaf(t, i);
    if Shape(t) && Small(t, maxLeafKeys, maxInternalKeys) {
      TakeKeepsShape(t, i, k);
      WithRunChain(t, i, Without(Run(t, i), k));
    }
  }

  // ---- inserting ----------------------------------------------------------

  /** The leaf the entry goes to becomes full, and its two halves then meet in one key. */
  ghost predicate CutsThroughKey(t: Tree, e: IndexEntry, maxLeafKeys: nat) {
    exists i: nat :: StartsAt(t, e.key, i) && CutsLeaf(M.Insert(Run(t, i), e), maxLeafKeys)
  }

  predicate CutsLeaf(entries: seq<IndexEntry>, maxLeafKeys: nat) {
    |entries| >= maxLeafKeys && !CleanCut(entries)
  }

  lemma CutsThroughKeyAt(t: Tree, e: IndexEntry, maxLeafKeys: nat, i: nat)
    requires ChainOk(t) && StartsAt(t, e.key, i)
    ensures CutsThroughKey(t, e, maxLeafKeys) <==> CutsLeaf(M.Insert(Run(t, i), e), maxLeafKeys)
  {
    forall j: nat | StartsAt(t, e.key, j) ensures j == i {
      assert i < j ==> Apart(t.leaves, i, j);
      assert j < i ==> Apart(t.leaves, j, i);
    }
  }

  /** Leaf i may be full. */
  ghost predicate SmallBut(t: Tree, i: nat, maxLeafKeys: nat, maxInternalKeys: nat) {
    && (forall j: nat :: j < |t.leaves| && j != i ==> |Run(t, j)| < maxLeafKeys)
    && (t.root < |t.pages| && t.pages[t.root].Internal? ==> |t.pages[t.root].children| < maxInternalKeys)
  }

  lemma NowSmall(t: Tree, i: nat, maxLeafKeys: nat, maxInternalKeys: nat)
    requires SmallBut(t, i, maxLeafKeys, maxInternalKeys) && |Run(t, i)| < maxLeafKeys
    ensures Small(t, maxLeafKeys, maxInternalKeys)
  {
  }

  lemma {:induction false} EntryPut(t: Tree, i: nat, e: IndexEntry, maxLeafKeys: nat, maxInternalKeys: nat)
    requires Shape(t) && LinkOk(t, i) && RoutesTo(t, e.key, i) && Small(t, maxLeafKeys, maxInternalKeys)
    requires Lows(t)[i] <= e.key && (HighOf(Lows(t), i).Some? ==> e.key < HighOf(Lows(t), i).value)
    ensures var u := WithRun(t, i, M.Insert(Run(t, i), e));
      Shape(u) && Contents(u) == M.Insert(Contents(t), e) && SmallBut(u, i, maxLeafKeys, maxInternalKeys) && LinkOk(u, i)
    ensures |M.Insert(Run(t, i), e)| == |Run(t, i)| + 1
  {
    PutKeepsShape(t, i, e);
    WithRunChain(t, i, M.Insert(Run(t, i), e));
    InsertIsAtPosition(Run(t, i), e);
    assert LinkOk(WithRun(t, i, M.Insert(Run(t, i), e)), i);
  }

  ghost function AfterInsertChild(t: Tree, maxInternalKeys: nat): Tree
    requires t.root < |t.pages| && t.pages[t.root].Internal? && |t.pages[t.root].children| >= 2
  {
    if |t.pages[t.root].children| >= maxInternalKeys then SplitRoot(t) else t
  }

  ghost function Grown(t: Tree, i: nat, maxInternalKeys: nat): Tree
    requires Shape(t) && LinkOk(t, i) && |Run(t, i)| >= 2
  {
    var u := SplitLeaf(t, i);
    LeafSplits(t, i);
    if t.pages[t.root].Leaf? then u else AfterInsertChild(u, maxInternalKeys)
  }

  /** The pages of the two halves, whatever became of the root. */
  lemma GrownHalves(t: Tree, i: nat, maxInternalKeys: nat)
    requires Shape(t) && LinkOk(t, i) && |Run(t, i)| >= 2
    ensures var v, pid, es := Grown(t, i, maxInternalKeys), t.leaves[i], Run(t, i);
      && |t.pages| < |v.pages| && v.pages[pid].Leaf? && v.pages[|t.pages|].Leaf?
      && v.pages[pid].entries == es[..|es| / 2] && v.pages[|t.pages|].entries == es[|es| / 2..]
  {
    var u, pid, es := SplitLeaf(t, i), t.leaves[i], Run(t, i);
    assert |t.pages| < |u.pages| && u.pages[pid].Leaf? && u.pages[|t.pages|].Leaf?;
    assert u.pages[pid].entries == es[..|es| / 2] && u.pages[|t.pages|].entries == es[|es| / 2..];
    LeafSplits(t, i);
    if t.pages[t.root].Internal? {
      RestStays(u, maxInternalKeys, pid);
      RestStays(u, maxInternalKeys, |t.pages|);
    }
  }

  lemma RestStays(u: Tree, maxInternalKeys: nat, pid: PageId)
    requires u.root < |u.pages| && u.pages[u.root].Internal? && |u.pages[u.root].children| >= 2 && pid < |u.pages| && pid != u.root
    ensures var v := AfterInsertChild(u, maxInternalKeys); pid < |v.pages| && v.pages[pid] == u.pages[pid]
  {
  }

  /** The root above the halves may have to split as well; that changes no answer. */
  lemma RootGrows(u: Tree, maxInternalKeys: nat)
    requires Walkable(u) && RootOk(u) && u.pages[u.root].Internal?
    requires |u.pages[u.root].children| >= 2 && KeysAscend(u.pages[u.root].children)
    ensures var v := AfterInsertChild(u, maxInternalKeys);
      && Walkable(v) && Contents(v) == Contents(u) && v.root < |v.pages|
      && (AnswersRight(v) <==> AnswersRight(u)) && (Searchable(u) ==> Searchable(v))
      && (LevelOf(v.pages[v.root]) <= 1 ==> v == u && |u.pages[u.root].children| < maxInternalKeys)
  {
    if |u.pages[u.root].children| >= maxInternalKeys {
      SplitRootFinds(u);
      if Searchable(u) {
        SplitRootSearchable(u);
      }
    }
  }

  lemma LeafGrows(t: Tree, i: nat, maxLeafKeys: nat, maxInternalKeys: nat)
    requires Shape(t) && LinkOk(t, i) && |Run(t, i)| == maxLeafKeys >= 2 && maxInternalKeys >= 3
    requires SmallBut(t, i, maxLeafKeys, maxInternalKeys)
    ensures var v := Grown(t, i, maxInternalKeys);
      && Contents(v) == Contents(t) && Walkable(v) && v.root < |v.pages|
      && (AnswersRight(v) <==> CleanCut(Run(t, i))) && (Searchable(v) <==> CleanCut(Run(t, i)))
      && (Searchable(v) && LevelOf(v.pages[v.root]) <= 1 ==> Shape(v) && Small(v, maxLeafKeys, maxInternalKeys))
  {
    var u, v := SplitLeaf(t, i), Grown(t, i, maxInternalKeys);
    LeafSplits(t, i);
    SplitAnswersExactlyWhen(t, i);
    SmallAfterSplit(t, i, maxLeafKeys, maxInternalKeys);
    if t.pages[t.root].Internal? {
      RootGrows(u, maxInternalKeys);
    }
    if Searchable(v) {
      SearchableAnswers(v);
    }
  }

  lemma RunAfterSplit(t: Tree, i: nat, j: nat)
    requires Shape(t) && LinkOk(t, i) && |Run(t, i)| >= 2 && j <= |t.leaves|
    ensures |SplitLeaf(t, i).leaves| == |t.leaves| + 1
    ensures Run(SplitLeaf(t, i), j) == Run(SplitHalf(t, i), j)
  {
    SplitHalfChain(t, i);
    InsertedAt(t.leaves, i, |t.pages|, j);
    assert LinkOk(SplitHalf(t, i), j);
  }

  lemma HalfIsSmall(t: Tree, i: nat, j: nat, maxLeafKeys: nat, maxInternalKeys: nat)
    requires Shape(t) && LinkOk(t, i) && |Run(t, i)| == maxLeafKeys >= 2 && j <= |t.leaves|
    requires SmallBut(t, i, maxLeafKeys, maxInternalKeys)
    ensures |Run(SplitHalf(t, i), j)| < maxLeafKeys
  {
    SplitHalfRuns(t, i);
    assert j > i + 1 ==> Run(SplitHalf(t, i), j) == Run(t, j - 1);
  }

  lemma SmallAfterSplit(t: Tree, i: nat, maxLeafKeys: nat, maxInternalKeys: nat)
    requires Shape(t) && LinkOk(t, i) && |Run(t, i)| == maxLeafKeys >= 2
    requires SmallBut(t, i, maxLeafKeys, maxInternalKeys)
    ensures |SplitLeaf(t, i).leaves| == |t.leaves| + 1
    ensures forall j: nat :: j <= |t.leaves| ==> |Run(SplitLeaf(t, i), j)| < maxLeafKeys
  {
    RunAfterSplit(t, i, 0);
    forall j: nat | j <= |t.leaves| ensures |Run(SplitLeaf(t, i), j)| < maxLeafKeys {
      RunAfterSplit(t, i, j);
      HalfIsSmall(t, i, j, maxLeafKeys, maxInternalKeys);
    }
  }
}
