/** The in-memory index (src/btree.cpp): a multimap kept in key order, entries with equal keys in
    insertion order. It is the specification the on-disk B-tree is held to. */
module MultimapIndex {
  import opened StorageTypes
  import opened Positions

  ghost predicate Before(s: seq<IndexEntry>, i: nat, j: nat) {
    i < |s| && j < |s| && s[i].key <= s[j].key
  }

  ghost predicate Sorted(s: seq<IndexEntry>) {
    forall i, j :: 0 <= i < j < |s| ==> Before(s, i, j)
  }

  function Insert(s: seq<IndexEntry>, e: IndexEntry): seq<IndexEntry> {
    if s == [] || e.key < s[0].key then [e] + s else [s[0]] + Insert(s[1..], e)
  }

  function Find(s: seq<IndexEntry>, key: int): seq<Ctid> {
    if s == [] then []
    else (if s[0].key == key then [s[0].ctid] else []) + Find(s[1..], key)
  }

  function Range(s: seq<IndexEntry>, lo: int, hi: int): seq<IndexEntry> {
    if s == [] then []
    else (if lo <= s[0].key <= hi then [s[0]] else []) + Range(s[1..], lo, hi)
  }

  /** Drops the first entry equal to `e`, if there is one. */
  function Remove(s: seq<IndexEntry>, e: IndexEntry): seq<IndexEntry> {
    if s == [] then []
    else if s[0] == e then s[1..]
    else [s[0]] + Remove(s[1..], e)
  }

  lemma SortedCons(e: IndexEntry, s: seq<IndexEntry>)
    requires Sorted(s) && forall x :: x in s ==> e.key <= x.key
    ensures Sorted([e] + s)
  {
    forall i, j | 0 <= i < j < |[e] + s| ensures Before([e] + s, i, j) {
      assert s[j - 1] in s;
      if i > 0 {
        assert Before(s, i - 1, j - 1);
      }
    }
  }

  lemma SortedTail(s: seq<IndexEntry>)
    requires Sorted(s) && s != []
    ensures Sorted(s[1..]) && forall x :: x in s[1..] ==> s[0].key <= x.key
  {
    forall i, j | 0 <= i < j < |s[1..]| ensures Before(s[1..], i, j) {
      assert Before(s, i + 1, j + 1);
    }
    forall x | x in s[1..] ensures s[0].key <= x.key {
      var i :| 0 <= i < |s[1..]| && s[1..][i] == x;
      assert Before(s, 0, i + 1);
    }
  }

  lemma {:induction false} InsertKeepsMembers(s: seq<IndexEntry>, e: IndexEntry)
    ensures multiset(Insert(s, e)) == multiset(s) + multiset{e}
  {
    if s != [] {
      InsertKeepsMembers(s[1..], e);
      assert s == [s[0]] + s[1..];
    }
  }

  lemma {:induction false} InsertKeepsSorted(s: seq<IndexEntry>, e: IndexEntry)
    requires Sorted(s)
    ensures Sorted(Insert(s, e))
  {
    if s == [] {
    } else {
      SortedTail(s);
      if e.key < s[0].key {
        forall x | x in s ensures e.key <= x.key {
          var i :| 0 <= i < |s| && s[i] == x;
          assert i > 0 ==> Before(s, 0, i);
        }
        SortedCons(e, s);
      } else {
        InsertKeepsSorted(s[1..], e);
        InsertKeepsMembers(s[1..], e);
        forall x | x in Insert(s[1..], e) ensures s[0].key <= x.key {
          assert x in multiset(Insert(s[1..], e));
        }
        SortedCons(s[0], Insert(s[1..], e));
      }
    }
  }

  lemma {:induction false} RemoveKeepsOthers(s: seq<IndexEntry>, e: IndexEntry)
    ensures multiset(Remove(s, e)) == multiset(s) - multiset{e}
  {
    if s != [] {
      assert s == [s[0]] + s[1..];
      RemoveKeepsOthers(s[1..], e);
    }
  }

  /** Erasing the first occurrence is removing the entry. */
  lemma {:induction false} RemoveFirstAt(s: seq<IndexEntry>, k: nat)
    requires k < |s| && s[k] !in s[..k]
    ensures Remove(s, s[k]) == s[..k] + s[k + 1..]
  {
    if k > 0 {
      assert s[0] in s[..k];
      assert s[..k] == [s[0]] + s[1..][..k - 1];
      RemoveFirstAt(s[1..], k - 1);
    }
  }

  lemma {:induction false} RemoveAbsent(s: seq<IndexEntry>, e: IndexEntry)
    requires e !in s
    ensures Remove(s, e) == s
  {
    if s != [] {
      RemoveAbsent(s[1..], e);
    }
  }

  lemma {:induction false} RemoveKeepsSorted(s: seq<IndexEntry>, e: IndexEntry)
    requires Sorted(s)
    ensures Sorted(Remove(s, e)) && forall x :: x in Remove(s, e) ==> x in s
  {
    if s != [] {
      SortedTail(s);
      if s[0] != e {
        RemoveKeepsSorted(s[1..], e);
        SortedCons(s[0], Remove(s[1..], e));
      }
    }
  }

  /** A range holds exactly the entries with a key between the bounds, both included, in index order. */
  lemma {:induction false} RangeIs(s: seq<IndexEntry>, lo: int, hi: int) returns (at: seq<nat>)
    ensures Ascending(at) && |at| == |Range(s, lo, hi)|
    ensures forall k :: 0 <= k < |at| ==> at[k] < |s| && Range(s, lo, hi)[k] == s[at[k]] && lo <= s[at[k]].key && s[at[k]].key <= hi
    ensures forall i :: 0 <= i < |s| && lo <= s[i].key && s[i].key <= hi ==> i in at
  {
    if s == [] {
      at := [];
    } else {
      var tail := RangeIs(s[1..], lo, hi);
      at := ConsPositions(tail, lo <= s[0].key <= hi);
      forall i | 0 <= i < |s| && lo <= s[i].key && s[i].key <= hi ensures i in at {
        assert i > 0 ==> s[1..][i - 1] == s[i];
      }
    }
  }

  /** A search finds the ctids of exactly the entries with the key, in index order. */
  lemma {:induction false} FindIs(s: seq<IndexEntry>, key: int) returns (at: seq<nat>)
    ensures Ascending(at) && |at| == |Find(s, key)|
    ensures forall k :: 0 <= k < |at| ==> at[k] < |s| && s[at[k]] == IndexEntry(key, Find(s, key)[k])
    ensures forall i :: 0 <= i < |s| && s[i].key == key ==> i in at
  {
    if s == [] {
      at := [];
    } else {
      var tail := FindIs(s[1..], key);
      at := ConsPositions(tail, s[0].key == key);
      forall i | 0 <= i < |s| && s[i].key == key ensures i in at {
        assert i > 0 ==> s[1..][i - 1] == s[i];
      }
    }
  }

  /** A new entry stands behind every entry whose key is not larger, and before all others; those keep their order. */
  lemma {:induction false} InsertGoesBehindEquals(s: seq<IndexEntry>, e: IndexEntry) returns (p: nat)
    requires Sorted(s)
    ensures p <= |s| && Insert(s, e) == s[..p] + [e] + s[p..]
    ensures forall k :: 0 <= k < |s| ==> (k < p <==> s[k].key <= e.key)
  {
    if s == [] || e.key < s[0].key {
      p := 0;
      forall k | 0 <= k < |s| ensures e.key < s[k].key {
        assert k > 0 ==> Before(s, 0, k);
      }
    } else {
      SortedTail(s);
      var rest := InsertGoesBehindEquals(s[1..], e);
      p := rest + 1;
      assert s[..p] == [s[0]] + s[1..][..rest] && s[p..] == s[1..][rest..];
      forall k | 0 <= k < |s| ensures k < p <==> s[k].key <= e.key {
        assert k > 0 ==> s[1..][k - 1] == s[k];
      }
    }
  }

  class BTreeIndex {
    var tree: seq<IndexEntry>

    constructor ()
      ensures tree == []
    {
      tree := [];
    }

    method InsertEntry(key: int, ctid: Ctid)
      modifies this
      ensures tree == Insert(old(tree), IndexEntry(key, ctid))
    {
      tree := Insert(tree, IndexEntry(key, ctid));
    }

    method FindEntries(key: int) returns (r: seq<Ctid>)
      ensures r == Find(tree, key)
    {
      r := [];
      for i := 0 to |tree|
        invariant r + Find(tree[i..], key) == Find(tree, key)
      {
        assert tree[i..][1..] == tree[i + 1..];
        if tree[i].key == key {
          r := r + [tree[i].ctid];
        }
      }
    }

    /** equal_range, the iterators as positions. */
    method EqualRange(key: int) returns (first: nat, second: nat)
      requires Sorted(tree)
      ensures first <= second <= |tree|
      ensures forall i :: first <= i < second <==> 0 <= i < |tree| && tree[i].key == key
    {
      first := 0;
      while first < |tree| && tree[first].key < key
        invariant first <= |tree| && forall i :: 0 <= i < first ==> tree[i].key < key
      {
        first := first + 1;
      }
      second := first;
      while second < |tree| && tree[second].key <= key
        invariant first <= second <= |tree| && forall i :: first <= i < second ==> tree[i].key == key
      {
        assert first < second ==> Before(tree, first, second);
        second := second + 1;
      }
      forall i | second <= i < |tree| ensures key < tree[i].key {
        assert second < i ==> Before(tree, second, i);
      }
    }

    /** The first entry with this key and ctid, in the order of insertion, goes; all others stay in place. */
    method RemoveEntry(key: int, ctid: Ctid) returns (removed: bool)
      requires Sorted(tree)
      modifies this
      ensures tree == Remove(old(tree), IndexEntry(key, ctid)) && Sorted(tree)
      ensures removed <==> IndexEntry(key, ctid) in old(tree)
    {
      var first, second := EqualRange(key);
      var at := first;
      RemoveKeepsSorted(tree, IndexEntry(key, ctid));
      while at < second
        invariant first <= at <= second && tree == old(tree)
        invariant IndexEntry(key, ctid) !in tree[..at]
      {
        if tree[at].ctid == ctid {
          RemoveFirstAt(tree, at);
          tree := tree[..at] + tree[at + 1..];
          return true;
        }
        at := at + 1;
      }
      RemoveAbsent(tree, IndexEntry(key, ctid));
      return false;
    }
  }
}
