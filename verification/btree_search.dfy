/** What a search collects as it walks along the leaf chain (src/disk_btree.cpp), and when that is
    everything the index holds under the key. */
module BTreeSearch {
  import opened StorageTypes
  import opened BTreePages
  import M = MultimapIndex

  // ---- searching parts ----------------------------------------------------

  lemma Associates<X>(a: seq<X>, b: seq<X>, c: seq<X>)
    ensures a + b + c == a + (b + c)
  {
  }

  lemma {:induction false} FindConcat(a: seq<IndexEntry>, b: seq<IndexEntry>, key: int)
    ensures M.Find(a + b, key) == M.Find(a, key) + M.Find(b, key)
  {
    if a == [] {
      assert a + b == b;
    } else {
      assert (a + b)[1..] == a[1..] + b && (a + b)[0] == a[0];
      FindConcat(a[1..], b, key);
      Associates(if a[0].key == key then [a[0].ctid] else [], M.Find(a[1..], key), M.Find(b, key));
    }
  }

  lemma {:induction false} FindNowhere(s: seq<IndexEntry>, key: int)
    requires Below(s, key) || Above(s, key)
    ensures M.Find(s, key) == []
  {
    if s != [] {
      FindNowhere(s[1..], key);
    }
  }

  lemma {:induction false} FindHits(s: seq<IndexEntry>, k: nat)
    requires k < |s|
    ensures M.Find(s, s[k].key) != []
  {
    if k > 0 {
      FindHits(s[1..], k - 1);
    }
  }

  /** Some entry lies behind the key. */
  ghost predicate GoesPast(s: seq<IndexEntry>, key: int) {
    exists k :: 0 <= k < |s| && key < s[k].key
  }

  // ---- the walk -------------------------------------------------------------

  /** What the leaves hold, from left to right. */
  function Runs(t: Tree): seq<seq<IndexEntry>> {
    seq(|t.leaves|, i requires 0 <= i < |t.leaves| => Run(t, i))
  }

  /** What the walk adds from leaf k on, `found` telling whether there were hits before: it ends behind
      a leaf that goes past the key, and behind one without a hit when there have been some. */
  ghost function Collected(runs: seq<seq<IndexEntry>>, k: nat, key: int, found: bool): seq<Ctid>
    decreases |runs| - k
  {
    if k >= |runs| then []
    else
      var hits := M.Find(runs[k], key);
      if GoesPast(runs[k], key) || (hits == [] && found) then hits
      else hits + Collected(runs, k + 1, key, found || hits != [])
  }

  /** The answer of find_entries, right or wrong. */
  ghost function Found(t: Tree, key: int): seq<Ctid>
    requires Reached(t, key)
  {
    var i: nat :| StartsAt(t, key, i);
    Collected(Runs(t), i, key, false)
  }

  /** find_entries answers like the multimap for every key. */
  ghost predicate AnswersRight(t: Tree)
    requires Walkable(t)
  {
    forall key: int :: Found(t, key) == M.Find(Contents(t), key)
  }

  lemma FoundFrom(t: Tree, key: int, i: nat)
    requires ChainOk(t) && StartsAt(t, key, i)
    ensures Found(t, key) == Collected(Runs(t), i, key, false)
  {
    var j: nat :| StartsAt(t, key, j) && Found(t, key) == Collected(Runs(t), j, key, false);
    assert i < j ==> Apart(t.leaves, i, j);
    assert j < i ==> Apart(t.leaves, j, i);
  }

  lemma {:induction false} CollectedIsPart(t: Tree, k: nat, key: int, found: bool)
    ensures |Collected(Runs(t), k, key, found)| <= |M.Find(Flat(t, k, |t.leaves|), key)|
    decreases |t.leaves| - k
  {
    if k < |t.leaves| {
      FindConcat(Run(t, k), Flat(t, k + 1, |t.leaves|), key);
      CollectedIsPart(t, k + 1, key, found || M.Find(Run(t, k), key) != []);
    }
  }

  lemma SearchableIsWalkable(t: Tree)
    requires Searchable(t)
    ensures Walkable(t)
  {
    forall key: int ensures Reached(t, key) {
      assert Routed(t, key);
      var i: nat :| RoutesTo(t, key, i);
      assert StartsAt(t, key, i);
    }
  }

  lemma FindAround(t: Tree, key: int, i: nat)
    requires i < |t.leaves|
    ensures M.Find(Contents(t), key)
         == M.Find(Flat(t, 0, i), key) + M.Find(Run(t, i), key) + M.Find(Flat(t, i + 1, |t.leaves|), key)
  {
    AroundLeaf(t, i);
    FindConcat(Flat(t, 0, i) + Run(t, i), Flat(t, i + 1, |t.leaves|), key);
    FindConcat(Flat(t, 0, i), Run(t, i), key);
  }

  /** With nothing to find further on the walk collects from one leaf. */
  lemma CollectedHere(t: Tree, key: int, i: nat)
    requires i < |t.leaves| && M.Find(Flat(t, i + 1, |t.leaves|), key) == []
    ensures Collected(Runs(t), i, key, false) == M.Find(Run(t, i), key)
  {
    CollectedIsPart(t, i + 1, key, M.Find(Run(t, i), key) != []);
  }

  /** When only the leaf the descent ends in may hold the key, the walk finds what the multimap finds. */
  lemma RoutedFindsAll(t: Tree, key: int, i: nat)
    requires ChainOk(t) && RoutesTo(t, key, i)
    ensures Found(t, key) == M.Find(Contents(t), key)
  {
    FindNowhere(Flat(t, 0, i), key);
    FindNowhere(Flat(t, i + 1, |t.leaves|), key);
    FindAround(t, key, i);
    CollectedHere(t, key, i);
    FoundFrom(t, key, i);
  }

  lemma SearchableAnswers(t: Tree)
    requires Searchable(t)
    ensures Walkable(t) && AnswersRight(t)
  {
    SearchableIsWalkable(t);
    forall key: int ensures Found(t, key) == M.Find(Contents(t), key) {
      assert Routed(t, key);
      var i: nat :| RoutesTo(t, key, i);
      RoutedFindsAll(t, key, i);
    }
  }

  /** An entry before the leaf where the walk starts is lost. */
  lemma EarlierEntryIsLost(t: Tree, key: int, i: nat)
    requires ChainOk(t) && StartsAt(t, key, i) && M.Find(Flat(t, 0, i), key) != []
    ensures Found(t, key) != M.Find(Contents(t), key)
  {
    FoundFrom(t, key, i);
    CollectedIsPart(t, i, key, false);
    FlatSplit(t, 0, i, |t.leaves|);
    FindConcat(Flat(t, 0, i), Flat(t, i, |t.leaves|), key);
  }
}
