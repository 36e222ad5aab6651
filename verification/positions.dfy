/** Positions in a sequence, in ascending order: which elements of one sequence another one keeps. */
module Positions {
  ghost predicate Ascends(at: seq<nat>, a: nat, b: nat) {
    a < |at| && b < |at| && at[a] < at[b]
  }

  ghost predicate Ascending(at: seq<nat>) {
    forall a, b :: 0 <= a < b < |at| ==> Ascends(at, a, b)
  }

  function Shifted(at: seq<nat>): (s: seq<nat>)
    ensures |s| == |at| && forall k :: 0 <= k < |at| ==> s[k] == at[k] + 1
  {
    seq(|at|, k requires 0 <= k < |at| => at[k] + 1)
  }

  lemma ShiftedHas(at: seq<nat>, i: nat)
    requires i in at
    ensures i + 1 in Shifted(at)
  {
    var k :| 0 <= k < |at| && at[k] == i;
    assert Shifted(at)[k] == i + 1;
  }

  /** Positions in the tail of a sequence, as positions in the sequence, with or without its first element. */
  lemma ConsPositions(at: seq<nat>, here: bool) returns (all: seq<nat>)
    requires Ascending(at)
    ensures all == (if here then [0] else []) + Shifted(at)
    ensures Ascending(all) && (here ==> 0 in all) && forall i :: i in at ==> i + 1 in all
  {
    all := (if here then [0] else []) + Shifted(at);
    forall a, b | 0 <= a < b < |all| ensures Ascends(all, a, b) {
      var d := if here then 1 else 0;
      if a >= d {
        assert Ascends(at, a - d, b - d);
      }
    }
    forall i | i in at ensures i + 1 in all {
      ShiftedHas(at, i);
    }
  }
}
