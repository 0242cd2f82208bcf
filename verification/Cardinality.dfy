/** Sizes of finite sets. */
module Cardinality {

  lemma {:induction false} SubsetSize<T>(a: set<T>, b: set<T>)
    requires a <= b
    ensures |a| <= |b|
  {
    if a == {} {
    } else {
      var x :| x in a;
      SubsetSize(a - {x}, b - {x});
    }
  }

  lemma {:induction false} DistinctSeqSize<T>(s: seq<T>)
    requires forall i, j | 0 <= i < |s| && 0 <= j < |s| && s[i] == s[j] :: i == j
    ensures |set x | x in s| == |s|
  {
    if s == [] {
      assert (set x | x in s) == {};
    } else {
      DistinctSeqSize(s[1..]);
      assert (set x | x in s) == {s[0]} + set x | x in s[1..];
      assert s[0] !in s[1..];
    }
  }
}
