/** Sequences that contain the same elements in another order. */
module Permutation {

  /** `q` takes its elements from `p` by a list of positions in which none occurs twice. */
  ghost predicate Rearranges<T>(q: seq<T>, p: seq<T>, from: seq<nat>) {
    && |q| == |p| == |from|
    && (forall i :: 0 <= i < |q| ==> from[i] < |p| && q[i] == p[from[i]])
    && (forall i, j :: 0 <= i < j < |q| ==> from[i] != from[j])
  }

  /** Then every element of `p` occurs in `q` as often as in `p`. */
  lemma {:induction false} RearrangedIsPermutation<T>(q: seq<T>, p: seq<T>, from: seq<nat>)
    requires Rearranges(q, p, from)
    ensures multiset(q) == multiset(p)
    decreases |q|
  {
    if q == [] {
      assert p == [];
    } else {
      var n := |q| - 1;
      var k := from[n];
      var p', q' := p[..k] + p[k + 1..], q[..n];
      var from' := seq(n, i requires 0 <= i < n => if from[i] > k then from[i] - 1 else from[i]);
      RearrangedIsPermutation(q', p', from');
      assert p == p[..k] + [p[k]] + p[k + 1..];
      assert q == q' + [q[n]];
    }
  }
}
