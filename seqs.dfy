/** Python list operations used by the pipeline: comprehension maps and slicing. */
module Seqs {

  function Min(a: int, b: int): int {
    if a <= b then a else b
  }

  function Max(a: int, b: int): int {
    if a <= b then b else a
  }

  /** `[f(x) for x in xs]`: one result per element, in the same order. */
  function Map<A, B>(f: A -> B, xs: seq<A>): (ys: seq<B>)
    ensures |ys| == |xs|
    ensures forall i :: 0 <= i < |xs| ==> ys[i] == f(xs[i])
  {
    if xs == [] then [] else [f(xs[0])] + Map(f, xs[1..])
  }

  /**
   * `xs[lo:hi]` for non-negative bounds: both bounds are clamped to the
   * length of the list, and a stop not past the start gives an empty list.
   */
  function Slice<T>(xs: seq<T>, lo: nat, hi: nat): (ys: seq<T>)
    ensures |ys| == Max(0, Min(|xs|, hi) - lo)
    ensures forall k :: 0 <= k < |ys| ==> ys[k] == xs[lo + k]
  {
    if hi <= lo || |xs| <= lo then [] else xs[lo..Min(|xs|, hi)]
  }

  /** `xs[:lo] + xs[lo:hi] + xs[hi:] == xs` whenever `lo <= hi`: slicing loses nothing in between. */
  lemma SliceDecomposes<T>(xs: seq<T>, lo: nat, hi: nat)
    requires lo <= hi
    ensures xs[..Min(lo, |xs|)] + Slice(xs, lo, hi) + xs[Min(hi, |xs|)..] == xs
  {
    var a, b := Min(lo, |xs|), Min(hi, |xs|);
    assert Slice(xs, lo, hi) == xs[a..b];
    assert xs[..a] + xs[a..b] + xs[b..] == xs;
  }

  /** `ys` is obtained from `xs` by deleting elements, keeping the order of the rest. */
  predicate IsSubsequence<T(==)>(ys: seq<T>, xs: seq<T>)
    decreases |xs|
  {
    if ys == [] then true
    else if xs == [] then false
    else (ys[0] == xs[0] && IsSubsequence(ys[1..], xs[1..])) || IsSubsequence(ys, xs[1..])
  }

  /** A subsequence holds each element at most as often as the sequence it comes from. */
  lemma {:induction false} SubsequenceMultiset<T>(ys: seq<T>, xs: seq<T>)
    requires IsSubsequence(ys, xs)
    ensures multiset(ys) <= multiset(xs)
    decreases |xs|
  {
    if ys != [] {
      assert xs == [xs[0]] + xs[1..];
      if ys[0] == xs[0] && IsSubsequence(ys[1..], xs[1..]) {
        SubsequenceMultiset(ys[1..], xs[1..]);
        assert ys == [ys[0]] + ys[1..];
      } else {
        SubsequenceMultiset(ys, xs[1..]);
      }
    }
  }
}
