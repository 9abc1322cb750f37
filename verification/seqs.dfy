/**
 Order-preserving filtering of sequences, the shape of JavaScript's
 `Array.prototype.filter` and of a global regular-expression deletion.
 */
module Seqs {

  /** The elements of `xs` that satisfy `p`, in their original order. */
  function Filter<T>(p: T -> bool, xs: seq<T>): (r: seq<T>)
    ensures |r| <= |xs|
    ensures forall x :: x in r ==> x in xs && p(x)
    ensures forall i :: 0 <= i < |xs| && p(xs[i]) ==> xs[i] in r
  {
    if xs == [] then []
    else if p(xs[0]) then [xs[0]] + Filter(p, xs[1..])
    else Filter(p, xs[1..])
  }

  /** `r` can be obtained from `xs` by deleting elements, keeping the order of the rest. */
  ghost predicate IsSubsequence<T>(r: seq<T>, xs: seq<T>)
    decreases |xs|
  {
    if r == [] then true
    else if xs == [] then false
    else (r[0] == xs[0] && IsSubsequence(r[1..], xs[1..])) || IsSubsequence(r, xs[1..])
  }

  /**
   The filter keeps order, keeps every occurrence of an element that satisfies
   `p` and drops every occurrence of one that does not.
   */
  lemma {:induction false} FilterSpec<T>(p: T -> bool, xs: seq<T>)
    ensures IsSubsequence(Filter(p, xs), xs)
    ensures forall x :: multiset(Filter(p, xs))[x] == if p(x) then multiset(xs)[x] else 0
  {
    if xs != [] {
      FilterSpec(p, xs[1..]);
      assert xs == [xs[0]] + xs[1..];
      assert multiset(xs) == multiset{xs[0]} + multiset(xs[1..]);
      var r := Filter(p, xs);
      if p(xs[0]) {
        assert r[1..] == Filter(p, xs[1..]);
        assert multiset(r) == multiset{xs[0]} + multiset(Filter(p, xs[1..]));
      } else {
        assert r == Filter(p, xs[1..]);
        assert r != [] ==> IsSubsequence(r, xs[1..]);
      }
    }
  }

  /** A filter changes nothing exactly when every element passes it. */
  lemma {:induction false} FilterAllPass<T>(p: T -> bool, xs: seq<T>)
    ensures Filter(p, xs) == xs <==> forall i :: 0 <= i < |xs| ==> p(xs[i])
  {
    if xs != [] {
      FilterAllPass(p, xs[1..]);
      if !p(xs[0]) {
        assert |Filter(p, xs)| < |xs|;
      }
    }
  }
}
