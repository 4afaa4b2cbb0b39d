/** Order-preserving selection from a sequence (`Array.prototype.filter`). */
module Seqs {

  /** `xs` can be obtained from `ys` by dropping elements, keeping the order of the rest. */
  predicate IsSubseq<T(==, !new)>(xs: seq<T>, ys: seq<T>)
    decreases |ys|
  {
    if |xs| == 0 then true
    else if |ys| == 0 then false
    else (xs[0] == ys[0] && IsSubseq(xs[1..], ys[1..])) || IsSubseq(xs, ys[1..])
  }

  /** The elements of `xs` that satisfy `p`, in their original order. */
  function Keep<T(==, !new)>(xs: seq<T>, p: T -> bool): (r: seq<T>)
    ensures IsSubseq(r, xs)
    ensures forall x :: x in r ==> p(x)
    ensures forall x :: multiset(r)[x] == if p(x) then multiset(xs)[x] else 0
    decreases |xs|
  {
    if |xs| == 0 then []
    else
      var rest := Keep(xs[1..], p);
      assert xs == [xs[0]] + xs[1..];
      if p(xs[0]) then [xs[0]] + rest else rest
  }

  /** When every element passes, nothing is dropped. */
  lemma {:induction false} KeepAll<T(!new)>(xs: seq<T>, p: T -> bool)
    requires forall i :: 0 <= i < |xs| ==> p(xs[i])
    ensures Keep(xs, p) == xs
    decreases |xs|
  {
    if |xs| > 0 {
      KeepAll(xs[1..], p);
    }
  }

  /** Selecting from a longer list is selecting from its prefix, then from the new last element. */
  lemma {:induction false} KeepSnoc<T(!new)>(xs: seq<T>, y: T, p: T -> bool)
    ensures Keep(xs + [y], p) == Keep(xs, p) + (if p(y) then [y] else [])
    decreases |xs|
  {
    if |xs| == 0 {
      assert xs + [y] == [y];
    } else {
      assert (xs + [y])[1..] == xs[1..] + [y];
      KeepSnoc(xs[1..], y, p);
    }
  }
}
