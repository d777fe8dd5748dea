/**
 * A filter followed by a map, stated through the indices of the elements kept: the shape
 * of `.map(...).filter(Boolean)` over the changelog fragments and of the loop collecting
 * the files over the line limit.
 */
module Filtering {

  /**
   * `ys` lists `f` of each element of `xs` that `keep` accepts, through the strictly
   * increasing indices `js`, in order; every accepted element is among them.
   */
  ghost predicate KeptInOrder<T, U>(xs: seq<T>, keep: T -> bool, f: T -> U, js: seq<int>, ys: seq<U>) {
    |js| == |ys| && Increasing(js) && KeptValues(xs, keep, f, js, ys) && KeptCover(xs, keep, js)
  }

  ghost predicate Increasing(js: seq<int>) {
    forall a, b :: 0 <= a < b < |js| ==> js[a] < js[b]
  }

  /** Each `ys[k]` is `f` of the accepted element at index `js[k]`. */
  ghost predicate KeptValues<T, U>(xs: seq<T>, keep: T -> bool, f: T -> U, js: seq<int>, ys: seq<U>)
    requires |js| == |ys|
  {
    forall k :: 0 <= k < |js| ==> 0 <= js[k] < |xs| && keep(xs[js[k]]) && ys[k] == f(xs[js[k]])
  }

  /** Every accepted element's index is in `js`. */
  ghost predicate KeptCover<T>(xs: seq<T>, keep: T -> bool, js: seq<int>) {
    forall j :: 0 <= j < |xs| && keep(xs[j]) ==> j in js
  }

  /** Indices for the elements kept from all but the last element extend to all of them. */
  lemma KeptInOrderStep<T, U>(xs: seq<T>, keep: T -> bool, f: T -> U, js: seq<int>, ys: seq<U>) returns (js': seq<int>)
    requires |xs| > 0 && KeptInOrder(xs[..|xs| - 1], keep, f, js, ys)
    ensures var n := |xs| - 1;
            KeptInOrder(xs, keep, f, js', ys + if keep(xs[n]) then [f(xs[n])] else [])
  {
    var n := |xs| - 1;
    js' := if keep(xs[n]) then js + [n] else js;
    IncreasingStep(js, n, keep(xs[n]));
    KeptValuesStep(xs, keep, f, js, ys);
    KeptCoverStep(xs, keep, js);
  }

  lemma IncreasingStep(js: seq<int>, n: int, add: bool)
    requires Increasing(js) && forall k :: 0 <= k < |js| ==> js[k] < n
    ensures Increasing(if add then js + [n] else js)
  {
  }

  lemma KeptValuesStep<T, U>(xs: seq<T>, keep: T -> bool, f: T -> U, js: seq<int>, ys: seq<U>)
    requires |xs| > 0 && |js| == |ys| && KeptValues(xs[..|xs| - 1], keep, f, js, ys)
    ensures forall k :: 0 <= k < |js| ==> js[k] < |xs| - 1
    ensures var n := |xs| - 1;
            KeptValues(xs, keep, f, if keep(xs[n]) then js + [n] else js, ys + if keep(xs[n]) then [f(xs[n])] else [])
  {
    var n := |xs| - 1;
    var front := xs[..n];
    var js', ys' := (if keep(xs[n]) then js + [n] else js), ys + if keep(xs[n]) then [f(xs[n])] else [];
    forall k | 0 <= k < |js'| ensures 0 <= js'[k] < |xs| && keep(xs[js'[k]]) && ys'[k] == f(xs[js'[k]]) {
      if k < |js| {
        assert js'[k] == js[k] && ys'[k] == ys[k];
        assert front[js[k]] == xs[js[k]];
      }
    }
  }

  lemma KeptCoverStep<T>(xs: seq<T>, keep: T -> bool, js: seq<int>)
    requires |xs| > 0 && KeptCover(xs[..|xs| - 1], keep, js)
    ensures var n := |xs| - 1;
            KeptCover(xs, keep, if keep(xs[n]) then js + [n] else js)
  {
    var n := |xs| - 1;
    forall j | 0 <= j < |xs| && keep(xs[j]) ensures j in (if keep(xs[n]) then js + [n] else js) {
      if j < n {
        assert xs[..n][j] == xs[j];
      }
    }
  }
}
