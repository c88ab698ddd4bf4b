/**
 * The positions a filter keeps. Both filters of the scraper (dropdown options
 * and table rows) are a comprehension `[f(x) for x in xs if p(x)]`; their
 * outputs are described element by element through `Positions(xs, p)`.
 */
module Selection {

  /** Strictly increasing sequence of in-range indices. */
  predicate IncreasingIndices(r: seq<int>, n: int) {
    && (forall k :: 0 <= k < |r| ==> 0 <= r[k] < n)
    && (forall k, l :: 0 <= k < l < |r| ==> r[k] < r[l])
  }

  /** The indices `i` of `xs` with `p(xs[i])`, in increasing order. */
  function Positions<A>(xs: seq<A>, p: A -> bool): (r: seq<int>)
    ensures |r| <= |xs|
    ensures IncreasingIndices(r, |xs|)
    ensures forall i :: 0 <= i < |xs| ==> (i in r <==> p(xs[i]))
  {
    if |xs| == 0 then []
    else
      var rest := Positions(xs[..|xs| - 1], p);
      assert forall i :: 0 <= i < |xs| - 1 ==> xs[..|xs| - 1][i] == xs[i];
      if p(xs[|xs| - 1]) then rest + [|xs| - 1] else rest
  }
}
