/** The NumPy reductions the pipeline uses on NaN-free data: `np.sum`/`np.nansum`
    (Sum), `np.amax` (Max) and `np.where(data == v)[0]` (IndicesWhere). */
module Reductions {

  /** Sum of a sequence of reals (exact: no rounding and no pairwise order). */
  function Sum(s: seq<real>): real
  {
    if s == [] then 0.0 else s[0] + Sum(s[1..])
  }

  lemma {:induction false} SumAppend(a: seq<real>, b: seq<real>)
    ensures Sum(a + b) == Sum(a) + Sum(b)
  {
    if a == [] {
      assert a + b == b;
    } else {
      assert (a + b)[1..] == a[1..] + b;
      SumAppend(a[1..], b);
    }
  }

  /** Non-negative samples, such as intensities, have a non-negative sum. */
  lemma {:induction false} SumNonNegative(s: seq<real>)
    requires forall k :: 0 <= k < |s| ==> s[k] >= 0.0
    ensures Sum(s) >= 0.0
  {
    if s != [] {
      SumNonNegative(s[1..]);
    }
  }

  /** A sequence of `n` copies of `c` sums to `n * c`. */
  lemma {:induction false} SumConstant(s: seq<real>, c: real)
    requires forall k :: 0 <= k < |s| ==> s[k] == c
    ensures Sum(s) == |s| as real * c
  {
    if s != [] {
      SumConstant(s[1..], c);
    }
  }

  /** Elementwise bounds carry over to the sum. */
  lemma {:induction false} SumBounds(s: seq<real>, lo: real, hi: real)
    requires forall k :: 0 <= k < |s| ==> lo <= s[k] <= hi
    ensures |s| as real * lo <= Sum(s) <= |s| as real * hi
  {
    if s != [] {
      SumBounds(s[1..], lo, hi);
    }
  }

  /** `np.amax`: the largest element, which occurs in the sequence. */
  function Max(s: seq<real>): (m: real)
    requires |s| > 0
    ensures m in s
    ensures forall k :: 0 <= k < |s| ==> s[k] <= m
  {
    if |s| == 1 then s[0]
    else
      var rest := Max(s[1..]);
      if s[0] >= rest then s[0] else rest
  }

  /** `np.where(s == v)[0]`: every index holding `v`, in ascending order. */
  function IndicesWhere(s: seq<real>, v: real): (r: seq<nat>)
    ensures forall t :: 0 <= t < |r| ==> r[t] < |s| && s[r[t]] == v
    ensures forall k :: 0 <= k < |s| && s[k] == v ==> k in r
    ensures forall t, u :: 0 <= t < u < |r| ==> r[t] < r[u]
  {
    if s == [] then []
    else
      var init := s[..|s| - 1];
      var found := IndicesWhere(init, v);
      assert forall k :: 0 <= k < |init| ==> init[k] == s[k];
      if s[|s| - 1] == v then found + [|s| - 1] else found
  }

  /** When `v` occurs, the first index `np.where` reports is the smallest one holding it. */
  lemma FirstIndexWhere(s: seq<real>, v: real)
    requires v in s
    ensures |IndicesWhere(s, v)| > 0
    ensures var p := IndicesWhere(s, v)[0];
            p < |s| && s[p] == v && forall k :: 0 <= k < p ==> s[k] != v
  {
  }

  /** When `v` occurs, the last index `np.where` reports is the largest one holding it. */
  lemma LastIndexWhere(s: seq<real>, v: real)
    requires v in s
    ensures |IndicesWhere(s, v)| > 0
    ensures var r := IndicesWhere(s, v); var q := r[|r| - 1];
            q < |s| && s[q] == v && forall k :: q < k < |s| ==> s[k] != v
  {
  }

  /** A value that never occurs has no indices. */
  lemma {:induction false} IndicesWhereAbsent(s: seq<real>, v: real)
    requires forall k :: 0 <= k < |s| ==> s[k] != v
    ensures IndicesWhere(s, v) == []
  {
    if s != [] {
      IndicesWhereAbsent(s[..|s| - 1], v);
    }
  }

  /** A value that occurs at exactly one index `p` has `[p]` as its indices. */
  lemma {:induction false} IndicesWhereUnique(s: seq<real>, v: real, p: nat)
    requires p < |s| && s[p] == v
    requires forall k :: 0 <= k < |s| && k != p ==> s[k] != v
    ensures IndicesWhere(s, v) == [p]
  {
    var init := s[..|s| - 1];
    if p == |s| - 1 {
      IndicesWhereAbsent(init, v);
    } else {
      IndicesWhereUnique(init, v, p);
    }
  }

  /** A value occurring at exactly the indices `p < q` has `[p, q]` as its indices. */
  lemma {:induction false} IndicesWhereTwo(s: seq<real>, v: real, p: nat, q: nat)
    requires p < q < |s| && s[p] == v && s[q] == v
    requires forall k :: 0 <= k < |s| && k != p && k != q ==> s[k] != v
    ensures IndicesWhere(s, v) == [p, q]
  {
    var init := s[..|s| - 1];
    if q == |s| - 1 {
      IndicesWhereUnique(init, v, p);
    } else {
      IndicesWhereTwo(init, v, p, q);
    }
  }
}
