/** Python's slice `s[lo:hi]` (step 1) on a sequence, as NumPy and lists use it:
    a negative bound counts from the end, every bound is clamped to the sequence,
    and a slice whose start is not before its stop is empty. It never raises. */
module PySlices {

  /** Where a slice bound `i` lands in a sequence of length `n`. */
  function Bound(i: int, n: nat): (b: nat)
    ensures b <= n
    ensures 0 <= i <= n ==> b == i
    ensures i < 0 <= i + n ==> b == i + n
    ensures i + n < 0 ==> b == 0
    ensures n < i ==> b == n
  {
    if i < 0 then (if i + n < 0 then 0 else i + n)
    else if n < i then n
    else i
  }

  /** `s[lo:hi]` in Python. */
  function PySlice<T>(s: seq<T>, lo: int, hi: int): (r: seq<T>)
    ensures |r| <= |s|
    ensures 0 <= lo <= hi <= |s| ==> r == s[lo..hi]
    ensures lo == hi ==> r == []
  {
    var a, b := Bound(lo, |s|), Bound(hi, |s|);
    if a < b then s[a..b] else []
  }

  /** The general shape of a slice: its length and where each element comes from. */
  lemma PySliceAt<T>(s: seq<T>, lo: int, hi: int)
    ensures var a, b := Bound(lo, |s|), Bound(hi, |s|);
            && |PySlice(s, lo, hi)| == (if a < b then b - a else 0)
            && forall k :: 0 <= k < |PySlice(s, lo, hi)| ==> PySlice(s, lo, hi)[k] == s[a + k]
  {
  }

  /** A negative start counts from the end: `s[lo:hi] == s[len(s)+lo:hi]`. */
  lemma PySliceNegativeStart<T>(s: seq<T>, lo: int, hi: int)
    requires lo < 0 <= lo + |s|
    ensures PySlice(s, lo, hi) == PySlice(s, |s| + lo, hi)
  {
  }

  /** Two slices meeting at an in-range point give back the whole sequence. */
  lemma PySliceSplit<T>(s: seq<T>, p: int)
    requires 0 <= p <= |s|
    ensures PySlice(s, 0, p) + PySlice(s, p, |s|) == s
  {
  }
}
