/** `dedisperse`: every frequency column of a time-frequency image is rotated
    backwards in time by that channel's integer sample shift (`np.roll(col, -s)`),
    into a freshly allocated image of the same shape; the shift of the first
    (lowest-frequency) channel is reported as `maxroll`.

    The per-channel shifts are an input here: the source derives them from the
    cold-plasma delay (`Delay` below, over exact reals) and rounds them to the
    nearest integer. */
module Dedispersion {

  /** An image as a sequence of rows (time samples), each a sequence of channel values. */
  type Image = seq<seq<real>>

  /** Every row has `cols` channels. */
  predicate Rectangular(img: Image, cols: nat)
  {
    forall j :: 0 <= j < |img| ==> |img[j]| == cols
  }

  /** Column `i` of an image (`img[:, i]`), top to bottom. */
  function Column(img: Image, i: nat): (c: seq<real>)
    requires forall j :: 0 <= j < |img| ==> i < |img[j]|
    ensures |c| == |img|
    ensures forall j :: 0 <= j < |img| ==> c[j] == img[j][i]
  {
    seq(|img|, j requires 0 <= j < |img| => img[j][i])
  }

  // ---------------------------------------------------------------------------
  // Modular index arithmetic (Dafny's % on a positive modulus agrees with Python's)

  lemma ModUnique(y: int, d: int, r: int, n: int)
    requires n > 0 && 0 <= r < n && y == d * n + r
    ensures y % n == r
  {
    var e := d - y / n;
    assert y == (y / n) * n + y % n;
    assert e * n == y % n - r;
  }

  lemma ModAddLeft(a: int, b: int, n: int)
    requires n > 0
    ensures (a % n + b) % n == (a + b) % n
  {
    var q, r := a / n, a % n;
    assert a == q * n + r;
    var s := (r + b) % n;
    var d := (r + b) / n;
    assert r + b == d * n + s;
    assert a + b == (q + d) * n + s;
    ModUnique(a + b, q + d, s, n);
  }

  lemma ModOfIndex(j: int, n: int)
    requires 0 <= j < n
    ensures j % n == j
  {
  }

  /** Two indices in `[0, n)` shifted by the same amount coincide modulo `n` only if equal. */
  lemma ModShiftInjective(j: int, k: int, s: int, n: int)
    requires 0 <= j < n && 0 <= k < n
    requires (j + s) % n == (k + s) % n
    ensures j == k
  {
    ModAddLeft(j + s, -s, n);
    ModAddLeft(k + s, -s, n);
    ModOfIndex(j, n);
    ModOfIndex(k, n);
  }

  // ---------------------------------------------------------------------------
  // np.roll on one column

  /** `np.roll(c, k)`: element `j` of the result is `c[(j - k) mod len(c)]`. */
  function Roll(c: seq<real>, k: int): (r: seq<real>)
    ensures |r| == |c|
  {
    seq(|c|, j requires 0 <= j < |c| => c[(j - k) % |c|])
  }

  lemma RollZero(c: seq<real>)
    ensures Roll(c, 0) == c
  {
  }

  /** Rolling back by `k` and then forward by `k` restores the column. */
  lemma RollInverse(c: seq<real>, k: int)
    ensures Roll(Roll(c, -k), k) == c
  {
    var n := |c|;
    forall j | 0 <= j < n
      ensures Roll(Roll(c, -k), k)[j] == c[j]
    {
      var inner := Roll(c, -k);
      var m := (j - k) % n;
      assert Roll(inner, k)[j] == inner[m];
      assert inner[m] == c[(m + k) % n];
      ModAddLeft(j - k, k, n);
      ModOfIndex(j, n);
    }
  }

  /** A roll is the rotation `c[m:] + c[:m]` with `m = -k mod len(c)`, as NumPy builds it. */
  lemma RollIsRotation(c: seq<real>, k: int)
    requires |c| > 0
    ensures var m := (-k) % |c|; Roll(c, k) == c[m..] + c[..m]
  {
    var n := |c|;
    var m := (-k) % n;
    var rot := c[m..] + c[..m];
    forall j | 0 <= j < n
      ensures Roll(c, k)[j] == rot[j]
    {
      ModAddLeft(-k, j, n);
      assert (j - k) % n == (m + j) % n;
      if j < n - m {
        ModOfIndex(m + j, n);
      } else {
        ModUnique(m + j, 1, m + j - n, n);
      }
    }
  }

  /** A roll only reorders: the column keeps the same multiset of values. */
  lemma RollPermutes(c: seq<real>, k: int)
    ensures multiset(Roll(c, k)) == multiset(c)
  {
    if |c| > 0 {
      var m := (-k) % |c|;
      RollIsRotation(c, k);
      assert c == c[..m] + c[m..];
    }
  }

  // ---------------------------------------------------------------------------
  // The dedispersed image as a value

  /** Output entry `[j][i]` is input entry `[(j + shifts[i]) mod rows][i]`. */
  function Dedispersed(img: Image, shifts: seq<int>): (out: Image)
    requires Rectangular(img, |shifts|)
    ensures |out| == |img| && Rectangular(out, |shifts|)
  {
    var n := |img|;
    seq(n, j requires 0 <= j < n =>
      seq(|shifts|, i requires 0 <= i < |shifts| => img[(j + shifts[i]) % n][i]))
  }

  /** Column `i` of the output is exactly `np.roll(img[:, i], -shifts[i])`. */
  lemma DedispersedColumn(img: Image, shifts: seq<int>, i: nat)
    requires Rectangular(img, |shifts|) && i < |shifts|
    ensures Column(Dedispersed(img, shifts), i) == Roll(Column(img, i), -shifts[i])
  {
  }

  /** Rolling column `i` back by `s = shifts[i]` moves its first `s` samples round to the
      END: the last `s` output rows hold input rows `0 .. s-1`, and every earlier output
      row `j` holds input row `j + s` without wrapping. */
  lemma DedispersedWrapsAtEnd(img: Image, shifts: seq<int>, i: nat, j: nat)
    requires Rectangular(img, |shifts|) && i < |shifts|
    requires 0 <= shifts[i] <= |img| && j < |img|
    ensures j + shifts[i] < |img| ==> Dedispersed(img, shifts)[j][i] == img[j + shifts[i]][i]
    ensures |img| <= j + shifts[i] ==> Dedispersed(img, shifts)[j][i] == img[j + shifts[i] - |img|][i]
  {
    var n, s := |img|, shifts[i];
    if j + s < n {
      ModOfIndex(j + s, n);
    } else {
      ModUnique(j + s, 1, j + s - n, n);
    }
  }

  /** Each output column holds the same values as its input column, reordered. */
  lemma DedispersedColumnPermutes(img: Image, shifts: seq<int>, i: nat)
    requires Rectangular(img, |shifts|) && i < |shifts|
    ensures multiset(Column(Dedispersed(img, shifts), i)) == multiset(Column(img, i))
  {
    DedispersedColumn(img, shifts, i);
    RollPermutes(Column(img, i), -shifts[i]);
  }

  /** Columns do not interact: output column `i` depends only on input column `i` and its shift. */
  lemma ColumnsIndependent(img1: Image, shifts1: seq<int>, img2: Image, shifts2: seq<int>, i: nat)
    requires Rectangular(img1, |shifts1|) && Rectangular(img2, |shifts2|)
    requires i < |shifts1| && i < |shifts2|
    requires Column(img1, i) == Column(img2, i) && shifts1[i] == shifts2[i]
    ensures Column(Dedispersed(img1, shifts1), i) == Column(Dedispersed(img2, shifts2), i)
  {
  }

  /** With every shift zero (dispersion measure 0) the image comes back unchanged. */
  lemma ZeroShiftsIdentity(img: Image, shifts: seq<int>)
    requires Rectangular(img, |shifts|)
    requires forall i :: 0 <= i < |shifts| ==> shifts[i] == 0
    ensures Dedispersed(img, shifts) == img
  {
    var out := Dedispersed(img, shifts);
    forall j | 0 <= j < |img|
      ensures out[j] == img[j]
    {
      ModOfIndex(j, |img|);
    }
  }

  function Negated(shifts: seq<int>): (r: seq<int>)
    ensures |r| == |shifts|
    ensures forall i :: 0 <= i < |shifts| ==> r[i] + shifts[i] == 0
  {
    seq(|shifts|, i requires 0 <= i < |shifts| => -shifts[i])
  }

  /** Rolling every column forward again by its own shift recovers the input. */
  lemma UndoDedispersion(img: Image, shifts: seq<int>)
    requires Rectangular(img, |shifts|)
    ensures Dedispersed(Dedispersed(img, shifts), Negated(shifts)) == img
  {
    var n := |img|;
    var once := Dedispersed(img, shifts);
    var back := Dedispersed(once, Negated(shifts));
    forall j | 0 <= j < n
      ensures back[j] == img[j]
    {
      forall i | 0 <= i < |shifts|
        ensures back[j][i] == img[j][i]
      {
        var m := (j - shifts[i]) % n;
        assert back[j][i] == img[(m + shifts[i]) % n][i];
        ModAddLeft(j - shifts[i], shifts[i], n);
        ModOfIndex(j, n);
      }
    }
  }

  /** A unit pulse at row `r0` whose copy in channel `i` arrives `shifts[i]` samples late. */
  predicate DispersedPulse(img: Image, shifts: seq<int>, r0: nat)
  {
    && Rectangular(img, |shifts|)
    && forall j, i :: 0 <= j < |img| && 0 <= i < |shifts| ==>
         img[j][i] == if j == (r0 + shifts[i]) % |img| then 1.0 else 0.0
  }

  /** Dedispersing with the shifts that dispersed a pulse lines it up again in row `r0`. */
  lemma PulseRealigned(img: Image, shifts: seq<int>, r0: nat)
    requires DispersedPulse(img, shifts, r0) && r0 < |img|
    ensures forall j, i :: 0 <= j < |img| && 0 <= i < |shifts| ==>
              Dedispersed(img, shifts)[j][i] == if j == r0 then 1.0 else 0.0
  {
    var n := |img|;
    var out := Dedispersed(img, shifts);
    forall j, i | 0 <= j < n && 0 <= i < |shifts|
      ensures out[j][i] == if j == r0 then 1.0 else 0.0
    {
      var src := (j + shifts[i]) % n;
      ModAddLeft(j + shifts[i], 0, n);
      assert out[j][i] == img[src][i];
      if src == (r0 + shifts[i]) % n {
        ModShiftInjective(j, r0, shifts[i], n);
      }
    }
  }

  // ---------------------------------------------------------------------------
  // The in-place loop over an array

  /** The rows of a two-dimensional array, as an image value. */
  ghost function Rows(a: array2<real>): (img: Image)
    reads a
    ensures |img| == a.Length0 && Rectangular(img, a.Length1)
    ensures forall j, i :: 0 <= j < a.Length0 && 0 <= i < a.Length1 ==> img[j][i] == a[j, i]
  {
    seq(a.Length0, j requires 0 <= j < a.Length0 reads a =>
      seq(a.Length1, i requires 0 <= i < a.Length1 reads a => a[j, i]))
  }

  /** `dedisperse` with the integer shifts already computed: allocate a zero image of the
      same shape, write each rolled column into it, and report the first channel's shift. */
  method Dedisperse(dispersed: array2<real>, shifts: seq<int>) returns (dedispersed: array2<real>, maxroll: int)
    requires dispersed.Length1 >= 1 && |shifts| == dispersed.Length1
    ensures fresh(dedispersed)
    ensures dedispersed.Length0 == dispersed.Length0 && dedispersed.Length1 == dispersed.Length1
    ensures Rows(dedispersed) == Dedispersed(Rows(dispersed), shifts)
    ensures maxroll == shifts[0]
  {
    var n, nchannels := dispersed.Length0, dispersed.Length1;
    dedispersed := new real[n, nchannels]((j, i) => 0.0);
    maxroll := 0;  // unbound in the source until the first channel is processed
    var i := 0;
    while i < nchannels
      invariant 0 <= i <= nchannels
      invariant i > 0 ==> maxroll == shifts[0]
      invariant forall j, c :: 0 <= j < n && 0 <= c < i ==>
                  dedispersed[j, c] == dispersed[(j + shifts[c]) % n, c]
      invariant forall j, c :: 0 <= j < n && i <= c < nchannels ==> dedispersed[j, c] == 0.0
    {
      var rollback := shifts[i];
      if i == 0 {
        maxroll := rollback;
      }
      var j := 0;
      while j < n
        invariant 0 <= j <= n
        invariant forall t, c :: 0 <= t < n && 0 <= c < i ==>
                    dedispersed[t, c] == dispersed[(t + shifts[c]) % n, c]
        invariant forall t :: 0 <= t < j ==> dedispersed[t, i] == dispersed[(t + rollback) % n, i]
        invariant forall t, c :: 0 <= t < n && i < c < nchannels ==> dedispersed[t, c] == 0.0
      {
        dedispersed[j, i] := dispersed[(j + rollback) % n, i];
        j := j + 1;
      }
      i := i + 1;
    }
    ghost var result, spec := Rows(dedispersed), Dedispersed(Rows(dispersed), shifts);
    forall j | 0 <= j < n
      ensures result[j] == spec[j]
    {
      forall c | 0 <= c < nchannels
        ensures result[j][c] == spec[j][c]
      {
        assert spec[j][c] == Rows(dispersed)[(j + shifts[c]) % n][c];
      }
    }
  }

  // ---------------------------------------------------------------------------
  // The cold-plasma delay, over exact reals

  /** Dispersion constant in seconds, with frequencies in GHz and DM in pc cm^-3. */
  const DispersionConstant: real := 0.004148808

  /** The offset `i * bandwidth / n` of channel `i` lies in `[0, bandwidth]` for `i <= n`,
      and is the whole bandwidth at `i == n`. */
  lemma BandFraction(i: nat, n: nat, bandwidth: real)
    requires n > 0 && bandwidth > 0.0
    ensures (i as real) * bandwidth / (n as real) >= 0.0
    ensures i <= n ==> (i as real) * bandwidth / (n as real) <= bandwidth
    ensures i == n ==> (i as real) * bandwidth / (n as real) == bandwidth
  {
    var x, nr := (i as real) * bandwidth / (n as real), n as real;
    assert x * nr == (i as real) * bandwidth;
    assert nr * (bandwidth - x) == (nr - i as real) * bandwidth;
  }

  /** Frequency of channel `i`: `minfreq + i * bandwidth / nchannels`. */
  function ChannelFrequency(minfreq: real, bandwidth: real, nchannels: nat, i: nat): (f: real)
    requires minfreq > 0.0 && bandwidth > 0.0 && nchannels > 0
    ensures minfreq <= f
    ensures i <= nchannels ==> f <= minfreq + bandwidth
    ensures i == nchannels ==> f == minfreq + bandwidth
  {
    BandFraction(i, nchannels, bandwidth);
    minfreq + (i as real) * bandwidth / (nchannels as real)
  }

  /** Delay of channel `i` relative to the top of the band, `K (f_i^-2 - f_max^-2) DM`. */
  function Delay(dm: real, bandwidth: real, minfreq: real, nchannels: nat, i: nat): (d: real)
    requires minfreq > 0.0 && bandwidth > 0.0 && nchannels > 0
    ensures i == nchannels ==> d == 0.0
    ensures dm == 0.0 ==> d == 0.0
  {
    ColdPlasmaDelay(dm, ChannelFrequency(minfreq, bandwidth, nchannels, i), minfreq + bandwidth)
  }

  /** `K (f^-2 - fmax^-2) DM`: the delay at frequency `f` behind frequency `fmax`. */
  function ColdPlasmaDelay(dm: real, f: real, fmax: real): real
    requires f > 0.0 && fmax > 0.0
  {
    DispersionConstant * InverseSquareGap(f, fmax) * dm
  }

  /** `f^-2 - fmax^-2`, the frequency part of the delay. */
  function InverseSquareGap(f: real, fmax: real): real
    requires f > 0.0 && fmax > 0.0
  {
    1.0 / (f * f) - 1.0 / (fmax * fmax)
  }

  lemma InverseSquareAntitone(a: real, b: real)
    requires 0.0 < a <= b
    ensures 1.0 / (b * b) <= 1.0 / (a * a)
  {
    assert a * a <= a * b <= b * b;
    assert (1.0 / (b * b)) * (b * b) == 1.0;
    assert (1.0 / (a * a)) * (a * a) == 1.0;
  }

  /** A higher frequency has a smaller gap to the top of the band. */
  lemma InverseSquareGapAntitone(a: real, b: real, fmax: real)
    requires 0.0 < a <= b && fmax > 0.0
    ensures InverseSquareGap(b, fmax) <= InverseSquareGap(a, fmax)
  {
    InverseSquareAntitone(a, b);
  }

  lemma ChannelFrequencyMonotone(minfreq: real, bandwidth: real, nchannels: nat, i: nat, i': nat)
    requires minfreq > 0.0 && bandwidth > 0.0 && nchannels > 0 && i <= i'
    ensures ChannelFrequency(minfreq, bandwidth, nchannels, i) <= ChannelFrequency(minfreq, bandwidth, nchannels, i')
  {
    assert (i as real) * bandwidth <= (i' as real) * bandwidth;
  }

  lemma ScaleMonotone(c: real, a: real, b: real)
    requires c >= 0.0 && a <= b
    ensures c * a <= c * b && a * c <= b * c
  {
  }

  /** A lower frequency is delayed at least as much as a higher one. */
  lemma ColdPlasmaDelayAntitone(dm: real, f: real, f': real, fmax: real)
    requires dm >= 0.0 && 0.0 < f <= f' && fmax > 0.0
    ensures ColdPlasmaDelay(dm, f', fmax) <= ColdPlasmaDelay(dm, f, fmax)
  {
    InverseSquareGapAntitone(f, f', fmax);
    var x, x' := InverseSquareGap(f, fmax), InverseSquareGap(f', fmax);
    ScaleMonotone(DispersionConstant, x', x);
    ScaleMonotone(dm, DispersionConstant * x', DispersionConstant * x);
  }

  /** Higher channels are delayed no more than lower ones, so channel 0 has the largest shift. */
  lemma DelayNonIncreasing(dm: real, bandwidth: real, minfreq: real, nchannels: nat, i: nat, i': nat)
    requires dm >= 0.0 && minfreq > 0.0 && bandwidth > 0.0 && nchannels > 0 && i <= i'
    ensures Delay(dm, bandwidth, minfreq, nchannels, i') <= Delay(dm, bandwidth, minfreq, nchannels, i)
  {
    var f := ChannelFrequency(minfreq, bandwidth, nchannels, i);
    var f' := ChannelFrequency(minfreq, bandwidth, nchannels, i');
    ChannelFrequencyMonotone(minfreq, bandwidth, nchannels, i, i');
    ColdPlasmaDelayAntitone(dm, f, f', minfreq + bandwidth);
  }

  /** Within the band the delay is never negative. */
  lemma DelayNonNegative(dm: real, bandwidth: real, minfreq: real, nchannels: nat, i: nat)
    requires dm >= 0.0 && minfreq > 0.0 && bandwidth > 0.0 && nchannels > 0 && i <= nchannels
    ensures Delay(dm, bandwidth, minfreq, nchannels, i) >= 0.0
  {
    var f := ChannelFrequency(minfreq, bandwidth, nchannels, i);
    var fmax := minfreq + bandwidth;
    ColdPlasmaDelayAntitone(dm, f, fmax, fmax);
    assert ColdPlasmaDelay(dm, fmax, fmax) == 0.0;
  }
}
