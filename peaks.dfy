/** Peak analysis of a collapsed time series: `findpeakinfo`, and the part of
    `Sig_To_Noise` that locates the peak, cuts a window of samples around it and
    averages what is left (the noise estimate). The RMS and the ratio itself need
    a square root and are not part of this model. */
module Peaks {
  import opened Reductions
  import opened PySlices

  /** The exceptions NumPy raises on these paths: `np.amax` of an empty array
      (ValueError) and a peak index past the end of `times` (IndexError). */
  datatype PeakError = EmptySeries | TimeIndexOutOfRange

  datatype Result<T> = Ok(value: T) | Err(error: PeakError)

  /** `None` stands for the NaN that `0.0 / 0` gives on an empty residual. */
  datatype Option<T> = None | Some(value: T)

  /** What `findpeakinfo` returns: the time of every sample at the maximum, and the maximum. */
  datatype PeakInfo = PeakInfo(peakTimes: seq<real>, peak: real)

  /** `times[idx]` for an integer index array `idx`: one time per index, in order. */
  function TimesAt(times: seq<real>, idx: seq<nat>): (r: seq<real>)
    requires forall t :: 0 <= t < |idx| ==> idx[t] < |times|
    ensures |r| == |idx|
    ensures forall t :: 0 <= t < |r| ==> r[t] == times[idx[t]]
  {
    seq(|idx|, t requires 0 <= t < |idx| => times[idx[t]])
  }

  /** Fancy indexing raises exactly when the last index of the maximum is past `times`,
      that is, when some maximal sample has no time. */
  lemma LastTieBeyondTimes(times: seq<real>, data: seq<real>)
    requires data != []
    ensures |IndicesWhere(data, Max(data))| > 0
    ensures var idx := IndicesWhere(data, Max(data));
            idx[|idx| - 1] >= |times| <==> exists k :: |times| <= k < |data| && data[k] == Max(data)
  {
    LastIndexWhere(data, Max(data));
    var idx := IndicesWhere(data, Max(data));
    var last := idx[|idx| - 1];
    if last >= |times| {
      assert |times| <= last < |data| && data[last] == Max(data);
    }
  }

  /** `peak = np.amax(data); peak_time = times[np.where(data == peak)]`.
      The tuple from `np.where` acts as a fancy index, so every tied sample's time is returned. */
  function FindPeakInfo(times: seq<real>, data: seq<real>): (r: Result<PeakInfo>)
    ensures data == [] <==> r == Err(EmptySeries)
    ensures data != [] ==>
              (r == Err(TimeIndexOutOfRange) <==> exists k :: |times| <= k < |data| && data[k] == Max(data))
    ensures r.Ok? ==>
              && r.value.peak in data
              && (forall k :: 0 <= k < |data| ==> data[k] <= r.value.peak)
              && |r.value.peakTimes| == |IndicesWhere(data, r.value.peak)| > 0
              && forall t :: 0 <= t < |r.value.peakTimes| ==>
                   r.value.peakTimes[t] == times[IndicesWhere(data, r.value.peak)[t]]
  {
    if data == [] then Err(EmptySeries)
    else
      var peak := Max(data);
      var idx := IndicesWhere(data, peak);
      LastTieBeyondTimes(times, data);
      var last := idx[|idx| - 1];
      if last >= |times| then Err(TimeIndexOutOfRange)
      else
        assert forall t :: 0 <= t < |idx| ==> idx[t] <= last;
        Ok(PeakInfo(TimesAt(times, idx), peak))
  }

  /** Every sample attaining the maximum contributes its time, the first one first. */
  lemma FindPeakInfoEveryTie(times: seq<real>, data: seq<real>)
    requires FindPeakInfo(times, data).Ok?
    ensures var info := FindPeakInfo(times, data).value;
            forall k :: 0 <= k < |data| && data[k] == info.peak ==> times[k] in info.peakTimes
    ensures var info := FindPeakInfo(times, data).value;
            info.peakTimes[0] == times[PeakIndex(data)]
  {
  }

  /** A strict maximum is the only index `np.where` reports. */
  lemma StrictMaxIndices(data: seq<real>, p: nat)
    requires p < |data|
    requires forall k :: 0 <= k < |data| && k != p ==> data[k] < data[p]
    ensures Max(data) == data[p]
    ensures IndicesWhere(data, data[p]) == [p]
  {
    IndicesWhereUnique(data, data[p], p);
  }

  /** A strict maximum at one sample gives exactly that sample's time. */
  lemma UniquePeak(times: seq<real>, data: seq<real>, p: nat)
    requires p < |data| && p < |times|
    requires forall k :: 0 <= k < |data| && k != p ==> data[k] < data[p]
    ensures FindPeakInfo(times, data) == Ok(PeakInfo([times[p]], data[p]))
  {
    StrictMaxIndices(data, p);
    assert TimesAt(times, [p]) == [times[p]];
  }

  lemma ExampleMax()
    ensures Max([1.0, 5.0, 3.0, 5.0, 2.0]) == 5.0
  {
  }

  lemma ExampleIndices()
    ensures IndicesWhere([1.0, 5.0, 3.0, 5.0, 2.0], 5.0) == [1, 3]
  {
    IndicesWhereTwo([1.0, 5.0, 3.0, 5.0, 2.0], 5.0, 1, 3);
  }

  /** With a tie for the maximum, both times come back, not only the first. */
  lemma FindPeakInfoReturnsBothTies()
    ensures FindPeakInfo([0.0, 1.0, 2.0, 3.0, 4.0], [1.0, 5.0, 3.0, 5.0, 2.0])
            == Ok(PeakInfo([1.0, 3.0], 5.0))
  {
    var times, data := [0.0, 1.0, 2.0, 3.0, 4.0], [1.0, 5.0, 3.0, 5.0, 2.0];
    ExampleMax();
    ExampleIndices();
    assert TimesAt(times, [1, 3]) == [1.0, 3.0];
  }

  // ---------------------------------------------------------------------------
  // Sig_To_Noise: peak index, window removal, average noise

  /** `np.where(data == np.amax(data))[0][0]`: the first sample attaining the maximum. */
  function PeakIndex(data: seq<real>): (p: nat)
    requires |data| > 0
    ensures p < |data| && data[p] == Max(data)
    ensures forall k :: 0 <= k < p ==> data[k] < Max(data)
  {
    FirstIndexWhere(data, Max(data));
    IndicesWhere(data, Max(data))[0]
  }

  /** `np.concatenate([data[0 : p - w//2], data[p + w//2 : len(data)]])`, with Python's
      slice rules (a negative start counts from the end) and floor division. */
  function SignalRemoved(data: seq<real>, p: int, width: int): (r: seq<real>)
    ensures |r| <= 2 * |data|
  {
    var half := width / 2;
    PySlice(data, 0, p - half) + PySlice(data, p + half, |data|)
  }

  /** `np.sum(s) / len(s)`, `None` for the NaN of an empty residual. */
  function Mean(s: seq<real>): (m: Option<real>)
    ensures m.None? <==> s == []
  {
    if s == [] then None else Some(Sum(s) / (|s| as real))
  }

  /** Dividing by a positive count keeps a total's scaled bounds as plain bounds. */
  lemma QuotientBounds(total: real, n: real, lo: real, hi: real)
    requires n > 0.0 && n * lo <= total <= n * hi
    ensures lo <= total / n <= hi
  {
    var q := total / n;
    assert n * q == total;
    assert n * (q - lo) == total - n * lo;
    assert n * (hi - q) == n * hi - total;
  }

  /** The mean lies between any lower and upper bound of the samples. */
  lemma MeanBounds(s: seq<real>, lo: real, hi: real)
    requires s != []
    requires forall k :: 0 <= k < |s| ==> lo <= s[k] <= hi
    ensures lo <= Mean(s).value <= hi
  {
    SumBounds(s, lo, hi);
    QuotientBounds(Sum(s), |s| as real, lo, hi);
  }

  /** A window fully inside the series removes exactly the samples `[p - w//2, p + w//2)`. */
  lemma WindowInterior(data: seq<real>, p: int, width: int)
    requires 0 <= width / 2 <= p && p + width / 2 <= |data|
    ensures var h := width / 2; var r := SignalRemoved(data, p, width);
            && r == data[..p - h] + data[p + h..]
            && |r| == |data| - 2 * h
            && forall k :: 0 <= k < |r| ==> r[k] == data[if k < p - h then k else k + 2 * h]
  {
  }

  /** A width below 2 removes nothing: the residual is the whole series. */
  lemma WindowEmptyKeepsAll(data: seq<real>, p: int, width: int)
    requires width / 2 == 0 && 0 <= p <= |data|
    ensures SignalRemoved(data, p, width) == data
  {
  }

  /** A window that starts before sample 0 is not clamped: its negative start counts
      from the end, so the first piece runs to `len + p - w//2`. */
  lemma WindowNegativeStart(data: seq<real>, p: int, width: int)
    requires 0 <= p < width / 2 <= |data| + p
    ensures var h := width / 2;
            SignalRemoved(data, p, width)
              == data[..|data| + p - h] + (if p + h <= |data| then data[p + h..] else [])
  {
  }

  /** In that case the peak itself survives in the residual whenever `w//2 < len`. */
  lemma WindowNegativeStartKeepsPeak(data: seq<real>, p: int, width: int)
    requires 0 <= p < width / 2 < |data|
    ensures |SignalRemoved(data, p, width)| > p
    ensures SignalRemoved(data, p, width)[p] == data[p]
  {
  }

  /** When the window also ends inside the series, the two pieces overlap: the samples
      `[p + w//2, len + p - w//2)` occur in both, so the residual is longer than the
      series as soon as `2 (w//2) < len`. */
  lemma WindowNegativeStartOverlaps(data: seq<real>, p: int, width: int)
    requires 0 <= p < width / 2 && p + width / 2 <= |data|
    ensures var h, r := width / 2, SignalRemoved(data, p, width);
            && |r| == 2 * |data| - 2 * h
            && (2 * h < |data| ==> |r| > |data|)
            && forall k :: p + h <= k < |data| + p - h ==>
                 r[k] == data[k] && r[|data| + k - 2 * h] == data[k]
  {
    WindowNegativeStart(data, p, width);
  }

  /** `Sig_To_Noise`'s default `peakwidthestimate`. */
  const DefaultPeakWidth: int := 100

  /** At the default width, a peak at sample 0 of a 200-sample series leaves a
      300-sample residual: samples 50 to 149 are averaged twice. */
  lemma DefaultWidthPeakAtStart(data: seq<real>)
    requires |data| == 200
    ensures |SignalRemoved(data, 0, DefaultPeakWidth)| == 300
    ensures forall k :: 50 <= k < 150 ==>
              SignalRemoved(data, 0, DefaultPeakWidth)[k] == data[k]
              && SignalRemoved(data, 0, DefaultPeakWidth)[k + 100] == data[k]
  {
    WindowNegativeStartOverlaps(data, 0, DefaultPeakWidth);
  }

  /** The peak-analysis part of `Sig_To_Noise`, up to and including `avnoise`. */
  datatype NoiseEstimate = NoiseEstimate(
    peak: real, peakIndex: nat, peakTime: real, signalRemoved: seq<real>, avnoise: Option<real>)

  function SigToNoise(times: seq<real>, data: seq<real>, width: int): (r: Result<NoiseEstimate>)
    ensures data == [] <==> r == Err(EmptySeries)
    ensures r == Err(TimeIndexOutOfRange) <==> data != [] && PeakIndex(data) >= |times|
    ensures r.Ok? ==>
              && r.value.peakIndex < |data| && r.value.peakIndex < |times|
              && r.value.peak == data[r.value.peakIndex]
              && (forall k :: 0 <= k < |data| ==> data[k] <= r.value.peak)
              && (forall k :: 0 <= k < r.value.peakIndex ==> data[k] < r.value.peak)
              && r.value.peakTime == times[r.value.peakIndex]
              && r.value.signalRemoved == SignalRemoved(data, r.value.peakIndex, width)
              && r.value.avnoise == Mean(r.value.signalRemoved)
  {
    if data == [] then Err(EmptySeries)
    else
      var peak := Max(data);
      var p := PeakIndex(data);
      if p >= |times| then Err(TimeIndexOutOfRange)
      else
        var removed := SignalRemoved(data, p, width);
        Ok(NoiseEstimate(peak, p, times[p], removed, Mean(removed)))
  }

  /** A residual cut from an interior window, with the data constant `c` outside the
      window, averages to `c`. */
  lemma FlatResidualMean(data: seq<real>, p: int, width: int, c: real)
    requires var h := width / 2; 0 <= h <= p && p + h <= |data| && 2 * h < |data|
    requires var h := width / 2;
             forall k :: 0 <= k < |data| && !(p - h <= k < p + h) ==> data[k] == c
    ensures Mean(SignalRemoved(data, p, width)) == Some(c)
  {
    var h := width / 2;
    var r := SignalRemoved(data, p, width);
    WindowInterior(data, p, width);
    forall k | 0 <= k < |r|
      ensures r[k] == c
    {
      var src := if k < p - h then k else k + 2 * h;
      assert r[k] == data[src];
    }
    MeanBounds(r, c, c);
  }

  /** On a flat background of level `c` outside an interior window, the noise average is `c`. */
  lemma FlatBackgroundNoise(times: seq<real>, data: seq<real>, width: int, c: real)
    requires SigToNoise(times, data, width).Ok?
    requires var p, h := SigToNoise(times, data, width).value.peakIndex, width / 2;
             0 <= h <= p && p + h <= |data| && 2 * h < |data|
    requires var p, h := SigToNoise(times, data, width).value.peakIndex, width / 2;
             forall k :: 0 <= k < |data| && !(p - h <= k < p + h) ==> data[k] == c
    ensures SigToNoise(times, data, width).value.avnoise == Some(c)
  {
    FlatResidualMean(data, SigToNoise(times, data, width).value.peakIndex, width, c);
  }
}
