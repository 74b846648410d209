/** `collapse`: turn a cropped image into a time series, one sample per row. The
    time axis starts `maxroll` samples in, where the cropped rows really begin,
    and each value is the sum of the row over all frequency channels. */
module Collapsing {
  import opened Reductions
  import opened Dedispersion

  /** The paired outputs `times` and `collapsed`. */
  datatype Series = Series(times: seq<real>, values: seq<real>)

  /** `np.arange(maxroll, rows + maxroll) * sample_time` and `np.nansum(img, axis=1)`. */
  function Collapse(cropped: Image, sampleTime: real, maxroll: int): (s: Series)
    ensures |s.times| == |cropped| && |s.values| == |cropped|
    ensures forall k :: 0 <= k < |cropped| ==> s.times[k] == (k + maxroll) as real * sampleTime
    ensures forall k :: 0 <= k < |cropped| ==> s.values[k] == Sum(cropped[k])
  {
    Series(
      seq(|cropped|, k requires 0 <= k < |cropped| => (k + maxroll) as real * sampleTime),
      seq(|cropped|, k requires 0 <= k < |cropped| => Sum(cropped[k])))
  }

  /** The times are an arithmetic progression with step `sample_time`, strictly
      increasing when the sample time is positive. */
  lemma CollapseTimesArithmetic(cropped: Image, sampleTime: real, maxroll: int)
    ensures var t := Collapse(cropped, sampleTime, maxroll).times;
            forall k :: 0 <= k < |t| - 1 ==> t[k + 1] - t[k] == sampleTime
    ensures var t := Collapse(cropped, sampleTime, maxroll).times;
            sampleTime > 0.0 ==> forall a, b :: 0 <= a < b < |t| ==> t[a] < t[b]
  {
    var t := Collapse(cropped, sampleTime, maxroll).times;
    if sampleTime > 0.0 {
      forall a, b | 0 <= a < b < |t|
        ensures t[a] < t[b]
      {
        var d := (b - a) as real;
        assert t[b] - t[a] == d * sampleTime;
        assert d >= 1.0;
      }
    }
  }

  /** An image of ones over `cols` channels collapses to `cols` in every sample. */
  lemma CollapseAllOnes(cropped: Image, cols: nat, sampleTime: real, maxroll: int)
    requires Rectangular(cropped, cols)
    requires forall j, i :: 0 <= j < |cropped| && 0 <= i < cols ==> cropped[j][i] == 1.0
    ensures forall k :: 0 <= k < |cropped| ==> Collapse(cropped, sampleTime, maxroll).values[k] == cols as real
  {
    forall k | 0 <= k < |cropped|
      ensures Sum(cropped[k]) == cols as real
    {
      SumConstant(cropped[k], 1.0);
    }
  }
}
