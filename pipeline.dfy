/** The stages chained as the pipeline runs them: dedisperse, crop by `maxroll`,
    collapse, find the peak. */
module Pipeline {
  import opened Reductions
  import opened Dedispersion
  import opened Cropping
  import opened Collapsing
  import opened Peaks

  /** After dedispersing and cropping a dispersed unit pulse, the collapsed series is
      the channel count at the pulse's sample and zero everywhere else. */
  lemma CollapsedPulse(img: Image, shifts: seq<int>, r0: nat, sampleTime: real)
    requires |shifts| >= 1 && DispersedPulse(img, shifts, r0)
    requires 0 < shifts[0] && 2 * shifts[0] < |img|
    requires shifts[0] <= r0 < |img| - shifts[0]
    ensures var m := shifts[0];
            var series := Collapse(Crop(Dedispersed(img, shifts), m), sampleTime, m);
            && |series.values| == |img| - 2 * m
            && series.times[r0 - m] == r0 as real * sampleTime
            && forall k :: 0 <= k < |series.values| ==>
                 series.values[k] == if k == r0 - m then |shifts| as real else 0.0
  {
    var m := shifts[0];
    var out := Dedispersed(img, shifts);
    PulseRealigned(img, shifts, r0);
    var cropped := Crop(out, m);
    CropInterior(out, m);
    var series := Collapse(cropped, sampleTime, m);
    assert series.times[r0 - m] == ((r0 - m) + m) as real * sampleTime;
    forall k | 0 <= k < |cropped|
      ensures series.values[k] == if k == r0 - m then |shifts| as real else 0.0
    {
      assert cropped[k] == out[k + m];
      var level := if k == r0 - m then 1.0 else 0.0;
      SumConstant(cropped[k], level);
    }
  }

  /** The end-to-end promise: a pulse dispersed by exactly the shifts used is found as
      one peak, of height equal to the channel count, at its original time. */
  lemma PipelineFindsPulse(img: Image, shifts: seq<int>, r0: nat, sampleTime: real)
    requires |shifts| >= 1 && DispersedPulse(img, shifts, r0)
    requires 0 < shifts[0] && 2 * shifts[0] < |img|
    requires shifts[0] <= r0 < |img| - shifts[0]
    ensures var m := shifts[0];
            var series := Collapse(Crop(Dedispersed(img, shifts), m), sampleTime, m);
            FindPeakInfo(series.times, series.values)
              == Ok(PeakInfo([r0 as real * sampleTime], |shifts| as real))
  {
    var m := shifts[0];
    var series := Collapse(Crop(Dedispersed(img, shifts), m), sampleTime, m);
    CollapsedPulse(img, shifts, r0, sampleTime);
    var p := r0 - m;
    UniquePeak(series.times, series.values, p);
  }

  /** At zero dispersion measure every shift is 0, so `maxroll` is 0, the crop keeps
      no rows and the peak search on the empty series fails. */
  lemma ZeroDispersionFindsNothing(img: Image, shifts: seq<int>, sampleTime: real)
    requires |shifts| >= 1 && Rectangular(img, |shifts|)
    requires forall i :: 0 <= i < |shifts| ==> shifts[i] == 0
    ensures var m := shifts[0];
            var series := Collapse(Crop(Dedispersed(img, shifts), m), sampleTime, m);
            FindPeakInfo(series.times, series.values) == Err(EmptySeries)
  {
  }
}
