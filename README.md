# Dedispersion pipeline: index and array logic

This project models the array-handling core of a pulsar dedispersion pipeline
(`functions/funcs.py`) in Dafny and proves properties of it. A time-frequency
image (rows are time samples, columns are frequency channels) goes through these stages:

- **dedisperse**: each channel's column is rolled backwards in time by that
  channel's integer sample shift (`np.roll(col, -shift)`). The result is written
  into a freshly allocated zero image of the same shape. The first channel's shift
  is reported as `maxroll`.
- **crop**: the slice `img[maxroll:-maxroll, :]` drops `maxroll` rows at each end.
  `np.roll(col, -s)` moves a column's first `s` samples round to the END of the
  column, not to the beginning as the docstrings at functions/funcs.py:26-27 and
  62-63 say. The symmetric crop removes them either way, as long as no shift exceeds
  the first channel's and none is negative (`Cropping.CropDropsWrapped`).
  `Dedispersion.DelayNonIncreasing` and `Dedispersion.DelayNonNegative` show that the
  exact delays are ordered this way.
- **collapse**: builds a time axis starting `maxroll` samples in, and sums each row
  over all channels.
- **findpeakinfo**: finds the maximum of the series and the times of the samples
  that reach it.
- **Sig_To_Noise**: finds the first index `p` of the maximum, cuts the series into
  `data[0 : p - w//2]` and `data[p + w//2 : len]` with `w = peakwidthestimate`
  (default 100, `Peaks.DefaultPeakWidth`), and averages the concatenation (`avnoise`).
  For an interior window this removes `2 (w//2)` samples: `w - 1` for odd `w`, and
  fewer when the window runs past the end of the series.

Modules:

- `PySlices` (`py_slices.dfy`): Python slice semantics (`PySlice`). A negative bound
  counts from the end, every bound is clamped, and a slice whose start is not before
  its stop is empty. Both `crop` and the window removal are written with it, so they
  keep every edge case of the source.
- `Reductions` (`reductions.dfy`): `np.sum`/`np.nansum` (`Sum`, exact over reals),
  `np.amax` (`Max`) and `np.where(data == v)[0]` (`IndicesWhere`).
- `Dedispersion` (`dedispersion.dfy`): the following parts.
  - `Roll` models `np.roll`.
  - `Dedispersed` is the dedispersed image as a value.
  - `Dedisperse` is the source's loop over an `array2`. It is proved equal to
    `Dedispersed` and to return the first shift.
  - `Delay` is the cold-plasma delay, computed over exact reals.
- `Cropping` (`cropping.dfy`), `Collapsing` (`collapsing.dfy`), `Peaks` (`peaks.dfy`):
  the remaining stages.
- `Pipeline` (`pipeline.dfy`): the stages chained end to end.

In three places the code does not do what its own docstrings say. The model follows the
code each time:

- `crop` is documented as removing only the samples that rolled round
  (functions/funcs.py:56-57 and 62-65). With `maxroll == 0` nothing rolled, so
  nothing should be cropped. But line 73 then returns **no rows**, because `-0 == 0`
  makes the slice `[0:0]`.
- `findpeakinfo` documents `peak_time` as "the time of the peak", a single value
  (functions/funcs.py:151). Line 158 uses the `np.where` tuple as a fancy index, so
  it returns the times of **every** sample equal to the maximum.
- `Sig_To_Noise` removes the peak to get a cleaner noise estimate
  (functions/funcs.py:108-109). But the window at line 130 is not clamped. When
  `p < w//2`, its negative start counts from the end of the series, and two things
  follow. The peak itself survives in the "noise" (`Peaks.WindowNegativeStartKeepsPeak`).
  And the two slices overlap, so the samples `[p + w//2, len + p - w//2)` are averaged
  twice and the residual is longer than the data (`Peaks.WindowNegativeStartOverlaps`).
  For example, with 10 samples, `p = 0` and `w = 6`, the residual is
  `data[:7] + data[3:]`, 14 samples.

Python's exceptions become values:

- `np.amax` on an empty series becomes `EmptySeries`.
- A peak index past the end of `times` becomes `TimeIndexOutOfRange`.
- The NaN that `np.sum([]) / 0` yields becomes `None`.

## Model

| member | source | states |
|---|---|---|
| `PySlices.Bound` | functions/funcs.py:73 | A slice bound lands in `[0, len]`. An in-range bound is kept. A negative bound within range counts from the end. Bounds past either end are clamped. |
| `PySlices.PySlice` | functions/funcs.py:73 | A slice is never longer than the sequence. An in-range ordered slice is the ordinary subsequence. Equal bounds give the empty slice. |
| `PySlices.PySliceAt` | functions/funcs.py:130 | In general, the slice's length is the distance between the normalised bounds, or 0. Element `k` is `s[start + k]`. |
| `PySlices.PySliceNegativeStart` | functions/funcs.py:130 | A negative start `lo` with `-len <= lo` gives the same slice as the start `len + lo`. |
| `PySlices.PySliceSplit` | functions/funcs.py:130 | `s[0:p] + s[p:len]` is `s` for every in-range `p`. |
| `Reductions.SumAppend` | functions/funcs.py:132 | The sum of a concatenation is the sum of the parts. |
| `Reductions.SumNonNegative` | functions/funcs.py:102 | Non-negative samples have a non-negative sum. So every collapsed value of a non-negative image is non-negative. |
| `Reductions.SumConstant` | functions/funcs.py:102 | `n` copies of `c` sum to `n * c`. |
| `Reductions.SumBounds` | functions/funcs.py:132 | Elementwise lower and upper bounds carry over to the sum, scaled by the length. |
| `Reductions.Max` | functions/funcs.py:156 | `np.amax` of a non-empty series occurs in it and is at least every element. |
| `Reductions.IndicesWhere` | functions/funcs.py:157 | `np.where(s == v)[0]` lists only indices holding `v`. It includes every such index, in strictly ascending order. |
| `Reductions.FirstIndexWhere` | functions/funcs.py:126-127 | When `v` occurs, `np.where(...)[0][0]` exists and holds `v`. No earlier index holds `v`. |
| `Reductions.LastIndexWhere` | functions/funcs.py:157 | When `v` occurs, the last reported index holds `v`. No later index holds `v`. |
| `Reductions.IndicesWhereAbsent` | functions/funcs.py:157 | A value that never occurs yields no indices. |
| `Reductions.IndicesWhereUnique` | functions/funcs.py:157 | A value occurring only at `p` yields exactly `[p]`. |
| `Reductions.IndicesWhereTwo` | functions/funcs.py:157 | A value occurring only at `p < q` yields exactly `[p, q]`. |
| `Dedispersion.Column` | functions/funcs.py:48 | `img[:, i]` has one entry per row, entry `j` being `img[j][i]`. |
| `Dedispersion.Roll` | functions/funcs.py:48 | `np.roll` keeps the column's length. |
| `Dedispersion.RollZero` | functions/funcs.py:48 | Rolling by 0 changes nothing. |
| `Dedispersion.RollInverse` | functions/funcs.py:48 | Rolling back by `k` and then forward by `k` restores the column. |
| `Dedispersion.RollIsRotation` | functions/funcs.py:48 | A roll by `k` is the rotation `c[m:] + c[:m]` with `m = -k mod len`. |
| `Dedispersion.RollPermutes` | functions/funcs.py:48 | A roll keeps the column's multiset of values. |
| `Dedispersion.Dedispersed` | functions/funcs.py:33-48 | The dedispersed image has the input's shape: the same row count and the same channel count in every row. |
| `Dedispersion.DedispersedColumn` | functions/funcs.py:48 | Output column `i` is exactly `np.roll(input[:, i], -shifts[i])`. |
| `Dedispersion.DedispersedWrapsAtEnd` | functions/funcs.py:48 | Take a shift `0 <= s <= rows`. Output row `j < rows - s` holds input row `j + s`. The last `s` output rows hold input rows `0 .. s-1`, so the wrapped samples sit at the end of the column. |
| `Dedispersion.DedispersedColumnPermutes` | functions/funcs.py:38-48 | Each output column is a permutation of its input column. |
| `Dedispersion.ColumnsIndependent` | functions/funcs.py:38-48 | Output column `i` depends only on input column `i` and shift `i`. |
| `Dedispersion.ZeroShiftsIdentity` | functions/funcs.py:40-48 | With every shift 0 (dispersion measure 0), the output equals the input. |
| `Dedispersion.Negated` | functions/funcs.py:48 | The negated shifts cancel the shifts channel by channel. |
| `Dedispersion.UndoDedispersion` | functions/funcs.py:48 | Rolling every column forward again by its own shift recovers the input exactly. |
| `Dedispersion.PulseRealigned` | functions/funcs.py:38-48 | Take a unit pulse at row `r0` that arrives `shifts[i]` samples late in channel `i`. Dedispersing it gives ones in row `r0` and zeros everywhere else. |
| `Dedispersion.Rows` | functions/funcs.py:33 | An `array2` viewed as an image has its dimensions and its entries. |
| `Dedispersion.Dedisperse` | functions/funcs.py:33-51 | The loop allocates a fresh image of the same shape. Its rows equal `Dedispersed(input, shifts)`. `maxroll` is the first channel's shift. Invariants: the filled columns are rolled, and the rest are still zero. |
| `Dedispersion.ChannelFrequency` | functions/funcs.py:35-40 | Channel `i`'s frequency is at least `minfreq`, and at most `maxfreq = minfreq + bandwidth` for `i <= nchannels`. Channel `nchannels` is exactly `maxfreq`. |
| `Dedispersion.BandFraction` | functions/funcs.py:40 | The offset `i * bandwidth / nchannels` lies in `[0, bandwidth]` for `i <= nchannels`, and equals `bandwidth` at `i == nchannels`. |
| `Dedispersion.Delay` | functions/funcs.py:34-40 | `delta_T` with the constant `4.148808e-3` (`DispersionConstant`). The delay is 0 at the top of the band (`i == nchannels`), and 0 for every channel at dispersion measure 0. |
| `Dedispersion.InverseSquareGapAntitone` | functions/funcs.py:40 | `f^-2 - maxfreq^-2` does not grow as `f` grows. |
| `Dedispersion.ColdPlasmaDelayAntitone` | functions/funcs.py:40 | For a non-negative dispersion measure, a lower frequency is delayed at least as much as a higher one. |
| `Dedispersion.DelayNonIncreasing` | functions/funcs.py:40 | For a non-negative dispersion measure, a higher channel's delay is never larger than a lower channel's. So channel 0 has the largest delay, which `maxroll` records. |
| `Dedispersion.DelayNonNegative` | functions/funcs.py:40 | Within the band the delay is never negative. |
| `Cropping.Crop` | functions/funcs.py:73 | `img[maxroll:-maxroll, :]` never has more rows than the input. Every row it keeps is a row of the input. |
| `Cropping.CropInterior` | functions/funcs.py:73 | For `0 < m` and `2m < rows`, the result has `rows - 2m` rows, and row `k` is input row `k + m`. |
| `Cropping.CropDropsWrapped` | functions/funcs.py:62-73 | Let channel 0 have the largest shift `m > 0`, with no shift negative and `2m < rows`. Cropping the dedispersed image by `m` keeps `rows - 2m` rows. Kept row `k` of channel `i` is input row `k + m + shifts[i]`, which is less than `rows`, so no kept sample wrapped round. |
| `Cropping.CropKeepsRectangular` | functions/funcs.py:73 | Columns are untouched, so a rectangular image stays rectangular. |
| `Cropping.CropZeroIsEmpty` | functions/funcs.py:73 | `maxroll == 0` gives no rows, because `[0:-0]` is `[0:0]`. |
| `Cropping.CropTooWideIsEmpty` | functions/funcs.py:73 | `m > 0` with `2m >= rows` gives no rows, and no error is raised. |
| `Cropping.CropNegativeIsEmpty` | functions/funcs.py:73 | A negative `m` with `-2m <= rows` gives no rows. |
| `Collapsing.Collapse` | functions/funcs.py:99-102 | `times` and `collapsed` are as long as the cropped image. `times[k] == (k + maxroll) * sample_time`. `collapsed[k]` is the sum of row `k`. |
| `Collapsing.CollapseTimesArithmetic` | functions/funcs.py:99 | Consecutive times differ by `sample_time`. The times are strictly increasing when `sample_time > 0`. |
| `Collapsing.CollapseAllOnes` | functions/funcs.py:102 | An image of ones over `C` channels collapses to `C` at every sample. |
| `Peaks.FindPeakInfo` | functions/funcs.py:156-158 | Empty data fails with `EmptySeries`, and only empty data does. `TimeIndexOutOfRange` occurs exactly when some maximal sample lies beyond `times`. Otherwise the peak occurs in the data and bounds it from above. `peak_time` is non-empty and is `times` at every index of the maximum, ascending. |
| `Peaks.TimesAt` | functions/funcs.py:158 | `times[idx]` has one entry per index, and entry `t` is `times[idx[t]]`. |
| `Peaks.LastTieBeyondTimes` | functions/funcs.py:157-158 | Fancy indexing fails exactly when the last index of the maximum is past the end of `times`, that is, when some maximal sample has no time. |
| `Peaks.FindPeakInfoEveryTie` | functions/funcs.py:156-158 | Every maximal sample's time is returned. The first returned time is that of the first maximal sample. |
| `Peaks.StrictMaxIndices` | functions/funcs.py:156-157 | A strict maximum at `p` is the `np.amax` value, and `np.where` reports only `p`. |
| `Peaks.UniquePeak` | functions/funcs.py:156-158 | A strict maximum at `p` gives the single peak time `[times[p]]`. |
| `Peaks.ExampleMax` | functions/funcs.py:156 | The maximum of `[1, 5, 3, 5, 2]` is 5. |
| `Peaks.ExampleIndices` | functions/funcs.py:157 | The indices of 5 in `[1, 5, 3, 5, 2]` are `[1, 3]`. |
| `Peaks.FindPeakInfoReturnsBothTies` | functions/funcs.py:156-158 | With data `[1, 5, 3, 5, 2]` and times `[0, 1, 2, 3, 4]`, the result is peak 5 with times `[1, 3]`, not only `1`. |
| `Peaks.PeakIndex` | functions/funcs.py:125-127 | `peak_index` is in range and holds the maximum. Every earlier sample is strictly below the maximum. |
| `Peaks.SignalRemoved` | functions/funcs.py:130 | The concatenation of the two slices is at most twice the series' length. |
| `Peaks.Mean` | functions/funcs.py:132 | The average is undefined (NaN) exactly when the residual is empty. |
| `Peaks.QuotientBounds` | functions/funcs.py:132 | Dividing a total by a positive count turns bounds on the total, scaled by the count, into bounds on the quotient. |
| `Peaks.MeanBounds` | functions/funcs.py:132 | The average of a non-empty residual lies between any lower and upper bound of its samples. |
| `Peaks.WindowInterior` | functions/funcs.py:130 | Take `0 <= w//2 <= p` and `p + w//2 <= len`. The residual is `data` with exactly the indices in `[p - w//2, p + w//2)` removed. Its length is `len - 2 (w//2)`. |
| `Peaks.WindowEmptyKeepsAll` | functions/funcs.py:130 | When `w//2 == 0`, the residual is the whole series. |
| `Peaks.WindowNegativeStart` | functions/funcs.py:130 | When `p < w//2`, the first piece is `data[0 : len + p - w//2]`. The negative start counts from the end. |
| `Peaks.WindowNegativeStartKeepsPeak` | functions/funcs.py:130 | When `p < w//2 < len`, the peak sample itself stays in the residual. |
| `Peaks.WindowNegativeStartOverlaps` | functions/funcs.py:130 | Take `0 <= p < w//2` and `p + w//2 <= len`. The residual has `2 len - 2 (w//2)` samples, more than `len` when `2 (w//2) < len`. Each sample in `[p + w//2, len + p - w//2)` appears twice: at its own index and `len - 2 (w//2)` later. |
| `Peaks.DefaultWidthPeakAtStart` | functions/funcs.py:106-130 | With the default `peakwidthestimate` of 100 (`DefaultPeakWidth`), a peak at sample 0 of a 200-sample series leaves a 300-sample residual. Samples 50 to 149 appear twice. |
| `Peaks.SigToNoise` | functions/funcs.py:124-132 | Empty data fails with `EmptySeries`. A first peak index beyond `times` fails with `TimeIndexOutOfRange`. Otherwise the result holds the following. `peak_index` is the smallest index of the maximum. `peak_time` is `times[peak_index]`. The residual is the window-removed series. `avnoise` is its mean. |
| `Peaks.FlatResidualMean` | functions/funcs.py:130-132 | Take an interior window, with the data constant `c` outside it. The residual averages to exactly `c`. |
| `Peaks.FlatBackgroundNoise` | functions/funcs.py:125-132 | Take an interior window, with the data constant `c` outside it. Then `avnoise == c`. |
| `Pipeline.CollapsedPulse` | functions/funcs.py:38-102 | Dedispersing a dispersed unit pulse, cropping by `maxroll` and collapsing gives a series. It is `C` at sample `r0 - maxroll`, at time `r0 * sample_time`, and 0 elsewhere. |
| `Pipeline.PipelineFindsPulse` | functions/funcs.py:38-158 | Dedisperse, crop, collapse and `findpeakinfo` on a dispersed pulse. The result is one peak of height `C` at the pulse's original time. |
| `Pipeline.ZeroDispersionFindsNothing` | functions/funcs.py:38-158 | With all shifts 0, the crop is empty and `findpeakinfo` fails with `EmptySeries`. |

## Left out

- Dedispersion.Dedisperse: takes the per-channel integer shifts as an input. It does not model computing them with the floating-point delay formula and `int(round(...))` (banker's rounding, functions/funcs.py:40-48). `Dedispersion.Delay` gives the delay over exact reals as an idealisation, without rounding.
- Floating point in general: images, times and sums are exact reals. `np.nansum`'s NaN handling and summation order are not modelled. The data is taken to be NaN-free.
- The RMS and the signal-to-noise ratio of `Sig_To_Noise` (functions/funcs.py:134-136) need a square root and can divide by zero. The model stops at `avnoise`.
- `dDM_step` (functions/funcs.py:162-189) is a floating-point unit-conversion formula with nothing structural to prove.
- The matplotlib imports (functions/funcs.py:3-6) are unused. The bare `np.apply_along_axis` expression (functions/funcs.py:50) has no effect.
- An image with zero channels leaves `maxroll` unbound in the source (a NameError). `Dedisperse` requires at least one channel instead.
- Integer widths: shifts and indices are unbounded integers, whereas NumPy uses 64-bit integers.
- The `Dedisperse` method reads its input array and never writes it. Aliasing between the input and the output cannot arise, because the output is freshly allocated.
