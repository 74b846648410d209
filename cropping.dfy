/** `crop`: drop the `maxroll` rows at each end of a dedispersed image, the samples
    that rolled round from the other end. It is the single Python slice
    `img[maxroll:-maxroll, :]`, so it inherits Python's slice rules: it never
    raises, and since `-0 == 0` a `maxroll` of 0 gives no rows at all. */
module Cropping {
  import opened PySlices
  import opened Dedispersion

  /** `dedispersed_image[maxroll:-maxroll, :]`. Whole rows are kept, in order. */
  function Crop(img: Image, maxroll: int): (r: Image)
    ensures |r| <= |img|
    ensures forall k :: 0 <= k < |r| ==> r[k] in img
  {
    PySlice(img, maxroll, -maxroll)
  }

  /** The intended case: `rows - 2 m` rows survive, row `k` being input row `k + m`. */
  lemma CropInterior(img: Image, m: int)
    requires 0 < m && 2 * m < |img|
    ensures |Crop(img, m)| == |img| - 2 * m
    ensures forall k :: 0 <= k < |img| - 2 * m ==> Crop(img, m)[k] == img[k + m]
  {
  }

  /** What cropping is for. When channel 0 has the largest shift `m` and no shift is
      negative, the crop keeps `rows - 2 m` rows and none of them holds a wrapped
      sample: kept row `k` of channel `i` is input row `k + m + shifts[i]`, read
      without wrapping round. */
  lemma CropDropsWrapped(img: Image, shifts: seq<int>)
    requires Rectangular(img, |shifts|) && |shifts| >= 1
    requires 0 < shifts[0] && 2 * shifts[0] < |img|
    requires forall i :: 0 <= i < |shifts| ==> 0 <= shifts[i] <= shifts[0]
    ensures var m := shifts[0];
            |Crop(Dedispersed(img, shifts), m)| == |img| - 2 * m
    ensures var m, c := shifts[0], Crop(Dedispersed(img, shifts), shifts[0]);
            forall k, i :: 0 <= k < |c| && 0 <= i < |shifts| ==>
              k + m + shifts[i] < |img| && c[k][i] == img[k + m + shifts[i]][i]
  {
    var m, out := shifts[0], Dedispersed(img, shifts);
    var c := Crop(out, m);
    CropInterior(out, m);
    forall k, i | 0 <= k < |c| && 0 <= i < |shifts|
      ensures k + m + shifts[i] < |img| && c[k][i] == img[k + m + shifts[i]][i]
    {
      assert c[k] == out[k + m];
      DedispersedWrapsAtEnd(img, shifts, i, k + m);
    }
  }

  /** The columns are untouched: a rectangular image stays rectangular. */
  lemma CropKeepsRectangular(img: Image, m: int, cols: nat)
    requires Rectangular(img, cols)
    ensures Rectangular(Crop(img, m), cols)
  {
  }

  /** `img[0:-0]` is `img[0:0]`: with no roll the crop is empty, not the whole image. */
  lemma CropZeroIsEmpty(img: Image)
    ensures Crop(img, 0) == []
  {
  }

  /** A roll of half the rows or more leaves nothing; the slice is clamped, no error. */
  lemma CropTooWideIsEmpty(img: Image, m: int)
    requires 0 < m && |img| <= 2 * m
    ensures Crop(img, m) == []
  {
  }

  /** A negative roll gives `img[rows+m : -m]`, empty unless the image is shorter than `-2 m`. */
  lemma CropNegativeIsEmpty(img: Image, m: int)
    requires m < 0 && -2 * m <= |img|
    ensures Crop(img, m) == []
  {
  }
}
