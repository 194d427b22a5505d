/** The window planner of compute_mosaic_spectrogram (utils/dsp_lib.py): the
    choice of FFT window starts for a time-sparse spectrogram of the sample
    range [start, stop). The FFT columns themselves are not part of this
    model. */
module MosaicPlan {
  import opened Wrappers
  import opened Arith

  /** np.arange(lo, hi, step) for a positive step: lo, lo+step, ... while
      below hi. */
  function Arange(lo: int, hi: int, step: int): (r: seq<int>)
    requires step > 0
    decreases hi - lo
  {
    if lo >= hi then [] else [lo] + Arange(lo + step, hi, step)
  }

  /** The j-th element of the range is lo + j*step, and every element lies in
      [lo, hi). */
  lemma {:induction false} ArangeElements(lo: int, hi: int, step: int)
    requires step > 0
    ensures forall j :: 0 <= j < |Arange(lo, hi, step)| ==>
      Arange(lo, hi, step)[j] == lo + j * step && lo <= Arange(lo, hi, step)[j] < hi
    decreases hi - lo
  {
    if lo < hi {
      ArangeElements(lo + step, hi, step);
      var r := Arange(lo, hi, step);
      var t := Arange(lo + step, hi, step);
      forall j | 0 <= j < |r|
        ensures r[j] == lo + j * step && lo <= r[j] < hi
      {
        if j > 0 {
          assert r[j] == t[j - 1];
        }
      }
    }
  }

  /** The range is empty exactly when lo is already at or past hi, and it is
      exhaustive: one more step from its last element reaches hi. */
  lemma {:induction false} ArangeExtent(lo: int, hi: int, step: int)
    requires step > 0
    ensures Arange(lo, hi, step) == [] <==> lo >= hi
    ensures Arange(lo, hi, step) != [] ==> Arange(lo, hi, step)[|Arange(lo, hi, step)| - 1] + step >= hi
    decreases hi - lo
  {
    if lo < hi {
      ArangeExtent(lo + step, hi, step);
    }
  }

  /** Window stride in samples: whole FFT windows, thinned out so that about
      `targetWidth` columns cover the range, never less than one window. */
  function Stride(count: int, fftSize: int, targetWidth: int): (s: int)
    requires fftSize > 0 && targetWidth > 0
    ensures s >= fftSize && s % fftSize == 0
  {
    var totalWindows := count / fftSize;
    var strideWindows := if totalWindows / targetWidth >= 1 then totalWindows / targetWidth else 1;
    MulAtLeast(strideWindows, fftSize);
    ModUnique(strideWindows * fftSize, fftSize, strideWindows, 0);
    strideWindows * fftSize
  }

  /** The window starts: None (the source returns no image) when the range is
      empty or no window fits; otherwise the arange of starts cut to at most
      `targetWidth` columns. */
  function PlanWindows(start: int, stop: int, fftSize: int, targetWidth: int): (r: Option<seq<int>>)
    requires fftSize > 0 && targetWidth > 0
  {
    var count := stop - start;
    if count <= 0 then None
    else
      var starts := Arange(start, stop - fftSize, Stride(count, fftSize, targetWidth));
      var cut := if |starts| <= targetWidth then starts else starts[..targetWidth];
      if |cut| == 0 then None else Some(cut)
  }

  /** No image exactly when the range holds at most one FFT window's worth of
      samples: np.arange excludes stop - fftSize itself, so a range of exactly
      fftSize samples gets no window. */
  lemma PlanEmpty(start: int, stop: int, fftSize: int, targetWidth: int)
    requires fftSize > 0 && targetWidth > 0
    ensures PlanWindows(start, stop, fftSize, targetWidth).None? <==> stop - start <= fftSize
  {
    if stop - start > 0 {
      ArangeExtent(start, stop - fftSize, Stride(stop - start, fftSize, targetWidth));
    }
  }

  /** The planned windows: between one and targetWidth of them, the j-th
      starting at start + j*stride, each [idx, idx + fftSize) inside the
      range, and consecutive windows at least fftSize apart, so no two
      overlap. */
  lemma PlanWindowsInside(start: int, stop: int, fftSize: int, targetWidth: int)
    requires fftSize > 0 && targetWidth > 0
    ensures var r := PlanWindows(start, stop, fftSize, targetWidth);
      r.Some? ==>
        && 1 <= |r.value| <= targetWidth
        && (forall j :: 0 <= j < |r.value| ==> r.value[j] == start + j * Stride(stop - start, fftSize, targetWidth))
        && (forall j :: 0 <= j < |r.value| ==> start <= r.value[j] && r.value[j] + fftSize < stop)
        && (forall i, j :: 0 <= i < j < |r.value| ==> r.value[i] + fftSize <= r.value[j])
  {
    var r := PlanWindows(start, stop, fftSize, targetWidth);
    if r.Some? {
      var stride := Stride(stop - start, fftSize, targetWidth);
      ArangeElements(start, stop - fftSize, stride);
      forall i, j | 0 <= i < j < |r.value|
        ensures r.value[i] + fftSize <= r.value[j]
      {
        assert j * stride - i * stride == (j - i) * stride;
        MulAtLeast(j - i, stride);
      }
    }
  }

  /** When the range needs no more than targetWidth columns, the plan is not
      cut: it reaches the last window start before stop - fftSize. */
  lemma PlanCovers(start: int, stop: int, fftSize: int, targetWidth: int)
    requires fftSize > 0 && targetWidth > 0
    requires PlanWindows(start, stop, fftSize, targetWidth).Some?
    requires |Arange(start, stop - fftSize, Stride(stop - start, fftSize, targetWidth))| <= targetWidth
    ensures var w := PlanWindows(start, stop, fftSize, targetWidth).value;
      w[|w| - 1] + Stride(stop - start, fftSize, targetWidth) >= stop - fftSize
  {
    ArangeExtent(start, stop - fftSize, Stride(stop - start, fftSize, targetWidth));
  }
}
