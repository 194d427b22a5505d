/** The Slicer: slice_signal thresholds an analog envelope into integer
    symbol levels with np.digitize semantics (utils/dsp_lib.py). Samples and
    thresholds are exact reals; NaN is not modelled. */
module Slicer {
  import opened Wrappers

  /** np.digitize accepts bins that are monotonically increasing (equal
      neighbours allowed, which covers all-equal bins) ... */
  predicate Ascending(t: seq<real>) {
    forall i, j :: 0 <= i < j < |t| ==> t[i] <= t[j]
  }

  /** ... or monotonically decreasing; anything else raises ValueError. */
  predicate Descending(t: seq<real>) {
    forall i, j :: 0 <= i < j < |t| ==> t[i] >= t[j]
  }

  /** Number of thresholds at or below x. */
  function CountLe(x: real, t: seq<real>): (n: nat)
    ensures n <= |t|
  {
    if t == [] then 0 else (if t[0] <= x then 1 else 0) + CountLe(x, t[1..])
  }

  /** Number of thresholds strictly above x. */
  function CountGt(x: real, t: seq<real>): (n: nat)
    ensures n <= |t|
  {
    if t == [] then 0 else (if t[0] > x then 1 else 0) + CountGt(x, t[1..])
  }

  /** np.digitize of one sample with right=False: increasing bins give the
      number of bins <= x; decreasing bins (searched reversed) give the number
      of bins > x. All-equal bins count as increasing. */
  function Digitize(x: real, t: seq<real>): (level: nat)
    requires Ascending(t) || Descending(t)
    ensures level <= |t|
  {
    if Ascending(t) then CountLe(x, t) else CountGt(x, t)
  }

  function Sum(s: seq<real>): real {
    if s == [] then 0.0 else s[0] + Sum(s[1..])
  }

  /** np.mean of a non-empty envelope. */
  function Mean(s: seq<real>): real
    requires s != []
  {
    Sum(s) / (|s| as real)
  }

  /** slice_signal: with no thresholds the single threshold is the mean of the
      envelope (an empty envelope slices to nothing); otherwise the caller's
      thresholds are used and np.digitize rejects non-monotonic ones. */
  function SliceSignal(data: seq<real>, thresholds: seq<real>): (r: Result<seq<int>>)
    ensures r.Ok? <==> thresholds == [] || Ascending(thresholds) || Descending(thresholds)
    ensures r.Ok? ==> |r.value| == |data|
    ensures r.Ok? ==> forall i :: 0 <= i < |data| ==> 0 <= r.value[i] <= if thresholds == [] then 1 else |thresholds|
  {
    if data == [] && thresholds == [] then Ok([])
    else
      var t := if thresholds == [] then [Mean(data)] else thresholds;
      if Ascending(t) || Descending(t) then
        Ok(seq(|data|, i requires 0 <= i < |data| => Digitize(data[i], t)))
      else Err("bins must be monotonically increasing or decreasing")
  }

  /** For increasing thresholds the level k of x is the bin with
      t[k-1] <= x < t[k]: every threshold before index k is at or below x and
      every one from k on is above it. */
  lemma {:induction false} AscendingBin(x: real, t: seq<real>)
    requires Ascending(t)
    ensures var k := CountLe(x, t);
      (forall j :: 0 <= j < k ==> t[j] <= x) && (forall j :: k <= j < |t| ==> x < t[j])
  {
    if t != [] {
      AscendingBin(x, t[1..]);
    }
  }

  /** For decreasing thresholds the level k of x counts the leading
      thresholds above x; all later ones are at or below it. */
  lemma {:induction false} DescendingBin(x: real, t: seq<real>)
    requires Descending(t)
    ensures var k := CountGt(x, t);
      (forall j :: 0 <= j < k ==> t[j] > x) && (forall j :: k <= j < |t| ==> t[j] <= x)
  {
    if t != [] {
      DescendingBin(x, t[1..]);
    }
  }

  /** A larger sample never gets a lower level from increasing thresholds. */
  lemma {:induction false} CountLeMonotone(x: real, y: real, t: seq<real>)
    requires x <= y
    ensures CountLe(x, t) <= CountLe(y, t)
  {
    if t != [] {
      CountLeMonotone(x, y, t[1..]);
    }
  }

  /** A larger sample never gets a higher level from decreasing thresholds. */
  lemma {:induction false} CountGtAntitone(x: real, y: real, t: seq<real>)
    requires x <= y
    ensures CountGt(x, t) >= CountGt(y, t)
  {
    if t != [] {
      CountGtAntitone(x, y, t[1..]);
    }
  }

  /** Slicing with increasing thresholds is non-decreasing in the sample
      value: two samples in order get levels in the same order. */
  lemma SliceMonotone(data: seq<real>, thresholds: seq<real>, i: nat, j: nat)
    requires thresholds != [] && Ascending(thresholds)
    requires i < |data| && j < |data| && data[i] <= data[j]
    ensures SliceSignal(data, thresholds).Ok?
    ensures SliceSignal(data, thresholds).value[i] <= SliceSignal(data, thresholds).value[j]
  {
    CountLeMonotone(data[i], data[j], thresholds);
  }

  /** With no thresholds the slicer is binary: a sample gets level 1 exactly
      when it is at or above the mean of the envelope. */
  lemma SliceDefaultIsMean(data: seq<real>, i: nat)
    requires i < |data|
    ensures SliceSignal(data, []).Ok?
    ensures SliceSignal(data, []).value[i] == if data[i] >= Mean(data) then 1 else 0
  {
    var t := [Mean(data)];
    assert CountLe(data[i], t[1..]) == 0;
  }
}
