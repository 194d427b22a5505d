/** The read-range decision of refresh_spectrogram (tabs/spectrogram_tab.py):
    given the viewed region as sample indices, the length of the recording
    and the RAM limit, which samples are read for the spectrogram. The
    conversion of the region's times to indices and the spectrogram itself
    are not part of this model. */
module SpectrogramBudget {
  import opened Wrappers
  import MosaicPlan

  /** The RAM-limit spin box accepts whole megabytes from 100 to 2000. */
  const MIN_RAM_MB: int := 100
  const MAX_RAM_MB: int := 2000

  /** One complex64 sample takes 8 bytes. */
  const BYTES_PER_SAMPLE: int := 8

  /** The mosaic path always asks for 2000 columns. */
  const MOSAIC_WIDTH: int := 2000

  /** What refresh_spectrogram reads. */
  datatype Read =
    | Skip                                      // empty range: returns before computing anything
    | Contiguous(lo: int, hi: int)              // the whole range [lo, hi) fits the budget
    | Clamped(lo: int, hi: int)                 // over budget: only [lo, hi) is read
    | Mosaic(lo: int, hi: int, starts: Option<seq<int>>)  // over budget, sparse windows over [lo, hi)

  /** The image is replaced unless the range is empty or the mosaic planner
      finds no window. */
  predicate UpdatesImage(r: Read) {
    !r.Skip? && !(r.Mosaic? && r.starts.None?)
  }

  /** int((MB * 1024 * 1024) / 8): the quotient is exact, so the float
      division loses nothing. */
  function MaxSamples(ramMb: int): (n: int)
    requires MIN_RAM_MB <= ramMb <= MAX_RAM_MB
    ensures n * BYTES_PER_SAMPLE == ramMb * 1024 * 1024
    ensures 100 * 131072 <= n <= 2000 * 131072
  {
    ramMb * 131072
  }

  /** The first index read: the requested start, raised to 0. */
  function StartIndex(reqStart: int): nat {
    if reqStart >= 0 then reqStart else 0
  }

  /** The index after the last one read: the requested stop, cut to the
      length of the recording. */
  function StopIndex(length: nat, reqStop: int): int {
    if reqStop <= length then reqStop else length
  }

  /** The decision: the requested indices are clamped to [0, length); an empty
      result skips the refresh; a request within budget is read whole; over
      budget it is either cut to its first maxSamples samples or, with the
      sparse option, planned as mosaic windows of fftSize samples. */
  function PlanRead(length: nat, reqStart: int, reqStop: int, ramMb: int, sparse: bool, fftSize: int): (r: Read)
    requires MIN_RAM_MB <= ramMb <= MAX_RAM_MB && fftSize > 0
    ensures r.Contiguous? || r.Clamped? || r.Mosaic? ==> 0 <= r.lo < r.hi <= length
  {
    var iStart := StartIndex(reqStart);
    var iStop := StopIndex(length, reqStop);
    if iStop <= iStart then Skip
    else
      var maxSamples := MaxSamples(ramMb);
      if iStop - iStart <= maxSamples then Contiguous(iStart, iStop)
      else if !sparse then Clamped(iStart, iStart + maxSamples)
      else Mosaic(iStart, iStop, MosaicPlan.PlanWindows(iStart, iStop, fftSize, MOSAIC_WIDTH))
  }

  /** The clamped request [max(0, a), min(length, b)): nothing is computed
      exactly when it is empty. */
  lemma PlanSkips(length: nat, reqStart: int, reqStop: int, ramMb: int, sparse: bool, fftSize: int)
    requires MIN_RAM_MB <= ramMb <= MAX_RAM_MB && fftSize > 0
    ensures var lo := StartIndex(reqStart);
      var hi := StopIndex(length, reqStop);
      && (PlanRead(length, reqStart, reqStop, ramMb, sparse, fftSize).Skip? <==> hi <= lo)
      && (reqStart < 0 ==> lo == 0) && (reqStart >= 0 ==> lo == reqStart)
      && hi <= length && (reqStop <= length ==> hi == reqStop)
  {
  }

  /** A clamped range of at most maxSamples samples is read whole, for both
      settings of the sparse option. */
  lemma PlanWithinBudget(length: nat, reqStart: int, reqStop: int, ramMb: int, sparse: bool, fftSize: int)
    requires MIN_RAM_MB <= ramMb <= MAX_RAM_MB && fftSize > 0
    requires StartIndex(reqStart) < StopIndex(length, reqStop)
    requires StopIndex(length, reqStop) - StartIndex(reqStart) <= MaxSamples(ramMb)
    ensures PlanRead(length, reqStart, reqStop, ramMb, sparse, fftSize)
      == Contiguous(StartIndex(reqStart), StopIndex(length, reqStop))
  {
  }

  /** Over budget without the sparse option, exactly maxSamples samples from
      the start of the clamped range are read: a strict prefix of it. */
  lemma PlanClamps(length: nat, reqStart: int, reqStop: int, ramMb: int, fftSize: int)
    requires MIN_RAM_MB <= ramMb <= MAX_RAM_MB && fftSize > 0
    requires StopIndex(length, reqStop) - StartIndex(reqStart) > MaxSamples(ramMb)
    ensures var r := PlanRead(length, reqStart, reqStop, ramMb, false, fftSize);
      && r.Clamped? && r.lo == StartIndex(reqStart) && r.hi - r.lo == MaxSamples(ramMb)
      && r.hi < StopIndex(length, reqStop)
  {
  }

  /** Over budget with the sparse option the whole clamped range goes to the
      mosaic planner; its windows then lie inside that range and the image
      is kept when there are none. */
  lemma PlanMosaic(length: nat, reqStart: int, reqStop: int, ramMb: int, fftSize: int)
    requires MIN_RAM_MB <= ramMb <= MAX_RAM_MB && fftSize > 0
    requires StopIndex(length, reqStop) - StartIndex(reqStart) > MaxSamples(ramMb)
    ensures var lo, hi := StartIndex(reqStart), StopIndex(length, reqStop);
      var r := PlanRead(length, reqStart, reqStop, ramMb, true, fftSize);
      && r == Mosaic(lo, hi, MosaicPlan.PlanWindows(lo, hi, fftSize, MOSAIC_WIDTH))
      && (UpdatesImage(r) <==> hi - lo > fftSize)
      && (r.starts.Some? ==> forall j :: 0 <= j < |r.starts.value| ==>
            lo <= r.starts.value[j] && r.starts.value[j] + fftSize < hi)
  {
    var lo, hi := StartIndex(reqStart), StopIndex(length, reqStop);
    MosaicPlan.PlanEmpty(lo, hi, fftSize, MOSAIC_WIDTH);
    MosaicPlan.PlanWindowsInside(lo, hi, fftSize, MOSAIC_WIDTH);
  }

  /** Whatever is read never exceeds the budget, except through the mosaic,
      which reads at most 2000 windows of fftSize samples. */
  lemma PlanBounded(length: nat, reqStart: int, reqStop: int, ramMb: int, sparse: bool, fftSize: int)
    requires MIN_RAM_MB <= ramMb <= MAX_RAM_MB && fftSize > 0
    ensures var r := PlanRead(length, reqStart, reqStop, ramMb, sparse, fftSize);
      && (r.Contiguous? || r.Clamped? ==> r.hi - r.lo <= MaxSamples(ramMb))
      && (r.Mosaic? && r.starts.Some? ==> |r.starts.value| <= MOSAIC_WIDTH)
  {
    var r := PlanRead(length, reqStart, reqStop, ramMb, sparse, fftSize);
    if r.Mosaic? {
      MosaicPlan.PlanWindowsInside(r.lo, r.hi, fftSize, MOSAIC_WIDTH);
    }
  }
}
