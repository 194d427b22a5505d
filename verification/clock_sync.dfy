/** The Clock Recovery Engine: the loop of find_clock_sync (utils/dsp_lib.py)
    over integer sample indices. The float prelude that turns times into
    indices is not part of this model: the cursor, the estimated symbol width,
    the search radius and the limit index come in as integers. */
module ClockSync {
  import opened Wrappers

  /** The hard cap on symbols added per invocation. */
  const MAX_SYMBOLS: nat := 10000

  function Max(a: int, b: int): int { if a >= b then a else b }

  function Min(a: int, b: int): int { if a <= b then a else b }

  function Dist(a: int, b: int): nat { if a >= b then a - b else b - a }

  /** The prelude derives the radius as a 1%..50% fraction of the width
      estimate, truncated toward zero, so a non-positive width never comes
      with a positive radius. */
  predicate Geometry(width: int, radius: int) {
    width > 0 || radius <= 0
  }

  /** A transition between the samples at p and p+1. */
  predicate ChangeAt(data: seq<int>, p: int)
    requires 0 <= p < |data| - 1
  {
    data[p] != data[p + 1]
  }

  /** The vectorised search of one window: among the positions p in
      [lo, hi) where the symbol changes between p and p+1 (np.diff and
      np.where over the window slice), the one nearest to the prediction,
      the earliest winning ties (argmin); None when there is no change. The
      source measures |k - (target - w_start)| for the window offset k of p,
      which is |p - target|. */
  function NearestChange(data: seq<int>, lo: int, hi: int, target: int): (r: Option<int>)
    requires 0 <= lo && hi < |data|
    ensures r.Some? ==> lo <= r.value < hi
    decreases hi - lo
  {
    if hi <= lo then None
    else
      var best := NearestChange(data, lo, hi - 1, target);
      var p := hi - 1;
      if ChangeAt(data, p) && (best.None? || Dist(p, target) < Dist(best.value, target)) then Some(p)
      else best
  }

  /** What the search finds: nothing exactly when the window holds no
      transition; otherwise a transition no farther from the target than
      any other, and strictly nearer than every earlier one. */
  lemma {:induction false} NearestChangeSpec(data: seq<int>, lo: int, hi: int, target: int)
    requires 0 <= lo && hi < |data|
    ensures var r := NearestChange(data, lo, hi, target);
      && (r.None? <==> forall p :: lo <= p < hi ==> !ChangeAt(data, p))
      && (r.Some? ==> ChangeAt(data, r.value))
      && (r.Some? ==> forall p :: lo <= p < hi && ChangeAt(data, p) ==> Dist(r.value, target) <= Dist(p, target))
      && (r.Some? ==> forall p :: lo <= p < r.value && ChangeAt(data, p) ==> Dist(r.value, target) < Dist(p, target))
    decreases hi - lo
  {
    if lo < hi {
      NearestChangeSpec(data, lo, hi - 1, target);
    }
  }

  /** First index of the search window around the predicted boundary. */
  function WindowStart(cursor: int, target: int, radius: int): int {
    Max(cursor + 1, target - radius)
  }

  /** End (exclusive) of the search window, kept one short of the limit. */
  function WindowStop(target: int, radius: int, limit: int): int {
    Min(limit - 1, target + radius)
  }

  /** One pass of the loop body: None when it breaks (the prediction reaches
      the limit, or the window is empty); otherwise the new cursor, snapped to
      the nearest transition or coasting to the prediction. */
  function Step(data: seq<int>, cursor: int, width: int, radius: int, limit: int): (next: Option<int>)
    requires 0 <= cursor && limit <= |data| && Geometry(width, radius)
    ensures next.Some? ==> cursor < next.value < limit
    ensures next.Some? ==> cursor + width - radius < next.value < cursor + width + radius
  {
    var target := cursor + width;
    if target >= limit then None
    else
      var ws := WindowStart(cursor, target, radius);
      var we := WindowStop(target, radius, limit);
      if ws >= we then None
      else
        match NearestChange(data, ws, we - 1, target)
        case Some(p) => Some(p + 1)
        case None => Some(target)
  }

  /** The whole loop as a function: the final cursor and symbol count when
      the loop resumes at `cursor` having added `added` symbols, with at most
      `budget` further iterations. */
  function Sync(data: seq<int>, cursor: int, width: int, radius: int, limit: int, budget: nat, added: nat): (res: (int, nat))
    requires 0 <= cursor && limit <= |data| && Geometry(width, radius)
    ensures added <= res.1 <= added + budget
    ensures res.0 >= cursor + (res.1 - added)
    ensures res.1 > added ==> res.0 < limit
    ensures cursor >= limit ==> res == (cursor, added)
    decreases budget
  {
    if cursor >= limit || budget == 0 then (cursor, added)
    else
      match Step(data, cursor, width, radius, limit)
      case None => (cursor, added)
      case Some(next) => Sync(data, next, width, radius, limit, budget - 1, added + 1)
  }

  /** The loop body of find_clock_sync: predicts the next boundary, clips the
      search window to the data, and either breaks (None) or returns the new
      cursor, snapped to the nearest transition or coasting to the
      prediction. */
  method Advance(data: seq<int>, cursor: int, width: int, radius: int, limit: int)
    returns (next: Option<int>)
    requires 0 <= cursor && limit <= |data| && Geometry(width, radius)
    ensures next == Step(data, cursor, width, radius, limit)
  {
    var target := cursor + width;
    if target >= limit {
      return None;
    }
    var ws := WindowStart(cursor, target, radius);
    var we := WindowStop(target, radius, limit);
    if ws >= we {
      return None;
    }
    var changes := NearestChange(data, ws, we - 1, target);
    if changes.Some? {
      next := Some(changes.value + 1);
    } else {
      next := Some(target);
    }
  }

  /** The loop of find_clock_sync with its symbol cap as a parameter: walks
      the cursor forward until it reaches the limit, a break, or `cap`
      iterations, and returns the final cursor and the number of symbols
      added. */
  method Walk(data: seq<int>, start: int, width: int, radius: int, limit: int, cap: nat)
    returns (cursor: int, added: nat)
    requires 0 <= start && limit <= |data| && Geometry(width, radius)
    ensures (cursor, added) == Sync(data, start, width, radius, limit, cap, 0)
  {
    cursor, added := start, 0;
    var fuel: nat := cap;
    while cursor < limit && fuel > 0
      invariant start <= cursor && added + fuel == cap
      invariant Sync(data, cursor, width, radius, limit, fuel, added) == Sync(data, start, width, radius, limit, cap, 0)
      decreases fuel
    {
      var next := Advance(data, cursor, width, radius, limit);
      if next.None? {
        break;
      }
      cursor := next.value;
      added := added + 1;
      fuel := fuel - 1;
    }
  }

  /** find_clock_sync after its prelude: the loop capped at MAX_SYMBOLS
      symbols. Returns the success flag (always true), the final cursor and
      the number of symbols added. */
  method FindClockSync(data: seq<int>, start: int, width: int, radius: int, limit: int)
    returns (success: bool, cursor: int, added: nat)
    requires 0 <= start && limit <= |data| && Geometry(width, radius)
    ensures success
    ensures (cursor, added) == Sync(data, start, width, radius, limit, MAX_SYMBOLS, 0)
    ensures added <= MAX_SYMBOLS
    ensures cursor >= start + added
    ensures added > 0 ==> cursor < limit
    ensures start >= limit ==> cursor == start && added == 0
  {
    cursor, added := Walk(data, start, width, radius, limit, MAX_SYMBOLS);
    success := true;
  }

  /** A transition at position e: the sample at e differs from the one
      before it. */
  predicate EdgeAt(data: seq<int>, e: int)
    requires 0 < e < |data|
  {
    data[e - 1] != data[e]
  }

  /** The loop breaks exactly when the prediction reaches the limit or the
      clipped window is empty. */
  lemma StepStops(data: seq<int>, cursor: int, width: int, radius: int, limit: int)
    requires 0 <= cursor && limit <= |data| && Geometry(width, radius)
    ensures Step(data, cursor, width, radius, limit).None? <==>
      cursor + width >= limit || WindowStart(cursor, cursor + width, radius) >= WindowStop(cursor + width, radius, limit)
  {
  }

  /** Snapping: when the window (ws, we) holds a transition, the new cursor is
      a transition inside it, and it minimises the distance between the
      sample before the transition and the prediction, the earliest one
      winning ties. */
  lemma StepSnaps(data: seq<int>, cursor: int, width: int, radius: int, limit: int, e: int)
    requires 0 <= cursor && limit <= |data| && Geometry(width, radius)
    requires cursor + width < limit
    requires WindowStart(cursor, cursor + width, radius) < e < WindowStop(cursor + width, radius, limit)
    requires EdgeAt(data, e)
    ensures Step(data, cursor, width, radius, limit).Some?
    ensures var c := Step(data, cursor, width, radius, limit).value;
      var target := cursor + width;
      && WindowStart(cursor, cursor + width, radius) < c < WindowStop(cursor + width, radius, limit)
      && EdgeAt(data, c)
      && Dist(c - 1, target) <= Dist(e - 1, target)
      && (e < c ==> Dist(c - 1, target) < Dist(e - 1, target))
  {
    var target := cursor + width;
    var ws := WindowStart(cursor, target, radius);
    var we := WindowStop(target, radius, limit);
    NearestChangeSpec(data, ws, we - 1, target);
    assert ChangeAt(data, e - 1);
  }

  /** Coasting: with no transition in the window the cursor advances by
      exactly the width estimate. */
  lemma StepCoasts(data: seq<int>, cursor: int, width: int, radius: int, limit: int)
    requires 0 <= cursor && limit <= |data| && Geometry(width, radius)
    requires cursor + width < limit
    requires WindowStart(cursor, cursor + width, radius) < WindowStop(cursor + width, radius, limit)
    requires forall e :: WindowStart(cursor, cursor + width, radius) < e < WindowStop(cursor + width, radius, limit) ==> !EdgeAt(data, e)
    ensures Step(data, cursor, width, radius, limit) == Some(cursor + width)
  {
    var ws := WindowStart(cursor, cursor + width, radius);
    var we := WindowStop(cursor + width, radius, limit);
    forall p | ws <= p < we - 1 ensures !ChangeAt(data, p) {
      assert !EdgeAt(data, p + 1);
    }
    NearestChangeSpec(data, ws, we - 1, cursor + width);
  }
}
