/** The stale-counter reset (internal/monitor/runner.go), in the int64 arithmetic of
    Go's `time.Duration`, and its meaning in unbounded arithmetic. */
module Staleness {
  import opened States

  const TWO_62: int := 0x4000_0000_0000_0000
  const TWO_63: int := 0x8000_0000_0000_0000
  const TWO_64: int := 0x1_0000_0000_0000_0000

  const GAP_MULTIPLIER := 2

  type Duration = d: int | -TWO_63 <= d < TWO_63

  /** Two's complement truncation of an int64 product. */
  function Wrap64(x: int): Duration {
    var m := x % TWO_64;
    if m < TWO_63 then m else m - TWO_64
  }

  /** `Time.Sub`: differences outside int64 saturate. */
  function TimeSub(t: Time, u: Time): Duration {
    var d := t - u;
    if d < -TWO_63 then -TWO_63 else if d >= TWO_63 then TWO_63 - 1 else d
  }

  function ResetStale(state: SpecState, at: Time, interval: Duration): SpecState {
    if state.completedAt == NEVER || interval <= 0 then state
    else
      var maxGap := Wrap64(interval * GAP_MULTIPLIER);
      if maxGap <= 0 then state
      else if TimeSub(at, state.completedAt) <= maxGap then state
      else state.(failures := 0, successes := 0)
  }

  /** The decision in unbounded arithmetic: the counters outlive the gap between two
      completions. */
  predicate WithinGap(previous: Time, at: Time, interval: Duration) {
    previous == NEVER || interval <= 0 || at - previous <= GAP_MULTIPLIER * interval
  }

  /** What the code decides: as `WithinGap`, except that an interval whose double does
      not fit an int64 switches the reset off. */
  predicate Fresh(previous: Time, at: Time, interval: Duration) {
    interval >= TWO_62 || WithinGap(previous, at, interval)
  }

  lemma DoublingWraps(interval: Duration)
    requires interval > 0
    ensures interval < TWO_62 ==> Wrap64(interval * GAP_MULTIPLIER) == GAP_MULTIPLIER * interval
    ensures interval >= TWO_62 ==> Wrap64(interval * GAP_MULTIPLIER) < 0
  {
    assert 0 <= interval * GAP_MULTIPLIER < TWO_64;
    assert (interval * GAP_MULTIPLIER) % TWO_64 == interval * GAP_MULTIPLIER;
  }

  lemma ResetStaleMeaning(state: SpecState, at: Time, interval: Duration)
    ensures ResetStale(state, at, interval)
         == if Fresh(state.completedAt, at, interval) then state
            else state.(failures := 0, successes := 0)
  {
    if interval > 0 {
      DoublingWraps(interval);
    }
  }

  /** The wrapped and saturated decision is the unbounded one for every pair of times
      exactly when the interval is below 2^62 or the gap is no longer than its double;
      in particular for every gap that fits an int64. */
  lemma Int64DecisionExact(state: SpecState, at: Time, interval: Duration)
    requires state.failures != 0 || state.successes != 0
    ensures (ResetStale(state, at, interval) == state <==> WithinGap(state.completedAt, at, interval))
       <==> (interval < TWO_62 || WithinGap(state.completedAt, at, interval))
    ensures at - state.completedAt < TWO_63
        ==> (ResetStale(state, at, interval) == state <==> WithinGap(state.completedAt, at, interval))
  {
    ResetStaleMeaning(state, at, interval);
  }
}
