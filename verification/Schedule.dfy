/** Which cycles run a spec (`every_cycles`), and what a long distance between its runs
    does to its thresholds. */
module Schedule {
  import opened States
  import opened Staleness
  import opened Hysteresis

  /** Go's `cycleNumber % uint64(everyCycles) == 0`, with 0 and 1 meaning every cycle. */
  predicate ShouldRunInCycle(everyCycles: int, cycle: nat) {
    everyCycles <= 1 || cycle % everyCycles == 0
  }

  function Stride(everyCycles: int): (k: nat)
    ensures k >= 1
  {
    if everyCycles <= 1 then 1 else everyCycles
  }

  /** The number of cycles in first, first+1, ..., last that run the spec. */
  function RunsBetween(everyCycles: int, first: nat, last: int): nat
    requires last >= first - 1
    decreases last - first + 1
  {
    if last < first then 0
    else RunsBetween(everyCycles, first, last - 1) + (if ShouldRunInCycle(everyCycles, last) then 1 else 0)
  }

  lemma DivStep(k: int, n: nat)
    requires k >= 1
    ensures (n + 1) / k == n / k + (if (n + 1) % k == 0 then 1 else 0)
  {
    var q, r := n / k, n % k;
    assert n == k * q + r;
    if r == k - 1 {
      assert n + 1 == k * (q + 1);
      DivModUnique(k, n + 1, q + 1, 0);
    } else {
      DivModUnique(k, n + 1, q, r + 1);
    }
  }

  lemma DivModUnique(k: int, n: int, q: int, r: int)
    requires k >= 1 && n == k * q + r && 0 <= r < k
    ensures n / k == q && n % k == r
  {
    var q' := n / k;
    if q > q' {
      MultiplyMonotone(k, q' + 1, q);
    } else if q < q' {
      MultiplyMonotone(k, q + 1, q');
    }
  }

  lemma MultiplyMonotone(k: int, a: int, b: int)
    requires k >= 0 && a <= b
    ensures k * a <= k * b
  {
  }

  /** A spec runs exactly floor(n/k) times in cycles 1..n. */
  lemma {:induction false} RunsInFirstCycles(everyCycles: int, n: nat)
    ensures RunsBetween(everyCycles, 1, n) == n / Stride(everyCycles)
  {
    if n > 0 {
      RunsInFirstCycles(everyCycles, n - 1);
      DivStep(Stride(everyCycles), n - 1);
    }
  }

  lemma {:induction false} RunsSplit(everyCycles: int, first: nat, mid: nat, last: int)
    requires first <= mid + 1 && mid <= last
    ensures RunsBetween(everyCycles, first, last)
         == RunsBetween(everyCycles, first, mid) + RunsBetween(everyCycles, mid + 1, last)
    decreases last - mid
  {
    if last > mid {
      RunsSplit(everyCycles, first, mid, last - 1);
    }
  }

  /** Any k consecutive cycles hold exactly one run. */
  lemma OneRunPerStride(everyCycles: int, n: nat)
    ensures RunsBetween(everyCycles, n + 1, n + Stride(everyCycles)) == 1
  {
    var k := Stride(everyCycles);
    RunsSplit(everyCycles, 1, n, n + k);
    RunsInFirstCycles(everyCycles, n);
    RunsInFirstCycles(everyCycles, n + k);
    DivShift(k, n);
  }

  lemma DivShift(k: int, n: nat)
    requires k >= 1
    ensures (n + k) / k == n / k + 1
  {
    var q, r := n / k, n % k;
    assert n == k * q + r;
    assert k * (q + 1) == k * q + k;
    DivModUnique(k, n + k, q + 1, r);
  }

  // ---------- Staleness against thresholds ----------

  predicate EveryGapStale(h: History, p: Policy) {
    forall i :: 0 < i < |h| ==> !Fresh(h[i - 1].at, h[i].at, p.interval)
  }

  /** When every completion is stale to its predecessor, a threshold of two or more is
      never reached: the spec cannot leave Healthy. */
  lemma {:induction false} StaleGapsNeverAlarm(h: History, p: Policy)
    requires p.failure >= 2 && EveryGapStale(h, p)
    ensures Replay(h, p).status == Healthy && Emitted(h, p) == []
  {
    CountersRefineHistory(h, p);
    if |h| > 0 {
      var before := h[..|h| - 1];
      StaleGapsNeverAlarm(before, p);
      CountersRefineHistory(before, p);
      CompleteRefines(before, h[|h| - 1], p);
      assert before + [h[|h| - 1]] == h;
    }
  }

  // ---------- Checks that complete inside their own cycle ----------

  /** When the checks of a spec are due: check `i` in cycle `first + i * stride`, where
      cycle `c` is the `c`-th interval after `epoch`. */
  datatype Plan = Plan(first: nat, stride: nat, epoch: Time, interval: Duration) {
    predicate Valid() {
      first >= 1 && stride >= 1 && epoch >= NEVER && 0 < interval < TWO_62
    }

    function CycleStart(i: nat): Time {
      epoch + (first + i * stride) * interval
    }

    /** How far into its cycle a check completed. */
    function Offset(h: History, i: nat): int
      requires i < |h|
    {
      h[i].at - CycleStart(i)
    }

    function Zig(i: nat): nat {
      if interval == 1 then 0 else i % 2
    }

    /** The counters outlive the gap before check `i`. */
    predicate Keeps(h: History, i: nat)
      requires 0 < i < |h|
    {
      stride == 1 || (stride == 2 && Offset(h, i) <= Offset(h, i - 1))
    }
  }

  /** Every check completes before its cycle's interval is over, at any time in it. */
  predicate OnTime(h: History, t: Plan) {
    forall i :: 0 <= i < |h| ==> 0 <= t.Offset(h, i) < t.interval
  }

  /** A gap between two checks that are `stride` intervals apart up to their offsets. */
  lemma FreshIffKept(h: History, t: Plan, i: nat)
    requires t.Valid() && OnTime(h, t) && 0 < i < |h|
    ensures Fresh(h[i - 1].at, h[i].at, t.interval) <==> t.Keeps(h, i)
  {
    var before, now := t.Offset(h, i - 1), t.Offset(h, i);
    assert t.CycleStart(i) - t.CycleStart(i - 1) == t.stride * t.interval by {
      assert i * t.stride == (i - 1) * t.stride + t.stride;
      assert (t.first + i * t.stride) * t.interval
          == (t.first + (i - 1) * t.stride) * t.interval + t.stride * t.interval;
    }
    assert h[i].at - h[i - 1].at == t.stride * t.interval + now - before;
    assert t.CycleStart(i - 1) > NEVER by {
      MultiplyMonotone(t.interval, 1, t.first + (i - 1) * t.stride);
    }
    if t.stride > 2 {
      MultiplyMonotone(t.interval, 3, t.stride);
    }
  }

  /** `n` checks in a row with result `ok`, none separated from the one before by a stale
      gap. */
  predicate Stretch(h: History, t: Plan, ok: bool, from: int, n: int) {
    && 0 <= from <= from + n <= |h|
    && (forall i :: from <= i < from + n ==> h[i].ok == ok)
    && (forall i :: from < i < from + n ==> t.Keeps(h, i))
  }

  lemma StretchIsRun(h: History, p: Policy, t: Plan, ok: bool, m: nat, n: nat)
    requires t.Valid() && OnTime(h, t) && p.interval == t.interval && n <= m <= |h|
    ensures EndsInRun(h[..m], ok, n, p) <==> Stretch(h, t, ok, m - n, n)
  {
    hide Plan.Keeps, Fresh;
    forall i | m - n < i < m
      ensures Fresh(h[..m][i - 1].at, h[..m][i].at, p.interval) <==> t.Keeps(h, i)
    {
      FreshIffKept(h, t, i);
    }
    if EndsInRun(h[..m], ok, n, p) {
      forall i | m - n <= i < m ensures h[i].ok == ok {
        assert h[..m][i].ok == ok;
      }
      forall i | m - n < i < m ensures t.Keeps(h, i) {
        assert Fresh(h[..m][i - 1].at, h[..m][i].at, p.interval);
      }
    }
  }

  /** Exactly when a spec alarms: some F failing checks in a row, and F is 1, or the spec
      runs in every cycle, or it runs in every second one and the checks complete no later
      and no later into their cycles. */
  lemma AlarmsIffStretch(h: History, p: Policy, t: Plan)
    requires t.Valid() && OnTime(h, t) && p.interval == t.interval
    ensures Emitted(h, p) != [] <==> exists from :: Stretch(h, t, false, from, p.F())
  {
    EmitsIffRunEnds(h, p);
    if m :| FailureRunEndsAt(h, m, p) {
      StretchIsRun(h, p, t, false, m, p.F());
      assert Stretch(h, t, false, m - p.F(), p.F());
    }
    if from :| Stretch(h, t, false, from, p.F()) {
      StretchIsRun(h, p, t, false, from + p.F(), p.F());
      assert FailureRunEndsAt(h, from + p.F(), p);
    }
  }

  /** With two or more cycles between its runs a spec whose threshold is not 1 never
      alarms, whatever its checks find. */
  lemma SparseNeverAlarms(h: History, p: Policy, t: Plan)
    requires t.Valid() && OnTime(h, t) && p.interval == t.interval
    requires t.stride >= 3 && p.failure >= 2
    ensures Replay(h, p).status == Healthy && Emitted(h, p) == []
  {
    forall i | 0 < i < |h| ensures !Fresh(h[i - 1].at, h[i].at, p.interval) {
      FreshIffKept(h, t, i);
    }
    StaleGapsNeverAlarm(h, p);
  }

  lemma SuccessStretchIffRunEnds(h: History, m: nat, p: Policy, t: Plan)
    requires t.Valid() && OnTime(h, t) && p.interval == t.interval && m <= |h|
    ensures (exists j :: m < j <= |h| && SuccessRunEndsAt(h, j, p))
       <==> (exists from :: m < from + p.S() && Stretch(h, t, true, from, p.S()))
  {
    hide Plan.Keeps, Plan.Offset, OnTime, Plan.Valid;
    if j :| m < j <= |h| && SuccessRunEndsAt(h, j, p) {
      StretchIsRun(h, p, t, true, j, p.S());
      assert Stretch(h, t, true, j - p.S(), p.S());
    }
    if from :| m < from + p.S() && Stretch(h, t, true, from, p.S()) {
      StretchIsRun(h, p, t, true, from + p.S(), p.S());
      assert SuccessRunEndsAt(h, from + p.S(), p);
    }
  }

  /** Recovery has the same condition, on successes: a spec that is failing after `m` checks
      is healthy again at some later one exactly when S fresh successes in a row end there. */
  lemma RecoversIffStretch(h: History, m: nat, p: Policy, t: Plan)
    requires t.Valid() && OnTime(h, t) && p.interval == t.interval
    requires m <= |h| && Replay(h[..m], p).status == Failing
    ensures (exists j :: m < j <= |h| && Replay(h[..j], p).status == Healthy)
       <==> (exists from :: m < from + p.S() && Stretch(h, t, true, from, p.S()))
  {
    hide Replay, IsFailing, SuccessRunEndsAt, Stretch, OnTime, Plan.Valid;
    forall j | 0 <= j <= |h| ensures Replay(h[..j], p).status == Failing <==> IsFailing(h[..j], p) {
      CountersRefineHistory(h[..j], p);
    }
    RecoversIffRunEnds(h, m, p);
    SuccessStretchIffRunEnds(h, m, p, t);
  }

  /** With two or more cycles between its runs a spec whose success threshold is not 1 and
      that has alarmed never recovers, whatever its checks find. */
  lemma SparseNeverRecovers(h: History, m: nat, p: Policy, t: Plan)
    requires t.Valid() && OnTime(h, t) && p.interval == t.interval
    requires t.stride >= 3 && p.success >= 2
    requires m <= |h| && Replay(h[..m], p).status == Failing
    ensures Replay(h, p).status == Failing
  {
    RecoversIffStretch(h, m, p, t);
    assert h[..|h|] == h;
    forall from ensures !Stretch(h, t, true, from, p.S()) {
      assert Stretch(h, t, true, from, p.S()) ==> t.Keeps(h, from + 1);
    }
    assert m < |h| ==> Replay(h[..|h|], p).status != Healthy;
  }

  // ---------- What a permanently failing check can and must do ----------

  predicate FailsOnTime(h: History, t: Plan) {
    OnTime(h, t) && forall i :: 0 <= i < |h| ==> !h[i].ok
  }

  /** Some timing of the checks raises the alarm. */
  ghost predicate CanAlarm(p: Policy, t: Plan) {
    exists h :: FailsOnTime(h, t) && Emitted(h, p) != []
  }

  /** Every timing of the checks does, after a number of checks known beforehand. */
  ghost predicate MustAlarm(p: Policy, t: Plan) {
    exists n: nat :: AlarmsWithin(n, p, t)
  }

  ghost predicate AlarmsWithin(n: nat, p: Policy, t: Plan) {
    forall h :: FailsOnTime(h, t) && |h| >= n ==> Emitted(h, p) != []
  }

  predicate Guaranteed(p: Policy, t: Plan) {
    p.F() == 1 || t.stride == 1 || (t.stride == 2 && (p.F() == 2 || t.interval == 1))
  }

  /** Enough failing checks for a guaranteed alarm. With stride 2 and threshold 2 the
      offsets, which are whole nanoseconds, must stop growing at some point. */
  function Patience(p: Policy, t: Plan): nat
    requires t.Valid()
  {
    if t.stride == 2 && p.F() == 2 then t.interval + 1 else p.F()
  }

  /** Failing checks whose offsets alternate between 0 and 1, or are all 0 if an interval
      has room for nothing else. */
  function Zigzag(n: nat, t: Plan): (h: History)
    requires t.Valid()
    ensures |h| == n && FailsOnTime(h, t)
    ensures forall i :: 0 <= i < n ==> t.Offset(h, i) == t.Zig(i)
  {
    seq(n, i requires 0 <= i < n => Completion(t.CycleStart(i) + t.Zig(i), false))
  }

  /** Without a threshold of 1 or at most one cycle between the runs no timing will do. */
  lemma CanAlarmIff(p: Policy, t: Plan)
    requires t.Valid() && p.interval == t.interval
    ensures CanAlarm(p, t) <==> p.F() == 1 || t.stride <= 2
  {
    if p.F() == 1 || t.stride <= 2 {
      var h := seq(p.F(), i requires 0 <= i < p.F() => Completion(t.CycleStart(i), false));
      assert forall i :: 0 <= i < |h| ==> t.Offset(h, i) == 0;
      assert Stretch(h, t, false, 0, p.F());
      AlarmsIffStretch(h, p, t);
      assert FailsOnTime(h, t);
    } else if h :| FailsOnTime(h, t) && Emitted(h, p) != [] {
      SparseNeverAlarms(h, p, t);
    }
  }

  /** Offsets that grow every time are at least the number of the check. */
  lemma {:induction false} GrowingOffsets(h: History, t: Plan, i: nat)
    requires t.stride == 2 && i < |h| && OnTime(h, t)
    requires forall j :: 0 < j <= i ==> !t.Keeps(h, j)
    ensures t.Offset(h, i) >= i
  {
    if i > 0 {
      GrowingOffsets(h, t, i - 1);
      assert !t.Keeps(h, i);
    }
  }

  lemma PatienceSuffices(h: History, p: Policy, t: Plan)
    requires t.Valid() && p.interval == t.interval && FailsOnTime(h, t)
    requires Guaranteed(p, t) && |h| >= Patience(p, t)
    ensures Emitted(h, p) != []
  {
    AlarmsIffStretch(h, p, t);
    if t.stride == 2 && p.F() == 2 {
      if forall j :: 0 < j <= t.interval ==> !t.Keeps(h, j) {
        GrowingOffsets(h, t, t.interval);
        assert false;
      }
      var j :| 0 < j <= t.interval && t.Keeps(h, j);
      assert Stretch(h, t, false, j - 1, 2);
    } else {
      assert Stretch(h, t, false, 0, p.F());
    }
  }

  /** Of any two neighbouring offsets of a zigzag one grows. */
  lemma ZigzagGrows(h: History, t: Plan, i: nat)
    requires t.stride == 2 && t.interval > 1 && i + 2 < |h|
    requires forall j :: 0 <= j < |h| ==> t.Offset(h, j) == t.Zig(j)
    ensures !t.Keeps(h, i + 1) || !t.Keeps(h, i + 2)
  {
    hide Plan.Offset;
    assert t.Zig(i + 1) > t.Zig(i) || t.Zig(i + 2) > t.Zig(i + 1);
  }

  lemma ZigzagNeverAlarms(n: nat, p: Policy, t: Plan)
    requires t.Valid() && p.interval == t.interval && !Guaranteed(p, t)
    ensures Emitted(Zigzag(n, t), p) == []
  {
    hide Emitted, Plan.CycleStart, Plan.Keeps;
    var h := Zigzag(n, t);
    AlarmsIffStretch(h, p, t);
    if from :| Stretch(h, t, false, from, p.F()) {
      assert t.Keeps(h, from + 1);
      if t.stride == 2 {
        assert t.Keeps(h, from + 2);
        ZigzagGrows(h, t, from);
      } else {
        SparseNeverAlarms(h, p, t);
      }
    }
  }

  /** The exact condition for an alarm that no timing of the checks can prevent. */
  lemma MustAlarmIff(p: Policy, t: Plan)
    requires t.Valid() && p.interval == t.interval
    ensures MustAlarm(p, t) <==> Guaranteed(p, t)
  {
    if Guaranteed(p, t) {
      forall h | FailsOnTime(h, t) && |h| >= Patience(p, t) ensures Emitted(h, p) != [] {
        PatienceSuffices(h, p, t);
      }
      assert AlarmsWithin(Patience(p, t), p, t);
    } else if n: nat :| AlarmsWithin(n, p, t) {
      ZigzagNeverAlarms(n, p, t);
    }
  }
}
