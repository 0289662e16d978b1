/** The per-spec state machine (internal/monitor/runner.go): stale reset, threshold
    counters, Healthy/Failing transitions. The counters are incremental; here they are
    shown to compute a function of the whole history of completed checks. */
module Hysteresis {
  import opened States
  import opened Staleness

  datatype Transition = NoTransition | FailureTransition | RecoveryTransition

  /** Thresholds as configured, and the runner's cycle interval. */
  datatype Policy = Policy(failure: int, success: int, interval: Duration) {
    function F(): int { ThresholdOrDefault(failure, 1) }
    function S(): int { ThresholdOrDefault(success, 1) }
  }

  /** One completed check: when it completed and whether it succeeded. */
  datatype Completion = Completion(at: Time, ok: bool)

  type History = seq<Completion>

  function ThresholdOrDefault(value: int, fallback: int): int {
    if value <= 0 then fallback else value
  }

  function ApplyCycleResult(current: SpecState, success: bool, failureThreshold: int, successThreshold: int)
    : (SpecState, Transition)
  {
    if success then
      var cleared := current.(failures := 0);
      if cleared.status == Failing then
        var counted := cleared.(successes := cleared.successes + 1);
        if counted.successes >= successThreshold then
          (counted.(status := Healthy, successes := 0), RecoveryTransition)
        else
          (counted, NoTransition)
      else
        (cleared.(successes := 0), NoTransition)
    else
      var cleared := current.(successes := 0);
      var counted := cleared.(failures := cleared.failures + 1);
      if cleared.status == Failing then
        (counted, NoTransition)
      else if counted.failures >= failureThreshold then
        (counted.(status := Failing, failures := 0), FailureTransition)
      else
        (counted, NoTransition)
  }

  /** One completed check on the stored record. */
  function Complete(current: SpecState, c: Completion, p: Policy): (SpecState, Transition) {
    var (next, transition) := ApplyCycleResult(ResetStale(current, c.at, p.interval), c.ok, p.F(), p.S());
    (next.(completedAt := c.at), transition)
  }

  /** The record after a whole history, starting from an unknown spec. */
  function Replay(h: History, p: Policy): SpecState {
    if |h| == 0 then FIRST_STATE
    else Complete(Replay(h[..|h| - 1], p), h[|h| - 1], p).0
  }

  /** The notifications of a whole history, oldest first. */
  function Emitted(h: History, p: Policy): seq<Transition> {
    if |h| == 0 then []
    else
      var before := h[..|h| - 1];
      Emitted(before, p) + Notice(Complete(Replay(before, p), h[|h| - 1], p).1)
  }

  function Notice(t: Transition): seq<Transition> {
    if t == NoTransition then [] else [t]
  }

  // ---------- The specification: functions of the history alone ----------

  /** The last `n` completions all have result `ok` and none is stale to its predecessor. */
  predicate EndsInRun(h: History, ok: bool, n: int, p: Policy) {
    && 0 <= n <= |h|
    && (forall i :: |h| - n <= i < |h| ==> h[i].ok == ok)
    && (forall i :: |h| - n < i < |h| ==> Fresh(h[i - 1].at, h[i].at, p.interval))
  }

  /** The length of the longest such run. */
  function TrailingRun(h: History, ok: bool, p: Policy): (n: nat)
    ensures n <= |h|
  {
    var last := |h| - 1;
    if |h| == 0 || h[last].ok != ok then 0
    else if last > 0 && Fresh(h[last - 1].at, h[last].at, p.interval) then TrailingRun(h[..last], ok, p) + 1
    else 1
  }

  /** A failure run of full length ended here with no success run of full length since. */
  ghost predicate LatestRunEndIsFailure(h: History, p: Policy) {
    exists i :: FailureRunEndsAt(h, i, p)
             && forall j :: i < j <= |h| ==> !EndsInRun(h[..j], true, p.S(), p)
  }

  predicate FailureRunEndsAt(h: History, i: int, p: Policy) {
    0 <= i <= |h| && EndsInRun(h[..i], false, p.F(), p)
  }

  predicate IsFailing(h: History, p: Policy) {
    if |h| == 0 then false
    else if TrailingRun(h, false, p) >= p.F() then true
    else if TrailingRun(h, true, p) >= p.S() then false
    else IsFailing(h[..|h| - 1], p)
  }

  /** The stored record as a function of the history: a failing spec counts only the
      failures of the trailing run that came after the one that raised the alarm. */
  function Declared(h: History, p: Policy): SpecState {
    var run := TrailingRun(h, false, p);
    SpecState(
      if IsFailing(h, p) then Failing else Healthy,
      if IsFailing(h, p) && !IsFailing(h[..|h| - run], p) then run - p.F() else run,
      if IsFailing(h, p) then TrailingRun(h, true, p) else 0,
      NEVER,
      if |h| == 0 then NEVER else h[|h| - 1].at)
  }

  // ---------- The specification means what its names say ----------

  lemma {:induction false} RunIsLongest(h: History, ok: bool, n: int, p: Policy)
    ensures EndsInRun(h, ok, n, p) <==> 0 <= n <= TrailingRun(h, ok, p)
  {
    var last := |h| - 1;
    if |h| > 0 && h[last].ok == ok && n > 1 {
      RunIsLongest(h[..last], ok, n - 1, p);
      if EndsInRun(h, ok, n, p) {
        assert Fresh(h[last - 1].at, h[last].at, p.interval);
        assert EndsInRun(h[..last], ok, n - 1, p);
      }
    }
  }

  lemma {:induction false} IsFailingMeaning(h: History, p: Policy)
    ensures IsFailing(h, p) <==> LatestRunEndIsFailure(h, p)
  {
    hide TrailingRun, EndsInRun;
    RunIsLongest(h, false, p.F(), p);
    RunIsLongest(h, true, p.S(), p);
    assert h[..|h|] == h;
    if |h| == 0 {
    } else if TrailingRun(h, false, p) >= p.F() {
      assert FailureRunEndsAt(h, |h|, p);
    } else if TrailingRun(h, true, p) >= p.S() {
    } else {
      var shorter := h[..|h| - 1];
      IsFailingMeaning(shorter, p);
      assert forall j :: 0 <= j < |h| ==> shorter[..j] == h[..j];
      if LatestRunEndIsFailure(h, p) {
        var i :| FailureRunEndsAt(h, i, p) && forall j :: i < j <= |h| ==> !EndsInRun(h[..j], true, p.S(), p);
        assert FailureRunEndsAt(shorter, i, p);
      }
      if LatestRunEndIsFailure(shorter, p) {
        var i :| FailureRunEndsAt(shorter, i, p)
              && forall j :: i < j <= |shorter| ==> !EndsInRun(shorter[..j], true, p.S(), p);
        assert FailureRunEndsAt(h, i, p);
        forall j | i < j <= |h| ensures !EndsInRun(h[..j], true, p.S(), p) {
          if j < |h| { assert shorter[..j] == h[..j]; }
        }
      }
    }
  }

  // ---------- The counters refine the specification ----------

  /** While a spec stays healthy, nothing in its trailing failure run raised an alarm. */
  lemma {:induction false} HealthyBeforeRun(h: History, p: Policy)
    requires !IsFailing(h, p)
    ensures !IsFailing(h[..|h| - TrailingRun(h, false, p)], p)
  {
    var run := TrailingRun(h, false, p);
    if run == 0 {
      assert h[..|h|] == h;
    } else if run > 1 {
      HealthyBeforeRun(h[..|h| - 1], p);
      assert h[..|h| - 1][..|h| - run] == h[..|h| - run];
    }
  }

  lemma {:induction false} CompleteRefines(h: History, c: Completion, p: Policy)
    ensures Complete(Declared(h, p), c, p).0 == Declared(h + [c], p)
    ensures Complete(Declared(h, p), c, p).1
         == if IsFailing(h, p) == IsFailing(h + [c], p) then NoTransition
            else if IsFailing(h, p) then RecoveryTransition else FailureTransition
  {
    var h' := h + [c];
    assert h'[..|h|] == h;
    ResetStaleMeaning(Declared(h, p), c.at, p.interval);
    var run, run' := TrailingRun(h, false, p), TrailingRun(h', false, p);
    if !c.ok {
      assert h'[..|h'| - run'] == if run' == run + 1 then h[..|h| - run] else h;
      if !IsFailing(h, p) {
        HealthyBeforeRun(h, p);
      }
    }
    assert h'[..|h'|] == h';
  }

  lemma {:induction false} CountersRefineHistory(h: History, p: Policy)
    ensures Replay(h, p) == Declared(h, p)
  {
    if |h| > 0 {
      var before := h[..|h| - 1];
      CountersRefineHistory(before, p);
      CompleteRefines(before, h[|h| - 1], p);
      assert before + [h[|h| - 1]] == h;
    }
  }

  /** The headline: after any history, the stored status is Failing exactly when the
      latest run end of the history is a failure run. */
  lemma StatusIsLatestRunEnd(h: History, p: Policy)
    ensures Replay(h, p).status == Failing <==> LatestRunEndIsFailure(h, p)
  {
    CountersRefineHistory(h, p);
    IsFailingMeaning(h, p);
  }

  /** The coupling of counters and trailing runs in every reachable record. */
  lemma CountersCoupled(h: History, p: Policy)
    ensures var s := Replay(h, p);
      && (s.failures == 0 || s.successes == 0)
      && (s.status == Healthy ==> s.successes == 0 && s.failures == TrailingRun(h, false, p) < p.F())
      && (s.status == Failing ==> s.successes == TrailingRun(h, true, p) < p.S() && 0 <= s.failures <= TrailingRun(h, false, p))
  {
    CountersRefineHistory(h, p);
    if IsFailing(h, p) {
      FailingCountsFromAlarm(h, p);
    }
  }

  /** A run that took a spec from healthy to failing is at least F long. */
  lemma {:induction false} FailingCountsFromAlarm(h: History, p: Policy)
    requires IsFailing(h, p)
    ensures !IsFailing(h[..|h| - TrailingRun(h, false, p)], p) ==> TrailingRun(h, false, p) >= p.F()
  {
    var run := TrailingRun(h, false, p);
    if run == 0 {
      assert h[..|h|] == h;
    } else if run < p.F() {
      var shorter := h[..|h| - 1];
      if run > 1 {
        FailingCountsFromAlarm(shorter, p);
        assert shorter[..|h| - run] == h[..|h| - run];
      }
    }
  }

  // ---------- Notifications ----------

  predicate Alternates(ts: seq<Transition>) {
    forall k :: 0 <= k < |ts| ==> ts[k] == if k % 2 == 0 then FailureTransition else RecoveryTransition
  }

  /** A check notifies exactly when it changes the verdict. */
  lemma NextNotice(h: History, p: Policy)
    requires |h| > 0
    ensures var before := h[..|h| - 1];
      Emitted(h, p) == Emitted(before, p) + (if IsFailing(before, p) == IsFailing(h, p) then []
                                             else if IsFailing(before, p) then [RecoveryTransition] else [FailureTransition])
  {
    hide Replay, Complete, Declared, IsFailing;
    var before, c := h[..|h| - 1], h[|h| - 1];
    CountersRefineHistory(before, p);
    CompleteRefines(before, c, p);
    assert before + [c] == h;
  }

  /** Notifications alternate, starting with a failure, and one is outstanding exactly
      while the spec is failing. */
  lemma {:induction false} NotificationsAlternate(h: History, p: Policy)
    ensures Alternates(Emitted(h, p))
    ensures |Emitted(h, p)| % 2 == if IsFailing(h, p) then 1 else 0
  {
    hide Emitted, IsFailing;
    if |h| > 0 {
      NotificationsAlternate(h[..|h| - 1], p);
      NextNotice(h, p);
    } else {
      EmptyHistory(p);
    }
  }

  lemma AnotherEmits(h: History, p: Policy)
    requires |h| > 0
    ensures Emitted(h, p) != [] <==> Emitted(h[..|h| - 1], p) != [] || TrailingRun(h, false, p) >= p.F()
  {
    hide Emitted, TrailingRun, Alternates;
    NotificationsAlternate(h, p);
    NotificationsAlternate(h[..|h| - 1], p);
    NextNotice(h, p);
  }

  /** A history has raised an alarm exactly when a full failure run ended in it. */
  lemma {:induction false} EmitsIffRunEnds(h: History, p: Policy)
    ensures Emitted(h, p) != [] <==> exists m :: FailureRunEndsAt(h, m, p)
  {
    hide Emitted, EndsInRun, TrailingRun;
    RunIsLongest(h, false, p.F(), p);
    assert h[..|h|] == h;
    assert FailureRunEndsAt(h, |h|, p) <==> TrailingRun(h, false, p) >= p.F();
    if |h| > 0 {
      var before := h[..|h| - 1];
      EmitsIffRunEnds(before, p);
      AnotherEmits(h, p);
      forall m | 0 <= m < |h| ensures FailureRunEndsAt(before, m, p) <==> FailureRunEndsAt(h, m, p) {
        assert before[..m] == h[..m];
      }
    } else {
      assert Emitted(h, p) == [] && TrailingRun(h, false, p) == 0 by {
        EmptyHistory(p);
      }
    }
  }

  lemma EmptyHistory(p: Policy)
    ensures Emitted([], p) == [] && TrailingRun([], false, p) == 0 && !IsFailing([], p)
  {
  }

  predicate SuccessRunEndsAt(h: History, i: int, p: Policy) {
    0 <= i <= |h| && EndsInRun(h[..i], true, p.S(), p)
  }

  lemma {:induction false} StaysFailing(h: History, m: nat, j: nat, p: Policy)
    requires m <= j <= |h| && IsFailing(h[..m], p)
    requires forall i :: m < i <= j ==> !SuccessRunEndsAt(h, i, p)
    ensures IsFailing(h[..j], p)
    decreases j
  {
    hide TrailingRun, EndsInRun;
    if m < j {
      StaysFailing(h, m, j - 1, p);
      RunIsLongest(h[..j], true, p.S(), p);
      assert !SuccessRunEndsAt(h, j, p);
      assert h[..j][..j - 1] == h[..j - 1];
    }
  }

  /** A failing spec recovers exactly when a full success run ends. */
  lemma RecoversIffRunEnds(h: History, m: nat, p: Policy)
    requires m <= |h| && IsFailing(h[..m], p)
    ensures (exists j :: m < j <= |h| && !IsFailing(h[..j], p)) <==> (exists j :: m < j <= |h| && SuccessRunEndsAt(h, j, p))
  {
    if j :| m < j <= |h| && SuccessRunEndsAt(h, j, p) {
      RunIsLongest(h[..j], true, p.S(), p);
      assert !IsFailing(h[..j], p);
    }
    if j :| m < j <= |h| && !IsFailing(h[..j], p) {
      if forall i :: m < i <= |h| ==> !SuccessRunEndsAt(h, i, p) {
        StaysFailing(h, m, j, p);
        assert false;
      }
    }
  }

  function Count(ts: seq<Transition>, t: Transition): nat {
    if |ts| == 0 then 0 else Count(ts[..|ts| - 1], t) + (if ts[|ts| - 1] == t then 1 else 0)
  }

  lemma {:induction false} CountAlternating(ts: seq<Transition>)
    requires Alternates(ts)
    ensures Count(ts, FailureTransition) - Count(ts, RecoveryTransition) == |ts| % 2
  {
    if |ts| > 0 {
      CountAlternating(ts[..|ts| - 1]);
    }
  }

  lemma OutstandingFailures(h: History, p: Policy)
    ensures Count(Emitted(h, p), FailureTransition) - Count(Emitted(h, p), RecoveryTransition)
         == if Replay(h, p).status == Failing then 1 else 0
  {
    NotificationsAlternate(h, p);
    CountersRefineHistory(h, p);
    CountAlternating(Emitted(h, p));
  }

  // ---------- In the configured numbers ----------

  /** A run as long as configured ends the history; without a configured length any result
      is a run. */
  predicate RunCompletes(h: History, ok: bool, configured: int, p: Policy) {
    if configured >= 1 then EndsInRun(h, ok, configured, p) else |h| > 0 && h[|h| - 1].ok == ok
  }

  lemma ConfiguredRuns(h: History, p: Policy)
    ensures RunCompletes(h, false, p.failure, p) <==> EndsInRun(h, false, p.F(), p)
    ensures RunCompletes(h, true, p.success, p) <==> EndsInRun(h, true, p.S(), p)
  {
  }

  /** A full failure run ended after `i` checks and no full success run since. */
  ghost predicate AlarmedAt(h: History, i: int, p: Policy) {
    && 0 <= i <= |h| && RunCompletes(h[..i], false, p.failure, p)
    && forall j :: i < j <= |h| ==> !RunCompletes(h[..j], true, p.success, p)
  }

  /** The status, from the history and the numbers in the configuration alone. */
  lemma StatusByConfiguration(h: History, p: Policy)
    ensures Replay(h, p).status == Failing <==> exists i :: AlarmedAt(h, i, p)
  {
    hide Replay, RunCompletes, EndsInRun;
    StatusIsLatestRunEnd(h, p);
    forall i | 0 <= i <= |h|
      ensures FailureRunEndsAt(h, i, p) <==> RunCompletes(h[..i], false, p.failure, p)
      ensures EndsInRun(h[..i], true, p.S(), p) <==> RunCompletes(h[..i], true, p.success, p)
    {
      ConfiguredRuns(h[..i], p);
    }
    if LatestRunEndIsFailure(h, p) {
      var i :| FailureRunEndsAt(h, i, p) && forall j :: i < j <= |h| ==> !EndsInRun(h[..j], true, p.S(), p);
      assert AlarmedAt(h, i, p);
    }
    if i :| AlarmedAt(h, i, p) {
      assert FailureRunEndsAt(h, i, p);
    }
  }

  /** A failure threshold of n takes n fresh failures in a row; one that is not configured
      takes a single failure. */
  lemma AlarmsByConfiguration(h: History, p: Policy)
    ensures p.failure >= 1 ==>
      (Emitted(h, p) != [] <==> exists m :: 0 <= m <= |h| && EndsInRun(h[..m], false, p.failure, p))
    ensures p.failure <= 0 ==> (Emitted(h, p) != [] <==> exists i :: 0 <= i < |h| && !h[i].ok)
  {
    hide Emitted;
    EmitsIffRunEnds(h, p);
    if p.failure >= 1 {
      assert forall m :: FailureRunEndsAt(h, m, p) <==> 0 <= m <= |h| && EndsInRun(h[..m], false, p.failure, p);
    } else {
      if m :| FailureRunEndsAt(h, m, p) {
        assert !h[..m][m - 1].ok;
      }
      if i :| 0 <= i < |h| && !h[i].ok {
        assert FailureRunEndsAt(h, i + 1, p);
      }
    }
  }

  /** The same for recovery, with the success threshold. */
  lemma RecoversByConfiguration(h: History, m: nat, p: Policy)
    requires m <= |h| && Replay(h[..m], p).status == Failing
    ensures p.success >= 1 ==>
      ((exists j :: m < j <= |h| && Replay(h[..j], p).status == Healthy)
       <==> exists j :: m < j <= |h| && EndsInRun(h[..j], true, p.success, p))
    ensures p.success <= 0 ==>
      ((exists j :: m < j <= |h| && Replay(h[..j], p).status == Healthy) <==> exists i :: m <= i < |h| && h[i].ok)
  {
    hide Replay, IsFailing;
    forall j | 0 <= j <= |h| ensures Replay(h[..j], p).status == Failing <==> IsFailing(h[..j], p) {
      CountersRefineHistory(h[..j], p);
    }
    RecoversIffRunEnds(h, m, p);
    if p.success >= 1 {
      assert forall j :: SuccessRunEndsAt(h, j, p) <==> 0 <= j <= |h| && EndsInRun(h[..j], true, p.success, p);
    } else {
      if j :| m < j <= |h| && SuccessRunEndsAt(h, j, p) {
        assert h[..j][j - 1].ok;
      }
      if i :| m <= i < |h| && h[i].ok {
        assert SuccessRunEndsAt(h, i + 1, p);
      }
    }
  }
}
