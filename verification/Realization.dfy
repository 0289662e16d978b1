/** The runs that `Timing` speaks of exist: every history in which checks complete inside
    their own cycles is the history of a run of the monitor. Hence the settings that
    guarantee an alarm are exactly those under which no run stays silent. */
module Realization {
  import opened Cycles
  import opened Hysteresis
  import opened Runs
  import opened Schedule
  import opened Staleness
  import opened States
  import opened Text
  import opened Timing

  /** The environment cycle by cycle: when the checks of a cycle complete, and how. */
  type Script = nat -> Completion

  predicate KeepsTime(script: Script, n: nat, epoch: Time, interval: Duration) {
    forall c: nat :: 1 <= c <= n ==> InCycle(script(c).at, c, epoch, interval)
  }

  /** The completions of the cycles 1 to `n` that run a spec. */
  function DueCompletions(everyCycles: int, script: Script, n: nat): History {
    if n == 0 then []
    else
      DueCompletions(everyCycles, script, n - 1) + (if ShouldRunInCycle(everyCycles, n) then [script(n)] else [])
  }

  lemma {:induction false} TimedConcat(w: Settings, s: System, first: seq<Action>, second: seq<Action>,
                                       id: string, epoch: Time, interval: Duration)
    requires Legal(w, s, first) && ChecksInCycle(w, s, first, id, epoch, interval)
    requires Legal(w, Exec(w, s, first), second)
    requires ChecksInCycle(w, Exec(w, s, first), second, id, epoch, interval)
    ensures Legal(w, s, first + second) && ChecksInCycle(w, s, first + second, id, epoch, interval)
    ensures Exec(w, s, first + second) == Exec(w, Exec(w, s, first), second)
    decreases |first|
  {
    hide StepInCycle, Next, Enabled;
    if |first| == 0 {
      assert first + second == second;
    } else {
      TimedConcat(w, Next(w, s, first[0]), first[1..], second, id, epoch, interval);
      assert (first + second)[1..] == first[1..] + second;
    }
  }

  // ---------- One goroutine, one cycle, all cycles ----------

  /** A goroutine that will complete, or has completed, its check with `c`. */
  predicate WillComplete(pc: Pc, c: Completion) {
    !pc.Finished() && (pc.Checked? || pc.ReadForResult? || pc.Committed? ==> pc.completion == c)
  }

  /** `s'` is `s` after goroutine `i` has run to its end with `c`. */
  predicate RanTo(s: System, i: nat, c: Completion, s': System)
    requires i < |s.gs|
  {
    var id := s.gs[i].job.id;
    && |s'.gs| == |s.gs| && s'.gs[i].job == s.gs[i].job && s'.gs[i].pc.Finished()
    && (forall j :: 0 <= j < |s.gs| && j != i ==> s'.gs[j] == s.gs[j])
    && s'.cycle == s.cycle && s'.cancelled == s.cancelled && s'.clock == c.at
    && s'.hist == if s.gs[i].pc.HasCommitted() then s.hist else s.hist[id := Hist(s.hist, id) + [c]]
  }

  lemma StepTowards(w: Settings, s: System, i: nat, c: Completion)
    requires i < |s.gs| && s.clock <= c.at && WillComplete(s.gs[i].pc, c)
    ensures var s' := Advance(w, s, i, Choice(c.at, false, c.ok));
      && |s'.gs| == |s.gs|
      && s'.gs[i].pc.StepsLeft() < s.gs[i].pc.StepsLeft()
      && (if s.gs[i].pc.Committed? then s'.gs[i].pc.Finished() else WillComplete(s'.gs[i].pc, c))
      && (s'.gs[i].pc.HasCommitted() <==> s.gs[i].pc.ReadForResult? || s.gs[i].pc.Committed?)
      && s'.hist == (if s.gs[i].pc.ReadForResult? then s.hist[s.gs[i].job.id := Hist(s.hist, s.gs[i].job.id) + [c]] else s.hist)
      && s'.cancelled == s.cancelled && s'.clock == c.at
  {
    hide Complete, ResultRecord, Announcement, Hist, Entry, Settings.StartDelay;
  }

  lemma {:induction false} FinishGoroutine(w: Settings, s: System, i: nat, c: Completion,
                                           id: string, epoch: Time, interval: Duration)
    returns (actions: seq<Action>)
    requires i < |s.gs| && s.clock <= c.at && WillComplete(s.gs[i].pc, c)
    requires InCycle(c.at, s.cycle, epoch, interval)
    ensures Legal(w, s, actions) && ChecksInCycle(w, s, actions, id, epoch, interval)
    ensures RanTo(s, i, c, Exec(w, s, actions))
    decreases s.gs[i].pc.StepsLeft()
  {
    hide Advance, InCycle, Settings.StartDelay, Hist;
    AdvanceShape(w, s, i, Choice(c.at, false, c.ok));
    StepTowards(w, s, i, c);
    var a := Action.Go(i, Choice(c.at, false, c.ok));
    var rest := [];
    if !s.gs[i].pc.Committed? {
      rest := FinishGoroutine(w, Next(w, s, a), i, c, id, epoch, interval);
    }
    actions := [a] + rest;
    assert actions[1..] == rest;
  }

  /** A cycle in which every goroutine from `i` on has yet to start. */
  lemma {:induction false} FinishCycle(w: Settings, s: System, i: nat, c: Completion,
                                       id: string, epoch: Time, interval: Duration)
    returns (actions: seq<Action>)
    requires i <= |s.gs| && s.clock <= c.at && InCycle(c.at, s.cycle, epoch, interval)
    requires DistinctGoroutines(s.gs)
    requires forall j :: 0 <= j < |s.gs| ==> if j < i then s.gs[j].pc.Finished() else s.gs[j].pc.Sleeping?
    ensures Legal(w, s, actions) && ChecksInCycle(w, s, actions, id, epoch, interval)
    ensures CycleRan(s, i, c, Exec(w, s, actions))
    decreases |s.gs| - i
  {
    hide Advance, InCycle, CanGo;
    actions := [];
    if i < |s.gs| {
      var first := FinishGoroutine(w, s, i, c, id, epoch, interval);
      var s1 := Exec(w, s, first);
      var rest := FinishCycle(w, s1, i + 1, c, id, epoch, interval);
      TimedConcat(w, s, first, rest, id, epoch, interval);
      actions := first + rest;
      CycleRanOn(s, i, c, s1, Exec(w, s1, rest));
    }
  }

  ghost predicate CycleRan(s: System, i: nat, c: Completion, s': System) {
    && AllFinished(s'.gs)
    && s'.cycle == s.cycle && s'.cancelled == s.cancelled && s.clock <= s'.clock <= c.at
    && (forall j :: i <= j < |s.gs| ==> Hist(s'.hist, s.gs[j].job.id) == Hist(s.hist, s.gs[j].job.id) + [c])
    && (forall other :: (forall j :: i <= j < |s.gs| ==> s.gs[j].job.id != other) ==>
          Hist(s'.hist, other) == Hist(s.hist, other))
  }

  lemma CycleRanOn(s: System, i: nat, c: Completion, s1: System, s': System)
    requires i < |s.gs| && s.gs[i].pc.Sleeping? && s.clock <= c.at && DistinctGoroutines(s.gs)
    requires RanTo(s, i, c, s1) && CycleRan(s1, i + 1, c, s')
    ensures CycleRan(s, i, c, s')
  {
    forall j | i <= j < |s.gs| ensures Hist(s'.hist, s.gs[j].job.id) == Hist(s.hist, s.gs[j].job.id) + [c] {
      assert j > i ==> s1.gs[j] == s.gs[j];
    }
    forall other | forall j :: i <= j < |s.gs| ==> s.gs[j].job.id != other
      ensures Hist(s'.hist, other) == Hist(s.hist, other)
    {
      assert s.gs[i].job.id != other;
      assert forall j :: i + 1 <= j < |s1.gs| ==> s1.gs[j] == s.gs[j];
    }
  }

  /** The state at the barrier after `n` scripted cycles. */
  ghost predicate Scripted(w: Settings, script: Script, n: nat, s: System) {
    && AllFinished(s.gs) && s.cycle == n && s.cancelled == {} && s.clock >= NEVER
    && (n == 0 ==> s.clock == NEVER) && (n > 0 ==> s.clock <= script(n).at)
    && forall job :: job in w.jobs ==>
         Hist(s.hist, job.id) == if job.active then DueCompletions(job.everyCycles, script, n) else []
  }

  lemma JobFollowsScript(w: Settings, script: Script, n: nat, s1: System, s': System, job: Job)
    requires n > 0 && DistinctJobs(w.jobs) && job in w.jobs && s1.gs == Spawn(w.jobs, n)
    requires CycleRan(s1, 0, script(n), s')
    requires Hist(s1.hist, job.id) == if job.active then DueCompletions(job.everyCycles, script, n - 1) else []
    ensures Hist(s'.hist, job.id) == if job.active then DueCompletions(job.everyCycles, script, n) else []
  {
    if job.Due(n) {
      assert Goroutine(job, Sleeping) in s1.gs;
      var j :| 0 <= j < |s1.gs| && s1.gs[j] == Goroutine(job, Sleeping);
      assert Hist(s'.hist, s1.gs[j].job.id) == Hist(s1.hist, s1.gs[j].job.id) + [script(n)];
    } else {
      NotSpawned(w, n, job);
      EmptyRight(DueCompletions(job.everyCycles, script, n - 1));
    }
  }

  lemma NotSpawned(w: Settings, cycle: nat, job: Job)
    requires DistinctJobs(w.jobs) && job in w.jobs && !job.Due(cycle)
    ensures forall j :: 0 <= j < |Spawn(w.jobs, cycle)| ==> Spawn(w.jobs, cycle)[j].job.id != job.id
  {
    var gs := Spawn(w.jobs, cycle);
    forall j | 0 <= j < |gs| ensures gs[j].job.id != job.id {
      if gs[j].job.id == job.id {
        SameIdSameJob(w, gs[j].job, job);
      }
    }
  }

  lemma CycleFollowsScript(w: Settings, script: Script, n: nat, s: System, s': System)
    requires n > 0 && DistinctJobs(w.jobs) && Scripted(w, script, n - 1, s)
    requires CycleRan(Next(w, s, NextCycle), 0, script(n), s')
    ensures Scripted(w, script, n, s')
  {
    hide DueCompletions, Spawn;
    forall job | job in w.jobs
      ensures Hist(s'.hist, job.id) == if job.active then DueCompletions(job.everyCycles, script, n) else []
    {
      JobFollowsScript(w, script, n, Next(w, s, NextCycle), s', job);
    }
  }

  /** Every script that keeps time can be followed. */
  lemma {:induction false} FollowScript(w: Settings, script: Script, n: nat, id: string, epoch: Time, interval: Duration)
    returns (actions: seq<Action>)
    requires DistinctJobs(w.jobs) && KeepsTime(script, n, epoch, interval) && epoch >= NEVER && interval > 0
    ensures Legal(w, INITIAL, actions) && ChecksInCycle(w, INITIAL, actions, id, epoch, interval)
    ensures Scripted(w, script, n, Exec(w, INITIAL, actions))
  {
    hide CycleRan, InCycle, Advance, CanGo, Spawn;
    actions := [];
    if n > 0 {
      hide DueCompletions;
      var before := FollowScript(w, script, n - 1, id, epoch, interval);
      var s := Exec(w, INITIAL, before);
      var s1 := Next(w, s, NextCycle);
      SpawnDistinct(w.jobs, n);
      ScriptAdvances(script, n, epoch, interval);
      var cycle := FinishCycle(w, s1, 0, script(n), id, epoch, interval);
      CycleFollowsScript(w, script, n, s, Exec(w, s1, cycle));
      assert ([NextCycle] + cycle)[1..] == cycle;
      TimedConcat(w, INITIAL, before, [NextCycle] + cycle, id, epoch, interval);
      actions := before + ([NextCycle] + cycle);
    }
  }

  lemma ScriptAdvances(script: Script, n: nat, epoch: Time, interval: Duration)
    requires KeepsTime(script, n, epoch, interval) && epoch >= NEVER && interval > 0 && n > 0
    ensures script(n).at >= NEVER && (n > 1 ==> script(n - 1).at <= script(n).at)
    ensures InCycle(script(n).at, n, epoch, interval)
  {
    assert n * interval == (n - 1) * interval + interval;
    if n > 1 {
      assert InCycle(script(n - 1).at, n - 1, epoch, interval);
    }
  }

  // ---------- Realizing a history ----------

  function FullPlan(job: Job, epoch: Time): Plan {
    Plan(Stride(job.everyCycles), Stride(job.everyCycles), epoch, job.policy.interval)
  }

  /** A script whose due cycles complete the given checks. */
  function ScriptOf(h: History, t: Plan): Script {
    (c: nat) =>
      if t.stride > 0 && c > 0 && c % t.stride == 0 && c / t.stride <= |h| then h[c / t.stride - 1]
      else Completion(t.epoch + c * t.interval, true)
  }

  lemma ScriptKeepsTime(h: History, t: Plan, n: nat)
    requires t.Valid() && t.first == t.stride && OnTime(h, t)
    ensures KeepsTime(ScriptOf(h, t), n, t.epoch, t.interval)
  {
    forall c: nat | 1 <= c <= n ensures InCycle(ScriptOf(h, t)(c).at, c, t.epoch, t.interval) {
      if c % t.stride == 0 && c / t.stride <= |h| {
        var i := c / t.stride - 1;
        assert c == t.stride * (c / t.stride);
        assert t.first + i * t.stride == c;
        assert 0 <= t.Offset(h, i) < t.interval;
      }
    }
  }

  lemma DueIffMultiple(everyCycles: int, n: nat)
    ensures ShouldRunInCycle(everyCycles, n) <==> n % Stride(everyCycles) == 0
  {
  }

  lemma {:induction false} ScriptCompletes(h: History, everyCycles: int, t: Plan, n: nat)
    requires t.Valid() && t.stride == Stride(everyCycles) && n / t.stride <= |h|
    ensures DueCompletions(everyCycles, ScriptOf(h, t), n) == h[..n / t.stride]
  {
    hide ShouldRunInCycle, Stride, Plan.Valid;
    assert t.stride >= 1;
    if n > 0 {
      DivStep(t.stride, n - 1);
      DueIffMultiple(everyCycles, n);
      ScriptCompletes(h, everyCycles, t, n - 1);
      if n % t.stride == 0 {
        assert n / t.stride == (n - 1) / t.stride + 1;
        ScriptAt(h, t, n);
      }
    } else {
      assert 0 / t.stride == 0;
    }
  }

  lemma ScriptAt(h: History, t: Plan, n: nat)
    requires t.stride >= 1 && n > 0 && n % t.stride == 0 && 0 < n / t.stride <= |h|
    ensures ScriptOf(h, t)(n) == h[n / t.stride - 1]
  {
  }

  /** Every history on the plan of a spec is the history of that spec in some run. */
  lemma HistoryIsRealized(w: Settings, job: Job, h: History, epoch: Time) returns (actions: seq<Action>, s: System)
    requires DistinctJobs(w.jobs) && job in w.jobs && job.active
    requires FullPlan(job, epoch).Valid() && OnTime(h, FullPlan(job, epoch))
    ensures IsTimedRun(w, actions, s, job, epoch) && AllFinished(s.gs)
    ensures s.cycle == |h| * Stride(job.everyCycles) && Hist(s.hist, job.id) == h
  {
    var t := FullPlan(job, epoch);
    var n := |h| * t.stride;
    ScriptKeepsTime(h, t, n);
    actions := FollowScript(w, ScriptOf(h, t), n, job.id, epoch, t.interval);
    s := Exec(w, INITIAL, actions);
    DivModUnique(t.stride, n, |h|, 0);
    ScriptCompletes(h, job.everyCycles, t, n);
    assert h[..|h|] == h;
  }

  // ---------- The condition for an alarm is exact for runs ----------

  ghost predicate FailingRun(w: Settings, actions: seq<Action>, s: System, job: Job, epoch: Time) {
    && IsTimedRun(w, actions, s, job, epoch) && AllFinished(s.gs)
    && forall i :: 0 <= i < |Hist(s.hist, job.id)| ==> !Hist(s.hist, job.id)[i].ok
  }

  ghost predicate AlarmedAfter(w: Settings, job: Job, epoch: Time, n: nat) {
    forall actions, s :: FailingRun(w, actions, s, job, epoch) && s.cycle >= n ==> NoticesFor(s.log, job.id) != []
  }

  ghost predicate SomeRunAlarms(w: Settings, job: Job, epoch: Time) {
    exists actions, s :: FailingRun(w, actions, s, job, epoch) && NoticesFor(s.log, job.id) != []
  }

  /** Some run in which the spec fails all the time alarms, under the condition of
      `Schedule.CanAlarmIff`. */
  lemma RunsCanAlarmIff(w: Settings, job: Job, epoch: Time)
    requires DistinctJobs(w.jobs) && job in w.jobs && job.active && FullPlan(job, epoch).Valid()
    ensures SomeRunAlarms(w, job, epoch) <==> job.policy.F() == 1 || job.everyCycles <= 2
  {
    var t := FullPlan(job, epoch);
    CanAlarmIff(job.policy, t);
    if SomeRunAlarms(w, job, epoch) && job.policy.F() > 1 && job.everyCycles > 2 {
      var actions, s :| FailingRun(w, actions, s, job, epoch) && NoticesFor(s.log, job.id) != [];
      SparseSpecNeverAlarms(w, actions, s, job, epoch);
    }
    if h :| FailsOnTime(h, t) && Emitted(h, job.policy) != [] {
      var actions, s := HistoryIsRealized(w, job, h, epoch);
      SpecAlarmsIffRunEnds(w, actions, s, job);
      EmitsIffRunEnds(h, job.policy);
      assert FailingRun(w, actions, s, job, epoch);
    }
  }

  /** A run of any length in which a spec without guarantee fails all the time in silence. */
  lemma SilentRun(w: Settings, job: Job, n: nat, epoch: Time) returns (actions: seq<Action>, s: System)
    requires DistinctJobs(w.jobs) && job in w.jobs && job.active
    requires FullPlan(job, epoch).Valid() && !Guaranteed(job.policy, FullPlan(job, epoch))
    ensures FailingRun(w, actions, s, job, epoch) && s.cycle >= n && NoticesFor(s.log, job.id) == []
  {
    var t := FullPlan(job, epoch);
    ZigzagNeverAlarms(n, job.policy, t);
    actions, s := HistoryIsRealized(w, job, Zigzag(n, t), epoch);
    MultiplyMonotone(n, 1, t.stride);
    SpecAlarmsIffRunEnds(w, actions, s, job);
    EmitsIffRunEnds(Hist(s.hist, job.id), job.policy);
  }

  /** A permanently failing spec has alarmed in every run that is long enough if and only if
      its settings guarantee it. */
  lemma RunsMustAlarmIff(w: Settings, job: Job, epoch: Time)
    requires DistinctJobs(w.jobs) && job in w.jobs && job.active && FullPlan(job, epoch).Valid()
    ensures (exists n: nat :: AlarmedAfter(w, job, epoch, n)) <==> Guaranteed(job.policy, FullPlan(job, epoch))
  {
    var t := FullPlan(job, epoch);
    if Guaranteed(job.policy, t) {
      var n := (Patience(job.policy, t) + 1) * t.stride;
      forall actions, s | FailingRun(w, actions, s, job, epoch) && s.cycle >= n
        ensures NoticesFor(s.log, job.id) != []
      {
        EnoughStrides(s.cycle, t.stride, Patience(job.policy, t) + 1);
        PermanentFailureAlarms(w, actions, s, job, epoch);
      }
      assert AlarmedAfter(w, job, epoch, n);
    } else if n: nat :| AlarmedAfter(w, job, epoch, n) {
      var actions, s := SilentRun(w, job, n, epoch);
    }
  }

  lemma EnoughStrides(cycle: nat, k: nat, n: nat)
    requires k >= 1 && cycle >= n * k
    ensures cycle / k >= n
  {
    if cycle / k < n {
      MultiplyMonotone(k, cycle / k + 1, n);
    }
  }
}
