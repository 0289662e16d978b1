/** Runs of the monitor on a clock: when every check of a spec completes inside its own
    cycle's interval, the spec's history follows its plan, and the plan decides whether the
    spec can ever alarm. */
module Timing {
  import opened Cycles
  import opened Hysteresis
  import opened Runs
  import opened Schedule
  import opened Staleness
  import opened States

  predicate InCycle(at: Time, cycle: nat, epoch: Time, interval: Duration) {
    0 <= at - (epoch + cycle * interval) < interval
  }

  /** A step that completes a check of this spec does so before the cycle's interval is
      over. */
  predicate StepInCycle(s: System, a: Action, id: string, epoch: Time, interval: Duration) {
    a.Go? && a.i < |s.gs| && s.gs[a.i].job.id == id && s.gs[a.i].pc.Marked? ==>
      InCycle(a.choice.now, s.cycle, epoch, interval)
  }

  predicate ChecksInCycle(w: Settings, s: System, actions: seq<Action>, id: string, epoch: Time, interval: Duration)
    requires Legal(w, s, actions)
    decreases |actions|
  {
    |actions| > 0 ==>
      && StepInCycle(s, actions[0], id, epoch, interval)
      && ChecksInCycle(w, Next(w, s, actions[0]), actions[1..], id, epoch, interval)
  }

  /** The plan of a spec: it starts one stride late if its first check was cancelled. */
  function PlanOf(s: System, job: Job, epoch: Time, interval: Duration): Plan {
    var k := Stride(job.everyCycles);
    Plan(k + Missed(s, job.id) * k, k, epoch, interval)
  }

  // ---------- Every history follows its plan ----------

  /** A check that has completed but is not committed yet. */
  predicate PcInCycle(pc: Pc, cycle: nat, epoch: Time, interval: Duration) {
    pc.Checked? || pc.ReadForResult? ==> InCycle(pc.completion.at, cycle, epoch, interval)
  }

  predicate JobOnTime(s: System, job: Job, epoch: Time, interval: Duration) {
    OnTime(Hist(s.hist, job.id), PlanOf(s, job, epoch, interval))
  }

  ghost predicate TimedInv(w: Settings, s: System, job: Job, epoch: Time, interval: Duration) {
    && Inv(w, s) && job in w.jobs
    && JobOnTime(s, job, epoch, interval)
    && (forall i :: 0 <= i < |s.gs| && s.gs[i].job.id == job.id ==> PcInCycle(s.gs[i].pc, s.cycle, epoch, interval))
  }

  /** The cycle that completes the next check is the one the plan says. */
  lemma NextCheckCycle(w: Settings, s: System, job: Job, pc: Pc, epoch: Time, interval: Duration)
    requires JobInv(w, s, job, pc) && job.Due(s.cycle) && Owed(pc) == 1
    ensures var t, n := PlanOf(s, job, epoch, interval), |Hist(s.hist, job.id)|;
      t.first + n * t.stride == s.cycle
  {
    hide Replay, Emitted, NoticesFor, Stride;
    var k, n, missed := Stride(job.everyCycles), |Hist(s.hist, job.id)|, Missed(s, job.id);
    RunsInFirstCycles(job.everyCycles, s.cycle);
    DueIsMultiple(job, s.cycle);
    assert (n + 1 + missed) * k == n * k + k + missed * k;
  }

  lemma DueIsMultiple(job: Job, cycle: nat)
    requires job.Due(cycle)
    ensures (cycle / Stride(job.everyCycles)) * Stride(job.everyCycles) == cycle
  {
  }

  lemma {:induction false} OnTimeGrows(h: History, c: Completion, t: Plan)
    requires OnTime(h, t) && InCycle(c.at, t.first + |h| * t.stride, t.epoch, t.interval)
    ensures OnTime(h + [c], t)
  {
    forall i | 0 <= i < |h + [c]| ensures 0 <= t.Offset(h + [c], i) < t.interval {
      if i < |h| {
        assert t.Offset(h + [c], i) == t.Offset(h, i);
      }
    }
  }

  lemma OwnJobOnTime(w: Settings, s: System, i: nat, ch: Choice, epoch: Time, interval: Duration)
    requires CanGo(w, s, i, ch) && JobInv(w, s, s.gs[i].job, s.gs[i].pc) && s.gs[i].job.Due(s.cycle)
    requires JobOnTime(s, s.gs[i].job, epoch, interval) && PcInCycle(s.gs[i].pc, s.cycle, epoch, interval)
    ensures JobOnTime(Advance(w, s, i, ch), s.gs[i].job, epoch, interval)
  {
    hide Replay, Emitted, NoticesFor, RunsBetween, Complete;
    var job, pc := s.gs[i].job, s.gs[i].pc;
    if pc.ReadForResult? {
      NextCheckCycle(w, s, job, pc, epoch, interval);
      OnTimeGrows(Hist(s.hist, job.id), pc.completion, PlanOf(s, job, epoch, interval));
    } else if pc.Sleeping? && ch.cancelled {
      RunsInFirstCycles(job.everyCycles, s.cycle);
      assert Hist(s.hist, job.id) == [];
    }
  }

  lemma OwnPcInCycle(w: Settings, s: System, i: nat, ch: Choice, epoch: Time, interval: Duration)
    requires CanGo(w, s, i, ch) && PcInCycle(s.gs[i].pc, s.cycle, epoch, interval)
    requires StepInCycle(s, Action.Go(i, ch), s.gs[i].job.id, epoch, interval)
    ensures PcInCycle(Advance(w, s, i, ch).gs[i].pc, s.cycle, epoch, interval)
  {
    hide Complete, ResultRecord, Announcement, InCycle, Settings.StartDelay;
  }

  lemma OtherJobOnTime(w: Settings, s: System, i: nat, ch: Choice, job: Job, epoch: Time, interval: Duration)
    requires CanGo(w, s, i, ch) && s.gs[i].job.id != job.id && JobOnTime(s, job, epoch, interval)
    ensures JobOnTime(Advance(w, s, i, ch), job, epoch, interval)
  {
    hide Advance, CanGo, OnTime, NoticesFor;
    OthersShape(w, s, i, ch, job.id);
  }

  lemma GoKeepsTimedInv(w: Settings, s: System, job: Job, i: nat, ch: Choice, epoch: Time, interval: Duration)
    requires TimedInv(w, s, job, epoch, interval) && CanGo(w, s, i, ch)
    requires StepInCycle(s, Action.Go(i, ch), job.id, epoch, interval)
    ensures TimedInv(w, Advance(w, s, i, ch), job, epoch, interval)
  {
    hide JobInv, JobOnTime, PcInCycle, StepInCycle, Advance;
    GoKeepsInv(w, s, i, ch, Advance(w, s, i, ch));
    AdvanceShape(w, s, i, ch);
    if job.id == s.gs[i].job.id {
      SameIdSameJob(w, job, s.gs[i].job);
      OwnJobOnTime(w, s, i, ch, epoch, interval);
      OwnPcInCycle(w, s, i, ch, epoch, interval);
    } else {
      OtherJobOnTime(w, s, i, ch, job, epoch, interval);
    }
  }

  lemma {:induction false} RunKeepsTimedInv(w: Settings, s: System, actions: seq<Action>, job: Job,
                                                epoch: Time, interval: Duration)
    requires TimedInv(w, s, job, epoch, interval) && Legal(w, s, actions)
    requires ChecksInCycle(w, s, actions, job.id, epoch, interval)
    ensures TimedInv(w, Exec(w, s, actions), job, epoch, interval)
    decreases |actions|
  {
    hide JobInv, JobOnTime, PcInCycle, Advance, StepInCycle;
    if |actions| > 0 {
      var s' := Next(w, s, actions[0]);
      match actions[0] {
        case Go(i, ch) => GoKeepsTimedInv(w, s, job, i, ch, epoch, interval);
        case NextCycle => NextCycleKeepsTimedInv(w, s, job, epoch, interval);
      }
      RunKeepsTimedInv(w, s', actions[1..], job, epoch, interval);
    }
  }

  lemma NextCycleKeepsTimedInv(w: Settings, s: System, job: Job, epoch: Time, interval: Duration)
    requires TimedInv(w, s, job, epoch, interval) && AllFinished(s.gs)
    ensures TimedInv(w, Next(w, s, NextCycle), job, epoch, interval)
  {
    hide JobInv, OnTime;
    NextCycleKeepsInv(w, s);
  }

  /** The history of the spec follows its plan, in every state the monitor can reach. */
  lemma HistoryOnTime(w: Settings, actions: seq<Action>, job: Job, epoch: Time, interval: Duration)
    requires DistinctJobs(w.jobs) && Legal(w, INITIAL, actions) && job in w.jobs
    requires ChecksInCycle(w, INITIAL, actions, job.id, epoch, interval)
    ensures var s := Exec(w, INITIAL, actions);
      OnTime(Hist(s.hist, job.id), PlanOf(s, job, epoch, interval))
  {
    InitialInv(w);
    RunKeepsTimedInv(w, INITIAL, actions, job, epoch, interval);
  }

  // ---------- What the plan means for alarms ----------

  /** A run of the monitor, at one of its states `s`, whose checks of one spec keep to their
      cycles. */
  ghost predicate IsTimedRun(w: Settings, actions: seq<Action>, s: System, job: Job, epoch: Time) {
    && DistinctJobs(w.jobs) && job in w.jobs
    && epoch >= NEVER && 0 < job.policy.interval < TWO_62
    && Legal(w, INITIAL, actions) && s == Exec(w, INITIAL, actions)
    && ChecksInCycle(w, INITIAL, actions, job.id, epoch, job.policy.interval)
  }

  /** A spec with stride 3 or more and a threshold of 2 or more is Healthy in every state,
      and nothing is ever sent for it, whatever its checks find. */
  lemma SparseSpecNeverAlarms(w: Settings, actions: seq<Action>, s: System, job: Job, epoch: Time)
    requires IsTimedRun(w, actions, s, job, epoch) && job.everyCycles >= 3 && job.policy.failure >= 2
    ensures Entry(s.store, job.id).status == Healthy && NoticesFor(s.log, job.id) == []
  {
    HistoryOnTime(w, actions, job, epoch, job.policy.interval);
    SparseNeverAlarms(Hist(s.hist, job.id), job.policy, PlanOf(s, job, epoch, job.policy.interval));
    InitialInv(w);
    RunKeepsInv(w, INITIAL, actions);
    JobHasInv(w, s, job);
  }

  /** At the barrier something has been sent for a spec if and only if its history holds a
      stretch of failures, in the terms of its plan. */
  lemma SpecAlarmsIffStretch(w: Settings, actions: seq<Action>, s: System, job: Job, epoch: Time)
    requires IsTimedRun(w, actions, s, job, epoch) && AllFinished(s.gs)
    ensures var t := PlanOf(s, job, epoch, job.policy.interval);
      NoticesFor(s.log, job.id) != []
      <==> exists from :: Stretch(Hist(s.hist, job.id), t, false, from, job.policy.F())
  {
    HistoryOnTime(w, actions, job, epoch, job.policy.interval);
    AlarmsIffStretch(Hist(s.hist, job.id), job.policy, PlanOf(s, job, epoch, job.policy.interval));
    SpecAlarmsIffRunEnds(w, actions, s, job);
    EmitsIffRunEnds(Hist(s.hist, job.id), job.policy);
  }

  /** A spec with stride 3 or more and a success threshold of 2 or more that is Failing in
      one state is Failing in every later one, whatever its checks find. */
  lemma SparseSpecNeverRecovers(w: Settings, first: seq<Action>, more: seq<Action>, s: System, s': System,
                                job: Job, epoch: Time)
    requires IsTimedRun(w, first + more, s', job, epoch) && job.everyCycles >= 3 && job.policy.success >= 2
    requires Legal(w, INITIAL, first) && s == Exec(w, INITIAL, first)
    requires Entry(s.store, job.id).status == Failing
    ensures Entry(s'.store, job.id).status == Failing
  {
    hide ChecksInCycle, OnTime, Hist;
    ExecSplit(w, INITIAL, first, more);
    ExecConcat(w, INITIAL, first, more);
    HistoryPrefix(w, s, more, job.id);
    var h, h' := Hist(s.hist, job.id), Hist(s'.hist, job.id);
    HistoryOnTime(w, first + more, job, epoch, job.policy.interval);
    StoredStatus(w, first, s, job);
    StoredStatus(w, first + more, s', job);
    assert h == h'[..|h|];
    SparseNeverRecovers(h', |h|, job.policy, PlanOf(s', job, epoch, job.policy.interval));
  }

  lemma StoredStatus(w: Settings, actions: seq<Action>, s: System, job: Job)
    requires DistinctJobs(w.jobs) && job in w.jobs
    requires Legal(w, INITIAL, actions) && s == Exec(w, INITIAL, actions)
    ensures Entry(s.store, job.id).status == Replay(Hist(s.hist, job.id), job.policy).status
  {
    StoreIsHistory(w, actions, job);
    StatusIsLatestRunEnd(Hist(s.hist, job.id), job.policy);
  }

  /** A spec whose checks all fail has alarmed once there were enough cycles, if its
      settings guarantee an alarm at all. */
  lemma PermanentFailureAlarms(w: Settings, actions: seq<Action>, s: System, job: Job, epoch: Time)
    requires IsTimedRun(w, actions, s, job, epoch) && AllFinished(s.gs) && job.active
    requires var t := PlanOf(s, job, epoch, job.policy.interval);
      Guaranteed(job.policy, t) && s.cycle / Stride(job.everyCycles) - Missed(s, job.id) >= Patience(job.policy, t)
    requires forall i :: 0 <= i < |Hist(s.hist, job.id)| ==> !Hist(s.hist, job.id)[i].ok
    ensures NoticesFor(s.log, job.id) != [] && NoticesFor(s.log, job.id)[0] == FailureTransition
  {
    var h, t := Hist(s.hist, job.id), PlanOf(s, job, epoch, job.policy.interval);
    HistoryOnTime(w, actions, job, epoch, job.policy.interval);
    ChecksPerCycles(w, actions, job);
    PatienceSuffices(h, job.policy, t);
    InitialInv(w);
    RunKeepsInv(w, INITIAL, actions);
    AtRest(w, s, job);
    SentAlternates(w, s, job, Cancelled);
  }

  /** The S3 example of README.md:193-214: with `every_cycles: 60` and `failure: 2` at the
      default interval of 60 seconds, no run of the monitor ever alarms. */
  lemma DocumentedExampleNeverAlarms(w: Settings, actions: seq<Action>, s: System, job: Job, epoch: Time)
    requires IsTimedRun(w, actions, s, job, epoch)
    requires job.everyCycles == 60 && job.policy == Policy(2, 1, 60_000_000_000)
    ensures Entry(s.store, job.id).status == Healthy && NoticesFor(s.log, job.id) == []
  {
    SparseSpecNeverAlarms(w, actions, s, job, epoch);
  }
}
