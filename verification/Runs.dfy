/** Whole runs of the monitor: any number of cycles under any interleaving. The stored
    record of every spec stays the declared function of that spec's history, and the log
    of notifications is the one that history calls for. */
module Runs {
  import opened Cycles
  import opened Hysteresis
  import opened Schedule
  import opened Staleness
  import opened States
  import opened Text

  /** The notifications sent for one spec, oldest first. */
  function NoticesFor(log: seq<Notification>, id: string): seq<Transition> {
    if |log| == 0 then []
    else
      var last := log[|log| - 1];
      NoticesFor(log[..|log| - 1], id) + (if last.id == id then [last.transition] else [])
  }

  /** A transition that is stored but not announced yet. */
  function Unannounced(pc: Pc): seq<Transition> {
    if pc.Committed? then Notice(pc.transition) else []
  }

  function Core(state: SpecState): SpecState {
    state.(startedAt := NEVER)
  }

  /** Checks a spec is still to complete in this cycle. */
  function Owed(pc: Pc): nat {
    if pc.Cancelled? || pc.HasCommitted() then 0 else 1
  }

  /** Checks a spec will never complete: its first, if that was cancelled. */
  function Missed(s: System, id: string): nat {
    if id in s.cancelled then 1 else 0
  }

  /** What holds of one spec; `pc` is where its goroutine is, `Cancelled` if it has none. */
  predicate JobInv(w: Settings, s: System, job: Job, pc: Pc) {
    var h, entry := Hist(s.hist, job.id), Entry(s.store, job.id);
    && Core(entry) == Replay(h, job.policy)
    && (pc.ReadForStart? || pc.ReadForResult? ==> pc.cached == entry)
    && NoticesFor(s.log, job.id) + Unannounced(pc) == Emitted(h, job.policy)
    && (if job.active then |h| + Owed(pc) + Missed(s, job.id) == RunsBetween(job.everyCycles, 1, s.cycle) else h == [])
    && (job.id in s.cancelled ==> MayMissFirst(w, job) && 1 <= s.cycle && (s.cycle == 1 ==> pc.Cancelled?))
  }

  /** Only the first cycle has start delays, and only stride 1 is due in it. */
  predicate MayMissFirst(w: Settings, job: Job) {
    w.jitter > 0 && job.active && job.everyCycles <= 1
  }

  ghost predicate Inv(w: Settings, s: System) {
    && DistinctJobs(w.jobs)
    && DistinctGoroutines(s.gs)
    && (forall i :: 0 <= i < |s.gs| ==>
          && s.gs[i].job in w.jobs
          && s.gs[i].job.Due(s.cycle)
          && JobInv(w, s, s.gs[i].job, s.gs[i].pc))
    && (forall job :: job in w.jobs && !IsGoroutineOf(s.gs, job.id) ==> JobInv(w, s, job, Cancelled))
  }

  /** Completing a check does not look at when the cycle started. */
  lemma CompleteIgnoresStart(state: SpecState, c: Completion, p: Policy)
    ensures Core(Complete(state, c, p).0) == Complete(Core(state), c, p).0
    ensures Complete(state, c, p).1 == Complete(Core(state), c, p).1
  {
  }

  lemma HistoryGrows(h: History, c: Completion, p: Policy)
    ensures Replay(h + [c], p) == Complete(Replay(h, p), c, p).0
    ensures Emitted(h + [c], p) == Emitted(h, p) + Notice(Complete(Replay(h, p), c, p).1)
  {
    assert (h + [c])[..|h|] == h;
  }

  lemma LogGrows(log: seq<Notification>, sender: string, t: Transition, id: string)
    ensures NoticesFor(log + Announcement(sender, t), id)
         == NoticesFor(log, id) + (if sender == id then Notice(t) else [])
  {
    if t == NoTransition {
      assert log + [] == log;
    } else {
      assert (log + [Notification(sender, t)])[..|log|] == log;
    }
  }

  /** A step leaves everything about the other specs as it was. */
  lemma OthersShape(w: Settings, s: System, i: nat, ch: Choice, id: string)
    requires CanGo(w, s, i, ch) && id != s.gs[i].job.id
    ensures var s' := Advance(w, s, i, ch);
      && s'.cycle == s.cycle && (id in s'.cancelled <==> id in s.cancelled)
      && Entry(s'.store, id) == Entry(s.store, id) && Hist(s'.hist, id) == Hist(s.hist, id)
      && NoticesFor(s'.log, id) == NoticesFor(s.log, id)
  {
    hide Complete, ResultRecord, NoticesFor, Announcement, Settings.StartDelay;
    if s.gs[i].pc.Committed? {
      LogGrows(s.log, s.gs[i].job.id, s.gs[i].pc.transition, id);
      EmptyRight(NoticesFor(s.log, id));
    }
  }

  lemma OthersUntouched(w: Settings, s: System, i: nat, ch: Choice, job: Job, pc: Pc)
    requires CanGo(w, s, i, ch) && job.id != s.gs[i].job.id
    requires JobInv(w, s, job, pc)
    ensures JobInv(w, Advance(w, s, i, ch), job, pc)
  {
    hide Advance, Replay, Emitted, NoticesFor, RunsBetween;
    OthersShape(w, s, i, ch, job.id);
  }

  predicate OwnInv(w: Settings, s: System, i: nat)
    requires i < |s.gs|
  {
    JobInv(w, s, s.gs[i].job, s.gs[i].pc)
  }

  /** The commit extends the history, and the record follows it. */
  lemma CommitStep(w: Settings, s: System, i: nat, ch: Choice)
    requires CanGo(w, s, i, ch) && s.gs[i].job.Due(s.cycle) && OwnInv(w, s, i) && s.gs[i].pc.ReadForResult?
    ensures OwnInv(w, Advance(w, s, i, ch), i)
  {
    hide Complete, Replay, Emitted, NoticesFor, RunsBetween;
    var job, pc := s.gs[i].job, s.gs[i].pc;
    CompleteIgnoresStart(pc.cached, pc.completion, job.policy);
    HistoryGrows(Hist(s.hist, job.id), pc.completion, job.policy);
    EmptyRight(NoticesFor(s.log, job.id));
  }

  /** Announcing the transition brings the log up to the history. */
  lemma AnnounceStep(w: Settings, s: System, i: nat, ch: Choice)
    requires CanGo(w, s, i, ch) && s.gs[i].job.Due(s.cycle) && OwnInv(w, s, i) && s.gs[i].pc.Committed?
    ensures OwnInv(w, Advance(w, s, i, ch), i)
  {
    hide Replay, Emitted, NoticesFor, RunsBetween, Announcement;
    var job, pc := s.gs[i].job, s.gs[i].pc;
    LogGrows(s.log, job.id, pc.transition, job.id);
    EmptyRight(Emitted(Hist(s.hist, job.id), job.policy));
  }

  lemma OwnStep(w: Settings, s: System, i: nat, ch: Choice)
    requires CanGo(w, s, i, ch) && s.gs[i].job.Due(s.cycle) && OwnInv(w, s, i)
    ensures OwnInv(w, Advance(w, s, i, ch), i)
  {
    hide Complete, Replay, Emitted, NoticesFor, RunsBetween;
    if s.gs[i].pc.ReadForResult? {
      CommitStep(w, s, i, ch);
    } else if s.gs[i].pc.Committed? {
      AnnounceStep(w, s, i, ch);
    }
  }

  lemma OtherGoroutinesKeepInv(w: Settings, s: System, i: nat, ch: Choice, s': System)
    requires Inv(w, s) && CanGo(w, s, i, ch) && s' == Advance(w, s, i, ch)
    ensures forall j :: 0 <= j < |s.gs| && j != i ==>
              JobInv(w, s', s.gs[j].job, s.gs[j].pc)
  {
    forall j | 0 <= j < |s.gs| && j != i
      ensures JobInv(w, s', s.gs[j].job, s.gs[j].pc)
    {
      OthersUntouched(w, s, i, ch, s.gs[j].job, s.gs[j].pc);
    }
  }

  lemma IdleJobsKeepInv(w: Settings, s: System, i: nat, ch: Choice, s': System)
    requires Inv(w, s) && CanGo(w, s, i, ch) && s' == Advance(w, s, i, ch)
    ensures forall job :: job in w.jobs && !IsGoroutineOf(s.gs, job.id) ==> JobInv(w, s', job, Cancelled)
  {
    forall job | job in w.jobs && !IsGoroutineOf(s.gs, job.id) ensures JobInv(w, s', job, Cancelled) {
      OthersUntouched(w, s, i, ch, job, Cancelled);
    }
  }

  lemma GoKeepsInv(w: Settings, s: System, i: nat, ch: Choice, s': System)
    requires Inv(w, s) && CanGo(w, s, i, ch) && s' == Advance(w, s, i, ch)
    ensures Inv(w, s')
  {
    hide Advance, JobInv;
    AdvanceShape(w, s, i, ch);
    OwnStep(w, s, i, ch);
    OtherGoroutinesKeepInv(w, s, i, ch, s');
    IdleJobsKeepInv(w, s, i, ch, s');
    forall job | job in w.jobs && !IsGoroutineOf(s'.gs, job.id) ensures !IsGoroutineOf(s.gs, job.id) {
      forall j | 0 <= j < |s.gs| ensures s.gs[j].job.id != job.id {
        assert s'.gs[j].job == s.gs[j].job;
      }
    }
  }

  /** At the barrier every spec, with or without a goroutine, is at rest. */
  lemma AtRest(w: Settings, s: System, job: Job)
    requires Inv(w, s) && AllFinished(s.gs) && job in w.jobs
    ensures JobInv(w, s, job, Cancelled)
  {
    hide JobInv;
    if IsGoroutineOf(s.gs, job.id) {
      var i :| 0 <= i < |s.gs| && s.gs[i].job.id == job.id;
      SameIdSameJob(w, job, s.gs[i].job);
      FinishedIsAtRest(w, s, job, s.gs[i].pc);
    }
  }

  lemma SameIdSameJob(w: Settings, a: Job, b: Job)
    requires DistinctJobs(w.jobs) && a in w.jobs && b in w.jobs && a.id == b.id
    ensures a == b
  {
    var i :| 0 <= i < |w.jobs| && w.jobs[i] == a;
    var j :| 0 <= j < |w.jobs| && w.jobs[j] == b;
    assert i == j;
  }

  lemma FinishedIsAtRest(w: Settings, s: System, job: Job, pc: Pc)
    requires JobInv(w, s, job, pc) && pc.Finished()
    ensures JobInv(w, s, job, Cancelled)
  {
    hide Replay, Emitted, NoticesFor, RunsBetween;
  }

  lemma JobStartsCycle(w: Settings, s: System, job: Job)
    requires JobInv(w, s, job, Cancelled) && AllFinished(s.gs)
    ensures JobInv(w, Next(w, s, NextCycle), job, if job.Due(s.cycle + 1) then Sleeping else Cancelled)
  {
    hide Replay, Emitted, NoticesFor, Spawn;
  }

  lemma NextCycleKeepsInv(w: Settings, s: System)
    requires Inv(w, s) && AllFinished(s.gs)
    ensures Inv(w, Next(w, s, NextCycle))
  {
    hide JobInv;
    var s' := Next(w, s, NextCycle);
    SpawnDistinct(w.jobs, s'.cycle);
    forall job | job in w.jobs
      ensures JobInv(w, s', job, if job.Due(s'.cycle) then Sleeping else Cancelled)
    {
      AtRest(w, s, job);
      JobStartsCycle(w, s, job);
    }
    forall job | job in w.jobs && !IsGoroutineOf(s'.gs, job.id) ensures !job.Due(s'.cycle) {
      assert job.Due(s'.cycle) ==> Goroutine(job, Sleeping) in s'.gs;
    }
  }

  lemma StepKeepsInv(w: Settings, s: System, a: Action)
    requires Inv(w, s) && Enabled(w, s, a)
    ensures Inv(w, Next(w, s, a))
  {
    match a
    case Go(i, ch) => GoKeepsInv(w, s, i, ch, Next(w, s, a));
    case NextCycle => NextCycleKeepsInv(w, s);
  }

  lemma {:induction false} RunKeepsInv(w: Settings, s: System, actions: seq<Action>)
    requires Inv(w, s) && Legal(w, s, actions)
    ensures Inv(w, Exec(w, s, actions))
    decreases |actions|
  {
    if |actions| > 0 {
      StepKeepsInv(w, s, actions[0]);
      RunKeepsInv(w, Next(w, s, actions[0]), actions[1..]);
    }
  }

  lemma InitialInv(w: Settings)
    requires DistinctJobs(w.jobs)
    ensures Inv(w, INITIAL)
  {
  }

  /** In every reachable state the stored record is the declared function of the spec's
      history; its status is Failing exactly when the latest run end in that history is a
      failure run. */
  lemma StoreIsHistory(w: Settings, actions: seq<Action>, job: Job)
    requires DistinctJobs(w.jobs) && Legal(w, INITIAL, actions) && job in w.jobs
    ensures var s := Exec(w, INITIAL, actions);
      var h, entry := Hist(s.hist, job.id), Entry(s.store, job.id);
      && Core(entry) == Declared(h, job.policy)
      && (entry.status == Failing <==> LatestRunEndIsFailure(h, job.policy))
  {
    var s := Exec(w, INITIAL, actions);
    InitialInv(w);
    RunKeepsInv(w, INITIAL, actions);
    var h := Hist(s.hist, job.id);
    assert exists pc :: JobInv(w, s, job, pc) by {
      JobHasInv(w, s, job);
    }
    CountersRefineHistory(h, job.policy);
    StatusIsLatestRunEnd(h, job.policy);
  }

  lemma JobHasInv(w: Settings, s: System, job: Job)
    requires Inv(w, s) && job in w.jobs
    ensures exists pc :: JobInv(w, s, job, pc)
  {
    if IsGoroutineOf(s.gs, job.id) {
      var i :| 0 <= i < |s.gs| && s.gs[i].job.id == job.id;
      var k :| 0 <= k < |w.jobs| && w.jobs[k] == job;
      var m :| 0 <= m < |w.jobs| && w.jobs[m] == s.gs[i].job;
      assert k == m;
      assert JobInv(w, s, job, s.gs[i].pc);
    } else {
      assert JobInv(w, s, job, Cancelled);
    }
  }

  lemma SentAlternates(w: Settings, s: System, job: Job, pc: Pc)
    requires JobInv(w, s, job, pc)
    ensures Alternates(NoticesFor(s.log, job.id))
    ensures !pc.Committed? ==> NoticesFor(s.log, job.id) == Emitted(Hist(s.hist, job.id), job.policy)
  {
    var h, sent := Hist(s.hist, job.id), NoticesFor(s.log, job.id);
    NotificationsAlternate(h, job.policy);
    assert forall k :: 0 <= k < |sent| ==> sent[k] == Emitted(h, job.policy)[k];
    assert sent + [] == sent;
  }

  /** In every reachable state the notifications sent for a spec alternate, starting with
      a failure; at the barrier one is outstanding exactly while the store says Failing. */
  lemma LogAlternates(w: Settings, actions: seq<Action>, s: System, job: Job)
    requires DistinctJobs(w.jobs) && Legal(w, INITIAL, actions) && job in w.jobs
    requires s == Exec(w, INITIAL, actions)
    ensures Alternates(NoticesFor(s.log, job.id))
    ensures var sent := NoticesFor(s.log, job.id);
      AllFinished(s.gs) ==>
        Count(sent, FailureTransition) - Count(sent, RecoveryTransition)
        == if Entry(s.store, job.id).status == Failing then 1 else 0
  {
    InitialInv(w);
    RunKeepsInv(w, INITIAL, actions);
    JobHasInv(w, s, job);
    var pc :| JobInv(w, s, job, pc);
    SentAlternates(w, s, job, pc);
    if AllFinished(s.gs) {
      AtRest(w, s, job);
      SentAlternates(w, s, job, Cancelled);
      OutstandingFailures(Hist(s.hist, job.id), job.policy);
    }
  }

  /** Whatever the timing, at the barrier something has been sent for a spec exactly when a
      full failure run ended in its history. */
  lemma SpecAlarmsIffRunEnds(w: Settings, actions: seq<Action>, s: System, job: Job)
    requires DistinctJobs(w.jobs) && Legal(w, INITIAL, actions) && job in w.jobs
    requires s == Exec(w, INITIAL, actions) && AllFinished(s.gs)
    ensures NoticesFor(s.log, job.id) != [] <==> exists m :: FailureRunEndsAt(Hist(s.hist, job.id), m, job.policy)
  {
    InitialInv(w);
    RunKeepsInv(w, INITIAL, actions);
    AtRest(w, s, job);
    SentAlternates(w, s, job, Cancelled);
    EmitsIffRunEnds(Hist(s.hist, job.id), job.policy);
  }

  /** Histories only grow. */
  lemma {:induction false} HistoryPrefix(w: Settings, s: System, actions: seq<Action>, id: string)
    requires Legal(w, s, actions)
    ensures Hist(s.hist, id) <= Hist(Exec(w, s, actions).hist, id)
    decreases |actions|
  {
    hide Complete;
    if |actions| > 0 {
      HistoryPrefix(w, Next(w, s, actions[0]), actions[1..], id);
    }
  }

  /** At the barrier after n cycles an active spec has completed exactly floor(n/k) checks,
      or one less if its goroutine of the first cycle was cancelled, which takes start
      jitter and stride 1. */
  lemma ChecksPerCycles(w: Settings, actions: seq<Action>, job: Job)
    requires DistinctJobs(w.jobs) && Legal(w, INITIAL, actions) && job in w.jobs
    requires AllFinished(Exec(w, INITIAL, actions).gs)
    ensures var s := Exec(w, INITIAL, actions);
      && |Hist(s.hist, job.id)| + Missed(s, job.id) == (if job.active then s.cycle / Stride(job.everyCycles) else 0)
      && (job.id in s.cancelled ==> MayMissFirst(w, job))
  {
    var s := Exec(w, INITIAL, actions);
    InitialInv(w);
    RunKeepsInv(w, INITIAL, actions);
    AtRest(w, s, job);
    RunsInFirstCycles(job.everyCycles, s.cycle);
  }

  predicate IsCancelling(s: System, a: Action, id: string) {
    a.Go? && a.choice.cancelled && a.i < |s.gs| && s.gs[a.i].job.id == id
  }

  /** What `cancelled` records: the specs for which some step was a cancellation. */
  predicate WasCancelled(w: Settings, s: System, actions: seq<Action>, id: string)
    requires Legal(w, s, actions)
    decreases |actions|
  {
    |actions| > 0
    && (IsCancelling(s, actions[0], id) || WasCancelled(w, Next(w, s, actions[0]), actions[1..], id))
  }

  lemma {:induction false} CancelledMeaning(w: Settings, s: System, actions: seq<Action>, id: string)
    requires Legal(w, s, actions)
    ensures id in Exec(w, s, actions).cancelled <==> id in s.cancelled || WasCancelled(w, s, actions, id)
    decreases |actions|
  {
    if |actions| > 0 {
      StepCancels(w, s, actions[0], id);
      CancelledMeaning(w, Next(w, s, actions[0]), actions[1..], id);
    }
  }

  lemma StepCancels(w: Settings, s: System, a: Action, id: string)
    requires Enabled(w, s, a)
    ensures id in Next(w, s, a).cancelled <==> id in s.cancelled || IsCancelling(s, a, id)
  {
  }
}
