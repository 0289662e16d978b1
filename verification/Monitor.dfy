/** The runner object (internal/monitor/runner.go): it counts cycles and drives the
    goroutines of each cycle against the shared store. */
module Monitor {
  import opened Cycles
  import opened Hysteresis
  import opened Runs
  import opened Schedule
  import opened SpecChecks
  import opened Specs
  import opened Staleness
  import opened States
  import opened Wrappers

  function JobOf(sp: Spec, interval: Duration): Job {
    Job(sp.ID(), sp.IsActive(), sp.EveryCycles(), Policy(sp.Cycles().failure, sp.Cycles().success, interval))
  }

  function JobsOf(specs: seq<Spec>, interval: Duration): (jobs: seq<Job>)
    ensures |jobs| == |specs| && forall i :: 0 <= i < |jobs| ==> jobs[i] == JobOf(specs[i], interval)
  {
    seq(|specs|, i requires 0 <= i < |specs| => JobOf(specs[i], interval))
  }

  function SettingsOf(specs: seq<Spec>, interval: Duration, jitter: Duration, hash: string -> nat): Settings {
    Settings(JobsOf(specs, interval), jitter, hash)
  }

  /** How many steps the goroutines still have to take. */
  function StepsLeft(gs: seq<Goroutine>): nat {
    if |gs| == 0 then 0 else StepsLeft(gs[..|gs| - 1]) + gs[|gs| - 1].pc.StepsLeft()
  }

  lemma {:induction false} StepTaken(gs: seq<Goroutine>, i: nat, g: Goroutine)
    requires i < |gs| && g.pc.StepsLeft() < gs[i].pc.StepsLeft()
    ensures StepsLeft(gs[i := g]) < StepsLeft(gs)
  {
    var last := |gs| - 1;
    if i < last {
      StepTaken(gs[..last], i, g);
      assert gs[i := g][..last] == gs[..last][i := g];
    } else {
      assert gs[i := g][..last] == gs[..last];
    }
  }

  ghost predicate SequentialInAnyOrder(store0: StateMap, gs: seq<Goroutine>, store: StateMap)
    requires AllFinished(gs)
  {
    forall order :: IsOrderOf(order, |gs|) ==> store == AloneInOrder(store0, gs, order)
  }

  lemma CycleInAnyOrder(w: Settings, s: System, actions: seq<Action>, s': System)
    requires DistinctJobs(w.jobs) && IsCycle(w, s, actions, s')
    ensures SequentialInAnyOrder(s.store, s'.gs, s'.store)
  {
    forall order | IsOrderOf(order, |s'.gs|) ensures s'.store == AloneInOrder(s.store, s'.gs, order) {
      EveryInterleavingIsSequential(w, s, actions, s', order);
    }
  }

  predicate OneOutstandingIffFailing(store: StateMap, sent: seq<Notification>, id: string) {
    var notices := NoticesFor(sent, id);
    && Alternates(notices)
    && Count(notices, FailureTransition) - Count(notices, RecoveryTransition)
       == if Entry(store, id).status == Failing then 1 else 0
  }

  class Runner {
    const specs: seq<Spec>
    const interval: Duration
    const jitter: Duration
    const hash: string -> nat
    const store: InMemoryStore
    var cycleNumber: nat

    constructor (specs: seq<Spec>, interval: Duration, jitter: Duration, hash: string -> nat, store: InMemoryStore)
      ensures this.specs == specs && this.interval == interval && this.jitter == jitter
      ensures this.hash == hash && this.store == store && cycleNumber == 0
    {
      this.specs, this.interval, this.jitter := specs, interval, jitter;
      this.hash, this.store, this.cycleNumber := hash, store, 0;
    }

    function Setup(): Settings {
      SettingsOf(specs, interval, jitter, hash)
    }

    method GetOrFirst(id: string) returns (state: SpecState)
      ensures state == Entry(store.states, id)
    {
      var found := store.Get(id);
      state := if found.Some? then found.value else FIRST_STATE;
    }

    method MarkCycleStarted(job: Job, startedAt: Time)
      modifies store
      ensures store.states == old(store.states)[job.id := Entry(old(store.states), job.id).(startedAt := startedAt)]
    {
      var current := GetOrFirst(job.id);
      store.Set(job.id, current.(startedAt := startedAt));
    }

    method HandleCycleResult(job: Job, c: Completion, startedAt: Time) returns (transition: Transition)
      modifies store
      ensures var before := Entry(old(store.states), job.id);
        && store.states == old(store.states)[job.id := ResultRecord(before, startedAt, c, job.policy)]
        && transition == Complete(before, c, job.policy).1
    {
      var current := GetOrFirst(job.id);
      var reset := ResetStale(current, c.at, job.policy.interval);
      var (next, t) := ApplyCycleResult(reset, c.ok, job.policy.F(), job.policy.S());
      store.Set(job.id, next.(startedAt := startedAt, completedAt := c.at));
      transition := t;
    }

    /** One goroutine from start to end with nothing in between, as the source reads: by
        `Cycles.UninterruptedIsAlone` the steps that `Go` takes one at a time, because others
        may come between, amount to the same. */
    method RunAlone(g: Goroutine)
      requires g.pc.Finished()
      modifies store
      ensures store.states == Alone(old(store.states), g)
    {
      if g.pc.Done? {
        MarkCycleStarted(g.job, g.pc.startedAt);
        var _ := HandleCycleResult(g.job, g.pc.completion, g.pc.startedAt);
      }
    }

    /** One atomic step of goroutine `i` of `s`, on the store. */
    method Go(ghost s: System, i: nat, g: Goroutine, ch: Choice) returns (pc: Pc, sent: seq<Notification>)
      requires CanGo(Setup(), s, i, ch) && g == s.gs[i] && s.store == store.states
      modifies store
      ensures var s' := Advance(Setup(), s, i, ch);
        && s'.store == store.states && s'.log == s.log + sent
        && s'.gs == s.gs[i := g.(pc := pc)]
      ensures pc.StepsLeft() < g.pc.StepsLeft()
    {
      sent := [];
      match g.pc
      case Sleeping =>
        pc := if ch.cancelled then Cancelled else Awake(ch.now);
      case Awake(startedAt) =>
        var current := GetOrFirst(g.job.id);
        pc := ReadForStart(startedAt, current);
      case ReadForStart(startedAt, cached) =>
        store.Set(g.job.id, cached.(startedAt := startedAt));
        pc := Marked(startedAt);
      case Marked(startedAt) =>
        pc := Checked(startedAt, Completion(ch.now, ch.ok));
      case Checked(startedAt, c) =>
        var current := GetOrFirst(g.job.id);
        pc := ReadForResult(startedAt, c, current);
      case ReadForResult(startedAt, c, cached) =>
        var (next, t) := Complete(cached, c, g.job.policy);
        store.Set(g.job.id, next.(startedAt := startedAt));
        pc := Committed(startedAt, c, t);
      case Committed(startedAt, c, t) =>
        sent := Announcement(g.job.id, t);
        pc := Done(startedAt, c);
    }

    /** What `s` records of this object: `s` is the state machine's view of it, with the
        goroutines `gs`. */
    ghost predicate Views(s: System, gs: seq<Goroutine>, clock: Time)
      reads this, store
    {
      s.cycle == cycleNumber && s.store == store.states && s.gs == gs && s.clock <= clock
    }

    /** Any unfinished goroutine takes its next step, whatever the environment decides:
        a step of the state machine. */
    method StepAny(ghost s: System, gs: seq<Goroutine>, clock: Time)
      returns (gs': seq<Goroutine>, clock': Time, sent: seq<Notification>, ghost action: Action)
      requires Views(s, gs, clock) && !AllFinished(gs)
      modifies store
      ensures action.Go? && Enabled(Setup(), s, action)
      ensures var s' := Next(Setup(), s, action); Views(s', gs', clock') && s'.log == s.log + sent
      ensures StepsLeft(gs') < StepsLeft(gs)
    {
      var i: nat :| i < |gs| && !gs[i].pc.Finished();
      var ch := ChooseNext(gs[i], clock);
      action := Action.Go(i, ch);
      var pc;
      pc, sent := Go(s, i, gs[i], ch);
      gs', clock' := gs[i := gs[i].(pc := pc)], ch.now;
      StepTaken(gs, i, gs[i].(pc := pc));
    }

    /** The due specs of the current cycle, each with a goroutine that has yet to start. */
    method SpawnDue(jobs: seq<Job>) returns (gs: seq<Goroutine>)
      ensures gs == Spawn(jobs, cycleNumber)
    {
      gs := [];
      for k := 0 to |jobs|
        invariant gs == Spawn(jobs[..k], cycleNumber)
      {
        assert jobs[..k + 1][..k] == jobs[..k];
        if !jobs[k].active {
          continue;
        }
        if !ShouldRunInCycle(jobs[k].everyCycles, cycleNumber) {
          continue;
        }
        gs := gs + [Goroutine(jobs[k], Sleeping)];
      }
      assert jobs[..|jobs|] == jobs;
    }

    /** `wg.Wait()`: steps until every goroutine has finished. */
    method Wait(ghost s: System, spawned: seq<Goroutine>, startedAt: Time)
      returns (gs: seq<Goroutine>, clock: Time, sent: seq<Notification>, ghost actions: seq<Action>)
      requires Views(s, spawned, startedAt)
      modifies store
      ensures AllFinished(gs)
      ensures Legal(Setup(), s, actions) && NextCycle !in actions
      ensures var s' := Exec(Setup(), s, actions); Views(s', gs, clock) && s'.log == s.log + sent
    {
      hide Advance, CanGo, StepsLeft, JobsOf;
      gs, clock, sent, actions := spawned, startedAt, [], [];
      while !AllFinished(gs)
        invariant Legal(Setup(), s, actions) && NextCycle !in actions
        invariant Views(Exec(Setup(), s, actions), gs, clock)
        invariant Exec(Setup(), s, actions).log == s.log + sent
        decreases StepsLeft(gs)
      {
        var notices;
        ghost var action;
        gs, clock, notices, action := StepAny(Exec(Setup(), s, actions), gs, clock);
        ExecConcat(Setup(), s, actions, [action]);
        sent, actions := sent + notices, actions + [action];
      }
    }

    /** One cycle, under a schedule and an environment left entirely open: a cycle of the
        state machine. When all goroutines have finished, the store is that of the
        goroutines run one after another, in any order. */
    method RunCycle(ghost s: System, startedAt: Time)
      returns (gs: seq<Goroutine>, clock: Time, sent: seq<Notification>, ghost actions: seq<Action>)
      requires Views(s, s.gs, startedAt) && AllFinished(s.gs)
      modifies this`cycleNumber, store
      ensures cycleNumber == old(cycleNumber) + 1
      ensures Legal(Setup(), Next(Setup(), s, NextCycle), actions)
      ensures var s' := Exec(Setup(), Next(Setup(), s, NextCycle), actions);
        && IsCycle(Setup(), s, actions, s')
        && Views(s', gs, clock) && s'.log == s.log + sent
      ensures DistinctJobs(JobsOf(specs, interval)) ==>
                SequentialInAnyOrder(old(store.states), gs, store.states)
    {
      cycleNumber := cycleNumber + 1;
      var spawned := SpawnDue(JobsOf(specs, interval));
      ghost var s1 := Next(Setup(), s, NextCycle);
      gs, clock, sent, actions := Wait(s1, spawned, startedAt);
      if DistinctJobs(JobsOf(specs, interval)) {
        CycleInAnyOrder(Setup(), s, actions, Exec(Setup(), s1, actions));
      }
    }

    /** The whole run of a new runner: a cycle at once, and one at every tick that comes
        before the context is cancelled. For specs with distinct IDs the store and the
        notifications agree: a spec is Failing exactly while one of its failures has been
        announced and not yet its recovery. */
    method Run(ticks: nat, startedAt: Time) returns (sent: seq<Notification>, ghost actions: seq<Action>)
      requires cycleNumber == 0 && store.states == map[] && startedAt >= NEVER
      modifies this`cycleNumber, store
      ensures cycleNumber == ticks + 1
      ensures Legal(Setup(), INITIAL, actions)
      ensures var s := Exec(Setup(), INITIAL, actions);
        s.store == store.states && s.log == sent && s.cycle == cycleNumber && AllFinished(s.gs)
      ensures DistinctJobs(JobsOf(specs, interval)) ==>
                forall k :: 0 <= k < |specs| ==> OneOutstandingIffFailing(store.states, sent, specs[k].ID())
    {
      var gs, clock;
      gs, clock, sent, actions := RunCycle(INITIAL, startedAt);
      actions := [NextCycle] + actions;
      for tick := 0 to ticks
        invariant cycleNumber == tick + 1 && AllFinished(gs)
        invariant Legal(Setup(), INITIAL, actions)
        invariant Views(Exec(Setup(), INITIAL, actions), gs, clock)
        invariant Exec(Setup(), INITIAL, actions).log == sent
      {
        ghost var s := Exec(Setup(), INITIAL, actions);
        var notices;
        ghost var more;
        gs, clock, notices, more := RunCycle(s, clock);
        ExecConcat(Setup(), INITIAL, actions, [NextCycle] + more);
        sent, actions := sent + notices, actions + ([NextCycle] + more);
      }
      if DistinctJobs(JobsOf(specs, interval)) {
        forall k | 0 <= k < |specs| ensures OneOutstandingIffFailing(store.states, sent, specs[k].ID()) {
          var job := Setup().jobs[k];
          LogAlternates(Setup(), actions, Exec(Setup(), INITIAL, actions), job);
        }
      }
    }

    /** What the environment does next; any legal choice will do. */
    method ChooseNext(g: Goroutine, clock: Time) returns (ch: Choice)
      ensures clock <= ch.now
      ensures ch.cancelled ==> g.pc.Sleeping? && Setup().StartDelay(g.job, cycleNumber) > 0
    {
      var now: Time :| clock <= now;
      var ok: bool :| true;
      var cancelled: bool :| cancelled ==> g.pc.Sleeping? && Setup().StartDelay(g.job, cycleNumber) > 0;
      ch := Choice(now, cancelled, ok);
    }
  }

  // ---------- Accepted specs ----------

  /** The premise of every theorem about cycles and runs holds of every spec list that
      parsing accepts. */
  lemma AcceptedSpecsHaveDistinctJobs(specs: seq<Spec>, interval: Duration, lower: string -> string)
    requires Accepted(specs, lower)
    ensures DistinctJobs(JobsOf(specs, interval))
  {
    AcceptedIDs(specs, lower);
  }

  /** End to end: for accepted specs, in every state the monitor can reach, each spec's
      stored status is Failing exactly when its own history says so. */
  lemma AcceptedSpecsMonitored(w: Settings, specs: seq<Spec>, interval: Duration, lower: string -> string,
                               actions: seq<Action>, k: nat)
    requires Accepted(specs, lower) && k < |specs|
    requires w.jobs == JobsOf(specs, interval) && Legal(w, INITIAL, actions)
    ensures var s, job := Exec(w, INITIAL, actions), JobOf(specs[k], interval);
      Entry(s.store, specs[k].ID()).status == Failing
      <==> LatestRunEndIsFailure(Hist(s.hist, specs[k].ID()), job.policy)
  {
    AcceptedSpecsHaveDistinctJobs(specs, interval, lower);
    assert w.jobs[k] in w.jobs;
    StoreIsHistory(w, actions, w.jobs[k]);
  }
}
