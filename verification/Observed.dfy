/** What a run of the monitor shows from outside: the checks its steps complete, the
    goroutines of each cycle, and the times in the store. None of it is read off the
    model's own bookkeeping. */
module Observed {
  import opened Cycles
  import opened Hysteresis
  import opened Runs
  import opened Schedule
  import opened States
  import opened Text
  import opened Wrappers

  // ---------- Checks ----------

  /** A step in which the check of a spec returns. */
  predicate Returns(s: System, a: Action, id: string) {
    a.Go? && a.i < |s.gs| && s.gs[a.i].job.id == id && s.gs[a.i].pc.Marked?
  }

  /** The results the environment gave to the checks of a spec, oldest first. */
  function ChecksOf(w: Settings, s: System, actions: seq<Action>, id: string): History
    requires Legal(w, s, actions)
    decreases |actions|
  {
    if |actions| == 0 then []
    else
      (if Returns(s, actions[0], id) then [Completion(actions[0].choice.now, actions[0].choice.ok)] else [])
      + ChecksOf(w, Next(w, s, actions[0]), actions[1..], id)
  }

  /** A check that has returned and is not committed yet. */
  function Pending(pc: Pc): History {
    if pc.Checked? || pc.ReadForResult? then [pc.completion] else []
  }

  ghost predicate Recorded(s: System, id: string, seen: History) {
    && (forall i :: 0 <= i < |s.gs| && s.gs[i].job.id == id ==> seen == Hist(s.hist, id) + Pending(s.gs[i].pc))
    && (!IsGoroutineOf(s.gs, id) ==> seen == Hist(s.hist, id))
  }

  lemma OwnStepRecords(w: Settings, s: System, i: nat, ch: Choice, seen: History)
    requires CanGo(w, s, i, ch) && seen == Hist(s.hist, s.gs[i].job.id) + Pending(s.gs[i].pc)
    ensures var s', id := Advance(w, s, i, ch), s.gs[i].job.id;
      seen + (if Returns(s, Action.Go(i, ch), id) then [Completion(ch.now, ch.ok)] else [])
      == Hist(s'.hist, id) + Pending(s'.gs[i].pc)
  {
    hide Complete, ResultRecord, Announcement, Settings.StartDelay;
  }

  lemma GoRecords(w: Settings, s: System, i: nat, ch: Choice, id: string, seen: History)
    requires CanGo(w, s, i, ch) && DistinctGoroutines(s.gs) && Recorded(s, id, seen)
    ensures Recorded(Advance(w, s, i, ch), id,
                     seen + (if Returns(s, Action.Go(i, ch), id) then [Completion(ch.now, ch.ok)] else []))
  {
    hide Advance, Pending;
    AdvanceShape(w, s, i, ch);
    var s' := Advance(w, s, i, ch);
    if s.gs[i].job.id == id {
      OwnStepRecords(w, s, i, ch, seen);
      assert s'.gs[i].job.id == id;
    } else {
      EmptyRight(seen);
      OthersShape(w, s, i, ch, id);
      assert IsGoroutineOf(s.gs, id) ==> IsGoroutineOf(s'.gs, id) by {
        if j :| 0 <= j < |s.gs| && s.gs[j].job.id == id {
          assert s'.gs[j].job.id == id;
        }
      }
    }
  }

  lemma NextCycleRecords(w: Settings, s: System, id: string, seen: History)
    requires AllFinished(s.gs) && Recorded(s, id, seen)
    ensures Recorded(Next(w, s, NextCycle), id, seen)
  {
    RecordedAtRest(s, id, seen);
    EmptyRight(seen);
  }

  lemma {:induction false} RunRecords(w: Settings, s: System, actions: seq<Action>, id: string, seen: History)
    requires Inv(w, s) && Legal(w, s, actions) && Recorded(s, id, seen)
    ensures Recorded(Exec(w, s, actions), id, seen + ChecksOf(w, s, actions, id))
    decreases |actions|
  {
    hide Advance, Recorded, JobInv, CanGo;
    if |actions| == 0 {
      EmptyRight(seen);
    } else {
      var s', a := Next(w, s, actions[0]), actions[0];
      StepKeepsInv(w, s, a);
      var now := if Returns(s, a, id) then [Completion(a.choice.now, a.choice.ok)] else [];
      if a.Go? {
        GoRecords(w, s, a.i, a.choice, id, seen);
      } else {
        NextCycleRecords(w, s, id, seen);
        EmptyRight(seen);
      }
      RunRecords(w, s', actions[1..], id, seen + now);
      Assoc(seen, now, ChecksOf(w, s', actions[1..], id));
    }
  }

  /** At the barrier the history of a spec is what its checks returned, and when. */
  lemma HistoryIsObserved(w: Settings, actions: seq<Action>, id: string)
    requires DistinctJobs(w.jobs) && Legal(w, INITIAL, actions) && AllFinished(Exec(w, INITIAL, actions).gs)
    ensures Hist(Exec(w, INITIAL, actions).hist, id) == ChecksOf(w, INITIAL, actions, id)
  {
    hide Legal, Exec, ChecksOf, Inv;
    InitialInv(w);
    NothingRecorded(id);
    RunRecords(w, INITIAL, actions, id, []);
    EmptyLeft(ChecksOf(w, INITIAL, actions, id));
    RecordedAtRest(Exec(w, INITIAL, actions), id, ChecksOf(w, INITIAL, actions, id));
  }

  lemma NothingRecorded(id: string)
    ensures Recorded(INITIAL, id, [])
  {
  }

  lemma RecordedAtRest(s: System, id: string, seen: History)
    requires AllFinished(s.gs) && Recorded(s, id, seen)
    ensures seen == Hist(s.hist, id)
  {
    EmptyRight(Hist(s.hist, id));
    if IsGoroutineOf(s.gs, id) {
      var i :| 0 <= i < |s.gs| && s.gs[i].job.id == id;
      assert s.gs[i].pc.Finished();
    }
  }

  // ---------- Goroutines ----------

  predicate HasGoroutine(s: System, id: string) {
    exists i :: 0 <= i < |s.gs| && s.gs[i].job.id == id
  }

  ghost predicate GoroutinesOfCycle(w: Settings, s: System) {
    if s.cycle == 0 then s.gs == [] else SameJobs(s.gs, Spawn(w.jobs, s.cycle))
  }

  lemma {:induction false} RunKeepsGoroutines(w: Settings, s: System, actions: seq<Action>)
    requires Legal(w, s, actions) && GoroutinesOfCycle(w, s)
    ensures GoroutinesOfCycle(w, Exec(w, s, actions))
    decreases |actions|
  {
    hide Advance, Spawn;
    if |actions| > 0 {
      if actions[0].Go? {
        AdvanceShape(w, s, actions[0].i, actions[0].choice);
      }
      RunKeepsGoroutines(w, Next(w, s, actions[0]), actions[1..]);
    }
  }

  /** In every state exactly the specs that are due in its cycle have a goroutine. */
  lemma GoroutineIffDue(w: Settings, actions: seq<Action>, job: Job)
    requires DistinctJobs(w.jobs) && Legal(w, INITIAL, actions) && job in w.jobs
    ensures var s := Exec(w, INITIAL, actions);
      HasGoroutine(s, job.id) <==> s.cycle >= 1 && job.Due(s.cycle)
  {
    RunKeepsGoroutines(w, INITIAL, actions);
    var s := Exec(w, INITIAL, actions);
    if s.cycle >= 1 {
      var spawned := Spawn(w.jobs, s.cycle);
      if job.Due(s.cycle) {
        assert Goroutine(job, Sleeping) in spawned;
        var i :| 0 <= i < |spawned| && spawned[i] == Goroutine(job, Sleeping);
        assert s.gs[i].job.id == job.id;
      }
      if i :| 0 <= i < |s.gs| && s.gs[i].job.id == job.id {
        assert s.gs[i].job == spawned[i].job;
        SameIdSameJob(w, s.gs[i].job, job);
      }
    }
  }

  /** A spec that is not active leaves no trace in the store. */
  lemma {:induction false} InactiveNotStored(w: Settings, s: System, actions: seq<Action>, job: Job)
    requires Inv(w, s) && Legal(w, s, actions) && job in w.jobs && !job.active && job.id !in s.store
    ensures job.id !in Exec(w, s, actions).store
    decreases |actions|
  {
    hide Advance, JobInv;
    if |actions| > 0 {
      var s' := Next(w, s, actions[0]);
      StepKeepsInv(w, s, actions[0]);
      if actions[0].Go? {
        var i := actions[0].i;
        AdvanceShape(w, s, i, actions[0].choice);
        if s.gs[i].job.id == job.id {
          SameIdSameJob(w, s.gs[i].job, job);
        }
        assert Lookup(s'.store, job.id) == Lookup(s.store, job.id);
      }
      InactiveNotStored(w, s', actions[1..], job);
    }
  }

  // ---------- Times ----------

  /** A goroutine's own times, in order, since the cycle began at `begin`. */
  predicate TimesInOrder(pc: Pc, begin: Time, clock: Time) {
    match pc
    case Sleeping => true
    case Cancelled => true
    case Awake(startedAt) => begin <= startedAt <= clock
    case ReadForStart(startedAt, _) => begin <= startedAt <= clock
    case Marked(startedAt) => begin <= startedAt <= clock
    case Checked(startedAt, c) => begin <= startedAt <= c.at <= clock
    case ReadForResult(startedAt, c, _) => begin <= startedAt <= c.at <= clock
    case Committed(startedAt, c, _) => begin <= startedAt <= c.at <= clock
    case Done(startedAt, c) => begin <= startedAt <= c.at <= clock
  }

  predicate AllTimesInOrder(gs: seq<Goroutine>, begin: Time, clock: Time) {
    begin <= clock && forall i :: 0 <= i < |gs| ==> TimesInOrder(gs[i].pc, begin, clock)
  }

  lemma StepTimes(w: Settings, s: System, i: nat, ch: Choice, begin: Time)
    requires CanGo(w, s, i, ch) && TimesInOrder(s.gs[i].pc, begin, s.clock) && begin <= s.clock
    ensures var s' := Advance(w, s, i, ch); s'.clock == ch.now && TimesInOrder(s'.gs[i].pc, begin, s'.clock)
  {
    hide Complete, ResultRecord, Announcement, Settings.StartDelay, Entry, Hist;
  }

  lemma {:induction false} CycleKeepsTimes(w: Settings, s: System, actions: seq<Action>, begin: Time)
    requires Legal(w, s, actions) && NextCycle !in actions && AllTimesInOrder(s.gs, begin, s.clock)
    ensures var s' := Exec(w, s, actions); AllTimesInOrder(s'.gs, begin, s'.clock)
    decreases |actions|
  {
    hide Advance;
    if |actions| > 0 {
      var a, s' := actions[0], Next(w, s, actions[0]);
      assert a in actions;
      AdvanceShape(w, s, a.i, a.choice);
      StepTimes(w, s, a.i, a.choice, begin);
      forall j | 0 <= j < |s'.gs| ensures TimesInOrder(s'.gs[j].pc, begin, s'.clock) {
        assert j != a.i ==> s'.gs[j] == s.gs[j];
      }
      CycleKeepsTimes(w, s', actions[1..], begin);
    }
  }

  lemma RecordTimes(current: SpecState, startedAt: Time, c: Completion, p: Policy)
    ensures ResultRecord(current, startedAt, c, p).startedAt == startedAt
    ensures ResultRecord(current, startedAt, c, p).completedAt == c.at
  {
  }

  /** After a cycle the entry of every spec that was checked in it says when its goroutine
      started and when its check completed, both within the cycle and in this order. */
  lemma CycleTimes(w: Settings, s: System, actions: seq<Action>, s': System, i: nat)
    requires DistinctJobs(w.jobs) && IsCycle(w, s, actions, s') && i < |s'.gs| && s'.gs[i].pc.Done?
    ensures s'.gs[i].job.id in s'.store
    ensures var entry, pc := s'.store[s'.gs[i].job.id], s'.gs[i].pc;
      entry.startedAt == pc.startedAt && entry.completedAt == pc.completion.at
    ensures s.clock <= s'.gs[i].pc.startedAt <= s'.gs[i].pc.completion.at <= s'.clock
  {
    hide Spawn, ResultRecord, Advance, StoreFollows, AllTimesInOrder, Legal, Exec;
    var s1, g := Next(w, s, NextCycle), s'.gs[i];
    SpawnDistinct(w.jobs, s.cycle + 1);
    SpawnFollows(w.jobs, s.cycle + 1, s.store);
    CycleFollows(w, s.store, s1, actions);
    SpawnInOrder(w.jobs, s.cycle + 1, s.clock);
    CycleKeepsTimes(w, s1, actions, s.clock);
    DoneTimes(s'.gs, i, s.clock, s'.clock);
    DoneEntry(s.store, s'.gs, s'.store, i);
  }

  lemma SpawnInOrder(jobs: seq<Job>, cycle: nat, clock: Time)
    ensures AllTimesInOrder(Spawn(jobs, cycle), clock, clock)
  {
  }

  lemma DoneTimes(gs: seq<Goroutine>, i: nat, begin: Time, clock: Time)
    requires AllTimesInOrder(gs, begin, clock) && i < |gs| && gs[i].pc.Done?
    ensures begin <= gs[i].pc.startedAt <= gs[i].pc.completion.at <= clock
  {
  }

  lemma DoneEntry(store0: StateMap, gs: seq<Goroutine>, store: StateMap, i: nat)
    requires StoreFollows(store0, gs, store) && i < |gs| && gs[i].pc.Done?
    ensures gs[i].job.id in store
    ensures store[gs[i].job.id].startedAt == gs[i].pc.startedAt
    ensures store[gs[i].job.id].completedAt == gs[i].pc.completion.at
  {
    hide ResultRecord;
    var g, base := gs[i], Lookup(store0, gs[i].job.id);
    assert Lookup(store, g.job.id) == Progress(g, base);
    var first := if base.Some? then base.value else FIRST_STATE;
    RecordTimes(first.(startedAt := g.pc.startedAt), g.pc.startedAt, g.pc.completion, g.job.policy);
  }

  // ---------- Start delays ----------

  /** In the first cycle the goroutine of a spec whose hash asks for a delay can be
      cancelled. */
  lemma FirstCheckMayBeCancelled(w: Settings, job: Job, now: Time)
    requires DistinctJobs(w.jobs) && job in w.jobs && job.Due(1) && w.jitter > 0 && now >= NEVER
    requires w.hash(job.id) % 0x1_0000_0000_0000_0000 % w.jitter > 0
    ensures var s := Next(w, INITIAL, NextCycle);
      exists i: nat :: i < |s.gs| && s.gs[i].job == job && CanGo(w, s, i, Choice(now, true, false))
                && Advance(w, s, i, Choice(now, true, false)).gs[i].pc == Cancelled
  {
    var s := Next(w, INITIAL, NextCycle);
    assert Goroutine(job, Sleeping) in s.gs;
    var i :| 0 <= i < |s.gs| && s.gs[i] == Goroutine(job, Sleeping);
    assert CanGo(w, s, i, Choice(now, true, false));
  }
}
