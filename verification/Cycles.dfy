/** Monitoring cycles as a state machine (internal/monitor/runner.go:78-192). A cycle
    starts one goroutine per due spec and waits for all of them; each goroutine sleeps,
    marks its start with a Get and a Set, checks, and commits its result with another Get
    and Set. Every arrow below is one atomic step, so the sequences of actions are the
    interleavings. */
module Cycles {
  import opened Hysteresis
  import opened Schedule
  import opened Staleness
  import opened States
  import opened Wrappers

  /** What the runner reads off a spec: its store key, whether and when it runs, and its
      thresholds with the runner's interval. */
  datatype Job = Job(id: string, active: bool, everyCycles: int, policy: Policy) {
    predicate Due(cycle: nat) {
      active && ShouldRunInCycle(everyCycles, cycle)
    }
  }

  /** `hash` is the 64-bit hash behind the start jitter. */
  datatype Settings = Settings(jobs: seq<Job>, jitter: Duration, hash: string -> nat) {
    function StartDelay(job: Job, cycle: nat): int {
      if jitter <= 0 || cycle != 1 then 0 else hash(job.id) % TWO_64 % jitter
    }
  }

  /** Where a goroutine is, with the locals it will still use. */
  datatype Pc =
    | Sleeping
    | Cancelled
    | Awake(startedAt: Time)
    | ReadForStart(startedAt: Time, cached: SpecState)
    | Marked(startedAt: Time)
    | Checked(startedAt: Time, completion: Completion)
    | ReadForResult(startedAt: Time, completion: Completion, cached: SpecState)
    | Committed(startedAt: Time, completion: Completion, transition: Transition)
    | Done(startedAt: Time, completion: Completion)
  {
    predicate Finished() { Cancelled? || Done? }
    predicate HasCommitted() { Committed? || Done? }

    function StepsLeft(): nat {
      match this
      case Sleeping => 7
      case Awake(_) => 6
      case ReadForStart(_, _) => 5
      case Marked(_) => 4
      case Checked(_, _) => 3
      case ReadForResult(_, _, _) => 2
      case Committed(_, _, _) => 1
      case _ => 0
    }
  }

  datatype Goroutine = Goroutine(job: Job, pc: Pc)

  datatype Notification = Notification(id: string, transition: Transition)

  /** `hist` records the completions committed for each spec, and `cancelled` the specs with
      a goroutine that was cancelled; no step reads them. */
  datatype System = System(
    cycle: nat,
    gs: seq<Goroutine>,
    store: StateMap,
    clock: Time,
    log: seq<Notification>,
    hist: map<string, History>,
    cancelled: set<string>)

  /** What the environment decides at a step: the time, whether the context is cancelled
      during the start delay, and the result of a check. */
  datatype Choice = Choice(now: Time, cancelled: bool, ok: bool)

  datatype Action = Go(i: nat, choice: Choice) | NextCycle

  // ---------- Steps ----------

  function Spawn(jobs: seq<Job>, cycle: nat): (gs: seq<Goroutine>)
    ensures forall i :: 0 <= i < |gs| ==> gs[i].pc == Sleeping && gs[i].job in jobs && gs[i].job.Due(cycle)
    ensures forall job :: job in jobs && job.Due(cycle) ==> Goroutine(job, Sleeping) in gs
  {
    if |jobs| == 0 then []
    else
      var last := jobs[|jobs| - 1];
      Spawn(jobs[..|jobs| - 1], cycle) + (if last.Due(cycle) then [Goroutine(last, Sleeping)] else [])
  }

  function Hist(hist: map<string, History>, id: string): History {
    if id in hist then hist[id] else []
  }

  /** The record written by `handleCycleResult`, from the record it read. */
  function ResultRecord(current: SpecState, startedAt: Time, c: Completion, p: Policy): SpecState {
    Complete(current, c, p).0.(startedAt := startedAt)
  }

  predicate CanGo(w: Settings, s: System, i: nat, ch: Choice) {
    && i < |s.gs| && !s.gs[i].pc.Finished() && s.clock <= ch.now
    && (ch.cancelled ==> s.gs[i].pc.Sleeping? && w.StartDelay(s.gs[i].job, s.cycle) > 0)
  }

  function Advance(w: Settings, s: System, i: nat, ch: Choice): System
    requires CanGo(w, s, i, ch)
  {
    var id, p := s.gs[i].job.id, s.gs[i].job.policy;
    match s.gs[i].pc
    case Sleeping =>
      if ch.cancelled then At(s, i, Cancelled, ch.now).(cancelled := s.cancelled + {id})
      else At(s, i, Awake(ch.now), ch.now)
    case Awake(startedAt) =>
      At(s, i, ReadForStart(startedAt, Entry(s.store, id)), ch.now)
    case ReadForStart(startedAt, cached) =>
      At(s, i, Marked(startedAt), ch.now).(store := s.store[id := cached.(startedAt := startedAt)])
    case Marked(startedAt) =>
      At(s, i, Checked(startedAt, Completion(ch.now, ch.ok)), ch.now)
    case Checked(startedAt, c) =>
      At(s, i, ReadForResult(startedAt, c, Entry(s.store, id)), ch.now)
    case ReadForResult(startedAt, c, cached) =>
      At(s, i, Committed(startedAt, c, Complete(cached, c, p).1), ch.now)
        .(store := s.store[id := ResultRecord(cached, startedAt, c, p)], hist := s.hist[id := Hist(s.hist, id) + [c]])
    case Committed(startedAt, c, transition) =>
      At(s, i, Done(startedAt, c), ch.now)
        .(log := s.log + Announcement(id, transition))
  }

  function Announcement(id: string, transition: Transition): seq<Notification> {
    if transition == NoTransition then [] else [Notification(id, transition)]
  }

  function At(s: System, i: nat, pc: Pc, now: Time): System
    requires i < |s.gs|
  {
    s.(gs := s.gs[i := s.gs[i].(pc := pc)], clock := now)
  }

  predicate AllFinished(gs: seq<Goroutine>) {
    forall i :: 0 <= i < |gs| ==> gs[i].pc.Finished()
  }

  predicate Enabled(w: Settings, s: System, a: Action) {
    match a
    case Go(i, ch) => CanGo(w, s, i, ch)
    case NextCycle => AllFinished(s.gs)
  }

  function Next(w: Settings, s: System, a: Action): System
    requires Enabled(w, s, a)
  {
    match a
    case Go(i, ch) => Advance(w, s, i, ch)
    case NextCycle => s.(cycle := s.cycle + 1, gs := Spawn(w.jobs, s.cycle + 1))
  }

  predicate Legal(w: Settings, s: System, actions: seq<Action>)
    decreases |actions|
  {
    |actions| == 0 || (Enabled(w, s, actions[0]) && Legal(w, Next(w, s, actions[0]), actions[1..]))
  }

  /** The system after an interleaving. */
  function Exec(w: Settings, s: System, actions: seq<Action>): System
    requires Legal(w, s, actions)
    decreases |actions|
  {
    if |actions| == 0 then s else Exec(w, Next(w, s, actions[0]), actions[1..])
  }

  /** An execution goes on from where its first part ends. */
  lemma {:induction false} ExecConcat(w: Settings, s: System, first: seq<Action>, second: seq<Action>)
    requires Legal(w, s, first) && Legal(w, Exec(w, s, first), second)
    ensures Legal(w, s, first + second)
    ensures Exec(w, s, first + second) == Exec(w, Exec(w, s, first), second)
    decreases |first|
  {
    if |first| == 0 {
      assert first + second == second;
    } else {
      ExecConcat(w, Next(w, s, first[0]), first[1..], second);
      assert (first + second)[1..] == first[1..] + second;
    }
  }

  lemma {:induction false} ExecSplit(w: Settings, s: System, first: seq<Action>, second: seq<Action>)
    requires Legal(w, s, first + second)
    ensures Legal(w, s, first) && Legal(w, Exec(w, s, first), second)
    decreases |first|
  {
    if |first| == 0 {
      assert first + second == second;
    } else {
      assert (first + second)[1..] == first[1..] + second;
      ExecSplit(w, Next(w, s, first[0]), first[1..], second);
    }
  }

  const INITIAL := System(0, [], map[], NEVER, [], map[], {})

  predicate DistinctJobs(jobs: seq<Job>) {
    forall i, j :: 0 <= i < j < |jobs| ==> jobs[i].id != jobs[j].id
  }

  predicate DistinctGoroutines(gs: seq<Goroutine>) {
    forall i, j :: 0 <= i < j < |gs| ==> gs[i].job.id != gs[j].job.id
  }

  lemma {:induction false} SpawnDistinct(jobs: seq<Job>, cycle: nat)
    requires DistinctJobs(jobs)
    ensures DistinctGoroutines(Spawn(jobs, cycle))
  {
    if |jobs| > 0 {
      var before := jobs[..|jobs| - 1];
      SpawnDistinct(before, cycle);
      forall i | 0 <= i < |Spawn(before, cycle)|
        ensures Spawn(before, cycle)[i].job.id != jobs[|jobs| - 1].id
      {
        assert Spawn(before, cycle)[i].job in before;
        var k :| 0 <= k < |before| && before[k] == Spawn(before, cycle)[i].job;
        assert jobs[k] == before[k];
      }
    }
  }

  // ---------- One cycle: every interleaving leaves the same store ----------

  /** One finished goroutine's work on a store, done without interruption. */
  function Alone(store: StateMap, g: Goroutine): StateMap
    requires g.pc.Finished()
  {
    if g.pc.Cancelled? then store
    else
      var id := g.job.id;
      var marked := store[id := Entry(store, id).(startedAt := g.pc.startedAt)];
      marked[id := ResultRecord(Entry(marked, id), g.pc.startedAt, g.pc.completion, g.job.policy)]
  }

  /** Goroutines done one after another, in the given order. */
  function AloneInOrder(store: StateMap, gs: seq<Goroutine>, order: seq<nat>): StateMap
    requires AllFinished(gs) && forall k :: 0 <= k < |order| ==> order[k] < |gs|
  {
    if |order| == 0 then store
    else
      var rest := order[..|order| - 1];
      Alone(AloneInOrder(store, gs, rest), gs[order[|order| - 1]])
  }

  predicate NoRepeats(order: seq<nat>) {
    forall k, m :: 0 <= k < m < |order| ==> order[k] != order[m]
  }

  predicate IsOrderOf(order: seq<nat>, n: nat) {
    && (forall k :: 0 <= k < |order| ==> order[k] < n)
    && (forall i :: 0 <= i < n ==> i in order)
    && NoRepeats(order)
  }

  /** The record of a goroutine's spec, from the record before the cycle. */
  function Progress(g: Goroutine, base: Option<SpecState>): Option<SpecState> {
    var first := if base.Some? then base.value else FIRST_STATE;
    match g.pc
    case Sleeping => base
    case Cancelled => base
    case Awake(_) => base
    case ReadForStart(_, _) => base
    case Marked(startedAt) => Some(first.(startedAt := startedAt))
    case Checked(startedAt, _) => Some(first.(startedAt := startedAt))
    case ReadForResult(startedAt, _, _) => Some(first.(startedAt := startedAt))
    case Committed(startedAt, c, _) => Some(ResultRecord(first.(startedAt := startedAt), startedAt, c, g.job.policy))
    case Done(startedAt, c) => Some(ResultRecord(first.(startedAt := startedAt), startedAt, c, g.job.policy))
  }

  predicate CacheIsCurrent(g: Goroutine, store: StateMap) {
    g.pc.ReadForStart? || g.pc.ReadForResult? ==> g.pc.cached == Entry(store, g.job.id)
  }

  predicate SameJobs(a: seq<Goroutine>, b: seq<Goroutine>) {
    |a| == |b| && forall i :: 0 <= i < |a| ==> a[i].job == b[i].job
  }

  predicate IsGoroutineOf(gs: seq<Goroutine>, id: string) {
    exists i :: 0 <= i < |gs| && gs[i].job.id == id
  }

  /** The store at any point of a cycle that started with `store0`. */
  ghost predicate StoreFollows(store0: StateMap, gs: seq<Goroutine>, store: StateMap) {
    && (forall i :: 0 <= i < |gs| ==>
          && Lookup(store, gs[i].job.id) == Progress(gs[i], Lookup(store0, gs[i].job.id))
          && CacheIsCurrent(gs[i], store))
    && (forall id :: !IsGoroutineOf(gs, id) ==> Lookup(store, id) == Lookup(store0, id))
  }

  /** A step moves one goroutine and touches the entry of its own spec only. */
  lemma AdvanceShape(w: Settings, s: System, i: nat, ch: Choice)
    requires CanGo(w, s, i, ch)
    ensures var s' := Advance(w, s, i, ch);
      && SameJobs(s'.gs, s.gs) && s'.cycle == s.cycle
      && (forall j :: 0 <= j < |s.gs| && j != i ==> s'.gs[j] == s.gs[j])
      && (forall id :: id != s.gs[i].job.id ==> Lookup(s'.store, id) == Lookup(s.store, id))
  {
    hide Complete, ResultRecord, Announcement, Settings.StartDelay;
  }

  lemma OwnProgress(base: Option<SpecState>, w: Settings, s: System, i: nat, ch: Choice)
    requires CanGo(w, s, i, ch) && CacheIsCurrent(s.gs[i], s.store)
    requires Lookup(s.store, s.gs[i].job.id) == Progress(s.gs[i], base)
    ensures var s' := Advance(w, s, i, ch);
      && CacheIsCurrent(s'.gs[i], s'.store)
      && Lookup(s'.store, s.gs[i].job.id) == Progress(s'.gs[i], base)
  {
    hide Complete, ResultRecord, Announcement, Settings.StartDelay;
  }

  lemma AdvanceFollows(w: Settings, store0: StateMap, s: System, i: nat, ch: Choice, s': System)
    requires CanGo(w, s, i, ch) && s' == Advance(w, s, i, ch)
    requires DistinctGoroutines(s.gs) && StoreFollows(store0, s.gs, s.store)
    ensures SameJobs(s'.gs, s.gs) && s'.cycle == s.cycle
    ensures StoreFollows(store0, s'.gs, s'.store)
  {
    hide Advance, Progress;
    AdvanceShape(w, s, i, ch);
    OwnProgress(Lookup(store0, s.gs[i].job.id), w, s, i, ch);
    forall other | !IsGoroutineOf(s'.gs, other) ensures Lookup(s'.store, other) == Lookup(store0, other) {
      assert s'.gs[i].job.id != other;
      forall j | 0 <= j < |s.gs| ensures s.gs[j].job.id != other {
        assert s'.gs[j].job == s.gs[j].job;
      }
    }
  }

  lemma {:induction false} CycleFollows(w: Settings, store0: StateMap, s: System, actions: seq<Action>)
    requires Legal(w, s, actions) && NextCycle !in actions
    requires DistinctGoroutines(s.gs) && StoreFollows(store0, s.gs, s.store)
    ensures var s' := Exec(w, s, actions);
      SameJobs(s'.gs, s.gs) && s'.cycle == s.cycle && StoreFollows(store0, s'.gs, s'.store)
    decreases |actions|
  {
    if |actions| > 0 {
      assert actions[0] in actions;
      AdvanceFollows(w, store0, s, actions[0].i, actions[0].choice, Next(w, s, actions[0]));
      CycleFollows(w, store0, Next(w, s, actions[0]), actions[1..]);
    }
  }

  predicate OnlyStepsOf(i: nat, actions: seq<Action>) {
    forall k :: 0 <= k < |actions| ==> actions[k].Go? && actions[k].i == i
  }

  /** A store in which one goroutine has made its progress and nothing else has happened. */
  predicate SoloFollows(store0: StateMap, g: Goroutine, store: StateMap) {
    && Lookup(store, g.job.id) == Progress(g, Lookup(store0, g.job.id))
    && CacheIsCurrent(g, store)
    && store - {g.job.id} == store0 - {g.job.id}
  }

  lemma SoloStep(w: Settings, store0: StateMap, s: System, i: nat, ch: Choice)
    requires CanGo(w, s, i, ch) && SoloFollows(store0, s.gs[i], s.store)
    ensures var s' := Advance(w, s, i, ch);
      |s'.gs| == |s.gs| && s'.gs[i].job == s.gs[i].job && SoloFollows(store0, s'.gs[i], s'.store)
  {
    hide Complete;
    OwnProgress(Lookup(store0, s.gs[i].job.id), w, s, i, ch);
  }

  lemma {:induction false} SoloSteps(w: Settings, store0: StateMap, s: System, i: nat, actions: seq<Action>)
    requires i < |s.gs| && Legal(w, s, actions) && OnlyStepsOf(i, actions)
    requires SoloFollows(store0, s.gs[i], s.store)
    ensures var s' := Exec(w, s, actions);
      |s'.gs| == |s.gs| && s'.gs[i].job == s.gs[i].job && SoloFollows(store0, s'.gs[i], s'.store)
    decreases |actions|
  {
    hide SoloFollows, Advance;
    if |actions| > 0 {
      assert actions[0].Go? && actions[0].i == i;
      SoloStep(w, store0, s, i, actions[0].choice);
      SoloSteps(w, store0, Next(w, s, actions[0]), i, actions[1..]);
    }
  }

  /** `Alone` is what a goroutine's own steps do when no other step comes between. */
  lemma UninterruptedIsAlone(w: Settings, s: System, i: nat, actions: seq<Action>)
    requires i < |s.gs| && s.gs[i].pc.Sleeping? && Legal(w, s, actions) && OnlyStepsOf(i, actions)
    ensures var s' := Exec(w, s, actions);
      i < |s'.gs| && (s'.gs[i].pc.Finished() ==> s'.store == Alone(s.store, s'.gs[i]))
  {
    SoloSteps(w, s.store, s, i, actions);
    var s' := Exec(w, s, actions);
    var g := s'.gs[i];
    if g.pc.Finished() {
      var alone, id := Alone(s.store, g), g.job.id;
      assert Lookup(s'.store, id) == Lookup(alone, id);
      forall other | other != id ensures Lookup(s'.store, other) == Lookup(alone, other) {
        assert other in s'.store <==> other in s'.store - {id};
        assert other in s.store <==> other in s.store - {id};
      }
      SameLookupsSameStore(s'.store, alone);
    }
  }

  lemma {:induction false} OrderFollows(store0: StateMap, gs: seq<Goroutine>, order: seq<nat>)
    requires AllFinished(gs) && DistinctGoroutines(gs) && NoRepeats(order)
    requires forall k :: 0 <= k < |order| ==> order[k] < |gs|
    ensures var store := AloneInOrder(store0, gs, order);
      && (forall i :: 0 <= i < |gs| ==>
            var base := Lookup(store0, gs[i].job.id);
            Lookup(store, gs[i].job.id) == if i in order then Progress(gs[i], base) else base)
      && (forall id :: !IsGoroutineOf(gs, id) ==> Lookup(store, id) == Lookup(store0, id))
  {
    if |order| > 0 {
      var rest, last := order[..|order| - 1], order[|order| - 1];
      OrderFollows(store0, gs, rest);
      var before, after := AloneInOrder(store0, gs, rest), AloneInOrder(store0, gs, order);
      var id := gs[last].job.id;
      assert IsGoroutineOf(gs, id);
      assert forall other :: other != id ==> Lookup(after, other) == Lookup(before, other);
      assert last !in rest;
      forall i | 0 <= i < |gs|
        ensures var base := Lookup(store0, gs[i].job.id);
          Lookup(after, gs[i].job.id) == if i in order then Progress(gs[i], base) else base
      {
        assert i in order <==> i in rest || i == last;
        if i != last {
          assert gs[i].job.id != id;
        }
      }
    }
  }

  lemma FinishedStoreIsSequential(store0: StateMap, gs: seq<Goroutine>, store: StateMap, order: seq<nat>)
    requires DistinctGoroutines(gs) && AllFinished(gs) && IsOrderOf(order, |gs|)
    requires StoreFollows(store0, gs, store)
    ensures store == AloneInOrder(store0, gs, order)
  {
    OrderFollows(store0, gs, order);
    var sequential := AloneInOrder(store0, gs, order);
    forall id ensures Lookup(store, id) == Lookup(sequential, id) {
      if IsGoroutineOf(gs, id) {
        var i :| 0 <= i < |gs| && gs[i].job.id == id;
      }
    }
    SameLookupsSameStore(store, sequential);
  }

  /** A cycle begins at `s`, at the barrier, and ends at `s'`, at the next one, after the
      interleaving `actions` of its goroutines. */
  predicate IsCycle(w: Settings, s: System, actions: seq<Action>, s': System) {
    && AllFinished(s.gs)
    && NextCycle !in actions
    && var s1 := Next(w, s, NextCycle);
      Legal(w, s1, actions) && s' == Exec(w, s1, actions) && AllFinished(s'.gs)
  }

  lemma SpawnFollows(jobs: seq<Job>, cycle: nat, store: StateMap)
    ensures StoreFollows(store, Spawn(jobs, cycle), store)
  {
  }

  lemma UnmovedEntries(store0: StateMap, gs: seq<Goroutine>, store: StateMap)
    requires StoreFollows(store0, gs, store)
    ensures forall id :: (forall i :: 0 <= i < |gs| && gs[i].job.id == id ==> gs[i].pc.Cancelled?)
              ==> Lookup(store, id) == Lookup(store0, id)
  {
    forall id | forall i :: 0 <= i < |gs| && gs[i].job.id == id ==> gs[i].pc.Cancelled?
      ensures Lookup(store, id) == Lookup(store0, id)
    {
      if IsGoroutineOf(gs, id) {
        var i :| 0 <= i < |gs| && gs[i].job.id == id;
      }
    }
  }

  /** After any interleaving the store is the one that running the goroutines one after
      another leaves, in whatever order: no update is lost, and the entries of cancelled,
      skipped and disabled specs are those from before the cycle. */
  lemma EveryInterleavingIsSequential(w: Settings, s: System, actions: seq<Action>, s': System, order: seq<nat>)
    requires DistinctJobs(w.jobs) && IsCycle(w, s, actions, s') && IsOrderOf(order, |s'.gs|)
    ensures SameJobs(s'.gs, Spawn(w.jobs, s.cycle + 1))
    ensures s'.store == AloneInOrder(s.store, s'.gs, order)
    ensures forall id :: (forall i :: 0 <= i < |s'.gs| && s'.gs[i].job.id == id ==> s'.gs[i].pc.Cancelled?)
              ==> Lookup(s'.store, id) == Lookup(s.store, id)
  {
    hide StoreFollows, Spawn, Advance;
    var s1 := Next(w, s, NextCycle);
    SpawnDistinct(w.jobs, s.cycle + 1);
    SpawnFollows(w.jobs, s.cycle + 1, s.store);
    CycleFollows(w, s.store, s1, actions);
    assert DistinctGoroutines(s'.gs);
    FinishedStoreIsSequential(s.store, s'.gs, s'.store, order);
    UnmovedEntries(s.store, s'.gs, s'.store);
  }
}
