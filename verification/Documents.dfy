/** From the document to the monitor: what a declared spec does in every run, in terms of
    its own fields and of what its checks return. */
module Documents {
  import opened Cycles
  import opened Hysteresis
  import opened Monitor
  import opened Observed
  import opened Runs
  import opened SpecChecks
  import opened Specs
  import opened Staleness
  import opened States
  import opened Text
  import opened Wrappers

  /** The document has a part of this kind with these fields. */
  predicate Declares(sp: Spec, kind: string, c: Common) {
    || (kind == "http" && sp.http.Some? && sp.http.value.common == c)
    || (kind == "tls" && sp.tls.Some? && sp.tls.value.common == c)
    || (kind == "probe" && sp.probe.Some? && sp.probe.value.common == c)
    || (kind == "s3" && sp.s3.Some? && sp.s3.value.common == c)
  }

  function Key(kind: string, c: Common): string {
    kind + ":" + TrimSpace(c.name)
  }

  /** A run of the monitor on accepted documents, at one of its states. */
  ghost predicate IsRun(specs: seq<Spec>, interval: Duration, jitter: Duration, hash: string -> nat,
                        lower: string -> string, actions: seq<Action>, s: System)
  {
    var w := SettingsOf(specs, interval, jitter, hash);
    Accepted(specs, lower) && Legal(w, INITIAL, actions) && s == Exec(w, INITIAL, actions)
  }

  lemma DocumentJob(sp: Spec, kind: string, c: Common, interval: Duration, lower: string -> string)
    requires OwnFault(sp, lower).None? && Declares(sp, kind, c)
    ensures JobOf(sp, interval)
         == Job(Key(kind, c), !c.disabled, c.everyCycles, Policy(c.cycles.failure, c.cycles.success, interval))
  {
    AcceptedIdentity(sp, lower);
  }

  lemma DocumentJobIn(specs: seq<Spec>, interval: Duration, lower: string -> string, k: nat, kind: string, c: Common)
    requires Accepted(specs, lower) && k < |specs| && Declares(specs[k], kind, c)
    ensures DistinctJobs(JobsOf(specs, interval))
    ensures Job(Key(kind, c), !c.disabled, c.everyCycles, Policy(c.cycles.failure, c.cycles.success, interval))
         in JobsOf(specs, interval)
  {
    hide OwnFault, Declares;
    AcceptedIff(specs, lower);
    AcceptedSpecsHaveDistinctJobs(specs, interval, lower);
    DocumentJob(specs[k], kind, c, interval, lower);
    assert JobsOf(specs, interval)[k] in JobsOf(specs, interval);
  }

  /** A disabled spec has no goroutine, no entry in the store and no notification, ever. */
  lemma DisabledSpecIsInert(specs: seq<Spec>, interval: Duration, jitter: Duration, hash: string -> nat,
                            lower: string -> string, actions: seq<Action>, s: System,
                            k: nat, kind: string, c: Common)
    requires IsRun(specs, interval, jitter, hash, lower, actions, s)
    requires k < |specs| && Declares(specs[k], kind, c) && c.disabled
    ensures !HasGoroutine(s, Key(kind, c)) && Key(kind, c) !in s.store && NoticesFor(s.log, Key(kind, c)) == []
  {
    hide Declares, Accepted, Key;
    var w := SettingsOf(specs, interval, jitter, hash);
    DocumentJobIn(specs, interval, lower, k, kind, c);
    var job := Job(Key(kind, c), false, c.everyCycles, Policy(c.cycles.failure, c.cycles.success, interval));
    InitialInv(w);
    GoroutineIffDue(w, actions, job);
    InactiveNotStored(w, INITIAL, actions, job);
    InactiveSilent(w, actions, s, job);
  }

  lemma InactiveSilent(w: Settings, actions: seq<Action>, s: System, job: Job)
    requires DistinctJobs(w.jobs) && job in w.jobs && !job.active
    requires Legal(w, INITIAL, actions) && s == Exec(w, INITIAL, actions)
    ensures NoticesFor(s.log, job.id) == []
  {
    InitialInv(w);
    RunKeepsInv(w, INITIAL, actions);
    JobHasInv(w, s, job);
  }

  /** Any other spec has a goroutine in every cycle that its own `every_cycles` divides,
      and in no other. */
  lemma EnabledSpecRuns(specs: seq<Spec>, interval: Duration, jitter: Duration, hash: string -> nat,
                        lower: string -> string, actions: seq<Action>, s: System,
                        k: nat, kind: string, c: Common)
    requires IsRun(specs, interval, jitter, hash, lower, actions, s)
    requires k < |specs| && Declares(specs[k], kind, c) && !c.disabled && s.cycle >= 1
    ensures HasGoroutine(s, Key(kind, c)) <==> c.everyCycles == 0 || s.cycle % c.everyCycles == 0
  {
    hide Declares, Key;
    var w := SettingsOf(specs, interval, jitter, hash);
    DocumentJobIn(specs, interval, lower, k, kind, c);
    NotNegative(specs, lower, k, kind, c);
    GoroutineIffDue(w, actions,
                    Job(Key(kind, c), true, c.everyCycles, Policy(c.cycles.failure, c.cycles.success, interval)));
    if c.everyCycles == 1 {
      assert s.cycle % 1 == 0;
    }
  }

  lemma NotNegative(specs: seq<Spec>, lower: string -> string, k: nat, kind: string, c: Common)
    requires Accepted(specs, lower) && k < |specs| && Declares(specs[k], kind, c)
    ensures c.everyCycles >= 0
  {
    AcceptedIff(specs, lower);
    assert OwnFault(specs[k], lower).None?;
  }

  /** The whole of it: at the barrier the status in the store and the notifications follow
      from what the checks of the spec returned, the two numbers in its document, and the
      interval. */
  lemma StatusFollowsChecks(specs: seq<Spec>, interval: Duration, jitter: Duration, hash: string -> nat,
                            lower: string -> string, actions: seq<Action>, s: System,
                            k: nat, kind: string, c: Common)
    requires IsRun(specs, interval, jitter, hash, lower, actions, s) && AllFinished(s.gs)
    requires k < |specs| && Declares(specs[k], kind, c)
    ensures var w, p := SettingsOf(specs, interval, jitter, hash), Policy(c.cycles.failure, c.cycles.success, interval);
      var h := ChecksOf(w, INITIAL, actions, Key(kind, c));
      && (Entry(s.store, Key(kind, c)).status == Failing <==> exists i :: AlarmedAt(h, i, p))
      && (c.cycles.failure >= 1 ==>
            (NoticesFor(s.log, Key(kind, c)) != []
             <==> exists m :: 0 <= m <= |h| && EndsInRun(h[..m], false, c.cycles.failure, p)))
      && (c.cycles.failure <= 0 ==>
            (NoticesFor(s.log, Key(kind, c)) != [] <==> exists i :: 0 <= i < |h| && !h[i].ok))
  {
    hide Declares, Key;
    var w, p := SettingsOf(specs, interval, jitter, hash), Policy(c.cycles.failure, c.cycles.success, interval);
    DocumentJobIn(specs, interval, lower, k, kind, c);
    JobFollowsChecks(w, actions, s, Job(Key(kind, c), !c.disabled, c.everyCycles, p));
  }

  lemma JobFollowsChecks(w: Settings, actions: seq<Action>, s: System, job: Job)
    requires DistinctJobs(w.jobs) && job in w.jobs && Legal(w, INITIAL, actions)
    requires s == Exec(w, INITIAL, actions) && AllFinished(s.gs)
    ensures var h, p := ChecksOf(w, INITIAL, actions, job.id), job.policy;
      && (Entry(s.store, job.id).status == Failing <==> exists i :: AlarmedAt(h, i, p))
      && (p.failure >= 1 ==>
            (NoticesFor(s.log, job.id) != [] <==> exists m :: 0 <= m <= |h| && EndsInRun(h[..m], false, p.failure, p)))
      && (p.failure <= 0 ==> (NoticesFor(s.log, job.id) != [] <==> exists i :: 0 <= i < |h| && !h[i].ok))
  {
    hide ChecksOf, Legal, Exec, AlarmedAt, EndsInRun;
    var h := ChecksOf(w, INITIAL, actions, job.id);
    HistoryIsObserved(w, actions, job.id);
    StoreIsHistory(w, actions, job);
    CountersRefineHistory(h, job.policy);
    StatusByConfiguration(h, job.policy);
    SpecAlarmsIffRunEnds(w, actions, s, job);
    EmitsIffRunEnds(h, job.policy);
    AlarmsByConfiguration(h, job.policy);
  }
}
