# A verified model of eddie

eddie runs checks ("specs") in cycles, keeps a small record for each, and sends a failure or
recovery notification when a record changes sides. This project models the parts of it whose
behaviour cannot be read off one function, and proves what they promise.

- **Monitoring.** `States` holds the record and the store, `Staleness` and `Hysteresis` the per-spec
  state machine, `Schedule` the `every_cycles` rule, `Cycles` the goroutines of a cycle as a state
  machine whose actions are single store operations, `Runs` whole runs of it, `Timing` runs on a
  clock, `Realization` the existence of such runs, `Monitor` the runner object, `Observed` what a
  run shows from outside, and `Documents` what a declared spec does. Main results: under every
  interleaving a cycle leaves the store that running its goroutines one after another leaves, in any
  order; in every reachable state each stored record equals a function of that spec's history of
  completed checks; the notifications for a spec alternate; and interval, stride and threshold
  decide which permanent failures alarm.
- **Log colouring.** `Colorizer` is the line scanner, `ColorWriter` the buffering writer in front of
  a target that may refuse or cut short any write, and `Terminal` what a reader sees. Main results:
  colouring inserts escape sequences only, a terminal shows every token as intended with nothing
  left in force, and the output depends neither on how the stream is cut into writes nor on refusals
  along the way, unless the target took part of a line.
- **Probe language.** `SpecChecks` has the static checks, `ProbeTransforms`, `ProbePaths`,
  `ProbeEquality` and `ProbeProgram` the evaluator, `ProbeVerdicts` when it passes. Main results:
  accepted probes never fail for a reason the checks exist to exclude, provided references match ids
  as written; transform pipelines obey an exact type discipline; paths spell key lists exactly when
  the first key does not start with `$`; equality is symmetric and transitive, and reflexive exactly
  off NaN.
- **Strings and lists.** `Templates` has placeholder expansion, `Recipients` the receiver lists and
  the repeatable flag, `Text` the string functions they share.

Methods follow the loops and field updates of the source and are proved against functions; the
lemmas are about those functions. Times are integer nanoseconds, and `NEVER` (0) is Go's zero time.
A byte is a character. `IsSpace` lists the code points of `unicode.IsSpace`. Number, timestamp, JSON
and regular-expression functions, case mapping, `time.Format` and the jitter hash are parameters,
so every theorem holds whatever they do. The only facts used are that a formatted hour is two or
more digits and dashes, that a Unix time is one or more, and, where a pipeline is said to succeed,
that `1` parses as an integer and is its own lower case.

Where code and documentation differ the code is modelled. README.md:193-214 shows an S3 check
with `every_cycles: 60` and `failure: 2`. Its runs are further apart than the two cycles after which
the counters are reset, so as long as checks complete inside their own cycles it can never alarm
(`Timing.DocumentedExampleNeverAlarms`). README.md:399-403 promises failure and recovery after so
many consecutive results for any spec; with three or more cycles from run to run a failure threshold
above 1 is never reached (`Timing.SparseSpecNeverAlarms`), nor a success threshold above 1: such a
spec, once Failing, stays so (`Timing.SparseSpecNeverRecovers`).
`Schedule.AlarmsIffStretch` and `Schedule.RecoversIffStretch` say exactly which histories alarm and
recover, `Realization.RunsCanAlarmIff` and `Realization.RunsMustAlarmIff` which settings can alarm
and which must; at `every_cycles: 2` the gap lies at the bound, and the time a check takes decides.
`Kind` is documented as "http/tls" at internal/spec/spec.go:177 but returns four kinds.

## Model

| member | source | states |
|---|---|---|
| States.SameLookupsSameStore | internal/state/store.go:32-59 | two stores that answer every lookup alike are the same store |
| States.InMemoryStore.Get | internal/state/store.go:45-51 | returns the entry of the key, or none, and changes nothing |
| States.InMemoryStore.Set | internal/state/store.go:54-59 | the new map is the old one with this key's entry replaced |
| Staleness.ResetStaleMeaning | internal/monitor/runner.go:238-254 | the int64 computation clears both counters exactly when the gap exceeds twice the interval, with the reset off for a first completion, a non-positive interval, or one of 2^62 and more |
| Staleness.Int64DecisionExact | internal/monitor/runner.go:243-249 | wrapped doubling and saturating subtraction agree with unbounded arithmetic if and only if the interval is below 2^62 or the gap is within its double, hence for every gap that fits an int64 |
| Hysteresis.RunIsLongest | internal/monitor/runner.go:238-290 | the run length is the longest trailing stretch of one result without a stale gap |
| Hysteresis.IsFailingMeaning | internal/monitor/runner.go:256-290 | the recursive verdict on a history is "a full failure run ended, and no full success run since" |
| Hysteresis.CompleteRefines | internal/monitor/runner.go:163-191 | one completed check moves the declared record of a history to that of the longer history, and notifies exactly when the verdict changes |
| Hysteresis.CountersRefineHistory | internal/monitor/runner.go:154-192 | from an unknown spec, the incremental counters compute the declared function of the whole history: status, both counters, last completion |
| Hysteresis.StatusIsLatestRunEnd | internal/monitor/runner.go:154-192 | status is Failing if and only if the latest run end is a failure run of threshold length |
| Hysteresis.CountersCoupled | internal/monitor/runner.go:238-290 | at most one counter is non-zero; healthy: the failure counter is the trailing run, below its threshold; failing: the success counter is |
| Hysteresis.NotificationsAlternate | internal/monitor/runner.go:213-229 | notifications of any history alternate from a failure on, and their number is odd exactly while failing |
| Hysteresis.OutstandingFailures | internal/monitor/runner.go:213-229 | failures minus recoveries is 1 while the status is Failing and 0 otherwise |
| Hysteresis.EmitsIffRunEnds | internal/monitor/runner.go:238-290 | a history has notified at all if and only if a full failure run ended somewhere in it |
| Hysteresis.RecoversIffRunEnds | internal/monitor/runner.go:238-290 | a failing spec is healthy at some later check if and only if a full success run ends later |
| Hysteresis.StatusByConfiguration | internal/monitor/runner.go:154-192 | status is Failing if and only if a failure run of the configured length ended and no success run of the configured length since; a length that is not configured is one |
| Hysteresis.AlarmsByConfiguration | internal/monitor/runner.go:154-192 | with a configured failure threshold n something is sent if and only if n fresh failures in a row ended; without one, if and only if some check failed |
| Hysteresis.RecoversByConfiguration | internal/monitor/runner.go:154-192 | the same for recovery and the success threshold |
| Schedule.RunsInFirstCycles | internal/monitor/runner.go:136-142 | a spec with stride k runs floor(n/k) times in cycles 1 to n |
| Schedule.OneRunPerStride | internal/monitor/runner.go:136-142 | any k consecutive cycles contain exactly one run |
| Schedule.StaleGapsNeverAlarm | internal/monitor/runner.go:238-289 | if every gap is stale, a failure threshold of two or more never fires from healthy |
| Schedule.AlarmsIffStretch | internal/monitor/runner.go:136-289 | when checks complete anywhere inside their own cycles, a spec alarms if and only if some F failing checks in a row have F = 1, stride 1, or stride 2 with completions no later and no later into their cycles |
| Schedule.SparseNeverAlarms | internal/monitor/runner.go:136-289 | with stride 3 or more and a threshold of 2 or more it never does, whatever the results |
| Schedule.RecoversIffStretch | internal/monitor/runner.go:136-289 | the same exact condition for recovery, on successes and their threshold |
| Schedule.SparseNeverRecovers | README.md:402-403 | with stride 3 or more and a success threshold of 2 or more a spec that has alarmed stays Failing, whatever the results |
| Schedule.CanAlarmIff | internal/monitor/runner.go:136-289 | some timing makes a permanent failure alarm if and only if the threshold is 1 or the stride at most 2 |
| Schedule.MustAlarmIff | internal/monitor/runner.go:136-289 | every timing does, after a number of checks known beforehand, if and only if the threshold is 1, the stride 1, or the stride 2 with a threshold of 2 or a one-nanosecond interval |
| Timing.HistoryOnTime | internal/monitor/runner.go:78-159 | in every run of the monitor in which the checks of a spec complete inside their own cycles, its history follows its plan: check i belongs to cycle first + i * stride |
| Timing.SparseSpecNeverAlarms | internal/monitor/runner.go:62-289 | in every state of such a run, a spec with stride 3 or more and a threshold of 2 or more is Healthy and nothing was sent for it, whatever its checks find |
| Timing.SparseSpecNeverRecovers | README.md:402-403 | in such a run, a spec with stride 3 or more and a success threshold of 2 or more that is Failing in one state is Failing in all later ones |
| Timing.SpecAlarmsIffStretch | internal/monitor/runner.go:62-289 | at the barrier of such a run, something was sent for a spec if and only if its history holds a stretch as in `Schedule.AlarmsIffStretch` |
| Timing.PermanentFailureAlarms | internal/monitor/runner.go:62-289 | a permanently failing spec whose settings guarantee an alarm has sent one after enough cycles of such a run |
| Timing.DocumentedExampleNeverAlarms | README.md:193-214 | no such run alarms for the documented S3 example, whatever its checks find |
| Realization.FollowScript | internal/monitor/runner.go:62-104 | whatever time and result are chosen for each cycle inside its interval, some run of the monitor has them, for all its specs at once |
| Realization.HistoryIsRealized | internal/monitor/runner.go:62-159 | every history on the plan of a spec is the history of that spec in some such run |
| Realization.RunsCanAlarmIff | internal/monitor/runner.go:62-289 | some run in which a spec fails all the time alarms, if and only if its threshold is 1 or its stride at most 2 |
| Realization.RunsMustAlarmIff | internal/monitor/runner.go:62-289 | all long enough ones do, if and only if its settings satisfy the condition of `Schedule.MustAlarmIff` |
| Cycles.AdvanceFollows | internal/monitor/runner.go:92-101 | each atomic step keeps every entry at the progress its own goroutine has made, and all other entries as before the cycle |
| Cycles.OrderFollows | internal/monitor/runner.go:92-101 | running any selection of goroutines alone, in any order, has each do its own work once |
| Cycles.UninterruptedIsAlone | internal/monitor/runner.go:92-101 | the atomic steps of one goroutine with no other step between them leave the store of running it alone |
| Cycles.EveryInterleavingIsSequential | internal/monitor/runner.go:78-104 | at the barrier every interleaving has left the store of the sequential execution in any order; specs that were cancelled, skipped or disabled keep their entries |
| Runs.OwnStep | internal/monitor/runner.go:144-229 | a goroutine's own step keeps record, cache, log and number of checks of its spec in line with the history |
| Runs.OthersUntouched | internal/monitor/runner.go:144-229 | a step changes nothing that is asserted of any other spec |
| Runs.RunKeepsInv | internal/monitor/runner.go:62-104 | the invariant holds after every legal sequence of steps and cycles |
| Runs.StoreIsHistory | internal/monitor/runner.go:62-192 | in every reachable state each stored record is the declared function of its spec's history, and Failing exactly when the latest run end is a failure |
| Runs.LogAlternates | internal/monitor/runner.go:62-229 | in every reachable state the notifications sent for a spec alternate; at the barrier one is outstanding exactly while the store says Failing |
| Runs.SpecAlarmsIffRunEnds | internal/monitor/runner.go:62-290 | whatever the timing, at the barrier something was sent for a spec if and only if a full failure run ended in its history |
| Runs.ChecksPerCycles | internal/monitor/runner.go:78-142 | at the barrier after n cycles an active spec has completed floor(n/k) checks, or one less if it was cancelled, which takes start jitter and stride 1 |
| Runs.CancelledMeaning | internal/monitor/runner.go:93-96 | the specs recorded as cancelled are those with a cancelling step in the run |
| Observed.HistoryIsObserved | internal/monitor/runner.go:96-100 | at the barrier the history of a spec is the list of results and times its checks returned, in order |
| Observed.GoroutineIffDue | internal/monitor/runner.go:83-92 | in every state exactly the active specs whose stride divides the cycle have a goroutine |
| Observed.InactiveNotStored | internal/monitor/runner.go:84-86 | a spec that is not active never gets a store entry |
| Observed.CycleTimes | internal/monitor/runner.go:97-100 | after a cycle every checked spec has the start and completion time of its goroutine in the store, in this order and within the cycle |
| Observed.FirstCheckMayBeCancelled | internal/monitor/runner.go:94-112 | in the first cycle a goroutine whose hash asks for a delay can be cancelled |
| Documents.DisabledSpecIsInert | internal/spec/spec.go:160-175 | for accepted documents of all four kinds: a spec with `disabled` set has no goroutine, no store entry and no notification in any reachable state |
| Documents.EnabledSpecRuns | internal/monitor/runner.go:83-91 | one without it has a goroutine in exactly the cycles that its own `every_cycles` divides |
| Documents.StatusFollowsChecks | internal/monitor/runner.go:62-192 | at the barrier its status and notifications follow from what its checks returned, the two thresholds in its document and the interval |
| Monitor.Runner.MarkCycleStarted | internal/monitor/runner.go:144-152 | only the start time of the spec's entry changes, on the first-state default if there was none |
| Monitor.Runner.HandleCycleResult | internal/monitor/runner.go:154-192 | the entry becomes the completed record and the transition is that of the completion |
| Monitor.Runner.RunAlone | internal/monitor/runner.go:92-101 | the two store updates in sequence are what the sequential specification says |
| Monitor.Runner.Go | internal/monitor/runner.go:92-101 | each store operation performs the corresponding step of the state machine |
| Monitor.Runner.SpawnDue | internal/monitor/runner.go:83-92 | exactly the active specs whose stride divides the cycle number get a goroutine |
| Monitor.Runner.RunCycle | internal/monitor/runner.go:78-104 | counts the cycle and is a cycle of the state machine (its goroutines, store, clock and notifications) under any schedule; the store it leaves is the sequential one |
| Monitor.Runner.Run | internal/monitor/runner.go:61-76 | a run of the object is a run of the state machine; with distinct IDs its notifications alternate for every spec and one failure is outstanding exactly while the stored status is Failing |
| Monitor.AcceptedSpecsMonitored | internal/spec/spec.go:262-266 | for every accepted list of specs, in every reachable state, stored status and history agree |
| SpecChecks.ValidateSpecNames | internal/spec/spec.go:366-468 | returns the first fault in document order, or none |
| SpecChecks.ValidateProbeSpec | internal/spec/spec.go:486-588 | returns the first fault of the probe in the order of the checks, or none |
| SpecChecks.AcceptedIff | internal/spec/spec.go:366-468 | a list is accepted if and only if no spec has a fault of its own and all IDs differ |
| SpecChecks.SpecAcceptedIff | internal/spec/spec.go:366-468 | a document is without fault if and only if it has exactly one part, with a name, a stride that is not negative, no blank receiver, and what its kind asks for |
| SpecChecks.ProbeAcceptedIff | internal/spec/spec.go:486-603 | a probe is accepted if and only if ids are non-blank and unique, urls non-blank, references resolve, sources and operations are known, and every operand is a literal or a reference |
| SpecChecks.ProbeFaultIsThere | internal/spec/spec.go:486-603 | the fault that is reported is in the probe, at the place that is named |
| SpecChecks.RefusedAtFirstFault | internal/spec/spec.go:366-468 | a list is refused at its first wrong or repeated document |
| SpecChecks.AcceptedIDs | internal/spec/spec.go:209-217 | IDs of an accepted list are non-empty, equal to the strings that were checked, and pairwise distinct across kinds |
| SpecChecks.IdentityInjective | internal/spec/spec.go:177-217 | equal IDs mean the same kind and the same trimmed name |
| SpecChecks.AcceptanceIgnoresOrder | internal/spec/spec.go:366-468 | permuting the documents does not change acceptance |
| SpecChecks.S3AcceptedIff | internal/spec/spec.go:605-660 | an S3 spec is accepted if and only if bucket, key limit, exactly one non-negative bound and authentication are in order |
| Colorizer.ScanToken | internal/logging/logging.go:92-117 | the flag-driven inner loop stops where the quote automaton says the token ends |
| Colorizer.ColorizeSlogTextLine | internal/logging/logging.go:82-123 | the loop over the line computes the colouring function |
| Colorizer.TokensPartitionLine | internal/logging/logging.go:85-120 | every line has a partition into separators and tokens, each token maximal, whatever quotes or escapes are left open |
| Colorizer.ColoringIsPieceByPiece | internal/logging/logging.go:82-123 | that partition is unique, and the colouring is its pieces in order, separators unchanged and each token coloured by itself |
| Colorizer.DisplayToken | internal/logging/logging.go:125-209 | a coloured token shows key, `=` and value in their colours and restores the default |
| Colorizer.ColorizeDisplays | internal/logging/logging.go:82-209 | a terminal shows the line's characters, each token styled as intended, and ends with nothing in force |
| Colorizer.ColorizeLossless | internal/logging/logging.go:82-209 | deleting the escape sequences gives an ESC-free line back |
| Colorizer.SolarizedIsScheme | internal/logging/logging.go:13-24 | the nine codes are single escape sequences and only the reset resets |
| Terminal.KeyValueShown | internal/logging/logging.go:125-209 | on the screen, a key=value token anywhere in a line has key and `=` in the key colour and its value in the colour its key and unquoted upper-cased text ask for: five levels, two results, names, and none otherwise |
| Terminal.OtherTokenShown | internal/logging/logging.go:125-135 | any other token is shown without colours |
| Terminal.SeparatorShown | internal/logging/logging.go:86-90 | so is whitespace between tokens |
| Terminal.QuotedValueIsOneToken | internal/logging/logging.go:92-117 | a key with a quoted value is one token whatever the value contains |
| Terminal.SolarizedPalette | internal/logging/logging.go:17-23 | the colours are those of the Solarized palette |
| ColorWriter.KeyValueColorWriter.Write | internal/logging/logging.go:57-80 | buffer, target and result are those of the writer function; the count is the chunk length or 0 |
| ColorWriter.WriteMeaning | internal/logging/logging.go:57-80 | a write makes one target call for each complete line of buffer and chunk, in order, until one is not completed; it then fails, and the buffer begins with the refused line |
| ColorWriter.WriteSucceedsIff | internal/logging/logging.go:66-79 | a write succeeds if and only if the target completes the call for every line |
| ColorWriter.LinesUnique | internal/logging/logging.go:60-76 | a stream splits into complete lines and a newline-free rest in one way only |
| ColorWriter.WritesConserve | internal/logging/logging.go:57-80 | after any writes, failed or not, accepted lines followed by the buffer are all bytes received |
| ColorWriter.WritesFaithful | internal/logging/logging.go:66-74 | the target holds exactly the coloured accepted lines if and only if the calls it did not complete took no bytes |
| ColorWriter.ChunkingIrrelevant | internal/logging/logging.go:57-80 | once a write succeeds, accepted lines and buffer depend on the stream alone, not on chunks or earlier refusals, and so does the output exactly if nothing was wasted |
| ColorWriter.SplittingsAgree | internal/logging/logging.go:57-80 | any two splittings of one stream leave a willing target and the buffer alike |
| ColorWriter.StrippedOutputPlusPending | internal/logging/logging.go:57-209 | if the input has no ESC and the calls that the target did not complete took no bytes, stripping the target's bytes and appending the buffer gives back every byte written |
| ProbeEquality.DeepEqualIsIdentity | internal/monitor/probe.go:383 | structural equality is equality of NaN-free values |
| ProbeEquality.EqualReflexiveIffRegular | internal/monitor/probe.go:377-435 | a value equals itself if and only if it is a number other than NaN or a non-number without NaN inside |
| ProbeEquality.EqualSymmetric | internal/monitor/probe.go:377-435 | equality is symmetric on all values |
| ProbeEquality.EqualTransitive | internal/monitor/probe.go:377-435 | equality is transitive on all values, across numbers, numeric text and structures |
| ProbeEquality.AllEqualIsPairwise | internal/monitor/probe.go:265-273 | comparing with the first operand only decides whether every two operands are equal |
| ProbeEquality.AllEqualIgnoresOrder | internal/monitor/probe.go:256-275 | reordering the operands of all_equal keeps the verdict |
| ProbeEquality.NumbersAcrossTypes | internal/monitor/probe.go:377-435 | two values that write numbers, in any types or as text, are equal if and only if the numbers are, and not NaN |
| ProbeEquality.OthersByStructure | internal/monitor/probe.go:383 | any other value equals only itself |
| ProbePaths.ResolveJsonPath | internal/monitor/probe.go:223-252 | the loop over segments computes the resolution function, errors included |
| ProbePaths.PathRoundTrip | internal/monitor/probe.go:223-252 | resolving the path spelled by a key list reaches the node that following the keys reaches, or fails if there is none |
| ProbePaths.PathSpellsIff | internal/monitor/probe.go:228-229 | that holds on every document if and only if the first key does not start with `$` |
| ProbePaths.ResolveInStages | internal/monitor/probe.go:234-251 | resolving a concatenated key list is resolving in two stages |
| ProbePaths.ResolveFailsEarly | internal/monitor/probe.go:234-251 | if the first stage fails, so does the whole |
| ProbePaths.OtherSpellings | internal/monitor/probe.go:228-229 | the path may be written without `$.`, or with `$` alone before it |
| ProbePaths.RootPaths | internal/monitor/probe.go:228-232 | the markers alone are the document |
| ProbePaths.PaddedPath | internal/monitor/probe.go:224-227 | whitespace around a path does not matter, and exactly the blank paths are refused as empty |
| ProbePaths.WalkErrors | internal/monitor/probe.go:234-251 | a walk succeeds exactly along non-blank keys that exist; its error names the first segment that leads nowhere and why |
| ProbePaths.PathErrors | internal/monitor/probe.go:223-252 | on a spelled path the error says which key of the list is missing |
| ProbeTransforms.ExtractProbeValue | internal/monitor/probe.go:141-180 | the loop applies the transforms in order and stops at the first error |
| ProbeTransforms.PipelineSound | internal/monitor/probe.go:182-221 | a pipeline that succeeds is well typed, and its names alone decide the type of the result |
| ProbeTransforms.PipelineComplete | internal/monitor/probe.go:182-221 | for every library that knows the digit 1, a pipeline succeeds on some value of its source type if and only if it is well typed |
| ProbeTransforms.TextPipelineTyped | internal/monitor/probe.go:182-221 | string transforms give text; as_int or age_seconds after them gives int64 |
| ProbeTransforms.TextDiscipline | internal/monitor/probe.go:182-221 | for every such library, the lists that can succeed on text are exactly: string transforms, at most one as_int or age_seconds, then age_seconds only |
| ProbeTransforms.SourceReads | internal/monitor/probe.go:143-173 | what header and body sources read, and when JSON ones fail |
| ProbeTransforms.JsonReads | internal/monitor/probe.go:148-170 | a JSON source is the canonical text of the body; a path into it leads where its keys lead |
| ProbeTransforms.ApplyConcat | internal/monitor/probe.go:175-180 | pipelines compose, left to right |
| ProbeTransforms.StringTransforms | internal/monitor/probe.go:184-201 | trimming, lower case, and quotes put around a text coming off again |
| ProbeTransforms.AgeOfUnixTime | internal/monitor/probe.go:437-474 | the age of a Unix time does not depend on the type or text it is written in |
| ProbeTransforms.AgeOfTimestamp | internal/monitor/probe.go:437-460 | other text is read as a timestamp, and blank text is refused |
| ProbeTransforms.ConversionsAgree | internal/monitor/probe.go:202-218 | converting an integer text first changes no age, and trimming it changes no conversion |
| ProbeProgram.EvaluateProbeAssert | internal/monitor/probe.go:254-363 | resolution, comparison and error order of every operation |
| ProbeProgram.ValidateProbe | internal/monitor/probe.go:26-61 | requests, extracts and asserts run in order and the first error ends the run |
| ProbeVerdicts.EqualityVerdicts | internal/monitor/probe.go:256-302 | eq passes if and only if the values are equal, neq if and only if they are not, and all_equal on two operands is eq |
| ProbeVerdicts.AllEqualVerdict | internal/monitor/probe.go:256-275 | all_equal passes if and only if any two of its values are equal |
| ProbeVerdicts.OrderVerdicts | internal/monitor/probe.go:303-329 | gt, gte, lt and lte are one order: lt is gt exchanged, the lax forms add equality, numbers compare in exactly one way and nothing else compares |
| ProbeVerdicts.GreaterVerdict | internal/monitor/probe.go:313-316 | it is the order of the numbers, with the infinities at its ends |
| ProbeVerdicts.ContainsVerdict | internal/monitor/probe.go:330-341 | contains passes if and only if the left text is the right one with something before and after |
| ProbeVerdicts.MatchesVerdict | internal/monitor/probe.go:342-357 | matches takes the right text as the pattern for the left one |
| ProbeVerdicts.ProbePassesIff | internal/monitor/probe.go:26-61 | a probe with distinct ids passes if and only if every request is answered, every extract has a value from the reply it names, and every assert passes on these values |
| ProbeProgram.AssertReferences | internal/monitor/probe.go:365-375 | an assert reports an unknown reference exactly when one of its references is unknown, and no accepted operation is unsupported |
| ProbeProgram.AcceptedNeverOverwrites | internal/monitor/probe.go:32-52 | for an accepted probe no entry of either map is overwritten |
| ProbeProgram.AcceptedUnpaddedIsClosed | internal/spec/spec.go:500-603 | acceptance of unpadded ids closes every reference as the evaluator reads it |
| ProbeProgram.AcceptedClosedIsSound | internal/monitor/probe.go:26-61 | an accepted probe with closed references never reports an unknown request or extract, an unsupported source or an unsupported operation, under any responses |
| ProbeProgram.AcceptedUnpaddedIsSound | internal/monitor/probe.go:26-61 | in particular when ids and `from` fields have no surrounding whitespace |
| ProbeProgram.AcceptedStepsSafeIffClosed | internal/monitor/probe.go:41-58 | no step of an accepted probe, given the ids the phase before it leaves, fails for such a reason if and only if all references are closed |
| ProbeProgram.PassingProbeIsClosed | internal/monitor/probe.go:41-58 | a probe without closed references passes under no responses at all |
| ProbeProgram.PaddedProbeAccepted | internal/spec/spec.go:500-547 | a probe whose `from` has a trailing space is accepted |
| ProbeProgram.PaddedProbeUnknown | internal/monitor/probe.go:43-46 | and once its request is answered that probe fails with an unknown request |
| Templates.TwoPassesAreOne | internal/monitor/s3.go:111-117 | replacing one placeholder after the other is one simultaneous left-to-right substitution |
| Templates.PassLeavesNone | internal/monitor/s3.go:114-115 | a pass leaves no occurrence of its placeholder, not even one spanning an inserted date |
| Templates.S3TemplateExpansion | internal/monitor/s3.go:111-117 | for every input and time: simultaneous substitution, the passes commute, neither placeholder remains, expanding again at any time changes nothing |
| Templates.ProbeTemplateExpansion | internal/monitor/probe.go:135-139 | no `{unix_ts}` remains and expanding again changes nothing |
| Templates.S3TemplateRenders | internal/monitor/s3.go:111-117 | in a template of plain text and placeholders, every placeholder becomes its hour, this one or the one 60 minutes before, and the text stays |
| Templates.ProbeTemplateRenders | internal/monitor/probe.go:135-139 | in a template of plain text and `{unix_ts}`, the Unix time appears where it belongs and the text stays |
| Recipients.MergedMailRecipients | internal/monitor/runner.go:562-581 | the loop with its seen-set computes first-occurrence deduplication of the trimmed non-blank concatenation |
| Recipients.DistinctMeaning | internal/monitor/runner.go:571-575 | kept values have no repeats and stand in the order of their first positions |
| Recipients.MergedKeepsGlobalsFirst | internal/monitor/runner.go:578-580 | the merged global receivers are a prefix, and every non-blank receiver of either list is present |
| Recipients.ParseCsvList | internal/config/configuration.go:237-248 | the loop computes the trimmed non-blank parts |
| Recipients.CsvRoundTrip | internal/config/configuration.go:237-261 | printing with commas and parsing again is the identity if and only if every value is trimmed, non-blank and comma-free |
| Recipients.CsvNormalForm | internal/config/configuration.go:237-248 | parsing the printed form of a parsed list returns that list |
| Recipients.StringSliceFlag.Print | internal/config/configuration.go:259-261 | the printed list can be parsed back if and only if its items are trimmed, non-blank and comma-free |
| Recipients.StringSliceFlag.Set | internal/config/configuration.go:263-275 | a blank value is refused and changes nothing; the first accepted one replaces the list, later ones are appended |
| Recipients.FlagsReplaceEnvironment | internal/config/configuration.go:263-275 | after any flags the list is exactly the accepted ones, trimmed and in order, or the environment's if none was accepted |
| Text.TrimSpaceMeaning | internal/monitor/runner.go:567 | trimming takes whitespace off both ends and nothing else |
| Text.SplitJoin | internal/config/configuration.go:238-260 | splitting a joined list returns it when no part contains the separator |

## Left out

- HTTP, TLS, S3 and SMTP traffic and the checks made with them: a check is a success or a failure that the environment chooses, and a probe request is a reply that it chooses.
- Shell scripts, mail delivery and the texts of notifications: a notification is an event in a log.
- Tickers and real time: any non-decreasing clock is allowed, the number of ticks before cancellation is a parameter, and cycles start at the barrier. `Timing` takes as its premise that the checks of the spec complete inside their cycles. Checks that outlast the interval delay the cycles behind them and can lose alarms even at stride 1; for these, `Runs.SpecAlarmsIffRunEnds` says when an alarm is sent, in terms of the completion times and not of the settings.
- ProbeProgram.AcceptedClosedIsSound: goes one way for whole runs, because an earlier failure can hide an unknown reference; `ProbeProgram.AcceptedStepsSafeIffClosed` is exact step by step, and a probe without closed references never passes.
- ProbeEquality.DeepEqualIsIdentity: `reflect.DeepEqual` also calls a map or slice equal to itself when it holds NaN; values here have no identity.
- YAML timestamps as literal operands: YAML decoding can produce time values, which `Values.Value` does not have.
- Colorizer.ScanToken: the inner loop of the scanner stands in a method of its own.
- YAML decoding, globbing, file and directory resolution: library and operating system behaviour.
- Spec fields that the modelled code does not read, and the message texts of errors, which are constructors here.
- The HTTP status server, basic authentication, the mail service and program start: plumbing.
- Configuration beyond the receiver list, terminal detection and log levels: single-branch facts.
- Wrap-around of the uint64 cycle number and of the int counters, which takes longer than any run.
