/** The streaming writer (internal/logging/logging.go:52-80): it buffers what it is given
    and passes on coloured lines, as far as the target lets it. */
module ColorWriter {
  import opened Colorizer
  import opened Text

  /** What the target does with one call: take everything, or write only the first `n`
      bytes, with or without an error. */
  datatype Outcome = Accept | Partial(n: nat, failed: bool)

  /** The calls to come are fixed by a script; after its end the target accepts. */
  datatype TargetState = TargetState(bytes: string, script: seq<Outcome>) {
    function Head(): Outcome {
      if |script| == 0 then Accept else script[0]
    }

    function Rest(): seq<Outcome> {
      if |script| == 0 then [] else script[1..]
    }

    function Taken(p: string): nat {
      if Head().Accept? || Head().n >= |p| then |p| else Head().n
    }

    predicate Failed() {
      Head().Partial? && Head().failed
    }

    /** What `w.target.Write` reported as a complete write. */
    predicate Accepts(p: string) {
      !Failed() && Taken(p) == |p|
    }

    function After(p: string): TargetState {
      TargetState(bytes + p[..Taken(p)], Rest())
    }
  }

  class Target {
    var state: TargetState

    constructor (script: seq<Outcome>)
      ensures state == TargetState("", script)
    {
      state := TargetState("", script);
    }

    method Write(p: string) returns (n: nat, failed: bool)
      modifies this
      ensures state == old(state).After(p)
      ensures n == old(state).Taken(p) && failed == old(state).Failed()
    {
      n, failed := state.Taken(p), state.Failed();
      state := state.After(p);
    }
  }

  // ---------- The writer as a function ----------

  /** `accepted` records the original lines the target has accepted, oldest first, and
      `wasted` the number of bytes it took in calls it did not complete. */
  datatype Pipe = Pipe(pending: string, target: TargetState, accepted: seq<string>, wasted: nat)

  /** Passing on complete lines until none is left or the target refuses one. */
  function Drain(p: Pipe, z: Scheme): (Pipe, bool)
    decreases |p.pending|
  {
    var k := IndexOf(p.pending, '\n');
    if k == |p.pending| then (p, true)
    else
      var line := p.pending[..k + 1];
      var colored := Colorize(line, z);
      if p.target.Accepts(colored) then
        Drain(Pipe(p.pending[k + 1..], p.target.After(colored), p.accepted + [line], p.wasted), z)
      else
        (p.(target := p.target.After(colored), wasted := p.wasted + p.target.Taken(colored)), false)
  }

  function WriteTo(p: Pipe, chunk: string, z: Scheme): (Pipe, bool) {
    Drain(p.(pending := p.pending + chunk), z)
  }

  class KeyValueColorWriter {
    const target: Target
    const z: Scheme
    var pending: string
    ghost var accepted: seq<string>
    ghost var wasted: nat

    constructor (target: Target, z: Scheme)
      ensures this.target == target && this.z == z && pending == "" && accepted == [] && wasted == 0
    {
      this.target, this.z, this.pending, this.accepted, this.wasted := target, z, "", [], 0;
    }

    ghost function State(): Pipe
      reads this, target
    {
      Pipe(pending, target.state, accepted, wasted)
    }

    /** Returns the length of the chunk, or 0 with an error. The chunk stays in the buffer
        then, so a caller that writes it again duplicates it. */
    method Write(chunk: string) returns (n: nat, ok: bool)
      modifies this, target
      ensures (State(), ok) == WriteTo(old(State()), chunk, z)
      ensures exists k :: IsWrite(old(State()), old(pending) + chunk, State(), ok, k, z)
      ensures n == if ok then |chunk| else 0
    {
      hide Colorize, TargetState.Taken, TargetState.After, TargetState.Failed, IsWrite, IndexOf;
      ghost var goal := WriteTo(State(), chunk, z);
      ghost var _ := WriteMeaning(State(), chunk, z);
      pending := pending + chunk;
      while true
        invariant Drain(State(), z) == goal
        decreases |pending|
      {
        var newlineIndex := IndexOf(pending, '\n');
        if newlineIndex == |pending| {
          break;
        }
        var line := pending[..newlineIndex + 1];
        var colored := ColorizeSlogTextLine(line, z);
        var written, failed := target.Write(colored);
        if failed {
          wasted := wasted + written;
          return 0, false;
        }
        if written != |colored| {
          wasted := wasted + written;
          return 0, false;
        }
        pending := pending[newlineIndex + 1..];
        accepted := accepted + [line];
      }
      return |chunk|, true;
    }
  }

  // ---------- Lines ----------

  predicate IsLine(line: string) {
    |line| > 0 && IndexOf(line, '\n') == |line| - 1
  }

  predicate AreLines(lines: seq<string>) {
    forall i :: 0 <= i < |lines| ==> IsLine(lines[i])
  }

  /** The complete lines of a stream, and the newline-free rest. */
  function Lines(s: string): seq<string>
    decreases |s|
  {
    var k := IndexOf(s, '\n');
    if k == |s| then [] else [s[..k + 1]] + Lines(s[k + 1..])
  }

  function Tail(s: string): string
    decreases |s|
  {
    var k := IndexOf(s, '\n');
    if k == |s| then s else Tail(s[k + 1..])
  }

  lemma {:induction false} FlattenSnoc(parts: seq<string>, last: string)
    ensures Flatten(parts + [last]) == Flatten(parts) + last
  {
    if |parts| > 0 {
      assert (parts + [last])[1..] == parts[1..] + [last];
      FlattenSnoc(parts[1..], last);
    }
  }

  /** There is only one way to cut a stream into lines and a newline-free rest. */
  lemma {:induction false} LinesUnique(lines: seq<string>, tail: string)
    requires AreLines(lines) && '\n' !in tail
    ensures Lines(Flatten(lines) + tail) == lines && Tail(Flatten(lines) + tail) == tail
  {
    var s := Flatten(lines) + tail;
    if |lines| == 0 {
      assert s == tail;
      assert IndexOf(tail, '\n') == |tail|;
    } else {
      var first, rest := lines[0], Flatten(lines[1..]) + tail;
      assert s == first + rest;
      NewlineFound(first, rest);
      LinesUnique(lines[1..], tail);
    }
  }

  lemma NewlineFound(line: string, rest: string)
    requires IsLine(line)
    ensures IndexOf(line + rest, '\n') == |line| - 1
    ensures (line + rest)[..|line|] == line && (line + rest)[|line|..] == rest
  {
    IndexOfUnique(line + rest, '\n', |line| - 1);
  }

  // ---------- When a write succeeds ----------

  /** What the target does with its `i`-th call from now on. */
  function OutcomeOf(script: seq<Outcome>, i: nat): Outcome {
    if i < |script| then script[i] else Accept
  }

  function AfterCalls(script: seq<Outcome>, n: nat): seq<Outcome> {
    if n <= |script| then script[n..] else []
  }

  /** The target takes all `size` bytes and reports no error. */
  predicate Completes(o: Outcome, size: nat) {
    o.Accept? || (!o.failed && o.n >= size)
  }

  function TakenOf(o: Outcome, text: string): string {
    if o.Accept? || o.n >= |text| then text else text[..o.n]
  }

  /** The first `n` calls are completed, and so is every one unless `ok` is false: then the
      next is not, and it is the last. */
  predicate CallsMade(script: seq<Outcome>, lines: seq<string>, n: nat, ok: bool, z: Scheme) {
    && n <= |lines| && (ok <==> n == |lines|)
    && (forall i :: 0 <= i < n ==> Completes(OutcomeOf(script, i), |Colorize(lines[i], z)|))
    && (!ok ==> !Completes(OutcomeOf(script, n), |Colorize(lines[n], z)|))
  }

  /** The coloured lines, in order, and what was taken of the refused one. */
  function Sent(script: seq<Outcome>, lines: seq<string>, n: nat, ok: bool, z: Scheme): string
    requires n <= |lines| && (ok <==> n == |lines|)
  {
    ColorAll(lines[..n], z) + (if ok then "" else TakenOf(OutcomeOf(script, n), Colorize(lines[n], z)))
  }

  /** A call of `Write` in terms of the complete lines of buffer and chunk: `n` of them are
      accepted, each by one completed call; if that is not all of them the write fails,
      after one call for the next line that the target does not complete, and the buffer
      then begins with that line. */
  ghost predicate IsWrite(p: Pipe, received: string, p': Pipe, ok: bool, n: nat, z: Scheme) {
    var lines, script := Lines(received), p.target.script;
    && CallsMade(script, lines, n, ok, z)
    && p'.accepted == p.accepted + lines[..n]
    && p'.pending == Flatten(lines[n..]) + Tail(received)
    && p'.target.script == AfterCalls(script, if ok then n else n + 1)
    && p'.target.bytes == p.target.bytes + Sent(script, lines, n, ok, z)
  }

  lemma {:induction false} ColorAllCons(first: string, lines: seq<string>, z: Scheme)
    ensures ColorAll([first] + lines, z) == Colorize(first, z) + ColorAll(lines, z)
  {
    hide Colorize;
    if |lines| == 0 {
      assert ColorAll([first], z) == ColorAll([], z) + Colorize(first, z) by {
        assert [first][..0] == [];
      }
      assert [first] + lines == [first];
      EmptyLeft(Colorize(first, z));
      EmptyRight(Colorize(first, z));
    } else {
      var before, last := lines[..|lines| - 1], lines[|lines| - 1];
      ColorAllCons(first, before, z);
      assert ([first] + lines)[..|lines|] == [first] + before;
      Assoc(Colorize(first, z), ColorAll(before, z), Colorize(last, z));
    }
  }

  lemma FirstCall(t: TargetState, colored: string)
    ensures t.Accepts(colored) <==> Completes(OutcomeOf(t.script, 0), |colored|)
    ensures t.After(colored).bytes == t.bytes + TakenOf(OutcomeOf(t.script, 0), colored)
    ensures Completes(OutcomeOf(t.script, 0), |colored|) ==> t.After(colored).bytes == t.bytes + colored
    ensures t.After(colored).script == AfterCalls(t.script, 1)
  {
    assert colored[..|colored|] == colored;
  }

  lemma LaterCalls(script: seq<Outcome>)
    ensures forall i: nat :: OutcomeOf(AfterCalls(script, 1), i) == OutcomeOf(script, i + 1)
    ensures forall n: nat :: AfterCalls(AfterCalls(script, 1), n) == AfterCalls(script, n + 1)
  {
  }

  lemma CallsAfterFirst(script: seq<Outcome>, first: string, lines: seq<string>, n: nat, ok: bool, z: Scheme)
    requires Completes(OutcomeOf(script, 0), |Colorize(first, z)|)
    requires CallsMade(AfterCalls(script, 1), lines, n, ok, z)
    ensures CallsMade(script, [first] + lines, n + 1, ok, z)
    ensures Sent(script, [first] + lines, n + 1, ok, z)
         == Colorize(first, z) + Sent(AfterCalls(script, 1), lines, n, ok, z)
  {
    hide Colorize, Completes, AfterCalls, OutcomeOf, ColorAll, TakenOf;
    LaterCalls(script);
    var all := [first] + lines;
    forall i | 0 <= i < n + 1 ensures Completes(OutcomeOf(script, i), |Colorize(all[i], z)|) {
      if i > 0 {
        assert all[i] == lines[i - 1];
        assert Completes(OutcomeOf(AfterCalls(script, 1), i - 1), |Colorize(lines[i - 1], z)|);
      }
    }
    assert all[..n + 1] == [first] + lines[..n];
    ColorAllCons(first, lines[..n], z);
    if !ok {
      assert all[n + 1] == lines[n];
      Assoc(Colorize(first, z), ColorAll(lines[..n], z), TakenOf(OutcomeOf(script, n + 1), Colorize(lines[n], z)));
    } else {
      Assoc(Colorize(first, z), ColorAll(lines[..n], z), "");
    }
  }

  lemma AcceptedThenWrite(p: Pipe, line: string, rest: string, p': Pipe, ok: bool, n: nat, z: Scheme)
    requires Lines(p.pending) == [line] + Lines(rest) && Tail(p.pending) == Tail(rest)
    requires p.target.Accepts(Colorize(line, z))
    requires IsWrite(Pipe(rest, p.target.After(Colorize(line, z)), p.accepted + [line], p.wasted), rest, p', ok, n, z)
    ensures IsWrite(p, p.pending, p', ok, n + 1, z)
  {
    hide Colorize, CallsMade, AfterCalls, OutcomeOf, Sent, Lines, Tail, Flatten, Completes,
         TargetState.After, TargetState.Accepts;
    var script, lines, colored := p.target.script, Lines(rest), Colorize(line, z);
    FirstCall(p.target, colored);
    LaterCalls(script);
    MadeIsBounded(AfterCalls(script, 1), lines, n, ok, z);
    CallsAfterFirst(script, line, lines, n, ok, z);
    assert ([line] + lines)[..n + 1] == [line] + lines[..n];
    assert ([line] + lines)[n + 1..] == lines[n..];
    Assoc(p.accepted, [line], lines[..n]);
    MadeIsBounded(script, [line] + lines, n + 1, ok, z);
    Assoc(p.target.bytes, colored, Sent(AfterCalls(script, 1), lines, n, ok, z));
  }

  lemma MadeIsBounded(script: seq<Outcome>, lines: seq<string>, n: nat, ok: bool, z: Scheme)
    requires CallsMade(script, lines, n, ok, z)
    ensures n <= |lines| && (ok <==> n == |lines|)
  {
  }

  lemma Rejoined(s: string, k: nat)
    requires k < |s|
    ensures s[..k + 1] + s[k + 1..] == s
  {
  }

  lemma NextLine(s: string, k: nat, line: string, rest: string)
    requires k == IndexOf(s, '\n') < |s| && line == s[..k + 1] && rest == s[k + 1..]
    ensures Lines(s) == [line] + Lines(rest) && Tail(s) == Tail(rest)
  {
    NextLines(s, k, line, rest);
    NextTail(s, k, rest);
  }

  lemma NextLines(s: string, k: nat, line: string, rest: string)
    requires k == IndexOf(s, '\n') < |s| && line == s[..k + 1] && rest == s[k + 1..]
    ensures Lines(s) == [line] + Lines(rest)
  {
    var more := Lines(rest);
    hide IndexOf, Flatten, Tail;
    assert Lines(s) == [line] + more;
  }

  lemma NextTail(s: string, k: nat, rest: string)
    requires k == IndexOf(s, '\n') < |s| && rest == s[k + 1..]
    ensures Tail(s) == Tail(rest)
  {
    hide IndexOf, Flatten, Lines;
  }

  lemma DrainStep(p: Pipe, k: nat, z: Scheme)
    requires k == IndexOf(p.pending, '\n') < |p.pending|
    ensures var colored := Colorize(p.pending[..k + 1], z);
      Drain(p, z)
      == if p.target.Accepts(colored) then
           Drain(Pipe(p.pending[k + 1..], p.target.After(colored), p.accepted + [p.pending[..k + 1]], p.wasted), z)
         else
           (p.(target := p.target.After(colored), wasted := p.wasted + p.target.Taken(colored)), false)
  {
    hide Colorize, IndexOf, TargetState.After, TargetState.Accepts, TargetState.Taken;
  }

  /** `p` after its first line was accepted. */
  function Onward(p: Pipe, line: string, rest: string, z: Scheme): Pipe {
    Pipe(rest, p.target.After(Colorize(line, z)), p.accepted + [line], p.wasted)
  }

  lemma FirstLineWritten(p: Pipe, k: nat, line: string, rest: string, n: nat, z: Scheme) returns (m: nat)
    requires k == IndexOf(p.pending, '\n') < |p.pending| && line == p.pending[..k + 1] && rest == p.pending[k + 1..]
    requires var (p', ok) := Drain(Onward(p, line, rest, z), z); IsWrite(Onward(p, line, rest, z), rest, p', ok, n, z)
    ensures IsWrite(p, p.pending, Drain(p, z).0, Drain(p, z).1, m, z)
  {
    hide Colorize, IsWrite, Drain, TargetState.After, TargetState.Accepts, Lines, Tail, IndexOf;
    var q := Onward(p, line, rest, z);
    Rejoined(p.pending, k);
    NextLine(p.pending, k, line, rest);
    DrainStep(p, k, z);
    if p.target.Accepts(Colorize(line, z)) {
      AcceptedThenWrite(p, line, rest, Drain(q, z).0, Drain(q, z).1, n, z);
      m := n + 1;
    } else {
      RefusedWrite(p, line, rest, z);
      m := 0;
    }
  }

  lemma {:induction false} DrainIsWrite(p: Pipe, z: Scheme) returns (n: nat)
    ensures IsWrite(p, p.pending, Drain(p, z).0, Drain(p, z).1, n, z)
    decreases |p.pending|
  {
    var k := IndexOf(p.pending, '\n');
    if k == |p.pending| {
      n := 0;
      NothingToWrite(p, z);
    } else {
      hide Colorize, IsWrite, Drain, IndexOf;
      var line, rest := p.pending[..k + 1], p.pending[k + 1..];
      n := DrainIsWrite(Onward(p, line, rest, z), z);
      n := FirstLineWritten(p, k, line, rest, n, z);
    }
  }

  lemma NothingToWrite(p: Pipe, z: Scheme)
    requires IndexOf(p.pending, '\n') == |p.pending|
    ensures IsWrite(p, p.pending, p, true, 0, z)
  {
    EmptyLeft(p.pending);
    EmptyRight(p.accepted);
    EmptyRight(p.target.bytes);
  }

  lemma RefusedWrite(p: Pipe, line: string, rest: string, z: Scheme)
    requires line + rest == p.pending && Lines(p.pending) == [line] + Lines(rest) && Tail(p.pending) == Tail(rest)
    requires !p.target.Accepts(Colorize(line, z))
    ensures IsWrite(p, p.pending,
                    p.(target := p.target.After(Colorize(line, z)), wasted := p.wasted + p.target.Taken(Colorize(line, z))),
                    false, 0, z)
  {
    hide Colorize, Completes, TakenOf, TargetState.Accepts, TargetState.Taken, TargetState.After, OutcomeOf, AfterCalls;
    FirstCall(p.target, Colorize(line, z));
    var lines := [line] + Lines(rest);
    LinesRebuild(rest);
    EmptyRight(p.accepted);
    Assoc(line, Flatten(Lines(rest)), Tail(rest));
    assert lines[1..] == Lines(rest) && lines[0..] == lines;
    EmptyLeft(TakenOf(OutcomeOf(p.target.script, 0), Colorize(line, z)));
  }

  lemma FlattenCons(first: string, parts: seq<string>)
    ensures Flatten([first] + parts) == first + Flatten(parts)
  {
    assert ([first] + parts)[1..] == parts;
  }

  lemma {:induction false} LinesRebuild(s: string)
    ensures Flatten(Lines(s)) + Tail(s) == s
    decreases |s|
  {
    hide Flatten, IndexOf;
    var k := IndexOf(s, '\n');
    if k < |s| {
      var line, rest := s[..k + 1], s[k + 1..];
      LinesRebuild(rest);
      FlattenCons(line, Lines(rest));
      Assoc(line, Flatten(Lines(rest)), Tail(rest));
      FirstLine(s, k);
    } else {
      NoLines(s);
    }
  }

  lemma NoLines(s: string)
    ensures Flatten([]) + s == s
  {
  }

  /** Every call of `Write`, from any state of buffer and target: see `IsWrite`. */
  lemma WriteMeaning(p: Pipe, chunk: string, z: Scheme) returns (n: nat)
    ensures IsWrite(p, p.pending + chunk, WriteTo(p, chunk, z).0, WriteTo(p, chunk, z).1, n, z)
  {
    hide Drain;
    n := DrainIsWrite(p.(pending := p.pending + chunk), z);
  }

  /** A write succeeds if and only if the target completes the call for every line. */
  lemma WriteSucceedsIff(p: Pipe, chunk: string, z: Scheme)
    ensures var lines := Lines(p.pending + chunk);
      WriteTo(p, chunk, z).1
      <==> forall i :: 0 <= i < |lines| ==> Completes(OutcomeOf(p.target.script, i), |Colorize(lines[i], z)|)
  {
    hide Drain, Colorize, Lines, Completes;
    var n := WriteMeaning(p, chunk, z);
  }

  // ---------- Conservation ----------

  /** Nothing is lost, repeated or reordered: the accepted lines and the buffer are what
      has been received. */
  predicate Conserves(p: Pipe, received: string) {
    AreLines(p.accepted) && Flatten(p.accepted) + p.pending == received
  }

  /** Nothing is on the target but the coloured accepted lines. */
  predicate Faithful(p: Pipe, z: Scheme) {
    p.target.bytes == ColorAll(p.accepted, z)
  }

  function ColorAll(lines: seq<string>, z: Scheme): string {
    if |lines| == 0 then "" else ColorAll(lines[..|lines| - 1], z) + Colorize(lines[|lines| - 1], z)
  }

  /** The target takes a line whole or not at all. */
  predicate WholeOrNothing(script: seq<Outcome>) {
    forall i :: 0 <= i < |script| ==> script[i].Accept? || script[i].n == 0
  }

  lemma FirstLine(pending: string, k: nat)
    requires k == IndexOf(pending, '\n') < |pending|
    ensures IsLine(pending[..k + 1]) && pending[..k + 1] + pending[k + 1..] == pending
  {
    IndexOfUnique(pending[..k + 1], '\n', k);
  }

  lemma {:induction false} DrainConserves(p: Pipe, received: string, z: Scheme)
    requires Conserves(p, received)
    ensures Conserves(Drain(p, z).0, received)
    ensures Drain(p, z).1 ==> '\n' !in Drain(p, z).0.pending
    decreases |p.pending|
  {
    var k := IndexOf(p.pending, '\n');
    if k < |p.pending| {
      FirstLine(p.pending, k);
      var line, rest := p.pending[..k + 1], p.pending[k + 1..];
      var target := p.target.After(Colorize(line, z));
      FlattenSnoc(p.accepted, line);
      Assoc(Flatten(p.accepted), line, rest);
      if p.target.Accepts(Colorize(line, z)) {
        DrainConserves(Pipe(rest, target, p.accepted + [line], p.wasted), received, z);
      }
    }
  }

  lemma ColorAllSnoc(lines: seq<string>, last: string, z: Scheme)
    ensures ColorAll(lines + [last], z) == ColorAll(lines, z) + Colorize(last, z)
  {
    assert (lines + [last])[..|lines|] == lines;
  }

  /** The target holds the coloured accepted lines and, somewhere among them, what was
      wasted. */
  predicate Accounted(p: Pipe, z: Scheme) {
    && |p.target.bytes| == |ColorAll(p.accepted, z)| + p.wasted
    && (p.wasted == 0 ==> Faithful(p, z))
  }

  lemma CallAccounted(t: TargetState, colored: string)
    ensures |t.After(colored).bytes| == |t.bytes| + t.Taken(colored)
    ensures t.Accepts(colored) ==> t.After(colored).bytes == t.bytes + colored
    ensures t.Taken(colored) == 0 ==> t.After(colored).bytes == t.bytes
  {
    assert colored[..|colored|] == colored;
    EmptyRight(t.bytes);
  }

  lemma AcceptedLineAccounted(p: Pipe, line: string, rest: string, z: Scheme)
    requires Accounted(p, z) && p.target.Accepts(Colorize(line, z))
    ensures Accounted(Pipe(rest, p.target.After(Colorize(line, z)), p.accepted + [line], p.wasted), z)
  {
    hide Colorize, ColorAll;
    CallAccounted(p.target, Colorize(line, z));
    ColorAllSnoc(p.accepted, line, z);
  }

  lemma RefusedLineAccounted(p: Pipe, colored: string, z: Scheme)
    requires Accounted(p, z) && !p.target.Accepts(colored)
    ensures Accounted(p.(target := p.target.After(colored), wasted := p.wasted + p.target.Taken(colored)), z)
  {
    hide ColorAll, TargetState.Taken, TargetState.After, TargetState.Accepts;
    CallAccounted(p.target, colored);
  }

  lemma {:induction false} DrainAccounted(p: Pipe, z: Scheme)
    requires Accounted(p, z)
    ensures Accounted(Drain(p, z).0, z)
    decreases |p.pending|
  {
    hide Colorize, Accounted, TargetState.Taken, TargetState.After, TargetState.Accepts;
    var k := IndexOf(p.pending, '\n');
    if k < |p.pending| {
      var line, rest := p.pending[..k + 1], p.pending[k + 1..];
      var colored := Colorize(line, z);
      if p.target.Accepts(colored) {
        AcceptedLineAccounted(p, line, rest, z);
        DrainAccounted(Pipe(rest, p.target.After(colored), p.accepted + [line], p.wasted), z);
      } else {
        RefusedLineAccounted(p, colored, z);
      }
    }
  }

  /** A target that takes a line whole or not at all wastes nothing. */
  lemma {:induction false} DrainWastesNothing(p: Pipe, z: Scheme)
    requires WholeOrNothing(p.target.script)
    ensures WholeOrNothing(Drain(p, z).0.target.script) && Drain(p, z).0.wasted == p.wasted
    decreases |p.pending|
  {
    hide Colorize, WholeOrNothing, TargetState.Taken, TargetState.Rest, TargetState.After, TargetState.Accepts;
    var k := IndexOf(p.pending, '\n');
    if k < |p.pending| {
      var line := p.pending[..k + 1];
      var colored := Colorize(line, z);
      RestWholeOrNothing(p.target, colored);
      if p.target.Accepts(colored) {
        DrainWastesNothing(Pipe(p.pending[k + 1..], p.target.After(colored), p.accepted + [line], p.wasted), z);
      }
    }
  }

  lemma RestWholeOrNothing(t: TargetState, colored: string)
    requires WholeOrNothing(t.script)
    ensures WholeOrNothing(t.After(colored).script) && (!t.Accepts(colored) ==> t.Taken(colored) == 0)
  {
    assert |t.script| > 0 ==> t.script[0].Accept? || t.script[0].n == 0;
  }

  // ---------- Any sequence of writes ----------

  /** A fresh writer after a sequence of writes, and whether the last one succeeded. */
  function WriteAll(script: seq<Outcome>, chunks: seq<string>, z: Scheme): (Pipe, bool) {
    if |chunks| == 0 then (Pipe("", TargetState("", script), [], 0), true)
    else WriteTo(WriteAll(script, chunks[..|chunks| - 1], z).0, chunks[|chunks| - 1], z)
  }

  lemma ReceivedMore(p: Pipe, received: string, chunk: string)
    requires Conserves(p, received)
    ensures Conserves(p.(pending := p.pending + chunk), received + chunk)
  {
    Assoc(Flatten(p.accepted), p.pending, chunk);
  }

  /** After every write, successful or not, the original lines accepted so far followed by
      the buffer are all the bytes received, in order. */
  lemma {:induction false} WritesConserve(script: seq<Outcome>, chunks: seq<string>, z: Scheme)
    ensures Conserves(WriteAll(script, chunks, z).0, Flatten(chunks))
    ensures WriteAll(script, chunks, z).1 ==> '\n' !in WriteAll(script, chunks, z).0.pending
  {
    hide Drain;
    if |chunks| > 0 {
      hide Conserves;
      var before, chunk := chunks[..|chunks| - 1], chunks[|chunks| - 1];
      WritesConserve(script, before, z);
      assert before + [chunk] == chunks;
      FlattenSnoc(before, chunk);
      ReceivedMore(WriteAll(script, before, z).0, Flatten(before), chunk);
      DrainConserves(WriteAll(script, before, z).0.(pending := WriteAll(script, before, z).0.pending + chunk),
                     Flatten(chunks), z);
    }
  }

  lemma {:induction false} WritesAccounted(script: seq<Outcome>, chunks: seq<string>, z: Scheme)
    ensures Accounted(WriteAll(script, chunks, z).0, z)
  {
    if |chunks| > 0 {
      WritesAccounted(script, chunks[..|chunks| - 1], z);
      var p := WriteAll(script, chunks[..|chunks| - 1], z).0;
      DrainAccounted(p.(pending := p.pending + chunks[|chunks| - 1]), z);
    }
  }

  /** The target holds exactly the coloured accepted lines if and only if no call that it
      did not complete left anything on it: such a line is sent again as a whole. */
  lemma WritesFaithful(script: seq<Outcome>, chunks: seq<string>, z: Scheme)
    ensures var p := WriteAll(script, chunks, z).0;
      Faithful(p, z) <==> p.wasted == 0
  {
    WritesAccounted(script, chunks, z);
  }

  lemma {:induction false} WholeOrNothingWastesNothing(script: seq<Outcome>, chunks: seq<string>, z: Scheme)
    requires WholeOrNothing(script)
    ensures var p := WriteAll(script, chunks, z).0;
      WholeOrNothing(p.target.script) && p.wasted == 0
  {
    if |chunks| > 0 {
      WholeOrNothingWastesNothing(script, chunks[..|chunks| - 1], z);
      var p := WriteAll(script, chunks[..|chunks| - 1], z).0;
      DrainWastesNothing(p.(pending := p.pending + chunks[|chunks| - 1]), z);
    }
  }

  /** Streaming is independent of chunking, and of every refusal on the way: once a write
      succeeds, the accepted lines are the complete lines of the stream and the buffer its
      newline-free rest; the target holds their colouring exactly when nothing was wasted. */
  lemma ChunkingIrrelevant(script: seq<Outcome>, chunks: seq<string>, z: Scheme)
    requires WriteAll(script, chunks, z).1
    ensures var p, stream := WriteAll(script, chunks, z).0, Flatten(chunks);
      && p.accepted == Lines(stream)
      && p.pending == Tail(stream)
      && (p.target.bytes == ColorAll(Lines(stream), z) <==> p.wasted == 0)
      && (WholeOrNothing(script) ==> p.wasted == 0)
  {
    WritesConserve(script, chunks, z);
    WritesFaithful(script, chunks, z);
    if WholeOrNothing(script) {
      WholeOrNothingWastesNothing(script, chunks, z);
    }
    var p := WriteAll(script, chunks, z).0;
    LinesUnique(p.accepted, p.pending);
  }

  /** A target without failures never makes a write fail. */
  lemma {:induction false} WillingTargetSucceeds(chunks: seq<string>, z: Scheme)
    ensures WriteAll([], chunks, z).1 && WriteAll([], chunks, z).0.target.script == []
  {
    if |chunks| > 0 {
      WillingTargetSucceeds(chunks[..|chunks| - 1], z);
      var p := WriteAll([], chunks[..|chunks| - 1], z).0;
      DrainWilling(p.(pending := p.pending + chunks[|chunks| - 1]), z);
    }
  }

  lemma {:induction false} DrainWilling(p: Pipe, z: Scheme)
    requires p.target.script == []
    ensures Drain(p, z).1 && Drain(p, z).0.target.script == []
    decreases |p.pending|
  {
    var k := IndexOf(p.pending, '\n');
    if k < |p.pending| {
      hide Drain, Colorize, IndexOf;
      var line := p.pending[..k + 1];
      DrainStep(p, k, z);
      DrainWilling(Pipe(p.pending[k + 1..], p.target.After(Colorize(line, z)), p.accepted + [line], p.wasted), z);
    }
  }

  /** Any two splittings of one stream leave a willing target with the same bytes. */
  lemma SplittingsAgree(a: seq<string>, b: seq<string>, z: Scheme)
    requires Flatten(a) == Flatten(b)
    ensures WriteAll([], a, z) == WriteAll([], b, z)
  {
    hide WriteAll, Lines, Tail, ColorAll;
    WillingTargetSucceeds(a, z);
    WillingTargetSucceeds(b, z);
    ChunkingIrrelevant([], a, z);
    ChunkingIrrelevant([], b, z);
  }

  lemma PartsLackChar(a: string, b: string, c: char)
    requires c !in a + b
    ensures c !in a && c !in b
  {
    assert forall x :: x in a || x in b ==> x in a + b;
  }

  lemma {:induction false} StripColorAll(lines: seq<string>, rest: string, z: Scheme)
    requires IsScheme(z) && ESC !in Flatten(lines)
    ensures Strip(ColorAll(lines, z) + rest) == Flatten(lines) + Strip(rest)
  {
    if |lines| == 0 {
      assert ColorAll(lines, z) + rest == rest;
    } else {
      var before, last := lines[..|lines| - 1], lines[|lines| - 1];
      assert before + [last] == lines;
      FlattenSnoc(before, last);
      PartsLackChar(Flatten(before), last, ESC);
      StripColorAll(before, Colorize(last, z) + rest, z);
      StripColorized(last, rest, z);
      Assoc(ColorAll(before, z), Colorize(last, z), rest);
      Assoc(Flatten(before), last, Strip(rest));
    }
  }

  /** End to end: deleting the escape sequences from what the target holds, and appending
      the buffer, gives back every byte the writer was ever given. */
  lemma StrippedOutputPlusPending(script: seq<Outcome>, chunks: seq<string>, z: Scheme)
    requires WriteAll(script, chunks, z).0.wasted == 0 && IsScheme(z) && ESC !in Flatten(chunks)
    ensures var p := WriteAll(script, chunks, z).0;
      Strip(p.target.bytes) + p.pending == Flatten(chunks)
  {
    WritesConserve(script, chunks, z);
    WritesFaithful(script, chunks, z);
    var p := WriteAll(script, chunks, z).0;
    PartsLackChar(Flatten(p.accepted), p.pending, ESC);
    StripColorAll(p.accepted, "", z);
    EmptyRight(p.target.bytes);
    EmptyRight(Flatten(p.accepted));
  }
}
