/** What a probe's verdict means (internal/monitor/probe.go:26-61, 254-375): when each
    operation passes, in terms of the values its operands stand for, and when a whole probe
    passes, in terms of the replies. */
module ProbeVerdicts {
  import opened ProbeEquality
  import opened ProbeProgram
  import opened ProbeTransforms
  import opened Specs
  import opened Text
  import opened Values
  import opened Wrappers

  /** The value an operand stands for: the extract it names, or its literal. */
  ghost predicate Means(o: ProbeOperand, extracted: Extracted, v: Value) {
    || (Blank(o.ref) && v == o.value)
    || (!Blank(o.ref) && TrimSpace(o.ref) in extracted && v == extracted[TrimSpace(o.ref)])
  }

  predicate Passes(a: ProbeAssert, extracted: Extracted, lib: Library) {
    EvaluateAssert(a, extracted, lib) == None
  }

  /** An assert with this operation, whose operands stand for `x` and `y`. */
  ghost predicate Compares(a: ProbeAssert, op: string, extracted: Extracted, x: Value, y: Value) {
    TrimSpace(a.op) == op && Means(a.left, extracted, x) && Means(a.right, extracted, y)
  }

  lemma OperandMeaning(o: ProbeOperand, extracted: Extracted, v: Value)
    ensures Means(o, extracted, v) <==> ResolveOperand(o, extracted) == Ok(v)
  {
    hide TrimSpace;
  }

  lemma BinaryVerdict(a: ProbeAssert, op: string, extracted: Extracted, x: Value, y: Value, lib: Library)
    requires Compares(a, op, extracted, x, y) && op != "all_equal"
    ensures EvaluateAssert(a, extracted, lib) == EvaluateBinary(op, x, y, lib)
  {
    hide TrimSpace, EvaluateBinary, Means, ResolveOperand;
    OperandMeaning(a.left, extracted, x);
    OperandMeaning(a.right, extracted, y);
  }

  /** Nothing passes without both values. */
  lemma PassingHasMeanings(a: ProbeAssert, extracted: Extracted, lib: Library) returns (x: Value, y: Value)
    requires Passes(a, extracted, lib) && TrimSpace(a.op) != "all_equal"
    ensures Means(a.left, extracted, x) && Means(a.right, extracted, y)
  {
    hide EvaluateBinary, TrimSpace, ResolveOperand;
    x, y := ResolveOperand(a.left, extracted).value, ResolveOperand(a.right, extracted).value;
    OperandMeaning(a.left, extracted, x);
    OperandMeaning(a.right, extracted, y);
  }

  // ---------- Equality ----------

  /** `eq` asks for equality, `neq` for the opposite, and `all_equal` on two operands is
      `eq` on them. */
  lemma EqualityVerdicts(eq: ProbeAssert, neq: ProbeAssert, all: ProbeAssert, extracted: Extracted,
                         x: Value, y: Value, lib: Library)
    requires Compares(eq, "eq", extracted, x, y) && Compares(neq, "neq", extracted, x, y)
    requires TrimSpace(all.op) == "all_equal" && all.values == [eq.left, eq.right]
    ensures Passes(eq, extracted, lib) <==> ValuesEqual(x, y, lib)
    ensures Passes(eq, extracted, lib) <==> !Passes(neq, extracted, lib)
    ensures Passes(eq, extracted, lib) <==> Passes(all, extracted, lib)
  {
    hide TrimSpace, ValuesEqual, ResolveOperand, Means;
    BinaryVerdict(eq, "eq", extracted, x, y, lib);
    BinaryVerdict(neq, "neq", extracted, x, y, lib);
    ResolveEach(all.values, [x, y], extracted);
    assert AllEqualFirst([x, y], lib) <==> ValuesEqual([x, y][0], [x, y][1], lib);
  }

  /** `all_equal` passes exactly when every operand has a value and any two are equal. */
  lemma AllEqualVerdict(a: ProbeAssert, values: seq<Value>, extracted: Extracted, lib: Library)
    requires TrimSpace(a.op) == "all_equal" && |values| == |a.values|
    requires forall i :: 0 <= i < |values| ==> Means(a.values[i], extracted, values[i])
    ensures Passes(a, extracted, lib) <==>
              forall i, j :: 0 <= i < j < |values| ==> ValuesEqual(values[i], values[j], lib)
  {
    hide TrimSpace, Means, AllEqualFirst, ValuesEqual;
    ResolveEach(a.values, values, extracted);
    AllEqualIsPairwise(values, lib);
  }

  lemma {:induction false} ResolveEach(operands: seq<ProbeOperand>, values: seq<Value>, extracted: Extracted)
    requires |values| == |operands|
    requires forall i :: 0 <= i < |values| ==> Means(operands[i], extracted, values[i])
    ensures ResolveAll(operands, extracted) == Ok(values)
  {
    hide Means, ResolveOperand;
    if |operands| > 0 {
      var last := |operands| - 1;
      ResolveEach(operands[..last], values[..last], extracted);
      OperandMeaning(operands[last], extracted, values[last]);
      assert values == values[..last] + [values[last]];
    }
  }

  // ---------- Order ----------

  /** Both values are numbers, and the same one. */
  predicate SameNumber(x: Value, y: Value, lib: Library) {
    var a, b := NumericValue(x, lib), NumericValue(y, lib);
    a.Some? && a == b && a != Some(NaN)
  }

  predicate IsNumber(x: Value, lib: Library) {
    NumericValue(x, lib).Some? && NumericValue(x, lib) != Some(NaN)
  }

  predicate ComparesAs(op: string, a: Option<Float>, b: Option<Float>) {
    && a.Some? && b.Some?
    && (if op == "gt" then FloatLess(b.value, a.value)
        else if op == "gte" then FloatLess(b.value, a.value) || FloatEqual(a.value, b.value)
        else if op == "lt" then FloatLess(a.value, b.value)
        else FloatLess(a.value, b.value) || FloatEqual(a.value, b.value))
  }

  lemma NumericVerdict(a: ProbeAssert, op: string, extracted: Extracted, x: Value, y: Value, lib: Library)
    requires Compares(a, op, extracted, x, y) && op in {"gt", "gte", "lt", "lte"}
    ensures Passes(a, extracted, lib) <==> ComparesAs(op, NumericValue(x, lib), NumericValue(y, lib))
  {
    hide TrimSpace, NumericValue, Means, EvaluateAssert, FloatLess, FloatEqual, Compares;
    BinaryVerdict(a, op, extracted, x, y, lib);
  }

  /** The four comparisons on the same two values, and `gt` with them exchanged. */
  ghost predicate FourOf(gt: ProbeAssert, gte: ProbeAssert, lt: ProbeAssert, lte: ProbeAssert, swapped: ProbeAssert,
                         extracted: Extracted, x: Value, y: Value)
  {
    && Compares(gt, "gt", extracted, x, y) && Compares(gte, "gte", extracted, x, y)
    && Compares(lt, "lt", extracted, x, y) && Compares(lte, "lte", extracted, x, y)
    && Compares(swapped, "gt", extracted, y, x)
  }

  /** The laws of an order: `lt` is `gt` the other way round, the lax forms add equality,
      numbers are comparable in exactly one way, and nothing else is comparable. */
  lemma OrderVerdicts(gt: ProbeAssert, gte: ProbeAssert, lt: ProbeAssert, lte: ProbeAssert, swapped: ProbeAssert,
                      extracted: Extracted, x: Value, y: Value, lib: Library)
    requires FourOf(gt, gte, lt, lte, swapped, extracted, x, y)
    ensures Passes(lt, extracted, lib) <==> Passes(swapped, extracted, lib)
    ensures Passes(gte, extracted, lib) <==> Passes(gt, extracted, lib) || SameNumber(x, y, lib)
    ensures Passes(lte, extracted, lib) <==> IsNumber(x, lib) && IsNumber(y, lib) && !Passes(gt, extracted, lib)
    ensures IsNumber(x, lib) && IsNumber(y, lib) ==>
      && (Passes(gt, extracted, lib) || Passes(lt, extracted, lib) || SameNumber(x, y, lib))
      && !(Passes(gt, extracted, lib) && Passes(lt, extracted, lib))
      && !(Passes(gt, extracted, lib) && SameNumber(x, y, lib))
      && !(Passes(lt, extracted, lib) && SameNumber(x, y, lib))
    ensures !(IsNumber(x, lib) && IsNumber(y, lib)) ==>
      !Passes(gt, extracted, lib) && !Passes(gte, extracted, lib) && !Passes(lt, extracted, lib) && !Passes(lte, extracted, lib)
  {
    hide TrimSpace, NumericValue, Compares, Passes;
    NumericVerdict(gt, "gt", extracted, x, y, lib);
    NumericVerdict(gte, "gte", extracted, x, y, lib);
    NumericVerdict(lt, "lt", extracted, x, y, lib);
    NumericVerdict(lte, "lte", extracted, x, y, lib);
    NumericVerdict(swapped, "gt", extracted, y, x, lib);
  }

  /** It is the order of the numbers, with the infinities at its ends. */
  lemma GreaterVerdict(gt: ProbeAssert, extracted: Extracted, x: Value, y: Value, lib: Library)
    requires Compares(gt, "gt", extracted, x, y)
    requires IsNumber(x, lib) && IsNumber(y, lib)
    ensures var a, b := NumericValue(x, lib).value, NumericValue(y, lib).value;
      && (a.Finite? && b.Finite? ==> (Passes(gt, extracted, lib) <==> a.r > b.r))
      && (a == PositiveInfinity ==> (Passes(gt, extracted, lib) <==> b != PositiveInfinity))
      && (b == NegativeInfinity ==> (Passes(gt, extracted, lib) <==> a != NegativeInfinity))
      && (a == NegativeInfinity || b == PositiveInfinity ==> !Passes(gt, extracted, lib))
  {
    hide TrimSpace, NumericValue, Compares, Passes;
    NumericVerdict(gt, "gt", extracted, x, y, lib);
  }

  // ---------- Text ----------

  /** `contains` finds the right text inside the left one. */
  lemma ContainsVerdict(a: ProbeAssert, extracted: Extracted, x: Value, y: Value, lib: Library)
    requires Compares(a, "contains", extracted, x, y)
    ensures Passes(a, extracted, lib) <==>
              x.Text? && y.Text? && exists before, after :: x.text == before + y.text + after
  {
    hide TrimSpace, Means, EvaluateAssert, Contains;
    BinaryVerdict(a, "contains", extracted, x, y, lib);
    if x.Text? && y.Text? {
      ContainsMeaning(x.text, y.text);
    }
  }

  lemma ContainsMeaning(s: string, sub: string)
    ensures Contains(s, sub) <==> exists before, after :: s == before + sub + after
  {
    if i :| 0 <= i <= |s| - |sub| && OccursAt(s, sub, i) {
      assert s == s[..i] + sub + s[i + |sub|..];
    }
    if before, after :| s == before + sub + after {
      assert s[|before|..|before| + |sub|] == sub;
      assert OccursAt(s, sub, |before|);
    }
  }

  /** `matches` takes the right text as the pattern and the left one as the subject. */
  lemma MatchesVerdict(a: ProbeAssert, extracted: Extracted, subject: string, pattern: string, lib: Library)
    requires Compares(a, "matches", extracted, Text(subject), Text(pattern))
    ensures Passes(a, extracted, lib) <==> lib.matches(pattern, subject) == Some(true)
  {
    hide TrimSpace, Means, EvaluateAssert;
    BinaryVerdict(a, "matches", extracted, Text(subject), Text(pattern), lib);
  }

  lemma MatchesNeedsText(a: ProbeAssert, extracted: Extracted, x: Value, y: Value, lib: Library)
    requires Compares(a, "matches", extracted, x, y) && !(x.Text? && y.Text?)
    ensures !Passes(a, extracted, lib)
  {
    hide TrimSpace, Means, EvaluateAssert;
    BinaryVerdict(a, "matches", extracted, x, y, lib);
  }

  // ---------- Whole probes ----------

  /** The extract yields `v` from the reply to the request it names. */
  ghost predicate Yields(p: ProbeSpec, replies: Replies, i: nat, v: Value, lib: Library)
    requires i < |p.extracts|
  {
    exists j :: 0 <= j < |p.requests| && p.requests[j].id == p.extracts[i].from
             && replies(j).Ok? && Extract(replies(j).value, p.extracts[i], lib) == Ok(v)
  }

  /** Every extract has its value under its id. */
  ghost predicate IsEnvironment(p: ProbeSpec, replies: Replies, extracted: Extracted, lib: Library) {
    && (forall id :: id in extracted <==> exists i :: 0 <= i < |p.extracts| && p.extracts[i].id == id)
    && (forall i :: 0 <= i < |p.extracts| ==>
          p.extracts[i].id in extracted && Yields(p, replies, i, extracted[p.extracts[i].id], lib))
  }

  /** `n` requests answered, each reply under the id of its request. */
  ghost predicate Holds(p: ProbeSpec, replies: Replies, n: nat, requests: map<string, Response>)
    requires n <= |p.requests|
  {
    && (forall i :: 0 <= i < n ==>
          replies(i).Ok? && p.requests[i].id in requests && requests[p.requests[i].id] == replies(i).value)
    && (forall id :: id in requests ==> exists i :: 0 <= i < n && p.requests[i].id == id)
  }

  lemma HoldsNone(p: ProbeSpec, replies: Replies)
    ensures Holds(p, replies, 0, map[])
  {
  }

  lemma HoldsOneMore(p: ProbeSpec, replies: Replies, n: nat, requests: map<string, Response>)
    requires HasDistinctRawIds(p) && n < |p.requests| && Holds(p, replies, n, requests) && replies(n).Ok?
    ensures Holds(p, replies, n + 1, requests[p.requests[n].id := replies(n).value])
  {
    var id, more := p.requests[n].id, requests[p.requests[n].id := replies(n).value];
    forall i | 0 <= i < n + 1
      ensures replies(i).Ok? && p.requests[i].id in more && more[p.requests[i].id] == replies(i).value
    {
      assert i < n ==> p.requests[i].id != id;
    }
  }

  lemma {:induction false} RequestsHold(p: ProbeSpec, replies: Replies, n: nat)
    requires HasDistinctRawIds(p) && n <= |p.requests|
    ensures RunRequests(p, replies, n).Ok? <==> forall i :: 0 <= i < n ==> replies(i).Ok?
    ensures RunRequests(p, replies, n).Ok? ==> Holds(p, replies, n, RunRequests(p, replies, n).value)
  {
    hide Holds, HasDistinctRawIds;
    if n == 0 {
      HoldsNone(p, replies);
    } else {
      RequestsHold(p, replies, n - 1);
      if RunRequests(p, replies, n).Ok? {
        HoldsOneMore(p, replies, n - 1, RunRequests(p, replies, n - 1).value);
      }
    }
  }

  /** The values of the first `n` extracts. */
  ghost predicate HasValues(p: ProbeSpec, requests: map<string, Response>, n: nat, extracted: Extracted, lib: Library)
    requires n <= |p.extracts|
  {
    && (forall i :: 0 <= i < n ==>
          && p.extracts[i].id in extracted
          && RunExtract(p.extracts[i], requests, lib) == Ok(extracted[p.extracts[i].id]))
    && (forall id :: id in extracted ==> exists i :: 0 <= i < n && p.extracts[i].id == id)
  }

  lemma HasNoValues(p: ProbeSpec, requests: map<string, Response>, lib: Library)
    ensures HasValues(p, requests, 0, map[], lib)
  {
  }

  lemma HasOneMoreValue(p: ProbeSpec, requests: map<string, Response>, n: nat, extracted: Extracted, v: Value, lib: Library)
    requires HasDistinctRawIds(p) && n < |p.extracts| && HasValues(p, requests, n, extracted, lib)
    requires RunExtract(p.extracts[n], requests, lib) == Ok(v)
    ensures HasValues(p, requests, n + 1, extracted[p.extracts[n].id := v], lib)
  {
    hide RunExtract;
    var id, more := p.extracts[n].id, extracted[p.extracts[n].id := v];
    forall i | 0 <= i < n + 1
      ensures p.extracts[i].id in more && RunExtract(p.extracts[i], requests, lib) == Ok(more[p.extracts[i].id])
    {
      assert i < n ==> p.extracts[i].id != id;
    }
  }

  lemma {:induction false} ExtractsHold(p: ProbeSpec, requests: map<string, Response>, lib: Library, n: nat)
    requires HasDistinctRawIds(p) && n <= |p.extracts|
    ensures RunExtracts(p, requests, lib, n).Ok? <==> forall i :: 0 <= i < n ==> RunExtract(p.extracts[i], requests, lib).Ok?
    ensures RunExtracts(p, requests, lib, n).Ok? ==> HasValues(p, requests, n, RunExtracts(p, requests, lib, n).value, lib)
  {
    hide RunExtract, HasValues, HasDistinctRawIds;
    if n == 0 {
      HasNoValues(p, requests, lib);
    } else {
      ExtractsHold(p, requests, lib, n - 1);
      var v := RunExtract(p.extracts[n - 1], requests, lib);
      if RunExtracts(p, requests, lib, n - 1).Ok? && v.Ok? {
        HasOneMoreValue(p, requests, n - 1, RunExtracts(p, requests, lib, n - 1).value, v.value, lib);
      }
    }
  }

  lemma {:induction false} AssertsHold(p: ProbeSpec, extracted: Extracted, lib: Library, n: nat)
    requires n <= |p.asserts|
    ensures RunAsserts(p, extracted, lib, n).None? <==> forall i :: 0 <= i < n ==> Passes(p.asserts[i], extracted, lib)
  {
    hide EvaluateAssert;
    if n > 0 {
      AssertsHold(p, extracted, lib, n - 1);
    }
  }

  lemma ReplyOf(p: ProbeSpec, replies: Replies, requests: map<string, Response>, j: nat)
    requires Holds(p, replies, |p.requests|, requests) && j < |p.requests|
    ensures replies(j).Ok? && p.requests[j].id in requests && requests[p.requests[j].id] == replies(j).value
  {
  }

  lemma RequestOf(p: ProbeSpec, replies: Replies, requests: map<string, Response>, id: string) returns (j: nat)
    requires Holds(p, replies, |p.requests|, requests) && id in requests
    ensures j < |p.requests| && p.requests[j].id == id
  {
    j :| j < |p.requests| && p.requests[j].id == id;
  }

  lemma ExtractYields(p: ProbeSpec, replies: Replies, requests: map<string, Response>, i: nat, v: Value, lib: Library)
    requires HasDistinctRawIds(p) && i < |p.extracts| && Holds(p, replies, |p.requests|, requests)
    ensures RunExtract(p.extracts[i], requests, lib) == Ok(v) <==> Yields(p, replies, i, v, lib)
  {
    hide Extract, Holds, HasDistinctRawIds;
    var e := p.extracts[i];
    if RunExtract(e, requests, lib) == Ok(v) {
      var j := RequestOf(p, replies, requests, e.from);
      ReplyOf(p, replies, requests, j);
    }
    if Yields(p, replies, i, v, lib) {
      var j :| 0 <= j < |p.requests| && p.requests[j].id == e.from
            && replies(j).Ok? && Extract(replies(j).value, e, lib) == Ok(v);
      ReplyOf(p, replies, requests, j);
    }
  }

  lemma SameEnvironment(p: ProbeSpec, replies: Replies, a: Extracted, requests: map<string, Response>, b: Extracted, lib: Library)
    requires HasDistinctRawIds(p) && Holds(p, replies, |p.requests|, requests)
    requires HasValues(p, requests, |p.extracts|, a, lib) && IsEnvironment(p, replies, b, lib)
    ensures a == b
  {
    hide RunExtract, Yields, Holds;
    forall id | id in a || id in b ensures id in a && id in b && a[id] == b[id] {
      var i :| 0 <= i < |p.extracts| && p.extracts[i].id == id;
      ExtractYields(p, replies, requests, i, b[id], lib);
    }
    assert a.Keys == b.Keys;
  }

  ghost predicate Satisfied(p: ProbeSpec, replies: Replies, extracted: Extracted, lib: Library) {
    && (forall i :: 0 <= i < |p.requests| ==> replies(i).Ok?)
    && IsEnvironment(p, replies, extracted, lib)
    && (forall i :: 0 <= i < |p.asserts| ==> Passes(p.asserts[i], extracted, lib))
  }

  /** An accepted probe passes exactly when every request is answered, every extract yields
      a value from the reply it names, and every assert passes on these values. */
  lemma ProbePassesIff(p: ProbeSpec, replies: Replies, lib: Library)
    requires HasDistinctRawIds(p)
    ensures RunProbe(p, replies, lib) == None <==> exists extracted :: Satisfied(p, replies, extracted, lib)
  {
    hide RunExtract, HasDistinctRawIds, Yields, Passes, Holds, HasValues, IsEnvironment;
    RequestsHold(p, replies, |p.requests|);
    var requests := RunRequests(p, replies, |p.requests|);
    if requests.Ok? {
      ExtractsHold(p, requests.value, lib, |p.extracts|);
      var extracted := RunExtracts(p, requests.value, lib, |p.extracts|);
      if extracted.Ok? {
        AssertsHold(p, extracted.value, lib, |p.asserts|);
        ValuesAreEnvironment(p, replies, requests.value, extracted.value, lib);
        forall b | IsEnvironment(p, replies, b, lib) ensures b == extracted.value {
          SameEnvironment(p, replies, extracted.value, requests.value, b, lib);
        }
        assert RunProbe(p, replies, lib) == None ==> Satisfied(p, replies, extracted.value, lib);
      } else {
        forall b ensures !IsEnvironment(p, replies, b, lib) {
          NoEnvironment(p, replies, requests.value, b, lib);
        }
      }
    }
  }

  lemma ValuesAreEnvironment(p: ProbeSpec, replies: Replies, requests: map<string, Response>, extracted: Extracted, lib: Library)
    requires HasDistinctRawIds(p) && Holds(p, replies, |p.requests|, requests)
    requires HasValues(p, requests, |p.extracts|, extracted, lib)
    ensures IsEnvironment(p, replies, extracted, lib)
  {
    hide RunExtract, Yields, Holds, HasDistinctRawIds;
    forall i | 0 <= i < |p.extracts| ensures Yields(p, replies, i, extracted[p.extracts[i].id], lib) {
      ExtractYields(p, replies, requests, i, extracted[p.extracts[i].id], lib);
    }
  }

  lemma NoEnvironment(p: ProbeSpec, replies: Replies, requests: map<string, Response>, b: Extracted, lib: Library)
    requires HasDistinctRawIds(p) && Holds(p, replies, |p.requests|, requests)
    requires exists i :: 0 <= i < |p.extracts| && RunExtract(p.extracts[i], requests, lib).Err?
    ensures !IsEnvironment(p, replies, b, lib)
  {
    hide RunExtract, Yields, Holds, HasDistinctRawIds;
    var i :| 0 <= i < |p.extracts| && RunExtract(p.extracts[i], requests, lib).Err?;
    if p.extracts[i].id in b {
      ExtractYields(p, replies, requests, i, b[p.extracts[i].id], lib);
    }
  }
}
