/** Running a probe (internal/monitor/probe.go:26-61, 254-375), and what acceptance by the
    static checks (internal/spec/spec.go:486-603) guarantees about the run. */
module ProbeProgram {
  import opened ProbeEquality
  import opened ProbeTransforms
  import opened SpecChecks
  import opened Specs
  import opened Text
  import opened Values
  import opened Wrappers

  datatype AssertError =
    | UnknownReference(ref: string)
    | NotEqual
    | Equal
    | NotNumeric
    | WrongOrder
    | NotText
    | NotContained
    | BadPattern
    | NotMatched
    | UnsupportedAssertOp(op: string)

  datatype ProbeError =
    | RequestFailed(request: string, reason: string)
    | UnknownRequest(extract: string, from: string)
    | ExtractFailed(extract: string, extractError: ExtractError)
    | AssertFailed(id: string, assertError: AssertError)

  type Extracted = map<string, Value>

  // ---------- Asserts ----------

  function ResolveOperand(operand: ProbeOperand, extracted: Extracted): Result<Value, AssertError> {
    var ref := TrimSpace(operand.ref);
    if ref == "" then Ok(operand.value)
    else if ref in extracted then Ok(extracted[ref])
    else Err(UnknownReference(ref))
  }

  function ResolveAll(operands: seq<ProbeOperand>, extracted: Extracted): (r: Result<seq<Value>, AssertError>)
    ensures r.Ok? ==> |r.value| == |operands|
  {
    if |operands| == 0 then Ok([])
    else
      match ResolveAll(operands[..|operands| - 1], extracted)
      case Err(e) => Err(e)
      case Ok(values) =>
        match ResolveOperand(operands[|operands| - 1], extracted)
        case Err(e) => Err(e)
        case Ok(v) => Ok(values + [v])
  }

  function Compare(op: string, left: Value, right: Value, lib: Library): Option<AssertError> {
    var l, r := NumericValue(left, lib), NumericValue(right, lib);
    if l.None? || r.None? then Some(NotNumeric)
    else
      var less, equal, greater :=
        FloatLess(l.value, r.value), FloatEqual(l.value, r.value), FloatLess(r.value, l.value);
      var holds := if op == "gt" then greater else if op == "gte" then greater || equal
                   else if op == "lt" then less else less || equal;
      if holds then None else Some(WrongOrder)
  }

  function MatchText(op: string, left: Value, right: Value, lib: Library): Option<AssertError> {
    if !left.Text? || !right.Text? then Some(NotText)
    else if op == "contains" then
      if Contains(left.text, right.text) then None else Some(NotContained)
    else
      match lib.matches(right.text, left.text)
      case None => Some(BadPattern)
      case Some(matched) => if matched then None else Some(NotMatched)
  }

  function EvaluateBinary(op: string, left: Value, right: Value, lib: Library): Option<AssertError> {
    if op == "eq" then if ValuesEqual(left, right, lib) then None else Some(NotEqual)
    else if op == "neq" then if ValuesEqual(left, right, lib) then Some(Equal) else None
    else if op in {"gt", "gte", "lt", "lte"} then Compare(op, left, right, lib)
    else if op in {"contains", "matches"} then MatchText(op, left, right, lib)
    else Some(UnsupportedAssertOp(op))
  }

  function EvaluateAssert(a: ProbeAssert, extracted: Extracted, lib: Library): Option<AssertError> {
    var op := TrimSpace(a.op);
    if op == "all_equal" then
      match ResolveAll(a.values, extracted)
      case Err(e) => Some(e)
      case Ok(values) => if AllEqualFirst(values, lib) then None else Some(NotEqual)
    else
      match ResolveOperand(a.left, extracted)
      case Err(e) => Some(e)
      case Ok(left) =>
        match ResolveOperand(a.right, extracted)
        case Err(e) => Some(e)
        case Ok(right) => EvaluateBinary(op, left, right, lib)
  }

  method ResolveOperands(operands: seq<ProbeOperand>, extracted: Extracted) returns (r: Result<seq<Value>, AssertError>)
    ensures r == ResolveAll(operands, extracted)
  {
    var values: seq<Value> := [];
    for i := 0 to |operands|
      invariant ResolveAll(operands[..i], extracted) == Ok(values)
    {
      assert operands[..i + 1][..i] == operands[..i];
      var v := ResolveOperand(operands[i], extracted);
      if v.Err? {
        ErrorStays(operands, i + 1, extracted, v.error);
        return Err(v.error);
      }
      values := values + [v.value];
    }
    assert operands[..|operands|] == operands;
    return Ok(values);
  }

  lemma {:induction false} ErrorStays(operands: seq<ProbeOperand>, n: nat, extracted: Extracted, e: AssertError)
    requires n <= |operands| && ResolveAll(operands[..n], extracted) == Err(e)
    ensures ResolveAll(operands, extracted) == Err(e)
    decreases |operands| - n
  {
    if n == |operands| {
      assert operands[..n] == operands;
    } else {
      assert operands[..n + 1][..n] == operands[..n];
      ErrorStays(operands, n + 1, extracted, e);
    }
  }

  method EvaluateProbeAssert(a: ProbeAssert, extracted: Extracted, lib: Library) returns (e: Option<AssertError>)
    ensures e == EvaluateAssert(a, extracted, lib)
  {
    var op := TrimSpace(a.op);
    if op == "all_equal" {
      var values := ResolveOperands(a.values, extracted);
      if values.Err? {
        return Some(values.error);
      }
      var idx := 1;
      while idx < |values.value|
        invariant 1 <= idx
        invariant forall i :: 0 < i < idx && i < |values.value| ==> ValuesEqual(values.value[0], values.value[i], lib)
      {
        if !ValuesEqual(values.value[0], values.value[idx], lib) {
          return Some(NotEqual);
        }
        idx := idx + 1;
      }
      return None;
    }
    var left := ResolveOperand(a.left, extracted);
    if left.Err? {
      return Some(left.error);
    }
    var right := ResolveOperand(a.right, extracted);
    if right.Err? {
      return Some(right.error);
    }
    e := EvaluateBinary(op, left.value, right.value, lib);
  }

  // ---------- The program ----------

  /** The environment: the reply to the i-th request. */
  type Replies = nat -> Result<Response, string>

  function RunRequests(p: ProbeSpec, replies: Replies, n: nat): Result<map<string, Response>, ProbeError>
    requires n <= |p.requests|
  {
    if n == 0 then Ok(map[])
    else
      match RunRequests(p, replies, n - 1)
      case Err(e) => Err(e)
      case Ok(requests) =>
        match replies(n - 1)
        case Err(reason) => Err(RequestFailed(p.requests[n - 1].id, reason))
        case Ok(response) => Ok(requests[p.requests[n - 1].id := response])
  }

  function RunExtract(e: ProbeExtract, requests: map<string, Response>, lib: Library): Result<Value, ProbeError> {
    if e.from !in requests then Err(UnknownRequest(e.id, e.from))
    else
      match Extract(requests[e.from], e, lib)
      case Err(error) => Err(ExtractFailed(e.id, error))
      case Ok(v) => Ok(v)
  }

  function RunExtracts(p: ProbeSpec, requests: map<string, Response>, lib: Library, n: nat): Result<Extracted, ProbeError>
    requires n <= |p.extracts|
  {
    if n == 0 then Ok(map[])
    else
      match RunExtracts(p, requests, lib, n - 1)
      case Err(e) => Err(e)
      case Ok(extracted) =>
        match RunExtract(p.extracts[n - 1], requests, lib)
        case Err(e) => Err(e)
        case Ok(v) => Ok(extracted[p.extracts[n - 1].id := v])
  }

  function RunAsserts(p: ProbeSpec, extracted: Extracted, lib: Library, n: nat): Option<ProbeError>
    requires n <= |p.asserts|
  {
    if n == 0 then None
    else
      match RunAsserts(p, extracted, lib, n - 1)
      case Some(e) => Some(e)
      case None =>
        match EvaluateAssert(p.asserts[n - 1], extracted, lib)
        case Some(e) => Some(AssertFailed(p.asserts[n - 1].id, e))
        case None => None
  }

  /** `None` is a passed check. */
  function RunProbe(p: ProbeSpec, replies: Replies, lib: Library): Option<ProbeError> {
    match RunRequests(p, replies, |p.requests|)
    case Err(e) => Some(e)
    case Ok(requests) =>
      match RunExtracts(p, requests, lib, |p.extracts|)
      case Err(e) => Some(e)
      case Ok(extracted) => RunAsserts(p, extracted, lib, |p.asserts|)
  }

  lemma {:induction false} RequestFailureStays(p: ProbeSpec, replies: Replies, n: nat)
    requires n <= |p.requests| && RunRequests(p, replies, n).Err?
    ensures RunRequests(p, replies, |p.requests|) == RunRequests(p, replies, n)
    decreases |p.requests| - n
  {
    if n < |p.requests| {
      RequestFailureStays(p, replies, n + 1);
    }
  }

  lemma {:induction false} ExtractFailureStays(p: ProbeSpec, requests: map<string, Response>, lib: Library, n: nat)
    requires n <= |p.extracts| && RunExtracts(p, requests, lib, n).Err?
    ensures RunExtracts(p, requests, lib, |p.extracts|) == RunExtracts(p, requests, lib, n)
    decreases |p.extracts| - n
  {
    hide RunExtract;
    if n < |p.extracts| {
      ExtractFailureStays(p, requests, lib, n + 1);
    }
  }

  lemma {:induction false} AssertFailureStays(p: ProbeSpec, extracted: Extracted, lib: Library, n: nat)
    requires n <= |p.asserts| && RunAsserts(p, extracted, lib, n).Some?
    ensures RunAsserts(p, extracted, lib, |p.asserts|) == RunAsserts(p, extracted, lib, n)
    decreases |p.asserts| - n
  {
    hide EvaluateAssert;
    if n < |p.asserts| {
      AssertFailureStays(p, extracted, lib, n + 1);
    }
  }

  method PerformRequests(p: ProbeSpec, replies: Replies) returns (r: Result<map<string, Response>, ProbeError>)
    ensures r == RunRequests(p, replies, |p.requests|)
  {
    var requests: map<string, Response> := map[];
    for i := 0 to |p.requests|
      invariant RunRequests(p, replies, i) == Ok(requests)
    {
      var reply := replies(i);
      if reply.Err? {
        RequestFailureStays(p, replies, i + 1);
        return Err(RequestFailed(p.requests[i].id, reply.error));
      }
      requests := requests[p.requests[i].id := reply.value];
    }
    return Ok(requests);
  }

  method PerformExtract(e: ProbeExtract, requests: map<string, Response>, lib: Library) returns (r: Result<Value, ProbeError>)
    ensures r == RunExtract(e, requests, lib)
  {
    if e.from !in requests {
      return Err(UnknownRequest(e.id, e.from));
    }
    var v := ExtractProbeValue(requests[e.from], e, lib);
    r := if v.Err? then Err(ExtractFailed(e.id, v.error)) else Ok(v.value);
  }

  method PerformExtracts(p: ProbeSpec, requests: map<string, Response>, lib: Library) returns (r: Result<Extracted, ProbeError>)
    ensures r == RunExtracts(p, requests, lib, |p.extracts|)
  {
    hide RunExtract;
    var extracted: Extracted := map[];
    for i := 0 to |p.extracts|
      invariant RunExtracts(p, requests, lib, i) == Ok(extracted)
    {
      var v := PerformExtract(p.extracts[i], requests, lib);
      if v.Err? {
        ExtractFailureStays(p, requests, lib, i + 1);
        return Err(v.error);
      }
      extracted := extracted[p.extracts[i].id := v.value];
    }
    return Ok(extracted);
  }

  method PerformAsserts(p: ProbeSpec, extracted: Extracted, lib: Library) returns (failure: Option<ProbeError>)
    ensures failure == RunAsserts(p, extracted, lib, |p.asserts|)
  {
    hide EvaluateAssert;
    for i := 0 to |p.asserts|
      invariant RunAsserts(p, extracted, lib, i) == None
    {
      var e := EvaluateProbeAssert(p.asserts[i], extracted, lib);
      if e.Some? {
        AssertFailureStays(p, extracted, lib, i + 1);
        return Some(AssertFailed(p.asserts[i].id, e.value));
      }
    }
    return None;
  }

  method ValidateProbe(p: ProbeSpec, replies: Replies, lib: Library) returns (failure: Option<ProbeError>)
    ensures failure == RunProbe(p, replies, lib)
  {
    var requests := PerformRequests(p, replies);
    if requests.Err? {
      return Some(requests.error);
    }
    var extracted := PerformExtracts(p, requests.value, lib);
    if extracted.Err? {
      return Some(extracted.error);
    }
    failure := PerformAsserts(p, extracted.value, lib);
  }

  // ---------- Static checks against evaluation ----------

  /** Ids as the evaluator uses them: not trimmed. */
  function RawRequestIds(p: ProbeSpec, n: nat): set<string>
    requires n <= |p.requests|
  {
    if n == 0 then {} else RawRequestIds(p, n - 1) + {p.requests[n - 1].id}
  }

  function RawExtractIds(p: ProbeSpec, n: nat): set<string>
    requires n <= |p.extracts|
  {
    if n == 0 then {} else RawExtractIds(p, n - 1) + {p.extracts[n - 1].id}
  }

  function Operands(a: ProbeAssert): seq<ProbeOperand> {
    if TrimSpace(a.op) == "all_equal" then a.values else [a.left, a.right]
  }

  predicate RefResolves(operand: ProbeOperand, ids: set<string>) {
    TrimSpace(operand.ref) == "" || TrimSpace(operand.ref) in ids
  }

  /** Every `from` and `ref` names an id exactly as it is written. */
  predicate Closed(p: ProbeSpec) {
    && (forall i :: 0 <= i < |p.extracts| ==> p.extracts[i].from in RawRequestIds(p, |p.requests|))
    && (forall i :: 0 <= i < |p.asserts| ==> RefsClosed(p.asserts[i], RawExtractIds(p, |p.extracts|)))
  }

  predicate RefsClosed(a: ProbeAssert, ids: set<string>) {
    forall k :: 0 <= k < |Operands(a)| ==> RefResolves(Operands(a)[k], ids)
  }

  predicate Unpadded(p: ProbeSpec) {
    && (forall i :: 0 <= i < |p.requests| ==> Trimmed(p.requests[i].id))
    && (forall i :: 0 <= i < |p.extracts| ==> Trimmed(p.extracts[i].id) && Trimmed(p.extracts[i].from))
  }

  lemma {:induction false} RawRequestIdsAre(p: ProbeSpec, n: nat)
    requires n <= |p.requests|
    ensures forall id :: id in RawRequestIds(p, n) <==> exists i :: 0 <= i < n && p.requests[i].id == id
  {
    if n > 0 {
      RawRequestIdsAre(p, n - 1);
    }
  }

  lemma {:induction false} RawExtractIdsAre(p: ProbeSpec, n: nat)
    requires n <= |p.extracts|
    ensures forall id :: id in RawExtractIds(p, n) <==> exists i :: 0 <= i < n && p.extracts[i].id == id
  {
    if n > 0 {
      RawExtractIdsAre(p, n - 1);
    }
  }

  // ---------- What acceptance says, in plain terms ----------

  lemma {:induction false} OperandsAccepted(operands: seq<ProbeOperand>, k: nat, ids: set<string>, i: nat)
    requires k <= |operands| && OperandFaultFrom(operands, k, ids, i).None?
    ensures forall m :: k <= m < |operands| ==> RefResolves(operands[m], ids)
    decreases |operands| - k
  {
    if k < |operands| {
      OperandsAccepted(operands, k + 1, ids, i);
    }
  }

  predicate IsSupportedAssert(a: ProbeAssert, ids: set<string>) {
    TrimSpace(a.op) in OPS && RefsClosed(a, ids)
  }

  predicate IsSupportedSource(e: ProbeExtract) {
    TrimSpace(e.sourceType) in {"header", "body", "json", "json_path"}
  }

  lemma AcceptedAssert(p: ProbeSpec, i: nat)
    requires i < |p.asserts| && AssertFault(p, i).None?
    ensures IsSupportedAssert(p.asserts[i], ExtractIds(p.extracts))
  {
    var a, ids := p.asserts[i], ExtractIds(p.extracts);
    if TrimSpace(a.op) == "all_equal" {
      OperandsAccepted(a.values, 0, ids, i);
    } else {
      assert RefResolves(a.left, ids) && RefResolves(a.right, ids);
    }
  }

  lemma AcceptedExtract(p: ProbeSpec, i: nat)
    requires i < |p.extracts| && ExtractFault(p, i).None?
    ensures IsSupportedSource(p.extracts[i])
    ensures FromKnownTrimmed(p, i)
    ensures forall j :: 0 <= j < i ==> p.extracts[j].id != p.extracts[i].id
  {
    var r :| r in p.requests && TrimSpace(r.id) == TrimSpace(p.extracts[i].from);
    var j :| 0 <= j < |p.requests| && p.requests[j] == r;
    forall j | 0 <= j < i ensures p.extracts[j].id != p.extracts[i].id {
      assert p.extracts[j] in p.extracts[..i];
    }
  }

  lemma AcceptedRequest(p: ProbeSpec, i: nat)
    requires i < |p.requests| && RequestFault(p, i).None?
    ensures forall j :: 0 <= j < i ==> p.requests[j].id != p.requests[i].id
  {
    forall j | 0 <= j < i ensures p.requests[j].id != p.requests[i].id {
      assert p.requests[j] in p.requests[..i];
    }
  }

  predicate HasDistinctRawIds(p: ProbeSpec) {
    && (forall i, j :: 0 <= i < j < |p.requests| ==> p.requests[i].id != p.requests[j].id)
    && (forall i, j :: 0 <= i < j < |p.extracts| ==> p.extracts[i].id != p.extracts[j].id)
  }

  predicate IsSupported(p: ProbeSpec) {
    && (forall i :: 0 <= i < |p.extracts| ==> IsSupportedSource(p.extracts[i]))
    && (forall i :: 0 <= i < |p.asserts| ==> IsSupportedAssert(p.asserts[i], ExtractIds(p.extracts)))
  }

  predicate FromsKnownTrimmed(p: ProbeSpec) {
    forall i :: 0 <= i < |p.extracts| ==> FromKnownTrimmed(p, i)
  }

  predicate FromKnownTrimmed(p: ProbeSpec, i: nat)
    requires i < |p.extracts|
  {
    exists j :: 0 <= j < |p.requests| && TrimSpace(p.requests[j].id) == TrimSpace(p.extracts[i].from)
  }

  lemma AcceptedProbe(p: ProbeSpec)
    requires ProbeFault(p).None?
    ensures HasDistinctRawIds(p) && IsSupported(p) && FromsKnownTrimmed(p)
  {
    hide RequestFault, ExtractFault, AssertFault, FromKnownTrimmed, IsSupportedSource, IsSupportedAssert;
    forall i | 0 <= i < |p.requests|
      ensures forall j :: 0 <= j < i ==> p.requests[j].id != p.requests[i].id
    {
      assert RequestFault(p, i).None?;
      AcceptedRequest(p, i);
    }
    forall i | 0 <= i < |p.extracts|
      ensures IsSupportedSource(p.extracts[i])
      ensures FromKnownTrimmed(p, i)
      ensures forall j :: 0 <= j < i ==> p.extracts[j].id != p.extracts[i].id
    {
      assert ExtractFault(p, i).None?;
      AcceptedExtract(p, i);
    }
    forall i | 0 <= i < |p.asserts| ensures IsSupportedAssert(p.asserts[i], ExtractIds(p.extracts)) {
      assert AssertFault(p, i).None?;
      AcceptedAssert(p, i);
    }
  }

  /** Unpadded ids make the trimmed view of the checks and the raw view of the evaluator
      the same, so acceptance closes every reference. */
  lemma AcceptedUnpaddedIsClosed(p: ProbeSpec)
    requires ProbeFault(p).None? && Unpadded(p)
    ensures Closed(p)
  {
    hide ProbeFault, IsSupportedSource;
    AcceptedProbe(p);
    RawRequestIdsAre(p, |p.requests|);
    forall i | 0 <= i < |p.extracts| ensures p.extracts[i].from in RawRequestIds(p, |p.requests|) {
      assert FromKnownTrimmed(p, i);
      var j :| 0 <= j < |p.requests| && TrimSpace(p.requests[j].id) == TrimSpace(p.extracts[i].from);
      assert p.requests[j].id == p.extracts[i].from;
    }
    TrimmedExtractIdsAreRaw(p);
    forall i | 0 <= i < |p.asserts| ensures RefsClosed(p.asserts[i], RawExtractIds(p, |p.extracts|)) {
      assert IsSupportedAssert(p.asserts[i], ExtractIds(p.extracts));
    }
  }

  lemma TrimmedExtractIdsAreRaw(p: ProbeSpec)
    requires Unpadded(p)
    ensures ExtractIds(p.extracts) <= RawExtractIds(p, |p.extracts|)
  {
    RawExtractIdsAre(p, |p.extracts|);
    forall id | id in ExtractIds(p.extracts) ensures id in RawExtractIds(p, |p.extracts|) {
      var e :| e in p.extracts && TrimSpace(e.id) == id;
      var j :| 0 <= j < |p.extracts| && p.extracts[j] == e;
      assert p.extracts[j].id == id;
    }
  }

  // ---------- The maps hold exactly the raw ids ----------

  lemma {:induction false} RequestKeys(p: ProbeSpec, replies: Replies, n: nat)
    requires n <= |p.requests| && RunRequests(p, replies, n).Ok?
    ensures RunRequests(p, replies, n).value.Keys == RawRequestIds(p, n)
  {
    if n > 0 {
      RequestKeys(p, replies, n - 1);
    }
  }

  lemma {:induction false} ExtractKeys(p: ProbeSpec, requests: map<string, Response>, lib: Library, n: nat)
    requires n <= |p.extracts| && RunExtracts(p, requests, lib, n).Ok?
    ensures RunExtracts(p, requests, lib, n).value.Keys == RawExtractIds(p, n)
  {
    hide RunExtract;
    if n > 0 {
      ExtractKeys(p, requests, lib, n - 1);
    }
  }

  lemma AddedElement(ids: set<string>, id: string)
    requires id !in ids
    ensures |ids + {id}| == |ids| + 1
  {
  }

  lemma {:induction false} RawRequestIdCount(p: ProbeSpec, n: nat)
    requires HasDistinctRawIds(p) && n <= |p.requests|
    ensures |RawRequestIds(p, n)| == n
  {
    if n > 0 {
      RawRequestIdCount(p, n - 1);
      RawRequestIdsAre(p, n - 1);
      AddedElement(RawRequestIds(p, n - 1), p.requests[n - 1].id);
    }
  }

  lemma {:induction false} RawExtractIdCount(p: ProbeSpec, n: nat)
    requires HasDistinctRawIds(p) && n <= |p.extracts|
    ensures |RawExtractIds(p, n)| == n
  {
    if n > 0 {
      RawExtractIdCount(p, n - 1);
      RawExtractIdsAre(p, n - 1);
      AddedElement(RawExtractIds(p, n - 1), p.extracts[n - 1].id);
    }
  }

  /** Acceptance alone, padded or not, means no map entry is overwritten: after all
      requests and extracts the maps are as large as the lists. */
  lemma AcceptedNeverOverwrites(p: ProbeSpec, replies: Replies, requests: map<string, Response>, lib: Library)
    requires ProbeFault(p).None? && RunRequests(p, replies, |p.requests|) == Ok(requests)
    ensures |requests| == |p.requests|
    ensures RunExtracts(p, requests, lib, |p.extracts|).Ok? ==>
              |RunExtracts(p, requests, lib, |p.extracts|).value| == |p.extracts|
  {
    hide ProbeFault, RunExtract;
    AcceptedProbe(p);
    RequestKeys(p, replies, |p.requests|);
    RawRequestIdCount(p, |p.requests|);
    RawExtractIdCount(p, |p.extracts|);
    assert |requests| == |requests.Keys|;
    var run := RunExtracts(p, requests, lib, |p.extracts|);
    if run.Ok? {
      ExtractKeys(p, requests, lib, |p.extracts|);
      assert |run.value| == |run.value.Keys|;
    }
  }

  // ---------- Soundness ----------

  /** The failures static validation is meant to rule out. */
  predicate IsStaticError(e: ProbeError) {
    match e
    case UnknownRequest(_, _) => true
    case ExtractFailed(_, UnsupportedSource(_)) => true
    case AssertFailed(_, UnknownReference(_)) => true
    case AssertFailed(_, UnsupportedAssertOp(_)) => true
    case _ => false
  }

  lemma {:induction false} ResolveAllClosed(operands: seq<ProbeOperand>, extracted: Extracted)
    ensures ResolveAll(operands, extracted).Ok? <==>
              forall k :: 0 <= k < |operands| ==> RefResolves(operands[k], extracted.Keys)
    ensures ResolveAll(operands, extracted).Err? ==> ResolveAll(operands, extracted).error.UnknownReference?
  {
    if |operands| > 0 {
      ResolveAllClosed(operands[..|operands| - 1], extracted);
    }
  }

  predicate IsComparison(e: Option<AssertError>) {
    e.Some? ==> !e.value.UnknownReference? && !e.value.UnsupportedAssertOp?
  }

  lemma ComparisonErrors(op: string, left: Value, right: Value, lib: Library)
    ensures IsComparison(Compare(op, left, right, lib)) && IsComparison(MatchText(op, left, right, lib))
  {
    hide NumericValue, Contains, FloatLess, FloatEqual;
  }

  lemma BinaryOps(op: string, left: Value, right: Value, lib: Library)
    requires op in OPS && op != "all_equal"
    ensures IsComparison(EvaluateBinary(op, left, right, lib))
  {
    hide ValuesEqual, Compare, MatchText;
    ComparisonErrors(op, left, right, lib);
  }

  /** An assert with a supported operation reports an unknown reference, rather than
      anything else, exactly when one of its references does not resolve. */
  lemma AssertReferences(a: ProbeAssert, extracted: Extracted, lib: Library)
    requires TrimSpace(a.op) in OPS
    ensures var e := EvaluateAssert(a, extracted, lib);
      && (RefsClosed(a, extracted.Keys) <==> !(e.Some? && e.value.UnknownReference?))
      && (e.Some? ==> !e.value.UnsupportedAssertOp?)
  {
    hide EvaluateBinary, AllEqualFirst;
    var op, ids := TrimSpace(a.op), extracted.Keys;
    if op == "all_equal" {
      assert Operands(a) == a.values;
      ResolveAllClosed(a.values, extracted);
    } else {
      assert Operands(a) == [a.left, a.right];
      assert RefsClosed(a, ids) <==> RefResolves(a.left, ids) && RefResolves(a.right, ids) by {
        assert RefsClosed(a, ids) ==> RefResolves(Operands(a)[0], ids) && RefResolves(Operands(a)[1], ids);
      }
      if RefResolves(a.left, ids) && RefResolves(a.right, ids) {
        BinaryOps(op, ResolveOperand(a.left, extracted).value, ResolveOperand(a.right, extracted).value, lib);
      }
    }
  }

  lemma {:induction false} AssertsSound(p: ProbeSpec, extracted: Extracted, lib: Library, n: nat)
    requires n <= |p.asserts| && forall i :: 0 <= i < |p.asserts| ==> IsSupportedAssert(p.asserts[i], extracted.Keys)
    ensures RunAsserts(p, extracted, lib, n).Some? ==> !IsStaticError(RunAsserts(p, extracted, lib, n).value)
  {
    hide EvaluateAssert, IsSupportedAssert;
    if n > 0 {
      AssertsSound(p, extracted, lib, n - 1);
      SupportedAssertIsSafe(p.asserts[n - 1], extracted, lib);
    }
  }

  lemma SupportedAssertIsSafe(a: ProbeAssert, extracted: Extracted, lib: Library)
    requires IsSupportedAssert(a, extracted.Keys)
    ensures AssertSafe(a, extracted, lib)
  {
    hide EvaluateAssert, RefsClosed;
    AssertReferences(a, extracted, lib);
  }

  lemma {:induction false} TransformErrorNotSource(v: Value, transforms: seq<string>, lib: Library)
    ensures ApplyAll(v, transforms, lib).Err? ==> !ApplyAll(v, transforms, lib).error.UnsupportedSource?
    decreases |transforms|
  {
    if |transforms| > 0 && ApplyTransform(v, transforms[0], lib).Ok? {
      TransformErrorNotSource(ApplyTransform(v, transforms[0], lib).value, transforms[1..], lib);
    }
  }

  /** An extract from a supported source reports an unknown request exactly when its
      `from` is not the id of one. */
  lemma ExtractReferences(e: ProbeExtract, requests: map<string, Response>, lib: Library)
    requires IsSupportedSource(e)
    ensures var r := RunExtract(e, requests, lib);
      r.Err? ==> (IsStaticError(r.error) <==> r.error.UnknownRequest?)
    ensures RunExtract(e, requests, lib) == Err(UnknownRequest(e.id, e.from)) <==> e.from !in requests
  {
    hide ApplyAll;
    if e.from in requests {
      var source := SourceValue(requests[e.from], e, lib);
      if source.Ok? {
        TransformErrorNotSource(source.value, e.transforms, lib);
      }
    }
  }

  lemma {:induction false} ExtractsSound(p: ProbeSpec, requests: map<string, Response>, lib: Library, n: nat)
    requires n <= |p.extracts|
    requires forall i :: 0 <= i < |p.extracts| ==> p.extracts[i].from in requests && IsSupportedSource(p.extracts[i])
    ensures RunExtracts(p, requests, lib, n).Err? ==> !IsStaticError(RunExtracts(p, requests, lib, n).error)
  {
    hide RunExtract, IsSupportedSource;
    if n > 0 {
      ExtractsSound(p, requests, lib, n - 1);
      ExtractReferences(p.extracts[n - 1], requests, lib);
      ExtractErrorKinds(p.extracts[n - 1], requests, lib);
    }
  }

  lemma ExtractErrorKinds(e: ProbeExtract, requests: map<string, Response>, lib: Library)
    requires e.from in requests
    ensures RunExtract(e, requests, lib).Err? ==> RunExtract(e, requests, lib).error.ExtractFailed?
  {
  }

  lemma {:induction false} RequestsSound(p: ProbeSpec, replies: Replies, n: nat)
    requires n <= |p.requests|
    ensures RunRequests(p, replies, n).Err? ==> RunRequests(p, replies, n).error.RequestFailed?
  {
    if n > 0 {
      RequestsSound(p, replies, n - 1);
    }
  }

  /** Soundness: an accepted probe with closed references never fails for a reason the
      static checks are there to exclude, whatever the responses and the library do. */
  lemma AcceptedClosedIsSound(p: ProbeSpec, replies: Replies, lib: Library)
    requires ProbeFault(p).None? && Closed(p)
    ensures RunProbe(p, replies, lib).Some? ==> !IsStaticError(RunProbe(p, replies, lib).value)
  {
    hide ProbeFault, IsSupportedSource, RefsClosed;
    AcceptedProbe(p);
    RequestsSound(p, replies, |p.requests|);
    var requests := RunRequests(p, replies, |p.requests|);
    if requests.Ok? {
      RequestKeys(p, replies, |p.requests|);
      ExtractsSound(p, requests.value, lib, |p.extracts|);
      var extracted := RunExtracts(p, requests.value, lib, |p.extracts|);
      if extracted.Ok? {
        ExtractKeys(p, requests.value, lib, |p.extracts|);
        forall i | 0 <= i < |p.asserts| ensures IsSupportedAssert(p.asserts[i], extracted.value.Keys) {
          assert IsSupportedAssert(p.asserts[i], ExtractIds(p.extracts));
        }
        AssertsSound(p, extracted.value, lib, |p.asserts|);
      }
    }
  }

  lemma AcceptedUnpaddedIsSound(p: ProbeSpec, replies: Replies, lib: Library)
    requires ProbeFault(p).None? && Unpadded(p)
    ensures RunProbe(p, replies, lib).Some? ==> !IsStaticError(RunProbe(p, replies, lib).value)
  {
    hide ProbeFault, RunProbe;
    AcceptedUnpaddedIsClosed(p);
    AcceptedClosedIsSound(p, replies, lib);
  }

  // ---------- Step by step, the condition is exact ----------

  predicate ExtractSafe(e: ProbeExtract, requests: map<string, Response>, lib: Library) {
    var r := RunExtract(e, requests, lib);
    r.Err? ==> !IsStaticError(r.error)
  }

  predicate AssertSafe(a: ProbeAssert, extracted: Extracted, lib: Library) {
    var e := EvaluateAssert(a, extracted, lib);
    e.Some? ==> !IsStaticError(AssertFailed(a.id, e.value))
  }

  /** No step fails for a static reason on any maps with the keys that the phase before it
      leaves. */
  ghost predicate StepsSafe(p: ProbeSpec, lib: Library) {
    && (forall i, requests: map<string, Response> ::
          0 <= i < |p.extracts| && requests.Keys == RawRequestIds(p, |p.requests|) ==>
            ExtractSafe(p.extracts[i], requests, lib))
    && (forall i, extracted: Extracted ::
          0 <= i < |p.asserts| && extracted.Keys == RawExtractIds(p, |p.extracts|) ==>
            AssertSafe(p.asserts[i], extracted, lib))
  }

  /** Every step of an accepted probe is safe if and only if all references are closed. */
  lemma AcceptedStepsSafeIffClosed(p: ProbeSpec, lib: Library)
    requires ProbeFault(p).None?
    ensures StepsSafe(p, lib) <==> Closed(p)
  {
    hide ProbeFault, RunExtract, EvaluateAssert, IsSupportedSource, RefsClosed;
    AcceptedProbe(p);
    forall i, requests: map<string, Response> | 0 <= i < |p.extracts|
      ensures ExtractSafe(p.extracts[i], requests, lib) <==> p.extracts[i].from in requests
    {
      ExtractReferences(p.extracts[i], requests, lib);
      if p.extracts[i].from in requests {
        ExtractErrorKinds(p.extracts[i], requests, lib);
      }
    }
    forall i, extracted: Extracted | 0 <= i < |p.asserts|
      ensures AssertSafe(p.asserts[i], extracted, lib) <==> RefsClosed(p.asserts[i], extracted.Keys)
    {
      assert IsSupportedAssert(p.asserts[i], ExtractIds(p.extracts));
      AssertReferences(p.asserts[i], extracted, lib);
    }
    var requests := map id | id in RawRequestIds(p, |p.requests|) :: Response(200, key => "", "");
    var extracted: Extracted := map id | id in RawExtractIds(p, |p.extracts|) :: Nil;
    assert requests.Keys == RawRequestIds(p, |p.requests|);
    assert extracted.Keys == RawExtractIds(p, |p.extracts|);
  }

  // ---------- The condition cannot be dropped ----------

  lemma PassedExtract(e: ProbeExtract, requests: map<string, Response>, lib: Library)
    requires RunExtract(e, requests, lib).Ok?
    ensures e.from in requests
  {
  }

  lemma {:induction false} PassedExtracts(p: ProbeSpec, requests: map<string, Response>, lib: Library, n: nat)
    requires n <= |p.extracts| && RunExtracts(p, requests, lib, n).Ok?
    ensures forall i :: 0 <= i < n ==> p.extracts[i].from in requests
  {
    hide RunExtract;
    if n > 0 {
      PassedExtracts(p, requests, lib, n - 1);
      PassedExtract(p.extracts[n - 1], requests, lib);
    }
  }

  lemma {:induction false} PassedAssert(a: ProbeAssert, extracted: Extracted, lib: Library)
    requires EvaluateAssert(a, extracted, lib).None?
    ensures RefsClosed(a, extracted.Keys)
  {
    hide EvaluateBinary, AllEqualFirst;
    ResolveAllClosed(a.values, extracted);
  }

  lemma {:induction false} PassedAsserts(p: ProbeSpec, extracted: Extracted, lib: Library, n: nat)
    requires n <= |p.asserts| && RunAsserts(p, extracted, lib, n).None?
    ensures forall i :: 0 <= i < n ==> RefsClosed(p.asserts[i], extracted.Keys)
  {
    hide EvaluateAssert, RefsClosed;
    if n > 0 {
      PassedAsserts(p, extracted, lib, n - 1);
      PassedAssert(p.asserts[n - 1], extracted, lib);
    }
  }

  /** A probe without closed references, accepted or not, can never pass, whatever the
      responses and the library do. */
  lemma PassingProbeIsClosed(p: ProbeSpec, replies: Replies, lib: Library)
    requires RunProbe(p, replies, lib).None?
    ensures Closed(p)
  {
    hide RunExtract, EvaluateAssert, RefsClosed;
    var requests := RunRequests(p, replies, |p.requests|).value;
    var extracted := RunExtracts(p, requests, lib, |p.extracts|).value;
    RequestKeys(p, replies, |p.requests|);
    ExtractKeys(p, requests, lib, |p.extracts|);
    PassedExtracts(p, requests, lib, |p.extracts|);
    PassedAsserts(p, extracted, lib, |p.asserts|);
  }

  /** And acceptance does not imply it: the checks trim ids, the evaluator does not. */
  function PaddedProbe(): ProbeSpec {
    ProbeSpec(
      Common(false, "padded", 1, [], SpecCycles(1, 1)),
      [ProbeRequest("a", "u")],
      [ProbeExtract("e", "a ", "body", "", [])],
      [ProbeAssert("s", "eq", ProbeOperand("e", Nil), ProbeOperand("e", Nil), [])])
  }

  lemma PaddedRequestAccepted()
    ensures RequestFault(PaddedProbe(), 0).None?
  {
    assert PaddedProbe().requests[..0] == [];
  }

  lemma PaddedExtractAccepted()
    ensures ExtractFault(PaddedProbe(), 0).None?
  {
    var p := PaddedProbe();
    assert p.extracts[..0] == [];
    assert TrimSpace("a ") == "a";
    assert p.requests[0] in p.requests;
  }

  lemma PaddedAssertAccepted()
    ensures AssertFault(PaddedProbe(), 0).None?
  {
    assert PaddedProbe().extracts[0] in PaddedProbe().extracts;
  }

  lemma PaddedProbeAccepted()
    ensures ProbeFault(PaddedProbe()).None?
  {
    hide RequestFault, ExtractFault, AssertFault;
    var p := PaddedProbe();
    PaddedRequestAccepted();
    PaddedExtractAccepted();
    PaddedAssertAccepted();
    assert RequestFaultFrom(p, 1).None? && ExtractFaultFrom(p, 1).None? && AssertFaultFrom(p, 1).None?;
  }

  lemma PaddedProbeUnknown(replies: Replies, lib: Library)
    requires replies(0).Ok?
    ensures RunProbe(PaddedProbe(), replies, lib) == Some(UnknownRequest("e", "a "))
  {
    hide Extract, RunAsserts;
    var p := PaddedProbe();
    var requests := map["a" := replies(0).value];
    assert RunRequests(p, replies, 0) == Ok(map[]);
    assert RunRequests(p, replies, 1) == Ok(requests);
    assert "a " != "a";
    assert RunExtracts(p, requests, lib, 0) == Ok(map[]);
  }
}
