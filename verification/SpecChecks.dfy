/** The static checks on parsed specs (internal/spec/spec.go): names and identities,
    probe programs, S3 listings. Each check is a loop that stops at the first fault; the
    functions beside the methods say which fault that is. */
module SpecChecks {
  import opened Specs
  import opened Text
  import opened Values
  import opened Wrappers

  datatype Fault =
    | NotExactlyOneKind(source: string)
    | EmptyName(source: string, kind: string)
    | NegativeEveryCycles(source: string, kind: string)
    | NegativeCertDays(source: string)
    | EmptyReceiver(source: string, kind: string, index: nat)
    | DuplicateName(kind: string, name: string, first: string, second: string)
    | NoRequests | NoExtracts | NoAsserts
    | EmptyRequestId(index: nat) | DuplicateRequest(id: string) | EmptyUrl(index: nat)
    | EmptyExtractId(index: nat) | DuplicateExtract(id: string)
    | EmptyFrom(index: nat) | UnknownFrom(from: string)
    | EmptySourceKey(index: nat) | UnsupportedSource(index: nat, sourceType: string)
    | EmptyAssertId(index: nat) | DuplicateAssert(id: string)
    | UnsupportedOp(index: nat, op: string)
    | TooFewValues(index: nat) | ValuesNotAllowed(index: nat)
    | RefXorValue(index: nat) | UnknownRef(index: nat, ref: string)
    | NoList | EmptyBucket | NegativeMaxKeys | NegativeCount | NotExactlyOneCount
    | UnsupportedAuth(mode: string) | EmptyAccessKey | EmptySecret

  function OrElse<T>(a: Option<T>, b: Option<T>): Option<T> {
    if a.Some? then a else b
  }

  // ---------- Probe programs ----------

  const OPS: set<string> := {"eq", "neq", "gt", "gte", "lt", "lte", "contains", "matches", "all_equal"}

  function RequestIds(requests: seq<ProbeRequest>): set<string> {
    set r | r in requests :: TrimSpace(r.id)
  }

  function ExtractIds(extracts: seq<ProbeExtract>): set<string> {
    set e | e in extracts :: TrimSpace(e.id)
  }

  function AssertIds(asserts: seq<ProbeAssert>): set<string> {
    set a | a in asserts :: TrimSpace(a.id)
  }

  function RequestFault(p: ProbeSpec, i: nat): Option<Fault>
    requires i < |p.requests|
  {
    var id := TrimSpace(p.requests[i].id);
    if id == "" then Some(EmptyRequestId(i))
    else if id in RequestIds(p.requests[..i]) then Some(DuplicateRequest(id))
    else if Blank(p.requests[i].url) then Some(EmptyUrl(i))
    else None
  }

  function ExtractFault(p: ProbeSpec, i: nat): Option<Fault>
    requires i < |p.extracts|
  {
    var e := p.extracts[i];
    var id, from, sourceType := TrimSpace(e.id), TrimSpace(e.from), TrimSpace(e.sourceType);
    if id == "" then Some(EmptyExtractId(i))
    else if id in ExtractIds(p.extracts[..i]) then Some(DuplicateExtract(id))
    else if from == "" then Some(EmptyFrom(i))
    else if from !in RequestIds(p.requests) then Some(UnknownFrom(from))
    else SourceFault(sourceType, e.sourceKey, i)
  }

  function SourceFault(sourceType: string, key: string, i: nat): Option<Fault> {
    if sourceType == "header" || sourceType == "json_path" then
      if Blank(key) then Some(EmptySourceKey(i)) else None
    else if sourceType == "body" || sourceType == "json" then None
    else Some(UnsupportedSource(i, sourceType))
  }

  function OperandFault(operand: ProbeOperand, extractIds: set<string>, i: nat): Option<Fault> {
    var ref := TrimSpace(operand.ref);
    if (ref != "") == (operand.value != Nil) then Some(RefXorValue(i))
    else if ref != "" && ref !in extractIds then Some(UnknownRef(i, ref))
    else None
  }

  function OperandFaultFrom(operands: seq<ProbeOperand>, k: nat, extractIds: set<string>, i: nat): Option<Fault>
    requires k <= |operands|
    decreases |operands| - k
  {
    if k == |operands| then None
    else OrElse(OperandFault(operands[k], extractIds, i), OperandFaultFrom(operands, k + 1, extractIds, i))
  }

  function AssertFault(p: ProbeSpec, i: nat): Option<Fault>
    requires i < |p.asserts|
  {
    var a, extractIds := p.asserts[i], ExtractIds(p.extracts);
    var id, op := TrimSpace(a.id), TrimSpace(a.op);
    if id == "" then Some(EmptyAssertId(i))
    else if id in AssertIds(p.asserts[..i]) then Some(DuplicateAssert(id))
    else if op !in OPS then Some(UnsupportedOp(i, a.op))
    else if op == "all_equal" then
      if |a.values| < 2 then Some(TooFewValues(i)) else OperandFaultFrom(a.values, 0, extractIds, i)
    else if |a.values| > 0 then Some(ValuesNotAllowed(i))
    else OrElse(OperandFault(a.left, extractIds, i), OperandFault(a.right, extractIds, i))
  }

  function RequestFaultFrom(p: ProbeSpec, i: nat): (f: Option<Fault>)
    requires i <= |p.requests|
    ensures f.None? <==> forall j :: i <= j < |p.requests| ==> RequestFault(p, j).None?
    decreases |p.requests| - i
  {
    if i == |p.requests| then None else OrElse(RequestFault(p, i), RequestFaultFrom(p, i + 1))
  }

  function ExtractFaultFrom(p: ProbeSpec, i: nat): (f: Option<Fault>)
    requires i <= |p.extracts|
    ensures f.None? <==> forall j :: i <= j < |p.extracts| ==> ExtractFault(p, j).None?
    decreases |p.extracts| - i
  {
    if i == |p.extracts| then None else OrElse(ExtractFault(p, i), ExtractFaultFrom(p, i + 1))
  }

  function AssertFaultFrom(p: ProbeSpec, i: nat): (f: Option<Fault>)
    requires i <= |p.asserts|
    ensures f.None? <==> forall j :: i <= j < |p.asserts| ==> AssertFault(p, j).None?
    decreases |p.asserts| - i
  {
    if i == |p.asserts| then None else OrElse(AssertFault(p, i), AssertFaultFrom(p, i + 1))
  }

  function ProbeFault(p: ProbeSpec): Option<Fault> {
    if |p.requests| == 0 then Some(NoRequests)
    else if |p.extracts| == 0 then Some(NoExtracts)
    else if |p.asserts| == 0 then Some(NoAsserts)
    else OrElse(RequestFaultFrom(p, 0), OrElse(ExtractFaultFrom(p, 0), AssertFaultFrom(p, 0)))
  }

  lemma IdsGrow(p: ProbeSpec)
    ensures forall i :: 0 <= i < |p.requests| ==>
              RequestIds(p.requests[..i + 1]) == RequestIds(p.requests[..i]) + {TrimSpace(p.requests[i].id)}
    ensures forall i :: 0 <= i < |p.extracts| ==>
              ExtractIds(p.extracts[..i + 1]) == ExtractIds(p.extracts[..i]) + {TrimSpace(p.extracts[i].id)}
    ensures forall i :: 0 <= i < |p.asserts| ==>
              AssertIds(p.asserts[..i + 1]) == AssertIds(p.asserts[..i]) + {TrimSpace(p.asserts[i].id)}
  {
    forall i | 0 <= i < |p.requests|
      ensures RequestIds(p.requests[..i + 1]) == RequestIds(p.requests[..i]) + {TrimSpace(p.requests[i].id)}
    {
      assert p.requests[..i + 1] == p.requests[..i] + [p.requests[i]];
    }
    forall i | 0 <= i < |p.extracts|
      ensures ExtractIds(p.extracts[..i + 1]) == ExtractIds(p.extracts[..i]) + {TrimSpace(p.extracts[i].id)}
    {
      assert p.extracts[..i + 1] == p.extracts[..i] + [p.extracts[i]];
    }
    forall i | 0 <= i < |p.asserts|
      ensures AssertIds(p.asserts[..i + 1]) == AssertIds(p.asserts[..i]) + {TrimSpace(p.asserts[i].id)}
    {
      assert p.asserts[..i + 1] == p.asserts[..i] + [p.asserts[i]];
    }
  }

  method ValidateOperands(operands: seq<ProbeOperand>, extractIds: set<string>, i: nat) returns (fault: Option<Fault>)
    ensures fault == OperandFaultFrom(operands, 0, extractIds, i)
  {
    for k := 0 to |operands|
      invariant OperandFaultFrom(operands, 0, extractIds, i) == OperandFaultFrom(operands, k, extractIds, i)
    {
      fault := OperandFault(operands[k], extractIds, i);
      if fault.Some? {
        return;
      }
    }
    return None;
  }

  method ValidateRequests(p: ProbeSpec) returns (fault: Option<Fault>, requestIds: set<string>)
    ensures fault == RequestFaultFrom(p, 0)
    ensures fault.None? ==> requestIds == RequestIds(p.requests)
  {
    IdsGrow(p);
    requestIds := {};
    for i := 0 to |p.requests|
      invariant RequestFaultFrom(p, 0) == RequestFaultFrom(p, i)
      invariant requestIds == RequestIds(p.requests[..i])
    {
      var id := TrimSpace(p.requests[i].id);
      if id == "" {
        return Some(EmptyRequestId(i)), requestIds;
      }
      if id in requestIds {
        return Some(DuplicateRequest(id)), requestIds;
      }
      requestIds := requestIds + {id};
      if TrimSpace(p.requests[i].url) == "" {
        return Some(EmptyUrl(i)), requestIds;
      }
    }
    assert p.requests[..|p.requests|] == p.requests;
    fault := None;
  }

  method ValidateExtracts(p: ProbeSpec, requestIds: set<string>) returns (fault: Option<Fault>, extractIds: set<string>)
    requires requestIds == RequestIds(p.requests)
    ensures fault == ExtractFaultFrom(p, 0)
    ensures fault.None? ==> extractIds == ExtractIds(p.extracts)
  {
    IdsGrow(p);
    extractIds := {};
    for i := 0 to |p.extracts|
      invariant ExtractFaultFrom(p, 0) == ExtractFaultFrom(p, i)
      invariant extractIds == ExtractIds(p.extracts[..i])
    {
      var e := p.extracts[i];
      var id := TrimSpace(e.id);
      if id == "" {
        return Some(EmptyExtractId(i)), extractIds;
      }
      if id in extractIds {
        return Some(DuplicateExtract(id)), extractIds;
      }
      extractIds := extractIds + {id};
      var from := TrimSpace(e.from);
      if from == "" {
        return Some(EmptyFrom(i)), extractIds;
      }
      if from !in requestIds {
        return Some(UnknownFrom(from)), extractIds;
      }
      fault := SourceFault(TrimSpace(e.sourceType), e.sourceKey, i);
      if fault.Some? {
        return;
      }
    }
    assert p.extracts[..|p.extracts|] == p.extracts;
    fault := None;
  }

  method ValidateAsserts(p: ProbeSpec, extractIds: set<string>) returns (fault: Option<Fault>)
    requires extractIds == ExtractIds(p.extracts)
    ensures fault == AssertFaultFrom(p, 0)
  {
    IdsGrow(p);
    var assertIds: set<string> := {};
    for i := 0 to |p.asserts|
      invariant AssertFaultFrom(p, 0) == AssertFaultFrom(p, i)
      invariant assertIds == AssertIds(p.asserts[..i])
    {
      var a := p.asserts[i];
      var id, op := TrimSpace(a.id), TrimSpace(a.op);
      if id == "" {
        return Some(EmptyAssertId(i));
      }
      if id in assertIds {
        return Some(DuplicateAssert(id));
      }
      assertIds := assertIds + {id};
      if op !in OPS {
        return Some(UnsupportedOp(i, a.op));
      }
      if op == "all_equal" {
        if |a.values| < 2 {
          return Some(TooFewValues(i));
        }
        fault := ValidateOperands(a.values, extractIds, i);
        if fault.Some? {
          return;
        }
        continue;
      }
      if |a.values| > 0 {
        return Some(ValuesNotAllowed(i));
      }
      fault := OrElse(OperandFault(a.left, extractIds, i), OperandFault(a.right, extractIds, i));
      if fault.Some? {
        return;
      }
    }
    return None;
  }

  method ValidateProbeSpec(p: ProbeSpec) returns (fault: Option<Fault>)
    ensures fault == ProbeFault(p)
  {
    if |p.requests| == 0 {
      return Some(NoRequests);
    }
    if |p.extracts| == 0 {
      return Some(NoExtracts);
    }
    if |p.asserts| == 0 {
      return Some(NoAsserts);
    }
    var requestIds, extractIds;
    fault, requestIds := ValidateRequests(p);
    if fault.None? {
      fault, extractIds := ValidateExtracts(p, requestIds);
      if fault.None? {
        fault := ValidateAsserts(p, extractIds);
      }
    }
  }

  // ---------- What an accepted probe looks like ----------

  predicate NamesExtract(p: ProbeSpec, ref: string) {
    exists j :: 0 <= j < |p.extracts| && TrimSpace(p.extracts[j].id) == TrimSpace(ref)
  }

  predicate NamesRequest(p: ProbeSpec, from: string) {
    exists j :: 0 <= j < |p.requests| && TrimSpace(p.requests[j].id) == TrimSpace(from)
  }

  /** Either a literal or a reference to an extract, not both and not neither. */
  predicate IsOperand(p: ProbeSpec, o: ProbeOperand) {
    || (Blank(o.ref) && o.value != Nil)
    || (!Blank(o.ref) && o.value == Nil && NamesExtract(p, o.ref))
  }

  predicate IsRequest(r: ProbeRequest) {
    !Blank(r.id) && !Blank(r.url)
  }

  predicate IsExtract(p: ProbeSpec, e: ProbeExtract) {
    && !Blank(e.id) && !Blank(e.from) && NamesRequest(p, e.from)
    && (TrimSpace(e.sourceType) in {"body", "json"}
        || (TrimSpace(e.sourceType) in {"header", "json_path"} && !Blank(e.sourceKey)))
  }

  predicate IsAssert(p: ProbeSpec, a: ProbeAssert) {
    && !Blank(a.id)
    && ((TrimSpace(a.op) == "all_equal" && |a.values| >= 2
         && forall k :: 0 <= k < |a.values| ==> IsOperand(p, a.values[k]))
        || (TrimSpace(a.op) in {"eq", "neq", "gt", "gte", "lt", "lte", "contains", "matches"} && a.values == []
            && IsOperand(p, a.left) && IsOperand(p, a.right)))
  }

  predicate IsProbe(p: ProbeSpec) {
    && |p.requests| > 0 && |p.extracts| > 0 && |p.asserts| > 0
    && (forall i :: 0 <= i < |p.requests| ==> IsRequest(p.requests[i]))
    && (forall i :: 0 <= i < |p.extracts| ==> IsExtract(p, p.extracts[i]))
    && (forall i :: 0 <= i < |p.asserts| ==> IsAssert(p, p.asserts[i]))
    && (forall i, j :: 0 <= i < j < |p.requests| ==> TrimSpace(p.requests[i].id) != TrimSpace(p.requests[j].id))
    && (forall i, j :: 0 <= i < j < |p.extracts| ==> TrimSpace(p.extracts[i].id) != TrimSpace(p.extracts[j].id))
    && (forall i, j :: 0 <= i < j < |p.asserts| ==> TrimSpace(p.asserts[i].id) != TrimSpace(p.asserts[j].id))
  }

  lemma IdsOfPrefix(p: ProbeSpec)
    ensures forall i, id :: 0 <= i <= |p.requests| ==>
              (id in RequestIds(p.requests[..i]) <==> exists j :: 0 <= j < i && TrimSpace(p.requests[j].id) == id)
    ensures forall i, id :: 0 <= i <= |p.extracts| ==>
              (id in ExtractIds(p.extracts[..i]) <==> exists j :: 0 <= j < i && TrimSpace(p.extracts[j].id) == id)
    ensures forall i, id :: 0 <= i <= |p.asserts| ==>
              (id in AssertIds(p.asserts[..i]) <==> exists j :: 0 <= j < i && TrimSpace(p.asserts[j].id) == id)
  {
    hide TrimSpace;
    forall i, j | 0 <= j < i <= |p.requests| ensures p.requests[j] in p.requests[..i] {
      assert p.requests[..i][j] == p.requests[j];
    }
    forall i, j | 0 <= j < i <= |p.extracts| ensures p.extracts[j] in p.extracts[..i] {
      assert p.extracts[..i][j] == p.extracts[j];
    }
    forall i, j | 0 <= j < i <= |p.asserts| ensures p.asserts[j] in p.asserts[..i] {
      assert p.asserts[..i][j] == p.asserts[j];
    }
  }

  lemma RequestAcceptedIff(p: ProbeSpec, i: nat)
    requires i < |p.requests|
    ensures RequestFault(p, i).None? <==>
              IsRequest(p.requests[i]) && forall j :: 0 <= j < i ==> TrimSpace(p.requests[j].id) != TrimSpace(p.requests[i].id)
  {
    hide TrimSpace;
    IdsOfPrefix(p);
  }

  lemma SourceAcceptedIff(sourceType: string, key: string, i: nat)
    ensures SourceFault(sourceType, key, i).None? <==>
              sourceType in {"body", "json"} || (sourceType in {"header", "json_path"} && !Blank(key))
  {
    hide TrimSpace;
  }

  lemma ExtractAcceptedIff(p: ProbeSpec, i: nat)
    requires i < |p.extracts|
    ensures ExtractFault(p, i).None? <==>
              IsExtract(p, p.extracts[i])
              && forall j :: 0 <= j < i ==> TrimSpace(p.extracts[j].id) != TrimSpace(p.extracts[i].id)
  {
    hide TrimSpace, SourceFault;
    IdsOfPrefix(p);
    SourceAcceptedIff(TrimSpace(p.extracts[i].sourceType), p.extracts[i].sourceKey, i);
    assert p.requests[..|p.requests|] == p.requests;
  }

  lemma OperandAcceptedIff(p: ProbeSpec, o: ProbeOperand, i: nat)
    ensures OperandFault(o, ExtractIds(p.extracts), i).None? <==> IsOperand(p, o)
  {
    hide TrimSpace;
    IdsOfPrefix(p);
    assert p.extracts[..|p.extracts|] == p.extracts;
  }

  lemma {:induction false} OperandsAcceptedIff(p: ProbeSpec, operands: seq<ProbeOperand>, k: nat, i: nat)
    requires k <= |operands|
    ensures OperandFaultFrom(operands, k, ExtractIds(p.extracts), i).None?
       <==> forall m :: k <= m < |operands| ==> IsOperand(p, operands[m])
    decreases |operands| - k
  {
    hide OperandFault, IsOperand;
    if k < |operands| {
      OperandAcceptedIff(p, operands[k], i);
      OperandsAcceptedIff(p, operands, k + 1, i);
    }
  }

  lemma AssertAcceptedIff(p: ProbeSpec, i: nat)
    requires i < |p.asserts|
    ensures AssertFault(p, i).None? <==>
              IsAssert(p, p.asserts[i])
              && forall j :: 0 <= j < i ==> TrimSpace(p.asserts[j].id) != TrimSpace(p.asserts[i].id)
  {
    hide TrimSpace, OperandFault, OperandFaultFrom, IsOperand;
    var a := p.asserts[i];
    IdsOfPrefix(p);
    OperandsAcceptedIff(p, a.values, 0, i);
    OperandAcceptedIff(p, a.left, i);
    OperandAcceptedIff(p, a.right, i);
  }

  /** The loops accept exactly the probes that have all that this says. */
  lemma ProbeAcceptedIff(p: ProbeSpec)
    ensures ProbeFault(p).None? <==> IsProbe(p)
  {
    hide RequestFault, ExtractFault, AssertFault, IsRequest, IsExtract, IsAssert, TrimSpace;
    forall i | 0 <= i < |p.requests|
      ensures RequestFault(p, i).None? <==>
              IsRequest(p.requests[i]) && forall j :: 0 <= j < i ==> TrimSpace(p.requests[j].id) != TrimSpace(p.requests[i].id)
    {
      RequestAcceptedIff(p, i);
    }
    forall i | 0 <= i < |p.extracts|
      ensures ExtractFault(p, i).None? <==>
              IsExtract(p, p.extracts[i])
              && forall j :: 0 <= j < i ==> TrimSpace(p.extracts[j].id) != TrimSpace(p.extracts[i].id)
    {
      ExtractAcceptedIff(p, i);
    }
    forall i | 0 <= i < |p.asserts|
      ensures AssertFault(p, i).None? <==>
              IsAssert(p, p.asserts[i])
              && forall j :: 0 <= j < i ==> TrimSpace(p.asserts[j].id) != TrimSpace(p.asserts[i].id)
    {
      AssertAcceptedIff(p, i);
    }
  }

  // ---------- S3 listings ----------

  function CountFault(count: Option<int>): Option<Fault> {
    if count.Some? && count.value < 0 then Some(NegativeCount) else None
  }

  function Defined(count: Option<int>): nat {
    if count.Some? then 1 else 0
  }

  function S3Fault(s: S3Spec, lower: string -> string): Option<Fault> {
    if s.list.None? then Some(NoList)
    else
      var l := s.list.value;
      if Blank(l.bucket) then Some(EmptyBucket)
      else if l.maxKeys < 0 then Some(NegativeMaxKeys)
      else
        var counts := OrElse(CountFault(l.countGt), OrElse(CountFault(l.countGte), CountFault(l.countEq)));
        if counts.Some? then counts
        else if Defined(l.countGt) + Defined(l.countGte) + Defined(l.countEq) != 1 then Some(NotExactlyOneCount)
        else
          var mode := TrimSpace(lower(s.auth.mode));
          if mode in {"", "env", "role"} then None
          else if mode != "static" then Some(UnsupportedAuth(s.auth.mode))
          else if Blank(s.auth.accessKeyId) then Some(EmptyAccessKey)
          else if Blank(s.auth.secretAccessKey) then Some(EmptySecret)
          else None
  }

  predicate IsBound(count: Option<int>) {
    count.Some? && count.value >= 0
  }

  /** A listing is accepted exactly when it names a bucket, bounds the object count in one
      way, and says how to authenticate. */
  lemma S3AcceptedIff(s: S3Spec, lower: string -> string)
    ensures S3Fault(s, lower).None? <==>
      && s.list.Some? && !Blank(s.list.value.bucket) && s.list.value.maxKeys >= 0
      && (var l := s.list.value;
          || (IsBound(l.countGt) && l.countGte.None? && l.countEq.None?)
          || (l.countGt.None? && IsBound(l.countGte) && l.countEq.None?)
          || (l.countGt.None? && l.countGte.None? && IsBound(l.countEq)))
      && (var mode := TrimSpace(lower(s.auth.mode));
          || mode in {"", "env", "role"}
          || (mode == "static" && !Blank(s.auth.accessKeyId) && !Blank(s.auth.secretAccessKey)))
  {
  }

  // ---------- Names and identities ----------

  function ReceiverFaultFrom(receivers: seq<string>, i: nat, source: string, kind: string): Option<Fault>
    requires i <= |receivers|
    decreases |receivers| - i
  {
    if i == |receivers| then None
    else if Blank(receivers[i]) then Some(EmptyReceiver(source, kind, i))
    else ReceiverFaultFrom(receivers, i + 1, source, kind)
  }

  method ValidateMailReceivers(receivers: seq<string>, source: string, kind: string) returns (fault: Option<Fault>)
    ensures fault == ReceiverFaultFrom(receivers, 0, source, kind)
  {
    for i := 0 to |receivers|
      invariant ReceiverFaultFrom(receivers, 0, source, kind) == ReceiverFaultFrom(receivers, i, source, kind)
    {
      if TrimSpace(receivers[i]) == "" {
        return Some(EmptyReceiver(source, kind, i));
      }
    }
    return None;
  }

  function DefinedKinds(sp: Spec): nat {
    (if sp.http.Some? then 1 else 0) + (if sp.tls.Some? then 1 else 0)
    + (if sp.probe.Some? then 1 else 0) + (if sp.s3.Some? then 1 else 0)
  }

  /** The first fault a spec has on its own, in the order of the source's checks. */
  function OwnFault(sp: Spec, lower: string -> string): Option<Fault> {
    if DefinedKinds(sp) != 1 then Some(NotExactlyOneKind(sp.sourcePath))
    else
      var common, kind := sp.Shared().value, sp.Kind();
      if Blank(common.name) then Some(EmptyName(sp.sourcePath, kind))
      else if common.everyCycles < 0 then Some(NegativeEveryCycles(sp.sourcePath, kind))
      else if sp.tls.Some? && sp.tls.value.certMinDaysValid.Some? && sp.tls.value.certMinDaysValid.value < 0 then
        Some(NegativeCertDays(sp.sourcePath))
      else
        OrElse(ReceiverFaultFrom(common.mailReceivers, 0, sp.sourcePath, kind),
               if sp.probe.Some? then ProbeFault(sp.probe.value)
               else if sp.s3.Some? then S3Fault(sp.s3.value, lower)
               else None)
  }

  function Identity(sp: Spec): string {
    sp.Kind() + ":" + TrimSpace(sp.Name())
  }

  /** What the name check reads off one spec. */
  datatype Claim = Claim(fault: Option<Fault>, identity: string, kind: string, name: string, source: string)

  function ClaimOf(sp: Spec, lower: string -> string): Claim {
    Claim(OwnFault(sp, lower), Identity(sp), sp.Kind(), TrimSpace(sp.Name()), sp.sourcePath)
  }

  function Claims(specs: seq<Spec>, lower: string -> string): (cs: seq<Claim>)
    ensures |cs| == |specs| && forall i :: 0 <= i < |cs| ==> cs[i] == ClaimOf(specs[i], lower)
  {
    seq(|specs|, i requires 0 <= i < |specs| => ClaimOf(specs[i], lower))
  }

  /** Identities met so far, each with the source of its latest spec. */
  function Seen(cs: seq<Claim>): map<string, string> {
    if |cs| == 0 then map[]
    else Seen(cs[..|cs| - 1])[cs[|cs| - 1].identity := cs[|cs| - 1].source]
  }

  function NameFault(cs: seq<Claim>, i: nat): Option<Fault>
    requires i < |cs|
  {
    var c, seen := cs[i], Seen(cs[..i]);
    OrElse(c.fault,
           if c.identity in seen then Some(DuplicateName(c.kind, c.name, seen[c.identity], c.source)) else None)
  }

  function NameFaultFrom(cs: seq<Claim>, i: nat): (f: Option<Fault>)
    requires i <= |cs|
    ensures f.None? <==> forall j :: i <= j < |cs| ==> NameFault(cs, j).None?
    decreases |cs| - i
  {
    if i == |cs| then None else OrElse(NameFault(cs, i), NameFaultFrom(cs, i + 1))
  }

  /** The checks of one spec on its own, with the identity to be claimed. */
  method ValidateOwn(sp: Spec, lower: string -> string) returns (fault: Option<Fault>)
    ensures fault == OwnFault(sp, lower)
  {
    var definedKinds := 0;
    if sp.http.Some? {
      definedKinds := definedKinds + 1;
    }
    if sp.tls.Some? {
      definedKinds := definedKinds + 1;
    }
    if sp.probe.Some? {
      definedKinds := definedKinds + 1;
    }
    if sp.s3.Some? {
      definedKinds := definedKinds + 1;
    }
    if definedKinds != 1 {
      return Some(NotExactlyOneKind(sp.sourcePath));
    }
    var common, kind := sp.Shared().value, sp.Kind();
    if TrimSpace(common.name) == "" {
      return Some(EmptyName(sp.sourcePath, kind));
    }
    if common.everyCycles < 0 {
      return Some(NegativeEveryCycles(sp.sourcePath, kind));
    }
    if sp.tls.Some? && sp.tls.value.certMinDaysValid.Some? && sp.tls.value.certMinDaysValid.value < 0 {
      return Some(NegativeCertDays(sp.sourcePath));
    }
    fault := ValidateMailReceivers(common.mailReceivers, sp.sourcePath, kind);
    if fault.Some? {
      return;
    }
    if sp.probe.Some? {
      fault := ValidateProbeSpec(sp.probe.value);
    } else if sp.s3.Some? {
      fault := S3Fault(sp.s3.value, lower);
    }
  }

  method MakeClaim(sp: Spec, lower: string -> string) returns (c: Claim)
    ensures c == ClaimOf(sp, lower)
  {
    var fault := ValidateOwn(sp, lower);
    c := Claim(fault, Identity(sp), sp.Kind(), TrimSpace(sp.Name()), sp.sourcePath);
  }

  /** A claim against the identities met before it. */
  method Register(ghost cs: seq<Claim>, ghost i: nat, c: Claim, seen0: map<string, string>)
    returns (fault: Option<Fault>, seen: map<string, string>)
    requires i < |cs| && c == cs[i] && seen0 == Seen(cs[..i])
    ensures fault == NameFault(cs, i)
    ensures fault.None? ==> seen == Seen(cs[..i + 1])
  {
    assert cs[..i + 1][..i] == cs[..i];
    seen := seen0;
    if c.fault.Some? {
      return c.fault, seen;
    }
    if c.identity in seen {
      return Some(DuplicateName(c.kind, c.name, seen[c.identity], c.source)), seen;
    }
    fault, seen := None, seen[c.identity := c.source];
  }

  method ValidateSpecNames(specs: seq<Spec>, lower: string -> string) returns (fault: Option<Fault>)
    ensures fault == NameFaultFrom(Claims(specs, lower), 0)
  {
    ghost var cs := Claims(specs, lower);
    var seen: map<string, string> := map[];
    for i := 0 to |specs|
      invariant NameFaultFrom(cs, 0) == NameFaultFrom(cs, i)
      invariant seen == Seen(cs[..i])
    {
      var c := MakeClaim(specs[i], lower);
      fault, seen := Register(cs, i, c, seen);
      if fault.Some? {
        return;
      }
    }
    return None;
  }

  // ---------- What an accepted spec looks like ----------

  predicate IsCommon(c: Common) {
    !Blank(c.name) && c.everyCycles >= 0 && forall i :: 0 <= i < |c.mailReceivers| ==> !Blank(c.mailReceivers[i])
  }

  lemma {:induction false} ReceiversAcceptedIff(receivers: seq<string>, i: nat, source: string, kind: string)
    requires i <= |receivers|
    ensures ReceiverFaultFrom(receivers, i, source, kind).None? <==>
              forall j :: i <= j < |receivers| ==> !Blank(receivers[j])
    decreases |receivers| - i
  {
    hide Blank;
    if i < |receivers| {
      ReceiversAcceptedIff(receivers, i + 1, source, kind);
    }
  }

  lemma CommonAcceptedIff(sp: Spec, c: Common, lower: string -> string)
    requires DefinedKinds(sp) == 1 && sp.Shared() == Some(c)
    ensures OwnFault(sp, lower).None? <==>
              && IsCommon(c)
              && (sp.tls.Some? && sp.tls.value.certMinDaysValid.Some? ==> sp.tls.value.certMinDaysValid.value >= 0)
              && (sp.probe.Some? ==> ProbeFault(sp.probe.value).None?)
              && (sp.s3.Some? ==> S3Fault(sp.s3.value, lower).None?)
  {
    hide Blank, ProbeFault, S3Fault, ReceiverFaultFrom, Spec.Kind;
    ReceiversAcceptedIff(c.mailReceivers, 0, sp.sourcePath, sp.Kind());
  }

  /** A document is accepted exactly when it has one part, of whatever kind, and that part
      is in order. */
  lemma SpecAcceptedIff(sp: Spec, lower: string -> string)
    ensures OwnFault(sp, lower).None? <==>
      || (sp.http.Some? && sp.tls.None? && sp.probe.None? && sp.s3.None? && IsCommon(sp.http.value.common))
      || (sp.http.None? && sp.tls.Some? && sp.probe.None? && sp.s3.None? && IsCommon(sp.tls.value.common)
          && (sp.tls.value.certMinDaysValid.Some? ==> sp.tls.value.certMinDaysValid.value >= 0))
      || (sp.http.None? && sp.tls.None? && sp.probe.Some? && sp.s3.None? && IsCommon(sp.probe.value.common)
          && IsProbe(sp.probe.value))
      || (sp.http.None? && sp.tls.None? && sp.probe.None? && sp.s3.Some? && IsCommon(sp.s3.value.common)
          && S3Fault(sp.s3.value, lower).None?)
  {
    hide IsCommon, IsProbe, ProbeFault, S3Fault;
    if DefinedKinds(sp) == 1 {
      hide OwnFault;
      CommonAcceptedIff(sp, sp.Shared().value, lower);
      if sp.probe.Some? {
        ProbeAcceptedIff(sp.probe.value);
      }
    }
  }

  // ---------- What acceptance means ----------

  predicate Accepted(specs: seq<Spec>, lower: string -> string) {
    NameFaultFrom(Claims(specs, lower), 0).None?
  }

  lemma {:induction false} SeenKeys(cs: seq<Claim>, n: nat, id: string)
    requires n <= |cs|
    ensures id in Seen(cs[..n]) <==> exists i :: 0 <= i < n && cs[i].identity == id
  {
    if n > 0 {
      SeenKeys(cs, n - 1, id);
      assert cs[..n][..n - 1] == cs[..n - 1];
    }
  }

  lemma ClaimsAcceptedIff(cs: seq<Claim>)
    ensures NameFaultFrom(cs, 0).None? <==>
              && (forall i :: 0 <= i < |cs| ==> cs[i].fault.None?)
              && (forall i, j :: 0 <= i < j < |cs| ==> cs[i].identity != cs[j].identity)
  {
    forall i | 0 <= i < |cs|
      ensures NameFault(cs, i).None? <==>
              cs[i].fault.None? && forall j :: 0 <= j < i ==> cs[j].identity != cs[i].identity
    {
      SeenKeys(cs, i, cs[i].identity);
    }
  }

  /** A list is accepted exactly when each spec is free of faults on its own and the IDs
      are pairwise distinct. */
  lemma AcceptedIff(specs: seq<Spec>, lower: string -> string)
    ensures Accepted(specs, lower) <==>
              (forall i :: 0 <= i < |specs| ==> OwnFault(specs[i], lower).None?) && DistinctIDs(specs)
  {
    var cs := Claims(specs, lower);
    ClaimsAcceptedIff(cs);
    if forall i :: 0 <= i < |specs| ==> cs[i].fault.None? {
      forall i | 0 <= i < |specs| ensures specs[i].ID() == cs[i].identity {
        AcceptedIdentity(specs[i], lower);
      }
    }
  }

  lemma AcceptedIdentity(sp: Spec, lower: string -> string)
    requires OwnFault(sp, lower).None?
    ensures sp.ID() == Identity(sp) != ""
  {
    assert sp.Kind() != "unknown" by {
      assert sp.Kind()[0] != 'u';
    }
  }

  const KINDS: set<string> := {"http", "tls", "probe", "s3"}

  lemma KindPrefixInjective(k1: string, n1: string, k2: string, n2: string)
    requires k1 in KINDS && k2 in KINDS && k1 + ":" + n1 == k2 + ":" + n2
    ensures k1 == k2 && n1 == n2
  {
    assert k1[0] == (k1 + ":" + n1)[0] && k2[0] == (k2 + ":" + n2)[0];
    assert n1 == (k1 + ":" + n1)[|k1| + 1..] && n2 == (k2 + ":" + n2)[|k2| + 1..];
  }

  /** Identities separate kinds: equal IDs mean the same kind and the same trimmed name. */
  lemma IdentityInjective(a: Spec, b: Spec)
    requires a.ID() == b.ID() != ""
    ensures a.Kind() == b.Kind() && TrimSpace(a.Name()) == TrimSpace(b.Name())
  {
    KindPrefixInjective(a.Kind(), TrimSpace(a.Name()), b.Kind(), TrimSpace(b.Name()));
  }

  lemma {:induction false} TwoOccurrences<T>(s: seq<T>, x: T)
    ensures multiset(s)[x] >= 2 <==> exists i, j :: 0 <= i < j < |s| && s[i] == x && s[j] == x
  {
    if |s| > 0 {
      var before := s[..|s| - 1];
      assert s == before + [s[|s| - 1]];
      TwoOccurrences(before, x);
      if i, j :| 0 <= i < j < |s| && s[i] == x && s[j] == x {
        assert before[i] == x && x in before;
        if j < |before| {
          assert before[j] == x;
        }
      }
      if multiset(s)[x] >= 2 && s[|s| - 1] == x {
        assert x in multiset(before);
        var i :| 0 <= i < |before| && before[i] == x;
        assert s[i] == x;
      }
    }
  }

  lemma DistinctUnderReorder(a: seq<Spec>, b: seq<Spec>)
    requires multiset(a) == multiset(b) && DistinctIDs(a)
    ensures DistinctIDs(b)
  {
    forall i, j | 0 <= i < j < |b| ensures b[i].ID() != b[j].ID() {
      assert b[i] in multiset(a) && b[j] in multiset(a);
      var k :| 0 <= k < |a| && a[k] == b[i];
      var m :| 0 <= m < |a| && a[m] == b[j];
      if k == m {
        TwoOccurrences(b, b[i]);
        TwoOccurrences(a, b[i]);
        assert false;
      }
    }
  }

  lemma AcceptanceTransfers(a: seq<Spec>, b: seq<Spec>, lower: string -> string)
    requires multiset(a) == multiset(b) && Accepted(a, lower)
    ensures Accepted(b, lower)
  {
    hide OwnFault;
    AcceptedIff(a, lower);
    AcceptedIff(b, lower);
    DistinctUnderReorder(a, b);
    forall i | 0 <= i < |b| ensures OwnFault(b[i], lower).None? {
      assert b[i] in multiset(a);
      var k :| 0 <= k < |a| && a[k] == b[i];
    }
  }

  /** Acceptance does not depend on the order of the documents. */
  lemma AcceptanceIgnoresOrder(a: seq<Spec>, b: seq<Spec>, lower: string -> string)
    requires multiset(a) == multiset(b)
    ensures Accepted(a, lower) <==> Accepted(b, lower)
  {
    hide Accepted;
    if Accepted(a, lower) {
      AcceptanceTransfers(a, b, lower);
    }
    if Accepted(b, lower) {
      AcceptanceTransfers(b, a, lower);
    }
  }

  /** The store keys of an accepted list: non-empty, the strings that were checked, and
      pairwise distinct. */
  lemma AcceptedIDs(specs: seq<Spec>, lower: string -> string)
    requires Accepted(specs, lower)
    ensures DistinctIDs(specs)
    ensures forall i :: 0 <= i < |specs| ==> specs[i].ID() == Identity(specs[i]) != ""
  {
    AcceptedIff(specs, lower);
    forall i | 0 <= i < |specs| ensures specs[i].ID() == Identity(specs[i]) != "" {
      AcceptedIdentity(specs[i], lower);
    }
  }

  // ---------- What a refusal says ----------

  /** The fault is there: what it names is in the probe, and wrong. */
  ghost predicate IsFaultOf(p: ProbeSpec, f: Fault) {
    match f
    case NoRequests => p.requests == []
    case NoExtracts => p.extracts == []
    case NoAsserts => p.asserts == []
    case EmptyRequestId(i) => i < |p.requests| && Blank(p.requests[i].id)
    case EmptyUrl(i) => i < |p.requests| && Blank(p.requests[i].url)
    case DuplicateRequest(id) =>
      exists i, j :: 0 <= i < j < |p.requests| && TrimSpace(p.requests[i].id) == id == TrimSpace(p.requests[j].id)
    case EmptyExtractId(i) => i < |p.extracts| && Blank(p.extracts[i].id)
    case EmptyFrom(i) => i < |p.extracts| && Blank(p.extracts[i].from)
    case DuplicateExtract(id) =>
      exists i, j :: 0 <= i < j < |p.extracts| && TrimSpace(p.extracts[i].id) == id == TrimSpace(p.extracts[j].id)
    case UnknownFrom(from) =>
      !NamesRequest(p, from) && exists i :: 0 <= i < |p.extracts| && TrimSpace(p.extracts[i].from) == from
    case EmptySourceKey(i) =>
      i < |p.extracts| && TrimSpace(p.extracts[i].sourceType) in {"header", "json_path"} && Blank(p.extracts[i].sourceKey)
    case UnsupportedSource(i, sourceType) =>
      && i < |p.extracts| && TrimSpace(p.extracts[i].sourceType) == sourceType
      && sourceType !in {"header", "body", "json", "json_path"}
    case EmptyAssertId(i) => i < |p.asserts| && Blank(p.asserts[i].id)
    case DuplicateAssert(id) =>
      exists i, j :: 0 <= i < j < |p.asserts| && TrimSpace(p.asserts[i].id) == id == TrimSpace(p.asserts[j].id)
    case UnsupportedOp(i, op) =>
      && i < |p.asserts| && p.asserts[i].op == op
      && TrimSpace(op) !in {"eq", "neq", "gt", "gte", "lt", "lte", "contains", "matches", "all_equal"}
    case TooFewValues(i) => i < |p.asserts| && TrimSpace(p.asserts[i].op) == "all_equal" && |p.asserts[i].values| < 2
    case ValuesNotAllowed(i) => i < |p.asserts| && TrimSpace(p.asserts[i].op) != "all_equal" && p.asserts[i].values != []
    case RefXorValue(i) =>
      i < |p.asserts| && exists o :: UsesOperand(p.asserts[i], o) && (Blank(o.ref) <==> o.value == Nil)
    case UnknownRef(i, ref) =>
      && i < |p.asserts| && !NamesExtract(p, ref)
      && exists o :: UsesOperand(p.asserts[i], o) && TrimSpace(o.ref) == ref
    case _ => false
  }

  predicate UsesOperand(a: ProbeAssert, o: ProbeOperand) {
    if TrimSpace(a.op) == "all_equal" then o in a.values else o == a.left || o == a.right
  }

  lemma RequestFaultIsThere(p: ProbeSpec, i: nat)
    requires i < |p.requests| && RequestFault(p, i).Some?
    ensures IsFaultOf(p, RequestFault(p, i).value)
  {
    hide TrimSpace;
    IdsOfPrefix(p);
  }

  lemma UnknownFromIsThere(p: ProbeSpec, from: string)
    ensures from !in RequestIds(p.requests) && TrimSpace(from) == from ==> !NamesRequest(p, from)
  {
    hide TrimSpace;
    IdsOfPrefix(p);
    assert p.requests[..|p.requests|] == p.requests;
  }

  lemma ExtractFaultIsThere(p: ProbeSpec, i: nat)
    requires i < |p.extracts| && ExtractFault(p, i).Some?
    ensures IsFaultOf(p, ExtractFault(p, i).value)
  {
    var e := p.extracts[i];
    assert TrimSpace(TrimSpace(e.from)) == TrimSpace(e.from);
    hide TrimSpace, NamesRequest;
    IdsOfPrefix(p);
    UnknownFromIsThere(p, TrimSpace(e.from));
  }

  lemma OperandFaultIsThere(p: ProbeSpec, i: nat, o: ProbeOperand)
    requires i < |p.asserts| && UsesOperand(p.asserts[i], o) && OperandFault(o, ExtractIds(p.extracts), i).Some?
    ensures IsFaultOf(p, OperandFault(o, ExtractIds(p.extracts), i).value)
  {
    assert TrimSpace(TrimSpace(o.ref)) == TrimSpace(o.ref);
    hide TrimSpace, UsesOperand;
    IdsOfPrefix(p);
    assert p.extracts[..|p.extracts|] == p.extracts;
  }

  lemma {:induction false} OperandsFaultIsThere(p: ProbeSpec, i: nat, k: nat)
    requires i < |p.asserts| && TrimSpace(p.asserts[i].op) == "all_equal" && k <= |p.asserts[i].values|
    requires OperandFaultFrom(p.asserts[i].values, k, ExtractIds(p.extracts), i).Some?
    ensures IsFaultOf(p, OperandFaultFrom(p.asserts[i].values, k, ExtractIds(p.extracts), i).value)
    decreases |p.asserts[i].values| - k
  {
    hide TrimSpace, IsFaultOf, OperandFault, ExtractIds;
    if OperandFault(p.asserts[i].values[k], ExtractIds(p.extracts), i).Some? {
      OperandFaultIsThere(p, i, p.asserts[i].values[k]);
    } else {
      OperandsFaultIsThere(p, i, k + 1);
    }
  }

  lemma AssertFaultIsThere(p: ProbeSpec, i: nat)
    requires i < |p.asserts| && AssertFault(p, i).Some?
    ensures IsFaultOf(p, AssertFault(p, i).value)
  {
    hide TrimSpace, OperandFault, OperandFaultFrom, ExtractIds, NamesExtract;
    var a := p.asserts[i];
    IdsOfPrefix(p);
    if TrimSpace(a.op) == "all_equal" {
      if OperandFaultFrom(a.values, 0, ExtractIds(p.extracts), i).Some? {
        OperandsFaultIsThere(p, i, 0);
      }
    } else if OperandFault(a.left, ExtractIds(p.extracts), i).Some? {
      OperandFaultIsThere(p, i, a.left);
    } else if OperandFault(a.right, ExtractIds(p.extracts), i).Some? {
      OperandFaultIsThere(p, i, a.right);
    }
  }

  lemma {:induction false} FirstRequestFault(p: ProbeSpec, i: nat)
    requires i <= |p.requests| && RequestFaultFrom(p, i).Some?
    ensures IsFaultOf(p, RequestFaultFrom(p, i).value)
    decreases |p.requests| - i
  {
    hide RequestFault, IsFaultOf;
    if RequestFault(p, i).Some? {
      RequestFaultIsThere(p, i);
    } else {
      FirstRequestFault(p, i + 1);
    }
  }

  lemma {:induction false} FirstExtractFault(p: ProbeSpec, i: nat)
    requires i <= |p.extracts| && ExtractFaultFrom(p, i).Some?
    ensures IsFaultOf(p, ExtractFaultFrom(p, i).value)
    decreases |p.extracts| - i
  {
    hide ExtractFault, IsFaultOf;
    if ExtractFault(p, i).Some? {
      ExtractFaultIsThere(p, i);
    } else {
      FirstExtractFault(p, i + 1);
    }
  }

  lemma {:induction false} FirstAssertFault(p: ProbeSpec, i: nat)
    requires i <= |p.asserts| && AssertFaultFrom(p, i).Some?
    ensures IsFaultOf(p, AssertFaultFrom(p, i).value)
    decreases |p.asserts| - i
  {
    hide AssertFault, IsFaultOf;
    if AssertFault(p, i).Some? {
      AssertFaultIsThere(p, i);
    } else {
      FirstAssertFault(p, i + 1);
    }
  }

  /** A refused probe has the fault that is reported. */
  lemma ProbeFaultIsThere(p: ProbeSpec)
    requires ProbeFault(p).Some?
    ensures IsFaultOf(p, ProbeFault(p).value)
  {
    if |p.requests| > 0 && |p.extracts| > 0 && |p.asserts| > 0 {
      hide RequestFaultFrom, ExtractFaultFrom, AssertFaultFrom, IsFaultOf;
      if RequestFaultFrom(p, 0).Some? {
        FirstRequestFault(p, 0);
      } else if ExtractFaultFrom(p, 0).Some? {
        FirstExtractFault(p, 0);
      } else {
        FirstAssertFault(p, 0);
      }
    }
  }

  /** A list is refused at its first document that is wrong on its own or repeats an
      identity: everything before it would have been accepted. */
  lemma RefusedAtFirstFault(specs: seq<Spec>, lower: string -> string)
    requires !Accepted(specs, lower)
    ensures exists i :: 0 <= i < |specs| && Accepted(specs[..i], lower) && !Accepted(specs[..i + 1], lower)
                     && NameFaultFrom(Claims(specs, lower), 0) == NameFault(Claims(specs, lower), i)
  {
    var cs := Claims(specs, lower);
    var i := FirstNameFault(cs, 0);
    PrefixAccepted(specs, i, lower);
    PrefixAccepted(specs, i + 1, lower);
    assert !NameFault(cs, i).None?;
  }

  lemma {:induction false} FirstNameFault(cs: seq<Claim>, i: nat) returns (j: nat)
    requires i <= |cs| && NameFaultFrom(cs, i).Some?
    ensures i <= j < |cs| && NameFaultFrom(cs, i) == NameFault(cs, j) && NameFault(cs, j).Some?
    ensures forall k :: i <= k < j ==> NameFault(cs, k).None?
    decreases |cs| - i
  {
    hide NameFault;
    if NameFault(cs, i).Some? {
      j := i;
    } else {
      j := FirstNameFault(cs, i + 1);
    }
  }

  lemma PrefixAccepted(specs: seq<Spec>, n: nat, lower: string -> string)
    requires n <= |specs|
    ensures Accepted(specs[..n], lower) <==> forall i :: 0 <= i < n ==> NameFault(Claims(specs, lower), i).None?
  {
    hide ClaimOf, Seen;
    var cs, prefix := Claims(specs, lower), Claims(specs[..n], lower);
    forall i | 0 <= i < n ensures NameFault(prefix, i) == NameFault(cs, i) {
      assert prefix[..i] == cs[..i];
    }
  }
}
