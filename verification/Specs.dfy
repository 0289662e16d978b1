/** Spec documents and their identity (internal/spec/spec.go). Only the fields that the
    modelled code reads are kept. */
module Specs {
  import opened Text
  import opened Values
  import opened Wrappers

  datatype SpecCycles = SpecCycles(failure: int, success: int)

  /** The fields every kind of spec declares. */
  datatype Common = Common(
    disabled: bool,
    name: string,
    everyCycles: int,
    mailReceivers: seq<string>,
    cycles: SpecCycles)

  datatype HttpSpec = HttpSpec(common: Common)

  datatype TlsSpec = TlsSpec(common: Common, certMinDaysValid: Option<int>)

  datatype ProbeSpec = ProbeSpec(
    common: Common,
    requests: seq<ProbeRequest>,
    extracts: seq<ProbeExtract>,
    asserts: seq<ProbeAssert>)

  datatype ProbeRequest = ProbeRequest(id: string, url: string)

  datatype ProbeExtract = ProbeExtract(
    id: string,
    from: string,
    sourceType: string,
    sourceKey: string,
    transforms: seq<string>)

  datatype ProbeAssert = ProbeAssert(
    id: string,
    op: string,
    left: ProbeOperand,
    right: ProbeOperand,
    values: seq<ProbeOperand>)

  datatype ProbeOperand = ProbeOperand(ref: string, value: Value)

  datatype S3Spec = S3Spec(common: Common, auth: S3Auth, list: Option<S3List>)

  datatype S3Auth = S3Auth(mode: string, accessKeyId: string, secretAccessKey: string)

  datatype S3List = S3List(
    bucket: string,
    maxKeys: int,
    countGt: Option<int>,
    countGte: Option<int>,
    countEq: Option<int>)

  datatype Spec = Spec(
    http: Option<HttpSpec>,
    tls: Option<TlsSpec>,
    probe: Option<ProbeSpec>,
    s3: Option<S3Spec>,
    sourcePath: string)
  {
    /** The common fields of the first kind that is present; absent for an empty spec. */
    function Shared(): Option<Common> {
      if http.Some? then Some(http.value.common)
      else if tls.Some? then Some(tls.value.common)
      else if probe.Some? then Some(probe.value.common)
      else if s3.Some? then Some(s3.value.common)
      else None
    }

    predicate IsActive() {
      Shared().Some? && !Shared().value.disabled
    }

    function Kind(): string {
      if http.Some? then "http"
      else if tls.Some? then "tls"
      else if probe.Some? then "probe"
      else if s3.Some? then "s3"
      else "unknown"
    }

    function Name(): string {
      if Shared().Some? then Shared().value.name else ""
    }

    /** The key of the state store. */
    function ID(): string {
      var name := TrimSpace(Name());
      if name == "" || Kind() == "unknown" then "" else Kind() + ":" + name
    }

    function EveryCycles(): int {
      if Shared().Some? then Shared().value.everyCycles else 0
    }

    function Cycles(): SpecCycles {
      if Shared().Some? then Shared().value.cycles else SpecCycles(0, 0)
    }
  }

  predicate DistinctIDs(specs: seq<Spec>) {
    forall i, j :: 0 <= i < j < |specs| ==> specs[i].ID() != specs[j].ID()
  }
}
