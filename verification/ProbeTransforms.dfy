/** Extraction of values and their transforms (internal/monitor/probe.go:141-221,
    437-474), and the types the transforms impose. */
module ProbeTransforms {
  import opened ProbePaths
  import opened Specs
  import opened States
  import opened Text
  import opened Values
  import opened Wrappers

  datatype Response = Response(status: int, header: string -> string, body: string)

  datatype ExtractError =
    | NotJson
    | NotCanonical
    | BadPath(e: PathError)
    | UnsupportedSource(sourceType: string)
    | NeedsText(transform: string)
    | NotAnInteger
    | NotATimestamp
    | UnsupportedTransform(name: string)

  function TimeValue(v: Value, lib: Library): Option<Time> {
    match v
    case Text(text) =>
      var raw := TrimSpace(text);
      if raw == "" then None
      else if lib.parseInt(raw).Some? then Some(lib.fromUnix(lib.parseInt(raw).value))
      else lib.parseTimestamp(raw)
    case Integer(GoInt, n) => Some(lib.fromUnix(n))
    case Integer(Int64, n) => Some(lib.fromUnix(n))
    case Float64(f) => Some(lib.fromUnix(lib.truncate(f)))
    case JsonNumber(digits) =>
      if lib.parseInt(digits).Some? then Some(lib.fromUnix(lib.parseInt(digits).value)) else None
    case _ => None
  }

  function ApplyTransform(v: Value, transform: string, lib: Library): Result<Value, ExtractError> {
    var name := TrimSpace(transform);
    if name == "trim_space" then
      if v.Text? then Ok(Text(TrimSpace(v.text))) else Err(NeedsText(name))
    else if name == "strip_quotes" then
      if v.Text? then Ok(Text(TrimChar(v.text, '"'))) else Err(NeedsText(name))
    else if name == "lowercase" then
      if v.Text? then Ok(Text(lib.lower(v.text))) else Err(NeedsText(name))
    else if name == "as_int" then
      if !v.Text? then Err(NeedsText(name))
      else
        match lib.parseInt(TrimSpace(v.text))
        case Some(n) => Ok(Integer(Int64, n))
        case None => Err(NotAnInteger)
    else if name == "age_seconds" then
      match TimeValue(v, lib)
      case Some(timestamp) => Ok(Integer(Int64, lib.ageSeconds(timestamp)))
      case None => Err(NotATimestamp)
    else Err(UnsupportedTransform(transform))
  }

  function ApplyAll(v: Value, transforms: seq<string>, lib: Library): Result<Value, ExtractError>
    decreases |transforms|
  {
    if |transforms| == 0 then Ok(v)
    else
      match ApplyTransform(v, transforms[0], lib)
      case Ok(next) => ApplyAll(next, transforms[1..], lib)
      case Err(e) => Err(e)
  }

  function SourceValue(response: Response, e: ProbeExtract, lib: Library): Result<Value, ExtractError> {
    var sourceType := TrimSpace(e.sourceType);
    if sourceType == "header" then Ok(Text(response.header(e.sourceKey)))
    else if sourceType == "body" then Ok(Text(response.body))
    else if sourceType == "json" then
      match lib.decodeJson(response.body)
      case None => Err(NotJson)
      case Some(decoded) =>
        (match lib.encodeJson(decoded)
         case None => Err(NotCanonical)
         case Some(text) => Ok(Text(text)))
    else if sourceType == "json_path" then
      match lib.decodeJson(response.body)
      case None => Err(NotJson)
      case Some(decoded) =>
        (match Resolve(decoded, e.sourceKey)
         case Ok(v) => Ok(v)
         case Err(error) => Err(BadPath(error)))
    else Err(UnsupportedSource(e.sourceType))
  }

  function Extract(response: Response, e: ProbeExtract, lib: Library): Result<Value, ExtractError> {
    match SourceValue(response, e, lib)
    case Ok(v) => ApplyAll(v, e.transforms, lib)
    case Err(error) => Err(error)
  }

  method ExtractProbeValue(response: Response, e: ProbeExtract, lib: Library) returns (r: Result<Value, ExtractError>)
    ensures r == Extract(response, e, lib)
  {
    r := SourceValue(response, e, lib);
    if r.Err? {
      return;
    }
    ghost var source := r.value;
    for i := 0 to |e.transforms|
      invariant r.Ok? && ApplyAll(source, e.transforms, lib) == ApplyAll(r.value, e.transforms[i..], lib)
    {
      assert e.transforms[i..][1..] == e.transforms[i + 1..];
      r := ApplyTransform(r.value, e.transforms[i], lib);
      if r.Err? {
        return;
      }
    }
  }

  // ---------- Types ----------

  /** Text; int64; other values that can be timestamps; everything else. */
  datatype Type = TextType | Int64Type | ClockType | OtherType

  function TypeOf(v: Value): Type {
    match v
    case Text(_) => TextType
    case Integer(Int64, _) => Int64Type
    case Integer(GoInt, _) => ClockType
    case Float64(_) => ClockType
    case JsonNumber(_) => ClockType
    case _ => OtherType
  }

  predicate IsStringTransform(transform: string) {
    TrimSpace(transform) in {"trim_space", "strip_quotes", "lowercase"}
  }

  predicate IsAgeSeconds(transform: string) {
    TrimSpace(transform) == "age_seconds"
  }

  predicate IsAsInt(transform: string) {
    TrimSpace(transform) == "as_int"
  }

  function StepType(t: Type, transform: string): Option<Type> {
    if IsStringTransform(transform) then if t == TextType then Some(TextType) else None
    else if IsAsInt(transform) then if t == TextType then Some(Int64Type) else None
    else if IsAgeSeconds(transform) then if t == OtherType then None else Some(Int64Type)
    else None
  }

  /** The type of a pipeline's result, from the names of its transforms alone. */
  function PipelineType(t: Type, transforms: seq<string>): Option<Type>
    decreases |transforms|
  {
    if |transforms| == 0 then Some(t)
    else
      match StepType(t, transforms[0])
      case Some(next) => PipelineType(next, transforms[1..])
      case None => None
  }

  /** Whatever the values and the library do, a pipeline that succeeds is well typed, and
      its result has the type its names decide. */
  lemma {:induction false} PipelineSound(v: Value, transforms: seq<string>, lib: Library)
    requires ApplyAll(v, transforms, lib).Ok?
    ensures PipelineType(TypeOf(v), transforms) == Some(TypeOf(ApplyAll(v, transforms, lib).value))
    decreases |transforms|
  {
    if |transforms| > 0 {
      var next := ApplyTransform(v, transforms[0], lib).value;
      TransformSound(v, transforms[0], lib);
      PipelineSound(next, transforms[1..], lib);
    }
  }

  lemma TransformSound(v: Value, transform: string, lib: Library)
    requires ApplyTransform(v, transform, lib).Ok?
    ensures StepType(TypeOf(v), transform) == Some(TypeOf(ApplyTransform(v, transform, lib).value))
  {
  }

  /** What completeness needs of the library: it parses one digit and has no lower case
      for it. */
  predicate KnowsOne(lib: Library) {
    lib.parseInt("1").Some? && lib.lower("1") == "1"
  }

  function Sample(t: Type): (v: Value)
    ensures TypeOf(v) == t && Agreeable(v)
  {
    match t
    case TextType => Text("1")
    case Int64Type => Integer(Int64, 0)
    case ClockType => Integer(GoInt, 0)
    case OtherType => Nil
  }

  /** Values on which no well-typed transform fails. */
  predicate Agreeable(v: Value) {
    match v
    case Text(text) => text == "1"
    case JsonNumber(_) => false
    case _ => true
  }

  lemma StepComplete(v: Value, transform: string, lib: Library)
    requires KnowsOne(lib) && Agreeable(v) && StepType(TypeOf(v), transform).Some?
    ensures ApplyTransform(v, transform, lib).Ok? && Agreeable(ApplyTransform(v, transform, lib).value)
  {
    assert TrimSpace("1") == "1" && TrimChar("1", '"') == "1";
  }

  lemma {:induction false} AgreeableSucceeds(v: Value, transforms: seq<string>, lib: Library)
    requires KnowsOne(lib) && Agreeable(v) && PipelineType(TypeOf(v), transforms).Some?
    ensures ApplyAll(v, transforms, lib).Ok?
    decreases |transforms|
  {
    if |transforms| > 0 {
      StepComplete(v, transforms[0], lib);
      TransformSound(v, transforms[0], lib);
      AgreeableSucceeds(ApplyTransform(v, transforms[0], lib).value, transforms[1..], lib);
    }
  }

  ghost predicate CanSucceed(t: Type, transforms: seq<string>, lib: Library) {
    exists v :: TypeOf(v) == t && ApplyAll(v, transforms, lib).Ok?
  }

  /** A pipeline succeeds on some value of its source type if and only if it is well typed,
      whatever else the library does. */
  lemma PipelineComplete(t: Type, transforms: seq<string>, lib: Library)
    requires KnowsOne(lib)
    ensures CanSucceed(t, transforms, lib) <==> PipelineType(t, transforms).Some?
  {
    if PipelineType(t, transforms).Some? {
      AgreeableSucceeds(Sample(t), transforms, lib);
    }
    if v :| TypeOf(v) == t && ApplyAll(v, transforms, lib).Ok? {
      PipelineSound(v, transforms, lib);
    }
  }

  /** A pipeline from a text source: string transforms, then at most one `as_int` or
      `age_seconds`, then `age_seconds` only. `n` counts the string transforms. */
  predicate TextPipeline(transforms: seq<string>, n: nat) {
    && n <= |transforms|
    && (forall i :: 0 <= i < n ==> IsStringTransform(transforms[i]))
    && (n < |transforms| ==> IsAsInt(transforms[n]) || IsAgeSeconds(transforms[n]))
    && (forall i :: n < i < |transforms| ==> IsAgeSeconds(transforms[i]))
  }

  lemma {:induction false} Int64Pipelines(transforms: seq<string>)
    ensures PipelineType(Int64Type, transforms)
         == if forall i :: 0 <= i < |transforms| ==> IsAgeSeconds(transforms[i]) then Some(Int64Type) else None
  {
    if |transforms| > 0 {
      Int64Pipelines(transforms[1..]);
      assert (forall i :: 0 <= i < |transforms| ==> IsAgeSeconds(transforms[i])) <==>
        IsAgeSeconds(transforms[0]) && forall i :: 0 <= i < |transforms[1..]| ==> IsAgeSeconds(transforms[1..][i]);
    }
  }

  lemma {:induction false} TextPipelineTyped(transforms: seq<string>, n: nat)
    requires TextPipeline(transforms, n)
    ensures PipelineType(TextType, transforms) == Some(if n == |transforms| then TextType else Int64Type)
  {
    if n == 0 {
      if |transforms| > 0 {
        Int64Pipelines(transforms[1..]);
      }
    } else {
      assert TextPipeline(transforms[1..], n - 1);
      TextPipelineTyped(transforms[1..], n - 1);
    }
  }

  lemma {:induction false} TypedIsTextPipeline(transforms: seq<string>) returns (n: nat)
    requires PipelineType(TextType, transforms).Some?
    ensures TextPipeline(transforms, n)
  {
    if |transforms| == 0 {
      n := 0;
    } else if IsStringTransform(transforms[0]) {
      var m := TypedIsTextPipeline(transforms[1..]);
      n := m + 1;
      assert forall i :: 1 <= i < |transforms| ==> transforms[i] == transforms[1..][i - 1];
    } else {
      n := 0;
      Int64Pipelines(transforms[1..]);
      assert forall i :: 1 <= i < |transforms| ==> transforms[i] == transforms[1..][i - 1];
    }
  }

  ghost predicate CanSucceedOnText(transforms: seq<string>, lib: Library) {
    exists text :: ApplyAll(Text(text), transforms, lib).Ok?
  }

  /** The discipline, exactly, and for every library: the lists that can succeed on some
      text are the text pipelines. */
  lemma TextDiscipline(transforms: seq<string>, lib: Library)
    requires KnowsOne(lib)
    ensures CanSucceedOnText(transforms, lib) <==> exists n: nat :: TextPipeline(transforms, n)
  {
    hide ApplyAll, PipelineType, TextPipeline;
    if text :| ApplyAll(Text(text), transforms, lib).Ok? {
      PipelineSound(Text(text), transforms, lib);
      var n := TypedIsTextPipeline(transforms);
    }
    if n: nat :| TextPipeline(transforms, n) {
      TextPipelineTyped(transforms, n);
      AgreeableSucceeds(Text("1"), transforms, lib);
    }
  }

  // ---------- Values ----------

  /** What each source reads. Only the part of the reply it names matters. */
  lemma SourceReads(response: Response, e: ProbeExtract, lib: Library)
    requires e.transforms == []
    ensures TrimSpace(e.sourceType) == "header" ==> Extract(response, e, lib) == Ok(Text(response.header(e.sourceKey)))
    ensures TrimSpace(e.sourceType) == "body" ==> Extract(response, e, lib) == Ok(Text(response.body))
    ensures TrimSpace(e.sourceType) in {"json", "json_path"} && lib.decodeJson(response.body).None? ==>
              Extract(response, e, lib) == Err(NotJson)
    ensures TrimSpace(e.sourceType) !in {"header", "body", "json", "json_path"} ==>
              Extract(response, e, lib) == Err(UnsupportedSource(e.sourceType))
  {
    hide TrimSpace;
  }

  /** A JSON body is read as its canonical text, and a path into it leads where its keys
      lead. */
  lemma JsonReads(response: Response, e: ProbeExtract, keys: seq<string>, document: Value, lib: Library)
    requires e.transforms == [] && lib.decodeJson(response.body) == Some(document)
    ensures TrimSpace(e.sourceType) == "json" ==>
              match lib.encodeJson(document)
              case Some(text) => Extract(response, e, lib) == Ok(Text(text))
              case None => Extract(response, e, lib).Err?
    ensures TrimSpace(e.sourceType) == "json_path" && e.sourceKey == PathOf(keys)
            && AreKeys(keys) && (|keys| > 0 ==> keys[0][0] != '$') ==>
              match Follow(document, keys)
              case Some(v) => Extract(response, e, lib) == Ok(v)
              case None => Extract(response, e, lib).Err?
  {
    hide TrimSpace, Resolve, Follow, PathOf;
    if AreKeys(keys) && (|keys| > 0 ==> keys[0][0] != '$') {
      PathRoundTrip(document, keys);
    }
  }

  /** Transforms are applied one after another, left to right. */
  lemma {:induction false} ApplyConcat(v: Value, first: seq<string>, second: seq<string>, lib: Library)
    ensures ApplyAll(v, first + second, lib)
         == match ApplyAll(v, first, lib) case Ok(u) => ApplyAll(u, second, lib) case Err(e) => Err(e)
    decreases |first|
  {
    hide ApplyTransform;
    if |first| == 0 {
      assert first + second == second;
    } else {
      assert (first + second)[1..] == first[1..] + second;
      if ApplyTransform(v, first[0], lib).Ok? {
        ApplyConcat(ApplyTransform(v, first[0], lib).value, first[1..], second, lib);
      }
    }
  }

  predicate AllAre(s: string, c: char) {
    forall i :: 0 <= i < |s| ==> s[i] == c
  }

  /** Quotes that were put around a text come off again. */
  lemma {:induction false} UnquotesQuoted(s: string, before: string, after: string, c: char)
    requires AllAre(before, c) && AllAre(after, c)
    requires s != "" ==> s[0] != c && s[|s| - 1] != c
    ensures TrimChar(before + s + after, c) == s
    decreases |before| + |after|
  {
    var all := before + s + after;
    if |before| > 0 {
      assert all[0] == before[0] == c;
      assert all[1..] == before[1..] + s + after;
      UnquotesQuoted(s, before[1..], after, c);
    } else if |after| > 0 {
      assert all[|all| - 1] == after[|after| - 1] == c;
      if s == "" {
        assert all == after && all[0] == c;
        assert all[1..] == "" + s + after[1..];
        UnquotesQuoted(s, "", after[1..], c);
      } else {
        assert all[0] == s[0];
        assert all[..|all| - 1] == before + s + after[..|after| - 1];
        UnquotesQuoted(s, before, after[..|after| - 1], c);
      }
    } else {
      assert all == s;
    }
  }

  /** What the string transforms do to a text. */
  lemma StringTransforms(text: string, before: string, after: string, transform: string, lib: Library)
    ensures TrimSpace(transform) == "trim_space" ==> ApplyTransform(Text(text), transform, lib) == Ok(Text(TrimSpace(text)))
    ensures TrimSpace(transform) == "lowercase" ==> ApplyTransform(Text(text), transform, lib) == Ok(Text(lib.lower(text)))
    ensures TrimSpace(transform) == "strip_quotes" && (text != "" ==> text[0] != '"' && text[|text| - 1] != '"')
            && AllAre(before, '"') && AllAre(after, '"') ==>
              ApplyTransform(Text(before + text + after), transform, lib) == Ok(Text(text))
  {
    hide TrimSpace, TrimChar;
    if (text != "" ==> text[0] != '"' && text[|text| - 1] != '"')
       && AllAre(before, '"') && AllAre(after, '"') {
      UnquotesQuoted(text, before, after, '"');
    }
  }

  /** A text that is a number to `as_int`, with any whitespace around it. */
  predicate IsIntegerText(text: string, n: int, lib: Library) {
    !Blank(text) && lib.parseInt(TrimSpace(text)) == Some(n)
  }

  lemma AsIntReads(text: string, transform: string, lib: Library)
    requires TrimSpace(transform) == "as_int"
    ensures match lib.parseInt(TrimSpace(text))
            case Some(n) => ApplyTransform(Text(text), transform, lib) == Ok(Integer(Int64, n))
            case None => ApplyTransform(Text(text), transform, lib) == Err(NotAnInteger)
  {
    hide TrimSpace;
  }

  predicate NamesAge(v: Value, n: int, lib: Library) {
    || (v.Text? && IsIntegerText(v.text, n, lib))
    || v == Integer(Int64, n) || v == Integer(GoInt, n)
    || (v.Float64? && lib.truncate(v.f64) == n)
    || (v.JsonNumber? && lib.parseInt(v.digits) == Some(n))
  }

  /** An age does not depend on how its Unix time is written. */
  lemma AgeOfUnixTime(v: Value, n: int, transform: string, lib: Library)
    requires TrimSpace(transform) == "age_seconds" && NamesAge(v, n, lib)
    ensures ApplyTransform(v, transform, lib) == Ok(Integer(Int64, lib.ageSeconds(lib.fromUnix(n))))
  {
    hide TrimSpace;
  }

  /** A text that is no integer is read as a timestamp, and a blank one is neither. */
  lemma AgeOfTimestamp(text: string, transform: string, lib: Library)
    requires TrimSpace(transform) == "age_seconds"
    ensures Blank(text) ==> ApplyTransform(Text(text), transform, lib) == Err(NotATimestamp)
    ensures !Blank(text) && lib.parseInt(TrimSpace(text)).None? ==>
              match lib.parseTimestamp(TrimSpace(text))
              case Some(t) => ApplyTransform(Text(text), transform, lib) == Ok(Integer(Int64, lib.ageSeconds(t)))
              case None => ApplyTransform(Text(text), transform, lib) == Err(NotATimestamp)
  {
    hide TrimSpace;
  }

  /** Converting an integer text first makes no difference to its age, nor does trimming it
      to either conversion. */
  lemma ConversionsAgree(text: string, n: int, lib: Library)
    requires IsIntegerText(text, n, lib)
    ensures ApplyAll(Text(text), ["as_int", "age_seconds"], lib) == ApplyAll(Text(text), ["age_seconds"], lib)
    ensures ApplyAll(Text(text), ["trim_space", "age_seconds"], lib) == ApplyAll(Text(text), ["age_seconds"], lib)
    ensures ApplyAll(Text(text), ["trim_space", "as_int"], lib) == ApplyAll(Text(text), ["as_int"], lib)
  {
    assert TrimSpace("as_int") == "as_int" && TrimSpace("age_seconds") == "age_seconds" && TrimSpace("trim_space") == "trim_space";
    assert TrimSpace(TrimSpace(text)) == TrimSpace(text);
    hide TrimSpace, ApplyTransform, TimeValue;
    OneTransform(Text(text), "as_int", lib);
    OneTransform(Text(text), "age_seconds", lib);
    TwoTransforms(Text(text), "as_int", "age_seconds", lib);
    TwoTransforms(Text(text), "trim_space", "age_seconds", lib);
    TwoTransforms(Text(text), "trim_space", "as_int", lib);
    StringTransforms(text, "", "", "trim_space", lib);
    AsIntReads(text, "as_int", lib);
    AsIntReads(TrimSpace(text), "as_int", lib);
    AgeOfUnixTime(Text(text), n, "age_seconds", lib);
    AgeOfUnixTime(Text(TrimSpace(text)), n, "age_seconds", lib);
    AgeOfUnixTime(Integer(Int64, n), n, "age_seconds", lib);
  }

  lemma OneTransform(v: Value, a: string, lib: Library)
    ensures ApplyAll(v, [a], lib) == ApplyTransform(v, a, lib)
  {
    hide ApplyTransform;
    assert [a][1..] == [];
  }

  lemma TwoTransforms(v: Value, a: string, b: string, lib: Library)
    ensures ApplyAll(v, [a, b], lib)
         == match ApplyTransform(v, a, lib) case Ok(u) => ApplyTransform(u, b, lib) case Err(e) => Err(e)
  {
    hide ApplyTransform;
    assert [a, b][1..] == [b];
    if ApplyTransform(v, a, lib).Ok? {
      OneTransform(ApplyTransform(v, a, lib).value, b, lib);
    }
  }
}
