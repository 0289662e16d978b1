/** Recipient lists: the merge of global and per-spec mail receivers
    (internal/monitor/runner.go), the comma-separated environment value and the
    repeatable flag (internal/config/configuration.go). */
module Recipients {
  import opened Text
  import opened Wrappers

  predicate AllClean(values: seq<string>) {
    forall i :: 0 <= i < |values| ==> values[i] != "" && Trimmed(values[i])
  }

  /** Every value trimmed, blank ones dropped, order kept. */
  function Normalized(values: seq<string>): seq<string>
  {
    if |values| == 0 then []
    else
      var last := TrimSpace(values[|values| - 1]);
      Normalized(values[..|values| - 1]) + (if last == "" then [] else [last])
  }

  /** Each value where it first occurs. */
  function Distinct(values: seq<string>): (r: seq<string>)
    ensures forall v :: v in r <==> v in values
  {
    if |values| == 0 then []
    else
      var r := Distinct(values[..|values| - 1]);
      if values[|values| - 1] in values[..|values| - 1] then r else r + [values[|values| - 1]]
  }

  lemma {:induction false} NormalizedConcat(a: seq<string>, b: seq<string>)
    ensures Normalized(a + b) == Normalized(a) + Normalized(b)
  {
    if |b| == 0 {
      assert a + b == a;
    } else {
      assert (a + b)[..|a + b| - 1] == a + b[..|b| - 1];
      NormalizedConcat(a, b[..|b| - 1]);
    }
  }

  lemma {:induction false} DistinctSnoc(values: seq<string>, v: string)
    ensures Distinct(values + [v]) == Distinct(values) + (if v in values then [] else [v])
  {
    assert (values + [v])[..|values|] == values;
  }

  ghost predicate InOrderOfFirstPositions(r: seq<string>, values: seq<string>) {
    forall i, j :: 0 <= i < j < |r| ==> IndexOf(values, r[i]) < IndexOf(values, r[j])
  }

  lemma FirstPositionsStay(r: seq<string>, before: seq<string>, values: seq<string>)
    requires before <= values && forall v :: v in r ==> v in before
    ensures forall i :: 0 <= i < |r| ==> IndexOf(values, r[i]) == IndexOf(before, r[i]) < |before|
  {
    hide Distinct;
    forall i | 0 <= i < |r| ensures IndexOf(values, r[i]) == IndexOf(before, r[i]) < |before| {
      assert r[i] in r;
      IndexOfUnique(values, r[i], IndexOf(before, r[i]));
    }
  }

  lemma SamePositions(r: seq<string>, before: seq<string>, values: seq<string>)
    requires InOrderOfFirstPositions(r, before)
    requires forall i :: 0 <= i < |r| ==> IndexOf(values, r[i]) == IndexOf(before, r[i])
    ensures InOrderOfFirstPositions(r, values)
  {
  }

  /** What first-occurrence deduplication means: the kept values have no repeats and stand
      in the order of their first positions. */
  lemma {:induction false} DistinctMeaning(values: seq<string>)
    ensures InOrderOfFirstPositions(Distinct(values), values)
  {
    hide InOrderOfFirstPositions, IndexOf;
    if |values| > 0 {
      var before, last := values[..|values| - 1], values[|values| - 1];
      DistinctMeaning(before);
      var r := Distinct(before);
      FirstPositionsStay(r, before, values);
      if last in before {
        SamePositions(r, before, values);
      } else {
        IndexOfUnique(values, last, |before|);
        LaterPositionAppends(r, before, values, last);
      }
    } else {
      NoPositions(values);
    }
  }

  lemma NoPositions(values: seq<string>)
    ensures InOrderOfFirstPositions([], values)
  {
  }

  lemma LaterPositionAppends(r: seq<string>, before: seq<string>, values: seq<string>, last: string)
    requires InOrderOfFirstPositions(r, before)
    requires forall i :: 0 <= i < |r| ==> IndexOf(values, r[i]) == IndexOf(before, r[i]) < IndexOf(values, last)
    ensures InOrderOfFirstPositions(r + [last], values)
  {
  }

  /** Recipients of a longer list start with those of a shorter one. */
  lemma {:induction false} DistinctPrefix(a: seq<string>, b: seq<string>)
    ensures Distinct(a) <= Distinct(a + b)
  {
    if |b| == 0 {
      assert a + b == a;
    } else {
      assert (a + b)[..|a + b| - 1] == a + b[..|b| - 1];
      DistinctPrefix(a, b[..|b| - 1]);
    }
  }

  function Merged(globalRecipients: seq<string>, specRecipients: seq<string>): seq<string> {
    Distinct(Normalized(globalRecipients + specRecipients))
  }

  lemma AppendedValue(values: seq<string>, v: string)
    ensures Distinct(Normalized(values + [v]))
         == if TrimSpace(v) == "" || TrimSpace(v) in Distinct(Normalized(values)) then Distinct(Normalized(values))
            else Distinct(Normalized(values)) + [TrimSpace(v)]
  {
    assert (values + [v])[..|values|] == values;
    if TrimSpace(v) == "" {
      assert Normalized(values) + [] == Normalized(values);
    } else {
      DistinctSnoc(Normalized(values), TrimSpace(v));
    }
  }

  ghost predicate SameMembers(seen: set<string>, merged: seq<string>) {
    forall v :: v in seen <==> v in merged
  }

  /** The closure `appendUnique` of `mergedMailRecipients`: `seen` holds the values in
      `merged`, which are those of the lists done so far. */
  method AppendUnique(values: seq<string>, seen0: set<string>, merged0: seq<string>, ghost done: seq<string>)
    returns (seen: set<string>, merged: seq<string>)
    requires merged0 == Distinct(Normalized(done))
    requires SameMembers(seen0, merged0)
    ensures merged == Distinct(Normalized(done + values))
    ensures SameMembers(seen, merged)
  {
    seen, merged := seen0, merged0;
    ghost var read := done;
    for i := 0 to |values|
      invariant read == done + values[..i]
      invariant merged == Distinct(Normalized(read))
      invariant SameMembers(seen, merged)
    {
      AppendedValue(read, values[i]);
      TakeOneMore(done, values, i);
      read := read + [values[i]];
      var normalized := TrimSpace(values[i]);
      if normalized == "" {
        continue;
      }
      if normalized in seen {
        continue;
      }
      seen, merged := seen + {normalized}, merged + [normalized];
    }
    TakeAll(done, values);
  }

  method MergedMailRecipients(globalRecipients: seq<string>, specRecipients: seq<string>)
    returns (merged: seq<string>)
    ensures merged == Merged(globalRecipients, specRecipients)
  {
    var seen: set<string>;
    seen, merged := AppendUnique(globalRecipients, {}, [], []);
    assert [] + globalRecipients == globalRecipients;
    seen, merged := AppendUnique(specRecipients, seen, merged, globalRecipients);
  }

  /** Global receivers come first, whatever the spec adds; every non-blank receiver of
      either list gets exactly one, trimmed, entry. */
  lemma MergedKeepsGlobalsFirst(globalRecipients: seq<string>, specRecipients: seq<string>)
    ensures Merged(globalRecipients, []) <= Merged(globalRecipients, specRecipients)
    ensures forall v :: v in Merged(globalRecipients, specRecipients)
                   <==> v in Normalized(globalRecipients) || v in Normalized(specRecipients)
  {
    NormalizedConcat(globalRecipients, specRecipients);
    assert globalRecipients + [] == globalRecipients;
    DistinctPrefix(Normalized(globalRecipients), Normalized(specRecipients));
  }

  lemma {:induction false} NormalizedIdempotent(values: seq<string>)
    requires AllClean(values)
    ensures Normalized(values) == values
  {
    if |values| > 0 {
      NormalizedIdempotent(values[..|values| - 1]);
    }
  }

  // ---------- The comma-separated list ----------

  function CsvList(raw: string): seq<string> {
    Normalized(Split(raw, ','))
  }

  method ParseCsvList(raw: string) returns (values: seq<string>)
    ensures values == CsvList(raw)
  {
    var parts := Split(raw, ',');
    values := [];
    for i := 0 to |parts|
      invariant values == Normalized(parts[..i])
    {
      assert parts[..i + 1][..i] == parts[..i];
      var trimmed := TrimSpace(parts[i]);
      if trimmed == "" {
        continue;
      }
      values := values + [trimmed];
    }
    assert parts[..|parts|] == parts;
  }

  lemma {:induction false} NormalizedElements(values: seq<string>, sep: char)
    requires AllLack(values, sep)
    ensures AllClean(Normalized(values)) && AllLack(Normalized(values), sep)
  {
    if |values| > 0 {
      NormalizedElements(values[..|values| - 1], sep);
      TrimSpaceKeepsOnly(values[|values| - 1]);
    }
  }

  /** Printing a list with commas and reading it back is the identity exactly on lists of
      trimmed, non-blank, comma-free values. */
  lemma CsvRoundTrip(values: seq<string>)
    ensures CsvList(Join(values, ',')) == values
       <==> AllClean(values) && AllLack(values, ',')
  {
    var raw := Join(values, ',');
    SplitPartsLackSeparator(raw, ',');
    NormalizedElements(Split(raw, ','), ',');
    if AllClean(values) && AllLack(values, ',') {
      if |values| > 0 {
        SplitJoin(values, ',');
        NormalizedIdempotent(values);
      } else {
        assert Split("", ',') == [""];
        assert Normalized([""][..0]) == [];
      }
    }
  }

  /** The values that reading produces are such a list. */
  lemma CsvNormalForm(raw: string)
    ensures CsvList(Join(CsvList(raw), ',')) == CsvList(raw)
  {
    SplitPartsLackSeparator(raw, ',');
    NormalizedElements(Split(raw, ','), ',');
    CsvRoundTrip(CsvList(raw));
  }

  // ---------- The repeatable flag ----------

  /** The list a flag points at. */
  class StringList {
    var items: seq<string>

    constructor (initial: seq<string>)
      ensures items == initial
    {
      items := initial;
    }
  }

  class StringSliceFlag {
    const target: StringList
    var changed: bool

    constructor (target: StringList)
      ensures this.target == target && !changed
    {
      this.target := target;
      changed := false;
    }

    function State(): FlagState
      reads this, target
    {
      FlagState(target.items, changed)
    }

    /** What is printed can be parsed again, if no item has a comma or space around it. */
    method Print() returns (s: string)
      ensures s == Join(target.items, ',')
      ensures CsvList(s) == target.items <==> AllClean(target.items) && AllLack(target.items, ',')
    {
      CsvRoundTrip(target.items);
      s := Join(target.items, ',');
    }

    method Set(value: string) returns (ok: bool)
      modifies this`changed, target
      ensures ok == !Blank(value)
      ensures State() == old(State()).Set(value)
    {
      var trimmed := TrimSpace(value);
      if trimmed == "" {
        return false;
      }
      if !changed {
        target.items := [];
        changed := true;
      }
      target.items := target.items + [trimmed];
      return true;
    }
  }

  datatype FlagState = FlagState(items: seq<string>, changed: bool) {
    /** A rejected value leaves everything as it was. */
    function Set(value: string): FlagState {
      if Blank(value) then this
      else FlagState((if changed then items else []) + [TrimSpace(value)], true)
    }

    function SetAll(values: seq<string>): FlagState {
      if |values| == 0 then this
      else SetAll(values[..|values| - 1]).Set(values[|values| - 1])
    }
  }

  /** The first accepted flag discards what the environment gave; from then on the list is
      exactly the accepted flags, trimmed, in order. */
  lemma {:induction false} FlagsReplaceEnvironment(fromEnv: seq<string>, values: seq<string>)
    ensures FlagState(fromEnv, false).SetAll(values)
         == if Normalized(values) == [] then FlagState(fromEnv, false)
            else FlagState(Normalized(values), true)
  {
    if |values| > 0 {
      FlagsReplaceEnvironment(fromEnv, values[..|values| - 1]);
    }
  }
}
