/** Placeholder expansion: the two passes of `expandS3Template` (internal/monitor/s3.go)
    and the single one of `expandProbeTemplate` (internal/monitor/probe.go). */
module Templates {
  import opened States
  import opened Text

  /** `strings.ReplaceAll`: non-overlapping occurrences, from the left. */
  function ReplaceAll(s: string, target: string, replacement: string): string
    requires |target| > 0
    decreases |s|
  {
    if |s| == 0 then ""
    else if target <= s then replacement + ReplaceAll(s[|target|..], target, replacement)
    else [s[0]] + ReplaceAll(s[1..], target, replacement)
  }

  /** Both placeholders replaced in one scan from the left. */
  function Substitute(s: string, p: string, d: string, q: string, e: string): string
    requires |p| > 0 && |q| > 0
    decreases |s|
  {
    if |s| == 0 then ""
    else if p <= s then d + Substitute(s[|p|..], p, d, q, e)
    else if q <= s then e + Substitute(s[|q|..], p, d, q, e)
    else [s[0]] + Substitute(s[1..], p, d, q, e)
  }

  // ---------- The code ----------

  const UTC_HOUR_MINUS_1: string := "{utc_hour_minus_1}"
  const UTC_HOUR: string := "{utc_hour}"
  const UNIX_TS: string := "{unix_ts}"

  const HOUR: Time := 3_600_000_000_000

  /** `format` is `time.Format` with the layout 2006-01-02-15, in UTC. */
  function ExpandS3Template(raw: string, now: Time, format: Time -> string): string {
    var replaced := ReplaceAll(raw, UTC_HOUR_MINUS_1, format(now - HOUR));
    ReplaceAll(replaced, UTC_HOUR, format(now))
  }

  /** `unixSeconds` is the decimal number of seconds. */
  function ExpandProbeTemplate(raw: string, unixSeconds: string): string {
    ReplaceAll(raw, UNIX_TS, unixSeconds)
  }

  /** What formatted hours and decimal numbers are made of. */
  predicate IsStampChar(c: char) {
    '0' <= c <= '9' || c == '-'
  }

  predicate IsStamp(d: string) {
    |d| > 0 && forall i :: 0 <= i < |d| ==> IsStampChar(d[i])
  }

  /** Formatted hours: a date alone is longer than one character. */
  ghost predicate FormatsHours(format: Time -> string) {
    forall t :: IsStamp(format(t)) && |format(t)| > 1
  }

  // ---------- Placeholders and replacements that cannot touch ----------

  /** One opening brace, at the front. */
  predicate IsPlaceholder(p: string) {
    |p| > 0 && p[0] == '{' && '{' !in p[1..]
  }

  /** No occurrence of `w` can begin before an inserted `d` and end inside or after it. */
  predicate Clashes(d: string, w: string) {
    forall j :: 0 <= j < |w| ==> !(d <= w[j..]) && !(w[j..] <= d)
  }

  /** `d` may be inserted into text in which `p` is still to be looked for. */
  predicate Inert(d: string, p: string) {
    IsPlaceholder(p) && '{' !in d && Clashes(d, p[1..])
  }

  lemma StampInert(d: string, p: string)
    requires IsStamp(d) && IsPlaceholder(p)
    requires forall j :: 1 <= j < |p| && IsStampChar(p[j]) ==> |d| > 1 && j + 1 < |p| && !IsStampChar(p[j + 1])
    ensures Inert(d, p)
  {
    var w := p[1..];
    forall j | 0 <= j < |w| ensures !(d <= w[j..]) && !(w[j..] <= d) {
      assert w[j..][0] == p[j + 1] && IsStampChar(d[0]);
      if IsStampChar(p[j + 1]) {
        assert w[j..][1] == p[j + 2] && IsStampChar(d[1]);
      }
    }
  }

  lemma PlaceholdersDisjoint()
    ensures IsPlaceholder(UTC_HOUR_MINUS_1) && IsPlaceholder(UTC_HOUR) && IsPlaceholder(UNIX_TS)
    ensures !(UTC_HOUR_MINUS_1 <= UTC_HOUR) && !(UTC_HOUR <= UTC_HOUR_MINUS_1)
  {
    assert UTC_HOUR[9] == '}' && UTC_HOUR_MINUS_1[9] == '_';
  }

  lemma HoursInert(d: string)
    requires IsStamp(d) && |d| > 1
    ensures Inert(d, UTC_HOUR_MINUS_1) && Inert(d, UTC_HOUR)
  {
    PlaceholdersDisjoint();
    StampInert(d, UTC_HOUR_MINUS_1);
    StampInert(d, UTC_HOUR);
  }

  // ---------- One pass ----------

  /** Text without an opening brace is copied. */
  lemma {:induction false} PlainCopied(text: string, rest: string, p: string, d: string)
    requires IsPlaceholder(p) && '{' !in text
    ensures ReplaceAll(text + rest, p, d) == text + ReplaceAll(rest, p, d)
  {
    if |text| == 0 {
      assert text + rest == rest;
    } else {
      assert (text + rest)[0] == text[0] != p[0];
      assert (text + rest)[1..] == text[1..] + rest;
      PlainCopied(text[1..], rest, p, d);
      Assoc([text[0]], text[1..], ReplaceAll(rest, p, d));
      assert [text[0]] + text[1..] == text;
    }
  }

  /** A replacement does not complete a word that was not there. */
  lemma {:induction false} WordWasThere(s: string, w: string, p: string, d: string)
    requires |p| > 0 && Clashes(d, w) && w <= ReplaceAll(s, p, d)
    ensures w <= s
    decreases |s|
  {
    if |w| > 0 {
      assert w[0..] == w;
      if !(p <= s) {
        var rest := ReplaceAll(s[1..], p, d);
        StartsWithTail(s[0], rest, w);
        assert forall j :: 0 <= j < |w| - 1 ==> w[1..][j..] == w[j + 1..];
        WordWasThere(s[1..], w[1..], p, d);
        StartsWithWhole(s, w);
      }
    }
  }

  /** No position holds `p`. */
  predicate Absent(s: string, p: string) {
    if |s| == 0 then p != "" else !(p <= s) && Absent(s[1..], p)
  }

  lemma OccursLater(s: string, p: string, i: nat)
    requires |s| > 0 && i + 1 + |p| <= |s|
    ensures OccursAt(s[1..], p, i) <==> OccursAt(s, p, i + 1)
  {
    assert s[1..][i..i + |p|] == s[i + 1..i + 1 + |p|];
  }

  lemma ContainsLater(s: string, p: string)
    requires |s| > 0 && |p| > 0
    ensures Contains(s, p) <==> p <= s || Contains(s[1..], p)
  {
    hide OccursAt;
    if i :| 0 <= i <= |s| - |p| && OccursAt(s, p, i) {
      if i > 0 {
        OccursLater(s, p, i - 1);
        assert OccursAt(s[1..], p, i - 1);
      } else {
        OccursFirst(s, p);
      }
    }
    if p <= s {
      OccursFirst(s, p);
      assert OccursAt(s, p, 0);
    }
    if i :| 0 <= i <= |s| - 1 - |p| && OccursAt(s[1..], p, i) {
      OccursLater(s, p, i);
      assert OccursAt(s, p, i + 1);
    }
  }

  lemma OccursFirst(s: string, p: string)
    requires |p| <= |s|
    ensures OccursAt(s, p, 0) <==> p <= s
  {
  }

  lemma {:induction false} AbsentMeaning(s: string, p: string)
    requires |p| > 0
    ensures Absent(s, p) <==> !Contains(s, p)
  {
    hide OccursAt;
    if |s| > 0 {
      hide Contains;
      AbsentMeaning(s[1..], p);
      ContainsLater(s, p);
    }
  }

  lemma {:induction false} AbsentAfterPlain(text: string, rest: string, p: string)
    requires IsPlaceholder(p) && '{' !in text && Absent(rest, p)
    ensures Absent(text + rest, p)
  {
    if |text| == 0 {
      assert text + rest == rest;
    } else {
      assert (text + rest)[0] == text[0] != p[0];
      assert (text + rest)[1..] == text[1..] + rest;
      AbsentAfterPlain(text[1..], rest, p);
    }
  }

  lemma {:induction false} PassLeavesNone(s: string, p: string, d: string)
    requires Inert(d, p)
    ensures Absent(ReplaceAll(s, p, d), p)
    decreases |s|
  {
    if |s| > 0 {
      if p <= s {
        PassLeavesNone(s[|p|..], p, d);
        AbsentAfterPlain(d, ReplaceAll(s[|p|..], p, d), p);
      } else {
        var rest := ReplaceAll(s[1..], p, d);
        PassLeavesNone(s[1..], p, d);
        assert ([s[0]] + rest)[1..] == rest;
        if p <= [s[0]] + rest {
          StartsWithTail(s[0], rest, p);
          WordWasThere(s[1..], p[1..], p, d);
          StartsWithWhole(s, p);
          assert false;
        }
      }
    }
  }

  lemma StartsWithTail(c: char, rest: string, p: string)
    requires |p| > 0 && p <= [c] + rest
    ensures p[0] == c && p[1..] <= rest
  {
    assert ([c] + rest)[1..|p|] == rest[..|p| - 1];
  }

  lemma StartsWithWhole(s: string, p: string)
    requires |p| > 0 && |s| > 0 && s[0] == p[0] && p[1..] <= s[1..]
    ensures p <= s
  {
    assert s == [s[0]] + s[1..] && p == [p[0]] + p[1..];
  }

  lemma {:induction false} AbsentUnchanged(s: string, p: string, d: string)
    requires |p| > 0 && Absent(s, p)
    ensures ReplaceAll(s, p, d) == s
  {
    if |s| > 0 {
      AbsentUnchanged(s[1..], p, d);
    }
  }

  // ---------- Two passes ----------

  /** Two passes are one simultaneous substitution. */
  lemma {:induction false} TwoPassesAreOne(s: string, p: string, d: string, q: string, e: string)
    requires Inert(d, p) && Inert(d, q) && IsPlaceholder(q) && !(p <= q) && !(q <= p)
    ensures ReplaceAll(ReplaceAll(s, p, d), q, e) == Substitute(s, p, d, q, e)
    decreases |s|
  {
    if |s| > 0 {
      if p <= s {
        TwoPassesAreOne(s[|p|..], p, d, q, e);
        PlainCopied(d, ReplaceAll(s[|p|..], p, d), q, e);
      } else if q <= s {
        var rest := s[|q|..];
        TwoPassesAreOne(rest, p, d, q, e);
        assert s[1..] == q[1..] + rest;
        PlainCopied(q[1..], rest, p, d);
        var first := ReplaceAll(rest, p, d);
        Assoc([q[0]], q[1..], first);
        assert [q[0]] + q[1..] == q;
        assert ReplaceAll(s, p, d) == q + first;
        assert (q + first)[|q|..] == first;
      } else {
        var rest := ReplaceAll(s[1..], p, d);
        TwoPassesAreOne(s[1..], p, d, q, e);
        assert ([s[0]] + rest)[1..] == rest;
        if q <= [s[0]] + rest {
          StartsWithTail(s[0], rest, q);
          WordWasThere(s[1..], q[1..], p, d);
          StartsWithWhole(s, q);
          assert false;
        }
      }
    }
  }

  lemma {:induction false} SubstituteSymmetric(s: string, p: string, d: string, q: string, e: string)
    requires |p| > 0 && |q| > 0 && !(p <= q) && !(q <= p)
    ensures Substitute(s, p, d, q, e) == Substitute(s, q, e, p, d)
    decreases |s|
  {
    if |s| > 0 {
      if p <= s {
        if q <= s {
          PrefixesNest(s, p, q);
        } else {
          SubstituteSymmetric(s[|p|..], p, d, q, e);
        }
      } else if q <= s {
        SubstituteSymmetric(s[|q|..], p, d, q, e);
      } else {
        SubstituteSymmetric(s[1..], p, d, q, e);
      }
    }
  }

  /** Of two prefixes of one text, one is a prefix of the other. */
  lemma PrefixesNest(s: string, p: string, q: string)
    requires p <= s && q <= s
    ensures p <= q || q <= p
  {
  }

  // ---------- The source's templates ----------

  /** The two passes are one simultaneous substitution, in either order; the result holds
      neither placeholder; expanding it again, at whatever time, changes nothing. */
  lemma S3TemplateExpansion(raw: string, now: Time, later: Time, format: Time -> string)
    requires FormatsHours(format)
    ensures var expanded := ExpandS3Template(raw, now, format);
      && expanded == Substitute(raw, UTC_HOUR_MINUS_1, format(now - HOUR), UTC_HOUR, format(now))
      && expanded == ReplaceAll(ReplaceAll(raw, UTC_HOUR, format(now)), UTC_HOUR_MINUS_1, format(now - HOUR))
      && !Contains(expanded, UTC_HOUR_MINUS_1) && !Contains(expanded, UTC_HOUR)
      && ExpandS3Template(expanded, later, format) == expanded
  {
    PlaceholdersDisjoint();
    HoursInert(format(now));
    HoursInert(format(now - HOUR));
    ExpansionInAnyOrder(raw, UTC_HOUR_MINUS_1, format(now - HOUR), UTC_HOUR, format(now));
    var expanded := ExpandS3Template(raw, now, format);
    AbsentUnchanged(expanded, UTC_HOUR_MINUS_1, format(later - HOUR));
    AbsentUnchanged(expanded, UTC_HOUR, format(later));
    AbsentMeaning(expanded, UTC_HOUR_MINUS_1);
    AbsentMeaning(expanded, UTC_HOUR);
  }

  lemma ExpansionInAnyOrder(raw: string, p: string, d: string, q: string, e: string)
    requires Inert(d, p) && Inert(d, q) && Inert(e, p) && Inert(e, q) && !(p <= q) && !(q <= p)
    ensures var expanded := ReplaceAll(ReplaceAll(raw, p, d), q, e);
      && expanded == Substitute(raw, p, d, q, e)
      && expanded == ReplaceAll(ReplaceAll(raw, q, e), p, d)
      && Absent(expanded, p) && Absent(expanded, q)
  {
    TwoPassesAreOne(raw, p, d, q, e);
    TwoPassesAreOne(raw, q, e, p, d);
    SubstituteSymmetric(raw, p, d, q, e);
    PassLeavesNone(ReplaceAll(raw, p, d), q, e);
    PassLeavesNone(ReplaceAll(raw, q, e), p, d);
  }

  lemma ProbeTemplateExpansion(raw: string, unixSeconds: string, later: string)
    requires IsStamp(unixSeconds)
    ensures var expanded := ExpandProbeTemplate(raw, unixSeconds);
      !Contains(expanded, UNIX_TS) && ExpandProbeTemplate(expanded, later) == expanded
  {
    PlaceholdersDisjoint();
    StampInert(unixSeconds, UNIX_TS);
    var expanded := ExpandProbeTemplate(raw, unixSeconds);
    PassLeavesNone(raw, UNIX_TS, unixSeconds);
    AbsentMeaning(expanded, UNIX_TS);
    AbsentUnchanged(expanded, UNIX_TS, later);
  }

  // ---------- Where the stamps go ----------

  /** A template as it is meant: plain text and the places for the two hours. */
  datatype Piece = Plain(text: string) | HourBefore | ThisHour | Timestamp

  function Render(pieces: seq<Piece>, before: string, hour: string, stamp: string): string {
    if |pieces| == 0 then ""
    else
      (match pieces[0]
       case Plain(text) => text
       case HourBefore => before
       case ThisHour => hour
       case Timestamp => stamp) + Render(pieces[1..], before, hour, stamp)
  }

  predicate PlainTexts(pieces: seq<Piece>) {
    forall i :: 0 <= i < |pieces| && pieces[i].Plain? ==> '{' !in pieces[i].text
  }

  lemma {:induction false} PlainSubstituted(text: string, rest: string, p: string, d: string, q: string, e: string)
    requires IsPlaceholder(p) && IsPlaceholder(q) && '{' !in text
    ensures Substitute(text + rest, p, d, q, e) == text + Substitute(rest, p, d, q, e)
  {
    if |text| == 0 {
      assert text + rest == rest;
    } else {
      assert (text + rest)[0] == text[0] != '{';
      assert (text + rest)[1..] == text[1..] + rest;
      PlainSubstituted(text[1..], rest, p, d, q, e);
      Assoc([text[0]], text[1..], Substitute(rest, p, d, q, e));
      assert [text[0]] + text[1..] == text;
    }
  }

  lemma PlaceholderSubstituted(rest: string, p: string, d: string, q: string, e: string)
    requires IsPlaceholder(p) && IsPlaceholder(q) && !(p <= q) && !(q <= p)
    ensures Substitute(p + rest, p, d, q, e) == d + Substitute(rest, p, d, q, e)
    ensures Substitute(q + rest, p, d, q, e) == e + Substitute(rest, p, d, q, e)
  {
    assert (p + rest)[|p|..] == rest && (q + rest)[|q|..] == rest;
    assert p <= p + rest && q <= q + rest;
    if p <= q + rest {
      PrefixesNest(q + rest, p, q);
    }
  }

  lemma {:induction false} SubstituteRenders(pieces: seq<Piece>, p: string, d: string, q: string, e: string)
    requires IsPlaceholder(p) && IsPlaceholder(q) && !(p <= q) && !(q <= p)
    requires PlainTexts(pieces) && forall i :: 0 <= i < |pieces| ==> pieces[i] != Timestamp
    ensures Substitute(Render(pieces, p, q, ""), p, d, q, e) == Render(pieces, d, e, "")
  {
    hide Substitute, IsPlaceholder;
    if |pieces| > 0 {
      SubstituteRenders(pieces[1..], p, d, q, e);
      var rest := Render(pieces[1..], p, q, "");
      match pieces[0]
      case Plain(text) => PlainSubstituted(text, rest, p, d, q, e);
      case HourBefore => PlaceholderSubstituted(rest, p, d, q, e);
      case ThisHour => PlaceholderSubstituted(rest, p, d, q, e);
    } else {
      NothingSubstituted(p, d, q, e);
    }
  }

  lemma NothingSubstituted(p: string, d: string, q: string, e: string)
    requires IsPlaceholder(p) && IsPlaceholder(q)
    ensures Substitute("", p, d, q, e) == ""
  {
  }

  /** Expansion puts the hour and the hour 60 minutes before it where they belong, and
      keeps everything else. */
  lemma S3TemplateRenders(pieces: seq<Piece>, now: Time, format: Time -> string)
    requires FormatsHours(format) && PlainTexts(pieces)
    requires forall i :: 0 <= i < |pieces| ==> pieces[i] != Timestamp
    ensures ExpandS3Template(Render(pieces, "{utc_hour_minus_1}", "{utc_hour}", ""), now, format)
         == Render(pieces, format(now - 60 * 60 * 1_000_000_000), format(now), "")
  {
    hide Render, Substitute, ReplaceAll, Contains;
    PlaceholdersDisjoint();
    S3TemplateExpansion(Render(pieces, UTC_HOUR_MINUS_1, UTC_HOUR, ""), now, now, format);
    SubstituteRenders(pieces, UTC_HOUR_MINUS_1, format(now - HOUR), UTC_HOUR, format(now));
  }

  lemma {:induction false} ReplaceRenders(pieces: seq<Piece>, p: string, d: string)
    requires IsPlaceholder(p) && PlainTexts(pieces)
    requires forall i :: 0 <= i < |pieces| ==> pieces[i].Plain? || pieces[i].Timestamp?
    ensures ReplaceAll(Render(pieces, "", "", p), p, d) == Render(pieces, "", "", d)
  {
    if |pieces| > 0 {
      ReplaceRenders(pieces[1..], p, d);
      var rest := Render(pieces[1..], "", "", p);
      match pieces[0]
      case Plain(text) => PlainCopied(text, rest, p, d);
      case Timestamp =>
        assert (p + rest)[|p|..] == rest && p <= p + rest;
    }
  }

  /** Expansion puts the Unix time where it belongs and keeps everything else. */
  lemma ProbeTemplateRenders(pieces: seq<Piece>, unixSeconds: string)
    requires PlainTexts(pieces) && forall i :: 0 <= i < |pieces| ==> pieces[i].Plain? || pieces[i].Timestamp?
    ensures ExpandProbeTemplate(Render(pieces, "", "", "{unix_ts}"), unixSeconds) == Render(pieces, "", "", unixSeconds)
  {
    hide Render, ReplaceAll;
    PlaceholdersDisjoint();
    ReplaceRenders(pieces, UNIX_TS, unixSeconds);
  }
}
