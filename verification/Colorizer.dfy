/** The log colourizer (internal/logging/logging.go:82-213): a scanner cuts a line into
    whitespace and tokens, and key=value tokens get ANSI colour sequences inserted. A
    byte is modelled as a character; nothing below needs codes to stay under 256. */
module Colorizer {
  import opened Text

  const ESC: char := '\U{1B}'

  /** The escape codes, and `strings.ToUpper`, which the colouring consults. */
  datatype Scheme = Scheme(
    reset: string,
    bold: string,
    base01: string,
    base1: string,
    blue: string,
    green: string,
    yellow: string,
    red: string,
    violet: string,
    upper: string -> string)

  /** A "select graphic rendition" sequence. */
  function Sgr(parameters: string): string {
    [ESC, '['] + parameters + "m"
  }

  /** The codes of the source. */
  function Solarized(upper: string -> string): Scheme {
    Scheme(
      Sgr("0"),
      Sgr("1"),
      Sgr("38;2;88;110;117"),
      Sgr("38;2;147;161;161"),
      Sgr("38;2;38;139;210"),
      Sgr("38;2;133;153;0"),
      Sgr("38;2;181;137;0"),
      Sgr("38;2;220;50;47"),
      Sgr("38;2;108;113;196"),
      upper)
  }

  predicate IsWhitespace(c: char) {
    c == ' ' || c == '\t' || c == '\n' || c == '\r'
  }

  predicate IsKeyChar(c: char) {
    'a' <= c <= 'z' || 'A' <= c <= 'Z' || '0' <= c <= '9' || c == '_' || c == '.' || c == '-'
  }

  predicate IsKeyToken(token: string) {
    |token| > 0 && forall i :: 0 <= i < |token| ==> IsKeyChar(token[i])
  }

  // ---------- Scanning ----------

  datatype Quote = Outside | Inside(escaped: bool)

  function NextQuote(q: Quote, c: char): Quote {
    match q
    case Inside(true) => Inside(false)
    case Inside(false) => if c == '\\' then Inside(true) else if c == '"' then Outside else Inside(false)
    case Outside => if c == '"' then Inside(false) else Outside
  }

  /** Where a token that has been scanned up to `i` ends: at the first whitespace outside
      quotes, or at the end of the line if there is none. */
  function TokenEnd(line: string, i: nat, q: Quote): (end: nat)
    requires i <= |line|
    ensures i <= end <= |line|
    decreases |line| - i
  {
    if i == |line| || (q == Outside && IsWhitespace(line[i])) then i
    else TokenEnd(line, i + 1, NextQuote(q, line[i]))
  }

  // ---------- Colouring ----------

  /** The escape codes put before a value, by key. */
  function ValueCodes(key: string, value: string, z: Scheme): seq<string> {
    if key == "level" then
      var level := z.upper(TrimChar(value, '"'));
      if level == "DEBUG" then [z.base01]
      else if level == "INFO" then [z.blue]
      else if level == "WARN" then [z.bold, z.yellow]
      else if level == "ERROR" then [z.bold, z.red]
      else [z.violet]
    else if key == "result" then
      if z.upper(TrimChar(value, '"')) == "SUCCESS" then [z.green] else [z.red]
    else if key == "name" then [z.yellow]
    else []
  }

  function WrapWithAnsi(value: string, codes: seq<string>, z: Scheme): string {
    if codes == [] then value else Flatten(codes) + value + z.reset
  }

  function Flatten(parts: seq<string>): string {
    if |parts| == 0 then "" else parts[0] + Flatten(parts[1..])
  }

  /** The position of the `=` of a key=value token, or 0 for any other token. */
  function KeyLength(token: string): (k: nat)
    ensures k > 0 ==> k < |token| && token[k] == '='
  {
    var k := IndexOf(token, '=');
    if k < |token| && IsKeyToken(token[..k]) then k else 0
  }

  function ColorizeToken(token: string, z: Scheme): string {
    var k := KeyLength(token);
    if k == 0 then token
    else
      var key, value := token[..k], token[k + 1..];
      KeyValue(key, WrapWithAnsi(value, ValueCodes(key, value, z), z), z)
  }

  function KeyValue(key: string, coloredValue: string, z: Scheme): string {
    z.base1 + key + z.reset + z.base1 + "=" + z.reset + coloredValue
  }

  function ColorizeFrom(line: string, i: nat, z: Scheme): string
    requires i <= |line|
    decreases |line| - i
  {
    if i == |line| then ""
    else if IsWhitespace(line[i]) then [line[i]] + ColorizeFrom(line, i + 1, z)
    else
      var end := TokenEnd(line, i + 1, NextQuote(Outside, line[i]));
      ColorizeToken(line[i..end], z) + ColorizeFrom(line, end, z)
  }

  function Colorize(line: string, z: Scheme): string {
    ColorizeFrom(line, 0, z)
  }

  /** The inner loop of the scanner. */
  method ScanToken(line: string, start: nat) returns (i: nat)
    requires start < |line| && !IsWhitespace(line[start])
    ensures i == TokenEnd(line, start + 1, NextQuote(Outside, line[start]))
  {
    var inQuote, escaped := false, false;
    i := start;
    while i < |line|
      invariant start <= i <= |line|
      invariant !inQuote ==> !escaped
      invariant TokenEnd(line, start, Outside) == TokenEnd(line, i, if inQuote then Inside(escaped) else Outside)
    {
      var ch := line[i];
      if inQuote {
        if escaped {
          escaped := false;
        } else if ch == '\\' {
          escaped := true;
        } else if ch == '"' {
          inQuote := false;
        }
        i := i + 1;
        continue;
      }
      if ch == '"' {
        inQuote := true;
        i := i + 1;
        continue;
      }
      if IsWhitespace(ch) {
        break;
      }
      i := i + 1;
    }
  }

  lemma PieceDone(out: string, piece: string, rest: string, whole: string)
    requires out + (piece + rest) == whole
    ensures (out + piece) + rest == whole
  {
  }

  method ColorizeSlogTextLine(line: string, z: Scheme) returns (out: string)
    ensures out == Colorize(line, z)
  {
    hide ColorizeToken, TokenEnd;
    ghost var whole := Colorize(line, z);
    out := "";
    var i := 0;
    while i < |line|
      invariant 0 <= i <= |line|
      invariant out + ColorizeFrom(line, i, z) == whole
    {
      var start, piece := i, [line[i]];
      if IsWhitespace(line[i]) {
        i := i + 1;
      } else {
        i := ScanToken(line, start);
        piece := ColorizeToken(line[start..i], z);
      }
      PieceDone(out, piece, ColorizeFrom(line, i, z), whole);
      out := out + piece;
    }
  }

  // ---------- What a terminal shows ----------

  /** A visible character with the colour codes in force since the last reset. */
  datatype Cell = Cell(c: char, codes: seq<string>)

  /** The length of the `ESC [ ... m` sequence at the start of `s`, or 0. */
  function SequenceLength(s: string): (n: nat)
    ensures n <= |s|
  {
    if |s| >= 2 && s[0] == ESC && s[1] == '[' && IndexOf(s[2..], 'm') < |s| - 2 then
      IndexOf(s[2..], 'm') + 3
    else 0
  }

  function Display(s: string, codes: seq<string>, z: Scheme): (shown: (seq<Cell>, seq<string>)) {
    if |s| == 0 then ([], codes)
    else
      var n := SequenceLength(s);
      if n > 0 then Display(s[n..], if s[..n] == z.reset then [] else codes + [s[..n]], z)
      else
        var (rest, after) := Display(s[1..], codes, z);
        ([Cell(s[0], codes)] + rest, after)
  }

  /** Deleting every `ESC [ ... m` sequence. */
  function Strip(s: string): string {
    if |s| == 0 then ""
    else if SequenceLength(s) > 0 then Strip(s[SequenceLength(s)..])
    else [s[0]] + Strip(s[1..])
  }

  function Painted(text: string, codes: seq<string>): (cells: seq<Cell>)
    ensures |cells| == |text| && forall i :: 0 <= i < |text| ==> cells[i] == Cell(text[i], codes)
  {
    seq(|text|, i requires 0 <= i < |text| => Cell(text[i], codes))
  }

  function Characters(cells: seq<Cell>): (text: string)
    ensures |text| == |cells| && forall i :: 0 <= i < |cells| ==> text[i] == cells[i].c
  {
    seq(|cells|, i requires 0 <= i < |cells| => cells[i].c)
  }

  /** How a token should look: key and `=` in the key colour, the value by its key. */
  function PaintToken(token: string, z: Scheme): seq<Cell> {
    var k := KeyLength(token);
    if k == 0 then Painted(token, [])
    else
      Painted(token[..k + 1], [z.base1])
      + Painted(token[k + 1..], ValueCodes(token[..k], token[k + 1..], z))
  }

  function PaintFrom(line: string, i: nat, z: Scheme): seq<Cell>
    requires i <= |line|
    decreases |line| - i
  {
    if i == |line| then []
    else if IsWhitespace(line[i]) then [Cell(line[i], [])] + PaintFrom(line, i + 1, z)
    else
      var end := TokenEnd(line, i + 1, NextQuote(Outside, line[i]));
      PaintToken(line[i..end], z) + PaintFrom(line, end, z)
  }

  // ---------- Proofs about the display ----------

  predicate IsCode(code: string) {
    && |code| >= 3 && code[0] == ESC && code[1] == '[' && code[|code| - 1] == 'm'
    && forall i :: 2 <= i < |code| - 1 ==> code[i] != 'm'
  }

  predicate AreCodes(codes: seq<string>, z: Scheme) {
    forall i :: 0 <= i < |codes| ==> IsCode(codes[i]) && codes[i] != z.reset
  }

  lemma DisplayCode(code: string, rest: string, codes: seq<string>, z: Scheme)
    requires IsCode(code)
    ensures Display(code + rest, codes, z) == Display(rest, if code == z.reset then [] else codes + [code], z)
  {
    var s := code + rest;
    assert forall j :: 0 <= j < |code| - 3 ==> s[2..][j] == code[j + 2];
    IndexOfUnique(s[2..], 'm', |code| - 3);
    assert s[..|code|] == code && s[|code|..] == rest;
  }

  lemma {:induction false} DisplayCodes(added: seq<string>, rest: string, codes: seq<string>, z: Scheme)
    requires AreCodes(added, z)
    ensures Display(Flatten(added) + rest, codes, z) == Display(rest, codes + added, z)
  {
    hide Display, IsCode;
    if |added| == 0 {
      assert Flatten(added) + rest == rest;
      EmptyRight(codes);
    } else {
      Assoc(added[0], Flatten(added[1..]), rest);
      DisplayCode(added[0], Flatten(added[1..]) + rest, codes, z);
      DisplayCodes(added[1..], rest, codes + [added[0]], z);
      Assoc(codes, [added[0]], added[1..]);
      assert [added[0]] + added[1..] == added;
    }
  }

  lemma {:induction false} DisplayPlain(text: string, rest: string, codes: seq<string>, z: Scheme)
    requires ESC !in text
    ensures Display(text + rest, codes, z) == (Painted(text, codes) + Display(rest, codes, z).0, Display(rest, codes, z).1)
  {
    if |text| == 0 {
      assert text + rest == rest;
      assert Painted(text, codes) + Display(rest, codes, z).0 == Display(rest, codes, z).0;
    } else {
      assert (text + rest)[0] == text[0] != ESC;
      assert (text + rest)[1..] == text[1..] + rest;
      DisplayPlain(text[1..], rest, codes, z);
      var cell, shown := [Cell(text[0], codes)], Display(rest, codes, z).0;
      assert Painted(text, codes) == cell + Painted(text[1..], codes);
      Assoc(cell, Painted(text[1..], codes), shown);
    }
  }

  /** Every code is an escape sequence, and only `reset` resets. */
  predicate IsScheme(z: Scheme) {
    IsCode(z.reset)
    && AreCodes([z.bold, z.base01, z.base1, z.blue, z.green, z.yellow, z.red, z.violet], z)
  }

  lemma SgrIsCode(parameters: string, reset: string)
    requires reset == Sgr("0") && |parameters| > 0 && 'm' !in parameters
    ensures IsCode(Sgr(parameters))
    ensures parameters[0] != '0' ==> Sgr(parameters) != reset
  {
    assert Sgr(parameters)[2] == parameters[0];
  }

  lemma SolarizedIsScheme(upper: string -> string)
    ensures IsScheme(Solarized(upper))
  {
    hide Sgr, IsCode;
    var reset := Sgr("0");
    SgrIsCode("0", reset);
    SgrIsCode("1", reset);
    SgrIsCode("38;2;88;110;117", reset);
    SgrIsCode("38;2;147;161;161", reset);
    SgrIsCode("38;2;38;139;210", reset);
    SgrIsCode("38;2;133;153;0", reset);
    SgrIsCode("38;2;181;137;0", reset);
    SgrIsCode("38;2;220;50;47", reset);
    SgrIsCode("38;2;108;113;196", reset);
  }

  lemma ValueCodesAreCodes(key: string, value: string, z: Scheme)
    requires IsScheme(z)
    ensures AreCodes(ValueCodes(key, value, z), z) && AreCodes([z.base1], z)
  {
    var all := [z.bold, z.base01, z.base1, z.blue, z.green, z.yellow, z.red, z.violet];
    assert forall i :: 0 <= i < |all| ==> IsCode(all[i]) && all[i] != z.reset;
    assert all[0] == z.bold && all[1] == z.base01 && all[2] == z.base1 && all[3] == z.blue;
    assert all[4] == z.green && all[5] == z.yellow && all[6] == z.red && all[7] == z.violet;
  }

  lemma DisplayValue(value: string, codes: seq<string>, rest: string, z: Scheme)
    requires ESC !in value && IsScheme(z) && AreCodes(codes, z)
    ensures Display(WrapWithAnsi(value, codes, z) + rest, [], z)
         == (Painted(value, codes) + Display(rest, [], z).0, Display(rest, [], z).1)
  {
    if codes == [] {
      DisplayPlain(value, rest, [], z);
    } else {
      assert WrapWithAnsi(value, codes, z) + rest == Flatten(codes) + (value + (z.reset + rest));
      DisplayCodes(codes, value + (z.reset + rest), [], z);
      assert [] + codes == codes;
      DisplayPlain(value, z.reset + rest, codes, z);
      DisplayCode(z.reset, rest, codes, z);
    }
  }

  lemma DisplayKey(text: string, rest: string, z: Scheme)
    requires ESC !in text && IsScheme(z)
    ensures Display(z.base1 + (text + (z.reset + rest)), [], z)
         == (Painted(text, [z.base1]) + Display(rest, [], z).0, Display(rest, [], z).1)
  {
    ValueCodesAreCodes("", "", z);
    assert IsCode([z.base1][0]) && [z.base1][0] != z.reset;
    DisplayCode(z.base1, text + (z.reset + rest), [], z);
    assert [] + [z.base1] == [z.base1];
    DisplayPlain(text, z.reset + rest, [z.base1], z);
    DisplayCode(z.reset, rest, [z.base1], z);
  }

  lemma Regroup(a: string, key: string, r: string, eq: string, value: string, rest: string)
    ensures a + key + r + a + eq + r + value + rest == a + (key + (r + (a + (eq + (r + (value + rest))))))
  {
  }

  lemma DisplayKeyValue(key: string, value: string, codes: seq<string>, rest: string, z: Scheme)
    requires ESC !in key && ESC !in value && IsScheme(z) && AreCodes(codes, z)
    ensures Display(KeyValue(key, WrapWithAnsi(value, codes, z), z) + rest, [], z)
         == (Painted(key, [z.base1]) + (Painted("=", [z.base1]) + (Painted(value, codes) + Display(rest, [], z).0)),
             Display(rest, [], z).1)
  {
    var wrapped := WrapWithAnsi(value, codes, z);
    Regroup(z.base1, key, z.reset, "=", wrapped, rest);
    DisplayKey(key, z.base1 + ("=" + (z.reset + (wrapped + rest))), z);
    DisplayKey("=", wrapped + rest, z);
    DisplayValue(value, codes, rest, z);
  }

  lemma PaintedConcat(a: string, b: string, codes: seq<string>)
    ensures Painted(a + b, codes) == Painted(a, codes) + Painted(b, codes)
  {
  }

  lemma DisplayKeyedToken(token: string, k: nat, codes: seq<string>, rest: string, z: Scheme)
    requires ESC !in token && IsScheme(z) && AreCodes(codes, z) && k < |token| && token[k] == '='
    ensures Display(KeyValue(token[..k], WrapWithAnsi(token[k + 1..], codes, z), z) + rest, [], z)
         == (Painted(token[..k + 1], [z.base1]) + Painted(token[k + 1..], codes) + Display(rest, [], z).0,
             Display(rest, [], z).1)
  {
    DisplayKeyValue(token[..k], token[k + 1..], codes, rest, z);
    assert token[..k + 1] == token[..k] + "=";
    PaintedConcat(token[..k], "=", [z.base1]);
    var key, eq := Painted(token[..k], [z.base1]), Painted("=", [z.base1]);
    var value, shown := Painted(token[k + 1..], codes), Display(rest, [], z).0;
    Assoc(key, eq, value + shown);
    Assoc(key + eq, value, shown);
  }

  lemma DisplayToken(token: string, rest: string, z: Scheme)
    requires ESC !in token && IsScheme(z)
    ensures Display(ColorizeToken(token, z) + rest, [], z)
         == (PaintToken(token, z) + Display(rest, [], z).0, Display(rest, [], z).1)
  {
    var k := KeyLength(token);
    if k == 0 {
      DisplayPlain(token, rest, [], z);
    } else {
      ValueCodesAreCodes(token[..k], token[k + 1..], z);
      DisplayKeyedToken(token, k, ValueCodes(token[..k], token[k + 1..], z), rest, z);
    }
  }

  /** A piece that shows as `cells`, followed by text that shows as `later`. */
  lemma DisplayThen(piece: string, cells: seq<Cell>, text: string, later: seq<Cell>, rest: string, z: Scheme)
    requires Display(piece + (text + rest), [], z)
          == (cells + Display(text + rest, [], z).0, Display(text + rest, [], z).1)
    requires Display(text + rest, [], z) == (later + Display(rest, [], z).0, Display(rest, [], z).1)
    ensures Display((piece + text) + rest, [], z)
         == ((cells + later) + Display(rest, [], z).0, Display(rest, [], z).1)
  {
    Assoc(piece, text, rest);
    Assoc(cells, later, Display(rest, [], z).0);
  }

  lemma DisplaySeparator(c: char, text: string, later: seq<Cell>, rest: string, z: Scheme)
    requires c != ESC
    requires Display(text + rest, [], z) == (later + Display(rest, [], z).0, Display(rest, [], z).1)
    ensures Display(([c] + text) + rest, [], z)
         == (([Cell(c, [])] + later) + Display(rest, [], z).0, Display(rest, [], z).1)
  {
    hide Display;
    DisplayPlain([c], text + rest, [], z);
    assert Painted([c], []) == [Cell(c, [])];
    DisplayThen([c], [Cell(c, [])], text, later, rest, z);
  }

  lemma DisplayTokenThen(token: string, text: string, later: seq<Cell>, rest: string, z: Scheme)
    requires ESC !in token && IsScheme(z)
    requires Display(text + rest, [], z) == (later + Display(rest, [], z).0, Display(rest, [], z).1)
    ensures Display((ColorizeToken(token, z) + text) + rest, [], z)
         == ((PaintToken(token, z) + later) + Display(rest, [], z).0, Display(rest, [], z).1)
  {
    hide Display, ColorizeToken, PaintToken;
    DisplayToken(token, text + rest, z);
    DisplayThen(ColorizeToken(token, z), PaintToken(token, z), text, later, rest, z);
  }

  lemma DisplayNothing(rest: string, z: Scheme)
    ensures Display("" + rest, [], z) == ([] + Display(rest, [], z).0, Display(rest, [], z).1)
  {
    hide Display;
    EmptyLeft(rest);
    EmptyLeft(Display(rest, [], z).0);
  }

  lemma {:induction false} DisplayLine(line: string, i: nat, rest: string, z: Scheme)
    requires i <= |line| && ESC !in line && IsScheme(z)
    ensures Display(ColorizeFrom(line, i, z) + rest, [], z)
         == (PaintFrom(line, i, z) + Display(rest, [], z).0, Display(rest, [], z).1)
    decreases |line| - i
  {
    hide Display, ColorizeToken, PaintToken, IsScheme, IsWhitespace, TokenEnd;
    if i == |line| {
      DisplayNothing(rest, z);
    } else if IsWhitespace(line[i]) {
      DisplayLine(line, i + 1, rest, z);
      DisplaySeparator(line[i], ColorizeFrom(line, i + 1, z), PaintFrom(line, i + 1, z), rest, z);
    } else {
      var end := TokenEnd(line, i + 1, NextQuote(Outside, line[i]));
      DisplayLine(line, end, rest, z);
      DisplayTokenThen(line[i..end], ColorizeFrom(line, end, z), PaintFrom(line, end, z), rest, z);
    }
  }

  lemma CharactersConcat(a: seq<Cell>, b: seq<Cell>)
    ensures Characters(a + b) == Characters(a) + Characters(b)
  {
  }

  lemma PaintTokenKeepsText(token: string, z: Scheme)
    ensures Characters(PaintToken(token, z)) == token
  {
  }

  lemma PaintThenKeepsText(cells: seq<Cell>, later: seq<Cell>, line: string, from: nat, to: nat)
    requires from <= to <= |line| && Characters(cells) == line[from..to] && Characters(later) == line[to..]
    ensures Characters(cells + later) == line[from..]
  {
    CharactersConcat(cells, later);
    assert line[from..] == line[from..to] + line[to..];
  }

  lemma SeparatorKeepsText(line: string, i: nat)
    requires i < |line|
    ensures Characters([Cell(line[i], [])]) == line[i..i + 1]
  {
  }

  lemma {:induction false} PaintKeepsText(line: string, i: nat, z: Scheme)
    requires i <= |line|
    ensures Characters(PaintFrom(line, i, z)) == line[i..]
    decreases |line| - i
  {
    hide Characters, PaintToken, IsWhitespace, TokenEnd;
    if i < |line| {
      if IsWhitespace(line[i]) {
        PaintKeepsText(line, i + 1, z);
        SeparatorKeepsText(line, i);
        PaintThenKeepsText([Cell(line[i], [])], PaintFrom(line, i + 1, z), line, i, i + 1);
      } else {
        var end := TokenEnd(line, i + 1, NextQuote(Outside, line[i]));
        PaintKeepsText(line, end, z);
        PaintTokenKeepsText(line[i..end], z);
        PaintThenKeepsText(PaintToken(line[i..end], z), PaintFrom(line, end, z), line, i, end);
      }
    }
  }

  lemma {:induction false} StripShowsCharacters(s: string, codes: seq<string>, z: Scheme)
    ensures Strip(s) == Characters(Display(s, codes, z).0)
    decreases |s|
  {
    if |s| > 0 {
      var n := SequenceLength(s);
      if n > 0 {
        StripShowsCharacters(s[n..], if s[..n] == z.reset then [] else codes + [s[..n]], z);
      } else {
        StripShowsCharacters(s[1..], codes, z);
      }
    }
  }

  /** Colouring is lossless: deleting the escape sequences gives the line back, whatever
      follows it. */
  lemma StripColorized(line: string, rest: string, z: Scheme)
    requires ESC !in line && IsScheme(z)
    ensures Strip(Colorize(line, z) + rest) == line + Strip(rest)
  {
    DisplayLine(line, 0, rest, z);
    StripShowsCharacters(Colorize(line, z) + rest, [], z);
    StripShowsCharacters(rest, [], z);
    CharactersConcat(PaintFrom(line, 0, z), Display(rest, [], z).0);
    PaintKeepsText(line, 0, z);
  }

  lemma ColorizeLossless(line: string, z: Scheme)
    requires ESC !in line && IsScheme(z)
    ensures Strip(Colorize(line, z)) == line
  {
    StripColorized(line, "", z);
    EmptyRight(Colorize(line, z));
  }

  /** A terminal shows every token as it should look, and no colour outlives its token:
      at the end of the line nothing is in force. */
  lemma ColorizeDisplays(line: string, z: Scheme)
    requires ESC !in line && IsScheme(z)
    ensures Display(Colorize(line, z), [], z) == (PaintFrom(line, 0, z), [])
  {
    DisplayLine(line, 0, "", z);
    EmptyRight(Colorize(line, z));
    EmptyRight(PaintFrom(line, 0, z));
  }

  // ---------- Tokens by position ----------

  /** The quote state before position `i`, scanning from the start of the line. */
  function QuoteAt(line: string, i: nat): Quote
    requires i <= |line|
  {
    if i == 0 then Outside else NextQuote(QuoteAt(line, i - 1), line[i - 1])
  }

  /** Whitespace outside quotes. */
  predicate Separates(line: string, i: nat)
    requires i < |line|
  {
    QuoteAt(line, i) == Outside && IsWhitespace(line[i])
  }

  lemma {:induction false} TokenEndMeaning(line: string, i: nat, q: Quote)
    requires i <= |line| && q == QuoteAt(line, i)
    ensures var end := TokenEnd(line, i, q);
      && (forall j :: i <= j < end ==> !Separates(line, j))
      && (end < |line| ==> Separates(line, end))
    decreases |line| - i
  {
    if i < |line| && !Separates(line, i) {
      TokenEndMeaning(line, i + 1, NextQuote(q, line[i]));
    }
  }

  /** The pieces the scanner cuts a line into: single separators and tokens. */
  function Cuts(line: string, i: nat): seq<nat>
    requires i <= |line|
    decreases |line| - i
  {
    if i == |line| then [i]
    else if IsWhitespace(line[i]) then [i] + Cuts(line, i + 1)
    else [i] + Cuts(line, TokenEnd(line, i + 1, NextQuote(Outside, line[i])))
  }

  /** The cuts partition the line: they run strictly upwards from 0 to its length, and each
      piece is either one separator or a non-empty stretch without separators that no
      neighbouring character could extend, whatever quotes are left open. */
  predicate PiecesFrom(line: string, cuts: seq<nat>) {
    && |cuts| > 0 && cuts[|cuts| - 1] == |line|
    && forall k :: 0 <= k < |cuts| - 1 ==> PieceAt(line, cuts, k)
  }

  predicate PieceAt(line: string, cuts: seq<nat>, k: nat)
    requires k < |cuts| - 1
  {
    cuts[k] < cuts[k + 1] <= |line| && IsPiece(line, cuts[k], cuts[k + 1])
  }

  predicate IsPiece(line: string, from: nat, to: nat)
    requires from < to <= |line|
  {
    if Separates(line, from) then to == from + 1
    else
      && (forall j :: from <= j < to ==> !Separates(line, j))
      && (from > 0 ==> Separates(line, from - 1))
      && (to < |line| ==> Separates(line, to))
  }

  lemma {:induction false} CutsPartition(line: string, i: nat)
    requires i <= |line| && (i < |line| ==> QuoteAt(line, i) == Outside)
    requires 0 < i < |line| ==> Separates(line, i - 1) || Separates(line, i)
    ensures Cuts(line, i)[0] == i && PiecesFrom(line, Cuts(line, i))
    decreases |line| - i
  {
    if i < |line| {
      var next := if IsWhitespace(line[i]) then i + 1 else TokenEnd(line, i + 1, NextQuote(Outside, line[i]));
      assert QuoteAt(line, i + 1) == NextQuote(Outside, line[i]);
      if !IsWhitespace(line[i]) {
        TokenEndMeaning(line, i + 1, NextQuote(Outside, line[i]));
      }
      CutsPartition(line, next);
      assert IsPiece(line, i, next);
      AnotherPiece(line, i, Cuts(line, next));
    }
  }

  lemma AnotherPiece(line: string, i: nat, cuts: seq<nat>)
    requires PiecesFrom(line, cuts) && i < cuts[0] <= |line| && IsPiece(line, i, cuts[0])
    ensures PiecesFrom(line, [i] + cuts)
  {
    forall k | 0 <= k < |cuts| ensures PieceAt(line, [i] + cuts, k) {
      assert k > 0 ==> PieceAt(line, cuts, k - 1);
    }
  }

  lemma TokensPartitionLine(line: string)
    ensures Cuts(line, 0)[0] == 0 && PiecesFrom(line, Cuts(line, 0))
  {
    CutsPartition(line, 0);
  }

  /** A piece in the output: separators stay, tokens are coloured. */
  function ColorizePiece(line: string, from: nat, to: nat, z: Scheme): string
    requires from < to <= |line|
  {
    if Separates(line, from) then line[from..to] else ColorizeToken(line[from..to], z)
  }

  function ColorizePieces(line: string, cuts: seq<nat>, z: Scheme): string
    requires PiecesFrom(line, cuts)
  {
    if |cuts| == 1 then ""
    else
      assert PieceAt(line, cuts, 0);
      OtherPieces(line, cuts);
      ColorizePiece(line, cuts[0], cuts[1], z) + ColorizePieces(line, cuts[1..], z)
  }

  lemma OtherPieces(line: string, cuts: seq<nat>)
    requires PiecesFrom(line, cuts) && |cuts| > 1
    ensures PiecesFrom(line, cuts[1..])
  {
    forall k | 0 <= k < |cuts| - 2 ensures PieceAt(line, cuts[1..], k) {
      assert PieceAt(line, cuts, k + 1);
    }
  }

  /** Where the scanner cuts next is where the piece ends. */
  lemma PieceEnd(line: string, from: nat, to: nat)
    requires from < to <= |line| && QuoteAt(line, from) == Outside && IsPiece(line, from, to)
    ensures to == if IsWhitespace(line[from]) then from + 1 else TokenEnd(line, from + 1, NextQuote(Outside, line[from]))
    ensures to < |line| ==> QuoteAt(line, to) == Outside
  {
    assert QuoteAt(line, from + 1) == NextQuote(Outside, line[from]);
    if !IsWhitespace(line[from]) {
      TokenEndMeaning(line, from + 1, NextQuote(Outside, line[from]));
    }
  }

  lemma SingleSlice(line: string, i: nat)
    requires i < |line|
    ensures line[i..i + 1] == [line[i]]
  {
  }

  lemma NextPiece(line: string, from: nat, to: nat, z: Scheme)
    requires from < to <= |line| && QuoteAt(line, from) == Outside && IsPiece(line, from, to)
    ensures Cuts(line, from) == [from] + Cuts(line, to)
    ensures ColorizeFrom(line, from, z) == ColorizePiece(line, from, to, z) + ColorizeFrom(line, to, z)
  {
    hide ColorizeToken, QuoteAt, IsPiece, NextQuote, TokenEnd, IsWhitespace;
    PieceEnd(line, from, to);
    assert Separates(line, from) == IsWhitespace(line[from]);
    if to == from + 1 {
      SingleSlice(line, from);
    }
  }

  lemma NoPieces(line: string, z: Scheme)
    ensures Cuts(line, |line|) == [|line|] && ColorizeFrom(line, |line|, z) == ""
  {
  }

  lemma {:induction false} PiecesAreCuts(line: string, cuts: seq<nat>, z: Scheme)
    requires PiecesFrom(line, cuts) && (cuts[0] < |line| ==> QuoteAt(line, cuts[0]) == Outside)
    requires cuts[0] <= |line|
    ensures cuts == Cuts(line, cuts[0])
    ensures ColorizePieces(line, cuts, z) == ColorizeFrom(line, cuts[0], z)
    decreases |cuts|
  {
    hide Cuts, ColorizeFrom, ColorizePiece, QuoteAt, IsPiece;
    if |cuts| == 1 {
      NoPieces(line, z);
    } else {
      var from, to := cuts[0], cuts[1];
      assert PieceAt(line, cuts, 0);
      OtherPieces(line, cuts);
      PieceEnd(line, from, to);
      NextPiece(line, from, to, z);
      PiecesAreCuts(line, cuts[1..], z);
      assert cuts == [from] + cuts[1..];
    }
  }

  /** There is only one partition, and the colouring is its pieces in order, separators
      unchanged and every token coloured by itself. */
  lemma ColoringIsPieceByPiece(line: string, cuts: seq<nat>, z: Scheme)
    requires PiecesFrom(line, cuts) && cuts[0] == 0
    ensures cuts == Cuts(line, 0)
    ensures Colorize(line, z) == ColorizePieces(line, cuts, z)
  {
    PiecesAreCuts(line, cuts, z);
  }
}
