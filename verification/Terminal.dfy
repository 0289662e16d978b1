/** What a reader of a coloured log line sees (internal/logging/logging.go:82-209), in
    terms of the text of the line: which characters have which colours, and that a quoted
    value is one token whatever it contains. */
module Terminal {
  import opened Colorizer
  import opened Text

  // ---------- The painted line, by position ----------

  /** A place where a piece of the line begins or the line ends. */
  predicate IsBoundary(line: string, i: nat) {
    && i <= |line|
    && (i < |line| ==> QuoteAt(line, i) == Outside && (i > 0 ==> Separates(line, i - 1) || Separates(line, i)))
  }

  function NextCut(line: string, i: nat): nat
    requires i < |line|
  {
    if IsWhitespace(line[i]) then i + 1 else TokenEnd(line, i + 1, NextQuote(Outside, line[i]))
  }

  /** No boundary is jumped over. */
  lemma NextCutIsNext(line: string, i: nat, from: nat)
    requires IsBoundary(line, i) && IsBoundary(line, from) && i < from
    ensures i < NextCut(line, i) <= from && IsBoundary(line, NextCut(line, i))
  {
    assert QuoteAt(line, i + 1) == NextQuote(Outside, line[i]);
    if !IsWhitespace(line[i]) {
      TokenEndMeaning(line, i + 1, NextQuote(Outside, line[i]));
    }
  }

  lemma PaintStep(line: string, i: nat, z: Scheme)
    requires i < |line|
    ensures |PaintFrom(line, i, z)| == |line| - i
    ensures NextCut(line, i) <= |line|
    ensures PaintFrom(line, i, z)[NextCut(line, i) - i..] == PaintFrom(line, NextCut(line, i), z)
    ensures PaintFrom(line, i, z)[..NextCut(line, i) - i]
         == if IsWhitespace(line[i]) then [Cell(line[i], [])] else PaintToken(line[i..NextCut(line, i)], z)
  {
    hide PaintToken, TokenEnd;
    PaintKeepsText(line, i, z);
    PaintTokenKeepsText(line[i..NextCut(line, i)], z);
  }

  lemma {:induction false} PaintFromBoundary(line: string, i: nat, from: nat, z: Scheme)
    requires IsBoundary(line, i) && IsBoundary(line, from) && i <= from
    ensures |PaintFrom(line, i, z)| == |line| - i
    ensures PaintFrom(line, i, z)[from - i..] == PaintFrom(line, from, z)
    decreases from - i
  {
    hide PaintFrom, IsBoundary;
    BoundaryInside(line, i);
    PaintKeepsText(line, i, z);
    if i < from {
      BoundaryInside(line, from);
      NextCutIsNext(line, i, from);
      PaintStep(line, i, z);
      PaintFromBoundary(line, NextCut(line, i), from, z);
    }
  }

  lemma BoundaryInside(line: string, i: nat)
    requires IsBoundary(line, i)
    ensures i <= |line|
  {
  }

  /** The cells that show one token. */
  lemma TokenCells(line: string, from: nat, to: nat, z: Scheme)
    requires from < to <= |line| && IsPiece(line, from, to) && !Separates(line, from)
    ensures |PaintFrom(line, 0, z)| == |line|
    ensures PaintFrom(line, 0, z)[from..to] == PaintToken(line[from..to], z)
  {
    hide PaintFrom, PaintToken;
    TokenBegins(line, from, to);
    PaintFromBoundary(line, 0, from, z);
    PieceEnd(line, from, to);
    PaintStep(line, from, z);
    assert PaintFrom(line, 0, z)[from..to] == PaintFrom(line, 0, z)[from..][..to - from];
  }

  lemma TokenBegins(line: string, from: nat, to: nat)
    requires from < to <= |line| && IsPiece(line, from, to) && !Separates(line, from)
    ensures QuoteAt(line, from) == Outside && IsBoundary(line, 0) && IsBoundary(line, from)
    ensures !IsWhitespace(line[from])
  {
    if from > 0 {
      assert QuoteAt(line, from) == NextQuote(QuoteAt(line, from - 1), line[from - 1]);
    }
  }

  // ---------- Colours ----------

  /** A token of the form key=value, with the `=` at `k`. */
  predicate IsKeyValue(token: string, k: nat) {
    0 < k < |token| && token[k] == '=' && forall j :: 0 <= j < k ==> IsKeyChar(token[j])
  }

  lemma KeyValueSplit(token: string, k: nat)
    requires IsKeyValue(token, k)
    ensures KeyLength(token) == k
  {
    assert forall j :: 0 <= j < k ==> token[j] != '=';
    IndexOfUnique(token, '=', k);
  }

  lemma NoKeyValue(token: string)
    requires forall k :: !IsKeyValue(token, k)
    ensures KeyLength(token) == 0
  {
    var k := KeyLength(token);
    if k > 0 {
      assert IsKeyToken(token[..k]);
      assert forall j :: 0 <= j < k ==> IsKeyChar(token[..k][j]);
      assert IsKeyValue(token, k);
    }
  }

  /** All characters from `from` to `to` are shown with these codes. */
  predicate Shown(cells: seq<Cell>, line: string, from: nat, to: nat, codes: seq<string>) {
    from <= to <= |line| == |cells| && forall i :: from <= i < to ==> cells[i] == Cell(line[i], codes)
  }

  function Screen(line: string, z: Scheme): seq<Cell> {
    Display(Colorize(line, z), [], z).0
  }

  /** The codes a value must be shown with, by key and by the upper-cased text inside its
      quotes. */
  predicate IsColourOf(key: string, text: string, codes: seq<string>, z: Scheme) {
    && (key == "level" && text == "DEBUG" ==> codes == [z.base01])
    && (key == "level" && text == "INFO" ==> codes == [z.blue])
    && (key == "level" && text == "WARN" ==> codes == [z.bold, z.yellow])
    && (key == "level" && text == "ERROR" ==> codes == [z.bold, z.red])
    && (key == "level" && text !in {"DEBUG", "INFO", "WARN", "ERROR"} ==> codes == [z.violet])
    && (key == "result" && text == "SUCCESS" ==> codes == [z.green])
    && (key == "result" && text != "SUCCESS" ==> codes == [z.red])
    && (key == "name" ==> codes == [z.yellow])
    && (key !in {"level", "result", "name"} ==> codes == [])
  }

  lemma ValueColour(key: string, value: string, z: Scheme)
    ensures IsColourOf(key, z.upper(TrimChar(value, '"')), ValueCodes(key, value, z), z)
  {
  }

  lemma PaintedShown(cells: seq<Cell>, line: string, from: nat, at: nat, to: nat, left: seq<string>, right: seq<string>)
    requires from <= at <= to <= |line| == |cells|
    requires cells[from..to] == Painted(line[from..to][..at - from], left) + Painted(line[from..to][at - from..], right)
    ensures Shown(cells, line, from, at, left) && Shown(cells, line, at, to, right)
  {
    forall i | from <= i < to ensures cells[i] == Cell(line[i], if i < at then left else right) {
      assert cells[i] == cells[from..to][i - from];
    }
  }

  /** A key=value token anywhere in a line: key and `=` in the key colour, the value in the
      colour its text asks for. */
  lemma KeyValueShown(line: string, from: nat, to: nat, k: nat, z: Scheme) returns (codes: seq<string>)
    requires ESC !in line && IsScheme(z)
    requires from < to <= |line| && IsPiece(line, from, to) && !Separates(line, from)
    requires IsKeyValue(line[from..to], k)
    ensures from + k + 1 <= to && Shown(Screen(line, z), line, from, from + k + 1, [z.base1])
    ensures Shown(Screen(line, z), line, from + k + 1, to, codes)
    ensures IsColourOf(line[from..from + k], z.upper(TrimChar(line[from + k + 1..to], '"')), codes, z)
  {
    hide IsPiece, PaintFrom, Display, Colorize, IsScheme, ValueCodes, IsColourOf;
    var token := line[from..to];
    ColorizeDisplays(line, z);
    TokenCells(line, from, to, z);
    KeyValueSplit(token, k);
    codes := ValueCodes(token[..k], token[k + 1..], z);
    PaintedShown(Screen(line, z), line, from, from + k + 1, to, [z.base1], codes);
    ValueColour(token[..k], token[k + 1..], z);
    assert token[..k] == line[from..from + k] && token[k + 1..] == line[from + k + 1..to];
  }

  /** Any other token is shown without colours. */
  lemma OtherTokenShown(line: string, from: nat, to: nat, z: Scheme)
    requires ESC !in line && IsScheme(z)
    requires from < to <= |line| && IsPiece(line, from, to) && !Separates(line, from)
    requires forall k :: !IsKeyValue(line[from..to], k)
    ensures Shown(Screen(line, z), line, from, to, [])
  {
    hide IsPiece, PaintFrom, Display, Colorize, IsScheme;
    ColorizeDisplays(line, z);
    TokenCells(line, from, to, z);
    NoKeyValue(line[from..to]);
    var cells := Screen(line, z);
    forall i | from <= i < to ensures cells[i] == Cell(line[i], []) {
      assert cells[i] == cells[from..to][i - from];
    }
  }

  lemma SeparatorCell(line: string, i: nat, z: Scheme)
    requires i < |line| && Separates(line, i)
    ensures |PaintFrom(line, 0, z)| == |line| && PaintFrom(line, 0, z)[i] == Cell(line[i], [])
  {
    hide PaintFrom;
    assert IsBoundary(line, 0) && IsBoundary(line, i);
    PaintFromBoundary(line, 0, i, z);
    PaintStep(line, i, z);
    assert PaintFrom(line, 0, z)[i] == PaintFrom(line, 0, z)[i..][0];
    assert PaintFrom(line, i, z)[0] == PaintFrom(line, i, z)[..1][0];
  }

  lemma SeparatorShown(line: string, i: nat, z: Scheme)
    requires ESC !in line && IsScheme(z) && i < |line| && Separates(line, i)
    ensures Shown(Screen(line, z), line, i, i + 1, [])
  {
    hide PaintFrom, Display, Colorize, IsScheme;
    ColorizeDisplays(line, z);
    SeparatorCell(line, i, z);
  }

  /** `TrimChar` takes off the character at both ends and nothing else. */
  lemma {:induction false} TrimCharMeaning(s: string, c: char) returns (before: string, after: string)
    ensures s == before + TrimChar(s, c) + after
    ensures (forall x :: x in before ==> x == c) && (forall x :: x in after ==> x == c)
    ensures TrimChar(s, c) != "" ==> TrimChar(s, c)[0] != c && TrimChar(s, c)[|TrimChar(s, c)| - 1] != c
    decreases |s|
  {
    if |s| > 0 && s[0] == c {
      before, after := TrimCharMeaning(s[1..], c);
      before := [c] + before;
    } else if |s| > 0 && s[|s| - 1] == c {
      before, after := TrimCharMeaning(s[..|s| - 1], c);
      after := after + [c];
    } else {
      before, after := "", "";
    }
  }

  // ---------- Codes ----------

  function Digit(n: nat): char
    requires n < 10
  {
    ('0' as int + n) as char
  }

  function Decimal(n: nat): string {
    if n < 10 then [Digit(n)] else Decimal(n / 10) + [Digit(n % 10)]
  }

  /** The escape sequence for a 24-bit colour. */
  function TrueColour(rgb: nat): string {
    [ESC, '['] + ("38;2;" + Decimal(rgb / 0x10000 % 0x100) + ";" + Decimal(rgb / 0x100 % 0x100) + ";" + Decimal(rgb % 0x100)) + "m"
  }

  lemma OneDigit(d: nat)
    requires d < 10
    ensures Decimal(d) == [Digit(d)]
  {
  }

  lemma AnotherDigit(m: nat, d: nat)
    requires m > 0 && d < 10
    ensures Decimal(10 * m + d) == Decimal(m) + [Digit(d)]
  {
    assert (10 * m + d) / 10 == m && (10 * m + d) % 10 == d;
  }

  lemma TwoDigits(a: nat, b: nat)
    requires 0 < a < 10 && b < 10
    ensures Decimal(10 * a + b) == [Digit(a), Digit(b)]
  {
    hide Decimal;
    OneDigit(a);
    AnotherDigit(a, b);
  }

  lemma ThreeDigits(a: nat, b: nat, c: nat)
    requires 0 < a < 10 && b < 10 && c < 10
    ensures Decimal(100 * a + 10 * b + c) == [Digit(a), Digit(b), Digit(c)]
  {
    hide Decimal;
    TwoDigits(a, b);
    AnotherDigit(10 * a + b, c);
    assert 100 * a + 10 * b + c == 10 * (10 * a + b) + c;
  }

  /** A colour whose components have these decimals. */
  lemma ColourOf(rgb: nat, r: string, g: string, b: string, parameters: string)
    requires Decimal(rgb / 0x10000 % 0x100) == r && Decimal(rgb / 0x100 % 0x100) == g && Decimal(rgb % 0x100) == b
    requires parameters == "38;2;" + r + ";" + g + ";" + b
    ensures Sgr(parameters) == TrueColour(rgb)
  {
  }

  lemma Base01()
    ensures Sgr("38;2;88;110;117") == TrueColour(0x586e75)
  {
    hide Decimal, Sgr, TrueColour;
    TwoDigits(8, 8);
    ThreeDigits(1, 1, 0);
    ThreeDigits(1, 1, 7);
    ColourOf(0x586e75, "88", "110", "117", "38;2;88;110;117");
  }

  lemma Base1()
    ensures Sgr("38;2;147;161;161") == TrueColour(0x93a1a1)
  {
    hide Decimal, Sgr, TrueColour;
    ThreeDigits(1, 4, 7);
    ThreeDigits(1, 6, 1);
    ColourOf(0x93a1a1, "147", "161", "161", "38;2;147;161;161");
  }

  lemma Blue()
    ensures Sgr("38;2;38;139;210") == TrueColour(0x268bd2)
  {
    hide Decimal, Sgr, TrueColour;
    TwoDigits(3, 8);
    ThreeDigits(1, 3, 9);
    ThreeDigits(2, 1, 0);
    ColourOf(0x268bd2, "38", "139", "210", "38;2;38;139;210");
  }

  lemma Green()
    ensures Sgr("38;2;133;153;0") == TrueColour(0x859900)
  {
    hide Decimal, Sgr, TrueColour;
    OneDigit(0);
    ThreeDigits(1, 3, 3);
    ThreeDigits(1, 5, 3);
    ColourOf(0x859900, "133", "153", "0", "38;2;133;153;0");
  }

  lemma Yellow()
    ensures Sgr("38;2;181;137;0") == TrueColour(0xb58900)
  {
    hide Decimal, Sgr, TrueColour;
    OneDigit(0);
    ThreeDigits(1, 8, 1);
    ThreeDigits(1, 3, 7);
    ColourOf(0xb58900, "181", "137", "0", "38;2;181;137;0");
  }

  lemma Red()
    ensures Sgr("38;2;220;50;47") == TrueColour(0xdc322f)
  {
    hide Decimal, Sgr, TrueColour;
    ThreeDigits(2, 2, 0);
    TwoDigits(5, 0);
    TwoDigits(4, 7);
    ColourOf(0xdc322f, "220", "50", "47", "38;2;220;50;47");
  }

  lemma Violet()
    ensures Sgr("38;2;108;113;196") == TrueColour(0x6c71c4)
  {
    hide Decimal, Sgr, TrueColour;
    ThreeDigits(1, 0, 8);
    ThreeDigits(1, 1, 3);
    ThreeDigits(1, 9, 6);
    ColourOf(0x6c71c4, "108", "113", "196", "38;2;108;113;196");
  }

  /** The seven colours are those of the Solarized palette, by their published values. */
  lemma SolarizedPalette(upper: string -> string)
    ensures var z := Solarized(upper);
      && z.base01 == TrueColour(0x586e75) && z.base1 == TrueColour(0x93a1a1)
      && z.blue == TrueColour(0x268bd2) && z.green == TrueColour(0x859900)
      && z.yellow == TrueColour(0xb58900) && z.red == TrueColour(0xdc322f)
      && z.violet == TrueColour(0x6c71c4)
  {
    hide Sgr, TrueColour;
    Base01();
    Base1();
    Blue();
    Green();
    Yellow();
    Red();
    Violet();
  }

  // ---------- Quoted values ----------

  function Escaped(content: string): string {
    if |content| == 0 then ""
    else (if content[0] == '"' || content[0] == '\\' then "\\" else "") + [content[0]] + Escaped(content[1..])
  }

  /** A value in quotes, as a logger writes it when it holds spaces or quotes. */
  function Quoted(content: string): string {
    "\"" + Escaped(content) + "\""
  }

  predicate StaysInside(line: string, i: nat, to: nat) {
    i <= to <= |line| && QuoteAt(line, to) == Inside(false) && forall j :: i <= j < to ==> QuoteAt(line, j) != Outside
  }

  /** One character of the content, with the backslash before it if it needs one. */
  lemma EscapedCharacter(line: string, i: nat, c: char)
    requires i < |line| && QuoteAt(line, i) == Inside(false)
    ensures c != '"' && c != '\\' && line[i] == c ==> StaysInside(line, i, i + 1)
    ensures line[i] == '\\' && i + 1 < |line| ==> StaysInside(line, i, i + 2)
  {
    if line[i] == '\\' && i + 1 < |line| {
      assert QuoteAt(line, i + 1) == Inside(true);
    }
  }

  lemma InsideOn(line: string, i: nat, mid: nat, to: nat)
    requires StaysInside(line, i, mid) && StaysInside(line, mid, to)
    ensures StaysInside(line, i, to)
  {
    hide QuoteAt;
  }

  lemma EscapedPrefix(content: string, text: string)
    requires |content| > 0 && Escaped(content) <= text
    ensures var n := if content[0] == '"' || content[0] == '\\' then 2 else 1;
      && n <= |Escaped(content)| <= |text| && Escaped(content[1..]) <= text[n..]
      && |Escaped(content)| == n + |Escaped(content[1..])|
      && text[0] == (if n == 2 then '\\' else content[0])
  {
    var n := if content[0] == '"' || content[0] == '\\' then 2 else 1;
    assert Escaped(content)[n..] == Escaped(content[1..]);
    assert Escaped(content)[0] == text[0];
  }

  /** Between the quotes nothing separates. */
  lemma {:induction false} EscapedStaysInside(line: string, i: nat, content: string)
    requires i <= |line| && Escaped(content) <= line[i..] && QuoteAt(line, i) == Inside(false)
    ensures StaysInside(line, i, i + |Escaped(content)|)
    decreases |content|
  {
    hide QuoteAt;
    if |content| > 0 {
      var c := content[0];
      var n := if c == '"' || c == '\\' then 2 else 1;
      EscapedPrefix(content, line[i..]);
      EscapedCharacter(line, i, c);
      assert line[i..][n..] == line[i + n..];
      assert QuoteAt(line, i + n) == Inside(false);
      EscapedStaysInside(line, i + n, content[1..]);
      InsideOn(line, i, i + n, i + |Escaped(content)|);
    }
  }

  lemma {:induction false} PlainStaysOutside(line: string, n: nat)
    requires n <= |line| && forall j :: 0 <= j < n ==> line[j] != '"'
    ensures forall j :: 0 <= j <= n ==> QuoteAt(line, j) == Outside
  {
    if n > 0 {
      PlainStaysOutside(line, n - 1);
    }
  }

  /** A key with a quoted value is one token, whatever the value contains, up to the
      whitespace that follows it. */
  lemma QuotedValueIsOneToken(key: string, content: string, rest: string)
    requires IsKeyToken(key) && (rest != "" ==> IsWhitespace(rest[0]))
    ensures var token := key + "=" + Quoted(content); IsPiece(token + rest, 0, |token|) && !Separates(token + rest, 0)
  {
    var token, e := key + "=" + Quoted(content), Escaped(content);
    var line, open := token + rest, |key| + 1;
    var close := open + 1 + |e|;
    assert forall j :: 0 <= j < |key| ==> line[j] == key[j];
    assert line[|key|] == '=' && line[open] == '"' && line[close] == '"' && |token| == close + 1;
    assert line[open + 1..] == e + ("\"" + rest);
    KeyHasNoQuote(key);
    PlainStaysOutside(line, open);
    QuotesOpenAndClose(line, open, close, content);
    forall j | 0 <= j < |token| ensures !Separates(line, j) {
      if j < |key| {
        assert IsKeyChar(line[j]);
      }
    }
    if |token| < |line| {
      assert line[|token|] == rest[0];
    }
  }

  lemma KeyHasNoQuote(key: string)
    requires IsKeyToken(key)
    ensures forall j :: 0 <= j < |key| ==> IsKeyChar(key[j]) && key[j] != '"'
  {
  }

  lemma QuotesOpenAndClose(line: string, open: nat, close: nat, content: string)
    requires open < close < |line| && line[open] == '"' && line[close] == '"' && QuoteAt(line, open) == Outside
    requires Escaped(content) <= line[open + 1..] && close == open + 1 + |Escaped(content)|
    ensures QuoteAt(line, close + 1) == Outside
    ensures forall j :: open < j <= close ==> QuoteAt(line, j) != Outside
  {
    assert QuoteAt(line, open + 1) == Inside(false);
    EscapedStaysInside(line, open + 1, content);
  }
}
