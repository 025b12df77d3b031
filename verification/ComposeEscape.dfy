// Escaping of config values and secrets for a compose file
// (internal/runtime/compose/compose.go), and the two readers that undo it: a
// scanner for double-quoted YAML scalars (YAML 1.2.2, sections 5.7 and 7.3.1)
// and the `$$` rule of compose interpolation.
module ComposeEscape {
  import opened Utf8
  import opened Jcs
  import opened JcsReader
  import opened Wrappers

  /** Everything but the dollar rule. */
  function YamlByte(c: char): string {
    if c == '"' then "\\\""
    else if c == '\\' then "\\\\"
    else if c == '\n' then "\\n"
    else if c == '\r' then "\\r"
    else if c == '\t' then "\\t"
    else if c < ' ' then "\\x" + [HexDigit(c as int / 16), HexDigit(c as int % 16)]
    else [c]
  }

  function DollarByte(c: char): string {
    if c == '$' then "$$" else [c]
  }

  function YamlDollarByte(c: char): string {
    if c == '$' then "$$" else YamlByte(c)
  }

  method YamlEscapeInner(v: string) returns (text: string)
    ensures text == EscapeBytes(Lossy(v), YamlDollarByte)
  {
    var b := new Builder();
    b.WriteEscaped(v, YamlDollarByte);
    text := b.text;
  }

  /** `strings.ReplaceAll(v, "$", "$$")`. */
  function ComposeEscapeDollar(v: string): string {
    EscapeBytes(v, DollarByte)
  }

  /** The spellings the table uses, of all that YAML would take. */
  lemma EscapeTable(c: char)
    ensures EscapeBytes("\"\\\n\r\t$", YamlDollarByte) == "\\\"" + "\\\\" + "\\n" + "\\r" + "\\t" + "$$"
    ensures YamlDollarByte('\U{00}') == "\\x00" && YamlDollarByte('\U{1F}') == "\\x1f"
    ensures ' ' <= c && c !in "\"\\$" ==> YamlDollarByte(c) == [c]
  {
    var s := "\"\\\n\r\t$";
    assert s == ['"', '\\', '\n', '\r', '\t', '$'];
    assert s[1..] == ['\\', '\n', '\r', '\t', '$'] && s[1..][1..] == ['\n', '\r', '\t', '$'];
    assert s[1..][1..][1..] == ['\r', '\t', '$'] && s[1..][1..][1..][1..] == ['\t', '$'];
    assert s[1..][1..][1..][1..][1..] == ['$'] && s[1..][1..][1..][1..][1..][1..] == [];
  }

  // ------------------------------------------------------------- the two readers

  /** `FoldedBreak`: a raw line break, which YAML folds instead of keeping. */
  datatype Scan = Scalar(content: string, rest: string) | FoldedBreak | Malformed

  /** U+0085, U+2028 and U+2029: line breaks in YAML 1.1, ordinary text since 1.2. */
  predicate StartsWithLegacyBreak(b: string) {
    (|b| >= 2 && b[0] == '\U{C2}' && b[1] == '\U{85}')
    || (|b| >= 3 && b[0] == '\U{E2}' && b[1] == '\U{80}' && (b[2] == '\U{A8}' || b[2] == '\U{A9}'))
  }

  /** The text an escape sequence stands for, and its length in bytes. */
  function ReadEscape(b: string): (r: Option<(string, nat)>)
    requires b != "" && b[0] == '\\'
    ensures r.Some? ==> 2 <= r.value.1 <= |b|
  {
    if |b| < 2 then None
    else if b[1] == '"' || b[1] == '\\' || b[1] == '/' || b[1] == ' ' || b[1] == '\t' then Some(([b[1]], 2))
    else if b[1] == '0' then Some(("\U{00}", 2))
    else if b[1] == 'a' then Some(("\U{07}", 2))
    else if b[1] == 'b' then Some(("\U{08}", 2))
    else if b[1] == 't' then Some(("\t", 2))
    else if b[1] == 'n' then Some(("\n", 2))
    else if b[1] == 'v' then Some(("\U{0B}", 2))
    else if b[1] == 'f' then Some(("\U{0C}", 2))
    else if b[1] == 'r' then Some(("\r", 2))
    else if b[1] == 'e' then Some(("\U{1B}", 2))
    else if b[1] == 'N' then Some((EncodeRune(0x85), 2))
    else if b[1] == '_' then Some((EncodeRune(0xA0), 2))
    else if b[1] == 'L' then Some((EncodeRune(0x2028), 2))
    else if b[1] == 'P' then Some((EncodeRune(0x2029), 2))
    else if b[1] == 'x' && |b| >= 4 && HexValue(b[2]).Some? && HexValue(b[3]).Some? then
      Some((EncodeRune(HexValue(b[2]).value * 16 + HexValue(b[3]).value), 4))
    else None
  }

  /** Reads a double-quoted scalar after its opening quote. */
  function ScanDoubleQuoted(b: string, legacy: bool): Scan
    decreases |b|
  {
    if b == "" then Malformed
    else if b[0] == '"' then Scalar("", b[1..])
    else if b[0] == '\n' || b[0] == '\r' || (legacy && StartsWithLegacyBreak(b)) then FoldedBreak
    else if b[0] < ' ' && b[0] != '\t' then Malformed
    else if b[0] == '\\' then
      match ReadEscape(b)
      case None => Malformed
      case Some((text, width)) => Prepended(text, ScanDoubleQuoted(b[width..], legacy))
    else Prepended([b[0]], ScanDoubleQuoted(b[1..], legacy))
  }

  function Prepended(text: string, s: Scan): Scan {
    if s.Scalar? then Scalar(text + s.content, s.rest) else s
  }

  /** `$$` is a dollar; any other dollar would start a variable reference. */
  function CollapseDollars(s: string): Option<string>
    decreases |s|
  {
    if s == "" then Some("")
    else if s[0] == '$' then
      if |s| >= 2 && s[1] == '$' then PrependedText("$", CollapseDollars(s[2..])) else None
    else PrependedText([s[0]], CollapseDollars(s[1..]))
  }

  function PrependedText(text: string, s: Option<string>): Option<string> {
    if s.Some? then Some(text + s.value) else None
  }

  // ------------------------------------------------------------------ dollar laws

  lemma {:induction false} CollapseUndoesDoubling(v: string)
    ensures CollapseDollars(ComposeEscapeDollar(v)) == Some(v)
  {
    if v != "" {
      CollapseUndoesDoubling(v[1..]);
      var e, tail := DollarByte(v[0]), ComposeEscapeDollar(v[1..]);
      assert (e + tail)[|e|..] == tail;
      assert v == [v[0]] + v[1..];
    }
  }

  /** Collapsing raw escaped text leaves the YAML escapes alone. */
  lemma {:induction false} CollapseOfEscaped(v: string)
    ensures CollapseDollars(EscapeBytes(v, YamlDollarByte)) == Some(EscapeBytes(v, YamlByte))
  {
    if v != "" {
      CollapseOfEscaped(v[1..]);
      var tail := EscapeBytes(v[1..], YamlDollarByte);
      if v[0] == '$' {
        assert ("$$" + tail)[2..] == tail;
      } else {
        CollapsePassesOver(YamlByte(v[0]), tail);
      }
    }
  }

  lemma {:induction false} CollapsePassesOver(text: string, tail: string)
    requires forall i | 0 <= i < |text| :: text[i] != '$'
    requires CollapseDollars(tail).Some?
    ensures CollapseDollars(text + tail) == Some(text + CollapseDollars(tail).value)
  {
    if text == "" {
      assert text + tail == tail;
      assert text + CollapseDollars(tail).value == CollapseDollars(tail).value;
    } else {
      CollapsePassesOver(text[1..], tail);
      assert (text + tail)[1..] == text[1..] + tail;
      assert text + CollapseDollars(tail).value == [text[0]] + (text[1..] + CollapseDollars(tail).value);
    }
  }

  // ------------------------------------------------------------------- YAML laws

  /** No byte offset of `v` starts a line break of YAML 1.1's longer kinds. */
  predicate LegacyFree(v: string) {
    v == "" || (!StartsWithLegacyBreak(v) && LegacyFree(v[1..]))
  }

  /** ASCII to ASCII, and everything else to itself. */
  ghost predicate KeepsHighBytes(esc: char -> string) {
    forall c: char ::
      if c as int >= 0x80 then esc(c) == [c]
      else esc(c) != "" && forall i | 0 <= i < |esc(c)| :: esc(c)[i] as int < 0x80
  }

  lemma TablesKeepHighBytes()
    ensures KeepsHighBytes(YamlByte) && KeepsHighBytes(DollarByte)
  {
  }

  lemma FirstBytes(v: string, esc: char -> string, x: string)
    requires KeepsHighBytes(esc) && x != "" && x[0] as int < 0x80
    ensures var b := EscapeBytes(v, esc) + x;
            b != ""
            && (v == "" || v[0] as int < 0x80 ==> b[0] as int < 0x80)
            && (v != "" && v[0] as int >= 0x80 ==> b[0] == v[0] && b[1..] == EscapeBytes(v[1..], esc) + x)
  {
    if v != "" {
      assert esc(v[0]) != "";
      if v[0] as int >= 0x80 {
        assert EscapeBytes(v, esc) + x == [v[0]] + (EscapeBytes(v[1..], esc) + x);
      }
    }
  }

  /** Escaping neither hides nor creates a long line break. */
  lemma LegacyBreakSurvives(v: string, esc: char -> string, x: string)
    requires KeepsHighBytes(esc) && x != "" && x[0] as int < 0x80
    ensures StartsWithLegacyBreak(EscapeBytes(v, esc) + x) <==> StartsWithLegacyBreak(v)
  {
    hide EscapeBytes, KeepsHighBytes;
    FirstBytes(v, esc, x);
    if v != "" && v[0] as int >= 0x80 {
      FirstBytes(v[1..], esc, x);
      if |v| > 1 && v[1] as int >= 0x80 {
        FirstBytes(v[2..], esc, x);
        assert v[1..][1..] == v[2..];
      }
    }
  }

  lemma ScanPlainOrEscaped(c: char, x: string, legacy: bool)
    requires !(legacy && StartsWithLegacyBreak(YamlByte(c) + x))
    ensures ScanDoubleQuoted(YamlByte(c) + x, legacy) == Prepended([c], ScanDoubleQuoted(x, legacy))
  {
    hide StartsWithLegacyBreak;
    var e := YamlByte(c);
    var b := e + x;
    assert b[0] == e[0] && b[|e|..] == x;
    if e != [c] {
      ReadYamlEscape(c, x);
    }
  }

  lemma ReadYamlEscape(c: char, x: string)
    requires YamlByte(c) != [c]
    ensures YamlByte(c)[0] == '\\' && ReadEscape(YamlByte(c) + x) == Some(([c], |YamlByte(c)|))
  {
    var e := YamlByte(c);
    var b := e + x;
    assert b[..|e|] == e && b[1] == e[1];
    if |e| == 4 {
      assert b[2] == HexDigit(c as int / 16) && b[3] == HexDigit(c as int % 16);
    }
  }

  /** Scanning escaped text gives the text back and stops at the closing quote. */
  lemma {:induction false} ScanEscaped(w: string, rest: string, legacy: bool)
    requires legacy ==> LegacyFree(w)
    ensures ScanDoubleQuoted(EscapeBytes(w, YamlByte) + "\"" + rest, legacy) == Scalar(w, rest)
  {
    hide YamlByte, StartsWithLegacyBreak, ReadEscape;
    assert KeepsHighBytes(YamlByte) by { TablesKeepHighBytes(); }
    if w == "" {
      assert "" + "\"" + rest == "\"" + rest;
    } else {
      var x := EscapeBytes(w[1..], YamlByte) + "\"" + rest;
      assert EscapeBytes(w, YamlByte) + "\"" + rest == YamlByte(w[0]) + x;
      assert EscapeBytes(w, YamlByte) + ("\"" + rest) == YamlByte(w[0]) + x;
      LegacyBreakSurvives(w, YamlByte, "\"" + rest);
      ScanPlainOrEscaped(w[0], x, legacy);
      ScanEscaped(w[1..], rest, legacy);
      assert w == [w[0]] + w[1..];
    }
  }

  lemma LegacyBreakFolds(b: string)
    requires StartsWithLegacyBreak(b)
    ensures ScanDoubleQuoted(b, true) == FoldedBreak
  {
  }

  /** A long line break is folded away by a YAML 1.1 scanner. */
  lemma {:induction false} ScanFoldsLegacyBreaks(w: string, rest: string)
    requires !LegacyFree(w)
    ensures ScanDoubleQuoted(EscapeBytes(w, YamlByte) + "\"" + rest, true) == FoldedBreak
  {
    assert KeepsHighBytes(YamlByte) by { TablesKeepHighBytes(); }
    hide ScanDoubleQuoted, YamlByte, StartsWithLegacyBreak;
    var x := EscapeBytes(w[1..], YamlByte) + "\"" + rest;
    assert EscapeBytes(w, YamlByte) + "\"" + rest == YamlByte(w[0]) + x;
    assert EscapeBytes(w, YamlByte) + ("\"" + rest) == YamlByte(w[0]) + x;
    LegacyBreakSurvives(w, YamlByte, "\"" + rest);
    if StartsWithLegacyBreak(w) {
      LegacyBreakFolds(YamlByte(w[0]) + x);
    } else {
      ScanPlainOrEscaped(w[0], x, true);
      ScanFoldsLegacyBreaks(w[1..], rest);
    }
  }

  /** The one-pass table is dollar doubling followed by YAML escaping. */
  lemma {:induction false} EscapeFactors(v: string)
    ensures EscapeBytes(v, YamlDollarByte) == EscapeBytes(ComposeEscapeDollar(v), YamlByte)
  {
    if v != "" {
      EscapeFactors(v[1..]);
      EscapeBytesAppend(DollarByte(v[0]), ComposeEscapeDollar(v[1..]), YamlByte);
      if v[0] == '$' {
        assert EscapeBytes("$$", YamlByte) == "$" + EscapeBytes("$$"[1..], YamlByte);
        assert "$$"[1..] == "$" && EscapeBytes("$", YamlByte) == "$" + EscapeBytes("", YamlByte);
      } else {
        assert EscapeBytes([v[0]], YamlByte) == YamlByte(v[0]) + EscapeBytes("", YamlByte);
      }
    }
  }

  lemma {:induction false} DoublingKeepsLegacyFree(v: string)
    ensures LegacyFree(ComposeEscapeDollar(v)) <==> LegacyFree(v)
  {
    if v != "" {
      var w := ComposeEscapeDollar(v);
      DoublingKeepsLegacyFree(v[1..]);
      LegacyBreakSurvives(v, DollarByte, "\"");
      LegacyPrefixIgnoresQuote(w);
      if v[0] == '$' {
        assert w == "$$" + ComposeEscapeDollar(v[1..]);
        assert w[1..][1..] == ComposeEscapeDollar(v[1..]);
        assert !StartsWithLegacyBreak(w[1..]);
      } else {
        assert w[1..] == ComposeEscapeDollar(v[1..]);
      }
    }
  }

  lemma LegacyPrefixIgnoresQuote(w: string)
    ensures StartsWithLegacyBreak(w + "\"") <==> StartsWithLegacyBreak(w)
  {
  }

  // ---------------------------------------------------------------- main theorem

  /** Unescape, then interpolate: the order of a compose loader. */
  function LoadScalar(body: string, legacy: bool): Option<(string, string)> {
    match ScanDoubleQuoted(body, legacy)
    case FoldedBreak => None
    case Malformed => None
    case Scalar(content, rest) =>
      if CollapseDollars(content).Some? then Some((CollapseDollars(content).value, rest)) else None
  }

  /** Interpolate the raw text first, then unescape. */
  function LoadCollapsed(text: string, rest: string, legacy: bool): Option<(string, string)> {
    match CollapseDollars(text)
    case None => None
    case Some(collapsed) =>
      match ScanDoubleQuoted(collapsed + "\"" + rest, legacy)
      case FoldedBreak => None
      case Malformed => None
      case Scalar(content, after) => Some((content, after))
  }

  /** Both readers, in either order, return the value and never leave the scalar;
      a YAML 1.1 scanner does so exactly when the value has no long line break. */
  lemma EscapeRoundTrip(v: string, rest: string, legacy: bool)
    ensures var text, readable := EscapeBytes(Lossy(v), YamlDollarByte), !legacy || LegacyFree(Lossy(v));
            && LoadScalar(text + "\"" + rest, legacy) == (if readable then Some((Lossy(v), rest)) else None)
            && LoadCollapsed(text, rest, legacy) == (if readable then Some((Lossy(v), rest)) else None)
  {
    hide ScanDoubleQuoted, CollapseDollars, LegacyFree, EscapeBytes, Lossy;
    var u := Lossy(v);
    EscapeFactors(u);
    DoublingKeepsLegacyFree(u);
    CollapseOfEscaped(u);
    CollapseUndoesDoubling(u);
    if legacy && !LegacyFree(u) {
      ScanFoldsLegacyBreaks(ComposeEscapeDollar(u), rest);
      ScanFoldsLegacyBreaks(u, rest);
    } else {
      ScanEscaped(ComposeEscapeDollar(u), rest, legacy);
      ScanEscaped(u, rest, legacy);
    }
  }

  /** The value itself comes back exactly when it is valid UTF-8 and readable. */
  lemma ValueComesBackIff(v: string, rest: string, legacy: bool)
    ensures LoadScalar(EscapeBytes(Lossy(v), YamlDollarByte) + "\"" + rest, legacy) == Some((v, rest))
        <==> Valid(v) && (!legacy || LegacyFree(v))
  {
    hide LoadScalar, LegacyFree, EscapeBytes, Lossy, Valid;
    EscapeRoundTrip(v, rest, legacy);
    LossyIsIdentityIffValid(v);
  }
}
