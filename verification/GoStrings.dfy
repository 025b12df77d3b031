// The functions of Go's `strings` package that the unit policy rests on.
module GoStrings {
  import opened Utf8

  /** `unicode.IsSpace`. */
  predicate IsSpace(r: Rune) {
    0x09 <= r <= 0x0D || r == 0x20 || r == 0x85 || r == 0xA0 || r == 0x1680 || 0x2000 <= r <= 0x200A
    || r == 0x2028 || r == 0x2029 || r == 0x202F || r == 0x205F || r == 0x3000
  }

  /** The width of the space a string starts with; zero when it starts with none. */
  function SpaceWidth(s: string): (n: nat)
    ensures n <= |s|
  {
    if s != "" && IsSpace(DecodeRune(s).0) then DecodeRune(s).1 else 0
  }

  predicate StartsWithBytes(s: string, prefix: seq<int>) {
    |prefix| <= |s| && forall i | 0 <= i < |prefix| :: s[i] as int == prefix[i]
  }

  /** The encodings of Unicode's white space: tab to carriage return, blank, U+0085, U+00A0,
      U+1680, U+2000 to U+200A, U+2028, U+2029, U+202F, U+205F and U+3000. */
  predicate StartsWithSpace(s: string) {
    || (s != "" && (s[0] == ' ' || '\t' <= s[0] <= '\r'))
    || StartsWithBytes(s, [0xC2, 0x85]) || StartsWithBytes(s, [0xC2, 0xA0]) || StartsWithBytes(s, [0xE1, 0x9A, 0x80])
    || (StartsWithBytes(s, [0xE2, 0x80]) && |s| > 2
        && (0x80 <= s[2] as int <= 0x8A || s[2] as int == 0xA8 || s[2] as int == 0xA9 || s[2] as int == 0xAF))
    || StartsWithBytes(s, [0xE2, 0x81, 0x9F]) || StartsWithBytes(s, [0xE3, 0x80, 0x80])
  }

  /** Byte by byte, what the functions below take for white space; so no malformed byte. */
  lemma SpaceIff(s: string)
    ensures SpaceWidth(s) > 0 <==> StartsWithSpace(s)
  {
    if s != "" {
      var (r, width) := DecodeRune(s);
      if StartsWithSpace(s) {
        SpaceBytesDecode(s);
      } else if IsSpace(r) {
        DecodedSpaceBytes(s);
      }
    }
  }

  lemma SpaceBytesDecode(s: string)
    requires StartsWithSpace(s)
    ensures IsSpace(DecodeRune(s).0)
  {
  }

  lemma DecodedSpaceBytes(s: string)
    requires s != "" && IsSpace(DecodeRune(s).0)
    ensures StartsWithSpace(s)
  {
  }

  /** The bytes before the first space. */
  function WordLen(s: string): (n: nat)
    ensures n <= |s|
    ensures n == 0 <==> s == "" || SpaceWidth(s) > 0
  {
    if s == "" || SpaceWidth(s) > 0 then 0
    else DecodeRune(s).1 + WordLen(s[DecodeRune(s).1..])
  }

  /** `strings.Fields`. */
  function Fields(s: string): seq<string>
    decreases |s|
  {
    if s == "" then []
    else if SpaceWidth(s) > 0 then Fields(s[SpaceWidth(s)..])
    else [s[..WordLen(s)]] + Fields(s[WordLen(s)..])
  }

  /** A non-empty string without spaces. */
  predicate IsWord(s: string) {
    s != "" && WordLen(s) == |s|
  }

  /** `strings.TrimSpace(s) == ""`. */
  predicate IsBlank(s: string)
    decreases |s|
  {
    s == "" || (SpaceWidth(s) > 0 && IsBlank(s[SpaceWidth(s)..]))
  }

  function LineLen(s: string): (n: nat)
    ensures n <= |s| && '\n' !in s[..n]
    ensures n < |s| ==> s[n] == '\n'
  {
    if s == "" || s[0] == '\n' then 0 else 1 + LineLen(s[1..])
  }

  /** `strings.Split(s, "\n")`. */
  function Lines(s: string): (lines: seq<string>)
    ensures lines != []
    ensures forall i | 0 <= i < |lines| :: '\n' !in lines[i]
  {
    var n := LineLen(s);
    if n == |s| then [s] else [s[..n]] + Lines(s[n + 1..])
  }

  /** `strings.Contains(s, "..")`. */
  predicate HasDotDot(s: string) {
    exists i :: 0 <= i < |s| - 1 && s[i] == '.' && s[i + 1] == '.'
  }

  function TrimLeft(s: string, cutset: set<char>): (t: string)
    ensures forall c <- t :: c in s
  {
    if s != "" && s[0] in cutset then TrimLeft(s[1..], cutset) else s
  }

  function TrimRight(s: string, cutset: set<char>): (t: string)
    ensures t <= s
    ensures t != "" ==> t[|t| - 1] !in cutset
  {
    if s != "" && s[|s| - 1] in cutset then TrimRight(s[..|s| - 1], cutset) else s
  }

  // ----------------------------------------------------------------------- lines

  /** Every line with its line end. */
  function Terminated(lines: seq<string>): string {
    if lines == [] then "" else lines[0] + "\n" + Terminated(lines[1..])
  }

  lemma LineLenOf(line: string, rest: string)
    requires '\n' !in line
    ensures LineLen(line + "\n" + rest) == |line|
    decreases |line|
  {
    var s := line + "\n" + rest;
    if line != "" {
      assert s[1..] == line[1..] + "\n" + rest;
      assert s[0] == line[0] && s[0] in line;
      LineLenOf(line[1..], rest);
    }
  }

  /** Splitting terminated lines gives them back, and an empty last one. */
  lemma {:induction false} LinesOfTerminated(lines: seq<string>)
    requires forall i | 0 <= i < |lines| :: '\n' !in lines[i]
    ensures Lines(Terminated(lines)) == lines + [""]
  {
    if lines == [] {
      assert Lines("") == [""];
    } else {
      var rest := Terminated(lines[1..]);
      var s := lines[0] + "\n" + rest;
      LineLenOf(lines[0], rest);
      assert s[..|lines[0]|] == lines[0] && s[|lines[0]| + 1..] == rest;
      LinesOfTerminated(lines[1..]);
      assert lines + [""] == [lines[0]] + (lines[1..] + [""]);
    }
  }

  lemma {:induction false} TerminatedAppend(a: seq<string>, b: seq<string>)
    ensures Terminated(a + b) == Terminated(a) + Terminated(b)
  {
    if a == [] {
      assert a + b == b;
    } else {
      assert (a + b)[1..] == a[1..] + b;
      TerminatedAppend(a[1..], b);
    }
  }

  // ---------------------------------------------------------------------- fields

  predicate IsAsciiSpace(c: char) {
    9 <= c as int <= 13 || c == ' '
  }

  /** A space ends whatever sequence was pending, so decoding before it is local. */
  lemma DecodeBeforeAscii(a: string, c: char, b: string)
    requires a != "" && c as int < 0x80
    ensures DecodeRune(a + [c] + b) == DecodeRune(a)
  {
    var s := a + [c] + b;
    assert s[0] == a[0] && s[|a|] == c && |s| >= |a| + 1;
    assert |a| >= 2 ==> s[1] == a[1];
    assert |a| >= 3 ==> s[2] == a[2];
    assert |a| >= 4 ==> s[3] == a[3];
    assert !IsContinuation(c);
  }

  lemma {:induction false} WordBeforeSpace(a: string, c: char, b: string)
    requires IsAsciiSpace(c)
    ensures WordLen(a + [c] + b) == WordLen(a)
    decreases |a|
  {
    var s := a + [c] + b;
    if a == "" {
      assert s[0] == c && DecodeRune(s) == (c as int, 1);
    } else {
      DecodeBeforeAscii(a, c, b);
      var w := DecodeRune(a).1;
      assert s[w..] == a[w..] + [c] + b;
      WordBeforeSpace(a[w..], c, b);
    }
  }

  lemma SpaceStarts(s: string)
    requires s != "" && IsAsciiSpace(s[0])
    ensures SpaceWidth(s) == 1
  {
    assert DecodeRune(s) == (s[0] as int, 1);
  }

  /** Fields on the two sides of a space are found independently. */
  lemma {:induction false} FieldsAroundSpace(a: string, c: char, b: string)
    requires IsAsciiSpace(c)
    ensures Fields(a + [c] + b) == Fields(a) + Fields(b)
    decreases |a|
  {
    hide DecodeRune, IsSpace;
    var s := a + [c] + b;
    if a == "" {
      assert s[0] == c && s[1..] == b;
      SpaceStarts(s);
    } else {
      DecodeBeforeAscii(a, c, b);
      assert SpaceWidth(s) == SpaceWidth(a);
      var w := if SpaceWidth(a) > 0 then SpaceWidth(a) else WordLen(a);
      WordBeforeSpace(a, c, b);
      assert s[w..] == a[w..] + [c] + b && s[..w] == a[..w];
      FieldsAroundSpace(a[w..], c, b);
    }
  }

  lemma WordIsItsOnlyField(s: string)
    ensures Fields(s) == [s] <==> IsWord(s)
  {
    FieldsAreWords(s);
    if Fields(s) == [s] {
      assert Fields(s)[0] == s;
    }
    if IsWord(s) {
      assert s[..|s|] == s && s[|s|..] == "";
      assert Fields(s) == [s] + Fields("");
    }
  }

  /** What a word's bytes decode to does not depend on what follows it. */
  lemma {:induction false} WordOfPrefix(s: string)
    ensures WordLen(s[..WordLen(s)]) == WordLen(s)
    decreases |s|
  {
    hide DecodeRune, IsSpace;
    var n := WordLen(s);
    if n > 0 {
      var w := DecodeRune(s).1;
      WordOfPrefix(s[w..]);
      assert s[w..][..n - w] == s[..n][w..];
      DecodeOfPrefix(s, n);
    }
  }

  lemma DecodeOfPrefix(s: string, n: nat)
    requires s != "" && DecodeRune(s).1 <= n <= |s|
    ensures DecodeRune(s[..n]) == DecodeRune(s)
  {
  }

  lemma {:induction false} FieldsAreWords(s: string)
    ensures forall i | 0 <= i < |Fields(s)| :: IsWord(Fields(s)[i])
    decreases |s|
  {
    if s != "" {
      if SpaceWidth(s) > 0 {
        FieldsAreWords(s[SpaceWidth(s)..]);
      } else {
        FieldsAreWords(s[WordLen(s)..]);
        WordOfPrefix(s);
      }
    }
  }

  /** A string of ASCII bytes none of which is a space is a word. */
  lemma {:induction false} SpacelessAsciiIsWord(s: string)
    requires s != "" && forall c <- s :: c as int < 0x80 && !IsAsciiSpace(c)
    ensures IsWord(s)
  {
    assert s[0] in s;
    assert DecodeRune(s) == (s[0] as int, 1);
    if |s| > 1 {
      assert forall c <- s[1..] :: c in s;
      SpacelessAsciiIsWord(s[1..]);
    }
  }

  // -------------------------------------------------------------------- trimming

  lemma {:induction false} TrimRightBehind(a: string, b: string, cutset: set<char>)
    requires a != "" && a[|a| - 1] !in cutset
    ensures TrimRight(a + b, cutset) == a + TrimRight(b, cutset)
    decreases |b|
  {
    var s := a + b;
    if b == "" {
      assert s == a;
    } else {
      assert s[|s| - 1] == b[|b| - 1];
      if b[|b| - 1] in cutset {
        assert s[..|s| - 1] == a + b[..|b| - 1];
        TrimRightBehind(a, b[..|b| - 1], cutset);
      }
    }
  }

  lemma {:induction false} TrimmedTail(s: string, cutset: set<char>) returns (tail: string)
    ensures s == TrimRight(s, cutset) + tail
    ensures forall c <- tail :: c in cutset
  {
    if s != "" && s[|s| - 1] in cutset {
      var t := TrimmedTail(s[..|s| - 1], cutset);
      tail := t + [s[|s| - 1]];
    } else {
      tail := "";
    }
  }

  /** Removing a longer cutset makes removing a shorter one first pointless. */
  lemma {:induction false} TrimRightTwice(s: string, few: set<char>, many: set<char>)
    requires few <= many
    ensures TrimRight(TrimRight(s, few), many) == TrimRight(s, many)
  {
    if s != "" && s[|s| - 1] in few {
      TrimRightTwice(s[..|s| - 1], few, many);
    }
  }

  lemma {:induction false} FieldsOfLeftTrimmed(s: string, cutset: set<char>)
    requires forall c <- cutset :: IsAsciiSpace(c)
    ensures Fields(TrimLeft(s, cutset)) == Fields(s)
  {
    hide Fields;
    if s != "" && s[0] in cutset {
      FieldsOfLeftTrimmed(s[1..], cutset);
      FieldsAroundSpace("", s[0], s[1..]);
      assert s == "" + [s[0]] + s[1..];
      FieldsOfNothing();
    }
  }

  lemma {:induction false} FieldsOfRightTrimmed(s: string, cutset: set<char>)
    requires forall c <- cutset :: IsAsciiSpace(c)
    ensures Fields(TrimRight(s, cutset)) == Fields(s)
  {
    hide Fields;
    var n := |s| - 1;
    if s != "" && s[n] in cutset {
      FieldsOfRightTrimmed(s[..n], cutset);
      FieldsAroundSpace(s[..n], s[n], "");
      assert s == s[..n] + [s[n]] + "";
      FieldsOfNothing();
    }
  }

  lemma FieldsOfNothing()
    ensures Fields("") == []
  {
  }

  // ---------------------------------------------------------------------- blanks

  /** Blank text holds nothing but ASCII spaces and bytes of longer sequences. */
  lemma {:induction false} BlankBytes(s: string)
    requires IsBlank(s)
    ensures forall c <- s :: IsAsciiSpace(c) || c as int >= 0x80
    decreases |s|
  {
    if s != "" {
      var w := SpaceWidth(s);
      BlankBytes(s[w..]);
      assert s == s[..w] + s[w..];
    }
  }
}
