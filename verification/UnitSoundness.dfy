// The policy judged by the unit reader: which accepted units the reader sees line by
// line as the policy does, and finds hardened.
module UnitSoundness {
  import opened Wrappers
  import opened Utf8
  import opened GoStrings
  import opened UnitPolicy
  import opened UnitReader

  // ------------------------------------------------------------------ stripped entries

  function StripEach(values: seq<string>): seq<string> {
    seq(|values|, i requires 0 <= i < |values| => Strip(values[i]))
  }

  lemma {:induction false} ValuesOfStripped(es: seq<Entry>, section: string, key: string)
    ensures Values(AllStripped(es), section, key) == StripEach(Values(es, section, key))
  {
    hide Strip;
    if es != [] {
      var shorter := es[..|es| - 1];
      ValuesOfStripped(shorter, section, key);
      assert AllStripped(es)[..|es| - 1] == AllStripped(shorter);
    }
  }

  /** The one value of a key that may not repeat is one the policy allows. */
  lemma SingleValue(es: seq<Entry>, section: string, key: string) returns (value: string)
    requires Sound(es) && key !in REPEATABLE && Values(es, section, key) != []
    ensures Values(es, section, key) == [value] && ValueAllowed(section, key, value)
    ensures Values(AllStripped(es), section, key) == [Strip(value)]
  {
    hide ValueAllowed, Values, Strip;
    AtMostOnce(es, section, key);
    ValueHasEntry(es, section, key, 0);
    value := Values(es, section, key)[0];
    ValuesOfStripped(es, section, key);
  }

  lemma RequiredDoNotRepeat(key: string)
    ensures key in REQUIRED ==> key !in REPEATABLE
  {
    if key == "DeviceAllow" {
    } else if key == "Environment" {
    }
  }

  // ------------------------------------------------------------------------ words

  /** No space the reader would not split at. */
  predicate IsPlainlySpaced(s: string) {
    forall c <- s :: c as int < 0x80 && c != '\U{0B}' && c != '\U{0C}'
  }

  predicate IsPlainWord(w: string) {
    forall c <- w :: c as int < 0x80 && !IsAsciiSpace(c)
  }

  lemma {:induction false} WordEndBefore(a: string, c: char, b: string)
    requires c in BLANKS
    ensures WordEnd(a + [c] + b) == WordEnd(a)
  {
    var s := a + [c] + b;
    if a != "" && a[0] !in BLANKS {
      assert s[1..] == a[1..] + [c] + b;
      WordEndBefore(a[1..], c, b);
    }
  }

  lemma {:induction false} WordsAroundBlank(a: string, c: char, b: string)
    requires c in BLANKS
    ensures Words(a + [c] + b) == Words(a) + Words(b)
    decreases |a|
  {
    hide WordEnd;
    var s := a + [c] + b;
    if a == "" {
      assert s[1..] == b;
    } else if a[0] in BLANKS {
      assert s[1..] == a[1..] + [c] + b;
      WordsAroundBlank(a[1..], c, b);
    } else {
      var n := WordEnd(a);
      WordEndBefore(a, c, b);
      assert s[..n] == a[..n] && s[n..] == a[n..] + [c] + b;
      WordsAroundBlank(a[n..], c, b);
      assert Words(s) == [s[..n]] + Words(s[n..]);
    }
  }

  lemma {:induction false} WordsOfLeftTrimmed(s: string)
    ensures Words(TrimLeft(s, BLANKS)) == Words(s)
  {
    if s != "" && s[0] in BLANKS {
      WordsOfLeftTrimmed(s[1..]);
    }
  }

  lemma {:induction false} WordsOfRightTrimmed(s: string)
    ensures Words(TrimRight(s, BLANKS)) == Words(s)
  {
    hide Words;
    var n := |s| - 1;
    if s != "" && s[n] in BLANKS {
      WordsOfRightTrimmed(s[..n]);
      WordsAroundBlank(s[..n], s[n], "");
      assert s == s[..n] + [s[n]] + "";
      NoWords();
    }
  }

  lemma NoWords()
    ensures Words("") == []
  {
  }

  lemma WordsOfStripped(s: string)
    ensures Words(Strip(s)) == Words(s)
  {
    WordsOfRightTrimmed(s);
    WordsOfLeftTrimmed(TrimRight(s, BLANKS));
  }

  lemma {:induction false} SameWordLength(s: string)
    requires IsPlainlySpaced(s)
    ensures WordLen(s) == WordEnd(s)
  {
    if s != "" {
      assert s[0] in s && DecodeRune(s) == (s[0] as int, 1);
      if s[0] !in BLANKS {
        assert forall c <- s[1..] :: c in s;
        SameWordLength(s[1..]);
      }
    }
  }

  /** Plainly spaced text splits alike for the policy and for the reader. */
  lemma {:induction false} PlainWordsAreFields(s: string)
    requires IsPlainlySpaced(s)
    ensures Words(s) == Fields(s)
    decreases |s|
  {
    if s != "" {
      assert s[0] in s && DecodeRune(s) == (s[0] as int, 1);
      SameWordLength(s);
      var n := if s[0] in BLANKS then 1 else WordEnd(s);
      assert forall c <- s[n..] :: c in s;
      PlainWordsAreFields(s[n..]);
    }
  }

  /** Every byte that is not a blank lies in a word. */
  lemma {:induction false} BytesLieInWords(s: string, c: char)
    requires c in s && c !in BLANKS
    ensures exists w :: w in Words(s) && c in w
    decreases |s|
  {
    if s[0] in BLANKS {
      assert s == [s[0]] + s[1..];
      BytesLieInWords(s[1..], c);
    } else {
      var n := WordEnd(s);
      assert s == s[..n] + s[n..];
      if c in s[..n] {
        assert s[..n] in Words(s);
      } else {
        BytesLieInWords(s[n..], c);
      }
    }
  }

  lemma PlainWordsPlainText(s: string)
    requires forall w <- Words(s) :: IsPlainWord(w)
    ensures IsPlainlySpaced(s)
  {
    forall c | c in s
      ensures c as int < 0x80 && c != '\U{0B}' && c != '\U{0C}'
    {
      if c !in BLANKS {
        BytesLieInWords(s, c);
      }
    }
  }

  /** The policy permits plain words only. */
  lemma PermittedWordsArePlain(section: string, key: string, value: string, words: seq<string>)
    requires IsList(section, key) && Permits(section, key, value, words)
    ensures forall w <- words :: IsPlainWord(w)
  {
    forall w | w in words
      ensures IsPlainWord(w)
    {
      ListedWord(section, key, value, words, w);
    }
  }

  lemma ListedWord(section: string, key: string, value: string, words: seq<string>, w: string)
    requires IsList(section, key) && Permits(section, key, value, words) && w in words
    ensures IsPlainWord(w)
  {
    if section == "Unit" {
      UnitTokenIsPlain(w);
    } else if key == "SupplementaryGroups" {
      assert w == "video" || w == "render" || w == "input";
    } else if key == "ExecStart" {
      assert ExecTokenAllowed(w);
    }
  }

  lemma UnitTokenIsPlain(w: string)
    requires IsUnitToken(w)
    ensures IsPlainWord(w)
  {
    if IsDotted(w, ".target") {
      DottedIsPlain(w, ".target");
    } else if IsDotted(w, ".service") {
      DottedIsPlain(w, ".service");
    } else {
      DottedIsPlain(w, ".socket");
    }
  }

  lemma DottedChar(c: char)
    requires IsLetter(c) || IsDigit(c) || c in "@._-"
    ensures c as int < 0x80 && !IsAsciiSpace(c)
  {
    if c in "@._-" {
      assert c == '@' || c == '.' || c == '_' || c == '-';
    }
  }

  lemma DottedIsPlain(w: string, suffix: string)
    requires IsDotted(w, suffix) && IsPlainWord(suffix)
    ensures IsPlainWord(w)
  {
    var n := |w| - |suffix|;
    assert w == w[..n] + suffix;
    forall c | c in w[..n]
      ensures c as int < 0x80 && !IsAsciiSpace(c)
    {
      DottedChar(c);
    }
    assert forall c <- w :: c in w[..n] || c in suffix;
  }

  /** A list the policy allows is in force for the reader exactly when it is plainly spaced. */
  lemma ListInForceIff(section: string, key: string, value: string)
    requires IsList(section, key) && ValueAllowed(section, key, value)
    ensures Permits(section, key, Strip(value), Words(Strip(value))) <==> IsPlainlySpaced(value)
  {
    hide Strip, Words, Fields;
    WordsOfStripped(value);
    if IsPlainlySpaced(value) {
      PlainWordsAreFields(value);
      ListsGoByWords(section, key, value, Strip(value), Fields(value));
    } else if Permits(section, key, Strip(value), Words(value)) {
      PermittedWordsArePlain(section, key, Strip(value), Words(value));
      PlainWordsPlainText(value);
    }
  }

  lemma ListsGoByWords(section: string, key: string, v: string, w: string, words: seq<string>)
    requires IsList(section, key) && Permits(section, key, v, words)
    ensures Permits(section, key, w, words)
  {
  }

  lemma OthersIgnoreWords(section: string, key: string, v: string, words: seq<string>, words': seq<string>)
    requires !IsList(section, key) && Permits(section, key, v, words)
    ensures Permits(section, key, v, words')
  {
  }

  /** And every other value once stripped. */
  lemma OtherInForce(e: Entry)
    requires !IsList(e.section, e.key) && ValueAllowed(e.section, e.key, e.value)
    ensures IsInForce(Stripped(e))
  {
    hide Permits, Strip, Words, Fields, IsFitting;
    StripKeepsAllowed(e.section, e.key, e.value);
    PermittedIff(e.section, e.key, Strip(e.value), Words(Strip(e.value)));
    if !(e.section == "Unit" && e.key == "Description") {
      OthersIgnoreWords(e.section, e.key, Strip(e.value), Fields(Strip(e.value)), Words(Strip(e.value)));
    }
  }

  // ------------------------------------------------------------------------- lines

  function Trimmed(raw: string): string {
    TrimRight(raw, {'\r'})
  }

  /** The lines that are not blank, without the carriage returns they end in. */
  function TextLines(lines: seq<string>): seq<string> {
    if lines == [] then []
    else
      var line := Trimmed(lines[|lines| - 1]);
      TextLines(lines[..|lines| - 1]) + if IsBlank(line) then [] else [line]
  }

  /** Reader and policy see the same lines of text. */
  predicate SameLines(content: string) {
    TextLines(PhysicalLines(content)) == TextLines(Lines(content))
  }

  /** Carriage returns stand at the ends of lines, if anywhere. */
  predicate ReturnsEndLines(content: string) {
    NoReturns(TextLines(Lines(content)))
  }

  predicate NoReturns(lines: seq<string>) {
    forall l <- lines :: '\r' !in l
  }

  lemma {:induction false} TextLinesAppend(a: seq<string>, b: seq<string>)
    ensures TextLines(a + b) == TextLines(a) + TextLines(b)
  {
    hide Trimmed, IsBlank;
    if b == [] {
      assert a + b == a;
    } else {
      assert (a + b)[..|a + b| - 1] == a + b[..|b| - 1];
      TextLinesAppend(a, b[..|b| - 1]);
    }
  }

  lemma OneTextLine(raw: string)
    ensures TextLines([raw]) == if IsBlank(Trimmed(raw)) then [] else [Trimmed(raw)]
  {
    assert [raw][..0] == [];
  }

  /** Blank text is blank on both sides of an ASCII space. */
  lemma {:induction false} BlankAroundSpace(a: string, c: char, b: string)
    requires IsAsciiSpace(c)
    ensures IsBlank(a + [c] + b) <==> IsBlank(a) && IsBlank(b)
    decreases |a|
  {
    hide DecodeRune, IsSpace;
    var s := a + [c] + b;
    if a == "" {
      assert s[0] == c && s[1..] == b;
      SpaceStarts(s);
    } else {
      DecodeBeforeAscii(a, c, b);
      assert SpaceWidth(s) == SpaceWidth(a);
      var w := SpaceWidth(a);
      if w > 0 {
        assert s[w..] == a[w..] + [c] + b;
        BlankAroundSpace(a[w..], c, b);
      }
    }
  }

  lemma {:induction false} BlankUntrimmed(raw: string)
    ensures IsBlank(Trimmed(raw)) <==> IsBlank(raw)
  {
    hide IsBlank;
    var n := |raw| - 1;
    if raw != "" && raw[n] == '\r' {
      BlankUntrimmed(raw[..n]);
      BlankAroundSpace(raw[..n], '\r', "");
      assert raw == raw[..n] + ['\r'] + "";
      NothingIsBlank();
    }
  }

  lemma NothingIsBlank()
    ensures IsBlank("")
  {
  }

  lemma {:induction false} ReturnsAreBlank(s: string)
    requires forall c <- s :: c == '\r'
    ensures IsBlank(s)
  {
    hide IsBlank;
    NothingIsBlank();
    if s != "" {
      assert s[0] in s && s == "" + [s[0]] + s[1..];
      assert forall c <- s[1..] :: c in s;
      ReturnsAreBlank(s[1..]);
      BlankAroundSpace("", s[0], s[1..]);
    }
  }

  lemma BlankSplits(seg: string, rest: string)
    requires IsBlank(seg + ['\r'] + rest)
    ensures TextLines([seg]) == [] == TextLines([rest])
  {
    hide IsBlank;
    BlankAroundSpace(seg, '\r', rest);
    BlankUntrimmed(seg);
    BlankUntrimmed(rest);
    OneTextLine(seg);
    OneTextLine(rest);
  }

  lemma TextSplits(raw: string, m: nat)
    requires m < |raw| && raw[m] == '\r' && '\r' !in raw[..m] && '\r' !in Trimmed(raw)
    ensures Trimmed(raw) == raw[..m] && TextLines([raw[m + 1..]]) == []
  {
    var rest := raw[m + 1..];
    var tail := TrimmedTail(raw, {'\r'});
    StopsBefore(Trimmed(raw), raw, m);
    SegmentIsTrimmed(raw, m);
    assert rest == tail[1..];
    assert forall c <- rest :: c in tail;
    ReturnsAreBlank(rest);
    BlankUntrimmed(rest);
    OneTextLine(rest);
  }

  /** A carriage return splits a line into two, unless there is text on both sides of it. */
  lemma SplitAtReturn(raw: string, m: nat)
    requires m < |raw| && raw[m] == '\r' && '\r' !in raw[..m] && NoReturns(TextLines([raw]))
    ensures TextLines([raw]) == TextLines([raw[..m]]) + TextLines([raw[m + 1..]])
    ensures NoReturns(TextLines([raw[m + 1..]]))
  {
    hide IsBlank, TextLines, Trimmed;
    var seg, rest := raw[..m], raw[m + 1..];
    OneTextLine(raw);
    BlankUntrimmed(raw);
    assert raw == seg + ['\r'] + rest;
    if IsBlank(raw) {
      BlankSplits(seg, rest);
    } else {
      assert Trimmed(raw) in TextLines([raw]);
      TextSplits(raw, m);
      NothingTrimmed(seg);
      OneTextLine(seg);
      assert TextLines([seg]) + [] == TextLines([seg]);
    }
  }

  lemma StopsBefore(s: string, raw: string, m: nat)
    requires s <= raw && m < |raw| && raw[m] !in s
    ensures |s| <= m
  {
    assert forall i | 0 <= i < |s| :: s[i] == raw[i] && s[i] in s;
  }

  lemma NothingTrimmed(s: string)
    requires '\r' !in s
    ensures Trimmed(s) == s
  {
    if s != "" {
      assert s[|s| - 1] in s;
    }
  }

  lemma SegmentIsTrimmed(raw: string, m: nat)
    requires m < |raw| && '\r' !in raw[..m] && |Trimmed(raw)| <= m
    ensures Trimmed(raw) == raw[..m]
  {
    var tail := TrimmedTail(raw, {'\r'});
    var extra := tail[..m - |Trimmed(raw)|];
    assert raw[..m] == Trimmed(raw) + extra;
    assert forall c <- extra :: c in tail && c in raw[..m];
    FirstIsIn(extra);
  }

  lemma FirstIsIn(s: string)
    ensures s != "" ==> s[0] in s
  {
  }

  /** The reader's first line ends with the policy's line. */
  lemma WholeLine(raw: string, tail: string)
    requires LineEnd(raw + tail) == |raw| && (tail == "" || tail[0] == '\n')
    ensures TextLines(PhysicalLines(raw + tail))
         == TextLines([raw]) + if tail == "" then [] else TextLines(PhysicalLines(tail[1..]))
  {
    hide TextLines, PhysicalLines, LineEnd;
    var s := raw + tail;
    FirstPhysicalLine(s);
    assert s[..|raw|] == raw && s[|raw|..] == tail;
    if tail == "" {
      assert s == raw && PhysicalLines(s) == [raw];
      assert TextLines([raw]) + [] == TextLines([raw]);
    } else {
      assert EndWidth(tail) == 1 && s[|raw| + 1..] == tail[1..];
      TextLinesAppend([raw], PhysicalLines(tail[1..]));
    }
  }

  lemma SlicesAround(seg: string, after: string)
    ensures var s := seg + "\r" + after;
            s[..|seg|] == seg && s[|seg|..] == "\r" + after && s[|seg| + 1..] == after
  {
  }

  lemma ReturnWidth(after: string)
    ensures EndWidth("\r" + after) == if after != "" && after[0] == '\n' then 2 else 1
  {
    var s := "\r" + after;
    assert s[0] == '\r' && (after != "" ==> s[1] == after[0]);
  }

  /** The reader's first line ends at a carriage return, and at a line feed right after it. */
  lemma ReturnEndsLine(seg: string, after: string)
    requires LineEnd(seg + "\r" + after) == |seg|
    ensures TextLines(PhysicalLines(seg + "\r" + after))
         == TextLines([seg]) + TextLines(PhysicalLines(if after != "" && after[0] == '\n' then after[1..] else after))
  {
    hide TextLines, PhysicalLines, LineEnd, EndWidth;
    var s := seg + "\r" + after;
    FirstPhysicalLine(s);
    SlicesAround(seg, after);
    ReturnWidth(after);
    var rest := if after != "" && after[0] == '\n' then after[1..] else after;
    assert s[|seg| + EndWidth(s[|seg|..])..] == rest;
    TextLinesAppend([seg], PhysicalLines(rest));
  }

  /** The reader's lines of one policy line and what follows it. */
  lemma {:induction false} LinesOfOne(raw: string, tail: string)
    requires '\n' !in raw && (tail == "" || tail[0] == '\n') && NoReturns(TextLines([raw]))
    ensures TextLines(PhysicalLines(raw + tail))
         == TextLines([raw]) + if tail == "" then [] else TextLines(PhysicalLines(tail[1..]))
    decreases |raw|
  {
    hide TextLines, NoReturns, PhysicalLines, LineEnd;
    var m := LineEndIn(raw, tail);
    if m == |raw| {
      WholeLine(raw, tail);
    } else {
      var seg, rest := raw[..m], raw[m + 1..];
      assert raw + tail == seg + "\r" + (rest + tail);
      SplitAtReturn(raw, m);
      if rest == "" && tail != "" {
        assert rest + tail == tail;
        ReturnEndsLine(seg, tail);
        EmptyTextLine();
        assert TextLines([seg]) + [] == TextLines([seg]);
      } else {
        assert rest != "" ==> rest[0] in raw && (rest + tail)[0] == rest[0];
        ReturnEndsLine(seg, rest + tail);
        LinesOfOne(rest, tail);
      }
    }
  }

  lemma EmptyTextLine()
    ensures TextLines([""]) == []
  {
    OneTextLine("");
  }

  lemma {:induction false} LineEndsInTime(raw: string, tail: string)
    requires tail == "" || tail[0] == '\n'
    ensures LineEnd(raw + tail) <= |raw|
  {
    if raw == "" {
      assert raw + tail == tail;
    } else {
      assert (raw + tail)[1..] == raw[1..] + tail;
      LineEndsInTime(raw[1..], tail);
    }
  }

  lemma LineEndIn(raw: string, tail: string) returns (m: nat)
    requires '\n' !in raw && (tail == "" || tail[0] == '\n')
    ensures m == LineEnd(raw + tail) <= |raw| && '\r' !in raw[..m]
    ensures m < |raw| ==> raw[m] == '\r'
  {
    hide LineEnd;
    LineEndsInTime(raw, tail);
    m := LineEnd(raw + tail);
    assert (raw + tail)[..m] == raw[..m];
    assert m < |raw| ==> raw[m] in raw;
  }

  lemma {:induction false} LinesAgree(s: string)
    requires NoReturns(TextLines(Lines(s)))
    ensures TextLines(PhysicalLines(s)) == TextLines(Lines(s))
    decreases |s|
  {
    hide TextLines, PhysicalLines;
    var n := LineLen(s);
    var raw, tail := s[..n], s[n..];
    assert s == raw + tail;
    if n == |s| {
      assert raw == s && Lines(s) == [s];
      LinesOfOne(raw, tail);
      assert TextLines([raw]) + [] == TextLines([raw]);
    } else {
      var rest := Lines(s[n + 1..]);
      assert Lines(s) == [raw] + rest && tail[1..] == s[n + 1..];
      TextLinesAppend([raw], rest);
      assert forall l <- TextLines([raw]) :: l in TextLines(Lines(s));
      assert forall l <- TextLines(rest) :: l in TextLines(Lines(s));
      LinesOfOne(raw, tail);
      LinesAgree(s[n + 1..]);
    }
  }

  lemma {:induction false} TextLinesHoldNoReturn(lines: seq<string>)
    requires forall l <- lines :: '\r' !in l
    ensures NoReturns(TextLines(lines))
  {
    hide IsBlank;
    if lines != [] {
      TextLinesHoldNoReturn(lines[..|lines| - 1]);
      NothingTrimmed(lines[|lines| - 1]);
    }
  }

  /** The reader's lines are the policy's exactly when no line holds an inner return. */
  lemma SameLinesIff(content: string)
    ensures SameLines(content) <==> ReturnsEndLines(content)
  {
    hide TextLines, Lines;
    if ReturnsEndLines(content) {
      LinesAgree(content);
    } else {
      LinesHoldNoReturn(content);
      TextLinesHoldNoReturn(PhysicalLines(content));
    }
  }

  // ------------------------------------------------------------- reading text lines

  lemma {:induction false} TrimmedTwice(raw: string)
    ensures Trimmed(Trimmed(raw)) == Trimmed(raw)
  {
    TrimRightTwice(raw, {'\r'}, {'\r'});
  }

  lemma LineOfTrimmed(raw: string)
    ensures LineOf(Trimmed(raw)) == LineOf(raw)
    ensures LineOf(raw).Blank? <==> IsBlank(Trimmed(raw))
  {
    hide IsBlank, LeadingLetters;
    TrimmedTwice(raw);
  }

  /** Blank lines say nothing to the policy. */
  lemma {:induction false} ReadPlainOfText(lines: seq<string>)
    ensures ReadPlain(TextLines(lines)) == ReadPlain(lines)
  {
    hide LineOf, IsBlank, Trimmed;
    if lines != [] {
      var n := |lines| - 1;
      ReadPlainOfText(lines[..n]);
      LineOfTrimmed(lines[n]);
      var before := TextLines(lines[..n]);
      if IsBlank(Trimmed(lines[n])) {
        assert TextLines(lines) == before;
      } else {
        assert TextLines(lines) == before + [Trimmed(lines[n])];
        assert TextLines(lines)[..|before|] == before;
      }
    }
  }

  /** Where the lines are the same, the reader finds the policy's entries. */
  lemma ReaderFindsTheEntries(content: string)
    requires SameLines(content) && ReadPlain(Lines(content)).Some?
    ensures var u := ReadUnit(content);
            !u.refused && u.entries == AllStripped(ReadPlain(Lines(content)).value.entries)
  {
    hide ReadPlain, ReadLines, Lines, PhysicalLines, AllStripped, TextLines;
    ReadPlainOfText(PhysicalLines(content));
    ReadPlainOfText(Lines(content));
    ReadingsAgree(PhysicalLines(content));
  }

  // ------------------------------------------------------------------- soundness

  /** Every list is split at blanks alone. */
  predicate ListsArePlain(es: seq<Entry>) {
    forall e <- es | IsList(e.section, e.key) :: IsPlainlySpaced(e.value)
  }

  lemma CommandIsListed(value: string)
    requires ValueAllowed("Service", "ExecStart", value) && IsPlainlySpaced(value)
    ensures RunsOneListedBinary([Strip(value)])
  {
    hide Fields, Words, Strip, IsPlainlySpaced, CommandAllowed, IsPlainCommand;
    WordsOfStripped(value);
    PlainWordsAreFields(value);
    CommandIff(Words(value));
  }

  lemma CommandIsAList()
    ensures IsList("Service", "ExecStart")
  {
  }

  lemma DirectivesInForce(es: seq<Entry>)
    requires Sound(es) && Complete(es) && ListsArePlain(es)
    ensures forall k <- REQUIRED :: Values(AllStripped(es), "Service", k) == [REQUIRED[k]]
    ensures Values(AllStripped(es), "Install", "WantedBy") == ["multi-user.target"]
    ensures |Values(AllStripped(es), "Unit", "Description")| == 1
    ensures RunsOneListedBinary(Values(AllStripped(es), "Service", "ExecStart"))
  {
    hide Values, Strip, Sound, CommandAllowed, Fields, IsPlainlySpaced, IsList, RunsOneListedBinary;
    forall k | k in REQUIRED
      ensures Values(AllStripped(es), "Service", k) == [REQUIRED[k]]
    {
      RequiredDoNotRepeat(k);
      var v := SingleValue(es, "Service", k);
      StripKeepsAllowed("Service", k, v);
    }
    var w := SingleValue(es, "Install", "WantedBy");
    StripKeepsAllowed("Install", "WantedBy", w);
    var d := SingleValue(es, "Unit", "Description");
    var x := SingleValue(es, "Service", "ExecStart");
    CommandIsAList();
    ValueHasEntry(es, "Service", "ExecStart", 0);
    CommandIsListed(x);
  }

  lemma EntriesInForceIff(es: seq<Entry>)
    requires Sound(es)
    ensures (forall e <- AllStripped(es) :: IsInForce(e)) <==> ListsArePlain(es)
  {
    hide Values, Strip, ValueAllowed, Permits, IsList, IsInForce, IsPlainlySpaced;
    var stripped := AllStripped(es);
    forall i | 0 <= i < |es|
      ensures stripped[i] == Stripped(es[i]) && es[i] in es && stripped[i] in stripped
      ensures IsInForce(stripped[i]) <==> (IsList(es[i].section, es[i].key) ==> IsPlainlySpaced(es[i].value))
    {
      assert es[i] in es;
      OneInForceIff(es[i]);
    }
  }

  lemma OneInForceIff(e: Entry)
    requires ValueAllowed(e.section, e.key, e.value)
    ensures IsInForce(Stripped(e)) <==> (IsList(e.section, e.key) ==> IsPlainlySpaced(e.value))
  {
    hide Strip, ValueAllowed, Permits, Words, IsPlainlySpaced, IsFitting;
    if IsList(e.section, e.key) {
      ListInForceIff(e.section, e.key, e.value);
      PermittedIff(e.section, e.key, Strip(e.value), Words(Strip(e.value)));
    } else {
      OtherInForce(e);
    }
  }

  lemma NothingIsRepeated(es: seq<Entry>)
    requires Sound(es)
    ensures forall e <- AllStripped(es) ::
              e.key in REPEATABLE || Values(AllStripped(es), e.section, e.key) == [e.value]
  {
    hide Values, Strip, ValueAllowed;
    var stripped := AllStripped(es);
    forall e | e in stripped
      ensures e.key in REPEATABLE || Values(stripped, e.section, e.key) == [e.value]
    {
      var i :| 0 <= i < |stripped| && stripped[i] == e;
      if e.key !in REPEATABLE {
        AtMostOnce(es, e.section, e.key);
        ValuesOfStripped(es, e.section, e.key);
        OnlyValue(stripped, e);
      }
    }
  }

  lemma HardenedIff(es: seq<Entry>)
    requires Sound(es) && Complete(es)
    ensures Hardened(AllStripped(es)) <==> ListsArePlain(es)
  {
    hide Sound, Complete, Values, IsInForce, ListsArePlain, RunsOneListedBinary, AllStripped;
    EntriesInForceIff(es);
    if ListsArePlain(es) {
      DirectivesInForce(es);
      NothingIsRepeated(es);
      RequiredByName();
    }
  }

  lemma RequiredByName()
    ensures forall d <- ["DynamicUser", "NoNewPrivileges", "ProtectHome", "PrivateTmp", "RestrictSUIDSGID"] ::
              d in REQUIRED && REQUIRED[d] == "yes"
    ensures "ProtectSystem" in REQUIRED && REQUIRED["ProtectSystem"] == "strict"
    ensures "DevicePolicy" in REQUIRED && REQUIRED["DevicePolicy"] == "closed"
  {
  }

  /** The reader sees an accepted unit line by line as the policy did, and finds it
      hardened, exactly when no line holds a carriage return between its text and every
      list in it (the command, groups, families and unit names) is split by blanks and not
      by the other white space the policy splits at. */
  lemma AcceptedIsHardenedIff(name: string, content: string)
    requires Conforms(name, content)
    ensures SameLines(content) && !ReadUnit(content).refused && Hardened(ReadUnit(content).entries)
       <==> ReturnsEndLines(content) && ListsArePlain(ReadPlain(Lines(content)).value.entries)
  {
    hide Sound, Complete, ReadPlain, ReadUnit, SameLines, ReturnsEndLines, Lines, Hardened, ListsArePlain, AllStripped;
    SameLinesIff(content);
    if SameLines(content) {
      ReaderFindsTheEntries(content);
      HardenedIff(ReadPlain(Lines(content)).value.entries);
    }
  }
}
