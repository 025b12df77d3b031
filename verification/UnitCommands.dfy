// What the unit reader finds in the units the generator writes: their command and
// its words. And the units in which the policy and the reader part ways.
module UnitCommands {
  import opened Wrappers
  import opened Utf8
  import opened GoStrings
  import opened UnitPolicy
  import opened UnitReader
  import opened UnitSoundness
  import opened ManagedUnit
  import opened UnitAgreement

  // ------------------------------------------------------------------- the command

  /** A non-empty string without blanks. */
  predicate IsReaderWord(s: string) {
    s != "" && forall c <- s :: c !in BLANKS
  }

  function ArgWords(args: seq<string>): seq<string> {
    if args == [] then [] else ArgWords(args[..|args| - 1]) + Words(args[|args| - 1])
  }

  lemma {:induction false} WordsOfSpaced(first: string, others: seq<string>)
    ensures Words(Spaced(first, others)) == Words(first) + ArgWords(others)
  {
    hide Words;
    if others != [] {
      var shorter := others[..|others| - 1];
      WordsOfSpaced(first, shorter);
      WordsAroundBlank(Spaced(first, shorter), ' ', others[|others| - 1]);
    }
  }

  lemma {:induction false} WordsHoldNoBlank(s: string)
    ensures forall w <- Words(s) :: IsReaderWord(w)
    decreases |s|
  {
    if s != "" {
      WordsHoldNoBlank(s[if s[0] in BLANKS then 1 else WordEnd(s)..]);
    }
  }

  lemma {:induction false} NoBlankNoEnd(s: string)
    requires forall c <- s :: c !in BLANKS
    ensures WordEnd(s) == |s|
  {
    if s != "" {
      assert s[0] in s && forall c <- s[1..] :: c in s;
      NoBlankNoEnd(s[1..]);
    }
  }

  lemma ReaderWordIsItsOnlyWord(s: string)
    ensures Words(s) == [s] <==> IsReaderWord(s)
  {
    WordsHoldNoBlank(s);
    if IsReaderWord(s) {
      NoBlankNoEnd(s);
      assert s[0] in s && s[..|s|] == s && s[|s|..] == "";
      assert Words(s) == [s] + Words("");
    }
    assert s in [s];
  }

  lemma {:induction false} ArgWordsHoldNoBlank(args: seq<string>)
    ensures forall w <- ArgWords(args) :: IsReaderWord(w)
  {
    hide Words, IsReaderWord;
    if args != [] {
      ArgWordsHoldNoBlank(args[..|args| - 1]);
      WordsHoldNoBlank(args[|args| - 1]);
    }
  }

  lemma {:induction false} ReaderWordsAreTheirOwn(args: seq<string>)
    requires forall a <- args :: IsReaderWord(a)
    ensures ArgWords(args) == args
  {
    hide Words, IsReaderWord;
    if args != [] {
      ReaderWordsAreTheirOwn(args[..|args| - 1]);
      ReaderWordIsItsOnlyWord(args[|args| - 1]);
    }
  }

  /** Split at blanks, the command gives the arguments back exactly when none is empty
      and none holds a blank. */
  lemma ReaderArgvComesBackIff(bin: string, args: seq<string>)
    requires IsReaderWord(bin)
    ensures Words(Spaced(bin, args)) == [bin] + ArgWords(args)
    ensures Words(Spaced(bin, args)) == [bin] + args <==> forall a <- args :: IsReaderWord(a)
  {
    hide Words, IsReaderWord, ArgWords;
    WordsOfSpaced(bin, args);
    ReaderWordIsItsOnlyWord(bin);
    if Words(Spaced(bin, args)) == [bin] + args {
      assert ([bin] + args)[1..] == args && ([bin] + ArgWords(args))[1..] == ArgWords(args);
      ArgWordsHoldNoBlank(args);
    } else if forall a <- args :: IsReaderWord(a) {
      ReaderWordsAreTheirOwn(args);
    }
  }

  lemma {:induction false} SpacedIsPlainIff(first: string, others: seq<string>)
    ensures IsPlainlySpaced(Spaced(first, others))
       <==> IsPlainlySpaced(first) && forall o <- others :: IsPlainlySpaced(o)
  {
    hide IsPlainlySpaced;
    if others != [] {
      var shorter, last := others[..|others| - 1], others[|others| - 1];
      SpacedIsPlainIff(first, shorter);
      assert others == shorter + [last];
      PlainTogether(Spaced(first, shorter), last);
    }
  }

  lemma PlainTogether(a: string, b: string)
    ensures IsPlainlySpaced(a + " " + b) <==> IsPlainlySpaced(a) && IsPlainlySpaced(b)
  {
    var s := a + " " + b;
    assert forall c <- a :: c in s;
    assert forall c <- b :: c in s;
    assert forall c <- s :: c in a || c == ' ' || c in b;
  }

  // ----------------------------------------------------------- lists of a generated unit

  lemma ListsTogether(a: seq<Entry>, b: seq<Entry>)
    ensures ListsArePlain(a + b) <==> ListsArePlain(a) && ListsArePlain(b)
  {
    hide IsPlainlySpaced, IsList;
    assert forall e :: e in a + b <==> e in a || e in b;
  }

  lemma BinaryIsPlain(ms: Spec)
    requires ValidSpec(ms)
    ensures IsPlainlySpaced(BinPath(ms)) && IsReaderWord(BinPath(ms))
  {
    BinaryIsToken(ms);
    TokenIsPlain(BinPath(ms));
  }

  lemma TokenIsPlain(s: string)
    requires ExecTokenAllowed(s)
    ensures IsPlainlySpaced(s) && IsReaderWord(s)
  {
    hide HasDotDot;
    forall c | c in s
      ensures c as int < 0x80 && !IsAsciiSpace(c)
    {
      assert IsExecChar(c);
    }
  }

  lemma CommandListsPlainIff(ms: Spec)
    requires ValidSpec(ms)
    ensures ListsArePlain(CommandEntries(ms)) <==> forall a <- ms.args :: IsPlainlySpaced(a)
  {
    hide IsPlainlySpaced, ValidSpec, BinPath, Spaced;
    BinaryIsPlain(ms);
    SpacedIsPlainIff(BinPath(ms), ms.args);
    CommandIsAList();
    TypeIsNoList();
    var es := CommandEntries(ms);
    assert es[1] in es && es[1] == Service("ExecStart", Spaced(BinPath(ms), ms.args));
  }

  lemma TypeIsNoList()
    ensures !IsList("Service", "Type")
  {
  }

  lemma HardeningIsNoList()
    ensures ListsArePlain(HardeningEntries())
  {
    forall e | e in HardeningEntries()
      ensures !IsList(e.section, e.key)
    {
      var i :| 0 <= i < 7 && HardeningEntries()[i] == e;
      HardeningEntry(i);
      ListsAreNotRequired(e.key);
    }
  }

  lemma DevicesAreNoList(devices: seq<string>)
    requires forall d <- devices :: d in DEVICE_RULES
    ensures ListsArePlain(DeviceEntries(devices))
  {
    assert !IsList("Service", "DeviceAllow");
  }

  lemma GroupListIsPlain(groups: seq<string>)
    requires forall g <- groups :: g in ALLOWED_GROUPS
    ensures ListsArePlain(GroupEntries(groups))
  {
    hide IsPlainlySpaced, Spaced;
    if groups != [] {
      forall g | g in groups
        ensures IsPlainlySpaced(g)
      {
        GroupIsPlain(g);
      }
      SpacedIsPlainIff(groups[0], groups[1..]);
    }
  }

  lemma GroupIsPlain(g: string)
    requires g in ALLOWED_GROUPS
    ensures IsPlainlySpaced(g)
  {
    assert g == "video" || g == "render" || g == "input";
  }

  lemma HardwareListsArePlain(ms: Spec)
    requires ValidSpec(ms)
    ensures ListsArePlain(HardwareEntries(ms))
  {
    hide DeviceEntries, GroupEntries, SortStrings, ListsArePlain;
    if ms.hardware.Some? {
      var d, g := ms.hardware.value.devices, ms.hardware.value.groups;
      SortStringsKeepsMembers(d);
      SortStringsKeepsMembers(g);
      DevicesAreNoList(SortStrings(d));
      GroupListIsPlain(SortStrings(g));
      ListsTogether(DeviceEntries(SortStrings(d)), GroupEntries(SortStrings(g)));
    } else {
      NoLists();
    }
  }

  lemma NoLists()
    ensures ListsArePlain([])
  {
  }

  lemma StateListsArePlain(id: string)
    ensures ListsArePlain(StateEntries(id))
  {
    assert IsPlainlySpaced("AF_UNIX AF_INET AF_INET6");
    assert !IsList("Service", "StateDirectory") && !IsList("Service", "Restart") && !IsList("Service", "RestartSec");
  }

  lemma EnvIsNoList(env: map<string, string>, keys: seq<string>)
    requires forall k <- keys :: k in env
    ensures ListsArePlain(EnvEntries(env, keys))
  {
    assert !IsList("Service", "Environment");
  }

  lemma NamesOfNoLists()
    ensures !IsList("Unit", "Description") && !IsList("Install", "WantedBy")
    ensures IsPlainlySpaced("network-online.target")
  {
  }

  lemma UnitListsArePlain(unit: seq<Entry>)
    requires IsUnitSection(unit)
    ensures ListsArePlain(unit) && ListsArePlain(InstallEntries())
  {
    hide HasSuffix, IsList, IsPlainlySpaced;
    NamesOfNoLists();
  }

  /** The lists of a generated unit are plain exactly when its arguments are. */
  lemma GeneratedListsPlainIff(unit: seq<Entry>, id: string, ms: Spec)
    requires ValidSpec(ms) && IsUnitSection(unit)
    ensures ListsArePlain(EntriesWith(unit, id, ms)) <==> forall a <- ms.args :: IsPlainlySpaced(a)
  {
    UnitListsArePlain(unit);
    hide ListsArePlain, ValidSpec, CommandEntries, HardeningEntries, HardwareEntries, StateEntries, IsUnitSection;
    KeysInOrderHoldTheKeys(ms.env.Keys);
    var c, h, w, s := CommandEntries(ms), HardeningEntries(), HardwareEntries(ms), StateEntries(id);
    var e := EnvEntries(ms.env, KeysInOrder(ms.env.Keys));
    CommandListsPlainIff(ms);
    HardeningIsNoList();
    HardwareListsArePlain(ms);
    StateListsArePlain(id);
    EnvIsNoList(ms.env, KeysInOrder(ms.env.Keys));
    ListsTogether(c, h);
    ListsTogether(c + h, w);
    ListsTogether(c + h + w, s);
    ListsTogether(c + h + w + s, e);
    ListsTogether(unit, ServiceEntries(id, ms));
    ListsTogether(unit + ServiceEntries(id, ms), InstallEntries());
  }

  // ------------------------------------------------------- reading a generated unit

  lemma KeyValuesHoldNoReturn(es: seq<Entry>, section: string)
    requires IsHarmless(es, section)
    ensures NoReturns(KeyValues(es))
  {
    forall l | l in KeyValues(es)
      ensures '\r' !in l
    {
      var i :| 0 <= i < |es| && KeyValues(es)[i] == l;
      assert es[i] in es;
    }
  }

  lemma NoReturnsTogether(a: seq<string>, b: seq<string>)
    requires NoReturns(a) && NoReturns(b)
    ensures NoReturns(a + b)
  {
    assert forall l <- a + b :: l in a || l in b;
  }

  lemma GeneratedLinesHoldNoReturn(unit: seq<Entry>, id: string, ms: Spec)
    requires ValidSpec(ms) && IsInstanceToken(id) && IsHarmless(unit, "Unit")
    ensures NoReturns(LinesWith(unit, id, ms) + [""])
  {
    ServiceAllowedIff(id, ms);
    InstallIsHarmless();
    HeadersHoldNoReturn();
    hide NoReturns, ValidSpec, ServiceEntries, IsHarmless;
    var u, s, i := KeyValues(unit), KeyValues(ServiceEntries(id, ms)), KeyValues(InstallEntries());
    KeyValuesHoldNoReturn(unit, "Unit");
    KeyValuesHoldNoReturn(ServiceEntries(id, ms), "Service");
    KeyValuesHoldNoReturn(InstallEntries(), "Install");
    NoReturnsTogether(["[Unit]"], u);
    NoReturnsTogether(["[Unit]"] + u, ["", "[Service]"]);
    NoReturnsTogether(["[Unit]"] + u + ["", "[Service]"], s);
    NoReturnsTogether(["[Unit]"] + u + ["", "[Service]"] + s, ["", "[Install]"]);
    NoReturnsTogether(["[Unit]"] + u + ["", "[Service]"] + s + ["", "[Install]"], i);
    NoReturnsTogether(LinesWith(unit, id, ms), [""]);
  }

  lemma HeadersHoldNoReturn()
    ensures NoReturns(["[Unit]"]) && NoReturns(["", "[Service]"]) && NoReturns(["", "[Install]"]) && NoReturns([""])
  {
  }

  /** Line by line the reader sees a generated unit as the policy does. */
  lemma GeneratedSameLines(id: string, ms: Spec)
    requires ValidSpec(ms) && IsInstanceToken(id)
    ensures SameLines(UnitText(id, ms))
  {
    hide ValidSpec, UnitEntries, ServiceEntries, IsUnitSection, Terminated, Lines, TextLines, SameLines;
    UnitEntriesAreASection(id, ms);
    GeneratedPassesIff(UnitEntries(id, ms), id, ms);
    GeneratedLinesHoldNoReturn(UnitEntries(id, ms), id, ms);
    TextLinesHoldNoReturn(UnitLines(id, ms) + [""]);
    SameLinesIff(UnitText(id, ms));
  }

  /** The reader finds one command in the entries, and its words are the pinned binary
      and the words of the arguments: the arguments themselves exactly when none is empty
      and none holds a blank. */
  predicate RunsArguments(es: seq<Entry>, ms: Spec)
    requires ValidSpec(ms)
  {
    var commands := Values(es, "Service", "ExecStart");
    && |commands| == 1 && Words(commands[0]) == [BinPath(ms)] + ArgWords(ms.args)
    && (Words(commands[0]) == [BinPath(ms)] + ms.args <==> forall a <- ms.args :: IsReaderWord(a))
  }

  lemma CommandIsSingle(unit: seq<Entry>, id: string, ms: Spec)
    requires ValidSpec(ms) && IsUnitSection(unit)
    requires Sound(EntriesWith(unit, id, ms)) && Complete(EntriesWith(unit, id, ms))
    ensures Values(EntriesWith(unit, id, ms), "Service", "ExecStart") == [Spaced(BinPath(ms), ms.args)]
  {
    hide Values, Sound, ServiceEntries, ValidSpec, Spaced, BinPath, IsUnitSection;
    NamedEntries(unit, id, ms);
    OnlyValue(EntriesWith(unit, id, ms), Service("ExecStart", CommandEntries(ms)[1].value));
  }

  lemma GeneratedCommand(id: string, ms: Spec)
    requires ValidSpec(ms) && IsInstanceToken(id)
    requires Sound(AllEntries(id, ms)) && Complete(AllEntries(id, ms))
    ensures RunsArguments(AllStripped(AllEntries(id, ms)), ms)
  {
    hide Sound, Complete, EntriesWith, Values, BinPath, Spaced, ValidSpec, Words, ArgWords, IsReaderWord, Strip, AllStripped;
    hide IsUnitSection, UnitEntries;
    UnitEntriesAreASection(id, ms);
    CommandIsSingle(UnitEntries(id, ms), id, ms);
    ValuesOfStripped(AllEntries(id, ms), "Service", "ExecStart");
    var x := Spaced(BinPath(ms), ms.args);
    WordsOfStripped(x);
    BinaryIsPlain(ms);
    ReaderArgvComesBackIff(BinPath(ms), ms.args);
  }

  /** In an accepted generated unit the reader finds the lines the policy saw and one
      command, the binary and the words of its arguments; and it finds the unit hardened
      exactly when no argument holds white space other than blanks. */
  lemma GeneratedUnitRunsItsArguments(id: string, ms: Spec)
    requires ValidSpec(ms)
    ensures Conforms(UnitName(id), UnitText(id, ms)) ==>
              var u := ReadUnit(UnitText(id, ms));
              && SameLines(UnitText(id, ms)) && !u.refused && RunsArguments(u.entries, ms)
              && (Hardened(u.entries) <==> forall a <- ms.args :: IsPlainlySpaced(a))
  {
    hide Conforms, ValidSpec, RunsArguments, EntriesWith, UnitEntries, IsPlainlySpaced, SameLines, Hardened, ListsArePlain;
    hide IsUnitSection, Terminated, LinesWith, Lines, ReadUnit, AllStripped, Complete, Sound, ReadPlain, IsInstanceToken;
    if Conforms(UnitName(id), UnitText(id, ms)) {
      NameFitsIff(id);
      NameMustFit(id, UnitText(id, ms));
      UnitEntriesAreASection(id, ms);
      AcceptedEntries(UnitEntries(id, ms), id, ms);
      GeneratedSameLines(id, ms);
      ReaderFindsTheEntries(UnitText(id, ms));
      GeneratedCommand(id, ms);
      HardenedIff(AllEntries(id, ms));
      GeneratedListsPlainIff(UnitEntries(id, ms), id, ms);
    }
  }

  lemma AcceptedEntries(unit: seq<Entry>, id: string, ms: Spec)
    requires ValidSpec(ms) && IsUnitSection(unit) && IsInstanceToken(id)
    requires Conforms(UnitName(id), Terminated(LinesWith(unit, id, ms)))
    ensures var text := Terminated(LinesWith(unit, id, ms));
            && ReadPlain(Lines(text)) == Some(Reading("Install", EntriesWith(unit, id, ms)))
            && Sound(EntriesWith(unit, id, ms)) && Complete(EntriesWith(unit, id, ms))
  {
    hide ValidName, ReadPlain, Lines, Terminated, LinesWith, EntriesWith, IsUnitSection, ValidSpec, Complete, Sound;
    hide ArgsAllowed, EnvAllowed, IsInstanceToken, UnitName;
    GeneratedPassesIff(unit, id, ms);
  }

  // --------------------------------------------- where policy and reader part ways

  function Zeros(n: nat): string {
    seq(n, _ => '0')
  }

  function SampleSpec(args: seq<string>): Spec {
    Spec("", "mediamtx", "https://github.com/", true, "sha256:" + Zeros(64), "", args, map[], None, [])
  }

  lemma SampleIsValid(args: seq<string>)
    requires forall a <- args :: !HasControls(a)
    ensures ValidSpec(SampleSpec(args)) && |BinPath(SampleSpec(args))| == 96
  {
    var digest := "sha256:" + Zeros(64);
    assert digest[7..] == Zeros(64);
  }

  predicate AreShort(es: seq<Entry>) {
    |es| <= 8 && forall e <- es :: |e.key| + |e.value| < 200
  }

  lemma {:induction false} TerminatedLength(lines: seq<string>)
    requires forall l <- lines :: |l| <= 200
    ensures |Terminated(lines)| <= 201 * |lines|
  {
    if lines != [] {
      assert lines[0] in lines && forall l <- lines[1..] :: l in lines;
      TerminatedLength(lines[1..]);
    }
  }

  lemma ShortKeyValues(es: seq<Entry>)
    requires AreShort(es)
    ensures |KeyValues(es)| <= 8 && forall l <- KeyValues(es) :: |l| <= 200
  {
    forall l | l in KeyValues(es)
      ensures |l| <= 200
    {
      var i :| 0 <= i < |es| && KeyValues(es)[i] == l;
      assert es[i] in es;
    }
  }

  lemma SampleBlocksAreShort(args: seq<string>)
    requires ValidSpec(SampleSpec(args)) && |BinPath(SampleSpec(args))| == 96
    requires args == [] || (|args| == 1 && |args[0]| < 50)
    ensures AreShort(CommandEntries(SampleSpec(args))) && AreShort(HardeningEntries()) && AreShort(StateEntries("a"))
    ensures AreShort(InstallEntries())
  {
    hide ValidSpec, BinPath;
    var ms := SampleSpec(args);
    if args != [] {
      assert args[..0] == [];
      assert Spaced(BinPath(ms), args) == BinPath(ms) + " " + args[0];
    }
  }

  lemma SampleServiceLines(args: seq<string>)
    requires ValidSpec(SampleSpec(args))
    ensures ServiceEntries("a", SampleSpec(args))
         == CommandEntries(SampleSpec(args)) + HardeningEntries() + StateEntries("a")
  {
    hide ValidSpec, CommandEntries, HardeningEntries, StateEntries;
    var ms := SampleSpec(args);
    KeysInOrderHoldTheKeys(ms.env.Keys);
    HeadIsIn(KeysInOrder(ms.env.Keys));
    assert HardwareEntries(ms) == [] && EnvEntries(ms.env, []) == [];
  }

  lemma HeadIsIn(keys: seq<string>)
    ensures keys != [] ==> keys[0] in keys
  {
  }

  lemma SampleIsSmall(unit: seq<Entry>, args: seq<string>)
    requires ValidSpec(SampleSpec(args)) && |BinPath(SampleSpec(args))| == 96 && AreShort(unit)
    requires args == [] || (|args| == 1 && |args[0]| < 50)
    ensures |Terminated(LinesWith(unit, "a", SampleSpec(args)))| <= MAX_UNIT_SIZE
  {
    SampleBlocksAreShort(args);
    SampleServiceLines(args);
    hide ValidSpec, AreShort, CommandEntries, HardeningEntries, StateEntries, ServiceEntries, InstallEntries;
    hide Terminated, KeyValues;
    var ms := SampleSpec(args);
    ShortKeyValues(unit);
    ShortKeyValues(CommandEntries(ms));
    ShortKeyValues(HardeningEntries());
    ShortKeyValues(StateEntries("a"));
    ShortKeyValues(InstallEntries());
    KeyValuesTogether(CommandEntries(ms), HardeningEntries(), StateEntries("a"));
    FewShortLines(KeyValues(unit), KeyValues(ServiceEntries("a", ms)), KeyValues(InstallEntries()));
  }

  lemma KeyValuesTogether(a: seq<Entry>, b: seq<Entry>, c: seq<Entry>)
    ensures |KeyValues(a + b + c)| == |KeyValues(a)| + |KeyValues(b)| + |KeyValues(c)|
    ensures forall l <- KeyValues(a + b + c) :: l in KeyValues(a) || l in KeyValues(b) || l in KeyValues(c)
  {
    hide KeyValue;
    assert KeyValues(a + b + c) == KeyValues(a) + KeyValues(b) + KeyValues(c);
  }

  lemma FewShortLines(u: seq<string>, s: seq<string>, i: seq<string>)
    requires |u| <= 8 && |s| <= 24 && |i| <= 8
    requires (forall l <- u :: |l| <= 200) && (forall l <- s :: |l| <= 200) && (forall l <- i :: |l| <= 200)
    ensures |Terminated(["[Unit]"] + u + ["", "[Service]"] + s + ["", "[Install]"] + i)| <= MAX_UNIT_SIZE
  {
    hide Terminated;
    var lines := ["[Unit]"] + u + ["", "[Service]"] + s + ["", "[Install]"] + i;
    assert forall l <- lines :: l in u || l in s || l in i || l in ["[Unit]", "", "[Service]", "[Install]"];
    TerminatedLength(lines);
  }

  lemma SampleConforms(unit: seq<Entry>, args: seq<string>)
    requires IsUnitSection(unit) && AreShort(unit) && ArgsAllowed(args)
    requires args == [] || (|args| == 1 && |args[0]| < 50 && !HasControls(args[0]))
    ensures ValidSpec(SampleSpec(args))
    ensures Conforms(UnitName("a"), Terminated(LinesWith(unit, "a", SampleSpec(args))))
  {
    hide Conforms, Terminated, LinesWith, BinPath, IsUnitSection, AreShort, ArgsAllowed, HasControls, UnitName;
    SampleIsValid(args);
    SampleIsSmall(unit, args);
    UnitWithConformsIff(unit, "a", SampleSpec(args));
  }

  /** The policy splits at a vertical tab and the reader does not: an accepted generated
      unit whose command the reader takes for one the policy would not permit. */
  lemma AcceptedArgumentCanBeMisread() returns (ms: Spec)
    ensures ValidSpec(ms) && Conforms(UnitName("a"), UnitText("a", ms))
    ensures !Hardened(ReadUnit(UnitText("a", ms)).entries)
  {
    hide Conforms, Terminated, LinesWith, Hardened, ReadUnit, UnitName, ArgAllowed, RunsArguments, SameLines;
    var arg := "x\U{0B}y";
    ms := SampleSpec([arg]);
    TabbedArgument(arg);
    assert IsInstanceToken("a");
    UnitEntriesAreASection("a", ms);
    SampleUnitIsShort([arg]);
    assert forall a <- [arg] :: a == arg;
    SampleConforms(UnitEntries("a", ms), [arg]);
    GeneratedUnitRunsItsArguments("a", ms);
    assert arg in ms.args && arg[1] == '\U{0B}' && arg[1] in arg && !IsPlainlySpaced(arg);
  }

  lemma TabbedArgument(arg: string)
    requires arg == "x\U{0B}y"
    ensures ArgAllowed(arg) && !HasControls(arg)
  {
    hide Fields, IsWord, ExecTokenAllowed;
    LetterIsToken("x");
    LetterIsToken("y");
    assert arg == "x" + ['\U{0B}'] + "y";
    FieldsAroundSpace("x", '\U{0B}', "y");
  }

  lemma LetterIsToken(s: string)
    requires |s| == 1 && IsLetter(s[0])
    ensures Fields(s) == [s] && ExecTokenAllowed(s)
  {
    assert s == [s[0]];
    SpacelessAsciiIsWord(s);
    WordIsItsOnlyField(s);
  }

  lemma SampleUnitIsShort(args: seq<string>)
    ensures AreShort(UnitEntries("a", SampleSpec(args)))
  {
    hide Encode, WithoutControls, Runes;
    assert |SanitizeDescription("mediamtx")| <= 64;
  }

  lemma {:induction false} LineEndBehind(line: string, rest: string)
    requires '\n' !in line && '\r' !in line && rest != "" && (rest[0] == '\n' || rest[0] == '\r')
    ensures LineEnd(line + rest) == |line|
  {
    if line == "" {
      assert line + rest == rest;
    } else {
      assert line[0] in line && (line + rest)[1..] == line[1..] + rest;
      LineEndBehind(line[1..], rest);
    }
  }

  /** To the reader a carriage return ends a line just as a line feed does. */
  lemma OneLineRead(line: string, end: string, rest: string)
    requires '\n' !in line && '\r' !in line && end in ["\n", "\r"] && (rest == "" || rest[0] != '\n')
    ensures PhysicalLines(line + (end + rest)) == [line] + PhysicalLines(rest)
  {
    hide PhysicalLines, LineEnd;
    var tail := end + rest;
    var s := line + tail;
    LineEndBehind(line, tail);
    FirstPhysicalLine(s);
    assert s[..|line|] == line && s[|line|..] == tail && s[|line| + 1..] == rest;
    assert EndWidth(tail) == 1 by {
      if |tail| > 1 {
        assert tail[1] == rest[0];
      }
    }
  }

  const SPLIT := "first\rDescription=second"

  const TARGET := Entry("Unit", "After", "network-online.target")

  /** What the policy takes for one description, and the reader for two. */
  const ONE_DESCRIPTION := [Entry("Unit", "Description", SPLIT), TARGET]
  const TWO_DESCRIPTIONS := [Entry("Unit", "Description", "first"), Entry("Unit", "Description", "second"), TARGET]

  /** The reader ends a line at a carriage return and the policy does not: an accepted
      unit whose description goes on, for the reader, as a second description. */
  lemma AcceptedDescriptionCanBeSplit() returns (content: string)
    ensures Conforms(UnitName("a"), content) && !SameLines(content)
    ensures var es := ReadUnit(content).entries;
            && Entry("Unit", "Description", "first") in es && Entry("Unit", "Description", "second") in es
            && !Hardened(es)
  {
    hide Conforms, Terminated, LinesWith, UnitName, SameLines, ReadUnit;
    SplitDescription();
    SampleConforms(ONE_DESCRIPTION, []);
    content := Terminated(LinesWith(ONE_DESCRIPTION, "a", SampleSpec([])));
    SplitLineIsSeen(SampleSpec([]));
    SameLinesIff(content);
    SplitReadsAsTwo(SampleSpec([]));
    TwoAreRead(SampleSpec([]));
  }

  lemma SplitDescription()
    ensures IsUnitSection(ONE_DESCRIPTION) && AreShort(ONE_DESCRIPTION)
  {
    hide HasSuffix, IsUnitSection, AreShort;
    DescribedSection(SPLIT);
  }

  lemma DescribedSection(d: string)
    requires 0 < |d| < 100 && '\n' !in d && '\0' !in d && d[|d| - 1] != '\r' && d[|d| - 1] != '\\'
    ensures var unit := [Entry("Unit", "Description", d), TARGET]; IsUnitSection(unit) && AreShort(unit)
  {
  }

  lemma TwoAreHarmless()
    ensures IsHarmless(TWO_DESCRIPTIONS, "Unit") && NoneEscaped(TWO_DESCRIPTIONS)
  {
    hide IsKey, HasControls, HasSuffix, ValueAllowed, IsPlainValue;
    DescriptionIsAllowed("first");
    WordIsHarmless("first");
    WordIsHarmless("second");
    WordIsHarmless("network-online.target");
  }

  lemma WordIsHarmless(s: string)
    requires s == "first" || s == "second" || s == "network-online.target"
    ensures !HasControls(s) && !HasSuffix(s, "\\")
  {
    assert s[|s| - 1] != '\\';
  }

  lemma SplitReadsAsTwo(ms: Spec)
    requires ValidSpec(ms)
    ensures var one, two := LinesWith(ONE_DESCRIPTION, "a", ms), LinesWith(TWO_DESCRIPTIONS, "a", ms);
            ReadUnit(Terminated(one)) == ReadUnit(Terminated(two))
  {
    hide PhysicalLines, ReadLines, ServiceEntries, InstallEntries, ValidSpec, KeyValues, Terminated;
    var rest := [KeyValue(TARGET), "", "[Service]"] + KeyValues(ServiceEntries("a", ms))
    + ["", "[Install]"] + KeyValues(InstallEntries());
    KeyValuesOfBoth();
    assert LinesWith(ONE_DESCRIPTION, "a", ms) == ["[Unit]", "Description=" + SPLIT] + rest;
    assert LinesWith(TWO_DESCRIPTIONS, "a", ms) == ["[Unit]", "Description=first", "Description=second"] + rest;
    TerminatedSplit(rest);
    var first, second := "Description=first", "Description=second\n" + Terminated(rest);
    OneLineRead(first, "\r", second);
    OneLineRead(first, "\n", second);
    OneLineRead("[Unit]", "\n", first + ("\r" + second));
    OneLineRead("[Unit]", "\n", first + ("\n" + second));
  }

  lemma TerminatedSplit(rest: seq<string>)
    ensures var first, second := "Description=first", "Description=second\n" + Terminated(rest);
            && Terminated(["[Unit]", "Description=" + SPLIT] + rest) == "[Unit]" + ("\n" + (first + ("\r" + second)))
            && Terminated(["[Unit]", first, "Description=second"] + rest) == "[Unit]" + ("\n" + (first + ("\n" + second)))
  {
    var line := "Description=" + SPLIT;
    TerminatedHead("[Unit]", [line] + rest);
    TerminatedHead(line, rest);
    TerminatedHead("[Unit]", ["Description=first", "Description=second"] + rest);
    TerminatedHead("Description=first", ["Description=second"] + rest);
    TerminatedHead("Description=second", rest);
    hide Terminated;
    assert ["[Unit]"] + ([line] + rest) == ["[Unit]", line] + rest;
    assert ["[Unit]"] + (["Description=first", "Description=second"] + rest)
        == ["[Unit]", "Description=first", "Description=second"] + rest;
    assert ["Description=first"] + (["Description=second"] + rest) == ["Description=first", "Description=second"] + rest;
    assert line == "Description=first" + "\r" + "Description=second";
  }

  lemma TerminatedHead(line: string, rest: seq<string>)
    ensures Terminated([line] + rest) == line + "\n" + Terminated(rest)
  {
    assert ([line] + rest)[1..] == rest;
  }

  lemma KeyValuesOfBoth()
    ensures KeyValues(ONE_DESCRIPTION) == ["Description=" + SPLIT, KeyValue(TARGET)]
    ensures KeyValues(TWO_DESCRIPTIONS) == ["Description=first", "Description=second", KeyValue(TARGET)]
  {
    assert "Description" + "=" + "first" == "Description=first";
    assert "Description" + "=" + "second" == "Description=second";
    assert "Description" + "=" + SPLIT == "Description=" + SPLIT;
  }

  lemma TwoAreRead(ms: Spec)
    requires ValidSpec(ms) && ArgsAllowed(ms.args) && EnvAllowed(ms.env)
    ensures var es := ReadUnit(Terminated(LinesWith(TWO_DESCRIPTIONS, "a", ms))).entries;
            && Entry("Unit", "Description", "first") in es && Entry("Unit", "Description", "second") in es
            && !Hardened(es)
  {
    hide Terminated, ServiceEntries, ValidSpec, Lines, TextLines, LinesWith, ReadUnit, ReadPlain, SameLines;
    hide Values, IsHarmless, Strip, ArgsAllowed, EnvAllowed;
    var content := Terminated(LinesWith(TWO_DESCRIPTIONS, "a", ms));
    TwoAreHarmless();
    assert IsInstanceToken("a");
    ServiceAllowedIff("a", ms);
    HarmlessIsTextual(TWO_DESCRIPTIONS, "Unit");
    GeneratedLines(TWO_DESCRIPTIONS, "a", ms);
    GeneratedLinesHoldNoReturn(TWO_DESCRIPTIONS, "a", ms);
    TextLinesHoldNoReturn(LinesWith(TWO_DESCRIPTIONS, "a", ms) + [""]);
    SameLinesIff(content);
    HarmlessIsReadable(TWO_DESCRIPTIONS, "Unit");
    HarmlessIsReadable(ServiceEntries("a", ms), "Service");
    ReadGenerated(TWO_DESCRIPTIONS, "a", ms);
    ReaderFindsTheEntries(content);
    TwoAreTwo(EntriesWith(TWO_DESCRIPTIONS, "a", ms));
  }

  lemma TwoAreTwo(es: seq<Entry>)
    requires TWO_DESCRIPTIONS <= es
    ensures var read := AllStripped(es);
            && Entry("Unit", "Description", "first") in read && Entry("Unit", "Description", "second") in read
            && !Hardened(read)
  {
    hide Values, IsInForce, RunsOneListedBinary, Strip;
    var read := AllStripped(es);
    EndsAreNotBlank("first");
    EndsAreNotBlank("second");
    assert es[0] == TWO_DESCRIPTIONS[0] && es[1] == TWO_DESCRIPTIONS[1];
    assert read[0] == Entry("Unit", "Description", "first") && read[1] == Entry("Unit", "Description", "second");
    assert read[0] in read && read[1] in read && "Description" !in REPEATABLE;
  }

  lemma SplitLineIsSeen(ms: Spec)
    requires ValidSpec(ms)
    ensures !ReturnsEndLines(Terminated(LinesWith(ONE_DESCRIPTION, "a", ms)))
  {
    hide Terminated, ServiceEntries, ValidSpec, Lines, TextLines, LineOf, NoReturns, IsHarmless, IsAllowed, AllTextual;
    assert IsInstanceToken("a");
    ServiceAllowedIff("a", ms);
    SplitDescription();
    UnitSectionIsTextual(ONE_DESCRIPTION);
    GeneratedLines(ONE_DESCRIPTION, "a", ms);
    var line := KeyValue(ONE_DESCRIPTION[0]);
    var lines := LinesWith(ONE_DESCRIPTION, "a", ms) + [""];
    assert lines[1] == line && line == "Description=" + SPLIT;
    LineWithReturn(line);
    ReturnIsSeen(lines, line);
  }

  lemma ReturnIsSeen(lines: seq<string>, line: string)
    requires |lines| > 1 && lines[1] == line && Trimmed(line) == line && !IsBlank(line) && '\r' in line
    ensures !NoReturns(TextLines(lines))
  {
    hide TextLines, IsBlank, Trimmed;
    assert lines == lines[..1] + [line] + lines[2..];
    TextLinesAppend(lines[..1] + [line], lines[2..]);
    TextLinesAppend(lines[..1], [line]);
    OneTextLine(line);
    assert line in TextLines([line]);
  }

  lemma LineWithReturn(line: string)
    requires line == "Description=" + SPLIT
    ensures Trimmed(line) == line && !IsBlank(line) && '\r' in line
  {
    hide IsBlank;
    TextIsNotBlank(line);
    assert line[17] == '\r';
  }

  /** A spec that is valid and whose unit the policy refuses: the argument `$`. */
  lemma ValidSpecCanBeRefused(id: string)
    ensures ValidSpec(SampleSpec(["$"])) && !Conforms(UnitName(id), UnitText(id, SampleSpec(["$"])))
  {
    var ms := SampleSpec(["$"]);
    SampleIsValid(["$"]);
    hide Conforms, UnitText, ValidSpec;
    SpacelessAsciiIsWord("$");
    WordIsItsOnlyField("$");
    assert "$"[0] == '$' && '$' in "$" && !IsExecChar('$');
    assert "$" in Fields("$") && "$" in ms.args;
    GeneratedUnitConformsIff(id, ms);
  }
}
