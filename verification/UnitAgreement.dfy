// The generator and the policy agree: which generated units the policy accepts,
// and what the unit reader finds in them.
module UnitAgreement {
  import opened Wrappers
  import opened Utf8
  import opened GoStrings
  import opened UnitPolicy
  import opened UnitReader
  import opened UnitSoundness
  import opened ManagedUnit

  ghost function EntriesWith(unit: seq<Entry>, id: string, ms: Spec): seq<Entry>
    requires ValidSpec(ms)
  {
    unit + ServiceEntries(id, ms) + InstallEntries()
  }

  ghost function AllEntries(id: string, ms: Spec): seq<Entry>
    requires ValidSpec(ms)
  {
    EntriesWith(UnitEntries(id, ms), id, ms)
  }

  /** A first section like the generated one, with any one-line description. */
  predicate IsUnitSection(unit: seq<Entry>) {
    && |unit| == 2
    && unit[0].section == "Unit" && unit[0].key == "Description" && unit[0].value != ""
    && '\n' !in unit[0].value && '\0' !in unit[0].value
    && !HasSuffix(unit[0].value, "\r") && !HasSuffix(unit[0].value, "\\")
    && unit[1] == Entry("Unit", "After", "network-online.target")
  }

  // ------------------------------------------------------- reading generated lines

  lemma {:induction false} LettersOfKey(key: string, rest: string)
    requires forall c <- key :: IsLetter(c)
    ensures LeadingLetters(key + "=" + rest) == |key|
  {
    var s := key + "=" + rest;
    if key != "" {
      assert s[0] == key[0] && key[0] in key && s[1..] == key[1..] + "=" + rest;
      LettersOfKey(key[1..], rest);
    }
  }

  lemma TextIsNotBlank(s: string)
    requires s != "" && s[0] as int < 0x80 && !IsAsciiSpace(s[0])
    ensures !IsBlank(s)
  {
    assert DecodeRune(s) == (s[0] as int, 1);
  }

  lemma EndOfKeyValue(key: string, value: string)
    requires !HasSuffix(value, "\r")
    ensures var line := key + "=" + value;
            TrimRight(line, {'\r'}) == line && (HasSuffix(line, "\\") <==> HasSuffix(value, "\\"))
  {
    var line := key + "=" + value;
    if value != "" {
      assert value[|value| - 1..] == [value[|value| - 1]];
      assert line[|line| - 1..] == value[|value| - 1..];
    } else {
      assert line[|line| - 1..] == "=";
    }
  }

  /** A key=value line is read as written, unless it ends in a backslash. */
  lemma KeyValueLine(key: string, value: string)
    requires IsKey(key) && !HasSuffix(value, "\r")
    ensures LineOf(key + "=" + value) == if HasSuffix(value, "\\") then Malformed else Directive(key, value)
  {
    hide IsBlank, TrimRight, HasSuffix, LeadingLetters;
    var line := key + "=" + value;
    assert key[0] in key && line[0] == key[0];
    TextIsNotBlank(line);
    EndOfKeyValue(key, value);
    LettersOfKey(key, value);
    assert line[..|key|] == key && line[|key|] == '=' && line[|key| + 1..] == value;
  }

  predicate Readable(es: seq<Entry>, section: string) {
    forall e <- es :: e.section == section && IsKey(e.key) && !HasSuffix(e.value, "\r")
  }

  predicate NoneEscaped(es: seq<Entry>) {
    forall e <- es :: !HasSuffix(e.value, "\\")
  }

  lemma {:induction false} ReadBlock(before: seq<string>, es: seq<Entry>)
    requires ReadPlain(before).Some? && ReadPlain(before).value.section != ""
    requires Readable(es, ReadPlain(before).value.section)
    ensures var Reading(section, entries) := ReadPlain(before).value;
            ReadPlain(before + KeyValues(es)) == if NoneEscaped(es) then Some(Reading(section, entries + es)) else None
  {
    hide LineOf, HasSuffix;
    if es == [] {
      assert before + KeyValues(es) == before;
      assert ReadPlain(before).value.entries + [] == ReadPlain(before).value.entries;
    } else {
      var shorter, e := es[..|es| - 1], es[|es| - 1];
      assert es == shorter + [e];
      ReadBlock(before, shorter);
      var lines := before + KeyValues(es);
      assert lines[..|lines| - 1] == before + KeyValues(shorter) && lines[|lines| - 1] == KeyValue(e);
      KeyValueLine(e.key, e.value);
      if NoneEscaped(shorter) {
        assert ReadPlain(before).value.entries + es == ReadPlain(before).value.entries + shorter + [e];
      }
    }
  }

  lemma ReadOne(before: seq<string>, line: string)
    ensures ReadPlain(before + [line])
         == if ReadPlain(before).Some? then ReadPlainLine(ReadPlain(before).value, LineOf(line)) else None
  {
    assert (before + [line])[..|before|] == before;
  }

  lemma HeaderLine(name: string)
    requires IsSection(name)
    ensures LineOf("") == Blank && LineOf("[" + name + "]") == Header(name)
  {
    hide IsBlank;
    assert IsBlank("") by { EmptyIsBlank(); }
    var line := "[" + name + "]";
    TextIsNotBlank(line);
    assert line[|line| - 1..] == "]" && TrimRight(line, {'\r'}) == line == TrimLeft(line, {' ', '\t'});
    if name == "Unit" {
      assert line == "[Unit]";
    } else if name == "Service" {
      assert line == "[Service]";
    } else {
      assert line == "[Install]";
    }
  }

  lemma EmptyIsBlank()
    ensures IsBlank("")
  {
  }

  /** A section of a unit: a blank line, its header, its entries. */
  lemma ReadSection(before: seq<string>, name: string, header: string, es: seq<Entry>)
    requires IsSection(name) && header == "[" + name + "]" && Readable(es, name)
    ensures ReadPlain(before + ["", header] + KeyValues(es))
         == if ReadPlain(before).Some? && NoneEscaped(es)
            then Some(Reading(name, ReadPlain(before).value.entries + es)) else None
  {
    hide LineOf, ReadPlain;
    HeaderLine(name);
    ReadOne(before, "");
    ReadOne(before + [""], header);
    var lines := before + ["", header];
    assert lines == before + [""] + [header];
    if ReadPlain(before).Some? {
      ReadBlock(lines, es);
    } else {
      NothingAfterFailure(lines, KeyValues(es));
    }
  }

  lemma {:induction false} NothingAfterFailure(before: seq<string>, after: seq<string>)
    requires ReadPlain(before).None?
    ensures ReadPlain(before + after).None?
  {
    if after == [] {
      assert before + after == before;
    } else {
      var shorter := after[..|after| - 1];
      NothingAfterFailure(before, shorter);
      assert (before + after)[..|before + after| - 1] == before + shorter;
    }
  }

  /** What the policy reads in a generated unit. */
  lemma ReadGenerated(unit: seq<Entry>, id: string, ms: Spec)
    requires ValidSpec(ms)
    requires Readable(unit, "Unit") && Readable(ServiceEntries(id, ms), "Service")
    ensures ReadPlain(LinesWith(unit, id, ms) + [""])
         == if NoneEscaped(unit) && NoneEscaped(ServiceEntries(id, ms))
            then Some(Reading("Install", EntriesWith(unit, id, ms))) else None
  {
    hide ReadPlain, LineOf, ValidSpec, ServiceEntries, HasSuffix;
    var s := ServiceEntries(id, ms);
    HeaderLine("Unit");
    ReadOne([], "[Unit]");
    NothingReadYet();
    assert "[" + "Unit" + "]" == "[Unit]";
    assert [] + ["[Unit]"] == ["[Unit]"];
    ReadBlock(["[Unit]"], unit);
    var lines := ["[Unit]"] + KeyValues(unit);
    if NoneEscaped(unit) {
      assert [] + unit == unit;
    }
    assert "[" + "Service" + "]" == "[Service]" && "[" + "Install" + "]" == "[Install]";
    ReadSection(lines, "Service", "[Service]", s);
    lines := lines + ["", "[Service]"] + KeyValues(s);
    InstallIsReadable();
    ReadSection(lines, "Install", "[Install]", InstallEntries());
    ReadOne(LinesWith(unit, id, ms), "");
  }

  lemma NothingReadYet()
    ensures ReadPlain([]) == Some(Reading("", []))
  {
  }

  lemma InstallIsReadable()
    ensures Readable(InstallEntries(), "Install") && NoneEscaped(InstallEntries())
  {
    hide HasSuffix;
    PlainByBytes("multi-user.target");
    NoReturnAtEnd("multi-user.target");
    assert IsKey("WantedBy");
  }

  // ------------------------------------------------------- generated text is clean

  lemma {:induction false} EncodedIsPrintable(rs: seq<Rune>)
    ensures forall c <- Encode(WithoutControls(rs)) :: c >= ' '
  {
    if rs != [] {
      EncodedIsPrintable(rs[1..]);
      if rs[0] >= 0x20 && rs[0] != 0x7F {
        EncodeCons(rs[0], WithoutControls(rs[1..]));
        BytesOfRune(rs[0]);
      } else {
        assert WithoutControls(rs) == [] + WithoutControls(rs[1..]) == WithoutControls(rs[1..]);
      }
    }
  }

  lemma BytesOfRune(r: Rune)
    requires r >= 0x20
    ensures forall c <- EncodeRune(r) :: c >= ' '
  {
  }

  lemma DescriptionIsPrintable(s: string)
    ensures forall c <- SanitizeDescription(s) :: c >= ' '
  {
    EncodedIsPrintable(Runes(s));
    var t := Encode(WithoutControls(Runes(s)));
    assert forall c <- SanitizeDescription(s) :: c in t;
  }

  /** A value that holds no control character and ends in none the reader would act on. */
  predicate IsPlainValue(value: string) {
    !HasControls(value) && !HasSuffix(value, "\\")
  }

  lemma DescriptionIsPlain(id: string, text: string)
    requires IsInstanceToken(id) && forall c <- text :: c >= ' '
    ensures IsPlainValue("obacht managed service " + id + " (" + text + ")")
  {
    var head, tail := "obacht managed service ", " (" + text + ")";
    var d := head + id + tail;
    assert d == "obacht managed service " + id + " (" + text + ")";
    assert d[|d| - 1..] == ")";
    assert forall c <- id :: c >= ' ';
    assert forall c <- head :: c >= ' ';
    assert forall c <- tail :: c >= ' ';
    assert forall c <- d :: c in head || c in id || c in tail;
  }

  lemma NoReturnAtEnd(value: string)
    requires '\r' !in value
    ensures !HasSuffix(value, "\r")
  {
    assert value != "" ==> value[|value| - 1] in value && value[|value| - 1..] == [value[|value| - 1]];
  }

  lemma UnitEntriesAreASection(id: string, ms: Spec)
    requires IsInstanceToken(id)
    ensures IsUnitSection(UnitEntries(id, ms)) && IsHarmless(UnitEntries(id, ms), "Unit")
  {
    hide SanitizeDescription, HasSuffix;
    var kind := if ms.kind == "" then ms.binary else ms.kind;
    DescriptionIsPrintable(kind);
    var es := UnitEntries(id, ms);
    DescriptionIsPlain(id, SanitizeDescription(kind));
    assert es[0].value == "obacht managed service " + id + " (" + SanitizeDescription(kind) + ")";
    NoReturnAtEnd(es[0].value);
    DescriptionIsAllowed(es[0].value);
  }

  /** Such a section passes the policy. */
  lemma UnitSectionPasses(unit: seq<Entry>)
    requires IsUnitSection(unit)
    ensures Readable(unit, "Unit") && NoneEscaped(unit) && IsAllowed(unit)
  {
    hide ValueAllowed, HasSuffix;
    NoReturnAtEnd("network-online.target");
    AfterIsAllowed();
    DescriptionIsAllowed(unit[0].value);
  }

  lemma DescriptionIsAllowed(value: string)
    requires value != "" && '\0' !in value
    ensures ValueAllowed("Unit", "Description", value)
    ensures IsKey("Description") && IsKey("After") && IsPlainValue("network-online.target")
  {
    hide Fields;
    assert "network-online.target"[20..] == "t";
  }

  lemma AfterIsAllowed()
    ensures ValueAllowed("Unit", "After", "network-online.target")
  {
    hide Fields, IsWord, WordLen;
    var v := "network-online.target";
    SpacelessAsciiIsWord(v);
    WordIsItsOnlyField(v);
    TargetToken(v);
  }

  lemma TargetToken(v: string)
    requires v == "network-online.target"
    ensures IsUnitToken(v)
  {
    assert v[14..] == ".target" && v[..14] == "network-online";
    assert HasSuffix(v, ".target");
  }

  // ---------------------------------------------------- the values of [Service] keys

  predicate IsHarmless(es: seq<Entry>, section: string) {
    forall e <- es :: e.section == section && IsKey(e.key) && !HasControls(e.value)
  }

  /** The policy lets every entry pass, as a line and as a value. */
  predicate IsAllowed(es: seq<Entry>) {
    forall e <- es :: ValueAllowed(e.section, e.key, e.value) && !HasSuffix(e.value, "\\")
  }

  predicate ArgsAllowed(args: seq<string>) {
    forall a <- args :: ArgAllowed(a)
  }

  /** What an argument splits into is made of plain tokens. */
  predicate ArgAllowed(arg: string) {
    forall t <- Fields(arg) :: ExecTokenAllowed(t)
  }

  predicate EnvAllowed(env: map<string, string>) {
    forall k <- env :: IsAssignment(k + "=" + env[k])
  }

  lemma {:induction false} SpacedHolds(first: string, others: seq<string>, c: char)
    requires c != ' ' && c !in first && forall o <- others :: c !in o
    ensures c !in Spaced(first, others)
  {
    if others != [] {
      SpacedHolds(first, others[..|others| - 1], c);
    }
  }

  lemma SpacedIsHarmless(first: string, others: seq<string>)
    requires !HasControls(first) && forall o <- others :: !HasControls(o)
    ensures !HasControls(Spaced(first, others))
  {
    SpacedHolds(first, others, '\0');
    SpacedHolds(first, others, '\n');
    SpacedHolds(first, others, '\r');
  }

  lemma SpaceHoldsNoBackslash(s: string)
    requires SpaceWidth(s) > 0
    ensures '\\' !in s[..SpaceWidth(s)]
  {
  }

  lemma {:induction false} AllowedHoldsNoBackslash(s: string)
    requires ArgAllowed(s)
    ensures '\\' !in s
    decreases |s|
  {
    hide HasDotDot;
    if s != "" {
      var w := if SpaceWidth(s) > 0 then SpaceWidth(s) else WordLen(s);
      assert forall t <- Fields(s[w..]) :: t in Fields(s);
      AllowedHoldsNoBackslash(s[w..]);
      if SpaceWidth(s) > 0 {
        SpaceHoldsNoBackslash(s);
      } else {
        assert ExecTokenAllowed(s[..w]);
      }
      assert s == s[..w] + s[w..];
    }
  }

  lemma {:induction false} ArgFieldsAllowed(args: seq<string>)
    ensures (forall t <- ArgFields(args) :: ExecTokenAllowed(t)) <==> ArgsAllowed(args)
  {
    hide Fields, ExecTokenAllowed;
    if args != [] {
      var shorter, last := args[..|args| - 1], args[|args| - 1];
      ArgFieldsAllowed(shorter);
      assert args == shorter + [last];
      assert ArgsAllowed(args) <==> ArgsAllowed(shorter) && ArgAllowed(last);
      var all := ArgFields(args);
      assert forall t <- ArgFields(shorter) :: t in all;
      assert forall t <- Fields(last) :: t in all;
    }
  }

  predicate IsPathPiece(s: string) {
    forall c <- s :: IsExecChar(c) && c != '.'
  }

  lemma PathPieceIsToken(s: string)
    requires s != "" && IsPathPiece(s)
    ensures ExecTokenAllowed(s) && IsWord(s) && !HasControls(s)
  {
    hide IsWord;
    assert forall c <- s :: c as int < 0x80 && !IsAsciiSpace(c);
    SpacelessAsciiIsWord(s);
    assert '.' !in s && !HasDotDot(s) by {
      assert forall i | 0 <= i < |s| :: s[i] in s;
    }
  }

  lemma RootIsPath()
    ensures IsPathPiece(BIN_ROOT + "/")
  {
    assert BIN_ROOT + "/" == "/opt/obacht/system/bin/";
  }

  lemma BinaryIsToken(ms: Spec)
    requires ValidSpec(ms)
    ensures ExecTokenAllowed(BinPath(ms)) && IsWord(BinPath(ms)) && BIN_ROOT + "/" <= BinPath(ms)
    ensures !HasControls(BinPath(ms))
  {
    hide ExecTokenAllowed, IsWord, HasControls;
    RootIsPath();
    var root, digest, tail := BIN_ROOT + "/", ms.binaryDigest[7..], "/mediamtx";
    assert BinPath(ms) == root + digest + tail;
    assert IsPathPiece(digest) && IsPathPiece(tail);
    assert IsPathPiece(root + digest + tail) by {
      hide IsExecChar;
      assert forall c <- root + digest + tail :: c in root || c in digest || c in tail;
    }
    PathPieceIsToken(BinPath(ms));
  }

  /** The command passes exactly when its arguments do. */
  lemma CommandAllowedIff(ms: Spec)
    requires ValidSpec(ms)
    ensures IsHarmless(CommandEntries(ms), "Service")
    ensures IsAllowed(CommandEntries(ms)) <==> ArgsAllowed(ms.args)
  {
    hide Fields, ExecTokenAllowed, IsWord, BinPath, ValidSpec, Spaced, HasDotDot, ArgAllowed, ArgsAllowed;
    hide CommandAllowed, HasSuffix;
    var bin, v := BinPath(ms), Spaced(BinPath(ms), ms.args);
    ArgsAreHarmless(ms);
    BinaryIsToken(ms);
    FieldsOfSpaced(bin, ms.args);
    WordIsItsOnlyField(bin);
    ArgFieldsAllowed(ms.args);
    BinaryHasNoDots(bin);
    TokensOf(v, bin, ms.args);
    ExecStartByTokens(v, bin);
    var es := CommandEntries(ms);
    assert es[1].value == v;
    CommandKeys(v);
    if ArgAllowed(v) {
      AllowedHoldsNoBackslash(v);
      EndsInNoBackslash(v);
    }
  }

  lemma EndsInNoBackslash(v: string)
    requires '\\' !in v
    ensures !HasSuffix(v, "\\")
  {
    assert v != "" ==> v[|v| - 1] in v && v[|v| - 1..] == [v[|v| - 1]];
  }

  lemma ArgsAreHarmless(ms: Spec)
    requires ValidSpec(ms)
    ensures !HasControls(Spaced(BinPath(ms), ms.args))
  {
    BinaryIsToken(ms);
    SpacedIsHarmless(BinPath(ms), ms.args);
  }

  lemma BinaryHasNoDots(bin: string)
    requires ExecTokenAllowed(bin)
    ensures !HasDotDot(bin)
  {
  }

  lemma TokensOf(v: string, bin: string, args: seq<string>)
    requires Fields(v) == [bin] + ArgFields(args) && ExecTokenAllowed(bin)
    ensures ArgAllowed(v) <==> forall t <- ArgFields(args) :: ExecTokenAllowed(t)
  {
    hide Fields, ExecTokenAllowed, ArgFields;
    assert forall t <- ArgFields(args) :: t in Fields(v);
  }

  lemma ExecStartByTokens(v: string, bin: string)
    requires Fields(v) != [] && Fields(v)[0] == bin && !HasDotDot(bin) && BIN_ROOT + "/" <= bin
    ensures CommandAllowed(Fields(v)) <==> ArgAllowed(v)
  {
    hide Fields, ExecTokenAllowed, HasDotDot;
  }

  lemma CommandKeys(v: string)
    ensures IsKey("Type") && IsKey("ExecStart") && !HasControls("exec") && !HasSuffix("exec", "\\")
    ensures ValueAllowed("Service", "Type", "exec")
    ensures ValueAllowed("Service", "ExecStart", v) <==> CommandAllowed(Fields(v))
  {
    hide CommandAllowed, Fields;
    assert "exec"[3..] == "c";
  }

  lemma HardeningAllowed()
    ensures IsHarmless(HardeningEntries(), "Service") && IsAllowed(HardeningEntries())
  {
    hide ValueAllowed;
    var es := HardeningEntries();
    assert |es| == 7;
    forall i | 0 <= i < 7
      ensures es[i].section == "Service" && IsKey(es[i].key) && es[i].key in REQUIRED && es[i].value == REQUIRED[es[i].key]
      ensures !HasControls(es[i].value) && !HasSuffix(es[i].value, "\\")
    {
      HardeningEntry(i);
    }
    forall e | e in es
      ensures ValueAllowed(e.section, e.key, e.value)
    {
      RequiredAllowed(e.key);
    }
  }

  lemma RequiredAllowed(key: string)
    requires key in REQUIRED
    ensures ValueAllowed("Service", key, REQUIRED[key])
  {
    hide Fields;
  }

  lemma HardeningEntry(i: nat)
    requires i < 7
    ensures var e := HardeningEntries()[i];
            && e.section == "Service" && IsKey(e.key) && e.key in REQUIRED && e.value == REQUIRED[e.key]
            && !HasControls(e.value) && !HasSuffix(e.value, "\\")
  {
    var e := HardeningEntries()[i];
    assert e.key in REQUIRED && e.value == REQUIRED[e.key];
    RequiredAreKeys(e.key);
    assert "yes"[2..] == "s" && "strict"[5..] == "t" && "closed"[5..] == "d";
  }

  lemma DevicesAllowed(devices: seq<string>)
    requires forall d <- devices :: d in DEVICE_RULES
    ensures IsHarmless(DeviceEntries(devices), "Service") && IsAllowed(DeviceEntries(devices))
  {
    hide ValueAllowed;
    forall e | e in DeviceEntries(devices)
      ensures e.section == "Service" && IsKey(e.key) && !HasControls(e.value)
      ensures ValueAllowed(e.section, e.key, e.value) && !HasSuffix(e.value, "\\")
    {
      var i :| 0 <= i < |devices| && e == DeviceEntries(devices)[i];
      assert devices[i] in devices;
      DeviceAllowed(devices[i]);
    }
  }

  lemma DeviceAllowed(d: string)
    requires d in DEVICE_RULES
    ensures var v := DEVICE_RULES[d];
            IsKey("DeviceAllow") && !HasControls(v) && !HasSuffix(v, "\\") && ValueAllowed("Service", "DeviceAllow", v)
  {
    hide ValueAllowed, HasControls, HasSuffix;
    var v := DEVICE_RULES[d];
    assert v in ALLOWED_DEVICES;
    DeviceRuleAllowed(v);
    DeviceRuleIsPlain(v);
  }

  lemma DeviceRuleAllowed(v: string)
    requires v in ALLOWED_DEVICES
    ensures ValueAllowed("Service", "DeviceAllow", v)
  {
    hide Fields;
  }

  lemma DeviceRuleIsPlain(v: string)
    requires v in ALLOWED_DEVICES
    ensures !HasControls(v) && !HasSuffix(v, "\\")
  {
    if v == "char-video4linux rw" {
      PlainByBytes(v);
    } else if v == "char-media rw" {
      PlainByBytes(v);
    } else if v == "char-drm rw" {
      PlainByBytes(v);
    } else {
      PlainByBytes("char-dma_heap rw");
    }
  }

  lemma PlainByBytes(v: string)
    requires forall c <- v :: c >= ' ' && c != '\\'
    ensures IsPlainValue(v)
  {
    EndsInNoBackslash(v);
  }

  lemma GroupIsWord(g: string)
    requires g in ALLOWED_GROUPS
    ensures IsWord(g) && !HasControls(g) && '\\' !in g
  {
    hide IsWord;
    assert g == "video" || g == "render" || g == "input";
    SpacelessAsciiIsWord(g);
  }

  lemma GroupsAllowed(groups: seq<string>)
    requires forall g <- groups :: g in ALLOWED_GROUPS
    ensures IsHarmless(GroupEntries(groups), "Service") && IsAllowed(GroupEntries(groups))
  {
    hide Fields, IsWord, HasControls, ValueAllowed, Spaced;
    if groups != [] {
      var first, others := groups[0], groups[1..];
      forall g | g in groups
        ensures IsWord(g) && !HasControls(g) && '\\' !in g
      {
        GroupIsWord(g);
      }
      var v := Spaced(first, others);
      SpacedIsHarmless(first, others);
      SpacedHolds(first, others, '\\');
      EndsInNoBackslash(v);
      ArgvComesBackIff(first, others);
      assert [first] + others == groups;
      GroupListAllowed(v, groups);
    }
  }

  lemma GroupListAllowed(v: string, groups: seq<string>)
    requires Fields(v) == groups != [] && forall g <- groups :: g in ALLOWED_GROUPS
    ensures ValueAllowed("Service", "SupplementaryGroups", v) && IsKey("SupplementaryGroups")
  {
    hide Fields;
  }

  lemma HardwareAllowed(ms: Spec)
    requires ValidSpec(ms)
    ensures IsHarmless(HardwareEntries(ms), "Service") && IsAllowed(HardwareEntries(ms))
  {
    hide ValueAllowed, IsKey, HasControls, HasSuffix, DeviceEntries, GroupEntries, SortStrings;
    if ms.hardware.Some? {
      SortStringsKeepsMembers(ms.hardware.value.devices);
      SortStringsKeepsMembers(ms.hardware.value.groups);
      DevicesAllowed(SortStrings(ms.hardware.value.devices));
      GroupsAllowed(SortStrings(ms.hardware.value.groups));
    }
  }

  lemma FamiliesAllowed()
    ensures ValueAllowed("Service", "RestrictAddressFamilies", "AF_UNIX AF_INET AF_INET6")
  {
    hide Fields, IsWord, WordLen;
    SpacelessAsciiIsWord("AF_UNIX");
    SpacelessAsciiIsWord("AF_INET");
    SpacelessAsciiIsWord("AF_INET6");
    var words := ["AF_INET", "AF_INET6"];
    ArgvComesBackIff("AF_UNIX", words);
    assert words[..1] == ["AF_INET"] && ["AF_INET"][..0] == [];
    assert Spaced("AF_UNIX", ["AF_INET"]) == "AF_UNIX" + " " + "AF_INET";
    assert Spaced("AF_UNIX", words) == "AF_UNIX AF_INET AF_INET6";
    assert ["AF_UNIX"] + words == ["AF_UNIX", "AF_INET", "AF_INET6"];
    FamilyListAllowed("AF_UNIX AF_INET AF_INET6");
  }

  lemma FamilyListAllowed(v: string)
    requires Fields(v) == ["AF_UNIX", "AF_INET", "AF_INET6"]
    ensures ValueAllowed("Service", "RestrictAddressFamilies", v)
  {
    hide Fields;
  }

  lemma StateAllowed(id: string)
    requires IsInstanceToken(id)
    ensures IsHarmless(StateEntries(id), "Service") && IsAllowed(StateEntries(id))
  {
    hide ValueAllowed, HasSuffix, HasControls, IsInstanceToken, IsKey;
    var d := "obacht-svc/" + id;
    assert d[11..] == id;
    DirectoryAllowed(d);
    FamiliesAllowed();
    RestartAllowed();
    StateIsPlain();
  }

  lemma StateIsPlain()
    ensures IsPlainValue("AF_UNIX AF_INET AF_INET6") && IsPlainValue("always") && IsPlainValue("2")
  {
    assert "AF_UNIX AF_INET AF_INET6"[23..] == "6" && "always"[5..] == "s" && "2"[0..] == "2";
  }

  lemma DirectoryAllowed(d: string)
    requires "obacht-svc/" <= d && IsInstanceToken(d[11..])
    ensures ValueAllowed("Service", "StateDirectory", d) && IsPlainValue(d) && IsKey("StateDirectory")
    ensures IsKey("RestrictAddressFamilies")
  {
    hide Fields;
    DirectoryIsPlain(d);
  }

  lemma DirectoryIsPlain(d: string)
    requires "obacht-svc/" <= d && IsInstanceToken(d[11..])
    ensures IsPlainValue(d)
  {
    hide IsPlainValue;
    var root, id := "obacht-svc/", d[11..];
    assert d == root + id;
    assert forall c <- root :: c >= ' ' && c != '\\';
    assert forall c <- id :: c >= ' ' && c != '\\';
    assert forall c <- d :: c in root || c in id;
    PlainByBytes(d);
  }

  lemma RestartAllowed()
    ensures ValueAllowed("Service", "Restart", "always") && ValueAllowed("Service", "RestartSec", "2")
    ensures IsKey("Restart") && IsKey("RestartSec")
  {
    hide Fields;
  }

  lemma AssignmentIsNotEscaped(s: string)
    requires IsAssignment(s)
    ensures !HasSuffix(s, "\\")
  {
    var n :| 0 < n < |s| && IsAssignmentAt(s, n);
    assert "\"'\\$`"[2] == '\\' && !IsEnvChar('\\');
    assert n < |s| - 1 ==> s[n + 1..][|s| - n - 2] == s[|s| - 1];
    assert s[|s| - 1..] == [s[|s| - 1]];
  }

  lemma EnvironmentTakesAssignments(s: string)
    ensures ValueAllowed("Service", "Environment", s) <==> IsAssignment(s)
    ensures IsKey("Environment")
  {
    hide IsAssignment, Fields;
  }

  lemma EnvEntryAllowed(k: string, v: string)
    requires !HasControls(k) && !HasControls(v)
    ensures !HasControls(k + "=" + v) && IsKey("Environment")
    ensures (ValueAllowed("Service", "Environment", k + "=" + v) && !HasSuffix(k + "=" + v, "\\"))
         <==> IsAssignment(k + "=" + v)
  {
    hide ValueAllowed, IsAssignment, HasSuffix;
    var s := k + "=" + v;
    EnvironmentTakesAssignments(s);
    if IsAssignment(s) {
      AssignmentIsNotEscaped(s);
    }
  }

  lemma EnvAllowedIff(env: map<string, string>, keys: seq<string>)
    requires forall k :: k in keys <==> k in env
    requires forall k <- env :: !HasControls(k) && !HasControls(env[k])
    ensures IsHarmless(EnvEntries(env, keys), "Service")
    ensures IsAllowed(EnvEntries(env, keys)) <==> EnvAllowed(env)
  {
    hide ValueAllowed, IsKey, HasControls, HasSuffix, IsAssignment;
    var es := EnvEntries(env, keys);
    forall i | 0 <= i < |keys|
      ensures es[i] == Service("Environment", keys[i] + "=" + env[keys[i]]) && IsKey("Environment")
      ensures !HasControls(es[i].value)
      ensures (ValueAllowed("Service", es[i].key, es[i].value) && !HasSuffix(es[i].value, "\\"))
           <==> IsAssignment(keys[i] + "=" + env[keys[i]])
    {
      EnvEntryAllowed(keys[i], env[keys[i]]);
    }
    if IsAllowed(es) {
      forall k | k in env
        ensures IsAssignment(k + "=" + env[k])
      {
        var i :| 0 <= i < |keys| && keys[i] == k;
        assert es[i] in es;
      }
    }
  }

  /** The `[Service]` section passes exactly when its arguments and environment do. */
  lemma ServiceAllowedIff(id: string, ms: Spec)
    requires ValidSpec(ms) && IsInstanceToken(id)
    ensures IsHarmless(ServiceEntries(id, ms), "Service")
    ensures IsAllowed(ServiceEntries(id, ms)) <==> ArgsAllowed(ms.args) && EnvAllowed(ms.env)
  {
    KeysInOrderHoldTheKeys(ms.env.Keys);
    CommandAllowedIff(ms);
    HardeningAllowed();
    HardwareAllowed(ms);
    StateAllowed(id);
    var keys := KeysInOrder(ms.env.Keys);
    EnvAllowedIff(ms.env, keys);
    var c, h, w, s, e := CommandEntries(ms), HardeningEntries(), HardwareEntries(ms), StateEntries(id), EnvEntries(ms.env, keys);
    assert ServiceEntries(id, ms) == c + h + w + s + e;
    FiveBlocks(c, h, w, s, e);
  }

  lemma FiveBlocks(a: seq<Entry>, b: seq<Entry>, c: seq<Entry>, d: seq<Entry>, e: seq<Entry>)
    ensures IsAllowed(a + b + c + d + e)
       <==> IsAllowed(a) && IsAllowed(b) && IsAllowed(c) && IsAllowed(d) && IsAllowed(e)
    ensures (IsHarmless(a, "Service") && IsHarmless(b, "Service") && IsHarmless(c, "Service")
             && IsHarmless(d, "Service") && IsHarmless(e, "Service")) ==> IsHarmless(a + b + c + d + e, "Service")
  {
    hide ValueAllowed, HasSuffix, IsKey, HasControls;
    var all := a + b + c + d + e;
    assert forall x :: x in all <==> x in a || x in b || x in c || x in d || x in e;
  }

  // --------------------------------------------------------- no key is given twice

  const ORDER := [
    "Description", "After", "Type", "ExecStart", "DynamicUser", "NoNewPrivileges", "ProtectSystem",
    "ProtectHome", "PrivateTmp", "RestrictSUIDSGID", "DevicePolicy", "DeviceAllow", "SupplementaryGroups",
    "StateDirectory", "RestrictAddressFamilies", "Restart", "RestartSec", "Environment", "WantedBy"
  ]

  lemma OrderIsDistinct(i: nat, j: nat)
    requires i < j < |ORDER|
    ensures ORDER[i] != ORDER[j]
  {
  }

  predicate MayRepeat(p: nat) {
    p == 11 || p == 17
  }

  /** The entries stand in the generator's order, at the positions `ps`. */
  ghost predicate Placed(es: seq<Entry>, ps: seq<nat>, lo: nat, hi: nat) {
    && hi <= |ORDER| && |ps| == |es|
    && (forall i | 0 <= i < |es| :: lo <= ps[i] < hi && es[i].key == ORDER[ps[i]])
    && (forall i, j | 0 <= i < j < |es| :: ps[i] < ps[j] || (ps[i] == ps[j] && MayRepeat(ps[i])))
  }

  lemma PlacedAppend(a: seq<Entry>, ps: seq<nat>, b: seq<Entry>, qs: seq<nat>, lo: nat, mid: nat, hi: nat)
    requires Placed(a, ps, lo, mid) && Placed(b, qs, mid, hi) && lo <= mid <= hi
    ensures Placed(a + b, ps + qs, lo, hi)
  {
  }

  lemma PlacedKeysDiffer(es: seq<Entry>, ps: seq<nat>)
    requires Placed(es, ps, 0, |ORDER|)
    ensures forall i, j | 0 <= i < j < |es| && SameKey(es[i], es[j]) :: es[i].key in REPEATABLE
  {
    forall i, j | 0 <= i < j < |es| && SameKey(es[i], es[j])
      ensures es[i].key in REPEATABLE
    {
      if ps[i] != ps[j] {
        OrderIsDistinct(ps[i], ps[j]);
      }
    }
  }

  lemma FixedBlocksPlaced(id: string, ms: Spec)
    requires ValidSpec(ms)
    ensures Placed(CommandEntries(ms), [2, 3], 2, 4)
    ensures Placed(HardeningEntries(), [4, 5, 6, 7, 8, 9, 10], 4, 11)
    ensures Placed(StateEntries(id), [13, 14, 15, 16], 13, 17) && Placed(InstallEntries(), [18], 18, 19)
  {
    hide SanitizeDescription, Spaced, BinPath, ValidSpec, HardeningEntries;
    HardeningPlaced();
  }

  lemma HardeningPlaced()
    ensures Placed(HardeningEntries(), [4, 5, 6, 7, 8, 9, 10], 4, 11)
  {
  }

  function Repeated(p: nat, n: nat): (ps: seq<nat>)
    ensures |ps| == n && forall i | 0 <= i < n :: ps[i] == p
  {
    seq(n, _ => p)
  }

  lemma HardwarePlaced(ms: Spec) returns (ps: seq<nat>)
    requires ValidSpec(ms)
    ensures Placed(HardwareEntries(ms), ps, 11, 13)
  {
    hide SortStrings, Spaced;
    if ms.hardware.None? {
      ps := [];
    } else {
      SortStringsKeepsMembers(ms.hardware.value.devices);
      var d, g := DeviceEntries(SortStrings(ms.hardware.value.devices)), GroupEntries(SortStrings(ms.hardware.value.groups));
      PlacedAppend(d, Repeated(11, |d|), g, Repeated(12, |g|), 11, 12, 13);
      ps := Repeated(11, |d|) + Repeated(12, |g|);
    }
  }

  lemma ServicePlaced(id: string, ms: Spec) returns (ps: seq<nat>)
    requires ValidSpec(ms)
    ensures Placed(ServiceEntries(id, ms), ps, 2, 18)
  {
    hide Placed, CommandEntries, HardeningEntries, HardwareEntries, StateEntries;
    KeysInOrderHoldTheKeys(ms.env.Keys);
    FixedBlocksPlaced(id, ms);
    var c, h, s := CommandEntries(ms), HardeningEntries(), StateEntries(id);
    var w, e := HardwareEntries(ms), EnvEntries(ms.env, KeysInOrder(ms.env.Keys));
    var ws := HardwarePlaced(ms);
    EnvPlaced(e);
    PlacedAppend(c, [2, 3], h, [4, 5, 6, 7, 8, 9, 10], 2, 4, 11);
    PlacedAppend(c + h, [2, 3] + [4, 5, 6, 7, 8, 9, 10], w, ws, 2, 11, 13);
    PlacedAppend(c + h + w, [2, 3] + [4, 5, 6, 7, 8, 9, 10] + ws, s, [13, 14, 15, 16], 2, 13, 17);
    ps := [2, 3] + [4, 5, 6, 7, 8, 9, 10] + ws + [13, 14, 15, 16];
    PlacedAppend(c + h + w + s, ps, e, Repeated(17, |e|), 2, 17, 18);
    ps := ps + Repeated(17, |e|);
  }

  lemma EnvPlaced(es: seq<Entry>)
    requires forall i | 0 <= i < |es| :: es[i].key == "Environment"
    ensures Placed(es, Repeated(17, |es|), 17, 18)
  {
  }

  lemma GeneratedKeysDiffer(unit: seq<Entry>, id: string, ms: Spec)
    requires ValidSpec(ms) && IsUnitSection(unit)
    ensures var es := EntriesWith(unit, id, ms);
            forall i, j | 0 <= i < j < |es| && SameKey(es[i], es[j]) :: es[i].key in REPEATABLE
  {
    UnitSectionPlaced(unit);
    hide Placed, ServiceEntries, InstallEntries, IsUnitSection;
    FixedBlocksPlaced(id, ms);
    var ps := ServicePlaced(id, ms);
    PlacedAppend(unit, [0, 1], ServiceEntries(id, ms), ps, 0, 2, 18);
    PlacedAppend(unit + ServiceEntries(id, ms), [0, 1] + ps, InstallEntries(), [18], 0, 18, 19);
    PlacedKeysDiffer(EntriesWith(unit, id, ms), [0, 1] + ps + [18]);
  }

  lemma UnitSectionPlaced(unit: seq<Entry>)
    requires IsUnitSection(unit)
    ensures Placed(unit, [0, 1], 0, 2)
  {
    hide HasSuffix;
  }

  // -------------------------------------------------------------- nothing is missing

  lemma HardeningCovers(key: string)
    requires key in REQUIRED
    ensures Service(key, REQUIRED[key]) in HardeningEntries()
  {
    var es := HardeningEntries();
    if key == "DynamicUser" {
      assert es[0] == Service(key, REQUIRED[key]);
    } else if key == "NoNewPrivileges" {
      assert es[1] == Service(key, REQUIRED[key]);
    } else if key == "ProtectSystem" {
      assert es[2] == Service(key, REQUIRED[key]);
    } else if key == "ProtectHome" {
      assert es[3] == Service(key, REQUIRED[key]);
    } else if key == "PrivateTmp" {
      assert es[4] == Service(key, REQUIRED[key]);
    } else if key == "RestrictSUIDSGID" {
      assert es[5] == Service(key, REQUIRED[key]);
    } else {
      assert es[6] == Service(key, REQUIRED[key]);
    }
  }

  lemma HasValue(es: seq<Entry>, e: Entry)
    requires e in es
    ensures Values(es, e.section, e.key) != []
  {
    NoValues(es, e.section, e.key);
  }

  lemma GeneratedIsComplete(unit: seq<Entry>, id: string, ms: Spec)
    requires ValidSpec(ms) && IsUnitSection(unit) && Sound(EntriesWith(unit, id, ms))
    ensures Complete(EntriesWith(unit, id, ms))
  {
    hide Sound, Complete, HardeningEntries, CommandEntries, HardwareEntries, StateEntries, ValidSpec;
    var es := EntriesWith(unit, id, ms);
    forall k | k in REQUIRED
      ensures Service(k, REQUIRED[k]) in es
    {
      HardeningCovers(k);
      assert Service(k, REQUIRED[k]) in ServiceEntries(id, ms);
    }
    NamedEntries(unit, id, ms);
    CompleteByMembers(es, unit[0].value, CommandEntries(ms)[1].value);
  }

  lemma CompleteByMembers(es: seq<Entry>, description: string, command: string)
    requires Sound(es) && forall k <- REQUIRED :: Service(k, REQUIRED[k]) in es
    requires Entry("Unit", "Description", description) in es && Service("ExecStart", command) in es
    requires Entry("Install", "WantedBy", "multi-user.target") in es
    ensures Complete(es)
  {
    hide Values, Sound, ValueAllowed;
    forall k | k in REQUIRED
      ensures Values(es, "Service", k) != []
    {
      HasValue(es, Service(k, REQUIRED[k]));
    }
    HasValue(es, Entry("Unit", "Description", description));
    HasValue(es, Service("ExecStart", command));
    HasValue(es, Entry("Install", "WantedBy", "multi-user.target"));
    var d := SingleValue(es, "Unit", "Description");
    var x := SingleValue(es, "Service", "ExecStart");
    var w := SingleValue(es, "Install", "WantedBy");
    EmptyCommandIsRefused();
  }

  lemma NamedEntries(unit: seq<Entry>, id: string, ms: Spec)
    requires ValidSpec(ms) && IsUnitSection(unit)
    ensures |CommandEntries(ms)| == 2
    ensures Entry("Unit", "Description", unit[0].value) in EntriesWith(unit, id, ms)
    ensures Service("ExecStart", CommandEntries(ms)[1].value) in EntriesWith(unit, id, ms)
    ensures Entry("Install", "WantedBy", "multi-user.target") in EntriesWith(unit, id, ms)
  {
    hide Spaced, BinPath, ValidSpec, HardwareEntries, StateEntries, HardeningEntries, HasSuffix;
    assert unit[0] in unit && CommandEntries(ms)[1] in CommandEntries(ms);
    assert CommandEntries(ms)[1] in ServiceEntries(id, ms);
    assert InstallEntries()[0] in InstallEntries();
  }

  lemma EmptyCommandIsRefused()
    ensures !ValueAllowed("Service", "ExecStart", "")
  {
  }

  // ------------------------------------------------------------------- the theorem

  lemma NameFitsIff(id: string)
    ensures ValidName(UnitName(id)) <==> IsInstanceToken(id)
  {
    var name := UnitName(id);
    assert name[11..|name| - 8] == id && name[|name| - 8..] == ".service";
  }

  predicate IsTextual(s: string) {
    '\0' !in s && '\n' !in s
  }

  lemma KeyValuesAreTextual(es: seq<Entry>)
    requires forall e <- es :: IsKey(e.key) && IsTextual(e.value)
    ensures AllTextual(KeyValues(es))
  {
    forall i | 0 <= i < |es|
      ensures IsTextual(KeyValues(es)[i])
    {
      assert es[i] in es;
    }
  }

  predicate AllTextual(lines: seq<string>) {
    forall i | 0 <= i < |lines| :: IsTextual(lines[i])
  }

  lemma {:induction false} TerminatedHoldsNoNul(lines: seq<string>)
    requires AllTextual(lines)
    ensures '\0' !in Terminated(lines)
  {
    if lines != [] {
      TerminatedHoldsNoNul(lines[1..]);
    }
  }

  lemma UnitSectionIsTextual(unit: seq<Entry>)
    requires IsUnitSection(unit)
    ensures AllTextual(KeyValues(unit))
  {
    hide HasSuffix, IsKey, KeyValues, AllTextual;
    DescriptionIsAllowed(unit[0].value);
    KeyValuesAreTextual(unit);
  }

  lemma HarmlessIsTextual(es: seq<Entry>, section: string)
    requires IsHarmless(es, section)
    ensures AllTextual(KeyValues(es))
  {
    hide IsKey, KeyValues, AllTextual;
    KeyValuesAreTextual(es);
  }

  /** The text splits back into the lines it was written from. */
  lemma GeneratedLines(unit: seq<Entry>, id: string, ms: Spec)
    requires ValidSpec(ms) && AllTextual(KeyValues(unit)) && IsHarmless(ServiceEntries(id, ms), "Service")
    ensures var text := Terminated(LinesWith(unit, id, ms));
            Lines(text) == LinesWith(unit, id, ms) + [""] && '\0' !in text && text != ""
  {
    hide ServiceEntries, ValidSpec, Lines, Terminated, InstallEntries, IsHarmless, AllTextual, LinesWith;
    HarmlessIsTextual(ServiceEntries(id, ms), "Service");
    InstallIsHarmless();
    HarmlessIsTextual(InstallEntries(), "Install");
    var lines := LinesWith(unit, id, ms);
    LinesAreTextual(unit, id, ms);
    TextualLinesSplit(lines);
    TerminatedHoldsNoNul(lines);
    TerminatedIsNotEmpty(lines);
  }

  lemma TextualLinesSplit(lines: seq<string>)
    requires AllTextual(lines)
    ensures Lines(Terminated(lines)) == lines + [""]
  {
    LinesOfTerminated(lines);
  }

  lemma LinesAreTextual(unit: seq<Entry>, id: string, ms: Spec)
    requires ValidSpec(ms)
    requires AllTextual(KeyValues(unit)) && AllTextual(KeyValues(ServiceEntries(id, ms)))
    requires AllTextual(KeyValues(InstallEntries()))
    ensures AllTextual(LinesWith(unit, id, ms)) && LinesWith(unit, id, ms) != []
  {
    hide ValidSpec, ServiceEntries, KeyValues;
    assert AllTextual(["[Unit]"]) && AllTextual(["", "[Service]"]) && AllTextual(["", "[Install]"]);
  }

  lemma TerminatedIsNotEmpty(lines: seq<string>)
    requires lines != []
    ensures Terminated(lines) != ""
  {
  }

  lemma InstallIsHarmless()
    ensures IsHarmless(InstallEntries(), "Install") && IsAllowed(InstallEntries())
  {
    hide ValueAllowed, HasControls, HasSuffix;
    PlainByBytes("multi-user.target");
    WantedByAllowed();
  }

  lemma WantedByAllowed()
    ensures IsKey("WantedBy") && ValueAllowed("Install", "WantedBy", "multi-user.target")
  {
    hide Fields;
  }

  lemma ThreeBlocks(a: seq<Entry>, b: seq<Entry>, c: seq<Entry>)
    ensures IsAllowed(a + b + c) <==> IsAllowed(a) && IsAllowed(b) && IsAllowed(c)
  {
    hide ValueAllowed, HasSuffix;
    var all := a + b + c;
    assert forall x :: x in all <==> x in a || x in b || x in c;
  }

  lemma HarmlessIsReadable(es: seq<Entry>, section: string)
    requires IsHarmless(es, section)
    ensures Readable(es, section)
  {
    forall e | e in es
      ensures !HasSuffix(e.value, "\r")
    {
      NoReturnAtEnd(e.value);
    }
  }

  /** What the policy makes of the generated lines. */
  lemma GeneratedPassesIff(unit: seq<Entry>, id: string, ms: Spec)
    requires ValidSpec(ms) && IsInstanceToken(id) && IsUnitSection(unit)
    ensures var lines, text := LinesWith(unit, id, ms) + [""], Terminated(LinesWith(unit, id, ms));
            && Lines(text) == lines && '\0' !in text && text != ""
            && (Passes(lines) <==> ArgsAllowed(ms.args) && EnvAllowed(ms.env))
            && (Passes(lines) ==>
                  (ReadPlain(lines) == Some(Reading("Install", EntriesWith(unit, id, ms)))
                   && Complete(EntriesWith(unit, id, ms))))
  {
    hide ServiceEntries, ValidSpec, Lines, Terminated, LinesWith, IsKey, ArgsAllowed, EnvAllowed;
    hide ReadPlain, ValueAllowed, HasSuffix, HasControls, Complete, IsUnitSection;
    var s, i := ServiceEntries(id, ms), InstallEntries();
    UnitSectionPasses(unit);
    ServiceAllowedIff(id, ms);
    InstallIsHarmless();
    ThreeBlocks(unit, s, i);
    HarmlessIsReadable(s, "Service");
    UnitSectionIsTextual(unit);
    GeneratedLines(unit, id, ms);
    ReadGenerated(unit, id, ms);
    GeneratedKeysDiffer(unit, id, ms);
    if Sound(EntriesWith(unit, id, ms)) {
      GeneratedIsComplete(unit, id, ms);
    }
    assert forall e <- s :: e in EntriesWith(unit, id, ms);
  }

  /** A unit with any such first section is accepted under the same conditions. */
  lemma UnitWithConformsIff(unit: seq<Entry>, id: string, ms: Spec)
    requires ValidSpec(ms) && IsUnitSection(unit)
    ensures Conforms(UnitName(id), Terminated(LinesWith(unit, id, ms)))
       <==> (IsInstanceToken(id) && ArgsAllowed(ms.args) && EnvAllowed(ms.env)
             && |Terminated(LinesWith(unit, id, ms))| <= MAX_UNIT_SIZE)
  {
    hide ValidName, IsInstanceToken, Passes, Complete, ArgsAllowed, EnvAllowed, Terminated, LinesWith, Lines, ReadPlain;
    hide IsUnitSection;
    NameFitsIff(id);
    if IsInstanceToken(id) {
      GeneratedPassesIff(unit, id, ms);
    }
  }

  /** The policy accepts a generated unit exactly when the name, the arguments, the
      environment and the size are within its limits: nothing else the generator
      writes can be refused. */
  lemma GeneratedUnitConformsIff(id: string, ms: Spec)
    requires ValidSpec(ms)
    ensures Conforms(UnitName(id), UnitText(id, ms))
       <==> (IsInstanceToken(id) && ArgsAllowed(ms.args) && EnvAllowed(ms.env)
             && |UnitText(id, ms)| <= MAX_UNIT_SIZE)
  {
    hide ValidName, IsInstanceToken, Conforms, ArgsAllowed, EnvAllowed, Terminated, LinesWith, IsUnitSection;
    NameFitsIff(id);
    if IsInstanceToken(id) {
      UnitEntriesAreASection(id, ms);
      UnitWithConformsIff(UnitEntries(id, ms), id, ms);
    } else {
      NameMustFit(id, UnitText(id, ms));
    }
  }

  lemma NameMustFit(id: string, text: string)
    ensures Conforms(UnitName(id), text) ==> ValidName(UnitName(id))
  {
  }
}
