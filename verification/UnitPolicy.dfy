// The content policy for managed-service units (internal/unitpolicy/policy.go): its
// line loop, proved against a declarative statement of what is accepted.
module UnitPolicy {
  import opened Wrappers
  import opened GoStrings
  import opened Utf8

  const BIN_ROOT := "/opt/obacht/system/bin"
  const MAX_UNIT_SIZE := 16 * 1024

  datatype Entry = Entry(section: string, key: string, value: string)

  // -------------------------------------------------------------- the patterns used

  predicate IsLower(c: char) { 'a' <= c <= 'z' }
  predicate IsUpper(c: char) { 'A' <= c <= 'Z' }
  predicate IsLetter(c: char) { IsLower(c) || IsUpper(c) }
  predicate IsIdentifier(c: char) { IsLetter(c) || IsDigit(c) || c == '_' }

  /** `[A-Za-z0-9/._:=+,@-]` */
  predicate IsExecChar(c: char) {
    IsLetter(c) || IsDigit(c) || c in "/._:=+,@-"
  }

  /** `[a-z0-9][a-z0-9-]{0,63}` */
  predicate IsInstanceToken(s: string) {
    1 <= |s| <= 64 && s[0] != '-' && forall c <- s :: IsLower(c) || IsDigit(c) || c == '-'
  }

  predicate HasSuffix(s: string, suffix: string) {
    |suffix| <= |s| && s[|s| - |suffix|..] == suffix
  }

  predicate ValidName(name: string) {
    "obacht-svc-" <= name && HasSuffix(name, ".service") && |name| >= 19
    && IsInstanceToken(name[11..|name| - 8])
  }

  function LeadingLetters(s: string): (n: nat)
    ensures n <= |s| && forall i | 0 <= i < n :: IsLetter(s[i])
    ensures n < |s| ==> !IsLetter(s[n])
  {
    if s != "" && IsLetter(s[0]) then 1 + LeadingLetters(s[1..]) else 0
  }

  predicate IsKey(key: string) {
    key != "" && forall c <- key :: IsLetter(c)
  }

  /** `[a-zA-Z0-9@._-]+\.(target|service|socket)` */
  predicate IsUnitToken(s: string) {
    IsDotted(s, ".target") || IsDotted(s, ".service") || IsDotted(s, ".socket")
  }

  predicate IsDotted(s: string, suffix: string) {
    |suffix| < |s| && HasSuffix(s, suffix)
    && forall c <- s[..|s| - |suffix|] :: IsLetter(c) || IsDigit(c) || c in "@._-"
  }

  predicate IsEnvChar(c: char) {
    c >= ' ' && c !in "\"'\\$`"
  }

  /** `[A-Za-z_][A-Za-z0-9_]*=[^"'\\$` + "`" + `\x00-\x1f]*` */
  predicate IsAssignment(s: string) {
    exists n :: 0 < n < |s| && IsAssignmentAt(s, n)
  }

  predicate IsAssignmentAt(s: string, n: nat)
    requires n < |s|
  {
    s[n] == '=' && n > 0 && !IsDigit(s[0])
    && (forall c <- s[..n] :: IsIdentifier(c)) && (forall c <- s[n + 1..] :: IsEnvChar(c))
  }

  // ------------------------------------------------------------------ lines and values

  const REQUIRED := map[
    "DynamicUser" := "yes",
    "NoNewPrivileges" := "yes",
    "ProtectSystem" := "strict",
    "ProtectHome" := "yes",
    "PrivateTmp" := "yes",
    "DevicePolicy" := "closed",
    "RestrictSUIDSGID" := "yes"
  ]

  const ALLOWED_DEVICES := ["char-video4linux rw", "char-media rw", "char-drm rw", "char-dma_heap rw"]
  const ALLOWED_GROUPS := ["video", "render", "input"]
  const REPEATABLE := ["DeviceAllow", "Environment"]

  datatype Line = Blank | Malformed | Header(name: string) | Directive(key: string, value: string)

  /** What the policy takes one line for. */
  function LineOf(raw: string): Line {
    var line := TrimRight(raw, {'\r'});
    if IsBlank(line) then Blank
    else if line != TrimLeft(line, {' ', '\t'}) then Malformed
    else if HasSuffix(line, "\\") then Malformed
    else if "#" <= line || ";" <= line then Malformed
    else if line == "[Unit]" then Header("Unit")
    else if line == "[Service]" then Header("Service")
    else if line == "[Install]" then Header("Install")
    else
      var n := LeadingLetters(line);
      if n > 0 && n < |line| && line[n] == '=' then Directive(line[..n], line[n + 1..]) else Malformed
  }

  /** `validateExecStart`, of the words a command is split into. */
  predicate CommandAllowed(words: seq<string>) {
    words != [] && BIN_ROOT + "/" <= words[0] && !HasDotDot(words[0])
    && forall t <- words :: ExecTokenAllowed(t)
  }

  predicate ExecTokenAllowed(token: string) {
    token != "" && (forall c <- token :: IsExecChar(c)) && !HasDotDot(token)
  }

  /** `validateKV`: the key is known in its section and its value passes. Lists are
      judged by the words they are split into. */
  predicate Permits(section: string, key: string, value: string, words: seq<string>) {
    if section == "Unit" then
      if key == "Description" then value != "" && '\0' !in value
      else (key == "After" || key == "Wants") && forall t <- words :: IsUnitToken(t)
    else if section == "Service" then
      if key in REQUIRED then value == REQUIRED[key]
      else if key == "Type" then value == "simple" || value == "exec"
      else if key == "ExecStart" then CommandAllowed(words)
      else if key == "SupplementaryGroups" then words != [] && forall g <- words :: g in ALLOWED_GROUPS
      else if key == "DeviceAllow" then value in ALLOWED_DEVICES
      else if key == "StateDirectory" then "obacht-svc/" <= value && IsInstanceToken(value[11..])
      else if key == "Environment" then IsAssignment(value)
      else if key == "Restart" then value == "always" || value == "on-failure" || value == "no"
      else if key == "RestartSec" || key == "TimeoutStopSec" then
        1 <= |value| <= 5 && forall c <- value :: IsDigit(c)
      else if key == "UMask" then |value| == 4 && value[0] == '0' && forall c <- value :: '0' <= c <= '7'
      else
        key == "RestrictAddressFamilies"
        && forall f <- words :: f == "AF_UNIX" || f == "AF_INET" || f == "AF_INET6"
    else
      section == "Install" && key == "WantedBy" && value == "multi-user.target"
  }

  predicate ValueAllowed(section: string, key: string, value: string) {
    Permits(section, key, value, Fields(value))
  }

  // ---------------------------------------------------------------- what is accepted

  datatype Reading = Reading(section: string, entries: seq<Entry>)

  /** The entries of well-formed lines, each under the last header before it. */
  function ReadPlain(lines: seq<string>): (r: Option<Reading>)
    ensures r.Some? ==> r.value.section in ["", "Unit", "Service", "Install"]
  {
    if lines == [] then Some(Reading("", []))
    else
      match ReadPlain(lines[..|lines| - 1])
      case None => None
      case Some(r) => ReadPlainLine(r, LineOf(lines[|lines| - 1]))
  }

  function ReadPlainLine(r: Reading, line: Line): Option<Reading> {
    match line
    case Blank => Some(r)
    case Malformed => None
    case Header(name) => Some(r.(section := name))
    case Directive(key, value) =>
      if r.section == "" then None
      else Some(r.(entries := r.entries + [Entry(r.section, key, value)]))
  }

  predicate SameKey(a: Entry, b: Entry) {
    a.section == b.section && a.key == b.key
  }

  predicate Sound(es: seq<Entry>) {
    && (forall e <- es :: ValueAllowed(e.section, e.key, e.value))
    && (forall i, j | 0 <= i < j < |es| && SameKey(es[i], es[j]) :: es[i].key in REPEATABLE)
  }

  /** The values a key is given in a section, in order. */
  function Values(es: seq<Entry>, section: string, key: string): seq<string> {
    if es == [] then []
    else
      var e := es[|es| - 1];
      Values(es[..|es| - 1], section, key)
      + if e.section == section && e.key == key then [e.value] else []
  }

  predicate Complete(es: seq<Entry>) {
    && (forall k <- REQUIRED :: Values(es, "Service", k) != [])
    && |Values(es, "Service", "ExecStart")| == 1 && Values(es, "Service", "ExecStart")[0] != ""
    && |Values(es, "Install", "WantedBy")| == 1
    && |Values(es, "Unit", "Description")| == 1
  }

  predicate Passes(lines: seq<string>) {
    ReadPlain(lines).Some? && Sound(ReadPlain(lines).value.entries)
  }

  predicate FitsLimits(content: string) {
    0 < |content| <= MAX_UNIT_SIZE && '\0' !in content
  }

  /** The whole policy, declaratively. */
  predicate Conforms(name: string, content: string) {
    ValidName(name) && FitsLimits(content)
    && Passes(Lines(content)) && Complete(ReadPlain(Lines(content)).value.entries)
  }

  datatype Verdict = Accepted | BadName | Empty | TooLarge | HasNul | BadLine(number: nat) | Incomplete

  function Count(seen: map<string, nat>, id: string): nat {
    if id in seen then seen[id] else 0
  }

  function Id(section: string, key: string): string {
    section + "/" + key
  }

  /** Checks a unit line by line and stops at the first violation. */
  method Validate(name: string, content: string) returns (v: Verdict)
    ensures v.Accepted? <==> Conforms(name, content)
    ensures v.BadName? <==> !ValidName(name)
    ensures v.Empty? <==> ValidName(name) && content == ""
    ensures v.TooLarge? <==> ValidName(name) && |content| > 16384
    ensures v.HasNul? <==> ValidName(name) && 0 < |content| <= MAX_UNIT_SIZE && '\0' in content
    ensures v.BadLine? ==>
              && 1 <= v.number <= |Lines(content)|
              && Passes(Lines(content)[..v.number - 1]) && !Passes(Lines(content)[..v.number])
    ensures v.Incomplete? <==>
              && ValidName(name) && FitsLimits(content) && Passes(Lines(content))
              && !Complete(ReadPlain(Lines(content)).value.entries)
  {
    hide LineOf, ValueAllowed, Lines, ValidName, Passes, ReadPlain, Values, Tallied, Sound, Id, LastValue;
    if !ValidName(name) {
      return BadName;
    }
    if |content| == 0 {
      return Empty;
    }
    if |content| > MAX_UNIT_SIZE {
      return TooLarge;
    }
    if '\0' in content {
      return HasNul;
    }
    var lines := Lines(content);
    var section := "";
    var seen: map<string, nat> := map[];
    var execStart := "";
    ghost var es: seq<Entry> := [];
    NothingRead(lines);
    var i := 0;
    while i < |lines|
      invariant 0 <= i <= |lines|
      invariant ReadPlain(lines[..i]) == Some(Reading(section, es)) && Sound(es)
      invariant Tallied(es, seen) && execStart == LastValue(Values(es, "Service", "ExecStart"))
    {
      PlainStep(lines, i);
      match LineOf(lines[i]) {
        case Blank =>
        case Malformed =>
          MalformedStep(lines, i);
          return BadLine(i + 1);
        case Header(name) =>
          section := name;
        case Directive(key, value) =>
          if section == "" {
            MalformedStep(lines, i);
            return BadLine(i + 1);
          }
          DirectiveStep(lines, i, es, seen);
          es := es + [Entry(section, key, value)];
          var id := Id(section, key);
          seen := seen[id := Count(seen, id) + 1];
          if seen[id] > 1 && key !in REPEATABLE {
            return BadLine(i + 1);
          }
          if !ValueAllowed(section, key, value) {
            return BadLine(i + 1);
          }
          if id == "Service/ExecStart" {
            execStart := value;
          }
      }
      i := i + 1;
    }
    AllRead(lines, es);
    assert lines[..i] == lines;
    var complete := CheckPresence(es, seen, execStart);
    v := if complete then Accepted else Incomplete;
  }

  /** The three presence checks that follow the line loop. */
  method CheckPresence(ghost es: seq<Entry>, seen: map<string, nat>, execStart: string) returns (ok: bool)
    requires Tallied(es, seen) && execStart == LastValue(Values(es, "Service", "ExecStart"))
    ensures ok <==> Complete(es)
  {
    hide Values;
    TalliedIds();
    var left := REQUIRED.Keys;
    while left != {}
      invariant left <= REQUIRED.Keys
      invariant forall k <- REQUIRED.Keys - left :: Values(es, "Service", k) != []
      decreases left
    {
      var k :| k in left;
      RequiredAreKeys(k);
      assert Count(seen, Id("Service", k)) == |Values(es, "Service", k)|;
      if Count(seen, Id("Service", k)) == 0 {
        return false;
      }
      left := left - {k};
    }
    assert Count(seen, Id("Service", "ExecStart")) == |Values(es, "Service", "ExecStart")|;
    assert Count(seen, Id("Install", "WantedBy")) == |Values(es, "Install", "WantedBy")|;
    assert Count(seen, Id("Unit", "Description")) == |Values(es, "Unit", "Description")|;
    return Count(seen, Id("Service", "ExecStart")) == 1 && execStart != ""
           && Count(seen, Id("Install", "WantedBy")) == 1 && Count(seen, Id("Unit", "Description")) == 1;
  }

  /** What a line must be: blank, one of three headers, or letters, '=' and a value that
      does not end in a backslash. A comment, leading white space, or anything else is not
      taken. */
  lemma LineIff(raw: string, name: string, key: string, value: string)
    ensures var line := TrimRight(raw, {'\r'});
            && (LineOf(raw).Blank? <==> IsBlank(line))
            && (LineOf(raw) == Header(name) <==>
                  (name == "Unit" || name == "Service" || name == "Install") && line == "[" + name + "]")
            && (LineOf(raw) == Directive(key, value) <==>
                  line == key + "=" + value && IsPlainKey(key) && line[|line| - 1] != '\\')
  {
    hide IsPlainKey, IsBlank, LineOf, TrimRight;
    BlankIff(raw);
    HeaderIff(raw, name);
    DirectiveIff(raw, key, value);
  }

  lemma BlankIff(raw: string)
    ensures LineOf(raw).Blank? <==> IsBlank(TrimRight(raw, {'\r'}))
  {
    hide IsBlank, TrimRight, LeadingLetters, HasSuffix;
  }

  lemma HeaderIff(raw: string, name: string)
    ensures LineOf(raw) == Header(name) <==>
              ((name == "Unit" || name == "Service" || name == "Install") && TrimRight(raw, {'\r'}) == "[" + name + "]")
  {
    hide IsBlank, TrimRight, TrimLeft, LeadingLetters;
    var line := TrimRight(raw, {'\r'});
    assert "[" + "Unit" + "]" == "[Unit]" && "[" + "Service" + "]" == "[Service]" && "[" + "Install" + "]" == "[Install]";
    if line == "[Unit]" || line == "[Service]" || line == "[Install]" {
      BracketIsText(line);
      BackslashEnds(line);
      assert line == "[Unit]" || line == "[Service]" ==> line != "[Install]";
    } else {
      hide HasSuffix;
    }
    if LineOf(raw) == Header(name) {
      assert line == "[" + name + "]";
    }
  }

  lemma BackslashEnds(line: string)
    requires line != ""
    ensures HasSuffix(line, "\\") <==> line[|line| - 1] == '\\'
  {
    assert line[|line| - 1..] == [line[|line| - 1]];
  }

  predicate IsDirective(line: string, key: string, value: string) {
    line == key + "=" + value && IsPlainKey(key) && line[|line| - 1] != '\\'
  }

  lemma DirectiveIff(raw: string, key: string, value: string)
    ensures LineOf(raw) == Directive(key, value) <==> IsDirective(TrimRight(raw, {'\r'}), key, value)
  {
    hide LineOf, IsDirective;
    if IsDirective(TrimRight(raw, {'\r'}), key, value) {
      DirectiveIsTaken(raw, key, value);
    }
    if LineOf(raw) == Directive(key, value) {
      TakenIsDirective(raw, key, value);
    }
  }

  lemma DirectiveIsTaken(raw: string, key: string, value: string)
    requires IsDirective(TrimRight(raw, {'\r'}), key, value)
    ensures LineOf(raw) == Directive(key, value)
  {
    hide IsBlank, TrimRight, TrimLeft, HasSuffix, LeadingLetters;
    var line := TrimRight(raw, {'\r'});
    BackslashEnds(line);
    KeyIsLeading(key, value);
    assert line[0] == key[0];
    LetterIsText(line);
    assert line[..|key|] == key && line[|key|] == '=' && line[|key| + 1..] == value;
  }

  lemma TakenIsDirective(raw: string, key: string, value: string)
    requires LineOf(raw) == Directive(key, value)
    ensures IsDirective(TrimRight(raw, {'\r'}), key, value)
  {
    hide IsBlank, TrimRight, TrimLeft, HasSuffix, LeadingLetters;
    var line := TrimRight(raw, {'\r'});
    var n := LeadingLetters(line);
    BackslashEnds(line);
    assert line == line[..n] + "=" + line[n + 1..];
    assert forall i | 0 <= i < |key| :: key[i] == line[i];
  }

  predicate IsPlainKey(key: string) {
    key != "" && forall i | 0 <= i < |key| :: 'a' <= key[i] <= 'z' || 'A' <= key[i] <= 'Z'
  }

  lemma {:induction false} KeyIsLeading(key: string, value: string)
    requires forall i | 0 <= i < |key| :: 'a' <= key[i] <= 'z' || 'A' <= key[i] <= 'Z'
    ensures LeadingLetters(key + "=" + value) == |key|
  {
    if key == "" {
      assert key + "=" + value == "=" + value;
    } else {
      assert (key + "=" + value)[1..] == key[1..] + "=" + value;
      KeyIsLeading(key[1..], value);
    }
  }

  lemma LetterIsText(line: string)
    requires line != "" && IsLetter(line[0])
    ensures !IsBlank(line) && line == TrimLeft(line, {' ', '\t'})
  {
  }

  lemma BracketIsText(line: string)
    requires line != "" && line[0] == '['
    ensures !IsBlank(line) && line == TrimLeft(line, {' ', '\t'})
  {
  }

  /** A name is accepted exactly when it is the unit name of an instance. */
  lemma ValidNameIff(name: string)
    ensures ValidName(name) <==> exists id :: name == "obacht-svc-" + id + ".service" && IsPlainId(id)
  {
    if ValidName(name) {
      var id := name[11..|name| - 8];
      assert forall i | 0 <= i < |id| :: id[i] in id;
      assert name == "obacht-svc-" + id + ".service" && IsPlainId(id);
    }
    if id :| name == "obacht-svc-" + id + ".service" && IsPlainId(id) {
      assert name[..11] == "obacht-svc-" && name[|name| - 8..] == ".service" && name[11..|name| - 8] == id;
    }
  }

  predicate IsPlainId(id: string) {
    1 <= |id| <= 64 && id[0] != '-'
    && forall i | 0 <= i < |id| :: 'a' <= id[i] <= 'z' || '0' <= id[i] <= '9' || id[i] == '-'
  }

  // ------------------------------------------------------------ what the loop relies on

  predicate IsSection(s: string) {
    s == "Unit" || s == "Service" || s == "Install"
  }

  ghost predicate Tallied(es: seq<Entry>, seen: map<string, nat>) {
    forall s, k | IsSection(s) && IsKey(k) :: Count(seen, Id(s, k)) == |Values(es, s, k)|
  }

  function LastValue(values: seq<string>): string {
    if values == [] then "" else values[|values| - 1]
  }

  lemma TalliedIds()
    ensures IsKey("ExecStart") && IsKey("WantedBy") && IsKey("Description")
  {
  }

  lemma RequiredAreKeys(k: string)
    requires k in REQUIRED
    ensures IsKey(k)
  {
    if k == "DynamicUser" {
    } else if k == "NoNewPrivileges" {
    } else if k == "ProtectSystem" {
    } else if k == "ProtectHome" {
    } else if k == "PrivateTmp" {
    } else if k == "DevicePolicy" {
    }
  }

  /** The counter's text key names one section and one key. */
  lemma IdIsInjective(s: string, k: string, s': string, k': string)
    requires IsSection(s) && IsSection(s') && Id(s, k) == Id(s', k')
    ensures s == s' && k == k'
  {
    assert Id(s, k)[0] == s[0] && Id(s', k')[0] == s'[0];
    assert Id(s, k)[|s| + 1..] == k && Id(s', k')[|s'| + 1..] == k';
  }

  lemma ValuesSnoc(es: seq<Entry>, e: Entry, section: string, key: string)
    ensures Values(es + [e], section, key)
         == Values(es, section, key) + if e.section == section && e.key == key then [e.value] else []
  {
    assert (es + [e])[..|es|] == es;
  }

  lemma TallyOne(es: seq<Entry>, e: Entry, seen: map<string, nat>)
    requires Tallied(es, seen) && IsSection(e.section) && IsKey(e.key)
    ensures Count(seen, Id(e.section, e.key)) == |Values(es, e.section, e.key)|
    ensures Tallied(es + [e], seen[Id(e.section, e.key) := Count(seen, Id(e.section, e.key)) + 1])
  {
    hide Values;
    forall s, k | IsSection(s) && IsKey(k)
      ensures Count(seen[Id(e.section, e.key) := Count(seen, Id(e.section, e.key)) + 1], Id(s, k))
           == |Values(es + [e], s, k)|
    {
      ValuesSnoc(es, e, s, k);
      if Id(s, k) == Id(e.section, e.key) {
        IdIsInjective(s, k, e.section, e.key);
      }
    }
  }

  lemma ExecStartTally(es: seq<Entry>, e: Entry)
    requires IsSection(e.section)
    ensures LastValue(Values(es + [e], "Service", "ExecStart"))
         == if Id(e.section, e.key) == "Service/ExecStart" then e.value
            else LastValue(Values(es, "Service", "ExecStart"))
  {
    ValuesSnoc(es, e, "Service", "ExecStart");
    assert Id("Service", "ExecStart") == "Service/ExecStart";
    if Id(e.section, e.key) == "Service/ExecStart" {
      IdIsInjective(e.section, e.key, "Service", "ExecStart");
    }
  }

  lemma KeysOfLine(raw: string)
    ensures LineOf(raw).Header? ==> IsSection(LineOf(raw).name)
    ensures LineOf(raw).Directive? ==> IsKey(LineOf(raw).key)
  {
  }

  lemma {:induction false} NoValues(es: seq<Entry>, section: string, key: string)
    ensures Values(es, section, key) == [] <==> forall e <- es :: !(e.section == section && e.key == key)
  {
    if es != [] {
      NoValues(es[..|es| - 1], section, key);
      assert es == es[..|es| - 1] + [es[|es| - 1]];
    }
  }

  lemma OneMoreIsSound(es: seq<Entry>, e: Entry)
    requires Sound(es)
    ensures Sound(es + [e])
       <==> ValueAllowed(e.section, e.key, e.value) && (e.key in REPEATABLE || Values(es, e.section, e.key) == [])
  {
    hide Values, ValueAllowed;
    NoValues(es, e.section, e.key);
    var all := es + [e];
    assert all[|es|] == e;
    if Sound(all) && e.key !in REPEATABLE {
      forall e' | e' in es
        ensures !(e'.section == e.section && e'.key == e.key)
      {
        var i :| 0 <= i < |es| && es[i] == e';
        assert all[i] == e';
      }
    }
  }

  lemma NothingRead(lines: seq<string>)
    ensures ReadPlain(lines[..0]) == Some(Reading("", [])) && Sound([]) && Tallied([], map[])
    ensures LastValue(Values([], "Service", "ExecStart")) == ""
  {
  }

  lemma AllRead(lines: seq<string>, es: seq<Entry>)
    requires ReadPlain(lines[..|lines|]).Some? && es == ReadPlain(lines[..|lines|]).value.entries
    ensures Sound(es) ==> Passes(lines) && es == ReadPlain(lines).value.entries
  {
    assert lines[..|lines|] == lines;
  }

  lemma PlainStep(lines: seq<string>, i: nat)
    requires i < |lines| && ReadPlain(lines[..i]).Some?
    ensures ReadPlain(lines[..i + 1]) == ReadPlainLine(ReadPlain(lines[..i]).value, LineOf(lines[i]))
  {
    assert lines[..i + 1][..i] == lines[..i];
  }

  lemma {:induction false} PassesPrefix(lines: seq<string>, n: nat)
    requires n <= |lines| && Passes(lines)
    ensures Passes(lines[..n])
  {
    hide LineOf, ValueAllowed;
    if n == |lines| {
      assert lines[..n] == lines;
    } else {
      var shorter := lines[..|lines| - 1];
      assert shorter[..n] == lines[..n];
      var few, many := ReadPlain(shorter).value.entries, ReadPlain(lines).value.entries;
      assert few <= many;
      assert forall i | 0 <= i < |few| :: few[i] == many[i];
      PassesPrefix(shorter, n);
    }
  }

  /** A line that cannot be read fails the whole unit. */
  lemma MalformedStep(lines: seq<string>, i: nat)
    requires i < |lines| && ReadPlain(lines[..i]).Some? && Sound(ReadPlain(lines[..i]).value.entries)
    requires ReadPlainLine(ReadPlain(lines[..i]).value, LineOf(lines[i])).None?
    ensures Passes(lines[..i]) && !Passes(lines[..i + 1]) && !Passes(lines)
  {
    hide Sound, LineOf, ReadPlain;
    PlainStep(lines, i);
    if Passes(lines) {
      PassesPrefix(lines, i + 1);
    }
  }

  /** What one directive does to the reading, and when it fails the whole unit. */
  lemma DirectiveStep(lines: seq<string>, i: nat, es: seq<Entry>, seen: map<string, nat>)
    requires i < |lines| && ReadPlain(lines[..i]).Some? && LineOf(lines[i]).Directive?
    requires ReadPlain(lines[..i]).value.section != "" && ReadPlain(lines[..i]).value.entries == es
    requires Sound(es) && Tallied(es, seen)
    ensures var section := ReadPlain(lines[..i]).value.section;
            var Directive(key, value) := LineOf(lines[i]);
            var id := Id(section, key);
            var e := Entry(section, key, value);
            && Tallied(es + [e], seen[id := Count(seen, id) + 1])
            && LastValue(Values(es + [e], "Service", "ExecStart"))
            == (if id == "Service/ExecStart" then value else LastValue(Values(es, "Service", "ExecStart")))
            && if (key in REPEATABLE || Count(seen, id) == 0) && ValueAllowed(section, key, value)
               then Sound(es + [e])
               else Passes(lines[..i]) && !Passes(lines[..i + 1]) && !Passes(lines)
  {
    hide LineOf, ValueAllowed, Values, Id, LastValue, ReadPlain, Tallied, Sound;
    var section := ReadPlain(lines[..i]).value.section;
    assert IsSection(section);
    KeysOfLine(lines[i]);
    var e := Entry(section, LineOf(lines[i]).key, LineOf(lines[i]).value);
    TallyOne(es, e, seen);
    ExecStartTally(es, e);
    OneMoreIsSound(es, e);
    PlainStep(lines, i);
    if Passes(lines) {
      PassesPrefix(lines, i + 1);
    }
  }

  // ------------------------------------------------------------ values and entries

  /** A value of a key is one some entry gives it. */
  lemma {:induction false} ValueHasEntry(es: seq<Entry>, section: string, key: string, i: nat)
    requires i < |Values(es, section, key)|
    ensures Entry(section, key, Values(es, section, key)[i]) in es
  {
    var shorter := es[..|es| - 1];
    if i < |Values(shorter, section, key)| {
      ValueHasEntry(shorter, section, key, i);
    }
  }

  /** A key that may not repeat has at most the one value. */
  lemma {:induction false} AtMostOnce(es: seq<Entry>, section: string, key: string)
    requires Sound(es) && key !in REPEATABLE
    ensures |Values(es, section, key)| <= 1
  {
    hide ValueAllowed;
    if es != [] {
      var shorter, last := es[..|es| - 1], es[|es| - 1];
      assert Sound(shorter) && es == shorter + [last];
      AtMostOnce(shorter, section, key);
      if last.section == section && last.key == key {
        OneMoreIsSound(shorter, last);
      }
    }
  }

  lemma {:induction false} OnlyValue(es: seq<Entry>, e: Entry)
    requires e in es && |Values(es, e.section, e.key)| <= 1
    ensures Values(es, e.section, e.key) == [e.value]
  {
    if e != es[|es| - 1] {
      OnlyValue(es[..|es| - 1], e);
    }
  }
}
