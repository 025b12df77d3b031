// A reader for the unit file format (systemd.syntax), written without regard to
// the policy: a line ends at a line feed, a carriage return or both, blank lines
// and comments are skipped, continuation lines joined, blanks around keys and
// values dropped, and a command is split at blanks. What the policy accepts is
// judged by the entries and words this reader finds.
module UnitReader {
  import opened Wrappers
  import opened GoStrings
  import opened UnitPolicy
  import opened Utf8

  const BLANKS := {' ', '\t', '\n', '\r'}

  function Strip(s: string): string {
    TrimLeft(TrimRight(s, BLANKS), BLANKS)
  }

  datatype UnitFile = UnitFile(section: string, pending: Option<string>, entries: seq<Entry>, refused: bool)

  /** An odd number of trailing backslashes. */
  predicate EndsEscaped(s: string) {
    s != "" && s[|s| - 1] == '\\' && !EndsEscaped(s[..|s| - 1])
  }

  function IndexOf(s: string, c: char): (n: nat)
    ensures n <= |s| && c !in s[..n]
    ensures n < |s| ==> s[n] == c
  {
    if s == "" || s[0] == c then 0 else 1 + IndexOf(s[1..], c)
  }

  /** A whole logical line: a header, an assignment, or nothing. */
  function Assign(u: UnitFile, text: string): UnitFile {
    var line := Strip(text);
    if line == "" then u
    else if line[0] == '[' then
      if line[|line| - 1] == ']' && |line| >= 2 then u.(section := line[1..|line| - 1]) else u.(refused := true)
    else
      var n := IndexOf(line, '=');
      if n == |line| || u.section == "" then u
      else u.(entries := u.entries + [Entry(u.section, Strip(line[..n]), Strip(line[n + 1..]))])
  }

  function ReadLine(u: UnitFile, raw: string): UnitFile {
    var line := TrimLeft(raw, BLANKS);
    if line != "" && (line[0] == '#' || line[0] == ';') then u
    else
      var text := if u.pending.Some? then u.pending.value + line else line;
      if EndsEscaped(text) then u.(pending := Some(text[..|text| - 1] + " "))
      else Assign(u.(pending := None), text)
  }

  function ReadLines(lines: seq<string>): UnitFile {
    if lines == [] then UnitFile("", None, [], false)
    else ReadLine(ReadLines(lines[..|lines| - 1]), lines[|lines| - 1])
  }

  /** The bytes before the first line end. */
  function LineEnd(s: string): (n: nat)
    ensures n <= |s| && '\n' !in s[..n] && '\r' !in s[..n]
    ensures n < |s| ==> s[n] == '\n' || s[n] == '\r'
  {
    if s == "" || s[0] == '\n' || s[0] == '\r' then 0 else 1 + LineEnd(s[1..])
  }

  function EndWidth(s: string): (n: nat)
    requires s != ""
    ensures n <= |s|
  {
    if "\r\n" <= s then 2 else 1
  }

  /** What follows the first line and its end. */
  function AfterLine(s: string): (rest: string)
    requires LineEnd(s) < |s|
    ensures |rest| < |s|
  {
    s[LineEnd(s) + EndWidth(s[LineEnd(s)..])..]
  }

  function PhysicalLines(s: string): (lines: seq<string>)
    decreases |s|
  {
    if LineEnd(s) == |s| then [s] else [s[..LineEnd(s)]] + PhysicalLines(AfterLine(s))
  }

  lemma {:induction false} LinesHoldNoReturn(s: string)
    ensures forall l <- PhysicalLines(s) :: '\r' !in l
    decreases |s|
  {
    if LineEnd(s) < |s| {
      LinesHoldNoReturn(AfterLine(s));
    }
  }

  lemma FirstPhysicalLine(s: string)
    ensures LineEnd(s) == |s| ==> PhysicalLines(s) == [s]
    ensures LineEnd(s) < |s| ==> PhysicalLines(s) == [s[..LineEnd(s)]] + PhysicalLines(AfterLine(s))
  {
  }

  function ReadUnit(content: string): UnitFile {
    var u := ReadLines(PhysicalLines(content));
    if u.pending.Some? then Assign(u.(pending := None), u.pending.value) else u
  }

  /** The bytes before the first blank. */
  function WordEnd(s: string): (n: nat)
    ensures n <= |s| && forall c <- s[..n] :: c !in BLANKS
    ensures n < |s| ==> s[n] in BLANKS
  {
    if s == "" || s[0] in BLANKS then 0 else 1 + WordEnd(s[1..])
  }

  /** The words of a value. */
  function Words(s: string): seq<string>
    decreases |s|
  {
    if s == "" then []
    else if s[0] in BLANKS then Words(s[1..])
    else [s[..WordEnd(s)]] + Words(s[WordEnd(s)..])
  }

  // ----------------------------------------------------------------- what is promised

  predicate IsAlphanumeric(c: char) {
    'a' <= c <= 'z' || 'A' <= c <= 'Z' || '0' <= c <= '9'
  }

  /** No shell or unit file syntax, and no way up the tree. */
  predicate IsPlainArgument(w: string) {
    w != "" && forall i | 0 <= i < |w| ::
      && (IsAlphanumeric(w[i]) || w[i] in ['/', '.', '_', ':', '=', '+', ',', '@', '-'])
      && (w[i] == '.' && i + 1 < |w| ==> w[i + 1] != '.')
  }

  /** A command: a binary below the root, and plain arguments. */
  predicate IsPlainCommand(words: seq<string>) {
    words != [] && "/opt/obacht/system/bin/" <= words[0] && forall w <- words :: IsPlainArgument(w)
  }

  predicate RunsOneListedBinary(values: seq<string>) {
    |values| == 1 && IsPlainCommand(Words(values[0]))
  }

  predicate NamesUnit(w: string) {
    exists n | 0 < n < |w| :: EndsName(w, n)
  }

  predicate EndsName(w: string, n: nat)
    requires n < |w|
  {
    && w[n..] in [".target", ".service", ".socket"]
    && forall i | 0 <= i < n :: IsAlphanumeric(w[i]) || w[i] in ['@', '.', '_', '-']
  }

  /** One directory of its own below obacht-svc. */
  predicate IsOwnDirectory(v: string) {
    "obacht-svc/" <= v && 1 <= |v| - 11 <= 64 && v[11] != '-'
    && forall i | 11 <= i < |v| :: 'a' <= v[i] <= 'z' || '0' <= v[i] <= '9' || v[i] == '-'
  }

  /** NAME=value, with nothing that is quoted, escaped, expanded or not printable. */
  predicate SetsVariable(v: string) {
    exists n | 0 < n < |v| :: SetsAt(v, n)
  }

  predicate SetsAt(v: string, n: nat)
    requires 0 < n < |v|
  {
    && v[n] == '=' && !('0' <= v[0] <= '9')
    && (forall i | 0 <= i < n :: IsAlphanumeric(v[i]) || v[i] == '_')
    && forall i | n < i < |v| :: v[i] >= ' ' && v[i] !in ['"', '\'', '\\', '$', '`']
  }

  /** What a setting may be, of its value and the words a list is split into; a
      description may say anything. */
  predicate IsFitting(section: string, key: string, v: string, words: seq<string>) {
    match section
    case "Unit" =>
      key == "Description" || ((key == "After" || key == "Wants") && forall w <- words :: NamesUnit(w))
    case "Service" => FitsService(key, v, words)
    case "Install" => key == "WantedBy" && v == "multi-user.target"
    case _ => false
  }

  predicate FitsService(key: string, v: string, words: seq<string>) {
    match key
    case "DynamicUser" => v == "yes"
    case "NoNewPrivileges" => v == "yes"
    case "ProtectSystem" => v == "strict"
    case "ProtectHome" => v == "yes"
    case "PrivateTmp" => v == "yes"
    case "DevicePolicy" => v == "closed"
    case "RestrictSUIDSGID" => v == "yes"
    case "Type" => v in ["simple", "exec"]
    case "ExecStart" => IsPlainCommand(words)
    case "SupplementaryGroups" => words != [] && forall w <- words :: w in ["video", "render", "input"]
    case "DeviceAllow" => v in ["char-video4linux rw", "char-media rw", "char-drm rw", "char-dma_heap rw"]
    case "StateDirectory" => IsOwnDirectory(v)
    case "Environment" => SetsVariable(v)
    case "Restart" => v in ["always", "on-failure", "no"]
    case "RestartSec" => IsShortNumber(v)
    case "TimeoutStopSec" => IsShortNumber(v)
    case "UMask" => |v| == 4 && v[0] == '0' && forall i | 0 <= i < 4 :: '0' <= v[i] <= '7'
    case "RestrictAddressFamilies" => forall w <- words :: w in ["AF_UNIX", "AF_INET", "AF_INET6"]
    case _ => false
  }

  predicate IsShortNumber(v: string) {
    1 <= |v| <= 5 && forall i | 0 <= i < |v| :: '0' <= v[i] <= '9'
  }

  /** The reader, too, finds nothing but what fits. */
  predicate IsInForce(e: Entry) {
    IsFitting(e.section, e.key, e.value, Words(e.value))
  }

  /** Every hardening directive is in force, and nothing beyond the list is said. */
  predicate Hardened(es: seq<Entry>) {
    && (forall d <- ["DynamicUser", "NoNewPrivileges", "ProtectHome", "PrivateTmp", "RestrictSUIDSGID"] ::
          Values(es, "Service", d) == ["yes"])
    && Values(es, "Service", "ProtectSystem") == ["strict"]
    && Values(es, "Service", "DevicePolicy") == ["closed"]
    && RunsOneListedBinary(Values(es, "Service", "ExecStart"))
    && Values(es, "Install", "WantedBy") == ["multi-user.target"]
    && |Values(es, "Unit", "Description")| == 1
    && (forall e <- es :: IsInForce(e))
    && forall e <- es :: e.key in ["DeviceAllow", "Environment"] || Values(es, e.section, e.key) == [e.value]
  }

  // ----------------------------------------- the policy's rules are the reader's

  lemma ArgumentIff(w: string)
    ensures ExecTokenAllowed(w) <==> IsPlainArgument(w)
  {
    if IsPlainArgument(w) {
      forall c | c in w
        ensures IsExecChar(c)
      {
        var i :| 0 <= i < |w| && w[i] == c;
      }
    } else if ExecTokenAllowed(w) {
      assert forall i | 0 <= i < |w| :: IsExecChar(w[i]);
    }
  }

  lemma CommandIff(words: seq<string>)
    ensures CommandAllowed(words) <==> IsPlainCommand(words)
  {
    hide ExecTokenAllowed, IsPlainArgument;
    assert BIN_ROOT + "/" == "/opt/obacht/system/bin/";
    forall w | w in words
      ensures ExecTokenAllowed(w) <==> IsPlainArgument(w)
    {
      ArgumentIff(w);
    }
    if words != [] && ExecTokenAllowed(words[0]) {
      TokenHasNoDots(words[0]);
    }
  }

  lemma TokenHasNoDots(w: string)
    requires ExecTokenAllowed(w)
    ensures !HasDotDot(w)
  {
  }

  lemma UnitNameIff(w: string)
    ensures IsUnitToken(w) <==> NamesUnit(w)
  {
    DottedIff(w, ".target");
    DottedIff(w, ".service");
    DottedIff(w, ".socket");
    if NamesUnit(w) {
      var n :| 0 < n < |w| && EndsName(w, n);
      assert |w[n..]| == |w| - n;
    }
  }

  lemma DottedIff(w: string, suffix: string)
    requires suffix in [".target", ".service", ".socket"]
    ensures IsDotted(w, suffix) <==> |w| > |suffix| && w[|w| - |suffix|..] == suffix && EndsName(w, |w| - |suffix|)
  {
    if |w| > |suffix| && w[|w| - |suffix|..] == suffix {
      var name := w[..|w| - |suffix|];
      if IsDotted(w, suffix) {
        assert forall i | 0 <= i < |name| :: name[i] in name;
      }
    }
  }

  lemma DirectoryIff(v: string)
    ensures IsOwnDirectory(v) <==> "obacht-svc/" <= v && IsInstanceToken(v[11..])
  {
    if "obacht-svc/" <= v {
      var id := v[11..];
      if IsInstanceToken(id) {
        assert forall i | 11 <= i < |v| :: v[i] == id[i - 11] && id[i - 11] in id;
      }
    }
  }

  lemma AssignmentIff(v: string)
    ensures IsAssignment(v) <==> SetsVariable(v)
  {
    forall n | 0 < n < |v|
      ensures IsAssignmentAt(v, n) <==> SetsAt(v, n)
    {
      AssignmentAtIff(v, n);
    }
  }

  lemma EnvCharIff(c: char)
    ensures IsEnvChar(c) <==> c >= ' ' && c !in ['"', '\'', '\\', '$', '`']
  {
    assert "\"'\\$`" == ['"', '\'', '\\', '$', '`'];
  }

  lemma AssignmentAtIff(v: string, n: nat)
    requires 0 < n < |v|
    ensures IsAssignmentAt(v, n) <==> SetsAt(v, n)
  {
    hide IsEnvChar;
    var name, value := v[..n], v[n + 1..];
    if IsAssignmentAt(v, n) {
      assert forall i | 0 <= i < n :: v[i] == name[i] && name[i] in name;
      forall i | n < i < |v|
        ensures v[i] >= ' ' && v[i] !in ['"', '\'', '\\', '$', '`']
      {
        assert v[i] == value[i - n - 1] && v[i] in value;
        EnvCharIff(v[i]);
      }
    } else if SetsAt(v, n) {
      forall c | c in value
        ensures IsEnvChar(c)
      {
        var i :| 0 <= i < |value| && value[i] == c;
        assert v[n + 1 + i] == c;
        EnvCharIff(c);
      }
    }
  }

  lemma DigitsIff(v: string)
    ensures (forall c <- v :: IsDigit(c)) <==> forall i | 0 <= i < |v| :: '0' <= v[i] <= '9'
    ensures (forall c <- v :: '0' <= c <= '7') <==> forall i | 0 <= i < |v| :: '0' <= v[i] <= '7'
  {
    if forall c <- v :: IsDigit(c) {
      assert forall i | 0 <= i < |v| :: v[i] in v;
    }
    if forall c <- v :: '0' <= c <= '7' {
      assert forall i | 0 <= i < |v| :: v[i] in v;
    }
  }

  lemma RequiredIff(key: string, v: string, words: seq<string>)
    requires key in REQUIRED
    ensures FitsService(key, v, words) <==> v == REQUIRED[key]
  {
    if key == "ProtectSystem" {
    } else if key == "DevicePolicy" {
    } else {
      assert REQUIRED[key] == "yes";
    }
  }

  /** Rule by rule, what the policy permits is what fits, for any words. */
  lemma PermittedIff(section: string, key: string, v: string, words: seq<string>)
    ensures IsFitting(section, key, v, words)
       <==> Permits(section, key, v, words) || (section == "Unit" && key == "Description")
  {
    hide IsUnitToken, NamesUnit;
    if section == "Unit" {
      forall w | w in words
        ensures IsUnitToken(w) <==> NamesUnit(w)
      {
        UnitNameIff(w);
      }
    } else if section == "Service" {
      ServiceIff(key, v, words);
    }
  }

  /** A value is allowed exactly when it fits, by the words the policy splits it into, and
      a description is there and holds no NUL. */
  lemma AllowedIff(section: string, key: string, value: string)
    ensures ValueAllowed(section, key, value)
       <==> (IsFitting(section, key, value, Fields(value))
             && (section == "Unit" && key == "Description" ==> value != "" && '\0' !in value))
  {
    hide IsFitting, Fields;
    PermittedIff(section, key, value, Fields(value));
  }

  lemma ServiceIff(key: string, v: string, words: seq<string>)
    ensures FitsService(key, v, words) <==> Permits("Service", key, v, words)
  {
    hide CommandAllowed, IsPlainCommand, IsAssignment, SetsVariable, IsInstanceToken, IsOwnDirectory;
    if key in REQUIRED {
      RequiredIff(key, v, words);
    } else {
      OtherServiceIff(key, v, words);
    }
  }

  lemma OtherServiceIff(key: string, v: string, words: seq<string>)
    requires key !in REQUIRED
    ensures FitsService(key, v, words) <==> Permits("Service", key, v, words)
  {
    hide CommandAllowed, IsPlainCommand, IsAssignment, SetsVariable, IsInstanceToken, IsOwnDirectory;
    CommandIff(words);
    AssignmentIff(v);
    DirectoryIff(v);
    DigitsIff(v);
  }

  // ---------------------------------------------------------------- trimming a value

  /** Stripping first drops the carriage returns a value's line ended in. */
  lemma StripAfterReturn(s: string)
    ensures Strip(TrimRight(s, {'\r'})) == Strip(s)
    ensures Strip(TrimRight(s, BLANKS)) == Strip(s)
  {
    TrimRightTwice(s, {'\r'}, BLANKS);
    TrimRightTwice(s, BLANKS, BLANKS);
  }

  lemma FieldsOfStripped(s: string)
    ensures Fields(Strip(s)) == Fields(s)
  {
    FieldsOfRightTrimmed(s, BLANKS);
    FieldsOfLeftTrimmed(TrimRight(s, BLANKS), BLANKS);
  }

  lemma StripKeepsAssignment(s: string)
    requires IsAssignment(s)
    ensures IsAssignment(Strip(s))
  {
    var n :| 0 < n < |s| && IsAssignmentAt(s, n);
    var head, tail := s[..n + 1], s[n + 1..];
    assert s == head + tail;
    TrimRightBehind(head, tail, BLANKS);
    var t := TrimRight(tail, BLANKS);
    assert s[0] in s[..n];
    assert Strip(s) == head + t;
    AssignmentWithTail(head, tail, t);
  }

  lemma AssignmentWithTail(head: string, tail: string, t: string)
    requires head != "" && IsAssignmentAt(head + tail, |head| - 1) && t <= tail
    ensures IsAssignment(head + t)
  {
    var n := |head| - 1;
    var s, s' := head + tail, head + t;
    assert s[..n] == s'[..n] == head[..n] && s[n + 1..] == tail && s'[n + 1..] == t;
    assert s'[0] == s[0];
    assert IsAssignmentAt(s', n);
  }

  predicate EndsInText(s: string) {
    s != "" && s[0] !in BLANKS && s[|s| - 1] !in BLANKS
  }

  /** The keys whose value is a list of words. */
  predicate IsList(section: string, key: string) {
    || (section == "Unit" && (key == "After" || key == "Wants"))
    || (section == "Service" && (key == "ExecStart" || key == "SupplementaryGroups" || key == "RestrictAddressFamilies"))
  }

  lemma ListsGoByFields(section: string, key: string, v: string, w: string)
    requires IsList(section, key) && Fields(v) == Fields(w) && ValueAllowed(section, key, v)
    ensures ValueAllowed(section, key, w)
  {
  }

  lemma RequiredEndInText(key: string)
    requires key in REQUIRED
    ensures EndsInText(REQUIRED[key])
  {
    assert REQUIRED[key] == "yes" || REQUIRED[key] == "strict" || REQUIRED[key] == "closed";
  }

  lemma DevicesEndInText(value: string)
    requires value in ALLOWED_DEVICES
    ensures EndsInText(value)
  {
  }

  lemma DirectoryEndsInText(value: string)
    requires "obacht-svc/" <= value && IsInstanceToken(value[11..])
    ensures EndsInText(value)
  {
    assert value[|value| - 1] == value[11..][|value| - 12];
    assert value[|value| - 1] in value[11..];
  }

  lemma OthersEndInText(key: string, value: string)
    requires ValueAllowed("Service", key, value) && !IsList("Service", key) && key != "Environment"
    ensures EndsInText(value)
  {
    hide IsInstanceToken, CommandAllowed, IsAssignment, Fields, EndsInText;
    if key in REQUIRED {
      RequiredEndInText(key);
    } else if key == "DeviceAllow" {
      DevicesEndInText(value);
    } else if key == "StateDirectory" {
      DirectoryEndsInText(value);
    } else if key == "UMask" || key == "RestartSec" || key == "TimeoutStopSec" {
      NumbersEndInText(value);
    } else {
      WordEndsInText(value);
    }
  }

  lemma NumbersEndInText(value: string)
    requires value != "" && forall c <- value :: '0' <= c <= '9'
    ensures EndsInText(value)
  {
    assert value[|value| - 1] in value && value[0] in value;
  }

  lemma WordEndsInText(value: string)
    requires value in ["simple", "exec", "always", "on-failure", "no"]
    ensures EndsInText(value)
  {
  }

  /** Stripping an allowed value leaves an allowed value; only a description can become empty. */
  lemma StripKeepsAllowed(section: string, key: string, value: string)
    requires ValueAllowed(section, key, value)
    ensures ValueAllowed(section, key, Strip(value)) || (section == "Unit" && key == "Description")
    ensures section == "Service" && key in REQUIRED ==> Strip(value) == value
    ensures section == "Install" ==> Strip(value) == value
  {
    if IsList(section, key) {
      FieldsOfStripped(value);
      ListsGoByFields(section, key, value, Strip(value));
      ListsAreNotRequired(key);
    } else {
      StripKeepsOthers(section, key, value);
    }
  }

  lemma ListsAreNotRequired(key: string)
    ensures IsList("Service", key) ==> key !in REQUIRED
    ensures "Environment" !in REQUIRED
  {
  }

  lemma StripKeepsOthers(section: string, key: string, value: string)
    requires ValueAllowed(section, key, value) && !IsList(section, key)
    ensures ValueAllowed(section, key, Strip(value)) || (section == "Unit" && key == "Description")
    ensures (section == "Service" && key in REQUIRED) || section == "Install" ==> Strip(value) == value
  {
    hide Strip, IsAssignment;
    ListsAreNotRequired(key);
    if section == "Service" && key == "Environment" {
      StripKeepsAssignment(value);
    } else if section == "Service" {
      OthersEndInText(key, value);
      EndsAreNotBlank(value);
    } else if section == "Install" {
      EndsAreNotBlank(value);
    }
  }

  lemma EndsAreNotBlank(s: string)
    requires EndsInText(s)
    ensures Strip(s) == s
  {
  }

  // -------------------------------------------------------- the two readings agree

  function Stripped(e: Entry): Entry {
    e.(value := Strip(e.value))
  }

  function AllStripped(es: seq<Entry>): seq<Entry> {
    seq(|es|, i requires 0 <= i < |es| => Stripped(es[i]))
  }

  /** A line the policy takes for blank is one the reader skips. */
  lemma BlankLineIsSkipped(u: UnitFile, raw: string)
    requires u.pending.None? && LineOf(raw).Blank?
    ensures ReadLine(u, raw) == u
  {
    BlankBytes(TrimRight(raw, {'\r'}));
    var crs := TrimmedTail(raw, {'\r'});
    NothingSaid(u, raw);
  }

  lemma NothingSaid(u: UnitFile, raw: string)
    requires u.pending.None? && forall c <- raw :: IsAsciiSpace(c) || c as int >= 0x80
    ensures ReadLine(u, raw) == u
  {
    hide TrimLeft, TrimRight;
    var line := TrimLeft(raw, BLANKS);
    assert !EndsEscaped(line) by {
      if line != "" {
        assert line[|line| - 1] in line;
      }
    }
    var rest := Strip(line);
    assert forall c <- rest :: c in raw;
    if rest != "" {
      assert rest[0] in rest && '=' !in rest;
    }
  }

  /** Any other accepted line is a whole logical line. */
  lemma TextLineIsLogical(u: UnitFile, raw: string, line: string)
    requires u.pending.None? && line == TrimRight(raw, {'\r'})
    requires line != "" && (IsLetter(line[0]) || line[0] == '[') && !HasSuffix(line, "\\")
    ensures ReadLine(u, raw) == Assign(u, line)
  {
    hide Strip;
    StripAfterReturn(raw);
    assert raw[0] == line[0] && TrimLeft(raw, BLANKS) == raw;
    assert line == raw || raw[|raw| - 1] == '\r';
    assert line[|line| - 1..] == [line[|line| - 1]];
  }

  lemma AssignHeader(u: UnitFile, name: string)
    requires IsSection(name)
    ensures Assign(u, "[" + name + "]") == u.(section := name)
  {
    var line := "[" + name + "]";
    assert line[0] == '[' && line[|line| - 1] == ']' && line[1..|line| - 1] == name;
    EndsAreNotBlank(line);
  }

  lemma AssignDirective(u: UnitFile, key: string, value: string)
    requires IsKey(key) && u.section != ""
    ensures Assign(u, key + "=" + value) == u.(entries := u.entries + [Entry(u.section, key, Strip(value))])
  {
    var head, line := key + "=", key + "=" + value;
    var t := TrimRight(value, BLANKS);
    TrimRightBehind(head, value, BLANKS);
    assert key[0] in key;
    assert Strip(line) == head + t;
    IndexBehindKey(key, t);
    assert (head + t)[..|key|] == key && (head + t)[|key| + 1..] == t;
    assert key[|key| - 1] in key;
    EndsAreNotBlank(key);
    StripAfterReturn(value);
  }

  lemma {:induction false} IndexBehindKey(key: string, rest: string)
    requires '=' !in key
    ensures IndexOf(key + "=" + rest, '=') == |key|
  {
    var s := key + "=" + rest;
    if key != "" {
      assert s[0] == key[0] && s[1..] == key[1..] + "=" + rest;
      IndexBehindKey(key[1..], rest);
    }
  }

  lemma DirectiveText(raw: string)
    requires LineOf(raw).Directive?
    ensures var line := TrimRight(raw, {'\r'});
            && line == LineOf(raw).key + "=" + LineOf(raw).value && !HasSuffix(line, "\\")
            && IsLetter(line[0])
  {
    hide IsBlank, TrimLeft, TrimRight;
  }

  /** Both readings take the same step on a line the policy can read. */
  lemma SameStep(u: UnitFile, r: Reading, raw: string)
    requires u == UnitFile(r.section, None, AllStripped(r.entries), false)
    requires ReadPlainLine(r, LineOf(raw)).Some?
    ensures var r' := ReadPlainLine(r, LineOf(raw)).value;
            ReadLine(u, raw) == UnitFile(r'.section, None, AllStripped(r'.entries), false)
  {
    hide ReadLine, Assign, Strip, LineOf, TrimRight, HasSuffix, IsLetter, IsKey;
    KeysOfLine(raw);
    match LineOf(raw)
    case Blank =>
      BlankLineIsSkipped(u, raw);
    case Header(name) =>
      HeaderText(raw);
      TextLineIsLogical(u, raw, "[" + name + "]");
      AssignHeader(u, name);
    case Directive(key, value) =>
      DirectiveText(raw);
      TextLineIsLogical(u, raw, key + "=" + value);
      AssignDirective(u, key, value);
      assert AllStripped(r.entries + [Entry(r.section, key, value)])
          == AllStripped(r.entries) + [Entry(r.section, key, Strip(value))];
  }

  lemma HeaderText(raw: string)
    requires LineOf(raw).Header?
    ensures var line := TrimRight(raw, {'\r'});
            line == "[" + LineOf(raw).name + "]" && !HasSuffix(line, "\\")
  {
  }

  /** Over a whole accepted unit the reader finds the policy's entries, their values stripped. */
  lemma {:induction false} ReadingsAgree(lines: seq<string>)
    requires ReadPlain(lines).Some?
    ensures var r := ReadPlain(lines).value;
            ReadLines(lines) == UnitFile(r.section, None, AllStripped(r.entries), false)
  {
    if lines != [] {
      var shorter := lines[..|lines| - 1];
      ReadingsAgree(shorter);
      SameStep(ReadLines(shorter), ReadPlain(shorter).value, lines[|lines| - 1]);
    } else {
      assert AllStripped([]) == [];
    }
  }
}
