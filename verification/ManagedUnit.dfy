// The generator of managed-service units (internal/runtime/system/managed.go)
// and its agreement with the unit policy, which knows nothing of the generator.
module ManagedUnit {
  import opened Wrappers
  import opened Utf8
  import opened Utf16Order
  import opened GoStrings
  import opened UnitPolicy
  import opened UnitReader

  datatype Hardware = Hardware(groups: seq<string>, devices: seq<string>)

  /** `urlAllowed`: the download URL parses, is https and names a listed host. */
  datatype Spec = Spec(
    kind: string,
    binary: string,
    binaryUrl: string,
    urlAllowed: bool,
    binaryDigest: string,
    archive: string,
    args: seq<string>,
    env: map<string, string>,
    hardware: Option<Hardware>,
    listenPorts: seq<int>
  )

  const DEVICE_RULES := map[
    "/dev/video*" := "char-video4linux rw",
    "/dev/media*" := "char-media rw",
    "/dev/dri/*" := "char-drm rw",
    "/dev/dma_heap/*" := "char-dma_heap rw"
  ]

  predicate HasControls(s: string) {
    '\0' in s || '\n' in s || '\r' in s
  }

  /** `ManagedServiceSpec.validate`. */
  predicate ValidSpec(ms: Spec) {
    && ms.binary == "mediamtx"
    && ms.binaryUrl != "" && ms.urlAllowed
    && "sha256:" <= ms.binaryDigest && |ms.binaryDigest| == 71
    && (forall c <- ms.binaryDigest[7..] :: IsDigit(c) || 'a' <= c <= 'f')
    && (ms.archive == "" || ms.archive == "tgz")
    && (forall a <- ms.args :: !HasControls(a))
    && (forall k <- ms.env :: k != "" && !HasControls(k) && '=' !in k && !HasControls(ms.env[k]))
    && (ms.hardware.Some? ==>
          && (forall g <- ms.hardware.value.groups :: g in ALLOWED_GROUPS)
          && (forall d <- ms.hardware.value.devices :: d in DEVICE_RULES))
    && (forall p <- ms.listenPorts :: 1 <= p <= 65535)
  }

  predicate IsOneLine(s: string) {
    forall i | 0 <= i < |s| :: s[i] != '\0' && s[i] != '\n' && s[i] != '\r'
  }

  predicate IsHexDigest(s: string) {
    |s| == 64 && forall i | 0 <= i < 64 :: '0' <= s[i] <= '9' || 'a' <= s[i] <= 'f'
  }

  /** What a spec must say, part by part. */
  lemma ValidSpecIff(ms: Spec)
    ensures ValidSpec(ms) <==>
              && ms.binary == "mediamtx" && ms.binaryUrl != "" && ms.urlAllowed
              && (exists h :: ms.binaryDigest == "sha256:" + h && IsHexDigest(h))
              && ms.archive in ["", "tgz"]
              && (forall a <- ms.args :: IsOneLine(a))
              && (forall k <- ms.env :: k != "" && IsOneLine(k) && '=' !in k && IsOneLine(ms.env[k]))
              && (ms.hardware.Some? ==>
                    && (forall g <- ms.hardware.value.groups :: g in ["video", "render", "input"])
                    && (forall d <- ms.hardware.value.devices ::
                          d in ["/dev/video*", "/dev/media*", "/dev/dri/*", "/dev/dma_heap/*"]))
              && (forall p <- ms.listenPorts :: 0 < p < 0x1_0000)
  {
    DigestIff(ms.binaryDigest);
    forall s
      ensures HasControls(s) <==> !IsOneLine(s)
    {
      ControlsIff(s);
    }
    hide HasControls, IsOneLine, IsHexDigest;
    assert DEVICE_RULES.Keys == {"/dev/video*", "/dev/media*", "/dev/dri/*", "/dev/dma_heap/*"};
  }

  lemma ControlsIff(s: string)
    ensures HasControls(s) <==> !IsOneLine(s)
  {
    if HasControls(s) {
      var c :| c in s && (c == '\0' || c == '\n' || c == '\r');
      var i :| 0 <= i < |s| && s[i] == c;
    }
  }

  lemma DigestIff(s: string)
    ensures (exists h :: s == "sha256:" + h && IsHexDigest(h))
       <==> "sha256:" <= s && |s| == 71 && forall c <- s[7..] :: IsDigit(c) || 'a' <= c <= 'f'
  {
    if "sha256:" <= s && |s| == 71 && forall c <- s[7..] :: IsDigit(c) || 'a' <= c <= 'f' {
      assert forall i | 0 <= i < 64 :: s[7..][i] in s[7..];
      assert s == "sha256:" + s[7..] && IsHexDigest(s[7..]);
    }
    if h :| s == "sha256:" + h && IsHexDigest(h) {
      assert s[7..] == h;
    }
  }

  function UnitName(id: string): string {
    "obacht-svc-" + id + ".service"
  }

  /** `filepath.Join` of clean parts. */
  function BinPath(ms: Spec): string
    requires ValidSpec(ms)
  {
    BIN_ROOT + "/" + ms.binaryDigest[7..] + "/" + ms.binary
  }

  /** The binary is addressed by its content. */
  lemma BinaryIsAddressed(a: Spec, b: Spec)
    requires ValidSpec(a) && ValidSpec(b)
    ensures BinPath(a) == "/opt/obacht/system/bin/" + a.binaryDigest[7..] + "/mediamtx"
    ensures BinPath(a) == BinPath(b) <==> a.binaryDigest == b.binaryDigest
  {
    assert BIN_ROOT + "/" == "/opt/obacht/system/bin/" && "/" + "mediamtx" == "/mediamtx";
    var x, y := a.binaryDigest[7..], b.binaryDigest[7..];
    assert a.binaryDigest == "sha256:" + x && b.binaryDigest == "sha256:" + y;
    assert BinPath(a)[23..87] == x && BinPath(b)[23..87] == y;
  }

  function WithoutControls(rs: seq<Rune>): seq<Rune> {
    if rs == [] then []
    else (if rs[0] < 0x20 || rs[0] == 0x7F then [] else [rs[0]]) + WithoutControls(rs[1..])
  }

  function SanitizeDescription(s: string): string {
    var t := Encode(WithoutControls(Runes(s)));
    if |t| > 64 then t[..64] else t
  }

  /** A short name without control characters is kept as it is. */
  lemma CleanNameStays(s: string)
    requires Valid(s) && |s| <= 64 && forall r <- Runes(s) :: r >= 0x20 && r != 0x7F
    ensures SanitizeDescription(s) == s
  {
    NothingDropped(Runes(s));
    LossyIsIdentityIffValid(s);
  }

  lemma {:induction false} NothingDropped(rs: seq<Rune>)
    requires forall r <- rs :: r >= 0x20 && r != 0x7F
    ensures WithoutControls(rs) == rs
  {
    if rs != [] {
      assert rs[0] in rs && forall r <- rs[1..] :: r in rs;
      NothingDropped(rs[1..]);
      assert rs == [rs[0]] + rs[1..];
    }
  }

  /** And of any name no control character is left. */
  lemma {:induction false} ControlsAreDropped(rs: seq<Rune>)
    ensures forall r <- WithoutControls(rs) :: r in rs && r >= 0x20 && r != 0x7F
  {
    if rs != [] {
      ControlsAreDropped(rs[1..]);
      assert rs == [rs[0]] + rs[1..];
    }
  }

  // --------------------------------------------------------------------- sorting

  function Bytes(s: string): seq<int> {
    seq(|s|, i requires 0 <= i < |s| => s[i] as int)
  }

  predicate BytesAtMost(a: string, b: string) {
    !LexLess(Bytes(b), Bytes(a))
  }

  /** The first differing byte decides, and a shorter string comes before its extensions. */
  lemma BytesAtMostMeans(a: string, b: string)
    ensures BytesAtMost(a, b) <==> a == b || exists n :: DiffersAt(Bytes(a), Bytes(b), n)
  {
    hide LexLess, Bytes;
    LexTotal(Bytes(a), Bytes(b));
    LexLessMeans(Bytes(a), Bytes(b));
    SameBytes(a, b);
  }

  lemma SameBytes(a: string, b: string)
    ensures Bytes(a) == Bytes(b) <==> a == b
  {
    if Bytes(a) == Bytes(b) {
      assert |a| == |Bytes(a)| == |b|;
      assert forall i | 0 <= i < |a| :: Bytes(a)[i] == a[i] as int && Bytes(b)[i] == b[i] as int;
    }
  }

  predicate InByteOrder(s: seq<string>) {
    forall i, j | 0 <= i < j < |s| :: BytesAtMost(s[i], s[j])
  }

  function Insert(x: string, s: seq<string>): seq<string> {
    if s == [] || BytesAtMost(x, s[0]) then [x] + s else [s[0]] + Insert(x, s[1..])
  }

  /** `sort.Strings` of a copy. */
  function SortStrings(s: seq<string>): seq<string> {
    if s == [] then [] else Insert(s[0], SortStrings(s[1..]))
  }

  lemma ByteOrderIsTotal(a: string, b: string, c: string)
    ensures BytesAtMost(a, b) || BytesAtMost(b, a)
    ensures BytesAtMost(a, b) && BytesAtMost(b, a) ==> a == b
    ensures BytesAtMost(a, b) && BytesAtMost(b, c) ==> BytesAtMost(a, c)
  {
    hide LexLess;
    var x, y, z := Bytes(a), Bytes(b), Bytes(c);
    LexTotal(x, y);
    LexTotal(y, z);
    if LexLess(z, x) && LexLess(x, y) {
      LexTransitive(z, x, y);
    }
    if x == y {
      assert forall i | 0 <= i < |a| :: x[i] == a[i] as int && y[i] == b[i] as int;
    }
  }

  lemma {:induction false} InsertSwaps(x: string, y: string, s: seq<string>)
    ensures Insert(x, Insert(y, s)) == Insert(y, Insert(x, s))
  {
    hide BytesAtMost;
    ByteOrderIsTotal(x, y, x);
    if s != [] {
      ByteOrderIsTotal(x, y, s[0]);
      ByteOrderIsTotal(y, x, s[0]);
      InsertSwaps(x, y, s[1..]);
    }
  }

  lemma {:induction false} InsertKeepsOrder(x: string, s: seq<string>)
    requires InByteOrder(s)
    ensures InByteOrder(Insert(x, s)) && multiset(Insert(x, s)) == multiset(s) + multiset{x}
  {
    hide BytesAtMost;
    ByteOrderIsTotal(x, x, x);
    if s != [] && !BytesAtMost(x, s[0]) {
      ByteOrderIsTotal(x, s[0], x);
      InsertKeepsOrder(x, s[1..]);
      var rest := Insert(x, s[1..]);
      assert s == [s[0]] + s[1..];
      forall k | k in rest
        ensures BytesAtMost(s[0], k)
      {
        assert k in multiset(rest);
        assert k in s[1..] || k == x;
      }
    } else if s != [] {
      forall k | k in s
        ensures BytesAtMost(x, k)
      {
        ByteOrderIsTotal(s[0], s[0], s[0]);
        ByteOrderIsTotal(x, s[0], k);
      }
    }
  }

  lemma {:induction false} SortStringsSorts(s: seq<string>)
    ensures InByteOrder(SortStrings(s)) && multiset(SortStrings(s)) == multiset(s)
  {
    if s != [] {
      SortStringsSorts(s[1..]);
      InsertKeepsOrder(s[0], SortStrings(s[1..]));
      assert s == [s[0]] + s[1..];
    }
  }

  lemma SortStringsKeepsMembers(s: seq<string>)
    ensures forall k :: k in SortStrings(s) <==> k in s
  {
    SortStringsSorts(s);
    forall k
      ensures k in SortStrings(s) <==> k in s
    {
      assert k in multiset(SortStrings(s)) <==> k in multiset(s);
    }
  }

  lemma {:induction false} SortTakesAny(s: seq<string>, i: nat)
    requires i < |s|
    ensures SortStrings(s) == Insert(s[i], SortStrings(s[..i] + s[i + 1..]))
  {
    hide Insert;
    var others := s[..i] + s[i + 1..];
    if i == 0 {
      assert others == s[1..];
    } else {
      SortTakesAny(s[1..], i - 1);
      assert s[1..][..i - 1] + s[1..][i..] == others[1..];
      InsertSwaps(s[0], s[i], SortStrings(others[1..]));
    }
  }

  lemma SameButOne(m: multiset<string>, n: multiset<string>, x: string)
    requires m + multiset{x} == n + multiset{x}
    ensures m == n
  {
    assert m == m + multiset{x} - multiset{x} == n + multiset{x} - multiset{x} == n;
  }

  /** The sorted copy depends on the strings alone, not on the order they came in. */
  lemma {:induction false} SortStringsForgetsOrder(a: seq<string>, b: seq<string>)
    requires multiset(a) == multiset(b)
    ensures SortStrings(a) == SortStrings(b)
  {
    if a == [] {
      assert |multiset(b)| == 0;
    } else {
      assert a[0] in multiset(b);
      var i :| 0 <= i < |b| && b[i] == a[0];
      var others := b[..i] + b[i + 1..];
      assert a == [a[0]] + a[1..] && b == b[..i] + [b[i]] + b[i + 1..];
      assert multiset(b) == multiset(others) + multiset{b[i]};
      assert multiset(a) == multiset(a[1..]) + multiset{a[0]};
      SameButOne(multiset(a[1..]), multiset(others), a[0]);
      SortStringsForgetsOrder(a[1..], others);
      SortTakesAny(b, i);
    }
  }

  /** A range loop hands the keys of a map out in any order, each once. */
  ghost predicate Enumerates(s: seq<string>, keys: set<string>) {
    multiset(s) == multiset(keys)
  }

  lemma {:induction false} EnumerationExists(keys: set<string>) returns (s: seq<string>)
    ensures Enumerates(s, keys)
  {
    if keys == {} {
      s := [];
    } else {
      var k :| k in keys;
      var rest := EnumerationExists(keys - {k});
      s := [k] + rest;
    }
  }

  /** The keys of a map in byte order. */
  ghost function KeysInOrder(keys: set<string>): (sorted: seq<string>)
    ensures exists s :: SortsFrom(sorted, s, keys)
  {
    assert exists s :: Enumerates(s, keys) by {
      var s := EnumerationExists(keys);
    }
    var s :| Enumerates(s, keys);
    assert SortsFrom(SortStrings(s), s, keys);
    SortStrings(s)
  }

  ghost predicate SortsFrom(sorted: seq<string>, s: seq<string>, keys: set<string>) {
    Enumerates(s, keys) && sorted == SortStrings(s)
  }

  lemma EveryEnumerationSortsAlike(s: seq<string>, keys: set<string>)
    requires Enumerates(s, keys)
    ensures SortStrings(s) == KeysInOrder(keys)
  {
    var t := KeysInOrderSource(keys);
    SortStringsForgetsOrder(s, t);
  }

  lemma KeysInOrderSource(keys: set<string>) returns (s: seq<string>)
    ensures Enumerates(s, keys) && KeysInOrder(keys) == SortStrings(s)
  {
    var sorted := KeysInOrder(keys);
    s :| SortsFrom(sorted, s, keys);
  }

  lemma KeysInOrderHoldTheKeys(keys: set<string>)
    ensures forall k :: k in KeysInOrder(keys) <==> k in keys
  {
    var s := KeysInOrderSource(keys);
    SortStringsKeepsMembers(s);
    forall k
      ensures k in s <==> k in keys
    {
      assert k in multiset(s) <==> k in multiset(keys);
    }
  }

  // ----------------------------------------------------------------- the unit's text

  /** The words of a line with one space between them. */
  function Spaced(first: string, others: seq<string>): string {
    if others == [] then first else Spaced(first, others[..|others| - 1]) + " " + others[|others| - 1]
  }

  function Service(key: string, value: string): Entry {
    Entry("Service", key, value)
  }

  function UnitEntries(id: string, ms: Spec): seq<Entry> {
    var kind := if ms.kind == "" then ms.binary else ms.kind;
    [ Entry("Unit", "Description", "obacht managed service " + id + " (" + SanitizeDescription(kind) + ")"),
      Entry("Unit", "After", "network-online.target") ]
  }

  function CommandEntries(ms: Spec): seq<Entry>
    requires ValidSpec(ms)
  {
    [Service("Type", "exec"), Service("ExecStart", Spaced(BinPath(ms), ms.args))]
  }

  function HardeningEntries(): seq<Entry> {
    [ Service("DynamicUser", "yes"),
      Service("NoNewPrivileges", "yes"),
      Service("ProtectSystem", "strict"),
      Service("ProtectHome", "yes"),
      Service("PrivateTmp", "yes"),
      Service("RestrictSUIDSGID", "yes"),
      Service("DevicePolicy", "closed") ]
  }

  function DeviceEntries(devices: seq<string>): seq<Entry>
    requires forall d <- devices :: d in DEVICE_RULES
  {
    seq(|devices|, i requires 0 <= i < |devices| => Service("DeviceAllow", DEVICE_RULES[devices[i]]))
  }

  function GroupEntries(groups: seq<string>): seq<Entry> {
    if groups == [] then [] else [Service("SupplementaryGroups", Spaced(groups[0], groups[1..]))]
  }

  function HardwareEntries(ms: Spec): seq<Entry>
    requires ValidSpec(ms)
  {
    if ms.hardware.None? then []
    else
      SortStringsKeepsMembers(ms.hardware.value.devices);
      DeviceEntries(SortStrings(ms.hardware.value.devices)) + GroupEntries(SortStrings(ms.hardware.value.groups))
  }

  function StateEntries(id: string): seq<Entry> {
    [ Service("StateDirectory", "obacht-svc/" + id),
      Service("RestrictAddressFamilies", "AF_UNIX AF_INET AF_INET6"),
      Service("Restart", "always"),
      Service("RestartSec", "2") ]
  }

  function EnvEntries(env: map<string, string>, keys: seq<string>): seq<Entry>
    requires forall k <- keys :: k in env
  {
    seq(|keys|, i requires 0 <= i < |keys| => Service("Environment", keys[i] + "=" + env[keys[i]]))
  }

  ghost function ServiceEntries(id: string, ms: Spec): seq<Entry>
    requires ValidSpec(ms)
  {
    KeysInOrderHoldTheKeys(ms.env.Keys);
    CommandEntries(ms) + HardeningEntries() + HardwareEntries(ms) + StateEntries(id)
    + EnvEntries(ms.env, KeysInOrder(ms.env.Keys))
  }

  function InstallEntries(): seq<Entry> {
    [Entry("Install", "WantedBy", "multi-user.target")]
  }

  function KeyValue(e: Entry): string {
    e.key + "=" + e.value
  }

  function KeyValues(es: seq<Entry>): seq<string> {
    seq(|es|, i requires 0 <= i < |es| => KeyValue(es[i]))
  }

  /** The lines of a unit whose first section is given. */
  ghost function LinesWith(unit: seq<Entry>, id: string, ms: Spec): seq<string>
    requires ValidSpec(ms)
  {
    ["[Unit]"] + KeyValues(unit) + ["", "[Service]"] + KeyValues(ServiceEntries(id, ms))
    + ["", "[Install]"] + KeyValues(InstallEntries())
  }

  ghost function UnitLines(id: string, ms: Spec): seq<string>
    requires ValidSpec(ms)
  {
    LinesWith(UnitEntries(id, ms), id, ms)
  }

  ghost function UnitText(id: string, ms: Spec): string
    requires ValidSpec(ms)
  {
    Terminated(UnitLines(id, ms))
  }

  // ------------------------------------------------------------------- the generator

  lemma NothingTerminated()
    ensures Terminated([]) == ""
  {
  }

  method WriteLine(b: Builder, ghost before: seq<string>, line: string)
    requires b.text == Terminated(before)
    modifies b
    ensures b.text == Terminated(before + [line])
  {
    b.Write(line);
    b.Write("\n");
    TerminatedAppend(before, [line]);
    assert Terminated([line]) == line + "\n" + Terminated([]);
  }

  method WriteEntries(b: Builder, ghost before: seq<string>, es: seq<Entry>)
    requires b.text == Terminated(before)
    modifies b
    ensures b.text == Terminated(before + KeyValues(es))
  {
    hide Terminated;
    var i := 0;
    assert before + KeyValues(es[..0]) == before;
    while i < |es|
      invariant 0 <= i <= |es|
      invariant b.text == Terminated(before + KeyValues(es[..i]))
    {
      WriteLine(b, before + KeyValues(es[..i]), es[i].key + "=" + es[i].value);
      assert before + KeyValues(es[..i + 1]) == before + KeyValues(es[..i]) + [KeyValue(es[i])];
      i := i + 1;
    }
    assert es[..i] == es;
  }

  /** `devs` and `groups`: the hardware lines, from sorted copies. */
  method WriteHardware(b: Builder, ghost before: seq<string>, ms: Spec)
    requires ValidSpec(ms) && b.text == Terminated(before)
    modifies b
    ensures b.text == Terminated(before + KeyValues(HardwareEntries(ms)))
  {
    hide Terminated, SortStrings, Spaced;
    if ms.hardware.None? {
      assert before + KeyValues([]) == before;
      return;
    }
    var devs := SortStrings(ms.hardware.value.devices);
    SortStringsKeepsMembers(ms.hardware.value.devices);
    var groups := SortStrings(ms.hardware.value.groups);
    WriteEntries(b, before, DeviceEntries(devs));
    WriteEntries(b, before + KeyValues(DeviceEntries(devs)), GroupEntries(groups));
    assert before + KeyValues(DeviceEntries(devs)) + KeyValues(GroupEntries(groups))
        == before + KeyValues(HardwareEntries(ms));
  }

  method EnvKeys(env: map<string, string>) returns (keys: seq<string>)
    ensures Enumerates(keys, env.Keys)
  {
    keys := [];
    var left := env.Keys;
    while left != {}
      invariant left <= env.Keys
      invariant multiset(keys) + multiset(left) == multiset(env.Keys)
      decreases left
    {
      var k :| k in left;
      keys := keys + [k];
      left := left - {k};
    }
  }

  method CommandLine(ms: Spec) returns (exec: string)
    requires ValidSpec(ms)
    ensures exec == Spaced(BinPath(ms), ms.args)
  {
    exec := BinPath(ms);
    var i := 0;
    assert ms.args[..0] == [];
    while i < |ms.args|
      invariant 0 <= i <= |ms.args|
      invariant exec == Spaced(BinPath(ms), ms.args[..i])
    {
      assert ms.args[..i + 1][..i] == ms.args[..i];
      exec := exec + " " + ms.args[i];
      i := i + 1;
    }
    assert ms.args[..i] == ms.args;
  }

  /** Writes the `[Service]` section line by line. */
  method WriteService(b: Builder, ghost before: seq<string>, id: string, ms: Spec)
    requires ValidSpec(ms) && b.text == Terminated(before)
    modifies b
    ensures b.text == Terminated(before + KeyValues(ServiceEntries(id, ms)))
  {
    hide Terminated, SortStrings, Spaced, BinPath, HardwareEntries, Enumerates, KeysInOrder;
    var exec := CommandLine(ms);
    WriteEntries(b, before, [Service("Type", "exec"), Service("ExecStart", exec)]);
    ghost var lines := before + KeyValues(CommandEntries(ms));
    WriteEntries(b, lines, HardeningEntries());
    lines := lines + KeyValues(HardeningEntries());
    WriteHardware(b, lines, ms);
    lines := lines + KeyValues(HardwareEntries(ms));
    WriteEntries(b, lines, StateEntries(id));
    lines := lines + KeyValues(StateEntries(id));
    var keys := EnvKeys(ms.env);
    EveryEnumerationSortsAlike(keys, ms.env.Keys);
    KeysInOrderHoldTheKeys(ms.env.Keys);
    var envKeys := SortStrings(keys);
    WriteEntries(b, lines, EnvEntries(ms.env, envKeys));
    assert lines + KeyValues(EnvEntries(ms.env, envKeys)) == before + KeyValues(ServiceEntries(id, ms)) by {
      hide Service, HardeningEntries, StateEntries, CommandEntries, EnvEntries;
    }
  }

  /** Renders the unit and refuses it when the policy would. */
  method GenerateManagedUnit(id: string, ms: Spec) returns (unit: Option<string>)
    ensures unit.Some? <==> ValidSpec(ms) && Conforms(UnitName(id), UnitText(id, ms))
    ensures unit.Some? ==> unit.value == UnitText(id, ms)
  {
    hide Terminated, ServiceEntries, ValidSpec, Conforms, UnitEntries;
    if !ValidSpec(ms) {
      return None;
    }
    var b := new Builder();
    NothingTerminated();
    WriteLine(b, [], "[Unit]");
    assert [] + ["[Unit]"] == ["[Unit]"];
    WriteEntries(b, ["[Unit]"], UnitEntries(id, ms));
    ghost var lines := ["[Unit]"] + KeyValues(UnitEntries(id, ms));
    WriteLine(b, lines, "");
    WriteLine(b, lines + [""], "[Service]");
    lines := lines + ["", "[Service]"];
    assert lines == ["[Unit]"] + KeyValues(UnitEntries(id, ms)) + [""] + ["[Service]"];
    WriteService(b, lines, id, ms);
    lines := lines + KeyValues(ServiceEntries(id, ms));
    WriteLine(b, lines, "");
    WriteLine(b, lines + [""], "[Install]");
    WriteEntries(b, lines + [""] + ["[Install]"], InstallEntries());
    assert lines + [""] + ["[Install]"] + KeyValues(InstallEntries()) == UnitLines(id, ms);
    var verdict := Validate(UnitName(id), b.text);
    unit := if verdict.Accepted? then Some(b.text) else None;
  }

  // ------------------------------------------------------------------ splitting back

  function ArgFields(args: seq<string>): seq<string> {
    if args == [] then [] else ArgFields(args[..|args| - 1]) + Fields(args[|args| - 1])
  }

  lemma {:induction false} FieldsOfSpaced(bin: string, args: seq<string>)
    ensures Fields(Spaced(bin, args)) == Fields(bin) + ArgFields(args)
  {
    hide Fields;
    if args != [] {
      var shorter := args[..|args| - 1];
      FieldsOfSpaced(bin, shorter);
      FieldsAroundSpace(Spaced(bin, shorter), ' ', args[|args| - 1]);
    }
  }

  lemma {:induction false} ArgFieldsAreWords(args: seq<string>)
    ensures forall f <- ArgFields(args) :: IsWord(f)
  {
    hide Fields, IsWord;
    if args != [] {
      ArgFieldsAreWords(args[..|args| - 1]);
      FieldsAreWords(args[|args| - 1]);
    }
  }

  lemma {:induction false} WordsAreTheirOwnFields(args: seq<string>)
    requires forall a <- args :: IsWord(a)
    ensures ArgFields(args) == args
  {
    hide Fields, IsWord;
    if args != [] {
      WordsAreTheirOwnFields(args[..|args| - 1]);
      WordIsItsOnlyField(args[|args| - 1]);
    }
  }

  /** Splitting the command on spaces gives the arguments back exactly when each is one word. */
  lemma ArgvComesBackIff(bin: string, args: seq<string>)
    requires IsWord(bin)
    ensures Fields(Spaced(bin, args)) == [bin] + args <==> forall a <- args :: IsWord(a)
  {
    hide Fields, IsWord, ArgFields;
    FieldsOfSpaced(bin, args);
    WordIsItsOnlyField(bin);
    if Fields(Spaced(bin, args)) == [bin] + args {
      assert ([bin] + args)[1..] == args && ([bin] + ArgFields(args))[1..] == ArgFields(args);
      ArgFieldsAreWords(args);
    } else if forall a <- args :: IsWord(a) {
      WordsAreTheirOwnFields(args);
    }
  }
}
