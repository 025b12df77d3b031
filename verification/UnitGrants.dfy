// What an accepted generated unit grants: the settings the unit reader finds in it,
// told from the spec and not from the generator's tables.
module UnitGrants {
  import opened Wrappers
  import opened GoStrings
  import opened UnitPolicy
  import opened UnitReader
  import opened UnitSoundness
  import opened ManagedUnit
  import opened UnitAgreement
  import opened UnitCommands

  function DevicesOf(ms: Spec): seq<string> {
    if ms.hardware.Some? then ms.hardware.value.devices else []
  }

  function GroupsOf(ms: Spec): seq<string> {
    if ms.hardware.Some? then ms.hardware.value.groups else []
  }

  /** The device class a device pattern stands for. */
  predicate Opens(device: string, rule: string) {
    match device
    case "/dev/video*" => rule == "char-video4linux rw"
    case "/dev/media*" => rule == "char-media rw"
    case "/dev/dri/*" => rule == "char-drm rw"
    case "/dev/dma_heap/*" => rule == "char-dma_heap rw"
    case _ => false
  }

  predicate Says(es: seq<Entry>, key: string, v: string) {
    Entry("Service", key, v) in es
  }

  ghost predicate SaysOnly(es: seq<Entry>, key: string, value: string) {
    forall v :: Says(es, key, v) <==> v == value
  }

  /** The devices and groups of the spec and no others, its environment, and the fixed rest. */
  ghost predicate Grants(es: seq<Entry>, id: string, ms: Spec) {
    && (forall v :: Says(es, "DeviceAllow", v) <==> exists d <- DevicesOf(ms) :: Opens(d, v))
    && (forall v :: Says(es, "SupplementaryGroups", v) ==> forall g :: g in Words(v) <==> g in GroupsOf(ms))
    && ((exists v :: Says(es, "SupplementaryGroups", v)) <==> GroupsOf(ms) != [])
    && (forall v :: Says(es, "Environment", v) <==> exists k <- ms.env :: v == Strip(k + "=" + ms.env[k]))
    && SaysOnly(es, "Type", "exec") && SaysOnly(es, "StateDirectory", "obacht-svc/" + id)
    && SaysOnly(es, "RestrictAddressFamilies", "AF_UNIX AF_INET AF_INET6")
    && SaysOnly(es, "Restart", "always") && SaysOnly(es, "RestartSec", "2")
  }

  /** It describes itself, and starts once the network is up. */
  ghost predicate Introduces(es: seq<Entry>, id: string, ms: Spec) {
    && DescriptionOf(id, ms) in es && AFTER_NETWORK in es
    && (forall e <- es | e.section == "Unit" :: e == DescriptionOf(id, ms) || e == AFTER_NETWORK)
  }

  const AFTER_NETWORK := Entry("Unit", "After", "network-online.target")

  /** Named after the instance and, unless the spec says otherwise, the binary. */
  function DescriptionOf(id: string, ms: Spec): Entry {
    var kind := if ms.kind == "" then "mediamtx" else ms.kind;
    Entry("Unit", "Description", Strip("obacht managed service " + id + " (" + SanitizeDescription(kind) + ")"))
  }

  // --------------------------------------------------------- entries, key by key

  lemma StrippedSays(es: seq<Entry>, key: string, v: string)
    ensures Says(AllStripped(es), key, v) <==> exists w :: Says(es, key, w) && Strip(w) == v
  {
    hide Strip;
    var stripped := AllStripped(es);
    if Says(stripped, key, v) {
      var i :| 0 <= i < |stripped| && stripped[i] == Entry("Service", key, v);
      assert es[i] == Entry("Service", key, es[i].value) && Says(es, key, es[i].value);
    }
    if w :| Says(es, key, w) && Strip(w) == v {
      var i :| 0 <= i < |es| && es[i] == Entry("Service", key, w);
      assert stripped[i] == Entry("Service", key, v);
    }
  }

  predicate KeysAre(es: seq<Entry>, keys: seq<string>) {
    forall e <- es :: e.section == "Service" && e.key in keys
  }

  lemma KeysOfBlocks(id: string, ms: Spec, keys: seq<string>)
    requires ValidSpec(ms) && forall k <- keys :: k in ms.env
    ensures KeysAre(CommandEntries(ms), ["Type", "ExecStart"])
    ensures KeysAre(StateEntries(id), ["StateDirectory", "RestrictAddressFamilies", "Restart", "RestartSec"])
    ensures KeysAre(EnvEntries(ms.env, keys), ["Environment"])
  {
    hide ValidSpec, BinPath, Spaced;
  }

  lemma KeysOfHardening()
    ensures KeysAre(HardeningEntries(), ["DynamicUser", "NoNewPrivileges", "ProtectSystem", "ProtectHome",
                                         "PrivateTmp", "RestrictSUIDSGID", "DevicePolicy"])
  {
  }

  lemma KeysOfHardware(devices: seq<string>, groups: seq<string>)
    requires forall d <- devices :: d in DEVICE_RULES
    ensures KeysAre(DeviceEntries(devices), ["DeviceAllow"]) && KeysAre(GroupEntries(groups), ["SupplementaryGroups"])
  {
    hide Spaced;
  }

  ghost function EnvironmentOf(ms: Spec): seq<Entry> {
    KeysInOrderHoldTheKeys(ms.env.Keys);
    EnvEntries(ms.env, KeysInOrder(ms.env.Keys))
  }

  lemma SixBlocks(a: seq<Entry>, b: seq<Entry>, c: seq<Entry>, d: seq<Entry>, e: seq<Entry>, x: Entry)
    ensures x in a + b + c + d + e <==> x in a || x in b || x in c || x in d || x in e
  {
  }

  /** A setting of the unit stands in one of the blocks of its service section. */
  lemma SaidWhere(id: string, ms: Spec, e: Entry)
    requires ValidSpec(ms) && e.section == "Service"
    ensures e in AllEntries(id, ms)
       <==> (e in CommandEntries(ms) || e in HardeningEntries() || e in HardwareEntries(ms) || e in StateEntries(id)
             || e in EnvironmentOf(ms))
  {
    var u, i := UnitEntries(id, ms), InstallEntries();
    assert u[0].section == u[1].section == "Unit" && i[0].section == "Install" && |u| == 2 && |i| == 1;
    hide ValidSpec, CommandEntries, StateEntries, EnvEntries, HardeningEntries, HardwareEntries, UnitEntries, InstallEntries;
    SixBlocks(CommandEntries(ms), HardeningEntries(), HardwareEntries(ms), StateEntries(id), EnvironmentOf(ms), e);
    var s := ServiceEntries(id, ms);
    assert e in u + s + i <==> e in s;
  }

  lemma OpensIsTheRule(d: string, v: string)
    requires d in DEVICE_RULES
    ensures Opens(d, v) <==> v == DEVICE_RULES[d]
    ensures Strip(DEVICE_RULES[d]) == DEVICE_RULES[d]
  {
    assert DEVICE_RULES[d] in ALLOWED_DEVICES;
    DevicesEndInText(DEVICE_RULES[d]);
    EndsAreNotBlank(DEVICE_RULES[d]);
  }

  lemma DeviceSaid(devices: seq<string>, v: string)
    requires forall d <- devices :: d in DEVICE_RULES
    ensures Service("DeviceAllow", v) in DeviceEntries(devices) <==> exists d <- devices :: Opens(d, v)
  {
    hide Opens, Strip;
    var es := DeviceEntries(devices);
    forall i | 0 <= i < |devices|
      ensures es[i] == Service("DeviceAllow", v) <==> Opens(devices[i], v)
      ensures devices[i] in devices && es[i] in es
    {
      OpensIsTheRule(devices[i], v);
    }
  }

  lemma HardwareSaid(ms: Spec, e: Entry)
    requires ValidSpec(ms) && e.section == "Service"
    ensures KeysAre(HardwareEntries(ms), ["DeviceAllow", "SupplementaryGroups"])
    ensures e in HardwareEntries(ms) && e.key == "DeviceAllow"
       <==> e.key == "DeviceAllow" && exists d <- DevicesOf(ms) :: Opens(d, e.value)
    ensures e in HardwareEntries(ms) && e.key == "SupplementaryGroups"
       <==> e in GroupEntries(SortStrings(GroupsOf(ms)))
  {
    hide Opens, Spaced;
    if ms.hardware.Some? {
      var devices, groups := SortStrings(DevicesOf(ms)), SortStrings(GroupsOf(ms));
      SortStringsKeepsMembers(DevicesOf(ms));
      KeysOfHardware(devices, groups);
      DeviceSaid(devices, e.value);
      hide DeviceEntries, GroupEntries, SortStrings;
      assert e in HardwareEntries(ms) <==> e in DeviceEntries(devices) || e in GroupEntries(groups);
      assert (exists d <- DevicesOf(ms) :: Opens(d, e.value)) <==> exists d <- devices :: Opens(d, e.value);
    }
  }

  lemma EnvironmentSaid(ms: Spec, v: string)
    ensures Service("Environment", v) in EnvironmentOf(ms) <==> exists k <- ms.env :: v == k + "=" + ms.env[k]
  {
    KeysInOrderHoldTheKeys(ms.env.Keys);
    hide KeysInOrder;
    var keys := KeysInOrder(ms.env.Keys);
    var es := EnvEntries(ms.env, keys);
    forall i | 0 <= i < |keys|
      ensures es[i] == Service("Environment", keys[i] + "=" + ms.env[keys[i]]) && es[i] in es && keys[i] in keys
    {
    }
    if k :| k in ms.env && v == k + "=" + ms.env[k] {
      assert k in keys;
      var i :| 0 <= i < |keys| && keys[i] == k;
    }
  }

  // ---------------------------------------------------------- what the reader is told

  lemma FixedSettings(id: string, ms: Spec, v: string)
    requires ValidSpec(ms)
    ensures Says(AllEntries(id, ms), "Type", v) <==> v == "exec"
    ensures Says(AllEntries(id, ms), "StateDirectory", v) <==> v == "obacht-svc/" + id
    ensures Says(AllEntries(id, ms), "RestrictAddressFamilies", v) <==> v == "AF_UNIX AF_INET AF_INET6"
    ensures Says(AllEntries(id, ms), "Restart", v) <==> v == "always"
    ensures Says(AllEntries(id, ms), "RestartSec", v) <==> v == "2"
  {
    forall k | k in ["Type", "StateDirectory", "RestrictAddressFamilies", "Restart", "RestartSec"]
      ensures Says(AllEntries(id, ms), k, v) <==> Service(k, v) in CommandEntries(ms) + StateEntries(id)
    {
      FixedWhere(id, ms, k, v);
    }
    FixedTable(id, ms, v);
    hide ValidSpec, CommandEntries, StateEntries;
  }

  lemma FixedWhere(id: string, ms: Spec, k: string, v: string)
    requires ValidSpec(ms) && k in ["Type", "StateDirectory", "RestrictAddressFamilies", "Restart", "RestartSec"]
    ensures Says(AllEntries(id, ms), k, v) <==> Service(k, v) in CommandEntries(ms) + StateEntries(id)
  {
    hide ValidSpec, CommandEntries, StateEntries, EnvEntries, HardeningEntries, HardwareEntries;
    KeysInOrderHoldTheKeys(ms.env.Keys);
    KeysOfBlocks(id, ms, KeysInOrder(ms.env.Keys));
    KeysOfHardening();
    HardwareSaid(ms, Service(k, v));
    SaidWhere(id, ms, Service(k, v));
  }

  lemma FixedTable(id: string, ms: Spec, v: string)
    requires ValidSpec(ms)
    ensures Service("Type", v) in CommandEntries(ms) + StateEntries(id) <==> v == "exec"
    ensures Service("StateDirectory", v) in CommandEntries(ms) + StateEntries(id) <==> v == "obacht-svc/" + id
    ensures Service("RestrictAddressFamilies", v) in CommandEntries(ms) + StateEntries(id) <==> v == "AF_UNIX AF_INET AF_INET6"
    ensures Service("Restart", v) in CommandEntries(ms) + StateEntries(id) <==> v == "always"
    ensures Service("RestartSec", v) in CommandEntries(ms) + StateEntries(id) <==> v == "2"
  {
    hide BinPath, Spaced, ValidSpec;
    var c, s := CommandEntries(ms), StateEntries(id);
    assert (c + s)[0] == c[0] && (c + s)[1] == c[1];
    assert (c + s)[2] == s[0] && (c + s)[3] == s[1] && (c + s)[4] == s[2] && (c + s)[5] == s[3];
  }

  lemma OpenSettings(id: string, ms: Spec, v: string)
    requires ValidSpec(ms)
    ensures Says(AllEntries(id, ms), "DeviceAllow", v) <==> exists d <- DevicesOf(ms) :: Opens(d, v)
    ensures Says(AllEntries(id, ms), "Environment", v) <==> exists k <- ms.env :: v == k + "=" + ms.env[k]
    ensures Says(AllEntries(id, ms), "SupplementaryGroups", v)
       <==> Service("SupplementaryGroups", v) in GroupEntries(SortStrings(GroupsOf(ms)))
  {
    hide ValidSpec, CommandEntries, StateEntries, EnvEntries, HardeningEntries, HardwareEntries;
    hide Opens, GroupEntries, SortStrings;
    KeysInOrderHoldTheKeys(ms.env.Keys);
    KeysOfBlocks(id, ms, KeysInOrder(ms.env.Keys));
    KeysOfHardening();
    forall k | k in ["DeviceAllow", "Environment", "SupplementaryGroups"]
      ensures Says(AllEntries(id, ms), k, v) <==> Service(k, v) in HardwareEntries(ms) || Service(k, v) in EnvironmentOf(ms)
    {
      SaidWhere(id, ms, Service(k, v));
    }
    HardwareSaid(ms, Service("DeviceAllow", v));
    HardwareSaid(ms, Service("SupplementaryGroups", v));
    HardwareSaid(ms, Service("Environment", v));
    EnvironmentSaid(ms, v);
  }

  /** Once stripped, the fixed settings and the device rules are what they were. */
  lemma NothingToStrip(id: string)
    requires IsInstanceToken(id)
    ensures Strip("exec") == "exec" && Strip("always") == "always" && Strip("2") == "2"
    ensures Strip("AF_UNIX AF_INET AF_INET6") == "AF_UNIX AF_INET AF_INET6"
    ensures Strip("obacht-svc/" + id) == "obacht-svc/" + id
  {
    hide Strip, IsInstanceToken;
    EndsAreNotBlank("exec");
    EndsAreNotBlank("always");
    EndsAreNotBlank("2");
    EndsAreNotBlank("AF_UNIX AF_INET AF_INET6");
    var v := "obacht-svc/" + id;
    assert v[11..] == id;
    DirectoryEndsInText(v);
    EndsAreNotBlank(v);
  }

  lemma GroupWords(groups: seq<string>)
    requires groups != [] && forall g <- groups :: g in ALLOWED_GROUPS
    ensures Words(Strip(Spaced(groups[0], groups[1..]))) == groups
  {
    hide Strip, Spaced, Words;
    forall g | g in groups
      ensures IsReaderWord(g)
    {
      assert g == "video" || g == "render" || g == "input";
    }
    WordsOfStripped(Spaced(groups[0], groups[1..]));
    assert groups[0] in groups && forall g <- groups[1..] :: g in groups;
    ReaderArgvComesBackIff(groups[0], groups[1..]);
    assert [groups[0]] + groups[1..] == groups;
  }

  /** The groups line, once stripped: there when there are groups, and naming just them. */
  lemma GroupsRead(id: string, ms: Spec)
    requires ValidSpec(ms)
    ensures var es := AllStripped(AllEntries(id, ms));
            && (forall v :: Says(es, "SupplementaryGroups", v) ==> forall g :: g in Words(v) <==> g in GroupsOf(ms))
            && ((exists v :: Says(es, "SupplementaryGroups", v)) <==> GroupsOf(ms) != [])
  {
    hide Strip, Words, Spaced, AllEntries, AllStripped, Says, SortStrings;
    var es, groups := AllEntries(id, ms), SortStrings(GroupsOf(ms));
    SortStringsKeepsMembers(GroupsOf(ms));
    assert GroupsOf(ms) != [] ==> GroupsOf(ms)[0] in groups;
    forall v
      ensures Says(AllStripped(es), "SupplementaryGroups", v)
         <==> groups != [] && v == Strip(Spaced(groups[0], groups[1..]))
    {
      StrippedSays(es, "SupplementaryGroups", v);
      forall w
        ensures Says(es, "SupplementaryGroups", w) <==> groups != [] && w == Spaced(groups[0], groups[1..])
      {
        OpenSettings(id, ms, w);
      }
    }
    if groups != [] {
      GroupWords(groups);
      assert groups[0] in groups;
      assert Says(AllStripped(es), "SupplementaryGroups", Strip(Spaced(groups[0], groups[1..])));
    }
  }

  lemma StrippedSaysOnly(es: seq<Entry>, key: string, value: string)
    requires (forall w :: Says(es, key, w) <==> w == value) && Strip(value) == value
    ensures SaysOnly(AllStripped(es), key, value)
  {
    hide Strip, Says, AllStripped;
    forall v
      ensures Says(AllStripped(es), key, v) <==> v == value
    {
      StrippedSays(es, key, v);
    }
  }

  lemma UnitSectionRead(id: string, ms: Spec)
    requires ValidSpec(ms)
    ensures Introduces(AllStripped(AllEntries(id, ms)), id, ms)
  {
    hide SanitizeDescription, CommandEntries, StateEntries, EnvEntries, HardeningEntries, HardwareEntries, Strip;
    var u, s, i := UnitEntries(id, ms), ServiceEntries(id, ms), InstallEntries();
    KeysInOrderHoldTheKeys(ms.env.Keys);
    KeysOfBlocks(id, ms, KeysInOrder(ms.env.Keys));
    KeysOfHardening();
    HardwareIsService(ms);
    assert forall e <- s :: e.section == "Service";
    AfterIsNotBlank();
    var all := AllEntries(id, ms);
    var es := AllStripped(all);
    assert all[0] == u[0] && all[1] == u[1] && es[0] in es && es[1] in es;
    forall e | e in es && e.section == "Unit"
      ensures e == es[0] || e == es[1]
    {
      var k :| 0 <= k < |es| && es[k] == e;
      OneOfThree(u, s, i, all[k]);
    }
  }

  lemma OneOfThree(u: seq<Entry>, s: seq<Entry>, i: seq<Entry>, e: Entry)
    requires e in u + s + i
    ensures e in u || e in s || e in i
  {
  }

  lemma AfterIsNotBlank()
    ensures Strip("network-online.target") == "network-online.target"
  {
    EndsAreNotBlank("network-online.target");
  }

  lemma HardwareIsService(ms: Spec)
    requires ValidSpec(ms)
    ensures forall e <- HardwareEntries(ms) :: e.section == "Service"
  {
    if ms.hardware.Some? {
      SortStringsKeepsMembers(ms.hardware.value.devices);
      KeysOfHardware(SortStrings(ms.hardware.value.devices), SortStrings(ms.hardware.value.groups));
    }
  }

  lemma SettingsRead(id: string, ms: Spec)
    requires ValidSpec(ms) && IsInstanceToken(id)
    ensures Grants(AllStripped(AllEntries(id, ms)), id, ms)
  {
    hide Strip, Words, AllEntries, AllStripped, Says, Opens, SaysOnly, IsInstanceToken;
    var es := AllEntries(id, ms);
    forall v
      ensures Says(AllStripped(es), "DeviceAllow", v) <==> exists d <- DevicesOf(ms) :: Opens(d, v)
      ensures Says(AllStripped(es), "Environment", v) <==> exists k <- ms.env :: v == Strip(k + "=" + ms.env[k])
    {
      DevicesRead(id, ms, v);
      VariablesRead(id, ms, v);
    }
    GroupsRead(id, ms);
    NothingToStrip(id);
    forall w
      ensures Says(es, "Type", w) <==> w == "exec"
      ensures Says(es, "StateDirectory", w) <==> w == "obacht-svc/" + id
      ensures Says(es, "RestrictAddressFamilies", w) <==> w == "AF_UNIX AF_INET AF_INET6"
      ensures Says(es, "Restart", w) <==> w == "always"
      ensures Says(es, "RestartSec", w) <==> w == "2"
    {
      FixedSettings(id, ms, w);
    }
    StrippedSaysOnly(es, "Type", "exec");
    StrippedSaysOnly(es, "StateDirectory", "obacht-svc/" + id);
    StrippedSaysOnly(es, "RestrictAddressFamilies", "AF_UNIX AF_INET AF_INET6");
    StrippedSaysOnly(es, "Restart", "always");
    StrippedSaysOnly(es, "RestartSec", "2");
  }

  lemma DevicesRead(id: string, ms: Spec, v: string)
    requires ValidSpec(ms)
    ensures Says(AllStripped(AllEntries(id, ms)), "DeviceAllow", v) <==> exists d <- DevicesOf(ms) :: Opens(d, v)
  {
    hide Strip, AllEntries, AllStripped, Says, Opens;
    var es := AllEntries(id, ms);
    StrippedSays(es, "DeviceAllow", v);
    OpenSettings(id, ms, v);
    if w :| Says(es, "DeviceAllow", w) && Strip(w) == v {
      OpenSettings(id, ms, w);
      var d :| d in DevicesOf(ms) && Opens(d, w);
      OpensIsTheRule(d, w);
    }
    if d :| d in DevicesOf(ms) && Opens(d, v) {
      OpensIsTheRule(d, v);
    }
  }

  lemma VariablesRead(id: string, ms: Spec, v: string)
    requires ValidSpec(ms)
    ensures Says(AllStripped(AllEntries(id, ms)), "Environment", v) <==> exists k <- ms.env :: v == Strip(k + "=" + ms.env[k])
  {
    hide Strip, AllEntries, AllStripped, Says;
    var es := AllEntries(id, ms);
    StrippedSays(es, "Environment", v);
    if w :| Says(es, "Environment", w) && Strip(w) == v {
      OpenSettings(id, ms, w);
    }
    if k :| k in ms.env && v == Strip(k + "=" + ms.env[k]) {
      OpenSettings(id, ms, k + "=" + ms.env[k]);
    }
  }

  /** An accepted generated unit grants the devices, groups and variables of its spec and
      no others, one directory of its own, and restarts always. */
  lemma GeneratedUnitGrants(id: string, ms: Spec)
    requires ValidSpec(ms) && Conforms(UnitName(id), UnitText(id, ms))
    ensures Grants(ReadUnit(UnitText(id, ms)).entries, id, ms)
    ensures Introduces(ReadUnit(UnitText(id, ms)).entries, id, ms)
  {
    hide Conforms, ValidSpec, EntriesWith, UnitEntries, SameLines, IsUnitSection, Terminated, LinesWith, Lines;
    hide ReadUnit, AllStripped, Complete, Sound, ReadPlain, IsInstanceToken, Grants, Introduces;
    NameFitsIff(id);
    NameMustFit(id, UnitText(id, ms));
    UnitEntriesAreASection(id, ms);
    AcceptedEntries(UnitEntries(id, ms), id, ms);
    GeneratedSameLines(id, ms);
    ReaderFindsTheEntries(UnitText(id, ms));
    SettingsRead(id, ms);
    UnitSectionRead(id, ms);
  }
}
