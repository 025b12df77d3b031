// Exclusivity groups of system instances: the lock table of
// internal/store/locks.go and the system branch of the reconcile pass, with the
// linux driver (internal/runtime/system/driver_linux.go).
module Exclusivity {
  import opened Instances

  type Group = string

  const NO_GROUP: Group := ""

  datatype Flavor = Kiosk | ManagedService | HostService

  /** A config as `ParseSpec` sees it; of one it refuses, `DetectFlavor` still tells
      whether it was a kiosk. */
  datatype Spec = Unparsable(kiosk: bool) | Parsed(flavor: Flavor, group: Group)

  datatype Row = Row(kind: Kind, desired: Desired, spec: Spec)

  /** The kiosk unit exists once per device. */
  datatype Screen = Free | Shown(owner: Id, group: Group)

  /** `services` maps an instance whose managed unit is in place to that unit's group. */
  datatype Device = Device(rows: map<Id, Row>, locks: map<Group, Id>, services: map<Id, Group>, screen: Screen)

  datatype LockResult = Acquired | LockHeld | BadRequest | ReadFailed

  /** How the driver and the store answer; a failed driver call may still take effect. */
  datatype Answers = Answers(
    readOk: bool, insertOk: bool, applyTakesEffect: bool, applyOk: bool,
    removeTakesEffect: bool, removeOk: bool, releaseOk: bool, deleteOk: bool)

  /** Whether Remove is routed to the kiosk. */
  predicate IsKiosk(spec: Spec) {
    match spec
    case Unparsable(kiosk) => kiosk
    case Parsed(flavor, _) => flavor.Kiosk?
  }

  // ------------------------------------------------------------- the lock table

  /** A lock refers to a row, so the insert fails without one. */
  function TryAcquire(d: Device, group: Group, id: Id, ans: Answers): (map<Group, Id>, LockResult) {
    if group == NO_GROUP || id == "" then (d.locks, BadRequest)
    else if !ans.readOk then (d.locks, ReadFailed)
    else if group in d.locks then (d.locks, if d.locks[group] == id then Acquired else LockHeld)
    else if !ans.insertOk || id !in d.rows then (d.locks, LockHeld)
    else (d.locks[group := id], Acquired)
  }

  function ReleasedFor(locks: map<Group, Id>, id: Id): map<Group, Id> {
    map g | g in locks && locks[g] != id :: locks[g]
  }

  /** Deleting a row cascades to its locks. */
  function RowDeleted(d: Device, id: Id): Device {
    d.(rows := d.rows - {id}, locks := if id in d.rows then ReleasedFor(d.locks, id) else d.locks)
  }

  // ----------------------------------------------------------------- the driver

  /** Host services are refused on linux. */
  function UnitApplied(d: Device, id: Id, flavor: Flavor, group: Group): Device {
    match flavor
    case Kiosk => d.(screen := Shown(id, group))
    case ManagedService => d.(services := d.services[id := group])
    case HostService => d
  }

  /** The kiosk is disabled, whoever put it up; or the instance's managed unit goes. */
  function UnitRemoved(d: Device, id: Id, kiosk: bool): Device {
    if kiosk then d.(screen := Free) else d.(services := d.services - {id})
  }

  // ---------------------------------------------------- the branches of a pass

  function SystemInstalled(d: Device, id: Id, spec: Spec, ans: Answers): Device {
    match spec
    case Unparsable(_) => d
    case Parsed(flavor, group) =>
      var (locks, r) := if group == NO_GROUP then (d.locks, Acquired) else TryAcquire(d, group, id, ans);
      if r.Acquired? && (ans.applyOk || ans.applyTakesEffect) then UnitApplied(d.(locks := locks), id, flavor, group)
      else d.(locks := locks)
  }

  function SystemDown(d: Device, id: Id, row: Row, ans: Answers): Device {
    var gone := if ans.removeOk || ans.removeTakesEffect then UnitRemoved(d, id, IsKiosk(row.spec)) else d;
    if !ans.removeOk then gone
    else
      var released := gone.(locks := if ans.releaseOk then ReleasedFor(d.locks, id) else d.locks);
      if row.desired.Removed? && ans.deleteOk then RowDeleted(released, id) else released
  }

  function ContainerDown(d: Device, id: Id, desired: Desired, ans: Answers): Device {
    if !desired.Removed? || !ans.removeOk then d
    else
      var released := d.(locks := if ans.releaseOk then ReleasedFor(d.locks, id) else d.locks);
      if ans.deleteOk then RowDeleted(released, id) else released
  }

  /** Handling one snapshot entry; container and compose installs touch no lock. */
  function Handled(d: Device, id: Id, row: Row, ans: Answers): Device {
    if row.kind.System? then
      if row.desired.Installed? then SystemInstalled(d, id, row.spec, ans) else SystemDown(d, id, row, ans)
    else ContainerDown(d, id, row.desired, ans)
  }

  // ------------------------------------------------ what changes, entry by entry

  predicate KeepsRow(before: map<Id, Row>, after: map<Id, Row>, k: Id) {
    (k in after <==> k in before) && (k in before ==> after[k] == before[k])
  }

  predicate HoldsNone(locks: map<Group, Id>, id: Id) {
    forall g <- locks :: locks[g] != id
  }

  /** What another instance holds it keeps, and what it did not hold it does not get. */
  predicate KeepsOtherHolders(before: map<Group, Id>, after: map<Group, Id>, id: Id) {
    && (forall g <- before :: before[g] != id ==> g in after && after[g] == before[g])
    && (forall g <- after :: after[g] != id ==> g in before && before[g] == after[g])
  }

  /** The spec says nothing to apply, or the group it asks for is not held. */
  predicate IsDenied(spec: Spec, locks: map<Group, Id>, id: Id) {
    match spec
    case Unparsable(_) => true
    case Parsed(_, group) => group != NO_GROUP && !(group in locks && locks[group] == id)
  }

  /** For every runtime alike: a row goes only when it is to be removed and all calls
      succeed, and what other instances hold stays theirs. */
  lemma RowGoesIff(d: Device, id: Id, row: Row, ans: Answers)
    ensures var after := Handled(d, id, row, ans);
            && (id in after.rows <==> id in d.rows && !(row.desired.Removed? && ans.removeOk && ans.deleteOk))
            && (forall k | k != id :: KeepsRow(d.rows, after.rows, k))
            && KeepsOtherHolders(d.locks, after.locks, id)
            && (id in d.rows && id !in after.rows ==> HoldsNone(after.locks, id))
  {
    hide HoldsNone, KeepsOtherHolders;
    ReleasingIsLocal(d.locks, id);
    ReleasingIsLocal(ReleasedFor(d.locks, id), id);
    KeepingIsTransitive(d.locks, ReleasedFor(d.locks, id), ReleasedFor(ReleasedFor(d.locks, id), id), id);
    if row.kind.System? && row.desired.Installed? && row.spec.Parsed? {
      AcquiringIsLocal(d, row.spec.group, id, ans);
    }
    hide ReleasedFor, TryAcquire;
  }

  lemma ReleasingIsLocal(locks: map<Group, Id>, id: Id)
    ensures KeepsOtherHolders(locks, ReleasedFor(locks, id), id) && HoldsNone(ReleasedFor(locks, id), id)
    ensures KeepsOtherHolders(locks, locks, id)
  {
  }

  lemma AcquiringIsLocal(d: Device, group: Group, id: Id, ans: Answers)
    ensures KeepsOtherHolders(d.locks, TryAcquire(d, group, id, ans).0, id)
  {
  }

  lemma KeepingIsTransitive(a: map<Group, Id>, b: map<Group, Id>, c: map<Group, Id>, id: Id)
    ensures KeepsOtherHolders(a, b, id) && KeepsOtherHolders(b, c, id) ==> KeepsOtherHolders(a, c, id)
  {
  }

  class Store {
    var rows: map<Id, Row>
    var locks: map<Group, Id>
    var services: map<Id, Group>
    var screen: Screen

    ghost function State(): Device
      reads this
    {
      Device(rows, locks, services, screen)
    }

    constructor ()
      ensures State() == EMPTY
    {
      rows, locks, services, screen := map[], map[], map[], Free;
    }

    method TryAcquireLock(group: Group, id: Id, ans: Answers) returns (r: LockResult)
      modifies this`locks
      ensures (locks, r) == TryAcquire(old(State()), group, id, ans)
      ensures r.Acquired? ==> group in locks && locks[group] == id
      ensures r.Acquired? <==>
                && group != NO_GROUP && id != "" && ans.readOk
                && (if group in old(locks) then old(locks)[group] == id else ans.insertOk && id in rows)
      ensures r.BadRequest? <==> group == NO_GROUP || id == ""
      ensures r.LockHeld? && group in old(locks) ==> old(locks)[group] != id
      ensures !r.Acquired? ==> locks == old(locks)
      ensures forall g | g != group :: g in locks <==> g in old(locks)
      ensures forall g | g in old(locks) :: g in locks && locks[g] == old(locks)[g]
    {
      if group == NO_GROUP || id == "" {
        return BadRequest;
      }
      if !ans.readOk {
        return ReadFailed;
      }
      if group in locks {
        if locks[group] == id {
          return Acquired;
        }
        return LockHeld;
      }
      if !ans.insertOk || id !in rows {
        return LockHeld;
      }
      locks := locks[group := id];
      r := Acquired;
    }

    /** The instance holds nothing any more, and every other holder keeps what it held. */
    method ReleaseLocksForInstance(id: Id)
      modifies this`locks
      ensures forall g :: g in locks <==> g in old(locks) && old(locks)[g] != id
      ensures forall g | g in locks :: locks[g] == old(locks)[g]
    {
      locks := map g | g in locks && locks[g] != id :: locks[g];
    }

    method DeleteInstance(id: Id)
      modifies this`rows, this`locks
      ensures State() == RowDeleted(old(State()), id)
      ensures id !in rows && forall k | k != id :: KeepsRow(old(rows), rows, k)
      ensures id in old(rows) ==> HoldsNone(locks, id)
      ensures KeepsOtherHolders(old(locks), locks, id)
    {
      if id in rows {
        ReleaseLocksForInstance(id);
        assert locks == ReleasedFor(old(locks), id);
      }
      rows := rows - {id};
    }

    /** The driver's Apply, as far as it takes effect. */
    method PutUp(id: Id, flavor: Flavor, group: Group)
      modifies this`services, this`screen
      ensures State() == UnitApplied(old(State()), id, flavor, group)
    {
      if flavor.Kiosk? {
        screen := Shown(id, group);
      } else if flavor.ManagedService? {
        services := services[id := group];
      }
    }

    /** The driver's Remove, as far as it takes effect. */
    method TakeDown(id: Id, kiosk: bool)
      modifies this`services, this`screen
      ensures State() == UnitRemoved(old(State()), id, kiosk)
    {
      if kiosk {
        screen := Free;
      } else {
        services := services - {id};
      }
    }

    /** On linux the driver refuses every host service. */
    method ReconcileSystem(id: Id, inst: Row, ans: Answers) returns (converged: bool)
      requires inst.kind.System?
      modifies this
      ensures State() == Handled(old(State()), id, inst, ans)
      // rows: only a removed instance whose unit is gone loses its row, and no other row changes
      ensures id in rows <==>
                id in old(rows) && !(inst.desired.Removed? && ans.removeOk && ans.deleteOk)
      ensures forall k | k != id || inst.desired.Installed? || inst.desired.Stopped? :: KeepsRow(old(rows), rows, k)
      // locks: released with the unit, and not before
      ensures KeepsOtherHolders(old(locks), locks, id)
      ensures !inst.desired.Installed? && ans.removeOk && ans.releaseOk ==> HoldsNone(locks, id)
      ensures !inst.desired.Installed? && !ans.removeOk ==> locks == old(locks)
      // units: only this instance's managed unit, or the screen
      ensures forall k | k != id :: k in services <==> k in old(services)
      ensures forall k | k != id && k in services :: services[k] == old(services)[k]
      ensures !inst.desired.Installed? && ans.removeOk ==>
                if IsKiosk(inst.spec) then screen.Free? && services == old(services)
                else id !in services && screen == old(screen)
      ensures inst.desired.Installed? && IsDenied(inst.spec, locks, id) ==> State() == old(State())
      ensures inst.desired.Installed? && inst.spec.Parsed? && inst.spec.flavor.HostService? ==>
                services == old(services) && screen == old(screen)
      // a free group stays taken, even if Apply then fails
      ensures inst.desired.Installed? && inst.spec.Parsed? && inst.spec.group != NO_GROUP
              && ans.readOk && ans.insertOk && id in old(rows) && id != "" && inst.spec.group !in old(locks) ==>
                inst.spec.group in locks
      ensures converged ==> inst.desired.Installed? && inst.spec.Parsed? && InPlace(State(), id, inst.spec.group)
      ensures converged && inst.spec.group != NO_GROUP ==> inst.spec.group in locks && locks[inst.spec.group] == id
    {
      converged := false;
      if inst.desired.Installed? {
        if inst.spec.Unparsable? {
          return;
        }
        if inst.spec.group != NO_GROUP {
          var r := TryAcquireLock(inst.spec.group, id, ans);
          if !r.Acquired? {
            return;
          }
        }
        if ans.applyOk || ans.applyTakesEffect {
          PutUp(id, inst.spec.flavor, inst.spec.group);
        }
        converged := ans.applyOk && !inst.spec.flavor.HostService?;
      } else {
        if ans.removeOk || ans.removeTakesEffect {
          TakeDown(id, IsKiosk(inst.spec));
        }
        if !ans.removeOk {
          return;
        }
        if ans.releaseOk {
          ReleaseLocksForInstance(id);
          assert locks == ReleasedFor(old(locks), id);
        }
        if inst.desired.Removed? && ans.deleteOk {
          DeleteInstance(id);
        }
      }
    }
  }

  // ------------------------------------------------------------------- runs

  datatype Entry = Entry(id: Id, row: Row)

  /** The device, and the entries the running pass has still to handle. */
  datatype Agent = Agent(device: Device, todo: seq<Entry>)

  datatype Action =
    | Upsert(id: Id, row: Row)
    | HardDelete(id: Id)
    | StartPass(snapshot: seq<Entry>)
    | HandleEntry(ans: Answers)
    | AbandonPass

  /** What users may do besides soft deletes and upserts that keep kind and flavor. */
  datatype SystemPolicy = SystemPolicy(rows: Policy, flavorChanges: bool)

  const STEADY := SystemPolicy(SOFT, false)

  const EMPTY := Device(map[], map[], map[], Free)

  const INITIAL := Agent(EMPTY, [])

  /** The snapshot holds every row once, in whatever order. */
  ghost predicate IsSnapshot(snapshot: seq<Entry>, rows: map<Id, Row>) {
    && (forall e <- snapshot :: e.id in rows && rows[e.id] == e.row)
    && (forall id <- rows :: Entry(id, rows[id]) in snapshot)
    && (forall i, j | 0 <= i < j < |snapshot| :: snapshot[i].id != snapshot[j].id)
  }

  ghost predicate Enabled(s: Agent, a: Action) {
    match a
    case Upsert(id, _) => id != ""
    case HardDelete(_) => true
    case StartPass(snapshot) => s.todo == [] && IsSnapshot(snapshot, s.device.rows)
    case HandleEntry(_) => s.todo != []
    case AbandonPass => true
  }

  /** An upsert that turns a kiosk into another system instance, or the reverse. */
  predicate ChangesFlavor(rows: map<Id, Row>, a: Action) {
    && a.Upsert? && a.id in rows && rows[a.id].kind.System? && a.row.kind.System?
    && IsKiosk(rows[a.id].spec) != IsKiosk(a.row.spec)
  }

  predicate Permitted(p: SystemPolicy, s: Agent, a: Action) {
    var rows := s.device.rows;
    && (a.HardDelete? ==> p.rows.hardDeletes)
    && (a.Upsert? && a.id in rows && rows[a.id].kind != a.row.kind ==> p.rows.kindChanges)
    && (ChangesFlavor(rows, a) ==> p.flavorChanges)
  }

  function Next(s: Agent, a: Action): Agent {
    match a
    case Upsert(id, row) => s.(device := s.device.(rows := s.device.rows[id := row]))
    case HardDelete(id) => s.(device := RowDeleted(s.device, id))
    case StartPass(snapshot) => s.(todo := snapshot)
    case HandleEntry(ans) =>
      if s.todo == [] then s else Agent(Handled(s.device, s.todo[0].id, s.todo[0].row, ans), s.todo[1..])
    case AbandonPass => s.(todo := [])
  }

  /** The agent after a run. */
  function After(s: Agent, run: seq<Action>): Agent {
    if run == [] then s else Next(After(s, run[..|run| - 1]), run[|run| - 1])
  }

  /** Every action of the run could be taken, and was permitted, when it was taken. */
  ghost predicate IsRun(p: SystemPolicy, s: Agent, run: seq<Action>) {
    forall i | 0 <= i < |run| :: Enabled(After(s, run[..i]), run[i]) && Permitted(p, After(s, run[..i]), run[i])
  }

  /** The instance has a unit of the group in place. */
  predicate InPlace(d: Device, id: Id, group: Group) {
    (id in d.services && d.services[id] == group) || d.screen == Shown(id, group)
  }

  /** Two instances of one group have their units in place together. */
  ghost predicate Shared(d: Device) {
    exists i, j, g :: i != j && g != NO_GROUP && InPlace(d, i, g) && InPlace(d, j, g)
  }

  /** A unit in place belongs to a row that Remove would route to it, and holds its
      group's lock, whatever specs came later. */
  ghost predicate LockInv(d: Device) {
    && "" !in d.rows
    && (forall i <- d.services :: i in d.rows && d.rows[i].kind.System? && !IsKiosk(d.rows[i].spec))
    && (d.screen.Shown? ==>
          d.screen.owner in d.rows && d.rows[d.screen.owner].kind.System? && IsKiosk(d.rows[d.screen.owner].spec))
    && (forall i, g | InPlace(d, i, g) && g != NO_GROUP :: g in d.locks && d.locks[g] == i)
  }

  /** However stale, an entry still to be handled agrees with its row on kind and flavor. */
  ghost predicate PassInv(s: Agent) {
    && (forall e <- s.todo :: e.id in s.device.rows && IsLike(e.row, s.device.rows[e.id]))
    && (forall i, j | 0 <= i < j < |s.todo| :: s.todo[i].id != s.todo[j].id)
  }

  predicate IsLike(a: Row, b: Row) {
    a.kind == b.kind && (a.kind.System? ==> IsKiosk(a.spec) == IsKiosk(b.spec))
  }

  /** A unit put up holds the lock just taken, or the group is none. */
  lemma InstallKeepsLocks(d: Device, id: Id, row: Row, ans: Answers)
    requires LockInv(d) && id in d.rows && row.kind.System? && IsLike(row, d.rows[id])
    ensures LockInv(SystemInstalled(d, id, row.spec, ans))
  {
    var h := SystemInstalled(d, id, row.spec, ans);
    forall i, g | InPlace(h, i, g) && g != NO_GROUP
      ensures g in h.locks && h.locks[g] == i
    {
      if InPlace(d, i, g) {
        assert g in d.locks && d.locks[g] == i;
      }
    }
  }

  /** Taking down a row's own unit leaves no unit of it in place. */
  lemma RemovalIsComplete(d: Device, id: Id, row: Row)
    requires LockInv(d) && id in d.rows && row.kind.System? && IsLike(row, d.rows[id])
    ensures LockInv(UnitRemoved(d, id, IsKiosk(row.spec)))
    ensures HasNoUnit(UnitRemoved(d, id, IsKiosk(row.spec)), id)
  {
    var h := UnitRemoved(d, id, IsKiosk(row.spec));
    assert forall i, g :: InPlace(h, i, g) ==> InPlace(d, i, g);
  }

  ghost predicate HasNoUnit(d: Device, id: Id) {
    id !in d.services && (d.screen.Shown? ==> d.screen.owner != id)
  }

  /** An instance without a unit may lose its locks, and its row too. */
  lemma LocksMayGo(d: Device, id: Id)
    requires LockInv(d) && HasNoUnit(d, id)
    ensures LockInv(d.(locks := ReleasedFor(d.locks, id))) && LockInv(RowDeleted(d, id))
  {
    forall i, g | InPlace(d, i, g) && g != NO_GROUP
      ensures g in ReleasedFor(d.locks, id) && ReleasedFor(d.locks, id)[g] == i
    {
      assert i != id;
    }
    assert forall i, g :: InPlace(d.(locks := ReleasedFor(d.locks, id)), i, g) == InPlace(d, i, g);
    assert forall i, g :: InPlace(RowDeleted(d, id), i, g) == InPlace(d, i, g);
  }

  lemma HandlingKeepsLocks(d: Device, id: Id, row: Row, ans: Answers)
    requires LockInv(d) && id in d.rows && IsLike(row, d.rows[id])
    ensures LockInv(Handled(d, id, row, ans))
    ensures var rows := Handled(d, id, row, ans).rows; forall k <- d.rows | k != id :: k in rows && rows[k] == d.rows[k]
  {
    if row.kind.System? && row.desired.Installed? {
      InstallKeepsLocks(d, id, row, ans);
    } else {
      var gone := d;
      if row.kind.System? {
        RemovalIsComplete(d, id, row);
        gone := UnitRemoved(d, id, IsKiosk(row.spec));
      }
      assert HasNoUnit(gone, id);
      LocksMayGo(gone, id);
      LocksMayGo(gone.(locks := ReleasedFor(d.locks, id)), id);
      hide LockInv, ReleasedFor;
    }
  }

  lemma StepKeepsLocks(s: Agent, a: Action)
    requires LockInv(s.device) && PassInv(s) && Enabled(s, a) && Permitted(STEADY, s, a)
    ensures LockInv(Next(s, a).device) && PassInv(Next(s, a))
  {
    if a.HandleEntry? {
      hide Handled, LockInv;
      assert s.todo[0] in s.todo;
      HandlingKeepsLocks(s.device, s.todo[0].id, s.todo[0].row, a.ans);
    } else {
      assert forall i, g :: InPlace(Next(s, a).device, i, g) ==> InPlace(s.device, i, g);
    }
  }

  lemma {:induction false} SteadyRunsKeepLocks(s: Agent, run: seq<Action>)
    requires LockInv(s.device) && PassInv(s) && IsRun(STEADY, s, run)
    ensures LockInv(After(s, run).device) && PassInv(After(s, run)) && !Shared(After(s, run).device)
  {
    hide Enabled, Next, Permitted;
    if run != [] {
      var n := |run| - 1;
      assert forall i | 0 <= i < n :: run[..n][..i] == run[..i];
      SteadyRunsKeepLocks(s, run[..n]);
      StepKeepsLocks(After(s, run[..n]), run[n]);
    }
  }

  // ----------------------------------------- every restriction is necessary

  const DISPLAY: Group := "display-output"

  const ALL_OK := Answers(true, true, true, true, true, true, true, true)

  lemma OneMore(p: SystemPolicy, run: seq<Action>, a: Action) returns (longer: seq<Action>)
    requires IsRun(p, INITIAL, run) && Enabled(After(INITIAL, run), a) && Permitted(p, After(INITIAL, run), a)
    ensures IsRun(p, INITIAL, longer) && After(INITIAL, longer) == Next(After(INITIAL, run), a)
  {
    hide Enabled, Next, Permitted;
    longer := run + [a];
    assert longer[..|run|] == run;
    assert forall i | 0 <= i < |run| :: longer[..i] == run[..i];
  }

  /** A user writes the device's only row, and a whole pass handles it. */
  lemma WriteAndReconcile(p: SystemPolicy, run: seq<Action>, id: Id, row: Row) returns (longer: seq<Action>)
    requires IsRun(p, INITIAL, run) && Permitted(p, After(INITIAL, run), Upsert(id, row)) && id != ""
    requires After(INITIAL, run).todo == [] && After(INITIAL, run).device.rows.Keys <= {id}
    ensures IsRun(p, INITIAL, longer)
    ensures var d := After(INITIAL, run).device;
            After(INITIAL, longer) == Agent(Handled(d.(rows := map[id := row]), id, row, ALL_OK), [])
  {
    hide IsRun, After, Handled;
    var d := After(INITIAL, run).device;
    assert d.rows[id := row] == map[id := row];
    longer := OneMore(p, run, Upsert(id, row));
    longer := OneMore(p, longer, StartPass([Entry(id, row)]));
    longer := OneMore(p, longer, HandleEntry(ALL_OK));
  }

  /** Each freedom leaves a unit behind whose lock is gone. */
  lemma OrphanedUnit(p: SystemPolicy) returns (run: seq<Action>)
    requires p.rows.hardDeletes || p.rows.kindChanges || p.flavorChanges
    ensures IsRun(p, INITIAL, run) && After(INITIAL, run).todo == []
    ensures var d := After(INITIAL, run).device; d.rows == map[] && d.locks == map[] && InPlace(d, "a", DISPLAY)
  {
    assert IsRun(p, INITIAL, []) && After(INITIAL, []) == INITIAL;
    hide IsRun, After;
    var service := Row(System, Installed, Parsed(ManagedService, DISPLAY));
    if p.rows.hardDeletes {
      run := WriteAndReconcile(p, [], "a", service);
      run := OneMore(p, run, HardDelete("a"));
    } else if p.rows.kindChanges {
      run := WriteAndReconcile(p, [], "a", service);
      run := WriteAndReconcile(p, run, "a", Row(Container, Removed, Unparsable(false)));
    } else {
      run := WriteAndReconcile(p, [], "a", service.(spec := Parsed(Kiosk, DISPLAY)));
      run := WriteAndReconcile(p, run, "a", Row(System, Removed, Unparsable(false)));
    }
  }

  lemma BreakingPolicyShares(p: SystemPolicy) returns (run: seq<Action>)
    requires p.rows.hardDeletes || p.rows.kindChanges || p.flavorChanges
    ensures IsRun(p, INITIAL, run) && Shared(After(INITIAL, run).device)
  {
    hide IsRun, After;
    run := OrphanedUnit(p);
    run := WriteAndReconcile(p, run, "b", Row(System, Installed, Parsed(ManagedService, DISPLAY)));
    var d := After(INITIAL, run).device;
    assert InPlace(d, "a", DISPLAY) && InPlace(d, "b", DISPLAY);
  }

  ghost predicate NeverShares(p: SystemPolicy) {
    forall run: seq<Action> | IsRun(p, INITIAL, run) :: !Shared(After(INITIAL, run).device)
  }

  /** A group is never shared for exactly the policies that allow none of the three. */
  lemma ExclusiveIffSteady(p: SystemPolicy)
    ensures NeverShares(p) <==> !p.rows.hardDeletes && !p.rows.kindChanges && !p.flavorChanges
  {
    hide IsRun, Shared, After;
    if p.rows.hardDeletes || p.rows.kindChanges || p.flavorChanges {
      var run := BreakingPolicyShares(p);
      assert IsRun(p, INITIAL, run) && Shared(After(INITIAL, run).device);
    } else {
      assert p == STEADY;
      forall run: seq<Action> | IsRun(p, INITIAL, run)
        ensures !Shared(After(INITIAL, run).device)
      {
        SteadyRunsKeepLocks(INITIAL, run);
      }
    }
  }
}
