// The synchronous pass (RunOnce) over container-runtime rows, with drivers that
// succeed and nobody else writing (internal/reconciler/loop.go).
module Convergence {
  import opened Instances
  import opened Wrappers

  /** `spec` is the drift key of the parsed config; None when it does not parse. */
  datatype Row = Row(desired: Desired, spec: Option<string>, observed: string)

  datatype Live = Live(hash: string, state: string)

  datatype World = World(rows: map<Id, Row>, containers: map<Id, Live>)

  const RUNNING := "running"
  const INSTALLED := "installed"

  // ---------------------------------------------------- one pass, pointwise

  predicate Applies(row: Row) {
    row.desired.Installed? && row.spec.Some?
  }

  predicate UpToDate(containers: map<Id, Live>, id: Id, hash: string) {
    id in containers && containers[id] == Live(hash, RUNNING)
  }

  /** The state reported for an applied row comes from the snapshot of the pass. */
  function ReportedState(snapshot: map<Id, Live>, id: Id): string {
    if id in snapshot && snapshot[id].state != "" && snapshot[id].state != RUNNING then snapshot[id].state
    else INSTALLED
  }

  function RowAfter(w: World, id: Id): Row
    requires id in w.rows
  {
    if Applies(w.rows[id]) then w.rows[id].(observed := ReportedState(w.containers, id)) else w.rows[id]
  }

  predicate KeepsContainer(w: World, id: Id) {
    id in w.rows && w.rows[id].desired.Installed? && (w.rows[id].spec.Some? || id in w.containers)
  }

  function ContainerAfter(w: World, id: Id): Live
    requires KeepsContainer(w, id)
  {
    if w.rows[id].spec.Some? then Live(w.rows[id].spec.value, RUNNING) else w.containers[id]
  }

  /** What a whole pass leaves behind. */
  function AfterPass(w: World): World {
    World(
      map id | id in w.rows && !w.rows[id].desired.Removed? :: RowAfter(w, id),
      map id | id in w.rows.Keys + w.containers.Keys && KeepsContainer(w, id) :: ContainerAfter(w, id))
  }

  predicate RowChanges(w: World, id: Id)
    requires id in w.rows
  {
    match w.rows[id].desired
    case Installed =>
      w.rows[id].spec.Some?
      && (!UpToDate(w.containers, id, w.rows[id].spec.value)
          || ReportedState(w.containers, id) != w.rows[id].observed)
    case Stopped => id in w.containers
    case Removed => true
  }

  /** Whether the pass reports a change and so pushes a snapshot. */
  predicate Changes(w: World) {
    (exists id | id in w.rows :: RowChanges(w, id)) || (exists id | id in w.containers :: id !in w.rows)
  }

  // ----------------------------------------------------- one row, errors included

  const ERROR := "error"

  /** How an apply goes: the ipc setup or the secrets can fail before the driver is called,
      and a driver that fails leaves some container, or none. */
  datatype ApplyAnswer =
    | Applied
    | IpcError
    | SecretsError
    | Unreachable(left: Option<Live>)
    | ApplyError(left: Option<Live>)

  datatype DownAnswer = DownAnswer(removeOk: bool, deleteOk: bool)

  const DOWN_OK := DownAnswer(true, true)

  function MarkedInstalling(observed: string): string {
    if observed == "" || observed == "pending" then "installing" else observed
  }

  function ObservedAfterApply(inst: Row, snapshot: map<Id, Live>, id: Id, ans: ApplyAnswer): string {
    match ans
    case Applied => ReportedState(snapshot, id)
    case IpcError => inst.observed
    case SecretsError => ERROR
    case Unreachable(_) => MarkedInstalling(inst.observed)
    case ApplyError(_) => ERROR
  }

  function LeftBehind(containers: map<Id, Live>, id: Id, left: Option<Live>): map<Id, Live> {
    if left.Some? then containers[id := left.value] else containers - {id}
  }

  function ContainersAfterApply(containers: map<Id, Live>, id: Id, hash: string, ans: ApplyAnswer): map<Id, Live> {
    match ans
    case Applied => containers[id := Live(hash, RUNNING)]
    case IpcError => containers
    case SecretsError => containers
    case Unreachable(left) => LeftBehind(containers, id, left)
    case ApplyError(left) => LeftBehind(containers, id, left)
  }

  /** What is reported as a change: a new container, a new state, or a new error. */
  predicate ApplyChanges(inst: Row, snapshot: map<Id, Live>, containers: map<Id, Live>, id: Id, ans: ApplyAnswer)
    requires inst.spec.Some?
  {
    match ans
    case Applied => !UpToDate(containers, id, inst.spec.value) || ReportedState(snapshot, id) != inst.observed
    case IpcError => false
    case SecretsError => inst.observed != ERROR
    case Unreachable(_) => false
    case ApplyError(_) => inst.observed != ERROR
  }

  /** "running" and an unknown state both read as installed. */
  function SeenState(snapshot: map<Id, Live>, id: Id): string {
    if id !in snapshot || snapshot[id].state in ["", "running"] then "installed" else snapshot[id].state
  }

  // ------------------------------------------------------------ the pass itself

  class Reconciler {
    var rows: map<Id, Row>
    var containers: map<Id, Live>

    ghost function State(): World
      reads this
    {
      World(rows, containers)
    }

    constructor (w: World)
      ensures State() == w
    {
      rows, containers := w.rows, w.containers;
    }

    method SetObservedState(id: Id, state: string)
      modifies this`rows
      ensures rows == if id in old(rows) then old(rows)[id := old(rows)[id].(observed := state)] else old(rows)
    {
      if id in rows {
        rows := rows[id := rows[id].(observed := state)];
      }
    }

    /** The driver's Apply: recreate unless already running with this hash. */
    method DockerApply(id: Id, hash: string) returns (applied: bool)
      modifies this`containers
      ensures applied <==> !UpToDate(old(containers), id, hash)
      ensures containers == old(containers)[id := Live(hash, RUNNING)]
    {
      if id in containers && containers[id].hash == hash && containers[id].state == RUNNING {
        assert containers == containers[id := Live(hash, RUNNING)];
        return false;
      }
      containers := containers - {id};
      containers := containers[id := Live(hash, RUNNING)];
      applied := true;
    }

    method DockerRemove(id: Id) returns (removed: bool)
      modifies this`containers
      ensures removed <==> id in old(containers)
      ensures containers == old(containers) - {id}
    {
      removed := id in containers;
      containers := containers - {id};
    }

    method ApplyContainer(id: Id, inst: Row, observedByInstance: map<Id, Live>, ans: ApplyAnswer) returns (changed: bool)
      requires id in rows && rows[id] == inst && inst.desired.Installed?
      modifies this
      ensures inst.spec.None? ==> State() == old(State()) && !changed
      ensures inst.spec.Some? ==>
                && rows == old(rows)[id := inst.(observed := ObservedAfterApply(inst, observedByInstance, id, ans))]
                && containers == ContainersAfterApply(old(containers), id, inst.spec.value, ans)
                && (changed <==> ApplyChanges(inst, observedByInstance, old(containers), id, ans))
      // a failure shows as "error", and is reported once; an unreachable driver shows at most as "installing"
      ensures inst.spec.Some? && (ans.SecretsError? || ans.ApplyError?) ==>
                rows[id].observed == "error" && (changed <==> old(rows)[id].observed != "error")
      ensures inst.spec.Some? && ans.Unreachable? ==>
                !changed && rows[id].observed == if inst.observed in ["", "pending"] then "installing" else inst.observed
      ensures ans.IpcError? ==> !changed && State() == old(State())
      ensures ans.SecretsError? ==> containers == old(containers)
      // success shows as the state the pass saw, or "installed"
      ensures inst.spec.Some? && ans.Applied? ==>
                && UpToDate(containers, id, inst.spec.value)
                && rows[id].observed == SeenState(observedByInstance, id)
                && (changed <==> containers != old(containers) || rows != old(rows))
      ensures forall k | k != id :: k in rows <==> k in old(rows)
      ensures forall k <- rows | k != id :: rows[k] == old(rows)[k]
      ensures forall k | k != id :: k in containers <==> k in old(containers)
      ensures forall k <- containers | k != id :: containers[k] == old(containers)[k]
    {
      if inst.spec.None? || ans.IpcError? {
        assert rows == rows[id := inst];
        return false;
      }
      if ans.SecretsError? {
        changed := RecordObservedError(id, inst);
        return;
      }
      if inst.observed == "" || inst.observed == "pending" {
        SetObservedState(id, "installing");
      }
      if ans.Unreachable? || ans.ApplyError? {
        containers := LeftBehind(containers, id, ans.left);
        if ans.Unreachable? {
          return false;
        }
        changed := RecordObservedError(id, inst);
        return;
      }
      var applied := DockerApply(id, inst.spec.value);
      var state := INSTALLED;
      if id in observedByInstance && observedByInstance[id].state != "" && observedByInstance[id].state != RUNNING {
        state := observedByInstance[id].state;
      }
      SetObservedState(id, state);
      changed := applied || state != inst.observed;
    }

    method RecordObservedError(id: Id, inst: Row) returns (changed: bool)
      requires id in rows && rows[id] == inst.(observed := rows[id].observed)
      modifies this`rows
      ensures rows == old(rows)[id := inst.(observed := ERROR)]
      ensures changed <==> inst.observed != ERROR
    {
      SetObservedState(id, ERROR);
      changed := inst.observed != ERROR;
    }

    method ReconcileContainerDown(id: Id, inst: Row, ans: DownAnswer) returns (changed: bool)
      requires id in rows && rows[id] == inst && !inst.desired.Installed?
      modifies this
      ensures !ans.removeOk ==> State() == old(State()) && !changed
      ensures ans.removeOk ==>
                && rows == (if inst.desired.Removed? && ans.deleteOk then old(rows) - {id} else old(rows))
                && containers == old(containers) - {id}
                && (changed <==> inst.desired.Removed? || id in old(containers))
    {
      if !ans.removeOk {
        return false;
      }
      changed := DockerRemove(id);
      if inst.desired.Removed? {
        if ans.deleteOk {
          rows := rows - {id};
        }
        changed := true;
      }
    }

    /** One synchronous pass, visiting rows and orphans in an arbitrary order. */
    method RunOnce() returns (changed: bool)
      modifies this
      ensures State() == AfterPass(old(State()))
      ensures changed <==> Changes(old(State()))
    {
      var desired, observedByInstance := rows, containers;
      var rowsChanged := HandleRows(desired, observedByInstance);
      var collected := CollectOrphans(observedByInstance.Keys - desired.Keys);
      changed := rowsChanged || collected;
      OrphansCollected(World(desired, observedByInstance));
    }

    method HandleRows(desired: map<Id, Row>, observedByInstance: map<Id, Live>) returns (changed: bool)
      requires rows == desired && containers == observedByInstance
      modifies this
      ensures rows == RowsHalfway(old(State()), desired.Keys)
      ensures containers == ContainersHalfway(old(State()), desired.Keys)
      ensures changed <==> exists id | id in desired :: RowChanges(old(State()), id)
    {
      ghost var w := State();
      changed := false;
      var left := desired.Keys;
      while left != {}
        invariant left <= desired.Keys
        invariant rows == RowsHalfway(w, desired.Keys - left)
        invariant containers == ContainersHalfway(w, desired.Keys - left)
        invariant changed <==> exists id | id in desired.Keys - left :: RowChanges(w, id)
        decreases left
      {
        var id :| id in left;
        ghost var done := desired.Keys - left;
        HalfwayStep(w, done, id);
        var rowChanged;
        if desired[id].desired.Installed? {
          rowChanged := ApplyContainer(id, desired[id], observedByInstance, Applied);
        } else {
          rowChanged := ReconcileContainerDown(id, desired[id], DOWN_OK);
        }
        changed := rowChanged || changed;
        left := left - {id};
        assert desired.Keys - left == done + {id};
      }
      assert desired.Keys - left == desired.Keys;
    }

    /** Removes containers whose row is gone. */
    method CollectOrphans(orphans: set<Id>) returns (changed: bool)
      modifies this`containers
      ensures containers == old(containers) - orphans
      ensures changed <==> orphans * old(containers).Keys != {}
    {
      changed := false;
      var left := orphans;
      while left != {}
        invariant left <= orphans
        invariant containers == old(containers) - (orphans - left)
        invariant changed <==> (orphans - left) * old(containers).Keys != {}
        decreases left
      {
        var id :| id in left;
        var removed := DockerRemove(id);
        changed := removed || changed;
        assert orphans - (left - {id}) == orphans - left + {id};
        assert (orphans - left + {id}) * old(containers).Keys
            == (orphans - left) * old(containers).Keys + ({id} * old(containers).Keys);
        assert ({id} * old(containers).Keys != {}) <==> removed by {
          assert removed ==> id in {id} * old(containers).Keys;
        }
        left := left - {id};
      }
      assert orphans - left == orphans;
    }
  }

  lemma OrphansCollected(w: World)
    ensures RowsHalfway(w, w.rows.Keys) == AfterPass(w).rows
    ensures ContainersHalfway(w, w.rows.Keys) - (w.containers.Keys - w.rows.Keys) == AfterPass(w).containers
    ensures (w.containers.Keys - w.rows.Keys) * ContainersHalfway(w, w.rows.Keys).Keys != {}
        <==> exists id | id in w.containers :: id !in w.rows
  {
    var orphans := w.containers.Keys - w.rows.Keys;
    assert orphans * ContainersHalfway(w, w.rows.Keys).Keys == orphans;
    forall id | id in w.containers && id !in w.rows
      ensures orphans != {}
    {
      assert id in orphans;
    }
  }

  /** The row table once the rows in `done` have been handled. */
  ghost function RowsHalfway(w: World, done: set<Id>): map<Id, Row> {
    map id | id in w.rows && (id in done ==> !w.rows[id].desired.Removed?) ::
      if id in done then RowAfter(w, id) else w.rows[id]
  }

  ghost function ContainersHalfway(w: World, done: set<Id>): map<Id, Live> {
    map id | id in w.containers.Keys + done && (id in done ==> KeepsContainer(w, id)) ::
      if id in done then ContainerAfter(w, id) else w.containers[id]
  }

  lemma HalfwayStep(w: World, done: set<Id>, id: Id)
    requires done <= w.rows.Keys && id in w.rows && id !in done
    ensures RowsHalfway(w, done + {id})
         == if w.rows[id].desired.Removed? then RowsHalfway(w, done) - {id}
            else RowsHalfway(w, done)[id := RowAfter(w, id)]
    ensures ContainersHalfway(w, done + {id})
         == if KeepsContainer(w, id) then ContainersHalfway(w, done)[id := ContainerAfter(w, id)]
            else ContainersHalfway(w, done) - {id}
  {
  }

  // -------------------------------------------------------------- convergence

  /** What the desired state asks for: no more and no less is running. */
  ghost predicate Converged(w: World) {
    && (forall id | id in w.rows :: !w.rows[id].desired.Removed?)
    && (forall id | id in w.containers :: id in w.rows && w.rows[id].desired.Installed?)
    && (forall id | id in w.rows && Applies(w.rows[id]) ::
          UpToDate(w.containers, id, w.rows[id].spec.value) && w.rows[id].observed == INSTALLED)
  }

  /** A pass changes nothing, and reports nothing, exactly on converged worlds. */
  lemma FixpointIffConverged(w: World)
    ensures Converged(w) <==> AfterPass(w) == w && !Changes(w)
  {
    if Converged(w) {
      assert AfterPass(w).rows == w.rows;
      assert AfterPass(w).containers == w.containers;
    } else {
      if x :| x in w.rows && w.rows[x].desired.Removed? {
        assert RowChanges(w, x);
      } else if x :| x in w.containers && !(x in w.rows && w.rows[x].desired.Installed?) {
        if x in w.rows {
          assert RowChanges(w, x);
        }
      } else {
        var x :| x in w.rows && Applies(w.rows[x])
          && !(UpToDate(w.containers, x, w.rows[x].spec.value) && w.rows[x].observed == INSTALLED);
        assert RowChanges(w, x);
      }
    }
  }

  lemma ContainersSettleInOnePass(w: World)
    ensures AfterPass(AfterPass(w)).containers == AfterPass(w).containers
    ensures forall id :: id in AfterPass(w).containers <==> KeepsContainer(w, id)
    ensures forall id | id in w.rows && Applies(w.rows[id]) ::
              UpToDate(AfterPass(w).containers, id, w.rows[id].spec.value)
  {
  }

  /** From any world two passes reach the fixpoint: a third changes and reports nothing. */
  lemma TwoPassesConverge(w: World)
    ensures var w2 := AfterPass(AfterPass(w));
            Converged(w2) && AfterPass(w2) == w2 && !Changes(w2)
    ensures forall id :: id in AfterPass(AfterPass(w)).rows <==> id in w.rows && !w.rows[id].desired.Removed?
    ensures forall id :: id in AfterPass(AfterPass(w)).containers <==> KeepsContainer(w, id)
  {
    ContainersSettleInOnePass(w);
    FixpointIffConverged(AfterPass(AfterPass(w)));
  }

  /** One pass is enough unless an installed row's container was seen in some other state. */
  lemma OnePassConvergesIff(w: World)
    ensures Converged(AfterPass(w)) <==>
            forall id | id in w.rows && Applies(w.rows[id]) && id in w.containers ::
              w.containers[id].state in {"", RUNNING, INSTALLED}
  {
    ContainersSettleInOnePass(w);
    var w1 := AfterPass(w);
    if id :| id in w.rows && Applies(w.rows[id]) && id in w.containers
             && w.containers[id].state !in {"", RUNNING, INSTALLED} {
      assert id in w1.rows && Applies(w1.rows[id]) && w1.rows[id].observed == w.containers[id].state;
    } else {
      forall id | id in w1.rows && Applies(w1.rows[id])
        ensures w1.rows[id].observed == INSTALLED
      {
        assert id in w.rows && Applies(w.rows[id]);
      }
    }
  }

  /** The stale snapshot at work: a recreated container still reported as exited. */
  lemma OnePassIsNotEnough()
    ensures var w := World(map["a" := Row(Installed, Some("h"), INSTALLED)], map["a" := Live("h", "exited")]);
            AfterPass(w).containers["a"].state == RUNNING && AfterPass(w).rows["a"].observed == "exited"
            && !Converged(AfterPass(w))
  {
    var w := World(map["a" := Row(Installed, Some("h"), INSTALLED)], map["a" := Live("h", "exited")]);
    assert AfterPass(w).rows["a"].observed == "exited";
  }
}
