// The reconcile pass and the apply worker as two interleaved threads, with user
// writes to the row table (internal/reconciler/loop.go).
//
// A step of the machine is one critical section, one store access, or the start
// or end of a driver call. Whatever the drivers list or return is an argument of
// the action, so the theorems hold for every answer they can give.
module ApplyProtocol {
  import opened Instances
  import opened ApplyQueue
  import opened Wrappers

  datatype Row = Row(kind: Kind, desired: Desired)

  datatype Entry = Entry(id: Id, row: Row)

  /** Where the pass thread stands. `todo` starts with the row being handled. */
  datatype Pass =
    | NoPass
    | Rows(ids: set<Id>, todo: seq<Entry>, at: RowStage)
    | Collecting(ids: set<Id>, left: set<Id>, removing: Option<Id>)

  datatype RowStage =
    | AtRow
    | BeforeKick        // job appended, wake-up token not offered yet
    | InRemove          // inside the driver's Remove for this row
    | BeforeDelete      // Remove succeeded, row not deleted yet
    | BeforeSystemDelete

  datatype WorkerAt = Waiting | Draining | Reading(id: Id) | Applying(id: Id) | Finishing(id: Id)

  datatype State = State(
    rows: map<Id, Row>, queue: Queue, kick: bool, pass: Pass, worker: WorkerAt,
    enqueuedIds: seq<Id>, startedIds: seq<Id>)

  datatype Action =
    // users
    | Upsert(id: Id, row: Row)
    | HardDelete(id: Id)
    // the pass
    | StartPass(snapshot: seq<Entry>)
    | HandleRow(firstInstall: bool)
    | OfferKick
    | RemoveReturns(ok: bool)
    | DeleteReturns(ok: bool)
    | ListForCollection(listed: set<Id>)
    | StartOrphanRemove(orphan: Id)
    | OrphanRemoveReturns
    | EndPass
    // the worker
    | Wake
    | TakeJob
    | Sleep
    | ReadRow
    | ApplyReturns
    | FinishJob

  const INITIAL := State(map[], EMPTY, false, NoPass, Waiting, [], [])

  /** The snapshot holds every row once, in whatever order. */
  ghost predicate IsSnapshot(snapshot: seq<Entry>, rows: map<Id, Row>) {
    && (forall i | 0 <= i < |snapshot| :: snapshot[i].id in rows && rows[snapshot[i].id] == snapshot[i].row)
    && (forall id | id in rows :: exists i :: 0 <= i < |snapshot| && snapshot[i].id == id)
    && DistinctIds(snapshot)
  }

  ghost predicate DistinctIds(todo: seq<Entry>) {
    forall i, j | 0 <= i < j < |todo| :: todo[i].id != todo[j].id
  }

  function NextRow(p: Pass): Pass
    requires p.Rows? && p.todo != []
  {
    p.(todo := p.todo[1..], at := AtRow)
  }

  /** The three branches of the row loop. */
  function HandledRow(s: State, first: bool): State
    requires s.pass.Rows? && s.pass.todo != []
  {
    var entry := s.pass.todo[0];
    if entry.row.kind.System? then
      if entry.row.desired.Removed? then s.(pass := s.pass.(at := BeforeSystemDelete))
      else s.(pass := NextRow(s.pass))
    else if entry.row.desired.Installed? then
      if Busy(s.queue, entry.id) then s.(pass := NextRow(s.pass))
      else
        s.(queue := Enqueued(s.queue, entry.id, first), enqueuedIds := s.enqueuedIds + [entry.id],
           pass := s.pass.(at := BeforeKick))
    else if Busy(s.queue, entry.id) then s.(pass := NextRow(s.pass))
    else s.(pass := s.pass.(at := InRemove))
  }

  /** `applyOne` gives up unless the row still asks for a container or compose install. */
  function AfterReadRow(s: State): State
    requires s.worker.Reading?
  {
    var id := s.worker.id;
    if id in s.rows && s.rows[id].desired.Installed? && !s.rows[id].kind.System?
    then s.(worker := Applying(id))
    else s.(worker := Finishing(id))
  }

  ghost predicate Enabled(s: State, a: Action) {
    match a
    case Upsert(id, row) => id != IDLE
    case HardDelete(id) => true
    case StartPass(snapshot) => s.pass.NoPass? && IsSnapshot(snapshot, s.rows)
    case HandleRow(_) => s.pass.Rows? && s.pass.at.AtRow? && s.pass.todo != []
    case OfferKick => s.pass.Rows? && s.pass.at.BeforeKick? && s.pass.todo != []
    case RemoveReturns(_) => s.pass.Rows? && s.pass.at.InRemove? && s.pass.todo != []
    case DeleteReturns(_) => s.pass.Rows? && (s.pass.at.BeforeDelete? || s.pass.at.BeforeSystemDelete?) && s.pass.todo != []
    case ListForCollection(_) =>
      || (s.pass.Rows? && s.pass.at.AtRow? && s.pass.todo == [])
      || (s.pass.Collecting? && s.pass.left == {} && s.pass.removing.None?)
    case StartOrphanRemove(id) => s.pass.Collecting? && s.pass.removing.None? && id in s.pass.left
    case OrphanRemoveReturns => s.pass.Collecting? && s.pass.removing.Some?
    case EndPass => s.pass.Collecting? && s.pass.removing.None? && s.pass.left == {}
    case Wake => s.worker.Waiting? && s.kick
    case TakeJob => s.worker.Draining? && s.queue.jobs != []
    case Sleep => s.worker.Draining? && s.queue.jobs == []
    case ReadRow => s.worker.Reading?
    case ApplyReturns => s.worker.Applying?
    case FinishJob => s.worker.Finishing?
  }

  ghost function Next(s: State, a: Action): State
    requires Enabled(s, a)
  {
    match a
    case Upsert(id, row) => s.(rows := s.rows[id := row])
    case HardDelete(id) => s.(rows := s.rows - {id})
    case StartPass(snapshot) => s.(pass := Rows(s.rows.Keys, snapshot, AtRow))
    case HandleRow(first) => HandledRow(s, first)
    case OfferKick => s.(kick := true, pass := NextRow(s.pass))
    case RemoveReturns(ok) =>
      if ok && s.pass.todo[0].row.desired.Removed? then s.(pass := s.pass.(at := BeforeDelete))
      else s.(pass := NextRow(s.pass))
    case DeleteReturns(ok) =>
      s.(rows := if ok then s.rows - {s.pass.todo[0].id} else s.rows, pass := NextRow(s.pass))
    case ListForCollection(listed) => s.(pass := Collecting(s.pass.ids, listed - s.pass.ids, None))
    case StartOrphanRemove(id) => s.(pass := s.pass.(left := s.pass.left - {id}, removing := Some(id)))
    case OrphanRemoveReturns => s.(pass := s.pass.(removing := None))
    case EndPass => s.(pass := NoPass)
    case Wake => s.(kick := false, worker := Draining)
    case TakeJob =>
      s.(queue := Dequeued(s.queue), worker := Reading(s.queue.jobs[0].id),
         startedIds := s.startedIds + [s.queue.jobs[0].id])
    case Sleep => s.(worker := Waiting)
    case ReadRow => AfterReadRow(s)
    case ApplyReturns => s.(worker := Finishing(s.worker.id))
    case FinishJob => s.(queue := Finished(s.queue), worker := Draining)
  }

  // ------------------------------------------------------------------ runs

  ghost predicate Permitted(p: Policy, s: State, a: Action) {
    && (a.HardDelete? ==> p.hardDeletes)
    && (a.Upsert? && a.id in s.rows && s.rows[a.id].kind != a.row.kind ==> p.kindChanges)
  }

  ghost predicate Runs(p: Policy, s: State, run: seq<Action>, end: State)
    decreases |run|
  {
    if run == [] then s == end
    else Enabled(s, run[0]) && Permitted(p, s, run[0]) && Runs(p, Next(s, run[0]), run[1..], end)
  }

  // ------------------------------------------------------------- properties

  /** A driver Remove and a driver Apply of one instance are in flight together. */
  ghost predicate Overlap(s: State) {
    s.worker.Applying? && (
      || (s.pass.Rows? && s.pass.at.InRemove? && s.pass.todo != [] && s.pass.todo[0].id == s.worker.id)
      || (s.pass.Collecting? && s.pass.removing == Some(s.worker.id)))
  }

  ghost predicate WakeUpPending(s: State) {
    s.queue.jobs != [] ==> s.kick || !s.worker.Waiting? || (s.pass.Rows? && s.pass.at.BeforeKick?)
  }

  ghost predicate StartedInOrder(s: State) {
    s.enqueuedIds == s.startedIds + Ids(s.queue.jobs)
  }

  // -------------------------------------------------------------- invariant

  ghost predicate QueueInv(s: State) {
    && Disciplined(s.queue) && IDLE !in s.queue.pending
    && (if s.worker.Waiting? || s.worker.Draining? then s.queue.active == IDLE
        else s.queue.active == s.worker.id != IDLE)
  }

  ghost predicate Working(s: State, id: Id) {
    id != IDLE && Busy(s.queue, id)
  }

  /** Busy ids have a row that is not a system row, and lie in the running snapshot. */
  ghost predicate BusyInv(s: State) {
    forall id | Working(s, id) ::
      && id in s.rows && !s.rows[id].kind.System?
      && (!s.pass.NoPass? ==> id in s.pass.ids)
  }

  ghost predicate PassInv(s: State) {
    match s.pass
    case NoPass => true
    case Rows(ids, todo, at) =>
      && DistinctIds(todo)
      && (forall i | 0 <= i < |todo| ::
            && todo[i].id in ids && todo[i].id in s.rows
            && s.rows[todo[i].id].kind == todo[i].row.kind)
      && (!at.AtRow? ==> todo != [])
      && (at.InRemove? || at.BeforeDelete? ==> !Working(s, todo[0].id))
      && (at.BeforeSystemDelete? ==> todo[0].row.kind.System?)
    case Collecting(ids, left, removing) =>
      left !! ids && (removing.Some? ==> removing.value !in ids)
  }

  ghost predicate Inv(s: State) {
    && IDLE !in s.rows
    && QueueInv(s) && BusyInv(s) && PassInv(s)
    && WakeUpPending(s) && StartedInOrder(s)
  }

  // ------------------------------------------------------- preservation, by thread

  lemma UserStepKeepsInv(s: State, a: Action)
    requires Inv(s) && a.Upsert? && Enabled(s, a) && Permitted(SOFT, s, a)
    ensures Inv(Next(s, a))
  {
  }

  lemma HandleRowKeepsInv(s: State, first: bool)
    requires Inv(s) && Enabled(s, HandleRow(first))
    ensures Inv(Next(s, HandleRow(first)))
  {
    hide Disciplined, Ids;
    var entry := s.pass.todo[0];
    var t := Next(s, HandleRow(first));
    EnqueueKeepsDiscipline(s.queue, entry.id, first);
    assert entry.id in s.rows;
    if !entry.row.kind.System? && entry.row.desired.Installed? && !Busy(s.queue, entry.id) {
      assert t.enqueuedIds == t.startedIds + Ids(t.queue.jobs);
    }
  }

  lemma DeleteKeepsInv(s: State, ok: bool)
    requires Inv(s) && Enabled(s, DeleteReturns(ok))
    ensures Inv(Next(s, DeleteReturns(ok)))
  {
    var entry := s.pass.todo[0];
    assert !Working(s, entry.id) by {
      assert entry.id in s.rows && s.rows[entry.id].kind == entry.row.kind;
    }
    assert forall i | 0 < i < |s.pass.todo| :: s.pass.todo[i].id != entry.id;
  }

  lemma PassStepKeepsInv(s: State, a: Action)
    requires Inv(s) && Enabled(s, a)
    requires a.StartPass? || a.OfferKick? || a.RemoveReturns? || a.ListForCollection?
             || a.StartOrphanRemove? || a.OrphanRemoveReturns? || a.EndPass?
    ensures Inv(Next(s, a))
  {
  }

  lemma TakeJobKeepsInv(s: State)
    requires Inv(s) && Enabled(s, TakeJob)
    ensures Inv(Next(s, TakeJob))
  {
    hide Disciplined, Ids;
    var t := Next(s, TakeJob);
    DequeueKeepsDiscipline(s.queue);
    assert t.startedIds + Ids(t.queue.jobs) == s.startedIds + Ids(s.queue.jobs);
    forall id | Working(t, id)
      ensures Working(s, id)
    {
    }
  }

  lemma WorkerStepKeepsInv(s: State, a: Action)
    requires Inv(s) && Enabled(s, a)
    requires a.Wake? || a.Sleep? || a.ReadRow? || a.ApplyReturns? || a.FinishJob?
    ensures Inv(Next(s, a))
  {
    forall id | Working(Next(s, a), id)
      ensures Working(s, id)
    {
    }
  }

  lemma StepKeepsInv(s: State, a: Action)
    requires Inv(s) && Enabled(s, a) && Permitted(SOFT, s, a)
    ensures Inv(Next(s, a))
  {
    hide Inv, Enabled, Next, Permitted;
    match a
    case Upsert(_, _) => UserStepKeepsInv(s, a);
    case HardDelete(_) => HardDeleteIsNotSoft(s, a);
    case HandleRow(first) => HandleRowKeepsInv(s, first);
    case DeleteReturns(ok) => DeleteKeepsInv(s, ok);
    case TakeJob => TakeJobKeepsInv(s);
    case Wake => WorkerStepKeepsInv(s, a);
    case Sleep => WorkerStepKeepsInv(s, a);
    case ReadRow => WorkerStepKeepsInv(s, a);
    case ApplyReturns => WorkerStepKeepsInv(s, a);
    case FinishJob => WorkerStepKeepsInv(s, a);
    case StartPass(_) => PassStepKeepsInv(s, a);
    case OfferKick => PassStepKeepsInv(s, a);
    case RemoveReturns(_) => PassStepKeepsInv(s, a);
    case ListForCollection(_) => PassStepKeepsInv(s, a);
    case StartOrphanRemove(_) => PassStepKeepsInv(s, a);
    case OrphanRemoveReturns => PassStepKeepsInv(s, a);
    case EndPass => PassStepKeepsInv(s, a);
  }

  lemma HardDeleteIsNotSoft(s: State, a: Action)
    requires a.HardDelete?
    ensures !Permitted(SOFT, s, a)
  {
  }

  lemma {:induction false} RunKeepsInv(s: State, run: seq<Action>, end: State)
    requires Inv(s) && Runs(SOFT, s, run, end)
    ensures Inv(end)
    decreases |run|
  {
    hide Inv, Enabled, Next, Permitted;
    if run != [] {
      StepKeepsInv(s, run[0]);
      RunKeepsInv(Next(s, run[0]), run[1..], end);
    }
  }

  // ------------------------------------------------------------ main theorems

  lemma InitialInv()
    ensures Inv(INITIAL)
  {
  }

  lemma InvMeansSafe(s: State)
    requires Inv(s)
    ensures !Overlap(s) && WakeUpPending(s) && StartedInOrder(s) && Disciplined(s.queue)
  {
    hide Disciplined;
    if s.worker.Applying? {
      assert Working(s, s.worker.id);
    }
  }

  /** Every interleaving with soft deletes and fixed kinds is safe. */
  lemma SoftRunsAreSafe(run: seq<Action>, s: State)
    requires Runs(SOFT, INITIAL, run, s)
    ensures !Overlap(s) && WakeUpPending(s) && StartedInOrder(s) && Disciplined(s.queue)
  {
    InitialInv();
    RunKeepsInv(INITIAL, run, s);
    InvMeansSafe(s);
  }

  // ------------------------------------------------- every driver call is wanted

  /** What the entry being handled asks for, at each stage of its handling. */
  ghost predicate StageInv(s: State) {
    s.pass.Rows? && !s.pass.at.AtRow? ==>
      s.pass.todo != []
      && var row := s.pass.todo[0].row;
        match s.pass.at
        case AtRow => true
        case BeforeKick => !row.kind.System? && row.desired.Installed?
        case InRemove => !row.kind.System? && !row.desired.Installed?
        case BeforeDelete => !row.kind.System? && row.desired.Removed?
        case BeforeSystemDelete => row.kind.System? && row.desired.Removed?
  }

  lemma StepKeepsStage(s: State, a: Action)
    requires StageInv(s) && Enabled(s, a)
    ensures StageInv(Next(s, a))
  {
  }

  lemma {:induction false} RunKeepsStage(p: Policy, s: State, run: seq<Action>, end: State)
    requires StageInv(s) && Runs(p, s, run, end)
    ensures StageInv(end)
    decreases |run|
  {
    hide Enabled, Next, Permitted, StageInv;
    if run != [] {
      StepKeepsStage(s, run[0]);
      RunKeepsStage(p, Next(s, run[0]), run[1..], end);
    }
  }

  /** In every run, of whatever users: an Apply starts only for a row that asks for a
      container or compose install at that moment; a Remove only for an entry that asks for
      none and is not busy, or for an id the pass saw no row of; and but for the users a row
      goes only when the pass saw it as removed and its deletion succeeded. */
  lemma CallsAreWanted(p: Policy, run: seq<Action>, s: State, a: Action)
    requires Runs(p, INITIAL, run, s) && Enabled(s, a)
    ensures var t := Next(s, a);
            && (t.worker.Applying? && !s.worker.Applying? ==>
                  var id := t.worker.id; id in s.rows && s.rows[id].desired.Installed? && !s.rows[id].kind.System?)
            && (t.pass.Rows? && t.pass.at.InRemove? && !(s.pass.Rows? && s.pass.at.InRemove?) ==>
                  t.pass.todo != []
                  && var e := t.pass.todo[0];
                    !e.row.desired.Installed? && !e.row.kind.System? && !Busy(s.queue, e.id))
            && (a.StartOrphanRemove? ==> s.pass.Collecting? && a.orphan in s.pass.left)
    ensures var t := Next(s, a);
            t.rows != s.rows && !a.Upsert? && !a.HardDelete? ==>
              && a == DeleteReturns(true) && s.pass.Rows? && s.pass.todo != []
              && s.pass.todo[0].row.desired.Removed? && t.rows == s.rows - {s.pass.todo[0].id}
  {
    RunKeepsStage(p, INITIAL, run, s);
    StepStartsWanted(s, a);
    if Next(s, a).rows != s.rows && !a.Upsert? && !a.HardDelete? {
      StepDeletesWanted(s, a);
    }
    hide Runs, Next, Enabled;
  }

  lemma StepStartsWanted(s: State, a: Action)
    requires Enabled(s, a)
    ensures var t := Next(s, a);
            && (t.worker.Applying? && !s.worker.Applying? ==>
                  var id := t.worker.id; id in s.rows && s.rows[id].desired.Installed? && !s.rows[id].kind.System?)
            && (t.pass.Rows? && t.pass.at.InRemove? && !(s.pass.Rows? && s.pass.at.InRemove?) ==>
                  t.pass.todo != []
                  && var e := t.pass.todo[0];
                    !e.row.desired.Installed? && !e.row.kind.System? && !Busy(s.queue, e.id))
            && (a.StartOrphanRemove? ==> s.pass.Collecting? && a.orphan in s.pass.left)
  {
  }

  lemma StepDeletesWanted(s: State, a: Action)
    requires StageInv(s) && Enabled(s, a) && Next(s, a).rows != s.rows && !a.Upsert? && !a.HardDelete?
    ensures a == DeleteReturns(true) && s.pass.Rows? && s.pass.todo != []
    ensures s.pass.todo[0].row.desired.Removed? && Next(s, a).rows == s.rows - {s.pass.todo[0].id}
  {
  }

  /** And none is forgotten: an install is queued or active after its entry, a stop or
      removal reaches the driver unless the worker is busy with it, and a removed row whose
      calls succeed is gone. */
  lemma EveryEntryIsServed(s: State, first: bool)
    requires Enabled(s, HandleRow(first))
    ensures var e, t := s.pass.todo[0], Next(s, HandleRow(first));
            && (!e.row.kind.System? && e.row.desired.Installed? ==> Busy(t.queue, e.id))
            && (!e.row.kind.System? && !e.row.desired.Installed? ==>
                  if Busy(s.queue, e.id) then t.pass.todo == s.pass.todo[1..]
                  else t.pass.todo == s.pass.todo && Enabled(t, RemoveReturns(true)))
            && (!e.row.kind.System? && e.row.desired.Removed? && !Busy(s.queue, e.id) ==>
                  var removed := Next(t, RemoveReturns(true));
                  Enabled(removed, DeleteReturns(true)) && e.id !in Next(removed, DeleteReturns(true)).rows)
            && (e.row.kind.System? && e.row.desired.Removed? ==>
                  Enabled(t, DeleteReturns(true)) && e.id !in Next(t, DeleteReturns(true)).rows)
  {
  }

  // --------------------------------------------------------- draining the queue

  predicate IsWorkerStep(a: Action) {
    a.Wake? || a.TakeJob? || a.Sleep? || a.ReadRow? || a.ApplyReturns? || a.FinishJob?
  }

  /** Worker steps left before it must block, if nobody else moves. */
  function StepsLeft(s: State): nat {
    4 * |s.queue.jobs|
    + (if s.kick then 2 else 0)
    + (match s.worker
       case Waiting => 0
       case Draining => 1
       case Finishing(_) => 2
       case Applying(_) => 3
       case Reading(_) => 4)
  }

  /** The worker cannot run for ever on its own, ... */
  lemma WorkerStepDecreases(s: State, a: Action)
    requires IsWorkerStep(a) && Enabled(s, a)
    ensures StepsLeft(Next(s, a)) < StepsLeft(s)
  {
  }

  /** ... and it only blocks on an empty queue, unless a kick is on its way. */
  lemma BlockedWorkerHasDrained(s: State)
    requires Inv(s) && forall a | IsWorkerStep(a) :: !Enabled(s, a)
    ensures s.queue.jobs == [] || (s.pass.Rows? && s.pass.at.BeforeKick?)
    ensures s.queue.active == IDLE
  {
    hide Disciplined, BusyInv, PassInv;
    assert !Enabled(s, Wake) && !Enabled(s, TakeJob) && !Enabled(s, Sleep);
    assert !Enabled(s, ReadRow) && !Enabled(s, ApplyReturns) && !Enabled(s, FinishJob);
  }

  lemma EnabledWorkerStep(s: State) returns (a: Action)
    requires !s.worker.Waiting? || s.kick
    ensures IsWorkerStep(a) && Enabled(s, a) && Permitted(SOFT, s, a)
  {
    a := match s.worker
      case Waiting => Wake
      case Draining => if s.queue.jobs == [] then Sleep else TakeJob
      case Reading(_) => ReadRow
      case Applying(_) => ApplyReturns
      case Finishing(_) => FinishJob;
  }

  /** From any safe state the worker alone empties the queue and goes idle. */
  lemma {:induction false} WorkerDrains(s: State) returns (run: seq<Action>, end: State)
    requires Inv(s) && !(s.pass.Rows? && s.pass.at.BeforeKick?)
    ensures Runs(SOFT, s, run, end) && forall i | 0 <= i < |run| :: IsWorkerStep(run[i])
    ensures end.queue.jobs == [] && end.queue.active == IDLE && end.rows == s.rows
    ensures end.startedIds == s.enqueuedIds
    decreases StepsLeft(s)
  {
    hide Disciplined, BusyInv, PassInv;
    if s.worker.Waiting? && !s.kick {
      run, end := [], s;
    } else {
      var a := EnabledWorkerStep(s);
      WorkerStepDecreases(s, a);
      StepKeepsInv(s, a);
      var rest;
      rest, end := WorkerDrains(Next(s, a));
      run := [a] + rest;
      assert run[1..] == rest;
    }
  }

  // ----------------------------------------- both restrictions are necessary

  const WEB: Id := "web"

  const APPLYING_WEB := State(
    map[WEB := Row(Container, Installed)], Queue([], {}, WEB, true), false, NoPass, Applying(WEB), [WEB], [WEB])

  /** One more step at the end of a run from the initial state. */
  lemma {:induction false} Extend(p: Policy, s: State, run: seq<Action>, mid: State, a: Action)
    requires Runs(p, s, run, mid) && Enabled(mid, a) && Permitted(p, mid, a)
    ensures Runs(p, s, run + [a], Next(mid, a))
    decreases |run|
  {
    hide Enabled, Next, Permitted;
    if run == [] {
      assert [a][1..] == [];
    } else {
      assert (run + [a])[1..] == run[1..] + [a];
      Extend(p, Next(s, run[0]), run[1..], mid, a);
    }
  }

  /** A pass enqueues `web` and ends; the worker starts applying it. */
  lemma ApplyingWebIsReachable(p: Policy) returns (run: seq<Action>)
    ensures Runs(p, INITIAL, run, APPLYING_WEB)
  {
    assert Runs(p, INITIAL, [], INITIAL);
    hide Runs;
    var row := Row(Container, Installed);
    var snapshot := [Entry(WEB, row)];
    var s1 := Next(INITIAL, Upsert(WEB, row));
    Extend(p, INITIAL, [], INITIAL, Upsert(WEB, row));
    run := [] + [Upsert(WEB, row)];
    assert snapshot[0].id == WEB;
    Extend(p, INITIAL, run, s1, StartPass(snapshot));
    run := run + [StartPass(snapshot)];
    var s2 := Next(s1, StartPass(snapshot));
    Extend(p, INITIAL, run, s2, HandleRow(true));
    run := run + [HandleRow(true)];
    var s3 := Next(s2, HandleRow(true));
    Extend(p, INITIAL, run, s3, OfferKick);
    run := run + [OfferKick];
    var s4 := Next(s3, OfferKick);
    Extend(p, INITIAL, run, s4, ListForCollection({}));
    run := run + [ListForCollection({})];
    var s5 := Next(s4, ListForCollection({}));
    Extend(p, INITIAL, run, s5, EndPass);
    run := run + [EndPass];
    var s6 := Next(s5, EndPass);
    Extend(p, INITIAL, run, s6, Wake);
    run := run + [Wake];
    var s7 := Next(s6, Wake);
    Extend(p, INITIAL, run, s7, TakeJob);
    run := run + [TakeJob];
    var s8 := Next(s7, TakeJob);
    Extend(p, INITIAL, run, s8, ReadRow);
    run := run + [ReadRow];
    assert Next(s8, ReadRow) == APPLYING_WEB;
  }

  /** A pass that no longer sees the row collects the container being applied. */
  lemma CollectionHitsTheApply(p: Policy, run: seq<Action>, s: State) returns (longer: seq<Action>, end: State)
    requires Runs(p, INITIAL, run, s) && s.pass.NoPass? && s.rows == map[] && s.worker == Applying(WEB)
    ensures Runs(p, INITIAL, longer, end) && Overlap(end)
  {
    hide Runs;
    var s1 := Next(s, StartPass([]));
    Extend(p, INITIAL, run, s, StartPass([]));
    longer := run + [StartPass([])];
    var s2 := Next(s1, ListForCollection({WEB}));
    Extend(p, INITIAL, longer, s1, ListForCollection({WEB}));
    longer := longer + [ListForCollection({WEB})];
    Extend(p, INITIAL, longer, s2, StartOrphanRemove(WEB));
    longer := longer + [StartOrphanRemove(WEB)];
    end := Next(s2, StartOrphanRemove(WEB));
  }

  lemma HardDeleteOverlaps(p: Policy) returns (run: seq<Action>, end: State)
    requires p.hardDeletes
    ensures Runs(p, INITIAL, run, end) && Overlap(end)
  {
    run := ApplyingWebIsReachable(p);
    var s := Next(APPLYING_WEB, HardDelete(WEB));
    Extend(p, INITIAL, run, APPLYING_WEB, HardDelete(WEB));
    run, end := CollectionHitsTheApply(p, run + [HardDelete(WEB)], s);
  }

  /** As a system row `web` is deleted without a busy check. */
  lemma SystemPassDeletesBusyRow(p: Policy, run: seq<Action>, s: State) returns (longer: seq<Action>, end: State)
    requires Runs(p, INITIAL, run, s) && s.pass.NoPass? && s.rows == map[WEB := Row(System, Removed)]
    ensures Runs(p, INITIAL, longer, end) && end == s.(rows := map[])
  {
    hide Runs;
    var snapshot := [Entry(WEB, Row(System, Removed))];
    assert snapshot[0].id == WEB;
    var s1 := Next(s, StartPass(snapshot));
    Extend(p, INITIAL, run, s, StartPass(snapshot));
    longer := run + [StartPass(snapshot)];
    var s2 := Next(s1, HandleRow(false));
    Extend(p, INITIAL, longer, s1, HandleRow(false));
    longer := longer + [HandleRow(false)];
    var s3 := Next(s2, DeleteReturns(true));
    Extend(p, INITIAL, longer, s2, DeleteReturns(true));
    longer := longer + [DeleteReturns(true)];
    assert s3.rows == map[];
    var s4 := Next(s3, ListForCollection({}));
    Extend(p, INITIAL, longer, s3, ListForCollection({}));
    longer := longer + [ListForCollection({})];
    Extend(p, INITIAL, longer, s4, EndPass);
    longer := longer + [EndPass];
    end := Next(s4, EndPass);
  }

  lemma KindChangeOverlaps(p: Policy) returns (run: seq<Action>, end: State)
    requires p.kindChanges
    ensures Runs(p, INITIAL, run, end) && Overlap(end)
  {
    hide Runs, Overlap;
    run := ApplyingWebIsReachable(p);
    var change := Upsert(WEB, Row(System, Removed));
    var s := Next(APPLYING_WEB, change);
    Extend(p, INITIAL, run, APPLYING_WEB, change);
    assert s.rows == map[WEB := Row(System, Removed)];
    run, s := SystemPassDeletesBusyRow(p, run + [change], s);
    run, end := CollectionHitsTheApply(p, run, s);
  }

  ghost predicate NeverOverlaps(p: Policy) {
    forall run: seq<Action>, s: State | Runs(p, INITIAL, run, s) :: !Overlap(s)
  }

  /** Apply and Remove never overlap for exactly the policies that allow neither. */
  lemma NoOverlapIffSoft(p: Policy)
    ensures NeverOverlaps(p) <==> !p.hardDeletes && !p.kindChanges
  {
    hide Runs, Overlap;
    if p.hardDeletes || p.kindChanges {
      var run, end;
      if p.hardDeletes {
        run, end := HardDeleteOverlaps(p);
      } else {
        run, end := KindChangeOverlaps(p);
      }
      assert Runs(p, INITIAL, run, end) && Overlap(end);
    } else {
      forall run: seq<Action>, s: State | Runs(p, INITIAL, run, s)
        ensures !Overlap(s)
      {
        SoftRunsAreSafe(run, s);
      }
    }
  }
}
