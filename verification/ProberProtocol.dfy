// Every interleaving of `Begin`, `Forget` and the goroutines of starting runs
// (internal/readiness/probe.go): who owns an instance, what a replaced run can
// still do, and when it writes a state over its successor's.
module ProberProtocol {
  import opened Instances
  import opened Prober
  import opened Wrappers

  /** Where a run stands between two of its atomic steps. */
  datatype Pc =
    | Announcing                 // registered; "starting" not yet recorded
    | Probing                    // probing or waiting for the next tick
    | Settling(outcome: Health)  // passed the cancellation check; not yet marked done
    | Recording(outcome: Health) // marked done; the outcome not yet recorded
    | Closing                    // about to cancel its own context
    | Leaving                    // cancelled; the deferred markDone is left
    | Finished

  datatype Run = Run(instance: Id, pc: Pc)

  /** `latest` remembers whom each instance was last given to, no run after a `Forget`;
      nothing reads it. */
  datatype World = World(
    tables: Tables,
    runs: map<RunId, Run>,
    rows: map<Id, Health>,
    latest: map<Id, Option<RunId>>
  )

  const INIT := World(Tables(map[], {}, map[], map[]), map[], map[], map[])

  datatype Step =
    | Begin(run: RunId, id: Id, container: string)
    | Forget(id: Id, container: string)
    | Announce(run: RunId, stored: bool)
    | Check(run: RunId, ok: bool, late: bool)
    | GiveUp(run: RunId)
    | Settle(run: RunId)
    | Record(run: RunId, stored: bool)
    | Cancel(run: RunId)
    | Leave(run: RunId)
    | Steady(id: Id, ok: bool, cur: Health)
    | Others(rows: map<Id, Health>)

  predicate IsAt(w: World, run: RunId, pc: Pc) {
    run in w.runs && w.runs[run].pc == pc
  }

  predicate Enabled(w: World, step: Step) {
    match step
    case Begin(run, id, _) => run !in w.runs && id != ""
    case Forget(_, _) => true
    case Announce(run, _) => IsAt(w, run, Announcing)
    case Check(run, _, _) => IsAt(w, run, Probing)
    case GiveUp(run) => IsAt(w, run, Probing) && run in w.tables.cancelled
    case Settle(run) => run in w.runs && w.runs[run].pc.Settling?
    case Record(run, _) => run in w.runs && w.runs[run].pc.Recording?
    case Cancel(run) => IsAt(w, run, Closing)
    case Leave(run) => IsAt(w, run, Leaving)
    case Steady(_, _, _) => true
    case Others(_) => true
  }

  function Moved(w: World, run: RunId, pc: Pc): World
    requires run in w.runs
  {
    w.(runs := w.runs[run := w.runs[run].(pc := pc)])
  }

  /** `Set`: only rows that exist are written; `stored` is false when the store fails. */
  function Recorded(w: World, id: Id, h: Health, stored: bool): World {
    if stored && id in w.rows then w.(rows := w.rows[id := h]) else w
  }

  /** What a run does with a probe's answer. */
  function Decision(cancelled: bool, ok: bool, late: bool): Pc {
    if cancelled then Closing
    else if ok then Settling(Ready)
    else if late then Settling(Unhealthy)
    else Probing
  }

  function Apply(w: World, step: Step): World
    requires Enabled(w, step)
  {
    match step
    case Begin(run, id, container) =>
      w.(tables := Begun(w.tables, run, id, container), runs := w.runs[run := Run(id, Announcing)],
         latest := w.latest[id := Some(run)])
    case Forget(id, container) =>
      w.(tables := Forgotten(w.tables, id, container), latest := w.latest[id := None])
    case Announce(run, stored) => Moved(Recorded(w, w.runs[run].instance, Starting, stored), run, Probing)
    case Check(run, ok, late) => Moved(w, run, Decision(run in w.tables.cancelled, ok, late))
    case GiveUp(run) => Moved(w, run, Closing)
    case Settle(run) =>
      Moved(w.(tables := MarkedDone(w.tables, run, w.runs[run].instance)), run, Recording(w.runs[run].pc.outcome))
    case Record(run, stored) => Moved(Recorded(w, w.runs[run].instance, w.runs[run].pc.outcome, stored), run, Closing)
    case Cancel(run) =>
      Moved(w.(tables := w.tables.(cancelled := w.tables.cancelled + {run})), run, Leaving)
    case Leave(run) => Moved(w.(tables := MarkedDone(w.tables, run, w.runs[run].instance)), run, Finished)
    case Steady(id, ok, cur) =>
      var n := NextFailures(FailuresOf(w.tables.failures, id), ok);
      Recorded(w.(tables := w.tables.(failures := w.tables.failures[id := n])), id, NextHealth(cur, n, ok),
               NextHealth(cur, n, ok) != cur)
    case Others(rows) => w.(rows := rows)
  }

  // ------------------------------------------------------------------- ownership

  /** Announced, probing or about to settle, and not replaced or forgotten. */
  predicate IsLive(w: World, run: RunId) {
    run in w.runs && run !in w.tables.cancelled
    && (w.runs[run].pc.Announcing? || w.runs[run].pc.Probing? || w.runs[run].pc.Settling?)
  }

  /** The registered runs are exactly the live ones, each under its own instance. */
  ghost predicate Owned(w: World) {
    && (forall id <- w.tables.active :: IsLive(w, w.tables.active[id]) && w.runs[w.tables.active[id]].instance == id)
    && (forall run <- w.runs :: IsLive(w, run) ==> Owns(w.tables, run, w.runs[run].instance))
  }

  /** Only runs that exist are cancelled, and the last `Begin` is the only owner there can be. */
  ghost predicate Kept(w: World) {
    && Owned(w)
    && w.tables.cancelled <= w.runs.Keys
    && (forall id <- w.latest :: w.latest[id].Some? ==>
          w.latest[id].value in w.runs && w.runs[w.latest[id].value].instance == id)
    && (forall id <- w.tables.active :: id in w.latest && w.latest[id] == Some(w.tables.active[id]))
  }

  lemma BeginKeepsOwnership(w: World, step: Step)
    requires Kept(w) && Enabled(w, step) && step.Begin?
    ensures Kept(Apply(w, step))
  {
    hide WithoutContainer;
    var w' := Apply(w, step);
    assert forall run <- w.runs :: run in w'.runs && w'.runs[run] == w.runs[run];
    assert step.run !in w.tables.cancelled && IsLive(w', step.run);
    forall id | id in w'.tables.active
      ensures IsLive(w', w'.tables.active[id]) && w'.runs[w'.tables.active[id]].instance == id
    {
      if id != step.id {
        assert IsLive(w, w.tables.active[id]);
      }
    }
    forall run | run in w'.runs && IsLive(w', run)
      ensures Owns(w'.tables, run, w'.runs[run].instance)
    {
      if run != step.run {
        assert IsLive(w, run);
      }
    }
  }

  lemma ForgetKeepsOwnership(w: World, step: Step)
    requires Kept(w) && Enabled(w, step) && step.Forget?
    ensures Kept(Apply(w, step))
  {
    hide WithoutContainer;
  }

  /** A move that leaves a run as live as it was. */
  lemma MoveKeepsOwnership(w: World, run: RunId, pc: Pc)
    requires Kept(w) && run in w.runs && (IsLive(w, run) <==> IsLive(Moved(w, run, pc), run))
    ensures Kept(Moved(w, run, pc))
  {
  }

  lemma RunStepKeepsOwnership(w: World, step: Step, run: RunId)
    requires Kept(w) && Enabled(w, step) && TakenBy(step, run)
    requires step.Announce? || step.Check? || step.GiveUp? || step.Record?
    ensures Kept(Apply(w, step))
  {
    hide Kept, Recorded;
    match step
    case Announce(_, stored) =>
      var r := Recorded(w, w.runs[run].instance, Starting, stored);
      RecordingKeepsOwnership(w, w.runs[run].instance, Starting, stored);
      MoveKeepsOwnership(r, run, Probing);
    case Check(_, ok, late) =>
      MoveKeepsOwnership(w, run, Decision(run in w.tables.cancelled, ok, late));
    case GiveUp(_) =>
      MoveKeepsOwnership(w, run, Closing);
    case Record(_, stored) =>
      var r := Recorded(w, w.runs[run].instance, w.runs[run].pc.outcome, stored);
      RecordingKeepsOwnership(w, w.runs[run].instance, w.runs[run].pc.outcome, stored);
      MoveKeepsOwnership(r, run, Closing);
  }

  lemma RecordingKeepsOwnership(w: World, id: Id, h: Health, stored: bool)
    requires Kept(w)
    ensures var r := Recorded(w, id, h, stored);
            Kept(r) && r.tables == w.tables && r.runs == w.runs
  {
  }

  lemma DoneKeepsOwnership(w: World, step: Step)
    requires Kept(w) && Enabled(w, step) && (step.Settle? || step.Leave?)
    ensures Kept(Apply(w, step))
  {
  }

  lemma CancelKeepsOwnership(w: World, step: Step)
    requires Kept(w) && Enabled(w, step) && step.Cancel?
    ensures Kept(Apply(w, step))
  {
  }

  lemma OthersKeepOwnership(w: World, step: Step)
    requires Kept(w) && Enabled(w, step) && (step.Steady? || step.Others?)
    ensures Kept(Apply(w, step))
  {
  }

  lemma StepKeepsOwnership(w: World, step: Step)
    requires Kept(w) && Enabled(w, step)
    ensures Kept(Apply(w, step))
  {
    hide Kept, Apply, Enabled;
    if step.Begin? {
      BeginKeepsOwnership(w, step);
    } else if step.Forget? {
      ForgetKeepsOwnership(w, step);
    } else if step.Cancel? {
      CancelKeepsOwnership(w, step);
    } else if step.Steady? || step.Others? {
      OthersKeepOwnership(w, step);
    } else if step.Settle? || step.Leave? {
      DoneKeepsOwnership(w, step);
    } else {
      RunStepKeepsOwnership(w, step, step.run);
    }
  }

  /** The run that takes a step; `Begin` and `Forget` are taken by callers. */
  predicate TakenBy(step: Step, run: RunId) {
    (step.Announce? || step.Check? || step.GiveUp? || step.Settle? || step.Record? || step.Cancel? || step.Leave?)
    && step.run == run
  }

  lemma StepKeepsRun(w: World, step: Step, run: RunId)
    requires Enabled(w, step) && run in w.runs
    ensures run in Apply(w, step).runs && Apply(w, step).runs[run].instance == w.runs[run].instance
  {
    hide Begun, Forgotten, MarkedDone;
  }

  lemma LatestFollows(w: World, step: Step)
    requires Enabled(w, step)
    ensures Apply(w, step).latest
         == if step.Begin? then w.latest[step.id := Some(step.run)]
            else if step.Forget? then w.latest[step.id := None]
            else w.latest
    ensures step.Begin? ==> step.run !in w.runs
  {
    hide Begun, Forgotten, MarkedDone;
  }

  /** A history: every world follows from the one before by an enabled step. */
  ghost predicate IsHistory(ws: seq<World>, steps: seq<Step>) {
    && |ws| == |steps| + 1 && ws[0] == INIT
    && forall i | 0 <= i < |steps| :: Enabled(ws[i], steps[i]) && ws[i + 1] == Apply(ws[i], steps[i])
  }

  lemma {:induction false} HistoryKeepsOwnership(ws: seq<World>, steps: seq<Step>, i: nat)
    requires IsHistory(ws, steps) && i < |ws|
    ensures Kept(ws[i])
  {
    if i > 0 {
      HistoryKeepsOwnership(ws, steps, i - 1);
      StepKeepsOwnership(ws[i - 1], steps[i - 1]);
    }
  }

  /** At most one uncancelled run of an instance is still starting it, and it is the
      registered one; a registered run has not finished. */
  lemma OneOwner(ws: seq<World>, steps: seq<Step>, i: nat)
    requires IsHistory(ws, steps) && i < |ws|
    ensures forall r, q | IsLive(ws[i], r) && IsLive(ws[i], q) && ws[i].runs[r].instance == ws[i].runs[q].instance :: r == q
    ensures forall id <- ws[i].tables.active :: IsLive(ws[i], ws[i].tables.active[id])
    ensures forall r | IsLive(ws[i], r) :: Owns(ws[i].tables, r, ws[i].runs[r].instance)
  {
    HistoryKeepsOwnership(ws, steps, i);
  }

  predicate Ends(step: Step, id: Id, owner: RunId) {
    (step.Begin? && step.id == id) || (step.Forget? && step.id == id) || (step.Settle? && step.run == owner)
  }

  lemma StepEndsRegistration(w: World, step: Step, id: Id)
    requires Kept(w) && Enabled(w, step) && id in w.tables.active
    ensures Owns(Apply(w, step).tables, w.tables.active[id], id) <==> !Ends(step, id, w.tables.active[id])
  {
    hide WithoutContainer;
  }

  /** A registration ends by its own run's `Settle`, or by a `Begin` or `Forget` of its
      instance: whatever a replaced run still does leaves its successor registered. */
  lemma RegistrationEndsOnlyBy(ws: seq<World>, steps: seq<Step>, i: nat, id: Id)
    requires IsHistory(ws, steps) && i < |steps| && id in ws[i].tables.active
    ensures Owns(ws[i + 1].tables, ws[i].tables.active[id], id) <==> !Ends(steps[i], id, ws[i].tables.active[id])
  {
    hide Enabled, Apply, Kept;
    HistoryKeepsOwnership(ws, steps, i);
    StepEndsRegistration(ws[i], steps[i], id);
  }

  // ------------------------------------------------------- what a replaced run can do

  /** Cancelled before the check that matters, a run never records an outcome. */
  predicate IsDoomed(w: World, run: RunId) {
    run in w.runs && run in w.tables.cancelled && !w.runs[run].pc.Settling? && !w.runs[run].pc.Recording?
  }

  lemma {:induction false} DoomedStaysDoomed(ws: seq<World>, steps: seq<Step>, i: nat, j: nat, run: RunId)
    requires IsHistory(ws, steps) && i <= j < |ws| && IsDoomed(ws[i], run)
    ensures IsDoomed(ws[j], run)
  {
    hide Enabled, Apply, IsDoomed;
    if i < j {
      DoomedStaysDoomed(ws, steps, i, j - 1, run);
      StepKeepsDoom(ws[j - 1], steps[j - 1], run);
    }
  }

  lemma StepKeepsDoom(w: World, step: Step, run: RunId)
    requires Enabled(w, step) && IsDoomed(w, run)
    ensures IsDoomed(Apply(w, step), run)
  {
    hide WithoutContainer;
    StepKeepsRun(w, step, run);
  }

  lemma DoomedRecordsNothing(ws: seq<World>, steps: seq<Step>, i: nat, j: nat, run: RunId)
    requires IsHistory(ws, steps) && i <= j < |steps| && IsDoomed(ws[i], run)
    ensures !(steps[j].Record? && steps[j].run == run) && !(steps[j].Settle? && steps[j].run == run)
  {
    DoomedStaysDoomed(ws, steps, i, j, run);
  }

  // --------------------------------------------------------- what a state rests on

  predicate HasOutcome(w: World, run: RunId) {
    run in w.runs && (w.runs[run].pc.Settling? || w.runs[run].pc.Recording?)
  }

  /** A probe of the run has passed, or failed past the deadline, with the run not cancelled. */
  ghost predicate Earned(ws: seq<World>, steps: seq<Step>, j: nat, run: RunId, h: Health)
    requires j < |ws| == |steps| + 1
  {
    exists i: nat | i < j && steps[i].Check? && steps[i].run == run && run !in ws[i].tables.cancelled ::
      if steps[i].ok then h == Ready else steps[i].late && h == Unhealthy
  }

  lemma StepGivesOutcome(w: World, step: Step, run: RunId)
    requires Enabled(w, step) && HasOutcome(Apply(w, step), run)
    ensures var h := Apply(w, step).runs[run].pc.outcome;
            || (HasOutcome(w, run) && w.runs[run].pc.outcome == h)
            || (step.Check? && step.run == run && run !in w.tables.cancelled
                && if step.ok then h == Ready else step.late && h == Unhealthy)
  {
    hide Begun, Forgotten, MarkedDone;
  }

  lemma {:induction false} OutcomeIsEarned(ws: seq<World>, steps: seq<Step>, j: nat, run: RunId)
    requires IsHistory(ws, steps) && j < |ws| && HasOutcome(ws[j], run)
    ensures Earned(ws, steps, j, run, ws[j].runs[run].pc.outcome)
  {
    hide Enabled, Apply;
    if j > 0 {
      StepGivesOutcome(ws[j - 1], steps[j - 1], run);
      if HasOutcome(ws[j - 1], run) && ws[j - 1].runs[run].pc.outcome == ws[j].runs[run].pc.outcome {
        OutcomeIsEarned(ws, steps, j - 1, run);
      }
    }
  }

  /** What a step does to the row of one instance. */
  lemma RowsFollow(w: World, step: Step, id: Id)
    requires Enabled(w, step) && id in Apply(w, step).rows && !step.Others?
    ensures id in w.rows
    ensures Apply(w, step).rows[id] != w.rows[id] ==>
              var h := Apply(w, step).rows[id];
              || (step.Announce? && w.runs[step.run].instance == id && h == Starting)
              || (step.Record? && w.runs[step.run].instance == id && h == w.runs[step.run].pc.outcome)
              || (step.Steady? && step.id == id && step.ok && step.cur == Unhealthy && h == Ready)
              || (step.Steady? && step.id == id && !step.ok && step.cur == Ready && h == Unhealthy
                  && FailuresOf(w.tables.failures, id) >= 2)
  {
    hide Begun, Forgotten, MarkedDone;
  }

  /** Nobody but others turns an instance ready without a probe that passed, of one of its
      runs or of the steady round; nor unhealthy without a failure past the deadline, or
      three in a row. */
  lemma StateIsEarned(ws: seq<World>, steps: seq<Step>, j: nat, id: Id)
    requires IsHistory(ws, steps) && j < |steps| && id in ws[j].rows && id in ws[j + 1].rows
    requires ws[j + 1].rows[id] != ws[j].rows[id] && !steps[j].Others?
    ensures var h := ws[j + 1].rows[id];
            || (h == Starting && steps[j].Announce? && ws[j].runs[steps[j].run].instance == id)
            || (h == Ready && steps[j].Steady? && steps[j].ok && steps[j].id == id)
            || (h == Unhealthy && steps[j].Steady? && !steps[j].ok && steps[j].id == id
                && FailuresOf(ws[j].tables.failures, id) >= 2)
            || (steps[j].Record? && steps[j].run in ws[j].runs && ws[j].runs[steps[j].run].instance == id
                && Earned(ws, steps, j, steps[j].run, h))
  {
    RowsFollow(ws[j], steps[j], id);
    if steps[j].Record? {
      OutcomeIsEarned(ws, steps, j, steps[j].run);
    }
    hide Apply;
  }

  /** The instance has been given to another run since, or forgotten. */
  predicate HasLost(w: World, run: RunId)
    requires run in w.runs
  {
    w.runs[run].instance in w.latest && w.latest[w.runs[run].instance] != Some(run)
  }

  predicate TakenBetween(steps: seq<Step>, i: nat, j: nat, id: Id)
    requires i <= j <= |steps|
  {
    exists k :: i <= k < j && (steps[k].Begin? || steps[k].Forget?) && steps[k].id == id
  }

  lemma {:induction false} RunsStay(ws: seq<World>, steps: seq<Step>, i: nat, j: nat, run: RunId)
    requires IsHistory(ws, steps) && i <= j < |ws| && run in ws[i].runs
    ensures run in ws[j].runs && ws[j].runs[run].instance == ws[i].runs[run].instance
  {
    hide Enabled, Apply;
    if i < j {
      RunsStay(ws, steps, i, j - 1, run);
      StepKeepsRun(ws[j - 1], steps[j - 1], run);
    }
  }

  lemma {:induction false} LostIffTaken(ws: seq<World>, steps: seq<Step>, i: nat, j: nat, run: RunId)
    requires IsHistory(ws, steps) && i <= j < |ws| && run in ws[i].runs
    requires run in ws[j].runs && ws[j].runs[run].instance == ws[i].runs[run].instance
    requires ws[i].runs[run].instance in ws[i].latest && ws[i].latest[ws[i].runs[run].instance] == Some(run)
    ensures ws[i].runs[run].instance in ws[j].latest
    ensures HasLost(ws[j], run) <==> TakenBetween(steps, i, j, ws[i].runs[run].instance)
  {
    hide Enabled, Apply;
    var id := ws[i].runs[run].instance;
    if i < j {
      LatestFollows(ws[j - 1], steps[j - 1]);
      RunsStay(ws, steps, i, j - 1, run);
      LostIffTaken(ws, steps, i, j - 1, run);
      if TakenBetween(steps, i, j - 1, id) {
        var k :| i <= k < j - 1 && (steps[k].Begin? || steps[k].Forget?) && steps[k].id == id;
        assert i <= k < j;
      }
      if (steps[j - 1].Begin? || steps[j - 1].Forget?) && steps[j - 1].id == id {
        assert i <= j - 1 < j;
      }
    }
  }

  /** The instance has a row, and it says something else than the run's outcome. */
  predicate RowDiffers(w: World, run: RunId)
    requires run in w.runs && w.runs[run].pc.Recording?
  {
    w.runs[run].instance in w.rows && w.rows[w.runs[run].instance] != w.runs[run].pc.outcome
  }

  /** What a recording does to the rows. */
  lemma RecordWrites(w: World, step: Step)
    requires Enabled(w, step) && step.Record?
    ensures var id, outcome := w.runs[step.run].instance, w.runs[step.run].pc.outcome;
            && Apply(w, step).rows == (if step.stored && id in w.rows then w.rows[id := outcome] else w.rows)
            && (Apply(w, step).rows != w.rows <==> step.stored && RowDiffers(w, step.run))
  {
    var id, outcome := w.runs[step.run].instance, w.runs[step.run].pc.outcome;
    assert id in w.rows && w.rows[id] == outcome ==> w.rows[id := outcome] == w.rows;
    assert id in w.rows && w.rows[id] != outcome ==> w.rows[id := outcome][id] != w.rows[id];
  }

  /** A run that has passed its check changes the row of an instance it no longer has exactly
      when the store takes the write, the row says something else, and a `Begin` or a
      `Forget` of the instance landed between that check and the write. */
  lemma StaleWriteIff(ws: seq<World>, steps: seq<Step>, i: nat, j: nat, run: RunId)
    requires IsHistory(ws, steps) && i < j < |steps|
    requires steps[i].Check? && steps[i].run == run && ws[i + 1].runs[run].pc.Settling?
    requires steps[j].Record? && steps[j].run == run
    ensures run in ws[j].runs && ws[j].runs[run].pc.Recording?
    ensures (HasLost(ws[j], run) && ws[j + 1].rows != ws[j].rows)
       <==> (steps[j].stored && RowDiffers(ws[j], run) && TakenBetween(steps, i, j, ws[i].runs[run].instance))
  {
    HistoryKeepsOwnership(ws, steps, i);
    RunsStay(ws, steps, i, j, run);
    assert IsLive(ws[i], run);
    LostIffTaken(ws, steps, i, j, run);
    hide Apply;
    RecordWrites(ws[j], steps[j]);
  }

  /** The interleaving in which it happens: a run passes its check, its instance is begun
      again, and the old outcome is recorded over the new run's "starting". */
  lemma ReplacedRunCanStillWrite(id: Id) returns (ws: seq<World>, steps: seq<Step>)
    requires id != ""
    ensures IsHistory(ws, steps)
    ensures var w := ws[|steps|];
            && 0 in w.runs && HasLost(w, 0) && Owns(w.tables, 1, id) && IsAt(w, 1, Probing)
            && id in w.rows && w.rows[id] == Ready
  {
    hide Enabled, Apply;
    OthersOnly(id);
    steps := [Others(map[id := Unset]), Begin(0, id, ""), Announce(0, true), Check(0, true, false), Settle(0),
              Begin(1, id, ""), Announce(1, true), Record(0, true)];
    var w2 := World(Tables(map[id := 0], {}, map[], map[]), map[0 := Run(id, Announcing)], map[id := Unset], map[id := Some(0)]);
    var w3 := w2.(runs := map[0 := Run(id, Probing)], rows := map[id := Starting]);
    var w4 := w3.(runs := map[0 := Run(id, Settling(Ready))]);
    var w5 := w4.(tables := Tables(map[], {}, map[], map[]), runs := map[0 := Run(id, Recording(Ready))]);
    var w6 := w5.(tables := Tables(map[id := 1], {}, map[], map[]), latest := map[id := Some(1)],
                  runs := map[0 := Run(id, Recording(Ready)), 1 := Run(id, Announcing)]);
    var w7 := w6.(runs := map[0 := Run(id, Recording(Ready)), 1 := Run(id, Probing)]);
    var w8 := w7.(runs := map[0 := Run(id, Closing), 1 := Run(id, Probing)], rows := map[id := Ready]);
    ws := [INIT, INIT.(rows := map[id := Unset]), w2, w3, w4, w5, w6, w7, w8];
    FirstRunSettles(id, w2, w3, w4, w5);
    SecondRunIsOverwritten(id, w5, w6, w7, w8);
  }

  lemma FirstRunSettles(id: Id, w2: World, w3: World, w4: World, w5: World)
    requires id != ""
    requires w2 == World(Tables(map[id := 0], {}, map[], map[]), map[0 := Run(id, Announcing)], map[id := Unset], map[id := Some(0)])
    requires w3 == w2.(runs := map[0 := Run(id, Probing)], rows := map[id := Starting])
    requires w4 == w3.(runs := map[0 := Run(id, Settling(Ready))])
    requires w5 == w4.(tables := Tables(map[], {}, map[], map[]), runs := map[0 := Run(id, Recording(Ready))])
    ensures Enabled(INIT.(rows := map[id := Unset]), Begin(0, id, ""))
    ensures Apply(INIT.(rows := map[id := Unset]), Begin(0, id, "")) == w2
    ensures Enabled(w2, Announce(0, true)) && Apply(w2, Announce(0, true)) == w3
    ensures Enabled(w3, Check(0, true, false)) && Apply(w3, Check(0, true, false)) == w4
    ensures Enabled(w4, Settle(0)) && Apply(w4, Settle(0)) == w5
  {
  }

  lemma SecondRunIsOverwritten(id: Id, w5: World, w6: World, w7: World, w8: World)
    requires id != ""
    requires w5 == World(Tables(map[], {}, map[], map[]), map[0 := Run(id, Recording(Ready))], map[id := Starting], map[id := Some(0)])
    requires w6 == w5.(tables := Tables(map[id := 1], {}, map[], map[]), latest := map[id := Some(1)],
                       runs := map[0 := Run(id, Recording(Ready)), 1 := Run(id, Announcing)])
    requires w7 == w6.(runs := map[0 := Run(id, Recording(Ready)), 1 := Run(id, Probing)])
    requires w8 == w7.(runs := map[0 := Run(id, Closing), 1 := Run(id, Probing)], rows := map[id := Ready])
    ensures Enabled(w5, Begin(1, id, "")) && Apply(w5, Begin(1, id, "")) == w6
    ensures Enabled(w6, Announce(1, true)) && Apply(w6, Announce(1, true)) == w7
    ensures Enabled(w7, Record(0, true)) && Apply(w7, Record(0, true)) == w8
  {
  }

  lemma OthersOnly(id: Id)
    ensures Enabled(INIT, Others(map[id := Unset]))
    ensures Apply(INIT, Others(map[id := Unset])) == INIT.(rows := map[id := Unset])
  {
  }

  /** And after a `Forget`, when the row had been reset: a stopped instance is ready again. */
  lemma ForgottenRunCanStillWrite(id: Id) returns (ws: seq<World>, steps: seq<Step>)
    requires id != ""
    ensures IsHistory(ws, steps)
    ensures var w := ws[|steps|];
            0 in w.runs && HasLost(w, 0) && w.tables.active == map[] && id in w.rows && w.rows[id] == Ready
  {
    hide Enabled, Apply;
    OthersOnly(id);
    steps := [Others(map[id := Unset]), Begin(0, id, ""), Announce(0, true), Check(0, true, false), Settle(0),
              Forget(id, ""), Others(map[id := Unset]), Record(0, true)];
    var w2 := World(Tables(map[id := 0], {}, map[], map[]), map[0 := Run(id, Announcing)], map[id := Unset], map[id := Some(0)]);
    var w3 := w2.(runs := map[0 := Run(id, Probing)], rows := map[id := Starting]);
    var w4 := w3.(runs := map[0 := Run(id, Settling(Ready))]);
    var w5 := w4.(tables := Tables(map[], {}, map[], map[]), runs := map[0 := Run(id, Recording(Ready))]);
    var w6 := w5.(latest := map[id := None]);
    var w7 := w6.(rows := map[id := Unset]);
    var w8 := w7.(runs := map[0 := Run(id, Closing)], rows := map[id := Ready]);
    ws := [INIT, INIT.(rows := map[id := Unset]), w2, w3, w4, w5, w6, w7, w8];
    FirstRunSettles(id, w2, w3, w4, w5);
    ResetIsOverwritten(id, w5, w6, w7, w8);
  }

  lemma ResetIsOverwritten(id: Id, w5: World, w6: World, w7: World, w8: World)
    requires w5 == World(Tables(map[], {}, map[], map[]), map[0 := Run(id, Recording(Ready))], map[id := Starting], map[id := Some(0)])
    requires w6 == w5.(latest := map[id := None]) && w7 == w6.(rows := map[id := Unset])
    requires w8 == w7.(runs := map[0 := Run(id, Closing)], rows := map[id := Ready])
    ensures Enabled(w5, Forget(id, "")) && Apply(w5, Forget(id, "")) == w6
    ensures Enabled(w6, Others(map[id := Unset])) && Apply(w6, Others(map[id := Unset])) == w7
    ensures Enabled(w7, Record(0, true)) && Apply(w7, Record(0, true)) == w8
  {
    assert w5.tables.failures - {id} == map[] && w5.tables.active - {id} == map[];
  }
}
