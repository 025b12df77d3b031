// The serial apply queue of internal/reconciler/loop.go: the fields guarded by
// workMu, and the critical sections that change them.
module ApplyQueue {
  import opened Instances

  /** The value `workActive` holds while the worker applies nothing. */
  const IDLE: Id := ""

  datatype Job = Job(id: Id, firstInstall: bool)

  datatype Queue = Queue(jobs: seq<Job>, pending: set<Id>, active: Id, activeFirst: bool)

  const EMPTY := Queue([], {}, IDLE, false)

  function Ids(jobs: seq<Job>): (ids: seq<Id>)
    ensures |ids| == |jobs|
    ensures forall i | 0 <= i < |jobs| :: ids[i] == jobs[i].id
  {
    seq(|jobs|, i requires 0 <= i < |jobs| => jobs[i].id)
  }

  predicate Busy(q: Queue, id: Id) {
    q.active == id || id in q.pending
  }

  function Enqueued(q: Queue, id: Id, first: bool): Queue {
    if Busy(q, id) then q
    else q.(jobs := q.jobs + [Job(id, first)], pending := q.pending + {id})
  }

  function Dequeued(q: Queue): Queue
    requires q.jobs != []
  {
    var job := q.jobs[0];
    Queue(q.jobs[1..], q.pending - {job.id}, job.id, job.firstInstall)
  }

  function Finished(q: Queue): Queue {
    q.(active := IDLE, activeFirst := false)
  }

  /** Pending ids are the queued ids, once each, and none of them is active. */
  ghost predicate Disciplined(q: Queue) {
    && (forall id :: id in q.pending <==> id in Ids(q.jobs))
    && (forall i, j | 0 <= i < j < |q.jobs| :: q.jobs[i].id != q.jobs[j].id)
    && q.active !in q.pending
  }

  lemma EnqueueKeepsDiscipline(q: Queue, id: Id, first: bool)
    requires Disciplined(q)
    ensures Disciplined(Enqueued(q, id, first))
    ensures Ids(Enqueued(q, id, first).jobs) == Ids(q.jobs) + if Busy(q, id) then [] else [id]
    ensures Busy(Enqueued(q, id, first), id)
  {
    if !Busy(q, id) {
      var after := Enqueued(q, id, first);
      assert Ids(after.jobs) == Ids(q.jobs) + [id];
      forall i | 0 <= i < |q.jobs|
        ensures q.jobs[i].id != id
      {
        assert Ids(q.jobs)[i] in Ids(q.jobs);
      }
    }
  }

  lemma DequeueKeepsDiscipline(q: Queue)
    requires Disciplined(q) && q.jobs != []
    ensures Disciplined(Dequeued(q))
    ensures Ids(q.jobs) == [Dequeued(q).active] + Ids(Dequeued(q).jobs)
    ensures Dequeued(q).active in q.pending && Dequeued(q).pending <= q.pending
    ensures forall id :: Busy(Dequeued(q), id) ==> Busy(q, id)
  {
    var after := Dequeued(q);
    assert Ids(q.jobs) == [after.active] + Ids(after.jobs);
    assert after.active in Ids(q.jobs);
    forall id
      ensures id in after.pending <==> id in Ids(after.jobs)
    {
      if id == after.active {
        assert forall i | 0 <= i < |after.jobs| :: after.jobs[i] == q.jobs[i + 1];
      } else {
        assert id in Ids(q.jobs) <==> id in Ids(after.jobs);
      }
    }
  }

  /** `isFirstInstallState`. */
  predicate IsFirstInstallState(observed: string) {
    observed == "" || observed == "pending" || observed == "installing"
  }

  function FirstInstallIds(jobs: seq<Job>): seq<Id> {
    if jobs == [] then []
    else
      var last := jobs[|jobs| - 1];
      FirstInstallIds(jobs[..|jobs| - 1]) + if last.firstInstall then [last.id] else []
  }

  /** `at` lists, in order, the places of all first installs. */
  ghost predicate FirstInstallsAt(jobs: seq<Job>, at: seq<nat>) {
    && (forall k | 0 <= k < |at| :: IsFirstInstall(jobs, at[k]))
    && (forall k, l | 0 <= k < l < |at| :: at[k] < at[l])
    && (forall i: nat | IsFirstInstall(jobs, i) :: i in at)
  }

  predicate IsFirstInstall(jobs: seq<Job>, i: nat) {
    i < |jobs| && jobs[i].firstInstall
  }

  lemma {:induction false} FirstInstallsInOrder(jobs: seq<Job>) returns (at: seq<nat>)
    ensures FirstInstallsAt(jobs, at) && |at| == |FirstInstallIds(jobs)|
    ensures forall k | 0 <= k < |at| :: FirstInstallIds(jobs)[k] == jobs[at[k]].id
  {
    if jobs == [] {
      at := [];
    } else {
      var n := |jobs| - 1;
      var before := FirstInstallsInOrder(jobs[..n]);
      at := before + if jobs[n].firstInstall then [n] else [];
      OneMorePlace(jobs, before, at);
      forall k | 0 <= k < |at|
        ensures FirstInstallIds(jobs)[k] == jobs[at[k]].id
      {
        if k < |before| {
          assert at[k] == before[k] && IsFirstInstall(jobs[..n], before[k]);
        }
      }
    }
  }

  lemma OneMorePlace(jobs: seq<Job>, before: seq<nat>, at: seq<nat>)
    requires jobs != [] && FirstInstallsAt(jobs[..|jobs| - 1], before)
    requires at == before + if jobs[|jobs| - 1].firstInstall then [|jobs| - 1] else []
    ensures FirstInstallsAt(jobs, at)
  {
    var n := |jobs| - 1;
    forall i: nat
      ensures IsFirstInstall(jobs, i) <==> IsFirstInstall(jobs[..n], i) || (i == n && jobs[n].firstInstall)
    {
    }
    hide IsFirstInstall;
    forall k | 0 <= k < |before|
      ensures before[k] < n && at[k] == before[k]
    {
      PlaceIsInRange(jobs[..n], before[k]);
    }
    assert forall i: nat :: i in at <==> i in before || (i == n && jobs[n].firstInstall);
  }

  lemma PlaceIsInRange(jobs: seq<Job>, i: nat)
    requires IsFirstInstall(jobs, i)
    ensures i < |jobs|
  {
  }

  class Worker {
    var workQueue: seq<Job>
    var workPending: set<Id>
    var workActive: Id
    var workActiveFirst: bool
    var workKick: bool

    ghost function State(): Queue
      reads this
    {
      Queue(workQueue, workPending, workActive, workActiveFirst)
    }

    constructor ()
      ensures State() == EMPTY && !workKick && Disciplined(State())
    {
      workQueue, workPending, workActive, workActiveFirst, workKick := [], {}, IDLE, false, false;
    }

    /** Whether the instance is being applied or waits in the queue: exactly when
        enqueueing it would change nothing. */
    method WorkerBusyWith(id: Id) returns (busy: bool)
      requires Disciplined(State())
      ensures busy <==> id == workActive || id in Ids(workQueue)
      ensures busy <==> forall first :: Enqueued(State(), id, first) == State()
    {
      busy := workActive == id || id in workPending;
      assert !busy ==> Enqueued(State(), id, true) != State();
    }

    /** Appends unless queued or active, then offers the wake-up token. */
    method EnqueueApply(id: Id, observed: string) returns (reportQueued: bool)
      requires Disciplined(State())
      modifies this
      ensures State() == Enqueued(old(State()), id, IsFirstInstallState(observed)) && Disciplined(State())
      ensures workQueue == old(workQueue)
                           + if id == old(workActive) || id in old(Ids(workQueue)) then []
                             else [Job(id, observed in ["", "pending", "installing"])]
      ensures workActive == old(workActive) && workActiveFirst == old(workActiveFirst)
      ensures workKick == (old(workKick) || !old(Busy(State(), id)))
      ensures reportQueued <==>
                workQueue != old(workQueue) && workActive != IDLE && observed in ["", "pending", "installing"]
    {
      EnqueueKeepsDiscipline(State(), id, IsFirstInstallState(observed));
      if id in workPending || workActive == id {
        return false;
      }
      var first := IsFirstInstallState(observed);
      workPending := workPending + {id};
      workQueue := workQueue + [Job(id, first)];
      var busy := workActive != IDLE;
      reportQueued := busy && first;
      workKick := true;
    }

    method TakeJob() returns (job: Job)
      requires Disciplined(State()) && workQueue != []
      modifies this
      ensures State() == Dequeued(old(State())) && Disciplined(State())
      ensures workQueue == old(workQueue)[1..] && workActive == job.id && workActiveFirst == job.firstInstall
      ensures job == old(workQueue)[0] && workKick == old(workKick)
    {
      DequeueKeepsDiscipline(State());
      job := workQueue[0];
      workQueue := workQueue[1..];
      workPending := workPending - {job.id};
      workActive := job.id;
      workActiveFirst := job.firstInstall;
    }

    method FinishJob()
      requires Disciplined(State()) && IDLE !in workPending
      modifies this
      ensures State() == Finished(old(State())) && Disciplined(State())
      ensures workQueue == old(workQueue) && workPending == old(workPending) && workActive == "" && !workActiveFirst
      ensures workKick == old(workKick)
    {
      workActive := IDLE;
      workActiveFirst := false;
    }

    /** Only first installs are reported, in queue order. */
    method ActiveWork() returns (active: Id, queued: seq<Id>)
      ensures queued == FirstInstallIds(workQueue)
      ensures exists at: seq<nat> | FirstInstallsAt(workQueue, at) && |at| == |queued| ::
                forall k | 0 <= k < |at| :: queued[k] == workQueue[at[k]].id
      ensures active == if workActiveFirst then workActive else IDLE
    {
      queued := [];
      var i := 0;
      while i < |workQueue|
        invariant 0 <= i <= |workQueue|
        invariant queued == FirstInstallIds(workQueue[..i])
      {
        assert workQueue[..i + 1][..i] == workQueue[..i];
        if workQueue[i].firstInstall {
          queued := queued + [workQueue[i].id];
        }
        i := i + 1;
      }
      assert workQueue[..i] == workQueue;
      ghost var at := FirstInstallsInOrder(workQueue);
      active := if workActiveFirst then workActive else IDLE;
    }
  }
}
