// The readiness prober (internal/readiness/probe.go): which starting run owns an
// instance while `Begin`, `Forget` and the runs' own goroutines interleave, and
// when a settled instance flips.
module Prober {
  import opened Instances

  /** One call of `Begin`: the pointer a registration is compared with. */
  type RunId = nat

  datatype Health = Unset | Starting | Ready | Unhealthy

  const UNHEALTHY_AFTER := 3

  /** The maps behind the mutex, and the runs whose context is cancelled. */
  datatype Tables = Tables(
    active: map<Id, RunId>,
    cancelled: set<RunId>,
    failures: map<Id, nat>,
    ips: map<string, string>
  )

  function CancelOwner(t: Tables, id: Id): set<RunId> {
    if id in t.active then t.cancelled + {t.active[id]} else t.cancelled
  }

  function WithoutContainer(ips: map<string, string>, container: string): map<string, string> {
    if container == "" then ips else ips - {container}
  }

  /** A new run takes the instance over. */
  function Begun(t: Tables, run: RunId, id: Id, container: string): Tables {
    Tables(t.active[id := run], CancelOwner(t, id), t.failures - {id}, WithoutContainer(t.ips, container))
  }

  /** The instance is owned by no run. */
  function Forgotten(t: Tables, id: Id, container: string): Tables {
    Tables(t.active - {id}, CancelOwner(t, id), t.failures - {id}, WithoutContainer(t.ips, container))
  }

  predicate Owns(t: Tables, run: RunId, id: Id) {
    id in t.active && t.active[id] == run
  }

  function MarkedDone(t: Tables, run: RunId, id: Id): Tables {
    if Owns(t, run, id) then t.(active := t.active - {id}) else t
  }

  /** No other instance, container or run is touched. */
  ghost predicate KeepsTheRest(before: Tables, after: Tables, id: Id, container: string) {
    && (forall k | k != id :: k in after.active <==> k in before.active)
    && (forall k <- after.active | k != id :: after.active[k] == before.active[k])
    && (forall k | k != id :: k in after.failures <==> k in before.failures)
    && (forall k <- after.failures | k != id :: after.failures[k] == before.failures[k])
    && (forall k | k != container || container == "" :: k in after.ips <==> k in before.ips)
    && (forall k <- after.ips | k != container || container == "" :: after.ips[k] == before.ips[k])
    && (forall run | !(id in before.active && before.active[id] == run) :: run in after.cancelled <==> run in before.cancelled)
  }

  class Registry {
    var active: map<Id, RunId>
    var cancelled: set<RunId>
    var failures: map<Id, nat>
    var ips: map<string, string>

    ghost function Contents(): Tables
      reads this
    {
      Tables(active, cancelled, failures, ips)
    }

    constructor ()
      ensures Contents() == Tables(map[], {}, map[], map[])
    {
      active, cancelled, failures, ips := map[], {}, map[], map[];
    }

    /** The critical section of `Begin`. An empty id is ignored. */
    method Begin(run: RunId, id: Id, container: string)
      modifies this
      ensures Contents() == if id == "" then old(Contents()) else Begun(old(Contents()), run, id, container)
      ensures id == "" ==> Contents() == old(Contents())
      ensures id != "" ==>
                && active == old(active)[id := run] && id !in failures && (container == "" || container !in ips)
                && (id in old(active) ==> old(active)[id] in cancelled)
                && KeepsTheRest(old(Contents()), Contents(), id, container)
    {
      if id == "" {
        return;
      }
      if id in active {
        cancelled := cancelled + {active[id]};
      }
      active := active[id := run];
      failures := failures - {id};
      if container != "" {
        ips := ips - {container};
      }
    }

    method Forget(id: Id, container: string)
      modifies this
      ensures Contents() == Forgotten(old(Contents()), id, container)
      ensures id !in active && id !in failures && (container == "" || container !in ips)
      ensures id in old(active) ==> old(active)[id] in cancelled
      ensures KeepsTheRest(old(Contents()), Contents(), id, container)
    {
      if id in active {
        cancelled := cancelled + {active[id]};
        active := active - {id};
      }
      failures := failures - {id};
      if container != "" {
        ips := ips - {container};
      }
    }

    method MarkDone(id: Id, run: RunId)
      modifies this
      ensures Contents() == MarkedDone(old(Contents()), run, id)
      ensures active == if id in old(active) && old(active)[id] == run then old(active) - {id} else old(active)
      ensures cancelled == old(cancelled) && failures == old(failures) && ips == old(ips)
    {
      if id in active && active[id] == run {
        active := active - {id};
      }
    }

    /** One steady probe of an instance read as `cur`: the state to record, if any. */
    method SteadyProbe(id: Id, ok: bool, cur: Health) returns (next: Health)
      modifies `failures
      ensures failures == old(failures)[id := NextFailures(FailuresOf(old(failures), id), ok)]
      ensures next == NextHealth(cur, FailuresOf(failures, id), ok)
      ensures failures == old(failures)[id := if ok then 0 else FailuresOf(old(failures), id) + 1]
      ensures cur.Unset? || cur.Starting? ==> next == cur
      ensures cur.Ready? ==> next == if ok || failures[id] < 3 then Ready else Unhealthy
      ensures cur.Unhealthy? ==> next == if ok then Ready else Unhealthy
    {
      if ok {
        failures := failures[id := 0];
      } else {
        failures := failures[id := (if id in failures then failures[id] else 0) + 1];
      }
      var n := failures[id];
      next := cur;
      if ok && cur == Unhealthy {
        next := Ready;
      } else if !ok && cur == Ready && n >= UNHEALTHY_AFTER {
        next := Unhealthy;
      }
    }
  }

  function FailuresOf(failures: map<Id, nat>, id: Id): nat {
    if id in failures then failures[id] else 0
  }

  function NextFailures(n: nat, ok: bool): nat {
    if ok then 0 else n + 1
  }

  function NextHealth(cur: Health, n: nat, ok: bool): Health {
    if ok && cur == Unhealthy then Ready
    else if !ok && cur == Ready && n >= UNHEALTHY_AFTER then Unhealthy
    else cur
  }

  // ------------------------------------------------------------------- the flap rule

  /** The counter and the recorded state after a series of steady probes of one
      instance, the state read back before each. */
  function AfterProbes(cur: Health, n: nat, outcomes: seq<bool>): (Health, nat) {
    if outcomes == [] then (cur, n)
    else
      var (h, m) := AfterProbes(cur, n, outcomes[..|outcomes| - 1]);
      var ok := outcomes[|outcomes| - 1];
      (NextHealth(h, NextFailures(m, ok), ok), NextFailures(m, ok))
  }

  /** The last `UNHEALTHY_AFTER` probes all failed. */
  predicate LastThreeFailed(outcomes: seq<bool>) {
    |outcomes| >= UNHEALTHY_AFTER && forall i | |outcomes| - UNHEALTHY_AFTER <= i < |outcomes| :: !outcomes[i]
  }

  function TrailingFailures(outcomes: seq<bool>): nat {
    if outcomes == [] || outcomes[|outcomes| - 1] then 0
    else 1 + TrailingFailures(outcomes[..|outcomes| - 1])
  }

  lemma {:induction false} TrailingFailuresMeans(outcomes: seq<bool>, n: nat)
    ensures TrailingFailures(outcomes) >= n
       <==> n <= |outcomes| && forall i | |outcomes| - n <= i < |outcomes| :: !outcomes[i]
  {
    if outcomes != [] && n > 0 {
      var shorter := outcomes[..|outcomes| - 1];
      TrailingFailuresMeans(shorter, n - 1);
      if n <= |outcomes| && !outcomes[|outcomes| - 1] {
        assert forall i | |outcomes| - n <= i < |outcomes| - 1 :: shorter[i] == outcomes[i];
      }
    }
  }

  predicate NonePassed(outcomes: seq<bool>) {
    forall i | 0 <= i < |outcomes| :: !outcomes[i]
  }

  /** From unhealthy, with whatever count, an instance stays so until a probe passes, and
      from then on it follows the rule for a ready one. */
  lemma {:induction false} RecoveryRule(n: nat, outcomes: seq<bool>)
    ensures AfterProbes(Unhealthy, n, outcomes).0
         == if NonePassed(outcomes) || LastThreeFailed(outcomes) then Unhealthy else Ready
    ensures !NonePassed(outcomes) ==> AfterProbes(Unhealthy, n, outcomes).1 == TrailingFailures(outcomes)
  {
    TrailingFailuresMeans(outcomes, UNHEALTHY_AFTER);
    if outcomes != [] {
      var k := |outcomes| - 1;
      var shorter := outcomes[..k];
      assert forall i | 0 <= i < k :: shorter[i] == outcomes[i];
      assert NonePassed(outcomes) <==> NonePassed(shorter) && !outcomes[k];
      RecoveryRule(n, shorter);
      TrailingFailuresMeans(shorter, UNHEALTHY_AFTER);
      hide NonePassed, LastThreeFailed;
    }
  }

  /** From ready, an instance is unhealthy exactly while its last three probes failed:
      one or two failures never flap it, and one pass always brings it back. */
  lemma {:induction false} FlapRule(outcomes: seq<bool>)
    ensures AfterProbes(Ready, 0, outcomes) == (if LastThreeFailed(outcomes) then Unhealthy else Ready, TrailingFailures(outcomes))
  {
    TrailingFailuresMeans(outcomes, UNHEALTHY_AFTER);
    if outcomes != [] {
      var shorter := outcomes[..|outcomes| - 1];
      FlapRule(shorter);
      TrailingFailuresMeans(shorter, UNHEALTHY_AFTER);
    }
  }
}
