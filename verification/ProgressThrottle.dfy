// The install-progress throttle (internal/sync/syncer.go). Its map forgets old
// entries; what it passes is stated by the history of calls, which forgets nothing.
module ProgressThrottle {
  import opened Wrappers
  import opened Instances

  const SECOND := 1_000_000_000
  const THROTTLE := 2 * SECOND
  const STALE_AFTER := 600 * SECOND
  const SWEEP_ABOVE := 64

  datatype Stamp = Stamp(phase: string, at: int)

  datatype Call = Call(connected: bool, id: Id, phase: string, percent: int, now: int)

  predicate IsHeard(c: Call) {
    c.id != "" && c.connected
  }

  /** Soon after an event of the same phase, and not the last percent. */
  predicate IsTooSoon(last: Stamp, c: Call) {
    last.phase == c.phase && c.percent != 100 && c.now - last.at < THROTTLE
  }

  predicate Passes(sent: map<Id, Stamp>, c: Call) {
    IsHeard(c) && !(c.id in sent && IsTooSoon(sent[c.id], c))
  }

  predicate IsStale(s: Stamp, now: int) {
    now - s.at > STALE_AFTER
  }

  function Swept(sent: map<Id, Stamp>, now: int): map<Id, Stamp> {
    if |sent| <= SWEEP_ABOVE then sent else map id | id in sent && !IsStale(sent[id], now) :: sent[id]
  }

  function Noted(sent: map<Id, Stamp>, c: Call): map<Id, Stamp> {
    if Passes(sent, c) then Swept(sent[c.id := StampOf(c)], c.now) else sent
  }

  class Throttle {
    var progSent: map<Id, Stamp>

    constructor ()
      ensures progSent == map[]
    {
      progSent := map[];
    }

    /** Whether the event is emitted. */
    method Report(c: Call) returns (emitted: bool)
      modifies this
      ensures emitted <==> Passes(old(progSent), c)
      ensures progSent == Noted(old(progSent), c)
      // what is kept: this event, and everything at most ten minutes old; a big map keeps nothing else
      ensures !emitted ==> progSent == old(progSent)
      ensures emitted ==> c.id in progSent && progSent[c.id] == Stamp(c.phase, c.now)
      ensures forall id <- old(progSent) | !emitted || (id != c.id && c.now - old(progSent)[id].at <= 600_000_000_000) ::
                id in progSent && progSent[id] == old(progSent)[id]
      ensures emitted && |progSent| > 64 ==> forall id <- progSent :: c.now - progSent[id].at <= 600_000_000_000
    {
      if c.id == "" || !c.connected {
        return false;
      }
      if c.id in progSent {
        var last := progSent[c.id];
        if last.phase == c.phase && c.percent != 100 && c.now - last.at < THROTTLE {
          return false;
        }
      }
      progSent := progSent[c.id := Stamp(c.phase, c.now)];
      if |progSent| > SWEEP_ABOVE {
        Sweep(c.now);
      }
      return true;
    }

    /** Deletes stale entries while ranging over the map. */
    method Sweep(now: int)
      modifies this
      ensures progSent == map id | id in old(progSent) && !IsStale(old(progSent)[id], now) :: old(progSent)[id]
    {
      var left := progSent.Keys;
      while left != {}
        invariant left <= old(progSent).Keys
        invariant forall id :: id in progSent <==>
                    id in old(progSent) && (id in left || !IsStale(old(progSent)[id], now))
        invariant forall id | id in progSent :: progSent[id] == old(progSent)[id]
        decreases left
      {
        var id :| id in left;
        if now - progSent[id].at > STALE_AFTER {
          progSent := progSent - {id};
        }
        left := left - {id};
      }
    }
  }

  // ------------------------------------------------------------------ over a run of calls

  function SentAfter(calls: seq<Call>): map<Id, Stamp> {
    if calls == [] then map[] else Noted(SentAfter(calls[..|calls| - 1]), calls[|calls| - 1])
  }

  /** Which calls of a run are emitted. */
  function Emitted(calls: seq<Call>): (ds: seq<bool>)
    ensures |ds| == |calls|
  {
    if calls == [] then []
    else
      var before := calls[..|calls| - 1];
      Emitted(before) + [Passes(SentAfter(before), calls[|calls| - 1])]
  }

  /** The last emitted call of an instance among the first `n`. */
  function LastEmitted(calls: seq<Call>, ds: seq<bool>, n: nat, id: Id): (r: Option<nat>)
    requires n <= |calls| == |ds|
    ensures r.Some? ==> r.value < n && ds[r.value] && calls[r.value].id == id
    ensures forall k | (if r.Some? then r.value < k else true) && 0 <= k < n :: !(ds[k] && calls[k].id == id)
  {
    if n == 0 then None
    else if ds[n - 1] && calls[n - 1].id == id then Some(n - 1)
    else LastEmitted(calls, ds, n - 1, id)
  }

  /** The rule, from the whole history and without any map. */
  predicate ByHistory(calls: seq<Call>, ds: seq<bool>, i: nat)
    requires i < |calls| == |ds|
  {
    var c, last := calls[i], LastEmitted(calls, ds, i, calls[i].id);
    IsHeard(c) && !(last.Some? && IsTooSoon(StampOf(calls[last.value]), c))
  }

  predicate TimesAscend(calls: seq<Call>) {
    forall i, j | 0 <= i < j < |calls| :: calls[i].now <= calls[j].now
  }

  /** What the map still knows is true, and what it has forgotten is long past. */
  ghost predicate Remembers(calls: seq<Call>, ds: seq<bool>, sent: map<Id, Stamp>)
    requires |calls| == |ds|
  {
    forall id :: Knows(calls, ds, sent, id)
  }

  ghost predicate Knows(calls: seq<Call>, ds: seq<bool>, sent: map<Id, Stamp>, id: Id)
    requires |calls| == |ds|
  {
    var last := LastEmitted(calls, ds, |calls|, id);
    if id in sent then last.Some? && sent[id] == StampOf(calls[last.value])
    else last.Some? ==> IsStale(StampOf(calls[last.value]), calls[|calls| - 1].now)
  }

  function StampOf(c: Call): Stamp {
    Stamp(c.phase, c.now)
  }

  /** What one call leaves in the map. */
  lemma NotedEntries(sent: map<Id, Stamp>, c: Call, id: Id)
    ensures var noted := Noted(sent, c);
            && (id in noted ==> noted[id] == if id == c.id && Passes(sent, c) then StampOf(c) else sent[id])
            && (id == c.id && Passes(sent, c) ==> id in noted)
            && (id in noted && !(id == c.id && Passes(sent, c)) ==> id in sent)
            && (id in sent && id !in noted ==> IsStale(sent[id], c.now))
  {
  }

  lemma {:induction false} LastEmittedOfPrefix(calls: seq<Call>, ds: seq<bool>, n: nat, id: Id)
    requires |calls| == |ds| && n < |calls|
    ensures LastEmitted(calls, ds, n, id) == LastEmitted(calls[..|calls| - 1], ds[..|calls| - 1], n, id)
  {
    if n > 0 {
      LastEmittedOfPrefix(calls, ds, n - 1, id);
    }
  }

  lemma LastEmittedStep(calls: seq<Call>, ds: seq<bool>, id: Id)
    requires calls != [] && |calls| == |ds|
    ensures LastEmitted(calls, ds, |calls|, id)
         == if ds[|calls| - 1] && calls[|calls| - 1].id == id then Some(|calls| - 1)
            else LastEmitted(calls[..|calls| - 1], ds[..|calls| - 1], |calls| - 1, id)
  {
    LastEmittedOfPrefix(calls, ds, |calls| - 1, id);
  }

  lemma KnowsAfter(calls: seq<Call>, ds: seq<bool>, sent: map<Id, Stamp>, id: Id)
    requires calls != [] && |calls| == |ds| && TimesAscend(calls)
    requires Knows(calls[..|calls| - 1], ds[..|calls| - 1], sent, id)
    requires ds[|calls| - 1] == Passes(sent, calls[|calls| - 1])
    ensures Knows(calls, ds, Noted(sent, calls[|calls| - 1]), id)
  {
    hide Noted, LastEmitted, Passes;
    LastEmittedStep(calls, ds, id);
    NotedEntries(sent, calls[|calls| - 1], id);
  }

  /** A call judged by the map is judged by the history. */
  lemma OneMoreCall(calls: seq<Call>, ds: seq<bool>, sent: map<Id, Stamp>)
    requires calls != [] && |calls| == |ds| && TimesAscend(calls)
    requires Remembers(calls[..|calls| - 1], ds[..|calls| - 1], sent)
    requires ds[|calls| - 1] == Passes(sent, calls[|calls| - 1])
    ensures ds[|calls| - 1] <==> ByHistory(calls, ds, |calls| - 1)
    ensures Remembers(calls, ds, Noted(sent, calls[|calls| - 1]))
  {
    hide Noted, LastEmitted;
    var n := |calls| - 1;
    LastEmittedOfPrefix(calls, ds, n, calls[n].id);
    assert Knows(calls[..n], ds[..n], sent, calls[n].id);
    forall id
      ensures Knows(calls, ds, Noted(sent, calls[n]), id)
    {
      assert Knows(calls[..n], ds[..n], sent, id);
      KnowsAfter(calls, ds, sent, id);
    }
  }

  lemma {:induction false} ThrottleRemembers(calls: seq<Call>)
    requires TimesAscend(calls)
    ensures Remembers(calls, Emitted(calls), SentAfter(calls))
    ensures forall i | 0 <= i < |calls| :: Emitted(calls)[i] <==> ByHistory(calls, Emitted(calls), i)
  {
    if calls != [] {
      var n := |calls| - 1;
      var before, ds := calls[..n], Emitted(calls);
      ThrottleRemembers(before);
      assert ds[..n] == Emitted(before);
      OneMoreCall(calls, ds, SentAfter(before));
      forall i | 0 <= i < n
        ensures ds[i] <==> ByHistory(calls, ds, i)
      {
        LastEmittedOfPrefix(calls, ds, i, calls[i].id);
        assert Emitted(before)[i] <==> ByHistory(before, Emitted(before), i);
      }
    }
  }

  /** Forgetting old entries changes no decision: while the clock does not go back, the
      swept map emits exactly the calls the full history would. */
  lemma ThrottleFollowsHistory(calls: seq<Call>, i: nat)
    requires TimesAscend(calls) && i < |calls|
    ensures Emitted(calls)[i] <==> ByHistory(calls, Emitted(calls), i)
  {
    ThrottleRemembers(calls);
  }

  /** An event of a named instance on a live connection is held back exactly when the
      latest event sent for the instance is of the same phase and less than two seconds
      old, and this is not the last percent. */
  lemma HeldBackIff(calls: seq<Call>, j: nat)
    requires TimesAscend(calls) && j < |calls| && calls[j].id != "" && calls[j].connected
    ensures !Emitted(calls)[j] <==>
            exists i | 0 <= i < j && IsLatest(calls, i, j) ::
              calls[i].phase == calls[j].phase && calls[j].percent != 100 && calls[j].now - calls[i].now < 2_000_000_000
  {
    hide Emitted;
    ThrottleFollowsHistory(calls, j);
    var last := LastEmitted(calls, Emitted(calls), j, calls[j].id);
    if last.Some? {
      assert IsLatest(calls, last.value, j);
    }
  }

  /** Event `i` is the last one sent for the instance before call `j`. */
  ghost predicate IsLatest(calls: seq<Call>, i: nat, j: nat)
    requires i < j < |calls|
  {
    && Emitted(calls)[i] && calls[i].id == calls[j].id
    && forall k | i < k < j :: !(Emitted(calls)[k] && calls[k].id == calls[j].id)
  }

  /** Nothing is sent without an instance or a connection. */
  lemma UnheardIsSilent(calls: seq<Call>, j: nat)
    requires j < |calls| && (calls[j].id == "" || !calls[j].connected)
    ensures !Emitted(calls)[j]
  {
    EmittedAt(calls, j);
  }

  lemma {:induction false} EmittedAt(calls: seq<Call>, j: nat)
    requires j < |calls|
    ensures Emitted(calls)[j] <==> Passes(SentAfter(calls[..j]), calls[j])
  {
    if j < |calls| - 1 {
      EmittedAt(calls[..|calls| - 1], j);
      assert calls[..|calls| - 1][..j] == calls[..j];
    }
  }

  /** Two events of one instance and phase, with no other phase between them, are
      two seconds apart unless the second is the last percent. */
  lemma {:induction false} EventsAreSpaced(calls: seq<Call>, i: nat, j: nat)
    requires TimesAscend(calls) && i < j < |calls| && Emitted(calls)[i] && Emitted(calls)[j]
    requires calls[i].id == calls[j].id && calls[j].percent != 100
    requires forall k | i <= k < j && Emitted(calls)[k] && calls[k].id == calls[j].id :: calls[k].phase == calls[j].phase
    ensures calls[j].now - calls[i].now >= THROTTLE
  {
    ThrottleFollowsHistory(calls, j);
    var last := LastEmitted(calls, Emitted(calls), j, calls[j].id);
    assert last.Some? && i <= last.value;
  }

  /** With the clock set back the swept map can disagree: it then emits an event that the
      history would hold back. */
  lemma SweepNeedsAscendingTimes(sent: map<Id, Stamp>, c: Call, id: Id)
    requires |sent| > SWEEP_ABOVE && id in sent && IsStale(sent[id], c.now) && IsHeard(c) && c.id !in sent
    requires id != ""
    ensures var back := Call(true, id, sent[id].phase, 0, sent[id].at);
            Passes(sent, c) && !Passes(sent, back) && Passes(Noted(sent, c), back)
  {
    assert id in sent[c.id := StampOf(c)];
    SizeGrows(sent, c.id, StampOf(c));
  }

  lemma SizeGrows(sent: map<Id, Stamp>, id: Id, s: Stamp)
    requires id !in sent
    ensures |sent[id := s]| == |sent| + 1
  {
    assert sent[id := s].Keys == sent.Keys + {id};
  }
}
