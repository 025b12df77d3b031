// The persistent nonce table of internal/store/nonces.go.
module NonceStore {

  /** 24 hours, in seconds. */
  const NONCE_RETENTION := 86400

  type Table = map<string, int>

  datatype MarkResult = Fresh | Seen | Failed

  /** Whether the two statements of one call succeed. */
  datatype DbHealth = DbHealth(insertOk: bool, pruneOk: bool)

  function Inserted(seen: Table, nonce: string, now: int): Table {
    if nonce in seen then seen else seen[nonce := now]
  }

  function Pruned(seen: Table, now: int): Table {
    map n | n in seen && seen[n] >= now - NONCE_RETENTION :: seen[n]
  }

  function Marked(seen: Table, nonce: string, now: int, db: DbHealth): (Table, MarkResult) {
    if nonce == "" || !db.insertOk then (seen, Failed)
    else
      var inserted := Inserted(seen, nonce, now);
      (if db.pruneOk then Pruned(inserted, now) else inserted, if nonce in seen then Seen else Fresh)
  }

  /** When a nonce was marked, if a missing one is marked now. */
  function MarkTime(seen: Table, nonce: string, now: int): int {
    if nonce in seen then seen[nonce] else now
  }

  class Store {
    var seen: Table

    constructor ()
      ensures seen == map[]
    {
      seen := map[];
    }

    /** INSERT OR IGNORE, then DELETE of every row older than the retention. */
    method CheckAndMarkNonce(nonce: string, now: int, db: DbHealth) returns (r: MarkResult)
      modifies this
      ensures (seen, r) == Marked(old(seen), nonce, now, db)
      ensures r.Failed? <==> nonce == "" || !db.insertOk
      ensures r.Seen? <==> nonce != "" && db.insertOk && nonce in old(seen)
      ensures r.Failed? ==> seen == old(seen)
      ensures !r.Failed? ==> forall n :: n in seen <==>
                (n in old(seen) || n == nonce) && (db.pruneOk ==> MarkTime(old(seen), n, now) >= now - 86400)
      ensures forall n <- seen :: seen[n] == MarkTime(old(seen), n, now)
    {
      if nonce == "" {
        return Failed;
      }
      if !db.insertOk {
        return Failed;
      }
      r := if nonce in seen then Seen else Fresh;
      if nonce !in seen {
        seen := seen[nonce := now];
      }
      var cutoff := now - NONCE_RETENTION;
      assert seen == Inserted(old(seen), nonce, now);
      if db.pruneOk {
        assert (map n | n in seen && !(seen[n] < cutoff) :: seen[n]) == Pruned(seen, now);
        seen := map n | n in seen && !(seen[n] < cutoff) :: seen[n];
      }
    }
  }

  // ------------------------------------------------- when a nonce is fresh again

  datatype Call = Call(nonce: string, now: int, db: DbHealth)

  const HEALTHY := DbHealth(true, true)

  /** The table after a run of calls. */
  function TableAfter(seen: Table, calls: seq<Call>): Table {
    if calls == [] then seen
    else
      var last := calls[|calls| - 1];
      Marked(TableAfter(seen, calls[..|calls| - 1]), last.nonce, last.now, last.db).0
  }

  predicate FreshAt(seen: Table, calls: seq<Call>, j: nat)
    requires j < |calls|
  {
    Marked(TableAfter(seen, calls[..j]), calls[j].nonce, calls[j].now, calls[j].db).1 == Fresh
  }

  /** Call `k` prunes whatever was marked at time `at`. */
  predicate Prunes(calls: seq<Call>, k: nat, at: int)
    requires k < |calls|
  {
    calls[k].nonce != "" && calls[k].db == HEALTHY && calls[k].now - NONCE_RETENTION > at
  }

  /** No call from `i` on and before `j` prunes a mark of time `at`. */
  ghost predicate Lives(calls: seq<Call>, i: nat, j: nat, at: int)
    requires j <= |calls|
  {
    forall k | i <= k < j :: !Prunes(calls, k, at)
  }

  /** Call `i` marked the nonce, and the mark is still there before call `j`. */
  ghost predicate LiveMark(seen: Table, calls: seq<Call>, i: nat, j: nat, nonce: string)
    requires j <= |calls|
  {
    i < j && calls[i].nonce == nonce && FreshAt(seen, calls, i) && Lives(calls, i + 1, j, calls[i].now)
  }

  lemma TableStep(seen: Table, calls: seq<Call>, j: nat)
    requires 0 < j <= |calls|
    ensures TableAfter(seen, calls[..j])
         == Marked(TableAfter(seen, calls[..j - 1]), calls[j - 1].nonce, calls[j - 1].now, calls[j - 1].db).0
  {
    assert calls[..j][..j - 1] == calls[..j - 1];
  }

  /** A mark stays, with its time, while no call prunes it. */
  lemma {:induction false} MarkStays(seen: Table, calls: seq<Call>, i: nat, j: nat, nonce: string)
    requires i <= j <= |calls| && nonce in TableAfter(seen, calls[..i])
    requires Lives(calls, i, j, TableAfter(seen, calls[..i])[nonce])
    ensures nonce in TableAfter(seen, calls[..j])
    ensures TableAfter(seen, calls[..j])[nonce] == TableAfter(seen, calls[..i])[nonce]
    decreases j
  {
    if i < j {
      MarkStays(seen, calls, i, j - 1, nonce);
      TableStep(seen, calls, j);
      assert !Prunes(calls, j - 1, TableAfter(seen, calls[..i])[nonce]);
    }
  }

  lemma LiveMarkIsInTable(seen: Table, calls: seq<Call>, i: nat, j: nat, nonce: string)
    requires j <= |calls| && LiveMark(seen, calls, i, j, nonce)
    ensures nonce in TableAfter(seen, calls[..j])
  {
    TableStep(seen, calls, i + 1);
    MarkStays(seen, calls, i + 1, j, nonce);
  }

  lemma OldMarkIsInTable(seen: Table, calls: seq<Call>, j: nat, nonce: string)
    requires j <= |calls| && nonce in seen && Lives(calls, 0, j, seen[nonce])
    ensures nonce in TableAfter(seen, calls[..j])
  {
    assert calls[..0] == [];
    MarkStays(seen, calls, 0, j, nonce);
  }

  /** What is in the table was there at the start, or was marked since, and lives. */
  lemma {:induction false} EntryHasLiveMark(seen: Table, calls: seq<Call>, j: nat, nonce: string) returns (i: nat)
    requires j <= |calls| && nonce in TableAfter(seen, calls[..j])
    ensures (LiveMark(seen, calls, i, j, nonce) && TableAfter(seen, calls[..j])[nonce] == calls[i].now)
         || (nonce in seen && TableAfter(seen, calls[..j])[nonce] == seen[nonce] && Lives(calls, 0, j, seen[nonce]))
    decreases j
  {
    if j == 0 {
      assert calls[..0] == [];
      i := 0;
    } else {
      TableStep(seen, calls, j);
      if nonce in TableAfter(seen, calls[..j - 1]) {
        i := EntryHasLiveMark(seen, calls, j - 1, nonce);
        assert !Prunes(calls, j - 1, TableAfter(seen, calls[..j - 1])[nonce]);
      } else {
        i := j - 1;
      }
    }
  }

  /** A nonce is accepted exactly when the store takes it and every mark it had, from
      before the run or from an acceptance in it, has been pruned. */
  lemma FreshIffEarlierMarksPruned(seen: Table, calls: seq<Call>, j: nat)
    requires j < |calls|
    ensures FreshAt(seen, calls, j)
       <==> (calls[j].nonce != "" && calls[j].db.insertOk
             && (calls[j].nonce in seen ==> !Lives(calls, 0, j, seen[calls[j].nonce]))
             && forall i | 0 <= i < j && calls[i].nonce == calls[j].nonce && FreshAt(seen, calls, i) ::
                  !Lives(calls, i + 1, j, calls[i].now))
  {
    var nonce := calls[j].nonce;
    if nonce in TableAfter(seen, calls[..j]) {
      var i := EntryHasLiveMark(seen, calls, j, nonce);
    }
    if nonce in seen && Lives(calls, 0, j, seen[nonce]) {
      OldMarkIsInTable(seen, calls, j, nonce);
    }
    forall i | 0 <= i < j && calls[i].nonce == nonce && FreshAt(seen, calls, i) && Lives(calls, i + 1, j, calls[i].now)
      ensures nonce in TableAfter(seen, calls[..j])
    {
      LiveMarkIsInTable(seen, calls, i, j, nonce);
    }
  }

  /** So a nonce alone is not accepted once only, even by a clock that never steps back. */
  lemma NonceIsFreshTwice(nonce: string, other: string, t: int)
    requires nonce != "" && other != "" && other != nonce
    ensures var later := t + NONCE_RETENTION + 1;
            var calls := [Call(nonce, t, HEALTHY), Call(other, later, HEALTHY), Call(nonce, later, HEALTHY)];
            FreshAt(map[], calls, 0) && FreshAt(map[], calls, 2)
  {
    var later := t + NONCE_RETENTION + 1;
    var calls := [Call(nonce, t, HEALTHY), Call(other, later, HEALTHY), Call(nonce, later, HEALTHY)];
    assert Prunes(calls, 1, t);
    FreshIffEarlierMarksPruned(map[], calls, 0);
    FreshIffEarlierMarksPruned(map[], calls, 2);
  }
}
