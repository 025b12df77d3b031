// Envelope verification (internal/signedmut/envelope.go) and what it promises
// over whole runs of envelopes and clock readings.
module SignedMutation {
  import opened Utf8
  import opened DecodedJson
  import opened Jcs
  import opened JcsReader
  import opened MachineInts
  import opened NonceStore
  import opened TypedMutation
  import opened Wrappers

  /** Kept in seconds: the clock skew and the cap on exp - iat. */
  const CLOCK_SKEW := 30
  const MAX_LIFETIME := 600
  const MAX_ENVELOPE_BYTES := 0x10_0000
  const KEY_SIZE := 32
  const SIGNATURE_SIZE := 64
  const MAX_NONCE_BYTES := 128

  datatype DenyReason =
    | Malformed | UntrustedKey | BadSignature | DeviceMismatch
    | Expired | FutureIat | BadWindow | Replay

  datatype UserKey = UserKey(pinLabel: string, pub: string)

  /** An envelope after decoding: a part is None when its decoding failed. The mutation
      is the document as it was written. */
  datatype Envelope = Envelope(
    size: nat, wellFormed: bool, complete: bool,
    signer: Option<string>, sig: Option<string>, mutation: Option<Wire>)

  /** ed25519 as an arbitrary function of key, message and signature. */
  type SignatureCheck = (string, string, string) -> bool

  datatype Outcome = Accepted(m: Mutation, key: UserKey) | Denied(reason: DenyReason) | StoreError

  /** The tree an envelope's signature is about. */
  function TreeOf(env: Envelope): Option<Value> {
    if env.mutation.Some? then SignedTree(env.mutation.value) else None
  }

  /** Clock readings for which now + skew is a plain sum. */
  predicate ClockReading(now: int) {
    IsInt64(now) && IsInt64(now + CLOCK_SKEW)
  }

  function TimeWindow(m: Mutation, now: int): (late: Option<DenyReason>)
    ensures late != Some(Replay)
  {
    if m.iat > Wrap64(now + CLOCK_SKEW) then Some(FutureIat)
    else if m.exp <= now then Some(Expired)
    else if Wrap64(m.exp - m.iat) > MAX_LIFETIME || m.exp <= m.iat then Some(BadWindow)
    else None
  }

  // ---------------------------------------------------------------- verification

  datatype Verdict = Passed(m: Mutation, key: UserKey) | Rejected(reason: DenyReason)

  function FindKey(keys: seq<UserKey>, pub: string): Option<UserKey> {
    if keys == [] then None
    else if keys[0].pub == pub then Some(keys[0])
    else FindKey(keys[1..], pub)
  }

  /** The first pinned key with these bytes: the one a mutation is attributed to. */
  ghost predicate IsFirstPinned(keys: seq<UserKey>, pub: string, key: UserKey) {
    exists i | 0 <= i < |keys| ::
      keys[i] == key && keys[i].pub == pub && forall j | 0 <= j < i :: keys[j].pub != pub
  }

  /** Every check but the replay check, in order. */
  ghost function Judge(keys: seq<UserKey>, check: SignatureCheck, env: Envelope, own: string, now: int): Verdict {
    if env.size > MAX_ENVELOPE_BYTES || !env.wellFormed || !env.complete then Rejected(Malformed)
    else if env.signer.None? || |env.signer.value| != KEY_SIZE then Rejected(Malformed)
    else if env.sig.None? || |env.sig.value| != SIGNATURE_SIZE then Rejected(Malformed)
    else if FindKey(keys, env.signer.value).None? then Rejected(UntrustedKey)
    else if TreeOf(env).None? || !Printable(TreeOf(env).value) then Rejected(Malformed)
    else if !check(env.signer.value, Canon(TreeOf(env).value), env.sig.value) then Rejected(BadSignature)
    else
      match TypedView(env.mutation.value)
      case None => Rejected(Malformed)
      case Some(m) =>
        if m.version != 1 || m.op == "" || m.nonce == "" || |m.nonce| > MAX_NONCE_BYTES then Rejected(Malformed)
        else if m.deviceId != own then Rejected(DeviceMismatch)
        else
          match TimeWindow(m, now)
          case Some(reason) => Rejected(reason)
          case None => Passed(m, FindKey(keys, env.signer.value).value)
  }

  /** The replay check, reached only by envelopes that pass all others. */
  function Settle(verdict: Verdict, seen: Table, now: int, db: DbHealth): (Outcome, Table) {
    match verdict
    case Rejected(reason) => (Denied(reason), seen)
    case Passed(m, key) =>
      var (after, r) := Marked(seen, m.nonce, now, db);
      match r
      case Failed => (StoreError, after)
      case Seen => (Denied(Replay), after)
      case Fresh => (Accepted(m, key), after)
  }

  class Verifier {
    const keys: seq<UserKey>

    constructor (keys: seq<UserKey>)
      ensures this.keys == keys
    {
      this.keys := keys;
    }

    method Match(pub: string) returns (found: Option<UserKey>)
      ensures found == FindKey(keys, pub)
      ensures found.Some? ==> IsFirstPinned(keys, pub, found.value)
      ensures found.None? ==> forall k <- keys :: k.pub != pub
    {
      var i := 0;
      while i < |keys|
        invariant 0 <= i <= |keys|
        invariant FindKey(keys, pub) == FindKey(keys[i..], pub)
        invariant forall j | 0 <= j < i :: keys[j].pub != pub
      {
        if keys[i].pub == pub {
          return Some(keys[i]);
        }
        assert keys[i..][1..] == keys[i + 1..];
        i := i + 1;
      }
      found := None;
    }

    method Verify(check: SignatureCheck, env: Envelope, own: string, now: int, replay: Store, db: DbHealth)
      returns (outcome: Outcome)
      modifies replay
      ensures (outcome, replay.seen) == Settle(Judge(keys, check, env, own, now), old(replay.seen), now, db)
      ensures outcome.Accepted? ==> env.signer.Some? && IsFirstPinned(keys, env.signer.value, outcome.key)
      ensures Judge(keys, check, env, own, now).Passed? ==>
                var m := Judge(keys, check, env, own, now).m;
                && (outcome == Denied(Replay) <==> m.nonce != "" && db.insertOk && m.nonce in old(replay.seen))
                && (outcome.StoreError? <==> m.nonce == "" || !db.insertOk)
                && (outcome.Accepted? ==> outcome.m == m)
      ensures outcome.Accepted? || outcome == Denied(Replay) || outcome.StoreError? ==>
                Judge(keys, check, env, own, now).Passed?
    {
      hide SignedTree, TypedView, Printable, Canon, TimeWindow, FindKey, Marked;
      if env.size > MAX_ENVELOPE_BYTES || !env.wellFormed || !env.complete {
        return Denied(Malformed);
      }
      if env.signer.None? || |env.signer.value| != KEY_SIZE {
        return Denied(Malformed);
      }
      if env.sig.None? || |env.sig.value| != SIGNATURE_SIZE {
        return Denied(Malformed);
      }
      var matched := Match(env.signer.value);
      if matched.None? {
        return Denied(UntrustedKey);
      }
      if env.mutation.None? {
        return Denied(Malformed);
      }
      var tree := DecodeJson(env.mutation.value);
      if tree.None? {
        return Denied(Malformed);
      }
      var canon := Canonicalize(tree.value);
      if canon.None? {
        return Denied(Malformed);
      }
      if !check(env.signer.value, canon.value, env.sig.value) {
        return Denied(BadSignature);
      }
      var view := TypedView(env.mutation.value);
      if view.None? {
        return Denied(Malformed);
      }
      var m := view.value;
      if m.version != 1 || m.op == "" || m.nonce == "" || |m.nonce| > MAX_NONCE_BYTES {
        return Denied(Malformed);
      }
      if m.deviceId != own {
        return Denied(DeviceMismatch);
      }
      var late := TimeWindow(m, now);
      if late.Some? {
        return Denied(late.value);
      }
      var r := replay.CheckAndMarkNonce(m.nonce, now, db);
      outcome := match r
        case Failed => StoreError
        case Seen => Denied(Replay)
        case Fresh => Accepted(m, matched.value);
    }
  }

  // ------------------------------------------------------- what one call promises

  predicate SafeInteger(i: int) {
    -9007199254740991 <= i <= 9007199254740991
  }

  lemma TimeIsSafe(w: Wire, tree: Value, field: string)
    requires Printable(tree) && IsReading(w, tree) && w.WObject? && (field == "iat" || field == "exp")
    requires IsFilled(tree, field)
    ensures IntOf(Given(w.members, field)).Some? && SafeInteger(IntOf(Given(w.members, field)).value)
  {
    hide Names, Given, IntOf, SignedTree, IsFilled, FieldsFit;
    ObjectsOnly(w, tree);
    FieldsOfView(w, tree, field);
    IntIsSaid(w.members, tree, field);
  }

  predicate HasSafeTimes(w: Wire)
    requires TypedView(w).Some?
  {
    SafeInteger(TypedView(w).value.iat) && SafeInteger(TypedView(w).value.exp)
  }

  /** The safe-integer check on the signed tree bounds both timestamps of every document
      signed as it exactly when no key that names them is null. */
  lemma TimestampsAreSafeIff(tree: Value)
    requires Printable(tree) && IsTyped(tree)
    ensures (forall w: Wire | IsReading(w, tree) :: HasSafeTimes(w))
        <==> IsFilled(tree, "iat") && IsFilled(tree, "exp")
  {
    hide IsTyped, Names, IsFilled;
    if IsFilled(tree, "iat") && IsFilled(tree, "exp") {
      forall w: Wire | IsReading(w, tree)
        ensures HasSafeTimes(w)
      {
        TimestampsAreSafe(w, tree);
      }
    } else if !IsFilled(tree, "iat") {
      var w := UnsafeTime(tree, "iat");
    } else {
      var w := UnsafeTime(tree, "exp");
    }
  }

  lemma TimestampsAreSafe(w: Wire, tree: Value)
    requires Printable(tree) && IsReading(w, tree) && IsFilled(tree, "iat") && IsFilled(tree, "exp")
    ensures HasSafeTimes(w)
    ensures var m := TypedView(w).value; Wrap64(m.exp - m.iat) == m.exp - m.iat
  {
    hide Names, Given, IntOf, SignedTree, IsFilled, FieldsFit, Printable;
    ObjectsOnly(w, tree);
    if w.WObject? {
      TimeIsSafe(w, tree, "iat");
      TimeIsSafe(w, tree, "exp");
      FieldsOfView(w, tree, "iat");
    }
  }

  lemma UnsafeTime(tree: Value, field: string) returns (w: Wire)
    requires Printable(tree) && IsTyped(tree) && (field == "iat" || field == "exp") && !IsFilled(tree, field)
    ensures IsReading(w, tree) && !HasSafeTimes(w)
  {
    hide Names, Given, IntOf, SignedTree, Printable, IsTyped, FieldsFit, ParseInt64;
    var k :| k in tree.fields && Names(k, field) && tree.fields[k].Null?;
    var x := WNumber(FormatInt(TWO_63 - 1));
    ParseUndoesFormat(TWO_63 - 1);
    var before;
    w, before := NullIsOverridden(tree, field, k, x);
    FieldsOfView(w, tree, field);
    LastValueCounts(before, x, WNull);
  }

  /** The window check in unbounded integers. A lifetime of 2^63 seconds or more wraps
      around and passes. */
  lemma WindowIsExact(m: Mutation, now: int)
    requires ClockReading(now) && IsInt64(m.iat) && IsInt64(m.exp)
    ensures TimeWindow(m, now).None?
        <==> (m.iat - CLOCK_SKEW <= now < m.exp && m.iat < m.exp
              && (m.exp <= m.iat + MAX_LIFETIME || m.exp - m.iat >= TWO_63))
  {
  }

  lemma {:induction false} FoundKeyIsPinned(keys: seq<UserKey>, pub: string)
    ensures FindKey(keys, pub).Some? <==> exists k :: k in keys && k.pub == pub
    ensures FindKey(keys, pub).Some? ==> IsFirstPinned(keys, pub, FindKey(keys, pub).value)
  {
    if keys != [] {
      var rest := keys[1..];
      FoundKeyIsPinned(rest, pub);
      assert keys == [keys[0]] + rest;
      if keys[0].pub == pub {
        assert IsFirstPinned(keys, pub, keys[0]);
      } else if FindKey(rest, pub).Some? {
        var i :| 0 <= i < |rest| && rest[i] == FindKey(rest, pub).value && rest[i].pub == pub
          && forall j | 0 <= j < i :: rest[j].pub != pub;
        assert keys[i + 1] == rest[i] && forall j | 0 < j < i + 1 :: keys[j] == rest[j - 1];
      }
    }
  }

  /** An accepted mutation is attributed to the signer: the first pinned key with the
      signer's bytes, and to no other. */
  lemma AcceptedIsAttributed(seen: Table, check: SignatureCheck, run: seq<Event>, i: nat)
    requires i < |run| && OutcomeAt(seen, check, run, i).Accepted?
    ensures run[i].env.signer.Some?
            && IsFirstPinned(run[i].keys, run[i].env.signer.value, OutcomeAt(seen, check, run, i).key)
  {
    hide SeenAfter, FindKey, TypedView, Printable, Canon, TimeWindow, TreeOf, Marked;
    FoundKeyIsPinned(run[i].keys, run[i].env.signer.value);
  }

  /** A plain-integer reading of everything an accepted envelope has shown. */
  ghost predicate Genuine(keys: seq<UserKey>, check: SignatureCheck, env: Envelope, own: string, now: int, m: Mutation) {
    && env.size <= MAX_ENVELOPE_BYTES && env.wellFormed && env.complete
    && env.signer.Some? && |env.signer.value| == KEY_SIZE
    && env.sig.Some? && |env.sig.value| == SIGNATURE_SIZE
    && (exists k :: k in keys && k.pub == env.signer.value)
    && TreeOf(env).Some? && Printable(TreeOf(env).value)
    && check(env.signer.value, Canon(TreeOf(env).value), env.sig.value)
    && TypedView(env.mutation.value) == Some(m)
    && m.version == 1 && m.op != "" && 0 < |m.nonce| <= MAX_NONCE_BYTES
    && m.deviceId == own
    && m.iat - CLOCK_SKEW <= now < m.exp && m.iat < m.exp
    && (m.exp <= m.iat + MAX_LIFETIME || m.exp - m.iat >= TWO_63)
  }

  lemma TimesAreInt64(w: Wire)
    requires TypedView(w).Some?
    ensures IsInt64(TypedView(w).value.iat) && IsInt64(TypedView(w).value.exp)
  {
  }

  /** Passing is equivalent to being genuine. */
  lemma PassedIffGenuine(keys: seq<UserKey>, check: SignatureCheck, env: Envelope, own: string, now: int, m: Mutation)
    requires ClockReading(now)
    ensures (exists key :: Judge(keys, check, env, own, now) == Passed(m, key))
        <==> Genuine(keys, check, env, own, now, m)
  {
    hide Printable, Canon, TypedView, FindKey, TimeWindow, SignedTree;
    if env.signer.Some? {
      FoundKeyIsPinned(keys, env.signer.value);
    }
    if TreeOf(env).Some? && TypedView(env.mutation.value).Some? {
      TimesAreInt64(env.mutation.value);
      WindowIsExact(TypedView(env.mutation.value).value, now);
    }
    if Genuine(keys, check, env, own, now, m) {
      assert Judge(keys, check, env, own, now) == Passed(m, FindKey(keys, env.signer.value).value);
    }
  }

  ghost predicate IsSigned(keys: seq<UserKey>, check: SignatureCheck, env: Envelope) {
    && IsShaped(env) && (exists k <- keys :: k.pub == env.signer.value)
    && TreeOf(env).Some? && Printable(TreeOf(env).value)
    && check(env.signer.value, Canon(TreeOf(env).value), env.sig.value)
  }

  predicate IsShaped(env: Envelope) {
    && env.size <= 1024 * 1024 && env.wellFormed && env.complete
    && env.signer.Some? && |env.signer.value| == 32 && env.sig.Some? && |env.sig.value| == 64
  }

  /** The mutation of a signed envelope, once its own fields are in order. */
  ghost predicate Says(keys: seq<UserKey>, check: SignatureCheck, env: Envelope, m: Mutation) {
    && IsSigned(keys, check, env) && TypedView(env.mutation.value) == Some(m)
    && m.version == 1 && m.op != "" && 0 < |m.nonce| <= 128
  }

  /** What each reason for a denial means; whatever else is wrong is malformed. */
  lemma RejectedFor(keys: seq<UserKey>, check: SignatureCheck, env: Envelope, own: string, now: int, m: Mutation)
    requires ClockReading(now)
    ensures var v := Judge(keys, check, env, own, now);
            && (v == Rejected(UntrustedKey) <==> IsShaped(env) && forall k <- keys :: k.pub != env.signer.value)
            && (v == Rejected(BadSignature) <==>
                  IsShaped(env) && (exists k <- keys :: k.pub == env.signer.value)
                  && TreeOf(env).Some? && Printable(TreeOf(env).value) && !IsSigned(keys, check, env))
            && v != Rejected(Replay)
    ensures Says(keys, check, env, m) ==>
              var v := Judge(keys, check, env, own, now);
              && (v == Rejected(DeviceMismatch) <==> m.deviceId != own)
              && (v == Rejected(FutureIat) <==> m.deviceId == own && m.iat > now + 30)
              && (v == Rejected(Expired) <==> m.deviceId == own && m.iat <= now + 30 && m.exp <= now)
              && v != Rejected(Malformed)
    ensures Judge(keys, check, env, own, now).Rejected?
            && Judge(keys, check, env, own, now).reason in {DeviceMismatch, FutureIat, Expired, BadWindow} ==>
              exists m :: Says(keys, check, env, m)
  {
    hide Printable, Canon, TypedView, FindKey, TimeWindow, SignedTree;
    if env.signer.Some? {
      FoundKeyIsPinned(keys, env.signer.value);
    }
    if TreeOf(env).Some? && TypedView(env.mutation.value).Some? {
      TimesAreInt64(env.mutation.value);
      ReasonsInTime(TypedView(env.mutation.value).value, now);
    }
    if IsSigned(keys, check, env) && TypedView(env.mutation.value).Some? {
      assert Says(keys, check, env, TypedView(env.mutation.value).value)
        || Judge(keys, check, env, own, now) == Rejected(Malformed);
    }
  }

  lemma ReasonsInTime(m: Mutation, now: int)
    requires ClockReading(now)
    ensures TimeWindow(m, now) == Some(FutureIat) <==> m.iat > now + 30
    ensures TimeWindow(m, now) == Some(Expired) <==> m.iat <= now + 30 && m.exp <= now
    ensures TimeWindow(m, now).Some? ==> TimeWindow(m, now).value in {FutureIat, Expired, BadWindow}
  {
  }

  /** With timestamps that are not null the cap on the lifetime is never passed. */
  lemma LifetimeIsCapped(keys: seq<UserKey>, check: SignatureCheck, env: Envelope, own: string, now: int, m: Mutation)
    ensures Genuine(keys, check, env, own, now, m)
            && IsFilled(TreeOf(env).value, "iat") && IsFilled(TreeOf(env).value, "exp") ==>
              m.exp <= m.iat + MAX_LIFETIME
  {
    hide Printable, Canon, TypedView, SignedTree, IsFilled;
    if Genuine(keys, check, env, own, now, m)
      && IsFilled(TreeOf(env).value, "iat") && IsFilled(TreeOf(env).value, "exp") {
      TimestampsAreSafe(env.mutation.value, TreeOf(env).value);
    }
  }

  /** One signed text, one tree; and one mutation too, if the tree is unambiguous. */
  lemma SignedTextNamesOneMutation(keys: seq<UserKey>, check: SignatureCheck, own: string, now: int, e1: Envelope, e2: Envelope)
    ensures Judge(keys, check, e1, own, now).Passed? && Judge(keys, check, e2, own, now).Passed? ==>
              && (SameSignedText(e1, e2) <==> TreeOf(e1) == TreeOf(e2))
              && (SameSignedText(e1, e2) && IsUnambiguous(TreeOf(e1).value) ==>
                    SameMeaning(Judge(keys, check, e1, own, now).m, Judge(keys, check, e2, own, now).m))
  {
    hide Printable, Canon, TypedView, FindKey, TimeWindow, SignedTree, IsUnambiguous, SameMeaning;
    if Judge(keys, check, e1, own, now).Passed? && Judge(keys, check, e2, own, now).Passed? {
      CanonicalTextIsInjective(TreeOf(e1).value, TreeOf(e2).value);
      if TreeOf(e1) == TreeOf(e2) && IsUnambiguous(TreeOf(e1).value) {
        UnambiguousFixesMutation(TreeOf(e1).value, e1.mutation.value, e2.mutation.value);
      }
    }
  }

  ghost predicate SameSignedText(e1: Envelope, e2: Envelope) {
    TreeOf(e1).Some? && TreeOf(e2).Some? && Canon(TreeOf(e1).value) == Canon(TreeOf(e2).value)
  }

  // ------------------------------------------------------------ whole runs

  datatype Event = Event(keys: seq<UserKey>, env: Envelope, own: string, now: int, db: DbHealth)

  ghost function StepOn(seen: Table, check: SignatureCheck, e: Event): (Outcome, Table) {
    Settle(Judge(e.keys, check, e.env, e.own, e.now), seen, e.now, e.db)
  }

  ghost function SeenAfter(seen: Table, check: SignatureCheck, run: seq<Event>): Table {
    if run == [] then seen
    else StepOn(SeenAfter(seen, check, run[..|run| - 1]), check, run[|run| - 1]).1
  }

  ghost function OutcomeAt(seen: Table, check: SignatureCheck, run: seq<Event>, i: nat): Outcome
    requires i < |run|
  {
    StepOn(SeenAfter(seen, check, run[..i]), check, run[i]).0
  }

  /** No reading lies more than `regress` seconds before an earlier one. */
  ghost predicate ClockBounded(run: seq<Event>, regress: nat) {
    (forall i | 0 <= i < |run| :: ClockReading(run[i].now))
    && forall i, j | 0 <= i < j < |run| :: run[j].now >= run[i].now - regress
  }

  ghost predicate SameMutation(a: Mutation, b: Mutation) {
    a.nonce == b.nonce && a.iat == b.iat && a.exp == b.exp
  }

  /** Two acceptances of one mutation. */
  ghost predicate MutationAgain(seen: Table, check: SignatureCheck, run: seq<Event>, i: nat, j: nat)
    requires i < j < |run|
  {
    var a, b := OutcomeAt(seen, check, run, i), OutcomeAt(seen, check, run, j);
    a.Accepted? && b.Accepted? && SameMutation(a.m, b.m)
  }

  /** Two acceptances under one signed text. */
  ghost predicate TextAgain(seen: Table, check: SignatureCheck, run: seq<Event>, i: nat, j: nat)
    requires i < j < |run|
  {
    && OutcomeAt(seen, check, run, i).Accepted? && OutcomeAt(seen, check, run, j).Accepted?
    && SameSignedText(run[i].env, run[j].env)
  }

  ghost predicate MutationTwice(seen: Table, check: SignatureCheck, run: seq<Event>) {
    exists i: nat, j: nat | i < j < |run| :: MutationAgain(seen, check, run, i, j)
  }

  ghost predicate TextTwice(seen: Table, check: SignatureCheck, run: seq<Event>) {
    exists i: nat, j: nat | i < j < |run| :: TextAgain(seen, check, run, i, j)
  }

  predicate GivesTimes(env: Envelope) {
    TreeOf(env).Some? ==> IsFilled(TreeOf(env).value, "iat") && IsFilled(TreeOf(env).value, "exp")
  }

  predicate FixesTriple(env: Envelope) {
    TreeOf(env).Some? ==> forall f <- ["nonce", "iat", "exp"] :: IsClear(TreeOf(env).value, f)
  }

  /** No accepted envelope has a null where its tree names iat or exp. */
  ghost predicate TimesGiven(seen: Table, check: SignatureCheck, run: seq<Event>) {
    forall i: nat | i < |run| && OutcomeAt(seen, check, run, i).Accepted? :: GivesTimes(run[i].env)
  }

  /** The tree of every accepted envelope determines nonce, iat and exp. */
  ghost predicate TriplesFixed(seen: Table, check: SignatureCheck, run: seq<Event>) {
    forall i: nat | i < |run| && OutcomeAt(seen, check, run, i).Accepted? :: FixesTriple(run[i].env)
  }

  lemma SeenStep(seen: Table, check: SignatureCheck, run: seq<Event>, j: nat)
    requires j < |run|
    ensures SeenAfter(seen, check, run[..j + 1]) == StepOn(SeenAfter(seen, check, run[..j]), check, run[j]).1
  {
    assert run[..j + 1][..j] == run[..j];
  }

  lemma AcceptingMarks(seen: Table, check: SignatureCheck, e: Event)
    requires StepOn(seen, check, e).0.Accepted?
    ensures var (outcome, after) := StepOn(seen, check, e);
            && Judge(e.keys, check, e.env, e.own, e.now) == Passed(outcome.m, outcome.key)
            && outcome.m.nonce !in seen
            && outcome.m.nonce in after && after[outcome.m.nonce] == e.now
  {
    hide Judge;
  }

  lemma StepKeepsRecentNonces(seen: Table, check: SignatureCheck, e: Event, nonce: string)
    requires nonce in seen && e.now - NONCE_RETENTION <= seen[nonce]
    ensures var after := StepOn(seen, check, e).1; nonce in after && after[nonce] == seen[nonce]
  {
    hide Judge;
  }

  /** A nonce stays in the table while no reading is a day past its mark. */
  lemma {:induction false} RecentNonceStays(seen: Table, check: SignatureCheck, run: seq<Event>, i: nat, j: nat, nonce: string)
    requires i <= j <= |run| && nonce in SeenAfter(seen, check, run[..i])
    requires forall k | i <= k < j :: run[k].now - NONCE_RETENTION <= SeenAfter(seen, check, run[..i])[nonce]
    ensures nonce in SeenAfter(seen, check, run[..j])
    ensures SeenAfter(seen, check, run[..j])[nonce] == SeenAfter(seen, check, run[..i])[nonce]
    decreases j
  {
    hide StepOn, SeenAfter;
    if i < j {
      RecentNonceStays(seen, check, run, i, j - 1, nonce);
      SeenStep(seen, check, run, j - 1);
      StepKeepsRecentNonces(SeenAfter(seen, check, run[..j - 1]), check, run[j - 1], nonce);
    }
  }

  lemma AcceptedIsGenuine(seen: Table, check: SignatureCheck, run: seq<Event>, i: nat)
    requires i < |run| && ClockReading(run[i].now) && OutcomeAt(seen, check, run, i).Accepted?
    ensures var e := run[i]; Genuine(e.keys, check, e.env, e.own, e.now, OutcomeAt(seen, check, run, i).m)
  {
    hide StepOn, SeenAfter, Judge, Genuine;
    var e := run[i];
    AcceptingMarks(SeenAfter(seen, check, run[..i]), check, e);
    PassedIffGenuine(e.keys, check, e.env, e.own, e.now, OutcomeAt(seen, check, run, i).m);
  }

  /** When a mutation was accepted, every later instant of its life is close by. */
  lemma AcceptanceWindow(seen: Table, check: SignatureCheck, run: seq<Event>, i: nat)
    requires i < |run| && ClockReading(run[i].now) && OutcomeAt(seen, check, run, i).Accepted? && GivesTimes(run[i].env)
    ensures var m := OutcomeAt(seen, check, run, i).m;
            m.iat - CLOCK_SKEW <= run[i].now < m.exp <= m.iat + MAX_LIFETIME
  {
    hide OutcomeAt, TypedView, Printable, Canon, IsFilled;
    var e := run[i];
    AcceptedIsGenuine(seen, check, run, i);
    LifetimeIsCapped(e.keys, check, e.env, e.own, e.now, OutcomeAt(seen, check, run, i).m);
  }

  /** Two acceptances under one text that fixes the triple are of one mutation. */
  lemma SameTextSameMutation(seen: Table, check: SignatureCheck, run: seq<Event>, i: nat, j: nat)
    requires i < j < |run| && TextAgain(seen, check, run, i, j) && FixesTriple(run[i].env)
    requires ClockReading(run[i].now) && ClockReading(run[j].now)
    ensures MutationAgain(seen, check, run, i, j) && GivesTimes(run[i].env)
  {
    hide OutcomeAt, TypedView, Printable, Canon, IsClear, IsFilled, SignedTree;
    AcceptedIsGenuine(seen, check, run, i);
    AcceptedIsGenuine(seen, check, run, j);
    var a, b := run[i].env, run[j].env;
    CanonicalTextIsInjective(TreeOf(a).value, TreeOf(b).value);
    ClearTriple(TreeOf(a).value, a.mutation.value, b.mutation.value);
    ClearIsFilled(TreeOf(a).value, "iat");
    ClearIsFilled(TreeOf(a).value, "exp");
  }

  lemma ClearIsFilled(tree: Value, field: string)
    requires IsClear(tree, field) && field != "params"
    ensures IsFilled(tree, field)
  {
    hide Names;
  }

  function Without(run: seq<Event>, i: nat): seq<Event>
    requires i < |run|
  {
    run[..i] + run[i + 1..]
  }

  lemma {:induction false} SameTableWithoutRejected(seen: Table, check: SignatureCheck, run: seq<Event>, i: nat, j: nat)
    requires i < j <= |run|
    requires Judge(run[i].keys, check, run[i].env, run[i].own, run[i].now).Rejected?
    ensures SeenAfter(seen, check, run[..j]) == SeenAfter(seen, check, Without(run, i)[..j - 1])
    decreases j
  {
    hide Judge, SeenAfter;
    var rest := Without(run, i);
    SeenStep(seen, check, run, j - 1);
    if i < j - 1 {
      SameTableWithoutRejected(seen, check, run, i, j - 1);
      SeenStep(seen, check, rest, j - 2);
      assert rest[j - 2] == run[j - 1];
    } else {
      assert rest[..i] == run[..i];
    }
  }

  /** A failed envelope burns no nonce: dropping it changes no later outcome. */
  lemma RejectedLeavesNoTrace(seen: Table, check: SignatureCheck, run: seq<Event>, i: nat, j: nat)
    requires i < j < |run|
    requires Judge(run[i].keys, check, run[i].env, run[i].own, run[i].now).Rejected?
    ensures OutcomeAt(seen, check, run, j) == OutcomeAt(seen, check, Without(run, i), j - 1)
  {
    hide Judge, SeenAfter, StepOn;
    SameTableWithoutRejected(seen, check, run, i, j);
  }

  /** The largest backward step of the clock that the retention absorbs. */
  const SAFE_REGRESS := NONCE_RETENTION - (MAX_LIFETIME + CLOCK_SKEW - 1)

  /** An accepted mutation whose times are given is never accepted again, whatever else
      the run holds. */
  lemma NotAgain(seen: Table, check: SignatureCheck, run: seq<Event>, i: nat, j: nat)
    requires ClockBounded(run, SAFE_REGRESS) && i < j < |run| && GivesTimes(run[i].env)
    ensures !MutationAgain(seen, check, run, i, j)
  {
    hide StepOn, SeenAfter, GivesTimes;
    if MutationAgain(seen, check, run, i, j) {
      var a := OutcomeAt(seen, check, run, i);
      AcceptanceWindow(seen, check, run, i);
      AcceptedInTime(seen, check, run, j);
      AcceptingMarks(SeenAfter(seen, check, run[..i]), check, run[i]);
      SeenStep(seen, check, run, i);
      RecentNonceStays(seen, check, run, i + 1, j, a.m.nonce);
      AcceptingMarks(SeenAfter(seen, check, run[..j]), check, run[j]);
      assert false;
    }
  }

  lemma AcceptedInTime(seen: Table, check: SignatureCheck, run: seq<Event>, i: nat)
    requires i < |run| && ClockReading(run[i].now) && OutcomeAt(seen, check, run, i).Accepted?
    ensures var m := OutcomeAt(seen, check, run, i).m; m.iat - CLOCK_SKEW <= run[i].now < m.exp
  {
    hide OutcomeAt, TypedView, Printable, Canon;
    AcceptedIsGenuine(seen, check, run, i);
  }

  lemma NoMutationAcceptedTwice(seen: Table, check: SignatureCheck, run: seq<Event>)
    requires ClockBounded(run, SAFE_REGRESS) && TimesGiven(seen, check, run)
    ensures !MutationTwice(seen, check, run)
  {
    hide ClockBounded, OutcomeAt, GivesTimes;
    forall i: nat, j: nat | i < j < |run|
      ensures !MutationAgain(seen, check, run, i, j)
    {
      if OutcomeAt(seen, check, run, i).Accepted? {
        NotAgain(seen, check, run, i, j);
      }
    }
  }

  lemma NoTextAcceptedTwice(seen: Table, check: SignatureCheck, run: seq<Event>)
    requires ClockBounded(run, SAFE_REGRESS) && TriplesFixed(seen, check, run)
    ensures !TextTwice(seen, check, run)
  {
    hide OutcomeAt, GivesTimes, FixesTriple, SameSignedText;
    forall i: nat, j: nat | i < j < |run|
      ensures !TextAgain(seen, check, run, i, j)
    {
      if TextAgain(seen, check, run, i, j) {
        SameTextSameMutation(seen, check, run, i, j);
        NotAgain(seen, check, run, i, j);
        assert false;
      }
    }
  }

  // ------------------------------------------------------- the bounds are exact

  function SampleTree(nonce: Value, iat: int, exp: Value): (tree: Value)
    ensures tree.Obj?
  {
    Obj(map["v" := Int(1), "op" := Str("op"), "nonce" := nonce, "iat" := Int(iat), "exp" := exp])
  }

  predicate IsSample(nonce: Value, iat: int, exp: Value) {
    && (nonce == Null || nonce == Str("a") || nonce == Str("b"))
    && -1 <= iat <= 1000000 && (exp == Null || exp == Int(iat + MAX_LIFETIME))
  }

  lemma SampleIsPrintable(nonce: Value, iat: int, exp: Value)
    requires IsSample(nonce, iat, exp)
    ensures Printable(SampleTree(nonce, iat, exp))
  {
    hide Valid;
    var m := SampleTree(nonce, iat, exp).fields;
    AsciiIsValid("op");
    AsciiIsValid("a");
    AsciiIsValid("b");
    forall k | k in m
      ensures Valid(k) && Printable(m[k])
    {
      AsciiIsValid(k);
    }
  }

  /** A field of a sample is named by its own key alone. */
  lemma SampleKeys(nonce: Value, iat: int, exp: Value, k: string, field: string)
    requires k in SampleTree(nonce, iat, exp).fields && field in FIELDS && Names(k, field)
    ensures k == field
  {
    hide Fold;
    FieldsFoldApart(k, k, field);
  }

  lemma SampleIsTyped(nonce: Value, iat: int, exp: Value)
    requires IsSample(nonce, iat, exp)
    ensures IsTyped(SampleTree(nonce, iat, exp))
    ensures forall f <- FIELDS :: f != "nonce" && f != "exp" ==> IsClear(SampleTree(nonce, iat, exp), f)
    ensures !nonce.Null? ==> IsClear(SampleTree(nonce, iat, exp), "nonce")
    ensures !exp.Null? ==> IsClear(SampleTree(nonce, iat, exp), "exp")
  {
    hide Names;
    var tree := SampleTree(nonce, iat, exp);
    forall k, f | k in tree.fields && f in FIELDS && Names(k, f)
      ensures k == f
    {
      SampleKeys(nonce, iat, exp, k, f);
    }
  }

  lemma SampleString(w: Wire, tree: Value, field: string, s: string)
    requires w.WObject? && IsReading(w, tree) && tree.Obj? && field in STRING_FIELDS && IsClear(tree, field)
    requires forall k <- tree.fields | Names(k, field) :: k == field
    requires if field in tree.fields then tree.fields[field] == Str(s) else s == ""
    ensures StringOf(Given(w.members, field)) == Some(s)
  {
    hide Given, StringOf, SignedTree, Fold;
    FieldsOfView(w, tree, field);
    assert Names(field, field);
    StringIsSaid(w.members, tree, field);
  }

  lemma SampleInt(w: Wire, tree: Value, field: string, i: int)
    requires w.WObject? && IsReading(w, tree) && tree.Obj? && field in INT_FIELDS && IsClear(tree, field)
    requires forall k <- tree.fields | Names(k, field) :: k == field
    requires field in tree.fields && tree.fields[field] == Int(i)
    ensures IntOf(Given(w.members, field)) == Some(i)
  {
    hide Given, IntOf, SignedTree, Fold;
    FieldsOfView(w, tree, field);
    assert Names(field, field);
    IntIsSaid(w.members, tree, field);
  }

  /** How every document of a sample unmarshals, as far as its tree says. */
  lemma SampleView(w: Wire, nonce: Value, iat: int, exp: Value)
    requires IsSample(nonce, iat, exp) && IsReading(w, SampleTree(nonce, iat, exp))
    ensures var m := TypedView(w).value;
            && w.WObject? && TypedView(w) == Some(m)
            && m.version == 1 && m.op == "op" && m.deviceId == "" && m.iat == iat
            && (nonce.Str? ==> m.nonce == nonce.s) && (exp.Int? ==> m.exp == exp.i)
  {
    hide Names, Given, StringOf, IntOf, SignedTree, IsSample, IsClear, Printable;
    var tree := SampleTree(nonce, iat, exp);
    ObjectsOnly(w, tree);
    SampleIsTyped(nonce, iat, exp);
    forall k, f | k in tree.fields && f in FIELDS && Names(k, f)
      ensures k == f
    {
      SampleKeys(nonce, iat, exp, k, f);
    }
    SampleInt(w, tree, "v", 1);
    SampleInt(w, tree, "iat", iat);
    SampleString(w, tree, "op", "op");
    SampleString(w, tree, "device_id", "");
    if nonce.Str? {
      SampleString(w, tree, "nonce", nonce.s);
    }
    if exp.Int? {
      SampleInt(w, tree, "exp", exp.i);
    }
  }

  function SampleEvent(w: Wire, now: int): Event {
    var pub := seq(KEY_SIZE, _ => 'k');
    Event([UserKey("k.pub", pub)],
          Envelope(0, true, true, Some(pub), Some(seq(SIGNATURE_SIZE, _ => 's')), Some(w)),
          "", now, HEALTHY)
  }

  ghost function Passing(check: SignatureCheck, e: Event): Verdict {
    Judge(e.keys, check, e.env, e.own, e.now)
  }

  ghost predicate Passes(check: SignatureCheck, e: Event, nonce: string) {
    Passing(check, e).Passed? && Passing(check, e).m.nonce == nonce && e.db == HEALTHY
  }

  lemma SamplePasses(check: SignatureCheck, w: Wire, tree: Value, now: int)
    requires IsReading(w, tree) && Printable(tree) && 0 <= now <= 1000000
    requires var m := TypedView(w).value;
             && m.version == 1 && m.op != "" && m.deviceId == "" && 0 < |m.nonce| <= MAX_NONCE_BYTES
             && m.iat - CLOCK_SKEW <= now < m.exp && m.iat < m.exp
             && (m.exp <= m.iat + MAX_LIFETIME || m.exp - m.iat >= TWO_63)
    requires forall k, text, sig :: check(k, text, sig)
    ensures var e := SampleEvent(w, now);
            var v := Passing(check, e);
            e.now == now && TreeOf(e.env) == Some(tree)
            && Passes(check, e, TypedView(w).value.nonce) && v.m == TypedView(w).value
  {
    hide Judge, Printable, TypedView, Canon, SignedTree;
    var e := SampleEvent(w, now);
    assert e.keys[0] in e.keys;
    PassedIffGenuine(e.keys, check, e.env, e.own, e.now, TypedView(w).value);
  }

  /** A plain sample: its tree fixes nonce, iat and exp. */
  lemma PlainSample(check: SignatureCheck, nonce: string, iat: int, now: int) returns (e: Event)
    requires nonce == "a" || nonce == "b"
    requires 0 <= iat <= 1000000 && 0 <= now <= 1000000
    requires iat - CLOCK_SKEW <= now < iat + MAX_LIFETIME
    requires forall k, text, sig :: check(k, text, sig)
    ensures var v := Passing(check, e);
            e.now == now && GivesTimes(e.env) && FixesTriple(e.env)
            && TreeOf(e.env) == Some(SampleTree(Str(nonce), iat, Int(iat + MAX_LIFETIME)))
            && Passes(check, e, nonce) && v.m.iat == iat && v.m.exp == iat + MAX_LIFETIME
  {
    hide Judge, Printable, TypedView, Canon, SignedTree, SampleTree, IsTyped, IsClear, IsFilled;
    var tree := SampleTree(Str(nonce), iat, Int(iat + MAX_LIFETIME));
    SampleIsPrintable(Str(nonce), iat, Int(iat + MAX_LIFETIME));
    SampleIsTyped(Str(nonce), iat, Int(iat + MAX_LIFETIME));
    ClearIsFilled(tree, "iat");
    ClearIsFilled(tree, "exp");
    var w := SomeReading(tree);
    SampleView(w, Str(nonce), iat, Int(iat + MAX_LIFETIME));
    e := SampleEvent(w, now);
    SamplePasses(check, w, tree, now);
  }

  lemma NothingDecoded()
    ensures DecodedMembers([]) == map[]
  {
  }

  lemma SomeReading(tree: Value) returns (w: Wire)
    requires Printable(tree) && IsTyped(tree) && tree.Obj?
    ensures IsReading(w, tree)
  {
    hide Names, Given, FieldsFit, SignedTree, Printable, IsTyped;
    var none: set<string> := {};
    NothingDecoded();
    w := EndingIn(tree, none, []);
    EndingInReads(tree, none, [], "op");
  }

  /** The steps of a run of envelopes that pass. */
  lemma FreshEnvelopeIsAccepted(seen: Table, check: SignatureCheck, e: Event)
    requires Passing(check, e).Passed? && e.db == HEALTHY
    requires var m := Passing(check, e).m; m.nonce != "" && m.nonce !in seen
    ensures var v := Passing(check, e);
            StepOn(seen, check, e) == (Accepted(v.m, v.key), Pruned(seen[v.m.nonce := e.now], e.now))
  {
    hide Judge;
  }

  /** A second envelope, more than a day late, prunes the mark of the first. */
  lemma PrunedNonceIsAcceptedAgain(check: SignatureCheck, e0: Event, e1: Event, e2: Event)
    requires Passes(check, e0, "a") && Passes(check, e1, "b") && Passes(check, e2, "a")
    requires e0.now == 0 && e1.now == NONCE_RETENTION + 1
    ensures var run := [e0, e1, e2];
            && OutcomeAt(map[], check, run, 0) == Accepted(Passing(check, e0).m, Passing(check, e0).key)
            && OutcomeAt(map[], check, run, 2) == Accepted(Passing(check, e2).m, Passing(check, e2).key)
  {
    hide Judge, StepOn;
    var run := [e0, e1, e2];
    SeenStep(map[], check, run, 0);
    SeenStep(map[], check, run, 1);
    assert run[..0] == [];
    FreshEnvelopeIsAccepted(map[], check, e0);
    assert Pruned(map["a" := 0], 0) == map["a" := 0];
    FreshEnvelopeIsAccepted(map["a" := 0], check, e1);
    var after := SeenAfter(map[], check, run[..2]);
    assert "a" !in after;
    FreshEnvelopeIsAccepted(after, check, e2);
  }

  /** One second more and a run accepts the same mutation twice, under one text. */
  lemma LargerRegressIsUnsafe(regress: nat) returns (check: SignatureCheck, run: seq<Event>)
    requires regress > SAFE_REGRESS
    ensures ClockBounded(run, regress) && TimesGiven(map[], check, run) && TriplesFixed(map[], check, run)
    ensures MutationTwice(map[], check, run) && TextTwice(map[], check, run)
  {
    hide Judge, GivesTimes, FixesTriple, OutcomeAt, SampleTree, TreeOf, Canon, Passing;
    check := (_, _, _) => true;
    var e0 := PlainSample(check, "a", CLOCK_SKEW, 0);
    var e1 := PlainSample(check, "b", NONCE_RETENTION + 1, NONCE_RETENTION + 1);
    var e2 := PlainSample(check, "a", CLOCK_SKEW, MAX_LIFETIME + CLOCK_SKEW - 1);
    run := [e0, e1, e2];
    PrunedNonceIsAcceptedAgain(check, e0, e1, e2);
    assert MutationAgain(map[], check, run, 0, 2);
    assert TextAgain(map[], check, run, 0, 2);
    assert ClockBounded(run, regress);
  }

  /** A null expiry lets an envelope outlive its mark, by a clock that never steps back. */
  lemma NullTimeIsUnsafe() returns (check: SignatureCheck, run: seq<Event>)
    ensures ClockBounded(run, 0) && MutationTwice(map[], check, run)
  {
    hide Judge, TypedView, Printable, SignedTree, OutcomeAt, SampleTree;
    check := (_, _, _) => true;
    var w, tree := LongLivedReading();
    SamplePasses(check, w, tree, 0);
    SamplePasses(check, w, tree, NONCE_RETENTION + 1);
    var e0, e2 := SampleEvent(w, 0), SampleEvent(w, NONCE_RETENTION + 1);
    var e1 := PlainSample(check, "b", NONCE_RETENTION + 1, NONCE_RETENTION + 1);
    run := [e0, e1, e2];
    PrunedNonceIsAcceptedAgain(check, e0, e1, e2);
    assert MutationAgain(map[], check, run, 0, 2);
  }

  /** And with a tree that leaves the nonce open, one signed text is accepted twice at once. */
  lemma OpenNonceIsUnsafe() returns (check: SignatureCheck, run: seq<Event>)
    ensures ClockBounded(run, 0) && TimesGiven(map[], check, run) && TextTwice(map[], check, run)
  {
    hide Judge, TypedView, StepOn, Printable, IsTyped, SampleTree, Names, SignedTree, Canon, IsClear, IsFilled;
    check := (_, _, _) => true;
    var tree := SampleTree(Null, 0, Int(MAX_LIFETIME));
    SampleIsPrintable(Null, 0, Int(MAX_LIFETIME));
    SampleIsTyped(Null, 0, Int(MAX_LIFETIME));
    ClearIsFilled(tree, "iat");
    ClearIsFilled(tree, "exp");
    var w1 := ReadingWithNonce(tree, 0, Int(MAX_LIFETIME), "a");
    var w2 := ReadingWithNonce(tree, 0, Int(MAX_LIFETIME), "b");
    SampleView(w1, Null, 0, Int(MAX_LIFETIME));
    SampleView(w2, Null, 0, Int(MAX_LIFETIME));
    SamplePasses(check, w1, tree, 0);
    SamplePasses(check, w2, tree, 0);
    var e1, e2 := SampleEvent(w1, 0), SampleEvent(w2, 0);
    run := [e1, e2];
    SeenStep(map[], check, run, 0);
    assert run[..0] == [] && run[0] == e1 && run[1] == e2;
    FreshEnvelopeIsAccepted(map[], check, e1);
    assert Pruned(map["a" := 0], 0) == map["a" := 0];
    FreshEnvelopeIsAccepted(map["a" := 0], check, e2);
    assert TextAgain(map[], check, run, 0, 1);
  }

  lemma ReadingWithNonce(tree: Value, iat: int, exp: Value, nonce: string) returns (w: Wire)
    requires tree == SampleTree(Null, iat, exp) && IsSample(Null, iat, exp)
    ensures w.WObject? && IsReading(w, tree) && TypedView(w).value.nonce == nonce
  {
    hide Names, Given, StringOf, FieldsFit, SignedTree, Printable, IsTyped;
    SampleIsPrintable(Null, iat, exp);
    SampleIsTyped(Null, iat, exp);
    var before;
    NamesItself("nonce");
    w, before := NullIsOverridden(tree, "nonce", "nonce", WString(nonce));
    FieldsOfView(w, tree, "nonce");
    LastValueCounts(before, WString(nonce), WNull);
    NonceOfView(w, tree);
  }

  lemma NamesItself(key: string)
    ensures Names(key, key)
  {
  }

  lemma NonceOfView(w: Wire, tree: Value)
    requires w.WObject? && IsReading(w, tree)
    ensures FieldsFit(w.members) && StringOf(Given(w.members, "nonce")) == Some(TypedView(w).value.nonce)
    ensures IntOf(Given(w.members, "exp")) == Some(TypedView(w).value.exp)
  {
    FieldsOfView(w, tree, "nonce");
    FieldsOfView(w, tree, "exp");
  }

  /** A document whose tree leaves the expiry open can live 2^63 seconds. */
  lemma LongLivedReading() returns (w: Wire, tree: Value)
    ensures IsReading(w, tree) && Printable(tree)
    ensures var m := TypedView(w).value;
            && m.version == 1 && m.op == "op" && m.deviceId == "" && m.nonce == "a"
            && m.iat == -1 && m.exp == TWO_63 - 1
  {
    hide Names, Given, StringOf, IntOf, FieldsFit, SignedTree, Printable, IsTyped, TypedView, ParseInt64;
    tree := SampleTree(Str("a"), -1, Null);
    SampleIsPrintable(Str("a"), -1, Null);
    SampleIsTyped(Str("a"), -1, Null);
    ParseUndoesFormat(TWO_63 - 1);
    var x := WNumber(FormatInt(TWO_63 - 1));
    NamesItself("exp");
    var before;
    w, before := NullIsOverridden(tree, "exp", "exp", x);
    FieldsOfView(w, tree, "exp");
    LastValueCounts(before, x, WNull);
    NonceOfView(w, tree);
    SampleView(w, Str("a"), -1, Null);
  }

  /** With a null expiry the signed tree leaves the lifetime open, and the cap with it. */
  lemma LifetimeCanWrap() returns (check: SignatureCheck, env: Envelope, keys: seq<UserKey>, m: Mutation)
    ensures Genuine(keys, check, env, "", 0, m) && m.exp - m.iat >= TWO_63
  {
    hide SignedTree, Printable, Judge, TypedView, Canon;
    check := (_, _, _) => true;
    var w, tree := LongLivedReading();
    var e := SampleEvent(w, 0);
    SamplePasses(check, w, tree, 0);
    env, keys, m := e.env, e.keys, TypedView(w).value;
    PassedIffGenuine(keys, check, env, "", 0, m);
  }

  /** No mutation is accepted twice, over all runs: for exactly the clocks that step back
      85771 s at most, and only if no accepted tree leaves a timestamp open. */
  lemma MutationSafeIff(regress: nat, timesGiven: bool)
    ensures (forall seen: Table, check: SignatureCheck, run: seq<Event> ::
               ClockBounded(run, regress) && (timesGiven ==> TimesGiven(seen, check, run)) ==> !MutationTwice(seen, check, run))
        <==> regress <= 85771 && timesGiven
  {
    hide TimesGiven, MutationTwice;
    if regress <= 85771 && timesGiven {
      forall seen: Table, check: SignatureCheck, run: seq<Event> | ClockBounded(run, regress) && TimesGiven(seen, check, run)
        ensures !MutationTwice(seen, check, run)
      {
        assert ClockBounded(run, SAFE_REGRESS);
        NoMutationAcceptedTwice(seen, check, run);
      }
    } else if !timesGiven {
      var check, run := NullTimeIsUnsafe();
      assert ClockBounded(run, regress);
    } else {
      var check, run := LargerRegressIsUnsafe(regress);
    }
  }

  /** No signed text is accepted twice, over all runs: for exactly those clocks, and only
      if every accepted tree fixes nonce, iat and exp. */
  lemma TextSafeIff(regress: nat, triplesFixed: bool)
    ensures (forall seen: Table, check: SignatureCheck, run: seq<Event> ::
               ClockBounded(run, regress) && (triplesFixed ==> TriplesFixed(seen, check, run)) ==> !TextTwice(seen, check, run))
        <==> regress <= 85771 && triplesFixed
  {
    hide TriplesFixed, TextTwice;
    if regress <= 85771 && triplesFixed {
      forall seen: Table, check: SignatureCheck, run: seq<Event> | ClockBounded(run, regress) && TriplesFixed(seen, check, run)
        ensures !TextTwice(seen, check, run)
      {
        assert ClockBounded(run, SAFE_REGRESS);
        NoTextAcceptedTwice(seen, check, run);
      }
    } else if !triplesFixed {
      var check, run := OpenNonceIsUnsafe();
      assert ClockBounded(run, regress);
    } else {
      var check, run := LargerRegressIsUnsafe(regress);
    }
  }
}
