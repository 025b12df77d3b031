// The struct a mutation is unmarshalled into (internal/signedmut/envelope.go). It is
// decoded from the bytes and not from the signed tree: a member fills the field its
// key names up to case, the last one counts, and a null leaves a field as it is. So
// this module asks when the signed tree determines the struct.
module TypedMutation {
  import opened DecodedJson
  import opened Jcs
  import opened MachineInts
  import opened Utf16Order
  import opened Utf8
  import opened Wrappers

  /** `params` stays the document it was written as. */
  datatype Mutation = Mutation(
    version: int, deviceId: string, op: string, params: Option<Wire>,
    nonce: string, iat: int, exp: int, keyId: string)

  const STRING_FIELDS := {"device_id", "op", "nonce", "key_id"}
  const INT_FIELDS := {"v", "iat", "exp"}
  const FIELDS := STRING_FIELDS + INT_FIELDS + {"params"}

  /** Case folding as far as it can reach an ASCII letter. */
  function FoldRune(r: Rune): Rune {
    if 'a' as int <= r <= 'z' as int then r - 32
    else if r == 0x17F then 'S' as int
    else if r == 0x212A then 'K' as int
    else r
  }

  function FoldRunes(rs: seq<Rune>): (folded: seq<Rune>)
    ensures |folded| == |rs| && forall i | 0 <= i < |rs| :: folded[i] == FoldRune(rs[i])
  {
    seq(|rs|, i requires 0 <= i < |rs| => FoldRune(rs[i]))
  }

  function Fold(key: string): seq<Rune> {
    FoldRunes(Runes(key))
  }

  predicate Names(key: string, field: string) {
    Fold(key) == Fold(field)
  }

  /** The values given to a field, in order. */
  function Given(ms: seq<Member>, field: string): seq<Wire> {
    if ms == [] then []
    else
      var last := ms[|ms| - 1];
      Given(ms[..|ms| - 1], field) + if Names(last.key, field) then [last.value] else []
  }

  /** None when some value does not fit the field. */
  function StringOf(ds: seq<Wire>): Option<string> {
    if ds == [] then Some("")
    else
      var before, last := StringOf(ds[..|ds| - 1]), ds[|ds| - 1];
      if before.None? || last.WNull? then before
      else if last.WString? then Some(last.s)
      else None
  }

  function IntOf(ds: seq<Wire>): (i: Option<int>)
    ensures i.Some? ==> IsInt64(i.value)
  {
    if ds == [] then Some(0)
    else
      var before, last := IntOf(ds[..|ds| - 1]), ds[|ds| - 1];
      if before.None? || last.WNull? then before
      else if last.WNumber? then ParseInt64(last.literal)
      else None
  }

  function RawOf(ds: seq<Wire>): Option<Wire> {
    if ds == [] then None else Some(ds[|ds| - 1])
  }

  const ZERO := Mutation(0, "", "", None, "", 0, 0, "")

  predicate FieldsFit(ms: seq<Member>) {
    && (forall f <- STRING_FIELDS :: StringOf(Given(ms, f)).Some?)
    && (forall f <- INT_FIELDS :: IntOf(Given(ms, f)).Some?)
  }

  /** The struct a document unmarshals into. */
  function TypedView(w: Wire): Option<Mutation> {
    match w
    case WNull => Some(ZERO)
    case WObject(ms) => if FieldsFit(ms) then Some(Filled(ms)) else None
    case _ => None
  }

  function Filled(ms: seq<Member>): Mutation
    requires FieldsFit(ms)
  {
    Mutation(IntOf(Given(ms, "v")).value, StringOf(Given(ms, "device_id")).value, StringOf(Given(ms, "op")).value,
             RawOf(Given(ms, "params")), StringOf(Given(ms, "nonce")).value, IntOf(Given(ms, "iat")).value,
             IntOf(Given(ms, "exp")).value, StringOf(Given(ms, "key_id")).value)
  }

  // -------------------------------------------------------- what the signed tree says

  /** All keys of the tree that name a field give it one value, and that value fills it. */
  predicate IsClear(tree: Value, field: string) {
    tree.Obj? ==>
      forall k1 <- tree.fields, k2 <- tree.fields | Names(k1, field) && Names(k2, field) ::
        tree.fields[k1] == tree.fields[k2] && (tree.fields[k1].Null? ==> field == "params")
  }

  /** No key that names the field is null. */
  predicate IsFilled(tree: Value, field: string) {
    tree.Obj? ==> forall k <- tree.fields | Names(k, field) :: !tree.fields[k].Null?
  }

  predicate IsUnambiguous(tree: Value) {
    forall f <- FIELDS :: IsClear(tree, f)
  }

  predicate FitsField(v: Value, field: string) {
    && (field in STRING_FIELDS ==> v.Null? || v.Str?)
    && (field in INT_FIELDS ==> v.Null? || v.Int?)
  }

  /** Some document signed as this tree unmarshals. */
  predicate IsTyped(tree: Value) {
    tree.Null? || (tree.Obj? && forall k <- tree.fields, f <- FIELDS | Names(k, f) :: FitsField(tree.fields[k], f))
  }

  /** Equal fields, and params of equal values. */
  predicate SameMeaning(a: Mutation, b: Mutation) {
    && a.version == b.version && a.deviceId == b.deviceId && a.op == b.op && a.nonce == b.nonce
    && a.iat == b.iat && a.exp == b.exp && a.keyId == b.keyId
    && ParamsTree(a) == ParamsTree(b)
  }

  function ParamsTree(m: Mutation): Option<Option<Value>> {
    if m.params.None? then None else Some(SignedTree(m.params.value))
  }

  ghost predicate FixesMutation(tree: Value) {
    forall w1: Wire, w2: Wire | IsReading(w1, tree) && IsReading(w2, tree) ::
      SameMeaning(TypedView(w1).value, TypedView(w2).value)
  }

  /** A document signed as this tree that unmarshals. */
  predicate IsReading(w: Wire, tree: Value) {
    SignedTree(w) == Some(tree) && TypedView(w).Some?
  }

  // ------------------------------------------------------------------ field by field

  lemma {:induction false} NothingGiven(ms: seq<Member>, field: string)
    ensures Given(ms, field) == [] <==> forall k <- DecodedMembers(ms) :: !Names(k, field)
  {
    hide Names;
    if ms != [] {
      NothingGiven(ms[..|ms| - 1], field);
    }
  }

  /** The last value given to a field is in the tree, under some key that names it. */
  lemma {:induction false} LastGiven(ms: seq<Member>, field: string) returns (k: string)
    requires Given(ms, field) != []
    ensures k in DecodedMembers(ms) && Names(k, field)
    ensures DecodedMembers(ms)[k] == Decoded(Given(ms, field)[|Given(ms, field)| - 1])
  {
    hide Names, Decoded;
    var last := ms[|ms| - 1];
    if Names(last.key, field) {
      k := last.key;
    } else {
      k := LastGiven(ms[..|ms| - 1], field);
    }
  }

  ghost predicate SaysNothing(tree: Value, field: string) {
    tree.Obj? ==> forall k <- tree.fields :: !Names(k, field)
  }

  ghost predicate Says(tree: Value, field: string, v: Value) {
    tree.Obj? && exists k <- tree.fields :: Names(k, field) && tree.fields[k] == v
  }

  /** What the last value given to a field is, according to the tree. */
  lemma LastGivenIsSaid(ms: seq<Member>, tree: Value, field: string)
    requires SignedTree(WObject(ms)) == Some(tree)
    ensures Given(ms, field) == [] <==> SaysNothing(tree, field)
    ensures Given(ms, field) != [] ==>
              var last := Given(ms, field)[|Given(ms, field)| - 1];
              SignedTree(last).Some? && Says(tree, field, SignedTree(last).value)
  {
    hide Names, Given;
    NothingGiven(ms, field);
    if Given(ms, field) != [] {
      var k := LastGiven(ms, field);
      assert tree.fields[k] == Tree(DecodedMembers(ms)[k]);
    }
  }

  lemma StringIsSaid(ms: seq<Member>, tree: Value, field: string)
    requires SignedTree(WObject(ms)) == Some(tree) && field in STRING_FIELDS
    requires IsFilled(tree, field) && StringOf(Given(ms, field)).Some?
    ensures var s := StringOf(Given(ms, field)).value;
            if SaysNothing(tree, field) then s == "" else Says(tree, field, Str(s))
  {
    hide Names, Given;
    LastGivenIsSaid(ms, tree, field);
  }

  lemma IntIsSaid(ms: seq<Member>, tree: Value, field: string)
    requires SignedTree(WObject(ms)) == Some(tree) && field in INT_FIELDS
    requires IsFilled(tree, field) && IntOf(Given(ms, field)).Some?
    ensures var i := IntOf(Given(ms, field)).value;
            if SaysNothing(tree, field) then i == 0 else Says(tree, field, Int(i))
  {
    hide Names, Given;
    LastGivenIsSaid(ms, tree, field);
  }

  /** A clear field is filled alike by every document of the tree. */
  lemma SameField(ms: seq<Member>, ns: seq<Member>, tree: Value, field: string)
    requires SignedTree(WObject(ms)) == Some(tree) == SignedTree(WObject(ns)) && IsClear(tree, field)
    requires FieldsFit(ms) && FieldsFit(ns) && field in FIELDS
    ensures field in STRING_FIELDS ==> StringOf(Given(ms, field)) == StringOf(Given(ns, field))
    ensures field in INT_FIELDS ==> IntOf(Given(ms, field)) == IntOf(Given(ns, field))
    ensures var p, q := RawOf(Given(ms, field)), RawOf(Given(ns, field));
            (p.None? <==> q.None?) && (p.Some? ==> SignedTree(p.value) == SignedTree(q.value))
  {
    hide Names, Given, SignedTree, StringOf, IntOf;
    LastGivenIsSaid(ms, tree, field);
    LastGivenIsSaid(ns, tree, field);
    assert field != "params" ==> IsFilled(tree, field);
    if field in STRING_FIELDS {
      StringIsSaid(ms, tree, field);
      StringIsSaid(ns, tree, field);
    } else if field in INT_FIELDS {
      IntIsSaid(ms, tree, field);
      IntIsSaid(ns, tree, field);
    }
  }

  lemma UnambiguousFixesMutation(tree: Value, w1: Wire, w2: Wire)
    requires IsUnambiguous(tree) && IsReading(w1, tree) && IsReading(w2, tree)
    ensures SameMeaning(TypedView(w1).value, TypedView(w2).value)
  {
    hide Names, Given, SignedTree, StringOf, IntOf, IsClear, FieldsFit;
    if tree.Obj? {
      ObjectsOnly(w1, tree);
      ObjectsOnly(w2, tree);
      forall f | f in FIELDS
        ensures StringOf(Given(w1.members, f)) == StringOf(Given(w2.members, f)) || f !in STRING_FIELDS
        ensures IntOf(Given(w1.members, f)) == IntOf(Given(w2.members, f)) || f !in INT_FIELDS
      {
        SameField(w1.members, w2.members, tree, f);
      }
      SameField(w1.members, w2.members, tree, "params");
    } else {
      ObjectsOnly(w1, tree);
      ObjectsOnly(w2, tree);
    }
  }

  /** Three fields suffice to recognise a replay. */
  lemma ClearTriple(tree: Value, w1: Wire, w2: Wire)
    requires IsClear(tree, "nonce") && IsClear(tree, "iat") && IsClear(tree, "exp")
    requires IsReading(w1, tree) && IsReading(w2, tree)
    ensures var a, b := TypedView(w1).value, TypedView(w2).value; a.nonce == b.nonce && a.iat == b.iat && a.exp == b.exp
  {
    hide Names, Given, SignedTree, StringOf, IntOf, IsClear, FieldsFit;
    ObjectsOnly(w1, tree);
    ObjectsOnly(w2, tree);
    if tree.Obj? {
      SameField(w1.members, w2.members, tree, "nonce");
      SameField(w1.members, w2.members, tree, "iat");
      SameField(w1.members, w2.members, tree, "exp");
    }
  }

  lemma ObjectsOnly(w: Wire, tree: Value)
    requires IsReading(w, tree)
    ensures tree.Obj? <==> w.WObject?
    ensures !tree.Obj? ==> w == WNull
  {
    hide Names, Given, StringOf, IntOf, FieldsFit, DecodedMembers, Filled;
    assert Decoded(w).JObject? <==> w.WObject?;
  }

  // ------------------------------------------------- documents of an ambiguous tree

  lemma {:induction false} GivenAppend(a: seq<Member>, b: seq<Member>, field: string)
    ensures Given(a + b, field) == Given(a, field) + Given(b, field)
  {
    hide Names;
    if b == [] {
      assert a + b == a;
    } else {
      var n := |b| - 1;
      assert (a + b)[..|a + b| - 1] == a + b[..n];
      GivenAppend(a, b[..n], field);
    }
  }

  predicate Fits(w: Wire, field: string) {
    && (field in STRING_FIELDS ==> w.WNull? || w.WString?)
    && (field in INT_FIELDS ==> w.WNull? || (w.WNumber? && ParseInt64(w.literal).Some?))
  }

  predicate MembersFit(ms: seq<Member>) {
    forall m <- ms, f <- FIELDS | Names(m.key, f) :: Fits(m.value, f)
  }

  lemma {:induction false} FittingField(ms: seq<Member>, field: string)
    requires MembersFit(ms) && field in FIELDS
    ensures field in STRING_FIELDS ==> StringOf(Given(ms, field)).Some?
    ensures field in INT_FIELDS ==> IntOf(Given(ms, field)).Some?
  {
    hide Names, ParseInt64;
    if ms != [] {
      var n := |ms| - 1;
      assert MembersFit(ms[..n]);
      FittingField(ms[..n], field);
      assert ms[n] in ms;
      var ds := Given(ms[..n], field);
      assert ds + [] == ds;
      if Names(ms[n].key, field) {
        assert Fits(ms[n].value, field);
        assert Given(ms, field) == ds + [ms[n].value] && (ds + [ms[n].value])[..|ds|] == ds;
      }
    }
  }

  lemma FittingMembersUnmarshal(ms: seq<Member>)
    requires MembersFit(ms)
    ensures FieldsFit(ms)
  {
    hide Names, Given, StringOf, IntOf, MembersFit;
    forall f | f in STRING_FIELDS
      ensures StringOf(Given(ms, f)).Some?
    {
      FittingField(ms, f);
    }
    forall f | f in INT_FIELDS
      ensures IntOf(Given(ms, f)).Some?
    {
      FittingField(ms, f);
    }
  }

  lemma WrittenFits(v: Value, field: string)
    requires Printable(v) && FitsField(v, field)
    ensures Fits(Written(v), field)
  {
    if v.Int? {
      ParseUndoesFormat(v.i);
    }
  }

  lemma {:induction false} WrittenMembersFit(tree: Value, keys: seq<string>)
    requires tree.Obj? && Printable(tree) && IsTyped(tree) && forall k <- keys :: k in tree.fields
    ensures MembersFit(WrittenMembers(tree, keys))
  {
    hide Names, Fits, FitsField, Written;
    if keys != [] {
      var n := |keys| - 1;
      var k := keys[n];
      WrittenMembersFit(tree, keys[..n]);
      forall f | f in FIELDS && Names(k, f)
        ensures Fits(Written(tree.fields[k]), f)
      {
        assert Printable(tree.fields[k]);
        WrittenFits(tree.fields[k], f);
      }
    }
  }

  /** A document of the tree in which some members come last. */
  ghost function EndingIn(tree: Value, gone: set<string>, tail: seq<Member>): Wire
    requires tree.Obj? && gone <= tree.fields.Keys
  {
    SortedKeysHoldTheKeys(tree.fields.Keys - gone);
    WObject(WrittenMembers(tree, SortedKeys(tree.fields.Keys - gone)) + tail)
  }

  lemma EndingInReads(tree: Value, gone: set<string>, tail: seq<Member>, field: string)
    requires tree.Obj? && Printable(tree) && IsTyped(tree) && gone <= tree.fields.Keys
    requires DecodedMembers(tail) == map k | k in gone :: Spelled(tree.fields[k])
    requires MembersFit(tail)
    ensures IsReading(EndingIn(tree, gone, tail), tree)
    ensures exists before: seq<Wire> :: Given(EndingIn(tree, gone, tail).members, field) == before + Given(tail, field)
  {
    hide Names, Given, FieldsFit, SignedTree, DecodedMembers, WrittenMembers, Printable, IsTyped;
    var keys := SortedKeys(tree.fields.Keys - gone);
    SortedKeysHoldTheKeys(tree.fields.Keys - gone);
    TreeOfWrittenRest(tree, gone, tail);
    var rest := WrittenMembers(tree, keys);
    WrittenMembersFit(tree, keys);
    FitsTogether(rest, tail);
    FittingMembersUnmarshal(rest + tail);
    GivenAppend(rest, tail, field);
  }

  lemma FitsTogether(a: seq<Member>, b: seq<Member>)
    requires MembersFit(a) && MembersFit(b)
    ensures MembersFit(a + b)
  {
    hide Names, Fits;
    assert forall m <- a + b :: m in a || m in b;
  }

  lemma FoldOfAscii(s: string)
    requires s != "" && forall c <- s :: c as int < 0x80
    ensures |Fold(s)| == |s| && Fold(s)[0] == FoldRune(s[0] as int)
  {
    RunesOfAscii(s);
  }

  lemma {:induction false} RunesOfAscii(s: string)
    requires forall c <- s :: c as int < 0x80
    ensures |Runes(s)| == |s| && (s != "" ==> Runes(s)[0] == s[0] as int)
  {
    if s != "" {
      assert s[0] in s && DecodeRune(s) == (s[0] as int, 1);
      assert forall c <- s[1..] :: c in s;
      RunesOfAscii(s[1..]);
    }
  }

  lemma FoldOfField(f: string)
    requires f in FIELDS
    ensures |Fold(f)| == |f| && Fold(f)[0] == FoldRune(f[0] as int)
  {
    hide Fold, FoldRune;
    FoldOfAscii(f);
  }

  /** No key names two fields. */
  lemma FieldsFoldApart(key: string, f: string, g: string)
    requires f in FIELDS && g in FIELDS && Names(key, f) && Names(key, g)
    ensures f == g
  {
    hide Fold;
    FoldOfField(f);
    FoldOfField(g);
  }

  // --------------------------------------------- when a tree does not fix the mutation

  lemma TailOfNull(tree: Value, k: string, x: Wire)
    requires tree.Obj? && k in tree.fields && tree.fields[k] == Null
    ensures DecodedMembers([Member(k, x), Member(k, WNull)]) == map j | j in {k} :: Spelled(tree.fields[j])
  {
    var tail := [Member(k, x), Member(k, WNull)];
    assert tail[..1] == [Member(k, x)] && tail[..1][..0] == [];
    assert DecodedMembers(tail[..1]) == map[k := Decoded(x)];
  }

  lemma GivenByTail(k: string, l: string, x: Wire, y: Wire, field: string)
    requires Names(k, field) && Names(l, field)
    ensures Given([Member(k, x), Member(l, y)], field) == [x, y]
  {
    hide Names;
    var tail := [Member(k, x), Member(l, y)];
    assert tail[..1] == [Member(k, x)] && tail[..1][..0] == [];
    assert Given(tail[..1], field) == [x];
  }

  /** A null can be preceded by any value that fits, and then that value counts. */
  lemma NullIsOverridden(tree: Value, field: string, k: string, x: Wire) returns (w: Wire, before: seq<Wire>)
    requires Printable(tree) && IsTyped(tree) && tree.Obj? && field in FIELDS
    requires k in tree.fields && Names(k, field) && tree.fields[k] == Null && Fits(x, field)
    ensures w.WObject? && IsReading(w, tree) && Given(w.members, field) == before + [x, WNull]
  {
    hide Names, Given, FieldsFit, SignedTree, DecodedMembers, WrittenMembers, Printable, IsTyped, Fits, IsReading;
    var tail := [Member(k, x), Member(k, WNull)];
    w := EndingIn(tree, {k}, tail);
    TailOfNull(tree, k, x);
    NullFits(field);
    TailFits(k, k, x, WNull, field);
    EndingInReads(tree, {k}, tail, field);
    GivenByTail(k, k, x, WNull, field);
    before :| Given(w.members, field) == before + Given(tail, field);
  }

  lemma NullFits(field: string)
    ensures Fits(WNull, field)
  {
  }

  lemma TailFits(k: string, l: string, x: Wire, y: Wire, field: string)
    requires field in FIELDS && Names(k, field) && Names(l, field) && Fits(x, field) && Fits(y, field)
    ensures MembersFit([Member(k, x), Member(l, y)])
  {
    hide Names, Fits;
    forall f | f in FIELDS && (Names(k, f) || Names(l, f))
      ensures f == field
    {
      if Names(k, f) {
        FieldsFoldApart(k, f, field);
      } else {
        FieldsFoldApart(l, f, field);
      }
    }
  }

  /** Of two keys that name a field either can come last. */
  lemma OrderIsOpen(tree: Value, field: string, k: string, l: string) returns (w: Wire, before: seq<Wire>)
    requires Printable(tree) && IsTyped(tree) && tree.Obj? && field in FIELDS
    requires k in tree.fields && l in tree.fields && k != l && Names(k, field) && Names(l, field)
    ensures w.WObject? && IsReading(w, tree)
    ensures Given(w.members, field) == before + [Written(tree.fields[k]), Written(tree.fields[l])]
  {
    hide Names, Given, FieldsFit, SignedTree, DecodedMembers, WrittenMembers, Fits, IsReading, Written;
    var x, y := Written(tree.fields[k]), Written(tree.fields[l]);
    assert Printable(tree.fields[k]) && Printable(tree.fields[l]);
    WrittenFits(tree.fields[k], field);
    WrittenFits(tree.fields[l], field);
    var tail := [Member(k, x), Member(l, y)];
    w := EndingIn(tree, {k, l}, tail);
    TailOfTwo(tree, k, l);
    TailFits(k, l, x, y, field);
    EndingInReads(tree, {k, l}, tail, field);
    GivenByTail(k, l, x, y, field);
    before :| Given(w.members, field) == before + Given(tail, field);
  }

  lemma TailOfTwo(tree: Value, k: string, l: string)
    requires tree.Obj? && k in tree.fields && l in tree.fields && k != l
    ensures DecodedMembers([Member(k, Written(tree.fields[k])), Member(l, Written(tree.fields[l]))])
         == map j | j in {k, l} :: Spelled(tree.fields[j])
  {
    hide Written, Spelled, Decoded;
    var tail := [Member(k, Written(tree.fields[k])), Member(l, Written(tree.fields[l]))];
    assert tail[..1] == [tail[0]] && tail[..1][..0] == [];
    DecodedWritten(tree.fields[k]);
    DecodedWritten(tree.fields[l]);
    assert DecodedMembers(tail[..1]) == map[k := Spelled(tree.fields[k])];
  }

  /** What the last value of a field makes of it. */
  lemma LastValueCounts(ds: seq<Wire>, x: Wire, y: Wire)
    ensures x.WString? && y.WNull? && StringOf(ds + [x, y]).Some? ==> StringOf(ds + [x, y]) == Some(x.s)
    ensures x.WNumber? && y.WNull? && IntOf(ds + [x, y]).Some? ==> IntOf(ds + [x, y]) == ParseInt64(x.literal)
    ensures y.WString? && StringOf(ds + [x, y]).Some? ==> StringOf(ds + [x, y]) == Some(y.s)
    ensures y.WNumber? && IntOf(ds + [x, y]).Some? ==> IntOf(ds + [x, y]) == ParseInt64(y.literal)
    ensures RawOf(ds + [x, y]) == Some(y)
  {
    hide ParseInt64;
    var all := ds + [x, y];
    assert all[..|all| - 1] == ds + [x] && (ds + [x])[..|ds|] == ds;
  }

  lemma FieldsOfView(w: Wire, tree: Value, field: string)
    requires w.WObject? && IsReading(w, tree) && field in FIELDS
    ensures FieldsFit(w.members) && TypedView(w).value == Filled(w.members)
    ensures field in STRING_FIELDS ==> StringOf(Given(w.members, field)).Some?
    ensures field in INT_FIELDS ==> IntOf(Given(w.members, field)).Some?
  {
    hide Given, StringOf, IntOf, SignedTree;
  }

  /** Documents that fill some field differently do not mean the same. */
  lemma DifferentFields(ms: seq<Member>, ns: seq<Member>, field: string)
    requires FieldsFit(ms) && FieldsFit(ns) && field in FIELDS && SameMeaning(Filled(ms), Filled(ns))
    ensures field in STRING_FIELDS ==> StringOf(Given(ms, field)) == StringOf(Given(ns, field))
    ensures field in INT_FIELDS ==> IntOf(Given(ms, field)) == IntOf(Given(ns, field))
    ensures field == "params" ==>
              var p, q := RawOf(Given(ms, field)), RawOf(Given(ns, field));
              (p.None? <==> q.None?) && (p.Some? ==> SignedTree(p.value) == SignedTree(q.value))
  {
    hide Given, StringOf, IntOf, SignedTree;
  }

  lemma Small(literal: string, i: int)
    requires (literal == "0" && i == 0) || (literal == "1" && i == 1)
    ensures ParseInt64(literal) == Some(i)
  {
    assert Unsigned(literal) == literal && literal[..0] == "" && DigitsValue("") == 0;
    assert DigitsValue(literal) == i;
  }

  lemma NullLeavesOpen(tree: Value, field: string, k: string)
    requires Printable(tree) && IsTyped(tree) && tree.Obj? && field in FIELDS && field != "params"
    requires k in tree.fields && Names(k, field) && tree.fields[k] == Null
    ensures !FixesMutation(tree)
  {
    hide Names, Given, FieldsFit, SignedTree, Printable, IsTyped, IsReading, SameMeaning, StringOf, IntOf, ParseInt64;
    Small("0", 0);
    Small("1", 1);
    var x, y := if field in STRING_FIELDS then WString("") else WNumber("0"),
                if field in STRING_FIELDS then WString("x") else WNumber("1");
    var w1, b1 := NullIsOverridden(tree, field, k, x);
    var w2, b2 := NullIsOverridden(tree, field, k, y);
    FieldsOfView(w1, tree, field);
    FieldsOfView(w2, tree, field);
    LastValueCounts(b1, x, WNull);
    LastValueCounts(b2, y, WNull);
    if FixesMutation(tree) {
      DifferentFields(w1.members, w2.members, field);
    }
  }

  lemma DisagreementLeavesOpen(tree: Value, field: string, k: string, l: string)
    requires Printable(tree) && IsTyped(tree) && tree.Obj? && field in FIELDS
    requires k in tree.fields && l in tree.fields && Names(k, field) && Names(l, field)
    requires tree.fields[k] != tree.fields[l]
    requires field == "params" || (!tree.fields[k].Null? && !tree.fields[l].Null?)
    ensures !FixesMutation(tree)
  {
    hide Names, Given, FieldsFit, SignedTree, IsReading, SameMeaning, StringOf, IntOf, ParseInt64;
    var w1, b1 := OrderIsOpen(tree, field, k, l);
    var w2, b2 := OrderIsOpen(tree, field, l, k);
    var x, y := Written(tree.fields[k]), Written(tree.fields[l]);
    FieldsOfView(w1, tree, field);
    FieldsOfView(w2, tree, field);
    LastValueCounts(b1, x, y);
    LastValueCounts(b2, y, x);
    WrittenIsRead(tree.fields[k]);
    WrittenIsRead(tree.fields[l]);
    if FixesMutation(tree) {
      DifferentFields(w1.members, w2.members, field);
    }
  }

  lemma WrittenIsRead(v: Value)
    requires Printable(v)
    ensures SignedTree(Written(v)) == Some(v)
    ensures v.Int? ==> Written(v).WNumber? && ParseInt64(Written(v).literal) == Some(v.i)
    ensures v.Str? ==> Written(v) == WString(v.s)
  {
    DecodedWritten(v);
    NormalizeUndoesSpelling(v);
    if v.Int? {
      ParseUndoesFormat(v.i);
    }
  }

  lemma AmbiguityLeavesOpen(tree: Value, field: string)
    requires Printable(tree) && IsTyped(tree) && field in FIELDS && !IsClear(tree, field)
    ensures !FixesMutation(tree)
  {
    hide Names, Printable, IsTyped, FixesMutation;
    var k, l :| k in tree.fields && l in tree.fields && Names(k, field) && Names(l, field)
      && !(tree.fields[k] == tree.fields[l] && (tree.fields[k].Null? ==> field == "params"));
    if field != "params" && tree.fields[k].Null? {
      NullLeavesOpen(tree, field, k);
    } else if field != "params" && tree.fields[l].Null? {
      NullLeavesOpen(tree, field, l);
    } else {
      DisagreementLeavesOpen(tree, field, k, l);
    }
  }

  /** The signed tree determines the mutation exactly when each field is named by no key
      or by keys of one value, and that value is not null (for params it may be). */
  lemma TreeFixesMutationIff(tree: Value)
    requires Printable(tree) && IsTyped(tree)
    ensures FixesMutation(tree) <==> IsUnambiguous(tree)
  {
    hide Printable, IsTyped, SameMeaning, IsClear, SignedTree, TypedView;
    if IsUnambiguous(tree) {
      forall w1: Wire, w2: Wire | IsReading(w1, tree) && IsReading(w2, tree)
        ensures SameMeaning(TypedView(w1).value, TypedView(w2).value)
      {
        UnambiguousFixesMutation(tree, w1, w2);
      }
    } else {
      var f :| f in FIELDS && !IsClear(tree, f);
      AmbiguityLeavesOpen(tree, f);
    }
  }

  /** A pair it happens to: one tree and one signed text, two operations. */
  lemma OrderDecidesTheOperation() returns (w1: Wire, w2: Wire)
    ensures SignedTree(w1).Some? && SignedTree(w1) == SignedTree(w2)
    ensures TypedView(w1).Some? && TypedView(w2).Some?
    ensures TypedView(w1).value.op == "b" && TypedView(w2).value.op == "a"
  {
    hide Names, Given, StringOf, IntOf, FieldsFit, MembersFit;
    var a, b := WString("a"), WString("b");
    var ms, ns := [Member("op", a), Member("Op", b)], [Member("Op", b), Member("op", a)];
    w1, w2 := WObject(ms), WObject(ns);
    OpIsNamedTwice();
    TailFits("op", "Op", a, b, "op");
    TailFits("Op", "op", b, a, "op");
    FittingMembersUnmarshal(ms);
    FittingMembersUnmarshal(ns);
    TwoMembers("op", "Op", a, b);
    TwoMembers("Op", "op", b, a);
    assert map["op" := JString("a"), "Op" := JString("b")] == map["Op" := JString("b"), "op" := JString("a")];
    assert IsIntegral(Decoded(w1)) && Decoded(w1) == Decoded(w2);
    GivenByTail("op", "Op", a, b, "op");
    GivenByTail("Op", "op", b, a, "op");
    OpIsFit(ms);
    OpIsFit(ns);
    LastValueCounts([], a, b);
    LastValueCounts([], b, a);
    assert [] + [a, b] == [a, b] && [] + [b, a] == [b, a];
  }

  lemma OpIsFit(ms: seq<Member>)
    requires FieldsFit(ms)
    ensures StringOf(Given(ms, "op")).Some? && Filled(ms).op == StringOf(Given(ms, "op")).value
  {
  }

  lemma OpIsNamedTwice()
    ensures Names("op", "op") && Names("Op", "op") && "op" != "Op" && "op" in FIELDS
  {
    assert "op"[1..] == "p" == "Op"[1..] && "p"[1..] == "";
    assert DecodeRune("Op") == ('O' as int, 1) && DecodeRune("op") == ('o' as int, 1) && DecodeRune("p") == ('p' as int, 1);
    assert Runes("p") == ['p' as int] + Runes("");
    assert Runes("op") == ['o' as int] + Runes("p") && Runes("Op") == ['O' as int] + Runes("p");
  }

  lemma TwoMembers(k: string, l: string, x: Wire, y: Wire)
    requires k != l && x.WString? && y.WString?
    ensures Decoded(WObject([Member(k, x), Member(l, y)])) == JObject(map[k := JString(x.s), l := JString(y.s)])
  {
    var ms := [Member(k, x), Member(l, y)];
    assert ms[..1] == [ms[0]] && ms[..1][..0] == [];
    assert DecodedMembers(ms[..1]) == map[k := Decoded(x)];
    assert DecodedMembers(ms) == map[k := Decoded(x)][l := Decoded(y)];
  }

  // ------------------------------------------------------ which member fills which field

  /** The last member that names the field and is not null. */
  ghost predicate SaidLast(ms: seq<Member>, field: string, i: nat) {
    && i < |ms| && Names(ms[i].key, field) && !ms[i].value.WNull?
    && forall j | i < j < |ms| && Names(ms[j].key, field) :: ms[j].value.WNull?
  }

  /** Nothing but nulls for the field. */
  ghost predicate Unsaid(ms: seq<Member>, field: string) {
    forall m <- ms | Names(m.key, field) :: m.value.WNull?
  }

  ghost predicate FillsString(ms: seq<Member>, field: string, s: string) {
    && (forall i: nat | SaidLast(ms, field, i) :: ms[i].value == WString(s))
    && (Unsaid(ms, field) ==> s == "")
  }

  ghost predicate FillsInt(ms: seq<Member>, field: string, n: int) {
    && (forall i: nat | SaidLast(ms, field, i) :: ms[i].value.WNumber? && ParseInt64(ms[i].value.literal) == Some(n))
    && (Unsaid(ms, field) ==> n == 0)
  }

  lemma SaidLastStep(ms: seq<Member>, field: string)
    requires ms != []
    ensures var n := |ms| - 1;
            && (Names(ms[n].key, field) && !ms[n].value.WNull? ==> forall i: nat :: SaidLast(ms, field, i) <==> i == n)
            && (!(Names(ms[n].key, field) && !ms[n].value.WNull?) ==>
                  (forall i: nat :: SaidLast(ms, field, i) ==> SaidLast(ms[..n], field, i) && ms[..n][i] == ms[i])
                  && (Unsaid(ms, field) <==> Unsaid(ms[..n], field)))
  {
    hide Names;
    var n := |ms| - 1;
    assert ms == ms[..n] + [ms[n]] && ms[n] in ms;
  }

  lemma {:induction false} StringIsFilled(ms: seq<Member>, field: string)
    requires StringOf(Given(ms, field)).Some?
    ensures FillsString(ms, field, StringOf(Given(ms, field)).value)
  {
    hide Names, SaidLast;
    if ms != [] {
      var n := |ms| - 1;
      var ds := Given(ms[..n], field);
      SaidLastStep(ms, field);
      assert ms[n] in ms;
      if Names(ms[n].key, field) {
        assert Given(ms, field) == ds + [ms[n].value] && (ds + [ms[n].value])[..|ds|] == ds;
      } else {
        assert ds + [] == ds;
      }
      StringIsFilled(ms[..n], field);
    } else {
      NothingSaid(field);
    }
  }

  lemma NothingSaid(field: string)
    ensures forall i: nat :: !SaidLast([], field, i)
  {
  }

  lemma {:induction false} IntIsFilled(ms: seq<Member>, field: string)
    requires IntOf(Given(ms, field)).Some?
    ensures FillsInt(ms, field, IntOf(Given(ms, field)).value)
  {
    hide Names, SaidLast, ParseInt64;
    if ms != [] {
      var n := |ms| - 1;
      var ds := Given(ms[..n], field);
      SaidLastStep(ms, field);
      assert ms[n] in ms;
      if Names(ms[n].key, field) {
        assert Given(ms, field) == ds + [ms[n].value] && (ds + [ms[n].value])[..|ds|] == ds;
        if ms[n].value.WNull? {
          IntIsFilled(ms[..n], field);
        }
      } else {
        assert ds + [] == ds;
        IntIsFilled(ms[..n], field);
      }
    } else {
      NothingSaid(field);
    }
  }

  /** Each field of the struct is what the last member of its own key says, nulls aside. */
  lemma EveryFieldIsFilled(ms: seq<Member>)
    requires TypedView(WObject(ms)).Some?
    ensures var m := TypedView(WObject(ms)).value;
            && FillsInt(ms, "v", m.version) && FillsInt(ms, "iat", m.iat) && FillsInt(ms, "exp", m.exp)
            && FillsString(ms, "device_id", m.deviceId) && FillsString(ms, "op", m.op)
            && FillsString(ms, "nonce", m.nonce) && FillsString(ms, "key_id", m.keyId)
    ensures var m := TypedView(WObject(ms)).value;
            && (m.params.None? <==> forall i | 0 <= i < |ms| :: !Names(ms[i].key, "params"))
            && forall i | 0 <= i < |ms| && Names(ms[i].key, "params") ::
                 (forall j | i < j < |ms| :: !Names(ms[j].key, "params")) ==> m.params == Some(ms[i].value)
  {
    hide Names, Given, StringOf, IntOf, FillsInt, FillsString;
    forall f | f in STRING_FIELDS
      ensures FillsString(ms, f, StringOf(Given(ms, f)).value)
    {
      StringIsFilled(ms, f);
    }
    forall f | f in INT_FIELDS
      ensures FillsInt(ms, f, IntOf(Given(ms, f)).value)
    {
      IntIsFilled(ms, f);
    }
    RawIsLast(ms, "params");
  }

  lemma {:induction false} RawIsLast(ms: seq<Member>, field: string)
    ensures RawOf(Given(ms, field)).None? <==> forall i | 0 <= i < |ms| :: !Names(ms[i].key, field)
    ensures forall i | 0 <= i < |ms| && Names(ms[i].key, field) ::
              (forall j | i < j < |ms| :: !Names(ms[j].key, field)) ==> RawOf(Given(ms, field)) == Some(ms[i].value)
  {
    hide Names;
    if ms != [] {
      var n := |ms| - 1;
      RawIsLast(ms[..n], field);
      var ds := Given(ms[..n], field);
      assert ds + [] == ds;
    }
  }

  lemma {:induction false} RunesBehindAscii(a: string, x: string)
    requires forall i | 0 <= i < |a| :: a[i] as int < 0x80
    ensures |Runes(a + x)| == |a| + |Runes(x)| && Runes(a + x)[|a|..] == Runes(x)
    ensures forall i | 0 <= i < |a| :: Runes(a + x)[i] == a[i] as int
  {
    if a == "" {
      assert a + x == x;
    } else {
      assert DecodeRune(a + x) == (a[0] as int, 1);
      assert (a + x)[1..] == a[1..] + x;
      RunesBehindAscii(a[1..], x);
    }
  }

  /** An ASCII key names what it spells in either case. */
  lemma AsciiNames(key: string, field: string)
    requires forall i | 0 <= i < |key| :: key[i] as int < 0x80
    requires forall i | 0 <= i < |field| :: field[i] as int < 0x80
    ensures Names(key, field)
       <==> |key| == |field| && forall i | 0 <= i < |key| :: FoldRune(key[i] as int) == FoldRune(field[i] as int)
  {
    assert key + "" == key && field + "" == field;
    RunesBehindAscii(key, "");
    RunesBehindAscii(field, "");
    if Names(key, field) {
      assert forall i | 0 <= i < |key| :: Fold(key)[i] == Fold(field)[i];
    }
  }

  /** Keys match up to case. */
  lemma KeysFold()
    ensures Names("NONCE", "nonce") && Names("Iat", "iat") && !Names("nonces", "nonce") && !Names("i\0t", "iat")
  {
    hide Names;
    AsciiNames("NONCE", "nonce");
    AsciiNames("Iat", "iat");
    AsciiNames("nonces", "nonce");
    AsciiNames("i\0t", "iat");
    assert FoldRune("i\0t"[1] as int) != FoldRune("iat"[1] as int);
  }

  /** And beyond ASCII in two letters: the long s and the Kelvin sign. */
  lemma TwoMoreLettersFold()
    ensures Names("param\U{C5}\U{BF}", "params") && Names("\U{E2}\U{84}\U{AA}ey_id", "key_id")
  {
    LongSAndKelvin();
    LastLetter("param", "\U{C5}\U{BF}", "s");
    FirstLetter("\U{E2}\U{84}\U{AA}", "k", "ey_id");
    hide Names;
    assert "param" + "\U{C5}\U{BF}" == "param\U{C5}\U{BF}" && "param" + "s" == "params";
    assert "\U{E2}\U{84}\U{AA}" + "ey_id" == "\U{E2}\U{84}\U{AA}ey_id" && "k" + "ey_id" == "key_id";
  }

  lemma LastLetter(a: string, x: string, y: string)
    requires (forall i | 0 <= i < |a| :: a[i] as int < 0x80) && Names(x, y)
    ensures Names(a + x, a + y)
  {
    hide Runes;
    RunesBehindAscii(a, x);
    RunesBehindAscii(a, y);
    var rs, qs := Runes(a + x), Runes(a + y);
    assert |Fold(x)| == |Fold(y)|;
    forall i | 0 <= i < |rs|
      ensures FoldRune(rs[i]) == FoldRune(qs[i])
    {
      if i >= |a| {
        assert rs[i] == Runes(x)[i - |a|] && qs[i] == Runes(y)[i - |a|];
        assert Fold(x)[i - |a|] == Fold(y)[i - |a|];
      }
    }
  }

  lemma FirstLetter(x: string, y: string, a: string)
    requires x != "" && y != "" && DecodeRune(x + a).1 == |x| && DecodeRune(y + a).1 == |y|
    requires FoldRune(DecodeRune(x + a).0) == FoldRune(DecodeRune(y + a).0)
    ensures Names(x + a, y + a)
  {
    hide DecodeRune;
    assert (x + a)[|x|..] == a && (y + a)[|y|..] == a;
    assert Runes(x + a) == [DecodeRune(x + a).0] + Runes(a);
    assert Runes(y + a) == [DecodeRune(y + a).0] + Runes(a);
  }

  lemma LongSAndKelvin()
    ensures Names("\U{C5}\U{BF}", "s")
    ensures DecodeRune("\U{E2}\U{84}\U{AA}" + "ey_id") == (0x212A, 3)
  {
    var s := "\U{C5}\U{BF}";
    assert DecodeRune(s) == (0x17F, 2) && s[2..] == "";
    assert Runes(s) == [0x17F] && Runes("s") == ['s' as int] + Runes("s"[1..]);
    var k := "\U{E2}\U{84}\U{AA}" + "ey_id";
    assert k[0] == '\U{E2}' && k[1] == '\U{84}' && k[2] == '\U{AA}';
  }
}
