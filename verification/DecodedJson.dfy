// From the JSON of a mutation to the tree that is printed and signed (`decodeJSON` and
// `normalize` of internal/signedmut/envelope.go). Of members with one key the last
// counts; numbers arrive as literals and leave as int64 values, or not at all.
module DecodedJson {
  import opened Jcs
  import opened JcsReader
  import opened MachineInts
  import opened Utf16Order
  import opened Utf8
  import opened Wrappers

  /** A JSON document as written: the members of an object in order, repetitions included. */
  datatype Wire =
    | WNull
    | WBool(b: bool)
    | WNumber(literal: string)
    | WString(s: string)
    | WArray(elems: seq<Wire>)
    | WObject(members: seq<Member>)

  datatype Member = Member(key: string, value: Wire)

  /** What `encoding/json` decodes it to with `UseNumber`. */
  datatype Json =
    | JNull
    | JBool(b: bool)
    | JNumber(literal: string)
    | JString(s: string)
    | JArray(elems: seq<Json>)
    | JObject(fields: map<string, Json>)

  function Decoded(w: Wire): Json
    decreases w
  {
    match w
    case WNull => JNull
    case WBool(b) => JBool(b)
    case WNumber(literal) => JNumber(literal)
    case WString(s) => JString(s)
    case WArray(es) => JArray(seq(|es|, i requires 0 <= i < |es| => Decoded(es[i])))
    case WObject(ms) => JObject(DecodedMembers(ms))
  }

  function DecodedMembers(ms: seq<Member>): map<string, Json>
    decreases ms
  {
    if ms == [] then map[]
    else DecodedMembers(ms[..|ms| - 1])[ms[|ms| - 1].key := Decoded(ms[|ms| - 1].value)]
  }

  predicate AllDigits(s: string) {
    forall i | 0 <= i < |s| :: IsDigit(s[i])
  }

  function DigitsValue(s: string): (value: int)
    requires AllDigits(s)
    ensures value >= 0
  {
    if s == "" then 0 else DigitsValue(s[..|s| - 1]) * 10 + (s[|s| - 1] as int - '0' as int)
  }

  function Unsigned(literal: string): string {
    if literal != "" && (literal[0] == '-' || literal[0] == '+') then literal[1..] else literal
  }

  /** `json.Number.Int64`, that is `strconv.ParseInt` in base ten. */
  function ParseInt64(literal: string): (r: Option<int>)
    ensures r.Some? ==> IsInt64(r.value)
  {
    if Unsigned(literal) == "" || !AllDigits(Unsigned(literal)) then None
    else if IsInt64(SignedValue(literal)) then Some(SignedValue(literal))
    else None
  }

  function SignedValue(literal: string): int
    requires AllDigits(Unsigned(literal))
  {
    if literal != "" && literal[0] == '-' then -DigitsValue(Unsigned(literal)) else DigitsValue(Unsigned(literal))
  }

  /** Every number in the document is an integer that fits. */
  predicate IsIntegral(d: Json) {
    match d
    case JNumber(literal) => ParseInt64(literal).Some?
    case JArray(es) => forall i | 0 <= i < |es| :: IsIntegral(es[i])
    case JObject(m) => forall k | k in m :: IsIntegral(m[k])
    case _ => true
  }

  function Tree(d: Json): Value
    requires IsIntegral(d)
  {
    match d
    case JNull => Null
    case JBool(b) => Bool(b)
    case JNumber(literal) => Int(ParseInt64(literal).value)
    case JString(s) => Str(s)
    case JArray(es) => Arr(seq(|es|, i requires 0 <= i < |es| => Tree(es[i])))
    case JObject(m) => Obj(map k | k in m :: Tree(m[k]))
  }

  /** The tree a document is signed as, unless it is refused. */
  function SignedTree(w: Wire): Option<Value> {
    if IsIntegral(Decoded(w)) then Some(Tree(Decoded(w))) else None
  }

  method DecodeJson(w: Wire) returns (v: Option<Value>)
    ensures v == SignedTree(w)
  {
    v := Normalize(Decoded(w));
  }

  /** Replaces every number of a document by its value, or refuses the document. */
  method Normalize(d: Json) returns (v: Option<Value>)
    ensures v == if IsIntegral(d) then Some(Tree(d)) else None
    decreases d
  {
    match d
    case JNull => return Some(Null);
    case JBool(b) => return Some(Bool(b));
    case JString(s) => return Some(Str(s));
    case JNumber(literal) =>
      var i := ParseInt64(literal);
      return if i.Some? then Some(Int(i.value)) else None;
    case JArray(es) =>
      var out: seq<Value> := [];
      for i := 0 to |es|
        invariant |out| == i && forall j | 0 <= j < i :: IsIntegral(es[j]) && out[j] == Tree(es[j])
      {
        var n := Normalize(es[i]);
        if n.None? {
          return None;
        }
        out := out + [n.value];
      }
      assert Arr(out) == Tree(d);
      return Some(Arr(out));
    case JObject(m) =>
      var out: map<string, Value> := map[];
      var left := m.Keys;
      while left != {}
        invariant left <= m.Keys && out.Keys == m.Keys - left
        invariant forall k | k in out :: IsIntegral(m[k]) && out[k] == Tree(m[k])
        decreases left
      {
        var k :| k in left;
        var n := Normalize(m[k]);
        if n.None? {
          return None;
        }
        out := out[k := n.value];
        left := left - {k};
      }
      assert IsIntegral(d);
      assert Tree(d) == Obj(map k | k in m :: Tree(m[k]));
      assert out.Keys == m.Keys;
      assert out == (map k | k in m :: Tree(m[k]));
      return Some(Obj(out));
  }

  // -------------------------------------------------------------- printing and decoding

  /** The document a printed tree decodes to: the same tree, its integers spelled out. */
  function Spelled(v: Value): Json {
    match v
    case Null => JNull
    case Bool(b) => JBool(b)
    case Int(i) => JNumber(FormatInt(i))
    case Str(s) => JString(s)
    case Arr(es) => JArray(seq(|es|, i requires 0 <= i < |es| => Spelled(es[i])))
    case Obj(m) => JObject(map k | k in m :: Spelled(m[k]))
  }

  lemma {:induction false} DigitsOfDecimal(n: nat)
    ensures Decimal(n) != "" && AllDigits(Decimal(n)) && DigitsValue(Decimal(n)) == n
  {
    if n < 10 {
      assert Decimal(n)[..0] == "" && DigitsValue("") == 0;
    } else {
      DigitsOfDecimal(n / 10);
      var s := Decimal(n);
      assert s[..|s| - 1] == Decimal(n / 10) && s[|s| - 1] == Digit(n % 10);
    }
  }

  /** Exactly the integers that fit an int64 survive being spelled and parsed. */
  lemma ParseUndoesFormat(i: int)
    ensures ParseInt64(FormatInt(i)) == if IsInt64(i) then Some(i) else None
  {
    hide Decimal, DigitsValue, AllDigits;
    var digits := Decimal(if i < 0 then -i else i);
    DigitsOfDecimal(if i < 0 then -i else i);
    FirstDigit(digits);
    assert ("-" + digits)[1..] == digits;
  }

  lemma FirstDigit(s: string)
    requires s != "" && AllDigits(s)
    ensures s[0] != '-' && s[0] != '+'
  {
    assert IsDigit(s[0]);
  }

  /** Whatever the printer accepts is decoded back unchanged, so what is signed is what
      is read again from its own canonical text. */
  lemma {:induction false} NormalizeUndoesSpelling(v: Value)
    requires Printable(v)
    ensures IsIntegral(Spelled(v)) && Tree(Spelled(v)) == v
  {
    match v
    case Int(i) => ParseUndoesFormat(i);
    case Arr(es) =>
      forall i | 0 <= i < |es|
        ensures IsIntegral(Spelled(es[i])) && Tree(Spelled(es[i])) == es[i]
      {
        NormalizeUndoesSpelling(es[i]);
      }
    case Obj(m) =>
      forall k | k in m
        ensures IsIntegral(Spelled(m[k])) && Tree(Spelled(m[k])) == m[k]
      {
        NormalizeUndoesSpelling(m[k]);
      }
    case _ =>
  }

  /** Two documents hold the same values: all but the spelling of their numbers agrees. */
  predicate SameValues(d: Json, e: Json) {
    match d
    case JNumber(literal) => e.JNumber? && ParseInt64(literal) == ParseInt64(e.literal)
    case JArray(es) => e.JArray? && |es| == |e.elems| && forall i | 0 <= i < |es| :: SameValues(es[i], e.elems[i])
    case JObject(m) => e.JObject? && m.Keys == e.fields.Keys && forall k | k in m :: SameValues(m[k], e.fields[k])
    case _ => d == e
  }

  lemma {:induction false} TreesAgreeIffValuesDo(d: Json, e: Json)
    requires IsIntegral(d) && IsIntegral(e)
    ensures Tree(d) == Tree(e) <==> SameValues(d, e)
  {
    if d.JArray? && e.JArray? && |d.elems| == |e.elems| {
      var s, t := Tree(d).elems, Tree(e).elems;
      forall i | 0 <= i < |d.elems|
        ensures s[i] == t[i] <==> SameValues(d.elems[i], e.elems[i])
      {
        TreesAgreeIffValuesDo(d.elems[i], e.elems[i]);
      }
      assert s == t <==> forall i | 0 <= i < |s| :: s[i] == t[i];
    } else if d.JObject? && e.JObject? && d.fields.Keys == e.fields.Keys {
      var s, t := Tree(d).fields, Tree(e).fields;
      forall k | k in d.fields
        ensures s[k] == t[k] <==> SameValues(d.fields[k], e.fields[k])
      {
        TreesAgreeIffValuesDo(d.fields[k], e.fields[k]);
      }
      assert s == t <==> forall k | k in s :: s[k] == t[k];
    } else if d.JArray? && e.JArray? {
      assert |Tree(d).elems| != |Tree(e).elems|;
    } else if d.JObject? && e.JObject? {
      assert Tree(d).fields.Keys == d.fields.Keys && Tree(e).fields.Keys == e.fields.Keys;
    }
  }

  /** A signature covers the values of a document and forgets how its numbers are spelled. */
  lemma SignedTextForgetsSpelling(d: Json, e: Json)
    requires IsIntegral(d) && IsIntegral(e) && Printable(Tree(d)) && Printable(Tree(e))
    ensures Canon(Tree(d)) == Canon(Tree(e)) <==> SameValues(d, e)
  {
    CanonicalTextIsInjective(Tree(d), Tree(e));
    TreesAgreeIffValuesDo(d, e);
  }

  // ------------------------------------------------------------- which literals pass

  /** RFC 8259, section 6: an integer part, and then perhaps a fraction and an exponent. */
  predicate IsNumberLiteral(literal: string) {
    exists n :: 0 < n <= |literal| && IsNumberLiteralAt(literal, n)
  }

  predicate IsNumberLiteralAt(literal: string, n: nat)
    requires 0 < n <= |literal|
  {
    var integer := if literal[0] == '-' then literal[1..n] else literal[..n];
    && integer != "" && AllDigits(integer) && (integer[0] == '0' ==> |integer| == 1)
    && (n < |literal| ==> literal[n] == '.' || literal[n] == 'e' || literal[n] == 'E')
  }

  /** Digits without a leading zero are the decimal form of their value. */
  lemma {:induction false} DecimalOfDigits(s: string)
    requires s != "" && AllDigits(s) && (s[0] == '0' ==> |s| == 1)
    ensures Decimal(DigitsValue(s)) == s
    ensures |s| > 1 ==> DigitsValue(s) >= 10
    ensures s[0] != '0' ==> DigitsValue(s) >= 1
  {
    var init, d := s[..|s| - 1], s[|s| - 1] as int - '0' as int;
    assert IsDigit(s[|s| - 1]) && s == init + [Digit(d)];
    if init == "" {
      assert DigitsValue(init) == 0;
    } else {
      DecimalOfDigits(init);
      assert DigitsValue(s) / 10 == DigitsValue(init) && DigitsValue(s) % 10 == d;
    }
  }

  /** A number passes as `i` exactly when it is written as the decimal form of `i`, an
      int64, or as `-0`: never with a fraction or an exponent. */
  lemma LiteralPassesIff(literal: string, i: int)
    requires IsNumberLiteral(literal)
    ensures ParseInt64(literal) == Some(i) <==> IsInt64(i) && (literal == FormatInt(i) || (i == 0 && literal == "-0"))
    ensures '.' in literal || 'e' in literal || 'E' in literal ==> ParseInt64(literal).None?
  {
    hide DigitsValue, Decimal;
    var n :| 0 < n <= |literal| && IsNumberLiteralAt(literal, n);
    ParseUndoesFormat(i);
    MinusZero();
    IntegerPart(literal, n);
    if n == |literal| {
      var digits := Unsigned(literal);
      DecimalOfDigits(digits);
      assert literal == if literal[0] == '-' then "-" + digits else digits;
      DigitsOfDecimal(0);
      assert DigitsValue(digits) == 0 ==> digits == Decimal(0);
      ZeroIsZero();
    }
  }

  lemma ZeroIsZero()
    ensures Decimal(0) == "0"
  {
  }

  lemma MinusZero()
    ensures ParseInt64("-0") == Some(0)
  {
    assert Unsigned("-0") == "0" && "0"[..0] == "" && DigitsValue("") == 0;
  }

  /** Without fraction and exponent the whole literal is its integer part. */
  lemma IntegerPart(literal: string, n: nat)
    requires 0 < n <= |literal| && IsNumberLiteralAt(literal, n)
    ensures n < |literal| ==> !AllDigits(Unsigned(literal))
    ensures n == |literal| ==>
              var digits := Unsigned(literal);
              digits != "" && AllDigits(digits) && (digits[0] == '0' ==> |digits| == 1)
              && '.' !in literal && 'e' !in literal && 'E' !in literal
  {
    var digits := Unsigned(literal);
    var sign := |literal| - |digits|;
    assert forall j | 0 <= j < |digits| :: digits[j] == literal[j + sign];
    if n < |literal| {
      assert digits[n - sign] == literal[n];
    } else {
      assert digits == if literal[0] == '-' then literal[1..n] else literal[..n];
    }
  }

  // --------------------------------------------------------- writing a given tree down

  lemma {:induction false} DecodedAppend(a: seq<Member>, b: seq<Member>)
    ensures DecodedMembers(a + b) == DecodedMembers(a) + DecodedMembers(b)
  {
    if b == [] {
      assert a + b == a;
    } else {
      var n := |b| - 1;
      assert (a + b)[..|a + b| - 1] == a + b[..n];
      DecodedAppend(a, b[..n]);
    }
  }

  /** Some document that decodes to a tree: the keys in canonical order, each once. */
  ghost function Written(v: Value): Wire
    decreases v
  {
    match v
    case Null => WNull
    case Bool(b) => WBool(b)
    case Int(i) => WNumber(FormatInt(i))
    case Str(s) => WString(s)
    case Arr(es) => WArray(seq(|es|, i requires 0 <= i < |es| => Written(es[i])))
    case Obj(m) => SortedKeysHoldTheKeys(m.Keys); WObject(WrittenMembers(v, SortedKeys(m.Keys)))
  }

  ghost function WrittenMembers(v: Value, keys: seq<string>): (ms: seq<Member>)
    requires v.Obj? && forall k <- keys :: k in v.fields
    ensures |ms| == |keys| && forall i | 0 <= i < |keys| :: ms[i].key == keys[i]
    decreases v, |keys|
  {
    if keys == [] then []
    else
      var k := keys[|keys| - 1];
      WrittenMembers(v, keys[..|keys| - 1]) + [Member(k, Written(v.fields[k]))]
  }

  lemma {:induction false} DecodedWritten(v: Value)
    ensures Decoded(Written(v)) == Spelled(v)
    decreases v
  {
    match v
    case Arr(es) =>
      DecodedWrittenElems(v);
    case Obj(m) =>
      DecodedWrittenFields(v);
    case _ =>
  }

  lemma {:induction false} DecodedWrittenFields(v: Value)
    requires v.Obj?
    ensures Decoded(Written(v)) == Spelled(v)
    decreases v, |v.fields| + 1
  {
    var keys := SortedKeys(v.fields.Keys);
    SortedKeysHoldTheKeys(v.fields.Keys);
    var ms := WrittenMembers(v, keys);
    assert Written(v) == WObject(ms);
    var fields := DecodedMembers(ms);
    assert Decoded(WObject(ms)) == JObject(fields);
    KeyCount(v.fields.Keys);
    DecodedWrittenMembers(v, keys);
    SpelledFields(v, fields);
  }

  lemma KeyCount(keys: set<string>)
    ensures |SortedKeys(keys)| == |keys|
  {
    assert |multiset(SortedKeys(keys))| == |multiset(keys)|;
  }

  lemma SpelledFields(v: Value, fields: map<string, Json>)
    requires v.Obj? && fields.Keys == v.fields.Keys && forall k | k in fields :: fields[k] == Spelled(v.fields[k])
    ensures JObject(fields) == Spelled(v)
  {
    assert fields == map k | k in v.fields :: Spelled(v.fields[k]);
  }

  lemma {:induction false} DecodedWrittenElems(v: Value)
    requires v.Arr?
    ensures Decoded(Written(v)) == Spelled(v)
    decreases v, 0
  {
    hide WrittenMembers, DecodedMembers;
    var es := v.elems;
    forall i | 0 <= i < |es|
      ensures Decoded(Written(es[i])) == Spelled(es[i])
    {
      DecodedWritten(es[i]);
    }
    var a, b := Decoded(Written(v)).elems, Spelled(v).elems;
    assert |a| == |b| && forall i | 0 <= i < |a| :: a[i] == b[i];
  }

  lemma {:induction false} DecodedWrittenMembers(v: Value, keys: seq<string>)
    requires v.Obj? && forall k <- keys :: k in v.fields
    ensures DecodedMembers(WrittenMembers(v, keys)) == map k | k in keys :: Spelled(v.fields[k])
    decreases v, |keys|
  {
    hide Written, Spelled, Decoded;
    if keys != [] {
      var n := |keys| - 1;
      var k := keys[n];
      DecodedWrittenMembers(v, keys[..n]);
      DecodedWritten(v.fields[k]);
      var ms := WrittenMembers(v, keys);
      assert ms[..n] == WrittenMembers(v, keys[..n]) && ms[n] == Member(k, Written(v.fields[k]));
      assert keys == keys[..n] + [k];
      assert DecodedMembers(ms) == DecodedMembers(ms[..n])[k := Spelled(v.fields[k])];
    }
  }

  /** The keys of an object but some, written down, and then those in whatever way. */
  lemma TreeOfWrittenRest(v: Value, gone: set<string>, tail: seq<Member>)
    requires v.Obj? && Printable(v) && gone <= v.fields.Keys
    requires DecodedMembers(tail) == map k | k in gone :: Spelled(v.fields[k])
    ensures forall k <- SortedKeys(v.fields.Keys - gone) :: k in v.fields
    ensures SignedTree(WObject(WrittenMembers(v, SortedKeys(v.fields.Keys - gone)) + tail)) == Some(v)
  {
    hide Printable, WrittenMembers, DecodedMembers, IsIntegral, Tree;
    var keys := SortedKeys(v.fields.Keys - gone);
    SortedKeysHoldTheKeys(v.fields.Keys - gone);
    var rest := WrittenMembers(v, keys);
    DecodedWrittenMembers(v, keys);
    DecodedAppend(rest, tail);
    assert DecodedMembers(rest + tail) == map k | k in v.fields :: Spelled(v.fields[k]);
    NormalizeUndoesSpelling(v);
  }
}
