// The canonical printer of internal/signedmut/jcs.go and a reader for the form
// it prints (RFC 8785, sections 3.2.2 and 3.2.3).
module Jcs {
  import opened Utf8
  import opened Utf16Order
  import opened Wrappers

  /** A decoded JSON value: the tree the signature is about. */
  datatype Value =
    | Null
    | Bool(b: bool)
    | Int(i: int)
    | Str(s: string)
    | Arr(elems: seq<Value>)
    | Obj(fields: map<string, Value>)

  const MAX_SAFE_INTEGER := 0x1F_FFFF_FFFF_FFFF

  // ------------------------------------------------------------ the canonical text

  function HexDigit(d: int): char
    requires 0 <= d < 16
  {
    "0123456789abcdef"[d]
  }

  /** The escape table of RFC 8785, section 3.2.2.2. */
  function EscapeByte(c: char): string {
    if c == '"' then "\\\""
    else if c == '\\' then "\\\\"
    else if c == '\U{08}' then "\\b"
    else if c == '\t' then "\\t"
    else if c == '\n' then "\\n"
    else if c == '\U{0C}' then "\\f"
    else if c == '\r' then "\\r"
    else if c < ' ' then "\\u00" + [HexDigit(c as int / 16), HexDigit(c as int % 16)]
    else [c]
  }

  function Escaped(s: string): string {
    EscapeBytes(s, EscapeByte)
  }

  function Quoted(s: string): string {
    "\"" + Escaped(s) + "\""
  }

  function Digit(d: int): char
    requires 0 <= d < 10
  {
    "0123456789"[d]
  }

  function Decimal(n: nat): string {
    if n < 10 then [Digit(n)] else Decimal(n / 10) + [Digit(n % 10)]
  }

  /** `strconv.FormatInt` in base ten. */
  function FormatInt(i: int): string {
    if i < 0 then "-" + Decimal(-i) else Decimal(i)
  }

  /** The trees the printer accepts: safe integers, and valid UTF-8 throughout. */
  ghost predicate Printable(v: Value) {
    match v
    case Null => true
    case Bool(_) => true
    case Int(i) => -MAX_SAFE_INTEGER <= i <= MAX_SAFE_INTEGER
    case Str(s) => Valid(s)
    case Arr(es) => forall j | 0 <= j < |es| :: Printable(es[j])
    case Obj(m) => forall k | k in m :: Valid(k) && Printable(m[k])
  }

  ghost function Canon(v: Value): string
    decreases v
  {
    match v
    case Null => "null"
    case Bool(b) => if b then "true" else "false"
    case Int(i) => FormatInt(i)
    case Str(s) => Quoted(s)
    case Arr(es) => "[" + CanonElems(v, 0) + "]"
    case Obj(m) => SortedKeysHoldTheKeys(m.Keys); "{" + CanonMembers(v, SortedKeys(m.Keys), 0) + "}"
  }

  ghost function CanonElems(v: Value, from: nat): string
    requires v.Arr? && from <= |v.elems|
    decreases v, |v.elems| - from + 1
  {
    if from == |v.elems| then ""
    else Separator(from) + Canon(v.elems[from]) + CanonElems(v, from + 1)
  }

  ghost function CanonMembers(v: Value, keys: seq<string>, from: nat): string
    requires v.Obj? && from <= |keys| && forall k | k in keys :: k in v.fields
    decreases v, |keys| - from + 1
  {
    if from == |keys| then ""
    else
      Separator(from) + Quoted(keys[from]) + ":" + Canon(v.fields[keys[from]])
      + CanonMembers(v, keys, from + 1)
  }

  function Separator(index: nat): string {
    if index > 0 then "," else ""
  }

  /** The two steps the printer's loops take. */
  lemma ElemsStep(text: string, v: Value, i: nat)
    requires v.Arr? && i < |v.elems|
    ensures text + CanonElems(v, i) == text + Separator(i) + Canon(v.elems[i]) + CanonElems(v, i + 1)
  {
    Regroup(text, Separator(i), Canon(v.elems[i]), CanonElems(v, i + 1));
  }

  lemma MembersStep(text: string, v: Value, keys: seq<string>, i: nat)
    requires v.Obj? && i < |keys| && forall k | k in keys :: k in v.fields
    ensures text + CanonMembers(v, keys, i)
         == text + Separator(i) + Quoted(keys[i]) + ":" + Canon(v.fields[keys[i]]) + CanonMembers(v, keys, i + 1)
  {
    var head := Separator(i) + Quoted(keys[i]);
    Regroup(text, head + ":", Canon(v.fields[keys[i]]), CanonMembers(v, keys, i + 1));
    Regroup(text, Separator(i), Quoted(keys[i]), ":");
  }

  lemma Regroup(a: string, b: string, c: string, d: string)
    ensures a + (b + c + d) == a + b + c + d
    ensures a + (b + c) == a + b + c
  {
  }

  // ------------------------------------------------------------------- the printer

  /** Prints a whole tree, or refuses it. */
  method Canonicalize(v: Value) returns (text: Option<string>)
    ensures text.Some? <==> Printable(v)
    ensures text.Some? ==> text.value == Canon(v)
  {
    var b := new Builder();
    var ok := WriteCanonical(b, v);
    text := if ok then Some(b.text) else None;
  }

  method WriteCanonical(b: Builder, v: Value) returns (ok: bool)
    modifies b
    ensures ok <==> Printable(v)
    ensures ok ==> b.text == old(b.text) + Canon(v)
    decreases v, 1
  {
    match v
    case Null =>
      b.Write("null");
      return true;
    case Bool(t) =>
      b.Write(if t then "true" else "false");
      return true;
    case Int(i) =>
      if i > MAX_SAFE_INTEGER || i < -MAX_SAFE_INTEGER {
        return false;
      }
      b.Write(FormatInt(i));
      return true;
    case Str(s) =>
      if !Valid(s) {
        return false;
      }
      WriteJcsString(b, s);
      return true;
    case Arr(_) =>
      ok := WriteArray(b, v);
    case Obj(_) =>
      ok := WriteObject(b, v);
  }

  method WriteArray(b: Builder, v: Value) returns (ok: bool)
    requires v.Arr?
    modifies b
    ensures ok <==> Printable(v)
    ensures ok ==> b.text == old(b.text) + Canon(v)
    decreases v, 0, 3
  {
    b.Write("[");
    ok := WriteElems(b, v);
    if ok {
      b.Write("]");
      Regroup(old(b.text), "[", CanonElems(v, 0), "]");
    }
  }

  method WriteObject(b: Builder, v: Value) returns (ok: bool)
    requires v.Obj?
    modifies b
    ensures ok <==> Printable(v)
    ensures ok ==> b.text == old(b.text) + Canon(v)
    decreases v, 0, 3
  {
    var keys := SortedKeySlice(v.fields);
    b.Write("{");
    ok := WriteMembers(b, v, keys);
    if ok {
      SortForgetsEnumeration(v.fields.Keys, keys, keys);
      b.Write("}");
      Regroup(old(b.text), "{", CanonMembers(v, keys, 0), "}");
    }
  }

  method WriteElems(b: Builder, v: Value) returns (ok: bool)
    requires v.Arr?
    modifies b
    ensures ok <==> Printable(v)
    ensures ok ==> b.text == old(b.text) + CanonElems(v, 0)
    decreases v, 0, 2
  {
    var i := 0;
    while i < |v.elems|
      invariant 0 <= i <= |v.elems|
      invariant forall j | 0 <= j < i :: Printable(v.elems[j])
      invariant b.text + CanonElems(v, i) == old(b.text) + CanonElems(v, 0)
    {
      ElemsStep(b.text, v, i);
      b.Write(Separator(i));
      ok := WriteCanonical(b, v.elems[i]);
      if !ok {
        return;
      }
      i := i + 1;
    }
    ok := true;
  }

  /** Go visits the keys of a map in an arbitrary order. */
  method KeySlice(m: map<string, Value>) returns (keys: array<string>)
    ensures fresh(keys) && multiset(keys[..]) == multiset(m.Keys)
  {
    keys := new string[|m|];
    var left := m.Keys;
    var n := 0;
    assert keys[..0] == [];
    while left != {}
      invariant left <= m.Keys && n + |left| == keys.Length
      invariant multiset(keys[..n]) + multiset(left) == multiset(m.Keys)
      decreases left
    {
      var k :| k in left;
      keys[n] := k;
      assert keys[..n + 1] == keys[..n] + [k];
      left := left - {k};
      n := n + 1;
    }
    assert keys[..n] == keys[..];
  }

  method SortedKeySlice(m: map<string, Value>) returns (sorted: seq<string>)
    ensures IsOrdering(sorted, multiset(m.Keys))
    ensures forall k :: k in sorted <==> k in m
  {
    var keys := KeySlice(m);
    SortUtf16(keys);
    sorted := keys[..];
    OrderingHoldsTheKeys(sorted, m.Keys);
  }

  method WriteMembers(b: Builder, v: Value, keys: seq<string>) returns (ok: bool)
    requires v.Obj? && forall k :: k in keys <==> k in v.fields
    modifies b
    ensures ok <==> Printable(v)
    ensures ok ==> b.text == old(b.text) + CanonMembers(v, keys, 0)
    decreases v, 0, 2
  {
    hide Canon, Valid;
    var i := 0;
    while i < |keys|
      invariant 0 <= i <= |keys|
      invariant forall j | 0 <= j < i :: PrintableMember(v, keys[j])
      invariant b.text + CanonMembers(v, keys, i) == old(b.text) + CanonMembers(v, keys, 0)
    {
      ok := WriteMember(b, v, keys, i);
      if !ok {
        return;
      }
      i := i + 1;
    }
    ok := true;
    AllMembersPrintable(v, keys);
  }

  method WriteMember(b: Builder, v: Value, keys: seq<string>, i: nat) returns (ok: bool)
    requires v.Obj? && i < |keys| && forall k | k in keys :: k in v.fields
    modifies b
    ensures ok <==> PrintableMember(v, keys[i])
    ensures !ok ==> !Printable(v)
    ensures ok ==> b.text + CanonMembers(v, keys, i + 1) == old(b.text) + CanonMembers(v, keys, i)
    decreases v, 0, 0
  {
    MembersStep(b.text, v, keys, i);
    var k := keys[i];
    assert k in v.fields;
    b.Write(Separator(i));
    if !Valid(k) {
      return false;
    }
    WriteJcsString(b, k);
    b.Write(":");
    ok := WriteCanonical(b, v.fields[k]);
  }

  ghost predicate PrintableMember(v: Value, k: string)
    requires v.Obj? && k in v.fields
  {
    Valid(k) && Printable(v.fields[k])
  }

  lemma OrderingHoldsTheKeys(keys: seq<string>, of: set<string>)
    requires IsOrdering(keys, multiset(of))
    ensures forall k :: k in keys <==> k in of
  {
    forall k
      ensures k in keys <==> k in of
    {
      assert k in keys <==> k in multiset(keys);
    }
  }

  lemma AllMembersPrintable(v: Value, keys: seq<string>)
    requires v.Obj? && forall k :: k in keys <==> k in v.fields
    requires forall j | 0 <= j < |keys| :: PrintableMember(v, keys[j])
    ensures Printable(v)
  {
    forall k | k in v.fields
      ensures Valid(k) && Printable(v.fields[k])
    {
      var j :| 0 <= j < |keys| && keys[j] == k;
    }
  }

  method WriteJcsString(b: Builder, s: string)
    requires Valid(s)
    modifies b
    ensures b.text == old(b.text) + Quoted(s)
  {
    b.Write("\"");
    b.WriteEscaped(s, EscapeByte);
    b.Write("\"");
    EncodeOfRunes(s);
    Regroup(old(b.text), "\"", Escaped(s), "\"");
  }
}
