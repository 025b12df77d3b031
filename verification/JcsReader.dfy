// A reader for the canonical form, written from RFC 8785, sections 3.2.2 and 3.2.3,
// and RFC 8259: it takes no other spelling of a value. What it accepts is exactly
// what the printer prints.
module JcsReader {
  import opened Utf8
  import opened Utf16Order
  import opened Jcs
  import opened Wrappers

  type Parsed<T> = Option<(T, string)>

  predicate StartsWith(b: string, prefix: string) {
    |prefix| <= |b| && b[..|prefix|] == prefix
  }

  predicate StartsWithDigit(b: string) {
    b != "" && IsDigit(b[0])
  }

  function HexValue(c: char): Option<int> {
    if '0' <= c <= '9' then Some(c as int - '0' as int)
    else if 'a' <= c <= 'f' then Some(c as int - 'a' as int + 10)
    else None
  }

  /** One character of a string body and the number of bytes spelling it. A byte from
      0x20 up is never spelled in hex, nor one that has an escape of its own. */
  function ReadChar(b: string): (r: Option<(char, nat)>)
    requires b != ""
    ensures r.Some? ==> 1 <= r.value.1 <= |b|
  {
    if b[0] < ' ' then None
    else if b[0] != '\\' then Some((b[0], 1))
    else if |b| < 2 then None
    else if b[1] == '"' || b[1] == '\\' then Some((b[1], 2))
    else if b[1] == 'b' then Some(('\U{08}', 2))
    else if b[1] == 't' then Some(('\t', 2))
    else if b[1] == 'n' then Some(('\n', 2))
    else if b[1] == 'f' then Some(('\U{0C}', 2))
    else if b[1] == 'r' then Some(('\r', 2))
    else if |b| < 6 || b[1..4] != "u00" then None
    else
      var hi, lo := HexValue(b[4]), HexValue(b[5]);
      if hi.None? || lo.None? then None
      else
        var c := hi.value * 16 + lo.value;
        if c >= 0x20 || c in [8, 9, 10, 12, 13] then None else Some((c as char, 6))
  }

  /** The rest of a string whose opening quote has been read. */
  function ReadStringBody(b: string): (r: Parsed<string>)
    ensures r.Some? ==> |r.value.1| < |b|
    decreases |b|
  {
    if b == "" then None
    else if b[0] == '"' then Some(("", b[1..]))
    else
      match ReadChar(b)
      case None => None
      case Some((c, width)) =>
        match ReadStringBody(b[width..])
        case None => None
        case Some((s, rest)) => Some(([c] + s, rest))
  }

  function ReadDigits(b: string, acc: nat): (r: (nat, string))
    ensures |r.1| <= |b|
    decreases |b|
  {
    if StartsWithDigit(b) then ReadDigits(b[1..], acc * 10 + (b[0] as int - '0' as int)) else (acc, b)
  }

  /** No leading zero, and no minus before a zero. */
  function ReadInt(b: string): (r: Parsed<int>)
    ensures r.Some? ==> |r.value.1| < |b|
  {
    if StartsWith(b, "0") then Some((0, b[1..]))
    else if StartsWithDigit(b) then
      var (n, rest) := ReadDigits(b, 0);
      Some((n as int, rest))
    else if StartsWith(b, "-") && StartsWithDigit(b[1..]) && b[1] != '0' then
      var (n, rest) := ReadDigits(b[1..], 0);
      Some((-(n as int), rest))
    else None
  }

  function ReadLiteral(b: string, word: string, v: Value): (r: Parsed<Value>)
    requires word != ""
    ensures r.Some? ==> |r.value.1| < |b|
  {
    if StartsWith(b, word) then Some((v, b[|word|..])) else None
  }

  function ReadValue(b: string): (r: Parsed<Value>)
    ensures r.Some? ==> |r.value.1| < |b|
    decreases |b|, 1
  {
    if b == "" then None
    else if b[0] == 'n' then ReadLiteral(b, "null", Null)
    else if b[0] == 't' then ReadLiteral(b, "true", Bool(true))
    else if b[0] == 'f' then ReadLiteral(b, "false", Bool(false))
    else if b[0] == '"' then
      match ReadStringBody(b[1..])
      case None => None
      case Some((s, rest)) => Some((Str(s), rest))
    else if b[0] == '[' then
      if |b| > 1 && b[1] == ']' then Some((Arr([]), b[2..]))
      else
        match ReadElems(b[1..])
        case None => None
        case Some((es, rest)) => Some((Arr(es), rest))
    else if b[0] == '{' then
      if |b| > 1 && b[1] == '}' then Some((Obj(map[]), b[2..]))
      else
        match ReadMembers(b[1..], None)
        case None => None
        case Some((m, rest)) => Some((Obj(m), rest))
    else
      match ReadInt(b)
      case None => None
      case Some((i, rest)) => Some((Int(i), rest))
  }

  /** A non-empty array after its opening bracket. */
  function ReadElems(b: string): (r: Parsed<seq<Value>>)
    ensures r.Some? ==> |r.value.1| < |b|
    decreases |b|, 2
  {
    match ReadValue(b)
    case None => None
    case Some((e, rest)) =>
      if StartsWith(rest, "]") then Some(([e], rest[1..]))
      else if StartsWith(rest, ",") then
        match ReadElems(rest[1..])
        case None => None
        case Some((es, end)) => Some(([e] + es, end))
      else None
  }

  /** The members of an object up to its closing brace, each key above the one before. */
  function ReadMembers(b: string, last: Option<string>): (r: Parsed<map<string, Value>>)
    ensures r.Some? ==> |r.value.1| < |b|
    decreases |b|, 2
  {
    if !StartsWith(b, "\"") then None
    else
      match ReadStringBody(b[1..])
      case None => None
      case Some((k, afterKey)) =>
        if !StartsWith(afterKey, ":") || (last.Some? && !Less(last.value, k)) then None
        else
          match ReadValue(afterKey[1..])
          case None => None
          case Some((e, rest)) =>
            if StartsWith(rest, "}") then Some((map[k := e], rest[1..]))
            else if StartsWith(rest, ",") then
              match ReadMembers(rest[1..], Some(k))
              case None => None
              case Some((m, end)) => Some((m[k := e], end))
            else None
  }

  // ---------------------------------------------------------------- leaf laws

  lemma ReadWord(word: string, v: Value, rest: string)
    requires word != ""
    ensures ReadLiteral(word + rest, word, v) == Some((v, rest))
  {
    assert (word + rest)[..|word|] == word && (word + rest)[|word|..] == rest;
  }

  lemma ReadCharOfEscape(c: char, x: string)
    ensures var b := EscapeByte(c) + x;
            b[0] != '"' && ReadChar(b) == Some((c, |EscapeByte(c)|)) && b[|EscapeByte(c)|..] == x
  {
    var e := EscapeByte(c);
    var b := e + x;
    assert b[..|e|] == e && b[|e|..] == x;
    if |e| == 6 {
      assert b[1..4] == e[1..4] == "u00";
      assert b[4] == HexDigit(c as int / 16) && b[5] == HexDigit(c as int % 16);
    } else if |e| == 2 {
      assert b[0] == e[0] && b[1] == e[1];
    }
  }

  lemma {:induction false} ReadEscaped(s: string, rest: string)
    ensures ReadStringBody(Escaped(s) + "\"" + rest) == Some((s, rest))
  {
    if s == "" {
      assert "" + "\"" + rest == "\"" + rest;
    } else {
      var tail := Escaped(s[1..]) + "\"" + rest;
      assert Escaped(s) + "\"" + rest == EscapeByte(s[0]) + tail;
      ReadCharOfEscape(s[0], tail);
      ReadEscaped(s[1..], rest);
      assert [s[0]] + s[1..] == s;
    }
  }

  lemma ReadQuoted(s: string, rest: string)
    ensures StartsWith(Quoted(s) + rest, "\"")
    ensures ReadStringBody((Quoted(s) + rest)[1..]) == Some((s, rest))
  {
    assert (Quoted(s) + rest)[1..] == Escaped(s) + "\"" + rest;
    ReadEscaped(s, rest);
  }

  lemma {:induction false} ReadDecimal(n: nat, rest: string)
    ensures Decimal(n) != "" && StartsWithDigit(Decimal(n) + rest)
    ensures ReadDigits(Decimal(n) + rest, 0) == ReadDigits(rest, n)
  {
    if n < 10 {
      assert (Decimal(n) + rest)[1..] == rest;
    } else {
      var last := [Digit(n % 10)];
      ReadDecimal(n / 10, last + rest);
      assert Decimal(n) + rest == Decimal(n / 10) + (last + rest);
      assert (last + rest)[1..] == rest;
    }
  }

  lemma {:induction false} NoLeadingZero(n: nat)
    ensures Decimal(n) != "" && (Decimal(n)[0] == '0' <==> n == 0) && (n == 0 ==> Decimal(n) == "0")
  {
    if n >= 10 {
      NoLeadingZero(n / 10);
      assert Decimal(n)[0] == Decimal(n / 10)[0];
    }
  }

  lemma ReadFormatted(i: int, rest: string)
    requires !StartsWithDigit(rest)
    ensures FormatInt(i) != "" && (FormatInt(i)[0] == '-' || IsDigit(FormatInt(i)[0]))
    ensures ReadInt(FormatInt(i) + rest) == Some((i, rest))
  {
    var n := if i < 0 then -i else i;
    var digits := Decimal(n);
    ReadDecimal(n, rest);
    NoLeadingZero(n);
    assert digits[0] == (digits + rest)[0];
    assert ReadDigits(digits + rest, 0) == (n, rest);
    if i < 0 {
      assert ("-" + digits + rest)[1..] == digits + rest;
      assert StartsWith("-" + digits + rest, "-");
    }
  }

  // ------------------------------------------------- one step of each list reader

  lemma ElemsReaderStep(text: string, after: string, e: Value)
    requires ReadValue(text + after) == Some((e, after))
    ensures StartsWith(after, "]") ==> ReadElems(text + after) == Some(([e], after[1..]))
    ensures StartsWith(after, ",") && ReadElems(after[1..]).Some? ==>
              var (es, end) := ReadElems(after[1..]).value;
              ReadElems(text + after) == Some(([e] + es, end))
  {
  }

  lemma MembersReaderStep(k: string, text: string, after: string, e: Value, last: Option<string>)
    requires ReadValue(text + after) == Some((e, after)) && (last.Some? ==> Less(last.value, k))
    ensures StartsWith(after, "}") ==>
              ReadMembers(Quoted(k) + (":" + (text + after)), last) == Some((map[k := e], after[1..]))
    ensures StartsWith(after, ",") && ReadMembers(after[1..], Some(k)).Some? ==>
              var (m, end) := ReadMembers(after[1..], Some(k)).value;
              ReadMembers(Quoted(k) + (":" + (text + after)), last) == Some((m[k := e], end))
  {
    var afterKey := ":" + (text + after);
    ReadQuoted(k, afterKey);
    assert afterKey[1..] == text + after;
  }

  lemma ReadBracket(x: string)
    requires x != ""
    ensures x[0] != ']' && ReadElems(x).Some? ==>
              var (es, end) := ReadElems(x).value; ReadValue("[" + x) == Some((Arr(es), end))
    ensures x[0] == ']' ==> ReadValue("[" + x) == Some((Arr([]), x[1..]))
  {
    hide ReadElems;
    assert ("[" + x)[1..] == x && ("[" + x)[2..] == x[1..];
  }

  lemma ReadBrace(x: string)
    requires x != ""
    ensures x[0] != '}' && ReadMembers(x, None).Some? ==>
              var (m, end) := ReadMembers(x, None).value; ReadValue("{" + x) == Some((Obj(m), end))
    ensures x[0] == '}' ==> ReadValue("{" + x) == Some((Obj(map[]), x[1..]))
  {
    hide ReadMembers;
    assert ("{" + x)[1..] == x && ("{" + x)[2..] == x[1..];
  }

  /** Peels a bracket off: the shapes `Canon` builds, regrouped for the reader. */
  lemma Unwrap(open: string, x: string, y: string, close: string, rest: string)
    requires |open| == 1
    ensures open + (x + y) + close + rest == open + (x + (y + close + rest))
    ensures (open + (x + (y + close + rest)))[1..] == x + (y + close + rest)
  {
  }

  lemma Prepend(sep: string, x: string, y: string, close: string, rest: string)
    requires |sep| == 1
    ensures sep + x + y + close + rest == sep + (x + (y + close + rest))
    ensures (sep + x + y + close + rest)[1..] == x + (y + close + rest)
    ensures StartsWith(sep + x + y + close + rest, sep)
  {
  }

  // ----------------------------------------------------------------- main law

  /** The part of an object named by some of its keys. */
  function Restricted(m: map<string, Value>, keys: seq<string>): map<string, Value>
    requires forall k | k in keys :: k in m
  {
    map k | k in keys :: m[k]
  }

  ghost predicate Ascending(keys: seq<string>) {
    forall i, j | 0 <= i < j < |keys| :: Less(keys[i], keys[j])
  }

  lemma SortedKeysAscend(keys: set<string>)
    requires forall k <- keys :: Valid(k)
    ensures Ascending(SortedKeys(keys))
  {
    hide Less;
    var s := SortedKeys(keys);
    SortedKeysHoldTheKeys(keys);
    forall i, j | 0 <= i < j < |s|
      ensures Less(s[i], s[j])
    {
      assert s[i] in keys && s[j] in keys && AtMost(s[i], s[j]);
      StrictTotalOrder(s[i], s[j], s[j]);
    }
  }

  lemma AscendingIsDistinct(keys: seq<string>)
    requires Ascending(keys)
    ensures forall i, j | 0 <= i < j < |keys| :: keys[i] != keys[j]
  {
    hide Less;
    forall i, j | 0 <= i < j < |keys|
      ensures keys[i] != keys[j]
    {
      StrictTotalOrder(keys[i], keys[i], keys[i]);
    }
  }

  /** Reading undoes printing, whatever follows that is not another digit. */
  lemma {:induction false} ReadInvertsPrint(v: Value, rest: string)
    requires Printable(v) && !StartsWithDigit(rest)
    ensures Canon(v) != "" && Canon(v)[0] != ']' && ReadValue(Canon(v) + rest) == Some((v, rest))
    decreases v, 1
  {
    hide ReadElems, ReadMembers, ReadInt, ReadStringBody, CanonElems, CanonMembers;
    match v
    case Null => ReadWord("null", Null, rest);
    case Bool(t) => ReadWord(Canon(v), v, rest);
    case Int(i) => ReadFormatted(i, rest); assert (FormatInt(i) + rest)[0] == FormatInt(i)[0];
    case Str(s) => ReadQuoted(s, rest);
    case Arr(es) => ReadArray(v, rest);
    case Obj(m) => ReadObject(v, rest);
  }

  lemma {:induction false} ReadArray(v: Value, rest: string)
    requires v.Arr? && Printable(v)
    ensures ReadValue(Canon(v) + rest) == Some((v, rest))
    decreases v, 0
  {
    hide ReadValue, ReadElems, Valid, CanonElems;
    var es := v.elems;
    if es == [] {
      EmptyTexts(v, rest);
      ReadBracket("]" + rest);
    } else {
      var first, more := Canon(es[0]), CanonElems(v, 1);
      ElemsFirst(v);
      Unwrap("[", first, more, "]", rest);
      ReadInvertsPrint(es[0], "");
      ReadElemsFrom(v, 0, rest);
      assert es[0..] == es;
      ReadBracket(first + (more + "]" + rest));
    }
  }

  lemma EmptyTexts(v: Value, rest: string)
    ensures v.Arr? && v.elems == [] ==> Canon(v) + rest == "[" + ("]" + rest) && v == Arr([])
    ensures v.Obj? && v.fields == map[] ==> Canon(v) + rest == "{" + ("}" + rest) && v == Obj(map[])
    ensures ("]" + rest)[1..] == rest && ("}" + rest)[1..] == rest
  {
    if v.Obj? && v.fields == map[] {
      SortedKeysHoldTheKeys(v.fields.Keys);
      assert |multiset(SortedKeys(v.fields.Keys))| == 0;
    }
  }

  lemma {:induction false} ReadElemsFrom(v: Value, i: nat, rest: string)
    requires v.Arr? && Printable(v) && i < |v.elems|
    ensures ReadElems(Canon(v.elems[i]) + (CanonElems(v, i + 1) + "]" + rest)) == Some((v.elems[i..], rest))
    decreases v, 0, |v.elems| - i
  {
    hide ReadValue, ReadElems, Valid;
    var es := v.elems;
    var after := CanonElems(v, i + 1) + "]" + rest;
    if i + 1 == |es| {
      assert after == "]" + rest;
      assert after[1..] == rest && StartsWith(after, "]");
      assert es[i..] == [es[i]];
    } else {
      Prepend(",", Canon(es[i + 1]), CanonElems(v, i + 2), "]", rest);
      ReadElemsFrom(v, i + 1, rest);
    }
    assert es[i..] == [es[i]] + es[i + 1..];
    ReadInvertsPrint(es[i], after);
    ElemsReaderStep(Canon(es[i]), after, es[i]);
  }

  lemma {:induction false} ReadObject(v: Value, rest: string)
    requires v.Obj? && Printable(v)
    ensures ReadValue(Canon(v) + rest) == Some((v, rest))
    decreases v, 0
  {
    hide ReadValue, ReadMembers, Valid, CanonMembers, Ascending;
    var keys := SortedKeys(v.fields.Keys);
    SortedKeysHoldTheKeys(v.fields.Keys);
    SortedKeysAscend(v.fields.Keys);
    if v.fields == map[] {
      EmptyTexts(v, rest);
      ReadBrace("}" + rest);
    } else {
      var k :| k in v.fields;
      assert k in keys;
      var first, more := Quoted(keys[0]) + ":" + Canon(v.fields[keys[0]]), CanonMembers(v, keys, 1);
      MembersFirst(v, keys);
      Unwrap("{", first, more, "}", rest);
      ReadMembersFrom(v, keys, 0, rest);
      assert Restricted(v.fields, keys[0..]) == v.fields;
      assert first[0] == '"';
      ReadBrace(first + (more + "}" + rest));
    }
  }

  function Before(keys: seq<string>, i: nat): Option<string>
    requires i <= |keys|
  {
    if i == 0 then None else Some(keys[i - 1])
  }

  lemma {:induction false} ReadMembersFrom(v: Value, keys: seq<string>, i: nat, rest: string)
    requires v.Obj? && Printable(v) && i < |keys|
    requires Ascending(keys) && forall k | k in keys :: k in v.fields
    ensures var text := Quoted(keys[i]) + ":" + Canon(v.fields[keys[i]]) + (CanonMembers(v, keys, i + 1) + "}" + rest);
            ReadMembers(text, Before(keys, i)) == Some((Restricted(v.fields, keys[i..]), rest))
    decreases v, 0, |keys| - i
  {
    hide ReadValue, ReadMembers, Valid, Quoted, Restricted, Less;
    AscendingIsDistinct(keys);
    var k, e := keys[i], v.fields[keys[i]];
    var after := CanonMembers(v, keys, i + 1) + "}" + rest;
    RestrictedStep(v.fields, keys, i);
    if i + 1 == |keys| {
      assert after == "}" + rest;
      assert after[1..] == rest && StartsWith(after, "}");
    } else {
      var next := Quoted(keys[i + 1]) + ":" + Canon(v.fields[keys[i + 1]]);
      MembersHead(v, keys, i + 1);
      Prepend(",", next, CanonMembers(v, keys, i + 2), "}", rest);
      ReadMembersFrom(v, keys, i + 1, rest);
    }
    ReadInvertsPrint(e, after);
    MembersReaderStep(k, Canon(e), after, e, Before(keys, i));
    RegroupMember(Quoted(k), Canon(e), after);
  }

  lemma RegroupMember(key: string, text: string, after: string)
    ensures key + ":" + text + after == key + (":" + (text + after))
  {
  }

  lemma MembersFirst(v: Value, keys: seq<string>)
    requires v.Obj? && keys != [] && forall k | k in keys :: k in v.fields
    ensures CanonMembers(v, keys, 0)
         == Quoted(keys[0]) + ":" + Canon(v.fields[keys[0]]) + CanonMembers(v, keys, 1)
  {
    assert "" + Quoted(keys[0]) == Quoted(keys[0]);
  }

  lemma ElemsFirst(v: Value)
    requires v.Arr? && v.elems != []
    ensures CanonElems(v, 0) == Canon(v.elems[0]) + CanonElems(v, 1)
  {
  }

  lemma MembersHead(v: Value, keys: seq<string>, i: nat)
    requires v.Obj? && 0 < i < |keys| && forall k | k in keys :: k in v.fields
    ensures CanonMembers(v, keys, i)
         == "," + (Quoted(keys[i]) + ":" + Canon(v.fields[keys[i]])) + CanonMembers(v, keys, i + 1)
  {
  }

  lemma RestrictedStep(m: map<string, Value>, keys: seq<string>, i: nat)
    requires i < |keys| && forall k | k in keys :: k in m
    requires forall i, j | 0 <= i < j < |keys| :: keys[i] != keys[j]
    ensures Restricted(m, keys[i..]) == Restricted(m, keys[i + 1..])[keys[i] := m[keys[i]]]
    ensures i + 1 == |keys| ==> Restricted(m, keys[i..]) == map[keys[i] := m[keys[i]]]
  {
    assert keys[i..] == [keys[i]] + keys[i + 1..];
  }

  /** Equal canonical text means equal trees: the signature names one mutation. */
  lemma CanonicalTextIsInjective(v: Value, w: Value)
    requires Printable(v) && Printable(w)
    ensures Canon(v) == Canon(w) <==> v == w
  {
    if Canon(v) == Canon(w) {
      ReadInvertsPrint(v, "");
      ReadInvertsPrint(w, "");
    }
  }

  // -------------------------------------------- nothing else is canonical text

  lemma DigitOfByte(c: char)
    requires IsDigit(c)
    ensures Digit(c as int - '0' as int) == c
  {
  }

  lemma HexOfValue(c: char)
    requires HexValue(c).Some?
    ensures 0 <= HexValue(c).value < 16 && HexDigit(HexValue(c).value) == c
  {
  }

  /** What is read as one character is what the table writes for it. */
  lemma ReadCharIsEscape(b: string)
    requires b != "" && b[0] != '"' && ReadChar(b).Some?
    ensures var (c, width) := ReadChar(b).value; b[..width] == EscapeByte(c)
  {
    var (c, width) := ReadChar(b).value;
    if width == 6 {
      HexOfValue(b[4]);
      HexOfValue(b[5]);
      assert c as int / 16 == HexValue(b[4]).value && c as int % 16 == HexValue(b[5]).value;
      assert b[1..4] == "u00" && b[..6] == [b[0]] + b[1..4] + [b[4], b[5]];
    }
  }

  lemma {:induction false} ReadStringIsEscaped(b: string)
    requires ReadStringBody(b).Some?
    ensures var (s, rest) := ReadStringBody(b).value; b == Escaped(s) + "\"" + rest
    decreases |b|
  {
    hide ReadChar, EscapeByte;
    var (s, rest) := ReadStringBody(b).value;
    if b[0] == '"' {
      assert b == "\"" + rest;
    } else {
      var (c, width) := ReadChar(b).value;
      ReadCharIsEscape(b);
      ReadStringIsEscaped(b[width..]);
      assert s[1..] == ReadStringBody(b[width..]).value.0 && b == b[..width] + b[width..];
    }
  }

  lemma ReadStringIsQuoted(b: string)
    requires StartsWith(b, "\"") && ReadStringBody(b[1..]).Some?
    ensures var (s, rest) := ReadStringBody(b[1..]).value; b == Quoted(s) + rest
  {
    hide Escaped, ReadStringBody;
    ReadStringIsEscaped(b[1..]);
    assert b == "\"" + b[1..];
  }

  lemma DecimalStep(n: nat, c: char)
    requires n > 0 && IsDigit(c)
    ensures Decimal(n * 10 + (c as int - '0' as int)) == Decimal(n) + [c]
  {
    var d := c as int - '0' as int;
    DigitOfByte(c);
    assert (n * 10 + d) / 10 == n && (n * 10 + d) % 10 == d;
  }

  lemma {:induction false} ReadDigitsIsDecimal(b: string, acc: nat)
    requires acc > 0
    ensures var (n, rest) := ReadDigits(b, acc); n > 0 && Decimal(acc) + b == Decimal(n) + rest
    decreases |b|
  {
    hide Decimal;
    if StartsWithDigit(b) {
      DecimalStep(acc, b[0]);
      ReadDigitsIsDecimal(b[1..], acc * 10 + (b[0] as int - '0' as int));
      assert Decimal(acc) + b == Decimal(acc) + [b[0]] + b[1..];
    }
  }

  lemma ReadNumberIsDecimal(b: string)
    requires StartsWithDigit(b) && b[0] != '0'
    ensures var (n, rest) := ReadDigits(b, 0); n > 0 && b == Decimal(n) + rest
  {
    var d := b[0] as int - '0' as int;
    DigitOfByte(b[0]);
    ReadDigitsIsDecimal(b[1..], d);
    assert Decimal(d) + b[1..] == b;
  }

  lemma ReadIntIsFormatted(b: string)
    requires ReadInt(b).Some?
    ensures var (i, rest) := ReadInt(b).value; b == FormatInt(i) + rest
  {
    hide ReadDigits, Decimal;
    if StartsWith(b, "0") {
      NoLeadingZero(0);
      assert b == "0" + b[1..];
    } else if StartsWithDigit(b) {
      ReadNumberIsDecimal(b);
    } else {
      ReadNumberIsDecimal(b[1..]);
      assert b == "-" + b[1..];
    }
  }

  lemma WordIsRead(b: string, word: string)
    requires StartsWith(b, word)
    ensures b == word + b[|word|..]
  {
  }

  lemma {:induction false} ElemsShift(e: Value, es: seq<Value>, i: nat)
    requires i <= |es|
    ensures CanonElems(Arr([e] + es), i + 1) == (if i == 0 && es != [] then "," else "") + CanonElems(Arr(es), i)
    decreases |es| - i
  {
    if i < |es| {
      ElemsShift(e, es, i + 1);
      assert ([e] + es)[i + 1] == es[i];
    }
  }

  ghost function Member(v: Value, k: string): string
    requires v.Obj? && k in v.fields
  {
    Quoted(k) + ":" + Canon(v.fields[k])
  }

  lemma OneMember(v: Value, keys: seq<string>, i: nat)
    requires v.Obj? && i <= |keys| && forall k <- keys :: k in v.fields
    ensures CanonMembers(v, keys, i)
         == if i == |keys| then ""
            else if i == 0 then Member(v, keys[0]) + CanonMembers(v, keys, 1)
            else "," + (Member(v, keys[i]) + CanonMembers(v, keys, i + 1))
  {
  }

  lemma SameMember(m: map<string, Value>, k: string, e: Value, j: string)
    requires j in m && j != k
    ensures Member(Obj(m[k := e]), j) == Member(Obj(m), j)
  {
    assert m[k := e][j] == m[j];
  }

  lemma {:induction false} MembersShift(m: map<string, Value>, k: string, e: Value, keys: seq<string>, i: nat)
    requires i <= |keys| && k !in keys && forall k <- keys :: k in m
    ensures CanonMembers(Obj(m[k := e]), [k] + keys, i + 1)
         == (if i == 0 && keys != [] then "," else "") + CanonMembers(Obj(m), keys, i)
    decreases |keys| - i
  {
    hide Member, CanonMembers;
    var all, w := [k] + keys, Obj(m[k := e]);
    OneMember(Obj(m), keys, i);
    OneMember(w, all, i + 1);
    if i < |keys| {
      SameMember(m, k, e, keys[i]);
      MembersShift(m, k, e, keys, i + 1);
    }
  }

  /** The converse of `ReadInvertsPrint`: what is read as a tree is its canonical text. */
  lemma {:induction false} ReadOnlyCanonical(b: string)
    requires ReadValue(b).Some? && Printable(ReadValue(b).value.0)
    ensures var (v, rest) := ReadValue(b).value; b == Canon(v) + rest
    decreases |b|, 1
  {
    hide ReadElems, ReadMembers, ReadInt, ReadStringBody, CanonElems, CanonMembers, FormatInt, Quoted, SortedKeys;
    var (v, rest) := ReadValue(b).value;
    if b[0] == 'n' {
      WordIsRead(b, "null");
    } else if b[0] == 't' {
      WordIsRead(b, "true");
    } else if b[0] == 'f' {
      WordIsRead(b, "false");
    } else if b[0] == '"' {
      assert StartsWith(b, "\"");
      ReadStringIsQuoted(b);
    } else if b[0] == '[' {
      if |b| > 1 && b[1] == ']' {
        EmptyTexts(v, rest);
        assert b == "[" + ("]" + rest);
      } else {
        ReadOnlyElems(b[1..]);
        assert b == "[" + b[1..];
        Regroup("[", CanonElems(v, 0), "]", rest);
      }
    } else if b[0] == '{' {
      if |b| > 1 && b[1] == '}' {
        EmptyTexts(v, rest);
        assert b == "{" + ("}" + rest);
      } else {
        var keys := ReadOnlyMembers(b[1..], None);
        AscendingIsSorted(v.fields, keys);
        assert b == "{" + b[1..];
        Regroup("{", CanonMembers(v, keys, 0), "}", rest);
      }
    } else {
      ReadIntIsFormatted(b);
    }
  }

  lemma NoElems()
    ensures CanonElems(Arr([]), 0) == ""
  {
  }

  lemma {:induction false} ReadOnlyElems(b: string)
    requires ReadElems(b).Some? && Printable(Arr(ReadElems(b).value.0))
    ensures var (es, end) := ReadElems(b).value; b == CanonElems(Arr(es), 0) + "]" + end
    decreases |b|, 2
  {
    hide ReadValue, Canon, CanonElems;
    var (e, rest) := ReadValue(b).value;
    var (all, end) := ReadElems(b).value;
    assert all[0] == e;
    ReadOnlyCanonical(b);
    assert rest == [rest[0]] + rest[1..];
    if StartsWith(rest, "]") {
      ElemsShift(e, [], 0);
      NoElems();
      assert [e] + [] == [e];
      ElemsFirst(Arr(all));
    } else {
      var (es, end') := ReadElems(rest[1..]).value;
      assert forall j | 0 <= j < |es| :: es[j] == all[j + 1];
      ReadOnlyElems(rest[1..]);
      ElemsShift(e, es, 0);
      ElemsFirst(Arr(all));
    }
  }

  lemma {:induction false} KeysReadAscend(b: string, last: string)
    requires ReadMembers(b, Some(last)).Some?
    ensures forall k <- ReadMembers(b, Some(last)).value.0 :: Less(last, k)
    decreases |b|
  {
    hide ReadValue, ReadStringBody, Less;
    var (k, afterKey) := ReadStringBody(b[1..]).value;
    var (e, rest) := ReadValue(afterKey[1..]).value;
    if !StartsWith(rest, "}") {
      KeysReadAscend(rest[1..], k);
      forall j | j in ReadMembers(rest[1..], Some(k)).value.0
        ensures Less(last, j)
      {
        StrictTotalOrder(last, k, j);
      }
    }
  }

  lemma AscendingIsSorted(m: map<string, Value>, keys: seq<string>)
    requires Ascending(keys) && (forall k :: k in keys <==> k in m) && forall k <- m :: Valid(k)
    ensures keys == SortedKeys(m.Keys)
  {
    hide Less, SortedKeys, Valid;
    AscendingIsDistinct(keys);
    forall i, j | 0 <= i < j < |keys|
      ensures AtMost(keys[i], keys[j])
    {
      StrictTotalOrder(keys[i], keys[j], keys[j]);
    }
    DistinctHasTheMultiset(keys, m.Keys);
    SortForgetsEnumeration(m.Keys, keys, keys);
  }

  lemma {:induction false} DistinctHasTheMultiset(keys: seq<string>, of: set<string>)
    requires (forall k :: k in keys <==> k in of) && forall i, j | 0 <= i < j < |keys| :: keys[i] != keys[j]
    ensures multiset(keys) == multiset(of)
  {
    if keys == [] {
      assert of == {};
    } else {
      var k, rest := keys[0], keys[1..];
      assert keys == [k] + rest && k !in rest;
      DistinctHasTheMultiset(rest, of - {k});
    }
  }

  /** The keys of the members read, in the order they stand. */
  lemma {:induction false} ReadOnlyMembers(b: string, last: Option<string>) returns (keys: seq<string>)
    requires ReadMembers(b, last).Some? && Printable(Obj(ReadMembers(b, last).value.0))
    ensures var (m, end) := ReadMembers(b, last).value;
            && keys != [] && Ascending(keys) && (last.Some? ==> Less(last.value, keys[0]))
            && (forall k :: k in keys <==> k in m)
            && b == CanonMembers(Obj(m), keys, 0) + "}" + end
    decreases |b|, 2
  {
    hide ReadValue, ReadStringBody, Less, Valid, Canon, CanonMembers, Quoted;
    var (m, end) := ReadMembers(b, last).value;
    var (k, afterKey) := ReadStringBody(b[1..]).value;
    var (e, rest) := ReadValue(afterKey[1..]).value;
    ReadStringIsQuoted(b);
    assert afterKey == ":" + afterKey[1..] && rest == [rest[0]] + rest[1..];
    assert m[k] == e;
    ReadOnlyCanonical(afterKey[1..]);
    var m', tail: seq<string> := map[], [];
    if StartsWith(rest, ",") {
      KeysReadAscend(rest[1..], k);
      StrictTotalOrder(k, k, k);
      m' := ReadMembers(rest[1..], Some(k)).value.0;
      assert k !in m' && m == m'[k := e];
      assert forall j <- m' :: m[j] == m'[j];
      tail := ReadOnlyMembers(rest[1..], Some(k));
      OneMoreKey(k, tail);
    }
    keys := [k] + tail;
    MembersShift(m', k, e, tail, 0);
    MembersFirst(Obj(m), keys);
    MemberText(Quoted(k), Canon(e), rest, CanonMembers(Obj(m'), tail, 0), end);
    NoMembers(m');
  }

  lemma NoMembers(m: map<string, Value>)
    ensures CanonMembers(Obj(m), [], 0) == ""
  {
  }

  lemma OneMoreKey(k: string, tail: seq<string>)
    requires tail != [] && Ascending(tail) && Less(k, tail[0])
    ensures Ascending([k] + tail)
  {
    hide Less;
    var keys := [k] + tail;
    forall i, j | 0 <= i < j < |keys|
      ensures Less(keys[i], keys[j])
    {
      if i == 0 && j > 1 {
        StrictTotalOrder(k, tail[0], tail[j - 1]);
      }
    }
  }

  lemma MemberText(key: string, text: string, rest: string, more: string, end: string)
    ensures rest == "}" + end ==> key + (":" + (text + rest)) == key + ":" + text + "" + "}" + end
    ensures rest == "," + (more + "}" + end) ==> key + (":" + (text + rest)) == key + ":" + text + ("," + more) + "}" + end
  {
  }

  /** Of the printable trees, each is read from its canonical text and from no other. */
  lemma ReadsExactlyCanonical(text: string, v: Value)
    requires Printable(v)
    ensures ReadValue(text) == Some((v, "")) <==> text == Canon(v)
  {
    hide ReadValue, Canon;
    if ReadValue(text) == Some((v, "")) {
      ReadOnlyCanonical(text);
    } else {
      ReadInvertsPrint(v, "");
      assert Canon(v) + "" == Canon(v);
    }
  }
}
