// Go strings and UTF-8 (RFC 3629).
//
// A Go string is a sequence of bytes. It is modelled as a Dafny string holding
// one character per byte, so ASCII literals read as themselves and the length
// is the length in bytes. `Runes` is what a Go `range` loop sees: the decoded
// code points, with U+FFFD for every byte that starts no well-formed sequence.
module Utf8 {

  /** A Unicode scalar value: any code point but a surrogate. */
  type Rune = r: int | 0 <= r < 0xD800 || 0xE000 <= r < 0x110000

  const RUNE_ERROR: Rune := 0xFFFD

  predicate IsDigit(c: char) {
    '0' <= c <= '9'
  }

  predicate IsContinuation(c: char) {
    0x80 <= c as int < 0xC0
  }

  /** The payload of a continuation byte. */
  function Low6(c: char): int {
    c as int - 0x80
  }

  function Byte(b: int): char
    requires 0 <= b < 0x100
  {
    b as char
  }

  /** The first code point of a non-empty string and the number of bytes it takes. */
  function DecodeRune(s: string): (r: (Rune, nat))
    requires s != ""
    ensures 1 <= r.1 <= |s|
    ensures r.0 < 0x80 ==> r == (s[0] as int, 1)
  {
    var b0 := s[0] as int;
    if b0 < 0x80 then
      (b0, 1)
    else if 0xC2 <= b0 < 0xE0 && |s| >= 2 && IsContinuation(s[1]) then
      ((b0 - 0xC0) * 0x40 + Low6(s[1]), 2)
    else if 0xE0 <= b0 < 0xF0 && |s| >= 3 && IsContinuation(s[1]) && IsContinuation(s[2]) then
      var r := (b0 - 0xE0) * 0x1000 + Low6(s[1]) * 0x40 + Low6(s[2]);
      if r >= 0x800 && !(0xD800 <= r < 0xE000) then (r, 3) else (RUNE_ERROR, 1)
    else if 0xF0 <= b0 < 0xF5 && |s| >= 4 && IsContinuation(s[1]) && IsContinuation(s[2]) && IsContinuation(s[3]) then
      var r := (b0 - 0xF0) * 0x40000 + Low6(s[1]) * 0x1000 + Low6(s[2]) * 0x40 + Low6(s[3]);
      if 0x10000 <= r < 0x110000 then (r, 4) else (RUNE_ERROR, 1)
    else
      (RUNE_ERROR, 1)
  }

  /** U+FFFD of width one marks a bad byte; a genuine U+FFFD takes three. */
  predicate StartsWell(s: string)
    requires s != ""
  {
    DecodeRune(s) != (RUNE_ERROR, 1)
  }

  function EncodeRune(r: Rune): (s: string)
    ensures 1 <= |s| <= 4
  {
    if r < 0x80 then
      [Byte(r)]
    else if r < 0x800 then
      [Byte(0xC0 + r / 0x40), Byte(0x80 + r % 0x40)]
    else if r < 0x10000 then
      [Byte(0xE0 + r / 0x1000), Byte(0x80 + r / 0x40 % 0x40), Byte(0x80 + r % 0x40)]
    else
      [Byte(0xF0 + r / 0x40000), Byte(0x80 + r / 0x1000 % 0x40), Byte(0x80 + r / 0x40 % 0x40), Byte(0x80 + r % 0x40)]
  }

  /** What `for _, r := range s` visits. */
  function Runes(s: string): seq<Rune>
  {
    if s == "" then []
    else
      var (r, width) := DecodeRune(s);
      [r] + Runes(s[width..])
  }

  predicate Valid(s: string) {
    s == "" || (StartsWell(s) && Valid(s[DecodeRune(s).1..]))
  }

  function Encode(rs: seq<Rune>): string
  {
    if rs == [] then "" else EncodeRune(rs[0]) + Encode(rs[1..])
  }

  /** The string a range loop writes back out: every bad byte becomes U+FFFD. */
  function Lossy(s: string): string {
    Encode(Runes(s))
  }

  // ---------------------------------------------------------------- codec laws

  /** The base-64 digits an encoding of three or four bytes is built from. */
  lemma Base64Digits(r: int, q: int, hi: int, mid: int, lo: int)
    requires 0 <= hi < 0x40 && 0 <= mid < 0x40 && 0 <= lo < 0x40 && 0 <= q
    requires r == q * 0x40000 + hi * 0x1000 + mid * 0x40 + lo
    ensures r % 0x40 == lo && r / 0x40 == q * 0x1000 + hi * 0x40 + mid
    ensures r / 0x40 % 0x40 == mid && r / 0x1000 == q * 0x40 + hi
    ensures r / 0x1000 % 0x40 == hi && r / 0x40000 == q
  {
    var b := q * 0x40 + hi;
    var a := b * 0x40 + mid;
    assert r == a * 0x40 + lo;
    assert r / 0x40 == a && a / 0x40 == b && b / 0x40 == q;
  }

  lemma Base64Sum(r: int)
    requires 0 <= r
    ensures r == r / 0x40 * 0x40 + r % 0x40
    ensures r == r / 0x1000 * 0x1000 + r / 0x40 % 0x40 * 0x40 + r % 0x40
    ensures r == r / 0x40000 * 0x40000 + r / 0x1000 % 0x40 * 0x1000 + r / 0x40 % 0x40 * 0x40 + r % 0x40
  {
    var a := r / 0x40;
    var b := a / 0x40;
    assert b == r / 0x1000 && b / 0x40 == r / 0x40000;
  }

  lemma DecodeEncoded(r: Rune, rest: string)
    ensures DecodeRune(EncodeRune(r) + rest) == (r, |EncodeRune(r)|)
    ensures StartsWell(EncodeRune(r) + rest)
  {
    Base64Sum(r);
    var s := EncodeRune(r) + rest;
    if r < 0x80 {
      assert s[0] as int == r;
    } else if r < 0x800 {
      assert s[0] == Byte(0xC0 + r / 0x40) && s[1] == Byte(0x80 + r % 0x40);
    } else if r < 0x10000 {
      assert s[0] == Byte(0xE0 + r / 0x1000);
      assert s[1] == Byte(0x80 + r / 0x40 % 0x40) && s[2] == Byte(0x80 + r % 0x40);
    } else {
      assert s[0] == Byte(0xF0 + r / 0x40000) && s[1] == Byte(0x80 + r / 0x1000 % 0x40);
      assert s[2] == Byte(0x80 + r / 0x40 % 0x40) && s[3] == Byte(0x80 + r % 0x40);
    }
  }

  lemma EncodeDecoded(s: string)
    requires s != "" && StartsWell(s)
    ensures EncodeRune(DecodeRune(s).0) == s[..DecodeRune(s).1]
  {
    var (r, width) := DecodeRune(s);
    if width == 2 {
      Base64Digits(r, 0, 0, s[0] as int - 0xC0, Low6(s[1]));
    } else if width == 3 {
      Base64Digits(r, 0, s[0] as int - 0xE0, Low6(s[1]), Low6(s[2]));
    } else if width == 4 {
      Base64Digits(r, s[0] as int - 0xF0, Low6(s[1]), Low6(s[2]), Low6(s[3]));
    }
  }

  lemma {:induction false} RunesOfEncode(rs: seq<Rune>)
    ensures Runes(Encode(rs)) == rs && Valid(Encode(rs))
  {
    if rs != [] {
      var tail := Encode(rs[1..]);
      DecodeEncoded(rs[0], tail);
      assert (EncodeRune(rs[0]) + tail)[|EncodeRune(rs[0])|..] == tail;
      RunesOfEncode(rs[1..]);
    }
  }

  /** A string survives decoding and re-encoding exactly when it is valid UTF-8. */
  lemma {:induction false} LossyIsIdentityIffValid(s: string)
    ensures Lossy(s) == s <==> Valid(s)
  {
    if Valid(s) {
      EncodeOfRunes(s);
    } else {
      RunesOfEncode(Runes(s));
    }
  }

  lemma EncodeCons(r: Rune, rs: seq<Rune>)
    ensures Encode([r] + rs) == EncodeRune(r) + Encode(rs)
  {
    assert ([r] + rs)[1..] == rs;
  }

  lemma {:induction false} EncodeOfRunes(s: string)
    requires Valid(s)
    ensures Encode(Runes(s)) == s
  {
    if s != "" {
      var (r, width) := DecodeRune(s);
      EncodeOfRunes(s[width..]);
      EncodeCons(r, Runes(s[width..]));
      EncodeDecoded(s);
    }
  }

  lemma ValidStringsWithEqualRunes(a: string, b: string)
    requires Valid(a) && Valid(b) && Runes(a) == Runes(b)
    ensures a == b
  {
    EncodeOfRunes(a);
    EncodeOfRunes(b);
  }

  lemma {:induction false} AsciiIsValid(s: string)
    requires forall i | 0 <= i < |s| :: s[i] as int < 0x80
    ensures Valid(s)
  {
    if s != "" {
      AsciiIsValid(s[1..]);
    }
  }

  // -------------------------------------------- escaping rune by rune, byte by byte

  /** An escape table acts on ASCII only: bytes of longer sequences pass through. */
  ghost predicate AsciiOnly(esc: char -> string) {
    forall c: char :: c as int >= 0x80 ==> esc(c) == [c]
  }

  function EscapeRune(r: Rune, esc: char -> string): string
  {
    if r < 0x80 then esc(Byte(r)) else EncodeRune(r)
  }

  function EscapeRunes(rs: seq<Rune>, esc: char -> string): string
  {
    if rs == [] then "" else EscapeRune(rs[0], esc) + EscapeRunes(rs[1..], esc)
  }

  function EscapeBytes(s: string, esc: char -> string): string {
    if s == "" then "" else esc(s[0]) + EscapeBytes(s[1..], esc)
  }

  lemma {:induction false} EscapeBytesAppend(a: string, b: string, esc: char -> string)
    ensures EscapeBytes(a + b, esc) == EscapeBytes(a, esc) + EscapeBytes(b, esc)
  {
    if a == "" {
      assert a + b == b;
    } else {
      assert (a + b)[1..] == a[1..] + b;
      EscapeBytesAppend(a[1..], b, esc);
    }
  }

  lemma {:induction false} HighBytesPassThrough(s: string, esc: char -> string)
    requires AsciiOnly(esc)
    requires forall i | 0 <= i < |s| :: s[i] as int >= 0x80
    ensures EscapeBytes(s, esc) == s
  {
    if s != "" {
      HighBytesPassThrough(s[1..], esc);
      assert s == [s[0]] + s[1..];
    }
  }

  /** Escaping the code points of a string escapes the bytes of its lossy form. */
  lemma {:induction false} RunewiseIsBytewise(rs: seq<Rune>, esc: char -> string)
    requires AsciiOnly(esc)
    ensures EscapeRunes(rs, esc) == EscapeBytes(Encode(rs), esc)
  {
    if rs != [] {
      RunewiseIsBytewise(rs[1..], esc);
      EscapeBytesAppend(EncodeRune(rs[0]), Encode(rs[1..]), esc);
      if rs[0] < 0x80 {
        assert EscapeBytes([Byte(rs[0])], esc) == esc(Byte(rs[0])) + EscapeBytes("", esc);
      } else {
        HighBytesPassThrough(EncodeRune(rs[0]), esc);
      }
    }
  }

  lemma {:induction false} EscapeRunesSnoc(done: seq<Rune>, r: Rune, esc: char -> string)
    ensures EscapeRunes(done + [r], esc) == EscapeRunes(done, esc) + EscapeRune(r, esc)
    decreases |done|
  {
    if done == [] {
      assert done + [r] == [r];
      assert EscapeRunes([r], esc) == EscapeRune(r, esc) + EscapeRunes([], esc);
    } else {
      assert (done + [r])[1..] == done[1..] + [r];
      EscapeRunesSnoc(done[1..], r, esc);
    }
  }

  /** Byte offset `i` of `s` is where the range loop stands after visiting `done`. */
  ghost predicate RangeAt(s: string, i: nat, done: seq<Rune>) {
    i <= |s| && done + Runes(s[i..]) == Runes(s)
  }

  /** One turn of a range loop that appends an escaped rune to `text`. */
  lemma RangeTurn(s: string, i: nat, done: seq<Rune>, text: string, esc: char -> string)
    requires RangeAt(s, i, done) && i < |s|
    ensures var (r, width) := DecodeRune(s[i..]);
            RangeAt(s, i + width, done + [r])
            && text + EscapeRunes(done + [r], esc) == text + EscapeRunes(done, esc) + EscapeRune(r, esc)
  {
    var (r, width) := DecodeRune(s[i..]);
    assert s[i..][width..] == s[i + width..];
    assert done + Runes(s[i..]) == done + [r] + Runes(s[i + width..]);
    EscapeRunesSnoc(done, r, esc);
  }

  /** The loop's output is the escaped bytes of the string it read. */
  lemma RangeEnd(s: string, done: seq<Rune>, esc: char -> string)
    requires AsciiOnly(esc) && RangeAt(s, |s|, done)
    ensures EscapeRunes(done, esc) == EscapeBytes(Lossy(s), esc)
  {
    assert Runes(s[|s|..]) == [];
    assert done + [] == done == Runes(s);
    RunewiseIsBytewise(Runes(s), esc);
  }

  /** `strings.Builder`, shared by every call of one printing. */
  class Builder {
    var text: string

    constructor ()
      ensures text == ""
    {
      text := "";
    }

    method Write(s: string)
      modifies this
      ensures text == old(text) + s
    {
      text := text + s;
    }

    /** A range loop over `s` that writes each rune through an escape table. */
    method WriteEscaped(s: string, esc: char -> string)
      requires AsciiOnly(esc)
      modifies this
      ensures text == old(text) + EscapeBytes(Lossy(s), esc)
    {
      var i := 0;
      ghost var done: seq<Rune> := [];
      while i < |s|
        invariant RangeAt(s, i, done)
        invariant text == old(text) + EscapeRunes(done, esc)
      {
        var (r, width) := DecodeRune(s[i..]);
        RangeTurn(s, i, done, old(text), esc);
        Write(if r < 0x80 then esc(Byte(r)) else EncodeRune(r));
        done := done + [r];
        i := i + width;
      }
      RangeEnd(s, done, esc);
    }
  }
}
