// The SSH wire form of a pinned key (internal/signedmut/userkeys.go): strings as
// in RFC 4251, section 5, holding an ed25519 key as in RFC 8709, section 4.
module SshWire {

  type byte = b: int | 0 <= b < 0x100

  const TWO32 := 0x1_0000_0000
  const KEY_SIZE := 32

  /** "ssh-ed25519" */
  const ALGORITHM: seq<byte> := [0x73, 0x73, 0x68, 0x2D, 0x65, 0x64, 0x32, 0x35, 0x35, 0x31, 0x39]

  function Uint32(b: seq<byte>): (n: nat)
    requires |b| >= 4
    ensures n < TWO32
  {
    var b0: int, b1: int, b2: int, b3: int := b[0], b[1], b[2], b[3];
    b0 * 0x100_0000 + b1 * 0x1_0000 + b2 * 0x100 + b3
  }

  function PutUint32(n: nat): (b: seq<byte>)
    requires n < TWO32
    ensures |b| == 4
  {
    [n / 0x100_0000, n / 0x1_0000 % 0x100, n / 0x100 % 0x100, n % 0x100]
  }

  /** `OutOfRange` is the run-time panic of a slice expression. */
  datatype Field = Field(val: seq<byte>, rest: seq<byte>) | Short | TooLong | OutOfRange

  /** Every length below is a uint32: the subtraction and the sum both wrap. */
  function ReadSshString(b: seq<byte>): Field {
    if |b| < 4 then Short
    else
      var n := Uint32(b);
      if (|b| - 4) % TWO32 < n then TooLong
      else
        var end := (4 + n) % TWO32;
        if 4 <= end <= |b| then Field(b[4..end], b[end..]) else OutOfRange
  }

  datatype ParseResult = Key(pub: seq<byte>) | Refused | Crashed

  function ParseWire(wire: seq<byte>): ParseResult {
    match ReadSshString(wire)
    case OutOfRange => Crashed
    case Short => Refused
    case TooLong => Refused
    case Field(algo, afterAlgo) =>
      if algo != ALGORITHM then Refused
      else
        match ReadSshString(afterAlgo)
        case OutOfRange => Crashed
        case Short => Refused
        case TooLong => Refused
        case Field(key, rest) =>
          if rest != [] || |key| != KEY_SIZE then Refused else Key(key)
  }

  function Marshalled(pub: seq<byte>): seq<byte> {
    PutUint32(|ALGORITHM|) + ALGORITHM + PutUint32(|pub| % TWO32) + pub
  }

  method MarshalSshEd25519(pub: seq<byte>) returns (out: seq<byte>)
    ensures out == Marshalled(pub)
  {
    out := [];
    var l := PutUint32(|ALGORITHM|);
    out := out + l;
    out := out + ALGORITHM;
    l := PutUint32(|pub| % TWO32);
    out := out + l;
    out := out + pub;
  }

  /** Byte by byte: most significant byte first, then the name, then the key. */
  lemma KeyLayout(pub: seq<byte>)
    requires |pub| == 32
    ensures Marshalled(pub) == [0, 0, 0, 11] + Ascii("ssh-ed25519") + [0, 0, 0, 32] + pub
    ensures Uint32([0x12, 0x34, 0x56, 0x78]) == 0x1234_5678
  {
    var name := "ssh-ed25519";
    assert |name| == |ALGORITHM| && forall i | 0 <= i < 11 :: ALGORITHM[i] == name[i] as int;
    assert Ascii(name) == ALGORITHM;
  }

  function Ascii(s: string): seq<byte>
    requires forall i | 0 <= i < |s| :: s[i] as int < 0x80
  {
    seq(|s|, i requires 0 <= i < |s| => s[i] as int as byte)
  }

  // ---------------------------------------------------------------- codec laws

  lemma Uint32OfPut(n: nat, rest: seq<byte>)
    requires n < TWO32
    ensures Uint32(PutUint32(n) + rest) == n
  {
    var a := n / 0x100;
    var b := a / 0x100;
    assert b == n / 0x1_0000 && b / 0x100 == n / 0x100_0000;
  }

  lemma PutOfUint32(b: seq<byte>)
    requires |b| >= 4
    ensures PutUint32(Uint32(b)) == b[..4]
  {
    var n := Uint32(b);
    var b0: int, b1: int, b2: int := b[0], b[1], b[2];
    assert n / 0x100 == b0 * 0x1_0000 + b1 * 0x100 + b2;
    assert n / 0x1_0000 == b0 * 0x100 + b1;
  }

  /** The reader panics exactly when the length prefix itself makes the sum wrap. */
  lemma PanicIffSumWraps(b: seq<byte>)
    ensures ReadSshString(b) == OutOfRange
        <==> |b| >= 4 && TWO32 - 4 <= Uint32(b) <= (|b| - 4) % TWO32
    ensures ReadSshString(b) == OutOfRange ==> |b| >= TWO32
  {
    if |b| >= 4 {
      var n := Uint32(b);
      if n < TWO32 - 4 {
        assert (4 + n) % TWO32 == 4 + n;
      } else {
        assert (4 + n) % TWO32 == n + 4 - TWO32;
      }
      if |b| < TWO32 {
        assert (|b| - 4) % TWO32 == |b| - 4;
      }
      assert (|b| - 4) % TWO32 <= |b| - 4;
    }
  }

  /** A field that was read is exactly the prefix it was read from. */
  lemma FieldIsPrefix(b: seq<byte>)
    requires ReadSshString(b).Field?
    ensures var f := ReadSshString(b); |f.val| < TWO32 && b == PutUint32(|f.val|) + f.val + f.rest
  {
    var n := Uint32(b);
    PanicIffSumWraps(b);
    assert (4 + n) % TWO32 == 4 + n by {
      assert (|b| - 4) % TWO32 <= |b| - 4;
    }
    PutOfUint32(b);
    assert b == b[..4] + b[4..4 + n] + b[4 + n..];
  }

  lemma ReadBackField(val: seq<byte>, rest: seq<byte>)
    requires 4 + |val| + |rest| < TWO32
    ensures ReadSshString(PutUint32(|val|) + val + rest) == Field(val, rest)
  {
    var b := PutUint32(|val|) + val + rest;
    assert b == PutUint32(|val|) + (val + rest);
    Uint32OfPut(|val|, val + rest);
    assert (|b| - 4) % TWO32 == |b| - 4 && (4 + |val|) % TWO32 == 4 + |val|;
    assert b[4..4 + |val|] == val && b[4 + |val|..] == rest;
  }

  /** The accepted blobs are exactly the marshalled 32-byte keys. */
  lemma ParseAcceptsExactlyMarshalledKeys(wire: seq<byte>, pub: seq<byte>)
    ensures ParseWire(wire) == Key(pub) <==> |pub| == KEY_SIZE && wire == Marshalled(pub)
  {
    if |pub| == KEY_SIZE && wire == Marshalled(pub) {
      var tail := PutUint32(KEY_SIZE) + pub;
      assert wire == PutUint32(|ALGORITHM|) + ALGORITHM + tail;
      ReadBackField(ALGORITHM, tail);
      assert tail == PutUint32(|pub|) + pub + [];
      ReadBackField(pub, []);
    }
    if ParseWire(wire) == Key(pub) {
      FieldIsPrefix(wire);
      var tail := ReadSshString(wire).rest;
      FieldIsPrefix(tail);
      assert tail == PutUint32(KEY_SIZE) + pub;
    }
  }

  /** No wire blob shorter than 4 GiB makes the parser panic. */
  lemma ParseNeverPanics(wire: seq<byte>)
    requires |wire| < TWO32
    ensures ParseWire(wire) != Crashed
  {
    PanicIffSumWraps(wire);
    if ReadSshString(wire).Field? {
      FieldIsPrefix(wire);
      PanicIffSumWraps(ReadSshString(wire).rest);
    }
  }

  /** Past 4 GiB it can: the prefix ff ff ff ff passes the length check and wraps. */
  lemma LongBufferPanics()
    ensures exists wire: seq<byte> :: |wire| == TWO32 + 3 && ParseWire(wire) == Crashed
  {
    var wire: seq<byte> := [0xFF, 0xFF, 0xFF, 0xFF] + seq(TWO32 - 1, _ => 0);
    assert Uint32(wire) == TWO32 - 1;
    PanicIffSumWraps(wire);
  }
}
