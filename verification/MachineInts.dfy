// Go's int64: two's-complement integers that wrap around.
module MachineInts {

  const TWO_63: int := 0x8000_0000_0000_0000
  const TWO_64: int := 0x1_0000_0000_0000_0000

  predicate IsInt64(x: int) {
    -TWO_63 <= x < TWO_63
  }

  type Int64 = x: int | IsInt64(x)

  /** What an int64 holds of an integer. */
  function Wrap64(x: int): Int64 {
    (x + TWO_63) % TWO_64 - TWO_63
  }

  /** Wrapping at every addition is wrapping once at the end. */
  lemma WrapAddition(a: int, b: int)
    ensures Wrap64(Wrap64(a) + b) == Wrap64(a + b)
  {
    var q := (a + TWO_63) / TWO_64;
    assert Wrap64(a) == a - q * TWO_64;
  }
}
