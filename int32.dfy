/**
 * Kotlin's `Int`: a 32-bit two's-complement integer whose `+` wraps around.
 * `Wrap` reduces a mathematical integer to the `Int` with the same low 32 bits.
 */
module Int32 {
  const TWO_31: int := 0x8000_0000
  const TWO_32: int := 0x1_0000_0000

  newtype int32 = x: int | -0x8000_0000 <= x < 0x8000_0000

  /** The 32-bit integer congruent to `x` modulo 2^32. */
  function Wrap(x: int): (r: int32)
    ensures -TWO_31 <= x < TWO_31 ==> r as int == x
    ensures exists q: int :: r as int == x + q * TWO_32
  {
    var q := (x + TWO_31) / TWO_32;
    assert (x - q * TWO_32) == x + (-q) * TWO_32;
    (x - q * TWO_32) as int32
  }

  /** Kotlin's `Int.plus`: the exact sum, wrapped to 32 bits. */
  function Add(a: int32, b: int32): (r: int32)
    ensures -TWO_31 <= a as int + b as int < TWO_31 ==> r as int == a as int + b as int
  {
    Wrap(a as int + b as int)
  }

  /** Wrapping only depends on the residue modulo 2^32. */
  lemma WrapShift(x: int, q: int)
    ensures Wrap(x + q * TWO_32) == Wrap(x)
  {
    var k := (x + TWO_31) / TWO_32;
    var k' := (x + q * TWO_32 + TWO_31) / TWO_32;
    assert k' == k + q;
  }

  /** Wrapping an intermediate result does not change a later wrapped sum. */
  lemma WrapAddLeft(x: int, y: int)
    ensures Wrap(Wrap(x) as int + y) == Wrap(x + y)
  {
    var q: int :| Wrap(x) as int == x + q * TWO_32;
    WrapShift(x + y, q);
    assert Wrap(x) as int + y == (x + y) + q * TWO_32;
  }
}
