/** The unchecked 32-bit signed arithmetic of C#'s `int`. */
module Int32 {

  const Modulus: int := 0x1_0000_0000
  const MinValue: int := -0x8000_0000
  const MaxValue: int := 0x7FFF_FFFF

  predicate InRange(x: int) {
    MinValue <= x <= MaxValue
  }

  /** The value an unchecked `int` operation yields for the mathematical result `x`. */
  function Wrap(x: int): (r: int)
    ensures InRange(r)
    ensures (r - x) % Modulus == 0
    ensures InRange(x) ==> r == x
  {
    (x - MinValue) % Modulus + MinValue
  }

  /** Wrapping an intermediate result does not change later additions and multiplications. */
  lemma WrapMulAdd(x: int, m: int, d: int)
    ensures Wrap(Wrap(x) * m + d) == Wrap(x * m + d)
  {
    var k := (Wrap(x) - x) / Modulus;
    assert Wrap(x) == x + k * Modulus;
    assert Wrap(x) * m + d == x * m + d + (k * m) * Modulus;
    ShiftByMultiple(x * m + d, k * m);
  }

  lemma ShiftByMultiple(y: int, k: int)
    ensures Wrap(y + k * Modulus) == Wrap(y)
  {
    assert (y + k * Modulus - MinValue) % Modulus == (y - MinValue) % Modulus;
  }
}
