/** Java's 32-bit `int`: its range, and the two's-complement wrap-around of `+`, `-` and `++`. */
module JavaInt {

  const MinInt: int := -0x8000_0000
  const MaxInt: int := 0x7fff_ffff
  const Modulus: int := 0x1_0000_0000

  /** True when `x` is representable as a Java `int`. */
  predicate Fits(x: int) {
    MinInt <= x <= MaxInt
  }

  type Int32 = x: int | -0x8000_0000 <= x <= 0x7fff_ffff

  /** The Java `int` that an exact result `x` becomes: the unique representable value congruent to `x` modulo 2^32. */
  function Wrap(x: int): (r: Int32)
    ensures (r - x) % Modulus == 0
    ensures Fits(x) ==> r == x
  {
    var m := (x - MinInt) % Modulus;
    MultipleOfModulus(-((x - MinInt) / Modulus));
    m + MinInt
  }

  lemma MultipleOfModulus(q: int)
    ensures (q * Modulus) % Modulus == 0
  {
  }

  /** Java's `a - b` on two `int`s. */
  function Sub(a: Int32, b: Int32): (r: Int32)
    ensures (r - (a - b)) % Modulus == 0
    ensures Fits(a - b) ==> r == a - b
  {
    Wrap(a - b)
  }

  /** Subtracting a value from itself never overflows and gives 0. */
  lemma SubSelf(a: Int32)
    ensures Sub(a, a) == 0
  {
  }

  /** Without overflow in either direction, swapping the operands negates the difference,
      and its sign is the sign of the exact difference. */
  lemma SubAntisymmetric(a: Int32, b: Int32)
    requires Fits(a - b) && Fits(b - a)
    ensures Sub(b, a) == -Sub(a, b)
    ensures Sub(a, b) < 0 <==> a < b
    ensures Sub(a, b) == 0 <==> a == b
  {
  }

  /** When the exact difference overflows, the result has the opposite sign: a larger `a` compares as smaller. */
  lemma SubOverflowFlips(a: Int32, b: Int32)
    requires !Fits(a - b)
    ensures a > b ==> Sub(a, b) < 0
    ensures a < b ==> Sub(a, b) > 0
  {
    var x := a - b;
    if a > b {
      assert (x - MinInt) % Modulus == x - MinInt - Modulus;
    } else {
      assert (x - MinInt) % Modulus == x - MinInt + Modulus;
    }
  }

  /** At the one difference whose negation also overflows, 2^31, both directions are negative:
      `MAX_VALUE - (-1)` and `(-1) - MAX_VALUE`. */
  lemma SubOverflowLosesSign()
    ensures Sub(MaxInt, -1) < 0 && Sub(-1, MaxInt) < 0
  {
    assert Sub(MaxInt, -1) == MinInt by {
      assert (MaxInt - -1 - MinInt) % Modulus == 0;
    }
  }
}
