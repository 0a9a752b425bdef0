/**
 * Java's `int`: a 32-bit two's-complement integer whose `+` and unary `-`
 * wrap around silently. Stocks, stock adjustments and order quantities
 * are Java ints, so their arithmetic goes through `Add` and `Neg`.
 */
module JavaInt {
  const MODULUS: int := 0x1_0000_0000
  const MIN_VALUE: int := -0x8000_0000
  const MAX_VALUE: int := 0x7fff_ffff

  type Int32 = x: int | MIN_VALUE <= x <= MAX_VALUE

  /**
   * The int a mathematical integer is reduced to: add or subtract 2^32
   * until the value lies in the int range.
   */
  function Wrap(x: int): (r: Int32)
    ensures MIN_VALUE <= x <= MAX_VALUE ==> r == x
    decreases if x > MAX_VALUE then x - MAX_VALUE else if x < MIN_VALUE then MIN_VALUE - x else 0
  {
    if x > MAX_VALUE then Wrap(x - MODULUS)
    else if x < MIN_VALUE then Wrap(x + MODULUS)
    else x
  }

  /** Java `a + b` on ints. */
  function Add(a: Int32, b: Int32): (r: Int32)
    ensures MIN_VALUE <= a + b <= MAX_VALUE ==> r == a + b
  {
    Wrap(a as int + b)
  }

  /** Java `-a` on ints (so `-MIN_VALUE == MIN_VALUE`). */
  function Neg(a: Int32): (r: Int32)
    ensures a != MIN_VALUE ==> r == -a
    ensures a == MIN_VALUE ==> r == MIN_VALUE
  {
    Wrap(-(a as int))
  }

  /** Wrapping differs from its argument by a whole number of 2^32 steps. */
  lemma {:induction false} WrapOffset(x: int) returns (k: int)
    ensures Wrap(x) == x + k * MODULUS
    decreases if x > MAX_VALUE then x - MAX_VALUE else if x < MIN_VALUE then MIN_VALUE - x else 0
  {
    if x > MAX_VALUE {
      k := WrapOffset(x - MODULUS);
      k := k - 1;
    } else if x < MIN_VALUE {
      k := WrapOffset(x + MODULUS);
      k := k + 1;
    } else {
      k := 0;
    }
  }

  /** Wrapping ignores whole multiples of 2^32. */
  lemma {:induction false} WrapPeriodic(x: int, k: int)
    ensures Wrap(x + k * MODULUS) == Wrap(x)
    decreases if k < 0 then -k else k
  {
    if k > 0 {
      WrapPeriodic(x, k - 1);
      assert Wrap(x + k * MODULUS) == Wrap(x + (k - 1) * MODULUS);
    } else if k < 0 {
      WrapPeriodic(x, k + 1);
      assert Wrap(x + (k + 1) * MODULUS) == Wrap(x + k * MODULUS);
    }
  }

  /** Wrapping an intermediate result does not change the final wrapped sum. */
  lemma WrapAbsorbs(x: int, y: int)
    ensures Wrap(Wrap(x) + y) == Wrap(x + y)
  {
    var k := WrapOffset(x);
    WrapPeriodic(x + y, k);
  }

  /** `s + (-q)` in Java is the wrapped difference `s - q`. */
  lemma AddNeg(s: Int32, q: Int32)
    ensures Add(s, Neg(q)) == Wrap(s - q)
  {
    WrapAbsorbs(-(q as int), s);
  }

  /** Taking `q` away and then adding it back restores every int, overflow or not. */
  lemma {:induction false} AddNegThenAdd(s: Int32, q: Int32)
    ensures Add(Add(s, Neg(q)), q) == s
  {
    AddNeg(s, q);
    WrapAbsorbs(s - q, q);
  }
}
