/**
 * The JVM integer arithmetic the timer relies on: Kotlin's `Int` and `Long`
 * are two's-complement values whose `*` wraps around, whose `/` truncates
 * toward zero and throws on a zero divisor, and whose `%` takes the sign of
 * the dividend.
 */
module JvmInt {
  import opened Options

  const IntMin: int := -0x8000_0000
  const IntMax: int := 0x7FFF_FFFF
  const LongMin: int := -0x8000_0000_0000_0000
  const LongMax: int := 0x7FFF_FFFF_FFFF_FFFF

  /** Kotlin `Int`. */
  type Int32 = x: int | -0x8000_0000 <= x <= 0x7FFF_FFFF

  /** Kotlin `Long`. */
  type Int64 = x: int | -0x8000_0000_0000_0000 <= x <= 0x7FFF_FFFF_FFFF_FFFF

  function Abs(x: int): nat { if x < 0 then -x else x }

  /** A measure that shrinks as a value is brought closer to zero from either side. */
  function Distance(x: int): nat { if x >= 0 then 2 * x + 1 else -2 * x }

  /**
   * The 32-bit value congruent to `x` modulo 2^32: the result of an `Int`
   * operation whose exact value is `x`, and of `Long.toInt()`, which keeps
   * the low 32 bits.
   */
  function WrapInt(x: int): (r: Int32)
    ensures IntMin <= x <= IntMax ==> r == x
    decreases Distance(x)
  {
    if x < IntMin then WrapInt(x + 0x1_0000_0000)
    else if x > IntMax then WrapInt(x - 0x1_0000_0000)
    else x
  }

  /** Adding a multiple of 2^32 does not change the `Int` result. */
  lemma {:induction false} WrapIntPeriodic(x: int, n: nat)
    ensures WrapInt(x + n * 0x1_0000_0000) == WrapInt(x)
    decreases n
  {
    if n > 0 {
      var y := x + (n - 1) * 0x1_0000_0000;
      WrapIntPeriodic(x, n - 1);
      assert x + n * 0x1_0000_0000 == y + 0x1_0000_0000;
      assert WrapInt(y + 0x1_0000_0000) == WrapInt(y);
    }
  }

  /** The 64-bit value congruent to `x` modulo 2^64: the result of a `Long` operation. */
  function WrapLong(x: int): (r: Int64)
    ensures LongMin <= x <= LongMax ==> r == x
    decreases Distance(x)
  {
    if x < LongMin then WrapLong(x + 0x1_0000_0000_0000_0000)
    else if x > LongMax then WrapLong(x - 0x1_0000_0000_0000_0000)
    else x
  }

  /** Adding a multiple of 2^64 does not change the `Long` result. */
  lemma {:induction false} WrapLongPeriodic(x: int, n: nat)
    ensures WrapLong(x + n * 0x1_0000_0000_0000_0000) == WrapLong(x)
    decreases n
  {
    if n > 0 {
      var y := x + (n - 1) * 0x1_0000_0000_0000_0000;
      WrapLongPeriodic(x, n - 1);
      assert x + n * 0x1_0000_0000_0000_0000 == y + 0x1_0000_0000_0000_0000;
      assert WrapLong(y + 0x1_0000_0000_0000_0000) == WrapLong(y);
    }
  }

  /** The quotient of JVM integer division by a positive divisor: rounded toward zero. */
  function Quot(a: int, b: int): (q: int)
    requires b > 0
    ensures a >= 0 ==> q >= 0
    ensures a <= 0 ==> q <= 0
  {
    EuclidFacts(Abs(a), b);
    if a >= 0 then a / b else -((-a) / b)
  }

  /** The JVM remainder `a % b` by a positive divisor: it takes the sign of the dividend. */
  function Rem(a: int, b: int): (r: int)
    requires b > 0
    ensures a >= 0 ==> 0 <= r < b
    ensures a < 0 ==> -b < r <= 0
  {
    EuclidFacts(Abs(a), b);
    if a >= 0 then a % b else -((-a) % b)
  }

  /**
   * Quotient and remainder recompose the dividend; the remainder is smaller
   * than the divisor and has the sign of the dividend, so the quotient is
   * rounded toward zero and no larger in size than the dividend.
   */
  lemma QuotRem(a: int, b: int)
    requires b > 0
    ensures a == b * Quot(a, b) + Rem(a, b)
    ensures a >= 0 ==> 0 <= Rem(a, b) < b
    ensures a < 0 ==> -b < Rem(a, b) <= 0
    ensures Abs(Quot(a, b)) <= Abs(a)
  {
    EuclidFacts(Abs(a), b);
  }

  lemma EuclidFacts(a: nat, b: int)
    requires b > 0
    ensures a == b * (a / b) + a % b && 0 <= a % b < b
    ensures 0 <= a / b <= a
  {
    var q := a / b;
    assert a == b * q + a % b;
    assert q >= 0;
    assert b * q == q + (b - 1) * q;
    MulNonNegative(b - 1, q);
  }

  lemma MulNonNegative(x: nat, y: nat)
    ensures x * y >= 0
  {
  }

  /**
   * Kotlin `Int` division: `None` stands for the `ArithmeticException`
   * thrown on a zero divisor; the one overflowing case, `IntMin / -1`,
   * wraps back to `IntMin`.
   */
  function DivInt(a: Int32, b: Int32): (r: Option<Int32>)
    ensures r.None? <==> b == 0
    ensures b > 0 ==> r == Some(Quot(a, b))
  {
    if b == 0 then None
    else if b > 0 then Some(Quot(a, b))
    else Some(WrapInt(-Quot(a, -(b as int))))
  }

}
