/** Shared building blocks: an optional value, and Java's 32-bit `int`
    and truncating `long` division, which Dafny's unbounded Euclidean
    integers do not provide on their own. */
module Base {

  /** A value that may be absent: SQL NULL, a missing JSON field, or a
      Java `null` reference. */
  datatype Option<+T> = None | Some(value: T)

  const INT_MIN: int := -0x8000_0000
  const INT_MAX: int := 0x7fff_ffff

  /** Range of a Java `int`. */
  predicate IsInt32(n: int) {
    INT_MIN <= n <= INT_MAX
  }

  /** `Number.intValue()` of an integral value: keeps the low 32 bits,
      read as two's complement. */
  function Wrap32(n: int): (r: int)
    ensures IsInt32(r)
    ensures (r - n) % 0x1_0000_0000 == 0
    ensures IsInt32(n) ==> r == n
  {
    var low := n % 0x1_0000_0000;
    if low <= INT_MAX then low else low - 0x1_0000_0000
  }

  /** Java's `(int)` cast of a finite `double`, which `Double.intValue()`
      performs: rounds toward zero, then saturates at the ends of the `int`
      range, so the result is the `int` nearest to `x` on zero's side. */
  function DoubleIntValue(x: real): (r: int)
    ensures IsInt32(r)
    ensures x >= 0.0 ==> r as real <= x && (r == INT_MAX || x < (r + 1) as real)
    ensures x < 0.0 ==> x <= r as real && (r == INT_MIN || (r - 1) as real < x)
  {
    var t := if x >= 0.0 then x.Floor else -((-x).Floor);
    if t > INT_MAX then INT_MAX else if t < INT_MIN then INT_MIN else t
  }

  /** For a whole number in `int` range the double and the integral paths
      agree: both give the number itself. */
  lemma DoubleIntValueWhole(n: int)
    requires IsInt32(n)
    ensures DoubleIntValue(n as real) == n == Wrap32(n)
  {
  }

  /** Euclidean division of a non-negative number brackets it between two
      consecutive multiples of the divisor. */
  lemma DivBounds(a: int, d: int)
    requires 0 <= a && d > 0
    ensures 0 <= (a / d) * d <= a < (a / d) * d + d
  {
    assert (a / d) * d + a % d == a;
  }

  lemma NegMul(q: int, d: int)
    ensures (-q) * d == -(q * d)
  {
  }

  /** Java's `/` on integers for a positive divisor: rounds toward zero. */
  function Quot(a: int, d: int): (q: int)
    requires d > 0
    ensures 0 <= a ==> 0 <= q * d <= a < q * d + d
    ensures a < 0 ==> q * d - d < a <= q * d <= 0
  {
    if a >= 0 then
      DivBounds(a, d);
      a / d
    else
      DivBounds(-a, d);
      NegMul((-a) / d, d);
      -((-a) / d)
  }

  /** Java's `%` on integers for a positive divisor: the remainder takes
      the sign of the dividend. */
  function Rem(a: int, d: int): (r: int)
    requires d > 0
    ensures Quot(a, d) * d + r == a
    ensures 0 <= a ==> 0 <= r < d
    ensures a < 0 ==> -d < r <= 0
  {
    if a >= 0 then a % d else -((-a) % d)
  }

  function Max(a: int, b: int): int {
    if a >= b then a else b
  }
}
