/**
  Go's `int32` arithmetic on unbounded integers: two's-complement wrap-around for
  `+`, `-`, `*`, and Go's `/`, which truncates toward zero and wraps the single
  overflowing quotient `MinInt32 / -1`.
*/
module Word32 {

  const MinInt32: int := -0x8000_0000
  const MaxInt32: int := 0x7FFF_FFFF

  /** 2^32: the number of distinct `int32` values. */
  const Modulus: int := 0x1_0000_0000

  type Int32 = x: int | MinInt32 <= x <= MaxInt32

  function Abs(x: int): int {
    if x < 0 then -x else x
  }

  /** The `int32` value congruent to `x` modulo 2^32: what a Go `int32` holds
      after an operation whose exact result is `x`. */
  function Wrap(x: int): (r: Int32)
    ensures (r - x) % Modulus == 0
    ensures MinInt32 <= x <= MaxInt32 ==> r == x
  {
    (x - MinInt32) % Modulus + MinInt32
  }

  /** Two `int32` values that agree modulo 2^32 are equal, so `Wrap` is the only
      function with the contract above. */
  lemma CongruentInt32AreEqual(x: Int32, y: Int32)
    requires (x - y) % Modulus == 0
    ensures x == y
  {
    var k := (x - y) / Modulus;
    assert x - y == k * 0x1_0000_0000;
    SmallMultipleIsZero(x - y, k);
  }

  /** The only multiple of 2^32 strictly between -2^32 and 2^32 is 0. */
  lemma SmallMultipleIsZero(d: int, k: int)
    requires d == k * 0x1_0000_0000
    requires -0x1_0000_0000 < d < 0x1_0000_0000
    ensures d == 0
  {
  }

  /** Wrapping is determined by the residue: any two congruent integers wrap to
      the same `int32`. */
  lemma WrapCongruent(x: int, y: int)
    requires (x - y) % Modulus == 0
    ensures Wrap(x) == Wrap(y)
  {
    var wx, wy := Wrap(x), Wrap(y);
    var a, b, c := (wx - x) / Modulus, (x - y) / Modulus, (wy - y) / Modulus;
    assert wx - x == a * 0x1_0000_0000;
    assert x - y == b * 0x1_0000_0000;
    assert wy - y == c * 0x1_0000_0000;
    SmallMultipleIsZero(wx - wy, a + b - c);
  }

  function Add32(x: Int32, y: Int32): Int32 {
    Wrap(x + y)
  }

  function Sub32(x: Int32, y: Int32): Int32 {
    Wrap(x - y)
  }

  function Mul32(x: Int32, y: Int32): Int32 {
    Wrap(x * y)
  }

  /** Integer division truncated toward zero, as Go's `/` on unbounded integers.
      The contract is the law of section "Integer operators" of the Go language
      specification: `a == q*b + rem` with `|rem| < |b|` and `rem` carrying the
      sign of `a`. */
  function TruncDiv(a: int, b: int): (q: int)
    requires b != 0
    ensures a >= 0 ==> 0 <= a - q * b < Abs(b)
    ensures a < 0 ==> -Abs(b) < a - q * b <= 0
    ensures Abs(q) <= Abs(a)
  {
    var n := Abs(a) / Abs(b);
    var q := if (a < 0) == (b < 0) then n else -n;
    SignedQuotient(a, b, n, q);
    q
  }

  /** The quotient of the magnitudes, signed by the operands' signs, leaves a
      remainder as small as the divisor and signed like the dividend. */
  lemma SignedQuotient(a: int, b: int, n: int, q: int)
    requires b != 0 && n == Abs(a) / Abs(b)
    requires q == if (a < 0) == (b < 0) then n else -n
    ensures a >= 0 ==> 0 <= a - q * b < Abs(b)
    ensures a < 0 ==> -Abs(b) < a - q * b <= 0
    ensures Abs(q) <= Abs(a)
  {
    var x, y := Abs(a), Abs(b);
    TruncDivFacts(x, y);
    var p := n * y;
    ProductSigns(a, b, n, q);
    assert 0 <= x - p < y;
    if a >= 0 {
      assert q * b == p && a == x;
    } else {
      assert q * b == -p && a == -x;
    }
    assert n >= 0;
  }

  /** `q * b` is the product of the magnitudes, signed like `a`. */
  lemma ProductSigns(a: int, b: int, n: int, q: int)
    requires b != 0
    requires q == if (a < 0) == (b < 0) then n else -n
    ensures q * b == if a >= 0 then n * Abs(b) else -(n * Abs(b))
  {
    NegateFactors(n, b);
  }

  /** Negating one factor negates the product; negating both keeps it. */
  lemma NegateFactors(n: int, b: int)
    ensures (-n) * b == -(n * b)
    ensures n * (-b) == -(n * b)
    ensures (-n) * (-b) == n * b
  {
  }

  lemma TruncDivFacts(x: nat, y: nat)
    requires y > 0
    ensures 0 <= x - (x / y) * y < y
    ensures 0 <= x / y <= x
  {
    var n := x / y;
    assert x == n * y + x % y;
    MulMonotone(n, y);
  }

  lemma MulMonotone(n: nat, y: nat)
    requires y >= 1
    ensures n * y >= n
  {
    assert n * y == n * (y - 1) + n;
  }

  /** Go's `int32` division: truncating, with `MinInt32 / -1` wrapping back to
      `MinInt32`. */
  function Div32(x: Int32, y: Int32): (r: Int32)
    requires y != 0
    ensures x == MinInt32 && y == -1 ==> r == MinInt32
    ensures !(x == MinInt32 && y == -1) ==> r == TruncDiv(x, y)
  {
    var q := TruncDiv(x, y);
    if q == MaxInt32 + 1 then
      OnlyOverflowingQuotient(x, y);
      Wrap(q)
    else
      Wrap(q)
  }

  /** The only `int32` quotient outside `int32` is 2^31, from `MinInt32 / -1`. */
  lemma OnlyOverflowingQuotient(x: Int32, y: Int32)
    requires y != 0
    requires TruncDiv(x, y) == MaxInt32 + 1
    ensures x == MinInt32 && y == -1
  {
    var n := Abs(x) / Abs(y);
    TruncDivFacts(Abs(x), Abs(y));
    assert n == Abs(x) by {
      assert Abs(TruncDiv(x, y)) == n;
    }
    MulMonotone(n, Abs(y) - 1 + 1);
    assert n * Abs(y) == n * (Abs(y) - 1) + n;
  }
}
