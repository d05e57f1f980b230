/** Machine integers and C operators shared by the other modules. */
module CInt {
  const TWO31 := 0x8000_0000
  const TWO32 := 0x1_0000_0000
  const INT_MAX := 0x7FFF_FFFF
  const INT_MIN := -0x8000_0000

  /** The nanoseconds of a second. */
  const GIGA := 1_000_000_000

  type Octet = x: int | 0 <= x < 256
  type UInt16 = x: int | 0 <= x < 0x1_0000
  type UInt32 = x: int | 0 <= x < 0x1_0000_0000

  datatype Option<T> = None | Some(value: T)

  predicate FitsInt32(x: int) {
    INT_MIN <= x <= INT_MAX
  }

  /** C's `/`: the quotient is truncated toward zero. */
  function CDiv(a: int, b: int): int
    requires b != 0
  {
    if b < 0 then (if a >= 0 then -(a / -b) else -a / -b)
    else if a >= 0 then a / b
    else -(-a / b)
  }

  /** C's `%`: the remainder has the sign of the dividend. */
  function CMod(a: int, b: int): int
    requires b != 0
  {
    a - CDiv(a, b) * b
  }

  /** Truncation toward zero, in terms of multiplication: what is left has the sign of the dividend
      and is smaller than the divisor. */
  lemma CDivTruncates(a: int, b: int)
    requires b != 0
    ensures a == CDiv(a, b) * b + CMod(a, b) && Abs(CMod(a, b)) < Abs(b)
    ensures (CMod(a, b) > 0 ==> a > 0) && (CMod(a, b) < 0 ==> a < 0)
  {
    var q, r := Divided(Abs(a), Abs(b));
    QuotientOf(a, b);
    Signs(q, r, a, b, CDiv(a, b));
  }

  lemma QuotientOf(a: int, b: int)
    requires b != 0
    ensures CDiv(a, b) == if (a < 0) == (b < 0) then Abs(a) / Abs(b) else -(Abs(a) / Abs(b))
  {
    if a == 0 {
      DivModUnique(0, 0, 0, Abs(b));
    }
  }

  lemma Divided(x: nat, d: nat) returns (q: nat, r: nat)
    requires d > 0
    ensures q == x / d && x == q * d + r && 0 <= r < d
  {
    q, r := x / d, x % d;
  }

  lemma Signs(q: int, r: int, a: int, b: int, c: int)
    requires b != 0 && Abs(a) == q * Abs(b) + r && 0 <= r < Abs(b)
    requires c == if (a < 0) == (b < 0) then q else -q
    ensures a - c * b == if a < 0 then -r else r
  {
    if b < 0 {
      assert q * Abs(b) == -q * b;
    }
  }

  /** Conversion to a 32-bit unsigned word. */
  function U32(x: int): UInt32 {
    x % TWO32
  }

  /** Conversion to a 32-bit two's complement word. */
  function S32(x: int): int {
    (x + TWO31) % TWO32 - TWO31
  }

  lemma U32Small(x: int)
    requires 0 <= x < TWO32
    ensures U32(x) == x
  {
  }

  /** Both words are congruent to the number and in their range. */
  lemma WordsOf(x: int)
    ensures (x - U32(x)) % 0x1_0000_0000 == 0 && 0 <= U32(x) < 0x1_0000_0000
    ensures (x - S32(x)) % 0x1_0000_0000 == 0 && -0x8000_0000 <= S32(x) < 0x8000_0000
  {
    DivModUnique(x - U32(x), x / TWO32, 0, TWO32);
    DivModUnique(x - S32(x), (x + TWO31) / TWO32, 0, TWO32);
  }

  function Sign(x: int): int {
    if x < 0 then -1 else if x > 0 then 1 else 0
  }

  function Abs(x: int): int {
    if x < 0 then -x else x
  }

  function Min(a: int, b: int): int {
    if a < b then a else b
  }

  function Max(a: int, b: int): int {
    if a > b then a else b
  }

  lemma Distribute(a: int, b: int, c: int)
    ensures (a + b) * c == a * c + b * c && c * (a + b) == c * a + c * b
  {
  }

  lemma Associate(a: int, b: int, c: int)
    ensures a * b * c == a * (b * c)
  {
  }

  lemma MulAtLeast(k: int, d: int)
    requires k >= 1 && d > 0
    ensures k * d >= d
  {
  }

  /** Quotient and remainder are determined by their equation. */
  lemma DivModUnique(x: int, q: int, r: int, d: int)
    requires d > 0 && x == q * d + r && 0 <= r < d
    ensures x / d == q && x % d == r
  {
    var q', r' := x / d, x % d;
    assert (q - q') * d == r' - r && (q' - q) * d == r - r';
    if q > q' {
      MulAtLeast(q - q', d);
    } else if q < q' {
      MulAtLeast(q' - q, d);
    }
  }

  /** Reducing an operand first does not change a 32-bit sum or product. */
  lemma U32Sum(a: int, b: int)
    ensures U32(U32(a) + b) == U32(a + b)
  {
  }

  lemma U32Product(a: int, b: int)
    ensures U32(U32(a) * b) == U32(a * b)
  {
    var q, r := a / TWO32, U32(a);
    assert a * b == q * b * TWO32 + r * b;
    DivModUnique(a * b, q * b + r * b / TWO32, r * b % TWO32, TWO32);
  }
}
