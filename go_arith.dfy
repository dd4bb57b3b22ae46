/**
 Integer division as the Go language defines it for its integer types
 (Go Programming Language Specification, section "Integer operators"):
 the quotient `x / y` is truncated toward zero and the remainder `x % y`
 is `x - (x / y) * y`, so it takes the sign of the dividend.

 Dafny's own `/` and `%` are Euclidean (the remainder is never negative),
 so Go's operators are defined here on their own and related to Dafny's
 by lemmas.
 */
module GoArith {

  function Abs(x: int): nat
  {
    if x < 0 then -x else x
  }

  /** Quotient and remainder of magnitudes, by taking `b` away from `a` for as
      long as it fits. */
  function MagnitudeDivision(a: nat, b: nat): (qr: (nat, nat))
    requires b > 0
    ensures qr.0 * b + qr.1 == a && qr.1 < b
    decreases a
  {
    if a < b then (0, a)
    else
      var (q, r) := MagnitudeDivision(a - b, b);
      (q + 1, r)
  }

  /** Go's `x / y` on unbounded integers: the magnitude quotient, negated when
      the operands have opposite signs. */
  function Quot(x: int, y: int): int
    requires y != 0
  {
    var q: int := MagnitudeDivision(Abs(x), Abs(y)).0;
    if (x < 0) == (y < 0) then q else -q
  }

  /** Go's `x % y` on unbounded integers: the magnitude remainder, with the sign
      of the dividend. */
  function Rem(x: int, y: int): int
    requires y != 0
  {
    var r: int := MagnitudeDivision(Abs(x), Abs(y)).1;
    if x < 0 then -r else r
  }

  /** The relation Go requires of a quotient `q` and remainder `r` of `x` by `y`:
      `q * y + r == x`, `|r| < |y|`, and `r` is zero or has the sign of `x`. */
  predicate IsTruncatedDivision(x: int, y: int, q: int, r: int)
  {
    y != 0 && q * y + r == x && Abs(r) < Abs(y) && (r == 0 || (r < 0 <==> x < 0))
  }

  /** A multiple of `y` smaller in magnitude than `y` is zero. */
  lemma SmallMultipleIsZero(k: int, y: int)
    requires y != 0 && Abs(k * y) < Abs(y)
    ensures k == 0
  {
  }

  /** Quot and Rem meet Go's contract for every nonzero divisor. */
  lemma QuotRemContract(x: int, y: int)
    requires y != 0
    ensures IsTruncatedDivision(x, y, Quot(x, y), Rem(x, y))
  {
  }

  /** Go's quotient is the exact quotient rounded toward zero: its magnitude is
      the largest number of whole `|y|` that fit in `|x|`, and its sign is that
      of `x / y` whenever it is nonzero. */
  lemma QuotTruncatesTowardZero(x: int, y: int)
    requires y != 0
    ensures Abs(Quot(x, y)) * Abs(y) <= Abs(x) < (Abs(Quot(x, y)) + 1) * Abs(y)
    ensures (x < 0) == (y < 0) ==> Quot(x, y) >= 0
    ensures (x < 0) != (y < 0) ==> Quot(x, y) <= 0
  {
  }

  /** Go's contract fixes the quotient and remainder: any pair satisfying it is
      the one Quot and Rem give. */
  lemma TruncatedDivisionUnique(x: int, y: int, q: int, r: int)
    requires IsTruncatedDivision(x, y, q, r)
    ensures q == Quot(x, y) && r == Rem(x, y)
  {
    QuotRemContract(x, y);
    var q0, r0 := Quot(x, y), Rem(x, y);
    assert (q - q0) * y == r0 - r by {
      assert (q - q0) * y == q * y - q0 * y;
    }
    assert Abs(r0 - r) < Abs(y);
    SmallMultipleIsZero(q - q0, y);
  }

  /** Negating the dividend or the divisor negates the quotient. */
  lemma QuotNegation(x: int, y: int)
    requires y != 0
    ensures Quot(-x, y) == -Quot(x, y)
    ensures Quot(x, -y) == -Quot(x, y)
  {
  }

  /** The remainder follows the sign of the dividend and ignores the sign of
      the divisor. */
  lemma RemNegation(x: int, y: int)
    requires y != 0
    ensures Rem(-x, y) == -Rem(x, y)
    ensures Rem(x, -y) == Rem(x, y)
  {
  }

  /** How Go's division relates to Dafny's Euclidean division: they agree exactly
      when the dividend is non-negative or the division is exact; otherwise Go's
      quotient is one step closer to zero and its remainder is `|y|` lower. */
  lemma EuclideanRelation(x: int, y: int)
    requires y != 0
    ensures Quot(x, y) == x / y <==> x >= 0 || x % y == 0
    ensures Rem(x, y) == x % y <==> x >= 0 || x % y == 0
    ensures x < 0 && x % y != 0 ==>
              Quot(x, y) == x / y + (if y > 0 then 1 else -1) && Rem(x, y) == x % y - Abs(y)
    ensures Rem(x, y) == 0 <==> x % y == 0
  {
    var q, r := x / y, x % y;
    assert x == q * y + r && 0 <= r < Abs(y);
    if x >= 0 || r == 0 {
      TruncatedDivisionUnique(x, y, q, r);
    } else {
      var s := if y > 0 then 1 else -1;
      assert (q + s) * y == q * y + Abs(y);
      TruncatedDivisionUnique(x, y, q + s, r - Abs(y));
    }
  }

  // Go's `int` on a 64-bit platform: two's complement, wrapping on overflow.

  const MinInt64: int := -0x8000_0000_0000_0000
  const MaxInt64: int := 0x7fff_ffff_ffff_ffff
  const Modulus64: int := 0x1_0000_0000_0000_0000

  predicate IsInt64(x: int)
  {
    MinInt64 <= x <= MaxInt64
  }

  /** The 64-bit two's complement value congruent to `x`. */
  function Wrap64(x: int): (w: int)
    ensures IsInt64(w)
    ensures IsInt64(x) ==> w == x
  {
    (x - MinInt64) % Modulus64 + MinInt64
  }

  /** Go's `x / y` on 64-bit `int`. */
  function Quot64(x: int, y: int): int
    requires IsInt64(x) && IsInt64(y) && y != 0
  {
    Wrap64(Quot(x, y))
  }

  /** Go's `x % y` on 64-bit `int`. */
  function Rem64(x: int, y: int): int
    requires IsInt64(x) && IsInt64(y) && y != 0
  {
    Wrap64(Rem(x, y))
  }

  /** A 64-bit division overflows only for the most negative value divided by -1. */
  lemma QuotFitsInt64(x: int, y: int)
    requires IsInt64(x) && IsInt64(y) && y != 0
    ensures IsInt64(Rem(x, y))
    ensures IsInt64(Quot(x, y)) <==> !(x == MinInt64 && y == -1)
  {
  }

  /** On 64-bit operands the only overflow is the most negative value divided
      by -1, whose quotient wraps back to that value with remainder 0; every
      other division gives the unbounded result, and the contract
      `q * y + r == x` holds modulo 2^64 in every case. */
  lemma Int64Division(x: int, y: int)
    requires IsInt64(x) && IsInt64(y) && y != 0
    ensures Rem64(x, y) == Rem(x, y)
    ensures !(x == MinInt64 && y == -1) ==> Quot64(x, y) == Quot(x, y)
    ensures x == MinInt64 && y == -1 ==> Quot64(x, y) == MinInt64 && Rem64(x, y) == 0
    ensures Wrap64(Quot64(x, y) * y + Rem64(x, y)) == x
  {
    QuotFitsInt64(x, y);
    QuotRemContract(x, y);
    if x == MinInt64 && y == -1 {
      assert Quot(x, y) == -MinInt64;
      assert Rem(x, y) == 0;
    }
  }
}
