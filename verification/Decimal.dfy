/**
 Fixed-point decimals: an i128 mantissa and a u8 scale, with the checked and truncating arithmetic
 that crates/sql/src/decimal.rs and crates/engine/src/check_violation_expr.rs perform on them.
 */
module Decimal {
  import opened Primitives

  const I128_MAX: int := 0x7FFF_FFFF_FFFF_FFFF_FFFF_FFFF_FFFF_FFFF
  const I128_MIN: int := -I128_MAX - 1

  type I128 = x: int | I128_MIN <= x <= I128_MAX
  type U8 = x: int | 0 <= x < 256

  predicate FitsI128(x: int) { I128_MIN <= x <= I128_MAX }

  datatype Decimal128 = Decimal128(mantissa: I128, scale: U8)

  // ---------------------------------------------------------------- powers of ten

  function Pow10(n: nat): (p: nat)
    ensures p >= 1
  {
    if n == 0 then 1 else 10 * Pow10(n - 1)
  }

  lemma {:induction false} Pow10Splits(m: nat, n: nat)
    ensures Pow10(m + n) == Pow10(m) * Pow10(n)
  {
    if m > 0 {
      Pow10Splits(m - 1, n);
      assert Pow10(m + n) == 10 * Pow10((m - 1) + n);
      assert 10 * (Pow10(m - 1) * Pow10(n)) == Pow10(m) * Pow10(n);
    }
  }

  lemma {:induction false} Pow10Grows(m: nat, n: nat)
    requires m <= n
    ensures Pow10(m) <= Pow10(n)
    ensures m < n ==> Pow10(m) < Pow10(n)
  {
    if m < n { Pow10Grows(m, n - 1); }
  }

  /** Ten to the 38th is the largest power of ten an i128 holds. */
  lemma Pow10Fits(n: nat)
    ensures Pow10(n) <= I128_MAX <==> n <= 38
    ensures n > 38 ==> 2 * (I128_MAX + 1) < Pow10(n)
  {
    assert Pow10(8) == 100000000;
    assert Pow10(16) == Pow10(8) * Pow10(8) by { Pow10Splits(8, 8); }
    assert Pow10(32) == Pow10(16) * Pow10(16) by { Pow10Splits(16, 16); }
    assert Pow10(6) == 1000000;
    assert Pow10(38) == Pow10(32) * Pow10(6) by { Pow10Splits(32, 6); }
    assert Pow10(39) == 10 * Pow10(38);
    if n <= 38 { Pow10Grows(n, 38); } else { Pow10Grows(39, n); }
  }

  /** 10^exp, or None once it leaves i128. */
  function CheckedPow10(exp: nat): Option<I128>
  {
    if exp <= 38 then
      Pow10Fits(exp);
      Some(Pow10(exp))
    else None
  }

  function CheckedMul(a: I128, b: I128): Option<I128>
  {
    if FitsI128(a * b) then Some(a * b) else None
  }

  /** The checked-multiplication loop computes exactly the representable powers. */
  method PowerOfTen(exp: U8) returns (r: Option<I128>)
    ensures r == CheckedPow10(exp)
  {
    var value: I128 := 1;
    var k := 0;
    while k < exp
      invariant 0 <= k <= exp && value == Pow10(k)
    {
      var next := CheckedMul(value, 10);
      Pow10Fits(k + 1);
      if next.None? { return None; }
      value := next.value;
      k := k + 1;
    }
    Pow10Fits(exp);
    r := Some(value);
  }

  function Abs(x: int): nat { if x < 0 then -x else x }

  /** The precision test is exact for every precision, although its loop gives up on overflow. */
  method NumericExceedsPrecision(mantissa: I128, precision: U8) returns (exceeds: bool)
    ensures exceeds <==> Abs(mantissa) >= Pow10(precision)
  {
    var bound: I128 := 1;
    var k := 0;
    while k < precision
      invariant 0 <= k <= precision && bound == Pow10(k)
    {
      var next := CheckedMul(bound, 10);
      Pow10Fits(k + 1);
      if next.None? {
        Pow10Fits(precision);
        return false;
      }
      bound := next.value;
      k := k + 1;
    }
    exceeds := Abs(mantissa) >= Abs(bound);
  }

  // ---------------------------------------------------------------- truncating division

  /** Rust's `/` and `%` on signed integers, for a positive divisor. */
  function TruncDiv(a: int, b: int): int
    requires b > 0
  {
    if a >= 0 then a / b else -((-a) / b)
  }

  function TruncRem(a: int, b: int): int
    requires b > 0
  {
    a - TruncDiv(a, b) * b
  }

  lemma TruncDivMeaning(a: int, b: int)
    requires b > 0
    ensures a >= 0 ==> 0 <= TruncRem(a, b) < b
    ensures a <= 0 ==> -b < TruncRem(a, b) <= 0
  {
    if a < 0 { assert -a == (-a) / b * b + (-a) % b; }
  }

  // ---------------------------------------------------------------- floor and ceiling on a lattice

  datatype LatticeValue =
    | Below          // under every i128
    | Value(v: I128)
    | Above          // over every i128
    | NonLattice     // between two adjacent lattice points

  function Exact(v: I128): (LatticeValue, LatticeValue) { (Value(v), Value(v)) }

  function OverflowPair(mantissa: I128): (LatticeValue, LatticeValue)
  {
    if mantissa < 0 then (Below, Below) else if mantissa > 0 then (Above, Above) else Exact(0)
  }

  lemma QuotientFits(m: I128, factor: I128)
    requires factor >= 10
    ensures I128_MIN < TruncDiv(m, factor) < I128_MAX
  {
    QuotientShrinks(Abs(m), factor);
  }

  lemma QuotientShrinks(n: nat, factor: int)
    requires factor >= 10
    ensures 0 <= 10 * (n / factor) <= n
  {
    var q := n / factor;
    assert n == q * factor + n % factor;
    if q > 0 { ScaleLe(10, factor, q); }
  }

  function DecimalFloorCeilAtScale(d: Decimal128, target: U8): (LatticeValue, LatticeValue)
  {
    if target >= d.scale then
      var factor := CheckedPow10(target - d.scale);
      if factor.None? then OverflowPair(d.mantissa)
      else match CheckedMul(d.mantissa, factor.value)
        case Some(value) => Exact(value)
        case None => OverflowPair(d.mantissa)
    else
      var factor := CheckedPow10(d.scale - target);
      if factor.None? then
        if d.mantissa < 0 then (Value(-1), Value(0)) else if d.mantissa == 0 then Exact(0) else (Value(0), Value(1))
      else
        assert factor.value >= 10 by { Pow10Grows(1, d.scale - target); }
        QuotientFits(d.mantissa, factor.value);
        var quotient := TruncDiv(d.mantissa, factor.value);
        if TruncRem(d.mantissa, factor.value) == 0 then Exact(quotient)
        else if d.mantissa < 0 then (Value(quotient - 1), Value(quotient))
        else (Value(quotient), Value(quotient + 1))
  }

  /** `num / den`, a rational with a positive denominator, lies at or above `f` and below `f + 1`. */
  ghost predicate IsFloor(f: int, num: int, den: int)
  {
    f * den <= num < (f + 1) * den
  }

  ghost predicate IsCeil(c: int, num: int, den: int)
  {
    (c - 1) * den < num <= c * den
  }

  /** The pair is the floor and the ceiling of `num / den` as far as an i128 can say. */
  ghost predicate FloorCeilOf(pair: (LatticeValue, LatticeValue), num: int, den: int)
  {
    && (match pair.0
        case Value(f) => IsFloor(f, num, den)
        case Below => num < I128_MIN * den
        case Above => I128_MAX * den < num
        case NonLattice => false)
    && (match pair.1
        case Value(c) => IsCeil(c, num, den)
        case Below => num < I128_MIN * den
        case Above => I128_MAX * den < num
        case NonLattice => false)
  }

  lemma ScaleLe(a: int, b: int, k: int)
    requires a <= b && k > 0
    ensures a * k <= b * k
  {
  }

  lemma ScaleLt(a: int, b: int, k: int)
    requires a < b && k > 0
    ensures a * k < b * k
  {
  }

  lemma MulAssociates(a: int, b: int, c: int)
    ensures a * b * c == a * (b * c)
  {
  }

  lemma FloorScales(f: int, num: int, den: int, k: int)
    requires k > 0 && IsFloor(f, num, den)
    ensures IsFloor(f, num * k, den * k)
  {
    ScaleLe(f * den, num, k);
    ScaleLt(num, (f + 1) * den, k);
    MulAssociates(f, den, k);
    MulAssociates(f + 1, den, k);
  }

  lemma CeilScales(c: int, num: int, den: int, k: int)
    requires k > 0 && IsCeil(c, num, den)
    ensures IsCeil(c, num * k, den * k)
  {
    ScaleLt((c - 1) * den, num, k);
    ScaleLe(num, c * den, k);
    MulAssociates(c - 1, den, k);
    MulAssociates(c, den, k);
  }

  /** For every mantissa and every pair of scales the result is the exact floor and ceiling of the
      decimal on the target lattice, and an overflow sentinel appears only when the true value lies
      outside i128. */
  lemma FloorCeilIsExact(d: Decimal128, target: U8)
    ensures FloorCeilOf(DecimalFloorCeilAtScale(d, target), d.mantissa * Pow10(target), Pow10(d.scale))
  {
    if target >= d.scale {
      var shift := target - d.scale;
      Pow10Splits(shift, d.scale);
      MulAssociates(d.mantissa, Pow10(shift), Pow10(d.scale));
      RaisedIsExact(d.mantissa, shift, Pow10(d.scale));
    } else {
      var shift := d.scale - target;
      Pow10Splits(shift, target);
      LoweredIsExact(d, target, Pow10(target));
    }
  }

  lemma RaisedIsExact(m: I128, shift: nat, den: int)
    requires den > 0
    ensures var pair := if CheckedPow10(shift).Some? && CheckedMul(m, CheckedPow10(shift).value).Some?
                        then Exact(m * Pow10(shift)) else OverflowPair(m);
      FloorCeilOf(pair, m * Pow10(shift) * den, den)
  {
    hide Pow10, IsFloor, IsCeil;
    var v := m * Pow10(shift);
    Pow10Fits(shift);
    if FitsI128(v) && shift <= 38 {
      ExactIsExact(v, den);
    } else if m == 0 {
      assert v == 0 && v * den == 0;
      ExactIsExact(0, den);
    } else {
      if shift > 38 { BigFactorOverflows(m, Pow10(shift)); }
      assert m < 0 ==> v < 0;
      if m < 0 { ScaleLt(v, I128_MIN, den); } else { ScaleLt(I128_MAX, v, den); }
    }
  }

  lemma ExactIsExact(v: I128, den: int)
    requires den > 0
    ensures FloorCeilOf(Exact(v), v * den, den)
  {
    assert (v + 1) * den == v * den + den && (v - 1) * den == v * den - den;
  }

  lemma BigFactorOverflows(m: int, factor: int)
    requires m != 0 && factor > I128_MAX + 1
    ensures !FitsI128(m * factor)
  {
    if m > 0 { assert m * factor >= factor; } else { assert m * factor <= -factor; }
  }

  /** Truncating division read as floor and ceiling. */
  lemma TruncPair(a: int, b: int)
    requires b > 0
    ensures var q, rest := TruncDiv(a, b), TruncRem(a, b);
      && (rest == 0 ==> IsFloor(q, a, b) && IsCeil(q, a, b))
      && (rest != 0 && a < 0 ==> IsFloor(q - 1, a, b) && IsCeil(q, a, b))
      && (rest != 0 && a >= 0 ==> IsFloor(q, a, b) && IsCeil(q + 1, a, b))
  {
    hide TruncDiv;
    TruncDivMeaning(a, b);
    var q := TruncDiv(a, b);
    assert (q + 1) * b == q * b + b && (q - 1) * b == q * b - b;
  }

  lemma TinyPair(m: int, factor: int)
    requires Abs(m) < factor
    ensures m < 0 ==> IsFloor(-1, m, factor) && IsCeil(0, m, factor)
    ensures m == 0 ==> IsFloor(0, m, factor) && IsCeil(0, m, factor)
    ensures m > 0 ==> IsFloor(0, m, factor) && IsCeil(1, m, factor)
  {
  }

  /** The pair computed below the decimal's own scale, against the dropped power of ten alone. */
  lemma LoweredPair(d: Decimal128, target: U8)
    requires target < d.scale
    ensures var pair := DecimalFloorCeilAtScale(d, target); var factor := Pow10(d.scale - target);
      && pair.0.Value? && pair.1.Value?
      && IsFloor(pair.0.v, d.mantissa, factor) && IsCeil(pair.1.v, d.mantissa, factor)
  {
    hide TruncDiv, TruncRem, IsFloor, IsCeil, Pow10;
    var factor := Pow10(d.scale - target);
    Pow10Fits(d.scale - target);
    if d.scale - target <= 38 { TruncPair(d.mantissa, factor); } else { TinyPair(d.mantissa, factor); }
  }

  lemma LoweredIsExact(d: Decimal128, target: U8, k: int)
    requires target < d.scale && k > 0
    ensures FloorCeilOf(DecimalFloorCeilAtScale(d, target), d.mantissa * k, Pow10(d.scale - target) * k)
  {
    hide IsFloor, IsCeil, DecimalFloorCeilAtScale, Pow10;
    var pair := DecimalFloorCeilAtScale(d, target);
    var factor := Pow10(d.scale - target);
    LoweredPair(d, target);
    FloorScales(pair.0.v, d.mantissa, factor, k);
    CeilScales(pair.1.v, d.mantissa, factor, k);
  }
}
