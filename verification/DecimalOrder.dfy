/**
 `Decimal128::compare` of crates/sql/src/decimal.rs against the exact order of the two rationals.

 Its comment asks for a consistent total order.  The comparison is exact whenever the narrower
 operand can be aligned upwards; when that overflows, the last resort rounds the wider operand half
 up and can report two different numbers as equal.  `CompareExactIff` says exactly when.  That takes a
 mantissa of 39 digits, so on every value a column can store the order is total: `CompareIsTotalOrder`.
 */
module DecimalOrder {
  import opened Primitives
  import opened Decimal

  datatype Order = Less | Equal | Greater

  function Cmp(a: int, b: int): Order
  {
    if a < b then Less else if a == b then Equal else Greater
  }

  function Flip(o: Order): Order
  {
    match o case Less => Greater case Equal => Equal case Greater => Less
  }

  // ---------------------------------------------------------------- the code

  /** Unsigned division, rounding a tie or more up. */
  function RoundHalfUp(n: nat, factor: int): (q: nat)
    requires factor > 0
  {
    n / factor + if 2 * (n % factor) >= factor then 1 else 0
  }

  function Negated(negative: bool, n: int): int { if negative then -n else n }

  lemma RoundedFits(n: nat, factor: int)
    requires n <= I128_MAX + 1 && factor >= 10
    ensures RoundHalfUp(n, factor) <= I128_MAX
  {
    QuotientShrinks(n, factor);
  }

  /** Move to another scale: exact upwards unless it overflows, half-up away from zero downwards. */
  function Rescale(d: Decimal128, target: U8): Option<Decimal128>
  {
    if target == d.scale then Some(d)
    else if target > d.scale then
      var factor := CheckedPow10(target - d.scale);
      if factor.None? then None
      else match CheckedMul(d.mantissa, factor.value)
        case Some(m) => Some(Decimal128(m, target))
        case None => None
    else
      var factor := CheckedPow10(d.scale - target);
      if factor.None? then Some(Decimal128(0, target))
      else
        assert factor.value >= 10 by { Pow10Grows(1, d.scale - target); }
        RoundedFits(Abs(d.mantissa), factor.value);
        Some(Decimal128(Negated(d.mantissa < 0, RoundHalfUp(Abs(d.mantissa), factor.value)), target))
  }

  function IntegerPart(d: Decimal128): int
  {
    var factor := CheckedPow10(d.scale);
    if factor.None? then 0 else TruncDiv(d.mantissa, factor.value)
  }

  function Signum(x: int): int { if x < 0 then -1 else if x == 0 then 0 else 1 }

  function Compare(a: Decimal128, b: Decimal128): Order
  {
    if a.scale == b.scale then Cmp(a.mantissa, b.mantissa)
    else
      var wider := if a.scale < b.scale then b.scale else a.scale;
      var narrower := if a.scale < b.scale then a.scale else b.scale;
      var l, r := Rescale(a, wider), Rescale(b, wider);
      if l.Some? && r.Some? then Cmp(l.value.mantissa, r.value.mantissa)
      else if Signum(a.mantissa) != Signum(b.mantissa) then Cmp(Signum(a.mantissa), Signum(b.mantissa))
      else if IntegerPart(a) != IntegerPart(b) then Cmp(IntegerPart(a), IntegerPart(b))
      else
        var l, r := Rescale(a, narrower), Rescale(b, narrower);
        if l.Some? && r.Some? then Cmp(l.value.mantissa, r.value.mantissa) else Equal
  }

  // ---------------------------------------------------------------- the order it should compute

  /** The order of the rationals themselves, cross-multiplied. */
  function ExactOrder(a: Decimal128, b: Decimal128): Order
  {
    Cmp(a.mantissa * Pow10(b.scale), b.mantissa * Pow10(a.scale))
  }

  /** Aligning the narrower operand overflows, it is not a whole number, and the wider one rounds to it. */
  ghost predicate Blurred(narrow: Decimal128, wide: Decimal128)
    requires narrow.scale < wide.scale
  {
    var factor := Pow10(wide.scale - narrow.scale);
    && !FitsI128(narrow.mantissa * factor)
    && Signum(narrow.mantissa) == Signum(wide.mantissa)
    && Abs(narrow.mantissa) % Pow10(narrow.scale) != 0
    && RoundHalfUp(Abs(wide.mantissa), factor) == Abs(narrow.mantissa)
  }

  // ---------------------------------------------------------------- proof

  lemma ExactOrderAligned(narrow: Decimal128, wide: Decimal128)
    requires narrow.scale < wide.scale
    ensures ExactOrder(narrow, wide) == Cmp(narrow.mantissa * Pow10(wide.scale - narrow.scale), wide.mantissa)
  {
    var gap := wide.scale - narrow.scale;
    var k := Pow10(narrow.scale);
    var aligned := narrow.mantissa * Pow10(gap);
    Pow10Splits(gap, narrow.scale);
    MulAssociates(narrow.mantissa, Pow10(gap), k);
    if aligned < wide.mantissa { ScaleLt(aligned, wide.mantissa, k); }
    if wide.mantissa < aligned { ScaleLt(wide.mantissa, aligned, k); }
  }

  lemma QuotientBelow(n: int, d: int, q: int)
    requires d > 0 && n < (q + 1) * d
    ensures n / d <= q
  {
    var m := n / d;
    assert n == m * d + n % d;
    if m > q { ScaleLe(q + 1, m, d); }
  }

  lemma QuotientAtLeast(n: int, d: int, q: int)
    requires d > 0 && q * d <= n
    ensures q <= n / d
  {
    var m := n / d;
    assert n == m * d + n % d;
    if m < q { ScaleLe(m + 1, q, d); }
  }

  /** `b` falls short of `a` aligned by `f`: how the two last resorts see them. */
  lemma ShortfallSeenBy(a: nat, b: nat, p: nat, f: int)
    requires p > 0 && f >= 10 && b < a * f
    ensures p * f > 0 && b / (p * f) <= a / p
    ensures RoundHalfUp(b, f) <= a
    ensures RoundHalfUp(b, f) == a ==> (b / (p * f) == a / p <==> a % p != 0)
  {
    assert p * f > 0 by { ScaleLt(0, p, f); }
    var c := a / p;
    assert a == c * p + a % p;
    assert a < (c + 1) * p;
    ScaleLe(a, (c + 1) * p, f);
    MulAssociates(c + 1, p, f);
    QuotientBelow(b, p * f, c);
    QuotientBelow(b, f, a - 1);
    if RoundHalfUp(b, f) == a {
      assert b / f == a - 1 by { assert b / f == a || b / f == a - 1; }
      assert (a - 1) * f <= b by { assert b == b / f * f + b % f; }
      if a % p == 0 {
        MulAssociates(c, p, f);
        QuotientBelow(b, p * f, c - 1);
      } else {
        ScaleLe(c * p, a - 1, f);
        MulAssociates(c, p, f);
        QuotientAtLeast(b, p * f, c);
      }
    }
  }

  lemma SmallQuotient(n: nat, d: int)
    requires 2 * n < d
    ensures n / d == 0 && RoundHalfUp(n, d) == 0
  {
    assert n / d == 0 && n % d == n;
  }

  /** The integer part and the downward rescale, with no representability case left. */
  lemma LastResorts(d: Decimal128, target: U8)
    requires target <= d.scale
    ensures IntegerPart(d) == Negated(d.mantissa < 0, Abs(d.mantissa) / Pow10(d.scale))
    ensures target < d.scale ==>
      var rounded := RoundHalfUp(Abs(d.mantissa), Pow10(d.scale - target));
      FitsI128(rounded) && Rescale(d, target) == Some(Decimal128(Negated(d.mantissa < 0, rounded), target))
    ensures Rescale(d, d.scale) == Some(d)
  {
    hide Pow10, RoundHalfUp;
    Pow10Fits(d.scale);
    if d.scale > 38 { SmallQuotient(Abs(d.mantissa), Pow10(d.scale)); }
    if target < d.scale { RoundsDown(d, d.scale - target); }
  }

  lemma RoundsDown(d: Decimal128, drop: nat)
    requires 0 < drop <= d.scale
    ensures FitsI128(RoundHalfUp(Abs(d.mantissa), Pow10(drop)))
    ensures drop > 38 ==> RoundHalfUp(Abs(d.mantissa), Pow10(drop)) == 0
  {
    hide Pow10, RoundHalfUp;
    Pow10Fits(drop);
    if drop > 38 {
      SmallQuotient(Abs(d.mantissa), Pow10(drop));
    } else {
      TenIsTen();
      Pow10Grows(1, drop);
      RoundedFits(Abs(d.mantissa), Pow10(drop));
    }
  }

  lemma AlignmentFitsOrNot(narrow: Decimal128, target: U8)
    requires narrow.scale < target
    ensures var aligned := narrow.mantissa * Pow10(target - narrow.scale);
      && (Rescale(narrow, target).Some? ==>
            FitsI128(aligned) && Rescale(narrow, target) == Some(Decimal128(aligned, target)))
      && (Rescale(narrow, target).None? && narrow.mantissa != 0 ==> !FitsI128(aligned))
  {
    var gap := target - narrow.scale;
    Pow10Fits(gap);
    if gap > 38 && narrow.mantissa != 0 { BigFactorOverflows(narrow.mantissa, Pow10(gap)); }
  }

  /** Both operands on the same side of zero and the narrow one out of reach: it is the larger. */
  lemma OutOfReach(n: int, w: I128, f: int)
    requires f >= 10 && !FitsI128(n * f) && n != 0 && Signum(n) == Signum(w)
    ensures Abs(w) < Abs(n) * f
    ensures Cmp(n * f, w) == if n > 0 then Greater else Less
  {
    if n > 0 {
      assert n * f > 0;
    } else {
      assert n * f < 0 && Abs(n) * f == -(n * f);
    }
  }

  lemma NarrowAgainstWide(narrow: Decimal128, wide: Decimal128)
    requires narrow.scale < wide.scale
    ensures Compare(narrow, wide) == ExactOrder(narrow, wide) <==> !Blurred(narrow, wide)
    ensures Blurred(narrow, wide) ==> Compare(narrow, wide) == Equal
  {
    hide Pow10, RoundHalfUp, Rescale, IntegerPart;
    var gap := wide.scale - narrow.scale;
    var f, n, w := Pow10(gap), narrow.mantissa, wide.mantissa;
    ExactOrderAligned(narrow, wide);
    AlignmentFitsOrNot(narrow, wide.scale);
    LastResorts(wide, narrow.scale);
    LastResorts(narrow, narrow.scale);
    if n == 0 {
      assert n * f == 0;
      SmallQuotient(0, Pow10(narrow.scale));
      SmallQuotient(0, Pow10(wide.scale));
      SmallQuotient(0, f);
    } else if Rescale(narrow, wide.scale).None? {
      if Signum(n) == Signum(w) {
        assert f >= 10 by { Pow10Grows(1, gap); TenIsTen(); }
        OutOfReach(n, w, f);
        Pow10Splits(narrow.scale, gap);
        ShortfallSeenBy(Abs(n), Abs(w), Pow10(narrow.scale), f);
      } else {
        assert n > 0 ==> n * f > 0;
        assert n < 0 ==> n * f < 0;
      }
    }
  }

  /** What blurring hides is that the narrow operand is the larger in magnitude. */
  lemma BlurHidesTheLarger(narrow: Decimal128, wide: Decimal128)
    requires narrow.scale < wide.scale && Blurred(narrow, wide)
    ensures ExactOrder(narrow, wide) == if narrow.mantissa > 0 then Greater else Less
  {
    hide Pow10, RoundHalfUp, ExactOrder;
    var gap := wide.scale - narrow.scale;
    SmallQuotient(0, Pow10(narrow.scale));
    assert narrow.mantissa != 0;
    assert Pow10(gap) >= 10 by { Pow10Grows(1, gap); TenIsTen(); }
    ExactOrderAligned(narrow, wide);
    OutOfReach(narrow.mantissa, wide.mantissa, Pow10(gap));
  }

  lemma TenIsTen()
    ensures Pow10(1) == 10
  {
  }

  /** The comparison of two decimals is the exact order of the rationals they denote, unless the
      narrower one is blurred by the wider one; and then the answer is always `Equal`, never a wrong
      direction. */
  lemma CompareExactIff(a: Decimal128, b: Decimal128)
    ensures a.scale == b.scale ==> Compare(a, b) == ExactOrder(a, b)
    ensures a.scale < b.scale ==> (Compare(a, b) == ExactOrder(a, b) <==> !Blurred(a, b))
    ensures a.scale > b.scale ==> (Compare(a, b) == ExactOrder(a, b) <==> !Blurred(b, a))
    ensures Compare(a, b) != ExactOrder(a, b) ==> Compare(a, b) == Equal
    ensures Compare(b, a) == Flip(Compare(a, b))
  {
    hide Pow10, RoundHalfUp, Rescale, IntegerPart, Blurred;
    if a.scale < b.scale {
      NarrowAgainstWide(a, b);
    } else if b.scale < a.scale {
      NarrowAgainstWide(b, a);
    } else {
      var k := Pow10(a.scale);
      if a.mantissa < b.mantissa { ScaleLt(a.mantissa, b.mantissa, k); }
      if b.mantissa < a.mantissa { ScaleLt(b.mantissa, a.mantissa, k); }
    }
  }

  // ---------------------------------------------------------------- up to 38 digits

  /** What a column of any declarable precision can store. */
  predicate Within38Digits(d: Decimal128) { Abs(d.mantissa) < Pow10(38) }

  lemma RoundsToNearest(n: nat, f: int)
    requires f > 0
    ensures 2 * (RoundHalfUp(n, f) * f) <= 2 * n + f
  {
    var q := n / f;
    assert n == q * f + n % f;
    assert (q + 1) * f == q * f + f;
  }

  /** Blurring takes a wide operand of 39 digits, whatever the narrow one is. */
  lemma ShortIsNeverBlurred(narrow: Decimal128, wide: Decimal128)
    requires narrow.scale < wide.scale && Within38Digits(wide)
    ensures !Blurred(narrow, wide)
  {
    hide Pow10, RoundHalfUp;
    var gap := wide.scale - narrow.scale;
    var f, n, w := Pow10(gap), Abs(narrow.mantissa), Abs(wide.mantissa);
    LargePowers();
    Pow10Fits(gap);
    if RoundHalfUp(w, f) == n {
      if gap > 38 {
        SmallQuotient(w, f);
        SmallQuotient(0, Pow10(narrow.scale));
        assert n % Pow10(narrow.scale) == 0;
      } else {
        Pow10Grows(gap, 38);
        RoundsToNearest(w, f);
        assert n * f <= I128_MAX;
        assert narrow.mantissa * f == n * f || narrow.mantissa * f == -(n * f);
      }
    }
  }

  lemma CompareExactWithin38Digits(a: Decimal128, b: Decimal128)
    requires Within38Digits(a) && Within38Digits(b)
    ensures Compare(a, b) == ExactOrder(a, b)
  {
    hide Compare, ExactOrder, Blurred, Within38Digits;
    CompareExactIff(a, b);
    if a.scale < b.scale { ShortIsNeverBlurred(a, b); }
    if b.scale < a.scale { ShortIsNeverBlurred(b, a); }
  }

  /** `x/p <= y/q` and `y/q <= z/r` give `x/p <= z/r`, strictly if either is strict. */
  lemma FractionsTransitive(x: int, p: int, y: int, q: int, z: int, r: int)
    requires p > 0 && q > 0 && r > 0 && x * q <= y * p && y * r <= z * q
    ensures x * r <= z * p
    ensures x * q < y * p || y * r < z * q ==> x * r < z * p
  {
    ScaleLe(x * q, y * p, r);
    ScaleLe(y * r, z * q, p);
    assert x * q * r == x * r * q && y * p * r == y * r * p && z * q * p == z * p * q;
    if x * q < y * p { ScaleLt(x * q, y * p, r); }
    if y * r < z * q { ScaleLt(y * r, z * q, p); }
    if z * p < x * r { ScaleLt(z * p, x * r, q); }
  }

  /** The consistent total order the comment asks for, on the values it asks it for: reversing the
      operands reverses the answer, equality is equality of the rationals, and it is transitive. */
  lemma CompareIsTotalOrder(a: Decimal128, b: Decimal128, c: Decimal128)
    requires Within38Digits(a) && Within38Digits(b) && Within38Digits(c)
    ensures Compare(b, a) == Flip(Compare(a, b))
    ensures Compare(a, b) == Equal <==> a.mantissa * Pow10(b.scale) == b.mantissa * Pow10(a.scale)
    ensures !Compare(a, b).Greater? && !Compare(b, c).Greater? ==>
      !Compare(a, c).Greater? && (Compare(a, b).Less? || Compare(b, c).Less? ==> Compare(a, c).Less?)
  {
    hide Compare, Within38Digits, Pow10;
    CompareExactWithin38Digits(a, b);
    CompareExactWithin38Digits(b, c);
    CompareExactWithin38Digits(a, c);
    CompareExactIff(a, b);
    var p, q, r := Pow10(a.scale), Pow10(b.scale), Pow10(c.scale);
    if a.mantissa * q <= b.mantissa * p && b.mantissa * r <= c.mantissa * q {
      FractionsTransitive(a.mantissa, p, b.mantissa, q, c.mantissa, r);
    }
  }

  /** Values a column can store do reach the last resort: ten as a whole number, against a wider
      decimal of scale 38. */
  lemma StoredValuesReachTheLastResort()
    ensures Within38Digits(Decimal128(10, 0)) && Rescale(Decimal128(10, 0), 38).None?
  {
    LargePowers();
    Pow10Fits(38);
  }

  // ---------------------------------------------------------------- beyond 38 digits

  /** 0.2 at scale 1 against 0.16 and 0.17 at scale 39: each is reported equal to 0.2, although the
      last two differ, so the relation is not even transitive. */
  lemma CompareIsNotTransitive()
    ensures var x := 16 * Pow10(37); var y := 17 * Pow10(37);
      && FitsI128(x) && FitsI128(y)
      && Compare(Decimal128(2, 1), Decimal128(x, 39)) == Equal
      && Compare(Decimal128(2, 1), Decimal128(y, 39)) == Equal
      && Compare(Decimal128(x, 39), Decimal128(y, 39)) == Less
  {
    hide Pow10, Rescale, IntegerPart, Blurred;
    LargePowers();
    BlurWitness(16 * Pow10(37));
    BlurWitness(17 * Pow10(37));
  }

  lemma LargePowers()
    ensures Pow10(37) == 10000000000000000000000000000000000000
    ensures Pow10(38) == 100000000000000000000000000000000000000
  {
    assert Pow10(5) == 100000 && Pow10(8) == 100000000;
    Pow10Splits(8, 8);
    Pow10Splits(16, 16);
    Pow10Splits(5, 32);
  }

  lemma BlurWitness(m: I128)
    requires Pow10(38) == 100000000000000000000000000000000000000
    requires m == 160000000000000000000000000000000000000 || m == 170000000000000000000000000000000000000
    ensures Blurred(Decimal128(2, 1), Decimal128(m, 39))
    ensures Compare(Decimal128(2, 1), Decimal128(m, 39)) == Equal
  {
    var f := Pow10(38);
    assert m / f == 1 && m % f == m - f;
    assert 2 % Pow10(1) == 2;
    NarrowAgainstWide(Decimal128(2, 1), Decimal128(m, 39));
  }
}
