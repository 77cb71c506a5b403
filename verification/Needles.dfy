/**
 The needle walk of crates/engine/examples/r1_wave_index_ab.rs: a step coprime to the row count makes
 consecutive multiples distinct modulo the row count.
 */
module Needles {
  const TWO_32: int := 0x1_0000_0000
  const TWO_64: int := 0x1_0000_0000_0000_0000
  const SEED: int := 0x9E37_79B1

  type U64 = x: int | 0 <= x < TWO_64

  // ---------------------------------------------------------------- greatest common divisors

  ghost function Gcd(a: nat, b: nat): nat
    decreases b
  {
    if b == 0 then a else Gcd(b, a % b)
  }

  ghost predicate Times(n: int, d: int, k: int) { n == d * k }

  ghost predicate Divides(d: int, n: int) { exists k :: Times(n, d, k) }

  /** The greatest common divisor is a combination of the two numbers. */
  lemma Bezout(a: nat, b: nat) returns (x: int, y: int)
    ensures a * x + b * y == Gcd(a, b)
    decreases b
  {
    if b == 0 {
      x, y := 1, 0;
    } else {
      var p, q := Bezout(b, a % b);
      x, y := q, p - a / b * q;
      Regroup(a, b, p, q);
    }
  }

  lemma Regroup(a: nat, b: nat, p: int, q: int)
    requires b > 0
    ensures a * q + b * (p - a / b * q) == b * p + a % b * q
  {
    var d := a / b;
    assert a % b == a - b * d;
    assert (a - b * d) * q == a * q - b * d * q;
    assert b * (p - d * q) == b * p - b * (d * q);
    assert b * (d * q) == b * d * q;
  }

  lemma DividesSum(d: int, m: int, n: int, x: int, y: int)
    requires Divides(d, m) && Divides(d, n)
    ensures Divides(d, m * x + n * y)
  {
    var j :| Times(m, d, j);
    var k :| Times(n, d, k);
    assert m * x == d * (j * x) && n * y == d * (k * y) by {
      assert d * j * x == d * (j * x) && d * k * y == d * (k * y);
    }
    assert d * (j * x) + d * (k * y) == d * (j * x + k * y);
    assert Times(m * x + n * y, d, j * x + k * y);
  }

  lemma {:induction false} GcdDivides(a: nat, b: nat)
    ensures Divides(Gcd(a, b), a) && Divides(Gcd(a, b), b)
    decreases b
  {
    if b == 0 {
      assert Times(a, a, 1) && Times(0, a, 0);
    } else {
      GcdDivides(b, a % b);
      DividesSum(Gcd(a, b), b, a % b, a / b, 1);
      assert b * (a / b) + a % b * 1 == a;
    }
  }

  /** It is the greatest: every common divisor divides it. */
  lemma GcdIsGreatest(a: nat, b: nat, d: int)
    requires Divides(d, a) && Divides(d, b)
    ensures Divides(d, Gcd(a, b))
  {
    var x, y := Bezout(a, b);
    DividesSum(d, a, b, x, y);
  }

  method ComputeGcd(a0: U64, b0: U64) returns (a: U64)
    ensures a == Gcd(a0, b0)
    ensures Divides(a, a0) && Divides(a, b0) && forall d :: Divides(d, a0) && Divides(d, b0) ==> Divides(d, a)
  {
    a := a0;
    var b: U64 := b0;
    while b != 0
      invariant Gcd(a, b) == Gcd(a0, b0)
      decreases b
    {
      a, b := b, a % b;
    }
    GcdDivides(a0, b0);
    forall d | Divides(d, a0) && Divides(d, b0) ensures Divides(d, a) { GcdIsGreatest(a0, b0, d); }
  }

  lemma OneIsCoprime(n: nat)
    ensures Gcd(1, n) == 1
  {
    if n > 1 {
      assert 1 % n == 1;
      assert Gcd(1, n) == Gcd(n, 1) == Gcd(1, n % 1);
      assert n % 1 == 0;
    } else if n == 1 {
      assert Gcd(1, 1) == Gcd(1, 0);
    }
  }

  /** Where the search begins. */
  function FirstTry(rows: U64): (s: U64)
    ensures 1 <= s && if rows > 1 then s < rows else s == 1
  {
    var s := SEED % if rows < 2 then 2 else rows;
    if s == 0 then 1 else s
  }

  /** `step` is the first one coprime to `rows` from the first try upwards, wrapping round to 1. */
  ghost predicate FirstCoprime(step: nat, rows: U64)
  {
    && Gcd(step, rows) == 1
    && if FirstTry(rows) <= step then NoneCoprime(FirstTry(rows), step, rows)
       else step == 1 && NoneCoprime(FirstTry(rows), rows + 1, rows)
  }

  ghost predicate NoneCoprime(from: nat, to: nat, rows: nat)
  {
    forall s: nat :: from <= s < to ==> Gcd(s, rows) != 1
  }

  /** The search visits at most every residue once and stops at a step coprime to the row count. */
  method FindStep(rows: U64) returns (step: U64)
    ensures FirstCoprime(step, rows) && 1 <= step && (rows > 1 ==> step < rows)
  {
    hide Gcd, FirstTry;
    OneIsCoprime(rows);
    SelfIsNotCoprime(rows);
    step := FirstTry(rows);
    var common := ComputeGcd(step, rows);
    while common != 1
      invariant 1 <= step && step <= (if rows < 2 then 1 else rows) && common == Gcd(step, rows)
      invariant if FirstTry(rows) <= step then NoneCoprime(FirstTry(rows), step, rows)
                else step == 1 && NoneCoprime(FirstTry(rows), rows + 1, rows)
      decreases if step == 1 then 0 else rows + 1 - step
    {
      assert rows >= 2 && 2 <= step <= rows;
      NextStep(step, rows);
      step := step % rows + 1;
      common := ComputeGcd(step, rows);
    }
  }

  lemma NextStep(step: nat, rows: nat)
    requires 1 <= step <= rows
    ensures step % rows + 1 == if step == rows then 1 else step + 1
  {
  }

  lemma SelfIsNotCoprime(n: nat)
    ensures Gcd(n, n) == n
  {
    if n > 0 {
      assert n % n == 0;
      assert Gcd(n, n) == Gcd(n, 0);
    }
  }

  // ---------------------------------------------------------------- the walk

  function WrappingMul(a: int, b: int): int { a * b % TWO_64 }

  /** Rust's `as i32` on an unsigned value. */
  function AsI32(v: int): int
  {
    var low := v % TWO_32;
    if low < TWO_32 / 2 then low else low - TWO_32
  }

  function Needle(g: int, step: int, rows: int): int
    requires rows > 0
  {
    AsI32(WrappingMul(g, step) % rows)
  }

  method NeedlesForBatch(b: nat, batch: nat, step: U64, rows: U64) returns (v: seq<int>)
    requires rows > 0 && b * batch + batch <= TWO_64
    ensures |v| == batch && forall k :: 0 <= k < batch ==> v[k] == Needle(b * batch + k, step, rows)
    ensures batch <= rows <= TWO_32 && Gcd(step, rows) == 1 && (b * batch + batch) * step <= TWO_64 ==>
      forall j, k :: 0 <= j < k < batch ==> v[j] != v[k]
  {
    hide Gcd, Needle;
    v := [];
    var start := b * batch;
    for k := 0 to batch
      invariant |v| == k && forall j :: 0 <= j < k ==> v[j] == Needle(start + j, step, rows)
    {
      var g := start + k;
      NeedleIs(g, step, rows);
      v := v + [AsI32(WrappingMul(g, step) % rows)];
    }
    if batch <= rows <= TWO_32 && Gcd(step, rows) == 1 && (start + batch) * step <= TWO_64 {
      forall j, k | 0 <= j < k < batch ensures v[j] != v[k] {
        ProductBelow(start + k, start + batch, step);
        BatchNeedlesDistinct(step, rows, start + j, start + k);
      }
    }
  }

  lemma NeedleIs(g: int, step: int, rows: int)
    requires rows > 0
    ensures Needle(g, step, rows) == AsI32(WrappingMul(g, step) % rows)
  {
  }

  lemma ProductBelow(a: nat, b: nat, step: nat)
    requires a < b && b * step <= TWO_64
    ensures a * step < TWO_64
  {
    if step > 0 { assert a * step < b * step; }
  }

  lemma NoSmallMultiple(d: int, n: int, k: int)
    requires 0 < d < n
    ensures d != n * k
  {
    if k > 0 { assert n * k >= n; } else { assert n * k <= 0; }
  }

  /** Multiples of a coprime step are distinct within one period. */
  lemma ResiduesDistinct(step: nat, rows: nat, g: nat, h: nat)
    requires rows > 0 && Gcd(step, rows) == 1 && g < h < g + rows
    ensures g * step % rows != h * step % rows
  {
    hide Gcd;
    var x, y := Bezout(step, rows);
    var d := h - g;
    if g * step % rows == h * step % rows {
      var m := SameRemainder(g * step, h * step, rows);
      assert d * step == h * step - g * step;
      Cancelled(d, step, rows, m, x, y);
      NoSmallMultiple(d, rows, m * x + d * y);
    }
  }

  lemma SameRemainder(a: nat, b: nat, n: nat) returns (m: int)
    requires n > 0 && a % n == b % n
    ensures b - a == n * m
  {
    m := b / n - a / n;
    assert b == n * (b / n) + b % n && a == n * (a / n) + a % n;
    assert n * (b / n - a / n) == n * (b / n) - n * (a / n);
  }

  lemma Cancelled(d: int, step: int, rows: int, m: int, x: int, y: int)
    requires d * step == rows * m && step * x + rows * y == 1
    ensures d == rows * (m * x + d * y)
  {
    assert d == d * (step * x + rows * y) == d * (step * x) + d * (rows * y);
    assert d * (step * x) == d * step * x == rows * m * x == rows * (m * x);
    assert d * (rows * y) == rows * (d * y);
    assert rows * (m * x) + rows * (d * y) == rows * (m * x + d * y);
  }

  lemma CastIsInjective(u: int, v: int)
    requires 0 <= u < TWO_32 && 0 <= v < TWO_32 && u != v
    ensures AsI32(u) != AsI32(v)
  {
  }

  /** Needles of one batch are pairwise distinct when the batch fits the row count, the step is coprime
      to it, no product wraps and the row count fits the cast. */
  lemma BatchNeedlesDistinct(step: nat, rows: nat, g: nat, h: nat)
    requires 0 < rows <= TWO_32 && Gcd(step, rows) == 1 && g < h < g + rows && h * step < TWO_64
    ensures Needle(g, step, rows) != Needle(h, step, rows)
  {
    hide Gcd, AsI32;
    assert 0 <= g * step <= h * step;
    ResiduesDistinct(step, rows, g, h);
    Unwrapped(g, step);
    Unwrapped(h, step);
    CastIsInjective(g * step % rows, h * step % rows);
  }

  lemma Unwrapped(g: nat, step: nat)
    requires 0 <= g * step < TWO_64
    ensures WrappingMul(g, step) == g * step
  {
    SmallRemainder(g * step, TWO_64);
  }

  lemma SmallRemainder(n: int, d: int)
    requires 0 <= n < d
    ensures n % d == n
  {
  }

  /** Every residue occurs in a full period. */
  lemma ResidueOccurs(step: nat, rows: nat, r: nat) returns (g: nat)
    requires r < rows && Gcd(step, rows) == 1
    ensures g < rows && g * step % rows == r
  {
    hide Gcd;
    var x, y := Bezout(step, rows);
    g := r * x % rows;
    var q := r * x / rows;
    assert r * x == rows * q + g;
    ShiftedProduct(step, rows, r, x, y, q, g);
    assert g * step >= 0;
    ModOfShifted(g * step, r, rows, -(r * y + q * step));
  }

  lemma ShiftedProduct(step: int, rows: int, r: int, x: int, y: int, q: int, g: int)
    requires step * x + rows * y == 1 && r * x == rows * q + g
    ensures g * step == r + rows * -(r * y + q * step)
  {
    assert (rows * q + g) * step == rows * q * step + g * step;
    assert r * x * step == r * (step * x);
    assert r * (step * x) == r * (1 - rows * y) == r - r * (rows * y);
    assert r * (rows * y) == rows * (r * y);
    assert rows * q * step == rows * (q * step);
    assert rows * -(r * y + q * step) == -(rows * (r * y)) - rows * (q * step);
  }

  lemma ModOfShifted(n: nat, r: nat, rows: nat, k: int)
    requires r < rows && n == r + rows * k
    ensures n % rows == r
  {
    var q := n / rows;
    assert n == rows * q + n % rows;
    var d := n % rows - r;
    assert d == rows * (k - q) by { assert rows * (k - q) == rows * k - rows * q; }
    if d > 0 { NoSmallMultiple(d, rows, k - q); }
    if d < 0 {
      assert -d == rows * (q - k) by { assert rows * (q - k) == -(rows * (k - q)); }
      NoSmallMultiple(-d, rows, q - k);
    }
  }

  ghost predicate PeriodDistinct(step: nat, rows: nat)
    requires rows > 0
  {
    forall g: nat, h: nat :: g < h < rows ==> Needle(g, step, rows) != Needle(h, step, rows)
  }

  /** Without the bound on the row count the walk repeats itself: the cast to i32 folds residues that
      are 2^32 apart.  A whole period is distinct exactly up to 2^32 rows. */
  lemma PeriodDistinctIff(step: nat, rows: nat)
    requires rows > 0 && Gcd(step, rows) == 1 && rows * step <= TWO_64
    ensures PeriodDistinct(step, rows) <==> rows <= TWO_32
  {
    hide Gcd;
    if rows <= TWO_32 {
      forall g: nat, h: nat | g < h < rows ensures Needle(g, step, rows) != Needle(h, step, rows) {
        if step > 0 { assert h * step < rows * step; }
        BatchNeedlesDistinct(step, rows, g, h);
      }
    } else {
      var g := ResidueOccurs(step, rows, TWO_32);
      assert g == 0 ==> g * step == 0;
      SmallRemainder(0, rows);
      assert 0 < g;
      assert 0 <= g * step < TWO_64 by { if step > 0 { assert g * step < rows * step; } }
      Unwrapped(g, step);
      Unwrapped(0, step);
      assert Needle(0, step, rows) == 0 && Needle(g, step, rows) == 0;
    }
  }

  /** Coefficients of one as a combination of two numbers show them coprime. */
  lemma CombinationToOne(a: nat, b: nat, x: int, y: int)
    requires a * x + b * y == 1
    ensures Gcd(a, b) == 1
  {
    hide Gcd;
    GcdDivides(a, b);
    DividesSum(Gcd(a, b), a, b, x, y);
  }

  /** At 2^32 + 1 rows the search stops at its first try, and the walk with that step meets its first
      needle again long before the period ends. */
  lemma LargeTableRepeatsNeedles()
    ensures FirstCoprime(SEED, TWO_32 + 1)
    ensures Needle(0, SEED, TWO_32 + 1) == Needle(390570202, SEED, TWO_32 + 1)
  {
    CombinationToOne(SEED, TWO_32 + 1, 3904397095, -2413050102);
  }
}
