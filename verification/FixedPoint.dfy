// Deterministic consensus arithmetic (core/src/fixed_point.rs): Newton's integer square root and
// the base-two logarithm of a ratio by bit length plus a linear mantissa.

module FixedPoint {
  import opened Arith
  import opened Problem

  const U128_LIMIT: nat := 0x1_0000_0000_0000_0000_0000_0000_0000_0000

  /** 1.0 in fixed point. */
  const SCALE: nat := 1_000_000

  // ---------------------------------------------------------------- integer square root

  ghost predicate IsRoot(n: nat, r: nat) {
    r * r <= n < (r + 1) * (r + 1)
  }

  /** The square root by counting up, the reference the fast loop is measured against. */
  ghost function FloorSqrt(n: nat): (r: nat)
    ensures IsRoot(n, r)
  {
    if n == 0 then 0
    else
      var r := FloorSqrt(n - 1);
      if (r + 1) * (r + 1) <= n then
        assert (r + 2) * (r + 2) == (r + 1) * (r + 1) + 2 * r + 3;
        r + 1
      else r
  }

  lemma SquareMono(a: nat, b: nat)
    requires a <= b
    ensures a * a <= b * b
  {
    MulMono(a, b, a);
    MulMono(a, b, b);
  }

  lemma RootUnique(n: nat, a: nat, b: nat)
    requires IsRoot(n, a) && IsRoot(n, b)
    ensures a == b
  {
    if a < b { SquareMono(a + 1, b); }
    if b < a { SquareMono(b + 1, a); }
  }

  lemma RootMono(m: nat, n: nat, a: nat, b: nat)
    requires m <= n && IsRoot(m, a) && IsRoot(n, b)
    ensures a <= b
  {
    if b < a { SquareMono(b + 1, a); }
  }

  /** x is at least the root of n. */
  ghost predicate Above(n: nat, x: nat) {
    n < (x + 1) * (x + 1)
  }

  function NewtonStep(n: nat, x: nat): nat
    requires x > 0
  {
    (x + n / x) / 2
  }

  /** A Newton step from any positive x never falls below the root. */
  lemma NewtonStaysAbove(n: nat, x: nat)
    requires x > 0
    ensures Above(n, NewtonStep(n, x))
  {
    var q := n / x;
    var y := (x + q) / 2;
    DivBounds(n, x);
    var s := x + (q + 1);
    assert 2 * (y + 1) >= s;
    SquareMono(s, 2 * (y + 1));
    FourProduct(x, q + 1);
    assert (2 * (y + 1)) * (2 * (y + 1)) == 4 * ((y + 1) * (y + 1));
    assert (q + 1) * x == x * (q + 1);
  }

  /** (a + b)^2 >= 4ab. */
  lemma FourProduct(a: nat, b: nat)
    ensures (a + b) * (a + b) >= 4 * (a * b)
  {
    assert (a + b) * (a + b) == 4 * (a * b) + (a - b) * (a - b);
    if a >= b { assert (a - b) * (a - b) >= 0; } else { assert (a - b) * (a - b) == (b - a) * (b - a) >= 0; }
  }

  /** Where the Newton step does not descend, x is at most the root. */
  lemma NewtonStops(n: nat, x: nat)
    requires x > 0 && NewtonStep(n, x) >= x && Above(n, x)
    ensures x == FloorSqrt(n)
  {
    DivAtLeast(n, x, x);
    RootUnique(n, x, FloorSqrt(n));
  }

  /** The sum inside a Newton step fits the machine word. */
  lemma NewtonFits(n: nat, x: nat)
    requires 0 < x < n < U128_LIMIT && Above(n, x)
    ensures x + n / x < U128_LIMIT
  {
    if x >= 2 && n / x >= 2 {
      DivBounds(n, x);
      HalvesFit(x, n / x, n);
    }
  }

  lemma HalvesFit(x: nat, q: nat, n: nat)
    requires x >= 2 && q >= 2 && q * x <= n
    ensures x + q <= n
  {
    assert q * x >= x + q by {
      assert (q - 1) * (x - 1) == q * x - q - x + 1;
      MulMono(1, q - 1, x - 1);
    }
  }

  /** Newton's method terminates on every 128-bit input, without overflow, with the exact root. */
  method Isqrt(n: nat) returns (r: nat)
    requires n < U128_LIMIT
    ensures r == FloorSqrt(n)
  {
    if n == 0 {
      return 0;
    }
    var x := n;
    var y := (x + 1) / 2;
    FirstStep(n);
    while y < x
      invariant 0 < x <= n && y == NewtonStep(n, x)
      invariant Above(n, x) && Above(n, y)
      decreases x
    {
      x := y;
      NewtonFits(n, x);
      NewtonStaysAbove(n, x);
      assert x + n / x < U128_LIMIT;
      y := (x + n / x) / 2;
    }
    NewtonStops(n, x);
    return x;
  }

  /** The starting value is the first Newton step from n. */
  lemma FirstStep(n: nat)
    requires n > 0
    ensures (n + 1) / 2 == NewtonStep(n, n) && Above(n, n) && Above(n, (n + 1) / 2)
  {
    assert n / n == 1;
    NewtonStaysAbove(n, n);
    SquareMono(1, n + 1);
    assert (n + 1) * (n + 1) == n * n + 2 * n + 1;
  }

  // ---------------------------------------------------------------- logarithm

  /** Position of the highest set bit: 127 minus the leading zeros of a 128-bit word. */
  function FloorLog2(x: nat): (k: nat)
    requires x > 0
    ensures Pow2(k) <= x < Pow2(k + 1)
  {
    if x == 1 then 0 else FloorLog2(x / 2) + 1
  }

  lemma FloorLog2Unique(x: nat, k: nat)
    requires x > 0 && Pow2(k) <= x < Pow2(k + 1)
    ensures FloorLog2(x) == k
  {
    var l := FloorLog2(x);
    if l < k { Pow2Mono(l + 1, k); }
    if k < l { Pow2Mono(k + 1, l); }
  }

  lemma Pow2Of32()
    ensures Pow2(32) == TWO32
  {
    assert Pow2(8) == 256;
    Pow2Add(8, 8);
    Pow2Add(16, 16);
  }

  lemma BitsAtLeast32(ratio: nat)
    requires ratio >= TWO32
    ensures FloorLog2(ratio) >= 32
  {
    Pow2Of32();
    var total := FloorLog2(ratio);
    if total < 32 { Pow2Mono(total + 1, 32); }
  }

  /** The score of a scaled ratio: bit length above the shift, plus the linear mantissa. */
  function Score(ratio: nat): nat
    requires ratio >= TWO32
  {
    BitsAtLeast32(ratio);
    var k := FloorLog2(ratio) - 32;
    Compose(k, Shr(ratio, k))
  }

  /** The mantissa's excess over one. */
  function Excess(mantissa: nat): nat {
    if mantissa >= 0x1_0000_0000 then mantissa - 0x1_0000_0000 else 0
  }

  /** Whole bits, and the excess as the fraction, both scaled by SCALE. */
  function Compose(k: nat, mantissa: nat): nat {
    1_000_000 * k + 1_000_000 * Excess(mantissa) / 0x1_0000_0000
  }

  lemma HalvedBits(a: nat, b: nat)
    requires a > 0 && b / 2 == a
    ensures FloorLog2(b) == FloorLog2(a) + 1
    ensures forall k: nat :: Shr(b, k + 1) == Shr(a, k)
  {
  }

  /** log2(numerator / denominator) in fixed point. The second test never fires: every ratio above
      one has a score. */
  function Log2Ratio(numerator: nat, denominator: nat): (r: Option<nat>)
    ensures r.Some? <==> 0 < denominator < numerator
  {
    if denominator == 0 || numerator <= denominator then None
    else
      RatioAtLeast(numerator, denominator, TWO32);
      var ratio := numerator * TWO32 / denominator;
      if ratio < TWO32 then None else Some(Score(ratio))
  }

  /** The pieces of a score: whole bits k and mantissa m. */
  lemma ScorePieces(ratio: nat) returns (k: nat, m: nat)
    requires ratio >= TWO32
    ensures FloorLog2(ratio) == k + 32 && m == Shr(ratio, k)
    ensures TWO32 <= m < 2 * TWO32
    ensures m * Pow2(k) <= ratio < (m + 1) * Pow2(k)
    ensures ratio < 2 * TWO32 * Pow2(k)
  {
    Pow2Of32();
    var total := FloorLog2(ratio);
    BitsAtLeast32(ratio);
    k := total - 32;
    m := Shr(ratio, k);
    ShrBounds(ratio, k);
    Pow2Add(32, k);
    Pow2Add(33, k);
    assert Pow2(33) == 2 * TWO32;
    MulCancelStrict(TWO32, m + 1, Pow2(k));
    MulCancelStrict(m, 2 * TWO32, Pow2(k));
  }

  /** The fraction never reaches a whole bit. */
  lemma FractionBounds(m: nat)
    requires TWO32 <= m < 2 * TWO32
    ensures 0 <= 1_000_000 * Excess(m) / 0x1_0000_0000 < SCALE
  {
  }

  /** The score is monotone in the ratio. */
  lemma ScoreMono(a: nat, b: nat)
    requires TWO32 <= a <= b
    ensures Score(a) <= Score(b)
  {
    var k, m := ScorePieces(a);
    var l, n := ScorePieces(b);
    FractionBounds(m);
    FractionBounds(n);
    if k == l {
      ShrMono(a, b, k);
      DivMono(1_000_000 * Excess(m), 1_000_000 * Excess(n), 0x1_0000_0000);
    } else {
      if l < k { Pow2Mono(l + 33, k + 32); }
      assert k + 1 <= l;
    }
  }

  /** Doubling a ratio adds exactly one bit. */
  lemma ScoreDouble(a: nat, b: nat)
    requires TWO32 <= a && (b == 2 * a || b == 2 * a + 1)
    ensures Score(b) == Score(a) + SCALE
  {
    var bits := FloorLog2(a);
    assert bits >= 32 by { BitsAtLeast32(a); }
    var k, m := bits - 32, Shr(a, bits - 32);
    assert FloorLog2(b) == bits + 1 && Shr(b, k + 1) == m by { HalvedBits(a, b); }
    assert Score(a) == Compose(k, m) && Score(b) == Compose(k + 1, m);
  }

  lemma RatioAtLeast(n: nat, d: nat, q: nat)
    requires d > 0
    ensures q <= n * TWO32 / d <==> q * d <= n * TWO32
  {
    DivAtLeast(n * TWO32, d, q);
  }

  /** What the logarithm scores: the numerator shifted left by 32 bits, over the denominator. */
  lemma ScoredRatio(n: nat, d: nat) returns (ratio: nat)
    requires 0 < d < n
    ensures ratio == n * TWO32 / d >= TWO32 && Log2Ratio(n, d) == Some(Score(ratio))
  {
    ratio := n * TWO32 / d;
    RatioAtLeast(n, d, TWO32);
  }

  /** Larger numerators never score less. */
  lemma Log2RatioMono(n1: nat, n2: nat, d: nat)
    requires 0 < d < n1 <= n2
    ensures Log2Ratio(n1, d).value <= Log2Ratio(n2, d).value
  {
    var a := ScoredRatio(n1, d);
    var b := ScoredRatio(n2, d);
    DivMono(n1 * TWO32, n2 * TWO32, d);
    ScoreMono(a, b);
  }

  /** Larger denominators never score more. */
  lemma Log2RatioAntitone(n: nat, d1: nat, d2: nat)
    requires 0 < d1 <= d2 < n
    ensures Log2Ratio(n, d2).value <= Log2Ratio(n, d1).value
  {
    var a := ScoredRatio(n, d2);
    var b := ScoredRatio(n, d1);
    DivAntitone(n * TWO32, d1, d2);
    ScoreMono(a, b);
  }

  lemma DoubledQuotient(x: nat, d: nat)
    requires d > 0
    ensures (2 * x) / d == 2 * (x / d) || (2 * x) / d == 2 * (x / d) + 1
  {
    var a := x / d;
    DivBounds(x, d);
    assert (2 * a) * d == 2 * (a * d);
    assert (2 * a + 2) * d == 2 * ((a + 1) * d);
    DivAtLeast(2 * x, d, 2 * a);
    DivAtLeast(2 * x, d, 2 * a + 2);
  }

  /** Doubling the numerator adds exactly SCALE. */
  lemma Log2RatioDouble(n: nat, d: nat)
    requires 0 < d < n
    ensures Log2Ratio(2 * n, d) == Some(Log2Ratio(n, d).value + SCALE)
  {
    var a := ScoredRatio(n, d);
    var b := ScoredRatio(2 * n, d);
    assert (2 * n) * TWO32 == 2 * (n * TWO32);
    DoubledQuotient(n * TWO32, d);
    ScoreDouble(a, b);
  }

  /** At least one bit exactly when the numerator is at least twice the denominator. */
  lemma Log2RatioOneBit(n: nat, d: nat)
    requires 0 < d < n
    ensures Log2Ratio(n, d).value >= SCALE <==> n >= 2 * d
  {
    var ratio := ScoredRatio(n, d);
    var k, m := ScorePieces(ratio);
    FractionBounds(m);
    RatioAtLeast(n, d, 2 * TWO32);
    assert (2 * TWO32) * d == (2 * d) * TWO32;
    if n >= 2 * d {
      assert ratio >= 2 * TWO32;
      assert k >= 1;
    } else {
      assert ratio < 2 * TWO32;
      if k >= 1 {
        Pow2Of32();
        Pow2Mono(33, k + 32);
        assert false;
      }
    }
  }

  // ---------------------------------------------------------------- the score is a lower bound

  /** Whether the step from S + f to S + f + 1 at least doubles the S-th power. */
  ghost predicate Doubles(s: nat, f: nat) {
    2 * Pow(s + f, s) <= Pow(s + f + 1, s)
  }

  /** The growth factor falls along f: neighbours' product is at most the middle squared. */
  lemma DoublesDownward(s: nat, f: nat)
    requires Doubles(s, f + 1) && s > 0
    ensures Doubles(s, f)
  {
    var a, b, c := s + f, s + f + 1, s + f + 2;
    NeighborSquare(a);
    PowMono(a * c, b * b, s);
    PowOfProduct(a, c, s);
    PowOfProduct(b, b, s);
    PowPositive(b, s);
    CancelDoubling(Pow(a, s), Pow(b, s), Pow(c, s));
  }

  lemma NeighborSquare(a: nat)
    ensures a * (a + 2) <= (a + 1) * (a + 1)
  {
    assert (a + 1) * (a + 1) == a * (a + 2) + 1;
  }

  lemma CancelDoubling(x: nat, y: nat, z: nat)
    requires 2 * y <= z && x * z <= y * y && y > 0
    ensures 2 * x <= y
  {
    MulMono(2 * y, z, x);
    assert (2 * x) * y == (2 * y) * x && z * x == x * z;
    MulCancel(2 * x, y, y);
  }

  /** Up to a step that doubles, powers at least double at every step. */
  lemma {:induction false} RisesTo(s: nat, f: nat, peak: nat)
    requires s > 0 && f <= peak && (f < peak ==> Doubles(s, peak - 1))
    ensures Pow(2, peak - f) * Pow(s + f, s) <= Pow(s + peak, s)
    decreases peak
  {
    if f < peak {
      if f < peak - 1 { DoublesDownward(s, peak - 2); }
      RisesTo(s, f, peak - 1);
      RiseStep(Pow(2, peak - 1 - f), Pow(s + f, s), Pow(s + peak - 1, s), Pow(s + peak, s));
    }
  }

  lemma RiseStep(p: nat, a: nat, b: nat, c: nat)
    requires p * a <= b && 2 * b <= c
    ensures (2 * p) * a <= c
  {
    MulAssoc(2, p, a);
  }

  /** From a step that does not, they never do again. */
  lemma {:induction false} FallsFrom(s: nat, peak: nat, f: nat)
    requires s > 0 && peak <= f && (peak < f ==> !Doubles(s, peak))
    ensures Pow(s + f, s) <= Pow(2, f - peak) * Pow(s + peak, s)
    decreases f - peak
  {
    if peak < f {
      if Doubles(s, peak + 1) { DoublesDownward(s, peak); }
      FallsFrom(s, peak + 1, f);
      FallStep(Pow(2, f - peak - 1), Pow(s + f, s), Pow(s + peak + 1, s), Pow(s + peak, s));
    }
  }

  lemma FallStep(p: nat, a: nat, b: nat, c: nat)
    requires a <= p * b && b <= 2 * c
    ensures a <= (2 * p) * c
  {
    MulMono(b, 2 * c, p);
    MulAssoc(p, 2, c);
  }

  /** Linear interpolation lies below the exponential's chord: (S + f)^S >= 2^f * S^S on [0, S]. */
  lemma Interpolation(s: nat, f: nat)
    requires s > 0 && f <= s
    ensures Pow(2, f) * Pow(s, s) <= Pow(s + f, s)
  {
    if f == 0 || Doubles(s, f - 1) {
      RisesTo(s, 0, f);
    } else {
      if Doubles(s, f) { DoublesDownward(s, f - 1); }
      FallsFrom(s, f, s);
      PowOfProduct(2, s, s);
      PowAdd(2, s - f, f);
      PowPositive(2, s - f);
      CancelCommon(Pow(2, s - f), Pow(2, f), Pow(s, s), Pow(s + f, s));
    }
  }

  lemma CancelCommon(k: nat, q: nat, z: nat, x: nat)
    requires k > 0 && (k * q) * z <= k * x
    ensures q * z <= x
  {
    MulAssoc(k, q, z);
    MulCancel(q * z, x, k);
  }

  /** From a mantissa bound on the ratio to a bound on S-th powers. */
  lemma PowersFromMantissa(n: nat, d: nat, k: nat, s: nat, f: nat, e: nat)
    requires s > 0 && (s + f) * (Pow2(k) * d) <= n * s
    requires Pow(2, e) * Pow(s, s) <= Pow(s + f, s)
    ensures Pow(2, k * s + e) * Pow(d, s) <= Pow(n, s)
  {
    var x := Pow2(k) * d;
    var px, pn, ps, p2 := Pow(x, s), Pow(n, s), Pow(s, s), Pow(2, e);
    PowMono((s + f) * x, n * s, s);
    PowOfProduct(s + f, x, s);
    PowOfProduct(n, s, s);
    MulMono(p2 * ps, Pow(s + f, s), px);
    assert (p2 * ps) * px == (p2 * px) * ps by { MulAssoc(p2, ps, px); MulAssoc(p2, px, ps); }
    PowPositive(s, s);
    MulCancel(p2 * px, pn, ps);
    PowOfProduct(Pow2(k), d, s);
    Pow2IsPow(k);
    PowOfPow(2, k, s);
    PowAdd(2, k * s, e);
    MulAssoc(p2, Pow(2, k * s), Pow(d, s));
    assert p2 * Pow(2, k * s) == Pow(2, k * s) * p2;
  }

  lemma MantissaBound(n: nat, d: nat, k: nat, m: nat, s: nat, b: nat)
    requires b > 0 && b <= m && (m * Pow2(k)) * d <= n * b
    ensures (s + (m - b) * s / b) * (Pow2(k) * d) <= n * s
  {
    var f := (m - b) * s / b;
    var x := Pow2(k) * d;
    FractionFloor(m, s, b);
    MulMono((s + f) * b, m * s, x);
    assert (m * s) * x == (m * x) * s by { MulAssoc(m, s, x); MulAssoc(m, x, s); }
    assert m * x == (m * Pow2(k)) * d by { MulAssoc(m, Pow2(k), d); }
    MulMono(m * x, n * b, s);
    assert (n * b) * s == (n * s) * b by { MulAssoc(n, b, s); MulAssoc(n, s, b); }
    assert ((s + f) * b) * x == ((s + f) * x) * b by { MulAssoc(s + f, b, x); MulAssoc(s + f, x, b); }
    MulCancel((s + f) * x, n * s, b);
  }

  lemma FractionFloor(m: nat, s: nat, b: nat)
    requires 0 < b <= m
    ensures (m - b) * s / b >= 0 && (s + (m - b) * s / b) * b <= m * s
  {
    var f := (m - b) * s / b;
    DivAtLeast((m - b) * s, b, 0);
    DivBounds((m - b) * s, b);
    assert (s + f) * b == s * b + f * b;
    assert (m - b) * s == m * s - b * s;
  }

  lemma ScoreFromPieces(n: nat, d: nat) returns (k: nat, m: nat, f: nat)
    requires 0 < d < n
    ensures TWO32 <= m && (m * Pow2(k)) * d <= n * TWO32
    ensures n * TWO32 < (2 * TWO32 * Pow2(k)) * d
    ensures n * TWO32 < ((m + 1) * Pow2(k)) * d
    ensures f == (m - TWO32) * SCALE / TWO32 && f < SCALE
    ensures Log2Ratio(n, d).value == k * SCALE + f
  {
    var ratio := ScoredRatio(n, d);
    k, m := ScorePieces(ratio);
    f := 1_000_000 * Excess(m) / 0x1_0000_0000;
    FractionBounds(m);
    assert f == (m - TWO32) * SCALE / TWO32 && k * SCALE == 1_000_000 * k;
    DivBounds(n * TWO32, d);
    MulMono(m * Pow2(k), ratio, d);
    MulMono(ratio + 1, 2 * TWO32 * Pow2(k), d);
    MulMono(ratio + 1, (m + 1) * Pow2(k), d);
  }

  /** Rounding the mantissa and the fraction down loses less than two units more. */
  lemma MantissaCap(n: nat, d: nat, k: nat, m: nat, s: nat, b: nat)
    requires 0 < s <= b <= m && n * b < ((m + 1) * Pow2(k)) * d
    ensures n * s <= (s + ((m - b) * s / b + 2)) * (Pow2(k) * d)
  {
    var f := (m - b) * s / b;
    var x := Pow2(k) * d;
    FractionCap(m, s, b);
    MulMono(n * b, (m + 1) * x, s) by { MulAssoc(m + 1, Pow2(k), d); }
    MulMono((m + 1) * s, (s + (f + 2)) * b, x);
    assert (n * b) * s == (n * s) * b by { MulAssoc(n, b, s); MulAssoc(n, s, b); }
    assert ((m + 1) * x) * s == ((m + 1) * s) * x by { MulAssoc(m + 1, x, s); MulAssoc(m + 1, s, x); }
    assert ((s + (f + 2)) * b) * x == ((s + (f + 2)) * x) * b by { MulAssoc(s + (f + 2), b, x); MulAssoc(s + (f + 2), x, b); }
    MulCancel(n * s, (s + (f + 2)) * x, b);
  }

  lemma FractionCap(m: nat, s: nat, b: nat)
    requires 0 < s <= b <= m
    ensures (m - b) * s / b >= 0 && (m + 1) * s <= (s + ((m - b) * s / b + 2)) * b
  {
    var f := (m - b) * s / b;
    DivAtLeast((m - b) * s, b, 0);
    DivBounds((m - b) * s, b);
    assert (m + 1) * s == (m - b) * s + b * s + s;
    assert (s + (f + 2)) * b == b * s + (f + 1) * b + b;
  }

  /** The whole bits and the fraction of a score, and how tightly they hold the ratio. */
  lemma ScoreParts(n: nat, d: nat) returns (k: nat, f: nat)
    requires 0 < d < n
    ensures Log2Ratio(n, d).value == k * SCALE + f && f < SCALE
    ensures (SCALE + f) * (Pow2(k) * d) <= n * SCALE <= (SCALE + (f + 2)) * (Pow2(k) * d)
  {
    var m;
    k, m, f := ScoreFromPieces(n, d);
    MantissaBound(n, d, k, m, SCALE, TWO32);
    MantissaCap(n, d, k, m, SCALE, TWO32);
  }

  /** The score never overstates the logarithm: 2^score * d^SCALE <= n^SCALE. */
  lemma Log2RatioNeverOverstates(n: nat, d: nat)
    requires 0 < d < n
    ensures Pow(2, Log2Ratio(n, d).value) * Pow(d, SCALE) <= Pow(n, SCALE)
  {
    var k, f := ScoreParts(n, d);
    Interpolation(SCALE, f);
    PowersFromMantissa(n, d, k, SCALE, f, f);
  }

  /** Its whole bits never understate it by one: n < 2^(score / SCALE + 1) * d. */
  lemma Log2RatioWholeBits(n: nat, d: nat)
    requires 0 < d < n
    ensures n < Pow2(Log2Ratio(n, d).value / SCALE + 1) * d
  {
    var k, m, f := ScoreFromPieces(n, d);
    WholePart(k, f);
    assert 2 * TWO32 * Pow2(k) == Pow2(k + 1) * TWO32;
    MulAssoc(Pow2(k + 1), TWO32, d);
    MulAssoc(Pow2(k + 1), d, TWO32);
    MulCancelStrict(n, Pow2(k + 1) * d, TWO32);
  }

  lemma WholePart(k: nat, f: nat)
    requires f < SCALE
    ensures (k * SCALE + f) / SCALE == k
  {
  }

  /** Scores of 64-bit inputs stay below 64 bits of work, so they fit the result word. */
  lemma Log2RatioFits(n: nat, d: nat)
    requires 0 < d < n <= U64_MAX
    ensures Log2Ratio(n, d).value < 64 * SCALE
  {
    var ratio := ScoredRatio(n, d);
    var k, m := ScorePieces(ratio);
    FractionBounds(m);
    if k >= 64 {
      DivBounds(n * TWO32, d);
      MulMono(1, d, ratio);
      Pow2Of32();
      Pow2Add(32, 32);
      Pow2Add(64, 32);
      Pow2Mono(96, k + 32);
      assert false;
    }
  }

  // ---------------------------------------------------------------- quality and chains

  /** Quality in basis points scales a score down; 0 rejects, 10,000 and above keep it whole. */
  function ApplyQuality(score: nat, qualityBps: nat): nat {
    if qualityBps == 0 then 0
    else if qualityBps >= 10_000 then score
    else score * qualityBps / 10_000
  }

  lemma ApplyQualityMono(s1: nat, s2: nat, q1: nat, q2: nat)
    requires s1 <= s2 && q1 <= q2
    ensures ApplyQuality(s1, q1) <= ApplyQuality(s2, q2) <= s2
  {
    var c1, c2 := if q1 < 10_000 then q1 else 10_000, if q2 < 10_000 then q2 else 10_000;
    ApplyQualityClamped(s1, q1);
    ApplyQualityClamped(s2, q2);
    MulMono(s1, s2, c1);
    MulMono(c1, c2, s2);
    MulMono(c2, 10_000, s2);
    DivMono(s1 * c1, s2 * c2, 10_000);
    DivMono(s2 * c2, s2 * 10_000, 10_000);
  }

  /** A quality below the top scales the score by that many ten-thousandths, rounded down. */
  lemma ApplyQualityExact(score: nat, qualityBps: nat)
    requires qualityBps <= 10_000
    ensures 10_000 * ApplyQuality(score, qualityBps) <= score * qualityBps < 10_000 * (ApplyQuality(score, qualityBps) + 1)
  {
    ApplyQualityClamped(score, qualityBps);
  }

  lemma ApplyQualityClamped(s: nat, q: nat)
    ensures ApplyQuality(s, q) == s * (if q < 10_000 then q else 10_000) / 10_000
  {
  }

  /** Cumulative work of a chain. */
  function ChainSecurity(scores: seq<nat>): nat {
    if scores == [] then 0 else scores[0] + ChainSecurity(scores[1..])
  }
}
