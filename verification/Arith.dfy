// Integer arithmetic shared by the models: powers, shifts, and the few nonlinear facts the
// solver needs spelled out.

module Arith {

  function Min(a: nat, b: nat): nat { if a < b then a else b }

  function Max(a: nat, b: nat): nat { if a < b then b else a }

  const TWO32: nat := 0x1_0000_0000

  // ---------------------------------------------------------------- products

  lemma MulMono(a: int, b: int, c: nat)
    requires a <= b
    ensures a * c <= b * c
  {
  }

  lemma MulStrict(a: int, b: int, c: nat)
    requires a < b && c > 0
    ensures a * c < b * c
  {
  }

  lemma MulAssoc(a: int, b: int, c: int)
    ensures a * (b * c) == (a * b) * c
  {
  }

  lemma MulSwap(a: int, b: int, x: int, y: int)
    ensures (a * b) * (x * y) == (a * x) * (b * y)
  {
    var xy := x * y;
    MulAssoc(a, b, xy);
    MulAssoc(b, x, y);
    MulAssoc(x, b, y);
    MulAssoc(a, x, b * y);
  }

  lemma MulDouble(a: int, b: int)
    ensures a * (2 * b) == 2 * (a * b)
  {
  }

  /** One more copy of m. */
  lemma MulStep(k: int, m: int)
    ensures (k - 1) * m + m == k * m
  {
  }

  /** Cancelling a positive factor. */
  lemma MulCancel(a: int, b: int, c: nat)
    requires a * c <= b * c && c > 0
    ensures a <= b
  {
    if b < a { MulStrict(b, a, c); }
  }

  lemma MulCancelStrict(a: int, b: int, c: nat)
    requires a * c < b * c
    ensures a < b
  {
    if b <= a { MulMono(b, a, c); }
  }

  /** Division brackets its argument. */
  lemma DivBounds(x: int, d: int)
    requires d > 0
    ensures (x / d) * d <= x < (x / d + 1) * d
  {
    assert (x / d + 1) * d == (x / d) * d + d;
  }

  /** A quotient is at least q exactly when the product fits. */
  lemma DivAtLeast(x: int, d: int, q: int)
    requires d > 0
    ensures q <= x / d <==> q * d <= x
  {
    DivBounds(x, d);
    if q <= x / d { MulMono(q, x / d, d); }
    if q > x / d { MulMono(x / d + 1, q, d); }
  }

  lemma DivMono(x: int, y: int, d: int)
    requires d > 0 && x <= y
    ensures x / d <= y / d
  {
    DivBounds(x, d);
    DivAtLeast(y, d, x / d);
  }

  /** Larger divisors give smaller quotients. */
  lemma DivAntitone(x: nat, d: int, e: int)
    requires 0 < d <= e
    ensures x / e <= x / d
  {
    var q := x / e;
    DivBounds(x, e);
    assert q >= 0 by { DivAtLeast(x, e, 0); }
    MulMono(d, e, q);
    assert q * d <= q * e;
    DivAtLeast(x, d, q);
  }

  /** Dividing twice is dividing by the product. */
  lemma DivDiv(x: nat, d: nat, e: nat)
    requires d > 0 && e > 0
    ensures d * e > 0 && x / d / e == x / (d * e) && x / d >= 0
  {
    var q, r := x / d, x / d / e;
    MulMono(1, d, e);
    DivAtLeast(x, d, 0);
    DivBounds(x, d);
    DivBounds(q, e);
    assert r * (d * e) == (r * e) * d by { MulAssoc(r, e, d); assert e * d == d * e; }
    assert (r + 1) * (d * e) == ((r + 1) * e) * d by { MulAssoc(r + 1, e, d); assert e * d == d * e; }
    MulMono(r * e, q, d);
    MulMono(q + 1, (r + 1) * e, d);
    DivAtLeast(x, d * e, r);
    DivAtLeast(x, d * e, r + 1);
  }

  // ---------------------------------------------------------------- powers

  function Pow(b: nat, e: nat): nat {
    if e == 0 then 1 else b * Pow(b, e - 1)
  }

  lemma {:induction false} PowPositive(b: nat, e: nat)
    requires b > 0
    ensures Pow(b, e) > 0
  {
    if e > 0 { PowPositive(b, e - 1); }
  }

  lemma {:induction false} PowAdd(b: nat, e: nat, f: nat)
    ensures Pow(b, e + f) == Pow(b, e) * Pow(b, f)
  {
    if e > 0 {
      PowAdd(b, e - 1, f);
      MulAssoc(b, Pow(b, e - 1), Pow(b, f));
    }
  }

  lemma {:induction false} PowOfProduct(a: nat, b: nat, e: nat)
    ensures Pow(a * b, e) == Pow(a, e) * Pow(b, e)
  {
    if e > 0 {
      PowOfProduct(a, b, e - 1);
      MulSwap(a, b, Pow(a, e - 1), Pow(b, e - 1));
    }
  }

  lemma {:induction false} PowOfPow(b: nat, e: nat, f: nat)
    ensures Pow(Pow(b, e), f) == Pow(b, e * f)
  {
    if f > 0 {
      PowOfPow(b, e, f - 1);
      PowAdd(b, e, e * (f - 1));
      assert e + e * (f - 1) == e * f;
    }
  }

  lemma {:induction false} PowMono(a: nat, b: nat, e: nat)
    requires a <= b
    ensures Pow(a, e) <= Pow(b, e)
  {
    if e > 0 {
      PowMono(a, b, e - 1);
      MulMono(a, b, Pow(a, e - 1));
      MulMono(Pow(a, e - 1), Pow(b, e - 1), b);
    }
  }

  // ---------------------------------------------------------------- shifts

  function Pow2(n: nat): (p: nat)
    ensures p > 0
  {
    if n == 0 then 1 else 2 * Pow2(n - 1)
  }

  lemma {:induction false} Pow2IsPow(n: nat)
    ensures Pow2(n) == Pow(2, n)
  {
    if n > 0 { Pow2IsPow(n - 1); }
  }

  lemma {:induction false} Pow2Mono(m: nat, n: nat)
    requires m <= n
    ensures Pow2(m) <= Pow2(n)
  {
    if m < n { Pow2Mono(m, n - 1); }
  }

  lemma {:induction false} Pow2Add(m: nat, n: nat)
    ensures Pow2(m + n) == Pow2(m) * Pow2(n)
  {
    if m > 0 {
      Pow2Add(m - 1, n);
      MulAssoc(2, Pow2(m - 1), Pow2(n));
    }
  }

  /** Right shift by n: n halvings. */
  function Shr(x: nat, n: nat): nat {
    if n == 0 then x else Shr(x / 2, n - 1)
  }

  /** Shifting right is dividing by the power of two, rounding down. */
  lemma {:induction false} ShrBounds(x: nat, n: nat)
    ensures Shr(x, n) * Pow2(n) <= x < (Shr(x, n) + 1) * Pow2(n)
  {
    if n > 0 {
      ShrBounds(x / 2, n - 1);
      MulDouble(Shr(x / 2, n - 1), Pow2(n - 1));
      MulDouble(Shr(x / 2, n - 1) + 1, Pow2(n - 1));
    }
  }

  lemma {:induction false} ShrMono(x: nat, y: nat, n: nat)
    requires x <= y
    ensures Shr(x, n) <= Shr(y, n)
  {
    if n > 0 { ShrMono(x / 2, y / 2, n - 1); }
  }

  /** Bit j of a number. */
  predicate Bit(x: nat, j: nat) {
    Shr(x, j) % 2 == 1
  }

  lemma {:induction false} ShrStep(x: nat, n: nat)
    ensures Shr(x, n + 1) == Shr(x, n) / 2
  {
    if n > 0 { ShrStep(x / 2, n - 1); }
  }

  /** Every bit pattern is the binary form of some number. */
  lemma {:induction false} NumberWithBits(a: seq<bool>) returns (bits: nat)
    ensures bits < Pow2(|a|)
    ensures forall j :: 0 <= j < |a| ==> Bit(bits, j) == a[j]
  {
    if a == [] {
      return 0;
    }
    var rest := NumberWithBits(a[1..]);
    bits := 2 * rest + if a[0] then 1 else 0;
    forall j | 0 <= j < |a|
      ensures Bit(bits, j) == a[j]
    {
      assert bits / 2 == rest;
      if j > 0 {
        assert Bit(rest, j - 1) == a[1..][j - 1];
      }
    }
  }

  /** At the highest bit where two numbers differ, the smaller has a zero. */
  lemma {:induction false} HighestDifference(x: nat, y: nat, n: nat) returns (j: nat)
    requires x < y < Pow2(n)
    ensures j < n && !Bit(x, j) && Bit(y, j)
    ensures forall k :: j < k < n ==> Bit(x, k) == Bit(y, k)
  {
    j := 0;
    if x / 2 < y / 2 {
      var rest := HighestDifference(x / 2, y / 2, n - 1);
      j := rest + 1;
    }
    forall k | j < k < n ensures Bit(x, k) == Bit(y, k) {
      assert Bit(x, k) == Bit(x / 2, k - 1) && Bit(y, k) == Bit(y / 2, k - 1);
    }
  }
}
