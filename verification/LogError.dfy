// How far the consensus logarithm (core/src/fixed_point.rs) falls short of the real one. Its
// documentation puts the interpolation error below 0.086 bits; the worst ratio is a little worse.

module LogError {
  import opened Arith
  import opened FixedPoint

  // ---------------------------------------------------------------- certified large powers

  const UNIT: nat := 1_000_000_000_000_000_000

  /** (a / b)^e * 2^p is at most c / UNIT. */
  ghost predicate Certified(a: nat, b: nat, e: nat, p: nat, c: nat) {
    (Pow(a, e) * Pow2(p)) * UNIT <= Pow(b, e) * c
  }

  function Tenth(x: nat): nat {
    var square := x * x;
    var fourth := square * square;
    (fourth * fourth) * square
  }

  lemma TenthIsPow(x: nat)
    ensures Tenth(x) == Pow(x, 10)
  {
    PowAdd(x, 1, 1);
    PowAdd(x, 2, 2);
    PowAdd(x, 4, 4);
    PowAdd(x, 8, 2);
    assert Pow(x, 1) == x * Pow(x, 0);
  }

  /** The next factor is at least the tenth power of c times 2^s. */
  predicate RoundsUp(c: nat, s: nat, next: nat) {
    (Tenth(c) * Pow2(s)) * 1_000_000_000_000_000_000 <= next * Tenth(1_000_000_000_000_000_000)
  }

  lemma PowOfShifted(a: nat, e: nat, p: nat, s: nat)
    ensures Pow(Pow(a, e) * Pow2(p), 10) * Pow2(s) == Pow(a, e * 10) * Pow2(10 * p + s)
  {
    PowOfProduct(Pow(a, e), Pow2(p), 10);
    PowOfPow(a, e, 10);
    Pow2IsPow(p);
    PowOfPow(2, p, 10);
    Pow2IsPow(p * 10);
    Pow2Add(p * 10, s);
    MulAssoc(Pow(a, e * 10), Pow2(p * 10), Pow2(s));
  }

  /** Ten times the exponent. */
  lemma TenthPower(a: nat, b: nat, e: nat, p: nat, c: nat, s: nat, next: nat)
    requires Certified(a, b, e, p, c)
    ensures RoundsUp(c, s, next) ==> Certified(a, b, e * 10, 10 * p + s, next)
  {
    var x, y := Pow(a, e) * Pow2(p), Pow(b, e);
    assert Pow(x, 10) * Pow(UNIT, 10) <= Pow(y, 10) * Pow(c, 10) by {
      PowMono(x * UNIT, y * c, 10);
      PowOfProduct(x, UNIT, 10);
      PowOfProduct(y, c, 10);
    }
    PowPositive(UNIT, 10);
    TenthIsPow(c);
    TenthIsPow(UNIT);
    if RoundsUp(c, s, next) {
      Rescale(Pow(x, 10), Pow(y, 10), Pow(c, 10), Pow2(s), Pow(UNIT, 10), UNIT, next);
    }
    PowOfShifted(a, e, p, s);
    PowOfPow(b, e, 10);
  }

  lemma Rescale(x: nat, y: nat, c: nat, s: nat, w: nat, u: nat, next: nat)
    requires w > 0 && x * w <= y * c && (c * s) * u <= next * w
    ensures (x * s) * u <= y * next
  {
    MulMono(x * w, y * c, s * u);
    MulMono((c * s) * u, next * w, y);
    assert ((x * s) * u) * w == (x * w) * (s * u) by { MulSwap(x, w, s, u); MulAssoc(x * s, w, u); MulAssoc(x * s, u, w); }
    assert (y * c) * (s * u) == ((c * s) * u) * y by { MulAssoc(y * c, s, u); MulAssoc(y, c, s); MulAssoc(y, c * s, u); }
    MulAssoc(y, next, w);
    MulCancel((x * s) * u, y * next, w);
  }

  lemma FirstPower(a: nat, b: nat, c: nat)
    requires a * UNIT <= b * c
    ensures Certified(a, b, Pow(10, 0), 0, c)
  {
    assert Pow(a, 1) == a * Pow(a, 0) && Pow(b, 1) == b * Pow(b, 0);
  }

  /** Six tenth powers reach the scale, shifting by the decimal digits of p on the way. */
  lemma ScalePower(a: nat, b: nat, c0: nat, s1: nat, c1: nat, s2: nat, c2: nat, s3: nat, c3: nat,
                   s4: nat, c4: nat, s5: nat, c5: nat, s6: nat, c6: nat)
    requires a * UNIT <= b * c0
    requires RoundsUp(c0, s1, c1) && RoundsUp(c1, s2, c2) && RoundsUp(c2, s3, c3)
    requires RoundsUp(c3, s4, c4) && RoundsUp(c4, s5, c5) && RoundsUp(c5, s6, c6)
    ensures Certified(a, b, SCALE, 100000 * s1 + 10000 * s2 + 1000 * s3 + 100 * s4 + 10 * s5 + s6, c6)
  {
    FirstPower(a, b, c0);
    var p, e := 0, Pow(10, 0);
    TenthPower(a, b, e, p, c0, s1, c1);
    p, e := 10 * p + s1, e * 10;
    TenthPower(a, b, e, p, c1, s2, c2);
    p, e := 10 * p + s2, e * 10;
    TenthPower(a, b, e, p, c2, s3, c3);
    p, e := 10 * p + s3, e * 10;
    TenthPower(a, b, e, p, c3, s4, c4);
    p, e := 10 * p + s4, e * 10;
    TenthPower(a, b, e, p, c4, s5, c5);
    p, e := 10 * p + s5, e * 10;
    TenthPower(a, b, e, p, c5, s6, c6);
  }

  // ---------------------------------------------------------------- the steepest point

  /** 1442694 / 1442695 raised to the scale is below one half. */
  lemma PowerBelow()
    ensures Certified(1442694, 1442695, SCALE, 0, 499999870064181469)
  {
    ScalePower(1442694, 1442695, 999999306852799795, 0, 999993068549618297, 0, 999930687658168206,
               0, 999307092730760918, 0, 993092492856269844, 0, 933032967289923486, 0, 499999870064181469);
  }

  /** 1442696 / 1442695 raised to the scale is below two. */
  lemma PowerAbove()
    ensures Certified(1442696, 1442695, SCALE, 0, 1999999558839384890)
  {
    ScalePower(1442696, 1442695, 1000000693147200206, 0, 1000006931493622487, 0, 1000069317098317007,
               0, 1000693387241847353, 0, 1006955547835572917, 0, 1071773438895078818, 0, 1999999558839384890);
  }

  lemma CertifiedDoubles(s: nat, f: nat, c: nat)
    requires Certified(s + f, s + f + 1, s, 0, c) && 2 * c <= UNIT
    ensures Doubles(s, f)
  {
    HalfUnits(Pow(s + f, s), Pow(s + f + 1, s), c, UNIT);
  }

  lemma CertifiedDoesNotDouble(s: nat, f: nat, c: nat)
    requires Certified(s + f + 1, s + f, s, 0, c) && c < 2 * UNIT && s > 0
    ensures !Doubles(s, f)
  {
    CertifiedUnder(s + f + 1, s + f, s, 0, c, 2);
  }

  lemma HalfUnits(x: nat, y: nat, c: nat, u: nat)
    requires u > 0 && (x * 1) * u <= y * c && 2 * c <= u
    ensures 2 * x <= y
  {
    MulMono(2 * c, u, y);
    MulAssoc(2, x, u);
    MulAssoc(2, c, y);
    MulCancel(2 * x, y, u);
  }

  lemma CertifiedUnder(a: nat, b: nat, e: nat, p: nat, c: nat, k: nat)
    requires b > 0 && Certified(a, b, e, p, c) && c < k * UNIT
    ensures Pow(2, p) * Pow(a, e) < k * Pow(b, e)
  {
    PowPositive(b, e);
    Pow2IsPow(p);
    UnderUnits(Pow(a, e), Pow(b, e), Pow2(p), c, UNIT, k);
  }

  lemma UnderUnits(x: nat, y: nat, z: nat, c: nat, u: nat, k: nat)
    requires y > 0 && c < k * u && (x * z) * u <= y * c
    ensures z * x < k * y
  {
    MulStrict(c, k * u, y);
    MulAssoc(y, k, u);
    MulCancelStrict(x * z, y * k, u);
  }

  /** A step past 1 + f doubles the S-th power exactly up to f = 0.442694, next to 1 / ln 2 - 1. */
  lemma DoublesIff(f: nat)
    ensures Doubles(SCALE, f) <==> f <= 442694
  {
    PowerBelow();
    CertifiedDoubles(SCALE, 442694, 499999870064181469);
    PowerAbove();
    CertifiedDoesNotDouble(SCALE, 442695, 1999999558839384890);
    if f <= 442694 {
      DoublesUpTo(SCALE, f, 442694);
    } else if Doubles(SCALE, f) {
      DoublesUpTo(SCALE, 442695, f);
    }
  }

  lemma {:induction false} DoublesUpTo(s: nat, f: nat, g: nat)
    requires s > 0 && f <= g && Doubles(s, g)
    ensures Doubles(s, f)
    decreases g
  {
    if f < g {
      DoublesDownward(s, g - 1);
      DoublesUpTo(s, f, g - 1);
    }
  }

  // ---------------------------------------------------------------- the interpolation

  /** Interpolating at f misses the logarithm by at most, or at least, c / S bits. */
  ghost predicate OffAtMost(s: nat, f: nat, c: nat) {
    Pow(s + f, s) <= Pow(2, f + c) * Pow(s, s)
  }

  ghost predicate OffAtLeast(s: nat, f: nat, c: nat) {
    Pow(2, f + c) * Pow(s, s) <= Pow(s + f, s)
  }

  /** The error grows while steps double. */
  lemma GrowsBefore(s: nat, f: nat, g: nat, c: nat)
    requires s > 0 && f <= g && (f < g ==> Doubles(s, g - 1))
    ensures OffAtMost(s, g, c) ==> OffAtMost(s, f, c)
    ensures OffAtLeast(s, f, c) ==> OffAtLeast(s, g, c)
  {
    RisesTo(s, f, g);
    PowPositive(2, g - f);
    PowAdd(2, g - f, f + c);
    if OffAtMost(s, g, c) {
      CancelBefore(Pow(2, g - f), Pow(s + f, s), Pow(s + g, s), Pow(2, f + c), Pow(s, s));
    }
    if OffAtLeast(s, f, c) {
      ScaleUnder(Pow(2, g - f), Pow(2, f + c), Pow(s, s), Pow(s + f, s), Pow(s + g, s));
    }
  }

  /** And falls once they no longer do. */
  lemma FallsAfter(s: nat, f: nat, g: nat, c: nat)
    requires s > 0 && f <= g && (f < g ==> !Doubles(s, f))
    ensures OffAtMost(s, f, c) ==> OffAtMost(s, g, c)
    ensures OffAtLeast(s, g, c) ==> OffAtLeast(s, f, c)
  {
    FallsFrom(s, f, g);
    PowPositive(2, g - f);
    PowAdd(2, g - f, f + c);
    if OffAtMost(s, f, c) {
      ScaleAfter(Pow(2, g - f), Pow(s + g, s), Pow(s + f, s), Pow(2, f + c), Pow(s, s));
    }
    if OffAtLeast(s, g, c) {
      CancelCommon(Pow(2, g - f), Pow(2, f + c), Pow(s, s), Pow(s + f, s));
    }
  }

  lemma CancelBefore(k: nat, x: nat, top: nat, q: nat, z: nat)
    requires k > 0 && k * x <= top <= (k * q) * z
    ensures x <= q * z
  {
    MulAssoc(k, q, z);
    MulCancel(x, q * z, k);
  }

  lemma ScaleAfter(k: nat, x: nat, top: nat, q: nat, z: nat)
    requires x <= k * top && top <= q * z
    ensures x <= (k * q) * z
  {
    MulMono(top, q * z, k);
    MulAssoc(k, q, z);
  }

  lemma ScaleUnder(k: nat, q: nat, z: nat, x: nat, top: nat)
    requires q * z <= x && k * x <= top
    ensures (k * q) * z <= top
  {
    MulMono(q * z, x, k);
    MulAssoc(k, q, z);
  }

  /** From a certified (S + f) / 2S. */
  lemma CertifiedAtMost(s: nat, f: nat, c: nat, p: nat, factor: nat)
    requires s > 0 && p <= s && f + c == s - p
    requires Certified(s + f, 2 * s, s, p, factor) && factor < UNIT
    ensures OffAtMost(s, f, c)
  {
    CertifiedUnder(s + f, 2 * s, s, p, factor, 1);
    PowOfProduct(2, s, s);
    PowAdd(2, p, s - p);
    PowPositive(2, p);
    CancelBefore(Pow(2, p), Pow(s + f, s), Pow(2 * s, s), Pow(2, s - p), Pow(s, s));
  }

  /** From a certified S / (S + f). */
  lemma CertifiedAtLeast(s: nat, f: nat, c: nat, factor: nat)
    requires s > 0 && Certified(s, s + f, s, f + c, factor) && factor < UNIT
    ensures OffAtLeast(s, f, c)
  {
    CertifiedUnder(s, s + f, s, f + c, factor, 1);
  }

  // Certificates at the peak and where the error passes 0.086.

  lemma ErrorAtPeak()
    ensures OffAtMost(SCALE, 442695, 86072)
  {
    ScalePower(1442695, 2000000, 721347500000000000, 4, 610330807786553258, 7, 918042727141471565,
               1, 850469884778419064, 2, 791861793898436465, 3, 775503712761496129, 3, 629402988381943154);
    CertifiedAtMost(SCALE, 442695, 86072, 471233, 629402988381943154);
  }

  lemma ErrorBefore()
    ensures OffAtMost(SCALE, 428099, 85997)
  {
    ScalePower(1428099, 2000000, 714049500000000000, 4, 551319275152791564, 8, 664158492427020438,
               5, 534401022744710363, 9, 972619040410467289, 0, 757578555088171601, 4, 996315089360712628);
    CertifiedAtMost(SCALE, 428099, 85997, 485904, 996315089360712628);
  }

  lemma ErrorAfter()
    ensures OffAtMost(SCALE, 457390, 85997)
  {
    ScalePower(1457390, 2000000, 728695000000000000, 4, 675426161878249729, 5, 632308126844220383,
               6, 653834166092391922, 6, 913810371472178485, 1, 812065058811579978, 3, 997695996570753525);
    CertifiedAtMost(SCALE, 457390, 85997, 456613, 997695996570753525);
  }

  lemma ErrorRising()
    ensures OffAtLeast(SCALE, 428397, 86000)
  {
    ScalePower(1000000, 1428397, 700085480437161378, 5, 905025225636230946, 1, 737287446948902979,
               4, 759431101921429191, 3, 510474180568965993, 9, 615187875611739840, 7, 993774035774870231);
    CertifiedAtLeast(SCALE, 428397, 86000, 993774035774870231);
  }

  lemma ErrorFalling()
    ensures OffAtLeast(SCALE, 457089, 86000)
  {
    ScalePower(1000000, 1457089, 686299875985612410, 5, 741804019862965039, 4, 807256976952750201,
               3, 940173615453624066, 0, 539610748849542098, 8, 535853270923268955, 9, 999375783296691380);
    CertifiedAtLeast(SCALE, 457089, 86000, 999375783296691380);
  }

  lemma JustBelowPeak()
    ensures OffAtLeast(SCALE, 442695, 86071)
  {
    ScalePower(1000000, 1442695, 693147200205171572, 5, 819227857452120495, 2, 544636959934163736,
               8, 587910294002086048, 7, 631423316357318235, 6, 644742238847067010, 6, 794403600284752447);
    CertifiedAtLeast(SCALE, 442695, 86071, 794403600284752447);
  }

  /** Interpolation is off by at most 0.086072 bits, at most 0.085997 before 0.4281 and after 0.4574,
      and at least 0.086 between 0.4284 and 0.457089. */
  lemma InterpolationError(f: nat)
    ensures OffAtMost(SCALE, f, 86072)
    ensures f <= 428099 || f >= 457390 ==> OffAtMost(SCALE, f, 85997)
    ensures 428397 <= f <= 457089 ==> OffAtLeast(SCALE, f, 86000)
  {
    ErrorAtPeak();
    SpreadAtMost(442695, 86072, f);
    if f <= 428099 {
      ErrorBefore();
      SpreadAtMost(428099, 85997, f);
    } else if f >= 457390 {
      ErrorAfter();
      SpreadAtMost(457390, 85997, f);
    } else if 428397 <= f <= 442695 {
      ErrorRising();
      SpreadAtLeast(428397, 86000, f);
    } else if 442695 <= f <= 457089 {
      ErrorFalling();
      SpreadAtLeast(457089, 86000, f);
    }
  }

  /** An upper bound on the error spreads away from the peak. */
  lemma SpreadAtMost(at: nat, c: nat, f: nat)
    requires OffAtMost(SCALE, at, c)
    requires (f <= at <= 442695) || (442695 <= at <= f)
    ensures OffAtMost(SCALE, f, c)
  {
    if f < at {
      DoublesIff(at - 1);
      GrowsBefore(SCALE, f, at, c);
    } else if at < f {
      DoublesIff(at);
      FallsAfter(SCALE, at, f, c);
    }
  }

  /** A lower bound spreads towards it. */
  lemma SpreadAtLeast(at: nat, c: nat, f: nat)
    requires OffAtLeast(SCALE, at, c)
    requires (at <= f <= 442695) || (442695 <= f <= at)
    ensures OffAtLeast(SCALE, f, c)
  {
    if at < f {
      DoublesIff(f - 1);
      GrowsBefore(SCALE, at, f, c);
    } else if f < at {
      DoublesIff(f);
      FallsAfter(SCALE, f, at, c);
    }
  }

  // ---------------------------------------------------------------- the whole score

  /** From a cap on the mantissa to a cap on S-th powers. */
  lemma PowersToCap(n: nat, d: nat, k: nat, s: nat, g: nat, c: nat)
    requires s > 0 && n * s <= (s + g) * (Pow2(k) * d) && OffAtMost(s, g, c)
    ensures Pow(n, s) <= Pow(2, k * s + g + c) * Pow(d, s)
  {
    var x := Pow2(k) * d;
    var px, pn, ps, p2 := Pow(x, s), Pow(n, s), Pow(s, s), Pow(2, g + c);
    PowMono(n * s, (s + g) * x, s);
    PowOfProduct(s + g, x, s);
    PowOfProduct(n, s, s);
    MulMono(Pow(s + g, s), p2 * ps, px);
    assert (p2 * ps) * px == (p2 * px) * ps by { MulAssoc(p2, ps, px); MulAssoc(p2, px, ps); }
    PowPositive(s, s);
    MulCancel(pn, p2 * px, ps);
    PowOfProduct(Pow2(k), d, s);
    Pow2IsPow(k);
    PowOfPow(2, k, s);
    PowAdd(2, k * s, g + c);
    MulAssoc(p2, Pow(2, k * s), Pow(d, s));
    assert p2 * Pow(2, k * s) == Pow(2, k * s) * p2;
  }

  /** The score of n / d falls short of the logarithm by at most, or at least, c / SCALE bits. */
  ghost predicate ShortByAtMost(n: nat, d: nat, c: nat)
    requires 0 < d < n
  {
    Pow(n, SCALE) <= Pow(2, Log2Ratio(n, d).value + c) * Pow(d, SCALE)
  }

  ghost predicate ShortByAtLeast(n: nat, d: nat, c: nat)
    requires 0 < d < n
  {
    Pow(2, Log2Ratio(n, d).value + c) * Pow(d, SCALE) <= Pow(n, SCALE)
  }

  /** A bound on the interpolation error at a score's fraction, rounded up, bounds the score's error. */
  lemma ScoreOffAtMost(n: nat, d: nat, k: nat, f: nat, c: nat)
    requires 0 < d < n && Log2Ratio(n, d).value == k * SCALE + f
    requires n * SCALE <= (SCALE + (f + 2)) * (Pow2(k) * d) && OffAtMost(SCALE, f + 2, c)
    ensures ShortByAtMost(n, d, c + 2)
  {
    PowersToCap(n, d, k, SCALE, f + 2, c);
    assert k * SCALE + (f + 2) + c == Log2Ratio(n, d).value + (c + 2);
  }

  lemma ScoreOffAtLeast(n: nat, d: nat, k: nat, f: nat, c: nat)
    requires 0 < d < n && Log2Ratio(n, d).value == k * SCALE + f
    requires (SCALE + f) * (Pow2(k) * d) <= n * SCALE && OffAtLeast(SCALE, f, c)
    ensures ShortByAtLeast(n, d, c)
  {
    PowersFromMantissa(n, d, k, SCALE, f, f + c);
    assert k * SCALE + (f + c) == Log2Ratio(n, d).value + c;
  }

  /** The greatest d * 2^k not above n. */
  function Base(n: nat, d: nat): (x: nat)
    requires 0 < d <= n
    ensures x <= n < 2 * x
    decreases n - d
  {
    if 2 * d <= n then Base(n, 2 * d) else d
  }

  lemma {:induction false} BaseIs(n: nat, d: nat, k: nat)
    requires 0 < d <= n && Pow2(k) * d <= n < Pow2(k + 1) * d
    ensures Base(n, d) == Pow2(k) * d
    decreases k
  {
    MulAssoc(Pow2(k), 2, d);
    if k > 0 {
      MulAssoc(Pow2(k - 1), 2, d);
      MulMono(1, Pow2(k - 1), 2 * d);
      BaseIs(n, 2 * d, k - 1);
    }
  }

  /** The score's fraction is what n is above that base, rounded down by less than two units. */
  lemma FractionOfBase(n: nat, d: nat) returns (k: nat, f: nat)
    requires 0 < d < n
    ensures Log2Ratio(n, d).value == k * SCALE + f && Base(n, d) == Pow2(k) * d
    ensures (SCALE + f) * (Pow2(k) * d) <= n * SCALE <= (SCALE + (f + 2)) * (Pow2(k) * d)
  {
    k, f := ScoreParts(n, d);
    Log2RatioWholeBits(n, d);
    WholePart(k, f);
    var x := Pow2(k) * d;
    MulMono(SCALE, SCALE + f, x);
    MulCancel(x, n, SCALE);
    BaseIs(n, d, k);
  }

  lemma BetweenMultiples(x: nat, y: nat, a: nat, b: nat)
    requires a * x <= y <= b * x
    ensures forall c: nat :: y < c * x ==> a < c
    ensures forall c: nat :: c * x < y ==> c < b
  {
    forall c: nat | y < c * x
      ensures a < c
    {
      MulCancelStrict(a, c, x);
    }
    forall c: nat | c * x < y
      ensures c < b
    {
      MulCancelStrict(c, b, x);
    }
  }

  /** The score is never more than 0.086074 bits short. The documented bound of 0.086 bits holds where
      n is below 1.428098 or above 1.457389 times its base, and fails from 1.428398 to 1.45709. */
  lemma Log2RatioError(n: nat, d: nat)
    requires 0 < d < n
    ensures ShortByAtMost(n, d, 86074)
    ensures n * SCALE < 1_428_098 * Base(n, d) || n * SCALE > 1_457_389 * Base(n, d) ==> ShortByAtMost(n, d, 85999)
    ensures 1_428_398 * Base(n, d) < n * SCALE < 1_457_090 * Base(n, d) ==> ShortByAtLeast(n, d, 86000)
  {
    var f := ErrorByFraction(n, d);
    BetweenMultiples(Base(n, d), n * SCALE, SCALE + f, SCALE + (f + 2));
  }

  lemma ErrorByFraction(n: nat, d: nat) returns (f: nat)
    requires 0 < d < n
    ensures (SCALE + f) * Base(n, d) <= n * SCALE <= (SCALE + (f + 2)) * Base(n, d)
    ensures ShortByAtMost(n, d, 86074)
    ensures f <= 428097 || f >= 457388 ==> ShortByAtMost(n, d, 85999)
    ensures 428397 <= f <= 457089 ==> ShortByAtLeast(n, d, 86000)
  {
    var k;
    k, f := FractionOfBase(n, d);
    InterpolationError(f + 2);
    InterpolationError(f);
    ScoreOffAtMost(n, d, k, f, 86072);
    if f <= 428097 || f >= 457388 {
      ScoreOffAtMost(n, d, k, f, 85997);
    } else if 428397 <= f <= 457089 {
      ScoreOffAtLeast(n, d, k, f, 86000);
    }
  }

  /** 1.442695 comes within two millionths of a bit of the worst. */
  lemma WorstRatio()
    ensures ShortByAtLeast(1442695, 1000000, 86072)
  {
    var ratio := ScoredRatio(1442695, 1000000);
    assert ratio == 6196327843;
    Pow2Of32();
    FloorLog2Unique(ratio, 32);
    assert Shr(ratio, 0) == ratio;
    assert Log2Ratio(1442695, 1000000).value == 442694;
    JustBelowPeak();
  }
}
