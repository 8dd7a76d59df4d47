// The dynamic base fee (mempool/src/fee_market.rs), an adaptation of the base-fee rule in the
// Specification section of EIP-1559 with transaction counts in place of gas.

module FeeMarket {
  import opened Arith

  const I64_MAX: int := 0x7FFF_FFFF_FFFF_FFFF

  /** Integer division that truncates toward zero, as on machine integers. */
  function TruncDiv(x: int, d: int): int
    requires d > 0
  {
    if x >= 0 then x / d else -(-x / d)
  }

  datatype Config = Config(target: nat, denominator: nat, floor: nat)

  predicate Usable(c: Config) { c.target > 0 && c.denominator > 0 }

  /** How much one block moves the fee. */
  function Change(c: Config, fee: nat, transactions: nat): int
    requires Usable(c)
  {
    TruncDiv(TruncDiv(fee * (transactions - c.target), c.target), c.denominator)
  }

  function MaxInt(a: int, b: int): int { if a < b then b else a }

  /** The fee after a block; a block exactly at the target changes nothing, not even to the floor. */
  function NextFee(c: Config, fee: nat, transactions: nat): nat
    requires Usable(c)
  {
    if transactions == c.target then fee else MaxInt(fee + Change(c, fee, transactions), c.floor)
  }

  /** The machine words of the update do not overflow. */
  predicate Fits(c: Config, fee: nat, transactions: nat) {
    && fee <= I64_MAX && c.floor <= I64_MAX && c.target <= I64_MAX && c.denominator <= I64_MAX
    && transactions <= I64_MAX
    && -I64_MAX <= fee * (transactions - c.target) <= I64_MAX
    && (Usable(c) ==> fee + Change(c, fee, transactions) <= I64_MAX)
  }

  // ---------------------------------------------------------------- one block

  lemma TruncDivMono(x: int, y: int, d: int)
    requires d > 0 && x <= y
    ensures TruncDiv(x, d) <= TruncDiv(y, d)
  {
    if x >= 0 {
      DivMono(x, y, d);
    } else if y < 0 {
      DivMono(-y, -x, d);
    } else {
      DivAtLeast(-x, d, 0);
      DivAtLeast(y, d, 0);
    }
  }

  /** Truncation is odd: negating the dividend negates the quotient. */
  lemma TruncDivNegated(x: nat, d: int)
    requires d > 0
    ensures TruncDiv(-(x as int), d) == -(x / d) && x / d >= 0
  {
    DivAtLeast(x, d, 0);
  }

  lemma DivExact(q: nat, d: int)
    requires d > 0
    ensures q * d / d == q
  {
    DivAtLeast(q * d, d, q);
    DivAtLeast(q * d, d, q + 1);
    MulStrict(q, q + 1, d);
  }

  lemma TruncDivWithin(x: int, d: int, q: nat)
    requires d > 0 && 0 <= q * d + x && x <= q * d
    ensures 0 <= q + TruncDiv(x, d) && TruncDiv(x, d) <= q
  {
    DivExact(q, d);
    TruncDivMono(x, q * d, d);
    TruncDivNegated(q * d, d);
    TruncDivMono(-(q * d), x, d);
  }

  /** Multiplying back never overshoots, on either side of zero. */
  lemma TruncDivScaled(x: int, d: int, bound: nat)
    requires d > 0 && 0 <= bound + x && x <= bound
    ensures 0 <= bound + d * TruncDiv(x, d) && d * TruncDiv(x, d) <= bound
  {
    if x >= 0 {
      DivBounds(x, d);
      var q := x / d;
      assert q * d == d * q;
      DivAtLeast(x, d, 0);
      MulMono(0, q, d);
    } else {
      DivBounds(-x, d);
      var q := -x / d;
      assert q * d == d * q;
      DivAtLeast(-x, d, 0);
      MulMono(0, q, d);
      assert d * -q == -(d * q);
    }
  }

  /** The product with a bounded delta stays within fee times target. */
  lemma DeltaWithin(fee: nat, delta: int, target: nat)
    requires 0 <= target + delta && delta <= target
    ensures 0 <= fee * target + fee * delta && fee * delta <= fee * target
  {
    MulMono(delta, target, fee);
    MulMono(0, target + delta, fee);
    assert (target + delta) * fee == fee * target + fee * delta;
  }

  /** A block of at most twice the target moves the fee by at most a D-th of it. */
  lemma ChangeBounded(c: Config, fee: nat, transactions: nat)
    requires Usable(c) && transactions <= 2 * c.target
    ensures 0 <= fee + c.denominator * Change(c, fee, transactions)
    ensures c.denominator * Change(c, fee, transactions) <= fee
  {
    var moved := fee * (transactions - c.target);
    DeltaWithin(fee, transactions - c.target, c.target);
    TruncDivWithin(moved, c.target, fee);
    TruncDivScaled(TruncDiv(moved, c.target), c.denominator, fee);
  }

  /** One block multiplies the fee by at most (D + 1) / D and at least (D - 1) / D. */
  lemma StepBounded(c: Config, fee: nat, transactions: nat)
    requires Usable(c) && transactions <= 2 * c.target && fee >= c.floor
    ensures NextFee(c, fee, transactions) >= c.floor
    ensures (c.denominator - 1) * fee <= c.denominator * NextFee(c, fee, transactions) <= (c.denominator + 1) * fee
  {
    ChangeBounded(c, fee, transactions);
    var change := if transactions == c.target then 0 else Change(c, fee, transactions);
    ScaledMove(c.denominator, fee, change, c.floor);
  }

  lemma ScaledMove(d: nat, fee: nat, change: int, floor: nat)
    requires fee >= floor && 0 <= fee + d * change && d * change <= fee
    ensures var next := MaxInt(fee + change, floor);
            (d - 1) * fee <= d * next && d * next <= (d + 1) * fee
  {
    var next := MaxInt(fee + change, floor);
    MulSum(fee, change, d);
    assert (d + 1) * fee == d * fee + fee && (d - 1) * fee == d * fee - fee;
    if next == floor {
      MulMono(fee + change, floor, d);
      MulMono(floor, fee, d);
      assert d * floor == floor * d && d * fee == fee * d && d * (fee + change) == (fee + change) * d;
    }
  }

  lemma MulSum(a: int, b: int, d: int)
    ensures d * (a + b) == d * a + d * b
  {
  }

  /** Any update away from the target brings the fee to the floor or above. */
  lemma FloorHolds(c: Config, fee: nat, transactions: nat)
    requires Usable(c)
    ensures NextFee(c, fee, transactions) >= c.floor <==> fee >= c.floor || transactions != c.target
  {
  }

  // ---------------------------------------------------------------- monotonicity

  /** Fuller blocks never lower the next fee. */
  lemma MonotoneInFullness(c: Config, fee: nat, few: nat, many: nat)
    requires Usable(c) && fee >= c.floor && few <= many
    ensures NextFee(c, fee, few) <= NextFee(c, fee, many)
  {
    MulMono(few - c.target, many - c.target, fee);
    assert (few - c.target) * fee == fee * (few - c.target);
    assert (many - c.target) * fee == fee * (many - c.target);
    TruncDivMono(fee * (few - c.target), fee * (many - c.target), c.target);
    TruncDivMono(TruncDiv(fee * (few - c.target), c.target), TruncDiv(fee * (many - c.target), c.target), c.denominator);
    if few <= c.target { ChangeSign(c, fee, few); }
    if many >= c.target { ChangeSign(c, fee, many); }
  }

  /** Monotonicity in fullness holds exactly from the floor up: below it, a block exactly at the target
      keeps the low fee while an emptier one would lift it to the floor. */
  lemma MonotoneInFullnessIff(c: Config, fee: nat)
    requires Usable(c)
    ensures (forall few: nat, many: nat | few <= many :: NextFee(c, fee, few) <= NextFee(c, fee, many))
            <==> fee >= c.floor
  {
    if fee >= c.floor {
      forall few: nat, many: nat | few <= many
        ensures NextFee(c, fee, few) <= NextFee(c, fee, many)
      {
        MonotoneInFullness(c, fee, few, many);
      }
    } else {
      assert NextFee(c, fee, 0) >= c.floor > NextFee(c, fee, c.target);
    }
  }

  /** The fee moves with the block's distance from the target. */
  lemma ChangeSign(c: Config, fee: nat, transactions: nat)
    requires Usable(c)
    ensures transactions >= c.target ==> Change(c, fee, transactions) >= 0
    ensures transactions <= c.target ==> Change(c, fee, transactions) <= 0
  {
    if transactions >= c.target {
      MulMono(0, transactions - c.target, fee);
      assert (transactions - c.target) * fee == fee * (transactions - c.target);
      TruncDivMono(0, fee * (transactions - c.target), c.target);
      TruncDivMono(0, TruncDiv(fee * (transactions - c.target), c.target), c.denominator);
    }
    if transactions <= c.target {
      MulMono(transactions - c.target, 0, fee);
      assert (transactions - c.target) * fee == fee * (transactions - c.target);
      TruncDivMono(fee * (transactions - c.target), 0, c.target);
      TruncDivMono(TruncDiv(fee * (transactions - c.target), c.target), 0, c.denominator);
    }
  }

  /** Adding k to the dividend's base adds at most k to a truncated share: |x|/d grows slower than x. */
  lemma ShareSlope(a: nat, b: nat, k: nat, d: int)
    requires d > 0 && a <= b && k <= d
    ensures 0 <= (b * k) / d - (a * k) / d <= b - a
  {
    MulMono(a, b, k);
    DivMono(a * k, b * k, d);
    DivBounds(a * k, d);
    DivBounds(b * k, d);
    var qa, qb := (a * k) / d, (b * k) / d;
    assert b * k == a * k + (b - a) * k;
    MulMono(k, d, b - a);
    assert (b - a) * k == k * (b - a) && (b - a) * d == d * (b - a);
    assert qb * d < (qa + 1) * d + (b - a) * d;
    assert (qa + 1) * d + (b - a) * d == (qa + 1 + b - a) * d;
    MulCancelStrict(qb, qa + 1 + b - a, d);
  }

  /** A second division only flattens further. */
  lemma QuotientSlope(x: nat, y: nat, d: int)
    requires d > 0 && x <= y
    ensures 0 <= y / d - x / d <= y - x
  {
    ShareSlope(x, y, 1, d);
  }

  /** Higher fees stay higher: one step is monotone in the current fee. */
  lemma MonotoneInFee(c: Config, low: nat, high: nat, transactions: nat)
    requires Usable(c) && low <= high
    ensures NextFee(c, low, transactions) <= NextFee(c, high, transactions)
  {
    var delta := transactions - c.target;
    if delta >= 0 {
      MulMono(low, high, delta);
      TruncDivMono(low * delta, high * delta, c.target);
      TruncDivMono(TruncDiv(low * delta, c.target), TruncDiv(high * delta, c.target), c.denominator);
    } else {
      NegativeChange(c, low, transactions);
      NegativeChange(c, high, transactions);
      ShareSlope(low, high, -delta, c.target);
      var x, y := low * -delta / c.target, high * -delta / c.target;
      DivAtLeast(low * -delta, c.target, 0);
      QuotientSlope(x, y, c.denominator);
    }
  }

  /** Below the target the change is a rounded-down share of the fee, taken away. */
  lemma NegativeChange(c: Config, fee: nat, transactions: nat)
    requires Usable(c) && transactions < c.target
    ensures 0 <= fee * (c.target - transactions) / c.target
    ensures Change(c, fee, transactions) == -(fee * (c.target - transactions) / c.target / c.denominator)
  {
    MulMono(0, c.target - transactions, fee);
    var p: nat := (c.target - transactions) * fee;
    assert fee * (transactions - c.target) == 0 - p;
    assert fee * (c.target - transactions) == p;
    TruncDivNegated(p, c.target);
    TruncDivNegated(p / c.target, c.denominator);
  }

  /** Above the target the change is a rounded-down share of the fee, added. */
  lemma PositiveChange(c: Config, fee: nat, transactions: nat)
    requires Usable(c) && transactions >= c.target
    ensures Change(c, fee, transactions) == fee * (transactions - c.target) / c.target / c.denominator
  {
    var delta: nat := transactions - c.target;
    DivAtLeast(fee * delta, c.target, 0);
  }

  /** One block moves the fee by the floor of fee * distance / (target * denominator): up above the
      target, down below it, where the floor fee cuts the fall short. */
  lemma NextFeeExact(c: Config, fee: nat, transactions: nat) returns (moved: nat)
    requires Usable(c) && fee >= c.floor
    ensures var distance := if transactions >= c.target then transactions - c.target else c.target - transactions;
            moved * (c.target * c.denominator) <= fee * distance < (moved + 1) * (c.target * c.denominator)
    ensures transactions >= c.target ==> NextFee(c, fee, transactions) == fee + moved
    ensures transactions <= c.target ==>
              NextFee(c, fee, transactions) == if fee < c.floor + moved then c.floor else fee - moved
  {
    var distance: nat := if transactions >= c.target then transactions - c.target else c.target - transactions;
    moved := Share(fee * distance, c.target, c.denominator);
    if transactions > c.target {
      PositiveChange(c, fee, transactions);
    } else if transactions < c.target {
      NegativeChange(c, fee, transactions);
    } else {
      MulStrict(0, 1, c.target * c.denominator);
      MulCancelStrict(moved, 1, c.target * c.denominator);
    }
  }

  lemma Share(x: nat, d: nat, e: nat) returns (q: nat)
    requires d > 0 && e > 0
    ensures q == x / d / e && d * e > 0 && q * (d * e) <= x < (q + 1) * (d * e)
  {
    DivDiv(x, d, e);
    DivAtLeast(x / d, e, 0);
    q := x / d / e;
    DivBounds(x, d * e);
  }

  // ---------------------------------------------------------------- any number of blocks

  function FeeAfter(c: Config, fee: nat, blocks: seq<nat>): nat
    requires Usable(c)
  {
    if blocks == [] then fee
    else NextFee(c, FeeAfter(c, fee, blocks[..|blocks| - 1]), blocks[|blocks| - 1])
  }

  /** Over n blocks of at most twice the target: the fee never drops below the floor,
      D^n * fee_n <= (D + 1)^n * fee_0, and D^n * fee_n >= (D - 1)^n * fee_0. */
  lemma {:induction false} FeeEnvelope(c: Config, fee: nat, blocks: seq<nat>)
    requires Usable(c) && fee >= c.floor
    requires forall i :: 0 <= i < |blocks| ==> blocks[i] <= 2 * c.target
    ensures FeeAfter(c, fee, blocks) >= c.floor
    ensures Pow(c.denominator, |blocks|) * FeeAfter(c, fee, blocks) <= Pow(c.denominator + 1, |blocks|) * fee
    ensures Pow(c.denominator, |blocks|) * FeeAfter(c, fee, blocks) >= Pow(c.denominator - 1, |blocks|) * fee
  {
    if blocks != [] {
      var n, d := |blocks| - 1, c.denominator;
      var before := blocks[..n];
      FeeEnvelope(c, fee, before);
      var was, now := FeeAfter(c, fee, before), FeeAfter(c, fee, blocks);
      StepBounded(c, was, blocks[n]);
      EnvelopeStep(d, d + 1, Pow(d, n), Pow(d + 1, n), was, now, fee);
      EnvelopeStepBelow(d, d - 1, Pow(d, n), Pow(d - 1, n), was, now, fee);
    }
  }

  /** Over such a run no machine word overflows, if the upper envelope times the target (at least 2)
      fits the word. */
  lemma RunFits(c: Config, fee: nat, blocks: seq<nat>, i: nat)
    requires Usable(c) && fee >= c.floor && i < |blocks|
    requires forall k :: 0 <= k < |blocks| ==> blocks[k] <= 2 * c.target
    requires 2 * c.target <= I64_MAX && c.denominator <= I64_MAX
    requires Pow(c.denominator + 1, |blocks|) * fee * Max(c.target, 2) <= Pow(c.denominator, |blocks|) * I64_MAX
    ensures Fits(c, FeeAfter(c, fee, blocks[..i]), blocks[i])
  {
    var was := FeeAfter(c, fee, blocks[..i]);
    FeeEnvelope(c, fee, blocks[..i]);
    EnvelopeWidens(c.denominator, i, |blocks|, was, fee);
    FeeFits(c.denominator, |blocks|, was, fee, Max(c.target, 2));
    WordsFit(c, was, blocks[i]);
  }

  /** The envelope after i blocks lies inside the one after n. */
  lemma {:induction false} EnvelopeWidens(d: nat, i: nat, n: nat, was: nat, fee: nat)
    requires i <= n && Pow(d, i) * was <= Pow(d + 1, i) * fee
    ensures Pow(d, n) * was <= Pow(d + 1, n) * fee
    decreases n
  {
    if i < n {
      EnvelopeWidens(d, i, n - 1, was, fee);
      MulMono(d, d + 1, was);
      EnvelopeStep(d, d + 1, Pow(d, n - 1), Pow(d + 1, n - 1), was, was, fee);
    }
  }

  lemma FeeFits(d: nat, n: nat, was: nat, fee: nat, m: nat)
    requires d > 0 && Pow(d, n) * was <= Pow(d + 1, n) * fee
    requires Pow(d + 1, n) * fee * m <= Pow(d, n) * I64_MAX
    ensures was * m <= I64_MAX
  {
    var p := Pow(d, n);
    PowPositive(d, n);
    MulMono(p * was, Pow(d + 1, n) * fee, m);
    MulAssoc(p, was, m);
    MulCancel(was * m, I64_MAX, p);
  }

  lemma WordsFit(c: Config, fee: nat, transactions: nat)
    requires Usable(c) && transactions <= 2 * c.target <= I64_MAX && c.denominator <= I64_MAX && c.floor <= fee
    requires fee * Max(c.target, 2) <= I64_MAX
    ensures Fits(c, fee, transactions)
  {
    var m, change := Max(c.target, 2), Change(c, fee, transactions);
    MulMono(2, m, fee);
    MulMono(c.target, m, fee);
    DeltaWithin(fee, transactions - c.target, c.target);
    ChangeBounded(c, fee, transactions);
    if change > 0 { MulMono(1, c.denominator, change); }
  }

  lemma EnvelopeStep(d: nat, e: nat, pd: nat, pe: nat, was: nat, now: nat, fee: nat)
    requires d * now <= e * was && pd * was <= pe * fee
    ensures (d * pd) * now <= (e * pe) * fee
  {
    MulMono(d * now, e * was, pd);
    MulMono(pd * was, pe * fee, e);
    assert (d * pd) * now == (d * now) * pd by { MulAssoc(d, pd, now); MulAssoc(d, now, pd); }
    assert (e * was) * pd == (pd * was) * e by { MulAssoc(e, was, pd); assert e * (was * pd) == (pd * was) * e; }
    assert (pe * fee) * e == (e * pe) * fee by { MulAssoc(e, pe, fee); }
  }

  lemma EnvelopeStepBelow(d: nat, e: nat, pd: nat, pe: nat, was: nat, now: nat, fee: nat)
    requires d * now >= e * was && pd * was >= pe * fee
    ensures (d * pd) * now >= (e * pe) * fee
  {
    MulMono(e * was, d * now, pd);
    MulMono(pe * fee, pd * was, e);
    assert (d * pd) * now == (d * now) * pd by { MulAssoc(d, pd, now); MulAssoc(d, now, pd); }
    assert (e * was) * pd == (pd * was) * e by { MulAssoc(e, was, pd); assert e * (was * pd) == (pd * was) * e; }
    assert (pe * fee) * e == (e * pe) * fee by { MulAssoc(e, pe, fee); }
  }

  // ---------------------------------------------------------------- the fee market

  class FeeMarket {
    var baseFee: nat
    const config: Config

    constructor (initial: nat, config: Config)
      ensures baseFee == initial && this.config == config
    {
      baseFee := initial;
      this.config := config;
    }

    /** Updates the base fee after a block. */
    method UpdateBaseFee(transactions: nat)
      requires Usable(config) && Fits(config, baseFee, transactions)
      modifies this
      ensures baseFee == NextFee(config, old(baseFee), transactions)
    {
      var delta := transactions - config.target;
      if delta == 0 {
        return;
      }
      var numerator := baseFee * delta;
      var change := TruncDiv(TruncDiv(numerator, config.target), config.denominator);
      baseFee := MaxInt(baseFee + change, config.floor);
    }

    /** The fee a block would lead to; the market itself stays as it is. */
    method SimulateNextBaseFee(transactions: nat) returns (fee: nat)
      requires Usable(config) && Fits(config, baseFee, transactions)
      ensures fee == NextFee(config, baseFee, transactions)
    {
      var simulated := new FeeMarket(baseFee, config);
      simulated.UpdateBaseFee(transactions);
      fee := simulated.baseFee;
    }
  }

  /** What the miner gets of a fee, and what is burned. */
  function MinerReward(total: nat, priority: nat): nat { if priority < total then priority else total }

  function SaturatingSub(a: nat, b: nat): nat { if b <= a then a - b else 0 }

  /** Miner's share and burned share always make up the fee; the miner gets the priority fee unless that
      exceeds the whole, and then the whole. */
  function BurnAmount(total: nat, priority: nat): (burn: nat)
    ensures MinerReward(total, priority) + burn == total
    ensures burn == 0 <==> priority >= total
    ensures MinerReward(total, priority) <= priority && (burn > 0 ==> MinerReward(total, priority) == priority)
  {
    SaturatingSub(total, MinerReward(total, priority))
  }
}
