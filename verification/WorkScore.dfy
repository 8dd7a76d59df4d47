// The deterministic work score and its accumulation over a chain (consensus/src/work_score.rs).

module WorkScore {
  import opened Arith
  import opened Problem
  import opened FixedPoint
  import opened LogError

  /** The verification time the score uses: at least one microsecond. */
  function VerifyFloor(verifyUs: nat): (v: nat)
    ensures if verifyUs == 0 then v == 1 else v == verifyUs
  {
    Max(verifyUs, 1)
  }

  /** Work score of one block from its solve time, verification time and quality. The threshold
      2 * verify saturates at u64::MAX. */
  function CalculateDeterministic(solveUs: nat, verifyUs: nat, qualityBps: nat): nat {
    if qualityBps == 0 then 0
    else
      var v := VerifyFloor(verifyUs);
      if solveUs < Min(2 * v, U64_MAX) then 0
      else
        match Log2Ratio(solveUs, v)
        case None => 0
        case Some(bits) => ApplyQuality(bits, qualityBps)
  }

  /** The unscaled score, or zero where the gates reject. */
  function FullScore(solveUs: nat, verifyUs: nat): nat {
    CalculateDeterministic(solveUs, verifyUs, 10_000)
  }

  /** A lower quality only scales the full score, which bounds it. */
  lemma ScaledByQuality(solveUs: nat, verifyUs: nat, qualityBps: nat)
    ensures CalculateDeterministic(solveUs, verifyUs, qualityBps)
         == ApplyQuality(FullScore(solveUs, verifyUs), qualityBps)
    ensures CalculateDeterministic(solveUs, verifyUs, qualityBps) <= FullScore(solveUs, verifyUs)
  {
    ApplyQualityMono(FullScore(solveUs, verifyUs), FullScore(solveUs, verifyUs), qualityBps, qualityBps);
  }

  /** More solve time, less verify time and more quality never lower the score. */
  lemma ScoreMonotone(solve1: nat, solve2: nat, verify1: nat, verify2: nat, q1: nat, q2: nat)
    requires solve1 <= solve2 && verify2 <= verify1 && q1 <= q2
    ensures CalculateDeterministic(solve1, verify1, q1) <= CalculateDeterministic(solve2, verify2, q2)
  {
    FullScoreMonotone(solve1, solve2, verify1, verify2);
    ScaledByQuality(solve1, verify1, q1);
    ScaledByQuality(solve2, verify2, q2);
    ApplyQualityMono(FullScore(solve1, verify1), FullScore(solve2, verify2), q1, q2);
  }

  lemma FullScoreMonotone(solve1: nat, solve2: nat, verify1: nat, verify2: nat)
    requires solve1 <= solve2 && verify2 <= verify1
    ensures FullScore(solve1, verify1) <= FullScore(solve2, verify2)
  {
    var v1, v2 := VerifyFloor(verify1), VerifyFloor(verify2);
    if solve1 >= Min(2 * v1, U64_MAX) && solve1 > v1 {
      Log2RatioMono(solve1, solve2, v1);
      Log2RatioAntitone(solve2, v2, v1);
    }
  }

  /** At full quality a block scores at least one bit exactly when solving took at least twice the
      verification time; the saturated threshold admits longer verifications, but below one bit. */
  lemma OneBitIff(solveUs: nat, verifyUs: nat)
    requires solveUs <= U64_MAX && verifyUs <= U64_MAX
    ensures FullScore(solveUs, verifyUs) >= SCALE <==> solveUs >= 2 * VerifyFloor(verifyUs)
  {
    var v := VerifyFloor(verifyUs);
    if solveUs > v {
      Log2RatioOneBit(solveUs, v);
    }
  }

  /** What slips through below the documented factor of two, at any quality: only the saturated solve
      time, and then as soon as the ratio's fraction scaled by the quality is worth a unit. At full
      quality that is a ratio of at least 4294971591 / 2^32. */
  lemma GateLeakIff(solveUs: nat, verifyUs: nat, qualityBps: nat)
    requires solveUs <= U64_MAX && verifyUs <= U64_MAX
    ensures var v := VerifyFloor(verifyUs);
            0 < CalculateDeterministic(solveUs, verifyUs, qualityBps) && solveUs < 2 * v
            <==> solveUs == U64_MAX < 2 * v
                 && Compose(0, solveUs * TWO32 / v) * Min(qualityBps, 10_000) >= 10_000
    ensures var v := VerifyFloor(verifyUs);
            0 < FullScore(solveUs, verifyUs) && solveUs < 2 * v
            <==> solveUs == U64_MAX < 2 * v && 4_294_971_591 * v <= solveUs * TWO32
  {
    var v := VerifyFloor(verifyUs);
    var ratio := solveUs * TWO32 / v;
    RatioAtLeast(solveUs, v, 2 * TWO32);
    RatioAtLeast(solveUs, v, 4_294_971_591);
    assert (2 * TWO32) * v == (2 * v) * TWO32;
    if solveUs == U64_MAX < 2 * v {
      LeakedScore(solveUs, verifyUs);
      ScaledByQuality(solveUs, verifyUs, qualityBps);
      ScaledPositive(Compose(0, ratio), qualityBps);
    }
  }

  /** Between one and two times the verification time the score is the fraction alone. */
  lemma LeakedScore(solveUs: nat, verifyUs: nat)
    requires solveUs == U64_MAX && verifyUs <= U64_MAX < 2 * VerifyFloor(verifyUs)
    ensures FullScore(solveUs, verifyUs) == Compose(0, solveUs * TWO32 / VerifyFloor(verifyUs))
  {
    var v := VerifyFloor(verifyUs);
    if solveUs > v {
      var ratio := ScoredRatio(solveUs, v);
      RatioAtLeast(solveUs, v, 2 * TWO32);
      assert (2 * TWO32) * v == (2 * v) * TWO32;
      FloorLog2Of(ratio);
      assert Shr(ratio, 0) == ratio;
    } else {
      assert solveUs * TWO32 / v == TWO32 by { RatioAtLeast(solveUs, v, TWO32); RatioAtLeast(solveUs, v, TWO32 + 1); }
    }
  }

  /** A score scaled by quality stays positive exactly from one unit on. */
  lemma ScaledPositive(score: nat, qualityBps: nat)
    ensures ApplyQuality(score, qualityBps) > 0 <==> score * Min(qualityBps, 10_000) >= 10_000
  {
    ApplyQualityClamped(score, qualityBps);
  }

  /** The saturated threshold does let a block through below the documented factor of two. */
  lemma SaturatedGateAdmitsLess()
    ensures var half := 0x8000_0000_0000_0000;
            U64_MAX < 2 * half && 0 < FullScore(U64_MAX, half) < SCALE
  {
    var half := 0x8000_0000_0000_0000;
    OneBitIff(U64_MAX, half);
    var ratio := U64_MAX * TWO32 / half;
    assert ratio == 2 * TWO32 - 1;
    FloorLog2Of(ratio);
    assert Shr(ratio, 0) == ratio;
  }

  lemma FloorLog2Of(ratio: nat)
    requires TWO32 <= ratio < 2 * TWO32
    ensures FloorLog2(ratio) == 32
  {
    Pow2Of32();
    FloorLog2Unique(ratio, 32);
  }

  // ---------------------------------------------------------------- one block, one chain

  /** What a block header reports. */
  datatype Report = Report(solveUs: nat, verifyUs: nat, qualityBps: nat)

  function ScoreOf(b: Report): nat {
    CalculateDeterministic(b.solveUs, b.verifyUs, b.qualityBps)
  }

  /** A positive score is honest work: 2^score * verify^SCALE <= solve^SCALE. */
  lemma BlockNeverOverstates(b: Report)
    requires ScoreOf(b) > 0
    ensures Pow(2, ScoreOf(b)) * Pow(VerifyFloor(b.verifyUs), SCALE) <= Pow(b.solveUs, SCALE)
  {
    var v := VerifyFloor(b.verifyUs);
    var full := FullScore(b.solveUs, b.verifyUs);
    ScaledByQuality(b.solveUs, b.verifyUs, b.qualityBps);
    Log2RatioNeverOverstates(b.solveUs, v);
    PowMonoExp(2, ScoreOf(b), full);
    MulMono(Pow(2, ScoreOf(b)), Pow(2, full), Pow(v, SCALE));
  }

  lemma {:induction false} PowMonoExp(b: nat, e: nat, f: nat)
    requires b > 0 && e <= f
    ensures Pow(b, e) <= Pow(b, f)
    decreases f
  {
    if e < f {
      PowMonoExp(b, e, f - 1);
      PowPositive(b, f - 1);
      MulMono(1, b, Pow(b, f - 1));
    }
  }

  function Scores(chain: seq<Report>): seq<nat> {
    if chain == [] then [] else [ScoreOf(chain[0])] + Scores(chain[1..])
  }

  /** Products over a chain of the S-th powers of solve and verification times. */
  function SolveWork(chain: seq<Report>): nat {
    if chain == [] then 1 else Pow(chain[0].solveUs, SCALE) * SolveWork(chain[1..])
  }

  function VerifyWork(chain: seq<Report>): nat {
    if chain == [] then 1 else Pow(VerifyFloor(chain[0].verifyUs), SCALE) * VerifyWork(chain[1..])
  }

  /** Cumulative security of a chain never overstates the work behind it:
      2^(sum of scores) times all verification work is at most all solving work. */
  lemma {:induction false} ChainNeverOverstates(chain: seq<Report>)
    requires forall i :: 0 <= i < |chain| ==> ScoreOf(chain[i]) > 0
    ensures Pow(2, ChainSecurity(Scores(chain))) * VerifyWork(chain) <= SolveWork(chain)
  {
    if chain != [] {
      var b, rest := chain[0], chain[1..];
      ChainNeverOverstates(rest);
      BlockNeverOverstates(b);
      assert Scores(chain)[1..] == Scores(rest);
      PowAdd(2, ScoreOf(b), ChainSecurity(Scores(rest)));
      ProductStep(Pow(2, ScoreOf(b)), Pow(2, ChainSecurity(Scores(rest))),
                  Pow(VerifyFloor(b.verifyUs), SCALE), VerifyWork(rest),
                  Pow(b.solveUs, SCALE), SolveWork(rest));
    }
  }

  /** Nor does it understate work of full quality by more than 0.086074 bits a block. */
  lemma {:induction false} ChainWithin(chain: seq<Report>)
    requires forall i :: 0 <= i < |chain| ==> ScoreOf(chain[i]) > 0 && chain[i].qualityBps >= 10_000
    ensures SolveWork(chain) <= Pow(2, ChainSecurity(Scores(chain)) + 86_074 * |chain|) * VerifyWork(chain)
  {
    if chain != [] {
      var b, rest := chain[0], chain[1..];
      ChainWithin(rest);
      BlockWithin(b);
      assert Scores(chain)[1..] == Scores(rest);
      var e, f := ScoreOf(b) + 86_074, ChainSecurity(Scores(rest)) + 86_074 * |rest|;
      PowAdd(2, e, f);
      ProductCap(Pow(2, e), Pow(2, f), Pow(VerifyFloor(b.verifyUs), SCALE), VerifyWork(rest),
                 Pow(b.solveUs, SCALE), SolveWork(rest));
    }
  }

  lemma BlockWithin(b: Report)
    requires ScoreOf(b) > 0 && b.qualityBps >= 10_000
    ensures Pow(b.solveUs, SCALE) <= Pow(2, ScoreOf(b) + 86_074) * Pow(VerifyFloor(b.verifyUs), SCALE)
  {
    Log2RatioError(b.solveUs, VerifyFloor(b.verifyUs));
  }

  lemma ProductCap(a: nat, b: nat, v: nat, w: nat, s: nat, t: nat)
    requires s <= a * v && t <= b * w
    ensures s * t <= (a * b) * (v * w)
  {
    MulSwap(a, b, v, w);
    MulMono(s, a * v, t);
    MulMono(t, b * w, a * v);
  }

  lemma ProductStep(a: nat, b: nat, v: nat, w: nat, s: nat, t: nat)
    requires a * v <= s && b * w <= t
    ensures (a * b) * (v * w) <= s * t
  {
    MulSwap(a, b, v, w);
    MulMono(a * v, s, b * w);
    MulMono(b * w, t, s);
  }

  /** Extending a chain adds the new blocks' security to it. */
  lemma {:induction false} ChainSecurityAppend(a: seq<nat>, b: seq<nat>)
    ensures ChainSecurity(a + b) == ChainSecurity(a) + ChainSecurity(b)
  {
    if a == [] {
      assert a + b == b;
    } else {
      assert (a + b)[1..] == a[1..] + b;
      ChainSecurityAppend(a[1..], b);
    }
  }

  /** Fork choice between two blocks. */
  predicate BlockAWins(aScore: nat, bScore: nat) { aScore > bScore }

  /** Different scores have exactly one winner, equal ones none. */
  lemma ForkHasOneWinner(a: nat, b: nat)
    ensures a != b ==> (BlockAWins(a, b) <==> !BlockAWins(b, a))
    ensures a == b ==> !BlockAWins(a, b)
  {
  }

  /** Twice the solve time always wins, at full quality against a block that scores. */
  lemma DoubleTimeWins(a: Report, b: Report)
    requires a.verifyUs == b.verifyUs && a.qualityBps >= 10_000 && b.qualityBps >= 10_000
    requires a.solveUs >= 2 * b.solveUs && b.solveUs >= 2 * VerifyFloor(b.verifyUs)
    ensures BlockAWins(ScoreOf(a), ScoreOf(b)) && ScoreOf(a) >= ScoreOf(b) + SCALE
  {
    var v := VerifyFloor(b.verifyUs);
    Log2RatioDouble(b.solveUs, v);
    Log2RatioMono(2 * b.solveUs, a.solveUs, v);
  }

  /** At equal verification time and quality, the winner of a fork took strictly longer to solve. */
  lemma WinnerWorkedLonger(a: Report, b: Report)
    requires a.verifyUs == b.verifyUs && a.qualityBps == b.qualityBps
    requires BlockAWins(ScoreOf(a), ScoreOf(b))
    ensures a.solveUs > b.solveUs
  {
    if a.solveUs <= b.solveUs {
      ScoreMonotone(a.solveUs, b.solveUs, b.verifyUs, a.verifyUs, a.qualityBps, b.qualityBps);
    }
  }
}
