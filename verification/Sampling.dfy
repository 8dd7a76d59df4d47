// What 50,000 random draws (consensus/src/miner.rs) can decide, however they fall: a list's seed fixes
// them before the target is known, so each list has a bounded number of targets they can hit.

module Sampling {
  import opened Problem
  import opened Arith
  import opened SubsetSum
  import Difficulty

  // ---------------------------------------------------------------- counting

  /** A function takes at most n values on the first n numbers. */
  lemma {:induction false} ImageSize(f: nat -> int, n: nat)
    ensures |set t: nat | t < n :: f(t)| <= n
  {
    if n > 0 {
      ImageSize(f, n - 1);
      assert (set t: nat | t < n :: f(t)) == (set t: nat | t < n - 1 :: f(t)) + {f(n - 1)};
    }
  }

  /** And exactly n where it never repeats. */
  lemma {:induction false} InjectiveImageSize(f: nat -> int, n: nat)
    requires forall i: nat, j: nat :: i < j < n ==> f(i) != f(j)
    ensures |set t: nat | t < n :: f(t)| == n
  {
    if n > 0 {
      InjectiveImageSize(f, n - 1);
      assert (set t: nat | t < n :: f(t)) == (set t: nat | t < n - 1 :: f(t)) + {f(n - 1)};
    }
  }

  /** More sums than draws: one is missed, whatever is drawn. */
  lemma SomeSumMissed(numbers: seq<int>, draw: nat -> seq<nat>, sums: set<int>) returns (s: int)
    requires |sums| > DRAWS
    ensures s in sums && !Hits(numbers, s, draw)
  {
    var f := (t: nat) => IndexSum(numbers, draw(t));
    var hit := set t: nat | t < DRAWS :: f(t);
    ImageSize(f, DRAWS);
    if forall x :: x in sums ==> x in hit {
      SubsetSize(sums, hit);
      assert false;
    }
    s :| s in sums && s !in hit;
    forall t: nat | t < DRAWS
      ensures IndexSum(numbers, draw(t)) != s
    {
      assert f(t) in hit;
    }
  }

  // ---------------------------------------------------------------- lists that some draws decide

  /** The sums sampling would have to hit: the positive ones some subset reaches. */
  ghost function SolvableSums(numbers: seq<int>): set<int> {
    set s: int | 1 <= s <= Sum(numbers) && CanSum(numbers, |numbers|, s)
  }

  ghost predicate DecidesUnder(numbers: seq<int>, draw: nat -> seq<nat>) {
    forall target :: Finds(numbers, target, draw) <==> Solvable(numbers, target)
  }

  /** Every target is decided under some draws. */
  ghost predicate DecidableByLuck(numbers: seq<int>) {
    exists draw :: IsSampler(draw, |numbers|) && DecidesUnder(numbers, draw)
  }

  /** Some draws decide every target of a list if and only if no entry is negative and, where sampling
      is reached, there are no more sums than draws. With more of them, every run of draws leaves a
      solvable target without an answer. */
  lemma DecidableByLuckIff(numbers: seq<int>)
    ensures DecidableByLuck(numbers)
            <==> NonNegative(numbers) && (Sampled(numbers) ==> |SolvableSums(numbers)| <= DRAWS)
  {
    if !NonNegative(numbers) {
      forall draw | IsSampler(draw, |numbers|)
        ensures !DecidesUnder(numbers, draw)
      {
        NegativeNeverDecided(numbers, draw);
      }
    } else if !Sampled(numbers) {
      var draw := (t: nat) => [0];
      assert IsSampler(draw, |numbers|);
      forall target
        ensures Finds(numbers, target, draw) <==> Solvable(numbers, target)
      {
        FindsIsSolvable(numbers, target, draw);
      }
      assert DecidesUnder(numbers, draw);
    } else if |SolvableSums(numbers)| <= DRAWS {
      var draw := LuckyDraws(numbers);
    } else {
      forall draw | IsSampler(draw, |numbers|)
        ensures !DecidesUnder(numbers, draw)
      {
        var s := UndecidedTarget(numbers, draw);
      }
    }
  }

  lemma NegativeNeverDecided(numbers: seq<int>, draw: nat -> seq<nat>)
    requires !NonNegative(numbers)
    ensures !DecidesUnder(numbers, draw)
  {
    var target := PositiveSum(numbers, |numbers|);
    PositiveSumFacts(numbers, |numbers|);
    SolvableIsCanSum(numbers, target);
    assert RouteOf(numbers, target).Rejected?;
    assert !(Finds(numbers, target, draw) <==> Solvable(numbers, target));
  }

  /** Under any draws, a list with more sums than draws has a solvable target that goes unanswered. */
  lemma UndecidedTarget(numbers: seq<int>, draw: nat -> seq<nat>) returns (s: int)
    requires Sampled(numbers) && |SolvableSums(numbers)| > DRAWS
    ensures Solvable(numbers, s) && !Finds(numbers, s, draw)
  {
    s := SomeSumMissed(numbers, draw, SolvableSums(numbers));
    SolvableIsCanSum(numbers, s);
    assert RouteOf(numbers, s).Sampling?;
  }

  // ---------------------------------------------------------------- the lucky draws

  lemma {:induction false} IncreasingAbove(indices: seq<nat>, bound: nat, k: nat)
    requires Increasing(indices, bound) && k < |indices|
    ensures indices[k] >= k
  {
    if k > 0 { IncreasingAbove(indices, bound, k - 1); }
  }

  /** A solvable positive sum is the sum of some draw. */
  lemma DrawOf(numbers: seq<int>, s: int) returns (indices: seq<nat>)
    requires s in SolvableSums(numbers)
    ensures IsDraw(indices, |numbers|) && IndexSum(numbers, indices) == s
  {
    indices := CanSumPicksIndices(numbers, |numbers|, s);
    if indices != [] { IncreasingAbove(indices, |numbers|, |indices| - 1); }
  }

  /** One draw for every sum of a set. */
  lemma {:induction false} DrawsOf(numbers: seq<int>, sums: set<int>) returns (draws: seq<seq<nat>>)
    requires sums <= SolvableSums(numbers)
    ensures |draws| == |sums|
    ensures forall t :: 0 <= t < |draws| ==> IsDraw(draws[t], |numbers|)
    ensures forall s :: s in sums ==> exists t :: 0 <= t < |draws| && IndexSum(numbers, draws[t]) == s
    decreases |sums|
  {
    if sums == {} {
      return [];
    }
    var s :| s in sums;
    var rest := DrawsOf(numbers, sums - {s});
    var last := DrawOf(numbers, s);
    draws := rest + [last];
    forall u | u in sums
      ensures exists t :: 0 <= t < |draws| && IndexSum(numbers, draws[t]) == u
    {
      if u == s {
        assert draws[|rest|] == last;
      } else {
        assert u in sums - {s};
        var t :| 0 <= t < |rest| && IndexSum(numbers, rest[t]) == u;
        assert draws[t] == rest[t];
      }
    }
  }

  lemma LuckyDraws(numbers: seq<int>) returns (draw: nat -> seq<nat>)
    requires NonNegative(numbers) && Sampled(numbers) && |SolvableSums(numbers)| <= DRAWS
    ensures IsSampler(draw, |numbers|) && DecidesUnder(numbers, draw)
  {
    var draws := DrawsOf(numbers, SolvableSums(numbers));
    draw := (t: nat) => if t < |draws| then draws[t] else [0];
    forall target
      ensures Finds(numbers, target, draw) <==> Solvable(numbers, target)
    {
      if !RouteOf(numbers, target).Sampling? {
        FindsIsSolvable(numbers, target, draw);
      } else {
        HitsAreSolvable(numbers, target, draw);
        SolvableIsCanSum(numbers, target);
        if Solvable(numbers, target) {
          assert target in SolvableSums(numbers);
          var t :| 0 <= t < |draws| && IndexSum(numbers, draws[t]) == target;
          assert draw(t) == draws[t];
        }
      }
    }
  }

  /** What a draw hits has an answer. */
  lemma HitsAreSolvable(numbers: seq<int>, target: int, draw: nat -> seq<nat>)
    requires numbers != [] && IsSampler(draw, |numbers|)
    ensures Hits(numbers, target, draw) ==> Solvable(numbers, target)
  {
    if Hits(numbers, target, draw) {
      var t :| 0 <= t < DRAWS && IndexSum(numbers, draw(t)) == target;
      assert IsDraw(draw(t), |numbers|);
      DistinctIsSolvable(numbers, target, draw(t));
    }
  }

  // ---------------------------------------------------------------- generated instances

  /** Nine entries just short of 999, by powers of two, and the rest 999: subsets of k entries sum to
      999 * k less any number up to 511. */
  function NearlyFull(n: nat): seq<int> {
    seq(n, (i: nat) => if i < 9 then 999 - Pow2(i) else 999)
  }

  /** The j-th of many sums: 9 + j / 512 entries, less j % 512. */
  function ManySums(j: nat): int {
    999 * (9 + j / 512) - j % 512
  }

  /** Any shortfall below 2^i comes from the first i entries. */
  lemma {:induction false} Shortfall(n: nat, i: nat, d: nat) returns (c: nat)
    requires i <= 9 && i <= n && d < Pow2(i)
    ensures c <= i && CanSum(NearlyFull(n), i, 999 * c - d)
  {
    if i == 0 {
      c := 0;
    } else if d < Pow2(i - 1) {
      c := Shortfall(n, i - 1, d);
    } else {
      var rest := Shortfall(n, i - 1, d - Pow2(i - 1));
      c := rest + 1;
      assert (999 * c - d) - NearlyFull(n)[i - 1] == 999 * rest - (d - Pow2(i - 1));
    }
  }

  /** Full entries add 999 each. */
  lemma {:induction false} AddFull(n: nat, i: nat, j: nat, s: int, m: nat)
    requires 9 <= i <= j <= n && m <= j - i && CanSum(NearlyFull(n), i, s)
    ensures CanSum(NearlyFull(n), j, s + 999 * m)
    decreases j
  {
    if i < j {
      if m < j - i {
        AddFull(n, i, j - 1, s, m);
      } else {
        AddFull(n, i, j - 1, s, m - 1);
        assert (s + 999 * m) - NearlyFull(n)[j - 1] == s + 999 * (m - 1);
      }
    }
  }

  lemma ManySumsReached(n: nat, j: nat)
    requires n > 200 && j <= DRAWS
    ensures CanSum(NearlyFull(n), n, ManySums(j))
  {
    var k, d := 9 + j / 512, j % 512;
    assert Pow2(9) == 512;
    var c := Shortfall(n, 9, d);
    AddFull(n, 9, n, 999 * c - d, k - c);
  }

  lemma ManySumsDiffer(i: nat, j: nat)
    requires i < j
    ensures ManySums(i) != ManySums(j)
  {
  }

  /** The list is one the generator makes, its total reaches sampling, and every one of those sums is a
      target the generator can set. */
  lemma NearlyFullIsSampled(n: nat)
    requires n > 200
    ensures Sampled(NearlyFull(n)) && Sum(NearlyFull(n)) == 999 * n - 511
    ensures forall i :: 0 <= i < n ==> 1 <= NearlyFull(n)[i] < 1000
  {
    NearlyFullPrefix(n, n);
    var total := 999 * n - 511;
    assert Pow2(9) == 512;
    MulMono(202, n + 1, 2 * total + 1);
    forall i | 0 <= i < 9
      ensures 1 <= Pow2(i) <= 256
    {
      Pow2Mono(i, 8);
      assert Pow2(8) == 256;
    }
  }

  lemma {:induction false} NearlyFullPrefix(n: nat, i: nat)
    requires i <= n
    ensures PrefixSum(NearlyFull(n), i) == 999 * i - (if i < 9 then Pow2(i) - 1 else Pow2(9) - 1)
  {
    if i > 0 { NearlyFullPrefix(n, i - 1); }
  }

  /** Using all entries gives the total. */
  lemma {:induction false} AllIndicesSum(numbers: seq<int>, i: nat, indices: seq<nat>)
    requires i <= |numbers| && Increasing(indices, i) && |indices| == i
    ensures IndexSum(numbers, indices) == PrefixSum(numbers, i)
  {
    if i > 0 {
      IncreasingAbove(indices, i, i - 1);
      var rest := indices[..i - 1];
      assert indices == rest + [i - 1];
      IndexSumPush(numbers, rest, i - 1);
      AllIndicesSum(numbers, i - 1, rest);
    }
  }

  lemma ManySumsGenerated(n: nat, j: nat)
    requires n > 200 && j <= DRAWS
    ensures Generated(NearlyFull(n), ManySums(j))
    ensures RouteOf(NearlyFull(n), ManySums(j)).Sampling?
  {
    var numbers, s := NearlyFull(n), ManySums(j);
    NearlyFullIsSampled(n);
    ManySumsReached(n, j);
    assert 0 < s < Sum(numbers);
    var indices := CanSumPicksIndices(numbers, n, s);
    IncreasingAbove(indices, n, |indices| - 1);
    if |indices| == n {
      AllIndicesSum(numbers, n, indices);
      assert false;
    }
    assert IsDraw(indices, n);
  }

  /** For every size above 200, whatever the seed makes of that list, the generator can set a target
      that the miner leaves unanswered. */
  lemma GeneratedIsMissed(n: nat, draw: nat -> seq<nat>) returns (numbers: seq<int>, target: int)
    requires n > 200
    ensures |numbers| == n && numbers == NearlyFull(n)
    ensures Generated(numbers, target) && Sampled(numbers) && !Finds(numbers, target, draw)
  {
    numbers := NearlyFull(n);
    NearlyFullIsSampled(n);
    var m, f := DRAWS + 1, (j: nat) => ManySums(j);
    forall i: nat, j: nat | i < j < m
      ensures f(i) != f(j)
    {
      ManySumsDiffer(i, j);
    }
    InjectiveImageSize(f, m);
    target := SomeSumMissed(numbers, draw, set j: nat | j < m :: f(j));
    var j: nat :| j < m && f(j) == target;
    ManySumsGenerated(n, j);
  }

  /** Every generated instance of size n gets an answer, with the draws each list's seed leads to. */
  ghost predicate MinesAll(n: nat, seeded: seq<int> -> nat -> seq<nat>) {
    forall numbers: seq<int>, target: int | Generated(numbers, target) && |numbers| == n ::
      Finds(numbers, target, seeded(numbers))
  }

  /** Whatever the seeds lead to, mining solves all generated instances of size n exactly up to 200. */
  lemma MinesAllIff(n: nat, seeded: seq<int> -> nat -> seq<nat>)
    requires n > 0
    ensures MinesAll(n, seeded) <==> n <= 200
  {
    if n > 200 {
      var numbers, target := GeneratedIsMissed(n, seeded(NearlyFull(n)));
    } else {
      forall numbers: seq<int>, target: int | Generated(numbers, target) && |numbers| == n
        ensures Finds(numbers, target, seeded(numbers))
      {
        GeneratedIsSolvable(numbers, target);
        SamplingUnreachableIff(n);
        FindsIsSolvable(numbers, target, seeded(numbers));
      }
    }
  }

  /** Such an instance comes up in a run of the controller: after ten fast blocks it asks for 220
      numbers, and under any seeds some generated instance of that size goes unanswered. */
  lemma ControllerOutgrowsMiner(seeded: seq<int> -> nat -> seq<nat>)
    returns (events: seq<Difficulty.Event>, numbers: seq<int>, target: int)
    ensures |numbers| == Difficulty.Run(Difficulty.INITIAL, events).size
    ensures Generated(numbers, target) && Sampled(numbers) && !Finds(numbers, target, seeded(numbers))
  {
    events := Difficulty.FastSamplesReachMaximum();
    numbers, target := GeneratedIsMissed(Difficulty.MAX_SIZE, seeded(NearlyFull(Difficulty.MAX_SIZE)));
  }
}
