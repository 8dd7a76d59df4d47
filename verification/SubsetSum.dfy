// The miner's exact subset-sum algorithms and their dispatcher (consensus/src/miner.rs):
// a two-dimensional table with traceback, a one-dimensional table with predecessor links,
// and meet-in-the-middle.

module SubsetSum {
  import opened Problem
  import opened Arith
  import opened Lists

  const MAX_CELLS: nat := 8_000_000
  const MAX_LINE_SUM: nat := 200_000
  const MAX_HALVES_N: nat := 44

  // ---------------------------------------------------------------- subsets

  /** Sum of the first i numbers. */
  function PrefixSum(numbers: seq<int>, i: nat): int
    requires i <= |numbers|
  {
    if i == 0 then 0 else PrefixSum(numbers, i - 1) + numbers[i - 1]
  }

  function Sum(numbers: seq<int>): int { PrefixSum(numbers, |numbers|) }

  predicate NonNegative(numbers: seq<int>) {
    forall i :: 0 <= i < |numbers| ==> numbers[i] >= 0
  }

  /** Strictly increasing positions below a bound. */
  predicate Increasing(indices: seq<nat>, bound: nat) {
    && (forall k :: 0 <= k < |indices| ==> indices[k] < bound)
    && (forall j, k :: 0 <= j < k < |indices| ==> indices[j] < indices[k])
  }

  /** Some subset of the first i numbers sums to s. */
  ghost predicate CanSum(numbers: seq<int>, i: nat, s: int)
    requires i <= |numbers|
  {
    if i == 0 then s == 0
    else CanSum(numbers, i - 1, s) || CanSum(numbers, i - 1, s - numbers[i - 1])
  }

  /** Some set of positions sums to the target. */
  ghost predicate Solvable(numbers: seq<int>, target: int) {
    exists indices: seq<nat> :: Increasing(indices, |numbers|) && IndexSum(numbers, indices) == target
  }

  /** A duplicate-free, ordered list of positions that sums to the target. */
  predicate IsAnswer(numbers: seq<int>, target: int, answer: Solution) {
    && answer.SubsetSumSolution?
    && Increasing(answer.indices, |numbers|)
    && IndexSum(numbers, answer.indices) == target
  }

  lemma {:induction false} IndexSumAppend(numbers: seq<int>, a: seq<nat>, b: seq<nat>)
    ensures IndexSum(numbers, a + b) == IndexSum(numbers, a) + IndexSum(numbers, b)
  {
    if a == [] {
      assert a + b == b;
    } else {
      assert (a + b)[1..] == a[1..] + b;
      IndexSumAppend(numbers, a[1..], b);
    }
  }

  lemma IndexSumPush(numbers: seq<int>, a: seq<nat>, i: nat)
    ensures IndexSum(numbers, a + [i]) == IndexSum(numbers, a) + ValueAt(numbers, i)
  {
    IndexSumAppend(numbers, a, [i]);
    assert [i][1..] == [];
  }

  /** The recursion and the lists of positions describe the same subsets. */
  lemma {:induction false} CanSumPicksIndices(numbers: seq<int>, i: nat, s: int) returns (indices: seq<nat>)
    requires i <= |numbers| && CanSum(numbers, i, s)
    ensures Increasing(indices, i) && IndexSum(numbers, indices) == s
  {
    if i == 0 {
      indices := [];
    } else if CanSum(numbers, i - 1, s) {
      indices := CanSumPicksIndices(numbers, i - 1, s);
    } else {
      var rest := CanSumPicksIndices(numbers, i - 1, s - numbers[i - 1]);
      IndexSumPush(numbers, rest, i - 1);
      indices := rest + [i - 1];
    }
  }

  lemma {:induction false} IndicesCanSum(numbers: seq<int>, i: nat, indices: seq<nat>)
    requires i <= |numbers| && Increasing(indices, i)
    ensures CanSum(numbers, i, IndexSum(numbers, indices))
  {
    if i > 0 {
      if indices != [] && indices[|indices| - 1] == i - 1 {
        var rest := indices[..|indices| - 1];
        assert indices == rest + [i - 1];
        IndexSumPush(numbers, rest, i - 1);
        IndicesCanSum(numbers, i - 1, rest);
      } else {
        IndicesCanSum(numbers, i - 1, indices);
      }
    }
  }

  lemma SolvableIsCanSum(numbers: seq<int>, target: int)
    ensures Solvable(numbers, target) <==> CanSum(numbers, |numbers|, target)
  {
    if CanSum(numbers, |numbers|, target) {
      var indices := CanSumPicksIndices(numbers, |numbers|, target);
    }
    if Solvable(numbers, target) {
      var indices: seq<nat> :| Increasing(indices, |numbers|) && IndexSum(numbers, indices) == target;
      IndicesCanSum(numbers, |numbers|, indices);
    }
  }

  /** Subset sums of non-negative numbers lie between zero and the total. */
  lemma {:induction false} CanSumBounds(numbers: seq<int>, i: nat, s: int)
    requires i <= |numbers| && NonNegative(numbers) && CanSum(numbers, i, s)
    ensures 0 <= s <= PrefixSum(numbers, i)
  {
    if i > 0 {
      if CanSum(numbers, i - 1, s) {
        CanSumBounds(numbers, i - 1, s);
      } else {
        CanSumBounds(numbers, i - 1, s - numbers[i - 1]);
      }
    }
  }

  lemma {:induction false} PrefixSumMono(numbers: seq<int>, i: nat, j: nat)
    requires i <= j <= |numbers| && NonNegative(numbers)
    ensures 0 <= PrefixSum(numbers, i) <= PrefixSum(numbers, j)
    decreases j
  {
    if i < j {
      PrefixSumMono(numbers, i, j - 1);
    } else if i > 0 {
      PrefixSumMono(numbers, i - 1, i - 1);
    }
  }

  // ---------------------------------------------------------------- two-dimensional table

  /** What the offset table records: reachable with every partial sum inside the table. */
  predicate Reach(numbers: seq<int>, offset: nat, i: nat, s: int)
    requires i <= |numbers|
  {
    && 0 <= offset + s && s <= offset
    && (if i == 0 then s == 0
        else Reach(numbers, offset, i - 1, s) || Reach(numbers, offset, i - 1, s - numbers[i - 1]))
  }

  /** The backward walk: stop at zero, else take number i - 1 whenever it fits and the rest is reachable. */
  function Traceback(numbers: seq<int>, offset: nat, i: nat, curr: int): seq<nat>
    requires i <= |numbers|
  {
    if i == 0 || curr == 0 then []
    else if curr >= numbers[i - 1] && Reach(numbers, offset, i - 1, curr - numbers[i - 1]) then
      Traceback(numbers, offset, i - 1, curr - numbers[i - 1]) + [i - 1]
    else
      Traceback(numbers, offset, i - 1, curr)
  }

  /** For non-negative numbers the table is exactly subset reachability by prefix. */
  lemma {:induction false} ReachIsCanSum(numbers: seq<int>, offset: nat, i: nat, s: int)
    requires i <= |numbers| && NonNegative(numbers) && PrefixSum(numbers, |numbers|) <= offset
    ensures Reach(numbers, offset, i, s) <==> CanSum(numbers, i, s)
  {
    if CanSum(numbers, i, s) {
      CanSumBounds(numbers, i, s);
      PrefixSumMono(numbers, i, |numbers|);
    }
    if i > 0 {
      ReachIsCanSum(numbers, offset, i - 1, s);
      ReachIsCanSum(numbers, offset, i - 1, s - numbers[i - 1]);
    }
  }

  /** For non-negative numbers the walk keeps its cell reachable, so it collects the whole sum. */
  lemma {:induction false} TracebackCollects(numbers: seq<int>, offset: nat, i: nat, curr: int)
    requires i <= |numbers| && NonNegative(numbers) && curr >= 0 && Reach(numbers, offset, i, curr)
    ensures var t := Traceback(numbers, offset, i, curr);
            Increasing(t, i) && IndexSum(numbers, t) == curr
  {
    if i > 0 && curr != 0 {
      var num := numbers[i - 1];
      if curr >= num && Reach(numbers, offset, i - 1, curr - num) {
        TracebackCollects(numbers, offset, i - 1, curr - num);
        IndexSumPush(numbers, Traceback(numbers, offset, i - 1, curr - num), i - 1);
      } else {
        if curr < num { NegativeUnreachable(numbers, offset, i - 1, curr - num); }
        TracebackCollects(numbers, offset, i - 1, curr);
      }
    }
  }

  lemma {:induction false} NegativeUnreachable(numbers: seq<int>, offset: nat, i: nat, s: int)
    requires i <= |numbers| && NonNegative(numbers) && s < 0
    ensures !Reach(numbers, offset, i, s)
  {
    if i > 0 {
      NegativeUnreachable(numbers, offset, i - 1, s);
      NegativeUnreachable(numbers, offset, i - 1, s - numbers[i - 1]);
    }
  }

  /** The table solver: fill the table row by row, read the target cell, walk back. */
  method SolveTable(numbers: seq<int>, target: int, offset: nat) returns (r: Option<Solution>)
    requires 0 <= offset + target && target <= offset
    ensures r == if Reach(numbers, offset, |numbers|, target)
                 then Some(SubsetSumSolution(Traceback(numbers, offset, |numbers|, target)))
                 else None
    ensures NonNegative(numbers) && 0 <= target && Sum(numbers) <= offset ==>
              && (r.Some? <==> Solvable(numbers, target))
              && (r.Some? ==> IsAnswer(numbers, target, r.value))
    ensures FirstStepsFit(numbers, offset) && 0 <= target && r.Some? ==>
              Verifies(r.value, Problem.SubsetSum(numbers, target))
  {
    var n := |numbers|;
    var range := 2 * offset + 1;
    var dp := new bool[n + 1, range]((i, j) => false);
    dp[0, offset] := true;
    for i := 1 to n + 1
      invariant forall row, j :: 0 <= row < i && 0 <= j < range ==>
                  dp[row, j] == Reach(numbers, offset, row, j - offset)
    {
      var num := numbers[i - 1];
      for j := 0 to range
        invariant forall row, k :: 0 <= row < i && 0 <= k < range ==>
                    dp[row, k] == Reach(numbers, offset, row, k - offset)
        invariant forall k :: 0 <= k < j ==> dp[i, k] == Reach(numbers, offset, i, k - offset)
      {
        dp[i, j] := dp[i - 1, j];
        var prevIdx := j - num;
        if 0 <= prevIdx < range {
          dp[i, j] := dp[i, j] || dp[i - 1, prevIdx];
        }
        assert dp[i - 1, j] == Reach(numbers, offset, i - 1, j - offset);
      }
    }
    if NonNegative(numbers) && 0 <= target && Sum(numbers) <= offset {
      ReachIsCanSum(numbers, offset, n, target);
      SolvableIsCanSum(numbers, target);
    }
    if !dp[n, offset + target] {
      return None;
    }
    var indices := WalkBack(numbers, target, offset, dp);
    if FirstStepsFit(numbers, offset) && 0 <= target {
      FittingWalkCollects(numbers, offset, n, target);
    }
    if NonNegative(numbers) && 0 <= target && Sum(numbers) <= offset {
      TracebackCollects(numbers, offset, n, target);
    }
    return Some(SubsetSumSolution(indices));
  }

  /** The table holds the reachable cells of every row. */
  ghost predicate IsTable(numbers: seq<int>, offset: nat, dp: array2<bool>)
    reads dp
  {
    && dp.Length0 == |numbers| + 1 && dp.Length1 == 2 * offset + 1
    && forall row, j :: 0 <= row <= |numbers| && 0 <= j <= 2 * offset ==>
         dp[row, j] == Reach(numbers, offset, row, j - offset)
  }

  /** The backward walk through a filled table. */
  method WalkBack(numbers: seq<int>, target: int, offset: nat, dp: array2<bool>) returns (r: seq<nat>)
    requires IsTable(numbers, offset, dp)
    ensures r == Traceback(numbers, offset, |numbers|, target)
  {
    var indices: seq<nat> := [];
    var currSum := target;
    var i := |numbers|;
    while i > 0 && currSum != 0
      invariant 0 <= i <= |numbers|
      invariant Traceback(numbers, offset, |numbers|, target)
             == Traceback(numbers, offset, i, currSum) + Reverse(indices)
    {
      var num := numbers[i - 1];
      var prevIdx := offset + currSum - num;
      assert prevIdx - offset == currSum - num;
      assert 0 <= prevIdx <= 2 * offset ==> dp[i - 1, prevIdx] == Reach(numbers, offset, i - 1, prevIdx - offset);
      assert Reach(numbers, offset, i - 1, currSum - num) ==> 0 <= prevIdx <= 2 * offset;
      if currSum >= num && 0 <= prevIdx < dp.Length1 && dp[i - 1, prevIdx] {
        ghost var rest := Traceback(numbers, offset, i - 1, currSum - num);
        ReversePush<nat>(indices, i - 1);
        assert (rest + [i - 1]) + Reverse(indices) == rest + ([i - 1] + Reverse(indices));
        indices := indices + [i - 1];
        currSum := currSum - num;
      }
      i := i - 1;
    }
    assert [] + Reverse(indices) == Reverse(indices);
    return Reverse(indices);
  }

  /** Wherever a sum first becomes reachable, the number that makes it so is no greater. */
  ghost predicate FirstStepsFit(numbers: seq<int>, offset: nat) {
    forall k: nat, c: nat | k < |numbers| && 0 < c && Reach(numbers, offset, k + 1, c) ::
      Reach(numbers, offset, k, c) || numbers[k] <= c
  }

  /** From every reachable cell of any row the walk collects the whole sum. */
  ghost predicate WalksCollect(numbers: seq<int>, offset: nat) {
    forall i: nat, c: nat | i <= |numbers| && Reach(numbers, offset, i, c) ::
      IndexSum(numbers, Traceback(numbers, offset, i, c)) == c
  }

  /** On any numbers, negative ones included, the walk collects from every reachable cell if and only
      if no sum is first reached by a number greater than itself: such a number the walk skips. */
  lemma WalksCollectIff(numbers: seq<int>, offset: nat)
    ensures WalksCollect(numbers, offset) <==> FirstStepsFit(numbers, offset)
  {
    if FirstStepsFit(numbers, offset) {
      forall i: nat, c: nat | i <= |numbers| && Reach(numbers, offset, i, c)
        ensures IndexSum(numbers, Traceback(numbers, offset, i, c)) == c
      {
        FittingWalkCollects(numbers, offset, i, c);
      }
    } else {
      var k: nat, c: nat :| k < |numbers| && 0 < c && Reach(numbers, offset, k + 1, c)
                            && !Reach(numbers, offset, k, c) && c < numbers[k];
      assert Traceback(numbers, offset, k + 1, c) == Traceback(numbers, offset, k, c);
      if IndexSum(numbers, Traceback(numbers, offset, k, c)) == c {
        CollectedIsReached(numbers, offset, k, c);
        assert false;
      }
    }
  }

  lemma {:induction false} FittingWalkCollects(numbers: seq<int>, offset: nat, i: nat, c: nat)
    requires i <= |numbers| && FirstStepsFit(numbers, offset) && Reach(numbers, offset, i, c)
    ensures IndexSum(numbers, Traceback(numbers, offset, i, c)) == c
  {
    if i > 0 && c != 0 {
      var rest := c - numbers[i - 1];
      if rest >= 0 && Reach(numbers, offset, i - 1, rest) {
        FittingWalkCollects(numbers, offset, i - 1, rest);
        IndexSumPush(numbers, Traceback(numbers, offset, i - 1, rest), i - 1);
      } else {
        FittingWalkCollects(numbers, offset, i - 1, c);
      }
    }
  }

  /** A walk that collects its whole sum shows that the sum is reachable. */
  lemma {:induction false} CollectedIsReached(numbers: seq<int>, offset: nat, i: nat, c: nat)
    requires i <= |numbers| && c <= offset && IndexSum(numbers, Traceback(numbers, offset, i, c)) == c
    ensures Reach(numbers, offset, i, c)
  {
    if i > 0 {
      var rest := c - numbers[i - 1];
      if c == 0 || rest < 0 || !Reach(numbers, offset, i - 1, rest) {
        CollectedIsReached(numbers, offset, i - 1, c);
      }
    }
  }

  /** With a negative entry the walk can lose its cell: -2 + 5 reaches 3 in the table, but the walk
      skips 5 (it exceeds 3) and answers with the empty list, which the verifier rejects. */
  lemma NegativeEntryBreaksTraceback()
    ensures var numbers := [-2, 5];
            && Sum(numbers) == 3
            && Reach(numbers, 3, 2, 3)
            && Traceback(numbers, 3, 2, 3) == []
            && !Verifies(SubsetSumSolution([]), Problem.SubsetSum(numbers, 3))
            && !FirstStepsFit(numbers, 3)
  {
    var numbers := [-2, 5];
    assert PrefixSum(numbers, 0) == 0;
    assert PrefixSum(numbers, 1) == -2;
    assert Reach(numbers, 3, 0, 0);
    assert Reach(numbers, 3, 1, -2);
    assert Traceback(numbers, 3, 1, 3) == [];
    assert !Reach(numbers, 3, 1, 3) by { assert !Reach(numbers, 3, 0, 3) && !Reach(numbers, 3, 0, 5); }
    assert Reach(numbers, 3, 1 + 1, 3) && numbers[1] == 5;
  }

  // ---------------------------------------------------------------- one-dimensional table

  /** Some subset of the positive ones among the first i numbers sums to s. */
  predicate ReachPositive(numbers: seq<int>, i: nat, s: int)
    requires i <= |numbers|
    ensures ReachPositive(numbers, i, s) ==> s >= 0
  {
    if i == 0 then s == 0
    else
      ReachPositive(numbers, i - 1, s) ||
      (numbers[i - 1] > 0 && ReachPositive(numbers, i - 1, s - numbers[i - 1]))
  }

  lemma {:induction false} ReachPositiveMono(numbers: seq<int>, i: nat, j: nat, s: int)
    requires i <= j <= |numbers| && ReachPositive(numbers, i, s)
    ensures ReachPositive(numbers, j, s)
  {
    if i < j { ReachPositiveMono(numbers, i, j - 1, s); }
  }

  /** Skipping the numbers that are not positive loses no sum of non-negative numbers,
      and never invents one. */
  lemma {:induction false} ReachPositiveIsCanSum(numbers: seq<int>, i: nat, s: int)
    requires i <= |numbers|
    ensures ReachPositive(numbers, i, s) ==> CanSum(numbers, i, s)
    ensures NonNegative(numbers) && CanSum(numbers, i, s) ==> ReachPositive(numbers, i, s)
  {
    if i > 0 {
      ReachPositiveIsCanSum(numbers, i - 1, s);
      ReachPositiveIsCanSum(numbers, i - 1, s - numbers[i - 1]);
    }
  }

  /** A predecessor link of sum s: it names the first item that made s reachable. */
  predicate IsLink(numbers: seq<int>, s: nat, link: Option<(nat, nat)>, i: nat)
    requires i <= |numbers|
  {
    && link.Some?
    && var (p, k) := link.value;
    && k < i && numbers[k] > 0 && p == s - numbers[k]
    && ReachPositive(numbers, k, p) && !ReachPositive(numbers, k, s)
  }

  /** Fills `dp` and `prev` for all items: cell s is set exactly when a subset of the positive
      numbers sums to s, and every set cell but 0 carries its link. */
  method FillLine(numbers: seq<int>, max: nat, dp: array<bool>, prev: array<Option<(nat, nat)>>)
    requires dp.Length == prev.Length == max + 1
    requires forall s :: 0 <= s <= max ==> !dp[s] && prev[s] == None
    modifies dp, prev
    ensures forall s :: 0 <= s <= max ==> dp[s] == ReachPositive(numbers, |numbers|, s)
    ensures forall s :: 0 < s <= max && dp[s] ==> IsLink(numbers, s, prev[s], |numbers|)
  {
    dp[0] := true;
    for i := 0 to |numbers|
      invariant forall s :: 0 <= s <= max ==> dp[s] == ReachPositive(numbers, i, s)
      invariant forall s :: 0 < s <= max && dp[s] ==> IsLink(numbers, s, prev[s], i)
    {
      var num := numbers[i];
      if num > 0 && num <= max {
        var s := max;
        while s >= num
          invariant num - 1 <= s <= max
          invariant forall t :: 0 <= t <= s ==> dp[t] == ReachPositive(numbers, i, t)
          invariant forall t :: s < t <= max ==> dp[t] == ReachPositive(numbers, i + 1, t)
          invariant forall t :: 0 < t <= max && dp[t] ==> IsLink(numbers, t, prev[t], i + 1)
        {
          if !dp[s] && dp[s - num] {
            dp[s] := true;
            prev[s] := Some((s - num, i));
          }
          s := s - 1;
        }
      }
    }
  }

  /** Follows the links from the target down to zero. The item positions strictly decrease. */
  method FollowLinks(numbers: seq<int>, target: nat, dp: array<bool>, prev: array<Option<(nat, nat)>>)
    returns (indices: seq<nat>)
    requires dp.Length == prev.Length > target
    requires forall s :: 0 <= s < dp.Length ==> dp[s] == ReachPositive(numbers, |numbers|, s)
    requires forall s :: 0 < s < dp.Length && dp[s] ==> IsLink(numbers, s, prev[s], |numbers|)
    requires dp[target]
    ensures IndexSum(numbers, indices) == target
    ensures forall k :: 0 <= k < |indices| ==> indices[k] < |numbers|
    ensures forall j, k :: 0 <= j < k < |indices| ==> indices[j] > indices[k]
  {
    indices := [];
    var s := target;
    ghost var low: nat := |numbers|;
    while s > 0
      invariant 0 <= s <= target && low <= |numbers|
      invariant ReachPositive(numbers, low, s)
      invariant IndexSum(numbers, indices) + s == target
      invariant forall k :: 0 <= k < |indices| ==> low <= indices[k] < |numbers|
      invariant forall j, k :: 0 <= j < k < |indices| ==> indices[j] > indices[k]
    {
      ReachPositiveMono(numbers, low, |numbers|, s);
      assert IsLink(numbers, s, prev[s], |numbers|);
      var (prevS, idx) := prev[s].value;
      if low <= idx {
        ReachPositiveMono(numbers, low, idx, s);
        assert false;
      }
      IndexSumPush(numbers, indices, idx);
      indices := indices + [idx];
      s := prevS;
      low := idx;
    }
  }

  function SumKey(entry: (int, nat)): int { entry.0 }

  /** Sorting positions changes neither their sum nor, without duplicates, their meaning. */
  lemma {:induction false} SortKeepsIndexSum(numbers: seq<int>, indices: seq<nat>, key: nat -> int)
    ensures IndexSum(numbers, Sort(indices, key)) == IndexSum(numbers, indices)
  {
    if indices != [] {
      SortKeepsIndexSum(numbers, indices[1..], key);
      InsertKeepsIndexSum(numbers, indices[0], Sort(indices[1..], key), key);
    }
  }

  lemma {:induction false} InsertKeepsIndexSum(numbers: seq<int>, x: nat, indices: seq<nat>, key: nat -> int)
    ensures IndexSum(numbers, Insert(x, indices, key)) == ValueAt(numbers, x) + IndexSum(numbers, indices)
  {
    if indices != [] && key(indices[0]) < key(x) {
      InsertKeepsIndexSum(numbers, x, indices[1..], key);
      assert ([indices[0]] + Insert(x, indices[1..], key))[1..] == Insert(x, indices[1..], key);
    } else {
      assert ([x] + indices)[1..] == indices;
    }
  }

  lemma SortedDistinctIsIncreasing(indices: seq<nat>, bound: nat)
    requires Distinct(indices) && forall k :: 0 <= k < |indices| ==> indices[k] < bound
    ensures Increasing(Sort(indices, ByValue), bound)
  {
    var sorted := Sort(indices, ByValue);
    assert IsSorted(sorted, ByValue) && Distinct(sorted) by {
      SortSorts(indices, ByValue);
      PermutationDistinct(indices, sorted);
    }
    SortMembers(indices, ByValue);
    StrictWhenDistinct(sorted, indices, bound);
  }

  lemma StrictWhenDistinct(sorted: seq<nat>, indices: seq<nat>, bound: nat)
    requires IsSorted(sorted, ByValue) && Distinct(sorted)
    requires forall x :: x in sorted ==> x in indices
    requires forall k :: 0 <= k < |indices| ==> indices[k] < bound
    ensures Increasing(sorted, bound)
  {
    forall j, k | 0 <= j < k < |sorted|
      ensures sorted[j] < sorted[k]
    {
      assert ByValue(sorted[j]) <= ByValue(sorted[k]);
    }
    forall k | 0 <= k < |sorted|
      ensures sorted[k] < bound
    {
      assert sorted[k] in indices;
    }
  }

  /** The line solver, exact on all inputs for subsets of the positive numbers. */
  method SolveLine(numbers: seq<int>, target: int) returns (r: Option<Solution>)
    ensures r.Some? <==> 0 <= target <= Sum(numbers) && ReachPositive(numbers, |numbers|, target)
    ensures r.Some? ==> IsAnswer(numbers, target, r.value)
    ensures NonNegative(numbers) ==> (r.Some? <==> Solvable(numbers, target))
  {
    var total := Sum(numbers);
    SolvableIsCanSum(numbers, target);
    ReachPositiveIsCanSum(numbers, |numbers|, target);
    if NonNegative(numbers) && CanSum(numbers, |numbers|, target) {
      CanSumBounds(numbers, |numbers|, target);
    }
    if target < 0 || target > total {
      return None;
    }
    if target == 0 {
      ReachPositiveMono(numbers, 0, |numbers|, 0);
      return Some(SubsetSumSolution([]));
    }
    var dp := new bool[total + 1](_ => false);
    var prev := new Option<(nat, nat)>[total + 1](_ => None);
    FillLine(numbers, total, dp, prev);
    if !dp[target] {
      return None;
    }
    var indices := FollowLinks(numbers, target, dp, prev);
    SortKeepsIndexSum(numbers, indices, ByValue);
    SortedDistinctIsIncreasing(indices, |numbers|);
    return Some(SubsetSumSolution(Sort(indices, ByValue)));
  }

  // ---------------------------------------------------------------- meet in the middle

  /** Sum of the first i numbers whose bit is set in the mask. */
  function MaskSum(xs: seq<int>, mask: nat, i: nat): int
    requires i <= |xs|
  {
    if i == 0 then 0 else MaskSum(xs, mask, i - 1) + if Bit(mask, i - 1) then xs[i - 1] else 0
  }

  /** The low i bits of a mask, as `bits |= 1 << i` collects them. */
  function LowBits(mask: nat, i: nat): nat {
    if i == 0 then 0 else LowBits(mask, i - 1) + if Bit(mask, i - 1) then Pow2(i - 1) else 0
  }

  lemma {:induction false} LowBitsRemainder(mask: nat, i: nat)
    ensures LowBits(mask, i) + Pow2(i) * Shr(mask, i) == mask
  {
    if i > 0 {
      LowBitsRemainder(mask, i - 1);
      ShrStep(mask, i - 1);
      SplitLowBit(Pow2(i - 1), Shr(mask, i - 1));
    }
  }

  lemma SplitLowBit(p: nat, h: nat)
    ensures p * h == (2 * p) * (h / 2) + if h % 2 == 1 then p else 0
  {
    var q := h / 2;
    assert h == 2 * q || h == 2 * q + 1;
    assert p * (2 * q) == (2 * p) * q;
    assert p * (2 * q + 1) == p * (2 * q) + p;
  }

  lemma LowBitsAll(mask: nat, i: nat)
    requires mask < Pow2(i)
    ensures LowBits(mask, i) == mask
  {
    ShrBounds(mask, i);
    if Shr(mask, i) >= 1 { MulMono(1, Shr(mask, i), Pow2(i)); }
    LowBitsRemainder(mask, i);
  }

  /** Positions base + i of the set bits below i. */
  function MaskIndices(mask: nat, i: nat, base: nat): seq<nat> {
    if i == 0 then [] else MaskIndices(mask, i - 1, base) + if Bit(mask, i - 1) then [base + i - 1] else []
  }

  lemma {:induction false} MaskIndicesSum(numbers: seq<int>, xs: seq<int>, mask: nat, i: nat, base: nat)
    requires base + |xs| <= |numbers| && i <= |xs|
    requires forall k :: 0 <= k < |xs| ==> xs[k] == numbers[base + k]
    ensures IndexSum(numbers, MaskIndices(mask, i, base)) == MaskSum(xs, mask, i)
  {
    if i > 0 {
      MaskIndicesSum(numbers, xs, mask, i - 1, base);
      var rest := MaskIndices(mask, i - 1, base);
      if Bit(mask, i - 1) {
        IndexSumPush(numbers, rest, base + i - 1);
        assert ValueAt(numbers, base + i - 1) == xs[i - 1];
      } else {
        assert rest + [] == rest;
      }
    }
  }

  lemma {:induction false} MaskIndicesIncrease(mask: nat, i: nat, base: nat)
    ensures Increasing(MaskIndices(mask, i, base), base + i)
    ensures forall k :: 0 <= k < |MaskIndices(mask, i, base)| ==> base <= MaskIndices(mask, i, base)[k]
  {
    if i > 0 {
      MaskIndicesIncrease(mask, i - 1, base);
    }
  }

  /** Sum of the first i chosen numbers. */
  function ChoiceSum(xs: seq<int>, a: seq<bool>, i: nat): int
    requires i <= |xs| == |a|
  {
    if i == 0 then 0 else ChoiceSum(xs, a, i - 1) + if a[i - 1] then xs[i - 1] else 0
  }

  lemma {:induction false} CanSumChoices(xs: seq<int>, i: nat, s: int) returns (a: seq<bool>)
    requires i <= |xs| && CanSum(xs, i, s)
    ensures |a| == |xs| && ChoiceSum(xs, a, i) == s
  {
    if i == 0 {
      a := seq(|xs|, _ => false);
    } else {
      var take := !CanSum(xs, i - 1, s);
      var b := CanSumChoices(xs, i - 1, if take then s - xs[i - 1] else s);
      a := b[i - 1 := take];
      ChoiceSumPrefix(xs, b, a, i - 1);
    }
  }

  lemma {:induction false} ChoiceSumPrefix(xs: seq<int>, a: seq<bool>, b: seq<bool>, i: nat)
    requires i <= |xs| == |a| == |b| && forall k :: 0 <= k < i ==> a[k] == b[k]
    ensures ChoiceSum(xs, a, i) == ChoiceSum(xs, b, i)
  {
    if i > 0 { ChoiceSumPrefix(xs, a, b, i - 1); }
  }

  /** A choice splits at any position into two independent choices. */
  lemma {:induction false} ChoiceSumSplit(xs: seq<int>, a: seq<bool>, mid: nat, i: nat)
    requires mid <= i <= |xs| == |a|
    ensures ChoiceSum(xs, a, i) ==
            ChoiceSum(xs[..mid], a[..mid], mid) + ChoiceSum(xs[mid..], a[mid..], i - mid)
  {
    if i > mid {
      ChoiceSumSplit(xs, a, mid, i - 1);
    } else {
      ChoiceSumTake(xs, a, mid, mid);
    }
  }

  lemma {:induction false} ChoiceSumTake(xs: seq<int>, a: seq<bool>, mid: nat, i: nat)
    requires i <= mid <= |xs| == |a|
    ensures ChoiceSum(xs, a, i) == ChoiceSum(xs[..mid], a[..mid], i)
  {
    if i > 0 { ChoiceSumTake(xs, a, mid, i - 1); }
  }

  lemma {:induction false} MaskSumIsChoiceSum(xs: seq<int>, mask: nat, a: seq<bool>, i: nat)
    requires i <= |xs| == |a| && forall j :: 0 <= j < |a| ==> Bit(mask, j) == a[j]
    ensures MaskSum(xs, mask, i) == ChoiceSum(xs, a, i)
  {
    if i > 0 { MaskSumIsChoiceSum(xs, mask, a, i - 1); }
  }

  /** A subset sum is a mask sum of the left half plus a mask sum of the right half. */
  lemma HalvesMeet(numbers: seq<int>, mid: nat, target: int) returns (l: nat, r: nat)
    requires mid <= |numbers| && CanSum(numbers, |numbers|, target)
    ensures l < Pow2(mid) && r < Pow2(|numbers| - mid)
    ensures MaskSum(numbers[..mid], l, mid) + MaskSum(numbers[mid..], r, |numbers| - mid) == target
  {
    var a := CanSumChoices(numbers, |numbers|, target);
    ChoiceSumSplit(numbers, a, mid, |numbers|);
    l := NumberWithBits(a[..mid]);
    r := NumberWithBits(a[mid..]);
    MaskSumIsChoiceSum(numbers[..mid], l, a[..mid], mid);
    MaskSumIsChoiceSum(numbers[mid..], r, a[mid..], |numbers| - mid);
  }

  /** No mask of the left half sums to the needed value. */
  ghost predicate NoPartner(left: seq<int>, need: int) {
    forall l: nat :: l < Pow2(|left|) ==> MaskSum(left, l, |left|) != need
  }

  lemma JoinIncreasing(a: seq<nat>, b: seq<nat>, mid: nat, bound: nat)
    requires mid <= bound && Increasing(a, mid) && Increasing(b, bound)
    requires forall k :: 0 <= k < |b| ==> mid <= b[k]
    ensures Increasing(a + b, bound)
  {
  }

  /** The positions of a left mask followed by those of a right mask. */
  function Joined(l: nat, r: nat, mid: nat, n: nat): seq<nat>
    requires mid <= n
  {
    MaskIndices(l, mid, 0) + MaskIndices(r, n - mid, mid)
  }

  lemma JoinedIncreases(l: nat, r: nat, mid: nat, n: nat)
    requires mid <= n
    ensures Increasing(Joined(l, r, mid, n), n)
  {
    MaskIndicesIncrease(l, mid, 0);
    MaskIndicesIncrease(r, n - mid, mid);
    JoinIncreasing(MaskIndices(l, mid, 0), MaskIndices(r, n - mid, mid), mid, n);
  }

  /** They sum to what the two masks sum to. */
  lemma JoinedSum(numbers: seq<int>, mid: nat, l: nat, r: nat)
    requires mid <= |numbers|
    ensures IndexSum(numbers, Joined(l, r, mid, |numbers|)) ==
            MaskSum(numbers[..mid], l, mid) + MaskSum(numbers[mid..], r, |numbers| - mid)
  {
    MaskIndicesSum(numbers, numbers[..mid], l, mid, 0);
    MaskIndicesSum(numbers, numbers[mid..], r, |numbers| - mid, mid);
    IndexSumAppend(numbers, MaskIndices(l, mid, 0), MaskIndices(r, |numbers| - mid, mid));
  }

  /** Two masks whose sums meet the target are an answer. */
  lemma JoinedAnswers(numbers: seq<int>, mid: nat, l: nat, r: nat, target: int)
    requires mid <= |numbers|
    requires MaskSum(numbers[..mid], l, mid) + MaskSum(numbers[mid..], r, |numbers| - mid) == target
    ensures IsAnswer(numbers, target, SubsetSumSolution(Joined(l, r, mid, |numbers|)))
    ensures Solvable(numbers, target)
  {
    JoinedIncreases(l, r, mid, |numbers|);
    JoinedSum(numbers, mid, l, r);
  }

  /** No left mask completes a right mask to the target. */
  ghost predicate Unmatched(left: seq<int>, right: seq<int>, m: nat, target: int) {
    NoPartner(left, target - MaskSum(right, m, |right|))
  }

  /** A subset with the target sum matches some right mask. */
  lemma SubsetHasMatch(numbers: seq<int>, mid: nat, target: int) returns (m: nat)
    requires mid <= |numbers| && Solvable(numbers, target)
    ensures m < Pow2(|numbers| - mid) && !Unmatched(numbers[..mid], numbers[mid..], m, target)
  {
    SolvableIsCanSum(numbers, target);
    var left, right := numbers[..mid], numbers[mid..];
    var l;
    l, m := HalvesMeet(numbers, mid, target);
    assert l < Pow2(|left|) && MaskSum(left, l, |left|) == target - MaskSum(right, m, |right|);
  }

  /** The inner loop shared by both halves: the sum a mask selects, and the mask rebuilt bit by bit. */
  method SumOfMask(xs: seq<int>, mask: nat) returns (s: int, bits: nat)
    requires mask < Pow2(|xs|)
    ensures s == MaskSum(xs, mask, |xs|) && bits == mask
  {
    s, bits := 0, 0;
    for i := 0 to |xs|
      invariant s == MaskSum(xs, mask, i) && bits == LowBits(mask, i)
    {
      if Bit(mask, i) {
        s := s + xs[i];
        bits := bits + Pow2(i);
      }
    }
    LowBitsAll(mask, |xs|);
  }

  /** Binary search by key in a sorted list: misses no matching entry. */
  method BinarySearch(entries: seq<(int, nat)>, need: int) returns (r: Option<nat>)
    requires IsSorted(entries, SumKey)
    ensures r.Some? ==> r.value < |entries| && entries[r.value].0 == need
    ensures r.None? ==> forall k :: 0 <= k < |entries| ==> entries[k].0 != need
  {
    var lo, hi := 0, |entries|;
    while lo < hi
      invariant 0 <= lo <= hi <= |entries|
      invariant forall k :: 0 <= k < lo ==> entries[k].0 < need
      invariant forall k :: hi <= k < |entries| ==> entries[k].0 > need
    {
      var m := (lo + hi) / 2;
      assert forall k :: 0 <= k < m ==> SumKey(entries[k]) <= SumKey(entries[m]);
      assert forall k :: m < k < |entries| ==> SumKey(entries[m]) <= SumKey(entries[k]);
      if entries[m].0 == need {
        return Some(m);
      } else if entries[m].0 < need {
        lo := m + 1;
      } else {
        hi := m;
      }
    }
    return None;
  }

  /** All subset sums of one half with their masks, sorted by sum. */
  method HalfSums(left: seq<int>) returns (sums: seq<(int, nat)>)
    ensures IsSorted(sums, SumKey)
    ensures forall e :: e in sums ==> e.1 < Pow2(|left|) && e.0 == MaskSum(left, e.1, |left|)
    ensures forall m: nat :: m < Pow2(|left|) ==> (MaskSum(left, m, |left|), m) in sums
  {
    sums := [];
    for mask := 0 to Pow2(|left|)
      invariant |sums| == mask
      invariant forall m :: 0 <= m < mask ==> sums[m] == (MaskSum(left, m, |left|), m)
    {
      var s, bits := SumOfMask(left, mask);
      sums := sums + [(s, bits)];
    }
    ghost var unsorted := sums;
    sums := Sort(sums, SumKey);
    SortSorts(unsorted, SumKey);
    SortMembers(unsorted, SumKey);
    forall m: nat | m < Pow2(|left|)
      ensures (MaskSum(left, m, |left|), m) in sums
    {
      assert unsorted[m] in unsorted;
    }
  }

  /** Meet-in-the-middle: exact on all integers, negative ones included. The width of the
      32-bit half masks is what limits n. */
  method SolveHalves(numbers: seq<int>, target: int) returns (r: Option<Solution>)
    requires |numbers| <= 64
    ensures r.Some? <==> Solvable(numbers, target)
    ensures r.Some? ==> IsAnswer(numbers, target, r.value)
  {
    var n := |numbers|;
    var mid := n / 2;
    var left, right := numbers[..mid], numbers[mid..];
    var leftSums := HalfSums(left);
    for mask := 0 to Pow2(n - mid)
      invariant forall m: nat :: m < mask ==> Unmatched(left, right, m, target)
    {
      var s, rightBits := SumOfMask(right, mask);
      var need := target - s;
      var found := BinarySearch(leftSums, need);
      if found.Some? {
        var (v, leftBits) := leftSums[found.value];
        assert leftSums[found.value] in leftSums;
        JoinedAnswers(numbers, mid, leftBits, rightBits, target);
        return Some(SubsetSumSolution(Joined(leftBits, rightBits, mid, n)));
      }
      forall l: nat | l < Pow2(mid)
        ensures MaskSum(left, l, mid) != need
      {
        assert (MaskSum(left, l, mid), l) in leftSums;
      }
    }
    if Solvable(numbers, target) {
      ghost var m := SubsetHasMatch(numbers, mid, target);
    }
    return None;
  }

  // ---------------------------------------------------------------- sampling

  /** One random draw: some positions, none twice. */
  ghost predicate IsDraw(indices: seq<nat>, n: nat) {
    && 1 <= |indices| <= n
    && Distinct(indices)
    && forall k :: 0 <= k < |indices| ==> indices[k] < n
  }

  const DRAWS: nat := 50_000

  /** Draws of a sampling run on n numbers. */
  ghost predicate IsSampler(draw: nat -> seq<nat>, n: nat) {
    n > 0 ==> forall t: nat :: IsDraw(draw(t), n)
  }

  /** One of the draws sums to the target. */
  ghost predicate Hits(numbers: seq<int>, target: int, draw: nat -> seq<nat>) {
    exists t: nat :: t < DRAWS && IndexSum(numbers, draw(t)) == target
  }

  /** The last resort: 50,000 random draws, each compared with the target. */
  method SolveSampling(numbers: seq<int>, target: int, draw: nat -> seq<nat>) returns (r: Option<Solution>)
    requires numbers != [] && IsSampler(draw, |numbers|)
    ensures r.Some? <==> Hits(numbers, target, draw)
    ensures r.Some? ==> IsAnswer(numbers, target, r.value)
  {
    for t := 0 to DRAWS
      invariant forall u: nat :: u < t ==> IndexSum(numbers, draw(u)) != target
    {
      var indices := draw(t);
      assert IsDraw(indices, |numbers|);
      if IndexSum(numbers, indices) == target {
        SortKeepsIndexSum(numbers, indices, ByValue);
        SortedDistinctIsIncreasing(indices, |numbers|);
        return Some(SubsetSumSolution(Sort(indices, ByValue)));
      }
    }
    return None;
  }

  // ---------------------------------------------------------------- dispatcher

  datatype Route = Rejected | Empty | Table | Line | Halves | Sampling

  /** Cells of the two-dimensional table for a non-negative total. */
  function TableCells(numbers: seq<int>): int {
    (|numbers| + 1) * (2 * Sum(numbers) + 1)
  }

  /** Which solver the dispatcher picks. */
  function RouteOf(numbers: seq<int>, target: int): Route {
    if target > Sum(numbers) || target < 0 then Rejected
    else if target == 0 then Empty
    else if TableCells(numbers) <= MAX_CELLS then Table
    else if Sum(numbers) <= MAX_LINE_SUM then Line
    else if |numbers| <= MAX_HALVES_N then Halves
    else Sampling
  }

  /** The exact solvers stay within their bounds: a table of at most 8,000,000 cells, a line up to 200,000,
      halves of at most 22 numbers each way; sampling is left what exceeds all three. */
  lemma RouteLimits(numbers: seq<int>, target: int)
    ensures var cells := (|numbers| + 1) * (2 * Sum(numbers) + 1);
            var within := 0 < target <= Sum(numbers);
            && (RouteOf(numbers, target).Table? <==> within && cells <= 8_000_000)
            && (RouteOf(numbers, target).Line? <==> within && cells > 8_000_000 && Sum(numbers) <= 200_000)
            && (RouteOf(numbers, target).Halves? <==>
                  within && cells > 8_000_000 && Sum(numbers) > 200_000 && |numbers| <= 44)
            && (RouteOf(numbers, target).Sampling? <==>
                  within && cells > 8_000_000 && Sum(numbers) > 200_000 && |numbers| > 44)
            && (RouteOf(numbers, target).Empty? <==> target == 0 <= Sum(numbers))
  {
  }

  /** Some target would fall through to random sampling. */
  predicate Sampled(numbers: seq<int>) {
    && Sum(numbers) > MAX_LINE_SUM
    && |numbers| > MAX_HALVES_N
    && TableCells(numbers) > MAX_CELLS
  }

  /** Whether the dispatcher answers, given what sampling would draw. */
  ghost predicate Finds(numbers: seq<int>, target: int, draw: nat -> seq<nat>) {
    match RouteOf(numbers, target)
    case Rejected => false
    case Empty => true
    case Table => Reach(numbers, Sum(numbers), |numbers|, target)
    case Line => ReachPositive(numbers, |numbers|, target)
    case Halves => Solvable(numbers, target)
    case Sampling => Hits(numbers, target, draw)
  }

  method SolveSubsetSum(numbers: seq<int>, target: int, draw: nat -> seq<nat>) returns (r: Option<Solution>)
    requires IsSampler(draw, |numbers|)
    ensures r.Some? <==> Finds(numbers, target, draw)
    ensures r.Some? && (NonNegative(numbers) || !RouteOf(numbers, target).Table?) ==>
              IsAnswer(numbers, target, r.value) && Verifies(r.value, Problem.SubsetSum(numbers, target))
    ensures NonNegative(numbers) && !Sampled(numbers) ==> (r.Some? <==> Solvable(numbers, target))
  {
    if NonNegative(numbers) { FindsIsSolvable(numbers, target, draw); }
    var n := |numbers|;
    var sum := Sum(numbers);
    if target > sum || target < 0 {
      return None;
    }
    if target == 0 {
      return Some(SubsetSumSolution([]));
    }
    if (n + 1) * (2 * sum + 1) <= MAX_CELLS {
      r := SolveTable(numbers, target, sum);
    } else if sum <= MAX_LINE_SUM {
      r := SolveLine(numbers, target);
    } else if n <= MAX_HALVES_N {
      r := SolveHalves(numbers, target);
    } else {
      r := SolveSampling(numbers, target, draw);
    }
  }

  /** On non-negative numbers the exact routes decide solvability. */
  lemma FindsIsSolvable(numbers: seq<int>, target: int, draw: nat -> seq<nat>)
    requires NonNegative(numbers)
    ensures !RouteOf(numbers, target).Sampling? ==> (Finds(numbers, target, draw) <==> Solvable(numbers, target))
  {
    SolvableIsCanSum(numbers, target);
    PrefixSumMono(numbers, 0, |numbers|);
    if CanSum(numbers, |numbers|, target) {
      CanSumBounds(numbers, |numbers|, target);
    }
    if 0 <= target <= Sum(numbers) {
      if target == 0 {
        var none: seq<nat> := [];
        assert Increasing(none, |numbers|) && IndexSum(numbers, none) == 0;
      }
      ReachIsCanSum(numbers, Sum(numbers), |numbers|, target);
      ReachPositiveIsCanSum(numbers, |numbers|, target);
    }
  }

  /** Sum of the positive numbers among the first i. */
  function PositiveSum(numbers: seq<int>, i: nat): nat
    requires i <= |numbers|
  {
    if i == 0 then 0
    else PositiveSum(numbers, i - 1) + if numbers[i - 1] > 0 then numbers[i - 1] else 0
  }

  lemma {:induction false} PositiveSumFacts(numbers: seq<int>, i: nat)
    requires i <= |numbers|
    ensures CanSum(numbers, i, PositiveSum(numbers, i))
    ensures PositiveSum(numbers, i) >= PrefixSum(numbers, i)
    ensures (exists k :: 0 <= k < i && numbers[k] < 0) ==> PositiveSum(numbers, i) > PrefixSum(numbers, i)
  {
    if i > 0 {
      PositiveSumFacts(numbers, i - 1);
    }
  }

  /** Every target gets an answer exactly when it has one, whatever sampling draws. */
  ghost predicate DecidesAll(numbers: seq<int>) {
    forall target, draw :: IsSampler(draw, |numbers|) ==> (Finds(numbers, target, draw) <==> Solvable(numbers, target))
  }

  /** The dispatcher decides every target of a list exactly when no entry is negative and no target
      falls through to sampling: with a negative entry, the sum of the positive ones is reachable yet
      above the total, so rejected; and sampling can miss the total itself. */
  lemma DecidesIff(numbers: seq<int>)
    ensures DecidesAll(numbers) <==> NonNegative(numbers) && !Sampled(numbers)
  {
    if NonNegative(numbers) && !Sampled(numbers) {
      forall target, draw | IsSampler(draw, |numbers|)
        ensures Finds(numbers, target, draw) <==> Solvable(numbers, target)
      {
        FindsIsSolvable(numbers, target, draw);
      }
    } else if NonNegative(numbers) {
      var draw := SamplingMisses(numbers);
      assert !(Finds(numbers, Sum(numbers), draw) <==> Solvable(numbers, Sum(numbers)));
    } else {
      var target, draw := PositiveSum(numbers, |numbers|), (t: nat) => [0];
      PositiveSumFacts(numbers, |numbers|);
      SolvableIsCanSum(numbers, target);
      assert RouteOf(numbers, target).Rejected?;
      assert IsSampler(draw, |numbers|);
      assert !(Finds(numbers, target, draw) <==> Solvable(numbers, target));
    }
  }

  /** All draws the same single position, one that is not the whole total. */
  lemma SamplingMisses(numbers: seq<int>) returns (draw: nat -> seq<nat>)
    requires NonNegative(numbers) && Sampled(numbers)
    ensures IsSampler(draw, |numbers|)
    ensures Solvable(numbers, Sum(numbers)) && !Finds(numbers, Sum(numbers), draw)
  {
    var i := PartOfTotal(numbers);
    AllPositiveIsSum(numbers, |numbers|);
    PositiveSumFacts(numbers, |numbers|);
    SolvableIsCanSum(numbers, Sum(numbers));
    draw := (t: nat) => [i];
    IndexSumPush(numbers, [], i);
    assert [] + [i] == [i];
    assert RouteOf(numbers, Sum(numbers)).Sampling?;
  }

  lemma PartOfTotal(numbers: seq<int>) returns (i: nat)
    requires NonNegative(numbers) && |numbers| > 1 && Sum(numbers) > 0
    ensures i < |numbers| && numbers[i] != Sum(numbers)
  {
    i := if numbers[0] == Sum(numbers) then 1 else 0;
    PrefixSumMono(numbers, 2, |numbers|);
    assert PrefixSum(numbers, 1) == PrefixSum(numbers, 0) + numbers[0];
    assert PrefixSum(numbers, 2) == PrefixSum(numbers, 1) + numbers[1];
  }

  lemma {:induction false} AllPositiveIsSum(numbers: seq<int>, i: nat)
    requires i <= |numbers| && NonNegative(numbers)
    ensures PositiveSum(numbers, i) == PrefixSum(numbers, i)
  {
    if i > 0 { AllPositiveIsSum(numbers, i - 1); }
  }

  // ---------------------------------------------------------------- solvers and verifier

  /** Some list of indices passes the verifier, repeated ones and ones past the end included. */
  ghost predicate Verifiable(numbers: seq<int>, target: int) {
    exists indices: seq<nat> :: Verifies(SubsetSumSolution(indices), Problem.SubsetSum(numbers, target))
  }

  function InRangeOnly(indices: seq<nat>, n: nat): seq<nat> {
    if indices == [] then []
    else (if indices[0] < n then [indices[0]] else []) + InRangeOnly(indices[1..], n)
  }

  lemma {:induction false} InRangeOnlySum(numbers: seq<int>, indices: seq<nat>)
    ensures IndexSum(numbers, InRangeOnly(indices, |numbers|)) == IndexSum(numbers, indices)
  {
    if indices != [] {
      var r := InRangeOnly(indices[1..], |numbers|);
      InRangeOnlySum(numbers, indices[1..]);
      assert ([indices[0]] + r)[1..] == r;
      assert [] + r == r;
    }
  }

  lemma {:induction false} InRangeOnlyMembers(indices: seq<nat>, n: nat)
    ensures forall x :: x in InRangeOnly(indices, n) <==> x in indices && x < n
    ensures Distinct(indices) ==> Distinct(InRangeOnly(indices, n))
  {
    if indices != [] {
      var rest := indices[1..];
      InRangeOnlyMembers(rest, n);
      assert indices == [indices[0]] + rest;
      assert Distinct(indices) ==> indices[0] !in rest;
    }
  }

  /** A verified list without repeats shows that its instance is solvable. */
  lemma DistinctIsSolvable(numbers: seq<int>, target: int, indices: seq<nat>)
    requires Distinct(indices) && Verifies(SubsetSumSolution(indices), Problem.SubsetSum(numbers, target))
    ensures Solvable(numbers, target)
  {
    var r := InRangeOnly(indices, |numbers|);
    InRangeOnlySum(numbers, indices);
    InRangeOnlyMembers(indices, |numbers|);
    forall k | 0 <= k < |r|
      ensures r[k] < |numbers|
    {
      assert r[k] in r;
    }
    SortKeepsIndexSum(numbers, r, ByValue);
    SortedDistinctIsIncreasing(r, |numbers|);
  }

  function AbsSum(numbers: seq<int>, i: nat): nat
    requires i <= |numbers|
  {
    if i == 0 then 0 else AbsSum(numbers, i - 1) + if numbers[i - 1] < 0 then -numbers[i - 1] else numbers[i - 1]
  }

  lemma {:induction false} CanSumWithin(numbers: seq<int>, i: nat, s: int)
    requires i <= |numbers| && CanSum(numbers, i, s)
    ensures s <= AbsSum(numbers, i) && -s <= AbsSum(numbers, i)
  {
    if i > 0 {
      if CanSum(numbers, i - 1, s) {
        CanSumWithin(numbers, i - 1, s);
      } else {
        CanSumWithin(numbers, i - 1, s - numbers[i - 1]);
      }
    }
  }

  function Copies(i: nat, k: nat): seq<nat> {
    if k == 0 then [] else [i] + Copies(i, k - 1)
  }

  lemma {:induction false} CopiesSum(numbers: seq<int>, i: nat, k: nat)
    requires i < |numbers|
    ensures IndexSum(numbers, Copies(i, k)) == k * numbers[i]
  {
    if k > 0 {
      CopiesSum(numbers, i, k - 1);
      assert Copies(i, k)[1..] == Copies(i, k - 1);
      MulStep(k, numbers[i]);
    }
  }

  /** With repeats the verifier accepts more than the solvers look for: its targets are the solvable
      ones for a list exactly when all its entries are zero. */
  lemma VerifiableIsSolvableIff(numbers: seq<int>)
    ensures (forall target :: Verifiable(numbers, target) <==> Solvable(numbers, target))
            <==> forall i :: 0 <= i < |numbers| ==> numbers[i] == 0
  {
    if forall i :: 0 <= i < |numbers| ==> numbers[i] == 0 {
      forall target
        ensures Verifiable(numbers, target) <==> Solvable(numbers, target)
      {
        if Verifiable(numbers, target) {
          var indices: seq<nat> :| Verifies(SubsetSumSolution(indices), Problem.SubsetSum(numbers, target));
          ZerosSum(numbers, indices);
          DistinctIsSolvable(numbers, target, []);
        }
        SolvableIsVerifiable(numbers, target);
      }
    } else {
      var i :| 0 <= i < |numbers| && numbers[i] != 0;
      RepeatsGoBeyond(numbers, i);
    }
  }

  lemma SolvableIsVerifiable(numbers: seq<int>, target: int)
    ensures Solvable(numbers, target) ==> Verifiable(numbers, target)
  {
    if Solvable(numbers, target) {
      var indices: seq<nat> :| Increasing(indices, |numbers|) && IndexSum(numbers, indices) == target;
      assert Verifies(SubsetSumSolution(indices), Problem.SubsetSum(numbers, target));
    }
  }

  lemma {:induction false} ZerosSum(numbers: seq<int>, indices: seq<nat>)
    requires forall i :: 0 <= i < |numbers| ==> numbers[i] == 0
    ensures IndexSum(numbers, indices) == 0
  {
    if indices != [] { ZerosSum(numbers, indices[1..]); }
  }

  /** Enough copies of one entry leave the range of all subset sums. */
  lemma RepeatsGoBeyond(numbers: seq<int>, i: nat)
    requires i < |numbers| && numbers[i] != 0
    ensures exists target :: Verifiable(numbers, target) && !Solvable(numbers, target)
  {
    var k := AbsSum(numbers, |numbers|) + 1;
    var target := k * numbers[i];
    CopiesSum(numbers, i, k);
    assert Verifies(SubsetSumSolution(Copies(i, k)), Problem.SubsetSum(numbers, target));
    SolvableIsCanSum(numbers, target);
    if numbers[i] > 0 { MulMono(1, numbers[i], k); } else { MulMono(numbers[i], -1, k); }
    if Solvable(numbers, target) {
      CanSumWithin(numbers, |numbers|, target);
      assert false;
    }
  }

  // ---------------------------------------------------------------- generated instances

  /** What the generator can produce: entries 1..999 and the sum of some chosen positions as target. */
  ghost predicate Generated(numbers: seq<int>, target: int) {
    && |numbers| > 0
    && (forall i :: 0 <= i < |numbers| ==> 1 <= numbers[i] < 1000)
    && exists chosen: seq<nat> ::
         && IsDraw(chosen, |numbers|)
         && |chosen| <= (if |numbers| > 1 then |numbers| - 1 else 1)
         && target == IndexSum(numbers, chosen)
  }

  lemma GeneratedIsSolvable(numbers: seq<int>, target: int)
    requires Generated(numbers, target)
    ensures NonNegative(numbers) && Solvable(numbers, target)
  {
    var chosen: seq<nat> :| IsDraw(chosen, |numbers|) && target == IndexSum(numbers, chosen);
    SortKeepsIndexSum(numbers, chosen, ByValue);
    SortedDistinctIsIncreasing(chosen, |numbers|);
  }

  lemma {:induction false} PrefixSumAtMost(numbers: seq<int>, i: nat, limit: nat)
    requires i <= |numbers| && forall k :: 0 <= k < |numbers| ==> numbers[k] <= limit
    ensures PrefixSum(numbers, i) <= i * limit
  {
    if i > 0 {
      PrefixSumAtMost(numbers, i - 1, limit);
      MulStep(i, limit);
    }
  }

  lemma {:induction false} ConstantPrefixSum(n: nat, i: nat, v: int)
    requires i <= n
    ensures PrefixSum(seq(n, _ => v), i) == i * v
  {
    if i > 0 {
      ConstantPrefixSum(n, i - 1, v);
      MulStep(i, v);
    }
  }

  /** Generated instances of size n never reach random sampling exactly when n <= 200. The adjuster
      allows sizes up to 220. */
  lemma SamplingUnreachableIff(n: nat)
    requires n > 0
    ensures (forall numbers: seq<int>, target: int | Generated(numbers, target) && |numbers| == n ::
               !Sampled(numbers))
            <==> n <= 200
  {
    if n <= 200 {
      forall numbers: seq<int>, target: int | Generated(numbers, target) && |numbers| == n
        ensures !Sampled(numbers)
      {
        PrefixSumAtMost(numbers, n, 999);
      }
    } else {
      var numbers: seq<int> := seq(n, _ => 999);
      ConstantPrefixSum(n, n, 999);
      var chosen: seq<nat> := [0];
      assert IsDraw(chosen, n);
      assert Generated(numbers, IndexSum(numbers, chosen));
      MulMono(202, n + 1, 2 * Sum(numbers) + 1);
      assert Sampled(numbers);
    }
  }

  /** Mining a generated instance of at most 200 numbers always ends with a verified answer. */
  method MineGenerated(numbers: seq<int>, target: int, draw: nat -> seq<nat>) returns (r: Option<Solution>)
    requires Generated(numbers, target) && |numbers| <= 200
    requires IsSampler(draw, |numbers|)
    ensures r.Some? && Verifies(r.value, Problem.SubsetSum(numbers, target))
    ensures Quality(r.value, Problem.SubsetSum(numbers, target)) == 1.0
  {
    GeneratedIsSolvable(numbers, target);
    SamplingUnreachableIff(|numbers|);
    r := SolveSubsetSum(numbers, target, draw);
  }
}
