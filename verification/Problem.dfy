// Problems, solutions and the polynomial verifier (core/src/problem.rs).
// Instances, the checks every node runs, and the nearest-neighbour baseline that
// tour quality is measured against.

module Problem {
  import opened Arith

  datatype Option<+T> = None | Some(value: T)

  datatype Clause = Clause(literals: seq<int>)

  datatype ProblemType =
    | SubsetSum(numbers: seq<int>, target: int)
    | Sat(variables: nat, clauses: seq<Clause>)
    | Tsp(cities: nat, distances: seq<seq<nat>>)
    | Custom(problemId: seq<int>, data: seq<int>)

  datatype Solution =
    | SubsetSumSolution(indices: seq<nat>)
    | SatSolution(assignment: seq<bool>)
    | TspSolution(tour: seq<nat>)
    | CustomSolution(bytes: seq<int>)

  /** u64::MAX, the initial best distance of the nearest-neighbour scan. */
  const U64_MAX: nat := 0xFFFF_FFFF_FFFF_FFFF

  // ---------------------------------------------------------------- subset sum

  /** The value an index contributes; an index past the end contributes zero. */
  function ValueAt(numbers: seq<int>, i: nat): int {
    if i < |numbers| then numbers[i] else 0
  }

  function IndexSum(numbers: seq<int>, indices: seq<nat>): int {
    if indices == [] then 0 else ValueAt(numbers, indices[0]) + IndexSum(numbers, indices[1..])
  }

  // ---------------------------------------------------------------- satisfiability

  /** Position a literal reads: |lit| - 1, so the literal 0 reads no position. */
  function LiteralIndex(lit: int): int {
    (if lit < 0 then -lit else lit) - 1
  }

  /** How the verifier reads a literal: a missing variable is false, then the sign applies. */
  predicate VerifierLiteral(assignment: seq<bool>, lit: int) {
    var i := LiteralIndex(lit);
    var value := 0 <= i < |assignment| && assignment[i];
    if lit > 0 then value else !value
  }

  predicate VerifierClause(assignment: seq<bool>, clause: Clause) {
    exists k :: 0 <= k < |clause.literals| && VerifierLiteral(assignment, clause.literals[k])
  }

  predicate VerifierFormula(assignment: seq<bool>, clauses: seq<Clause>) {
    forall c :: 0 <= c < |clauses| ==> VerifierClause(assignment, clauses[c])
  }

  // ---------------------------------------------------------------- tours

  /** A tour visits every city exactly once. */
  predicate IsTour(tour: seq<nat>, cities: nat) {
    && |tour| == cities
    && (forall k :: 0 <= k < |tour| ==> tour[k] < cities)
    && (forall j, k :: 0 <= j < k < |tour| ==> tour[j] != tour[k])
  }

  /** Every index the tour code uses is inside the distance table. */
  predicate IsMatrix(distances: seq<seq<nat>>, cities: nat) {
    |distances| >= cities && forall i :: 0 <= i < cities ==> |distances[i]| >= cities
  }

  /** Entries of a tour fragment that can index the table. */
  predicate InRange(tour: seq<nat>, cities: nat) {
    forall k :: 0 <= k < |tour| ==> tour[k] < cities
  }

  /** Length of the first k legs of the closed tour. */
  function Legs(tour: seq<nat>, cities: nat, distances: seq<seq<nat>>, k: nat): nat
    requires IsMatrix(distances, cities) && InRange(tour, cities) && k <= cities == |tour|
  {
    if k == 0 then 0
    else Legs(tour, cities, distances, k - 1) + distances[tour[k - 1]][tour[k % cities]]
  }

  /** Total length of a tour, returning to its first city. */
  function TourLength(tour: seq<nat>, cities: nat, distances: seq<seq<nat>>): nat
    requires IsMatrix(distances, cities) && InRange(tour, cities) && cities == |tour|
  {
    Legs(tour, cities, distances, cities)
  }

  /** Best candidate among the first k cities: unvisited, strictly below the best so far. */
  function Nearest(distances: seq<seq<nat>>, cities: nat, tour: seq<nat>, k: nat): Option<nat>
    requires IsMatrix(distances, cities) && InRange(tour, cities) && tour != [] && k <= cities
    ensures var r := Nearest(distances, cities, tour, k); r.Some? ==> r.value < k
  {
    if k == 0 then None
    else
      var best := Nearest(distances, cities, tour, k - 1);
      var row := distances[tour[|tour| - 1]];
      var bestDist := if best.Some? then row[best.value] else U64_MAX;
      if (k - 1) !in tour && row[k - 1] < bestDist then Some(k - 1) else best
  }

  /** The scan finds the least-index unvisited city at minimal distance, and finds none
      exactly when no unvisited city is closer than u64::MAX. */
  lemma {:induction false} NearestIsMinimal(distances: seq<seq<nat>>, cities: nat, tour: seq<nat>, k: nat)
    requires IsMatrix(distances, cities) && InRange(tour, cities) && tour != [] && k <= cities
    ensures var r := Nearest(distances, cities, tour, k);
            var row := distances[tour[|tour| - 1]];
            if r.Some? then
              && r.value < k && r.value !in tour && row[r.value] < U64_MAX
              && (forall c :: 0 <= c < k && c !in tour ==>
                    row[r.value] < row[c] || (row[r.value] == row[c] && r.value <= c))
            else
              forall c :: 0 <= c < k && c !in tour ==> row[c] >= U64_MAX
  {
    if k > 0 {
      NearestIsMinimal(distances, cities, tour, k - 1);
    }
  }

  /** Greedy extension of a tour until it is complete or no candidate is left. */
  function GreedyTour(distances: seq<seq<nat>>, cities: nat, tour: seq<nat>): seq<nat>
    requires IsMatrix(distances, cities) && InRange(tour, cities) && tour != []
    ensures InRange(GreedyTour(distances, cities, tour), cities)
    decreases cities - |tour|
  {
    if |tour| >= cities then tour
    else
      match Nearest(distances, cities, tour, cities)
      case Some(next) => GreedyTour(distances, cities, tour + [next])
      case None => tour
  }

  /** The nearest-neighbour tour from city 0. */
  function NearestNeighborTour(cities: nat, distances: seq<seq<nat>>): seq<nat>
    requires cities > 0 && IsMatrix(distances, cities)
  {
    GreedyTour(distances, cities, [0])
  }

  /** Extending a duplicate-free tour greedily keeps it duplicate-free and keeps its prefix;
      with every entry below u64::MAX it becomes complete. */
  lemma {:induction false} GreedyTourVisits(distances: seq<seq<nat>>, cities: nat, tour: seq<nat>)
    requires IsMatrix(distances, cities) && InRange(tour, cities) && 0 < |tour| <= cities
    requires forall j, k :: 0 <= j < k < |tour| ==> tour[j] != tour[k]
    ensures var g := GreedyTour(distances, cities, tour);
            && tour <= g && |g| <= cities
            && (forall j, k :: 0 <= j < k < |g| ==> g[j] != g[k])
            && (BelowMax(distances, cities) ==> |g| == cities)
    decreases cities - |tour|
  {
    if |tour| < cities {
      NearestIsMinimal(distances, cities, tour, cities);
      var r := Nearest(distances, cities, tour, cities);
      if r.Some? {
        GreedyTourVisits(distances, cities, tour + [r.value]);
      } else if BelowMax(distances, cities) {
        var c := MissingCity(tour, cities);
        assert false;
      }
    }
  }

  /** At position k a tour goes to the nearest city not yet visited, counted from the city just left:
      the least index among equals, and none at u64::MAX. */
  ghost predicate GoesToNearest(g: seq<nat>, k: int, cities: nat, distances: seq<seq<nat>>)
    requires IsMatrix(distances, cities) && InRange(g, cities) && 0 < k < |g|
  {
    var row := distances[g[k - 1]];
    && g[k] !in g[..k] && row[g[k]] < U64_MAX
    && forall c :: 0 <= c < cities && c !in g[..k] ==> row[g[k]] < row[c] || (row[g[k]] == row[c] && g[k] <= c)
  }

  /** Every step from some position on does, and the tour stops short of all cities only where every
      city left is at u64::MAX or more. */
  ghost predicate NearestEachStep(g: seq<nat>, from: nat, cities: nat, distances: seq<seq<nat>>)
    requires IsMatrix(distances, cities) && InRange(g, cities) && 0 < from <= |g|
  {
    && (forall k {:trigger GoesToNearest(g, k, cities, distances)} :: from <= k < |g| ==>
          GoesToNearest(g, k, cities, distances))
    && (|g| < cities ==> forall c :: 0 <= c < cities && c !in g ==> distances[g[|g| - 1]][c] >= U64_MAX)
  }

  lemma {:induction false} GreedyTourSteps(distances: seq<seq<nat>>, cities: nat, tour: seq<nat>)
    requires IsMatrix(distances, cities) && InRange(tour, cities) && tour != []
    ensures tour <= GreedyTour(distances, cities, tour)
    ensures NearestEachStep(GreedyTour(distances, cities, tour), |tour|, cities, distances)
    decreases cities - |tour|
  {
    if |tour| < cities {
      NearestIsMinimal(distances, cities, tour, cities);
      var r := Nearest(distances, cities, tour, cities);
      if r.Some? {
        var g := GreedyTour(distances, cities, tour);
        GreedyTourSteps(distances, cities, tour + [r.value]);
        assert g[..|tour|] == tour && g[|tour|] == r.value;
        assert GoesToNearest(g, |tour|, cities, distances);
      }
    }
  }

  /** Every distance is below u64::MAX. */
  predicate BelowMax(distances: seq<seq<nat>>, cities: nat)
    requires IsMatrix(distances, cities)
  {
    forall i, j :: 0 <= i < cities && 0 <= j < cities ==> distances[i][j] < U64_MAX
  }

  /** A short list leaves some city out. */
  lemma MissingCity(tour: seq<nat>, cities: nat) returns (c: nat)
    requires |tour| < cities
    ensures c < cities && c !in tour
  {
    if forall x :: 0 <= x < cities ==> x in tour {
      PigeonHole(tour, cities);
      assert false;
    }
    c :| 0 <= c < cities && c !in tour;
  }

  lemma PigeonHole(tour: seq<nat>, cities: nat)
    requires forall x :: 0 <= x < cities ==> x in tour
    ensures |tour| >= cities
  {
    SubsetSize(CitySet(cities), Elements(tour));
  }

  ghost function CitySet(n: nat): (s: set<nat>)
    ensures |s| == n && forall x :: x in s <==> 0 <= x < n
  {
    if n == 0 then {} else CitySet(n - 1) + {n - 1}
  }

  ghost function Elements(s: seq<nat>): (r: set<nat>)
    ensures |r| <= |s| && forall x :: x in r <==> x in s
  {
    if s == [] then {}
    else
      assert s == [s[0]] + s[1..];
      Elements(s[1..]) + {s[0]}
  }

  lemma {:induction false} SubsetSize<T>(a: set<T>, b: set<T>)
    requires a <= b
    ensures |a| <= |b|
  {
    assert b == a + (b - a);
  }

  // ---------------------------------------------------------------- verification

  /** What `verify` accepts. */
  predicate Verifies(solution: Solution, problem: ProblemType) {
    match (solution, problem)
    case (SubsetSumSolution(indices), SubsetSum(numbers, target)) =>
      IndexSum(numbers, indices) == target
    case (SatSolution(assignment), Sat(variables, clauses)) =>
      |assignment| == variables && VerifierFormula(assignment, clauses)
    case (TspSolution(tour), Tsp(cities, _)) =>
      IsTour(tour, cities)
    case _ => false
  }

  /** The verifier's tour scan: one pass over a table of visited flags. */
  method VerifyTour(tour: seq<nat>, cities: nat) returns (ok: bool)
    ensures ok <==> IsTour(tour, cities)
  {
    if |tour| != cities {
      return false;
    }
    var visited := new bool[cities](_ => false);
    for i := 0 to |tour|
      invariant InRange(tour[..i], cities)
      invariant forall j, k :: 0 <= j < k < i ==> tour[j] != tour[k]
      invariant forall c :: 0 <= c < cities ==> (visited[c] <==> c in tour[..i])
    {
      var city := tour[i];
      assert tour[..i + 1] == tour[..i] + [city];
      if city >= cities || visited[city] {
        return false;
      }
      visited[city] := true;
    }
    assert tour[..|tour|] == tour;
    return true;
  }

  method Verify(solution: Solution, problem: ProblemType) returns (ok: bool)
    ensures ok <==> Verifies(solution, problem)
  {
    match (solution, problem)
    case (SubsetSumSolution(indices), SubsetSum(numbers, target)) =>
      ok := IndexSum(numbers, indices) == target;
    case (SatSolution(assignment), Sat(variables, clauses)) =>
      ok := |assignment| == variables && VerifierFormula(assignment, clauses);
    case (TspSolution(tour), Tsp(cities, _)) =>
      ok := VerifyTour(tour, cities);
    case _ =>
      ok := false;
  }

  /** Builds the nearest-neighbour tour with a visited table, city by city. */
  method BuildNearestNeighborTour(cities: nat, distances: seq<seq<nat>>) returns (tour: seq<nat>)
    requires cities > 0 && IsMatrix(distances, cities)
    ensures tour == NearestNeighborTour(cities, distances)
    ensures 0 < |tour| <= cities && tour[0] == 0 && NearestEachStep(tour, 1, cities, distances)
  {
    GreedyTourSteps(distances, cities, [0]);
    GreedyTourVisits(distances, cities, [0]);
    var visited := new bool[cities](_ => false);
    tour := [0];
    visited[0] := true;
    while |tour| < cities
      invariant tour != [] && InRange(tour, cities)
      invariant forall c :: 0 <= c < cities ==> (visited[c] <==> c in tour)
      invariant GreedyTour(distances, cities, tour) == NearestNeighborTour(cities, distances)
      decreases cities - |tour|
    {
      var current := tour[|tour| - 1];
      var bestNext: Option<nat> := None;
      var bestDist := U64_MAX;
      for next := 0 to cities
        invariant bestNext == Nearest(distances, cities, tour, next)
        invariant bestDist == if bestNext.Some? then distances[current][bestNext.value] else U64_MAX
      {
        if !visited[next] {
          var dist := distances[current][next];
          if dist < bestDist {
            bestDist := dist;
            bestNext := Some(next);
          }
        }
      }
      if bestNext.Some? {
        tour := tour + [bestNext.value];
        visited[bestNext.value] := true;
      } else {
        break;
      }
    }
  }

  /** Length of the baseline tour; the baseline must be complete, or the source indexes past its end. */
  method NearestNeighborLength(cities: nat, distances: seq<seq<nat>>) returns (length: nat)
    requires cities > 0 && IsMatrix(distances, cities)
    requires |NearestNeighborTour(cities, distances)| == cities
    ensures length == TourLength(NearestNeighborTour(cities, distances), cities, distances)
    ensures NearestEachStep(NearestNeighborTour(cities, distances), 1, cities, distances)
  {
    var tour := BuildNearestNeighborTour(cities, distances);
    length := TourLength(tour, cities, distances);
  }

  // ---------------------------------------------------------------- quality

  /** The quality computation of a tour does not index out of bounds. */
  predicate Measurable(problem: ProblemType) {
    problem.Tsp? ==>
      && problem.cities > 0
      && IsMatrix(problem.distances, problem.cities)
      && |NearestNeighborTour(problem.cities, problem.distances)| == problem.cities
  }

  /** Quality in [0, 1]: exact answers score 1, a tour scores baseline / max(length, baseline). */
  function Quality(solution: Solution, problem: ProblemType): real
    requires Measurable(problem)
  {
    if !Verifies(solution, problem) then 0.0
    else if solution.TspSolution? then
      var length := TourLength(solution.tour, problem.cities, problem.distances);
      var nn := NearestNeighborTour(problem.cities, problem.distances);
      var baseline := Max(TourLength(nn, problem.cities, problem.distances), 1);
      baseline as real / Max(length, baseline) as real
    else 1.0
  }

  /** Quality lies in [0, 1] and is positive exactly for verified solutions. Those score 1 but for
      tours, whose quality times their length is the baseline (taken as at least 1) where they are
      longer, and which reach 1 exactly where they are not. */
  lemma QualityMeaning(solution: Solution, problem: ProblemType)
    requires Measurable(problem)
    ensures 0.0 <= Quality(solution, problem) <= 1.0
    ensures Quality(solution, problem) > 0.0 <==> Verifies(solution, problem)
    ensures Verifies(solution, problem) && !solution.TspSolution? ==> Quality(solution, problem) == 1.0
    ensures Verifies(solution, problem) && solution.TspSolution? ==>
              var length := TourLength(solution.tour, problem.cities, problem.distances);
              var nn := NearestNeighborTour(problem.cities, problem.distances);
              var baseline := TourLength(nn, problem.cities, problem.distances);
              length >= baseline > 0 ==> Quality(solution, problem) * length as real == baseline as real
    ensures Verifies(solution, problem) && solution.TspSolution? ==>
              (Quality(solution, problem) == 1.0 <==>
                 TourLength(solution.tour, problem.cities, problem.distances) <=
                 Max(TourLength(NearestNeighborTour(problem.cities, problem.distances),
                                problem.cities, problem.distances), 1))
  {
    if Verifies(solution, problem) && solution.TspSolution? {
      var length := TourLength(solution.tour, problem.cities, problem.distances);
      var nn := NearestNeighborTour(problem.cities, problem.distances);
      var baseline := Max(TourLength(nn, problem.cities, problem.distances), 1);
      RatioAtMostOne(baseline, Max(length, baseline));
    }
  }

  lemma PositiveProduct(x: real, y: real)
    requires x > 0.0 && y > 0.0
    ensures x * y > 0.0
  {
  }

  lemma NonPositiveProduct(x: real, y: real)
    requires x <= 0.0 && y > 0.0
    ensures x * y <= 0.0
  {
  }

  lemma RatioAtMostOne(a: nat, b: nat)
    requires 0 < a <= b
    ensures 0.0 < a as real / b as real <= 1.0
    ensures a as real / b as real == 1.0 <==> a == b
  {
    var q := a as real / b as real;
    assert q * b as real == a as real;
    assert (q - 1.0) * b as real == a as real - b as real;
    if q <= 0.0 {
      NonPositiveProduct(q, b as real);
    } else if q > 1.0 {
      PositiveProduct(q - 1.0, b as real);
    } else if q < 1.0 {
      PositiveProduct(1.0 - q, b as real);
      assert (1.0 - q) * b as real == b as real - a as real;
    }
  }
}
