// The miner's two SAT solvers (consensus/src/miner.rs): enumeration of all assignments up to
// 32 variables, and backtracking over one shared mutable assignment above that. The wall clock
// is an arbitrary oracle: `expired(t)` is the answer of the t-th deadline check.

module Sat {
  import opened Problem
  import opened Arith

  // ---------------------------------------------------------------- the solvers' reading

  /** How the solvers read a literal: one that names no variable is false, whatever its sign. */
  predicate SolverLiteral(assignment: seq<bool>, lit: int) {
    var i := LiteralIndex(lit);
    0 <= i < |assignment| && (lit > 0) == assignment[i]
  }

  predicate SolverClause(assignment: seq<bool>, clause: Clause) {
    exists k :: 0 <= k < |clause.literals| && SolverLiteral(assignment, clause.literals[k])
  }

  predicate SolverFormula(assignment: seq<bool>, clauses: seq<Clause>) {
    forall c :: 0 <= c < |clauses| ==> SolverClause(assignment, clauses[c])
  }

  ghost predicate Satisfiable(variables: nat, clauses: seq<Clause>) {
    exists a: seq<bool> :: |a| == variables && SolverFormula(a, clauses)
  }

  /** What the verifier can be convinced of. */
  ghost predicate Verifiable(variables: nat, clauses: seq<Clause>) {
    exists s: Solution :: Verifies(s, Problem.Sat(variables, clauses))
  }

  /** A literal both sides read alike: positive, or the negation of a declared variable. */
  predicate SafeLiteral(lit: int, variables: nat) {
    lit > 0 || (lit < 0 && -lit <= variables)
  }

  predicate SafeFormula(clauses: seq<Clause>, variables: nat) {
    forall c, k :: 0 <= c < |clauses| && 0 <= k < |clauses[c].literals| ==>
      SafeLiteral(clauses[c].literals[k], variables)
  }

  /** The verifier accepts whatever the solvers accept, on every formula. */
  lemma SolverImpliesVerifier(a: seq<bool>, clauses: seq<Clause>)
    requires SolverFormula(a, clauses)
    ensures VerifierFormula(a, clauses)
  {
    forall c | 0 <= c < |clauses|
      ensures VerifierClause(a, clauses[c])
    {
      assert SolverClause(a, clauses[c]);
      var k :| 0 <= k < |clauses[c].literals| && SolverLiteral(a, clauses[c].literals[k]);
      assert VerifierLiteral(a, clauses[c].literals[k]);
    }
  }

  /** Solvers and verifier read a literal alike under every assignment exactly when it is safe. */
  lemma LiteralsReadAlike(lit: int, variables: nat)
    ensures (forall a: seq<bool> | |a| == variables :: SolverLiteral(a, lit) == VerifierLiteral(a, lit))
            <==> SafeLiteral(lit, variables)
  {
    if !SafeLiteral(lit, variables) {
      var a := seq(variables, _ => false);
      assert VerifierLiteral(a, lit) && !SolverLiteral(a, lit);
    }
  }

  /** On safe formulas the solvers' question is the verifier's question. */
  lemma SafeFormulaSameQuestion(variables: nat, clauses: seq<Clause>)
    requires SafeFormula(clauses, variables)
    ensures Satisfiable(variables, clauses) <==> Verifiable(variables, clauses)
  {
    if Satisfiable(variables, clauses) {
      var a: seq<bool> :| |a| == variables && SolverFormula(a, clauses);
      SolverImpliesVerifier(a, clauses);
      assert Verifies(SatSolution(a), Problem.Sat(variables, clauses));
    }
    if Verifiable(variables, clauses) {
      var s: Solution :| Verifies(s, Problem.Sat(variables, clauses));
      forall c | 0 <= c < |clauses|
        ensures SolverClause(s.assignment, clauses[c])
      {
        assert VerifierClause(s.assignment, clauses[c]);
        var k :| 0 <= k < |clauses[c].literals| && VerifierLiteral(s.assignment, clauses[c].literals[k]);
        assert SafeLiteral(clauses[c].literals[k], variables);
        assert SolverLiteral(s.assignment, clauses[c].literals[k]);
      }
      assert SolverFormula(s.assignment, clauses);
    }
  }

  /** An unsafe literal can separate the two: the one-clause formula holding just that literal
      is accepted by the verifier under every assignment and by the solvers under none. */
  lemma UnsafeLiteralSeparates(lit: int, variables: nat)
    requires !SafeLiteral(lit, variables)
    ensures Verifiable(variables, [Clause([lit])]) && !Satisfiable(variables, [Clause([lit])])
  {
    var a := seq(variables, _ => false);
    var clauses := [Clause([lit])];
    assert VerifierLiteral(a, clauses[0].literals[0]);
    assert Verifies(SatSolution(a), Problem.Sat(variables, clauses));
    forall b: seq<bool> | |b| == variables
      ensures !SolverFormula(b, clauses)
    {
      assert !SolverClause(b, clauses[0]);
    }
  }

  // ---------------------------------------------------------------- bit enumeration

  /** The assignment an enumeration step tries: bit j is variable j, the rest stay false. */
  function Decode(bits: nat, variables: nat): (a: seq<bool>)
    ensures |a| == variables
  {
    seq(variables, j requires 0 <= j => j < 32 && Bit(bits, j))
  }

  /** The highest variable on which two assignments differ is j, and a has it false. */
  predicate LowerAt(a: seq<bool>, b: seq<bool>, j: nat) {
    j < |a| == |b| && !a[j] && b[j] && forall k :: j < k < |a| ==> a[k] == b[k]
  }

  ghost predicate CountsBefore(a: seq<bool>, b: seq<bool>) {
    exists j: nat :: LowerAt(a, b, j)
  }

  lemma {:induction false} FirstCountsBefore(bits: nat, a: seq<bool>, clauses: seq<Clause>)
    requires |a| <= 32 && bits < Pow2(|a|)
    requires forall b: nat :: b < bits ==> !SolverFormula(Decode(b, |a|), clauses)
    requires SolverFormula(a, clauses) && a != Decode(bits, |a|)
    ensures CountsBefore(Decode(bits, |a|), a)
  {
    var b := NumberWithBits(a);
    assert Decode(b, |a|) == a;
    var j := HighestDifference(bits, b, |a|);
    assert LowerAt(Decode(bits, |a|), a, j);
  }

  /** Enumeration finds the first satisfying assignment in counting order; if it gives up without
      a deadline having fired and every variable is enumerated, there is none. */
  method SolveBruteForce(variables: nat, clauses: seq<Clause>, expired: nat -> bool)
    returns (r: Option<Solution>)
    ensures r.Some? ==>
              && Verifies(r.value, Problem.Sat(variables, clauses))
              && r.value.SatSolution?
              && SolverFormula(r.value.assignment, clauses)
              && exists bits: nat ::
                   && r.value.assignment == Decode(bits, variables)
                   && forall b: nat :: b < bits ==> !SolverFormula(Decode(b, variables), clauses)
    ensures r.Some? && variables <= 32 ==>
              forall a: seq<bool> :: |a| == variables && SolverFormula(a, clauses) ==>
                a == r.value.assignment || CountsBefore(r.value.assignment, a)
    ensures (forall t: nat :: !expired(t)) && variables <= 32 ==>
              (r.Some? <==> Satisfiable(variables, clauses))
  {
    var width := if variables < 32 then variables else 32;
    var maxIterations := Pow2(width);
    var bits := 0;
    while bits < maxIterations
      invariant 0 <= bits <= maxIterations
      invariant forall b: nat :: b < bits ==> !SolverFormula(Decode(b, variables), clauses)
    {
      if expired(bits) {
        return None;
      }
      var assignment := Decode(bits, variables);
      if SolverFormula(assignment, clauses) {
        SolverImpliesVerifier(assignment, clauses);
        forall a: seq<bool> | variables <= 32 && |a| == variables && SolverFormula(a, clauses)
          ensures a == assignment || CountsBefore(assignment, a)
        {
          if a != assignment { FirstCountsBefore(bits, a, clauses); }
        }
        return Some(SatSolution(assignment));
      }
      bits := bits + 1;
    }
    if variables <= 32 {
      forall a: seq<bool> | |a| == variables
        ensures !SolverFormula(a, clauses)
      {
        var b := NumberWithBits(a);
        assert Decode(b, variables) == a;
      }
    }
    return None;
  }

  // ---------------------------------------------------------------- backtracking

  /** A clause no completion of the first `decided` variables can satisfy. */
  predicate ClauseRefuted(assignment: seq<bool>, decided: nat, clause: Clause)
    requires decided <= |assignment|
  {
    forall k :: 0 <= k < |clause.literals| ==>
      var i := LiteralIndex(clause.literals[k]);
      0 <= i < decided && (clause.literals[k] > 0) != assignment[i]
  }

  predicate SomeClauseRefuted(assignment: seq<bool>, decided: nat, clauses: seq<Clause>)
    requires decided <= |assignment|
  {
    exists c :: 0 <= c < |clauses| && ClauseRefuted(assignment, decided, clauses[c])
  }

  /** b completes the first `decided` values of a. */
  predicate Completes(b: seq<bool>, a: seq<bool>, decided: nat) {
    |b| == |a| && decided <= |a| && b[..decided] == a[..decided]
  }

  lemma RefutedHasNoCompletion(a: seq<bool>, decided: nat, clauses: seq<Clause>, b: seq<bool>)
    requires Completes(b, a, decided) && SomeClauseRefuted(a, decided, clauses)
    ensures !SolverFormula(b, clauses)
  {
    var c :| 0 <= c < |clauses| && ClauseRefuted(a, decided, clauses[c]);
    forall k | 0 <= k < |clauses[c].literals|
      ensures !SolverLiteral(b, clauses[c].literals[k])
    {
      var i := LiteralIndex(clauses[c].literals[k]);
      assert b[..decided][i] == a[..decided][i];
    }
    assert !SolverClause(b, clauses[c]);
  }

  /** A completion fixes the next variable to true or to false. */
  lemma CompletionSplits(b: seq<bool>, a: seq<bool>, i: nat)
    requires i < |a| && Completes(b, a, i)
    ensures Completes(b, a[i := true], i + 1) || Completes(b, a[i := false], i + 1)
  {
    var v := b[i];
    assert b[..i + 1] == b[..i] + [v];
    assert a[i := v][..i + 1] == a[..i] + [v];
  }

  /** The inner recursion: `assignment[..varIdx]` is decided, the rest is false. On success the
      array satisfies the formula and keeps the decided part; on failure the array is as it was;
      failure without a fired deadline means no completion of the decided part works. */
  method Dpll(clauses: seq<Clause>, assignment: array<bool>, varIdx: nat, expired: nat -> bool, tick: nat)
    returns (sat: bool, next: nat)
    requires varIdx <= assignment.Length
    requires forall k :: varIdx <= k < assignment.Length ==> !assignment[k]
    modifies assignment
    ensures next > tick
    ensures assignment[..varIdx] == old(assignment[..varIdx])
    ensures sat ==> SolverFormula(assignment[..], clauses)
    ensures !sat ==> assignment[..] == old(assignment[..])
    ensures !sat && (forall t: nat :: tick <= t < next ==> !expired(t)) ==>
              forall b: seq<bool> :: Completes(b, old(assignment[..]), varIdx) ==> !SolverFormula(b, clauses)
    decreases assignment.Length - varIdx
  {
    ghost var start := assignment[..];
    if expired(tick) {
      return false, tick + 1;
    }
    if SolverFormula(assignment[..], clauses) {
      return true, tick + 1;
    }
    if SomeClauseRefuted(assignment[..], varIdx, clauses) {
      forall b: seq<bool> | Completes(b, start, varIdx)
        ensures !SolverFormula(b, clauses)
      {
        RefutedHasNoCompletion(start, varIdx, clauses, b);
      }
      return false, tick + 1;
    }
    if varIdx >= assignment.Length {
      forall b: seq<bool> | Completes(b, start, varIdx)
        ensures !SolverFormula(b, clauses)
      {
        assert b == start;
      }
      return false, tick + 1;
    }
    assignment[varIdx] := true;
    ghost var withTrue := assignment[..];
    assert withTrue == start[varIdx := true];
    var found, mid := Dpll(clauses, assignment, varIdx + 1, expired, tick + 1);
    assert assignment[..varIdx] == assignment[..varIdx + 1][..varIdx];
    assert withTrue[..varIdx] == start[..varIdx];
    if found {
      return true, mid;
    }
    assignment[varIdx] := false;
    ghost var withFalse := assignment[..];
    assert withFalse == start;
    assert withFalse == start[varIdx := false];
    found, next := Dpll(clauses, assignment, varIdx + 1, expired, mid);
    assert assignment[..varIdx] == assignment[..varIdx + 1][..varIdx];
    if !found && forall t: nat :: tick <= t < next ==> !expired(t) {
      forall b: seq<bool> | Completes(b, start, varIdx)
        ensures !SolverFormula(b, clauses)
      {
        CompletionSplits(b, start, varIdx);
      }
    }
    return found, next;
  }

  /** The backtracking solver from an all-false assignment. */
  method SolveWithTimeout(variables: nat, clauses: seq<Clause>, expired: nat -> bool)
    returns (r: Option<Solution>)
    ensures r.Some? ==> Verifies(r.value, Problem.Sat(variables, clauses))
                        && r.value.SatSolution? && SolverFormula(r.value.assignment, clauses)
    ensures (forall t: nat :: !expired(t)) ==> (r.Some? <==> Satisfiable(variables, clauses))
  {
    var assignment := new bool[variables](_ => false);
    ghost var start := assignment[..];
    var sat, _ := Dpll(clauses, assignment, 0, expired, 0);
    if sat {
      SolverImpliesVerifier(assignment[..], clauses);
      return Some(SatSolution(assignment[..]));
    }
    if forall t: nat :: !expired(t) {
      forall a: seq<bool> | |a| == variables
        ensures !SolverFormula(a, clauses)
      {
        assert Completes(a, start, 0);
      }
    }
    return None;
  }

  /** The dispatcher: enumeration up to 32 variables, backtracking above. An answer always verifies;
      without a fired deadline there is an answer exactly when the formula is satisfiable. On safe
      formulas that is exactly when the verifier could be convinced. */
  method SolveSat(variables: nat, clauses: seq<Clause>, expired: nat -> bool) returns (r: Option<Solution>)
    ensures r.Some? ==> Verifies(r.value, Problem.Sat(variables, clauses))
    ensures (forall t: nat :: !expired(t)) ==> (r.Some? <==> Satisfiable(variables, clauses))
    ensures (forall t: nat :: !expired(t)) && SafeFormula(clauses, variables) ==>
              (r.Some? <==> Verifiable(variables, clauses))
  {
    if variables <= 32 {
      r := SolveBruteForce(variables, clauses, expired);
    } else {
      r := SolveWithTimeout(variables, clauses, expired);
    }
    if SafeFormula(clauses, variables) {
      SafeFormulaSameQuestion(variables, clauses);
    }
  }
}
