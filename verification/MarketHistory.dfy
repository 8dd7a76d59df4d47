// Where everything the marketplace (mempool/src/marketplace.rs) records came from: for each listing,
// solution, cancellation, expiry and payment of a run, the operation that made it.

module MarketHistory {
  import opened Bytes
  import opened MapSum
  import opened Problem
  import opened MarketSpec
  import Marketplace

  // ---------------------------------------------------------------- listings

  /** The operation lists the problem under this identifier, with these terms. */
  ghost predicate ListedBy(env: Env, m: Market, op: Op, id: Hash, p: Submission) {
    && op.DoSubmit? && id !in m.problems
    && var q := op.request;
    && p.mode == q.mode && p.submitter == q.submitter && p.bounty == q.bounty && p.minWorkScore == q.minWorkScore
    && p.submittedAt == op.now && p.expiresAt == op.now + 86_400 * q.days
    && q.bounty > 0 && q.minWorkScore > 0.0
    && match q.mode
       case Public(problem) => env.idOf(problem) == Some(id)
       case Private(commitment, proofOk, complexity) => commitment == id && proofOk && complexity >= q.minWorkScore
  }

  /** What of a listing never changes. */
  ghost predicate SameTerms(p: Submission, q: Submission) {
    && p.problemId == q.problemId && p.mode == q.mode && p.submitter == q.submitter && p.bounty == q.bounty
    && p.minWorkScore == q.minWorkScore && p.submittedAt == q.submittedAt && p.expiresAt == q.expiresAt
  }

  lemma StepKeepsTerms(env: Env, m: Market, op: Op, id: Hash)
    requires id in m.problems
    ensures id in Step(env, m, op).problems && SameTerms(m.problems[id], Step(env, m, op).problems[id])
  {
  }

  lemma StepLists(env: Env, m: Market, op: Op, id: Hash)
    requires id !in m.problems && id in Step(env, m, op).problems
    ensures ListedBy(env, m, op, id, Step(env, m, op).problems[id])
    ensures Step(env, m, op).problems[id].status == Open
  {
  }

  /** Every problem was listed once, by a submission with its terms. */
  lemma {:induction false} ListingOrigin(env: Env, ops: seq<Op>, id: Hash) returns (i: nat)
    requires id in Run(env, ops).0.problems
    ensures i < |ops| && ListedBy(env, Run(env, ops[..i]).0, ops[i], id, Run(env, ops).0.problems[id])
  {
    var before, op := ops[..|ops| - 1], ops[|ops| - 1];
    var m := Run(env, before).0;
    if id in m.problems {
      i := ListingOrigin(env, before, id);
      StepKeepsTerms(env, m, op, id);
      assert before[..i] == ops[..i];
    } else {
      i := |ops| - 1;
      StepLists(env, m, op, id);
    }
  }

  // ---------------------------------------------------------------- how problems end

  /** The problem solvers see: the published one, or the opening of a private one. */
  function Shown(p: Submission): Option<ProblemType> {
    if p.mode.Public? then Some(p.mode.problem)
    else if p.opening.Some? then Some(p.opening.value.problem)
    else None
  }

  /** The operation solves the open problem: in time, and good enough for what is shown. */
  ghost predicate Solves(env: Env, m: Market, op: Op, id: Hash)
    requires id in m.problems
  {
    var p := m.problems[id];
    && p.status == Open && op.DoSolve? && op.id == id && op.now <= p.expiresAt
    && Shown(p).Some? && Verifies(op.solution, Shown(p).value)
    && env.quality(op.solution, Shown(p).value) * 100.0 >= p.minWorkScore
  }

  /** It is cancelled by its own submitter. */
  ghost predicate Cancels(m: Market, op: Op, id: Hash)
    requires id in m.problems
  {
    m.problems[id].status == Open && op.DoCancel? && op.id == id && op.requester == m.problems[id].submitter
  }

  /** It expires, by a sweep or by a submission that comes after the deadline. */
  ghost predicate Expires(m: Market, op: Op, id: Hash)
    requires id in m.problems
  {
    && m.problems[id].status == Open
    && (op.DoExpire? || (op.DoSolve? && op.id == id)) && op.now > m.problems[id].expiresAt
  }

  /** In this state the operation ends the open problem, the way p records. */
  ghost predicate EndedBy(env: Env, m: Market, op: Op, id: Hash, p: Submission) {
    && id in m.problems
    && match p.status
       case Solved => Solves(env, m, op, id) && p.solver == Some(op.solver) && p.solution == Some(op.solution)
       case Cancelled => Cancels(m, op, id)
       case Expired => Expires(m, op, id)
       case _ => false
  }

  /** An open and funded problem ends exactly by these. */
  lemma StepEnds(env: Env, m: Market, op: Op, id: Hash)
    requires id in m.problems && m.problems[id].status == Open && id in m.escrow
    ensures var p := Step(env, m, op).problems[id];
            && (p.status != Open ==> EndedBy(env, m, op, id, p))
            && (p.status == Solved <==> Solves(env, m, op, id))
            && (p.status == Cancelled <==> Cancels(m, op, id))
            && (p.status == Expired <==> Expires(m, op, id))
  {
  }

  /** An ended problem keeps its status, solver and solution. */
  lemma EndedStays(env: Env, m: Market, op: Op, id: Hash)
    requires id in m.problems && m.problems[id].status != Open
    ensures var p := Step(env, m, op).problems[id];
            && p.status == m.problems[id].status && p.solver == m.problems[id].solver
            && p.solution == m.problems[id].solution
  {
  }

  /** Every problem no longer open was ended by one operation of the run, the way it records. */
  lemma {:induction false} EndOrigin(env: Env, ops: seq<Op>, id: Hash) returns (i: nat)
    requires id in Run(env, ops).0.problems && Run(env, ops).0.problems[id].status != Open
    ensures i < |ops| && EndedBy(env, Run(env, ops[..i]).0, ops[i], id, Run(env, ops).0.problems[id])
  {
    var before, op := ops[..|ops| - 1], ops[|ops| - 1];
    var m := Run(env, before).0;
    if id !in m.problems { StepLists(env, m, op, id); }
    if m.problems[id].status == Open {
      i := |ops| - 1;
      EveryRunSound(env, before);
      StepEnds(env, m, op, id);
    } else {
      i := EndOrigin(env, before, id);
      EndedStays(env, m, op, id);
      assert before[..i] == ops[..i];
    }
  }

  /** The i-th operation of a run solves, cancels or expires the open problem. */
  ghost predicate EndsAt(env: Env, ops: seq<Op>, i: nat, id: Hash)
    requires i < |ops|
  {
    var m := Run(env, ops[..i]).0;
    id in m.problems && (Solves(env, m, ops[i], id) || Cancels(m, ops[i], id) || Expires(m, ops[i], id))
  }

  /** A listed problem is open after a run exactly when no operation ended it. */
  lemma OpenIff(env: Env, ops: seq<Op>, id: Hash)
    requires id in Run(env, ops).0.problems
    ensures Run(env, ops).0.problems[id].status == Open <==> forall i :: 0 <= i < |ops| ==> !EndsAt(env, ops, i, id)
  {
    if Run(env, ops).0.problems[id].status != Open {
      var i := EndOrigin(env, ops, id);
      assert EndsAt(env, ops, i, id);
    } else {
      forall i | 0 <= i < |ops| ensures !EndsAt(env, ops, i, id) { OpenThroughout(env, ops, id, i); }
    }
  }

  lemma {:induction false} OpenThroughout(env: Env, ops: seq<Op>, id: Hash, i: nat)
    requires i < |ops| && id in Run(env, ops).0.problems && Run(env, ops).0.problems[id].status == Open
    ensures !EndsAt(env, ops, i, id)
  {
    var before, op := ops[..|ops| - 1], ops[|ops| - 1];
    var m := Run(env, before).0;
    if id in m.problems {
      if m.problems[id].status != Open {
        EndedStays(env, m, op, id);
      } else if i == |before| {
        EveryRunSound(env, before);
        StepEnds(env, m, op, id);
      } else {
        OpenThroughout(env, before, id, i);
        assert before[..i] == ops[..i];
      }
    } else if i < |before| && EndsAt(env, ops, i, id) {
      assert before[..i] == ops[..i];
      StaysListed(env, before, id, i);
    }
  }

  lemma {:induction false} StaysListed(env: Env, ops: seq<Op>, id: Hash, i: nat)
    requires i <= |ops| && id in Run(env, ops[..i]).0.problems
    ensures id in Run(env, ops).0.problems
  {
    assert ops[..|ops|] == ops;
    if i < |ops| {
      var before := ops[..|ops| - 1];
      assert before[..i] == ops[..i];
      StaysListed(env, before, id, i);
      StepKeepsTerms(env, Run(env, before).0, ops[|ops| - 1], id);
    }
  }

  // ---------------------------------------------------------------- openings

  /** The operation opens the listed private problem. */
  ghost predicate Opens(env: Env, m: Market, op: Op, id: Hash) {
    && op.DoReveal? && op.id == id && id in m.problems && m.problems[id].mode.Private?
    && env.commit(op.opening.problem, op.opening.salt) == m.problems[id].mode.commitment
  }

  lemma StepOpens(env: Env, m: Market, op: Op, id: Hash)
    requires id in Step(env, m, op).problems
    ensures Step(env, m, op).problems[id].opening ==
            if Opens(env, m, op, id) then Some(op.opening)
            else if id in m.problems then m.problems[id].opening else None
  {
  }

  ghost predicate OpensAt(env: Env, ops: seq<Op>, i: nat, id: Hash)
    requires i < |ops|
  {
    Opens(env, Run(env, ops[..i]).0, ops[i], id)
  }

  ghost predicate NoneOpens(env: Env, ops: seq<Op>, from: int, id: Hash) {
    forall j :: 0 <= j < |ops| && from < j ==> !OpensAt(env, ops, j, id)
  }

  lemma NoneOpensLonger(env: Env, ops: seq<Op>, from: int, id: Hash)
    requires ops != [] && NoneOpens(env, ops[..|ops| - 1], from, id)
    requires from < |ops| - 1 ==> !OpensAt(env, ops, |ops| - 1, id)
    ensures NoneOpens(env, ops, from, id)
  {
    var before := ops[..|ops| - 1];
    forall j | 0 <= j < |ops| && from < j ensures !OpensAt(env, ops, j, id) {
      if j < |before| { assert before[..j] == ops[..j] && !OpensAt(env, before, j, id); }
    }
  }

  lemma NoneOpensUnlisted(env: Env, ops: seq<Op>, id: Hash)
    requires id !in Run(env, ops).0.problems
    ensures NoneOpens(env, ops, -1, id)
  {
    forall j | 0 <= j < |ops| ensures !OpensAt(env, ops, j, id) {
      if OpensAt(env, ops, j, id) { StaysListed(env, ops, id, j); }
    }
  }

  /** The opening on record is the last one of the run that matched the commitment, if any did. */
  lemma {:induction false} OpeningOrigin(env: Env, ops: seq<Op>, id: Hash) returns (i: int)
    requires id in Run(env, ops).0.problems
    ensures -1 <= i < |ops| && NoneOpens(env, ops, i, id)
    ensures var opening := Run(env, ops).0.problems[id].opening;
            if i < 0 then opening.None? else OpensAt(env, ops, i, id) && opening == Some(ops[i].opening)
  {
    var before, n := ops[..|ops| - 1], |ops| - 1;
    var m := Run(env, before).0;
    StepOpens(env, m, ops[n], id);
    if OpensAt(env, ops, n, id) {
      i := n;
    } else {
      if id in m.problems {
        i := OpeningOrigin(env, before, id);
        if i >= 0 { assert before[..i] == ops[..i]; }
      } else {
        i := -1;
        NoneOpensUnlisted(env, before, id);
      }
      NoneOpensLonger(env, ops, i, id);
    }
  }

  /** A claim pays the solver of the accepted solution the bounty the problem was listed with. */
  lemma ClaimPaysSolver(env: Env, ops: seq<Op>, id: Hash) returns (i: nat, j: nat)
    requires ClaimResult(Run(env, ops).0, id).Ok?
    ensures i < |ops| && ops[i].DoSolve? && EndedBy(env, Run(env, ops[..i]).0, ops[i], id, Run(env, ops).0.problems[id])
    ensures j < |ops| && ListedBy(env, Run(env, ops[..j]).0, ops[j], id, Run(env, ops).0.problems[id])
    ensures ClaimResult(Run(env, ops).0, id) == Ok((ops[i].solver, ops[j].request.bounty))
  {
    i := EndOrigin(env, ops, id);
    j := ListingOrigin(env, ops, id);
    ClaimSucceedsIff(env, ops, id);
  }

  /** A cancellation refunds to the submitter the bounty the problem was listed with; it succeeds exactly
      for the submitter of an open problem. */
  lemma CancelRefunds(env: Env, ops: seq<Op>, id: Hash, requester: Address) returns (j: nat)
    requires id in Run(env, ops).0.problems
    ensures var p, r := Run(env, ops).0.problems[id], CancelResult(Run(env, ops).0, id, requester);
            && (r.Ok? <==> requester == p.submitter && p.status == Open)
            && j < |ops| && ops[j].DoSubmit? && p.submitter == ops[j].request.submitter
            && (r.Ok? ==> r.value == ops[j].request.bounty)
  {
    j := ListingOrigin(env, ops, id);
    EveryRunSound(env, ops);
  }

  /** Each refund of an expiry goes to the submitter of its problem, with the bounty it was listed with. */
  lemma ExpiryRefunds(env: Env, ops: seq<Op>, now: int, order: seq<Hash>, refunds: seq<(Address, nat)>, k: nat)
    returns (j: nat)
    requires Marketplace.IsRefund(Run(env, ops).0, Ripe(Run(env, ops).0, now), order, refunds) && k < |refunds|
    ensures j < |ops| && ops[j].DoSubmit? && refunds[k] == (ops[j].request.submitter, ops[j].request.bounty)
    ensures ListedBy(env, Run(env, ops[..j]).0, ops[j], order[k], Run(env, ops).0.problems[order[k]])
    ensures Expires(Run(env, ops).0, DoExpire(now), order[k])
  {
    j := ListingOrigin(env, ops, order[k]);
    EveryRunSound(env, ops);
  }

  // ---------------------------------------------------------------- refusals

  /** A submission is accepted exactly with a bounty, a positive threshold, for a private problem a sound
      proof of enough complexity, and an identifier not yet listed; the first of these that fails is the
      refusal. */
  lemma AdmitExact(env: Env, m: Market, q: Request)
    ensures var id := if q.mode.Private? then Some(q.mode.commitment) else env.idOf(q.mode.problem);
            var funded, scored := q.bounty > 0, q.minWorkScore > 0.0;
            var proved := q.mode.Private? ==> q.mode.proofOk;
            var hard := q.mode.Private? ==> q.mode.complexity >= q.minWorkScore;
            var r := Admit(env, m, q);
            && (r.Ok? <==> funded && scored && proved && hard && id.Some? && id.value !in m.problems)
            && (r.Ok? ==> Some(r.value) == id)
            && (r == Err(InvalidBounty) <==> !funded)
            && (r == Err(InvalidWorkScore) <==> funded && !scored)
            && (r == Err(InvalidProof) <==> funded && scored && !proved)
            && (r == Err(InvalidParameters) <==> funded && scored && proved && !hard)
            && (r == Err(SerializationError) <==> funded && scored && proved && hard && id.None?)
            && (r == Err(DuplicateProblem) <==> funded && scored && proved && hard && id.Some? && id.value in m.problems)
  {
  }

  /** A solution is accepted exactly for an open problem, in time, that is shown, verified and good
      enough; the first of these that fails is the refusal. */
  lemma JudgeExact(env: Env, m: Market, id: Hash, solution: Solution, now: int)
    requires id in m.problems
    ensures var p, r := m.problems[id], Judge(env, m, id, solution, now);
            var open, timely, shown := p.status == Open, now <= p.expiresAt, Shown(p);
            var solved := shown.Some? && Verifies(solution, shown.value);
            var good := shown.Some? && env.quality(solution, shown.value) * 100.0 >= p.minWorkScore;
            && (r.Ok? <==> open && timely && solved && good)
            && (r == Err(ProblemNotOpen) <==> !open)
            && (r == Err(ProblemExpired) <==> open && !timely)
            && (r == Err(ProblemNotRevealed) <==> open && timely && shown.None?)
            && (r == Err(InvalidSolution) <==> open && timely && shown.Some? && !solved)
            && (r == Err(InsufficientWorkScore) <==> open && timely && solved && !good)
  {
  }

  /** An opening is accepted exactly for a listed private problem whose commitment it matches, a
      cancellation exactly from the submitter of an open problem with money in escrow. */
  lemma RevealAndCancelExact(env: Env, m: Market, id: Hash, opening: Reveal, requester: Address)
    ensures var r, listed := CheckReveal(env, m, id, opening), id in m.problems;
            var hidden := listed && m.problems[id].mode.Private?;
            && (r.Ok? <==> Opens(env, m, DoReveal(id, opening), id))
            && (r == Err(ProblemNotFound) <==> !listed)
            && (r == Err(NotPrivateSubmission) <==> listed && !hidden)
            && (r == Err(RevealMismatch) <==> hidden && !Opens(env, m, DoReveal(id, opening), id))
    ensures var r, listed := CancelResult(m, id, requester), id in m.problems;
            var own, open := listed && m.problems[id].submitter == requester, listed && m.problems[id].status == Open;
            && (r.Ok? <==> own && open && id in m.escrow)
            && (r == Err(ProblemNotFound) <==> !listed)
            && (r == Err(Unauthorized) <==> listed && !own)
            && (r == Err(CannotCancel) <==> own && !open)
            && (r == Err(BountyNotFound) <==> own && open && id !in m.escrow)
  {
  }

  // ---------------------------------------------------------------- what was paid for

  function Bounties(m: Market): map<Hash, nat> {
    map id | id in m.problems :: m.problems[id].bounty
  }

  /** Problems paid out so far that were solved, or that were not. */
  ghost function PaidFor(m: Market, l: Ledger, solved: bool): set<Hash> {
    set id | id in l.paid && id in m.problems && (m.problems[id].status == Solved) == solved
  }

  ghost predicate PaidRight(m: Market, l: Ledger) {
    && l.claimed == SumOver(PaidFor(m, l, true), Bounties(m))
    && l.refunded == SumOver(PaidFor(m, l, false), Bounties(m))
  }

  /** Over every run, what was claimed is the bounties of the solved problems paid out, and what was
      refunded those of the cancelled and expired ones. */
  lemma {:induction false} LedgerMeaning(env: Env, ops: seq<Op>)
    ensures PaidRight(Run(env, ops).0, Run(env, ops).1)
  {
    if ops == [] {
      assert PaidFor(EMPTY, OPENING, true) == {} && PaidFor(EMPTY, OPENING, false) == {};
    } else {
      var before, op := ops[..|ops| - 1], ops[|ops| - 1];
      var (m, l) := Run(env, before);
      LedgerMeaning(env, before);
      EveryRunSound(env, before);
      StepPaysRight(env, m, op, l);
    }
  }

  lemma StepPaysRight(env: Env, m: Market, op: Op, l: Ledger)
    requires Sound(env, m, l) && PaidRight(m, l)
    ensures PaidRight(Step(env, m, op), Record(env, m, op, l))
  {
    var t, n := Step(env, m, op), Record(env, m, op, l);
    assert n.claimed == SumOver(PaidFor(t, n, true), Bounties(t)) by { SideGrows(env, m, op, l, true); }
    assert n.refunded == SumOver(PaidFor(t, n, false), Bounties(t)) by { SideGrows(env, m, op, l, false); }
  }

  /** Each side grows by what the operation pays on it. */
  lemma SideGrows(env: Env, m: Market, op: Op, l: Ledger, solved: bool)
    requires Sound(env, m, l)
    ensures Pays(m, op) <= m.escrow.Keys
    ensures var t, n := Step(env, m, op), Record(env, m, op, l);
            SumOver(PaidFor(t, n, solved), Bounties(t)) ==
            SumOver(PaidFor(m, l, solved), Bounties(m))
            + if op.DoClaim? == solved then SumOver(Pays(m, op), m.escrow) else 0
  {
    var t := Step(env, m, op);
    var paid := if op.DoClaim? == solved then Pays(m, op) else {};
    PaysFromEscrow(m, op);
    PaidSets(env, m, op, l, solved);
    forall id | id in m.problems
      ensures id in t.problems && Bounties(t)[id] == Bounties(m)[id]
    {
      StepKeepsTerms(env, m, op, id);
    }
    PaidSum(m, t, PaidFor(m, l, solved), paid);
    SumAgree(Pays(m, op), m.escrow, Bounties(m));
  }

  /** Paying adds the problems paid to one of the two sets and leaves the other. */
  lemma PaidSets(env: Env, m: Market, op: Op, l: Ledger, solved: bool)
    requires Sound(env, m, l)
    ensures var paid := if op.DoClaim? == solved then Pays(m, op) else {};
            && PaidFor(Step(env, m, op), Record(env, m, op, l), solved) == PaidFor(m, l, solved) + paid
            && paid <= m.problems.Keys && paid !! PaidFor(m, l, solved)
  {
    var t, n := Step(env, m, op), Record(env, m, op, l);
    var was, now := PaidFor(m, l, solved), PaidFor(t, n, solved);
    var paid := if op.DoClaim? == solved then Pays(m, op) else {};
    PaysFromEscrow(m, op);
    forall id
      ensures id in now <==> id in was || id in paid
      ensures id in was ==> id !in paid
    {
      PaidMember(env, m, op, l, solved, id);
    }
    assert now == was + paid;
  }

  lemma PaidMember(env: Env, m: Market, op: Op, l: Ledger, solved: bool, id: Hash)
    requires Sound(env, m, l)
    ensures var paid := if op.DoClaim? == solved then Pays(m, op) else {};
            && (id in PaidFor(Step(env, m, op), Record(env, m, op, l), solved) <==> id in PaidFor(m, l, solved) || id in paid)
            && (id in PaidFor(m, l, solved) ==> id !in paid)
  {
    if id in l.paid {
      PaidStays(env, m, op, l, id);
    } else if id in Pays(m, op) {
      PayStatus(env, m, op, id);
    }
  }

  ghost predicate PaidBefore(env: Env, m: Market, op: Op, id: Hash) {
    && id in m.problems && id !in Pays(m, op)
    && id in Step(env, m, op).problems && Step(env, m, op).problems[id].status == m.problems[id].status
  }

  lemma PaidStays(env: Env, m: Market, op: Op, l: Ledger, id: Hash)
    requires Sound(env, m, l) && id in l.paid
    ensures PaidBefore(env, m, op, id)
  {
    PaysFromEscrow(m, op);
    assert id !in m.escrow;
    StepKeepsTerms(env, m, op, id);
    EndedStays(env, m, op, id);
  }

  lemma PayStatus(env: Env, m: Market, op: Op, id: Hash)
    requires id in Pays(m, op)
    ensures id in Step(env, m, op).problems
    ensures Step(env, m, op).problems[id].status == Solved <==> op.DoClaim?
  {
    PaysFromEscrow(m, op);
    StepKeepsTerms(env, m, op, id);
  }

  lemma PaidSum(m: Market, t: Market, sofar: set<Hash>, paid: set<Hash>)
    requires sofar <= m.problems.Keys && paid <= m.problems.Keys && sofar !! paid
    requires forall id :: id in m.problems ==> id in t.problems && Bounties(t)[id] == Bounties(m)[id]
    ensures sofar + paid <= Bounties(t).Keys
    ensures SumOver(sofar + paid, Bounties(t)) == SumOver(sofar, Bounties(m)) + SumOver(paid, Bounties(m))
  {
    SumSplit(sofar + paid, paid, Bounties(t));
    assert sofar + paid - paid == sofar;
    SumAgree(sofar, Bounties(t), Bounties(m));
    SumAgree(paid, Bounties(t), Bounties(m));
  }
}
