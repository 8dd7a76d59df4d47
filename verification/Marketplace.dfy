// The marketplace object (mempool/src/marketplace.rs): three maps updated in place.

module Marketplace {
  import opened Bytes
  import opened Lists
  import opened MapSum
  import opened MarketSpec
  import opened Problem

  class ProblemMarketplace {
    const env: Env
    var problems: map<Hash, Submission>
    var submitterIndex: map<Address, seq<Hash>>
    var escrow: map<Hash, nat>

    ghost function State(): Market
      reads this
    {
      Market(problems, submitterIndex, escrow)
    }

    constructor (env: Env)
      ensures this.env == env && State() == EMPTY
    {
      this.env := env;
      problems, submitterIndex, escrow := map[], map[], map[];
    }

    method SubmitProblem(q: Request, now: int) returns (r: Result<Hash>)
      modifies this
      ensures State() == Submit(env, old(State()), q, now)
      ensures r == Admit(env, old(State()), q)
    {
      if q.bounty == 0 {
        return Err(InvalidBounty);
      }
      if q.minWorkScore <= 0.0 {
        return Err(InvalidWorkScore);
      }
      if q.mode.Private? {
        if !q.mode.proofOk {
          return Err(InvalidProof);
        }
        if q.mode.complexity < q.minWorkScore {
          return Err(InvalidParameters);
        }
      }
      var id := if q.mode.Private? then Some(q.mode.commitment) else env.idOf(q.mode.problem);
      if id.None? {
        return Err(SerializationError);
      }
      if id.value in problems {
        return Err(DuplicateProblem);
      }
      var expiresAt := now + q.days * SECONDS_PER_DAY;
      var submission := Submission(id.value, q.mode, None, q.submitter, q.bounty, q.minWorkScore, now,
                                   expiresAt, Open, None, None);
      escrow := escrow[id.value := q.bounty];
      problems := problems[id.value := submission];
      var listed := if q.submitter in submitterIndex then submitterIndex[q.submitter] else [];
      submitterIndex := submitterIndex[q.submitter := listed + [id.value]];
      return Ok(id.value);
    }

    method SubmitSolution(id: Hash, solver: Address, solution: Solution, now: int) returns (r: Result<()>)
      modifies this
      ensures State() == Solve(env, old(State()), id, solver, solution, now)
      ensures r == Judge(env, old(State()), id, solution, now)
    {
      if id !in problems {
        return Err(ProblemNotFound);
      }
      var p := problems[id];
      if p.status != Open {
        return Err(ProblemNotOpen);
      }
      if now > p.expiresAt {
        problems := problems[id := p.(status := Expired)];
        return Err(ProblemExpired);
      }
      var problem := Visible(p);
      if problem.None? {
        return Err(ProblemNotRevealed);
      }
      var verified := Verify(solution, problem.value);
      if !verified {
        return Err(InvalidSolution);
      }
      var estimate := env.quality(solution, problem.value) * 100.0;
      if estimate < p.minWorkScore {
        return Err(InsufficientWorkScore);
      }
      problems := problems[id := p.(solution := Some(solution), solver := Some(solver), status := Solved)];
      return Ok(());
    }

    method PublishOpening(id: Hash, opening: Reveal) returns (r: Result<()>)
      modifies this
      ensures State() == RevealProblem(env, old(State()), id, opening)
      ensures r == CheckReveal(env, old(State()), id, opening)
    {
      if id !in problems {
        return Err(ProblemNotFound);
      }
      var p := problems[id];
      if p.mode.Public? {
        return Err(NotPrivateSubmission);
      }
      if env.commit(opening.problem, opening.salt) != p.mode.commitment {
        return Err(RevealMismatch);
      }
      problems := problems[id := p.(opening := Some(opening))];
      return Ok(());
    }

    method ClaimBounty(id: Hash) returns (r: Result<(Address, nat)>)
      modifies this
      ensures State() == Claim(old(State()), id) && r == ClaimResult(old(State()), id)
    {
      if id !in problems {
        return Err(ProblemNotFound);
      }
      var p := problems[id];
      if p.status != Solved {
        return Err(ProblemNotSolved);
      }
      if p.solver.None? {
        return Err(NoSolver);
      }
      if id !in escrow {
        return Err(BountyNotFound);
      }
      var bounty := escrow[id];
      escrow := escrow - {id};
      return Ok((p.solver.value, bounty));
    }

    method CancelProblem(id: Hash, requester: Address) returns (r: Result<nat>)
      modifies this
      ensures State() == Cancel(old(State()), id, requester) && r == CancelResult(old(State()), id, requester)
    {
      if id !in problems {
        return Err(ProblemNotFound);
      }
      var p := problems[id];
      if p.submitter != requester {
        return Err(Unauthorized);
      }
      if p.status != Open {
        return Err(CannotCancel);
      }
      if id !in escrow {
        return Err(BountyNotFound);
      }
      var bounty := escrow[id];
      escrow := escrow - {id};
      problems := problems[id := p.(status := Cancelled)];
      return Ok(bounty);
    }

    /** Visits the problems in any order, refunding and expiring the ripe ones. */
    method ExpireOldProblems(now: int) returns (refunds: seq<(Address, nat)>, ghost order: seq<Hash>)
      modifies this
      ensures State() == ExpireOld(old(State()), now)
      ensures IsRefund(old(State()), Ripe(old(State()), now), order, refunds)
    {
      ghost var m := State();
      var todo := problems.Keys;
      ghost var done: set<Hash> := {};
      refunds, order := [], [];
      while todo != {}
        invariant todo <= m.problems.Keys && done == m.problems.Keys - todo
        invariant problems == MarkExpired(m.problems, Ripe(m, now) * done)
        invariant escrow == m.escrow - (Ripe(m, now) * done)
        invariant submitterIndex == m.index
        invariant IsRefund(m, Ripe(m, now) * done, order, refunds)
        decreases todo
      {
        var id :| id in todo;
        var p := problems[id];
        assert p == m.problems[id];
        RipeGrows(m, now, done, id);
        if p.status == Open && now > p.expiresAt {
          if id in escrow {
            RefundGrows(m, Ripe(m, now) * done, order, refunds, id);
            refunds := refunds + [(p.submitter, escrow[id])];
            order := order + [id];
            escrow := escrow - {id};
            problems := problems[id := p.(status := Expired)];
          }
        }
        todo := todo - {id};
        done := done + {id};
      }
      assert Ripe(m, now) * done == Ripe(m, now);
    }

    method GetStats() returns (s: Stats)
      ensures Reports(State(), s)
    {
      ghost var m := State();
      var total := |problems|;
      var open, solved, expired, cancelled := 0, 0, 0, 0;
      var todo := problems.Keys;
      ghost var done: set<Hash> := {};
      while todo != {}
        invariant todo <= problems.Keys && done == problems.Keys - todo
        invariant open == |InClass(m, done, OpenClass)| && solved == |InClass(m, done, SolvedClass)|
        invariant expired == |InClass(m, done, ExpiredClass)| && cancelled == |InClass(m, done, CancelledClass)|
        decreases todo
      {
        var id :| id in todo;
        ClassTakes(m, done, id, OpenClass);
        ClassTakes(m, done, id, SolvedClass);
        ClassTakes(m, done, id, ExpiredClass);
        ClassTakes(m, done, id, CancelledClass);
        match problems[id].status {
          case Open => open := open + 1;
          case Solved => solved := solved + 1;
          case PendingVerification => solved := solved + 1;
          case Expired => expired := expired + 1;
          case Cancelled => cancelled := cancelled + 1;
        }
        todo := todo - {id};
        done := done + {id};
      }
      assert done == problems.Keys;
      var pool := TotalOf(escrow);
      s := Stats(total, open, solved, expired, cancelled, pool);
    }
  }

  /** Adds up a map's values in any order. */
  method TotalOf(m: map<Hash, nat>) returns (sum: nat)
    ensures sum == Total(m)
  {
    sum := 0;
    var todo := m.Keys;
    while todo != {}
      invariant todo <= m.Keys && sum + SumOver(todo, m) == Total(m)
      decreases todo
    {
      var k :| k in todo;
      SumTake(todo, m, k);
      sum := sum + m[k];
      todo := todo - {k};
    }
  }

  /** Refunds name each of the given problems once, with its submitter and its whole escrow. */
  ghost predicate IsRefund(m: Market, ids: set<Hash>, order: seq<Hash>, refunds: seq<(Address, nat)>) {
    && ids <= m.problems.Keys && ids <= m.escrow.Keys
    && Distinct(order) && |refunds| == |order|
    && (forall id :: id in order <==> id in ids)
    && (forall k :: 0 <= k < |order| ==>
          order[k] in ids && refunds[k] == (m.problems[order[k]].submitter, m.escrow[order[k]]))
  }

  lemma RipeGrows(m: Market, now: int, done: set<Hash>, id: Hash)
    ensures id in Ripe(m, now) ==> Ripe(m, now) * (done + {id}) == Ripe(m, now) * done + {id}
    ensures id !in Ripe(m, now) ==> Ripe(m, now) * (done + {id}) == Ripe(m, now) * done
  {
  }

  lemma RefundGrows(m: Market, ids: set<Hash>, order: seq<Hash>, refunds: seq<(Address, nat)>, id: Hash)
    requires IsRefund(m, ids, order, refunds) && id in m.problems && id in m.escrow && id !in ids
    ensures IsRefund(m, ids + {id}, order + [id], refunds + [(m.problems[id].submitter, m.escrow[id])])
  {
    var grown := order + [id];
    forall x
      ensures x in grown <==> x in ids + {id}
    {
      assert x in grown <==> x in order || x == id;
    }
  }

  function RefundTotal(refunds: seq<(Address, nat)>): nat {
    if refunds == [] then 0 else RefundTotal(refunds[..|refunds| - 1]) + refunds[|refunds| - 1].1
  }

  lemma RefundShrinks(m: Market, ids: set<Hash>, order: seq<Hash>, refunds: seq<(Address, nat)>)
    requires IsRefund(m, ids, order, refunds) && order != []
    ensures var n := |order| - 1;
            && order[n] in ids && refunds[n].1 == m.escrow[order[n]]
            && IsRefund(m, ids - {order[n]}, order[..n], refunds[..n])
  {
    var n := |order| - 1;
    var id, front := order[n], order[..n];
    assert order == front + [id];
    forall x
      ensures x in front <==> x in ids - {id}
    {
      assert x in order <==> x in front || x == id;
    }
  }

  /** The refunds handed back add up to the escrow of the problems refunded. */
  lemma {:induction false} RefundsAddUp(m: Market, ids: set<Hash>, order: seq<Hash>, refunds: seq<(Address, nat)>)
    requires IsRefund(m, ids, order, refunds)
    ensures RefundTotal(refunds) == SumOver(ids, m.escrow)
    decreases |order|
  {
    if order == [] {
      assert ids == {};
    } else {
      var n := |order| - 1;
      var id, front := order[n], order[..n];
      RefundShrinks(m, ids, order, refunds);
      SumTake(ids, m.escrow, id);
      RefundsAddUp(m, ids - {id}, front, refunds[..n]);
    }
  }
}
