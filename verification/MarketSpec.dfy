// The escrow marketplace (mempool/src/marketplace.rs) as a state machine over its three maps, with
// a ledger of what was accepted and paid. Hashing, commitments and the quality estimate are
// parameters; the clock is an argument of the operations that read it.

module MarketSpec {
  import opened Bytes
  import opened Lists
  import opened MapSum
  import opened Problem

  type Address = Hash

  /** Outside functions: problem hash (none if serialization fails), commitment, quality estimate. */
  datatype Env = Env(
    idOf: ProblemType -> Option<Hash>,
    commit: (ProblemType, seq<byte>) -> Hash,
    quality: (Solution, ProblemType) -> real)

  /** `proofOk` is the verdict of the well-formedness proof against commitment and parameters. */
  datatype Mode =
    | Public(problem: ProblemType)
    | Private(commitment: Hash, proofOk: bool, complexity: real)

  datatype Reveal = Reveal(problem: ProblemType, salt: seq<byte>)

  datatype Status = Open | PendingVerification | Solved | Expired | Cancelled

  datatype Submission = Submission(
    problemId: Hash, mode: Mode, opening: Option<Reveal>, submitter: Address, bounty: nat,
    minWorkScore: real, submittedAt: int, expiresAt: int, status: Status,
    solution: Option<Solution>, solver: Option<Address>)

  datatype Market = Market(
    problems: map<Hash, Submission>, index: map<Address, seq<Hash>>, escrow: map<Hash, nat>)

  datatype Error =
    | InvalidBounty | InvalidWorkScore | DuplicateProblem | ProblemNotFound | ProblemNotOpen
    | ProblemExpired | InvalidSolution | InsufficientWorkScore | ProblemNotSolved | NoSolver
    | BountyNotFound | Unauthorized | CannotCancel | SerializationError | InvalidProof
    | InvalidParameters | ProblemNotRevealed | RevealMismatch | NotPrivateSubmission

  datatype Result<+T> = Ok(value: T) | Err(error: Error)

  const EMPTY: Market := Market(map[], map[], map[])

  const SECONDS_PER_DAY: int := 86400

  // ---------------------------------------------------------------- operations

  datatype Request = Request(mode: Mode, submitter: Address, bounty: nat, minWorkScore: real, days: nat)

  /** The identifier a request gets, or why it is refused; checks in the source's order. */
  function Admit(env: Env, m: Market, q: Request): Result<Hash> {
    if q.bounty == 0 then Err(InvalidBounty)
    else if q.minWorkScore <= 0.0 then Err(InvalidWorkScore)
    else if q.mode.Private? && !q.mode.proofOk then Err(InvalidProof)
    else if q.mode.Private? && q.mode.complexity < q.minWorkScore then Err(InvalidParameters)
    else
      var id := if q.mode.Private? then Some(q.mode.commitment) else env.idOf(q.mode.problem);
      if id.None? then Err(SerializationError)
      else if id.value in m.problems then Err(DuplicateProblem)
      else Ok(id.value)
  }

  function Listing(id: Hash, q: Request, now: int): Submission {
    Submission(id, q.mode, None, q.submitter, q.bounty, q.minWorkScore, now,
               now + q.days * SECONDS_PER_DAY, Open, None, None)
  }

  function Listed(m: Market, submitter: Address): seq<Hash> {
    if submitter in m.index then m.index[submitter] else []
  }

  function Submit(env: Env, m: Market, q: Request, now: int): Market {
    match Admit(env, m, q)
    case Err(_) => m
    case Ok(id) =>
      Market(m.problems[id := Listing(id, q, now)],
             m.index[q.submitter := Listed(m, q.submitter) + [id]],
             m.escrow[id := q.bounty])
  }

  /** The problem a solution is checked against, once it is public. */
  function Visible(p: Submission): Option<ProblemType> {
    match p.mode
    case Public(problem) => Some(problem)
    case Private(_, _, _) => if p.opening.Some? then Some(p.opening.value.problem) else None
  }

  function Judge(env: Env, m: Market, id: Hash, solution: Solution, now: int): Result<()> {
    if id !in m.problems then Err(ProblemNotFound)
    else
      var p := m.problems[id];
      if p.status != Open then Err(ProblemNotOpen)
      else if now > p.expiresAt then Err(ProblemExpired)
      else
        match Visible(p)
        case None => Err(ProblemNotRevealed)
        case Some(problem) =>
          if !Verifies(solution, problem) then Err(InvalidSolution)
          else if env.quality(solution, problem) * 100.0 < p.minWorkScore then Err(InsufficientWorkScore)
          else Ok(())
  }

  /** A late submission is refused but marks the problem expired. */
  function Solve(env: Env, m: Market, id: Hash, solver: Address, solution: Solution, now: int): Market {
    match Judge(env, m, id, solution, now)
    case Ok(_) =>
      m.(problems := m.problems[id := m.problems[id].(
           solution := Some(solution), solver := Some(solver), status := Solved)])
    case Err(e) =>
      if e.ProblemExpired? then m.(problems := m.problems[id := m.problems[id].(status := Expired)]) else m
  }

  function CheckReveal(env: Env, m: Market, id: Hash, opening: Reveal): Result<()> {
    if id !in m.problems then Err(ProblemNotFound)
    else
      match m.problems[id].mode
      case Public(_) => Err(NotPrivateSubmission)
      case Private(commitment, _, _) =>
        if env.commit(opening.problem, opening.salt) != commitment then Err(RevealMismatch) else Ok(())
  }

  function RevealProblem(env: Env, m: Market, id: Hash, opening: Reveal): Market {
    if CheckReveal(env, m, id, opening).Ok?
    then m.(problems := m.problems[id := m.problems[id].(opening := Some(opening))])
    else m
  }

  function ClaimResult(m: Market, id: Hash): Result<(Address, nat)> {
    if id !in m.problems then Err(ProblemNotFound)
    else if m.problems[id].status != Solved then Err(ProblemNotSolved)
    else if m.problems[id].solver.None? then Err(NoSolver)
    else if id !in m.escrow then Err(BountyNotFound)
    else Ok((m.problems[id].solver.value, m.escrow[id]))
  }

  function Claim(m: Market, id: Hash): Market {
    if ClaimResult(m, id).Ok? then m.(escrow := m.escrow - {id}) else m
  }

  function CancelResult(m: Market, id: Hash, requester: Address): Result<nat> {
    if id !in m.problems then Err(ProblemNotFound)
    else if m.problems[id].submitter != requester then Err(Unauthorized)
    else if m.problems[id].status != Open then Err(CannotCancel)
    else if id !in m.escrow then Err(BountyNotFound)
    else Ok(m.escrow[id])
  }

  function Cancel(m: Market, id: Hash, requester: Address): Market {
    if CancelResult(m, id, requester).Ok?
    then m.(problems := m.problems[id := m.problems[id].(status := Cancelled)], escrow := m.escrow - {id})
    else m
  }

  /** Open problems past their deadline with money in escrow. */
  function Ripe(m: Market, now: int): set<Hash> {
    set id | id in m.problems && m.problems[id].status == Open && now > m.problems[id].expiresAt && id in m.escrow
  }

  function MarkExpired(problems: map<Hash, Submission>, ids: set<Hash>): map<Hash, Submission> {
    map id | id in problems :: if id in ids then problems[id].(status := Expired) else problems[id]
  }

  function ExpireOld(m: Market, now: int): Market {
    m.(problems := MarkExpired(m.problems, Ripe(m, now)), escrow := m.escrow - Ripe(m, now))
  }

  // ---------------------------------------------------------------- runs and their ledger

  datatype Op =
    | DoSubmit(request: Request, now: int)
    | DoSolve(id: Hash, solver: Address, solution: Solution, now: int)
    | DoReveal(id: Hash, opening: Reveal)
    | DoClaim(id: Hash)
    | DoCancel(id: Hash, requester: Address)
    | DoExpire(now: int)

  function Step(env: Env, m: Market, op: Op): Market {
    match op
    case DoSubmit(q, now) => Submit(env, m, q, now)
    case DoSolve(id, solver, solution, now) => Solve(env, m, id, solver, solution, now)
    case DoReveal(id, opening) => RevealProblem(env, m, id, opening)
    case DoClaim(id) => Claim(m, id)
    case DoCancel(id, requester) => Cancel(m, id, requester)
    case DoExpire(now) => ExpireOld(m, now)
  }

  /** Problems whose bounty an operation hands out. */
  function Pays(m: Market, op: Op): set<Hash> {
    match op
    case DoClaim(id) => if ClaimResult(m, id).Ok? then {id} else {}
    case DoCancel(id, requester) => if CancelResult(m, id, requester).Ok? then {id} else {}
    case DoExpire(now) => Ripe(m, now)
    case _ => {}
  }

  lemma PaysFromEscrow(m: Market, op: Op)
    ensures Pays(m, op) <= m.escrow.Keys && Pays(m, op) <= m.problems.Keys
  {
  }

  /** Money accepted, claimed and refunded so far, and the problems already paid. */
  datatype Ledger = Ledger(accepted: nat, claimed: nat, refunded: nat, paid: set<Hash>)

  const OPENING: Ledger := Ledger(0, 0, 0, {})

  function AcceptedBy(env: Env, m: Market, op: Op): nat {
    if op.DoSubmit? && Admit(env, m, op.request).Ok? then op.request.bounty else 0
  }

  ghost function Record(env: Env, m: Market, op: Op, l: Ledger): Ledger {
    PaysFromEscrow(m, op);
    var amount := SumOver(Pays(m, op), m.escrow);
    Ledger(l.accepted + AcceptedBy(env, m, op),
           l.claimed + (if op.DoClaim? then amount else 0),
           l.refunded + (if op.DoClaim? then 0 else amount),
           l.paid + Pays(m, op))
  }

  ghost function Run(env: Env, ops: seq<Op>): (Market, Ledger) {
    if ops == [] then (EMPTY, OPENING)
    else
      var (m, l) := Run(env, ops[..|ops| - 1]);
      (Step(env, m, ops[|ops| - 1]), Record(env, m, ops[|ops| - 1], l))
  }

  // ---------------------------------------------------------------- what every run keeps

  /** The problem is the published one, or opens the commitment. */
  ghost predicate CommittedTo(env: Env, mode: Mode, problem: ProblemType) {
    match mode
    case Public(p) => problem == p
    case Private(commitment, _, _) => exists salt :: env.commit(problem, salt) == commitment
  }

  /** A listing's own consistency: identifier, opening, and a verified solution once solved. */
  ghost predicate SoundListing(env: Env, id: Hash, p: Submission) {
    && p.problemId == id
    && p.status != PendingVerification
    && (p.opening.Some? ==>
          p.mode.Private? && env.commit(p.opening.value.problem, p.opening.value.salt) == p.mode.commitment)
    && (p.status == Solved ==>
          && p.solver.Some? && p.solution.Some?
          && exists problem :: CommittedTo(env, p.mode, problem) && Verifies(p.solution.value, problem))
  }

  /** Escrow against status: open problems are funded, cancelled ones are not. */
  ghost predicate SoundEscrow(m: Market) {
    && (forall id :: id in m.escrow ==> id in m.problems && m.escrow[id] == m.problems[id].bounty)
    && (forall id :: id in m.problems && m.problems[id].status == Open ==> id in m.escrow)
    && (forall id :: id in m.problems && m.problems[id].status == Cancelled ==> id !in m.escrow)
  }

  /** Every problem is listed exactly once, under its submitter. */
  ghost predicate SoundIndex(m: Market) {
    && (forall a :: a in m.index ==> Distinct(m.index[a]))
    && (forall a, id :: a in m.index && id in m.index[a] ==> id in m.problems && m.problems[id].submitter == a)
    && (forall id :: id in m.problems ==>
          m.problems[id].submitter in m.index && id in m.index[m.problems[id].submitter])
  }

  /** Accepted money is in escrow, claimed or refunded; each problem is in escrow or paid, never both. */
  ghost predicate Balanced(m: Market, l: Ledger) {
    && l.accepted == Total(m.escrow) + l.claimed + l.refunded
    && l.paid !! m.escrow.Keys
    && m.problems.Keys == m.escrow.Keys + l.paid
  }

  ghost predicate Sound(env: Env, m: Market, l: Ledger) {
    && (forall id :: id in m.problems ==> SoundListing(env, id, m.problems[id]))
    && SoundEscrow(m)
    && SoundIndex(m)
    && Balanced(m, l)
  }

  // ---------------------------------------------------------------- each part, each step

  lemma StepKeepsListings(env: Env, m: Market, op: Op)
    requires forall id :: id in m.problems ==> SoundListing(env, id, m.problems[id])
    ensures forall id :: id in Step(env, m, op).problems ==> SoundListing(env, id, Step(env, m, op).problems[id])
  {
    var t := Step(env, m, op);
    forall id | id in t.problems
      ensures SoundListing(env, id, t.problems[id])
    {
      match op
      case DoSolve(target, _, solution, now) =>
        if target == id && Judge(env, m, id, solution, now).Ok? {
          var p := m.problems[id];
          var problem := Visible(p).value;
          assert SoundListing(env, id, p);
          if p.mode.Private? {
            assert env.commit(problem, p.opening.value.salt) == p.mode.commitment;
          }
          assert CommittedTo(env, t.problems[id].mode, problem) && Verifies(solution, problem);
        }
      case _ =>
    }
  }

  lemma StepKeepsEscrow(env: Env, m: Market, op: Op)
    requires SoundEscrow(m)
    ensures SoundEscrow(Step(env, m, op))
  {
  }

  /** Operations other than a submission neither add, remove nor reassign problems. */
  lemma OnlySubmitRelists(env: Env, m: Market, op: Op)
    requires op.DoSubmit? ==> Admit(env, m, op.request).Err?
    ensures var t := Step(env, m, op);
            && t.index == m.index && t.problems.Keys == m.problems.Keys
            && forall id :: id in m.problems ==> t.problems[id].submitter == m.problems[id].submitter
  {
  }

  lemma SameListing(m: Market, t: Market)
    requires SoundIndex(m) && t.index == m.index && t.problems.Keys == m.problems.Keys
    requires forall id :: id in m.problems ==> t.problems[id].submitter == m.problems[id].submitter
    ensures SoundIndex(t)
  {
  }

  lemma StepKeepsIndex(env: Env, m: Market, op: Op)
    requires SoundIndex(m)
    ensures SoundIndex(Step(env, m, op))
  {
    if op.DoSubmit? && Admit(env, m, op.request).Ok? {
      SubmitKeepsIndex(env, m, op.request, op.now);
    } else {
      OnlySubmitRelists(env, m, op);
      SameListing(m, Step(env, m, op));
    }
  }

  lemma SubmitKeepsIndex(env: Env, m: Market, q: Request, now: int)
    requires SoundIndex(m) && Admit(env, m, q).Ok?
    ensures SoundIndex(Submit(env, m, q, now))
  {
    var id := Admit(env, m, q).value;
    var t := Submit(env, m, q, now);
    var grown := Listed(m, q.submitter) + [id];
    assert t.index == m.index[q.submitter := grown] && t.problems == m.problems[id := Listing(id, q, now)];
    ListingGrows(m, q.submitter, id);
    forall a | a in t.index
      ensures Distinct(t.index[a])
      ensures forall x :: x in t.index[a] ==> x in t.problems && t.problems[x].submitter == a
    {
      if a != q.submitter { assert a in m.index; }
    }
    forall x | x in t.problems
      ensures t.problems[x].submitter in t.index && x in t.index[t.problems[x].submitter]
    {
      if x != id { assert x in m.index[m.problems[x].submitter]; }
    }
  }

  /** A new problem joins its submitter's list without disturbing it. */
  lemma ListingGrows(m: Market, a: Address, id: Hash)
    requires SoundIndex(m) && id !in m.problems
    ensures Distinct(Listed(m, a) + [id])
    ensures forall x :: x in Listed(m, a) + [id] <==> x in Listed(m, a) || x == id
    ensures forall x :: x in Listed(m, a) ==> x in m.problems && m.problems[x].submitter == a
  {
    var listed := Listed(m, a);
    assert id !in listed;
    assert (listed + [id])[|listed|] == id;
  }

  /** Every operation but a submission removes from escrow exactly what it pays. */
  lemma EscrowAfter(env: Env, m: Market, op: Op)
    requires !op.DoSubmit?
    ensures Step(env, m, op).escrow == m.escrow - Pays(m, op)
  {
  }

  lemma SubmitKeepsBalance(env: Env, m: Market, q: Request, now: int, l: Ledger)
    requires Balanced(m, l)
    ensures Balanced(Submit(env, m, q, now), Record(env, m, DoSubmit(q, now), l))
  {
    var op := DoSubmit(q, now);
    assert Pays(m, op) == {} && l.paid + {} == l.paid;
    if Admit(env, m, q).Ok? {
      TotalInsert(m.escrow, Admit(env, m, q).value, q.bounty);
    }
  }

  lemma StepKeepsBalance(env: Env, m: Market, op: Op, l: Ledger)
    requires SoundEscrow(m) && Balanced(m, l)
    ensures Balanced(Step(env, m, op), Record(env, m, op, l))
  {
    if op.DoSubmit? {
      SubmitKeepsBalance(env, m, op.request, op.now, l);
    } else {
      PaysFromEscrow(m, op);
      EscrowAfter(env, m, op);
      OnlySubmitRelists(env, m, op);
      TotalRemove(m.escrow, Pays(m, op));
      PaymentBalance(m, Step(env, m, op), Pays(m, op), l, Record(env, m, op, l));
    }
  }

  lemma PaymentBalance(m: Market, t: Market, part: set<Hash>, l: Ledger, n: Ledger)
    requires Balanced(m, l) && part <= m.escrow.Keys
    requires t.escrow == m.escrow - part && t.problems.Keys == m.problems.Keys
    requires n.accepted == l.accepted && n.paid == l.paid + part
    requires n.claimed + n.refunded == l.claimed + l.refunded + SumOver(part, m.escrow)
    requires Total(m.escrow) == Total(t.escrow) + SumOver(part, m.escrow)
    ensures Balanced(t, n)
  {
    assert t.escrow.Keys == m.escrow.Keys - part;
  }

  /** Over every run from the empty marketplace: money is conserved, listings, escrow and index agree. */
  lemma {:induction false} EveryRunSound(env: Env, ops: seq<Op>)
    ensures Sound(env, Run(env, ops).0, Run(env, ops).1)
  {
    if ops != [] {
      var before := ops[..|ops| - 1];
      EveryRunSound(env, before);
      var (m, l) := Run(env, before);
      var op := ops[|ops| - 1];
      StepKeepsListings(env, m, op);
      StepKeepsEscrow(env, m, op);
      StepKeepsIndex(env, m, op);
      StepKeepsBalance(env, m, op, l);
    }
  }

  /** A bounty leaves escrow at most once, in full, and only from an open or a solved problem. */
  lemma PaidOnce(env: Env, ops: seq<Op>, op: Op, id: Hash)
    requires id in Pays(Run(env, ops).0, op)
    ensures var (m, l) := Run(env, ops);
            && id in m.problems && id in m.escrow && m.escrow[id] == m.problems[id].bounty
            && id !in l.paid
            && id in Record(env, m, op, l).paid
            && m.problems[id].status == (if op.DoClaim? then Solved else Open)
            && id !in Step(env, m, op).escrow
  {
    EveryRunSound(env, ops);
    var (m, l) := Run(env, ops);
    PaysFromEscrow(m, op);
  }

  /** In a reachable state a solved problem can be claimed exactly when it was not paid yet, and the
      claim goes to the recorded solver with the whole bounty. */
  lemma ClaimSucceedsIff(env: Env, ops: seq<Op>, id: Hash)
    requires id in Run(env, ops).0.problems
    ensures var (m, l) := Run(env, ops);
            && (ClaimResult(m, id).Ok? <==> m.problems[id].status == Solved && id !in l.paid)
            && (ClaimResult(m, id).Ok? ==>
                  && m.problems[id].solver.Some?
                  && ClaimResult(m, id).value == (m.problems[id].solver.value, m.problems[id].bounty))
            && (ClaimResult(m, id) == Err(BountyNotFound) <==> m.problems[id].status == Solved && id in l.paid)
  {
    EveryRunSound(env, ops);
    var (m, l) := Run(env, ops);
    assert SoundListing(env, id, m.problems[id]);
  }

  // ---------------------------------------------------------------- money stranded by late submissions

  /** Expired, yet still in escrow. */
  predicate Stranded(m: Market, id: Hash) {
    id in m.problems && m.problems[id].status == Expired && id in m.escrow
  }

  /** Once the deadline of a reachable open problem has passed, expiry refunds it, and any submission
      strands it. */
  lemma PastDeadline(env: Env, ops: seq<Op>, id: Hash, solver: Address, solution: Solution, now: int)
    requires id in Run(env, ops).0.problems
    requires Run(env, ops).0.problems[id].status == Open && now > Run(env, ops).0.problems[id].expiresAt
    ensures id in Pays(Run(env, ops).0, DoExpire(now))
    ensures Stranded(Solve(env, Run(env, ops).0, id, solver, solution, now), id)
  {
    var m := Run(env, ops).0;
    assert id in m.escrow by { EveryRunSound(env, ops); }
    assert Judge(env, m, id, solution, now) == Err(ProblemExpired);
  }

  /** No operation ever pays out a stranded bounty, and it stays stranded. */
  lemma StrandedStays(env: Env, m: Market, op: Op, id: Hash)
    requires Stranded(m, id)
    ensures Stranded(Step(env, m, op), id) && id !in Pays(m, op)
    ensures Step(env, m, op).escrow[id] == m.escrow[id]
  {
  }

  ghost function Continue(env: Env, m: Market, ops: seq<Op>): Market {
    if ops == [] then m else Step(env, Continue(env, m, ops[..|ops| - 1]), ops[|ops| - 1])
  }

  /** Whatever happens later, the money stays inside escrow. */
  lemma {:induction false} StrandedForever(env: Env, m: Market, ops: seq<Op>, id: Hash)
    requires Stranded(m, id)
    ensures Stranded(Continue(env, m, ops), id) && Continue(env, m, ops).escrow[id] == m.escrow[id]
  {
    if ops != [] {
      StrandedForever(env, m, ops[..|ops| - 1], id);
      StrandedStays(env, Continue(env, m, ops[..|ops| - 1]), ops[|ops| - 1], id);
    }
  }

  /** A step strands a problem only by being a submission after its deadline. */
  lemma StrandedOnlyByLateSubmission(env: Env, m: Market, op: Op, id: Hash)
    requires SoundEscrow(m) && !Stranded(m, id) && Stranded(Step(env, m, op), id)
    ensures op.DoSolve? && op.id == id && id in m.problems
    ensures m.problems[id].status == Open && op.now > m.problems[id].expiresAt
  {
  }

  /** The i-th operation of a run submits to a problem that is open, after its deadline. */
  ghost predicate LateAt(env: Env, ops: seq<Op>, i: nat, id: Hash)
    requires i < |ops|
  {
    var m := Run(env, ops[..i]).0;
    && ops[i].DoSolve? && ops[i].id == id
    && id in m.problems && m.problems[id].status == Open && ops[i].now > m.problems[id].expiresAt
  }

  /** A bounty is stranded after a run if and only if somewhere in it the open problem was submitted
      to after its deadline. */
  lemma StrandedIff(env: Env, ops: seq<Op>, id: Hash)
    ensures Stranded(Run(env, ops).0, id) <==> exists i :: 0 <= i < |ops| && LateAt(env, ops, i, id)
  {
    ghost var late := seq(|ops|, i requires 0 <= i < |ops| => LateAt(env, ops, i, id));
    ghost var stranded := seq(|ops| + 1, i requires 0 <= i <= |ops| => StrandedAfter(env, ops, i, id));
    assert !stranded[0] by { assert ops[..0] == []; }
    forall n | 0 <= n < |ops|
      ensures stranded[n + 1] <==> stranded[n] || late[n]
    {
      LastStepStrands(env, ops, n, id);
    }
    Accumulates(late, stranded, |ops|);
    assert ops[..|ops|] == ops;
    assert forall i :: 0 <= i < |ops| ==> (late[i] <==> LateAt(env, ops, i, id));
  }

  /** What turns on with an event and never off again is on exactly when an event happened. */
  lemma {:induction false} Accumulates(event: seq<bool>, on: seq<bool>, n: nat)
    requires n <= |event| && |on| == |event| + 1 && !on[0]
    requires forall k :: 0 <= k < |event| ==> (on[k + 1] <==> on[k] || event[k])
    ensures on[n] <==> exists i :: 0 <= i < n && event[i]
  {
    if n > 0 { Accumulates(event, on, n - 1); }
  }

  ghost predicate StrandedAfter(env: Env, ops: seq<Op>, n: nat, id: Hash)
    requires n <= |ops|
  {
    Stranded(Run(env, ops[..n]).0, id)
  }

  lemma LastStepStrands(env: Env, ops: seq<Op>, n: nat, id: Hash)
    requires n < |ops|
    ensures StrandedAfter(env, ops, n + 1, id) <==> StrandedAfter(env, ops, n, id) || LateAt(env, ops, n, id)
  {
    var m, op := Run(env, ops[..n]).0, ops[n];
    assert ops[..n + 1][..n] == ops[..n];
    EveryRunSound(env, ops[..n]);
    if Stranded(m, id) {
      StrandedStays(env, m, op, id);
    } else if Stranded(Step(env, m, op), id) {
      StrandedOnlyByLateSubmission(env, m, op, id);
    } else if LateAt(env, ops, n, id) {
      PastDeadline(env, ops[..n], id, op.solver, op.solution, op.now);
      assert false;
    }
  }

  // ---------------------------------------------------------------- statistics

  datatype Stats = Stats(total: nat, open: nat, solved: nat, expired: nat, cancelled: nat, pool: nat)

  /** Where a problem is counted: a solution pending verification counts as solved. */
  datatype Class = OpenClass | SolvedClass | ExpiredClass | CancelledClass

  function ClassOf(s: Status): Class {
    match s
    case Open => OpenClass
    case Solved => SolvedClass
    case PendingVerification => SolvedClass
    case Expired => ExpiredClass
    case Cancelled => CancelledClass
  }

  ghost function InClass(m: Market, keys: set<Hash>, c: Class): set<Hash> {
    set id | id in keys && id in m.problems && ClassOf(m.problems[id].status) == c
  }

  ghost predicate Reports(m: Market, s: Stats) {
    && s.total == |m.problems|
    && s.open == |InClass(m, m.problems.Keys, OpenClass)|
    && s.solved == |InClass(m, m.problems.Keys, SolvedClass)|
    && s.expired == |InClass(m, m.problems.Keys, ExpiredClass)|
    && s.cancelled == |InClass(m, m.problems.Keys, CancelledClass)|
    && s.pool == Total(m.escrow)
  }

  /** Reported statistics of a reachable state add up: the classes partition the problems, and the
      pool is what was accepted and not yet paid. */
  lemma StatsAddUp(env: Env, ops: seq<Op>, s: Stats)
    ensures var (m, l) := Run(env, ops);
            Reports(m, s) ==>
              && s.open + s.solved + s.expired + s.cancelled == s.total
              && s.pool == l.accepted - l.claimed - l.refunded
  {
    var (m, l) := Run(env, ops);
    assert Balanced(m, l) by { EveryRunSound(env, ops); }
    if Reports(m, s) { StatsOfBalanced(m, l, s); }
  }

  lemma StatsOfBalanced(m: Market, l: Ledger, s: Stats)
    requires Balanced(m, l) && Reports(m, s)
    ensures s.open + s.solved + s.expired + s.cancelled == s.total
    ensures s.pool == l.accepted - l.claimed - l.refunded
  {
    ClassesPartition(m, m.problems.Keys);
  }

  /** Each class by its statuses: a solution pending verification counts as solved. */
  lemma StatsByStatus(m: Market, s: Stats)
    requires Reports(m, s)
    ensures s.open == |set id | id in m.problems && m.problems[id].status == Open|
    ensures s.solved == |set id | id in m.problems && m.problems[id].status in {Solved, PendingVerification}|
    ensures s.expired == |set id | id in m.problems && m.problems[id].status == Expired|
    ensures s.cancelled == |set id | id in m.problems && m.problems[id].status == Cancelled|
  {
    assert InClass(m, m.problems.Keys, OpenClass) == set id | id in m.problems && m.problems[id].status == Open;
    assert InClass(m, m.problems.Keys, SolvedClass)
        == set id | id in m.problems && m.problems[id].status in {Solved, PendingVerification};
    assert InClass(m, m.problems.Keys, ExpiredClass) == set id | id in m.problems && m.problems[id].status == Expired;
    assert InClass(m, m.problems.Keys, CancelledClass) == set id | id in m.problems && m.problems[id].status == Cancelled;
  }

  /** Counting one more problem adds one to its class and to no other. */
  lemma ClassTakes(m: Market, keys: set<Hash>, id: Hash, c: Class)
    requires id in m.problems && id !in keys
    ensures |InClass(m, keys + {id}, c)| ==
            |InClass(m, keys, c)| + if ClassOf(m.problems[id].status) == c then 1 else 0
  {
    if ClassOf(m.problems[id].status) == c {
      assert InClass(m, keys + {id}, c) == InClass(m, keys, c) + {id};
    } else {
      assert InClass(m, keys + {id}, c) == InClass(m, keys, c);
    }
  }

  lemma {:induction false} ClassesPartition(m: Market, keys: set<Hash>)
    requires keys <= m.problems.Keys
    ensures |keys| == |InClass(m, keys, OpenClass)| + |InClass(m, keys, SolvedClass)|
                      + |InClass(m, keys, ExpiredClass)| + |InClass(m, keys, CancelledClass)|
    decreases |keys|
  {
    if keys == {} {
      forall c: Class ensures InClass(m, keys, c) == {} {}
    } else {
      var id :| id in keys;
      var rest := keys - {id};
      assert keys == rest + {id};
      ClassesPartition(m, rest);
      ClassTakes(m, rest, id, OpenClass);
      ClassTakes(m, rest, id, SolvedClass);
      ClassTakes(m, rest, id, ExpiredClass);
      ClassTakes(m, rest, id, CancelledClass);
    }
  }
}
