# COINjecture verification project

A Dafny model of the self-contained logic of the COINjecture proof-of-useful-work chain, with proofs.
`dafny verify dfyconfig.toml` checks everything.

| file | what it models |
|---|---|
| `Problem.dfy` | problem instances, solutions, the polynomial verifier, the nearest-neighbour baseline, quality |
| `SubsetSum.dfy`, `Sampling.dfy` | the three exact subset-sum algorithms, the dispatcher, generated instances; what random draws can and cannot decide |
| `Sat.dfy` | bit-enumeration and backtracking SAT solvers over one shared assignment |
| `Tsp.dfy` | nearest-neighbour seed and in-place 2-opt |
| `FixedPoint.dfy`, `LogError.dfy`, `WorkScore.dfy` | Newton square root, `log2_ratio` and its exact error, the work score of a block and of a chain |
| `Difficulty.dfy` | the difficulty controller as a class and as a state machine over its events |
| `Bytes.dfy`, `StoreCodec.dfy`, `StoreSpec.dfy` | the append-only store: byte codecs, files and indices, put / get / open |
| `Sessions.dfy`, `Compaction.dfy`, `Database.dfy` | whole sessions with prunes, syncs and reopens; compaction; the database object |
| `Merkle.dfy`, `MerkleTrees.dfy`, `MerkleShape.dfy` | standard, golden and golden-ordered Merkle roots, with collision extraction for lists of one length and of different ones; the same roots formed from the top, bytes written out |
| `MarketSpec.dfy`, `Marketplace.dfy`, `MarketHistory.dfy`, `MapSum.dfy` | the escrow marketplace, its ledger, and which operation of a run made each record |
| `FeeMarket.dfy` | the base-fee controller |
| `Arith.dfy`, `Lists.dfy` | powers, shifts, products; stable sort, reversal, permutations |

How the model reads the source:

- A solver's clock is an arbitrary oracle `expired: nat -> bool`, one answer per deadline check. Soundness
  holds whatever it answers; completeness is stated for an oracle that never fires.
- Objects that the source mutates are classes. Each method's postcondition equates the new state with a
  specification function of the old one; invariants and whole-run theorems are proved about those functions.
- Hash functions, commitments, the golden key stream, random draws, the variance test and the
  marketplace clock are parameters.
- Release builds wrap on overflow. Where the source itself saturates or truncates (saturating sums and
  products, the 32-bit size field, 64-bit sort keys, truncating fee division) the model writes it out.

Where the source does less than its comments say, the model follows the code and states the exact condition:

- The subset-sum dispatcher decides every target of a list, whatever sampling draws, exactly when no entry is
  negative and no target falls through to sampling. Some draws let it do so exactly when no entry is negative and,
  where sampling is reached, at most 50,000 sums are reachable; with more, every run of draws leaves a solvable
  target unanswered. With a negative entry the table solver can even return an answer that fails verification: its
  walk collects from every reachable cell exactly when no sum is first reached by a number greater than itself.
- The subset-sum verifier accepts repeated indices: it accepts just the solvable targets of a list exactly when
  all entries are zero.
- Whatever draws the seeds lead to, mining solves all generated subset-sum instances of a size exactly up to 200,
  while ten fast blocks take the controller to 220.
- 2-opt prices every exchange correctly exactly when distances agree in both directions away from city 0.
- Solver and verifier read a literal alike exactly when it is positive or the negation of a declared variable.
- The asymmetry gate saturates at `u64::MAX`; what slips through below the documented factor of two is exactly
  that solve time against a longer half, where the ratio scaled by the quality is worth a unit.
- The logarithm's documented error below 0.086 bits is exceeded where the ratio lies between 1.428398 and 1.45709
  times a power of two, and met below 1.428098 and above 1.457389; it never exceeds 0.086074.
- A stored value reads back whole exactly when it is shorter than 4 GiB (the documented 1 GiB limit is not
  enforced).
- Without syncing on write, a reopened store counts from its last sync while its indices hold everything on file.
- Pruning is in memory only, so a hash can be stored again and a reopen brings back what was pruned. A reopen
  restores memory exactly when every accepted item, all-zero hashes aside, is still indexed and no all-zero hash
  is; it serves every height with an entry of that height exactly when the last hash at each height was last
  stored there.
- Pruned entries are documented to become unreadable by hash and by height. By height pruning does just that
  exactly when no readable height kept depends on one dropped. By hash it does exactly when the entries between the
  bounds are just those served there: a first value stored at a height stays readable after a second one took its
  place, and is lost by compaction.
- Compaction keeps every height exactly when no hash is served at two, and every hash exactly when each is served
  at some height. Where hashes and heights go together one to one, pruning and compacting after any session do all
  they should.
- Above height 0 the latest hash is the one served at the latest height exactly when no second item came in at
  that height.
- Merkle roots bind lists of different lengths among values that cannot be taken for a node's input; two values
  and the one value equal to their node's input share a root.
- A submission to an open problem after its deadline, and nothing else, strands the bounty in escrow for good,
  although expiry is documented to refund it.
- Fuller blocks never lower the next fee exactly when the fee is not below the floor.

## Model

| member | source | states |
|---|---|---|
| Problem.NearestIsMinimal | core/src/problem.rs:47-60 | the scan returns the least-index unvisited city at minimal distance, and nothing exactly when no unvisited city is closer than u64::MAX |
| Problem.GreedyTourVisits | core/src/problem.rs:41-70 | greedy extension never repeats a city, keeps its prefix, and covers every city when all entries are below u64::MAX |
| Problem.GreedyTourSteps | core/src/problem.rs:41-70 | every city that greedy extension adds is the unvisited one nearest to the city before it, of equals the first, and it stops only when complete or when none is closer than u64::MAX |
| Problem.VerifyTour | core/src/problem.rs:108-125 | the scan over visited flags accepts exactly the lists that visit every city once |
| Problem.Verify | core/src/problem.rs:85-129 | the verifier accepts exactly: index sums equal to the target, full-length assignments satisfying every clause, and tours |
| Problem.BuildNearestNeighborTour | consensus/src/miner.rs:468-495 | the loop with its visited table builds, from city 0, the tour each of whose cities is the nearest unvisited one to the city before it, of equals the first, always closer than u64::MAX; it stops short only where no unvisited city is that close to the last one; the verifier measures against the same tour |
| Problem.NearestNeighborLength | core/src/problem.rs:41-70 | the baseline is the length of that tour, each city of which is nearest to the one before |
| Problem.QualityMeaning | core/src/problem.rs:133-157 | quality lies in [0, 1], is positive exactly for verified solutions and 1 for all of those but tours; for a tour quality times length is the baseline where that is positive and no longer, and quality is 1 exactly when the tour is no longer than max(baseline, 1) |
| SubsetSum.SolvableIsCanSum | consensus/src/miner.rs:139-163 | the subset recursion agrees with "some strictly increasing list of positions sums to the target" |
| SubsetSum.ReachIsCanSum | consensus/src/miner.rs:178-189 | for non-negative numbers the offset table is exactly subset reachability by prefix |
| SubsetSum.TracebackCollects | consensus/src/miner.rs:196-212 | the backward walk keeps its cell reachable and returns increasing positions with exactly the sum |
| SubsetSum.WalksCollectIff | consensus/src/miner.rs:196-212 | on any numbers, the walk collects its sum from every reachable cell if and only if no sum is first reached by a number greater than itself |
| SubsetSum.SolveTable | consensus/src/miner.rs:165-212 | the in-place table and walk compute that reachability and traceback on all inputs; on non-negative inputs they answer correctly if and only if a subset exists, and under that condition answers verify whatever the signs |
| SubsetSum.WalkBack | consensus/src/miner.rs:196-212 | the loop over the filled table yields the specified traceback |
| SubsetSum.NegativeEntryBreaksTraceback | consensus/src/miner.rs:196-212 | for [-2, 5] and target 3 the table says reachable, the condition fails, the walk returns the empty list, and the verifier rejects it |
| SubsetSum.FillLine | consensus/src/miner.rs:230-249 | after all items cell s is set exactly when a subset of the positive numbers sums to s; every link names the first item that reached its sum |
| SubsetSum.FollowLinks | consensus/src/miner.rs:256-262 | link indices strictly decrease, so the walk ends with distinct in-range positions summing to the target |
| SubsetSum.SolveLine | consensus/src/miner.rs:215-264 | on all integers: an answer if and only if 0 <= target <= total and a subset of the positive numbers sums to it; answers are correct; on non-negative inputs exact |
| SubsetSum.HalvesMeet | consensus/src/miner.rs:266-319 | every subset sum splits into a left mask sum and a right mask sum |
| SubsetSum.SumOfMask | consensus/src/miner.rs:277-287 | the bit loop yields the masked sum and rebuilds the mask itself |
| SubsetSum.BinarySearch | consensus/src/miner.rs:302-303 | finds a matching key in a sorted list whenever there is one |
| SubsetSum.HalfSums | consensus/src/miner.rs:275-290 | the sorted half list contains the sum of every mask, and nothing else |
| SubsetSum.SolveHalves | consensus/src/miner.rs:266-319 | meet-in-the-middle answers if and only if a subset exists, on all integers, and answers correctly |
| SubsetSum.SolveSampling | consensus/src/miner.rs:321-346 | the random search answers if and only if one of its 50,000 draws hits the target, with a duplicate-free subset |
| SubsetSum.SolveSubsetSum | consensus/src/miner.rs:139-163 | dispatcher: answers exactly where its route does, sampling included; exact on non-negative numbers off the sampling route; answers verify on non-negative numbers and, off the table route, on all |
| SubsetSum.RouteLimits | consensus/src/miner.rs:139-163 | each solver gets exactly the positive targets up to the total within its limit and beyond those before it: 8,000,000 cells, a total of 200,000, 44 numbers; sampling gets the rest |
| SubsetSum.DecidesIff | consensus/src/miner.rs:139-163 | all targets of a list are decided correctly under every run of draws if and only if no entry is negative and no target is sampled |
| Sampling.DecidableByLuckIff | consensus/src/miner.rs:321-346 | all are under some run of draws if and only if no entry is negative and a sampled list has at most 50,000 reachable sums |
| Sampling.UndecidedTarget | consensus/src/miner.rs:321-346 | on a sampled list with more sums every run of draws leaves a solvable target without an answer |
| Sampling.HitsAreSolvable | consensus/src/miner.rs:321-346 | what a draw hits is solvable |
| SubsetSum.DistinctIsSolvable | core/src/problem.rs:85-90 | a verified list without repeats shows its instance solvable |
| SubsetSum.VerifiableIsSolvableIff | core/src/problem.rs:85-90 | the verifiable targets of a list are the solvable ones if and only if all entries are zero |
| SubsetSum.GeneratedIsSolvable | consensus/src/miner.rs:709-724 | the generator's target is reachable |
| SubsetSum.SamplingUnreachableIff | consensus/src/miner.rs:700-725 | no generated instance of size n reaches sampling if and only if n <= 200 |
| Sampling.GeneratedIsMissed | consensus/src/miner.rs:321-346 | for every size above 200, one list such that under every run of draws the generator can set a target on it that goes unanswered |
| Sampling.MinesAllIff | consensus/src/miner.rs:94-101 | with the draws that each list's seed leads to, whatever they are, all generated instances of size n get an answer if and only if n <= 200 |
| Sampling.ControllerOutgrowsMiner | consensus/src/miner.rs:700-725 | some run of the controller asks for a size of which some generated instance goes unanswered, whatever the seeds lead to |
| SubsetSum.MineGenerated | consensus/src/miner.rs:94-101 | every generated instance with n <= 200 is solved, verified, and of quality 1 |
| Sat.SolverImpliesVerifier | consensus/src/miner.rs:371-381 | whatever the solvers accept the verifier accepts, on every formula |
| Sat.LiteralsReadAlike | core/src/problem.rs:96-105 | solver and verifier read a literal alike under all assignments if and only if it is positive or negates a declared variable |
| Sat.SafeFormulaSameQuestion | core/src/problem.rs:91-107 | on formulas of such literals, satisfiable for the solvers if and only if verifiable |
| Sat.UnsafeLiteralSeparates | core/src/problem.rs:98-104 | any other literal, alone in a clause, verifies under every assignment and is unsatisfiable for the solvers |
| Sat.SolveBruteForce | consensus/src/miner.rs:349-389 | returns the first satisfying assignment in counting order: any other one is true at the highest variable on which they differ; without a fired deadline and up to 32 variables, answers if and only if satisfiable |
| Sat.Dpll | consensus/src/miner.rs:403-458 | true: the array satisfies the formula and keeps the decided prefix; false: the array is restored, and without a fired deadline no completion of the prefix satisfies the formula |
| Sat.SolveWithTimeout | consensus/src/miner.rs:392-465 | backtracking answers if and only if satisfiable when the deadline does not fire; answers verify always |
| Sat.SolveSat | consensus/src/miner.rs:102-121 | both solvers behind the size switch decide the same question, which on safe formulas is the verifier's |
| Tsp.TourIsPath | core/src/problem.rs:30-38 | the modular sum of legs is the length of the closed path |
| Tsp.ExchangeLengths | consensus/src/miner.rs:507-517 | an exchange changes the length by after - before plus what walking the inner stretch backwards changes |
| Tsp.ExchangeDelta | consensus/src/miner.rs:507-517 | with distances symmetric away from the start, every exchange changes the length by exactly after - before |
| Tsp.DeltaExactIff | consensus/src/miner.rs:507-517 | that holds for every tour from city 0 and every pair if and only if the distances are symmetric away from city 0 |
| Tsp.ReversedIsTour | consensus/src/miner.rs:516-516 | reversing a stretch after the first city keeps a tour with the same start |
| Tsp.TwoOptimalMeaning | consensus/src/miner.rs:497-524 | no pair gains if and only if no reversal of an inner stretch shortens the tour |
| Tsp.ReverseSlice | consensus/src/miner.rs:516-516 | the in-place reversal reverses exactly the slice |
| Tsp.TryExchange | consensus/src/miner.rs:507-518 | exchanges exactly when it gains; the tour stays a tour and, where priced right, gets strictly shorter |
| Tsp.Pass | consensus/src/miner.rs:502-520 | one pass of the double loop: strict progress, or a locally optimal tour, or a fired deadline |
| Tsp.TwoOpt | consensus/src/miner.rs:497-524 | terminates with tour length as measure; always a tour from the same city; never longer; locally optimal unless the deadline fired |
| Tsp.SolveTsp | consensus/src/miner.rs:527-546 | answers exactly when there are cities and the seed is complete; the answer verifies and, with symmetry away from city 0, has quality exactly 1 |
| Tsp.LegsBounded | consensus/src/miner.rs:785-794 | with entries at most m, k legs sum to at most k * m, which bounds the machine width needed |
| FixedPoint.NewtonStaysAbove | core/src/fixed_point.rs:75-80 | a Newton step from any positive x stays at or above the root |
| FixedPoint.Isqrt | core/src/fixed_point.rs:71-82 | for every 128-bit n the loop ends, without overflow, with the floor square root |
| FixedPoint.Log2Ratio | core/src/fixed_point.rs:137-170 | a score exists if and only if 0 < denominator < numerator: the two later empty answers never occur |
| FixedPoint.Log2RatioMono | core/src/fixed_point.rs:137-170 | monotone in the numerator |
| FixedPoint.Log2RatioAntitone | core/src/fixed_point.rs:137-170 | antitone in the denominator |
| FixedPoint.Log2RatioDouble | core/src/fixed_point.rs:137-170 | doubling the numerator adds exactly SCALE |
| FixedPoint.Log2RatioOneBit | core/src/fixed_point.rs:137-170 | at least SCALE if and only if the numerator is at least twice the denominator |
| FixedPoint.Interpolation | core/src/fixed_point.rs:165-167 | (S + f)^S >= 2^f * S^S for 0 <= f <= S: linear interpolation stays below the logarithm |
| FixedPoint.Log2RatioNeverOverstates | core/src/fixed_point.rs:137-170 | 2^score * d^SCALE <= n^SCALE |
| FixedPoint.Log2RatioWholeBits | core/src/fixed_point.rs:152-156 | n < 2^(score / SCALE + 1) * d |
| FixedPoint.RisesTo | core/src/fixed_point.rs:165-167 | the growth of (S + f)^S per step only falls: where a step doubles it, every earlier step did |
| LogError.TenthPower | core/src/fixed_point.rs:165-167 | a bound on a large power, certified in exact arithmetic on few digits |
| LogError.DoublesIff | core/src/fixed_point.rs:165-167 | the interpolation error grows up to the fraction 0.442695 and falls from there on |
| LogError.InterpolationError | core/src/fixed_point.rs:165-167 | interpolation is off by at most 0.086072 bits everywhere; below 0.086 up to fraction 0.428099 and from 0.457390, at least 0.086 from 0.428397 to 0.457089 |
| LogError.FractionOfBase | core/src/fixed_point.rs:137-170 | whole bits and fraction of a score are those of n over its base d * 2^k, rounded down by less than two units |
| LogError.Log2RatioError | core/src/fixed_point.rs:131-132 | with x the greatest d * 2^k up to n: every score is at most 0.086074 bits short of the logarithm; the documented 0.086 holds for n below 1.428098 x and above 1.457389 x, and fails on all of 1.428398 x to 1.45709 x |
| LogError.WorstRatio | core/src/fixed_point.rs:131-132 | 1.442695 is scored at least 0.086072 bits short, within two millionths of the worst |
| FixedPoint.Log2RatioFits | core/src/fixed_point.rs:137-170 | scores of 64-bit inputs are below 64 * SCALE |
| FixedPoint.ApplyQualityMono | core/src/fixed_point.rs:184-192 | quality scaling is monotone in score and quality and never exceeds the score |
| FixedPoint.ApplyQualityExact | core/src/fixed_point.rs:184-192 | a quality up to 10,000 scales the score by that many ten-thousandths, rounded down |
| WorkScore.ScaledByQuality | consensus/src/work_score.rs:208-230 | the score is the full-quality score scaled by quality, which bounds it |
| WorkScore.ScoreMonotone | consensus/src/work_score.rs:208-230 | monotone in solve time and quality, antitone in verify time, through all gates |
| WorkScore.OneBitIff | consensus/src/work_score.rs:218-225 | at full quality at least one bit if and only if solve >= 2 * max(verify, 1) |
| WorkScore.GateLeakIff | consensus/src/work_score.rs:208-230 | a block below the documented factor of two scores, at any quality, if and only if its solve time is u64::MAX, twice its verify time exceeds that, and the fraction of the ratio scaled by the quality is worth a unit; at full quality, the ratio is at least 4294971591 / 2^32 |
| WorkScore.SaturatedGateAdmitsLess | consensus/src/work_score.rs:222-225 | such a block: u64::MAX against 2^63 scores less than one bit |
| WorkScore.BlockNeverOverstates | consensus/src/work_score.rs:52-57 | 2^score * verify^SCALE <= solve^SCALE for every block with a positive score |
| WorkScore.ChainNeverOverstates | consensus/src/work_score.rs:236-238 | 2^(chain security) times all verification work is at most all solving work |
| WorkScore.ChainWithin | consensus/src/work_score.rs:236-238 | nor understates full-quality work by more than 0.086074 bits a block |
| WorkScore.ChainSecurityAppend | core/src/fixed_point.rs:218-220 | chain security is additive over concatenation |
| WorkScore.WinnerWorkedLonger | consensus/src/work_score.rs:245-247 | at equal verify time and quality a fork's winner took strictly longer to solve |
| WorkScore.DoubleTimeWins | consensus/src/work_score.rs:245-247 | at equal verify time and full quality, a block solved in at least twice the time of a one-bit block wins, by at least one bit |
| WorkScore.ForkHasOneWinner | consensus/src/work_score.rs:245-247 | of two different scores exactly one wins, of equal ones none |
| Difficulty.NewSizeExact | consensus/src/difficulty.rs:279-286 | absent saturation the new size r has r^2 * avg <= size^2 * target < (r + 1)^2 * avg |
| Difficulty.NewSizeAntitone | consensus/src/difficulty.rs:279-286 | slower averages never ask for larger sizes |
| Difficulty.NewSizeIdentity | consensus/src/difficulty.rs:279-286 | an average at the target keeps the size |
| Difficulty.AverageExact | consensus/src/difficulty.rs:261-273 | the average a of n samples has a * n <= sum < (a + 1) * n, the sum capped at u64::MAX |
| Difficulty.WindowIsLatest | consensus/src/difficulty.rs:248-253 | after any run the window holds the latest 20 times recorded, in order |
| Difficulty.ProposalExact | consensus/src/difficulty.rs:326-350 | up to the target the size proposed is the root r with r^2 * avg <= size^2 * target < (r + 1)^2 * avg, at most doubled and 220; above it that r, 7/10 of it from three target times, 2/5 of it from six, each no lower than 2/5 of the size and 45; r is below the size exactly above the target |
| Difficulty.StalledIff | consensus/src/difficulty.rs:312-314 | a window stalls exactly from an average of 32.36068 seconds |
| Difficulty.RetuneExact | consensus/src/difficulty.rs:291-373 | outside recovery, short of a stall, a retune installs that size: strictly lower above the target unless at the minimum, never lower up to it; one stall is forgotten up to 15 seconds |
| Difficulty.RecoveryExact | consensus/src/difficulty.rs:634-644 | in recovery up to 12 seconds the size goes one past the proposal, and recovery ends on reaching its goal; above that it stays at the proposal |
| Difficulty.StallExact | consensus/src/difficulty.rs:312-322 | a stall cuts the size to 70 percent, at least 45, before any deferral, counts it, and sets recovery to the size found; what follows is proposed from the cut size |
| Difficulty.FailureExact | consensus/src/difficulty.rs:460-471 | a failure cuts the size to 90 percent, at least 45, counts it, and sets recovery to the size found |
| Difficulty.IdleRetune | consensus/src/difficulty.rs:291-323 | with fewer than ten samples, or deferred without a stall, a retune changes nothing |
| Difficulty.EveryRunOperational | consensus/src/difficulty.rs:248-373 | under any interleaving: size in [45, 220], at most 20 samples, stalls <= 20, size <= recovery target <= 220 |
| Difficulty.FastSamplesReachMaximum | consensus/src/difficulty.rs:248-373 | some run reaches the greatest size: one retune after ten fast samples |
| Difficulty.RecoveryOrigin | consensus/src/difficulty.rs:468-468 | a set recovery target is the size just before the first penalty still outstanding |
| Difficulty.CalmAdjust | consensus/src/difficulty.rs:634-644 | one adjustment at or below the target average climbs by at least one or ends recovery at the target |
| Difficulty.RecoveryEnds | consensus/src/difficulty.rs:325-373 | recovery ends within max(1, target - size) such adjustments, at exactly the target |
| Difficulty.DifficultyAdjuster.RecordSolveTimeUs | consensus/src/difficulty.rs:248-253 | appends a sample and drops the oldest beyond 20 |
| Difficulty.DifficultyAdjuster.MovingAverageUs | consensus/src/difficulty.rs:261-273 | saturating sum divided by count, the target for an empty window |
| Difficulty.DifficultyAdjuster.ComputeNewSizeDeterministic | consensus/src/difficulty.rs:279-286 | computes the specified root with the saturating product |
| Difficulty.DifficultyAdjuster.PenalizeFailure | consensus/src/difficulty.rs:460-471 | the 90 percent penalty step |
| Difficulty.DifficultyAdjuster.ApplyStallPenalty | consensus/src/difficulty.rs:653-667 | the 70 percent penalty step |
| Difficulty.DifficultyAdjuster.ApplyRecovery | consensus/src/difficulty.rs:634-651 | the recovery step |
| Difficulty.DifficultyAdjuster.AdjustDifficulty | consensus/src/difficulty.rs:291-373 | one retune is the specified step: stall penalty before deferral, resize, reduction, clamps, recovery |
| Bytes.LeRoundTrip | adzdb/src/lib.rs:146-164 | little-endian integers that fit survive encoding |
| Bytes.LeBytesDigit | adzdb/src/lib.rs:146-153 | byte i of the encoding is digit i of the number to base 256 |
| Bytes.LeBytesOrder | adzdb/src/lib.rs:146-164 | 0x04030201 is written 1, 2, 3, 4 and read back so |
| StoreCodec.EntryRoundTrip | adzdb/src/lib.rs:146-164 | decoding an encoded index entry gives it back |
| StoreCodec.EntryRoundTripBack | adzdb/src/lib.rs:146-164 | every 56-byte record is the encoding of the entry it decodes to |
| StoreCodec.HeightRoundTrip | adzdb/src/lib.rs:180-192 | the same for height entries |
| StoreCodec.HeightRoundTripBack | adzdb/src/lib.rs:180-192 | every 40-byte record is the encoding of the height entry it decodes to |
| StoreCodec.MetadataRoundTrip | adzdb/src/lib.rs:231-265 | metadata survives if and only if it has the magic bytes and a reasonable height |
| StoreCodec.EntryToBytes | adzdb/src/lib.rs:146-154 | filling the buffer produces the encoding |
| StoreCodec.HeightToBytes | adzdb/src/lib.rs:180-185 | filling the buffer produces the encoding |
| StoreCodec.MetadataToBytes | adzdb/src/lib.rs:231-241 | filling the buffer produces the encoding |
| StoreSpec.PutExtendsLog | adzdb/src/lib.rs:525-586 | an accepted put extends files, both indices and metadata by exactly its item; any other changes nothing |
| StoreSpec.RunHoldsKept | adzdb/src/lib.rs:525-586 | after any run of puts the store holds exactly the accepted items: files, both indices, counters, latest and genesis hash |
| StoreSpec.RecordLayout | adzdb/src/lib.rs:146-192 | record i of the index file is hash, offset, length mod 2^32, height and zero flags of item i, in 56 bytes; record i of the height file its height and hash, in 40 |
| StoreSpec.PutSyncs | adzdb/src/lib.rs:580-583 | a put rewrites the metadata file exactly when it is accepted and the store syncs on write |
| StoreSpec.OpenFails | adzdb/src/lib.rs:243-268 | opening fails as corrupt exactly on fewer than 96 metadata bytes or other magic bytes, and as too high exactly on a latest height above 10,000,000 |
| StoreSpec.LatestHashIff | adzdb/src/lib.rs:566-576 | the genesis hash is the one served at height 0; the latest hash the one served at the latest height if and only if no second item came in there, and all zero at height 0 |
| StoreSpec.StoredBytes | adzdb/src/lib.rs:546-600 | a stored hash reads back the first len mod 2^32 bytes, so its value if and only if it is shorter than 4 GiB |
| StoreSpec.FirstPutWins | adzdb/src/lib.rs:532-534 | the first accepted put of a hash decides what it returns after any further puts |
| StoreSpec.EntriesSpan | adzdb/src/lib.rs:536-549 | the first entry starts at 0 and the last ends at the data file's length |
| StoreSpec.EntriesTile | adzdb/src/lib.rs:536-549 | in between entries follow one another without gap or overlap |
| StoreSpec.OpenRebuilds | adzdb/src/lib.rs:482-522 | opening files that hold a log, repeated hashes or not, rebuilds the last entry of each hash and the last hash of each height, leaving out the all-zero hash |
| StoreSpec.ReopenExactIff | adzdb/src/lib.rs:482-522 | after a run of puts, reopening rebuilds memory exactly if and only if the all-zero hash is not stored |
| StoreSpec.RunReopens | adzdb/src/lib.rs:391-455 | the same after any run of puts on a syncing store |
| Sessions.EverySessionBacked | adzdb/src/lib.rs:391-749 | after any session of puts, prunes, syncs and reopens, the files hold all accepted items and memory a part of what they say, each hash with its last entry |
| Sessions.ReopenRebuilds | adzdb/src/lib.rs:391-522 | a reopen after any session succeeds and rebuilds the last entry of each hash and the last hash of each height |
| Sessions.SessionReads | adzdb/src/lib.rs:589-600 | a hash still indexed reads back the last value stored under it |
| Sessions.ReopenServes | adzdb/src/lib.rs:482-606 | after a reopen each height reads the last value stored under its last hash, at whatever height that was |
| Sessions.ReopenServedIff | adzdb/src/lib.rs:482-522 | a reopened store serves every height with an entry of that height if and only if the last hash at each height was last stored there |
| Sessions.SharedHashIsLost | adzdb/src/lib.rs:738-748 | otherwise pruning one of two heights with one last hash loses the other |
| Sessions.ReputBreaksReopen | adzdb/src/lib.rs:729-749 | a pruned hash stored again at height 7: the reopened store serves its value at height 1 too, and pruning before 3 loses height 7 |
| Sessions.EverySessionServed | adzdb/src/lib.rs:525-749 | a session whose reopens all meet that condition, such as one without reopens, always leads from a served height to an entry of that height inside the data file |
| Sessions.OneHeightPerHashServed | adzdb/src/lib.rs:525-749 | so does every session, with any prunes and reopens, in which each hash comes with one height |
| Sessions.ReopenRestoresIff | adzdb/src/lib.rs:482-522 | reopening restores memory exactly if and only if every accepted item, all-zero hashes aside, is indexed by hash and height, and no all-zero hash is |
| Sessions.EverySyncedSession | adzdb/src/lib.rs:525-659 | on a syncing store the counters of any session are those of all items accepted, and on file |
| Sessions.SessionReopensIff | adzdb/src/lib.rs:391-522 | the same exact condition after any session on a syncing store |
| Sessions.ReopenAtLastSync | adzdb/src/lib.rs:391-659 | on a store that does not sync on write, a reopen after any session succeeds with the counters of the last sync, or of creation |
| Sessions.PruneExactIff | adzdb/src/lib.rs:729-749 | on any store, pruning before k makes just the heights strictly between 0 and k unreadable if and only if no readable height kept depends on one dropped |
| Sessions.PruneGets | adzdb/src/lib.rs:725-749 | by hash, pruning hides exactly the hashes served at heights strictly between 0 and k |
| Sessions.PruneHashesIff | adzdb/src/lib.rs:725-749 | on any store, all entries between 0 and k become unreadable by hash, as documented, if and only if each is served at such a height; and no other does, if and only if no other is |
| Sessions.PruneEffect | adzdb/src/lib.rs:725-749 | where each served height leads to an entry of that height, pruning by height always does what it should and keeps it so, and by hash if and only if the entries between 0 and k are served at their heights; a reopen sees what it saw before |
| Sessions.FirstAtHeightStays | adzdb/src/lib.rs:725-749 | two values at height 5: pruning before 10 hides the second and leaves the first readable by hash |
| Sessions.RunShownIff | adzdb/src/lib.rs:525-586 | after a run of puts every hash is served at its height if and only if no two items share one |
| Sessions.EverySessionShown | adzdb/src/lib.rs:525-749 | with one hash per height it always is, through any puts, prunes, syncs and reopens |
| Sessions.ChainSessionPrunes | adzdb/src/lib.rs:725-749 | where hashes and heights go together one to one, every prune in a session makes exactly the entries between 0 and k unreadable by height and by hash |
| Compaction.CompactServes | adzdb/src/lib.rs:755-773 | by height, the compacted store serves each hash at the lowest height it was served at, with the same bytes, and nothing else |
| Compaction.CopyOutcome | adzdb/src/lib.rs:767-770 | copying a served height succeeds exactly when its hash reads back and the height is at most 10,000,000, is rejected exactly when only the height is at fault, and else fails with the read |
| Compaction.CompactExactIff | adzdb/src/lib.rs:755-773 | it answers every height with the same result if and only if no hash is served at two heights |
| Compaction.CompactGets | adzdb/src/lib.rs:755-773 | by hash, it reads exactly the hashes served at some height, with the same bytes |
| Compaction.CompactHashesIff | adzdb/src/lib.rs:755-773 | it answers every hash with the same result if and only if every indexed hash is served at some height |
| Compaction.ChainSessionCompacts | adzdb/src/lib.rs:755-773 | where hashes and heights go together one to one, compacting after any session keeps every read, by height and by hash |
| Compaction.ServedCompacts | adzdb/src/lib.rs:755-773 | a store whose heights lead to their own entries serves no hash at two heights, and every height it serves can be copied |
| Compaction.BackedCopies | adzdb/src/lib.rs:755-773 | after any session a served height can be copied if and only if its hash is still indexed |
| Compaction.CompactCounts | adzdb/src/lib.rs:755-773 | its entry count is the number of hashes served, its latest height the greatest it serves or 0 |
| Compaction.CompactReopens | adzdb/src/lib.rs:755-773 | it fits 64-bit offsets and reopens identically if and only if no served hash is all zero |
| Database.Database.Create | adzdb/src/lib.rs:289-388 | an empty store with its metadata written |
| Database.Database.ReadHashIndex | adzdb/src/lib.rs:482-501 | the record loop loads the specified map and ignores a partial tail |
| Database.Database.ReadHeightIndex | adzdb/src/lib.rs:503-522 | the same for heights |
| Database.Database.OpenFiles | adzdb/src/lib.rs:391-455 | metadata is checked first, then both indices are rebuilt |
| Database.Database.Sync | adzdb/src/lib.rs:647-659 | rewrites the metadata file |
| Database.Database.PutValue | adzdb/src/lib.rs:525-586 | put is the specified step, with its height error |
| Database.Database.GetValue | adzdb/src/lib.rs:589-600 | get is the specified read, with missing keys and short reads |
| Database.Database.GetValueByHeight | adzdb/src/lib.rs:603-606 | lookup by height |
| Database.Database.PruneBefore | adzdb/src/lib.rs:729-749 | on any store, removing hashes one by one, each with the height its entry names, is the specified prune and returns the number of doomed heights |
| Database.Database.CompactTo | adzdb/src/lib.rs:755-773 | on any store, succeeds if and only if every served height can be copied, leaving the replay of all served entries, lowest height first; else it fails at the lowest height that cannot: rejected exactly if it reads back and is above 10,000,000, else with the failed read |
| Merkle.NodeInputInjective | core/src/crypto.rs:190-200 | node inputs determine both children, at whatever levels |
| Merkle.LevelCollision | core/src/crypto.rs:123-136 | different levels with one next level yield two inputs with one hash |
| Merkle.RootCollision | core/src/crypto.rs:113-138 | different leaf lists of one length with one root yield a collision |
| Merkle.DataCollision | core/src/crypto.rs:107-211 | different values of one count with one root yield a collision, in standard and in golden trees |
| MerkleTrees.AnyLengthEvidence | core/src/crypto.rs:107-211 | different lists of any lengths with one root yield a collision or a value of one that an inner node of the other hashes |
| MerkleTrees.AnyLengthCollision | core/src/crypto.rs:107-211 | among values that no node can hash they yield a collision |
| MerkleTrees.PairAsValue | core/src/crypto.rs:107-211 | among others they need not: two values and the one value their node hashes have one root |
| MerkleTrees.EmptyRootIsZero | core/src/crypto.rs:113-116 | a list with the root of the empty list shows an input whose hash is all zero |
| MerkleShape.RootIsTopDown | core/src/crypto.rs:113-211 | the level-by-level root is formed from the top: of more than 2^k and at most 2^(k + 1) leaves, the first 2^k under the left child and the rest, lifted level by level, under the right |
| MerkleShape.RootOfTwoParts | core/src/crypto.rs:113-211 | the root of 2^k leaves followed by 1 to 2^k more hashes the root of the first on the left with the lifted root of the rest on the right |
| MerkleShape.StandardRoots | core/src/crypto.rs:113-138 | the standard roots of none, one, two and three values, bytes written out: left before right, a lone node hashed again |
| MerkleShape.GoldenRoots | core/src/crypto.rs:169-211 | the golden roots of one, two and three values: domain text, key and level bytes before left and right, a lone node passed up |
| Merkle.GoldenSortKeyInjective | core/src/golden.rs:194-200 | the wrapping golden multiplication is injective on 64-bit indices |
| Merkle.GoldenOrderIsPermutation | core/src/crypto.rs:229-237 | the leaf order is a permutation along which golden keys strictly increase, so ties never decide |
| Merkle.OrderedReadsThrough | core/src/crypto.rs:226-243 | the ordered list reads the original through a permutation that depends only on the count |
| Merkle.OrderedCollision | core/src/crypto.rs:226-243 | golden-ordered trees bind as well |
| Merkle.CalculateRoot | core/src/crypto.rs:113-138 | the level loops compute the specified standard root, whose bytes `MerkleShape` writes out |
| Merkle.CalculateRootWithGolden | core/src/crypto.rs:169-211 | the level loops compute the specified golden root, likewise |
| Merkle.NewWithGoldenOrdering | core/src/crypto.rs:226-243 | sorting tagged values, then the golden root |
| MarketSpec.EveryRunSound | mempool/src/marketplace.rs:124-427 | over every run: accepted = escrow + claimed + refunded; each problem in escrow or paid, never both; open means funded with its bounty; solved means solver and verified solution; each problem listed exactly once |
| MarketSpec.PaidOnce | mempool/src/marketplace.rs:324-427 | a bounty leaves at most once, in full, and only from an open or solved problem |
| MarketSpec.ClaimSucceedsIff | mempool/src/marketplace.rs:324-347 | a claim succeeds if and only if the problem is solved and unpaid, and pays the recorded solver the whole bounty |
| MarketSpec.PastDeadline | mempool/src/marketplace.rs:244-247 | after the deadline of an open problem expiry would refund it, and any submission strands it |
| MarketSpec.StrandedForever | mempool/src/marketplace.rs:414-415 | a stranded bounty stays in escrow whatever happens later |
| MarketSpec.StrandedOnlyByLateSubmission | mempool/src/marketplace.rs:244-247 | only a submission after the deadline strands a bounty |
| MarketSpec.StrandedIff | mempool/src/marketplace.rs:244-247 | after any run a bounty is stranded if and only if its open problem was submitted to after the deadline somewhere in it |
| MarketSpec.StatsAddUp | mempool/src/marketplace.rs:430-455 | reported classes add up to the total and the pool is accepted minus paid |
| MarketSpec.StatsByStatus | mempool/src/marketplace.rs:430-455 | each class counts the problems of its status, a pending verification as solved |
| MarketHistory.ListingOrigin | mempool/src/marketplace.rs:124-221 | every problem of a run was listed by one submission, made while its identifier was new, whose mode, submitter, bounty, threshold and deadline it still has |
| MarketHistory.EndOrigin | mempool/src/marketplace.rs:225-427 | every problem no longer open was ended by one operation: solved by the recorded solver with the recorded solution, in time, verified against the problem shown then and good enough; cancelled by its own submitter; or expired past its deadline |
| MarketHistory.OpenIff | mempool/src/marketplace.rs:225-427 | a listed problem is open after a run if and only if none of its operations solved, cancelled or expired it so |
| MarketHistory.OpeningOrigin | mempool/src/marketplace.rs:290-321 | the opening on record is the last one of the run that matched the commitment, if any did |
| MarketHistory.ClaimPaysSolver | mempool/src/marketplace.rs:324-347 | a claim pays the solver whose accepted submission ended the problem the bounty it was listed with |
| MarketHistory.CancelRefunds | mempool/src/marketplace.rs:350-384 | a cancellation succeeds exactly for the submitter of an open problem and refunds the bounty it was listed with |
| MarketHistory.ExpiryRefunds | mempool/src/marketplace.rs:408-427 | each refund of an expiry goes to the submitter of an open problem past its deadline, with the bounty it was listed with |
| MarketHistory.AdmitExact | mempool/src/marketplace.rs:134-187 | a submission is accepted exactly with a bounty, a positive threshold, a sound proof of enough complexity if private, and a new identifier; each refusal exactly where it is the first to apply |
| MarketHistory.JudgeExact | mempool/src/marketplace.rs:231-272 | a solution is accepted exactly for an open problem, in time, shown, verified and good enough; each refusal exactly where it is the first to apply |
| MarketHistory.RevealAndCancelExact | mempool/src/marketplace.rs:290-384 | the same for openings and cancellations |
| MarketHistory.LedgerMeaning | mempool/src/marketplace.rs:124-427 | over every run the money claimed is the sum of the bounties of the solved problems paid, the money refunded that of the other problems paid |
| Marketplace.ProblemMarketplace.SubmitProblem | mempool/src/marketplace.rs:124-221 | listing, escrow and index update, with every refusal in the source's order |
| Marketplace.ProblemMarketplace.SubmitSolution | mempool/src/marketplace.rs:225-286 | acceptance and every refusal, including the expiry mark of a late submission; the whole new state is that of the specified step, which `MarketHistory.JudgeExact` and `EndOrigin` characterise |
| Marketplace.ProblemMarketplace.PublishOpening | mempool/src/marketplace.rs:290-321 | stores an opening only if it matches the commitment |
| Marketplace.ProblemMarketplace.ClaimBounty | mempool/src/marketplace.rs:324-347 | removes the escrow entry and returns solver and bounty |
| Marketplace.ProblemMarketplace.CancelProblem | mempool/src/marketplace.rs:350-384 | only the submitter, only while open, refunding the escrow |
| Marketplace.ProblemMarketplace.ExpireOldProblems | mempool/src/marketplace.rs:408-427 | in any visiting order, expires exactly the ripe problems and refunds each once to its submitter |
| Marketplace.ProblemMarketplace.GetStats | mempool/src/marketplace.rs:430-455 | counts each class and sums the escrow |
| Marketplace.RefundsAddUp | mempool/src/marketplace.rs:408-427 | the refunds add up to the escrow of the problems refunded |
| FeeMarket.StepBounded | mempool/src/fee_market.rs:60-79 | one block of at most twice the target multiplies the fee by between (D - 1) / D and (D + 1) / D, never below the floor |
| FeeMarket.FloorHolds | mempool/src/fee_market.rs:65-78 | the next fee is at the floor or above if and only if the fee was, or the block is off target |
| FeeMarket.MonotoneInFullnessIff | mempool/src/fee_market.rs:60-79 | fuller blocks never lower the next fee if and only if the fee is at the floor or above |
| FeeMarket.MonotoneInFee | mempool/src/fee_market.rs:60-79 | a higher fee never leads to a lower next fee |
| FeeMarket.NextFeeExact | mempool/src/fee_market.rs:60-79 | from a fee at the floor or above, the fee moves by fee * |transactions - target| / (target * denominator), rounded down, up above the target and down, to the floor at most, below it |
| FeeMarket.FeeEnvelope | mempool/src/fee_market.rs:60-79 | over n blocks: floor kept, D^n * fee_n <= (D + 1)^n * fee_0 and D^n * fee_n >= (D - 1)^n * fee_0 |
| FeeMarket.RunFits | mempool/src/fee_market.rs:60-79 | every block of such a run updates without 64-bit overflow, if the upper envelope times max(target, 2) fits the word |
| FeeMarket.FeeMarket.UpdateBaseFee | mempool/src/fee_market.rs:60-79 | the update is the specified step |
| FeeMarket.FeeMarket.SimulateNextBaseFee | mempool/src/fee_market.rs:106-110 | simulation returns the next fee and leaves the market alone |
| FeeMarket.BurnAmount | mempool/src/fee_market.rs:94-103 | miner's share and burned share make up the fee; the miner gets the priority fee, or the whole where that is less |

## Left out

- LogError.Log2RatioError: in the two bands of about 0.0003 between those ranges only the bound 0.086074 is stated.
- SubsetSum.SolveSubsetSum: sums are unbounded integers; inputs whose sums leave the 64-bit range wrap in the source.
- SubsetSum.SolveSampling: which draws the seeded generator makes is a parameter; results about sampled lists hold for all draws or name the draws.
- Tsp.TwoOpt: lengths are unbounded; entries so large that two of them overflow 64 bits wrap in the source.
- Tsp.SolveTsp: a distance table smaller than the number of cities makes the source panic and is excluded; an asymmetric table needs a deadline that eventually fires, as in the source.
- Problem.QualityMeaning: the quotient is an exact real, not a 64-bit float; tours of zero cities and tables with an incomplete baseline, on which the source panics, are excluded.
- Difficulty.DifficultyAdjuster.AdjustDifficulty: the variance test is an arbitrary Boolean and time ratios are exact rationals instead of floats; the asynchronous variants with network metrics are not modelled.
- Sessions.EverySessionBacked: stated while the data file is shorter than 2^64 bytes, beyond which offsets wrap.
- Database.Database.Create: directories, file creation errors, fsync and crashes between appends are not modelled; files are byte strings.
- MarketSpec.EveryRunSound: amounts, days and times are unbounded, scores are reals; titles and briefings are dropped; a proof's verdict and the quality estimate are parameters.
- FeeMarket.FeeMarket.UpdateBaseFee: inputs whose products overflow 64 bits, and a zero target or denominator, are excluded; `RunFits` gives runs that never meet them.
- Memory accounting, solve times and printed messages of the miner.
- The SAT and TSP branches of the instance generator; generated SAT instances are not claimed satisfiable.
- Block assembly and verification, header mining, network metrics, signatures, the privacy proofs and the golden key stream itself.
