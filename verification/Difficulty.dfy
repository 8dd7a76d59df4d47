// The difficulty controller (consensus/src/difficulty.rs, synchronous path): a window of solve
// times, penalties for stalls and failures, a clamped resize rule and a recovery mode. The variance
// test of a window is an arbitrary Boolean; ratios of times are compared exactly.

module Difficulty {
  import opened Arith
  import opened Problem
  import opened FixedPoint

  const WINDOW: nat := 20
  const TARGET_US: nat := 10_000_000
  const BOOTSTRAP_SIZE: nat := 110
  const MIN_SIZE: nat := 45
  const MAX_SIZE: nat := 220
  const MAX_STALLS: nat := 20

  // ---------------------------------------------------------------- the specification

  datatype Adjuster = Adjuster(samples: seq<nat>, size: nat, recovery: Option<nat>, stalls: nat)

  const INITIAL: Adjuster := Adjuster([], BOOTSTRAP_SIZE, None, 0)

  function CurrentSize(a: Adjuster): nat { Max(a.size, 1) }

  function PushSample(samples: seq<nat>, us: nat): seq<nat> {
    var grown := samples + [us];
    if |grown| > WINDOW then grown[1..] else grown
  }

  /** Sum of a window, saturating at u64::MAX after every addition. */
  function SaturatingSum(samples: seq<nat>): nat {
    if samples == [] then 0
    else Min(SaturatingSum(samples[..|samples| - 1]) + samples[|samples| - 1], U64_MAX)
  }

  function MovingAverage(samples: seq<nat>): nat {
    if samples == [] then TARGET_US else SaturatingSum(samples) / |samples|
  }

  /** The resize rule: the integer root of size^2 * target / avg, with a saturating product. */
  ghost function NewSize(size: nat, avg: nat, target: nat): nat {
    if avg == 0 then size else FloorSqrt(Min(size * size * target, U128_LIMIT - 1) / avg)
  }

  /** The average exceeds twice the golden ratio times the target. */
  predicate Stalled(avg: nat) {
    avg * 1_000_000_000_000_000 > 2 * TARGET_US * 1_618_033_988_749_895
  }

  /** Any penalty: remember the size to return to, shrink, count the stall. */
  function Penalized(a: Adjuster, percent: nat): Adjuster {
    var found := CurrentSize(a);
    a.(size := Max(found * percent / 100, MIN_SIZE),
       recovery := Some(if a.recovery.Some? then a.recovery.value else found),
       stalls := Min(a.stalls + 1, MAX_STALLS))
  }

  function Reduced(raw: nat, avg: nat): nat {
    var stallRatio := avg / TARGET_US;
    if stallRatio > 5 then Max(raw * 2 / 5, 1)
    else if stallRatio > 2 then Max(raw * 7 / 10, 1)
    else raw
  }

  function Clamped(size: nat, proposed: nat): nat {
    Min(Max(proposed, Max(size * 2 / 5, MIN_SIZE)), Min(size * 2, MAX_SIZE))
  }

  /** Install a proposed size: in recovery, creep back while times are near the target and leave
      the mode on arrival; outside it, forget stalls while times are moderate. */
  function Settle(a: Adjuster, proposed: nat, avg: nat): Adjuster {
    match a.recovery
    case Some(target) =>
      if avg * 10 <= 12 * TARGET_US then
        var next := Min(proposed + 1, target);
        a.(size := Max(next, 1), recovery := if next >= target then None else a.recovery)
      else
        a.(size := Max(proposed, 1))
    case None =>
      a.(size := Max(proposed, 1),
         stalls := if avg * 2 <= 3 * TARGET_US && a.stalls > 0 then a.stalls - 1 else a.stalls)
  }

  ghost function Retarget(a: Adjuster, avg: nat): Adjuster {
    var size := CurrentSize(a);
    Settle(a, Clamped(size, Reduced(NewSize(size, avg, TARGET_US), avg)), avg)
  }

  ghost function Adjust(a: Adjuster, deferred: bool): Adjuster {
    if |a.samples| < WINDOW / 2 then a
    else
      var avg := MovingAverage(a.samples);
      var b := if Stalled(avg) then Penalized(a, 70) else a;
      if deferred then b else Retarget(b, avg)
  }

  datatype Event = Record(us: nat) | Retune(deferred: bool) | Fail

  ghost function Step(a: Adjuster, e: Event): Adjuster {
    match e
    case Record(us) => a.(samples := PushSample(a.samples, us))
    case Retune(deferred) => Adjust(a, deferred)
    case Fail => Penalized(a, 90)
  }

  ghost function Run(a: Adjuster, events: seq<Event>): Adjuster {
    if events == [] then a else Step(Run(a, events[..|events| - 1]), events[|events| - 1])
  }

  // ---------------------------------------------------------------- the resize rule

  /** Without saturation the rule is the exact root: r^2 * avg <= size^2 * target < (r + 1)^2 * avg. */
  lemma NewSizeExact(size: nat, avg: nat, target: nat)
    requires avg > 0 && size * size * target < U128_LIMIT
    ensures var r := NewSize(size, avg, target);
            r * r * avg <= size * size * target < (r + 1) * (r + 1) * avg
  {
    var x := size * size * target;
    var r := NewSize(size, avg, target);
    DivAtLeast(x, avg, r * r);
    DivAtLeast(x, avg, (r + 1) * (r + 1));
  }

  /** Slower averages never ask for larger sizes. */
  lemma NewSizeAntitone(size: nat, avg1: nat, avg2: nat, target: nat)
    requires 0 < avg1 <= avg2
    ensures NewSize(size, avg2, target) <= NewSize(size, avg1, target)
  {
    var x := Min(size * size * target, U128_LIMIT - 1);
    DivAntitone(x, avg1, avg2);
    RootMono(x / avg2, x / avg1, FloorSqrt(x / avg2), FloorSqrt(x / avg1));
  }

  /** An average at the target leaves the size alone. */
  lemma NewSizeIdentity(size: nat, target: nat)
    requires target > 0 && size * size * target < U128_LIMIT
    ensures NewSize(size, target, target) == size
  {
    var x := size * size;
    DivAtLeast(x * target, target, x);
    DivAtLeast(x * target, target, x + 1);
    assert (x + 1) * target == x * target + target;
    assert (size + 1) * (size + 1) == x + 2 * size + 1;
    RootUnique(x, size, FloorSqrt(x));
  }

  /** Inside the operational range the product cannot saturate, so times above the target never
      propose growth and times at or below it never propose shrinking. */
  lemma NewSizeDirection(size: nat, avg: nat)
    requires size <= MAX_SIZE
    ensures avg >= TARGET_US ==> NewSize(size, avg, TARGET_US) <= size
    ensures avg <= TARGET_US ==> NewSize(size, avg, TARGET_US) >= size
  {
    SquareMono(size, MAX_SIZE);
    MulMono(size * size, MAX_SIZE * MAX_SIZE, TARGET_US);
    NewSizeIdentity(size, TARGET_US);
    if avg >= TARGET_US { NewSizeAntitone(size, TARGET_US, avg, TARGET_US); }
    if 0 < avg <= TARGET_US { NewSizeAntitone(size, avg, TARGET_US, TARGET_US); }
  }

  // ---------------------------------------------------------------- what is recorded

  /** Plain sum of a window. */
  function SumOf(samples: seq<nat>): nat {
    if samples == [] then 0 else samples[0] + SumOf(samples[1..])
  }

  lemma {:induction false} SumOfPush(samples: seq<nat>, us: nat)
    ensures SumOf(samples + [us]) == SumOf(samples) + us
  {
    if samples == [] {
      assert samples + [us] == [us] && [us][1..] == [];
    } else {
      assert (samples + [us])[1..] == samples[1..] + [us];
      SumOfPush(samples[1..], us);
    }
  }

  lemma {:induction false} SaturatingSumIs(samples: seq<nat>)
    ensures SaturatingSum(samples) == Min(SumOf(samples), U64_MAX)
  {
    if samples != [] {
      var before, last := samples[..|samples| - 1], samples[|samples| - 1];
      SaturatingSumIs(before);
      SumOfPush(before, last);
      assert samples == before + [last];
    }
  }

  /** The average is the floor of the sum, capped at u64::MAX, over the count. */
  lemma AverageExact(samples: seq<nat>)
    requires samples != []
    ensures var avg, sum := MovingAverage(samples), Min(SumOf(samples), U64_MAX);
            avg * |samples| <= sum < (avg + 1) * |samples|
  {
    SaturatingSumIs(samples);
    DivBounds(SaturatingSum(samples), |samples|);
  }

  /** The times recorded in a run, in order. */
  function Recorded(events: seq<Event>): seq<nat> {
    if events == [] then []
    else
      var last := events[|events| - 1];
      Recorded(events[..|events| - 1]) + if last.Record? then [last.us] else []
  }

  /** The latest n elements, or all if there are fewer. */
  function Latest(s: seq<nat>, n: nat): seq<nat> {
    if |s| <= n then s else s[|s| - n..]
  }

  /** The window always holds the latest 20 times recorded. */
  lemma {:induction false} WindowIsLatest(events: seq<Event>)
    ensures Run(INITIAL, events).samples == Latest(Recorded(events), 20)
  {
    if events != [] {
      WindowIsLatest(events[..|events| - 1]);
    }
  }

  // ---------------------------------------------------------------- what one retune does

  /** r is the size that times the average would have to scale to: without rounding, size * sqrt(target / avg). */
  ghost predicate IsResize(size: nat, avg: nat, r: nat) {
    if avg == 0 then r == size else r * r * avg <= size * size * 10_000_000 < (r + 1) * (r + 1) * avg
  }

  lemma ResizeIs(size: nat, avg: nat, r: nat)
    requires size <= MAX_SIZE && IsResize(size, avg, r)
    ensures r == NewSize(size, avg, TARGET_US)
  {
    if avg > 0 {
      SquareMono(size, MAX_SIZE);
      MulMono(size * size, MAX_SIZE * MAX_SIZE, TARGET_US);
      NewSizeExact(size, avg, TARGET_US);
      SameRoot(r, NewSize(size, avg, TARGET_US), avg, size * size * TARGET_US);
    }
  }

  lemma SameRoot(a: nat, b: nat, avg: nat, x: nat)
    requires a * a * avg <= x < (a + 1) * (a + 1) * avg && b * b * avg <= x < (b + 1) * (b + 1) * avg
    ensures a == b
  {
    if a < b {
      SquareMono(a + 1, b);
      MulMono((a + 1) * (a + 1), b * b, avg);
    }
    if b < a {
      SquareMono(b + 1, a);
      MulMono((b + 1) * (b + 1), a * a, avg);
    }
  }

  /** What the clamps leave of a resize: doubled at most and never above 220 for times up to the target;
      for slower ones at least two fifths and 45, after a cut to 7/10 from three times the target on and
      to 2/5 from six times on. */
  function Proposed(size: nat, avg: nat, r: nat): nat {
    if avg <= 10_000_000 then Min(r, Min(2 * size, 220))
    else Max(if avg < 30_000_000 then r else if avg < 60_000_000 then r * 7 / 10 else r * 2 / 5, Max(size * 2 / 5, 45))
  }

  lemma ProposalExact(size: nat, avg: nat, r: nat)
    requires MIN_SIZE <= size <= MAX_SIZE && IsResize(size, avg, r)
    ensures Clamped(size, Reduced(NewSize(size, avg, TARGET_US), avg)) == Proposed(size, avg, r)
    ensures avg > 10_000_000 ==> r < size
    ensures avg <= 10_000_000 ==> r >= size
  {
    ResizeIs(size, avg, r);
    NewSizeDirection(size, avg);
    if avg > 10_000_000 { SlowerShrinks(size, avg, r, 10_000_000); }
  }

  lemma SlowerShrinks(size: nat, avg: nat, r: nat, target: nat)
    requires size > 0 && avg > target && r * r * avg <= size * size * target
    ensures r < size
  {
    var square: nat := size * size;
    MulMono(1, size, size);
    if r >= size {
      SquareMono(size, r);
      MulMono(square, r * r, avg);
      MulStrict(target, avg, square);
      assert false;
    }
  }

  /** The stall test is exact: an average of at least 32.36068 seconds. */
  lemma StalledIff(avg: nat)
    ensures Stalled(avg) <==> avg >= 32_360_680
  {
  }

  /** A retune outside recovery and not deferred installs exactly that size; slower blocks lower it
      strictly down to 45, faster ones never lower it. */
  lemma RetuneExact(a: Adjuster, r: nat)
    requires Operational(a) && a.recovery.None? && |a.samples| >= 10
    requires MovingAverage(a.samples) < 32_360_680 && IsResize(a.size, MovingAverage(a.samples), r)
    ensures var b, avg := Adjust(a, false), MovingAverage(a.samples);
            && b.size == Proposed(a.size, avg, r)
            && (avg > 10_000_000 && a.size > 45 ==> b.size < a.size)
            && (avg <= 10_000_000 ==> b.size >= a.size)
            && b.recovery.None? && b.samples == a.samples
            && b.stalls == if avg <= 15_000_000 && a.stalls > 0 then a.stalls - 1 else a.stalls
  {
    StalledIff(MovingAverage(a.samples));
    ProposalExact(a.size, MovingAverage(a.samples), r);
  }

  /** In recovery the size creeps one past the proposal towards the target while times stay within 6/5
      of theirs, leaving the mode on arrival; slower times install the proposal. */
  lemma RecoveryExact(a: Adjuster, r: nat)
    requires Operational(a) && a.recovery.Some? && |a.samples| >= 10
    requires MovingAverage(a.samples) < 32_360_680 && IsResize(a.size, MovingAverage(a.samples), r)
    ensures var b, avg, goal := Adjust(a, false), MovingAverage(a.samples), a.recovery.value;
            var p := Proposed(a.size, avg, r);
            && (avg <= 12_000_000 && p + 1 >= goal ==> b.size == goal && b.recovery.None?)
            && (avg <= 12_000_000 && p + 1 < goal ==> b.size == p + 1 && b.recovery == a.recovery)
            && (avg > 12_000_000 ==> b.size == p && b.recovery == a.recovery)
            && b.samples == a.samples && b.stalls == a.stalls
  {
    StalledIff(MovingAverage(a.samples));
    ProposalExact(a.size, MovingAverage(a.samples), r);
  }

  /** A stall cuts the size to 70 percent, at least 45, and counts, deferred or not; unless deferred the
      retune then starts from there, in recovery. */
  lemma StallExact(a: Adjuster, deferred: bool, r: nat)
    requires Operational(a) && |a.samples| >= 10 && MovingAverage(a.samples) >= 32_360_680
    requires IsResize(Max(a.size * 7 / 10, 45), MovingAverage(a.samples), r)
    ensures var b, cut := Adjust(a, deferred), Max(a.size * 7 / 10, 45);
            && b.size == (if deferred then cut else Proposed(cut, MovingAverage(a.samples), r))
            && b.recovery == Some(if a.recovery.Some? then a.recovery.value else a.size)
            && b.stalls == Min(a.stalls + 1, 20) && b.samples == a.samples
  {
    StalledIff(MovingAverage(a.samples));
    var cut := Max(a.size * 7 / 10, 45);
    assert Penalized(a, 70).size == cut;
    ProposalExact(cut, MovingAverage(a.samples), r);
  }

  /** A failure cuts the size to 90 percent, at least 45, and counts. */
  lemma FailureExact(a: Adjuster)
    requires Operational(a)
    ensures Step(a, Fail) == a.(size := Max(a.size * 9 / 10, 45),
                                recovery := Some(if a.recovery.Some? then a.recovery.value else a.size),
                                stalls := Min(a.stalls + 1, 20))
  {
  }

  /** With fewer than ten samples, or deferred without a stall, a retune changes nothing. */
  lemma IdleRetune(a: Adjuster, deferred: bool)
    requires |a.samples| < 10 || (deferred && MovingAverage(a.samples) < 32_360_680)
    ensures Adjust(a, deferred) == a
  {
    StalledIff(MovingAverage(a.samples));
  }

  // ---------------------------------------------------------------- every reachable state

  ghost predicate Operational(a: Adjuster) {
    && |a.samples| <= WINDOW
    && MIN_SIZE <= a.size <= MAX_SIZE
    && a.stalls <= MAX_STALLS
    && (a.recovery.Some? ==> a.size <= a.recovery.value <= MAX_SIZE)
  }

  lemma PenaltyKeepsOperational(a: Adjuster, percent: nat)
    requires Operational(a) && percent <= 100
    ensures Operational(Penalized(a, percent)) && Penalized(a, percent).size <= a.size
    ensures Penalized(a, percent).samples == a.samples
  {
    MulMono(percent, 100, a.size);
    DivMono(a.size * percent, a.size * 100, 100);
  }

  /** What the clamps leave of a proposal. */
  lemma ClampedBounds(size: nat, proposed: nat)
    requires MIN_SIZE <= size <= MAX_SIZE
    ensures MIN_SIZE <= Clamped(size, proposed) <= MAX_SIZE
    ensures proposed <= size ==> Clamped(size, proposed) <= size
    ensures proposed >= size ==> Clamped(size, proposed) >= size
  {
  }

  /** The clamped proposal moves against the average: down above the target, up at or below it. */
  lemma ProposalDirection(size: nat, avg: nat)
    requires MIN_SIZE <= size <= MAX_SIZE
    ensures var p := Clamped(size, Reduced(NewSize(size, avg, TARGET_US), avg));
            && MIN_SIZE <= p <= MAX_SIZE
            && (avg >= TARGET_US ==> p <= size)
            && (avg <= TARGET_US ==> p >= size)
  {
    var raw := NewSize(size, avg, TARGET_US);
    NewSizeDirection(size, avg);
    if avg <= TARGET_US { assert avg / TARGET_US <= 1; }
    ClampedBounds(size, Reduced(raw, avg));
  }

  lemma RetargetKeepsOperational(a: Adjuster, avg: nat)
    requires Operational(a)
    ensures Operational(Retarget(a, avg))
  {
    ProposalDirection(CurrentSize(a), avg);
  }

  lemma StepKeepsOperational(a: Adjuster, e: Event)
    requires Operational(a)
    ensures Operational(Step(a, e))
  {
    match e
    case Record(_) =>
    case Fail => PenaltyKeepsOperational(a, 90);
    case Retune(deferred) =>
      if |a.samples| >= WINDOW / 2 {
        var avg := MovingAverage(a.samples);
        PenaltyKeepsOperational(a, 70);
        RetargetKeepsOperational(if Stalled(avg) then Penalized(a, 70) else a, avg);
      }
  }

  /** Every reachable state is operational, whatever the interleaving of events. */
  lemma {:induction false} EveryRunOperational(events: seq<Event>)
    ensures Operational(Run(INITIAL, events))
  {
    if events != [] {
      var before := events[..|events| - 1];
      EveryRunOperational(before);
      StepKeepsOperational(Run(INITIAL, before), events[|events| - 1]);
    }
  }

  function FastSamples(n: nat): seq<Event> {
    if n == 0 then [] else FastSamples(n - 1) + [Record(1)]
  }

  lemma {:induction false} FastWindow(n: nat)
    requires n <= WINDOW
    ensures var a := Run(INITIAL, FastSamples(n));
            && a == INITIAL.(samples := a.samples) && |a.samples| == n && SaturatingSum(a.samples) == n
  {
    if n > 0 {
      FastWindow(n - 1);
      var before := FastSamples(n - 1);
      assert FastSamples(n)[..|FastSamples(n)| - 1] == before;
      var was := Run(INITIAL, before).samples;
      assert (was + [1])[..|was|] == was;
    }
  }

  /** The greatest size is reached: one retune after ten blocks solved at once. */
  lemma FastSamplesReachMaximum() returns (events: seq<Event>)
    ensures Run(INITIAL, events).size == MAX_SIZE
  {
    var before := FastSamples(10);
    FastWindow(10);
    var a := Run(INITIAL, before);
    assert MovingAverage(a.samples) == 1;
    NewSizeAntitone(BOOTSTRAP_SIZE, 1, 2_500_000, TARGET_US);
    QuadrupledSize();
    events := before + [Retune(false)];
    assert events[..|events| - 1] == before;
  }

  /** A quarter of the target time doubles the size. */
  lemma QuadrupledSize()
    ensures NewSize(BOOTSTRAP_SIZE, 2_500_000, TARGET_US) == 220
  {
    assert IsRoot(48_400, 220);
    RootUnique(48_400, 220, FloorSqrt(48_400));
  }

  // ---------------------------------------------------------------- recovery

  /** A step sets the recovery target only to the size it found, and never replaces one. */
  lemma StepRecovery(a: Adjuster, e: Event)
    requires Operational(a)
    ensures Step(a, e).recovery.Some? ==>
              Step(a, e).recovery == if a.recovery.Some? then a.recovery else Some(a.size)
  {
  }

  lemma RunRecovery(events: seq<Event>, j: nat)
    requires j < |events|
    ensures var a, b := Run(INITIAL, events[..j]), Run(INITIAL, events[..j + 1]);
            b.recovery.Some? ==> b.recovery == if a.recovery.Some? then a.recovery else Some(a.size)
  {
    EveryRunOperational(events[..j]);
    StepRecovery(Run(INITIAL, events[..j]), events[j]);
    assert events[..j + 1] == events[..j] + [events[j]];
  }

  /** Targets over time, each set only to the size before it and never replaced: where the last one
      is set, it is the size where the target was last unset. */
  lemma {:induction false} TargetOrigin(targets: seq<Option<nat>>, sizes: seq<nat>) returns (i: nat)
    requires 1 <= |targets| == |sizes| && targets[0].None? && targets[|targets| - 1].Some?
    requires forall j :: 0 < j < |targets| && targets[j].Some? ==>
               targets[j] == if targets[j - 1].Some? then targets[j - 1] else Some(sizes[j - 1])
    ensures i < |targets| - 1 && targets[i].None? && targets[|targets| - 1] == Some(sizes[i])
    ensures forall j :: i < j < |targets| ==> targets[j] == targets[|targets| - 1]
  {
    var n := |targets| - 1;
    i := n - 1;
    if targets[i].Some? { i := TargetOrigin(targets[..n], sizes[..n]); }
  }

  /** Wherever a run stands in recovery, the target is the size just before the first penalty still
      outstanding: recovery was off there, and has been on with this target ever since. */
  lemma RecoveryOrigin(events: seq<Event>) returns (i: nat)
    requires Run(INITIAL, events).recovery.Some?
    ensures i < |events|
    ensures Run(INITIAL, events[..i]).recovery.None?
    ensures Run(INITIAL, events).recovery == Some(Run(INITIAL, events[..i]).size)
    ensures forall j :: i < j <= |events| ==> Run(INITIAL, events[..j]).recovery == Run(INITIAL, events).recovery
  {
    var n := |events|;
    var targets := seq(n + 1, j requires 0 <= j <= n => Run(INITIAL, events[..j]).recovery);
    var sizes := seq(n + 1, j requires 0 <= j <= n => Run(INITIAL, events[..j]).size);
    assert events[..n] == events && events[..0] == [];
    forall j | 0 < j < n + 1 && targets[j].Some?
      ensures targets[j] == if targets[j - 1].Some? then targets[j - 1] else Some(sizes[j - 1])
    {
      RunRecovery(events, j - 1);
    }
    i := TargetOrigin(targets, sizes);
    forall j | i < j <= n ensures Run(INITIAL, events[..j]).recovery == Run(INITIAL, events).recovery {
      assert targets[j] == targets[n];
    }
  }

  /** A window that lets recovery proceed: enough samples, averaging at or below the target. */
  predicate Calm(window: seq<nat>) {
    WINDOW / 2 <= |window| <= WINDOW && MovingAverage(window) <= TARGET_US
  }

  /** One adjustment in recovery on a calm window: arrive at the target and leave the mode, or
      climb by at least one and stay. */
  lemma CalmAdjust(a: Adjuster, window: seq<nat>)
    requires Operational(a) && a.recovery.Some? && Calm(window)
    ensures var b := Adjust(a.(samples := window), false);
            && Operational(b)
            && if b.recovery.None? then b.size == a.recovery.value
               else b.recovery == a.recovery && a.size < b.size < a.recovery.value
    ensures a.recovery.value - a.size <= 1 ==> Adjust(a.(samples := window), false).recovery.None?
  {
    var avg := MovingAverage(window);
    assert !Stalled(avg);
    StepKeepsOperational(a.(samples := window), Retune(false));
    ProposalDirection(a.size, avg);
  }

  /** Adjustments on a sequence of windows, whatever was recorded in between. */
  ghost function AdjustOver(a: Adjuster, windows: seq<seq<nat>>): Adjuster
    decreases |windows|
  {
    if windows == [] then a else AdjustOver(Adjust(a.(samples := windows[0]), false), windows[1..])
  }

  lemma AdjustFirst(a: Adjuster, windows: seq<seq<nat>>, j: nat)
    requires 1 <= j <= |windows|
    ensures AdjustOver(a, windows[..j])
         == AdjustOver(Adjust(a.(samples := windows[0]), false), windows[1..][..j - 1])
    ensures windows[1..][..0] == []
  {
    assert windows[..j][1..] == windows[1..][..j - 1];
  }

  /** After j adjustments still in recovery, and at least j larger. */
  ghost predicate Climbing(a: Adjuster, windows: seq<seq<nat>>, j: nat)
    requires j <= |windows|
  {
    AdjustOver(a, windows[..j]).recovery == a.recovery && AdjustOver(a, windows[..j]).size >= a.size + j
  }

  lemma ClimbingLonger(a: Adjuster, b: Adjuster, windows: seq<seq<nat>>, j: nat)
    requires 1 <= j <= |windows| && b == Adjust(a.(samples := windows[0]), false)
    requires b.recovery == a.recovery && b.size > a.size && (j > 1 ==> Climbing(b, windows[1..], j - 1))
    ensures Climbing(a, windows, j)
  {
    AdjustFirst(a, windows, j);
  }

  /** Recovery ends within max(1, target - size) calm adjustments, at exactly the target. */
  lemma {:induction false} RecoveryEnds(a: Adjuster, windows: seq<seq<nat>>) returns (k: nat)
    requires Operational(a) && a.recovery.Some?
    requires |windows| >= Max(1, a.recovery.value - a.size)
    requires forall i :: 0 <= i < |windows| ==> Calm(windows[i])
    ensures 1 <= k <= Max(1, a.recovery.value - a.size)
    ensures AdjustOver(a, windows[..k]).recovery.None?
    ensures AdjustOver(a, windows[..k]).size == a.recovery.value
    ensures forall j :: 1 <= j < k ==> Climbing(a, windows, j)
    decreases |windows|
  {
    CalmAdjust(a, windows[0]);
    var b := Adjust(a.(samples := windows[0]), false);
    if b.recovery.None? {
      k := 1;
    } else {
      var rest := RecoveryEnds(b, windows[1..]);
      k := rest + 1;
      forall j | 1 <= j < k ensures Climbing(a, windows, j) { ClimbingLonger(a, b, windows, j); }
    }
    AdjustFirst(a, windows, k);
  }

  // ---------------------------------------------------------------- the controller

  class DifficultyAdjuster {
    var recentSolveTimesUs: seq<nat>
    var currentSize: nat
    var recoveryTarget: Option<nat>
    var stallCounter: nat

    ghost function State(): Adjuster
      reads this
    {
      Adjuster(recentSolveTimesUs, currentSize, recoveryTarget, stallCounter)
    }

    constructor ()
      ensures State() == INITIAL
    {
      recentSolveTimesUs := [];
      currentSize := BOOTSTRAP_SIZE;
      recoveryTarget := None;
      stallCounter := 0;
    }

    method RecordSolveTimeUs(us: nat)
      modifies this
      ensures State() == Step(old(State()), Record(us))
    {
      recentSolveTimesUs := recentSolveTimesUs + [us];
      if |recentSolveTimesUs| > WINDOW {
        recentSolveTimesUs := recentSolveTimesUs[1..];
      }
    }

    method MovingAverageUs() returns (avg: nat)
      ensures avg == MovingAverage(recentSolveTimesUs)
    {
      if recentSolveTimesUs == [] {
        return TARGET_US;
      }
      var sum: nat := 0;
      for i := 0 to |recentSolveTimesUs|
        invariant sum == SaturatingSum(recentSolveTimesUs[..i])
      {
        assert recentSolveTimesUs[..i + 1][..i] == recentSolveTimesUs[..i];
        sum := Min(sum + recentSolveTimesUs[i], U64_MAX);
      }
      assert recentSolveTimesUs[..|recentSolveTimesUs|] == recentSolveTimesUs;
      return sum / |recentSolveTimesUs|;
    }

    static method ComputeNewSizeDeterministic(size: nat, avg: nat, target: nat) returns (r: nat)
      ensures r == NewSize(size, avg, target)
    {
      if avg == 0 {
        return size;
      }
      var scaled := Min(size * size * target, U128_LIMIT - 1) / avg;
      DivMono(Min(size * size * target, U128_LIMIT - 1), U128_LIMIT - 1, avg);
      DivAtLeast(U128_LIMIT - 1, avg, U128_LIMIT);
      MulMono(1, avg, U128_LIMIT);
      r := Isqrt(scaled);
    }

    method ApplyStallPenalty()
      modifies this
      ensures State() == Penalized(old(State()), 70)
    {
      var oldSize := Max(currentSize, 1);
      recoveryTarget := Some(if recoveryTarget.Some? then recoveryTarget.value else oldSize);
      currentSize := Max(Max(oldSize * 7 / 10, MIN_SIZE), 1);
      stallCounter := Min(stallCounter + 1, MAX_STALLS);
    }

    method PenalizeFailure() returns (size: nat)
      modifies this
      ensures State() == Step(old(State()), Fail) && size == currentSize
    {
      var oldSize := Max(currentSize, 1);
      recoveryTarget := Some(if recoveryTarget.Some? then recoveryTarget.value else oldSize);
      currentSize := Max(Max(oldSize * 90 / 100, MIN_SIZE), 1);
      stallCounter := Min(stallCounter + 1, MAX_STALLS);
      size := currentSize;
    }

    /** Returns the size to install; ends recovery on arrival and forgets stalls outside it. */
    method ApplyRecovery(proposed: nat, avg: nat) returns (size: nat)
      modifies this
      ensures State().(size := size) == Settle(old(State()), proposed, avg)
      ensures currentSize == old(currentSize)
    {
      if recoveryTarget.Some? {
        var target := recoveryTarget.value;
        if avg * 10 <= 12 * TARGET_US {
          var next := Min(proposed + 1, target);
          if next >= target {
            recoveryTarget := None;
          }
          return Max(next, 1);
        }
        return Max(proposed, 1);
      }
      if avg * 2 <= 3 * TARGET_US && stallCounter > 0 {
        stallCounter := stallCounter - 1;
      }
      return Max(proposed, 1);
    }

    /** One retune; `highVariance` is the answer of the variance test on the window. */
    method AdjustDifficulty(highVariance: bool) returns (size: nat)
      modifies this
      ensures State() == Step(old(State()), Retune(highVariance)) && size == CurrentSize(State())
    {
      if |recentSolveTimesUs| < WINDOW / 2 {
        return Max(currentSize, 1);
      }
      var avg := MovingAverageUs();
      if Stalled(avg) {
        ApplyStallPenalty();
      }
      if highVariance {
        return Max(currentSize, 1);
      }
      var current := Max(currentSize, 1);
      var raw := ComputeNewSizeDeterministic(current, avg, TARGET_US);
      var stallRatio := avg / TARGET_US;
      var adjusted := raw;
      if stallRatio > 5 {
        adjusted := Max(raw * 2 / 5, 1);
      } else if stallRatio > 2 {
        adjusted := Max(raw * 7 / 10, 1);
      }
      var minClamped := current * 2 / 5;
      var maxClamped := current * 2;
      var bounded := Min(Max(adjusted, Max(minClamped, MIN_SIZE)), Min(maxClamped, MAX_SIZE));
      bounded := ApplyRecovery(bounded, avg);
      currentSize := Max(bounded, 1);
      return currentSize;
    }
  }
}
