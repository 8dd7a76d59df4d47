// The miner's travelling-salesman solver (consensus/src/miner.rs): a nearest-neighbour seed
// improved in place by 2-opt exchanges until no exchange helps or the deadline fires.

module Tsp {
  import opened Problem
  import opened Lists
  import Arith

  // ---------------------------------------------------------------- lengths of paths

  /** Length of an open path. */
  function Path(p: seq<nat>, cities: nat, distances: seq<seq<nat>>): nat
    requires IsMatrix(distances, cities) && InRange(p, cities)
  {
    if |p| < 2 then 0 else distances[p[0]][p[1]] + Path(p[1..], cities, distances)
  }

  lemma {:induction false} PathConcat(a: seq<nat>, b: seq<nat>, cities: nat, distances: seq<seq<nat>>)
    requires IsMatrix(distances, cities) && InRange(a, cities) && InRange(b, cities) && a != [] && b != []
    ensures InRange(a + b, cities)
    ensures Path(a + b, cities, distances) ==
            Path(a, cities, distances) + distances[a[|a| - 1]][b[0]] + Path(b, cities, distances)
  {
    if |a| == 1 {
      assert (a + b)[1..] == b;
    } else {
      assert (a + b)[1..] == a[1..] + b;
      PathConcat(a[1..], b, cities, distances);
    }
  }

  /** A tour with its first city appended. */
  function Closed(tour: seq<nat>): seq<nat>
    requires tour != []
  {
    tour + [tour[0]]
  }

  lemma {:induction false} LegsArePath(tour: seq<nat>, cities: nat, distances: seq<seq<nat>>, k: nat)
    requires IsMatrix(distances, cities) && InRange(tour, cities) && 0 < cities == |tour| && k <= cities
    ensures Legs(tour, cities, distances, k) == Path(Closed(tour)[..k + 1], cities, distances)
  {
    if k > 0 {
      LegsArePath(tour, cities, distances, k - 1);
      var c := Closed(tour);
      assert c[..k + 1] == c[..k] + [c[k]];
      PathConcat(c[..k], [c[k]], cities, distances);
      ModuloWrap(k, cities);
    }
  }

  lemma ModuloWrap(k: nat, n: nat)
    requires 0 < k <= n
    ensures k % n == if k == n then 0 else k
  {
  }

  /** The closed tour's length is the length of the path around it. */
  lemma TourIsPath(tour: seq<nat>, cities: nat, distances: seq<seq<nat>>)
    requires IsMatrix(distances, cities) && InRange(tour, cities) && 0 < cities == |tour|
    ensures InRange(Closed(tour), cities)
    ensures TourLength(tour, cities, distances) == Path(Closed(tour), cities, distances)
  {
    LegsArePath(tour, cities, distances, cities);
    assert Closed(tour)[..cities + 1] == Closed(tour);
  }

  // ---------------------------------------------------------------- exchanges

  /** Distances agree in both directions between all cities but the start. */
  predicate SymmetricOffStart(distances: seq<seq<nat>>, cities: nat, start: nat)
    requires IsMatrix(distances, cities)
  {
    forall u, v :: 0 <= u < cities && 0 <= v < cities && u != start && v != start ==>
      distances[u][v] == distances[v][u]
  }

  ghost predicate SymmetricAmong(p: seq<nat>, cities: nat, distances: seq<seq<nat>>)
    requires IsMatrix(distances, cities) && InRange(p, cities)
  {
    forall j, k :: 0 <= j < |p| && 0 <= k < |p| ==> distances[p[j]][p[k]] == distances[p[k]][p[j]]
  }

  lemma {:induction false} ReversePath(p: seq<nat>, cities: nat, distances: seq<seq<nat>>)
    requires IsMatrix(distances, cities) && InRange(p, cities) && SymmetricAmong(p, cities, distances)
    ensures InRange(Reverse(p), cities)
    ensures Path(Reverse(p), cities, distances) == Path(p, cities, distances)
  {
    ReverseAt(p);
    if |p| >= 2 {
      var rest := p[1..];
      ReversePath(rest, cities, distances);
      ReverseAt(rest);
      PathConcat(Reverse(rest), [p[0]], cities, distances);
    }
  }

  /** The list with positions lo..hi-1 reversed. */
  function Reversed(t: seq<nat>, lo: nat, hi: nat): seq<nat>
    requires lo <= hi <= |t|
  {
    t[..lo] + Reverse(t[lo..hi]) + t[hi..]
  }

  lemma ReversedIsPermutation(t: seq<nat>, lo: nat, hi: nat)
    requires lo <= hi <= |t|
    ensures multiset(Reversed(t, lo, hi)) == multiset(t) && |Reversed(t, lo, hi)| == |t|
  {
    ReverseIsPermutation(t[lo..hi]);
    ReverseAt(t[lo..hi]);
    assert t == t[..lo] + t[lo..hi] + t[hi..];
  }

  /** Reversing a stretch after the first city keeps a tour a tour from the same city. */
  lemma ReversedIsTour(t: seq<nat>, cities: nat, lo: nat, hi: nat)
    requires IsTour(t, cities) && 0 < lo <= hi <= cities
    ensures IsTour(Reversed(t, lo, hi), cities) && Reversed(t, lo, hi)[0] == t[0]
  {
    var r := Reversed(t, lo, hi);
    ReversedIsPermutation(t, lo, hi);
    PermutationDistinct(t, r);
    forall k | 0 <= k < |r|
      ensures r[k] < cities
    {
      assert r[k] in multiset(r);
      assert r[k] in t;
    }
  }

  /** The two edges an exchange removes. */
  function Before(t: seq<nat>, cities: nat, distances: seq<seq<nat>>, i: nat, j: nat): nat
    requires IsMatrix(distances, cities) && InRange(t, cities) && |t| == cities && i + 2 <= j < cities
  {
    distances[t[i]][t[i + 1]] + distances[t[j]][t[(j + 1) % cities]]
  }

  /** The two edges an exchange adds. */
  function After(t: seq<nat>, cities: nat, distances: seq<seq<nat>>, i: nat, j: nat): nat
    requires IsMatrix(distances, cities) && InRange(t, cities) && |t| == cities && i + 2 <= j < cities
  {
    distances[t[i]][t[j]] + distances[t[i + 1]][t[(j + 1) % cities]]
  }

  /** Length of a path made of three stretches. */
  lemma StretchLengths(p: seq<nat>, m: seq<nat>, q: seq<nat>, cities: nat, distances: seq<seq<nat>>)
    requires IsMatrix(distances, cities) && p != [] && m != [] && q != []
    requires InRange(p, cities) && InRange(m, cities) && InRange(q, cities)
    ensures InRange(p + (m + q), cities)
    ensures Path(p + (m + q), cities, distances) ==
            Path(p, cities, distances) + distances[p[|p| - 1]][m[0]] + Path(m, cities, distances)
            + distances[m[|m| - 1]][q[0]] + Path(q, cities, distances)
  {
    PathConcat(m, q, cities, distances);
    PathConcat(p, m + q, cities, distances);
  }

  /** The closed tour and the closed exchanged tour share their outer stretches. */
  lemma ClosedStretches(t: seq<nat>, i: nat, j: nat)
    requires i + 2 <= j < |t|
    ensures var p, m, q := t[..i + 1], t[i + 1..j + 1], t[j + 1..] + [t[0]];
            && Closed(t) == p + (m + q)
            && |Reversed(t, i + 1, j + 1)| == |t|
            && Closed(Reversed(t, i + 1, j + 1)) == p + (Reverse(m) + q)
            && |Reverse(m)| == |m|
            && Reverse(m)[0] == t[j] && Reverse(m)[|m| - 1] == t[i + 1]
  {
    var p, m, rest := t[..i + 1], t[i + 1..j + 1], t[j + 1..];
    ReverseAt(m);
    assert t == p + (m + rest);
    assert Closed(t) == p + (m + (rest + [t[0]]));
    var exchanged := Reversed(t, i + 1, j + 1);
    assert exchanged == p + (Reverse(m) + rest) && exchanged[0] == t[0];
    assert Closed(exchanged) == p + (Reverse(m) + (rest + [t[0]]));
  }

  lemma InRangeReverse(m: seq<nat>, cities: nat)
    requires InRange(m, cities)
    ensures InRange(Reverse(m), cities)
  {
    ReverseAt(m);
  }

  /** The tour's length, stretch by stretch. */
  lemma LengthAsStretches(t: seq<nat>, cities: nat, distances: seq<seq<nat>>, i: nat, j: nat)
    requires IsMatrix(distances, cities) && InRange(t, cities) && |t| == cities && i + 2 <= j < cities
    ensures InRange(t[j + 1..] + [t[0]], cities)
    ensures TourLength(t, cities, distances) ==
            Path(t[..i + 1], cities, distances) + Path(t[i + 1..j + 1], cities, distances)
            + Path(t[j + 1..] + [t[0]], cities, distances) + Before(t, cities, distances, i, j)
  {
    var p, m, q := t[..i + 1], t[i + 1..j + 1], t[j + 1..] + [t[0]];
    TourIsPath(t, cities, distances);
    ClosedStretches(t, i, j);
    StretchLengths(p, m, q, cities, distances);
    ModuloWrap(j + 1, cities);
    assert q[0] == t[(j + 1) % cities];
  }

  /** The exchanged tour's length: the outer stretches are those of t, the inner one is walked
      backwards, and the two new edges are paid. */
  lemma ExchangedAsStretches(t: seq<nat>, cities: nat, distances: seq<seq<nat>>, i: nat, j: nat)
    requires IsMatrix(distances, cities) && IsTour(t, cities) && i + 2 <= j < cities
    ensures IsTour(Reversed(t, i + 1, j + 1), cities)
    ensures InRange(t[j + 1..] + [t[0]], cities) && InRange(Reverse(t[i + 1..j + 1]), cities)
    ensures TourLength(Reversed(t, i + 1, j + 1), cities, distances) ==
            Path(t[..i + 1], cities, distances) + Path(Reverse(t[i + 1..j + 1]), cities, distances)
            + Path(t[j + 1..] + [t[0]], cities, distances) + After(t, cities, distances, i, j)
  {
    var p, m, q := t[..i + 1], t[i + 1..j + 1], t[j + 1..] + [t[0]];
    ReversedIsTour(t, cities, i + 1, j + 1);
    TourIsPath(Reversed(t, i + 1, j + 1), cities, distances);
    ClosedStretches(t, i, j);
    InRangeReverse(m, cities);
    StretchLengths(p, Reverse(m), q, cities, distances);
    ModuloWrap(j + 1, cities);
    assert q[0] == t[(j + 1) % cities];
  }

  /** Length of the tour before and after an exchange: it changes by `after - before` and by what
      walking the inner stretch backwards changes. */
  lemma ExchangeLengths(t: seq<nat>, cities: nat, distances: seq<seq<nat>>, i: nat, j: nat)
    requires IsMatrix(distances, cities) && IsTour(t, cities) && i + 2 <= j < cities
    ensures IsTour(Reversed(t, i + 1, j + 1), cities)
    ensures InRange(Reverse(t[i + 1..j + 1]), cities)
    ensures TourLength(Reversed(t, i + 1, j + 1), cities, distances)
            + Before(t, cities, distances, i, j) + Path(t[i + 1..j + 1], cities, distances)
         == TourLength(t, cities, distances)
            + After(t, cities, distances, i, j) + Path(Reverse(t[i + 1..j + 1]), cities, distances)
  {
    LengthAsStretches(t, cities, distances, i, j);
    ExchangedAsStretches(t, cities, distances, i, j);
  }

  /** An exchange changes the tour length by exactly `after - before`. */
  lemma ExchangeDelta(t: seq<nat>, cities: nat, distances: seq<seq<nat>>, i: nat, j: nat)
    requires IsMatrix(distances, cities) && IsTour(t, cities) && i + 2 <= j < cities
    requires SymmetricOffStart(distances, cities, t[0])
    ensures PricedRight(t, cities, distances, i, j)
  {
    ExchangeLengths(t, cities, distances, i, j);
    ReversePath(t[i + 1..j + 1], cities, distances);
  }

  /** The price of one exchange is the change of length. */
  ghost predicate PricedRight(t: seq<nat>, cities: nat, distances: seq<seq<nat>>, i: nat, j: nat)
    requires IsMatrix(distances, cities) && IsTour(t, cities) && i + 2 <= j < cities
  {
    && IsTour(Reversed(t, i + 1, j + 1), cities)
    && TourLength(Reversed(t, i + 1, j + 1), cities, distances) + Before(t, cities, distances, i, j)
       == TourLength(t, cities, distances) + After(t, cities, distances, i, j)
  }

  /** Every exchange on every tour from city 0 is priced correctly. */
  ghost predicate DeltaExact(cities: nat, distances: seq<seq<nat>>)
    requires IsMatrix(distances, cities)
  {
    forall t: seq<nat>, i: nat, j: nat | IsTour(t, cities) && i + 2 <= j < cities && t[0] == 0 ::
      PricedRight(t, cities, distances, i, j)
  }

  /** A tour that starts 0, u, v. */
  lemma TourThrough(cities: nat, u: nat, v: nat) returns (t: seq<nat>)
    requires 0 < u < cities && 0 < v < cities && u != v
    ensures IsTour(t, cities) && t[0] == 0 && t[1] == u && t[2] == v
  {
    var identity: seq<nat> := seq(cities, (k: nat) => k);
    var a := identity[1 := u][u := 1];
    var k := if v == 1 then u else v;
    t := a[2 := a[k]][k := a[2]];
  }

  /** The price `after - before` is right for every exchange exactly when distances agree in both
      directions away from city 0: full symmetry is more than the code needs, and less is too little. */
  lemma DeltaExactIff(cities: nat, distances: seq<seq<nat>>)
    requires IsMatrix(distances, cities)
    ensures DeltaExact(cities, distances) <==> SymmetricOffStart(distances, cities, 0)
  {
    if SymmetricOffStart(distances, cities, 0) {
      forall t: seq<nat>, i: nat, j: nat | IsTour(t, cities) && i + 2 <= j < cities && t[0] == 0
        ensures PricedRight(t, cities, distances, i, j)
      {
        ExchangeDelta(t, cities, distances, i, j);
      }
    }
    if DeltaExact(cities, distances) {
      forall u, v | 0 <= u < cities && 0 <= v < cities && u != 0 && v != 0
        ensures distances[u][v] == distances[v][u]
      {
        if u != v {
          var t := TourThrough(cities, u, v);
          assert PricedRight(t, cities, distances, 0, 2);
          ExchangeLengths(t, cities, distances, 0, 2);
          PairPaths(t, cities, distances);
        }
      }
    }
  }

  lemma PairPaths(t: seq<nat>, cities: nat, distances: seq<seq<nat>>)
    requires IsMatrix(distances, cities) && InRange(t, cities) && |t| >= 3
    ensures Path(t[1..3], cities, distances) == distances[t[1]][t[2]]
    ensures InRange(Reverse(t[1..3]), cities)
    ensures Path(Reverse(t[1..3]), cities, distances) == distances[t[2]][t[1]]
  {
    assert t[1..3] == [t[1], t[2]];
    ReverseAt(t[1..3]);
    assert Reverse(t[1..3]) == [t[2], t[1]];
  }

  // ---------------------------------------------------------------- local optimality

  ghost predicate Gains(t: seq<nat>, cities: nat, distances: seq<seq<nat>>, i: nat, j: nat)
    requires IsMatrix(distances, cities) && InRange(t, cities) && |t| == cities && i + 2 <= j < cities
  {
    After(t, cities, distances, i, j) < Before(t, cities, distances, i, j)
  }

  /** No exchange is priced as an improvement. */
  ghost predicate TwoOptimal(t: seq<nat>, cities: nat, distances: seq<seq<nat>>)
    requires IsMatrix(distances, cities) && InRange(t, cities) && |t| == cities
  {
    forall i: nat, j: nat :: i + 2 <= j < cities ==> !Gains(t, cities, distances, i, j)
  }

  /** Reversing an inner stretch makes the tour shorter. */
  ghost predicate Shortens(t: seq<nat>, cities: nat, distances: seq<seq<nat>>, i: nat, j: nat)
    requires IsMatrix(distances, cities) && IsTour(t, cities) && i + 2 <= j < cities
  {
    && IsTour(Reversed(t, i + 1, j + 1), cities)
    && TourLength(Reversed(t, i + 1, j + 1), cities, distances) < TourLength(t, cities, distances)
  }

  /** Local optimality in terms of lengths: no reversal of an inner stretch shortens the tour. */
  lemma TwoOptimalMeaning(t: seq<nat>, cities: nat, distances: seq<seq<nat>>)
    requires IsMatrix(distances, cities) && cities > 0 && IsTour(t, cities)
    requires SymmetricOffStart(distances, cities, t[0])
    ensures TwoOptimal(t, cities, distances) <==>
            forall i: nat, j: nat :: i + 2 <= j < cities ==> !Shortens(t, cities, distances, i, j)
  {
    forall i: nat, j: nat | i + 2 <= j < cities
      ensures Gains(t, cities, distances, i, j) <==> Shortens(t, cities, distances, i, j)
    {
      ExchangeDelta(t, cities, distances, i, j);
    }
  }

  // ---------------------------------------------------------------- the solver

  /** Reverses a stretch of the array in place. */
  method ReverseSlice(tour: array<nat>, lo: nat, hi: nat)
    requires lo <= hi <= tour.Length
    modifies tour
    ensures tour[..] == Reversed(old(tour[..]), lo, hi)
  {
    var i, j := lo, hi;
    while i + 1 < j
      invariant lo <= i <= j <= hi && i - lo == hi - j
      invariant forall k :: lo <= k < i || j <= k < hi ==> tour[k] == old(tour[lo + hi - 1 - k])
      invariant forall k :: i <= k < j || 0 <= k < lo || hi <= k < tour.Length ==> tour[k] == old(tour[k])
    {
      tour[i], tour[j - 1] := tour[j - 1], tour[i];
      i, j := i + 1, j - 1;
    }
    MirroredIsReversed(old(tour[..]), tour[..], lo, hi);
  }

  lemma MirroredIsReversed(was: seq<nat>, now: seq<nat>, lo: nat, hi: nat)
    requires lo <= hi <= |was| == |now|
    requires forall k :: lo <= k < hi ==> now[k] == was[lo + hi - 1 - k]
    requires forall k :: 0 <= k < lo || hi <= k < |was| ==> now[k] == was[k]
    ensures now == Reversed(was, lo, hi)
  {
    ReverseAt(was[lo..hi]);
  }

  /** What a stretch of exchanges has done to the tour `was`. */
  ghost predicate Progress(was: seq<nat>, now: seq<nat>, improved: bool, cities: nat, distances: seq<seq<nat>>)
    requires IsMatrix(distances, cities) && cities > 0 && IsTour(was, cities)
  {
    && IsTour(now, cities) && now[0] == was[0]
    && (!improved ==> now == was)
    && (improved && SymmetricOffStart(distances, cities, was[0]) ==>
          TourLength(now, cities, distances) < TourLength(was, cities, distances))
  }

  lemma ProgressComposes(x: seq<nat>, y: seq<nat>, z: seq<nat>, p: bool, q: bool,
                         cities: nat, distances: seq<seq<nat>>)
    requires IsMatrix(distances, cities) && cities > 0 && IsTour(x, cities)
    requires Progress(x, y, p, cities, distances) && Progress(y, z, q, cities, distances)
    ensures Progress(x, z, p || q, cities, distances)
  {
  }

  /** Accepting an exchange is progress. */
  lemma GainIsProgress(t: seq<nat>, cities: nat, distances: seq<seq<nat>>, i: nat, j: nat)
    requires IsMatrix(distances, cities) && IsTour(t, cities) && i + 2 <= j < cities
    requires Gains(t, cities, distances, i, j)
    ensures Progress(t, Reversed(t, i + 1, j + 1), true, cities, distances)
  {
    ReversedIsTour(t, cities, i + 1, j + 1);
    if SymmetricOffStart(distances, cities, t[0]) { ExchangeDelta(t, cities, distances, i, j); }
  }

  /** The edges an exchange removes and adds, priced. */
  method Prices(tour: array<nat>, distances: seq<seq<nat>>, cities: nat, i: nat, j: nat)
    returns (before: nat, after: nat)
    requires IsMatrix(distances, cities) && IsTour(tour[..], cities) && i + 2 <= j < cities
    ensures before == Before(tour[..], cities, distances, i, j)
    ensures after == After(tour[..], cities, distances, i, j)
  {
    var a, b, c, d := tour[i], tour[i + 1], tour[j], tour[(j + 1) % cities];
    assert a == tour[..][i] && b == tour[..][i + 1] && c == tour[..][j] && d == tour[..][(j + 1) % cities];
    before := distances[a][b] + distances[c][d];
    after := distances[a][c] + distances[b][d];
  }

  /** One pair of the double loop: exchange if it gains, else leave the tour alone. */
  method TryExchange(tour: array<nat>, distances: seq<seq<nat>>, cities: nat, i: nat, j: nat)
    returns (improved: bool)
    requires IsMatrix(distances, cities) && IsTour(tour[..], cities) && i + 2 <= j < cities
    modifies tour
    ensures improved <==> old(Gains(tour[..], cities, distances, i, j))
    ensures tour[..] == if improved then Reversed(old(tour[..]), i + 1, j + 1) else old(tour[..])
    ensures Progress(old(tour[..]), tour[..], improved, cities, distances)
  {
    ghost var current := tour[..];
    var before, after := Prices(tour, distances, cities, i, j);
    improved := after < before;
    if improved {
      GainIsProgress(current, cities, distances, i, j);
      ReverseSlice(tour, i + 1, j + 1);
    }
  }

  /** Either lengths strictly fall with every accepted exchange, or the clock runs out. */
  ghost predicate Terminates(distances: seq<seq<nat>>, cities: nat, start: nat, expired: nat -> bool)
    requires IsMatrix(distances, cities)
  {
    SymmetricOffStart(distances, cities, start) || exists limit: nat :: Fires(expired, limit)
  }

  ghost predicate Fires(expired: nat -> bool, limit: nat) {
    forall t: nat :: t >= limit ==> expired(t)
  }

  /** No exchange gains among the pairs before (i, j) in the order of the double loop. */
  ghost predicate NoGainBefore(t: seq<nat>, cities: nat, distances: seq<seq<nat>>, i: nat, j: nat)
    requires IsMatrix(distances, cities) && IsTour(t, cities)
  {
    forall x: nat, y: nat :: x + 2 <= y < cities && (x < i || (x == i && y < j)) ==>
      !Gains(t, cities, distances, x, y)
  }

  /** One pass of the double loop; `stopped` when the clock fired inside it. */
  method Pass(tour: array<nat>, distances: seq<seq<nat>>, cities: nat, expired: nat -> bool, tick: nat)
    returns (improved: bool, stopped: bool, next: nat)
    requires IsMatrix(distances, cities) && cities > 0 && IsTour(tour[..], cities)
    modifies tour
    ensures next >= tick
    ensures Progress(old(tour[..]), tour[..], improved, cities, distances)
    ensures stopped ==> exists t: nat :: expired(t)
    ensures !stopped && !improved ==> TwoOptimal(tour[..], cities, distances)
  {
    ghost var was := tour[..];
    improved, next := false, tick;
    for i := 0 to cities - 1
      invariant next >= tick
      invariant Progress(was, tour[..], improved, cities, distances)
      invariant !improved ==> NoGainBefore(was, cities, distances, i, 0)
    {
      for j := i + 2 to cities
        invariant next >= tick
        invariant Progress(was, tour[..], improved, cities, distances)
        invariant !improved ==> NoGainBefore(was, cities, distances, i, j)
      {
        if expired(next) {
          return improved, true, next;
        }
        next := next + 1;
        ghost var current := tour[..];
        var exchanged := TryExchange(tour, distances, cities, i, j);
        ProgressComposes(was, current, tour[..], improved, exchanged, cities, distances);
        improved := improved || exchanged;
      }
    }
    return improved, false, next;
  }

  /** 2-opt in place: passes over all pairs until a whole pass improves nothing. The tour stays a
      tour from the same city whatever the distances and the clock; where exchanges are priced
      correctly it never gets longer, and unless the clock fires it ends locally optimal. */
  method TwoOpt(tour: array<nat>, distances: seq<seq<nat>>, cities: nat, expired: nat -> bool)
    requires IsMatrix(distances, cities) && cities > 0 && IsTour(tour[..], cities)
    requires Terminates(distances, cities, tour[0], expired)
    modifies tour
    ensures IsTour(tour[..], cities) && tour[0] == old(tour[0])
    ensures SymmetricOffStart(distances, cities, tour[0]) ==>
              TourLength(tour[..], cities, distances) <= old(TourLength(tour[..], cities, distances))
    ensures (forall t: nat :: !expired(t)) ==> TwoOptimal(tour[..], cities, distances)
  {
    ghost var priced := SymmetricOffStart(distances, cities, tour[0]);
    ghost var limit: nat := 0;
    if !priced { limit :| Fires(expired, limit); }
    var tick: nat := 0;
    while true
      invariant IsTour(tour[..], cities) && tour[0] == old(tour[0])
      invariant priced ==> TourLength(tour[..], cities, distances) <= old(TourLength(tour[..], cities, distances))
      decreases if priced then TourLength(tour[..], cities, distances) else limit - tick
    {
      if expired(tick) {
        break;
      }
      assert !priced ==> tick < limit;
      ghost var was := tour[..];
      var improved, stopped, next := Pass(tour, distances, cities, expired, tick + 1);
      assert tour[0] == tour[..][0] == was[0];
      if stopped || !improved {
        break;
      }
      tick := next;
    }
  }

  /** The solver: no answer without cities or without a complete seed; otherwise a tour that always
      verifies. Where exchanges are priced correctly the answer is no longer than the verifier's own
      baseline, so its quality is exactly 1, even when the deadline cuts the search short. */
  method SolveTsp(cities: nat, distances: seq<seq<nat>>, expired: nat -> bool) returns (r: Option<Solution>)
    requires IsMatrix(distances, cities)
    requires cities > 0 ==> Terminates(distances, cities, 0, expired)
    ensures r.Some? <==> cities > 0 && |NearestNeighborTour(cities, distances)| == cities
    ensures cities > 0 && BelowMax(distances, cities) ==> r.Some?
    ensures r.Some? ==>
              && Verifies(r.value, Problem.Tsp(cities, distances))
              && r.value.TspSolution? && r.value.tour[0] == 0
    ensures r.Some? && SymmetricOffStart(distances, cities, 0) ==>
              && TourLength(r.value.tour, cities, distances)
                 <= TourLength(NearestNeighborTour(cities, distances), cities, distances)
              && Quality(r.value, Problem.Tsp(cities, distances)) == 1.0
    ensures r.Some? && (forall t: nat :: !expired(t)) ==> TwoOptimal(r.value.tour, cities, distances)
  {
    if cities == 0 {
      return None;
    }
    var seed := BuildNearestNeighborTour(cities, distances);
    GreedyTourVisits(distances, cities, [0]);
    if |seed| != cities {
      return None;
    }
    assert IsTour(seed, cities);
    var tour := new nat[cities](k requires 0 <= k < cities => seed[k]);
    assert tour[..] == seed;
    TwoOpt(tour, distances, cities, expired);
    r := Some(TspSolution(tour[..]));
    QualityMeaning(r.value, Problem.Tsp(cities, distances));
  }

  // ---------------------------------------------------------------- machine width

  /** With entries at most M, no partial tour length exceeds cities * M; distances of generated
      instances are below 100, so their lengths stay far below the 64-bit limit. */
  lemma {:induction false} LegsBounded(tour: seq<nat>, cities: nat, distances: seq<seq<nat>>, k: nat, m: nat)
    requires IsMatrix(distances, cities) && InRange(tour, cities) && k <= cities == |tour|
    requires forall u, v :: 0 <= u < cities && 0 <= v < cities ==> distances[u][v] <= m
    ensures Legs(tour, cities, distances, k) <= k * m
  {
    if k > 0 {
      LegsBounded(tour, cities, distances, k - 1, m);
      ModuloWrap(k, cities);
      Arith.MulStep(k, m);
    }
  }
}
