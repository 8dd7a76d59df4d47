// Merkle roots (core/src/crypto.rs) and the golden ordering of leaves (core/src/golden.rs). The hash
// function and the stream of per-level golden keys are arbitrary parameters; binding is stated by
// computing, from two different lists with one root, two different inputs with one hash.

module Merkle {
  import opened Bytes
  import opened Lists

  /** "MERKLE_NODE" */
  const NODE_DOMAIN: seq<byte> := [77, 69, 82, 75, 76, 69, 95, 78, 79, 68, 69]

  /** How inner nodes are formed: plain, or with domain, golden key and level mixed in. */
  datatype Mode = Standard | Golden(keys: nat -> seq<byte>)

  /** Bytes hashed for a pair of nodes. */
  function NodeInput(mode: Mode, level: nat, l: Hash, r: Hash): seq<byte> {
    match mode
    case Standard => l + r
    case Golden(keys) => NODE_DOMAIN + keys(level) + LeBytes(level, 4) + l + r
  }

  /** A node without a partner: rehashed in a standard tree, passed through in a golden one. */
  function OddNode(h: seq<byte> -> Hash, mode: Mode, x: Hash): Hash {
    if mode.Standard? then h(x) else x
  }

  function NextLevel(h: seq<byte> -> Hash, mode: Mode, level: nat, xs: seq<Hash>): (ys: seq<Hash>)
    ensures |ys| == (|xs| + 1) / 2
  {
    if xs == [] then []
    else if |xs| == 1 then [OddNode(h, mode, xs[0])]
    else [h(NodeInput(mode, level, xs[0], xs[1]))] + NextLevel(h, mode, level, xs[2..])
  }

  function Root(h: seq<byte> -> Hash, mode: Mode, level: nat, xs: seq<Hash>): Hash
    decreases |xs|
  {
    if xs == [] then ZERO_HASH
    else if |xs| == 1 then xs[0]
    else Root(h, mode, level + 1, NextLevel(h, mode, level, xs))
  }

  function Leaves(h: seq<byte> -> Hash, data: seq<seq<byte>>): seq<Hash> {
    seq(|data|, i requires 0 <= i < |data| => h(data[i]))
  }

  /** Root of a list of values. */
  function DataRoot(h: seq<byte> -> Hash, mode: Mode, data: seq<seq<byte>>): Hash {
    Root(h, mode, 0, Leaves(h, data))
  }

  // ---------------------------------------------------------------- binding

  /** Two different inputs with one hash. */
  predicate Collides(h: seq<byte> -> Hash, pair: (seq<byte>, seq<byte>)) {
    pair.0 != pair.1 && h(pair.0) == h(pair.1)
  }

  function Prefix(mode: Mode, level: nat): seq<byte> {
    if mode.Standard? then [] else NODE_DOMAIN + mode.keys(level) + LeBytes(level, 4)
  }

  /** A node's input determines both children, at whatever level it is read. */
  lemma NodeInputInjective(mode: Mode, i: nat, l1: Hash, r1: Hash, j: nat, l2: Hash, r2: Hash)
    requires NodeInput(mode, i, l1, r1) == NodeInput(mode, j, l2, r2)
    ensures l1 == l2 && r1 == r2
  {
    var a, b := NodeInput(mode, i, l1, r1), NodeInput(mode, j, l2, r2);
    var n := |Prefix(mode, i)|;
    assert a == Prefix(mode, i) + l1 + r1 && b == Prefix(mode, j) + l2 + r2;
    assert a[n..n + 32] == l1 && b[n..n + 32] == l2;
    assert a[n + 32..] == r1 && b[n + 32..] == r2;
  }

  /** Different levels with one next level give a collision at their first different pair. */
  function LevelCollision(h: seq<byte> -> Hash, mode: Mode, level: nat, xs: seq<Hash>, ys: seq<Hash>)
    : (pair: (seq<byte>, seq<byte>))
    requires |xs| == |ys| && xs != ys
    requires NextLevel(h, mode, level, xs) == NextLevel(h, mode, level, ys)
    ensures Collides(h, pair)
  {
    if |xs| == 1 then
      assert NextLevel(h, mode, level, xs)[0] == NextLevel(h, mode, level, ys)[0];
      assert xs[0] != ys[0];
      (xs[0], ys[0])
    else
      assert NextLevel(h, mode, level, xs)[0] == NextLevel(h, mode, level, ys)[0];
      assert NextLevel(h, mode, level, xs)[1..] == NextLevel(h, mode, level, ys)[1..];
      if xs[0] != ys[0] || xs[1] != ys[1] then
        var a, b := NodeInput(mode, level, xs[0], xs[1]), NodeInput(mode, level, ys[0], ys[1]);
        assert a != b by { if a == b { NodeInputInjective(mode, level, xs[0], xs[1], level, ys[0], ys[1]); } }
        (a, b)
      else
        assert xs == [xs[0], xs[1]] + xs[2..] && ys == [ys[0], ys[1]] + ys[2..];
        LevelCollision(h, mode, level, xs[2..], ys[2..])
  }

  /** Different leaf lists of one length with one root give a collision. */
  function RootCollision(h: seq<byte> -> Hash, mode: Mode, level: nat, xs: seq<Hash>, ys: seq<Hash>)
    : (pair: (seq<byte>, seq<byte>))
    requires |xs| == |ys| && xs != ys
    requires Root(h, mode, level, xs) == Root(h, mode, level, ys)
    ensures Collides(h, pair)
    decreases |xs|
  {
    var nx, ny := NextLevel(h, mode, level, xs), NextLevel(h, mode, level, ys);
    if nx == ny then LevelCollision(h, mode, level, xs, ys)
    else RootCollision(h, mode, level + 1, nx, ny)
  }

  /** First position where two lists differ. */
  function FirstDifference(xs: seq<seq<byte>>, ys: seq<seq<byte>>, from: nat): (i: nat)
    requires |xs| == |ys| && from <= |xs| && xs != ys && xs[..from] == ys[..from]
    ensures i < |xs| && xs[i] != ys[i]
    decreases |xs| - from
  {
    assert xs[..|xs|] == xs && ys[..|ys|] == ys;
    if xs[from] != ys[from] then from
    else
      assert xs[..from + 1] == xs[..from] + [xs[from]] && ys[..from + 1] == ys[..from] + [ys[from]];
      FirstDifference(xs, ys, from + 1)
  }

  /** Different values of one count with one root give a collision: in standard trees, where the odd
      node is rehashed, and in golden trees, where it is passed through. */
  function DataCollision(h: seq<byte> -> Hash, mode: Mode, xs: seq<seq<byte>>, ys: seq<seq<byte>>)
    : (pair: (seq<byte>, seq<byte>))
    requires |xs| == |ys| && xs != ys
    requires DataRoot(h, mode, xs) == DataRoot(h, mode, ys)
    ensures Collides(h, pair)
  {
    var lx, ly := Leaves(h, xs), Leaves(h, ys);
    if lx == ly then
      var i := FirstDifference(xs, ys, 0);
      assert lx[i] == ly[i];
      (xs[i], ys[i])
    else RootCollision(h, mode, 0, lx, ly)
  }

  // ---------------------------------------------------------------- golden ordering

  /** 2^64 divided by the golden ratio, and its inverse modulo 2^64. */
  const GOLDEN_STEP: nat := 0x9E3779B97F4A7C15
  const GOLDEN_INVERSE: nat := 0xF1DE83E19937733D
  const GOLDEN_QUOTIENT: nat := 0x957BBF35006ED677

  /** Wrapping multiplication of a 64-bit index by the golden step. */
  function GoldenSortKey(z: nat): nat {
    z * GOLDEN_STEP % TWO64
  }

  lemma GoldenInverts(z: nat)
    requires z < TWO64
    ensures GoldenSortKey(z) * GOLDEN_INVERSE % TWO64 == z
  {
    var q, r := z * GOLDEN_STEP / TWO64, GoldenSortKey(z);
    assert GOLDEN_STEP * GOLDEN_INVERSE == 1 + GOLDEN_QUOTIENT * TWO64;
    assert r == z * GOLDEN_STEP - q * TWO64;
    var t := z * GOLDEN_QUOTIENT - q * GOLDEN_INVERSE;
    assert r * GOLDEN_INVERSE == z + t * TWO64;
    ModOfSum(z, t);
  }

  lemma ModOfSum(z: nat, t: int)
    requires z < TWO64
    ensures (z + t * TWO64) % TWO64 == z
  {
  }

  /** Different 64-bit indices have different sort keys. */
  lemma GoldenSortKeyInjective(a: nat, b: nat)
    requires a < TWO64 && b < TWO64 && GoldenSortKey(a) == GoldenSortKey(b)
    ensures a == b
  {
    GoldenInverts(a);
    GoldenInverts(b);
  }

  /** Primary key, then original index: one integer that orders pairs lexicographically. */
  function OrderKey(i: nat): int {
    GoldenSortKey(i) * TWO64 + i
  }

  function TaggedKey(tagged: (nat, seq<byte>)): int { OrderKey(tagged.0) }

  function Indices(n: nat): seq<nat> {
    seq(n, (i: nat) => i)
  }

  /** The leaf permutation for n leaves. */
  function GoldenOrder(n: nat): seq<nat> {
    Sort(Indices(n), OrderKey)
  }

  function Tag(data: seq<seq<byte>>, i: nat): (nat, seq<byte>) {
    (i, if i < |data| then data[i] else [])
  }

  function Tagged(data: seq<seq<byte>>, order: seq<nat>): seq<(nat, seq<byte>)> {
    if order == [] then [] else [Tag(data, order[0])] + Tagged(data, order[1..])
  }

  function Untag(tagged: seq<(nat, seq<byte>)>): seq<seq<byte>> {
    if tagged == [] then [] else [tagged[0].1] + Untag(tagged[1..])
  }

  /** The values sorted by the key of their index, as the source sorts index-tagged values. */
  function Ordered(data: seq<seq<byte>>): seq<seq<byte>> {
    Untag(Sort(Tagged(data, Indices(|data|)), TaggedKey))
  }

  lemma {:induction false} TaggedInsert(data: seq<seq<byte>>, i: nat, order: seq<nat>)
    ensures Insert(Tag(data, i), Tagged(data, order), TaggedKey) == Tagged(data, Insert(i, order, OrderKey))
  {
    if order != [] && OrderKey(order[0]) < OrderKey(i) {
      TaggedInsert(data, i, order[1..]);
      assert Tagged(data, order)[1..] == Tagged(data, order[1..]);
      assert Insert(i, order, OrderKey)[1..] == Insert(i, order[1..], OrderKey);
    } else {
      assert ([i] + order)[1..] == order;
      assert Insert(i, order, OrderKey) == [i] + order;
    }
  }

  /** Sorting tagged values is tagging the sorted indices. */
  lemma {:induction false} TaggedSort(data: seq<seq<byte>>, order: seq<nat>)
    ensures Sort(Tagged(data, order), TaggedKey) == Tagged(data, Sort(order, OrderKey))
  {
    if order != [] {
      TaggedSort(data, order[1..]);
      assert Tagged(data, order)[1..] == Tagged(data, order[1..]);
      TaggedInsert(data, order[0], Sort(order[1..], OrderKey));
    }
  }

  lemma {:induction false} UntagAt(data: seq<seq<byte>>, order: seq<nat>, k: nat)
    requires k < |order|
    ensures |Untag(Tagged(data, order))| == |order|
    ensures Untag(Tagged(data, order))[k] == Tag(data, order[k]).1
  {
    assert Tagged(data, order)[1..] == Tagged(data, order[1..]);
    if k > 0 {
      UntagAt(data, order[1..], k - 1);
    } else if |order| > 1 {
      UntagAt(data, order[1..], 0);
    }
  }

  /** The order is a permutation of the indices, the golden keys strictly increase along it, and the
      tie-break never decides. */
  lemma GoldenOrderIsPermutation(n: nat)
    requires n <= TWO64
    ensures |GoldenOrder(n)| == n
    ensures forall i :: 0 <= i < n ==> i in GoldenOrder(n)
    ensures forall i :: i in GoldenOrder(n) ==> i < n
    ensures forall j, k :: 0 <= j < k < n ==> GoldenSortKey(GoldenOrder(n)[j]) < GoldenSortKey(GoldenOrder(n)[k])
  {
    var order := GoldenOrder(n);
    SortMembers(Indices(n), OrderKey);
    assert |order| == n && IsSorted(order, OrderKey) && Distinct(order) by {
      SortSorts(Indices(n), OrderKey);
      PermutationDistinct(Indices(n), order);
    }
    forall i | 0 <= i < n
      ensures i in order
    {
      assert Indices(n)[i] == i;
    }
    forall j, k | 0 <= j < k < n
      ensures GoldenSortKey(order[j]) < GoldenSortKey(order[k])
    {
      assert order[j] in order && order[k] in order;
      assert OrderKey(order[j]) <= OrderKey(order[k]);
      if GoldenSortKey(order[j]) == GoldenSortKey(order[k]) {
        GoldenSortKeyInjective(order[j], order[k]);
      }
    }
  }

  /** The ordered list is the original read through a permutation that depends only on the count. */
  lemma OrderedReadsThrough(data: seq<seq<byte>>)
    requires |data| <= TWO64
    ensures |Ordered(data)| == |data| == |GoldenOrder(|data|)|
    ensures forall k :: 0 <= k < |data| ==>
              GoldenOrder(|data|)[k] < |data| && Ordered(data)[k] == data[GoldenOrder(|data|)[k]]
  {
    var n := |data|;
    GoldenOrderIsPermutation(n);
    TaggedSort(data, Indices(n));
    forall k | 0 <= k < n
      ensures |Ordered(data)| == n && GoldenOrder(n)[k] < n && Ordered(data)[k] == data[GoldenOrder(n)[k]]
    {
      UntagAt(data, GoldenOrder(n), k);
      assert GoldenOrder(n)[k] in GoldenOrder(n);
    }
  }

  /** Ordering loses nothing: different lists of one length stay different. */
  lemma OrderedInjective(xs: seq<seq<byte>>, ys: seq<seq<byte>>)
    requires |xs| == |ys| <= TWO64 && xs != ys
    ensures |Ordered(xs)| == |Ordered(ys)| && Ordered(xs) != Ordered(ys)
  {
    var n := |xs|;
    OrderedReadsThrough(xs);
    OrderedReadsThrough(ys);
    GoldenOrderIsPermutation(n);
    var i := FirstDifference(xs, ys, 0);
    assert i in GoldenOrder(n);
    var k :| 0 <= k < n && GoldenOrder(n)[k] == i;
    assert Ordered(xs)[k] != Ordered(ys)[k];
  }

  /** Golden-ordered trees bind as well. */
  function OrderedCollision(h: seq<byte> -> Hash, keys: nat -> seq<byte>, xs: seq<seq<byte>>, ys: seq<seq<byte>>)
    : (pair: (seq<byte>, seq<byte>))
    requires |xs| == |ys| <= TWO64 && xs != ys
    requires DataRoot(h, Golden(keys), Ordered(xs)) == DataRoot(h, Golden(keys), Ordered(ys))
    ensures Collides(h, pair)
  {
    OrderedInjective(xs, ys);
    DataCollision(h, Golden(keys), Ordered(xs), Ordered(ys))
  }

  // ---------------------------------------------------------------- the loops

  /** The i-th node of the next level. */
  function ChunkNode(h: seq<byte> -> Hash, mode: Mode, level: nat, xs: seq<Hash>, i: nat): Hash
    requires 2 * i < |xs|
  {
    if 2 * i + 1 < |xs| then h(NodeInput(mode, level, xs[2 * i], xs[2 * i + 1])) else OddNode(h, mode, xs[2 * i])
  }

  /** The nodes still to be built after i chunks. */
  ghost function Remaining(h: seq<byte> -> Hash, mode: Mode, level: nat, xs: seq<Hash>, i: nat): seq<Hash> {
    if 2 * i < |xs| then NextLevel(h, mode, level, xs[2 * i..]) else []
  }

  lemma RemainingStep(h: seq<byte> -> Hash, mode: Mode, level: nat, xs: seq<Hash>, i: nat, built: seq<Hash>)
    requires 2 * i < |xs|
    ensures built + Remaining(h, mode, level, xs, i)
         == (built + [ChunkNode(h, mode, level, xs, i)]) + Remaining(h, mode, level, xs, i + 1)
  {
    var rest := xs[2 * i..];
    if |rest| > 2 {
      assert rest[2..] == xs[2 * (i + 1)..];
    } else if |rest| == 2 {
      assert rest[2..] == [];
    }
    assert Remaining(h, mode, level, xs, i)
        == [ChunkNode(h, mode, level, xs, i)] + Remaining(h, mode, level, xs, i + 1);
  }

  /** Builds the next level of a standard tree, pair by pair. */
  method StandardLevel(h: seq<byte> -> Hash, ghost level: nat, current: seq<Hash>) returns (next: seq<Hash>)
    ensures next == NextLevel(h, Standard, level, current)
  {
    next := [];
    var i := 0;
    assert current[0..] == current;
    while 2 * i < |current|
      invariant next + Remaining(h, Standard, level, current, i) == NextLevel(h, Standard, level, current)
      decreases |current| - i
    {
      RemainingStep(h, Standard, level, current, i, next);
      var combined: seq<byte> := current[2 * i];
      if 2 * i + 1 < |current| {
        combined := combined + current[2 * i + 1];
      }
      next := next + [h(combined)];
      i := i + 1;
    }
  }

  /** Root of a standard tree, level by level. */
  method CalculateRoot(h: seq<byte> -> Hash, leaves: seq<Hash>) returns (root: Hash)
    ensures root == Root(h, Standard, 0, leaves)
  {
    if leaves == [] {
      return ZERO_HASH;
    }
    if |leaves| == 1 {
      return leaves[0];
    }
    var current := leaves;
    ghost var level := 0;
    while |current| > 1
      invariant current != []
      invariant Root(h, Standard, level, current) == Root(h, Standard, 0, leaves)
      decreases |current|
    {
      current := StandardLevel(h, level, current);
      level := level + 1;
    }
    return current[0];
  }

  /** Builds the next level of a golden tree under one golden key. */
  method GoldenLevel(h: seq<byte> -> Hash, keys: nat -> seq<byte>, level: nat, current: seq<Hash>)
    returns (next: seq<Hash>)
    ensures next == NextLevel(h, Golden(keys), level, current)
  {
    var key := keys(level);
    next := [];
    var i := 0;
    assert current[0..] == current;
    while 2 * i < |current|
      invariant next + Remaining(h, Golden(keys), level, current, i) == NextLevel(h, Golden(keys), level, current)
      decreases |current| - i
    {
      RemainingStep(h, Golden(keys), level, current, i, next);
      if 2 * i + 1 < |current| {
        next := next + [h(NODE_DOMAIN + key + LeBytes(level, 4) + current[2 * i] + current[2 * i + 1])];
      } else {
        next := next + [current[2 * i]];
      }
      i := i + 1;
    }
  }

  /** Root of a golden tree: one key per level, odd nodes passed through. */
  method CalculateRootWithGolden(h: seq<byte> -> Hash, keys: nat -> seq<byte>, leaves: seq<Hash>)
    returns (root: Hash)
    ensures root == Root(h, Golden(keys), 0, leaves)
  {
    if leaves == [] {
      return ZERO_HASH;
    }
    if |leaves| == 1 {
      return leaves[0];
    }
    var current := leaves;
    var level: nat := 0;
    while |current| > 1
      invariant current != []
      invariant Root(h, Golden(keys), level, current) == Root(h, Golden(keys), 0, leaves)
      decreases |current|
    {
      current := GoldenLevel(h, keys, level, current);
      level := level + 1;
    }
    return current[0];
  }

  /** Golden tree over golden-ordered values. */
  method NewWithGoldenOrdering(h: seq<byte> -> Hash, keys: nat -> seq<byte>, data: seq<seq<byte>>)
    returns (root: Hash)
    ensures root == DataRoot(h, Golden(keys), Ordered(data))
  {
    var indexed := Tagged(data, Indices(|data|));
    var ordered := Untag(Sort(indexed, TaggedKey));
    root := CalculateRootWithGolden(h, keys, Leaves(h, ordered));
  }
}
