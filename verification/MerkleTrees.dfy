// Merkle roots (core/src/crypto.rs) over lists of different lengths: the trees behind two equal roots
// are compared from the top.

module MerkleTrees {
  import opened Bytes
  import opened Merkle

  /** The tree behind a root: values, pairs, and rehashed odd nodes. */
  datatype Tree = Leaf(value: seq<byte>) | Pair(level: nat, left: Tree, right: Tree) | Single(child: Tree)

  /** The bytes hashed at the top of a tree, and their hash. */
  function Input(h: seq<byte> -> Hash, mode: Mode, t: Tree): seq<byte>
    decreases t, 0
  {
    match t
    case Leaf(value) => value
    case Pair(level, l, r) => NodeInput(mode, level, HashOf(h, mode, l), HashOf(h, mode, r))
    case Single(child) => HashOf(h, mode, child)
  }

  function HashOf(h: seq<byte> -> Hash, mode: Mode, t: Tree): Hash
    decreases t, 1
  {
    h(Input(h, mode, t))
  }

  function LeavesOf(t: Tree): seq<seq<byte>> {
    match t
    case Leaf(value) => [value]
    case Pair(_, l, r) => LeavesOf(l) + LeavesOf(r)
    case Single(child) => LeavesOf(child)
  }

  /** Some inner node of the tree hashes these bytes. */
  predicate HashedInside(h: seq<byte> -> Hash, mode: Mode, t: Tree, bytes: seq<byte>) {
    match t
    case Leaf(_) => false
    case Pair(_, l, r) =>
      Input(h, mode, t) == bytes || HashedInside(h, mode, l, bytes) || HashedInside(h, mode, r, bytes)
    case Single(child) => Input(h, mode, t) == bytes || HashedInside(h, mode, child, bytes)
  }

  /** What two trees with one hash come to: the same values, a collision, or a value of one that is
      what an inner node of the other hashes. */
  datatype Evidence = SameValues | Collision(pair: (seq<byte>, seq<byte>)) | NodeValue(value: seq<byte>)

  ghost predicate Proves(h: seq<byte> -> Hash, mode: Mode, t: Tree, u: Tree, e: Evidence) {
    match e
    case SameValues => LeavesOf(t) == LeavesOf(u)
    case Collision(pair) => Collides(h, pair)
    case NodeValue(v) =>
      || (v in LeavesOf(t) && HashedInside(h, mode, u, v))
      || (v in LeavesOf(u) && HashedInside(h, mode, t, v))
  }

  function Compare(h: seq<byte> -> Hash, mode: Mode, t: Tree, u: Tree): (e: Evidence)
    requires HashOf(h, mode, t) == HashOf(h, mode, u)
    ensures Proves(h, mode, t, u, e)
    decreases t
  {
    var a, b := Input(h, mode, t), Input(h, mode, u);
    if a != b then Collision((a, b))
    else
      match (t, u)
      case (Leaf(_), Leaf(_)) => SameValues
      case (Leaf(v), _) => NodeValue(v)
      case (_, Leaf(v)) => NodeValue(v)
      case (Single(x), Single(y)) => Compare(h, mode, x, y)
      case (Pair(i, l, r), Pair(j, m, s)) =>
        NodeInputInjective(mode, i, HashOf(h, mode, l), HashOf(h, mode, r), j, HashOf(h, mode, m), HashOf(h, mode, s));
        var e := Compare(h, mode, l, m);
        if e.SameValues? then Compare(h, mode, r, s) else e
      case _ =>
        assert false;
        SameValues
  }

  function NextTrees(mode: Mode, level: nat, ts: seq<Tree>): (us: seq<Tree>)
    ensures |us| == (|ts| + 1) / 2
  {
    if ts == [] then []
    else if |ts| == 1 then [if mode.Standard? then Single(ts[0]) else ts[0]]
    else [Pair(level, ts[0], ts[1])] + NextTrees(mode, level, ts[2..])
  }

  function RootTree(mode: Mode, level: nat, ts: seq<Tree>): Tree
    requires ts != []
    decreases |ts|
  {
    if |ts| == 1 then ts[0] else RootTree(mode, level + 1, NextTrees(mode, level, ts))
  }

  function HashesOf(h: seq<byte> -> Hash, mode: Mode, ts: seq<Tree>): (xs: seq<Hash>)
    ensures |xs| == |ts|
  {
    if ts == [] then [] else [HashOf(h, mode, ts[0])] + HashesOf(h, mode, ts[1..])
  }

  function AllLeaves(ts: seq<Tree>): seq<seq<byte>> {
    if ts == [] then [] else LeavesOf(ts[0]) + AllLeaves(ts[1..])
  }

  function LeafTrees(data: seq<seq<byte>>): (ts: seq<Tree>)
    ensures |ts| == |data|
  {
    if data == [] then [] else [Leaf(data[0])] + LeafTrees(data[1..])
  }

  lemma ConsTree(h: seq<byte> -> Hash, mode: Mode, t: Tree, ts: seq<Tree>)
    ensures HashesOf(h, mode, [t] + ts) == [HashOf(h, mode, t)] + HashesOf(h, mode, ts)
    ensures AllLeaves([t] + ts) == LeavesOf(t) + AllLeaves(ts)
  {
    assert ([t] + ts)[1..] == ts;
  }

  lemma {:induction false} NextTreesAgree(h: seq<byte> -> Hash, mode: Mode, level: nat, ts: seq<Tree>)
    ensures HashesOf(h, mode, NextTrees(mode, level, ts)) == NextLevel(h, mode, level, HashesOf(h, mode, ts))
    ensures AllLeaves(NextTrees(mode, level, ts)) == AllLeaves(ts)
  {
    if |ts| == 1 {
      ConsTree(h, mode, ts[0], []);
      ConsTree(h, mode, if mode.Standard? then Single(ts[0]) else ts[0], []);
      assert ts == [ts[0]] + [];
    } else if |ts| > 1 {
      var tail := ts[2..];
      NextTreesAgree(h, mode, level, tail);
      ConsTree(h, mode, Pair(level, ts[0], ts[1]), NextTrees(mode, level, tail));
      ConsTwo(h, mode, ts[0], ts[1], tail);
      assert ts == [ts[0], ts[1]] + tail;
      var hashes := HashesOf(h, mode, tail);
      assert ([HashOf(h, mode, ts[0]), HashOf(h, mode, ts[1])] + hashes)[2..] == hashes;
    }
  }

  lemma ConsTwo(h: seq<byte> -> Hash, mode: Mode, t: Tree, u: Tree, ts: seq<Tree>)
    ensures HashesOf(h, mode, [t, u] + ts) == [HashOf(h, mode, t), HashOf(h, mode, u)] + HashesOf(h, mode, ts)
    ensures AllLeaves([t, u] + ts) == (LeavesOf(t) + LeavesOf(u)) + AllLeaves(ts)
  {
    ConsTree(h, mode, u, ts);
    ConsTree(h, mode, t, [u] + ts);
    assert [t, u] + ts == [t] + ([u] + ts);
  }

  /** The root is the hash of the root tree, whose leaves are all leaves in order. */
  lemma {:induction false} RootTreeAgrees(h: seq<byte> -> Hash, mode: Mode, level: nat, ts: seq<Tree>)
    requires ts != []
    ensures HashOf(h, mode, RootTree(mode, level, ts)) == Root(h, mode, level, HashesOf(h, mode, ts))
    ensures LeavesOf(RootTree(mode, level, ts)) == AllLeaves(ts)
    decreases |ts|
  {
    if |ts| > 1 {
      NextTreesAgree(h, mode, level, ts);
      RootTreeAgrees(h, mode, level + 1, NextTrees(mode, level, ts));
    }
  }

  lemma {:induction false} LeafTreesAgree(h: seq<byte> -> Hash, mode: Mode, data: seq<seq<byte>>)
    ensures HashesOf(h, mode, LeafTrees(data)) == Leaves(h, data)
    ensures AllLeaves(LeafTrees(data)) == data
  {
    if data != [] {
      LeafTreesAgree(h, mode, data[1..]);
      ConsTree(h, mode, Leaf(data[0]), LeafTrees(data[1..]));
      assert Leaves(h, data) == [h(data[0])] + Leaves(h, data[1..]);
      assert data == [data[0]] + data[1..];
    }
  }

  function DataTree(mode: Mode, data: seq<seq<byte>>): Tree
    requires data != []
  {
    RootTree(mode, 0, LeafTrees(data))
  }

  lemma DataTreeAgrees(h: seq<byte> -> Hash, mode: Mode, data: seq<seq<byte>>)
    requires data != []
    ensures HashOf(h, mode, DataTree(mode, data)) == DataRoot(h, mode, data)
    ensures LeavesOf(DataTree(mode, data)) == data
  {
    LeafTreesAgree(h, mode, data);
    RootTreeAgrees(h, mode, 0, LeafTrees(data));
  }

  /** Two different non-empty lists of any lengths with one root give a collision, or a value of one
      list that an inner node of the other's tree hashes. */
  function AnyLengthEvidence(h: seq<byte> -> Hash, mode: Mode, xs: seq<seq<byte>>, ys: seq<seq<byte>>): (e: Evidence)
    requires xs != [] && ys != [] && xs != ys
    requires DataRoot(h, mode, xs) == DataRoot(h, mode, ys)
    ensures !e.SameValues? && Proves(h, mode, DataTree(mode, xs), DataTree(mode, ys), e)
    ensures e.NodeValue? ==> e.value in xs || e.value in ys
  {
    DataTreeAgrees(h, mode, xs);
    DataTreeAgrees(h, mode, ys);
    Compare(h, mode, DataTree(mode, xs), DataTree(mode, ys))
  }

  /** A list with the root of the empty list shows an input whose hash is all zero. */
  lemma EmptyRootIsZero(h: seq<byte> -> Hash, mode: Mode, xs: seq<seq<byte>>)
    requires xs != [] && DataRoot(h, mode, xs) == DataRoot(h, mode, [])
    ensures h(Input(h, mode, DataTree(mode, xs))) == ZERO_HASH
  {
    DataTreeAgrees(h, mode, xs);
  }

  /** A value no inner node can hash: it lacks the length, or in a golden tree the domain, of a node. */
  predicate Unmistakable(mode: Mode, value: seq<byte>) {
    if mode.Standard? then |value| != 32 && |value| != 64 else !(NODE_DOMAIN <= value)
  }

  /** Only standard trees rehash odd nodes. */
  predicate Fits(mode: Mode, t: Tree) {
    match t
    case Leaf(_) => true
    case Pair(_, l, r) => Fits(mode, l) && Fits(mode, r)
    case Single(child) => mode.Standard? && Fits(mode, child)
  }

  predicate AllFit(mode: Mode, ts: seq<Tree>) {
    forall i :: 0 <= i < |ts| ==> Fits(mode, ts[i])
  }

  lemma {:induction false} NextTreesFit(mode: Mode, level: nat, ts: seq<Tree>)
    requires AllFit(mode, ts)
    ensures AllFit(mode, NextTrees(mode, level, ts))
  {
    if |ts| > 1 { NextTreesFit(mode, level, ts[2..]); }
  }

  lemma {:induction false} RootTreeFits(mode: Mode, level: nat, ts: seq<Tree>)
    requires ts != [] && AllFit(mode, ts)
    ensures Fits(mode, RootTree(mode, level, ts))
    decreases |ts|
  {
    if |ts| > 1 {
      NextTreesFit(mode, level, ts);
      RootTreeFits(mode, level + 1, NextTrees(mode, level, ts));
    }
  }

  lemma {:induction false} LeafTreesFit(mode: Mode, data: seq<seq<byte>>)
    ensures AllFit(mode, LeafTrees(data))
  {
    if data != [] { LeafTreesFit(mode, data[1..]); }
  }

  lemma DataTreeFits(mode: Mode, data: seq<seq<byte>>)
    requires data != []
    ensures Fits(mode, DataTree(mode, data))
  {
    LeafTreesFit(mode, data);
    RootTreeFits(mode, 0, LeafTrees(data));
  }

  lemma {:induction false} NeverHashedInside(h: seq<byte> -> Hash, mode: Mode, t: Tree, value: seq<byte>)
    requires Fits(mode, t) && Unmistakable(mode, value)
    ensures !HashedInside(h, mode, t, value)
  {
    match t
    case Leaf(_) =>
    case Single(child) => NeverHashedInside(h, mode, child, value);
    case Pair(level, l, r) =>
      NeverHashedInside(h, mode, l, value);
      NeverHashedInside(h, mode, r, value);
      assert Prefix(mode, level) <= Input(h, mode, t);
      assert mode.Golden? ==> NODE_DOMAIN <= Prefix(mode, level);
  }

  /** Among such values lists of any lengths bind. */
  function AnyLengthCollision(h: seq<byte> -> Hash, mode: Mode, xs: seq<seq<byte>>, ys: seq<seq<byte>>)
    : (pair: (seq<byte>, seq<byte>))
    requires xs != [] && ys != [] && xs != ys
    requires forall v :: v in xs || v in ys ==> Unmistakable(mode, v)
    requires DataRoot(h, mode, xs) == DataRoot(h, mode, ys)
    ensures Collides(h, pair)
  {
    var e := AnyLengthEvidence(h, mode, xs, ys);
    if e.NodeValue? then
      DataTreeFits(mode, xs);
      DataTreeFits(mode, ys);
      NeverHashedInside(h, mode, DataTree(mode, xs), e.value);
      NeverHashedInside(h, mode, DataTree(mode, ys), e.value);
      assert false;
      ([], [])
    else e.pair
  }

  /** Among others they do not, under any hash function: a pair of values and the single value that
      their node hashes have one root. */
  lemma PairAsValue(h: seq<byte> -> Hash, mode: Mode, a: seq<byte>, b: seq<byte>)
    ensures DataRoot(h, mode, [a, b]) == DataRoot(h, mode, [NodeInput(mode, 0, h(a), h(b))])
  {
    var xs, node := Leaves(h, [a, b]), NodeInput(mode, 0, h(a), h(b));
    assert xs == [h(a), h(b)];
    assert NextLevel(h, mode, 0, xs[2..]) == [];
    assert NextLevel(h, mode, 0, xs) == [h(node)];
    assert Leaves(h, [node]) == [h(node)];
    assert DataRoot(h, mode, [node]) == h(node);
    assert Root(h, mode, 0, xs) == Root(h, mode, 1, [h(node)]) == h(node);
  }
}
