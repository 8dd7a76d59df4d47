// The shape of Merkle trees (core/src/crypto.rs), top down and byte by byte: what the level-by-level
// construction hashes, and on which side.

module MerkleShape {
  import opened Arith
  import opened Bytes
  import opened Merkle

  /** Bytes a golden tree hashes before two children: the text "MERKLE_NODE", the level's key, and the
      level in four bytes, least significant first. */
  function GoldenHead(key: seq<byte>, level: nat): seq<byte> {
    [77, 69, 82, 75, 76, 69, 95, 78, 79, 68, 69] + key
    + [level % 256, level / 256 % 256, level / 65536 % 256, level / 16777216 % 256]
  }

  /** What joining two children hashes, left one first. */
  function JoinBytes(mode: Mode, level: nat, l: Hash, r: Hash): seq<byte> {
    match mode
    case Standard => l + r
    case Golden(keys) => GoldenHead(keys(level), level) + l + r
  }

  /** Root of 1 to 2^k leaves, as a tree of height k: up to half of them fill the left subtree and go up
      alone, rehashed in a standard tree and unchanged in a golden one; otherwise the first 2^(k - 1) are
      the left child and the rest the right. */
  function TopDown(h: seq<byte> -> Hash, mode: Mode, k: nat, xs: seq<Hash>): Hash
    requires 1 <= |xs| <= Pow2(k)
  {
    if k == 0 then xs[0]
    else
      var half := Pow2(k - 1);
      if |xs| <= half then
        var alone := TopDown(h, mode, k - 1, xs);
        if mode.Standard? then h(alone) else alone
      else
        h(JoinBytes(mode, k - 1, TopDown(h, mode, k - 1, xs[..half]), TopDown(h, mode, k - 1, xs[half..])))
  }

  /** Level bytes written out. */
  lemma LevelBytes(level: nat)
    ensures LeBytes(level, 4) == [level % 256, level / 256 % 256, level / 65536 % 256, level / 16777216 % 256]
  {
    var l1, l2, l3 := level / 256, level / 256 / 256, level / 256 / 256 / 256;
    assert LeBytes(l3, 1) == [l3 % 256];
    assert LeBytes(l2, 2) == [l2 % 256, l3 % 256];
    assert LeBytes(l1, 3) == [l1 % 256, l2 % 256, l3 % 256];
  }

  /** k levels at once. */
  function Levels(h: seq<byte> -> Hash, mode: Mode, level: nat, xs: seq<Hash>, k: nat): seq<Hash>
    decreases k
  {
    if k == 0 then xs else NextLevel(h, mode, level + k - 1, Levels(h, mode, level, xs, k - 1))
  }

  lemma {:induction false} LevelsFirst(h: seq<byte> -> Hash, mode: Mode, level: nat, xs: seq<Hash>, k: nat)
    ensures Levels(h, mode, level, xs, k + 1) == Levels(h, mode, level + 1, NextLevel(h, mode, level, xs), k)
    decreases k
  {
    if k > 0 { LevelsFirst(h, mode, level, xs, k - 1); }
  }

  /** Pairs never straddle an even cut. */
  lemma {:induction false} NextLevelSplits(h: seq<byte> -> Hash, mode: Mode, level: nat, xs: seq<Hash>, ys: seq<Hash>)
    requires |xs| % 2 == 0
    ensures NextLevel(h, mode, level, xs + ys) == NextLevel(h, mode, level, xs) + NextLevel(h, mode, level, ys)
  {
    if xs == [] {
      assert xs + ys == ys;
    } else {
      assert (xs + ys)[2..] == xs[2..] + ys;
      NextLevelSplits(h, mode, level, xs[2..], ys);
    }
  }

  /** Over j levels, n * 2^j nodes become n. */
  lemma {:induction false} LevelsLength(h: seq<byte> -> Hash, mode: Mode, xs: seq<Hash>, n: nat, j: nat)
    requires |xs| == n * Pow2(j)
    ensures |Levels(h, mode, 0, xs, j)| == n
    decreases j
  {
    if j > 0 {
      MulAssoc(n, 2, Pow2(j - 1));
      LevelsLength(h, mode, xs, n * 2, j - 1);
    }
  }

  ghost predicate SideBySide(h: seq<byte> -> Hash, mode: Mode, xs: seq<Hash>, ys: seq<Hash>, j: nat) {
    Levels(h, mode, 0, xs + ys, j) == Levels(h, mode, 0, xs, j) + Levels(h, mode, 0, ys, j)
  }

  lemma NextSideBySide(h: seq<byte> -> Hash, mode: Mode, xs: seq<Hash>, ys: seq<Hash>, n: nat, j: nat)
    requires |Levels(h, mode, 0, xs, j)| == n * 2 && SideBySide(h, mode, xs, ys, j)
    ensures SideBySide(h, mode, xs, ys, j + 1)
  {
    NextLevelSplits(h, mode, j, Levels(h, mode, 0, xs, j), Levels(h, mode, 0, ys, j));
  }

  /** They and what follows them go up side by side. */
  lemma {:induction false} LevelsSplit(h: seq<byte> -> Hash, mode: Mode, xs: seq<Hash>, ys: seq<Hash>, n: nat, j: nat)
    requires |xs| == n * Pow2(j)
    ensures SideBySide(h, mode, xs, ys, j)
    decreases j
  {
    if j > 0 {
      MulAssoc(n, 2, Pow2(j - 1));
      LevelsLength(h, mode, xs, n * 2, j - 1);
      LevelsSplit(h, mode, xs, ys, n * 2, j - 1);
      NextSideBySide(h, mode, xs, ys, n, j - 1);
    }
  }

  /** After k levels one node is left: the top-down one. */
  ghost predicate IsTopDown(h: seq<byte> -> Hash, mode: Mode, k: nat, xs: seq<Hash>) {
    1 <= |xs| <= Pow2(k) && Levels(h, mode, 0, xs, k) == [TopDown(h, mode, k, xs)]
  }

  lemma HalvesFit(n: nat, k: nat)
    requires Pow2(k) < n <= Pow2(k + 1)
    ensures 1 <= Pow2(k) && 1 <= n - Pow2(k) <= Pow2(k)
  {
  }

  lemma {:induction false} LevelsAreTopDown(h: seq<byte> -> Hash, mode: Mode, k: nat, xs: seq<Hash>)
    requires 1 <= |xs| <= Pow2(k)
    ensures IsTopDown(h, mode, k, xs)
    decreases k
  {
    if k > 0 {
      if |xs| <= Pow2(k - 1) {
        LevelsAreTopDown(h, mode, k - 1, xs);
        LoneUp(h, mode, k - 1, xs);
      } else {
        HalvesFit(|xs|, k - 1);
        LevelsAreTopDown(h, mode, k - 1, xs[..Pow2(k - 1)]);
        LevelsAreTopDown(h, mode, k - 1, xs[Pow2(k - 1)..]);
        HalvesUp(h, mode, k - 1, xs);
      }
    }
  }

  lemma HalvesUp(h: seq<byte> -> Hash, mode: Mode, k: nat, xs: seq<Hash>)
    requires Pow2(k) < |xs| <= Pow2(k + 1)
    requires IsTopDown(h, mode, k, xs[..Pow2(k)]) && IsTopDown(h, mode, k, xs[Pow2(k)..])
    ensures IsTopDown(h, mode, k + 1, xs)
  {
    TopDownHalves(h, mode, k, xs);
    JoinUp(h, mode, k, xs, TopDown(h, mode, k, xs[..Pow2(k)]), TopDown(h, mode, k, xs[Pow2(k)..]));
  }

  lemma TopDownHalves(h: seq<byte> -> Hash, mode: Mode, k: nat, xs: seq<Hash>)
    requires Pow2(k) < |xs| <= Pow2(k + 1)
    ensures TopDown(h, mode, k + 1, xs)
         == h(JoinBytes(mode, k, TopDown(h, mode, k, xs[..Pow2(k)]), TopDown(h, mode, k, xs[Pow2(k)..])))
  {
  }

  lemma JoinUp(h: seq<byte> -> Hash, mode: Mode, k: nat, xs: seq<Hash>, l: Hash, r: Hash)
    requires Pow2(k) <= |xs| && Levels(h, mode, 0, xs[..Pow2(k)], k) == [l]
    requires Levels(h, mode, 0, xs[Pow2(k)..], k) == [r]
    ensures Levels(h, mode, 0, xs, k + 1) == [h(JoinBytes(mode, k, l, r))]
  {
    TwoLeft(h, mode, k, xs, Pow2(k), l, r);
    PairUp(h, mode, k, l, r);
  }

  lemma TwoLeft(h: seq<byte> -> Hash, mode: Mode, k: nat, xs: seq<Hash>, half: nat, l: Hash, r: Hash)
    requires half == Pow2(k) && half <= |xs|
    requires Levels(h, mode, 0, xs[..half], k) == [l] && Levels(h, mode, 0, xs[half..], k) == [r]
    ensures Levels(h, mode, 0, xs, k) == [l] + [r]
  {
    assert xs[..half] + xs[half..] == xs;
    LevelsSplit(h, mode, xs[..half], xs[half..], 1, k);
  }

  lemma LoneUp(h: seq<byte> -> Hash, mode: Mode, k: nat, xs: seq<Hash>)
    requires IsTopDown(h, mode, k, xs)
    ensures IsTopDown(h, mode, k + 1, xs)
  {
    var alone := TopDown(h, mode, k, xs);
    assert NextLevel(h, mode, k, [alone]) == [if mode.Standard? then h(alone) else alone];
  }

  lemma PairUp(h: seq<byte> -> Hash, mode: Mode, level: nat, l: Hash, r: Hash)
    ensures NextLevel(h, mode, level, [l] + [r]) == [h(JoinBytes(mode, level, l, r))]
  {
    LevelBytes(level);
    var pair := [l] + [r];
    assert pair[2..] == [];
    assert NodeInput(mode, level, l, r) == JoinBytes(mode, level, l, r);
  }

  /** The root, built level by level, is the top-down one of the least height that holds the leaves. */
  lemma {:induction false} RootIsTopDown(h: seq<byte> -> Hash, mode: Mode, k: nat, xs: seq<Hash>)
    requires 1 <= |xs| <= Pow2(k) && (k > 0 ==> Pow2(k - 1) < |xs|)
    ensures Root(h, mode, 0, xs) == TopDown(h, mode, k, xs)
  {
    LevelsAreTopDown(h, mode, k, xs);
    RootIsLastLevel(h, mode, 0, xs, k);
  }

  lemma {:induction false} RootIsLastLevel(h: seq<byte> -> Hash, mode: Mode, level: nat, xs: seq<Hash>, k: nat)
    requires 1 <= |xs| <= Pow2(k) && (k > 0 ==> Pow2(k - 1) < |xs|)
    ensures |Levels(h, mode, level, xs, k)| == 1
    ensures Root(h, mode, level, xs) == Levels(h, mode, level, xs, k)[0]
    decreases k
  {
    if k > 0 {
      var next := NextLevel(h, mode, level, xs);
      HalvedHeight(|xs|, k);
      RootIsLastLevel(h, mode, level + 1, next, k - 1);
      assert Levels(h, mode, level, xs, k) == Levels(h, mode, level + 1, next, k - 1) by {
        LevelsFirst(h, mode, level, xs, k - 1);
      }
      assert Root(h, mode, level, xs) == Root(h, mode, level + 1, next);
    }
  }

  /** Half as many nodes need one level less. */
  lemma HalvedHeight(n: nat, k: nat)
    requires k > 0 && Pow2(k - 1) < n <= Pow2(k)
    ensures 1 < n && 1 <= (n + 1) / 2 <= Pow2(k - 1) && (k > 1 ==> Pow2(k - 2) < (n + 1) / 2)
  {
  }

  /** 2^k leaves followed by 1 to 2^k more: the root hashes the first ones' root on the left and the
      others', lifted to the same height, on the right. */
  lemma RootOfTwoParts(h: seq<byte> -> Hash, mode: Mode, k: nat, xs: seq<Hash>, ys: seq<Hash>)
    requires |xs| == Pow2(k) && 1 <= |ys| <= Pow2(k)
    ensures Root(h, mode, 0, xs + ys) == h(JoinBytes(mode, k, Root(h, mode, 0, xs), TopDown(h, mode, k, ys)))
  {
    RootIsTopDown(h, mode, k, xs);
    RootIsTopDown(h, mode, k + 1, xs + ys);
    TopDownParts(h, mode, k, xs, ys);
  }

  lemma TopDownParts(h: seq<byte> -> Hash, mode: Mode, k: nat, xs: seq<Hash>, ys: seq<Hash>)
    requires |xs| == Pow2(k) && 1 <= |ys| <= Pow2(k)
    ensures TopDown(h, mode, k + 1, xs + ys)
         == h(JoinBytes(mode, k, TopDown(h, mode, k, xs), TopDown(h, mode, k, ys)))
  {
    var all := xs + ys;
    assert all[..Pow2(k)] == xs && all[Pow2(k)..] == ys;
    TopDownHalves(h, mode, k, all);
  }

  // ---------------------------------------------------------------- small trees, written out

  lemma StandardRoots(h: seq<byte> -> Hash, a: seq<byte>, b: seq<byte>, c: seq<byte>)
    ensures DataRoot(h, Standard, []) == ZERO_HASH
    ensures DataRoot(h, Standard, [a]) == h(a)
    ensures DataRoot(h, Standard, [a, b]) == h(h(a) + h(b))
    ensures DataRoot(h, Standard, [a, b, c]) == h(h(h(a) + h(b)) + h(h(c)))
  {
    TwoLeaves(h, Standard, a, b);
    ThreeLeaves(h, Standard, a, b, c);
    assert Leaves(h, [a]) == [h(a)] && Leaves(h, []) == [];
  }

  lemma GoldenRoots(h: seq<byte> -> Hash, keys: nat -> seq<byte>, a: seq<byte>, b: seq<byte>, c: seq<byte>)
    ensures var text: seq<byte> := [77, 69, 82, 75, 76, 69, 95, 78, 79, 68, 69];
            var ab := h(text + keys(0) + [0, 0, 0, 0] + h(a) + h(b));
            && DataRoot(h, Golden(keys), [a]) == h(a)
            && DataRoot(h, Golden(keys), [a, b]) == ab
            && DataRoot(h, Golden(keys), [a, b, c]) == h(text + keys(1) + [1, 0, 0, 0] + ab + h(c))
  {
    TwoLeaves(h, Golden(keys), a, b);
    ThreeLeaves(h, Golden(keys), a, b, c);
    assert Leaves(h, [a]) == [h(a)];
  }

  lemma TwoLeaves(h: seq<byte> -> Hash, mode: Mode, a: seq<byte>, b: seq<byte>)
    ensures DataRoot(h, mode, [a, b]) == h(JoinBytes(mode, 0, h(a), h(b)))
  {
    assert Leaves(h, [a, b]) == [h(a)] + [h(b)];
    assert Pow2(0) == 1;
    RootOfTwoParts(h, mode, 0, [h(a)], [h(b)]);
  }

  lemma ThreeLeaves(h: seq<byte> -> Hash, mode: Mode, a: seq<byte>, b: seq<byte>, c: seq<byte>)
    ensures DataRoot(h, mode, [a, b, c])
         == h(JoinBytes(mode, 1, DataRoot(h, mode, [a, b]), if mode.Standard? then h(h(c)) else h(c)))
  {
    assert Leaves(h, [a, b]) == [h(a), h(b)];
    assert Leaves(h, [a, b, c]) == [h(a), h(b)] + [h(c)];
    assert Pow2(0) == 1 && Pow2(1) == 2;
    RootOfTwoParts(h, mode, 1, [h(a), h(b)], [h(c)]);
    assert TopDown(h, mode, 0, [h(c)]) == h(c);
  }
}
