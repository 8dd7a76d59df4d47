// Compaction of the append-only store (adzdb/src/lib.rs): replaying every served height, lowest first,
// into an empty store, whatever prunes and reopens came before.

module Compaction {
  import opened Arith
  import opened Bytes
  import opened StoreCodec
  import opened StoreSpec
  import opened Sessions

  ghost predicate Ascending(items: seq<Item>) {
    forall i, j :: 0 <= i < j < |items| ==> items[i].height < items[j].height
  }

  /** Compaction can copy this height: its hash reads back, and put takes the height. */
  predicate Copyable(s: Store, h: nat) {
    h in s.heightIndex && Get(s, s.heightIndex[h]).Found? && h <= MAX_REASONABLE_HEIGHT
  }

  datatype CopyResult = Copied | ReadFailed(reason: ReadResult) | Rejected

  /** What copying a served height comes to: it is read first, then put. */
  function CopyOutcome(s: Store, h: nat): (r: CopyResult)
    requires h in s.heightIndex
    ensures r.Copied? <==> Copyable(s, h)
    ensures r.Rejected? <==> GetByHeight(s, h).Found? && h > 10_000_000
    ensures r.ReadFailed? ==> !GetByHeight(s, h).Found? && r.reason == GetByHeight(s, h)
  {
    if !GetByHeight(s, h).Found? then ReadFailed(GetByHeight(s, h))
    else if h > MAX_REASONABLE_HEIGHT then Rejected
    else Copied
  }

  /** The item copied for one height. */
  ghost predicate Replays(s: Store, item: Item, h: nat) {
    && h in s.heightIndex && h <= MAX_REASONABLE_HEIGHT
    && item.height == h && item.hash == s.heightIndex[h]
    && Get(s, item.hash) == Found(item.data)
  }

  ghost predicate ReplayedAt(s: Store, items: seq<Item>, i: nat)
    requires i < |items|
  {
    Replays(s, items[i], items[i].height)
  }

  ghost predicate HasHeight(items: seq<Item>, n: nat, h: nat)
    requires n <= |items|
  {
    exists i :: 0 <= i < n && items[i].height == h
  }

  /** The items compaction replays: one per served height, lowest first, with the bytes served. */
  ghost predicate IsReplay(s: Store, items: seq<Item>) {
    && Ascending(items)
    && (forall i {:trigger ReplayedAt(s, items, i)} :: 0 <= i < |items| ==> ReplayedAt(s, items, i))
    && (forall h {:trigger HasHeight(items, |items|, h)} :: h in s.heightIndex ==> HasHeight(items, |items|, h))
  }

  /** Sizes in the index fit their 32-bit field. */
  ghost predicate SizesFit(s: Store) {
    forall x :: x in s.hashIndex ==> s.hashIndex[x].size < TWO32
  }

  lemma ReplayedSize(s: Store, items: seq<Item>, i: nat)
    requires SizesFit(s) && IsReplay(s, items) && i < |items|
    ensures |items[i].data| < TWO32 && items[i].height <= MAX_REASONABLE_HEIGHT
  {
    assert ReplayedAt(s, items, i);
  }

  // ---------------------------------------------------------------- what put keeps of a replay

  /** Item i is the first with its hash. */
  ghost predicate FirstOfHash(items: seq<Item>, i: int) {
    0 <= i < |items| && forall k {:trigger DifferAt(items, k, i)} :: 0 <= k < i ==> DifferAt(items, k, i)
  }

  /** Every kept item is the first of the run with its hash. */
  lemma {:induction false} KeptIsFirst(items: seq<Item>, k: nat) returns (i: nat)
    requires k < |Kept(items)| && HeightsAllowed(items)
    ensures FirstOfHash(items, i) && Kept(items)[k] == items[i]
  {
    var n := |items| - 1;
    var before := items[..n];
    if k < |Kept(before)| {
      i := KeptIsFirst(before, k);
      forall j | 0 <= j < i
        ensures DifferAt(items, j, i)
      {
        assert DifferAt(before, j, i);
      }
    } else {
      i := n;
      forall j | 0 <= j < n
        ensures DifferAt(items, j, n)
      {
        KeepsEveryHash(before, j);
      }
    }
  }

  /** Every hash of the run is kept once. */
  lemma {:induction false} KeepsEveryHash(items: seq<Item>, i: nat)
    requires i < |items| && HeightsAllowed(items)
    ensures HasHash(Kept(items), items[i].hash)
  {
    var before, last := items[..|items| - 1], items[|items| - 1];
    if i < |items| - 1 { KeepsEveryHash(before, i); }
    HasHashPush(Kept(before), last, items[i].hash);
  }

  /** The first item with a hash is kept. */
  lemma KeepsFirst(items: seq<Item>, i: nat) returns (k: nat)
    requires FirstOfHash(items, i) && HeightsAllowed(items)
    ensures k < |Kept(items)| && Kept(items)[k] == items[i]
  {
    forall j | 0 <= j < i
      ensures items[j].hash != items[i].hash
    {
      assert DifferAt(items, j, i);
    }
    k := KeptContains(items, i);
  }

  lemma {:induction false} HeightMapOf(log: seq<Item>, n: nat, h: nat)
    requires n <= |log|
    ensures h in LastAtHeight(log, n) <==> HasHeight(log, n, h)
  {
    if n > 0 { HeightMapOf(log, n - 1, h); }
  }

  /** The compacted store holds the kept part of the replay. */
  lemma CompactedHolds(s: Store, items: seq<Item>, sync: bool)
    requires SizesFit(s) && IsReplay(s, items)
    ensures HeightsAllowed(items) && Holds(PutAll(Created(sync), items), Kept(items))
  {
    forall i | 0 <= i < |items|
      ensures items[i].height <= MAX_REASONABLE_HEIGHT
    {
      ReplayedSize(s, items, i);
    }
    RunHoldsKept(sync, items);
  }

  // ---------------------------------------------------------------- what the compacted store serves

  /** The lowest height served with its hash. */
  ghost predicate LowestOfHash(s: Store, h: nat) {
    h in s.heightIndex && forall g :: g in s.heightIndex && g < h ==> s.heightIndex[g] != s.heightIndex[h]
  }

  lemma FirstIsLowest(s: Store, items: seq<Item>, i: nat)
    requires IsReplay(s, items) && i < |items|
    ensures FirstOfHash(items, i) <==> LowestOfHash(s, items[i].height)
  {
    var h := items[i].height;
    assert ReplayedAt(s, items, i);
    if FirstOfHash(items, i) {
      forall g | g in s.heightIndex && g < h
        ensures s.heightIndex[g] != s.heightIndex[h]
      {
        assert HasHeight(items, |items|, g);
        var j :| 0 <= j < |items| && items[j].height == g;
        assert ReplayedAt(s, items, j) && DifferAt(items, j, i);
      }
    }
    if LowestOfHash(s, h) {
      forall j | 0 <= j < i
        ensures DifferAt(items, j, i)
      {
        assert ReplayedAt(s, items, j);
      }
    }
  }

  /** The compacted store serves each hash at the lowest height it was served at, with the same bytes,
      and nothing else: put drops a hash it already has. */
  lemma CompactServes(s: Store, items: seq<Item>, sync: bool, h: nat)
    requires SizesFit(s) && IsReplay(s, items)
    ensures GetByHeight(PutAll(Created(sync), items), h)
         == if LowestOfHash(s, h) then GetByHeight(s, h) else NotFound
  {
    var t, kept := PutAll(Created(sync), items), Kept(items);
    CompactedHolds(s, items, sync);
    HeightMapOf(kept, |kept|, h);
    if LowestOfHash(s, h) {
      assert HasHeight(items, |items|, h);
      var i :| 0 <= i < |items| && items[i].height == h;
      FirstIsLowest(s, items, i);
      var k := KeepsFirst(items, i);
      assert kept[k].height == h;
      ServedFromReplay(s, items, t, h);
    } else if HasHeight(kept, |kept|, h) {
      var k :| 0 <= k < |kept| && kept[k].height == h;
      var i := KeptIsFirst(items, k);
      FirstIsLowest(s, items, i);
      assert false;
    }
  }

  /** A height of the compacted store reads the bytes of the original. */
  lemma ServedFromReplay(s: Store, items: seq<Item>, t: Store, h: nat)
    requires SizesFit(s) && IsReplay(s, items) && HeightsAllowed(items) && Holds(t, Kept(items))
    requires HasHeight(Kept(items), |Kept(items)|, h)
    ensures h in s.heightIndex && GetByHeight(t, h) == GetByHeight(s, h)
  {
    var kept := Kept(items);
    var k0 :| 0 <= k0 < |kept| && kept[k0].height == h;
    var k := LastHashAt(kept, |kept|, k0, h);
    var i := KeptIsFirst(items, k);
    assert ReplayedAt(s, items, i);
    ReplayedSize(s, items, i);
    StoredBytes(t, kept, k);
  }

  /** No hash is served at two heights. */
  ghost predicate OneHeightEach(s: Store) {
    forall h :: h in s.heightIndex ==> LowestOfHash(s, h)
  }

  /** Compaction keeps every height if and only if no hash is served at two heights. */
  lemma CompactExactIff(s: Store, items: seq<Item>, sync: bool)
    requires SizesFit(s) && IsReplay(s, items)
    ensures (forall h :: GetByHeight(PutAll(Created(sync), items), h) == GetByHeight(s, h)) <==> OneHeightEach(s)
  {
    var t := PutAll(Created(sync), items);
    if forall h :: GetByHeight(t, h) == GetByHeight(s, h) {
      forall h | h in s.heightIndex
        ensures LowestOfHash(s, h)
      {
        assert GetByHeight(t, h) == GetByHeight(s, h);
        CompactServes(s, items, sync, h);
        assert HasHeight(items, |items|, h);
        var i :| 0 <= i < |items| && items[i].height == h;
        assert ReplayedAt(s, items, i);
      }
    }
    if OneHeightEach(s) {
      forall h
        ensures GetByHeight(t, h) == GetByHeight(s, h)
      {
        CompactServes(s, items, sync, h);
      }
    }
  }

  /** By hash, the compacted store reads exactly the hashes served at some height, with the same bytes. */
  lemma CompactGets(s: Store, items: seq<Item>, sync: bool, x: Hash)
    requires SizesFit(s) && IsReplay(s, items)
    ensures Get(PutAll(Created(sync), items), x) == if x in s.heightIndex.Values then Get(s, x) else NotFound
  {
    var t, kept := PutAll(Created(sync), items), Kept(items);
    CompactedHolds(s, items, sync);
    KeptHashes(s, items, x);
    LastEntriesKeys(kept, |kept|, x);
    if HasHash(kept, x) {
      var k :| 0 <= k < |kept| && kept[k].hash == x;
      var i := KeptIsFirst(items, k);
      assert ReplayedAt(s, items, i);
      ReplayedSize(s, items, i);
      StoredBytes(t, kept, k);
    }
  }

  /** Compaction keeps every hash readable if and only if every indexed hash is served at some height. */
  lemma CompactHashesIff(s: Store, items: seq<Item>, sync: bool)
    requires SizesFit(s) && IsReplay(s, items)
    ensures (forall x :: Get(PutAll(Created(sync), items), x) == Get(s, x))
            <==> forall x :: x in s.hashIndex ==> x in s.heightIndex.Values
  {
    var t := PutAll(Created(sync), items);
    forall x
      ensures Get(t, x) == if x in s.heightIndex.Values then Get(s, x) else NotFound
      ensures x in s.hashIndex <==> Get(s, x) != NotFound
    {
      CompactGets(s, items, sync, x);
    }
  }

  /** With hashes and heights one to one, compacting after any session keeps every read. */
  lemma ChainSessionCompacts(sync: bool, ops: seq<SessionOp>, items: seq<Item>, h: nat, x: Hash)
    requires |Session(sync, ops).data| < TWO64 && OneHeightPerHash(ops) && OneHashPerHeight(ops)
    requires IsReplay(Session(sync, ops), items)
    ensures GetByHeight(PutAll(Created(sync), items), h) == GetByHeight(Session(sync, ops), h)
    ensures Get(PutAll(Created(sync), items), x) == Get(Session(sync, ops), x)
  {
    var s := Session(sync, ops);
    OneHeightPerHashServed(sync, ops);
    EverySessionShown(sync, ops);
    ServedCompacts(s);
    CompactExactIff(s, items, sync);
    CompactGets(s, items, sync, x);
    if x in s.hashIndex { assert Shown(s, x); }
  }

  /** A served store has no hash at two heights, and can always be compacted. */
  lemma ServedCompacts(s: Store)
    requires Served(s)
    ensures SizesFit(s) && OneHeightEach(s) && forall h :: h in s.heightIndex ==> Copyable(s, h)
  {
    forall h, g | h in s.heightIndex && g in s.heightIndex && g < h
      ensures s.heightIndex[g] != s.heightIndex[h]
    {
      assert s.hashIndex[s.heightIndex[g]].height == g;
    }
  }

  /** After any session, what memory says can be copied unless its hash was forgotten. */
  lemma BackedCopies(s: Store, log: seq<Item>, h: nat)
    requires Backed(s, log) && h in s.heightIndex
    ensures SizesFit(s) && (Copyable(s, h) <==> s.heightIndex[h] in s.hashIndex)
  {
    forall x | x in s.hashIndex
      ensures s.hashIndex[x].size < TWO32
    {
      EntryInside(s, log, x);
    }
    assert HeightFrom(s, log, h);
    HeightsOfLog(log, |log|, h);
    if s.heightIndex[h] in s.hashIndex {
      var _ := SessionReads(s, log, s.heightIndex[h]);
    }
  }

  lemma {:induction false} HeightsOfLog(log: seq<Item>, n: nat, h: nat)
    requires n <= |log| && HeightsAllowed(log)
    ensures h in LastAtHeight(log, n) || h in LastNonZero(log, n) ==> h <= MAX_REASONABLE_HEIGHT
  {
    if n > 0 { HeightsOfLog(log, n - 1, h); }
  }

  // ---------------------------------------------------------------- its counters

  /** It counts one entry per hash served, and its latest height is the greatest it serves, 0 if there
      is none. */
  lemma CompactCounts(s: Store, items: seq<Item>, sync: bool)
    requires SizesFit(s) && IsReplay(s, items)
    ensures var t := PutAll(Created(sync), items);
            && t.metadata.entryCount == |s.heightIndex.Values|
            && (forall h :: h in t.heightIndex ==> h <= t.metadata.latestHeight)
            && (t.metadata.latestHeight != 0 ==> t.metadata.latestHeight in t.heightIndex)
  {
    var t, kept := PutAll(Created(sync), items), Kept(items);
    CompactedHolds(s, items, sync);
    KeptCount(s, items);
    forall h | h in t.heightIndex
      ensures h <= t.metadata.latestHeight
    {
      HeightMapOf(kept, |kept|, h);
    }
    if t.metadata.latestHeight != 0 {
      var i :| FirstAtHeight(kept, i, t.metadata.latestHeight);
      var _ := LastHashAt(kept, |kept|, i, t.metadata.latestHeight);
    }
  }

  lemma KeptCount(s: Store, items: seq<Item>)
    requires IsReplay(s, items) && HeightsAllowed(items) && Admissible(Kept(items))
    ensures |Kept(items)| == |s.heightIndex.Values|
  {
    var kept := Kept(items);
    HashesCount(kept, |kept|);
    forall x: Hash
      ensures x in HashSet(kept, |kept|) <==> x in s.heightIndex.Values
    {
      InHashSet(kept, |kept|, x);
      KeptHashes(s, items, x);
    }
    assert s.heightIndex.Values == HashSet(kept, |kept|);
  }

  lemma KeptHashes(s: Store, items: seq<Item>, x: Hash)
    requires IsReplay(s, items) && HeightsAllowed(items)
    ensures HasHash(Kept(items), x) <==> x in s.heightIndex.Values
  {
    if HasHash(Kept(items), x) {
      var k :| 0 <= k < |Kept(items)| && Kept(items)[k].hash == x;
      var i := KeptIsFirst(items, k);
      assert ReplayedAt(s, items, i);
    }
    if h: nat :| h in s.heightIndex && s.heightIndex[h] == x {
      assert HasHeight(items, |items|, h);
      var i :| 0 <= i < |items| && items[i].height == h;
      assert ReplayedAt(s, items, i);
      KeepsEveryHash(items, i);
    }
  }

  ghost function HashSet(items: seq<Item>, n: nat): set<Hash>
    requires n <= |items|
  {
    if n == 0 then {} else HashSet(items, n - 1) + {items[n - 1].hash}
  }

  lemma {:induction false} InHashSet(items: seq<Item>, n: nat, x: Hash)
    requires n <= |items|
    ensures x in HashSet(items, n) <==> exists i :: 0 <= i < n && items[i].hash == x
  {
    if n > 0 { InHashSet(items, n - 1, x); }
  }

  lemma {:induction false} HashesCount(items: seq<Item>, n: nat)
    requires n <= |items| && Admissible(items)
    ensures |HashSet(items, n)| == n
  {
    if n > 0 {
      HashesCount(items, n - 1);
      InHashSet(items, n - 1, items[n - 1].hash);
      forall i | 0 <= i < n - 1
        ensures items[i].hash != items[n - 1].hash
      {
        assert DifferAt(items, i, n - 1);
      }
    }
  }

  // ---------------------------------------------------------------- reopening it

  lemma {:induction false} OffsetBound(items: seq<Item>, n: nat)
    requires n <= |items| && forall i :: 0 <= i < |items| ==> |items[i].data| < TWO32
    ensures Offset(items, n) <= n * TWO32
  {
    if n > 0 {
      OffsetBound(items, n - 1);
      MulStep(n, TWO32);
    }
  }

  /** Strictly increasing heights grow at least as fast as their position. */
  lemma {:induction false} HeightAbovePosition(items: seq<Item>, i: nat)
    requires i < |items| && Ascending(items)
    ensures items[i].height >= i
  {
    if i > 0 { HeightAbovePosition(items, i - 1); }
  }

  lemma {:induction false} KeptIsShorter(items: seq<Item>)
    ensures |Kept(items)| <= |items|
  {
    if items != [] { KeptIsShorter(items[..|items| - 1]); }
  }

  lemma ReplayFits(s: Store, items: seq<Item>)
    requires SizesFit(s) && IsReplay(s, items) && HeightsAllowed(items)
    ensures |Kept(items)| <= MAX_REASONABLE_HEIGHT + 1 && Offset(Kept(items), |Kept(items)|) < TWO64
  {
    var kept, n := Kept(items), |items|;
    KeptIsShorter(items);
    if n > 0 { HeightAbovePosition(items, n - 1); }
    forall k | 0 <= k < |kept|
      ensures |kept[k].data| < TWO32
    {
      var i := KeptIsFirst(items, k);
      ReplayedSize(s, items, i);
    }
    OffsetBound(kept, |kept|);
    MulMono(|kept|, MAX_REASONABLE_HEIGHT + 1, TWO32);
  }

  /** A compacted store always fits its 64-bit offsets, and reopening it is the identity exactly when
      no served hash is all zero. */
  lemma CompactReopens(s: Store, items: seq<Item>, sync: bool)
    requires SizesFit(s) && IsReplay(s, items)
    ensures var t := Synced(PutAll(Created(sync), items));
            && |t.data| < TWO64
            && (Open(t) == Opened(t) <==> ZERO_HASH !in s.heightIndex.Values)
  {
    var t, kept := PutAll(Created(sync), items), Kept(items);
    CompactedHolds(s, items, sync);
    assert Holds(Synced(t), kept) by { SameFiles(t, Synced(t), kept); }
    ReplayFits(s, items);
    ReopenExactIff(Synced(t), kept);
    LastEntriesKeys(kept, |kept|, ZERO_HASH);
    KeptHashes(s, items, ZERO_HASH);
  }
}
