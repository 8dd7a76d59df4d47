// Whole sessions with the append-only store (adzdb/src/lib.rs): puts, prunes, syncs and reopens in
// any order. Pruning forgets in memory only, so a hash can be stored again and the files can hold it
// twice; reopening then brings back the last record of each hash and of each height.

module Sessions {
  import opened Arith
  import opened Bytes
  import opened StoreCodec
  import opened StoreSpec

  // ---------------------------------------------------------------- pruning

  /** Pruning before k looks up the hashes served strictly between 0 and k, forgets them, and forgets
      for each the height its entry names, in memory only. */
  function Doomed(s: Store, k: nat): set<nat> {
    set h | h in s.heightIndex && 0 < h < k
  }

  function HashesAt(s: Store, heights: set<nat>): set<Hash> {
    set h | h in heights && h in s.heightIndex :: s.heightIndex[h]
  }

  function HeightsNamed(s: Store, hashes: set<Hash>): set<nat> {
    set x | x in hashes && x in s.hashIndex :: s.hashIndex[x].height
  }

  function Prune(s: Store, k: nat): Store {
    var hashes := HashesAt(s, Doomed(s, k));
    s.(hashIndex := s.hashIndex - hashes, heightIndex := s.heightIndex - HeightsNamed(s, hashes))
  }

  /** Height g depends on height h: the entry served at h names g, or g serves the same hash. */
  predicate Linked(s: Store, h: nat, g: nat) {
    && h in s.heightIndex && s.heightIndex[h] in s.hashIndex
    && (s.hashIndex[s.heightIndex[h]].height == g || (g in s.heightIndex && s.heightIndex[g] == s.heightIndex[h]))
  }

  predicate Dropped(k: nat, h: nat) { 0 < h < k }

  /** What pruning before k is for, by height: nothing served between 0 and k, every other height as
      before. */
  ghost predicate PrunesHeights(s: Store, k: nat) {
    forall h :: GetByHeight(Prune(s, k), h) == if Dropped(k, h) then NotFound else GetByHeight(s, h)
  }

  /** On any store, pruning does so if and only if no height kept depends on one dropped. */
  lemma PruneExactIff(s: Store, k: nat)
    ensures PrunesHeights(s, k) <==>
            forall h, g :: Dropped(k, h) && !Dropped(k, g) && Linked(s, h, g) ==> GetByHeight(s, g) == NotFound
  {
    if PrunesHeights(s, k) {
      forall h, g | Dropped(k, h) && !Dropped(k, g) && Linked(s, h, g)
        ensures GetByHeight(s, g) == NotFound
      {
        LinkedIsLost(s, k, h, g);
      }
    } else {
      var g :| GetByHeight(Prune(s, k), g) != if Dropped(k, g) then NotFound else GetByHeight(s, g);
      var h := LossHasCause(s, k, g);
    }
  }

  lemma LinkedIsLost(s: Store, k: nat, h: nat, g: nat)
    requires Dropped(k, h) && Linked(s, h, g)
    ensures GetByHeight(Prune(s, k), g) == NotFound
  {
    assert h in Doomed(s, k);
    assert s.heightIndex[h] in HashesAt(s, Doomed(s, k));
  }

  /** A height that pruning gets wrong depends on a dropped one. */
  lemma LossHasCause(s: Store, k: nat, g: nat) returns (h: nat)
    requires GetByHeight(Prune(s, k), g) != if Dropped(k, g) then NotFound else GetByHeight(s, g)
    ensures Dropped(k, h) && !Dropped(k, g) && Linked(s, h, g) && GetByHeight(s, g) != NotFound
  {
    if Dropped(k, g) {
      LinkedIsLost(s, k, g, g);
      assert false;
    }
    var hashes := HashesAt(s, Doomed(s, k));
    if g in HeightsNamed(s, hashes) {
      var x :| x in hashes && x in s.hashIndex && s.hashIndex[x].height == g;
      h :| h in Doomed(s, k) && h in s.heightIndex && s.heightIndex[h] == x;
    } else {
      h :| h in Doomed(s, k) && h in s.heightIndex && s.heightIndex[h] == s.heightIndex[g];
    }
  }

  /** By hash, pruning hides exactly the hashes served at doomed heights. */
  lemma PruneGets(s: Store, k: nat, x: Hash)
    ensures Get(Prune(s, k), x) == if x in HashesAt(s, Doomed(s, k)) then NotFound else Get(s, x)
  {
  }

  /** The entry of a hash lies between 0 and k. */
  predicate Aged(s: Store, k: nat, x: Hash) {
    x in s.hashIndex && Dropped(k, s.hashIndex[x].height)
  }

  /** What pruning before k is for, by hash: no entry between 0 and k readable, every other as before. */
  ghost predicate PrunesHashes(s: Store, k: nat) {
    forall x :: Get(Prune(s, k), x) == if Aged(s, k, x) then NotFound else Get(s, x)
  }

  /** On any store, the entries between 0 and k all become unreadable by hash if and only if each is
      served at some such height; and nothing else does, if and only if none but them is. */
  lemma PruneHashesIff(s: Store, k: nat)
    ensures (forall x :: Aged(s, k, x) ==> Get(Prune(s, k), x) == NotFound)
            <==> forall x :: Aged(s, k, x) ==> x in HashesAt(s, Doomed(s, k))
    ensures PrunesHashes(s, k)
            <==> forall x :: x in s.hashIndex ==> (Aged(s, k, x) <==> x in HashesAt(s, Doomed(s, k)))
  {
    var hidden := HashesAt(s, Doomed(s, k));
    forall x
      ensures Get(Prune(s, k), x) == if x in hidden then NotFound else Get(s, x)
      ensures x in s.hashIndex <==> Get(s, x) != NotFound
    {
      PruneGets(s, k, x);
    }
  }

  /** Every served height leads to an entry of that height whose bytes lie inside the data file. */
  ghost predicate Served(s: Store) {
    && |s.metadata.magic| == 4
    && (forall h :: h in s.heightIndex ==>
          && h <= MAX_REASONABLE_HEIGHT
          && s.heightIndex[h] in s.hashIndex
          && s.hashIndex[s.heightIndex[h]].height == h)
    && (forall x :: x in s.hashIndex ==>
          && s.hashIndex[x].size < TWO32
          && s.hashIndex[x].offset + s.hashIndex[x].size <= |s.data|)
  }

  /** The height a hash's entry names serves that hash. */
  predicate Shown(s: Store, x: Hash) {
    && x in s.hashIndex && s.hashIndex[x].height in s.heightIndex
    && s.heightIndex[s.hashIndex[x].height] == x
  }

  /** There pruning by height always does what it is for, and by hash if and only if the entries between
      0 and k are all shown at their heights; a second hash stored at such a height stays readable. The
      files do not change, so a reopen sees what it saw before. */
  lemma PruneEffect(s: Store, k: nat)
    requires Served(s)
    ensures PrunesHeights(s, k) && Served(Prune(s, k))
    ensures PrunesHashes(s, k) <==> forall x :: Aged(s, k, x) ==> Shown(s, x)
    ensures Prune(s, k).heightIndex == s.heightIndex - Doomed(s, k)
    ensures Open(Prune(s, k)) == Open(s)
  {
    PruneExactIff(s, k);
    PruneHashesIff(s, k);
    NamedAreDoomed(s, k);
    forall x | x in s.hashIndex
      ensures x in HashesAt(s, Doomed(s, k)) <==> Aged(s, k, x) && Shown(s, x)
    {
      HiddenAreShown(s, k, x);
    }
    var t := Prune(s, k);
    forall h | h in t.heightIndex
      ensures t.heightIndex[h] in t.hashIndex && t.hashIndex[t.heightIndex[h]].height == h
    {
      assert s.hashIndex[s.heightIndex[h]].height == h;
    }
  }

  lemma HiddenAreShown(s: Store, k: nat, x: Hash)
    requires Served(s) && x in s.hashIndex
    ensures x in HashesAt(s, Doomed(s, k)) <==> Aged(s, k, x) && Shown(s, x)
  {
    if Aged(s, k, x) && Shown(s, x) {
      assert s.hashIndex[x].height in Doomed(s, k);
    }
  }

  lemma NamedAreDoomed(s: Store, k: nat)
    requires Served(s)
    ensures HeightsNamed(s, HashesAt(s, Doomed(s, k))) == Doomed(s, k)
  {
    forall h | h in Doomed(s, k)
      ensures h in HeightsNamed(s, HashesAt(s, Doomed(s, k)))
    {
      assert s.heightIndex[h] in HashesAt(s, Doomed(s, k)) && s.hashIndex[s.heightIndex[h]].height == h;
    }
  }

  // ---------------------------------------------------------------- sessions

  datatype SessionOp = DoPut(item: Item) | DoPrune(keepHeight: nat) | DoSync | DoReopen

  function Reopened(s: Store): Store {
    match Open(s)
    case Opened(t) => t
    case _ => s
  }

  function SessionStep(s: Store, op: SessionOp): (t: Store)
    requires |s.metadata.magic| == 4
    ensures |t.metadata.magic| == 4
  {
    match op
    case DoPut(item) => Put(s, item)
    case DoPrune(k) => Prune(s, k)
    case DoSync => Synced(s)
    case DoReopen => Reopened(s)
  }

  function Session(sync: bool, ops: seq<SessionOp>): (t: Store)
    ensures |t.metadata.magic| == 4
  {
    if ops == [] then Created(sync) else SessionStep(Session(sync, ops[..|ops| - 1]), ops[|ops| - 1])
  }

  /** The items a step appends to the files. */
  function Appended(s: Store, op: SessionOp): seq<Item> {
    if op.DoPut? && Accepts(s, op.item) then [op.item] else []
  }

  /** All items the session accepted, in order; a hash pruned in between can come twice. */
  function History(sync: bool, ops: seq<SessionOp>): seq<Item> {
    if ops == [] then []
    else
      var before := ops[..|ops| - 1];
      History(sync, before) + Appended(Session(sync, before), ops[|ops| - 1])
  }

  /** The files hold the log, and memory holds a part of what they say: of each hash the last entry,
      of each height the last hash, with or without the all-zero one. */
  ghost predicate Backed(s: Store, log: seq<Item>) {
    && FilesHold(s, log) && HeightsAllowed(log)
    && (forall x :: x in s.hashIndex ==> HashFrom(s, log, x))
    && (forall h :: h in s.heightIndex ==> HeightFrom(s, log, h))
    && Sane(s.metadata) && MetaReads(s)
  }

  ghost predicate HashFrom(s: Store, log: seq<Item>, x: Hash)
    requires x in s.hashIndex
  {
    x in LastEntries(log, |log|) && s.hashIndex[x] == LastEntries(log, |log|)[x]
  }

  ghost predicate HeightFrom(s: Store, log: seq<Item>, h: nat)
    requires h in s.heightIndex
  {
    || (h in LastAtHeight(log, |log|) && s.heightIndex[h] == LastAtHeight(log, |log|)[h])
    || (h in LastNonZero(log, |log|) && s.heightIndex[h] == LastNonZero(log, |log|)[h])
  }

  predicate Sane(m: Metadata) {
    m.magic == MAGIC && m.latestHeight <= MAX_REASONABLE_HEIGHT
  }

  lemma SaneReads(m: Metadata)
    requires Sane(m)
    ensures DecodeMetadata(EncodeMetadata(m)).MetadataOk?
  {
    MetadataSlices(m);
    WordSizes();
    LeRoundTrip(m.latestHeight, 8);
  }

  lemma SameFiles(s: Store, t: Store, log: seq<Item>)
    requires FilesHold(s, log) && s.data == t.data && s.index == t.index && s.heights == t.heights
    ensures FilesHold(t, log)
  {
    forall i | 0 <= i < |log|
      ensures ValueAtOffset(t.data, log, i) && IndexedAt(t, log, i)
    {
      assert ValueAtOffset(s.data, log, i) && IndexedAt(s, log, i);
    }
  }

  lemma LastNonZeroPush(log: seq<Item>, item: Item)
    ensures LastNonZero(log + [item], |log| + 1)
         == if item.hash == ZERO_HASH then LastNonZero(log, |log|)
            else LastNonZero(log, |log|)[item.height := item.hash]
  {
    LastNonZeroPrefix(log, [item], |log|);
  }

  lemma {:induction false} LastNonZeroPrefix(log: seq<Item>, more: seq<Item>, n: nat)
    requires n <= |log|
    ensures LastNonZero(log + more, n) == LastNonZero(log, n)
  {
    if n > 0 { LastNonZeroPrefix(log, more, n - 1); }
  }

  lemma PutKeepsBacked(s: Store, log: seq<Item>, item: Item)
    requires Backed(s, log) && Accepts(s, item)
    ensures Backed(Put(s, item), log + [item])
  {
    var t, grown := Put(s, item), log + [item];
    assert FilesHold(t, grown) by { PutKeepsFiles(s, log, item); }
    forall x | x in t.hashIndex
      ensures HashFrom(t, grown, x)
    {
      PutKeepsHash(s, log, item, x);
    }
    forall h | h in t.heightIndex
      ensures HeightFrom(t, grown, h)
    {
      PutKeepsHeight(s, log, item, h);
    }
    SaneReads(t.metadata);
  }

  lemma PutKeepsHash(s: Store, log: seq<Item>, item: Item, x: Hash)
    requires Backed(s, log) && Accepts(s, item) && x in Put(s, item).hashIndex
    ensures HashFrom(Put(s, item), log + [item], x)
  {
    PushFacts(log, item);
    if x != item.hash { assert HashFrom(s, log, x); }
  }

  lemma PutKeepsHeight(s: Store, log: seq<Item>, item: Item, h: nat)
    requires Backed(s, log) && Accepts(s, item) && h in Put(s, item).heightIndex
    ensures HeightFrom(Put(s, item), log + [item], h)
  {
    PushFacts(log, item);
    LastNonZeroPush(log, item);
    if h != item.height { assert HeightFrom(s, log, h); }
  }

  lemma PruneKeepsBacked(s: Store, log: seq<Item>, k: nat)
    requires Backed(s, log)
    ensures Backed(Prune(s, k), log)
  {
    var t := Prune(s, k);
    SameFiles(s, t, log);
    forall x | x in t.hashIndex
      ensures HashFrom(t, log, x)
    {
      assert HashFrom(s, log, x);
    }
    forall h | h in t.heightIndex
      ensures HeightFrom(t, log, h)
    {
      assert HeightFrom(s, log, h);
    }
  }

  lemma SyncKeepsBacked(s: Store, log: seq<Item>)
    requires Backed(s, log)
    ensures Backed(Synced(s), log)
  {
    var t := Synced(s);
    SameFiles(s, t, log);
    SaneReads(s.metadata);
    forall x | x in t.hashIndex
      ensures HashFrom(t, log, x)
    {
      assert HashFrom(s, log, x);
    }
    forall h | h in t.heightIndex
      ensures HeightFrom(t, log, h)
    {
      assert HeightFrom(s, log, h);
    }
  }

  /** A reopen never fails, and rebuilds for every hash but the all-zero one its last entry, and for
      every height its last such hash. */
  lemma ReopenRebuilds(s: Store, log: seq<Item>)
    requires Backed(s, log) && |s.data| < TWO64
    ensures Open(s) == Opened(s.(hashIndex := LastEntries(log, |log|) - {ZERO_HASH},
                                 heightIndex := LastNonZero(log, |log|),
                                 metadata := DecodeMetadata(s.meta).meta))
    ensures Rebuilt(Reopened(s), log)
  {
    OpenRebuilds(s, log);
    RebuiltIsBacked(s, Reopened(s), log);
  }

  lemma RebuiltIsBacked(s: Store, t: Store, log: seq<Item>)
    requires Backed(s, log) && Sane(t.metadata)
    requires t == s.(hashIndex := LastEntries(log, |log|) - {ZERO_HASH},
                     heightIndex := LastNonZero(log, |log|), metadata := t.metadata)
    ensures Rebuilt(t, log)
  {
    SameFiles(s, t, log);
  }

  /** A store as a reopen leaves it. */
  ghost predicate Rebuilt(t: Store, log: seq<Item>) {
    && Backed(t, log)
    && t.hashIndex == LastEntries(log, |log|) - {ZERO_HASH}
    && t.heightIndex == LastNonZero(log, |log|)
  }

  lemma StepKeepsBacked(s: Store, log: seq<Item>, op: SessionOp)
    requires Backed(s, log) && |s.data| < TWO64
    ensures Backed(SessionStep(s, op), log + Appended(s, op))
  {
    assert log + [] == log;
    match op
    case DoPut(item) => if Accepts(s, item) { PutKeepsBacked(s, log, item); }
    case DoPrune(k) => PruneKeepsBacked(s, log, k);
    case DoSync => SyncKeepsBacked(s, log);
    case DoReopen => ReopenRebuilds(s, log);
  }

  /** The data file only grows. */
  lemma StepGrows(s: Store, op: SessionOp)
    requires |s.metadata.magic| == 4
    ensures |s.data| <= |SessionStep(s, op).data|
  {
  }

  lemma {:induction false} EverySessionBacked(sync: bool, ops: seq<SessionOp>)
    requires |Session(sync, ops).data| < TWO64
    ensures Backed(Session(sync, ops), History(sync, ops))
  {
    if ops == [] {
      SaneReads(FRESH_METADATA);
    } else {
      var before, op := ops[..|ops| - 1], ops[|ops| - 1];
      StepGrows(Session(sync, before), op);
      EverySessionBacked(sync, before);
      StepKeepsBacked(Session(sync, before), History(sync, before), op);
    }
  }

  // ---------------------------------------------------------------- what sessions serve

  /** Item j is the last with its hash. */
  ghost predicate LastOfHash(log: seq<Item>, j: int) {
    0 <= j < |log| && forall k {:trigger DifferAt(log, j, k)} :: j < k < |log| ==> DifferAt(log, j, k)
  }

  /** Item i is the last at its height, all-zero hashes aside. */
  ghost predicate LastAtItsHeight(log: seq<Item>, i: int) {
    && 0 <= i < |log| && log[i].hash != ZERO_HASH
    && forall k :: i < k < |log| && log[k].height == log[i].height ==> log[k].hash == ZERO_HASH
  }

  lemma {:induction false} LastOf(log: seq<Item>, n: nat, x: Hash) returns (j: nat)
    requires n <= |log| && x in LastEntries(log, n)
    ensures j < n && log[j].hash == x && LastEntries(log, n)[x] == EntryAt(log, j)
    ensures forall k {:trigger DifferAt(log, j, k)} :: j < k < n ==> DifferAt(log, j, k)
  {
    if log[n - 1].hash == x {
      j := n - 1;
    } else {
      j := LastOf(log, n - 1, x);
    }
  }

  lemma {:induction false} LastNonZeroAt(log: seq<Item>, n: nat, h: nat) returns (i: nat)
    requires n <= |log| && h in LastNonZero(log, n)
    ensures i < n && log[i].height == h && log[i].hash == LastNonZero(log, n)[h] != ZERO_HASH
    ensures forall k :: i < k < n && log[k].height == h ==> log[k].hash == ZERO_HASH
  {
    if log[n - 1].height == h && log[n - 1].hash != ZERO_HASH {
      i := n - 1;
    } else {
      i := LastNonZeroAt(log, n - 1, h);
    }
  }

  lemma {:induction false} LastNonZeroOf(log: seq<Item>, n: nat, i: nat)
    requires i < n <= |log| && LastAtItsHeight(log, i)
    ensures log[i].height in LastNonZero(log, n) && LastNonZero(log, n)[log[i].height] == log[i].hash
  {
    if i < n - 1 { LastNonZeroOf(log, n - 1, i); }
  }

  /** After any session a hash still indexed reads back the value of the last item stored under it. */
  lemma SessionReads(s: Store, log: seq<Item>, x: Hash) returns (j: nat)
    requires Backed(s, log) && x in s.hashIndex
    ensures LastOfHash(log, j) && log[j].hash == x && s.hashIndex[x] == EntryAt(log, j)
    ensures Get(s, x) == Found(StoredPart(log[j].data))
  {
    assert HashFrom(s, log, x);
    j := LastOf(log, |log|, x);
    assert ValueAtOffset(s.data, log, j);
    ReadsEntry(s, log, j);
  }

  /** After a reopen the last hash at a height leads to the last item stored under that hash, at
      whatever height that was. */
  lemma ReopenServes(t: Store, log: seq<Item>, i: nat, j: nat)
    requires Rebuilt(t, log)
    requires LastAtItsHeight(log, i) && LastOfHash(log, j) && log[i].hash == log[j].hash
    ensures log[i].height in t.heightIndex && t.heightIndex[log[i].height] == log[j].hash
    ensures log[j].hash in t.hashIndex && t.hashIndex[log[j].hash] == EntryAt(log, j)
    ensures GetByHeight(t, log[i].height) == Found(StoredPart(log[j].data))
  {
    LastNonZeroOf(log, |log|, i);
    LastEntryOf(log, |log|, j);
    assert ValueAtOffset(t.data, log, j);
    ReadsEntry(t, log, j);
  }

  /** The last hash at a height was last stored at that height. */
  ghost predicate HeightsAgree(log: seq<Item>) {
    forall i, j :: LastAtItsHeight(log, i) && LastOfHash(log, j) && log[i].hash == log[j].hash ==>
                     log[i].height == log[j].height
  }

  /** After any session, a reopened store serves every height with an entry of that height if and only
      if the last hash at each height was last stored there. */
  lemma ReopenServedIff(s: Store, log: seq<Item>)
    requires Backed(s, log) && |s.data| < TWO64
    ensures Served(Reopened(s)) <==> HeightsAgree(log)
  {
    ReopenRebuilds(s, log);
    RebuiltServedIff(Reopened(s), log);
  }

  lemma RebuiltServedIff(t: Store, log: seq<Item>)
    requires Rebuilt(t, log)
    ensures Served(t) <==> HeightsAgree(log)
  {
    if Served(t) {
      forall i, j | LastAtItsHeight(log, i) && LastOfHash(log, j) && log[i].hash == log[j].hash
        ensures log[i].height == log[j].height
      {
        ReopenServes(t, log, i, j);
      }
    }
    if HeightsAgree(log) {
      forall h | h in t.heightIndex
        ensures h <= MAX_REASONABLE_HEIGHT && t.heightIndex[h] in t.hashIndex
             && t.hashIndex[t.heightIndex[h]].height == h
      {
        ServedHeight(t, log, h);
      }
      forall x | x in t.hashIndex
        ensures t.hashIndex[x].size < TWO32 && t.hashIndex[x].offset + t.hashIndex[x].size <= |t.data|
      {
        EntryInside(t, log, x);
      }
    }
  }

  lemma ServedHeight(t: Store, log: seq<Item>, h: nat)
    requires Rebuilt(t, log) && HeightsAgree(log) && h in t.heightIndex
    ensures h <= MAX_REASONABLE_HEIGHT && t.heightIndex[h] in t.hashIndex
    ensures t.hashIndex[t.heightIndex[h]].height == h
  {
    var i := LastNonZeroAt(log, |log|, h);
    assert LastAtItsHeight(log, i);
    LastEntriesKeys(log, |log|, log[i].hash);
    var j := LastOf(log, |log|, log[i].hash);
    assert LastOfHash(log, j);
    ReopenServes(t, log, i, j);
  }

  lemma EntryInside(t: Store, log: seq<Item>, x: Hash)
    requires Backed(t, log) && x in t.hashIndex
    ensures t.hashIndex[x].size < TWO32 && t.hashIndex[x].offset + t.hashIndex[x].size <= |t.data|
  {
    var j := SessionReads(t, log, x);
    OffsetsTile(log, j, |log|);
  }

  lemma SessionPush(sync: bool, ops: seq<SessionOp>, op: SessionOp)
    ensures Session(sync, ops + [op]) == SessionStep(Session(sync, ops), op)
    ensures History(sync, ops + [op]) == History(sync, ops) + Appended(Session(sync, ops), op)
  {
    assert (ops + [op])[..|ops|] == ops;
  }

  /** Storing a pruned hash again, at another height. */
  function Reput(x: Hash, v: seq<byte>, w: seq<byte>): seq<SessionOp> {
    [DoPut(Item(x, 1, v))] + [DoPrune(5)] + [DoPut(Item(x, 7, w))]
  }

  lemma PrunedEmpty(item: Item)
    requires item.height == 1
    ensures var s := Prune(Put(Created(true), item), 5);
            s.hashIndex == map[] && s.heightIndex == map[] && s.data == item.data
  {
    var s := Put(Created(true), item);
    assert s.heightIndex == map[1 := item.hash] && s.hashIndex.Keys == {item.hash};
    assert Doomed(s, 5) == {1};
    var hashes := HashesAt(s, {1});
    assert 1 in Doomed(s, 5) && item.hash in hashes;
    assert s.hashIndex[item.hash].height == 1;
    assert 1 in HeightsNamed(s, hashes);
  }

  lemma AfterReput(x: Hash, v: seq<byte>, w: seq<byte>)
    ensures var s, log := Session(true, Reput(x, v, w)), History(true, Reput(x, v, w));
            && |log| == 2 && log[0] == Item(x, 1, v) && log[1] == Item(x, 7, w)
            && s.heightIndex == map[7 := x] && s.data == v + w && GetByHeight(s, 1) == NotFound
  {
    var a, b := Item(x, 1, v), Item(x, 7, w);
    var ops := [DoPut(a)];
    assert [] + ops == ops;
    SessionPush(true, [], DoPut(a));
    SessionPush(true, ops, DoPrune(5));
    SessionPush(true, ops + [DoPrune(5)], DoPut(b));
    PrunedEmpty(a);
  }

  /** A hash last at two heights makes a reopened store serve its last value at both, and pruning the
      height it was not last stored at loses the other. */
  lemma SharedHashIsLost(t: Store, log: seq<Item>, i: nat, j: nat)
    requires Rebuilt(t, log)
    requires LastAtItsHeight(log, i) && LastAtItsHeight(log, j) && LastOfHash(log, j)
    requires log[i].hash == log[j].hash && log[i].height != log[j].height
    ensures GetByHeight(t, log[i].height) == Found(StoredPart(log[j].data))
    ensures GetByHeight(t, log[j].height) == Found(StoredPart(log[j].data))
    ensures !Served(t)
    ensures forall k :: Dropped(k, log[i].height) ==> GetByHeight(Prune(t, k), log[j].height) == NotFound
  {
    RebuiltServedIff(t, log);
    ReopenServes(t, log, i, j);
    ReopenServes(t, log, j, j);
    assert Linked(t, log[i].height, log[j].height);
    forall k | Dropped(k, log[i].height)
      ensures GetByHeight(Prune(t, k), log[j].height) == NotFound
    {
      LinkedIsLost(t, k, log[i].height, log[j].height);
    }
  }

  /** So it does here: height 1 serves the value stored at height 7, and pruning before 3 loses
      height 7. */
  lemma ReputBreaksReopen(x: Hash, v: seq<byte>, w: seq<byte>)
    requires x != ZERO_HASH && |v| < TWO32 && |w| < TWO32
    ensures GetByHeight(Session(true, Reput(x, v, w)), 1) == NotFound
    ensures var t := Reopened(Session(true, Reput(x, v, w)));
            && GetByHeight(t, 1) == GetByHeight(t, 7) == Found(w)
            && !Served(t) && GetByHeight(Prune(t, 3), 7) == NotFound
  {
    AfterReput(x, v, w);
    var s, log := Session(true, Reput(x, v, w)), History(true, Reput(x, v, w));
    EverySessionBacked(true, Reput(x, v, w));
    ReopenRebuilds(s, log);
    TwoRecords(Reopened(s), log, w);
  }

  lemma TwoRecords(t: Store, log: seq<Item>, w: seq<byte>)
    requires Rebuilt(t, log) && |log| == 2 && log[0].hash == log[1].hash != ZERO_HASH
    requires log[0].height == 1 && log[1].height == 7 && log[1].data == w && |w| < TWO32
    ensures GetByHeight(t, 1) == GetByHeight(t, 7) == Found(w)
    ensures !Served(t) && GetByHeight(Prune(t, 3), 7) == NotFound
  {
    LastOfTwo(log);
    assert StoredPart(w) == w && Dropped(3, 1);
    SharedHashIsLost(t, log, 0, 1);
  }

  lemma LastOfTwo(log: seq<Item>)
    requires |log| == 2 && log[0].hash == log[1].hash != ZERO_HASH && log[0].height != log[1].height
    ensures LastAtItsHeight(log, 0) && LastAtItsHeight(log, 1) && LastOfHash(log, 1)
  {
  }

  // ---------------------------------------------------------------- sessions that stay served

  /** A put keeps a served store served; so do a prune and a sync. */
  lemma StepKeepsServed(s: Store, op: SessionOp)
    requires Served(s) && !op.DoReopen?
    ensures Served(SessionStep(s, op))
  {
    match op
    case DoPut(item) => if Accepts(s, item) { PutKeepsServed(s, item); }
    case DoPrune(k) => PruneEffect(s, k);
    case DoSync =>
  }

  lemma PutKeepsServed(s: Store, item: Item)
    requires Served(s) && Accepts(s, item)
    ensures Served(Put(s, item))
  {
    var t := Put(s, item);
    assert t.hashIndex == s.hashIndex[item.hash := EntryFor(|s.data|, item)];
    forall h | h in t.heightIndex
      ensures t.heightIndex[h] in t.hashIndex && t.hashIndex[t.heightIndex[h]].height == h
    {
      if h != item.height { assert h in s.heightIndex; }
    }
  }

  /** If the n-th step reopens, the heights agree at that point. */
  ghost predicate ReopensWell(sync: bool, ops: seq<SessionOp>, n: nat)
    requires n < |ops|
  {
    ops[n].DoReopen? ==> HeightsAgree(History(sync, ops[..n]))
  }

  /** A session whose reopens all find the heights in agreement serves every height rightly, from the
      first step to the last; one without reopens always does. */
  lemma {:induction false} EverySessionServed(sync: bool, ops: seq<SessionOp>)
    requires |Session(sync, ops).data| < TWO64
    requires forall n {:trigger ReopensWell(sync, ops, n)} :: 0 <= n < |ops| ==> ReopensWell(sync, ops, n)
    ensures Served(Session(sync, ops))
  {
    if ops != [] {
      var last := |ops| - 1;
      var before := ops[..last];
      var s := Session(sync, before);
      StepGrows(s, ops[last]);
      forall n | 0 <= n < last
        ensures ReopensWell(sync, before, n)
      {
        assert ReopensWell(sync, ops, n) && before[..n] == ops[..n];
      }
      EverySessionServed(sync, before);
      if ops[last].DoReopen? {
        assert ReopensWell(sync, ops, last);
        EverySessionBacked(sync, before);
        ReopenServedIff(s, History(sync, before));
      } else {
        StepKeepsServed(s, ops[last]);
      }
    }
  }

  /** All puts of a hash name the same height, as a hash of the content that fixes the height does. */
  ghost predicate OneHeightPerHash(ops: seq<SessionOp>) {
    forall m, n ::
      (0 <= m < |ops| && 0 <= n < |ops| && ops[m].DoPut? && ops[n].DoPut? && ops[m].item.hash == ops[n].item.hash)
      ==> ops[m].item.height == ops[n].item.height
  }

  lemma {:induction false} HistoryFrom(sync: bool, ops: seq<SessionOp>, i: nat) returns (n: nat)
    requires i < |History(sync, ops)|
    ensures n < |ops| && ops[n] == DoPut(History(sync, ops)[i])
  {
    var before := ops[..|ops| - 1];
    if i < |History(sync, before)| {
      n := HistoryFrom(sync, before, i);
    } else {
      n := |ops| - 1;
    }
  }

  /** Then every session, with any prunes and reopens, serves every height rightly. */
  lemma OneHeightPerHashServed(sync: bool, ops: seq<SessionOp>)
    requires |Session(sync, ops).data| < TWO64 && OneHeightPerHash(ops)
    ensures Served(Session(sync, ops))
  {
    forall k | 0 <= k < |ops|
      ensures ReopensWell(sync, ops, k)
    {
      var log := History(sync, ops[..k]);
      forall i, j | LastAtItsHeight(log, i) && LastOfHash(log, j) && log[i].hash == log[j].hash
        ensures log[i].height == log[j].height
      {
        var m := HistoryFrom(sync, ops[..k], i);
        var n := HistoryFrom(sync, ops[..k], j);
        assert ops[m] == DoPut(log[i]) && ops[n] == DoPut(log[j]);
      }
    }
    EverySessionServed(sync, ops);
  }

  // ---------------------------------------------------------------- sessions that show every hash

  ghost predicate AllShown(s: Store) {
    forall x :: x in s.hashIndex ==> Shown(s, x)
  }

  /** After a run of puts every hash is shown at its height if and only if no two items share one. */
  lemma RunShownIff(s: Store, log: seq<Item>)
    requires Holds(s, log)
    ensures AllShown(s) <==> forall i, j :: 0 <= i < j < |log| ==> log[i].height != log[j].height
  {
    if AllShown(s) {
      forall i, j | 0 <= i < j < |log|
        ensures log[i].height != log[j].height
      {
        Mapped(s, log, i);
        assert Shown(s, log[i].hash);
        var k := LastHashAt(log, |log|, i, log[i].height);
        assert i == k || DifferAt(log, i, k);
      }
    }
    if forall i, j :: 0 <= i < j < |log| ==> log[i].height != log[j].height {
      forall x | x in s.hashIndex
        ensures Shown(s, x)
      {
        var i := LastOf(log, |log|, x);
        var k := LastHashAt(log, |log|, i, log[i].height);
      }
    }
  }

  /** All puts at a height name the same hash. */
  ghost predicate OneHashPerHeight(ops: seq<SessionOp>) {
    forall m, n ::
      (0 <= m < |ops| && 0 <= n < |ops| && ops[m].DoPut? && ops[n].DoPut? && ops[m].item.height == ops[n].item.height)
      ==> ops[m].item.hash == ops[n].item.hash
  }

  ghost predicate SameHeightSameHash(log: seq<Item>) {
    forall i, j :: 0 <= i < |log| && 0 <= j < |log| && log[i].height == log[j].height ==> log[i].hash == log[j].hash
  }

  lemma PutKeepsShown(s: Store, log: seq<Item>, item: Item)
    requires Backed(s, log) && AllShown(s) && Accepts(s, item) && SameHeightSameHash(log + [item])
    ensures AllShown(Put(s, item))
  {
    var t, grown := Put(s, item), log + [item];
    forall x | x in t.hashIndex
      ensures Shown(t, x)
    {
      if x != item.hash {
        assert Shown(s, x);
        var j := SessionReads(s, log, x);
        assert grown[j] == log[j] && grown[|log|] == item;
      }
    }
  }

  lemma PruneKeepsShown(s: Store, k: nat)
    requires AllShown(s)
    ensures AllShown(Prune(s, k))
  {
    var t := Prune(s, k);
    forall x | x in t.hashIndex
      ensures Shown(t, x)
    {
      assert Shown(s, x);
      forall z | z in HashesAt(s, Doomed(s, k)) && z in s.hashIndex
        ensures s.hashIndex[z].height != s.hashIndex[x].height
      {
        assert Shown(s, z);
      }
    }
  }

  lemma RebuiltIsShown(t: Store, log: seq<Item>)
    requires Rebuilt(t, log) && SameHeightSameHash(log)
    ensures AllShown(t)
  {
    forall x | x in t.hashIndex
      ensures Shown(t, x)
    {
      var j := SessionReads(t, log, x);
      NonZeroKeys(log, |log|, j);
      var i := LastNonZeroAt(log, |log|, log[j].height);
    }
  }

  lemma SessionSameHash(sync: bool, ops: seq<SessionOp>)
    requires OneHashPerHeight(ops)
    ensures SameHeightSameHash(History(sync, ops))
  {
    var log := History(sync, ops);
    forall i, j | 0 <= i < |log| && 0 <= j < |log| && log[i].height == log[j].height
      ensures log[i].hash == log[j].hash
    {
      var m := HistoryFrom(sync, ops, i);
      var n := HistoryFrom(sync, ops, j);
    }
  }

  /** With one hash per height every hash stays shown through puts, prunes, syncs and reopens. */
  lemma {:induction false} EverySessionShown(sync: bool, ops: seq<SessionOp>)
    requires |Session(sync, ops).data| < TWO64 && OneHashPerHeight(ops)
    ensures AllShown(Session(sync, ops))
  {
    if ops != [] {
      var before, op := ops[..|ops| - 1], ops[|ops| - 1];
      var s, log := Session(sync, before), History(sync, before);
      StepGrows(s, op);
      EverySessionShown(sync, before);
      EverySessionBacked(sync, before);
      SessionSameHash(sync, ops);
      StepKeepsShown(s, log, op);
    }
  }

  lemma StepKeepsShown(s: Store, log: seq<Item>, op: SessionOp)
    requires Backed(s, log) && AllShown(s) && |s.data| < TWO64
    requires SameHeightSameHash(log + Appended(s, op))
    ensures AllShown(SessionStep(s, op))
  {
    match op
    case DoPut(item) => if Accepts(s, item) { PutKeepsShown(s, log, item); }
    case DoPrune(k) => PruneKeepsShown(s, k);
    case DoSync =>
    case DoReopen =>
      ReopenRebuilds(s, log);
      assert log + [] == log;
      RebuiltIsShown(Reopened(s), log);
  }

  /** Where hashes and heights go together one to one, as along a chain, every prune in a session does
      what it is for by height and by hash. */
  lemma ChainSessionPrunes(sync: bool, ops: seq<SessionOp>, k: nat)
    requires |Session(sync, ops).data| < TWO64 && OneHeightPerHash(ops) && OneHashPerHeight(ops)
    ensures PrunesHeights(Session(sync, ops), k) && PrunesHashes(Session(sync, ops), k)
  {
    OneHeightPerHashServed(sync, ops);
    EverySessionShown(sync, ops);
    PruneEffect(Session(sync, ops), k);
  }

  /** Two values at one height: pruning it hides the second and leaves the first readable by hash. */
  lemma FirstAtHeightStays(a: Hash, b: Hash, v: seq<byte>, w: seq<byte>)
    requires a != b && |v| < TWO32 && |w| < TWO32
    ensures var s := Put(Put(Created(true), Item(a, 5, v)), Item(b, 5, w));
            && Served(s) && PrunesHeights(s, 10) && !PrunesHashes(s, 10)
            && a in s.hashIndex && a !in s.heightIndex.Values
            && Get(Prune(s, 10), a) == Get(s, a) == Found(v) && Get(Prune(s, 10), b) == NotFound
  {
    TwoAtHeight(a, b, v, w);
    HiddenAndStaying(Put(Put(Created(true), Item(a, 5, v)), Item(b, 5, w)), a, b);
  }

  lemma TwoAtHeight(a: Hash, b: Hash, v: seq<byte>, w: seq<byte>)
    requires a != b && |v| < TWO32 && |w| < TWO32
    ensures var s := Put(Put(Created(true), Item(a, 5, v)), Item(b, 5, w));
            && Served(s) && s.heightIndex == map[5 := b]
            && a in s.hashIndex && s.hashIndex[a].height == 5 && Get(s, a) == Found(v)
  {
    var s := Put(Created(true), Item(a, 5, v));
    OnePut(Item(a, 5, v));
    PutKeepsServed(s, Item(b, 5, w));
    PutKeepsReads(s, Item(b, 5, w), a);
  }

  lemma OnePut(item: Item)
    requires item.height <= MAX_REASONABLE_HEIGHT && |item.data| < TWO32
    ensures var s := Put(Created(true), item);
            && Served(s) && s.heightIndex == map[item.height := item.hash]
            && s.hashIndex == map[item.hash := EntryFor(0, item)] && Get(s, item.hash) == Found(item.data)
  {
    var s := Put(Created(true), item);
    assert Served(Created(true));
    PutKeepsServed(Created(true), item);
    assert s.data == item.data && s.data[0..|item.data|] == item.data;
  }

  /** A put never changes what a readable hash reads. */
  lemma PutKeepsReads(s: Store, item: Item, x: Hash)
    requires |s.metadata.magic| == 4 && Get(s, x).Found?
    ensures Get(Put(s, item), x) == Get(s, x)
  {
    if Accepts(s, item) {
      var e := s.hashIndex[x];
      assert (s.data + item.data)[e.offset..e.offset + e.size] == s.data[e.offset..e.offset + e.size];
    }
  }

  lemma HiddenAndStaying(s: Store, a: Hash, b: Hash)
    requires Served(s) && s.heightIndex == map[5 := b] && a != b
    requires a in s.hashIndex && s.hashIndex[a].height == 5
    ensures PrunesHeights(s, 10) && !PrunesHashes(s, 10) && a !in s.heightIndex.Values
    ensures Get(Prune(s, 10), a) == Get(s, a) && Get(Prune(s, 10), b) == NotFound
  {
    assert 5 in Doomed(s, 10) && b in HashesAt(s, Doomed(s, 10));
    assert Aged(s, 10, a);
    PruneEffect(s, 10);
    PruneGets(s, 10, a);
    PruneGets(s, 10, b);
  }

  // ---------------------------------------------------------------- sessions that reopen unchanged

  /** Memory has everything the files say, and the all-zero hash nowhere. */
  ghost predicate AllIndexed(s: Store, log: seq<Item>) {
    && ZERO_HASH !in s.hashIndex
    && (forall h :: h in s.heightIndex ==> s.heightIndex[h] != ZERO_HASH)
    && forall i :: 0 <= i < |log| && log[i].hash != ZERO_HASH ==> Indexed(s, log[i])
  }

  predicate Indexed(s: Store, item: Item) {
    item.hash in s.hashIndex && item.height in s.heightIndex
  }

  /** Reopening with nothing left to sync restores memory exactly if and only if every item accepted,
      all-zero hashes aside, is still indexed by hash and by height, and no all-zero hash is. */
  lemma ReopenRestoresIff(s: Store, log: seq<Item>)
    requires Backed(s, log) && |s.data| < TWO64 && DecodeMetadata(s.meta) == MetadataOk(s.metadata)
    ensures Open(s) == Opened(s) <==> AllIndexed(s, log)
  {
    ReopenRebuilds(s, log);
    var hashes, heights := LastEntries(log, |log|) - {ZERO_HASH}, LastNonZero(log, |log|);
    if s.hashIndex == hashes && s.heightIndex == heights {
      RebuiltHasAll(s, log);
    }
    if AllIndexed(s, log) {
      AllIndexedIsRebuilt(s, log);
    }
  }

  lemma RebuiltHasAll(s: Store, log: seq<Item>)
    requires s.hashIndex == LastEntries(log, |log|) - {ZERO_HASH} && s.heightIndex == LastNonZero(log, |log|)
    ensures AllIndexed(s, log)
  {
    ServesNoZero(log, |log|);
    assert ZERO_HASH !in s.hashIndex;
    forall i | 0 <= i < |log| && log[i].hash != ZERO_HASH
      ensures Indexed(s, log[i])
    {
      RebuiltHas(s, log, i);
    }
  }

  lemma RebuiltHas(s: Store, log: seq<Item>, i: nat)
    requires s.hashIndex == LastEntries(log, |log|) - {ZERO_HASH} && s.heightIndex == LastNonZero(log, |log|)
    requires i < |log| && log[i].hash != ZERO_HASH
    ensures Indexed(s, log[i])
  {
    HasRecords(log, i);
    InRest(s.hashIndex, LastEntries(log, |log|), ZERO_HASH, log[i].hash);
  }

  lemma InRest<K, V>(a: map<K, V>, b: map<K, V>, z: K, x: K)
    requires a == b - {z} && x in b && x != z
    ensures x in a
  {
  }

  lemma HasRecords(log: seq<Item>, i: nat)
    requires i < |log| && log[i].hash != ZERO_HASH
    ensures log[i].hash in LastEntries(log, |log|) && log[i].height in LastNonZero(log, |log|)
  {
    LastEntriesKeys(log, |log|, log[i].hash);
    NonZeroKeys(log, |log|, i);
  }

  lemma {:induction false} ServesNoZero(log: seq<Item>, n: nat)
    requires n <= |log|
    ensures forall h :: h in LastNonZero(log, n) ==> LastNonZero(log, n)[h] != ZERO_HASH
  {
    if n > 0 { ServesNoZero(log, n - 1); }
  }

  lemma {:induction false} NonZeroKeys(log: seq<Item>, n: nat, i: nat)
    requires i < n <= |log| && log[i].hash != ZERO_HASH
    ensures log[i].height in LastNonZero(log, n)
  {
    if i < n - 1 { NonZeroKeys(log, n - 1, i); }
  }

  lemma AllIndexedIsRebuilt(s: Store, log: seq<Item>)
    requires Backed(s, log) && AllIndexed(s, log)
    ensures Rebuilt(s, log)
  {
    forall x
      ensures x in s.hashIndex <==> x in LastEntries(log, |log|) && x != ZERO_HASH
      ensures x in s.hashIndex ==> s.hashIndex[x] == LastEntries(log, |log|)[x]
    {
      HashRebuilt(s, log, x);
    }
    SameBut(s.hashIndex, LastEntries(log, |log|), ZERO_HASH);
    HeightsRebuilt(s, log);
  }

  lemma SameBut<K, V>(a: map<K, V>, b: map<K, V>, z: K)
    requires forall x :: x in a <==> x in b && x != z
    requires forall x :: x in a ==> a[x] == b[x]
    ensures a == b - {z}
  {
  }

  lemma HeightsRebuilt(s: Store, log: seq<Item>)
    requires Backed(s, log) && AllIndexed(s, log)
    ensures s.heightIndex == LastNonZero(log, |log|)
  {
    forall h: nat
      ensures h in s.heightIndex <==> h in LastNonZero(log, |log|)
      ensures h in s.heightIndex ==> s.heightIndex[h] == LastNonZero(log, |log|)[h]
    {
      HeightRebuilt(s, log, h);
    }
  }

  lemma HashRebuilt(s: Store, log: seq<Item>, x: Hash)
    requires Backed(s, log) && AllIndexed(s, log)
    ensures x in s.hashIndex <==> x in LastEntries(log, |log|) && x != ZERO_HASH
    ensures x in s.hashIndex ==> s.hashIndex[x] == LastEntries(log, |log|)[x]
  {
    if x in s.hashIndex {
      assert HashFrom(s, log, x);
    }
    if x in LastEntries(log, |log|) && x != ZERO_HASH {
      var j := LastOf(log, |log|, x);
      assert Indexed(s, log[j]);
    }
  }

  lemma HeightRebuilt(s: Store, log: seq<Item>, h: nat)
    requires Backed(s, log) && AllIndexed(s, log)
    ensures h in s.heightIndex <==> h in LastNonZero(log, |log|)
    ensures h in s.heightIndex ==> s.heightIndex[h] == LastNonZero(log, |log|)[h]
  {
    if h in s.heightIndex {
      assert HeightFrom(s, log, h);
      NonZeroIsLast(log, |log|, h);
    }
    if h in LastNonZero(log, |log|) {
      var i := LastNonZeroAt(log, |log|, h);
      assert Indexed(s, log[i]);
    }
  }

  /** A last hash at a height that is not all zero is the last such hash. */
  lemma {:induction false} NonZeroIsLast(log: seq<Item>, n: nat, h: nat)
    requires n <= |log|
    ensures h in LastAtHeight(log, n) && LastAtHeight(log, n)[h] != ZERO_HASH ==>
              h in LastNonZero(log, n) && LastNonZero(log, n)[h] == LastAtHeight(log, n)[h]
  {
    if n > 0 { NonZeroIsLast(log, n - 1, h); }
  }

  /** On a store that syncs, the counters of any session are those of all items accepted, and always
      on file. */
  lemma {:induction false} EverySyncedSession(ops: seq<SessionOp>)
    requires |Session(true, ops).data| < TWO64 && |History(true, ops)| < TWO64
    ensures KeptInStep(Session(true, ops), History(true, ops))
  {
    if ops == [] {
      CreatedHoldsNothing(true);
    } else {
      var before, op := ops[..|ops| - 1], ops[|ops| - 1];
      var s, log := Session(true, before), History(true, before);
      StepGrows(s, op);
      EverySyncedSession(before);
      EverySessionBacked(true, before);
      assert log + [] == log;
      match op
      case DoPut(item) => if Accepts(s, item) { PutKeepsMetadata(s.metadata, log, item); }
      case DoPrune(k) =>
      case DoSync =>
      case DoReopen =>
        MetadataReadsBack(s.metadata, log);
        ReopenKeepsMetadata(s, log);
    }
  }

  /** Syncing after every put, with counters that are those of the log. */
  ghost predicate KeptInStep(s: Store, log: seq<Item>) {
    s.syncOnWrite && MetadataHolds(s.metadata, log) && s.meta == EncodeMetadata(s.metadata)
  }

  lemma ReopenKeepsMetadata(s: Store, log: seq<Item>)
    requires Backed(s, log) && |s.data| < TWO64 && DecodeMetadata(s.meta) == MetadataOk(s.metadata)
    ensures Reopened(s).syncOnWrite == s.syncOnWrite
    ensures Reopened(s).meta == s.meta && Reopened(s).metadata == s.metadata
  {
    ReopenRebuilds(s, log);
  }

  lemma SessionReopensIff(ops: seq<SessionOp>)
    requires |Session(true, ops).data| < TWO64 && |History(true, ops)| < TWO64
    ensures var s := Session(true, ops);
            Open(s) == Opened(s) <==> AllIndexed(s, History(true, ops))
  {
    var s, log := Session(true, ops), History(true, ops);
    EverySessionBacked(true, ops);
    EverySyncedSession(ops);
    MetadataReadsBack(s.metadata, log);
    ReopenRestoresIff(s, log);
  }

  // ---------------------------------------------------------------- counters without syncing

  /** Counters that fit their fields beside these files. */
  ghost predicate CountersFit(m: Metadata, s: Store, log: seq<Item>) {
    Sane(m) && m.version == 1 && m.entryCount <= |log| < TWO64 && m.dataSize <= |s.data| < TWO64
  }

  lemma CountersReadBack(s: Store, log: seq<Item>, m: Metadata)
    requires CountersFit(m, s, log) && s.meta == EncodeMetadata(m)
    ensures Open(s).Opened? && Reopened(s).metadata == m
    ensures Reopened(s).meta == s.meta && Reopened(s).syncOnWrite == s.syncOnWrite && Reopened(s).data == s.data
  {
    WordSizes();
    MetadataRoundTrip(m);
    assert s.meta[..META_SIZE] == s.meta;
  }

  /** The metadata file says what was filed at the last sync. */
  ghost predicate FiledAs(s: Store, log: seq<Item>, filed: Metadata) {
    && !s.syncOnWrite && CountersFit(s.metadata, s, log) && CountersFit(filed, s, log)
    && s.meta == EncodeMetadata(filed)
  }

  lemma StepKeepsFiled(s: Store, log: seq<Item>, op: SessionOp, filed: Metadata)
    requires FiledAs(s, log, filed)
    requires |SessionStep(s, op).data| < TWO64 && |log + Appended(s, op)| < TWO64
    ensures var t := SessionStep(s, op);
            FiledAs(t, log + Appended(s, op), if op.DoSync? then t.metadata else filed)
  {
    assert log + [] == log;
    if op.DoReopen? { CountersReadBack(s, log, filed); }
  }

  /** How many operations there are up to the last sync. */
  function LastSync(ops: seq<SessionOp>): (k: nat)
    ensures k <= |ops| && (k > 0 ==> ops[k - 1].DoSync?)
    ensures forall j :: k <= j < |ops| ==> !ops[j].DoSync?
  {
    if ops == [] then 0
    else if ops[|ops| - 1].DoSync? then |ops|
    else
      var before := ops[..|ops| - 1];
      assert forall j :: 0 <= j < |before| ==> before[j] == ops[j];
      LastSync(before)
  }

  ghost predicate FiledAfter(sync: bool, ops: seq<SessionOp>, k: nat)
    requires k <= |ops|
  {
    FiledAs(Session(sync, ops), History(sync, ops), Session(sync, ops[..k]).metadata)
  }

  ghost predicate InBounds(sync: bool, ops: seq<SessionOp>) {
    !sync && |Session(sync, ops).data| < TWO64 && |History(sync, ops)| < TWO64
  }

  lemma InBoundsBefore(sync: bool, ops: seq<SessionOp>)
    requires ops != [] && InBounds(sync, ops)
    ensures InBounds(sync, ops[..|ops| - 1])
  {
    StepGrows(Session(sync, ops[..|ops| - 1]), ops[|ops| - 1]);
  }

  lemma FiledAtStart(sync: bool)
    requires InBounds(sync, [])
    ensures FiledAfter(sync, [], 0)
  {
  }

  lemma StepFiled(sync: bool, ops: seq<SessionOp>, k: nat)
    requires k < |ops| && InBounds(sync, ops) && FiledAfter(sync, ops[..|ops| - 1], k)
    ensures FiledAfter(sync, ops, if ops[|ops| - 1].DoSync? then |ops| else k)
  {
    var before, op := ops[..|ops| - 1], ops[|ops| - 1];
    assert before[..k] == ops[..k] && ops[..|ops|] == ops;
    StepKeepsFiled(Session(sync, before), History(sync, before), op, Session(sync, before[..k]).metadata);
  }

  /** The metadata file of a store that does not sync by itself is that of the last sync. */
  lemma {:induction false} FiledSinceSync(sync: bool, ops: seq<SessionOp>)
    requires InBounds(sync, ops)
    ensures FiledAfter(sync, ops, LastSync(ops))
  {
    if ops == [] {
      FiledAtStart(sync);
    } else {
      InBoundsBefore(sync, ops);
      FiledSinceSync(sync, ops[..|ops| - 1]);
      StepFiled(sync, ops, LastSync(ops[..|ops| - 1]));
    }
  }

  /** A reopened store that does not sync by itself counts from its last sync, not from its files. */
  lemma ReopenAtLastSync(sync: bool, ops: seq<SessionOp>)
    requires InBounds(sync, ops)
    ensures Open(Session(sync, ops)).Opened?
    ensures Reopened(Session(sync, ops)).metadata == Session(sync, ops[..LastSync(ops)]).metadata
  {
    FiledSinceSync(sync, ops);
    CountersReadBack(Session(sync, ops), History(sync, ops), Session(sync, ops[..LastSync(ops)]).metadata);
  }
}
