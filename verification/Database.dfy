// The database handle (adzdb/src/lib.rs): the mutable object behind the store specification.
// Files are byte strings that only grow at the end; the metadata file is rewritten as a whole.

module Database {
  import opened Arith
  import opened Bytes
  import opened Lists
  import opened StoreCodec
  import opened StoreSpec
  import opened Sessions
  import opened Compaction

  datatype PutResult = Stored | HeightRejected(height: nat)

  class Database {
    var indexFile: seq<byte>
    var dataFile: seq<byte>
    var heightFile: seq<byte>
    var metaFile: seq<byte>
    var hashIndex: map<Hash, IndexEntry>
    var heightIndex: map<nat, Hash>
    var metadata: Metadata
    const syncOnWrite: bool

    ghost function State(): Store
      reads this
    {
      Store(indexFile, dataFile, heightFile, metaFile, hashIndex, heightIndex, metadata, syncOnWrite)
    }

    /** A handle over given contents. */
    constructor (s: Store)
      ensures State() == s
    {
      indexFile, dataFile, heightFile, metaFile := s.index, s.data, s.heights, s.meta;
      hashIndex, heightIndex, metadata, syncOnWrite := s.hashIndex, s.heightIndex, s.metadata, s.syncOnWrite;
    }

    /** An empty database with its metadata written. */
    static method Create(syncOnWrite: bool) returns (db: Database)
      ensures fresh(db) && db.State() == Created(syncOnWrite)
    {
      var meta := MetadataToBytes(FRESH_METADATA);
      db := new Database(Store([], [], [], meta[..], map[], map[], FRESH_METADATA, syncOnWrite));
    }

    /** Reads index records until fewer than a record's bytes are left. */
    static method ReadHashIndex(file: seq<byte>) returns (index: map<Hash, IndexEntry>)
      ensures index == LoadHashIndex(file, WholeRecords(|file|, INDEX_SIZE))
    {
      index := map[];
      var pos := 0;
      ghost var n := 0;
      while pos + INDEX_SIZE <= |file|
        invariant pos == n * INDEX_SIZE <= |file|
        invariant index == LoadHashIndex(file, pos)
        decreases |file| - pos
      {
        var entry := DecodeEntry(file[pos..pos + INDEX_SIZE]);
        if entry.key != ZERO_HASH {
          index := index[entry.key := entry];
        }
        pos := pos + INDEX_SIZE;
        n := n + 1;
        MulStep(n, INDEX_SIZE);
      }
      WholeRecordsAre(|file|, INDEX_SIZE, n, pos);
    }

    static method ReadHeightIndex(file: seq<byte>) returns (index: map<nat, Hash>)
      ensures index == LoadHeightIndex(file, WholeRecords(|file|, HEIGHT_SIZE))
    {
      index := map[];
      var pos := 0;
      ghost var n := 0;
      while pos + HEIGHT_SIZE <= |file|
        invariant pos == n * HEIGHT_SIZE <= |file|
        invariant index == LoadHeightIndex(file, pos)
        decreases |file| - pos
      {
        var entry := DecodeHeight(file[pos..pos + HEIGHT_SIZE]);
        if entry.hash != ZERO_HASH {
          index := index[entry.height := entry.hash];
        }
        pos := pos + HEIGHT_SIZE;
        n := n + 1;
        MulStep(n, HEIGHT_SIZE);
      }
      WholeRecordsAre(|file|, HEIGHT_SIZE, n, pos);
    }

    /** Opens existing files: metadata first, then both indices. */
    static method OpenFiles(index: seq<byte>, data: seq<byte>, heights: seq<byte>, meta: seq<byte>, sync: bool)
      returns (r: OpenResult)
      ensures r == Open(Store(index, data, heights, meta, map[], map[], FRESH_METADATA, sync))
    {
      if |meta| < META_SIZE {
        return Corrupt;
      }
      match DecodeMetadata(meta[..META_SIZE])
      case BadMagic => return Corrupt;
      case HeightTooLarge(h) => return TooHigh(h);
      case MetadataOk(m) =>
        var hashes := ReadHashIndex(index);
        var served := ReadHeightIndex(heights);
        return Opened(Store(index, data, heights, meta, hashes, served, m, sync));
    }

    /** Rewrites the metadata file. */
    method Sync()
      requires |metadata.magic| == 4
      modifies this
      ensures State() == Synced(old(State()))
    {
      var bytes := MetadataToBytes(metadata);
      metaFile := bytes[..];
    }

    /** Updates the counters for one accepted value. */
    method CountEntry(item: Item)
      modifies `metadata
      ensures metadata == Counted(old(metadata), item)
    {
      metadata := metadata.(entryCount := metadata.entryCount + 1, dataSize := metadata.dataSize + |item.data|);
      if item.height > metadata.latestHeight {
        metadata := metadata.(latestHeight := item.height, latestHash := item.hash);
      }
      if item.height == 0 {
        metadata := metadata.(genesisHash := item.hash);
      }
    }

    method PutValue(hash: Hash, height: nat, data: seq<byte>) returns (r: PutResult)
      requires |metadata.magic| == 4
      modifies this
      ensures State() == Put(old(State()), Item(hash, height, data))
      ensures r == if height > MAX_REASONABLE_HEIGHT then HeightRejected(height) else Stored
    {
      if height > MAX_REASONABLE_HEIGHT {
        return HeightRejected(height);
      }
      if hash in hashIndex {
        return Stored;
      }
      var offset := |dataFile|;
      dataFile := dataFile + data;
      var entry := IndexEntry(hash, offset, |data| % TWO32, height, 0);
      var record := EntryToBytes(entry);
      indexFile := indexFile + record[..];
      var heightRecord := HeightToBytes(HeightEntry(height, hash));
      heightFile := heightFile + heightRecord[..];
      hashIndex := hashIndex[hash := entry];
      heightIndex := heightIndex[height := hash];
      CountEntry(Item(hash, height, data));
      if syncOnWrite {
        Sync();
      }
      return Stored;
    }

    method GetValue(hash: Hash) returns (r: ReadResult)
      ensures r == Get(State(), hash)
    {
      if hash !in hashIndex {
        return NotFound;
      }
      var entry := hashIndex[hash];
      if entry.offset + entry.size > |dataFile| {
        return ShortRead;
      }
      return Found(dataFile[entry.offset..entry.offset + entry.size]);
    }

    method GetValueByHeight(height: nat) returns (r: ReadResult)
      ensures r == GetByHeight(State(), height)
    {
      if height !in heightIndex {
        return NotFound;
      }
      r := GetValue(heightIndex[height]);
    }

    /** Collects the hashes served at doomed heights, then removes each together with the height its
        entry names. */
    method PruneBefore(keepHeight: nat) returns (pruned: nat)
      modifies this
      ensures State() == Prune(old(State()), keepHeight)
      ensures pruned == |Doomed(old(State()), keepHeight)|
    {
      ghost var s := State();
      if keepHeight == 0 {
        PrunesNothing(s);
        return 0;
      }
      var heights := set h | h in heightIndex && 0 < h < keepHeight;
      assert heights == Doomed(s, keepHeight);
      pruned := |heights|;
      var hashAt := heightIndex;
      ghost var done: set<nat> := {};
      while heights != {}
        invariant heights <= Doomed(s, keepHeight) && done == Doomed(s, keepHeight) - heights
        invariant hashAt == s.heightIndex
        invariant State() == Forget(s, HashesAt(s, done))
        decreases heights
      {
        var h :| h in heights;
        ForgetsOneMore(s, done, h);
        var hash := hashAt[h];
        if hash in hashIndex {
          var entry := hashIndex[hash];
          hashIndex := hashIndex - {hash};
          heightIndex := heightIndex - {entry.height};
        }
        heights := heights - {h};
        done := done + {h};
      }
      assert done == Doomed(s, keepHeight);
    }

    /** Copies the value served at one height into another database. */
    method CopyEntry(db: Database, height: nat) returns (r: CopyResult, ghost item: Item)
      requires db != this && |db.metadata.magic| == 4 && height in heightIndex
      modifies db
      ensures r == CopyOutcome(State(), height)
      ensures r.Copied? <==> Copyable(State(), height)
      ensures r.Copied? ==> Replays(State(), item, height) && db.State() == Put(old(db.State()), item)
    {
      var hash := heightIndex[height];
      item := Item(hash, height, []);
      var read := GetValue(hash);
      if !read.Found? {
        return ReadFailed(read), item;
      }
      item := Item(hash, height, read.bytes);
      var stored := db.PutValue(hash, height, read.bytes);
      if stored.HeightRejected? {
        return Rejected, item;
      }
      return Copied, item;
    }

    /** Replays the served entries into a new database, lowest height first, up to the first that
        cannot be copied. */
    method CompactTo(syncOnWrite: bool) returns (r: CompactResult, ghost items: seq<Item>)
      ensures match r
              case Compacted(db) =>
                && fresh(db) && IsReplay(State(), items)
                && db.State() == Synced(PutAll(Created(syncOnWrite), items))
              case CompactFailed(h, why) =>
                && h in heightIndex && !Copyable(State(), h)
                && (forall g :: g in heightIndex && g < h ==> Copyable(State(), g))
                && why == (if GetByHeight(State(), h).Found? then Rejected else ReadFailed(GetByHeight(State(), h)))
                && (why.Rejected? <==> GetByHeight(State(), h).Found? && h > MAX_REASONABLE_HEIGHT)
      ensures r.Compacted? <==> forall h :: h in heightIndex ==> Copyable(State(), h)
    {
      var db := Create(syncOnWrite);
      var entries := ServedHeights();
      var n, why;
      n, why, items := ReplayInto(db, entries);
      if n < |entries| {
        CopiedBefore(State(), entries, items, n);
        return CompactFailed(entries[n], why), items;
      }
      ReplayFromHeights(State(), entries, items);
      ReplayCopies(State(), items);
      db.Sync();
      return Compacted(db), items;
    }

    /** Copies entries until one fails; n says how many were copied. */
    method ReplayInto(db: Database, entries: seq<nat>) returns (n: nat, why: CopyResult, ghost items: seq<Item>)
      requires db != this && |db.metadata.magic| == 4
      requires forall h :: h in entries ==> h in heightIndex
      modifies db
      ensures n == |items| <= |entries|
      ensures forall k {:trigger Replays(State(), items[k], entries[k])} :: 0 <= k < n ==>
                Replays(State(), items[k], entries[k])
      ensures db.State() == PutAll(old(db.State()), items) || n < |entries|
      ensures n < |entries| ==> why == CopyOutcome(State(), entries[n]) && !why.Copied?
    {
      ghost var s := State();
      ghost var start := db.State();
      items := [];
      why := Copied;
      for i := 0 to |entries|
        invariant State() == s && |items| == i
        invariant forall k {:trigger Replays(s, items[k], entries[k])} :: 0 <= k < i ==>
                    Replays(s, items[k], entries[k])
        invariant db.State() == PutAll(start, items)
      {
        ghost var item;
        assert entries[i] in entries;
        why, item := CopyEntry(db, entries[i]);
        if !why.Copied? {
          return i, why, items;
        }
        PutAllPush(start, items, item);
        items := items + [item];
      }
      n := |entries|;
    }

    /** The served heights in ascending order. */
    method ServedHeights() returns (heights: seq<nat>)
      ensures forall h :: h in heights <==> h in heightIndex
      ensures forall i, j :: 0 <= i < j < |heights| ==> heights[i] < heights[j]
    {
      var todo := heightIndex.Keys;
      var found: seq<nat> := [];
      while todo != {}
        invariant forall h :: h in heightIndex <==> h in todo || h in found
        invariant forall h :: h in todo ==> h !in found
        invariant Distinct(found)
        decreases todo
      {
        var h :| h in todo;
        todo := todo - {h};
        found := found + [h];
      }
      heights := Sort(found, ByValue);
      assert IsSorted(heights, ByValue) && Distinct(heights) by {
        SortSorts(found, ByValue);
        PermutationDistinct(found, heights);
      }
      SortMembers(found, ByValue);
      forall i, j | 0 <= i < j < |heights|
        ensures heights[i] < heights[j]
      {
        assert ByValue(heights[i]) <= ByValue(heights[j]);
      }
    }
  }

  datatype CompactResult = Compacted(db: Database) | CompactFailed(height: nat, why: CopyResult)

  /** Some hashes and the heights their entries name, forgotten. */
  ghost function Forget(s: Store, hashes: set<Hash>): Store {
    s.(hashIndex := s.hashIndex - hashes, heightIndex := s.heightIndex - HeightsNamed(s, hashes))
  }

  lemma PrunesNothing(s: Store)
    ensures Doomed(s, 0) == {} && Prune(s, 0) == s
  {
    assert HashesAt(s, {}) == {} && HeightsNamed(s, {}) == {};
    assert s.hashIndex - {} == s.hashIndex && s.heightIndex - {} == s.heightIndex;
  }

  /** The hash of one more height: forgotten with the height its entry names, unless it was already. */
  lemma ForgetsOneMore(s: Store, done: set<nat>, h: nat)
    requires h in s.heightIndex
    ensures var x, was, t := s.heightIndex[h], HashesAt(s, done), Forget(s, HashesAt(s, done));
            Forget(s, HashesAt(s, done + {h})) ==
            if x !in t.hashIndex then t
            else t.(hashIndex := t.hashIndex - {x}, heightIndex := t.heightIndex - {t.hashIndex[x].height})
  {
    var x, was := s.heightIndex[h], HashesAt(s, done);
    assert HashesAt(s, done + {h}) == was + {x};
    ForgetsOneHash(s, was, x);
  }

  lemma ForgetsOneHash(s: Store, was: set<Hash>, x: Hash)
    ensures Forget(s, was + {x}) ==
            if x !in Forget(s, was).hashIndex then Forget(s, was)
            else Forget(s, was).(hashIndex := s.hashIndex - was - {x},
                                 heightIndex := s.heightIndex - HeightsNamed(s, was) - {s.hashIndex[x].height})
  {
    if x in s.hashIndex && x !in was {
      assert HeightsNamed(s, was + {x}) == HeightsNamed(s, was) + {s.hashIndex[x].height};
    } else {
      assert HeightsNamed(s, was + {x}) == HeightsNamed(s, was);
    }
    assert s.hashIndex - (was + {x}) == s.hashIndex - was - {x};
  }

  lemma PutAllPush(s: Store, items: seq<Item>, item: Item)
    requires |s.metadata.magic| == 4
    ensures PutAll(s, items + [item]) == Put(PutAll(s, items), item)
  {
    assert (items + [item])[..|items|] == items;
  }

  /** Where the n-th of the ascending heights is the first that fails, all smaller ones were copied. */
  lemma CopiedBefore(s: Store, heights: seq<nat>, items: seq<Item>, n: nat)
    requires n == |items| < |heights|
    requires forall h :: h in heights <==> h in s.heightIndex
    requires forall i, j :: 0 <= i < j < |heights| ==> heights[i] < heights[j]
    requires forall k {:trigger Replays(s, items[k], heights[k])} :: 0 <= k < n ==>
               Replays(s, items[k], heights[k])
    ensures heights[n] in s.heightIndex
    ensures forall g :: g in s.heightIndex && g < heights[n] ==> Copyable(s, g)
  {
    assert heights[n] in heights;
    forall g | g in s.heightIndex && g < heights[n]
      ensures Copyable(s, g)
    {
      assert g in heights;
      var k :| 0 <= k < |heights| && heights[k] == g;
      assert Replays(s, items[k], heights[k]);
    }
  }

  lemma ReplayCopies(s: Store, items: seq<Item>)
    requires IsReplay(s, items)
    ensures forall h :: h in s.heightIndex ==> Copyable(s, h)
  {
    forall h | h in s.heightIndex
      ensures Copyable(s, h)
    {
      assert HasHeight(items, |items|, h);
      var i :| 0 <= i < |items| && items[i].height == h;
      assert ReplayedAt(s, items, i);
    }
  }

  lemma ReplayFromHeights(s: Store, heights: seq<nat>, items: seq<Item>)
    requires |items| == |heights|
    requires forall h :: h in heights <==> h in s.heightIndex
    requires forall i, j :: 0 <= i < j < |heights| ==> heights[i] < heights[j]
    requires forall k {:trigger Replays(s, items[k], heights[k])} :: 0 <= k < |items| ==>
               Replays(s, items[k], heights[k])
    ensures IsReplay(s, items)
  {
    forall k | 0 <= k < |items|
      ensures ReplayedAt(s, items, k)
    {
      assert Replays(s, items[k], heights[k]);
    }
    forall h | h in s.heightIndex
      ensures HasHeight(items, |items|, h)
    {
      assert h in heights;
      var k :| 0 <= k < |heights| && heights[k] == h;
      assert Replays(s, items[k], heights[k]);
      assert items[k].height == h;
    }
    forall i, j | 0 <= i < j < |items|
      ensures items[i].height < items[j].height
    {
      assert Replays(s, items[i], heights[i]) && Replays(s, items[j], heights[j]);
    }
  }
}
