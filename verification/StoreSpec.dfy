// The append-only store over byte files (adzdb/src/lib.rs): what put, get and reopening do, and what
// every run of puts keeps.

module StoreSpec {
  import opened Arith
  import opened Bytes
  import opened StoreCodec

  /** One value handed to put. */
  datatype Item = Item(hash: Hash, height: nat, data: seq<byte>)

  /** Four files and the three in-memory structures. */
  datatype Store = Store(
    index: seq<byte>, data: seq<byte>, heights: seq<byte>, meta: seq<byte>,
    hashIndex: map<Hash, IndexEntry>, heightIndex: map<nat, Hash>, metadata: Metadata, syncOnWrite: bool)

  datatype ReadResult = Found(bytes: seq<byte>) | NotFound | ShortRead

  function Created(syncOnWrite: bool): Store {
    Store([], [], [], EncodeMetadata(FRESH_METADATA), map[], map[], FRESH_METADATA, syncOnWrite)
  }

  function Synced(s: Store): Store
    requires |s.metadata.magic| == 4
  {
    s.(meta := EncodeMetadata(s.metadata))
  }

  /** Whether put rejects the height, or already has the hash. */
  predicate Accepts(s: Store, item: Item) {
    item.height <= MAX_REASONABLE_HEIGHT && item.hash !in s.hashIndex
  }

  /** The entry put writes; the size field keeps the low 32 bits of the length. */
  function EntryFor(offset: nat, item: Item): IndexEntry {
    IndexEntry(item.hash, offset, |item.data| % TWO32, item.height, 0)
  }

  function Counted(m: Metadata, item: Item): Metadata {
    var n := m.(entryCount := m.entryCount + 1, dataSize := m.dataSize + |item.data|);
    var h := if item.height > m.latestHeight
             then n.(latestHeight := item.height, latestHash := item.hash) else n;
    if item.height == 0 then h.(genesisHash := item.hash) else h
  }

  function Put(s: Store, item: Item): Store
    requires |s.metadata.magic| == 4
  {
    if !Accepts(s, item) then s
    else
      var entry := EntryFor(|s.data|, item);
      var t := s.(
        data := s.data + item.data,
        index := s.index + EncodeEntry(entry),
        heights := s.heights + EncodeHeight(HeightEntry(item.height, item.hash)),
        hashIndex := s.hashIndex[item.hash := entry],
        heightIndex := s.heightIndex[item.height := item.hash],
        metadata := Counted(s.metadata, item));
      if s.syncOnWrite then Synced(t) else t
  }

  function Get(s: Store, hash: Hash): ReadResult {
    if hash !in s.hashIndex then NotFound
    else
      var e := s.hashIndex[hash];
      if e.offset + e.size <= |s.data| then Found(s.data[e.offset..e.offset + e.size]) else ShortRead
  }

  function GetByHeight(s: Store, height: nat): ReadResult {
    if height !in s.heightIndex then NotFound else Get(s, s.heightIndex[height])
  }

  function PutAll(s: Store, items: seq<Item>): (t: Store)
    requires |s.metadata.magic| == 4
    ensures |t.metadata.magic| == 4
  {
    if items == [] then s else Put(PutAll(s, items[..|items| - 1]), items[|items| - 1])
  }

  // ---------------------------------------------------------------- loading files

  /** The index records before a position, in order; the all-zero key marks an empty slot. */
  function LoadHashIndex(file: seq<byte>, pos: nat): map<Hash, IndexEntry>
    requires pos <= |file|
  {
    if pos < INDEX_SIZE then map[]
    else
      var rest := LoadHashIndex(file, pos - INDEX_SIZE);
      var e := DecodeEntry(file[pos - INDEX_SIZE..pos]);
      if e.key != ZERO_HASH then rest[e.key := e] else rest
  }

  function LoadHeightIndex(file: seq<byte>, pos: nat): map<nat, Hash>
    requires pos <= |file|
  {
    if pos < HEIGHT_SIZE then map[]
    else
      var rest := LoadHeightIndex(file, pos - HEIGHT_SIZE);
      var e := DecodeHeight(file[pos - HEIGHT_SIZE..pos]);
      if e.hash != ZERO_HASH then rest[e.height := e.hash] else rest
  }

  /** The length of the whole records in a file, leaving out a partial tail. */
  function WholeRecords(length: nat, width: nat): (whole: nat)
    requires width > 0
    ensures whole <= length
  {
    if length < width then 0 else width + WholeRecords(length - width, width)
  }

  /** n records and less than one more. */
  lemma {:induction false} WholeRecordsAre(length: nat, width: nat, n: nat, pos: nat)
    requires width > 0 && pos == n * width <= length < pos + width
    ensures WholeRecords(length, width) == pos
    decreases n
  {
    if n > 0 {
      MulStep(n, width);
      WholeRecordsAre(length - width, width, n - 1, pos - width);
    }
  }

  datatype OpenResult = Opened(store: Store) | Corrupt | TooHigh(height: nat)

  /** Rebuilds the in-memory structures from the files. */
  function Open(s: Store): OpenResult {
    if |s.meta| < META_SIZE then Corrupt
    else
      match DecodeMetadata(s.meta[..META_SIZE])
      case BadMagic => Corrupt
      case HeightTooLarge(h) => TooHigh(h)
      case MetadataOk(m) =>
        Opened(s.(hashIndex := LoadHashIndex(s.index, WholeRecords(|s.index|, INDEX_SIZE)),
                  heightIndex := LoadHeightIndex(s.heights, WholeRecords(|s.heights|, HEIGHT_SIZE)),
                  metadata := m))
  }

  // ---------------------------------------------------------------- runs of puts

  /** The items of a run that put accepted, in order. */
  function Kept(items: seq<Item>): seq<Item> {
    if items == [] then []
    else
      var rest := Kept(items[..|items| - 1]);
      var last := items[|items| - 1];
      if last.height <= MAX_REASONABLE_HEIGHT && !HasHash(rest, last.hash) then rest + [last] else rest
  }

  predicate HasHash(log: seq<Item>, hash: Hash) {
    exists i :: 0 <= i < |log| && log[i].hash == hash
  }

  /** Total length of the first n values. */
  function Offset(log: seq<Item>, n: nat): nat
    requires n <= |log|
  {
    if n == 0 then 0 else Offset(log, n - 1) + |log[n - 1].data|
  }

  lemma {:induction false} OffsetPrefix(log: seq<Item>, more: seq<Item>, n: nat)
    requires n <= |log|
    ensures Offset(log + more, n) == Offset(log, n)
  {
    if n > 0 { OffsetPrefix(log, more, n - 1); }
  }

  /** The stored values tile the data file: each starts where the previous one ends. */
  lemma {:induction false} OffsetsTile(log: seq<Item>, i: nat, j: nat)
    requires i < j <= |log|
    ensures Offset(log, i) + |log[i].data| == Offset(log, i + 1) <= Offset(log, j)
  {
    if i + 1 < j { OffsetsTile(log, i, j - 1); }
  }

  function EntryAt(log: seq<Item>, i: nat): IndexEntry
    requires i < |log|
  {
    EntryFor(Offset(log, i), log[i])
  }

  /** The store holds exactly the log: files, both indices and the metadata. */
  ghost predicate Holds(s: Store, log: seq<Item>) {
    && Admissible(log)
    && FilesHold(s, log)
    && MapsHold(s, log)
    && MetadataHolds(s.metadata, log)
    && (s.syncOnWrite ==> s.meta == EncodeMetadata(s.metadata))
  }

  ghost predicate FilesHold(s: Store, log: seq<Item>) {
    && |s.data| == Offset(log, |log|)
    && |s.index| == |log| * INDEX_SIZE
    && |s.heights| == |log| * HEIGHT_SIZE
    && (forall i {:trigger ValueAtOffset(s.data, log, i)} :: 0 <= i < |log| ==> ValueAtOffset(s.data, log, i))
    && (forall i {:trigger IndexedAt(s, log, i)} :: 0 <= i < |log| ==> IndexedAt(s, log, i))
  }

  /** The i-th index and height records are those of item i. */
  ghost predicate IndexedAt(s: Store, log: seq<Item>, i: nat)
    requires i < |log|
  {
    && RecordAt(s.index, i, INDEX_SIZE, EncodeEntry(EntryAt(log, i)))
    && RecordAt(s.heights, i, HEIGHT_SIZE, EncodeHeight(HeightEntry(log[i].height, log[i].hash)))
  }

  predicate ValueAtOffset(data: seq<byte>, log: seq<Item>, i: nat)
    requires i < |log|
  {
    var o := Offset(log, i);
    o + |log[i].data| <= |data| && data[o..o + |log[i].data|] == log[i].data
  }

  /** The i-th fixed-width record of a file. */
  predicate RecordAt(file: seq<byte>, i: nat, width: nat, record: seq<byte>) {
    (i + 1) * width <= |file| && 0 <= i * width <= (i + 1) * width && file[i * width..(i + 1) * width] == record
  }

  ghost predicate MapsHold(s: Store, log: seq<Item>) {
    && s.hashIndex == LastEntries(log, |log|)
    && s.heightIndex == LastAtHeight(log, |log|)
  }

  /** For each hash, the entry of the last item that carries it among the first n. */
  function LastEntries(log: seq<Item>, n: nat): map<Hash, IndexEntry>
    requires n <= |log|
  {
    if n == 0 then map[] else LastEntries(log, n - 1)[log[n - 1].hash := EntryAt(log, n - 1)]
  }

  /** For each height, the last hash stored at it among the first n items. */
  function LastAtHeight(log: seq<Item>, n: nat): map<nat, Hash>
    requires n <= |log|
  {
    if n == 0 then map[] else LastAtHeight(log, n - 1)[log[n - 1].height := log[n - 1].hash]
  }

  /** Number of entries, their total size, the greatest height with the first hash stored at it, and
      the last hash stored at height 0. */
  ghost predicate MetadataHolds(m: Metadata, log: seq<Item>) {
    && m.magic == MAGIC && m.version == 1
    && m.entryCount == |log|
    && m.dataSize == Offset(log, |log|)
    && (forall i :: 0 <= i < |log| ==> log[i].height <= m.latestHeight)
    && (if m.latestHeight == 0 then m.latestHash == ZERO_HASH
        else exists i :: FirstAtHeight(log, i, m.latestHeight) && log[i].hash == m.latestHash)
    && m.genesisHash == (if 0 in LastAtHeight(log, |log|) then LastAtHeight(log, |log|)[0] else ZERO_HASH)
  }

  ghost predicate FirstAtHeight(log: seq<Item>, i: int, h: nat) {
    0 <= i < |log| && log[i].height == h && forall j :: 0 <= j < i ==> log[j].height != h
  }

  // ---------------------------------------------------------------- appending

  lemma AppendKeepsRecords(file: seq<byte>, extra: seq<byte>, i: nat, width: nat, record: seq<byte>)
    requires RecordAt(file, i, width, record)
    ensures RecordAt(file + extra, i, width, record)
  {
  }

  lemma AppendAddsRecord(file: seq<byte>, n: nat, width: nat, record: seq<byte>)
    requires |file| == n * width && |record| == width
    ensures RecordAt(file + record, n, width, record) && |file + record| == (n + 1) * width
  {
    MulStep(n + 1, width);
    assert (file + record)[n * width..(n + 1) * width] == record;
  }

  lemma {:induction false} LastAtHeightPrefix(log: seq<Item>, more: seq<Item>, n: nat)
    requires n <= |log|
    ensures LastAtHeight(log + more, n) == LastAtHeight(log, n)
  {
    if n > 0 { LastAtHeightPrefix(log, more, n - 1); }
  }

  lemma {:induction false} LastEntriesPrefix(log: seq<Item>, more: seq<Item>, n: nat)
    requires n <= |log|
    ensures LastEntries(log + more, n) == LastEntries(log, n)
  {
    if n > 0 {
      LastEntriesPrefix(log, more, n - 1);
      OffsetPrefix(log, more, n - 1);
    }
  }

  lemma PushFacts(log: seq<Item>, item: Item)
    ensures Offset(log + [item], |log|) == Offset(log, |log|)
    ensures Offset(log + [item], |log| + 1) == Offset(log, |log|) + |item.data|
    ensures forall i :: 0 <= i < |log| ==> Offset(log + [item], i) == Offset(log, i)
    ensures forall i :: 0 <= i < |log| ==> EntryAt(log + [item], i) == EntryAt(log, i)
    ensures EntryAt(log + [item], |log|) == EntryFor(Offset(log, |log|), item)
    ensures LastAtHeight(log + [item], |log| + 1) == LastAtHeight(log, |log|)[item.height := item.hash]
    ensures LastEntries(log + [item], |log| + 1)
         == LastEntries(log, |log|)[item.hash := EntryFor(Offset(log, |log|), item)]
  {
    LastEntriesPrefix(log, [item], |log|);
    forall i | 0 <= i <= |log|
      ensures Offset(log + [item], i) == Offset(log, i)
    {
      OffsetPrefix(log, [item], i);
    }
    LastAtHeightPrefix(log, [item], |log|);
  }

  lemma PutKeepsData(s: Store, log: seq<Item>, item: Item)
    requires FilesHold(s, log)
    ensures forall i :: 0 <= i <= |log| ==> ValueAtOffset(s.data + item.data, log + [item], i)
  {
    PushFacts(log, item);
    var grown := s.data + item.data;
    forall i | 0 <= i <= |log|
      ensures ValueAtOffset(grown, log + [item], i)
    {
      var o := Offset(log + [item], i);
      if i < |log| {
        assert ValueAtOffset(s.data, log, i);
        assert grown[o..o + |log[i].data|] == s.data[o..o + |log[i].data|];
      } else {
        assert grown[o..o + |item.data|] == item.data;
      }
    }
  }

  lemma PutKeepsFiles(s: Store, log: seq<Item>, item: Item)
    requires FilesHold(s, log) && |s.metadata.magic| == 4 && Accepts(s, item)
    ensures FilesHold(Put(s, item), log + [item])
  {
    PushFacts(log, item);
    PutKeepsData(s, log, item);
    var n := |log|;
    var entry := EncodeEntry(EntryFor(|s.data|, item));
    var height := EncodeHeight(HeightEntry(item.height, item.hash));
    AppendAddsRecord(s.index, n, INDEX_SIZE, entry);
    AppendAddsRecord(s.heights, n, HEIGHT_SIZE, height);
    var t := Put(s, item);
    forall i | 0 <= i <= n
      ensures IndexedAt(t, log + [item], i)
    {
      if i < n {
        assert IndexedAt(s, log, i);
        AppendKeepsRecords(s.index, entry, i, INDEX_SIZE, EncodeEntry(EntryAt(log, i)));
        AppendKeepsRecords(s.heights, height, i, HEIGHT_SIZE, EncodeHeight(HeightEntry(log[i].height, log[i].hash)));
      }
    }
  }

  lemma HasHashPush(log: seq<Item>, item: Item, h: Hash)
    ensures HasHash(log + [item], h) <==> HasHash(log, h) || h == item.hash
  {
    var grown := log + [item];
    assert grown[|log|] == item;
    if HasHash(log, h) {
      var i :| 0 <= i < |log| && log[i].hash == h;
      assert grown[i].hash == h;
    }
    if HasHash(grown, h) {
      var i :| 0 <= i < |grown| && grown[i].hash == h;
      if i < |log| { assert log[i].hash == h; }
    }
  }

  lemma PutKeepsMaps(s: Store, log: seq<Item>, item: Item)
    requires MapsHold(s, log) && |s.data| == Offset(log, |log|) && |s.metadata.magic| == 4 && Accepts(s, item)
    ensures MapsHold(Put(s, item), log + [item])
  {
    PushFacts(log, item);
  }

  /** A hash is mapped exactly when some item carries it. */
  lemma {:induction false} LastEntriesKeys(log: seq<Item>, n: nat, x: Hash)
    requires n <= |log|
    ensures x in LastEntries(log, n) <==> exists i :: 0 <= i < n && log[i].hash == x
  {
    if n > 0 { LastEntriesKeys(log, n - 1, x); }
  }

  /** It is mapped to the last of them. */
  lemma {:induction false} LastEntryOf(log: seq<Item>, n: nat, i: nat)
    requires i < n <= |log|
    requires forall k {:trigger DifferAt(log, i, k)} :: i < k < n ==> DifferAt(log, i, k)
    ensures log[i].hash in LastEntries(log, n) && LastEntries(log, n)[log[i].hash] == EntryAt(log, i)
  {
    if i < n - 1 {
      LastEntryOf(log, n - 1, i);
      assert DifferAt(log, i, n - 1);
    }
  }

  lemma PutKeepsMetadata(m: Metadata, log: seq<Item>, item: Item)
    requires MetadataHolds(m, log)
    ensures MetadataHolds(Counted(m, item), log + [item])
  {
    PushFacts(log, item);
    var n, grown := Counted(m, item), log + [item];
    assert grown[|log|] == item;
    if item.height > m.latestHeight {
      assert FirstAtHeight(grown, |log|, n.latestHeight);
    } else if m.latestHeight != 0 {
      var i :| FirstAtHeight(log, i, m.latestHeight) && log[i].hash == m.latestHash;
      assert FirstAtHeight(grown, i, n.latestHeight) && grown[i].hash == n.latestHash;
    }
  }

  ghost predicate DifferAt(log: seq<Item>, i: nat, j: nat)
    requires i < |log| && j < |log|
  {
    log[i].hash != log[j].hash
  }

  /** What put lets in: distinct hashes at reasonable heights. */
  ghost predicate Admissible(log: seq<Item>) {
    && (forall i, j {:trigger DifferAt(log, i, j)} :: 0 <= i < j < |log| ==> DifferAt(log, i, j))
    && HeightsAllowed(log)
  }

  ghost predicate HeightsAllowed(log: seq<Item>) {
    forall i :: 0 <= i < |log| ==> log[i].height <= MAX_REASONABLE_HEIGHT
  }

  lemma AdmissiblePush(log: seq<Item>, item: Item)
    requires Admissible(log) && item.height <= MAX_REASONABLE_HEIGHT && !HasHash(log, item.hash)
    ensures Admissible(log + [item])
  {
    var grown := log + [item];
    forall i, j | 0 <= i < j < |grown|
      ensures DifferAt(grown, i, j)
    {
      if j < |log| {
        assert DifferAt(log, i, j);
      } else {
        assert HasHash(log, log[i].hash);
      }
    }
  }

  /** An accepted put extends the log by its item; any other put changes nothing. */
  lemma PutExtendsLog(s: Store, log: seq<Item>, item: Item)
    requires Holds(s, log)
    ensures Accepts(s, item) <==> item.height <= MAX_REASONABLE_HEIGHT && !HasHash(log, item.hash)
    ensures if Accepts(s, item) then Holds(Put(s, item), log + [item]) else Put(s, item) == s
  {
    LastEntriesKeys(log, |log|, item.hash);
    if Accepts(s, item) {
      var t, grown := Put(s, item), log + [item];
      assert Admissible(grown) by { AdmissiblePush(log, item); }
      assert FilesHold(t, grown) by { PutKeepsFiles(s, log, item); }
      assert MapsHold(t, grown) by { PutKeepsMaps(s, log, item); }
      assert MetadataHolds(t.metadata, grown) by { PutKeepsMetadata(s.metadata, log, item); }
    }
  }

  /** The genesis hash is the one served at height 0. The latest hash is the one served at the latest
      height if and only if no second item came in at that height; below height 1 it is never set. */
  lemma LatestHashIff(s: Store, log: seq<Item>)
    requires Holds(s, log) && log != []
    ensures var top := s.metadata.latestHeight;
            && top in s.heightIndex
            && (0 in s.heightIndex ==> s.heightIndex[0] == s.metadata.genesisHash)
            && (top == 0 ==> s.metadata.latestHash == ZERO_HASH)
            && (top != 0 ==> (s.heightIndex[top] == s.metadata.latestHash <==> OnceAtHeight(log, top)))
  {
    var top := s.metadata.latestHeight;
    if top == 0 {
      var _ := LastHashAt(log, |log|, |log| - 1, 0);
    } else {
      var i :| FirstAtHeight(log, i, top) && log[i].hash == s.metadata.latestHash;
      var j := LastHashAt(log, |log|, i, top);
      if i < j { assert DifferAt(log, i, j); }
    }
  }

  ghost predicate OnceAtHeight(log: seq<Item>, h: nat) {
    forall i, j :: 0 <= i < j < |log| && log[i].height == h ==> log[j].height != h
  }

  /** The height map serves the last item at a height. */
  lemma {:induction false} LastHashAt(log: seq<Item>, n: nat, i: nat, h: nat) returns (j: nat)
    requires i < n <= |log| && log[i].height == h
    ensures i <= j < n && log[j].height == h && forall k :: j < k < n ==> log[k].height != h
    ensures h in LastAtHeight(log, n) && LastAtHeight(log, n)[h] == log[j].hash
  {
    if log[n - 1].height == h {
      j := n - 1;
    } else {
      j := LastHashAt(log, n - 1, i, h);
    }
  }

  lemma CreatedHoldsNothing(sync: bool)
    ensures Holds(Created(sync), [])
  {
  }

  /** After any run of puts the store holds exactly the accepted items. */
  lemma {:induction false} RunHoldsKept(sync: bool, items: seq<Item>)
    ensures Holds(PutAll(Created(sync), items), Kept(items))
  {
    if items == [] {
      CreatedHoldsNothing(sync);
    } else {
      var before := items[..|items| - 1];
      RunHoldsKept(sync, before);
      PutExtendsLog(PutAll(Created(sync), before), Kept(before), items[|items| - 1]);
    }
  }

  // ---------------------------------------------------------------- reading back

  /** What a read returns of a value: its first len mod 2^32 bytes. */
  function StoredPart(value: seq<byte>): seq<byte> {
    value[..|value| % TWO32]
  }

  lemma SlicePrefix(data: seq<byte>, o: nat, v: seq<byte>, m: nat)
    requires m <= |v| && o + |v| <= |data| && data[o..o + |v|] == v
    ensures data[o..o + m] == v[..m]
    ensures v[..m] == v <==> m == |v|
  {
    assert data[o..o + m] == data[o..o + |v|][..m];
    if m < |v| { assert |v[..m]| != |v|; }
  }

  lemma ReadsEntry(s: Store, log: seq<Item>, i: nat)
    requires i < |log| && ValueAtOffset(s.data, log, i)
    requires log[i].hash in s.hashIndex && s.hashIndex[log[i].hash] == EntryAt(log, i)
    ensures Get(s, log[i].hash) == Found(StoredPart(log[i].data))
    ensures Get(s, log[i].hash) == Found(log[i].data) <==> |log[i].data| < TWO32
  {
    var n := |log[i].data|;
    assert n % TWO32 <= n && (n % TWO32 == n <==> n < TWO32);
    SlicePrefix(s.data, Offset(log, i), log[i].data, n % TWO32);
  }

  /** With distinct hashes every item keeps its own entry. */
  lemma Mapped(s: Store, log: seq<Item>, i: nat)
    requires Admissible(log) && MapsHold(s, log) && i < |log|
    ensures log[i].hash in s.hashIndex && s.hashIndex[log[i].hash] == EntryAt(log, i)
  {
    LastEntryOf(log, |log|, i);
  }

  /** Every stored hash returns the first len mod 2^32 bytes of its value, so the original bytes
      exactly when the value is shorter than 4 GiB. */
  lemma StoredBytes(s: Store, log: seq<Item>, i: nat)
    requires Holds(s, log) && i < |log|
    ensures Get(s, log[i].hash) == Found(StoredPart(log[i].data))
    ensures Get(s, log[i].hash) == Found(log[i].data) <==> |log[i].data| < TWO32
  {
    assert ValueAtOffset(s.data, log, i);
    Mapped(s, log, i);
    ReadsEntry(s, log, i);
  }

  /** The first accepted put of a hash decides what it returns, after any further puts. */
  lemma FirstPutWins(sync: bool, items: seq<Item>, i: nat)
    requires i < |items| && items[i].height <= MAX_REASONABLE_HEIGHT
    requires forall j :: 0 <= j < i && items[j].hash == items[i].hash ==> items[j].height > MAX_REASONABLE_HEIGHT
    ensures Get(PutAll(Created(sync), items), items[i].hash) == Found(StoredPart(items[i].data))
  {
    var k := KeptContains(items, i);
    RunHoldsKept(sync, items);
    StoredBytes(PutAll(Created(sync), items), Kept(items), k);
  }

  lemma {:induction false} KeptContains(items: seq<Item>, i: nat) returns (k: nat)
    requires i < |items| && items[i].height <= MAX_REASONABLE_HEIGHT
    requires forall j :: 0 <= j < i && items[j].hash == items[i].hash ==> items[j].height > MAX_REASONABLE_HEIGHT
    ensures k < |Kept(items)| && Kept(items)[k] == items[i]
  {
    var before := items[..|items| - 1];
    if i < |items| - 1 {
      k := KeptContains(before, i);
    } else {
      if HasHash(Kept(before), items[i].hash) {
        var j := KeptComesFrom(before, items[i].hash);
        assert false;
      }
      k := |Kept(before)|;
    }
  }

  lemma {:induction false} KeptComesFrom(items: seq<Item>, hash: Hash) returns (j: nat)
    requires HasHash(Kept(items), hash)
    ensures j < |items| && items[j].hash == hash && items[j].height <= MAX_REASONABLE_HEIGHT
  {
    var before := items[..|items| - 1];
    if HasHash(Kept(before), hash) {
      j := KeptComesFrom(before, hash);
    } else {
      var k :| 0 <= k < |Kept(items)| && Kept(items)[k].hash == hash;
      j := |items| - 1;
    }
  }

  /** Index entries tile the data file: the first starts at 0 and the last ends at its length. */
  lemma EntriesSpan(s: Store, log: seq<Item>)
    requires Holds(s, log) && log != []
    ensures var first, last := log[0].hash, log[|log| - 1].hash;
            && first in s.hashIndex && s.hashIndex[first].offset == 0
            && last in s.hashIndex && s.hashIndex[last].offset + |log[|log| - 1].data| == |s.data|
  {
    Mapped(s, log, 0);
    Mapped(s, log, |log| - 1);
    assert Offset(log, 0) == 0;
  }

  /** In between they follow one another without gap or overlap. */
  lemma EntriesTile(s: Store, log: seq<Item>, i: nat, j: nat)
    requires Holds(s, log) && i < j < |log|
    ensures log[i].hash in s.hashIndex && log[j - 1].hash in s.hashIndex && log[j].hash in s.hashIndex
    ensures s.hashIndex[log[i].hash].offset + |log[i].data| <= s.hashIndex[log[j].hash].offset
    ensures s.hashIndex[log[j].hash].offset ==
            s.hashIndex[log[j - 1].hash].offset + |log[j - 1].data|
  {
    Mapped(s, log, i);
    Mapped(s, log, j);
    Mapped(s, log, j - 1);
    OffsetsTile(log, i, j);
    OffsetsTile(log, j - 1, j);
  }

  /** What lies in the index and height files, byte by byte: for item i its hash, the offset of its value,
      the low 32 bits of its length and its height, little-endian, and four zero bytes of flags; and its
      height and hash. */
  lemma RecordLayout(s: Store, log: seq<Item>, i: nat)
    requires Holds(s, log) && i < |log|
    ensures 56 * i + 56 <= |s.index| && 40 * i + 40 <= |s.heights|
    ensures s.index[56 * i..56 * i + 56] ==
            log[i].hash + LeBytes(Offset(log, i), 8) + LeBytes(|log[i].data| % 0x1_0000_0000, 4)
            + LeBytes(log[i].height, 8) + [0, 0, 0, 0]
    ensures s.heights[40 * i..40 * i + 40] == LeBytes(log[i].height, 8) + log[i].hash
  {
    assert IndexedAt(s, log, i);
    RecordSlice(s.index, i, INDEX_SIZE, EncodeEntry(EntryAt(log, i)), 56 * i);
    RecordSlice(s.heights, i, HEIGHT_SIZE, EncodeHeight(HeightEntry(log[i].height, log[i].hash)), 40 * i);
    EntryBytes(Offset(log, i), log[i]);
  }

  lemma EntryBytes(offset: nat, item: Item)
    ensures EncodeEntry(EntryFor(offset, item)) ==
            item.hash + LeBytes(offset, 8) + LeBytes(|item.data| % 0x1_0000_0000, 4)
            + LeBytes(item.height, 8) + [0, 0, 0, 0]
  {
    NoFlags();
  }

  lemma RecordSlice(file: seq<byte>, i: nat, width: nat, record: seq<byte>, from: nat)
    requires RecordAt(file, i, width, record) && from == width * i
    ensures from + width <= |file| && file[from..from + width] == record
  {
    MulStep(i + 1, width);
  }

  lemma NoFlags()
    ensures LeBytes(0, 4) == [0, 0, 0, 0]
  {
  }

  /** A put writes the metadata file if and only if it is accepted and the store syncs. */
  lemma PutSyncs(s: Store, item: Item)
    requires |s.metadata.magic| == 4
    ensures Put(s, item).meta == if Accepts(s, item) && s.syncOnWrite then EncodeMetadata(Put(s, item).metadata) else s.meta
  {
  }

  // ---------------------------------------------------------------- reopening

  /** The i-th record of an index file decodes to the entry of item i. */
  predicate DecodesAt(file: seq<byte>, log: seq<Item>, i: nat)
    requires i < |log|
  {
    (i + 1) * INDEX_SIZE <= |file| && DecodeEntry(file[i * INDEX_SIZE..(i + 1) * INDEX_SIZE]) == EntryAt(log, i)
  }

  lemma DecodesToEntry(s: Store, log: seq<Item>, i: nat)
    requires FilesHold(s, log) && |s.data| < TWO64 && i < |log| && log[i].height <= MAX_REASONABLE_HEIGHT
    ensures DecodesAt(s.index, log, i)
  {
    assert IndexedAt(s, log, i);
    OffsetsTile(log, i, |log|);
    EntryRoundTrip(EntryAt(log, i));
  }

  /** Loading the records of the items builds the map of last entries without the all-zero hash. */
  lemma LoadedEntries(file: seq<byte>, log: seq<Item>, n: nat)
    requires n <= |log| && n * INDEX_SIZE <= |file|
    requires forall i {:trigger DecodesAt(file, log, i)} :: 0 <= i < n ==> DecodesAt(file, log, i)
    ensures LoadHashIndex(file, n * INDEX_SIZE) == LastEntries(log, n) - {ZERO_HASH}
  {
    for k := 0 to n
      invariant k * INDEX_SIZE <= |file|
      invariant LoadHashIndex(file, k * INDEX_SIZE) == LastEntries(log, k) - {ZERO_HASH}
    {
      MulStep(k + 1, INDEX_SIZE);
      assert DecodesAt(file, log, k);
      LoadStep(file, log, k + 1, k * INDEX_SIZE, (k + 1) * INDEX_SIZE);
    }
  }

  lemma LoadStep(file: seq<byte>, log: seq<Item>, n: nat, from: nat, to: nat)
    requires 0 < n <= |log| && to == from + INDEX_SIZE <= |file|
    requires DecodeEntry(file[from..to]) == EntryAt(log, n - 1)
    requires LoadHashIndex(file, from) == LastEntries(log, n - 1) - {ZERO_HASH}
    ensures LoadHashIndex(file, to) == LastEntries(log, n) - {ZERO_HASH}
  {
  }

  /** The i-th record of a height file decodes to the height and hash of item i. */
  predicate HeightDecodesAt(file: seq<byte>, log: seq<Item>, i: nat)
    requires i < |log|
  {
    && (i + 1) * HEIGHT_SIZE <= |file|
    && DecodeHeight(file[i * HEIGHT_SIZE..(i + 1) * HEIGHT_SIZE]) == HeightEntry(log[i].height, log[i].hash)
  }

  lemma DecodesToHeight(s: Store, log: seq<Item>, i: nat)
    requires FilesHold(s, log) && i < |log| && log[i].height <= MAX_REASONABLE_HEIGHT
    ensures HeightDecodesAt(s.heights, log, i)
  {
    assert IndexedAt(s, log, i);
    HeightRoundTrip(HeightEntry(log[i].height, log[i].hash));
  }

  /** For each height, the last hash but the all-zero one among the first n items. */
  function LastNonZero(log: seq<Item>, n: nat): map<nat, Hash>
    requires n <= |log|
  {
    if n == 0 then map[]
    else if log[n - 1].hash == ZERO_HASH then LastNonZero(log, n - 1)
    else LastNonZero(log, n - 1)[log[n - 1].height := log[n - 1].hash]
  }

  lemma LoadedHeights(file: seq<byte>, log: seq<Item>, n: nat)
    requires n <= |log| && n * HEIGHT_SIZE <= |file|
    requires forall i {:trigger HeightDecodesAt(file, log, i)} :: 0 <= i < n ==> HeightDecodesAt(file, log, i)
    ensures LoadHeightIndex(file, n * HEIGHT_SIZE) == LastNonZero(log, n)
  {
    for k := 0 to n
      invariant k * HEIGHT_SIZE <= |file|
      invariant LoadHeightIndex(file, k * HEIGHT_SIZE) == LastNonZero(log, k)
    {
      MulStep(k + 1, HEIGHT_SIZE);
      assert HeightDecodesAt(file, log, k);
      HeightLoadStep(file, log, k + 1, k * HEIGHT_SIZE, (k + 1) * HEIGHT_SIZE);
    }
  }

  lemma HeightLoadStep(file: seq<byte>, log: seq<Item>, n: nat, from: nat, to: nat)
    requires 0 < n <= |log| && to == from + HEIGHT_SIZE <= |file|
    requires DecodeHeight(file[from..to]) == HeightEntry(log[n - 1].height, log[n - 1].hash)
    requires LoadHeightIndex(file, from) == LastNonZero(log, n - 1)
    ensures LoadHeightIndex(file, to) == LastNonZero(log, n)
  {
  }

  /** The metadata file decodes. */
  predicate MetaReads(s: Store) {
    |s.meta| == META_SIZE && DecodeMetadata(s.meta).MetadataOk?
  }

  /** What a reopen brings back of files that hold a log, repeated hashes or not: the entry of the
      last item for each hash, and the last hash for each height, the all-zero hash left out of both. */
  lemma OpenRebuilds(s: Store, log: seq<Item>)
    requires FilesHold(s, log) && HeightsAllowed(log) && |s.data| < TWO64 && MetaReads(s)
    ensures Open(s) == Opened(s.(hashIndex := LastEntries(log, |log|) - {ZERO_HASH},
                                 heightIndex := LastNonZero(log, |log|),
                                 metadata := DecodeMetadata(s.meta).meta))
  {
    RecordCount(s, log);
    IndexLoads(s, log);
    HeightsLoad(s, log);
    assert s.meta[..META_SIZE] == s.meta;
  }

  lemma IndexLoads(s: Store, log: seq<Item>)
    requires FilesHold(s, log) && HeightsAllowed(log) && |s.data| < TWO64
    ensures LoadHashIndex(s.index, |s.index|) == LastEntries(log, |log|) - {ZERO_HASH}
  {
    forall i | 0 <= i < |log|
      ensures DecodesAt(s.index, log, i)
    {
      DecodesToEntry(s, log, i);
    }
    LoadedEntries(s.index, log, |log|);
  }

  lemma HeightsLoad(s: Store, log: seq<Item>)
    requires FilesHold(s, log) && HeightsAllowed(log)
    ensures LoadHeightIndex(s.heights, |s.heights|) == LastNonZero(log, |log|)
  {
    forall i | 0 <= i < |log|
      ensures HeightDecodesAt(s.heights, log, i)
    {
      DecodesToHeight(s, log, i);
    }
    LoadedHeights(s.heights, log, |log|);
  }

  /** Opening fails exactly on a metadata file shorter than 96 bytes, one that does not start with the
      text "ADZB", or one whose height, bytes 24 to 31, is above ten million. */
  lemma OpenFails(s: Store)
    ensures Open(s).Corrupt? <==> |s.meta| < 96 || s.meta[0..4] != [65, 68, 90, 66]
    ensures Open(s).TooHigh? <==> |s.meta| >= 96 && s.meta[0..4] == [65, 68, 90, 66] && FromLe(s.meta[24..32]) > 10_000_000
    ensures Open(s).TooHigh? ==> Open(s).height == FromLe(s.meta[24..32])
  {
    if |s.meta| >= 96 {
      var b := s.meta[..META_SIZE];
      assert b[0..4] == s.meta[0..4] && b[24..32] == s.meta[24..32];
    }
  }

  lemma RecordCount(s: Store, log: seq<Item>)
    requires FilesHold(s, log)
    ensures WholeRecords(|s.index|, INDEX_SIZE) == |s.index| == |log| * INDEX_SIZE
    ensures WholeRecords(|s.heights|, HEIGHT_SIZE) == |s.heights| == |log| * HEIGHT_SIZE
  {
    WholeRecordsAre(|s.index|, INDEX_SIZE, |log|, |s.index|);
    WholeRecordsAre(|s.heights|, HEIGHT_SIZE, |log|, |s.heights|);
  }

  lemma MetadataReadsBack(m: Metadata, log: seq<Item>)
    requires MetadataHolds(m, log) && HeightsAllowed(log) && Offset(log, |log|) < TWO64 && |log| < TWO64
    ensures DecodeMetadata(EncodeMetadata(m)) == MetadataOk(m)
  {
    if m.latestHeight != 0 {
      var i :| FirstAtHeight(log, i, m.latestHeight);
    }
    MetadataRoundTrip(m);
  }

  lemma {:induction false} NoZeroNoLoss(log: seq<Item>, n: nat)
    requires n <= |log| && forall i :: 0 <= i < n ==> log[i].hash != ZERO_HASH
    ensures LastNonZero(log, n) == LastAtHeight(log, n)
  {
    if n > 0 { NoZeroNoLoss(log, n - 1); }
  }

  /** Reopening a synced store of a run of puts rebuilds exactly what was in memory if and only if the
      all-zero hash was never stored: its records look like empty slots to the loader. */
  lemma ReopenExactIff(s: Store, log: seq<Item>)
    requires Holds(s, log) && s.meta == EncodeMetadata(s.metadata)
    requires |s.data| < TWO64 && |log| < TWO64
    ensures Open(s) == Opened(s) <==> ZERO_HASH !in s.hashIndex
  {
    SyncedRebuilds(s, log);
    if ZERO_HASH !in s.hashIndex {
      NoZeroKeepsAll(s, log);
    } else {
      assert ZERO_HASH !in s.hashIndex - {ZERO_HASH};
    }
  }

  lemma SyncedRebuilds(s: Store, log: seq<Item>)
    requires Holds(s, log) && s.meta == EncodeMetadata(s.metadata)
    requires |s.data| < TWO64 && |log| < TWO64
    ensures Open(s) == Opened(s.(hashIndex := s.hashIndex - {ZERO_HASH}, heightIndex := LastNonZero(log, |log|)))
  {
    MetadataReadsBack(s.metadata, log);
    OpenRebuilds(s, log);
  }

  lemma NoZeroKeepsAll(s: Store, log: seq<Item>)
    requires MapsHold(s, log) && ZERO_HASH !in s.hashIndex
    ensures s.hashIndex - {ZERO_HASH} == s.hashIndex && LastNonZero(log, |log|) == s.heightIndex
  {
    LastEntriesKeys(log, |log|, ZERO_HASH);
    NoZeroNoLoss(log, |log|);
  }

  /** The same for whole runs: after any run of puts on a store that syncs, a reopen is the identity
      exactly when no accepted item had the all-zero hash. */
  lemma RunReopens(items: seq<Item>)
    requires var s := PutAll(Created(true), items); |s.data| < TWO64 && |Kept(items)| < TWO64
    ensures var s := PutAll(Created(true), items);
            Open(s) == Opened(s) <==> !HasHash(Kept(items), ZERO_HASH)
  {
    var s := PutAll(Created(true), items);
    RunHoldsKept(true, items);
    SyncModeKept(true, items);
    ReopenExactIff(s, Kept(items));
    LastEntriesKeys(Kept(items), |Kept(items)|, ZERO_HASH);
  }

  lemma {:induction false} SyncModeKept(sync: bool, items: seq<Item>)
    ensures PutAll(Created(sync), items).syncOnWrite == sync
  {
    if items != [] { SyncModeKept(sync, items[..|items| - 1]); }
  }
}
