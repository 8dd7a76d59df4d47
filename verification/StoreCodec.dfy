// The fixed-width records of the append-only store (adzdb/src/lib.rs): index entries of 56 bytes,
// height entries of 40, metadata of 96.

module StoreCodec {
  import opened Arith
  import opened Bytes

  const MAX_REASONABLE_HEIGHT: nat := 10_000_000

  /** "ADZB" */
  const MAGIC: seq<byte> := [65, 68, 90, 66]

  datatype IndexEntry = IndexEntry(key: Hash, offset: nat, size: nat, height: nat, flags: nat)
  datatype HeightEntry = HeightEntry(height: nat, hash: Hash)
  datatype Metadata = Metadata(
    magic: seq<byte>, version: nat, entryCount: nat, dataSize: nat,
    latestHeight: nat, latestHash: Hash, genesisHash: Hash)

  datatype MetadataResult = MetadataOk(meta: Metadata) | BadMagic | HeightTooLarge(height: nat)

  const INDEX_SIZE: nat := 56
  const HEIGHT_SIZE: nat := 40
  const META_SIZE: nat := 96

  const FRESH_METADATA: Metadata := Metadata(MAGIC, 1, 0, 0, 0, ZERO_HASH, ZERO_HASH)

  // ---------------------------------------------------------------- index entries

  /** The fields fit their machine words. */
  predicate EntryFits(e: IndexEntry) {
    e.offset < TWO64 && e.size < TWO32 && e.height < TWO64 && e.flags < TWO32
  }

  function EncodeEntry(e: IndexEntry): (b: seq<byte>)
    ensures |b| == INDEX_SIZE
  {
    e.key + LeBytes(e.offset, 8) + LeBytes(e.size, 4) + LeBytes(e.height, 8) + LeBytes(e.flags, 4)
  }

  function DecodeEntry(b: seq<byte>): IndexEntry
    requires |b| == INDEX_SIZE
  {
    IndexEntry(b[0..32], FromLe(b[32..40]), FromLe(b[40..44]), FromLe(b[44..52]), FromLe(b[52..56]))
  }

  lemma EntrySlices(e: IndexEntry)
    ensures var b := EncodeEntry(e);
            && b[0..32] == e.key && b[32..40] == LeBytes(e.offset, 8) && b[40..44] == LeBytes(e.size, 4)
            && b[44..52] == LeBytes(e.height, 8) && b[52..56] == LeBytes(e.flags, 4)
  {
    var head := e.key + LeBytes(e.offset, 8);
    var tail := LeBytes(e.size, 4) + LeBytes(e.height, 8) + LeBytes(e.flags, 4);
    var b := EncodeEntry(e);
    assert b == head + tail;
    assert b[0..32] == head[0..32] && b[32..40] == head[32..40];
    assert b[40..44] == tail[0..4] && b[44..52] == tail[4..12] && b[52..56] == tail[12..16];
  }

  /** Index entries and 56-byte records correspond one to one. */
  lemma EntryRoundTrip(e: IndexEntry)
    requires EntryFits(e)
    ensures DecodeEntry(EncodeEntry(e)) == e
  {
    EntrySlices(e);
    WordSizes();
    LeRoundTrip(e.offset, 8);
    LeRoundTrip(e.size, 4);
    LeRoundTrip(e.height, 8);
    LeRoundTrip(e.flags, 4);
  }

  lemma EntryRoundTripBack(b: seq<byte>)
    requires |b| == INDEX_SIZE
    ensures EntryFits(DecodeEntry(b)) && EncodeEntry(DecodeEntry(b)) == b
  {
    WordSizes();
    LeRoundTripBack(b[32..40]);
    LeRoundTripBack(b[40..44]);
    LeRoundTripBack(b[44..52]);
    LeRoundTripBack(b[52..56]);
    assert b == b[0..32] + b[32..40] + b[40..44] + b[44..52] + b[52..56];
  }

  // ---------------------------------------------------------------- height entries

  function EncodeHeight(e: HeightEntry): (b: seq<byte>)
    ensures |b| == HEIGHT_SIZE
  {
    LeBytes(e.height, 8) + e.hash
  }

  function DecodeHeight(b: seq<byte>): HeightEntry
    requires |b| == HEIGHT_SIZE
  {
    HeightEntry(FromLe(b[0..8]), b[8..40])
  }

  lemma HeightRoundTrip(e: HeightEntry)
    requires e.height < TWO64
    ensures DecodeHeight(EncodeHeight(e)) == e
  {
    WordSizes();
    LeRoundTrip(e.height, 8);
    assert EncodeHeight(e)[0..8] == LeBytes(e.height, 8);
    assert EncodeHeight(e)[8..40] == e.hash;
  }

  lemma HeightRoundTripBack(b: seq<byte>)
    requires |b| == HEIGHT_SIZE
    ensures DecodeHeight(b).height < TWO64 && EncodeHeight(DecodeHeight(b)) == b
  {
    WordSizes();
    LeRoundTripBack(b[0..8]);
    assert b == b[0..8] + b[8..40];
  }

  // ---------------------------------------------------------------- metadata

  predicate MetadataFits(m: Metadata) {
    && |m.magic| == 4 && m.version < TWO32
    && m.entryCount < TWO64 && m.dataSize < TWO64 && m.latestHeight < TWO64
  }

  function EncodeMetadata(m: Metadata): (b: seq<byte>)
    requires |m.magic| == 4
    ensures |b| == META_SIZE
  {
    m.magic + LeBytes(m.version, 4) + LeBytes(m.entryCount, 8) + LeBytes(m.dataSize, 8)
    + LeBytes(m.latestHeight, 8) + m.latestHash + m.genesisHash
  }

  function MetadataFields(b: seq<byte>): Metadata
    requires |b| == META_SIZE
  {
    Metadata(b[0..4], FromLe(b[4..8]), FromLe(b[8..16]), FromLe(b[16..24]), FromLe(b[24..32]), b[32..64], b[64..96])
  }

  /** Decoding checks the magic first, then the height. */
  function DecodeMetadata(b: seq<byte>): MetadataResult
    requires |b| == META_SIZE
  {
    if b[0..4] != MAGIC then BadMagic
    else
      var m := MetadataFields(b);
      if m.latestHeight > MAX_REASONABLE_HEIGHT then HeightTooLarge(m.latestHeight) else MetadataOk(m)
  }

  /** Where the fields lie. */
  lemma MetadataSlices(m: Metadata)
    requires |m.magic| == 4
    ensures var b := EncodeMetadata(m);
            && b[0..4] == m.magic && b[4..8] == LeBytes(m.version, 4)
            && b[8..16] == LeBytes(m.entryCount, 8) && b[16..24] == LeBytes(m.dataSize, 8)
            && b[24..32] == LeBytes(m.latestHeight, 8)
            && b[32..64] == m.latestHash && b[64..96] == m.genesisHash
  {
    var head := m.magic + LeBytes(m.version, 4) + LeBytes(m.entryCount, 8) + LeBytes(m.dataSize, 8);
    var tail := LeBytes(m.latestHeight, 8) + m.latestHash + m.genesisHash;
    var b := EncodeMetadata(m);
    assert b == head + tail;
    assert b[0..4] == head[0..4] && b[4..8] == head[4..8];
    assert b[8..16] == head[8..16] && b[16..24] == head[16..24];
    assert b[24..32] == tail[0..8] && b[32..64] == tail[8..40] && b[64..96] == tail[40..72];
  }

  lemma MetadataFieldsRoundTrip(m: Metadata)
    requires MetadataFits(m)
    ensures MetadataFields(EncodeMetadata(m)) == m
  {
    MetadataSlices(m);
    WordSizes();
    LeRoundTrip(m.version, 4);
    LeRoundTrip(m.entryCount, 8);
    LeRoundTrip(m.dataSize, 8);
    LeRoundTrip(m.latestHeight, 8);
  }

  /** Metadata survives exactly when it carries the magic bytes and a reasonable height. */
  lemma MetadataRoundTrip(m: Metadata)
    requires MetadataFits(m)
    ensures DecodeMetadata(EncodeMetadata(m)) == MetadataOk(m)
            <==> m.magic == MAGIC && m.latestHeight <= MAX_REASONABLE_HEIGHT
  {
    MetadataFieldsRoundTrip(m);
    MetadataSlices(m);
  }

  // ---------------------------------------------------------------- filling buffers

  /** Copies bytes into a buffer at a position. */
  method Fill(buf: array<byte>, at: nat, bytes: seq<byte>)
    requires at + |bytes| <= buf.Length
    modifies buf
    ensures buf[..at + |bytes|] == old(buf[..at]) + bytes
    ensures forall k :: at + |bytes| <= k < buf.Length ==> buf[k] == old(buf[k])
  {
    for i := 0 to |bytes|
      invariant buf[..at + i] == old(buf[..at]) + bytes[..i]
      invariant forall k :: at + i <= k < buf.Length ==> buf[k] == old(buf[k])
    {
      buf[at + i] := bytes[i];
    }
  }

  method EntryToBytes(e: IndexEntry) returns (buf: array<byte>)
    ensures fresh(buf) && buf[..] == EncodeEntry(e)
  {
    buf := new byte[INDEX_SIZE](_ => 0);
    Fill(buf, 0, e.key);
    Fill(buf, 32, LeBytes(e.offset, 8));
    Fill(buf, 40, LeBytes(e.size, 4));
    Fill(buf, 44, LeBytes(e.height, 8));
    Fill(buf, 52, LeBytes(e.flags, 4));
    assert buf[..] == buf[..INDEX_SIZE];
  }

  method HeightToBytes(e: HeightEntry) returns (buf: array<byte>)
    ensures fresh(buf) && buf[..] == EncodeHeight(e)
  {
    buf := new byte[HEIGHT_SIZE](_ => 0);
    Fill(buf, 0, LeBytes(e.height, 8));
    Fill(buf, 8, e.hash);
    assert buf[..] == buf[..HEIGHT_SIZE];
  }

  method MetadataToBytes(m: Metadata) returns (buf: array<byte>)
    requires |m.magic| == 4
    ensures fresh(buf) && buf[..] == EncodeMetadata(m)
  {
    buf := new byte[META_SIZE](_ => 0);
    Fill(buf, 0, m.magic);
    Fill(buf, 4, LeBytes(m.version, 4));
    Fill(buf, 8, LeBytes(m.entryCount, 8));
    Fill(buf, 16, LeBytes(m.dataSize, 8));
    Fill(buf, 24, LeBytes(m.latestHeight, 8));
    Fill(buf, 32, m.latestHash);
    Fill(buf, 64, m.genesisHash);
    assert buf[..] == buf[..META_SIZE];
  }
}
