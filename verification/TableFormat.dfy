/** A table file (table/format.h, table/format.cc): data blocks, an index of separators, a filter. */
module TableFormat {
  import opened Coding
  import opened Options
  import opened Keys
  import opened Crc32c
  import opened BytewiseComparator
  import opened InternalKeyCodec
  import opened Bloom
  import opened BlockFormat
  import opened FilterBlock
  import TS = TableSearch

  const TRAILER_SIZE: nat := 5

  datatype ByteEntry = ByteEntry(key: ByteKey, value: Bytes)

  datatype Handle = Handle(offset: nat, size: nat)

  // A data block: where it is, its bytes, and the entries it was made of.
  datatype Block = Block(handle: Handle, contents: Bytes, entries: seq<ByteEntry>)

  // ---- Entries ----

  function AbsEntry(e: ByteEntry): Entry {
    Entry(Abs(e.key), e.value)
  }

  function AbsEntries(es: seq<ByteEntry>): (r: seq<Entry>)
    ensures |r| == |es|
  {
    seq(|es|, i requires 0 <= i < |es| => AbsEntry(es[i]))
  }

  function AbsBlocks(bs: seq<Block>): (r: seq<seq<Entry>>)
    ensures |r| == |bs|
  {
    seq(|bs|, i requires 0 <= i < |bs| => AbsEntries(bs[i].entries))
  }

  predicate Encodable(es: seq<ByteEntry>) {
    forall i :: 0 <= i < |es| ==> es[i].key.sequence <= MAX_SEQUENCE
  }

  function PairOf(e: ByteEntry): Pair
    requires e.key.sequence <= MAX_SEQUENCE
  {
    Pair(EncodeKey(e.key), e.value)
  }

  function PairsOf(es: seq<ByteEntry>): (r: seq<Pair>)
    requires Encodable(es)
    ensures |r| == |es|
  {
    seq(|es|, i requires 0 <= i < |es| => PairOf(es[i]))
  }

  // ---- Handles ----

  function EncodeHandle(h: Handle): Bytes {
    Varint(h.offset) + Varint(h.size)
  }

  // The handle, and what follows it.
  function DecodeHandle(s: Bytes): Option<(Handle, Bytes)> {
    match ParseVarint64(s)
    case Malformed => None
    case Parsed(offset, n) =>
      match ParseVarint64(s[n..])
      case Malformed => None
      case Parsed(size, m) => Some((Handle(offset, size), s[n..][m..]))
  }

  predicate InRange(h: Handle) {
    h.offset < 0x1_0000_0000_0000_0000 && h.size < 0x1_0000_0000_0000_0000
  }

  lemma {:induction false} HandleRoundTrip(h: Handle, rest: Bytes)
    requires InRange(h)
    ensures DecodeHandle(EncodeHandle(h) + rest) == Some((h, rest))
  {
    hide Varint, ParseVarint64;
    var s := EncodeHandle(h) + rest;
    assert s == Varint(h.offset) + (Varint(h.size) + rest);
    Varint64RoundTrip(h.offset, Varint(h.size) + rest);
    assert s[|Varint(h.offset)|..] == Varint(h.size) + rest;
    Varint64RoundTrip(h.size, rest);
    assert (Varint(h.size) + rest)[|Varint(h.size)|..] == rest;
  }

  lemma {:induction false} HandleSize(h: Handle)
    requires InRange(h)
    ensures |EncodeHandle(h)| <= 20
  {
    hide Varint;
    WeightsOf();
    VarintSize(h.offset, 10);
    VarintSize(h.size, 10);
  }

  // ---- The footer ----

  datatype Footer = Footer(metaindexHandle: Handle, indexHandle: Handle)

  const FOOTER_SIZE: nat := 48
  const TABLE_MAGIC_NUMBER: nat := 0xdb47_7524_8b80_fb57

  // dst->resize: cut off, or filled with zeros.
  function Resized(s: Bytes, n: nat): (r: Bytes)
    ensures |r| == n
  {
    (s + seq(n, _ => 0))[..n]
  }

  function EncodeFooter(f: Footer): (r: Bytes)
    ensures |r| == FOOTER_SIZE
  {
    Resized(EncodeHandle(f.metaindexHandle) + EncodeHandle(f.indexHandle), 40) + Fixed64(TABLE_MAGIC_NUMBER)
  }

  function DecodeFooter(s: Bytes): Option<Footer>
    requires |s| == FOOTER_SIZE
  {
    if DecodeFixed64(s[40..]) != TABLE_MAGIC_NUMBER then None
    else
      match DecodeHandle(s)
      case None => None
      case Some(meta) =>
        match DecodeHandle(meta.1)
        case None => None
        case Some(index) => Some(Footer(meta.0, index.0))
  }

  lemma {:induction false} FooterRoundTrip(f: Footer)
    requires InRange(f.metaindexHandle) && InRange(f.indexHandle)
    ensures DecodeFooter(EncodeFooter(f)) == Some(f)
  {
    hide EncodeHandle, DecodeHandle, Fixed64, DecodeFixed64;
    var a, b, magic := EncodeHandle(f.metaindexHandle), EncodeHandle(f.indexHandle), Fixed64(TABLE_MAGIC_NUMBER);
    var s := EncodeFooter(f);
    HandleSize(f.metaindexHandle);
    HandleSize(f.indexHandle);
    assert s[40..] == magic + [];
    Fixed64RoundTrip(TABLE_MAGIC_NUMBER, []);
    var padding := seq(40, _ => 0)[..40 - |a| - |b|];
    assert s == a + (b + (padding + magic));
    HandleRoundTrip(f.metaindexHandle, b + (padding + magic));
    HandleRoundTrip(f.indexHandle, padding + magic);
  }

  lemma {:induction false} FooterHasMagic(s: Bytes)
    requires |s| == FOOTER_SIZE && DecodeFooter(s).Some?
    ensures s[40..] == Fixed64(TABLE_MAGIC_NUMBER)
  {
    Fixed64Back(s[40..]);
  }

  // ---- Blocks in the file ----

  // WriteRawBlock: the contents, the type (not compressed), the checksum of both.
  function RawBlock(crc: Checksum, contents: Bytes): (r: Bytes)
    ensures |r| == |contents| + TRAILER_SIZE
  {
    contents + ([0] + Fixed32(Mask(crc(contents + [0]))))
  }

  ghost predicate StoredAt(crc: Checksum, file: Bytes, h: Handle, contents: Bytes) {
    && h.size == |contents| && h.offset + h.size + TRAILER_SIZE <= |file|
    && file[h.offset..h.offset + h.size + TRAILER_SIZE] == RawBlock(crc, contents)
  }

  /** ReadBlock with checksums verified; a block whose trailer does not fit it is not returned. */
  function ReadBlock(crc: Checksum, file: Bytes, h: Handle): Option<Bytes> {
    if h.offset + h.size + TRAILER_SIZE > |file| then None
    else
      var data, n := file[h.offset..h.offset + h.size + TRAILER_SIZE], h.size;
      if Unmask(DecodeFixed32(data[n + 1..])) != crc(data[..n + 1]) || data[n] != 0 then None
      else Some(data[..n])
  }

  lemma {:induction false} ReadsStoredBlock(crc: Checksum, file: Bytes, h: Handle, contents: Bytes)
    requires StoredAt(crc, file, h, contents)
    ensures ReadBlock(crc, file, h) == Some(contents)
  {
    hide Fixed32, DecodeFixed32, Mask, Unmask;
    var data, n := RawBlock(crc, contents), |contents|;
    var sum := Mask(crc(contents + [0]));
    assert data[..n + 1] == contents + [0];
    assert data[n + 1..] == Fixed32(sum) + [];
    assert data[..n] == contents;
    Fixed32RoundTrip(sum, []);
    UnmaskMask(crc(contents + [0]));
  }

  /** Reading a block gives what a writer stored at the handle, with its type and checksum, or nothing. */
  lemma {:induction false} ReadBlockIff(crc: Checksum, file: Bytes, h: Handle, contents: Bytes)
    ensures ReadBlock(crc, file, h) == Some(contents) <==> StoredAt(crc, file, h, contents)
  {
    if StoredAt(crc, file, h, contents) {
      ReadsStoredBlock(crc, file, h, contents);
    }
    if ReadBlock(crc, file, h) == Some(contents) {
      hide Fixed32, DecodeFixed32, Mask, Unmask;
      var data, n := file[h.offset..h.offset + h.size + TRAILER_SIZE], h.size;
      SumBytes(crc, data[n + 1..], data[..n + 1]);
      assert data[..n + 1] == contents + [0];
      assert data[n + 1..][..4] == data[n + 1..];
      assert data == contents + ([0] + data[n + 1..]);
    }
  }

  lemma {:induction false} StoredStays(crc: Checksum, file: Bytes, more: Bytes, h: Handle, contents: Bytes)
    requires StoredAt(crc, file, h, contents)
    ensures StoredAt(crc, file + more, h, contents)
  {
    assert (file + more)[h.offset..h.offset + h.size + TRAILER_SIZE] == file[h.offset..h.offset + h.size + TRAILER_SIZE];
  }

  lemma {:induction false} StoredAtEnd(crc: Checksum, file: Bytes, contents: Bytes)
    ensures StoredAt(crc, file + RawBlock(crc, contents), Handle(|file|, |contents|), contents)
  {
  }

  // A data block in the file; its bytes are those of its entries if it is not too large for the format.
  ghost predicate BlockOk(crc: Checksum, file: Bytes, interval: nat, b: Block) {
    && b.entries != [] && Encodable(b.entries) && StoredAt(crc, file, b.handle, b.contents)
    && (Fits(PairsOf(b.entries), interval) ==> b.contents == Finished(PairsOf(b.entries), interval))
  }

  // ---- The index ----

  function IndexPair(sep: ByteKey, h: Handle): Pair
    requires sep.sequence <= MAX_SEQUENCE
  {
    Pair(EncodeKey(sep), EncodeHandle(h))
  }

  predicate EncodableKeys(ks: seq<ByteKey>) {
    forall i :: 0 <= i < |ks| ==> ks[i].sequence <= MAX_SEQUENCE
  }

  function IndexPairs(bs: seq<Block>, seps: seq<ByteKey>): (r: seq<Pair>)
    requires |seps| <= |bs| && EncodableKeys(seps)
    ensures |r| == |seps|
  {
    seq(|seps|, i requires 0 <= i < |seps| => IndexPair(seps[i], bs[i].handle))
  }

  function AbsKeys(ks: seq<ByteKey>): (r: seq<InternalKey>)
    ensures |r| == |ks|
  {
    seq(|ks|, i requires 0 <= i < |ks| => Abs(ks[i]))
  }

  // ---- The filter ----

  // Every user key of the block was given to the filter that covers the block.
  ghost predicate Filtered(added: seq<Added>, offset: nat, es: seq<ByteEntry>) {
    forall i :: 0 <= i < |es| ==> Added(offset / BASE, es[i].key.user) in added
  }

  /** A finished table: what TableBuilder leaves and InternalGet relies on. */
  ghost predicate TableOk(crc: Checksum, file: Bytes, interval: nat, blocks: seq<Block>, seps: seq<ByteKey>, indexContents: Bytes, added: seq<Added>) {
    && interval > 0 && |seps| == |blocks| && EncodableKeys(seps)
    && (forall i :: 0 <= i < |blocks| ==> BlockOk(crc, file, interval, blocks[i]))
    && TS.Indexed(AbsBlocks(blocks), AbsKeys(seps))
    && (Fits(IndexPairs(blocks, seps), 1) ==> indexContents == Finished(IndexPairs(blocks, seps), 1))
    && (forall i :: 0 <= i < |blocks| ==> Filtered(added, blocks[i].handle.offset, blocks[i].entries))
  }

  // ---- The metaindex ----

  // The key under which the filter block is recorded: "filter." and the name of the policy.
  function FilterKey(name: Bytes): Bytes {
    [102, 105, 108, 116, 101, 114, 46] + name
  }

  function MetaPairs(policy: FilterPolicy?, filterHandle: Handle): seq<Pair> {
    if policy == null then [] else [Pair(FilterKey(policy.name), EncodeHandle(filterHandle))]
  }

  // Where things are in a finished file.
  datatype TableLayout = TableLayout(footer: Footer, indexContents: Bytes, metaContents: Bytes, filterHandle: Handle, filterContents: Bytes)

  /** The bytes of a finished table: blocks, filter, metaindex, index, and a footer that leads to them. */
  ghost predicate LaidOut(crc: Checksum, file: Bytes, interval: nat, policy: FilterPolicy?, blocks: seq<Block>, seps: seq<ByteKey>, added: seq<Added>, at: TableLayout) {
    && TableOk(crc, file, interval, blocks, seps, at.indexContents, added)
    && |file| >= FOOTER_SIZE && file[|file| - FOOTER_SIZE..] == EncodeFooter(at.footer)
    && StoredAt(crc, file, at.footer.indexHandle, at.indexContents)
    && StoredAt(crc, file, at.footer.metaindexHandle, at.metaContents)
    && (Fits(MetaPairs(policy, at.filterHandle), interval) ==> at.metaContents == Finished(MetaPairs(policy, at.filterHandle), interval))
    && (policy != null ==> StoredAt(crc, file, at.filterHandle, at.filterContents))
  }
}
