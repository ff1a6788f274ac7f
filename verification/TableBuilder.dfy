/** TableBuilder (table/table_builder.cc): what it leaves is what InternalGet relies on. */
module TableBuilders {
  import opened Coding
  import opened Options
  import opened Keys
  import opened Crc32c
  import opened BytewiseComparator
  import opened InternalKeyCodec
  import opened Bloom
  import opened BlockFormat
  import opened BlockBuilders
  import opened FilterBlock
  import opened TableSearch
  import opened TableFormat

  // Entries of the flushed blocks and of the open one.
  function AllEntries(blocks: seq<Block>, current: seq<ByteEntry>): seq<ByteEntry> {
    if blocks == [] then current else AllEntries(blocks[..|blocks| - 1], blocks[|blocks| - 1].entries + current)
  }

  function FirstKey(es: seq<ByteEntry>): Option<InternalKey> {
    if es == [] then None else Some(Abs(es[0].key))
  }

  function LastKeyOf(b: Block): InternalKey
    requires b.entries != []
  {
    Abs(b.entries[|b.entries| - 1].key)
  }

  // The first key after block i.
  function NextKey(blocks: seq<Block>, current: seq<ByteEntry>, i: nat): Option<InternalKey>
    requires i < |blocks|
  {
    FirstKey(if i + 1 < |blocks| then blocks[i + 1].entries else current)
  }

  ghost predicate Separated(blocks: seq<Block>, seps: seq<ByteKey>, current: seq<ByteEntry>) {
    && |seps| <= |blocks| && EncodableKeys(seps)
    && (forall i :: 0 <= i < |blocks| ==> blocks[i].entries != [])
    && forall i :: 0 <= i < |seps| ==> Separates(LastKeyOf(blocks[i]), Abs(seps[i]), NextKey(blocks, current, i))
  }

  // Blocks and the open block: all the facts about values that the builder keeps.
  ghost predicate Built(crc: Checksum, file: Bytes, interval: nat, blocks: seq<Block>, seps: seq<ByteKey>, current: seq<ByteEntry>, added: seq<Added>) {
    && (forall i :: 0 <= i < |blocks| ==> BlockOk(crc, file, interval, blocks[i]))
    && Encodable(current) && SortedEntries(AbsEntries(AllEntries(blocks, current)))
    && Separated(blocks, seps, current)
    && (forall i :: 0 <= i < |blocks| ==> Filtered(added, blocks[i].handle.offset, blocks[i].entries))
    && Filtered(added, |file|, current)
  }

  // How long the block would be if it were finished now.
  function BlockSize(es: seq<ByteEntry>, interval: nat): nat
    requires Encodable(es)
  {
    |Body(PairsOf(es), interval)| + 4 * |Restarts(PairsOf(es), interval)| + 4
  }

  lemma {:induction false} BlockSizeIs(es: seq<ByteEntry>, interval: nat)
    requires Encodable(es) && Fits(PairsOf(es), interval)
    ensures BlockSize(es, interval) == |Finished(PairsOf(es), interval)|
  {
    hide Finished, Fits, Body, Restarts, DecodeFixed32;
    BlockFormat.TrailerReads(PairsOf(es), interval);
  }

  // ---- How each step keeps Built ----

  lemma {:induction false} AllAppend(blocks: seq<Block>, current: seq<ByteEntry>, more: seq<ByteEntry>)
    ensures AllEntries(blocks, current + more) == AllEntries(blocks, current) + more
    decreases |blocks|
  {
    if blocks != [] {
      var last := blocks[|blocks| - 1].entries;
      AllAppend(blocks[..|blocks| - 1], last + current, more);
      assert last + (current + more) == last + current + more;
    }
  }

  lemma {:induction false} AllFlush(blocks: seq<Block>, b: Block)
    ensures AllEntries(blocks + [b], []) == AllEntries(blocks, b.entries)
  {
    assert (blocks + [b])[..|blocks|] == blocks;
    assert b.entries + [] == b.entries;
  }

  // The key that was added last.
  ghost function LastAdded(blocks: seq<Block>, current: seq<ByteEntry>): Option<InternalKey> {
    var all := AllEntries(blocks, current);
    if all == [] then None else Some(Abs(all[|all| - 1].key))
  }

  lemma {:induction false} LastAddedIs(blocks: seq<Block>, current: seq<ByteEntry>)
    requires forall i :: 0 <= i < |blocks| ==> blocks[i].entries != []
    ensures current != [] ==> LastAdded(blocks, current) == Some(Abs(current[|current| - 1].key))
    ensures current == [] && blocks != [] ==> LastAdded(blocks, current) == Some(LastKeyOf(blocks[|blocks| - 1]))
    ensures current == [] && blocks == [] ==> LastAdded(blocks, current) == None
  {
    if current != [] {
      var init, last := current[..|current| - 1], current[|current| - 1];
      AllAppend(blocks, init, [last]);
      assert init + [last] == current;
    } else if blocks != [] {
      var b := blocks[|blocks| - 1];
      AllAppend(blocks[..|blocks| - 1], b.entries[..|b.entries| - 1], [b.entries[|b.entries| - 1]]);
      assert b.entries[..|b.entries| - 1] + [b.entries[|b.entries| - 1]] == b.entries + [];
    }
  }

  lemma {:induction false} SortedSnoc(all: seq<ByteEntry>, e: ByteEntry)
    requires SortedEntries(AbsEntries(all)) && (all != [] ==> Before(Abs(all[|all| - 1].key), Abs(e.key)))
    ensures SortedEntries(AbsEntries(all + [e]))
  {
    var r := AbsEntries(all + [e]);
    assert forall i :: 0 <= i < |all| ==> r[i] == AbsEntries(all)[i];
    forall i | 0 <= i < |all| ensures Before(r[i].key, r[|all|].key) {
      if i < |all| - 1 {
        assert Before(r[i].key, r[|all| - 1].key);
      }
    }
  }

  // Adding an entry while a separator is pending completes the index entry of the last block.
  lemma {:induction false} SeparatorAdded(blocks: seq<Block>, seps: seq<ByteKey>, sep: ByteKey, e: ByteEntry)
    requires Separated(blocks, seps, []) && |blocks| == |seps| + 1 && sep.sequence <= MAX_SEQUENCE
    requires Separates(LastKeyOf(blocks[|seps|]), Abs(sep), Some(Abs(e.key)))
    ensures Separated(blocks, seps + [sep], [e])
  {
  }

  lemma {:induction false} EntryAdded(crc: Checksum, file: Bytes, interval: nat, blocks: seq<Block>, seps: seq<ByteKey>, current: seq<ByteEntry>, added: seq<Added>,
                                      seps': seq<ByteKey>, e: ByteEntry)
    requires Built(crc, file, interval, blocks, seps, current, added) && e.key.sequence <= MAX_SEQUENCE
    requires Separated(blocks, seps', current + [e])
    requires LastAdded(blocks, current).Some? ==> Before(LastAdded(blocks, current).value, Abs(e.key))
    ensures Built(crc, file, interval, blocks, seps', current + [e], added + [Added(|file| / BASE, e.key.user)])
    ensures AllEntries(blocks, current + [e]) == AllEntries(blocks, current) + [e]
  {
    hide BlockOk, Separated;
    AllAppend(blocks, current, [e]);
    SortedSnoc(AllEntries(blocks, current), e);
    forall i | 0 <= i < |blocks| ensures Filtered(added + [Added(|file| / BASE, e.key.user)], blocks[i].handle.offset, blocks[i].entries) {
      assert Filtered(added, blocks[i].handle.offset, blocks[i].entries);
    }
  }

  lemma {:induction false} StillSeparated(blocks: seq<Block>, seps: seq<ByteKey>, current: seq<ByteEntry>, e: ByteEntry)
    requires Separated(blocks, seps, current) && (|blocks| == |seps| && blocks != [] ==> current != [])
    ensures Separated(blocks, seps, current + [e])
  {
    forall i | 0 <= i < |seps| ensures NextKey(blocks, current + [e], i) == NextKey(blocks, current, i) {
    }
  }

  lemma {:induction false} BlockFlushed(crc: Checksum, file: Bytes, interval: nat, blocks: seq<Block>, seps: seq<ByteKey>, current: seq<ByteEntry>, added: seq<Added>, b: Block)
    requires Built(crc, file, interval, blocks, seps, current, added) && current != []
    requires b.entries == current && b.handle == Handle(|file|, |b.contents|)
    requires Fits(PairsOf(current), interval) ==> b.contents == Finished(PairsOf(current), interval)
    ensures Built(crc, file + RawBlock(crc, b.contents), interval, blocks + [b], seps, [], added)
    ensures AllEntries(blocks + [b], []) == AllEntries(blocks, current)
  {
    hide RawBlock, Fits, Finished, BlockOk, Separated, SortedEntries, AllEntries, AbsEntries, Filtered;
    AllFlush(blocks, b);
    BlocksStored(crc, file, interval, blocks, b);
    FlushSeparated(blocks, seps, current, b);
    NothingFiltered(added, |file + RawBlock(crc, b.contents)|);
  }

  lemma {:induction false} NothingFiltered(added: seq<Added>, offset: nat)
    ensures Filtered(added, offset, []) && Encodable([])
  {
  }

  lemma {:induction false} BlocksStored(crc: Checksum, file: Bytes, interval: nat, blocks: seq<Block>, b: Block)
    requires forall i :: 0 <= i < |blocks| ==> BlockOk(crc, file, interval, blocks[i])
    requires b.entries != [] && Encodable(b.entries) && b.handle == Handle(|file|, |b.contents|)
    requires Fits(PairsOf(b.entries), interval) ==> b.contents == Finished(PairsOf(b.entries), interval)
    ensures forall i :: 0 <= i < |blocks + [b]| ==> BlockOk(crc, file + RawBlock(crc, b.contents), interval, (blocks + [b])[i])
  {
    StoredAtEnd(crc, file, b.contents);
    hide RawBlock, Fits, Finished, StoredAt;
    forall i | 0 <= i < |blocks| ensures BlockOk(crc, file + RawBlock(crc, b.contents), interval, blocks[i]) {
      StoredStays(crc, file, RawBlock(crc, b.contents), blocks[i].handle, blocks[i].contents);
    }
  }

  lemma {:induction false} FlushSeparated(blocks: seq<Block>, seps: seq<ByteKey>, current: seq<ByteEntry>, b: Block)
    requires Separated(blocks, seps, current) && b.entries == current && current != []
    ensures Separated(blocks + [b], seps, [])
  {
    forall i | 0 <= i < |seps| ensures NextKey(blocks + [b], [], i) == NextKey(blocks, current, i) {
    }
  }

  lemma {:induction false} IndexGrows(blocks: seq<Block>, seps: seq<ByteKey>, b: Block)
    requires |seps| <= |blocks| && EncodableKeys(seps)
    ensures IndexPairs(blocks + [b], seps) == IndexPairs(blocks, seps)
  {
    hide IndexPair;
  }

  lemma {:induction false} IndexSnoc(blocks: seq<Block>, seps: seq<ByteKey>, sep: ByteKey)
    requires |seps| < |blocks| && EncodableKeys(seps) && sep.sequence <= MAX_SEQUENCE
    ensures IndexPairs(blocks, seps + [sep]) == IndexPairs(blocks, seps) + [IndexPair(sep, blocks[|seps|].handle)]
  {
    hide IndexPair;
  }

  lemma {:induction false} PairsSnoc(es: seq<ByteEntry>, e: ByteEntry)
    requires Encodable(es) && e.key.sequence <= MAX_SEQUENCE
    ensures PairsOf(es + [e]) == PairsOf(es) + [PairOf(e)]
  {
    hide PairOf;
  }

  /** The values in the fields of a builder and its parts. */
  datatype Progress = Progress(
    file: Bytes, blocks: seq<Block>, seps: seq<ByteKey>, current: seq<ByteEntry>,
    lastKey: ByteKey, pending: bool, handle: Handle,
    dataPairs: seq<Pair>, indexPairs: seq<Pair>, added: seq<Added>, filters: nat)

  ghost predicate Consistent(crc: Checksum, interval: nat, p: Progress) {
    && Built(crc, p.file, interval, p.blocks, p.seps, p.current, p.added)
    && p.dataPairs == PairsOf(p.current) && p.indexPairs == IndexPairs(p.blocks, p.seps)
    && p.filters == |p.file| / BASE
    && |p.blocks| == |p.seps| + (if p.pending then 1 else 0)
    && (p.pending ==> p.current == [] && p.handle == p.blocks[|p.blocks| - 1].handle)
    && (!p.pending && p.blocks != [] ==> p.current != [])
    && p.lastKey.sequence <= MAX_SEQUENCE
    && (LastAdded(p.blocks, p.current).Some? ==> LastAdded(p.blocks, p.current).value == Abs(p.lastKey))
  }

  // Add, before it may flush; `sep` is what becomes of the last key if its index entry is pending.
  function AfterAdd(p: Progress, sep: ByteKey, e: ByteEntry): Progress
    requires sep.sequence <= MAX_SEQUENCE && e.key.sequence <= MAX_SEQUENCE
  {
    p.(seps := if p.pending then p.seps + [sep] else p.seps,
       indexPairs := if p.pending then p.indexPairs + [IndexPair(sep, p.handle)] else p.indexPairs,
       current := p.current + [e], dataPairs := p.dataPairs + [PairOf(e)],
       lastKey := e.key, pending := false, added := p.added + [Added(p.filters, e.key.user)])
  }

  lemma {:induction false} AddKeeps(crc: Checksum, interval: nat, p: Progress, sep: ByteKey, e: ByteEntry)
    requires Consistent(crc, interval, p) && sep.sequence <= MAX_SEQUENCE && e.key.sequence <= MAX_SEQUENCE
    requires p.pending ==> Separates(Abs(p.lastKey), Abs(sep), Some(Abs(e.key)))
    requires AllEntries(p.blocks, p.current) != [] ==> Before(Abs(p.lastKey), Abs(e.key))
    ensures
      var p' := AfterAdd(p, sep, e);
      Consistent(crc, interval, p') && AllEntries(p'.blocks, p'.current) == AllEntries(p.blocks, p.current) + [e]
  {
    var p' := AfterAdd(p, sep, e);
    LastAddedIs(p.blocks, p.current);
    LastAddedIs(p.blocks, p'.current);
    PairsSnoc(p.current, e);
    if p.pending {
      SeparatorAdded(p.blocks, p.seps, sep, e);
      IndexSnoc(p.blocks, p.seps, sep);
      assert p.current + [e] == [e];
    } else {
      StillSeparated(p.blocks, p.seps, p.current, e);
    }
    EntryAdded(crc, p.file, interval, p.blocks, p.seps, p.current, p.added, p'.seps, e);
    hide Built, PairOf, IndexPair, AllEntries, PairsOf, IndexPairs;
  }

  lemma {:induction false} InitiallyConsistent(crc: Checksum, interval: nat, p: Progress)
    requires p == Progress([], [], [], [], ByteKey([], 0, Deletion), false, Handle(0, 0), [], [], [], 0)
    ensures Consistent(crc, interval, p) && AllEntries(p.blocks, p.current) == []
  {
  }

  function AfterFlush(crc: Checksum, p: Progress, contents: Bytes): Progress {
    var h, file := Handle(|p.file|, |contents|), p.file + RawBlock(crc, contents);
    p.(file := file, blocks := p.blocks + [Block(h, contents, p.current)], current := [], dataPairs := [],
       pending := true, handle := h, filters := |file| / BASE)
  }

  lemma {:induction false} FlushKeeps(crc: Checksum, interval: nat, p: Progress, contents: Bytes)
    requires Consistent(crc, interval, p) && p.current != []
    requires Fits(p.dataPairs, interval) ==> contents == Finished(p.dataPairs, interval)
    ensures
      var p' := AfterFlush(crc, p, contents);
      && Consistent(crc, interval, p') && p'.filters >= p.filters
      && AllEntries(p'.blocks, p'.current) == AllEntries(p.blocks, p.current)
  {
    hide Built, RawBlock, IndexPairs, PairsOf, AllEntries, Fits, Finished;
    var p' := AfterFlush(crc, p, contents);
    var b := p'.blocks[|p.blocks|];
    EmptyPairs();
    SepsFit(crc, p.file, interval, p.blocks, p.seps, p.current, p.added);
    BlockFlushed(crc, p.file, interval, p.blocks, p.seps, p.current, p.added, b);
    IndexGrows(p.blocks, p.seps, b);
    OffsetGrows(|p.file|, |contents|);
  }

  lemma {:induction false} EmptyPairs()
    ensures PairsOf([]) == []
  {
  }

  lemma {:induction false} SepsFit(crc: Checksum, file: Bytes, interval: nat, blocks: seq<Block>, seps: seq<ByteKey>, current: seq<ByteEntry>, added: seq<Added>)
    requires Built(crc, file, interval, blocks, seps, current, added)
    ensures |seps| <= |blocks| && EncodableKeys(seps) && Encodable(current)
  {
  }

  lemma {:induction false} OffsetGrows(size: nat, more: nat)
    ensures (size + more + TRAILER_SIZE) / BASE >= size / BASE
  {
  }

  lemma {:induction false} FlattenAll(blocks: seq<Block>, current: seq<ByteEntry>)
    ensures AbsEntries(AllEntries(blocks, current)) == Flatten(AbsBlocks(blocks)) + AbsEntries(current)
    decreases |blocks|
  {
    if blocks != [] {
      var init, last := blocks[..|blocks| - 1], blocks[|blocks| - 1].entries;
      FlattenAll(init, last + current);
      assert AbsBlocks(blocks)[..|blocks| - 1] == AbsBlocks(init);
      assert AbsEntries(last + current) == AbsEntries(last) + AbsEntries(current);
    }
  }

  // When every block has its separator, the table is complete.
  lemma {:induction false} BuiltIsIndexed(crc: Checksum, file: Bytes, interval: nat, blocks: seq<Block>, seps: seq<ByteKey>, added: seq<Added>)
    requires Built(crc, file, interval, blocks, seps, [], added) && |seps| == |blocks|
    ensures Indexed(AbsBlocks(blocks), AbsKeys(seps)) && Flatten(AbsBlocks(blocks)) == AbsEntries(AllEntries(blocks, []))
  {
    hide Flatten, AllEntries, BlockOk, Filtered, Separated, SortedEntries, AbsBlocks, AbsKeys, AbsEntries;
    EmptyEntries();
    FlattenAll(blocks, []);
    assert Flatten(AbsBlocks(blocks)) + [] == Flatten(AbsBlocks(blocks));
    forall i | 0 <= i < |blocks|
      ensures
        var b := AbsBlocks(blocks)[i];
        b != [] && Separates(b[|b| - 1].key, AbsKeys(seps)[i], FirstOf(AbsBlocks(blocks), i + 1))
    {
      SeparatedAbs(blocks, seps, i);
    }
  }

  lemma {:induction false} EmptyEntries()
    ensures AbsEntries([]) == []
  {
  }

  lemma {:induction false} SeparatedAbs(blocks: seq<Block>, seps: seq<ByteKey>, i: nat)
    requires Separated(blocks, seps, []) && |seps| == |blocks| && i < |blocks|
    ensures
      var b := AbsBlocks(blocks)[i];
      b != [] && Separates(b[|b| - 1].key, AbsKeys(seps)[i], FirstOf(AbsBlocks(blocks), i + 1))
  {
    assert Separates(LastKeyOf(blocks[i]), Abs(seps[i]), NextKey(blocks, [], i));
    assert AbsBlocks(blocks)[i] == AbsEntries(blocks[i].entries);
    assert i + 1 < |blocks| ==> AbsBlocks(blocks)[i + 1] == AbsEntries(blocks[i + 1].entries);
    hide Separates, Separated, AbsBlocks;
  }

  // Finish gives the last block a separator when no key follows.
  lemma {:induction false} LastSeparator(blocks: seq<Block>, seps: seq<ByteKey>, sep: ByteKey)
    requires Separated(blocks, seps, []) && |blocks| == |seps| + 1 && sep.sequence <= MAX_SEQUENCE
    requires Separates(LastKeyOf(blocks[|seps|]), Abs(sep), None)
    ensures Separated(blocks, seps + [sep], [])
  {
  }

  // What is left to do when everything has been flushed.
  lemma {:induction false} FinishKeeps(crc: Checksum, interval: nat, p: Progress, sep: ByteKey, file: Bytes, more: Bytes, indexContents: Bytes)
    requires Consistent(crc, interval, p) && p.current == [] && interval > 0 && sep.sequence <= MAX_SEQUENCE && file == p.file + more
    requires p.pending ==> Separates(Abs(p.lastKey), Abs(sep), None)
    requires
      var pairs := if p.pending then p.indexPairs + [IndexPair(sep, p.handle)] else p.indexPairs;
      Fits(pairs, 1) ==> indexContents == Finished(pairs, 1)
    ensures
      var seps := if p.pending then p.seps + [sep] else p.seps;
      && TableOk(crc, file, interval, p.blocks, seps, indexContents, p.added)
      && Flatten(AbsBlocks(p.blocks)) == AbsEntries(AllEntries(p.blocks, p.current))
  {
    hide Indexed, Flatten, AllEntries, Filtered, StoredAt, Fits, Finished, IndexPair, Separated, LastAdded, Separates, SortedEntries;
    var seps := if p.pending then p.seps + [sep] else p.seps;
    LastIndexed(crc, interval, p, sep);
    SepsFit(crc, p.file, interval, p.blocks, seps, [], p.added);
    BuiltIsIndexed(crc, p.file, interval, p.blocks, seps, p.added);
    forall i | 0 <= i < |p.blocks| ensures BlockOk(crc, file, interval, p.blocks[i]) {
      StoredStays(crc, p.file, more, p.blocks[i].handle, p.blocks[i].contents);
    }
  }

  // With the last separator, every block is in the index.
  lemma {:induction false} LastIndexed(crc: Checksum, interval: nat, p: Progress, sep: ByteKey)
    requires Consistent(crc, interval, p) && p.current == [] && sep.sequence <= MAX_SEQUENCE
    requires p.pending ==> Separates(Abs(p.lastKey), Abs(sep), None)
    ensures
      var seps := if p.pending then p.seps + [sep] else p.seps;
      && |seps| == |p.blocks| && Built(crc, p.file, interval, p.blocks, seps, [], p.added)
      && IndexPairs(p.blocks, seps) == if p.pending then p.indexPairs + [IndexPair(sep, p.handle)] else p.indexPairs
  {
    LastAddedIs(p.blocks, []);
    hide Flatten, AllEntries, Filtered, StoredAt, Fits, Finished, IndexPair, SortedEntries, BlockOk;
    if p.pending {
      LastSeparator(p.blocks, p.seps, sep);
      IndexSnoc(p.blocks, p.seps, sep);
    }
  }

  // What Finish appends is where the handles say.
  lemma {:induction false} TailStored(crc: Checksum, file: Bytes, filtered: bool, filter: Bytes, meta: Bytes, index: Bytes, footer: Bytes)
    ensures
      var a := file + if filtered then RawBlock(crc, filter) else [];
      var b := a + RawBlock(crc, meta);
      var c := b + RawBlock(crc, index);
      && (filtered ==> StoredAt(crc, c + footer, Handle(|file|, |filter|), filter))
      && StoredAt(crc, c + footer, Handle(|a|, |meta|), meta)
      && StoredAt(crc, c + footer, Handle(|b|, |index|), index)
  {
    hide RawBlock, StoredAt;
    var a := file + if filtered then RawBlock(crc, filter) else [];
    var b := a + RawBlock(crc, meta);
    var c := b + RawBlock(crc, index);
    StoredAtEnd(crc, b, index);
    StoredStays(crc, c, footer, Handle(|b|, |index|), index);
    StoredAtEnd(crc, a, meta);
    StoredStays(crc, b, RawBlock(crc, index), Handle(|a|, |meta|), meta);
    StoredStays(crc, c, footer, Handle(|a|, |meta|), meta);
    if filtered {
      StoredAtEnd(crc, file, filter);
      StoredStays(crc, a, RawBlock(crc, meta), Handle(|file|, |filter|), filter);
      StoredStays(crc, b, RawBlock(crc, index), Handle(|file|, |filter|), filter);
      StoredStays(crc, c, footer, Handle(|file|, |filter|), filter);
    }
  }

  lemma {:induction false} FinishLaidOut(crc: Checksum, interval: nat, policy: FilterPolicy?, p: Progress, sep: ByteKey, file: Bytes, at: TableLayout)
    requires Consistent(crc, interval, p) && p.current == [] && interval > 0 && sep.sequence <= MAX_SEQUENCE
    requires p.pending ==> Separates(Abs(p.lastKey), Abs(sep), None)
    requires
      var pairs := if p.pending then p.indexPairs + [IndexPair(sep, p.handle)] else p.indexPairs;
      Fits(pairs, 1) ==> at.indexContents == Finished(pairs, 1)
    requires
      var pairs := MetaPairs(policy, at.filterHandle);
      Fits(pairs, interval) ==> at.metaContents == Finished(pairs, interval)
    requires
      var a := p.file + if policy != null then RawBlock(crc, at.filterContents) else [];
      var b := a + RawBlock(crc, at.metaContents);
      && at.footer == Footer(Handle(|a|, |at.metaContents|), Handle(|b|, |at.indexContents|))
      && (policy != null ==> at.filterHandle == Handle(|p.file|, |at.filterContents|))
      && file == b + RawBlock(crc, at.indexContents) + EncodeFooter(at.footer)
    ensures
      var seps := if p.pending then p.seps + [sep] else p.seps;
      && LaidOut(crc, file, interval, policy, p.blocks, seps, p.added, at)
      && Flatten(AbsBlocks(p.blocks)) == AbsEntries(AllEntries(p.blocks, p.current))
  {
    hide Consistent, AllEntries, Fits, Finished, RawBlock, StoredAt, TableOk, Flatten, Separates, IndexPair, EncodeFooter, MetaPairs;
    var filter := if policy != null then RawBlock(crc, at.filterContents) else [];
    var more := filter + RawBlock(crc, at.metaContents) + RawBlock(crc, at.indexContents) + EncodeFooter(at.footer);
    assert file == p.file + more;
    assert file[|file| - FOOTER_SIZE..] == EncodeFooter(at.footer);
    TailStored(crc, p.file, policy != null, at.filterContents, at.metaContents, at.indexContents, EncodeFooter(at.footer));
    FinishKeeps(crc, interval, p, sep, file, more, at.indexContents);
  }

  class TableBuilder {
    const crc: Checksum
    const interval: nat
    const blockSize: nat
    const dataBlock: BlockBuilder
    const indexBlock: BlockBuilder
    const policy: FilterPolicy?
    const filterBlock: FilterBlockBuilder?      // null if there is no policy
    var file: Bytes
    var lastKey: ByteKey
    var pendingIndexEntry: bool
    var pendingHandle: Handle
    var closed: bool
    ghost var blocks: seq<Block>
    ghost var seps: seq<ByteKey>
    ghost var current: seq<ByteEntry>
    ghost var added: seq<Added>                 // what the filter block was given, if there is one
    ghost const Repr: set<object>

    ghost function Filters(): set<object> {
      if filterBlock == null then {} else {filterBlock}
    }

    ghost predicate Objects()
      reads this, Repr
    {
      && Repr == {this, dataBlock, indexBlock} + Filters() && dataBlock != indexBlock
      && dataBlock.Valid() && indexBlock.Valid()
      && !dataBlock.finished && dataBlock.interval == interval && indexBlock.interval == 1
      && (filterBlock == null <==> policy == null) && FilterInStep()
    }

    ghost predicate FilterInStep()
      reads this, Filters()
    {
      filterBlock != null ==>
        && filterBlock.Valid() && filterBlock.policy == policy
        && filterBlock.added == added && |filterBlock.filterOffsets| == |file| / BASE
    }

    ghost function View(): Progress
      reads this, dataBlock, indexBlock
    {
      Progress(file, blocks, seps, current, lastKey, pendingIndexEntry, pendingHandle,
               dataBlock.pairs, indexBlock.pairs, added, |file| / BASE)
    }

    ghost predicate Valid()
      reads this, Repr
    {
      Objects() && !indexBlock.finished && Consistent(crc, interval, View())
    }

    ghost function Entries(): seq<ByteEntry>
      reads this
    {
      AllEntries(blocks, current)
    }

    constructor (crc: Checksum, interval: nat, blockSize: nat, policy: FilterPolicy?)
      requires interval > 0 && (policy != null ==> 1 <= policy.k <= 30)
      ensures Valid() && !closed && Entries() == [] && fresh(Repr)
      ensures this.crc == crc && this.interval == interval && this.policy == policy
    {
      hide BlockBuilder.Valid, FilterBlockBuilder.Valid, Consistent;
      var data := new BlockBuilder(interval);
      var index := new BlockBuilder(1);
      var filter: FilterBlockBuilder? := null;
      Repr := {this, data, index} + {};
      if policy != null {
        var f := new FilterBlockBuilder(policy);
        f.StartBlock(0);
        filter := f;
        Repr := {this, data, index} + {f};
      }
      this.crc, this.interval, this.blockSize, this.policy := crc, interval, blockSize, policy;
      dataBlock, indexBlock, filterBlock := data, index, filter;
      file, pendingIndexEntry, closed := [], false, false;
      lastKey, pendingHandle := ByteKey([], 0, Deletion), Handle(0, 0);
      blocks, seps, current, added := [], [], [], [];
      new;
      InitiallyConsistent(crc, interval, View());
    }

    method Add(key: ByteKey, value: Bytes)
      requires Valid() && !closed && key.sequence <= MAX_SEQUENCE
      requires Entries() != [] ==> Before(Abs(lastKey), Abs(key))
      modifies Repr
      ensures Valid() && !closed && Entries() == old(Entries()) + [ByteEntry(key, value)]
      ensures
        var open := old(current) + [ByteEntry(key, value)];
        Encodable(open) &&
        if BlockSize(open, interval) >= blockSize then
          current == [] && |blocks| == |old(blocks)| + 1 && blocks[..|old(blocks)|] == old(blocks) && blocks[|old(blocks)|].entries == open
        else
          current == open && blocks == old(blocks)
    {
      hide Consistent, AllEntries, Objects, BlockSize;
      AddToBlock(key, value);
      SizeIs();
      if dataBlock.CurrentSizeEstimate() >= blockSize {
        Flush();
      }
    }

    lemma {:induction false} SizeIs()
      requires Valid()
      ensures Encodable(current) && dataBlock.CurrentSizeEstimate() == BlockSize(current, interval)
    {
      assert dataBlock.buffer == Body(dataBlock.pairs, interval) && dataBlock.restarts == Restarts(dataBlock.pairs, interval);
    }

    // Add, up to the test of the block's size.
    method AddToBlock(key: ByteKey, value: Bytes)
      requires Valid() && !closed && key.sequence <= MAX_SEQUENCE
      requires Entries() != [] ==> Before(Abs(lastKey), Abs(key))
      modifies Repr
      ensures Valid() && !closed && Entries() == old(Entries()) + [ByteEntry(key, value)]
      ensures current == old(current) + [ByteEntry(key, value)] && blocks == old(blocks)
    {
      hide Consistent, AllEntries, BlockBuilder.Valid, FilterBlockBuilder.Valid, EncodeKey, EncodeHandle, PairOf, Separates;
      ghost var p, e := View(), ByteEntry(key, value);
      LastKeyFits();
      if pendingIndexEntry {
        SomethingBefore();
      }
      ghost var sep := AddIndexEntry(key);
      AddKeeps(crc, interval, p, sep, e);
      GiveToFilter(key.user);
      lastKey := key;
      dataBlock.Add(EncodeKey(key), value);
      current := current + [e];
      PairIs(e);
      assert View() == AfterAdd(p, sep, e);
    }

    lemma {:induction false} PairIs(e: ByteEntry)
      requires e.key.sequence <= MAX_SEQUENCE
      ensures Pair(EncodeKey(e.key), e.value) == PairOf(e)
    {
    }

    // The index entry of the block before, now that the next key is known.
    method AddIndexEntry(key: ByteKey) returns (ghost sep: ByteKey)
      requires indexBlock.Valid() && !indexBlock.finished && lastKey.sequence <= MAX_SEQUENCE && key.sequence <= MAX_SEQUENCE
      requires pendingIndexEntry ==> Before(Abs(lastKey), Abs(key))
      modifies `pendingIndexEntry, `seps, indexBlock
      ensures indexBlock.Valid() && !indexBlock.finished && !pendingIndexEntry
      ensures sep.sequence <= MAX_SEQUENCE && (old(pendingIndexEntry) ==> Separates(Abs(lastKey), Abs(sep), Some(Abs(key))))
      ensures seps == if old(pendingIndexEntry) then old(seps) + [sep] else old(seps)
      ensures indexBlock.pairs == if old(pendingIndexEntry) then old(indexBlock.pairs) + [IndexPair(sep, pendingHandle)] else old(indexBlock.pairs)
    {
      hide BlockBuilder.Valid, EncodeKey, EncodeHandle;
      sep := lastKey;
      if pendingIndexEntry {
        var between := SeparateInternalKeys(lastKey, key);
        sep := between;
        indexBlock.Add(EncodeKey(between), EncodeHandle(pendingHandle));
        pendingIndexEntry := false;
        seps := seps + [between];
      }
    }

    lemma {:induction false} SomethingBefore()
      requires Valid() && pendingIndexEntry
      ensures Entries() != []
    {
      LastAddedIs(blocks, current);
    }

    method GiveToFilter(user: Bytes)
      requires FilterInStep()
      modifies `added, Filters()
      ensures FilterInStep() && added == old(added) + [Added(|file| / BASE, user)]
    {
      hide FilterBlockBuilder.Valid;
      if filterBlock != null {
        filterBlock.AddKey(user);
      }
      added := added + [Added(|file| / BASE, user)];
    }

    lemma {:induction false} LastKeyFits()
      requires Valid()
      ensures lastKey.sequence <= MAX_SEQUENCE
    {
    }

    method Flush()
      requires Valid() && !closed
      modifies Repr
      ensures Valid() && !closed && Entries() == old(Entries()) && current == [] && lastKey == old(lastKey)
      ensures
        if old(current) == [] then blocks == old(blocks)
        else |blocks| == |old(blocks)| + 1 && blocks[..|old(blocks)|] == old(blocks) && blocks[|old(blocks)|].entries == old(current)
    {
      hide Consistent, AllEntries, BlockBuilder.Valid, FilterBlockBuilder.Valid, Fits, Finished, RawBlock;
      BufferEmpty();
      if dataBlock.buffer == [] {
        return;
      }
      ghost var p := View();
      var contents := dataBlock.Finish();
      FlushKeeps(crc, interval, p, contents);
      pendingHandle := Handle(|file|, |contents|);
      file := file + RawBlock(crc, contents);
      dataBlock.Reset();
      pendingIndexEntry := true;
      blocks, current := blocks + [Block(pendingHandle, contents, current)], [];
      if filterBlock != null {
        filterBlock.StartBlock(|file|);
      }
      assert View() == AfterFlush(crc, p, contents);
    }

    /** Finish: the open block, the filter block, the metaindex block, the index block, the footer. */
    method Finish() returns (ghost at: TableLayout)
      requires Valid() && !closed
      modifies Repr
      ensures closed && LaidOut(crc, file, interval, policy, blocks, seps, added, at)
      ensures Flatten(AbsBlocks(blocks)) == AbsEntries(old(Entries()))
      ensures filterBlock != null ==> AllFilters(policy, filterBlock.result, filterBlock.filterOffsets, added)
      ensures filterBlock != null && |filterBlock.result| < 0x1_0000_0000 ==>
                HoldsAll(policy.hash, at.filterContents, filterBlock.result, filterBlock.filterOffsets, added)
    {
      hide Consistent, AllEntries, BlockBuilder.Valid, FilterBlockBuilder.Valid, Fits, Finished, RawBlock, HoldsAll, AllFilters, LaidOut, Flatten, Separates,
        IndexPair, EncodeFooter, MetaPairs;
      Flush();
      closed := true;
      LastKeyFits();
      PositiveInterval();
      ghost var p := View();
      var filterHandle, filterContents := WriteFilter();
      var metaHandle, metaContents := WriteMetaindex(filterHandle);
      var indexHandle, indexContents, sep := WriteIndex();
      var footer := Footer(metaHandle, indexHandle);
      file := file + EncodeFooter(footer);
      at := TableLayout(footer, indexContents, metaContents, filterHandle, filterContents);
      FinishLaidOut(crc, interval, policy, p, sep, file, at);
    }

    method WriteFilter() returns (h: Handle, contents: Bytes)
      requires FilterInStep() && (filterBlock == null <==> policy == null)
      modifies `file, filterBlock
      ensures h == Handle(|old(file)|, |contents|)
      ensures file == old(file) + if policy == null then [] else RawBlock(crc, contents)
      ensures filterBlock != null ==> AllFilters(policy, filterBlock.result, filterBlock.filterOffsets, added)
      ensures filterBlock != null && |filterBlock.result| < 0x1_0000_0000 ==>
                HoldsAll(policy.hash, contents, filterBlock.result, filterBlock.filterOffsets, added)
    {
      hide FilterBlockBuilder.Valid, RawBlock, HoldsAll, AllFilters;
      contents := [];
      h := Handle(|file|, 0);
      if filterBlock != null {
        contents := filterBlock.Finish();
        h := Handle(|file|, |contents|);
        file := file + RawBlock(crc, contents);
      } else {
        assert file + [] == file;
      }
    }

    method WriteMetaindex(filterHandle: Handle) returns (h: Handle, contents: Bytes)
      requires interval > 0 && (filterBlock == null <==> policy == null)
      modifies `file
      ensures h == Handle(|old(file)|, |contents|) && file == old(file) + RawBlock(crc, contents)
      ensures var pairs := MetaPairs(policy, filterHandle); Fits(pairs, interval) ==> contents == Finished(pairs, interval)
    {
      hide BlockBuilder.Valid, Fits, Finished, RawBlock, EncodeHandle;
      var metaIndexBlock := new BlockBuilder(interval);
      if filterBlock != null && policy != null {
        metaIndexBlock.Add(FilterKey(policy.name), EncodeHandle(filterHandle));
      }
      assert metaIndexBlock.pairs == MetaPairs(policy, filterHandle);
      contents := metaIndexBlock.Finish();
      h := Handle(|file|, |contents|);
      file := file + RawBlock(crc, contents);
    }

    // The last index entry, then the index block.
    method WriteIndex() returns (h: Handle, contents: Bytes, ghost sep: ByteKey)
      requires indexBlock.Valid() && !indexBlock.finished && indexBlock.interval == 1 && lastKey.sequence <= MAX_SEQUENCE
      modifies `file, `pendingIndexEntry, `seps, indexBlock
      ensures sep.sequence <= MAX_SEQUENCE && (old(pendingIndexEntry) ==> Separates(Abs(lastKey), Abs(sep), None))
      ensures seps == if old(pendingIndexEntry) then old(seps) + [sep] else old(seps)
      ensures
        var pairs := if old(pendingIndexEntry) then old(indexBlock.pairs) + [IndexPair(sep, pendingHandle)] else old(indexBlock.pairs);
        Fits(pairs, 1) ==> contents == Finished(pairs, 1)
      ensures h == Handle(|old(file)|, |contents|) && file == old(file) + RawBlock(crc, contents)
    {
      hide BlockBuilder.Valid, FilterBlockBuilder.Valid, Fits, Finished, RawBlock, StoredAt;
      sep := lastKey;
      if pendingIndexEntry {
        var last := SucceedInternalKey(lastKey);
        sep := last;
        indexBlock.Add(EncodeKey(last), EncodeHandle(pendingHandle));
        pendingIndexEntry := false;
        seps := seps + [last];
      }
      contents := indexBlock.Finish();
      h := Handle(|file|, |contents|);
      file := file + RawBlock(crc, contents);
    }

    lemma {:induction false} PositiveInterval()
      requires Valid()
      ensures interval > 0
    {
    }

    lemma {:induction false} BufferEmpty()
      requires Valid()
      ensures dataBlock.buffer == [] <==> current == []
    {
      assert dataBlock.buffer == Body(dataBlock.pairs, interval);
    }
  }
}
