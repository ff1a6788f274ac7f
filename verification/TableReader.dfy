/** Point lookups in a table file (table/table.cc: InternalGet). */
module TableReader {
  import opened Coding
  import opened Options
  import opened Keys
  import opened Store
  import opened FileSearch
  import opened Crc32c
  import opened BytewiseComparator
  import opened InternalKeyCodec
  import opened Bloom
  import opened BlockFormat
  import opened BlockIterator
  import opened FilterBlock
  import opened TableSearch
  import opened TableFormat

  // What handle_result is called with, if it is called.
  datatype Lookup = Miss | Hit(key: ByteKey, value: Bytes)

  // SaveValue, the handler of Version::Get: another user key is no answer.
  function Answer(r: Lookup, user: Bytes): SaverState {
    match r
    case Miss => NotFound
    case Hit(key, value) =>
      if key.user != user then NotFound
      else if key.kind.Value? then Found(Entry(Abs(key), value))
      else Deleted(Entry(Abs(key), value))
  }

  lemma {:induction false} KeyLessTransitive()
    ensures Transitive(KeyLess)
  {
    forall a, b, c | KeyLess(a, b) && KeyLess(b, c) ensures KeyLess(a, c) {
      hide DecodeKey;
      assert Before(Abs(DecodeKey(a)), Abs(DecodeKey(c)));
    }
  }

  // The entries of a block are in key order as bytes.
  lemma {:induction false} PairsIncrease(es: seq<ByteEntry>)
    requires Encodable(es) && SortedEntries(AbsEntries(es))
    ensures Increasing(KeyLess, PairsOf(es))
  {
    var ps := PairsOf(es);
    forall i, j | 0 <= i < j < |ps| ensures KeyLess(ps[i].key, ps[j].key) {
      assert Before(AbsEntries(es)[i].key, AbsEntries(es)[j].key);
      KeyLessIsOrder(es[i].key, es[j].key);
    }
  }

  lemma {:induction false} BlockEntriesSorted(blocks: seq<Block>, seps: seq<ByteKey>, i: nat)
    requires Indexed(AbsBlocks(blocks), AbsKeys(seps)) && i < |blocks|
    ensures SortedEntries(AbsEntries(blocks[i].entries)) && blocks[i].entries != []
  {
    BlockSortedOf(AbsBlocks(blocks), AbsKeys(seps), i);
    assert AbsBlocks(blocks)[i] == AbsEntries(blocks[i].entries);
  }

  // Each separator is before everything in the next block, hence before the next separator.
  lemma {:induction false} SeparatorsIncrease(bs: seq<seq<Entry>>, seps: seq<InternalKey>, i: nat, j: nat)
    requires Indexed(bs, seps) && i < j < |seps|
    ensures Before(seps[i], seps[j])
    decreases j
  {
    var last, first := |bs[j - 1]| - 1, bs[j][0];
    assert Separates(bs[j - 1][last].key, seps[j - 1], FirstOf(bs, j));
    assert Separates(bs[j][|bs[j]| - 1].key, seps[j], FirstOf(bs, j + 1));
    hide Flatten, Indexed;
    AcrossBlocks(bs, j - 1, last, j, 0);
    if |bs[j]| > 1 {
      AcrossBlocks(bs, j, 0, j, |bs[j]| - 1);
    }
    assert Before(seps[j - 1], seps[j]);
    if i < j - 1 {
      SeparatorsIncrease(bs, seps, i, j - 1);
    }
  }

  lemma {:induction false} IndexIncreases(blocks: seq<Block>, seps: seq<ByteKey>)
    requires Indexed(AbsBlocks(blocks), AbsKeys(seps)) && EncodableKeys(seps)
    ensures Increasing(KeyLess, IndexPairs(blocks, seps))
  {
    var ps := IndexPairs(blocks, seps);
    forall i, j | 0 <= i < j < |ps| ensures KeyLess(ps[i].key, ps[j].key) {
      SeparatorsIncrease(AbsBlocks(blocks), AbsKeys(seps), i, j);
      KeyLessIsOrder(seps[i], seps[j]);
    }
  }

  // The seek on the index finds the block that TableSearch speaks of.
  lemma {:induction false} IndexSought(blocks: seq<Block>, seps: seq<ByteKey>, target: ByteKey, i: nat)
    requires |seps| == |blocks| && EncodableKeys(seps) && target.sequence <= MAX_SEQUENCE
    requires IsLowerBound(KeyLess, IndexPairs(blocks, seps), EncodeKey(target), i)
    ensures IndexSeek(AbsKeys(seps), Abs(target), i)
  {
    var ps := IndexPairs(blocks, seps);
    forall j | 0 <= j < |ps| ensures KeyLess(ps[j].key, EncodeKey(target)) <==> Before(AbsKeys(seps)[j], Abs(target)) {
      KeyLessIsOrder(seps[j], target);
    }
    hide KeyLess;
  }

  lemma {:induction false} BlockSought(es: seq<ByteEntry>, target: ByteKey, q: nat)
    requires Encodable(es) && target.sequence <= MAX_SEQUENCE
    requires IsLowerBound(KeyLess, PairsOf(es), EncodeKey(target), q)
    ensures q == LowerBound(AbsEntries(es), Abs(target))
  {
    var ps := PairsOf(es);
    forall j | 0 <= j < |ps| ensures KeyLess(ps[j].key, EncodeKey(target)) <==> Before(AbsEntries(es)[j].key, Abs(target)) {
      KeyLessIsOrder(es[j].key, target);
    }
    hide KeyLess;
    LowerBoundIs(AbsEntries(es), Abs(target), q);
  }

  // What the iterator shows at position q is the answer of the block.
  lemma {:induction false} BlockAnswers(es: seq<ByteEntry>, user: Bytes, s: nat, q: nat, r: Lookup)
    requires q == LowerBound(AbsEntries(es), LookupKey(Position(user), s))
    requires r == if q < |es| then Hit(es[q].key, es[q].value) else Miss
    ensures Answer(r, user) == SaveValue(AbsEntries(es), Position(user), s)
  {
    if q < |es| {
      PositionOrder(es[q].key.user, user);
    }
  }

  // A block that the filter rules out has no entry for the user key.
  lemma {:induction false} RuledOut(es: seq<ByteEntry>, hash: Hash, contents: Bytes, result: Bytes, offsets: seq<nat>, added: seq<Added>, offset: nat, user: Bytes, s: nat)
    requires HoldsAll(hash, contents, result, offsets, added) && Filtered(added, offset, es)
    requires !Decides(hash, contents, offset, user)
    ensures SaveValue(AbsEntries(es), Position(user), s) == NotFound
  {
    hide HoldsAll, Decides, Position;
    forall i | 0 <= i < |es| ensures Position(es[i].key.user) != Position(user) {
      assert Added(offset / BASE, es[i].key.user) in added;
      PositionOrder(es[i].key.user, user);
      if es[i].key.user == user {
        NeverRulesOut(hash, contents, result, offsets, added, offset, user);
      }
    }
  }

  // None of the blocks is too large for the format's 32-bit numbers.
  ghost predicate SmallEnough(file: Bytes, interval: nat, blocks: seq<Block>, seps: seq<ByteKey>)
    requires |seps| <= |blocks| && EncodableKeys(seps) && forall i :: 0 <= i < |blocks| ==> Encodable(blocks[i].entries)
  {
    && |file| < 0x1_0000_0000_0000_0000 && Fits(IndexPairs(blocks, seps), 1)
    && forall i :: 0 <= i < |blocks| ==> Fits(PairsOf(blocks[i].entries), interval)
  }

  // The filter block in use was finished after all the keys in `added`.
  ghost predicate FilterOk(filter: FilterBlockReader, added: seq<Added>) {
    filter.Valid() && exists result, offsets :: HoldsAll(filter.policy.hash, filter.contents, result, offsets, added)
  }

  // The data block that is read: the one of the first separator at or after the lookup key, if there is one and
  // no filter rules the key out for it.
  ghost predicate Looked(filter: FilterBlockReader?, blocks: seq<Block>, seps: seq<ByteKey>, user: Bytes, s: nat, read: Option<nat>) {
    exists i: nat :: IndexSeek(AbsKeys(seps), LookupKey(Position(user), s), i) &&
      read == if i < |blocks| && (filter == null || Decides(filter.policy.hash, filter.contents, blocks[i].handle.offset, user)) then Some(i) else None
  }

  /** Looks in one block only, or in none if the filter rules the key out, and still answers like the whole table. */
  method InternalGet(crc: Checksum, file: Bytes, indexContents: Bytes, filter: FilterBlockReader?, user: Bytes, s: nat,
                     ghost interval: nat, ghost blocks: seq<Block>, ghost seps: seq<ByteKey>, ghost added: seq<Added>)
    returns (r: Lookup, ghost read: Option<nat>)
    requires TableOk(crc, file, interval, blocks, seps, indexContents, added) && SmallEnough(file, interval, blocks, seps)
    requires filter != null ==> FilterOk(filter, added)
    requires s <= MAX_SEQUENCE
    ensures Answer(r, user) == SaveValue(Flatten(AbsBlocks(blocks)), Position(user), s)
    ensures Looked(filter, blocks, seps, user, s, read) && (read.None? ==> r == Miss)
  {
    var target := ByteKey(user, s, Value);
    var k := EncodeKey(target);
    KeyLessTransitive();
    IndexIncreases(blocks, seps);
    hide KeyLess, Finished, Fits, Increasing, Transitive, Indexed, Flatten, SaveValue, BlockOk, Filtered, Position, EncodeKey, FilterOk, Decides, IndexSeek;
    var iiter := new BlockIter(KeyLess, indexContents, IndexPairs(blocks, seps), 1);
    hide BlockIter.Ok;
    iiter.Seek(k);
    iiter.ValidIff();
    ghost var i := iiter.pos;
    IndexSought(blocks, seps, target, i);
    OneBlockSuffices(AbsBlocks(blocks), AbsKeys(seps), Position(user), s, i);
    r, read := Miss, None;
    if iiter.Valid() {
      iiter.ShownPair();
      HandleReads(file, crc, interval, blocks[i]);
      var handle := DecodeHandle(iiter.Value()).value.0;
      var skip := false;
      if filter != null {
        skip := RulesOut(filter, handle.offset, k, user, s, blocks[i].entries, added);
      }
      if !skip {
        r := LookInBlock(crc, file, handle, user, s, interval, blocks, seps, i);
        read := Some(i);
      }
    }
  }

  lemma {:induction false} HandleReads(file: Bytes, crc: Checksum, interval: nat, b: Block)
    requires BlockOk(crc, file, interval, b) && |file| < 0x1_0000_0000_0000_0000
    ensures DecodeHandle(EncodeHandle(b.handle)) == Some((b.handle, []))
  {
    HandleRoundTrip(b.handle, []);
    assert EncodeHandle(b.handle) + [] == EncodeHandle(b.handle);
  }

  // !filter->KeyMayMatch(handle.offset(), k), through the policy that strips the internal part of the key.
  method RulesOut(filter: FilterBlockReader, offset: nat, k: Bytes, user: Bytes, s: nat, ghost es: seq<ByteEntry>, ghost added: seq<Added>) returns (skip: bool)
    requires FilterOk(filter, added) && Filtered(added, offset, es)
    requires |k| >= 8 && ExtractUserKey(k) == user
    ensures skip <==> !Decides(filter.policy.hash, filter.contents, offset, user)
    ensures skip ==> SaveValue(AbsEntries(es), Position(user), s) == NotFound
  {
    hide Filtered, SaveValue, Decides, HoldsAll, Position;
    var matches := filter.KeyMayMatch(offset, ExtractUserKey(k));
    skip := !matches;
    ghost var result, offsets :| HoldsAll(filter.policy.hash, filter.contents, result, offsets, added);
    if skip {
      RuledOut(es, filter.policy.hash, filter.contents, result, offsets, added, offset, user, s);
    }
  }

  // BlockReader, Seek, and the call of handle_result.
  method LookInBlock(crc: Checksum, file: Bytes, handle: Handle, user: Bytes, s: nat,
                     ghost interval: nat, ghost blocks: seq<Block>, ghost seps: seq<ByteKey>, ghost i: nat)
    returns (r: Lookup)
    requires Indexed(AbsBlocks(blocks), AbsKeys(seps)) && i < |blocks| && handle == blocks[i].handle
    requires interval > 0 && BlockOk(crc, file, interval, blocks[i]) && Fits(PairsOf(blocks[i].entries), interval)
    requires s <= MAX_SEQUENCE
    ensures Answer(r, user) == SaveValue(AbsEntries(blocks[i].entries), Position(user), s)
  {
    ghost var es := blocks[i].entries;
    var target := ByteKey(user, s, Value);
    BlockEntriesSorted(blocks, seps, i);
    PairsIncrease(es);
    KeyLessTransitive();
    ReadsStoredBlock(crc, file, handle, blocks[i].contents);
    hide KeyLess, Finished, Fits, Increasing, Transitive, Indexed, Flatten, SaveValue, StoredAt, Position, EncodeKey, DecodeKey, ReadBlock;
    var contents := ReadBlock(crc, file, handle).value;
    var blockIter := new BlockIter(KeyLess, contents, PairsOf(es), interval);
    hide BlockIter.Ok;
    blockIter.Seek(EncodeKey(target));
    blockIter.ValidIff();
    ghost var q := blockIter.pos;
    r := Miss;
    BlockSought(es, target, q);
    if blockIter.Valid() {
      blockIter.ShownPair();
      KeyRoundTrip(es[q].key);
      r := Hit(DecodeKey(blockIter.key), blockIter.Value());
    }
    BlockAnswers(es, user, s, q, r);
  }
}
