/** Opening a table file (table/table.cc: Open, ReadMeta, ReadFilter). */
module Tables {
  import opened Coding
  import opened Options
  import opened Keys
  import opened FileSearch
  import opened Crc32c
  import opened BytewiseComparator
  import opened Bloom
  import opened BlockFormat
  import opened BlockIterator
  import opened FilterBlock
  import opened TableFormat
  import opened TableReader

  lemma {:induction false} LessTransitive()
    ensures Transitive(Less)
  {
    forall a, b, c | Less(a, b) && Less(b, c) ensures Less(a, c) {
      LessIsTransitive(a, b, c);
    }
  }

  // The metaindex has the key of the reader's policy only if that is the policy of the writer.
  lemma {:induction false} MetaSought(built: FilterPolicy?, filterHandle: Handle, name: Bytes, i: nat)
    requires IsLowerBound(Less, MetaPairs(built, filterHandle), FilterKey(name), i)
    ensures
      var pairs := MetaPairs(built, filterHandle);
      i < |pairs| && pairs[i].key == FilterKey(name) <==> built != null && built.name == name
  {
    hide Less, Position;
    PositionOrder(FilterKey(name), FilterKey(name));
    var pairs := MetaPairs(built, filterHandle);
    if built != null {
      assert i == 1 ==> Less(pairs[0].key, FilterKey(name));
      assert FilterKey(built.name)[7..] == built.name && FilterKey(name)[7..] == name;
    }
  }

  lemma {:induction false} MetaIncreases(built: FilterPolicy?, filterHandle: Handle)
    ensures Increasing(Less, MetaPairs(built, filterHandle))
  {
  }

  lemma {:induction false} StoredInRange(crc: Checksum, file: Bytes, h: Handle, contents: Bytes)
    requires StoredAt(crc, file, h, contents) && |file| < 0x1_0000_0000_0000_0000
    ensures InRange(h) && ReadBlock(crc, file, h) == Some(contents)
  {
    ReadsStoredBlock(crc, file, h, contents);
  }

  // The filter of the table was finished after all its keys were added.
  ghost predicate FilterFinished(built: FilterPolicy?, added: seq<Added>, at: TableLayout) {
    built != null ==> exists result, offsets :: HoldsAll(built.hash, at.filterContents, result, offsets, added)
  }

  ghost predicate Readable(file: Bytes, interval: nat, built: FilterPolicy?, blocks: seq<Block>, seps: seq<ByteKey>, added: seq<Added>, at: TableLayout)
    requires |seps| <= |blocks| && EncodableKeys(seps) && forall i :: 0 <= i < |blocks| ==> Encodable(blocks[i].entries)
  {
    SmallEnough(file, interval, blocks, seps) && Fits(MetaPairs(built, at.filterHandle), interval) && FilterFinished(built, added, at)
  }

  predicate SamePolicy(policy: FilterPolicy?, built: FilterPolicy?) {
    policy != null && built != null && policy.name == built.name
  }

  class Table {
    const crc: Checksum
    const file: Bytes
    const indexContents: Bytes
    var filter: FilterBlockReader?

    constructor (crc: Checksum, file: Bytes, indexContents: Bytes)
      ensures this.crc == crc && this.file == file && this.indexContents == indexContents && filter == null
    {
      this.crc, this.file, this.indexContents, filter := crc, file, indexContents, null;
    }

    /** Open, on the bytes of a table that was finished under the policy `built`: the footer leads to the
        index, and to the filter if and only if the reader's policy has the name of the writer's. */
    static method Open(crc: Checksum, file: Bytes, policy: FilterPolicy?, ghost interval: nat, ghost built: FilterPolicy?,
                       ghost blocks: seq<Block>, ghost seps: seq<ByteKey>, ghost added: seq<Added>, ghost at: TableLayout)
      returns (table: Table?)
      requires LaidOut(crc, file, interval, built, blocks, seps, added, at) && Readable(file, interval, built, blocks, seps, added, at)
      requires SamePolicy(policy, built) ==> policy.hash == built.hash
      ensures table != null && fresh(table) && table.crc == crc && table.file == file && table.indexContents == at.indexContents
      ensures table.filter != null <==> SamePolicy(policy, built)
      ensures table.filter != null ==> FilterOk(table.filter, added)
    {
      hide TableOk, Fits, Finished, StoredAt, ReadBlock, EncodeFooter, DecodeFooter, FilterFinished, FilterOk, MetaPairs;
      StoredInRange(crc, file, at.footer.indexHandle, at.indexContents);
      StoredInRange(crc, file, at.footer.metaindexHandle, at.metaContents);
      FooterRoundTrip(at.footer);
      if |file| < FOOTER_SIZE {
        return null;
      }
      var footer := DecodeFooter(file[|file| - FOOTER_SIZE..]);
      if footer.None? {
        return null;
      }
      var indexBlock := ReadBlock(crc, file, footer.value.indexHandle);
      if indexBlock.None? {
        return null;
      }
      table := new Table(crc, file, indexBlock.value);
      table.ReadMeta(footer.value, policy, interval, built, blocks, seps, added, at);
    }

    method ReadMeta(footer: Footer, policy: FilterPolicy?, ghost interval: nat, ghost built: FilterPolicy?,
                    ghost blocks: seq<Block>, ghost seps: seq<ByteKey>, ghost added: seq<Added>, ghost at: TableLayout)
      requires filter == null && footer == at.footer
      requires LaidOut(crc, file, interval, built, blocks, seps, added, at) && Readable(file, interval, built, blocks, seps, added, at)
      requires SamePolicy(policy, built) ==> policy.hash == built.hash
      modifies `filter
      ensures filter != null <==> SamePolicy(policy, built)
      ensures filter != null ==> FilterOk(filter, added)
    {
      hide Fits, Finished, StoredAt, ReadBlock, EncodeFooter, FilterOk, FilterFinished, Less, Transitive, Increasing, EncodeHandle;
      if policy == null {
        return;
      }
      StoredInRange(crc, file, at.footer.metaindexHandle, at.metaContents);
      var contents := ReadBlock(crc, file, footer.metaindexHandle);
      if contents.None? {
        return;
      }
      LessTransitive();
      MetaIncreases(built, at.filterHandle);
      var iter := new BlockIter(Less, contents.value, MetaPairs(built, at.filterHandle), interval);
      hide BlockIter.Ok;
      var key := FilterKey(policy.name);
      iter.Seek(key);
      iter.ValidIff();
      MetaSought(built, at.filterHandle, policy.name, iter.pos);
      if iter.Valid() {
        iter.ShownPair();
        if iter.key == key {
          ReadFilter(iter.Value(), policy, built, added, at);
        }
      }
    }

    method ReadFilter(filterHandleValue: Bytes, policy: FilterPolicy, ghost built: FilterPolicy?, ghost added: seq<Added>, ghost at: TableLayout)
      requires built != null && policy.hash == built.hash && filterHandleValue == EncodeHandle(at.filterHandle)
      requires StoredAt(crc, file, at.filterHandle, at.filterContents) && |file| < 0x1_0000_0000_0000_0000 && FilterFinished(built, added, at)
      modifies `filter
      ensures filter != null && FilterOk(filter, added)
    {
      hide StoredAt, ReadBlock, EncodeHandle, DecodeHandle, HoldsAll, FilterBlockReader.Valid;
      StoredInRange(crc, file, at.filterHandle, at.filterContents);
      HandleRoundTrip(at.filterHandle, []);
      assert filterHandleValue + [] == filterHandleValue;
      var filterHandle := DecodeHandle(filterHandleValue);
      if filterHandle.None? {
        return;
      }
      var block := ReadBlock(crc, file, filterHandle.value.0);
      if block.None? {
        return;
      }
      filter := new FilterBlockReader(policy, block.value);
    }

    /** InternalGet on a table that was opened from its bytes. */
    method Get(user: Bytes, s: nat, ghost interval: nat, ghost blocks: seq<Block>, ghost seps: seq<ByteKey>, ghost added: seq<Added>)
      returns (r: Lookup, ghost read: Option<nat>)
      requires TableOk(crc, file, interval, blocks, seps, indexContents, added) && SmallEnough(file, interval, blocks, seps)
      requires filter != null ==> FilterOk(filter, added)
      requires s <= MAX_SEQUENCE
      ensures Answer(r, user) == SaveValue(Flatten(AbsBlocks(blocks)), Position(user), s)
      ensures Looked(filter, blocks, seps, user, s, read)
    {
      hide TableOk, SmallEnough, FilterOk;
      r, read := InternalGet(crc, file, indexContents, filter, user, s, interval, blocks, seps, added);
    }
  }
}
