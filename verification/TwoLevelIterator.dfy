/** TwoLevelIterator (table/two_level_iterator.cc): the blocks of a table, or the tables of a level, as one run. */
module TwoLevel {
  import opened Options
  import opened Keys
  import opened Cursors
  import opened TableSearch

  // The index has a key for each block: at or after its entries, before those of the next blocks. Blocks may be empty.
  ghost predicate Directory(index: seq<Entry>, blocks: seq<seq<Entry>>) {
    && |index| == |blocks| && SortedEntries(index) && SortedEntries(Flatten(blocks))
    && (forall i, j :: 0 <= i < |blocks| && 0 <= j < |blocks[i]| ==> AtOrBefore(blocks[i][j].key, index[i].key))
    && (forall i, m, j :: 0 <= i < m < |blocks| && 0 <= j < |blocks[m]| ==> Before(index[i].key, blocks[m][j].key))
  }

  lemma {:induction false} NextOffset(blocks: seq<seq<Entry>>, i: nat)
    requires i < |blocks|
    ensures EntriesBefore(blocks, i + 1) == EntriesBefore(blocks, i) + |blocks[i]| && EntriesBefore(blocks, |blocks|) == |Flatten(blocks)|
    ensures EntriesBefore(blocks, i + 1) <= |Flatten(blocks)|
  {
    hide Flatten;
    assert blocks[..i + 1][..i] == blocks[..i] && blocks[..|blocks|] == blocks;
    FlattenLast(blocks[..i + 1]);
    PrefixGrows(blocks, i + 1, |blocks|);
  }

  lemma {:induction false} FlattenLast(blocks: seq<seq<Entry>>)
    requires blocks != []
    ensures Flatten(blocks) == Flatten(blocks[..|blocks| - 1]) + blocks[|blocks| - 1]
  {
  }

  /** Seek: the block that the index finds and the position in it are the position in the whole run. */
  lemma {:induction false} SeekLands(index: seq<Entry>, blocks: seq<seq<Entry>>, target: InternalKey)
    requires Directory(index, blocks)
    ensures
      var b := LowerBound(index, target);
      if b == |blocks| then LowerBound(Flatten(blocks), target) == |Flatten(blocks)|
      else LowerBound(Flatten(blocks), target) == EntriesBefore(blocks, b) + LowerBound(blocks[b], target)
  {
    hide Flatten, LowerBound, EntriesBefore;
    var all, b := Flatten(blocks), LowerBound(index, target);
    var p := if b == |blocks| then |all| else EntriesBefore(blocks, b) + LowerBound(blocks[b], target);
    assert p <= |all| by {
      if b < |blocks| { NextOffset(blocks, b); }
    }
    forall x | 0 <= x < p ensures Before(all[x].key, target) {
      var i, j := EntryBlock(blocks, x);
      if i < b {
        assert AtOrBefore(blocks[i][j].key, index[i].key) && Before(index[i].key, target);
      } else {
        Within(blocks, b, i, j, LowerBound(blocks[b], target));
        assert i == b && j < LowerBound(blocks[b], target);
      }
    }
    if p < |all| {
      assert b < |blocks|;
      var i, j := EntryBlock(blocks, p);
      NotBefore(blocks, b, i, j, LowerBound(blocks[b], target));
      assert !Before(all[p].key, target) by {
        if i == b {
          assert blocks[b][j] == all[p];
        } else {
          assert Before(index[b].key, blocks[i][j].key) && !Before(index[b].key, target);
        }
      }
    }
    LowerBoundIs(all, target, p);
  }

  // Entry j of block i, at or after block b, and before entry k of block b.
  lemma {:induction false} Within(blocks: seq<seq<Entry>>, b: nat, i: nat, j: nat, k: nat)
    requires b <= i < |blocks| && j < |blocks[i]| && k <= |blocks[b]| && EntriesBefore(blocks, i) + j < EntriesBefore(blocks, b) + k
    ensures i == b && j < k
  {
    hide Flatten, EntriesBefore;
    NextOffset(blocks, b);
    if b < i {
      PrefixGrows(blocks, b + 1, i);
    }
  }

  lemma {:induction false} NotBefore(blocks: seq<seq<Entry>>, b: nat, i: nat, j: nat, k: nat)
    requires b < |blocks| && i < |blocks| && j < |blocks[i]| && k <= |blocks[b]| && EntriesBefore(blocks, i) + j == EntriesBefore(blocks, b) + k
    ensures i >= b && (i == b ==> j == k)
  {
    hide Flatten, EntriesBefore;
    NextOffset(blocks, i);
    if i < b {
      PrefixGrows(blocks, i + 1, b);
    }
  }

  class TwoLevelIterator {
    const blocks: seq<seq<Entry>>
    const index: Cursor
    var data: Cursor?
    var dataBlockHandle: nat
    ghost var p: nat      // the position in the whole run

    ghost function Run(): seq<Entry> {
      Flatten(blocks)
    }

    // The data iterator, if there is one, is on the block that dataBlockHandle names.
    ghost predicate Loaded()
      reads this, index, data
    {
      && index.pos <= |blocks| == |index.es| && Directory(index.es, blocks) && index != data
      && (data != null ==> dataBlockHandle < |blocks| && data.es == blocks[dataBlockHandle] && data.pos <= |data.es|)
    }

    ghost predicate Ok()
      reads this, index, data
    {
      && Loaded()
      && if data == null then p == |Run()|
         else index.pos == dataBlockHandle && data.Valid() && p == EntriesBefore(blocks, dataBlockHandle) + data.pos
    }

    predicate Valid()
      reads this, data
    {
      data != null && data.Valid()
    }

    /** key and value are those of the entry at the position. */
    lemma {:induction false} CurrentIs()
      requires Ok()
      ensures Valid() <==> p < |Run()|
      ensures Valid() ==> data.Current() == Run()[p]
    {
      hide Flatten, EntriesBefore, Directory;
      if data != null {
        BlockAt(blocks, dataBlockHandle, data.pos);
      }
    }

    constructor (index: Cursor, blocks: seq<seq<Entry>>)
      requires Directory(index.es, blocks) && index.pos <= |blocks|
      ensures Ok() && p == |Run()| && this.index == index && this.blocks == blocks
    {
      this.index, this.blocks := index, blocks;
      data, dataBlockHandle := null, 0;
      p := |Flatten(blocks)|;
    }

    // InitDataBlock: an iterator on the block of the index entry, the one there is if it is on that block.
    method InitDataBlock()
      requires Loaded()
      modifies this`data, this`dataBlockHandle
      ensures Loaded() && (data == old(data) || data == null || fresh(data))
      ensures data == null <==> !index.Valid()
      ensures data != null ==> dataBlockHandle == index.pos
    {
      hide Directory;
      if !index.Valid() {
        data := null;
      } else {
        var handle := index.pos;
        if data != null && handle == dataBlockHandle {
        } else {
          var iter := new Cursor(blocks[handle]);
          dataBlockHandle := handle;
          data := iter;
        }
      }
    }

    /** SkipEmptyDataBlocksForward: from behind a block to the next entry there is. */
    method SkipEmptyDataBlocksForward()
      requires Loaded() && p <= |Run()|
      requires data == null ==> !index.Valid() && p == |Run()|
      requires data != null ==> index.pos == dataBlockHandle && p == EntriesBefore(blocks, dataBlockHandle) + data.pos
      modifies this, index, data
      ensures Ok() && p == old(p) && (data == old(data) || data == null || fresh(data))
    {
      hide Directory, Flatten, EntriesBefore;
      while data == null || !data.Valid()
        invariant Loaded() && p == old(p) && (data == old(data) || data == null || fresh(data))
        invariant data == null ==> !index.Valid() && p == |Run()|
        invariant data != null ==> index.pos == dataBlockHandle && p == EntriesBefore(blocks, dataBlockHandle) + data.pos
        decreases |blocks| - index.pos, data
      {
        if !index.Valid() {
          data := null;
          return;
        }
        NextOffset(blocks, index.pos);
        index.Next();
        InitDataBlock();
        if data != null {
          data.SeekToFirst();
        }
      }
    }

    /** SkipEmptyDataBlocksBackward: from before a block to the last entry before it, if there is one. */
    method SkipEmptyDataBlocksBackward()
      requires Loaded()
      requires data == null ==> !index.Valid() && blocks == []
      requires data != null ==> index.pos == dataBlockHandle
      requires data != null && data.Valid() ==> p == EntriesBefore(blocks, dataBlockHandle) + data.pos
      requires data != null && !data.Valid() ==> p == if EntriesBefore(blocks, dataBlockHandle) == 0 then |Run()| else EntriesBefore(blocks, dataBlockHandle) - 1
      requires data == null ==> p == |Run()|
      modifies this, index, data
      ensures Ok() && p == old(p) && (data == old(data) || data == null || fresh(data))
    {
      hide Directory, Flatten, EntriesBefore;
      while data == null || !data.Valid()
        invariant Loaded() && p == old(p) && (data == old(data) || data == null || fresh(data))
        invariant data == null ==> !index.Valid() && p == |Run()|
        invariant data != null ==> index.pos == dataBlockHandle
        invariant data != null && data.Valid() ==> p == EntriesBefore(blocks, dataBlockHandle) + data.pos
        invariant data != null && !data.Valid() ==>
          p == if EntriesBefore(blocks, dataBlockHandle) == 0 then |Run()| else EntriesBefore(blocks, dataBlockHandle) - 1
        decreases if index.pos == |blocks| then 0 else index.pos + 1, data != null
      {
        if !index.Valid() {
          data := null;
          return;
        }
        FirstOffset(blocks);
        if index.pos > 0 {
          NextOffset(blocks, index.pos - 1);
        }
        index.Prev();
        InitDataBlock();
        if data != null {
          data.SeekToLast();
        }
      }
    }

    method SeekToFirst()
      requires Ok()
      modifies this, index, data
      ensures Ok() && p == 0 && (data == old(data) || data == null || fresh(data))
    {
      hide Directory, Flatten, EntriesBefore;
      FirstOffset(blocks);
      index.SeekToFirst();
      InitDataBlock();
      if data != null {
        data.SeekToFirst();
      }
      p := 0;
      SkipEmptyDataBlocksForward();
    }

    method SeekToLast()
      requires Ok()
      modifies this, index, data
      ensures Ok() && p == LastPosition(Run()) && (data == old(data) || data == null || fresh(data))
    {
      hide Directory, Flatten, EntriesBefore;
      FirstOffset(blocks);
      index.SeekToLast();
      if blocks != [] {
        NextOffset(blocks, |blocks| - 1);
      }
      InitDataBlock();
      if data != null {
        data.SeekToLast();
      }
      p := LastPosition(Flatten(blocks));
      SkipEmptyDataBlocksBackward();
    }

    method Seek(target: InternalKey)
      requires Ok()
      modifies this, index, data
      ensures Ok() && p == LowerBound(Run(), target) && (data == old(data) || data == null || fresh(data))
    {
      hide Directory, Flatten, EntriesBefore;
      SeekLands(index.es, blocks, target);
      index.Seek(target);
      InitDataBlock();
      if data != null {
        data.Seek(target);
      }
      p := LowerBound(Flatten(blocks), target);
      SkipEmptyDataBlocksForward();
    }

    method Next()
      requires Ok() && p < |Run()|
      modifies this, index, data
      ensures Ok() && p == AfterNext(Run(), old(p)) && (data == old(data) || data == null || fresh(data))
    {
      hide Directory, Flatten, EntriesBefore;
      NextOffset(blocks, dataBlockHandle);
      data.Next();
      p := p + 1;
      SkipEmptyDataBlocksForward();
    }

    method Prev()
      requires Ok() && p < |Run()|
      modifies this, index, data
      ensures Ok() && p == AfterPrev(Run(), old(p)) && (data == old(data) || data == null || fresh(data))
    {
      hide Directory, Flatten, EntriesBefore;
      NextOffset(blocks, dataBlockHandle);
      data.Prev();
      p := if p == 0 then |Flatten(blocks)| else p - 1;
      SkipEmptyDataBlocksBackward();
    }
  }

  lemma {:induction false} FirstOffset(blocks: seq<seq<Entry>>)
    ensures EntriesBefore(blocks, 0) == 0
    ensures blocks == [] ==> Flatten(blocks) == []
  {
  }

  /** The index that TableBuilder writes is such an index. */
  lemma {:induction false} TableIndex(blocks: seq<seq<Entry>>, seps: seq<InternalKey>, index: seq<Entry>)
    requires Indexed(blocks, seps) && |index| == |blocks| && forall i :: 0 <= i < |index| ==> index[i].key == seps[i]
    ensures Directory(index, blocks)
  {
    hide Flatten, EntriesBefore;
    forall i, j | 0 <= i < |blocks| && 0 <= j < |blocks[i]| ensures AtOrBefore(blocks[i][j].key, index[i].key) {
      if j < |blocks[i]| - 1 {
        AcrossBlocks(blocks, i, j, i, |blocks[i]| - 1);
      }
    }
    forall i, m, j | 0 <= i < m < |blocks| && 0 <= j < |blocks[m]| ensures Before(index[i].key, blocks[m][j].key) {
      AcrossBlocks(blocks, i, |blocks[i]| - 1, m, j);
      if m > i + 1 {
        AcrossBlocks(blocks, i + 1, 0, m, j);
      } else if j > 0 {
        AcrossBlocks(blocks, m, 0, m, j);
      }
      assert FirstOf(blocks, i + 1) == Some(blocks[i + 1][0].key);
    }
    forall i, m | 0 <= i < m < |index| ensures Before(index[i].key, index[m].key) {
      assert blocks[m] != [];
      assert Before(index[i].key, blocks[m][0].key) && AtOrBefore(blocks[m][0].key, index[m].key);
    }
  }
}
