/** Block::Iter (table/block.cc) over the bytes that a builder finished. */
module BlockIterator {
  import opened Coding
  import opened BlockFormat

  // comparator_: Compare(a, b) < 0
  type Order = (Bytes, Bytes) -> bool

  ghost predicate Transitive(lt: Order) {
    forall a, b, c :: lt(a, b) && lt(b, c) ==> lt(a, c)
  }

  ghost predicate Increasing(lt: Order, ps: seq<Pair>) {
    forall i, j :: 0 <= i < j < |ps| ==> lt(ps[i].key, ps[j].key)
  }

  // i is the position of the first key at or after the target.
  ghost predicate IsLowerBound(lt: Order, ps: seq<Pair>, target: Bytes, i: nat) {
    && i <= |ps|
    && (forall j :: 0 <= j < i ==> lt(ps[j].key, target))
    && (i < |ps| ==> !lt(ps[i].key, target))
  }

  lemma {:induction false} KeyFits(ps: seq<Pair>, interval: nat, i: nat)
    requires i < |ps|
    ensures |ps[i].key| + |ps[i].value| <= Offset(ps, interval, i + 1)
  {
    hide Shared, EncodeEntry, Body;
    SharedBound(ps, interval, i);
    OffsetStep(ps, interval, i);
    if i > 0 {
      KeyFits(ps, interval, i - 1);
    }
  }

  lemma {:induction false} SharedBound(ps: seq<Pair>, interval: nat, i: nat)
    requires i < |ps|
    ensures
      var shared := Shared(ps[..i], ps[i].key, interval);
      && |EncodeEntry(shared, ps[i])| >= |ps[i].key| - shared + |ps[i].value|
      && shared <= if i == 0 then 0 else |ps[i - 1].key|
  {
    hide Varint, CommonPrefix;
  }

  lemma {:induction false} DecodesAt(data: Bytes, restarts: nat, o: nat, shared: nat, p: Pair)
    requires shared <= |p.key| < LIMIT && |p.value| < LIMIT
    requires o + |EncodeEntry(shared, p)| <= restarts <= |data|
    requires data[..restarts][o..o + |EncodeEntry(shared, p)|] == EncodeEntry(shared, p)
    ensures
      var d := DecodeEntry(data[o..restarts]);
      && d.Decoded? && d.shared == shared && d.nonShared == |p.key| - shared && d.valueLength == |p.value|
      && o + d.keyStart + d.nonShared + d.valueLength == o + |EncodeEntry(shared, p)|
      && data[o + d.keyStart..o + d.keyStart + d.nonShared] == p.key[shared..]
      && data[o + d.keyStart + d.nonShared..o + d.keyStart + d.nonShared + d.valueLength] == p.value
  {
    hide EncodeEntry, DecodeEntry;
    var e, s := EncodeEntry(shared, p), data[o..restarts];
    var rest := s[|e|..];
    assert s[..|e|] == data[..restarts][o..o + |e|];
    assert s == e + rest;
    EntryRoundTrip(shared, p, rest);
    var d := DecodeEntry(s);
    var v := d.keyStart + d.nonShared;
    Inner(data, o, restarts, d.keyStart, v);
    Inner(data, o, restarts, v, v + d.valueLength);
    assert s[v..v + d.valueLength] == p.value;
  }

  lemma {:induction false} Inner(data: Bytes, o: nat, end: nat, x: nat, y: nat)
    requires x <= y && o + y <= end <= |data|
    ensures data[o..end][x..y] == data[o + x..o + y]
  {
    var a, b := data[o..end][x..y], data[o + x..o + y];
    assert forall i :: 0 <= i < |a| ==> a[i] == b[i];
  }

  class BlockIter {
    const lt: Order
    const data: Bytes
    const restarts: nat
    const numRestarts: nat
    ghost const pairs: seq<Pair>
    ghost const interval: nat
    var current: nat
    var restartIndex: nat
    var key: Bytes
    var valueStart: nat
    var valueSize: nat
    ghost var pos: nat

    ghost predicate Formed()
    {
      && interval > 0 && Fits(pairs, interval) && data == Finished(pairs, interval)
      && restarts == |Body(pairs, interval)| && numRestarts == |Restarts(pairs, interval)|
      && Transitive(lt) && Increasing(lt, pairs)
    }

    ghost function EntryOffset(i: nat): nat
      requires i <= |pairs|
    {
      Offset(pairs, interval, i)
    }

    ghost function RestartPoint(r: nat): nat
      requires Formed() && r < numRestarts
    {
      Restarts(pairs, interval)[r]
    }

    // The entry at restart point r; |pairs| if the block is empty.
    ghost function Start(r: nat): (i: nat)
      requires Formed() && r < numRestarts
      ensures i <= |pairs| && (i < |pairs| || r == 0) && EntryOffset(i) == RestartPoint(r)
      ensures r == 0 ==> i == 0
    {
      StartsOk(pairs, interval);
      Starts(pairs, interval)[r]
    }

    lemma {:induction false} OffsetsOrdered(i: nat, j: nat)
      requires Formed() && i <= |pairs| && j <= |pairs|
      ensures i < j <==> EntryOffset(i) < EntryOffset(j)
    {
      OffsetOrder(pairs, interval, i, j);
    }

    // restart_index_ is the restart block in which the offset falls.
    ghost predicate InBlock(offset: nat)
      requires Formed()
      reads this
    {
      && restartIndex < numRestarts && RestartPoint(restartIndex) <= offset
      && (restartIndex + 1 < numRestarts ==> RestartPoint(restartIndex + 1) >= offset)
    }

    ghost predicate Shows(i: nat)
      requires Formed()
      reads this
    {
      && i < |pairs| && current == EntryOffset(i) && key == pairs[i].key
      && valueStart + valueSize == EntryOffset(i + 1) <= |data| && data[valueStart..valueStart + valueSize] == pairs[i].value
      && InBlock(current)
    }

    ghost predicate Ok()
      reads this
    {
      && Formed() && pos <= |pairs|
      && if pos == |pairs| then current == restarts && restartIndex == numRestarts else Shows(pos)
    }

    // The next entry to parse is entry i, and key_ has what it shares.
    ghost predicate Before(i: nat)
      requires Formed()
      reads this
    {
      && i <= |pairs| && valueStart + valueSize == EntryOffset(i)
      && restartIndex < numRestarts && RestartPoint(restartIndex) <= EntryOffset(i)
      && (i < |pairs| ==>
            var shared := Shared(pairs[..i], pairs[i].key, interval);
            shared <= |key| && key[..shared] == pairs[i].key[..shared])
    }

    // NewIterator: the restart array is found from the end of the block.
    constructor (lt: Order, data: Bytes, ghost pairs: seq<Pair>, ghost interval: nat)
      requires interval > 0 && Fits(pairs, interval) && data == Finished(pairs, interval)
      requires Transitive(lt) && Increasing(lt, pairs)
      ensures Ok() && pos == |pairs| && this.pairs == pairs && this.lt == lt && this.data == data && this.interval == interval
    {
      hide Finished, Fits, Body, Restarts, Transitive, Increasing;
      TrailerReads(pairs, interval);
      var n: nat := DecodeFixed32(data[|data| - 4..]);
      this.lt, this.data, this.pairs, this.interval := lt, data, pairs, interval;
      numRestarts, restarts := n, |data| - (1 + n) * 4;
      current, restartIndex := |data| - (1 + n) * 4, n;
      key, valueStart, valueSize, pos := [], 0, 0, |pairs|;
    }

    predicate Valid()
      reads this
    {
      current < restarts
    }

    lemma {:induction false} ValidIff()
      requires Ok()
      ensures Valid() <==> pos < |pairs|
    {
      AtEnd(pos);
    }

    lemma {:induction false} ShownPair()
      requires Ok() && pos < |pairs|
      ensures valueStart + valueSize <= |data| && pairs[pos] == Pair(key, Value())
    {
    }

    function Value(): Bytes
      requires valueStart + valueSize <= |data|
      reads this
    {
      data[valueStart..valueStart + valueSize]
    }

    function NextEntryOffset(): nat
      reads this
    {
      valueStart + valueSize
    }

    method GetRestartPoint(index: nat) returns (offset: nat)
      requires Formed() && index < numRestarts
      ensures offset == RestartPoint(index)
    {
      hide Formed, RestartPoint, DecodeFixed32;
      WordHolds(index);
      offset := DecodeFixed32(data[restarts + index * 4..restarts + index * 4 + 4]);
    }

    lemma {:induction false} WordHolds(r: nat)
      requires Formed() && r < numRestarts
      ensures restarts + r * 4 + 4 <= |data| && DecodeFixed32(data[restarts + r * 4..restarts + r * 4 + 4]) == RestartPoint(r)
    {
      hide Finished, Body, Restarts, Fits, Transitive, Increasing, DecodeFixed32;
      RestartReads(pairs, interval, r);
    }

    method SeekToRestartPoint(index: nat)
      requires Formed() && index < numRestarts
      modifies this
      ensures Before(Start(index)) && restartIndex == index && key == []
      ensures NextEntryOffset() == RestartPoint(index)
    {
      hide Formed, EntryOffset, RestartPoint, Start, Shared;
      key := [];
      restartIndex := index;
      var offset := GetRestartPoint(index);
      valueStart, valueSize := offset, 0;
      RestartShares(index);
    }

    lemma {:induction false} RestartShares(r: nat)
      requires Formed() && r < numRestarts
      ensures Start(r) < |pairs| ==> Shared(pairs[..Start(r)], pairs[Start(r)].key, interval) == 0
    {
      StartsOk(pairs, interval);
      if Start(r) < |pairs| {
        StartShares(pairs, interval, r);
      }
    }

    lemma {:induction false} LastStart()
      requires Formed() && numRestarts > 0
      ensures pairs != [] ==> Start(numRestarts - 1) < |pairs|
    {
    }

    lemma {:induction false} Parts()
      requires Formed()
      ensures restarts == |Body(pairs, interval)| < LIMIT && restarts <= |data| && data[..restarts] == Body(pairs, interval)
      ensures numRestarts == |Restarts(pairs, interval)| && |data| == restarts + 4 * numRestarts + 4
    {
      hide Body, Restarts, Finished, Transitive, Increasing;
      TrailerReads(pairs, interval);
    }

    // The entry at offset i decodes to its fields.
    lemma {:induction false} Decodes(i: nat)
      requires Formed() && i < |pairs|
      ensures EntryOffset(i) < restarts <= |data|
      ensures
        var shared := Shared(pairs[..i], pairs[i].key, interval);
        var o := EntryOffset(i);
        var d := DecodeEntry(data[o..restarts]);
        && d.Decoded? && d.shared == shared && d.nonShared == |pairs[i].key| - shared && d.valueLength == |pairs[i].value|
        && o + d.keyStart + d.nonShared + d.valueLength == EntryOffset(i + 1) <= restarts
        && data[o + d.keyStart..o + d.keyStart + d.nonShared] == pairs[i].key[shared..]
        && data[o + d.keyStart + d.nonShared..o + d.keyStart + d.nonShared + d.valueLength] == pairs[i].value
    {
      hide Formed, Shared, EncodeEntry, DecodeEntry, Finished, Body, Restarts, Fits;
      Parts();
      EntryAt(pairs, interval, i);
      KeyFits(pairs, interval, i);
      DecodesAt(data, restarts, EntryOffset(i), Shared(pairs[..i], pairs[i].key, interval), pairs[i]);
    }

    method ParseNextKey(ghost i: nat) returns (found: bool)
      requires Formed() && Before(i)
      modifies this
      ensures Ok() && pos == i && found == (i < |pairs|)
    {
      hide Formed, EntryOffset, RestartPoint, Start, Shared, DecodeEntry;
      pos := i;
      AtEnd(i);
      current := NextEntryOffset();
      if current >= restarts {
        current, restartIndex := restarts, numRestarts;
        return false;
      }
      Decodes(i);
      var d := DecodeEntry(data[current..restarts]);
      key := key[..d.shared] + data[current + d.keyStart..current + d.keyStart + d.nonShared];
      assert pairs[i].key[..d.shared] + pairs[i].key[d.shared..] == pairs[i].key;
      valueStart, valueSize := current + d.keyStart + d.nonShared, d.valueLength;
      found := true;
      FindRestartIndex();
    }

    lemma {:induction false} AtEnd(i: nat)
      requires Formed() && i <= |pairs|
      ensures EntryOffset(i) >= restarts <==> i == |pairs|
    {
      assert pairs[..|pairs|] == pairs;
      OffsetOrder(pairs, interval, i, |pairs|);
    }

    method FindRestartIndex()
      requires Formed() && restartIndex < numRestarts && RestartPoint(restartIndex) <= current
      modifies `restartIndex
      ensures InBlock(current)
    {
      hide Formed, EntryOffset, RestartPoint, Start, Shared, DecodeEntry;
      while restartIndex + 1 < numRestarts
        invariant restartIndex < numRestarts && RestartPoint(restartIndex) <= current
        decreases numRestarts - restartIndex
      {
        var next := GetRestartPoint(restartIndex + 1);
        if next >= current {
          break;
        }
        restartIndex := restartIndex + 1;
      }
    }

    // Having shown entry i, the iterator is ready for the next one.
    lemma {:induction false} ReadyForNext(i: nat)
      requires Formed() && Shows(i)
      ensures Before(i + 1)
    {
      OffsetsOrdered(i, i + 1);
      if i + 1 < |pairs| {
        assert LastKey(pairs[..i + 1]) == pairs[i].key;
      }
    }

    method Next()
      requires Ok() && Valid()
      modifies this
      ensures Ok() && pos == old(pos) + 1
    {
      hide Formed, EntryOffset, RestartPoint, Start, Shared, DecodeEntry, IsLowerBound;
      ValidIff();
      ReadyForNext(pos);
      var found := ParseNextKey(pos + 1);
    }

    method Prev()
      requires Ok() && Valid()
      modifies this
      ensures Ok() && pos == if old(pos) == 0 then |pairs| else old(pos) - 1
    {
      hide Formed, EntryOffset, RestartPoint, Start, Shared, DecodeEntry, IsLowerBound;
      ValidIff();
      ghost var here := pos;
      var original := current;
      var point := GetRestartPoint(restartIndex);
      while point >= original
        invariant Formed() && restartIndex < numRestarts && point == RestartPoint(restartIndex)
        invariant original == EntryOffset(here)
        decreases restartIndex
      {
        if restartIndex == 0 {
          SomeRestart();
          OffsetsOrdered(0, here);
          current, restartIndex, pos := restarts, numRestarts, |pairs|;
          return;
        }
        restartIndex := restartIndex - 1;
        point := GetRestartPoint(restartIndex);
      }
      ghost var j := Start(restartIndex);
      SeekToRestartPoint(restartIndex);
      OffsetsOrdered(j, here);
      var more := true;
      while more
        invariant Formed() && j <= here && (more ==> j < here && Before(j))
        invariant !more ==> Ok() && pos == here - 1
        decreases more, here - j
      {
        var found := ParseNextKey(j);
        OffsetsOrdered(j + 1, here);
        more := found && NextEntryOffset() < original;
        if more {
          ReadyForNext(j);
        }
        j := j + 1;
      }
    }

    lemma {:induction false} SomeRestart()
      requires Formed()
      ensures numRestarts > 0 && EntryOffset(0) == RestartPoint(0) == 0
    {
      StartsOk(pairs, interval);
    }

    method SeekToFirst()
      requires Ok()
      modifies this
      ensures Ok() && pos == 0
    {
      hide Formed, EntryOffset, RestartPoint, Start, Shared, DecodeEntry, IsLowerBound;
      SomeRestart();
      SeekToRestartPoint(0);
      var found := ParseNextKey(0);
    }

    method SeekToLast()
      requires Ok()
      modifies this
      ensures Ok() && pos == if pairs == [] then 0 else |pairs| - 1
    {
      hide Formed, EntryOffset, RestartPoint, Start, Shared, DecodeEntry, IsLowerBound;
      SomeRestart();
      ghost var j := Start(numRestarts - 1);
      LastStart();
      SeekToRestartPoint(numRestarts - 1);
      var more := true;
      while more
        invariant Formed() && j <= |pairs| && (more ==> Before(j) && (j < |pairs| || pairs == []))
        invariant !more ==> Ok() && pos == if pairs == [] then 0 else |pairs| - 1
        decreases more, |pairs| - j
      {
        var found := ParseNextKey(j);
        if found {
          AtEnd(j + 1);
          more := NextEntryOffset() < restarts;
          if more {
            ReadyForNext(j);
          }
          j := j + 1;
        } else {
          more := false;
        }
      }
    }

    /** Binary search among the restart points, then a scan: the first key at or after the target. */
    method Seek(target: Bytes)
      requires Ok()
      modifies this
      ensures Ok() && IsLowerBound(lt, pairs, target, pos)
    {
      hide Formed, EntryOffset, RestartPoint, Start, Shared, DecodeEntry;
      var left := FindRestart(target);
      ghost var j := Start(left);
      SeekToRestartPoint(left);
      ScanFrom(left, target);
      var more := true;
      while more
        invariant Formed() && j <= |pairs| && (more ==> Before(j))
        invariant forall i :: 0 <= i < j ==> lt(pairs[i].key, target)
        invariant !more ==> Ok() && IsLowerBound(lt, pairs, target, pos)
        decreases more, |pairs| - j
      {
        var found := ParseNextKey(j);
        if !found || !lt(key, target) {
          more := false;
        } else {
          ReadyForNext(j);
          j := j + 1;
        }
      }
    }

    // The key of the restart point r is before the target, or r is the first one.
    ghost predicate StartsBefore(r: nat, target: Bytes)
      requires Formed() && r < numRestarts
    {
      var i := Start(r);
      r == 0 || (i < |pairs| && lt(pairs[i].key, target))
    }

    lemma {:induction false} ScanFrom(r: nat, target: Bytes)
      requires Formed() && r < numRestarts && StartsBefore(r, target)
      ensures forall i :: 0 <= i < Start(r) && i < |pairs| ==> lt(pairs[i].key, target)
    {
      SomeRestart();
      var s := Start(r);
      if r > 0 {
        forall i | 0 <= i < s ensures lt(pairs[i].key, target) {
          assert lt(pairs[i].key, pairs[s].key);
        }
      }
    }

    method FindRestart(target: Bytes) returns (left: nat)
      requires Formed()
      ensures left < numRestarts && StartsBefore(left, target)
      ensures left + 1 < numRestarts ==> !StartsBefore(left + 1, target)
    {
      hide Formed, EntryOffset, RestartPoint, Start, Shared, DecodeEntry;
      SomeRestart();
      left := 0;
      var right := numRestarts - 1;
      while left < right
        invariant left <= right < numRestarts && StartsBefore(left, target)
        invariant right + 1 < numRestarts ==> !StartsBefore(right + 1, target)
      {
        var mid := (left + right + 1) / 2;
        var midKey := RestartKey(mid);
        if lt(midKey, target) {
          left := mid;
        } else {
          right := mid - 1;
        }
      }
    }

    // A restart point's key is stored whole.
    method RestartKey(r: nat) returns (k: Bytes)
      requires Formed() && 0 < r < numRestarts
      ensures Start(r) < |pairs| && k == pairs[Start(r)].key
    {
      hide Formed, EntryOffset, RestartPoint, Start, Shared, DecodeEntry;
      LaterStart(r);
      RestartShares(r);
      Decodes(Start(r));
      var regionOffset := GetRestartPoint(r);
      var d := DecodeEntry(data[regionOffset..restarts]);
      ghost var stored := pairs[Start(r)].key;
      assert stored[0..] == stored;
      k := data[regionOffset + d.keyStart..regionOffset + d.keyStart + d.nonShared];
    }

    lemma {:induction false} LaterStart(r: nat)
      requires Formed() && 0 < r < numRestarts
      ensures Start(r) < |pairs|
    {
    }
  }

  /** A finished block gives back the pairs that were added. */
  method ReadForward(lt: Order, data: Bytes, ghost pairs: seq<Pair>, ghost interval: nat) returns (r: seq<Pair>)
    requires interval > 0 && Fits(pairs, interval) && data == Finished(pairs, interval)
    requires Transitive(lt) && Increasing(lt, pairs)
    ensures r == pairs
  {
    var it := new BlockIter(lt, data, pairs, interval);
    hide BlockIter.Ok, Finished, Fits, Transitive, Increasing;
    it.SeekToFirst();
    r := [];
    while it.Valid()
      invariant it.Ok() && it.pairs == pairs && it.pos <= |pairs| && r == pairs[..it.pos]
      decreases |pairs| - it.pos
    {
      it.ValidIff();
      it.ShownPair();
      r := r + [Pair(it.key, it.Value())];
      it.Next();
    }
    it.ValidIff();
  }
}
