/** BlockBuilder (table/block_builder.cc). */
module BlockBuilders {
  import opened Coding
  import opened BlockFormat

  class BlockBuilder {
    const interval: nat
    var buffer: Bytes
    var restarts: seq<nat>
    var counter: nat
    var finished: bool
    var lastKey: Bytes
    ghost var pairs: seq<Pair>

    ghost predicate Valid()
      reads this
    {
      && interval > 0
      && if finished then Fits(pairs, interval) ==> buffer == Finished(pairs, interval)
         else && buffer == Body(pairs, interval) && restarts == Restarts(pairs, interval)
              && counter == Counter(pairs, interval) && lastKey == LastKey(pairs)
    }

    constructor (interval: nat)
      requires interval > 0
      ensures Valid() && !finished && pairs == [] && this.interval == interval
    {
      this.interval := interval;
      buffer, restarts, counter, finished, lastKey, pairs := [], [0], 0, false, [], [];
    }

    method Reset()
      requires Valid()
      modifies this
      ensures Valid() && !finished && pairs == []
    {
      buffer, restarts, counter, finished, lastKey, pairs := [], [0], 0, false, [], [];
    }

    function CurrentSizeEstimate(): nat
      reads this
    {
      |buffer| + |restarts| * 4 + 4
    }

    method Add(key: Bytes, value: Bytes)
      requires Valid() && !finished
      modifies this
      ensures Valid() && !finished && pairs == old(pairs) + [Pair(key, value)]
    {
      hide Fits, Finished, EncodeEntry, Varint, Body, Restarts, Counter, LastKey;
      var shared := 0;
      if counter < interval {
        shared := CountShared(lastKey, key);
      } else {
        restarts := restarts + [|buffer|];
        counter := 0;
      }
      var nonShared := |key| - shared;
      buffer := buffer + (Varint(shared) + (Varint(nonShared) + (Varint(|value|) + (key[shared..] + value))));
      lastKey := lastKey[..shared] + key[shared..];
      counter := counter + 1;
      pairs := pairs + [Pair(key, value)];
      Appended(old(pairs), Pair(key, value), shared);
    }

    lemma {:induction false} Appended(before: seq<Pair>, p: Pair, shared: nat)
      requires shared == Shared(before, p.key, interval)
      ensures
        var after := before + [p];
        && Body(after, interval) == Body(before, interval) + (Varint(shared) + (Varint(|p.key| - shared) + (Varint(|p.value|) + (p.key[shared..] + p.value))))
        && Restarts(after, interval) == Restarts(before, interval) + (if Counter(before, interval) < interval then [] else [|Body(before, interval)|])
        && Counter(after, interval) == 1 + (if Counter(before, interval) < interval then Counter(before, interval) else 0)
        && LastKey(after) == LastKey(before)[..shared] + p.key[shared..]
    {
      hide Varint;
      var after := before + [p];
      assert after[..|after| - 1] == before;
      assert p.key[..shared] + p.key[shared..] == p.key;
    }

    /** The restart array and its length end the block; both are stored in 32 bits. */
    method Finish() returns (block: Bytes)
      requires Valid() && !finished
      modifies this
      ensures Valid() && finished && pairs == old(pairs) && (Fits(pairs, interval) ==> block == Finished(pairs, interval))
    {
      RestartsFit(pairs, interval);
      hide Body, Restarts, EncodeWords, Fixed32;
      var count := |restarts|;
      buffer := PutWords(buffer, restarts);
      buffer := buffer + Fixed32(count % LIMIT);
      finished := true;
      block := buffer;
    }
  }

  // How much of the last key the next key shares.
  method CountShared(a: Bytes, b: Bytes) returns (shared: nat)
    ensures shared == CommonPrefix(a, b)
  {
    shared := 0;
    while shared < |a| && shared < |b| && a[shared] == b[shared]
      invariant shared <= |a| && shared <= |b|
      invariant CommonPrefix(a, b) == shared + CommonPrefix(a[shared..], b[shared..])
    {
      assert a[shared..][1..] == a[shared + 1..] && b[shared..][1..] == b[shared + 1..];
      shared := shared + 1;
    }
  }
}
