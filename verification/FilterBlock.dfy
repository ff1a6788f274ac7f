/** One filter for every 2 KB of data blocks (table/filter_block.cc). */
module FilterBlock {
  import opened Coding
  import opened Bloom

  const BASE_LG: Byte := 11
  const BASE: nat := 2048

  // Which filter a block belongs to, and a key of the block.
  datatype Added = Added(index: nat, key: Bytes)

  // The filter of the key's block matches the key.
  ghost predicate Matches(hash: Hash, bytes: Bytes, offsets: seq<nat>, a: Added)
    requires a.index < |offsets|
  {
    var start, limit := offsets[a.index], (offsets + [|bytes|])[a.index + 1];
    start <= limit <= |bytes| && MayMatch(hash, a.key, bytes[start..limit])
  }

  // The keys of the blocks that filter i covers, in the order in which they were added.
  function KeysAt(added: seq<Added>, i: nat): seq<Bytes> {
    if added == [] then []
    else
      var last := added[|added| - 1];
      KeysAt(added[..|added| - 1], i) + if last.index == i then [last.key] else []
  }

  lemma {:induction false} KeysAppend(added: seq<Added>, a: Added, i: nat)
    ensures KeysAt(added + [a], i) == KeysAt(added, i) + if a.index == i then [a.key] else []
  {
    assert (added + [a])[..|added|] == added;
  }

  lemma {:induction false} KeyIsThere(added: seq<Added>, a: Added)
    requires a in added
    ensures a.key in KeysAt(added, a.index)
  {
    if a != added[|added| - 1] {
      KeyIsThere(added[..|added| - 1], a);
    }
  }

  lemma {:induction false} NoneLater(added: seq<Added>, i: nat)
    requires forall a :: a in added ==> a.index < i
    ensures KeysAt(added, i) == []
  {
    if added != [] {
      NoneLater(added[..|added| - 1], i);
    }
  }

  // Filter i.
  function Slice(bytes: Bytes, offsets: seq<nat>, i: nat): Bytes
    requires i < |offsets| && offsets[i] <= (offsets + [|bytes|])[i + 1] <= |bytes|
  {
    bytes[offsets[i]..(offsets + [|bytes|])[i + 1]]
  }

  // Filter i is one for exactly its keys, and empty if there are none.
  ghost predicate FilterIs(policy: FilterPolicy, bytes: Bytes, offsets: seq<nat>, added: seq<Added>, i: nat) {
    && i < |offsets| && offsets[i] <= (offsets + [|bytes|])[i + 1] <= |bytes|
    && var keys := KeysAt(added, i);
       if keys == [] then Slice(bytes, offsets, i) == [] else IsFilter(policy.hash, Slice(bytes, offsets, i), keys, policy.k)
  }

  ghost predicate AllFilters(policy: FilterPolicy, bytes: Bytes, offsets: seq<nat>, added: seq<Added>) {
    forall i :: 0 <= i < |offsets| ==> FilterIs(policy, bytes, offsets, added, i)
  }

  // The filters, where each starts, where the last ends (which is where the offsets start), and the base.
  function Layout(result: Bytes, offsets: seq<nat>): Bytes
    requires |result| < 0x1_0000_0000 && forall i :: 0 <= i < |offsets| ==> offsets[i] <= |result|
  {
    result + (EncodeWords(offsets + [|result|]) + [BASE_LG])
  }

  /** `contents` is a finished filter block that holds all of `added`. */
  ghost predicate HoldsAll(hash: Hash, contents: Bytes, result: Bytes, offsets: seq<nat>, added: seq<Added>) {
    && |result| < 0x1_0000_0000 && (forall i :: 0 <= i < |offsets| ==> offsets[i] <= |result|)
    && (forall a :: a in added ==> a.index < |offsets| && Matches(hash, result, offsets, a))
    && contents == Layout(result, offsets)
  }

  lemma {:induction false} SamePrefix(before: Bytes, after: Bytes, start: nat, limit: nat)
    requires |before| <= |after| && after[..|before|] == before && start <= limit <= |before|
    ensures after[start..limit] == before[start..limit]
  {
    forall i | start <= i < limit ensures after[i] == before[i] {
      assert after[..|before|][i] == before[i];
    }
  }

  class FilterBlockBuilder {
    const policy: FilterPolicy
    var pending: seq<Bytes>        // keys_ and start_
    var result: Bytes
    var filterOffsets: seq<nat>
    ghost var added: seq<Added>    // every key so far, with the filter of its block

    ghost predicate Valid()
      reads this
    {
      && 1 <= policy.k <= 30
      && (forall i :: 0 <= i < |filterOffsets| ==> filterOffsets[i] <= |result|)
      && AllFilters(policy, result, filterOffsets, added)
      && pending == KeysAt(added, |filterOffsets|)
      && forall a :: a in added ==> a.index <= |filterOffsets|
    }

    constructor (policy: FilterPolicy)
      requires 1 <= policy.k <= 30
      ensures Valid() && this.policy == policy && added == [] && filterOffsets == []
    {
      this.policy := policy;
      pending, result, filterOffsets, added := [], [], [], [];
    }

    /** StartBlock: filters are generated until the next one to be made is the block's. */
    method StartBlock(blockOffset: nat)
      requires Valid() && blockOffset / BASE >= |filterOffsets|
      modifies this
      ensures Valid() && added == old(added) && |filterOffsets| == blockOffset / BASE
    {
      var filterIndex := blockOffset / BASE;
      while filterIndex > |filterOffsets|
        invariant Valid() && added == old(added) && |filterOffsets| <= filterIndex
      {
        GenerateFilter();
      }
    }

    method AddKey(key: Bytes)
      requires Valid()
      modifies this
      ensures Valid() && added == old(added) + [Added(|filterOffsets|, key)] && filterOffsets == old(filterOffsets)
    {
      hide FilterIs;
      ghost var a := Added(|filterOffsets|, key);
      forall i | 0 <= i < |filterOffsets| ensures FilterIs(policy, result, filterOffsets, added + [a], i) {
        OtherKeys(policy, result, filterOffsets, added, a, i);
      }
      KeysAppend(added, a, |filterOffsets|);
      pending := pending + [key];
      added := added + [a];
    }

    method GenerateFilter()
      requires Valid()
      modifies this
      ensures Valid() && added == old(added) && |filterOffsets| == |old(filterOffsets)| + 1 && pending == []
    {
      hide FilterIs, IsFilter;
      ghost var before, offsets := result, filterOffsets;
      filterOffsets := filterOffsets + [|result|];
      if pending != [] {
        result := policy.CreateFilter(pending, result);
        pending := [];
      }
      NewFilter(policy, before, result, offsets, added);
      NoneLater(added, |filterOffsets|);
      forall i | 0 <= i < |offsets| ensures FilterIs(policy, result, filterOffsets, added, i) {
        StillFilter(policy, before, result, offsets, added, i);
      }
    }

    /** Finish: the filters, their offsets, where the offsets start, and the base. */
    method Finish() returns (contents: Bytes)
      requires Valid()
      modifies this
      ensures added == old(added)
      ensures AllFilters(policy, result, filterOffsets, added)
      ensures |result| < 0x1_0000_0000 ==> HoldsAll(policy.hash, contents, result, filterOffsets, added)
    {
      if pending != [] {
        GenerateFilter();
      }
      AllFiltered();
      hide EncodeWords, Fixed32, MayMatch, Matches, FilterIs, FilterBlockBuilder.Valid;
      contents := Assemble(result, filterOffsets);
    }

    lemma {:induction false} AllFiltered()
      requires Valid() && pending == []
      ensures forall i :: 0 <= i < |filterOffsets| ==> filterOffsets[i] <= |result|
      ensures AllFilters(policy, result, filterOffsets, added)
      ensures forall a :: a in added ==> a.index < |filterOffsets| && Matches(policy.hash, result, filterOffsets, a)
    {
      hide FilterIs, Matches, KeysAt;
      forall a | a in added ensures a.index < |filterOffsets| && Matches(policy.hash, result, filterOffsets, a) {
        KeyIsThere(added, a);
        FilterMatches(policy, result, filterOffsets, added, a);
      }
    }
  }

  lemma {:induction false} FilterMatches(policy: FilterPolicy, bytes: Bytes, offsets: seq<nat>, added: seq<Added>, a: Added)
    requires a.index < |offsets| && FilterIs(policy, bytes, offsets, added, a.index) && a.key in KeysAt(added, a.index)
    ensures Matches(policy.hash, bytes, offsets, a)
  {
    hide KeysAt, IsFilter, MayMatch;
    var keys := KeysAt(added, a.index);
    var i :| 0 <= i < |keys| && keys[i] == a.key;
    FilterMatchesItsKeys(policy.hash, Slice(bytes, offsets, a.index), keys, policy.k, i);
  }

  lemma {:induction false} OtherKeys(policy: FilterPolicy, bytes: Bytes, offsets: seq<nat>, added: seq<Added>, a: Added, i: nat)
    requires FilterIs(policy, bytes, offsets, added, i) && a.index != i
    ensures FilterIs(policy, bytes, offsets, added + [a], i)
  {
    hide KeysAt, IsFilter;
    KeysAppend(added, a, i);
    assert KeysAt(added, i) + [] == KeysAt(added, i);
  }

  // A filter for the pending keys ends the filters, or nothing if there are none.
  lemma {:induction false} NewFilter(policy: FilterPolicy, before: Bytes, after: Bytes, offsets: seq<nat>, added: seq<Added>)
    requires |before| <= |after|
    requires
      var keys := KeysAt(added, |offsets|);
      if keys == [] then after == before else IsFilter(policy.hash, after[|before|..], keys, policy.k)
    ensures FilterIs(policy, after, offsets + [|before|], added, |offsets|)
  {
    hide KeysAt, IsFilter;
    assert after[|before|..|after|] == after[|before|..];
  }

  lemma {:induction false} StillFilter(policy: FilterPolicy, before: Bytes, after: Bytes, offsets: seq<nat>, added: seq<Added>, i: nat)
    requires FilterIs(policy, before, offsets, added, i) && |before| <= |after| && after[..|before|] == before
    ensures FilterIs(policy, after, offsets + [|before|], added, i)
  {
    hide KeysAt, IsFilter;
    var limit := (offsets + [|before|])[i + 1];
    assert (offsets + [|before|] + [|after|])[i + 1] == limit;
    SamePrefix(before, after, offsets[i], limit);
  }

  lemma {:induction false} WordsThenBase(result: Bytes, offsets: seq<nat>)
    requires |result| < 0x1_0000_0000 && forall i :: 0 <= i < |offsets| ==> offsets[i] <= |result|
    ensures result + EncodeWords(offsets) + Fixed32(|result|) + [BASE_LG] == Layout(result, offsets)
  {
    hide Fixed32;
    var words := offsets + [|result|];
    assert words[..|words| - 1] == offsets;
    assert EncodeWords(words) == EncodeWords(offsets) + Fixed32(|result|);
  }

  method Assemble(result: Bytes, offsets: seq<nat>) returns (contents: Bytes)
    requires forall i :: 0 <= i < |offsets| ==> offsets[i] <= |result|
    ensures |result| < 0x1_0000_0000 ==> contents == Layout(result, offsets)
  {
    hide EncodeWords, Fixed32, Layout;
    contents := PutWords(result, offsets);
    contents := contents + Fixed32(|result| % 0x1_0000_0000);
    contents := contents + [BASE_LG];
    if |result| < 0x1_0000_0000 {
      WordsThenBase(result, offsets);
    }
  }

  // Which filter covers a block, given the last byte of the filter block.
  function FilterIndex(blockOffset: nat, baseLg: nat): nat {
    if baseLg == 0 then blockOffset else FilterIndex(blockOffset / 2, baseLg - 1)
  }

  // What the reader decides: an unreadable block never rules a key out.
  ghost predicate Decides(hash: Hash, contents: Bytes, blockOffset: nat, key: Bytes) {
    var n := |contents|;
    if n < 5 then true
    else
      var lastWord := DecodeFixed32(contents[n - 5..n - 1]);
      if lastWord > n - 5 then true
      else
        var index := FilterIndex(blockOffset, contents[n - 1]);
        if index >= (n - 5 - lastWord) / 4 then true
        else
          var at := lastWord + 4 * index;
          var start, limit := DecodeFixed32(contents[at..at + 4]), DecodeFixed32(contents[at + 4..at + 8]);
          if start <= limit <= lastWord then MayMatch(hash, key, contents[start..limit]) else start != limit
  }

  class FilterBlockReader {
    const policy: FilterPolicy
    const contents: Bytes
    const arrayStart: nat
    const num: nat

    ghost predicate Valid() {
      var n := |contents|;
      if n < 5 || DecodeFixed32(contents[n - 5..n - 1]) > n - 5 then num == 0
      else arrayStart == DecodeFixed32(contents[n - 5..n - 1]) && num == (n - 5 - arrayStart) / 4
    }

    constructor (policy: FilterPolicy, contents: Bytes)
      ensures Valid() && this.policy == policy && this.contents == contents
    {
      this.policy, this.contents := policy, contents;
      var n := |contents|;
      var lastWord: nat := if n < 5 then 0 else DecodeFixed32(contents[n - 5..n - 1]);
      if n < 5 || lastWord > n - 5 {
        arrayStart, num := 0, 0;
      } else {
        arrayStart, num := lastWord, (n - 5 - lastWord) / 4;
      }
    }

    method KeyMayMatch(blockOffset: nat, key: Bytes) returns (r: bool)
      requires Valid()
      ensures r <==> Decides(policy.hash, contents, blockOffset, key)
    {
      hide FilterIndex, DecodeFixed32, MayMatch;
      if num == 0 {
        return true;
      }
      var index := FilterIndex(blockOffset, contents[|contents| - 1]);
      if index < num {
        var at := arrayStart + 4 * index;
        var start, limit := DecodeFixed32(contents[at..at + 4]), DecodeFixed32(contents[at + 4..at + 8]);
        if start <= limit && limit <= arrayStart {
          r := policy.KeyMayMatch(key, contents[start..limit]);
          return;
        } else if start == limit {
          return false;
        }
      }
      return true;
    }
  }

  // What is decided for a block that filter i covers.
  lemma {:induction false} DecidesBySlice(hash: Hash, contents: Bytes, result: Bytes, offsets: seq<nat>, added: seq<Added>, blockOffset: nat, key: Bytes, i: nat)
    requires HoldsAll(hash, contents, result, offsets, added) && i == blockOffset / BASE
    requires i < |offsets| && offsets[i] <= (offsets + [|result|])[i + 1] <= |result|
    ensures Decides(hash, contents, blockOffset, key) <==> MayMatch(hash, key, Slice(result, offsets, i))
  {
    hide Layout, Matches, FilterIndex, DecodeFixed32, EncodeWords, MayMatch, Decides;
    var words := offsets + [|result|];
    BaseIndex(blockOffset);
    TrailerReads(result, offsets);
    LayoutWord(result, offsets, i);
    LayoutWord(result, offsets, i + 1);
    SamePrefix(result, contents, words[i], words[i + 1]);
    DecidesAt(hash, contents, blockOffset, key, |result|, i, words[i], words[i + 1]);
  }

  lemma {:induction false} LayoutWord(result: Bytes, offsets: seq<nat>, i: nat)
    requires |result| < 0x1_0000_0000 && (forall j :: 0 <= j < |offsets| ==> offsets[j] <= |result|) && i <= |offsets|
    ensures
      var contents, at := Layout(result, offsets), |result| + 4 * i;
      at + 4 <= |contents| && DecodeFixed32(contents[at..at + 4]) == (offsets + [|result|])[i]
  {
    hide EncodeWords, DecodeFixed32;
    WordReads(result, offsets + [|result|], [BASE_LG], i);
  }

  /** A key that was added for a block is never ruled out for it. */
  lemma {:induction false} NeverRulesOut(hash: Hash, contents: Bytes, result: Bytes, offsets: seq<nat>, added: seq<Added>, blockOffset: nat, key: Bytes)
    requires HoldsAll(hash, contents, result, offsets, added)
    requires Added(blockOffset / BASE, key) in added
    ensures Decides(hash, contents, blockOffset, key)
  {
    hide Layout, MayMatch, Decides;
    var a := Added(blockOffset / BASE, key);
    assert a.index < |offsets| && Matches(hash, result, offsets, a);
    DecidesBySlice(hash, contents, result, offsets, added, blockOffset, key, a.index);
  }

  // Every probe of the key hits a bit that a probe of one of these keys sets.
  ghost predicate Collides(policy: FilterPolicy, keys: seq<Bytes>, bits: nat, key: Bytes)
    requires bits > 0
  {
    forall j :: 0 <= j < policy.k ==> TouchedByKeys(policy.hash, keys, policy.k, bits, Probe(policy.hash(key), j, bits))
  }

  // The slice alone says what is decided for a block it covers.
  ghost predicate Admits(policy: FilterPolicy, slice: Bytes, keys: seq<Bytes>, key: Bytes) {
    keys != [] && |slice| > 1 && Collides(policy, keys, 8 * (|slice| - 1), key)
  }

  lemma {:induction false} MatchesIff(policy: FilterPolicy, bytes: Bytes, offsets: seq<nat>, added: seq<Added>, i: nat, key: Bytes)
    requires FilterIs(policy, bytes, offsets, added, i) && 1 <= policy.k <= 30
    ensures MayMatch(policy.hash, key, Slice(bytes, offsets, i)) <==> Admits(policy, Slice(bytes, offsets, i), KeysAt(added, i), key)
  {
    hide KeysAt, TouchedByKeys, Bit, Probe;
    var f := Slice(bytes, offsets, i);
    if KeysAt(added, i) != [] {
      var h, bits, bytes := policy.hash(key), 8 * (|f| - 1), f[..|f| - 1];
      forall j | 0 <= j < policy.k
        ensures Bit(bytes, Probe(h, j, bits)) <==> TouchedByKeys(policy.hash, KeysAt(added, i), policy.k, bits, Probe(h, j, bits))
      {
      }
    }
  }

  /** What the reader decides about a finished filter block: it rules a key out exactly if the block lies in a
      range that has a filter, and that range has no keys or some probe of the key misses all of theirs. */
  lemma {:induction false} RulesOutIff(policy: FilterPolicy, contents: Bytes, result: Bytes, offsets: seq<nat>, added: seq<Added>, blockOffset: nat, key: Bytes)
    requires HoldsAll(policy.hash, contents, result, offsets, added) && AllFilters(policy, result, offsets, added) && 1 <= policy.k <= 30
    ensures
      var i := blockOffset / BASE;
      if i >= |offsets| then Decides(policy.hash, contents, blockOffset, key)
      else
        && FilterIs(policy, result, offsets, added, i)
        && (Decides(policy.hash, contents, blockOffset, key) <==> Admits(policy, Slice(result, offsets, i), KeysAt(added, i), key))
  {
    hide Layout, HoldsAll, Matches, FilterIndex, DecodeFixed32, MayMatch, Decides, IsFilter, KeysAt, Admits;
    var index := blockOffset / BASE;
    if index < |offsets| {
      assert FilterIs(policy, result, offsets, added, index);
      DecidesBySlice(policy.hash, contents, result, offsets, added, blockOffset, key, index);
      MatchesIff(policy, result, offsets, added, index, key);
    } else {
      BaseIndex(blockOffset);
      LaysOut(policy.hash, contents, result, offsets, added);
      TrailerReads(result, offsets);
      DecidesBeyond(policy.hash, contents, blockOffset, key, |result|, index);
    }
  }

  lemma {:induction false} LaysOut(hash: Hash, contents: Bytes, result: Bytes, offsets: seq<nat>, added: seq<Added>)
    requires HoldsAll(hash, contents, result, offsets, added)
    ensures |result| < 0x1_0000_0000 && (forall i :: 0 <= i < |offsets| ==> offsets[i] <= |result|)
    ensures contents == Layout(result, offsets)
  {
  }

  lemma {:induction false} DecidesBeyond(hash: Hash, contents: Bytes, blockOffset: nat, key: Bytes, arrayStart: nat, index: nat)
    requires |contents| >= arrayStart + 5 && contents[|contents| - 1] == BASE_LG
    requires index == FilterIndex(blockOffset, BASE_LG)
    requires DecodeFixed32(contents[|contents| - 5..|contents| - 1]) == arrayStart && index >= (|contents| - 5 - arrayStart) / 4
    ensures Decides(hash, contents, blockOffset, key)
  {
    hide FilterIndex, DecodeFixed32, MayMatch;
  }

  lemma {:induction false} DecidesAt(hash: Hash, contents: Bytes, blockOffset: nat, key: Bytes, arrayStart: nat, index: nat, start: nat, limit: nat)
    requires |contents| >= arrayStart + 4 * index + 9 && contents[|contents| - 1] == BASE_LG
    requires index == FilterIndex(blockOffset, BASE_LG)
    requires DecodeFixed32(contents[|contents| - 5..|contents| - 1]) == arrayStart
    requires
      var at := arrayStart + 4 * index;
      DecodeFixed32(contents[at..at + 4]) == start && DecodeFixed32(contents[at + 4..at + 8]) == limit
    requires start <= limit <= arrayStart && index < (|contents| - 5 - arrayStart) / 4
    ensures Decides(hash, contents, blockOffset, key) <==> MayMatch(hash, key, contents[start..limit])
  {
    hide FilterIndex, DecodeFixed32, MayMatch;
  }

  lemma {:induction false} BaseIndex(blockOffset: nat)
    ensures FilterIndex(blockOffset, BASE_LG) == blockOffset / BASE
  {
    var n0 := blockOffset;
    var n1 := n0 / 2;
    var n2 := n1 / 2;
    var n3 := n2 / 2;
    var n4 := n3 / 2;
    var n5 := n4 / 2;
    var n6 := n5 / 2;
    var n7 := n6 / 2;
    var n8 := n7 / 2;
    var n9 := n8 / 2;
    var n10 := n9 / 2;
    var n11 := n10 / 2;
    assert FilterIndex(n0, 11) == FilterIndex(n1, 10) && n1 == n0 / 2;
    assert FilterIndex(n1, 10) == FilterIndex(n2, 9) && n2 == n0 / 4;
    assert FilterIndex(n2, 9) == FilterIndex(n3, 8) && n3 == n0 / 8;
    assert FilterIndex(n3, 8) == FilterIndex(n4, 7) && n4 == n0 / 16;
    assert FilterIndex(n4, 7) == FilterIndex(n5, 6) && n5 == n0 / 32;
    assert FilterIndex(n5, 6) == FilterIndex(n6, 5) && n6 == n0 / 64;
    assert FilterIndex(n6, 5) == FilterIndex(n7, 4) && n7 == n0 / 128;
    assert FilterIndex(n7, 4) == FilterIndex(n8, 3) && n8 == n0 / 256;
    assert FilterIndex(n8, 3) == FilterIndex(n9, 2) && n9 == n0 / 512;
    assert FilterIndex(n9, 2) == FilterIndex(n10, 1) && n10 == n0 / 1024;
    assert FilterIndex(n10, 1) == FilterIndex(n11, 0) && n11 == n0 / 2048;
  }

  lemma {:induction false} TrailerReads(result: Bytes, offsets: seq<nat>)
    requires |result| < 0x1_0000_0000 && (forall i :: 0 <= i < |offsets| ==> offsets[i] <= |result|)
    ensures
      var contents := Layout(result, offsets);
      var n := |contents|;
      && n == |result| + 4 * |offsets| + 5 && contents[n - 1] == BASE_LG
      && DecodeFixed32(contents[n - 5..n - 1]) == |result| && contents[..|result|] == result
  {
    hide EncodeWords, DecodeFixed32;
    WordReads(result, offsets + [|result|], [BASE_LG], |offsets|);
  }
}
