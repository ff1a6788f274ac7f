/** The chained hash table of the cache (util/cache.cc). */
module HandleTables {
  import opened Coding
  import opened Circles

  /** An entry of the cache; `next` and `prev` link it in one of the two lists, `nextHash` in its bucket. */
  class LRUHandle {
    const key: Bytes
    const hash: nat
    const charge: nat
    var nextHash: LRUHandle?
    var next: LRUHandle?
    var prev: LRUHandle?
    var inCache: bool
    var refs: nat

    constructor (key: Bytes, hash: nat, charge: nat)
      ensures this.key == key && this.hash == hash && this.charge == charge && nextHash == null && !inCache && refs == 1
    {
      this.key, this.hash, this.charge := key, hash, charge;
      nextHash, next, prev, inCache, refs := null, null, null, false, 1;
    }
  }

  predicate Matches(h: LRUHandle, key: Bytes, hash: nat) {
    h.hash == hash && h.key == key
  }

  // ---- Chains ----

  function After(s: seq<LRUHandle>, i: nat): LRUHandle?
    requires i < |s|
  {
    if i + 1 < |s| then s[i + 1] else null
  }

  function First(s: seq<LRUHandle>): LRUHandle? {
    if s == [] then null else s[0]
  }

  // The handles of s, in that order, linked by nextHash.
  ghost predicate Chain(first: LRUHandle?, s: seq<LRUHandle>)
    reads s`nextHash
  {
    first == First(s) && Distinct(s) && forall i :: 0 <= i < |s| ==> s[i].nextHash == After(s, i)
  }

  // The chains hold the entries, each in its bucket.
  ghost predicate Placed(chains: seq<seq<LRUHandle>>, entries: set<LRUHandle>)
    requires |chains| > 0
  {
    && (forall b :: 0 <= b < |chains| ==> forall h :: h in chains[b] ==> h in entries && h.hash % |chains| == b)
    && (forall h :: h in entries ==> h in chains[h.hash % |chains|])
    && OnePerKey(entries)
  }

  ghost predicate OnePerKey(entries: set<LRUHandle>) {
    forall h, h' :: h in entries && h' in entries && Matches(h', h.key, h.hash) ==> h == h'
  }

  lemma {:induction false} RemovedPlaced(chains: seq<seq<LRUHandle>>, entries: set<LRUHandle>, b: nat, i: nat)
    requires |chains| > 0 && Placed(chains, entries) && b < |chains| && i < |chains[b]| && Distinct(chains[b])
    ensures Placed(chains[b := Without(chains[b], i)], entries - {chains[b][i]})
  {
    var c, h := chains[b], chains[b][i];
    var c', chains', entries' := Without(c, i), chains[b := Without(c, i)], entries - {h};
    forall x ensures x in c' <==> x in c && x != h { WithoutHas(c, i, x); }
    assert forall b' :: 0 <= b' < |chains| && b' != b ==> chains'[b'] == chains[b'];
    forall b' | 0 <= b' < |chains'| ensures forall x :: x in chains'[b'] ==> x in entries' && x.hash % |chains'| == b' {
      assert h in chains[b];
    }
  }

  lemma {:induction false} AfterWithout(s: seq<LRUHandle>, i: nat, j: nat)
    requires i < |s| && j < |s| - 1
    ensures After(Without(s, i), j) == After(s, if j + 1 < i then j else j + 1)
    ensures Without(s, i)[j] == s[if j < i then j else j + 1]
  {
  }

  // The slot that pointed to s[i] points past it.
  lemma {:induction false} Cut(s: seq<LRUHandle>, i: nat, first: LRUHandle?)
    requires i < |s| && Distinct(s)
    requires first == if i == 0 then After(s, 0) else First(s)
    requires forall j :: 0 <= j < |s| ==> s[j].nextHash == if j == i - 1 then After(s, i) else After(s, j)
    ensures Chain(first, Without(s, i))
  {
    hide Distinct, Without, After, First;
    var s' := Without(s, i);
    WithoutDistinct(s, i);
    WithoutSize(s, i);
    forall j | 0 <= j < |s'| ensures s'[j].nextHash == After(s', j) {
      AfterWithout(s, i, j);
    }
  }

  lemma {:induction false} WithoutSize(s: seq<LRUHandle>, i: nat)
    requires i < |s|
    ensures |Without(s, i)| == |s| - 1
    ensures First(Without(s, i)) == if i == 0 then After(s, 0) else First(s)
  {
  }

  lemma {:induction false} OtherBucket(chains: seq<seq<LRUHandle>>, entries: set<LRUHandle>, b: nat, h: LRUHandle)
    requires |chains| > 0 && Placed(chains, entries) && b < |chains| && h in chains[b]
    ensures h in entries && forall b' :: 0 <= b' < |chains| && b' != b ==> h !in chains[b']
  {
  }

  function Put(s: seq<LRUHandle>, i: nat, h: LRUHandle): seq<LRUHandle>
    requires i <= |s|
  {
    if i < |s| then s[i := h] else s + [h]
  }

  lemma {:induction false} InsertedPlaced(chains: seq<seq<LRUHandle>>, entries: set<LRUHandle>, b: nat, i: nat, h: LRUHandle)
    requires |chains| > 0 && Placed(chains, entries) && b == h.hash % |chains| && i <= |chains[b]| && Distinct(chains[b]) && h !in entries
    requires i < |chains[b]| ==> Matches(chains[b][i], h.key, h.hash)
    requires i == |chains[b]| ==> forall e :: e in entries ==> !Matches(e, h.key, h.hash)
    ensures Placed(chains[b := Put(chains[b], i, h)], (if i < |chains[b]| then entries - {chains[b][i]} else entries) + {h})
  {
    var c := chains[b];
    var c' := Put(c, i, h);
    var chains', entries' := chains[b := c'], (if i < |c| then entries - {c[i]} else entries) + {h};
    forall x ensures x in c' <==> x == h || (x in c && (i < |c| ==> x != c[i])) { PutHas(c, i, h, x); }
    assert i < |c| ==> c[i] in c;
    forall b' | 0 <= b' < |chains'| ensures forall x :: x in chains'[b'] ==> x in entries' && x.hash % |chains'| == b' {
    }
    forall x | x in entries' ensures x in chains'[x.hash % |chains'|] {
    }
    forall x, y | x in entries' && y in entries' && Matches(y, x.key, x.hash) ensures x == y {
    }
  }

  lemma {:induction false} PutHas(s: seq<LRUHandle>, i: nat, h: LRUHandle, x: LRUHandle)
    requires i <= |s| && Distinct(s)
    ensures h !in s ==> (x in Put(s, i, h) <==> x == h || (x in s && (i < |s| ==> x != s[i])))
  {
    if i < |s| && h !in s {
      var s' := s[i := h];
      assert s'[i] == h;
      if x in s && x != s[i] {
        var j :| 0 <= j < |s| && s[j] == x;
        assert s'[j] == x;
      }
    }
  }

  // The slot of position i points to h.
  lemma {:induction false} PutChain(s: seq<LRUHandle>, i: nat, h: LRUHandle, first: LRUHandle?)
    requires i <= |s| && Distinct(s) && h !in s
    requires first == if i == 0 then h else First(s)
    requires h.nextHash == if i < |s| then After(s, i) else null
    requires forall j :: 0 <= j < |s| ==> s[j].nextHash == if j == i - 1 then h else After(s, j)
    ensures Chain(first, Put(s, i, h))
  {
  }

  lemma {:induction false} NotInChains(chains: seq<seq<LRUHandle>>, entries: set<LRUHandle>, h: LRUHandle)
    requires |chains| > 0 && Placed(chains, entries) && h !in entries
    ensures forall b :: 0 <= b < |chains| ==> h !in chains[b]
  {
  }

  lemma {:induction false} Swapped(s: set<LRUHandle>, x: LRUHandle, y: LRUHandle)
    requires x in s && y !in s
    ensures |s - {x} + {y}| == |s|
  {
  }

  lemma {:induction false} EmptyPlaced(chains: seq<seq<LRUHandle>>)
    requires |chains| > 0 && forall b :: 0 <= b < |chains| ==> chains[b] == []
    ensures Placed(chains, {})
  {
  }

  lemma {:induction false} EmptyChains(list: array<LRUHandle?>, chains: seq<seq<LRUHandle>>)
    requires list.Length == |chains| && forall b :: 0 <= b < |chains| ==> list[b] == null && chains[b] == []
    ensures forall b :: 0 <= b < |chains| ==> Chain(list[b], chains[b])
  {
  }

  lemma {:induction false} PushedPlaced(chains: seq<seq<LRUHandle>>, entries: set<LRUHandle>, h: LRUHandle)
    requires |chains| > 0 && Placed(chains, entries) && OnePerKey(entries + {h})
    ensures Placed(chains[h.hash % |chains| := [h] + chains[h.hash % |chains|]], entries + {h})
  {
    hide OnePerKey;
    var b := h.hash % |chains|;
    var c' := [h] + chains[b];
    forall x ensures x in c' <==> x == h || x in chains[b] {
      assert c'[0] == h && c'[1..] == chains[b];
    }
  }

  lemma {:induction false} PushedAfter(s: seq<LRUHandle>, h: LRUHandle)
    ensures First([h] + s) == h && After([h] + s, 0) == First(s)
    ensures forall j :: 0 <= j < |s| ==> After([h] + s, j + 1) == After(s, j)
  {
  }

  lemma {:induction false} ChainHas(first: LRUHandle?, s: seq<LRUHandle>)
    requires Chain(first, s)
    ensures first == (if |s| > 0 then s[0] else null) && Distinct(s)
    ensures forall i :: 0 <= i < |s| ==> s[i].nextHash == After(s, i)
  {
  }

  lemma {:induction false} BucketHas(chains: seq<seq<LRUHandle>>, entries: set<LRUHandle>, b: nat)
    requires |chains| > 0 && Placed(chains, entries) && b < |chains|
    ensures forall h :: h in chains[b] <==> h in entries && h.hash % |chains| == b
  {
  }

  lemma {:induction false} OnlyIn(chains: seq<seq<LRUHandle>>, entries: set<LRUHandle>, b: nat, h: LRUHandle)
    requires |chains| > 0 && Placed(chains, entries) && b < |chains| && h in chains[b]
    ensures forall k :: 0 <= k < |chains| && k != b ==> h !in chains[k]
  {
  }

  lemma {:induction false} SubsetOnePerKey(chains: seq<seq<LRUHandle>>, entries: set<LRUHandle>, s: set<LRUHandle>)
    requires |chains| > 0 && Placed(chains, entries) && s <= entries
    ensures OnePerKey(s)
  {
  }

  lemma {:induction false} NotRepeated(s: seq<LRUHandle>, k: nat)
    requires Distinct(s) && k < |s|
    ensures s[k] !in s[..k] && s[..k + 1] == s[..k] + [s[k]]
    ensures forall j :: k < j < |s| ==> s[j] != s[k]
  {
  }

  lemma {:induction false} AfterIs(s: seq<LRUHandle>, k: nat)
    requires k < |s|
    ensures After(s, k) == if k + 1 < |s| then s[k + 1] else null
  {
  }

  lemma {:induction false} AllInEntries(moved: set<LRUHandle>, entries: set<LRUHandle>, c: seq<LRUHandle>, k: nat, b: nat, n: nat)
    requires k < |c| && n > 0 && (forall h :: h in c ==> h in entries && h.hash % n == b)
    requires forall e :: e in moved ==> (e in entries && e.hash % n < b) || e in c[..k]
    ensures moved + {c[k]} <= entries
  {
    forall e | e in c[..k] ensures e in c {
      var j :| 0 <= j < k && c[j] == e;
    }
  }

  class HandleTable {
    var length: nat
    var elems: nat
    var list: array<LRUHandle?>
    ghost var chains: seq<seq<LRUHandle>>
    ghost var entries: set<LRUHandle>

    ghost predicate Valid()
      reads this, list, entries`nextHash
    {
      && length == list.Length == |chains| > 0
      && elems == |entries|
      && Placed(chains, entries)
      && forall b :: 0 <= b < |chains| ==> Chain(list[b], chains[b])
    }

    lemma {:induction false} KeysDiffer()
      requires Valid()
      ensures OnePerKey(entries)
    {
    }

    constructor ()
      ensures Valid() && entries == {} && fresh(list)
    {
      length, elems := 4, 0;
      list := new LRUHandle?[4](_ => null);
      chains, entries := [[], [], [], []], {};
    }

    /** FindPointer: the slot of the entry, or the null slot at the end of the bucket. The slot is the
        nextHash of `before`, or the bucket itself when that is null. */
    method FindPointer(key: Bytes, hash: nat) returns (b: nat, before: LRUHandle?, found: LRUHandle?, ghost i: nat)
      requires Valid()
      ensures b == hash % length && i <= |chains[b]| && Distinct(chains[b])
      ensures before == if i == 0 then null else chains[b][i - 1]
      ensures found == if i < |chains[b]| then chains[b][i] else null
      ensures found != null ==> found in entries && Matches(found, key, hash) && found.nextHash == After(chains[b], i)
      ensures found == null ==> forall h :: h in entries ==> !Matches(h, key, hash)
    {
      b, before, i := hash % length, null, 0;
      found := list[b];
      while found != null && !Matches(found, key, hash)
        invariant i <= |chains[b]|
        invariant before == if i == 0 then null else chains[b][i - 1]
        invariant found == if i < |chains[b]| then chains[b][i] else null
        invariant forall j :: 0 <= j < i ==> !Matches(chains[b][j], key, hash)
        decreases |chains[b]| - i
      {
        before, found := found, found.nextHash;
        i := i + 1;
      }
      if found != null {
        assert found in chains[b];
      } else {
        forall h | h in entries ensures !Matches(h, key, hash) {
          if h.hash == hash {
            assert h in chains[b];
          }
        }
      }
    }

    method Lookup(key: Bytes, hash: nat) returns (found: LRUHandle?)
      requires Valid()
      ensures found != null ==> found in entries && Matches(found, key, hash)
      ensures found == null ==> forall h :: h in entries ==> !Matches(h, key, hash)
    {
      var b, before;
      ghost var i;
      b, before, found, i := FindPointer(key, hash);
    }

    // *ptr = h, for the slot that the chain of bucket b has at position i.
    method SetSlot(b: nat, before: LRUHandle?, h: LRUHandle?, ghost i: nat)
      requires length == list.Length == |chains| > 0 && Placed(chains, entries) && b < length && i <= |chains[b]|
      requires before == if i == 0 then null else chains[b][i - 1]
      requires forall b' :: 0 <= b' < |chains| ==> Chain(list[b'], chains[b'])
      modifies list, entries`nextHash
      ensures forall b' :: 0 <= b' < |chains| && b' != b ==> Chain(list[b'], chains[b'])
      ensures list[b] == if i == 0 then h else First(chains[b])
      ensures forall j :: 0 <= j < |chains[b]| ==> chains[b][j].nextHash == if j == i - 1 then h else After(chains[b], j)
    {
      hide Placed, OnePerKey, First, After;
      if i > 0 {
        OtherBucket(chains, entries, b, before);
      }
      assert Chain(list[b], chains[b]);
      if before == null {
        list[b] := h;
      } else {
        before.nextHash := h;
      }
      forall b' | 0 <= b' < |chains| && b' != b ensures Chain(list[b'], chains[b']) {
        assert old(Chain(list[b'], chains[b']));
      }
    }

    method Remove(key: Bytes, hash: nat) returns (result: LRUHandle?)
      requires Valid()
      modifies this, list, entries`nextHash
      ensures Valid() && list == old(list)
      ensures result == null ==> entries == old(entries) && forall h :: h in entries ==> !Matches(h, key, hash)
      ensures result != null ==> result in old(entries) && Matches(result, key, hash) && entries == old(entries) - {result}
    {
      hide Placed, OnePerKey, Distinct, Without, After, First, Matches, Chain;
      var b, before;
      ghost var i;
      b, before, result, i := FindPointer(key, hash);
      if result != null {
        ghost var c := chains[b];
        RemovedPlaced(chains, entries, b, i);
        SetSlot(b, before, result.nextHash, i);
        Cut(c, i, list[b]);
        elems := elems - 1;
        chains, entries := chains[b := Without(c, i)], entries - {result};
      }
    }

    // The last two assignments of Insert to links.
    method PutAt(b: nat, before: LRUHandle?, h: LRUHandle, next: LRUHandle?, ghost i: nat)
      requires length == list.Length == |chains| > 0 && Placed(chains, entries) && b < length && i <= |chains[b]| && Distinct(chains[b])
      requires before == if i == 0 then null else chains[b][i - 1]
      requires next == if i < |chains[b]| then After(chains[b], i) else null
      requires forall b' :: 0 <= b' < |chains| ==> Chain(list[b'], chains[b'])
      requires h !in entries
      modifies this`chains, list, entries`nextHash, h`nextHash
      ensures chains == old(chains)[b := Put(old(chains)[b], i, h)]
      ensures forall b' :: 0 <= b' < |chains| ==> Chain(list[b'], chains[b'])
    {
      hide Placed, OnePerKey, Put, First, After;
      NotInChains(chains, entries, h);
      h.nextHash := next;
      forall b' | 0 <= b' < |chains| ensures Chain(list[b'], chains[b']) {
        assert old(Chain(list[b'], chains[b']));
      }
      SetSlot(b, before, h, i);
      PutChain(chains[b], i, h, list[b]);
      chains := chains[b := Put(chains[b], i, h)];
    }

    /** The entry with the same key and hash that `h` replaces, if there is one. */
    method Insert(h: LRUHandle) returns (replaced: LRUHandle?)
      requires Valid() && h !in entries
      modifies this, list, entries`nextHash, h`nextHash
      ensures Valid() && (list == old(list) || fresh(list))
      ensures replaced == null ==> entries == old(entries) + {h} && forall e :: e in old(entries) ==> !Matches(e, h.key, h.hash)
      ensures replaced != null ==> replaced in old(entries) && Matches(replaced, h.key, h.hash) && entries == old(entries) - {replaced} + {h}
    {
      hide Valid, Matches;
      replaced := InsertInBucket(h);
      if replaced == null && elems > length {
        Resize();
      }
    }

    // Insert before it may resize.
    method InsertInBucket(h: LRUHandle) returns (replaced: LRUHandle?)
      requires Valid() && h !in entries
      modifies this, list, entries`nextHash, h`nextHash
      ensures Valid() && list == old(list)
      ensures replaced == null ==> entries == old(entries) + {h} && forall e :: e in old(entries) ==> !Matches(e, h.key, h.hash)
      ensures replaced != null ==> replaced in old(entries) && Matches(replaced, h.key, h.hash) && entries == old(entries) - {replaced} + {h}
    {
      hide Placed, OnePerKey, Distinct, After, First, Matches, Chain, Put;
      var b, before;
      ghost var i;
      b, before, replaced, i := FindPointer(h.key, h.hash);
      InsertedPlaced(chains, entries, b, i, h);
      PutAt(b, before, h, if replaced == null then null else replaced.nextHash, i);
      if replaced == null {
        entries, elems := entries + {h}, elems + 1;
      } else {
        Swapped(entries, replaced, h);
        entries := entries - {replaced} + {h};
      }
    }

    /** Resize: every entry is pushed on the front of its bucket in the new array. */
    method Resize()
      requires Valid()
      modifies this, entries`nextHash
      ensures Valid() && entries == old(entries) && fresh(list) && elems <= length
    {
      hide Placed, OnePerKey, Chain;
      var newLength := 4;
      while newLength < elems
        invariant newLength > 0
        decreases elems - newLength
      {
        newLength := 2 * newLength;
      }
      var newList := new LRUHandle?[newLength](_ => null);
      ghost var newChains: seq<seq<LRUHandle>>, moved: set<LRUHandle> := seq(newLength, _ => []), {};
      EmptyPlaced(newChains);
      EmptyChains(newList, newChains);
      var count := 0;
      for i := 0 to length
        invariant length == old(length) && list == old(list) && list[..] == old(list[..]) && chains == old(chains) && entries == old(entries)
        invariant fresh(newList) && newList.Length == newLength == |newChains| && elems == old(elems) <= newLength
        invariant Placed(newChains, moved) && forall b :: 0 <= b < |newChains| ==> Chain(newList[b], newChains[b])
        invariant forall e :: e in moved <==> e in entries && e.hash % |chains| < i
        invariant forall j :: i <= j < |chains| ==> Chain(list[j], chains[j])
        invariant count == |moved|
      {
        var n;
        n, newChains, moved := MoveBucket(i, newList, newChains, moved);
        count := count + n;
      }
      assert moved == entries;
      assert elems == count;
      list, length := newList, newLength;
      chains := newChains;
    }

    // The inner loop of Resize.
    method MoveBucket(b: nat, newList: array<LRUHandle?>, ghost newChains: seq<seq<LRUHandle>>, ghost moved: set<LRUHandle>)
      returns (count: nat, ghost newChains': seq<seq<LRUHandle>>, ghost moved': set<LRUHandle>)
      requires length == list.Length == |chains| && b < length && Placed(chains, entries) && newList != list
      requires newList.Length == |newChains| > 0 && Placed(newChains, moved)
      requires forall k :: 0 <= k < |newChains| ==> Chain(newList[k], newChains[k])
      requires forall e :: e in moved <==> e in entries && e.hash % |chains| < b
      requires forall j :: b <= j < |chains| ==> Chain(list[j], chains[j])
      modifies newList, entries`nextHash
      ensures |newChains'| == |newChains| && Placed(newChains', moved')
      ensures forall k :: 0 <= k < |newChains'| ==> Chain(newList[k], newChains'[k])
      ensures forall e :: e in moved' <==> e in entries && e.hash % |chains| <= b
      ensures forall j :: b < j < |chains| ==> Chain(list[j], chains[j])
      ensures |moved'| == |moved| + count
    {
      hide Placed, OnePerKey, Chain, First, After, Distinct;
      count, newChains', moved' := 0, newChains, moved;
      ghost var c, k := chains[b], 0;
      ChainHas(list[b], c);
      BucketHas(chains, entries, b);
      var h := list[b];
      while h != null
        invariant k <= |c| && h == (if k < |c| then c[k] else null)
        invariant forall j :: k <= j < |c| ==> c[j].nextHash == After(c, j)
        invariant |newChains'| == |newChains| && Placed(newChains', moved')
        invariant forall k :: 0 <= k < |newChains'| ==> Chain(newList[k], newChains'[k])
        invariant forall e :: e in moved' <==> e in moved || e in c[..k]
        invariant |moved'| == |moved| + count
        invariant forall j :: b < j < |chains| ==> Chain(list[j], chains[j])
        decreases |c| - k
      {
        assert h in c;
        NotRepeated(c, k);
        OnlyIn(chains, entries, b, h);
        AllInEntries(moved', entries, c, k, b, |chains|);
        SubsetOnePerKey(chains, entries, moved' + {h});
        var next := h.nextHash;
        AfterIs(c, k);
        newChains' := PushFront(newList, h, newChains', moved');
        moved', count, k := moved' + {h}, count + 1, k + 1;
        h := next;
      }
      assert c[..k] == c;
    }

    static method PushFront(list: array<LRUHandle?>, h: LRUHandle, ghost chains: seq<seq<LRUHandle>>, ghost entries: set<LRUHandle>)
      returns (ghost chains': seq<seq<LRUHandle>>)
      requires list.Length == |chains| > 0 && Placed(chains, entries) && h !in entries && OnePerKey(entries + {h})
      requires forall k :: 0 <= k < |chains| ==> Chain(list[k], chains[k])
      modifies list, h`nextHash
      ensures |chains'| == |chains| && Placed(chains', entries + {h})
      ensures forall k :: 0 <= k < |chains'| ==> Chain(list[k], chains'[k])
    {
      hide Placed, OnePerKey, First, After;
      ghost var b := h.hash % |chains|;
      PushedPlaced(chains, entries, h);
      NotInChains(chains, entries, h);
      PushedAfter(chains[b], h);
      chains' := chains[b := [h] + chains[b]];
      var slot := h.hash % list.Length;
      h.nextHash := list[slot];
      list[slot] := h;
      forall k | 0 <= k < |chains'| ensures Chain(list[k], chains'[k]) {
        assert old(Chain(list[k], chains[k]));
      }
    }
  }
}
