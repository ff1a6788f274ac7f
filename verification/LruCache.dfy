/** One shard of the LRU cache (util/cache.cc): reference counts, the two lists, eviction. */
module LruCaches {
  import opened Coding
  import opened Circles
  import opened HandleTables
  import opened LruLists

  // ---- The cache as a value ----

  // lru: cached and not in use, oldest first; inUse: cached and referenced by clients; clients: the handles
  // that clients hold, as often as they hold them; deleted: the calls of the deleter.
  datatype CacheState = CacheState(lru: seq<LRUHandle>, inUse: seq<LRUHandle>, clients: multiset<LRUHandle>, deleted: seq<LRUHandle>)

  function Minus(s: seq<LRUHandle>, e: LRUHandle): (r: seq<LRUHandle>)
    ensures |r| <= |s| && (e in s ==> |r| < |s|)
  {
    if s == [] then [] else if s[0] == e then s[1..] else [s[0]] + Minus(s[1..], e)
  }

  function Charges(s: seq<LRUHandle>): nat {
    if s == [] then 0 else s[0].charge + Charges(s[1..])
  }

  function Usage(s: CacheState): nat {
    Charges(s.lru) + Charges(s.inUse)
  }

  function Listed(s: CacheState): set<LRUHandle> {
    (set e | e in s.lru) + (set e | e in s.inUse)
  }

  function HandlesOf(s: CacheState): set<LRUHandle> {
    Listed(s) + (set e | e in s.clients)
  }

  // Every entry that is still about, or has been deleted.
  function Known(s: CacheState): set<LRUHandle> {
    HandlesOf(s) + set e | e in s.deleted
  }

  predicate Cached(s: CacheState, e: LRUHandle) {
    e in s.lru || e in s.inUse
  }

  function FindIn(s: seq<LRUHandle>, key: Bytes, hash: nat): (r: LRUHandle?)
    ensures r != null ==> r in s && Matches(r, key, hash)
    ensures r == null ==> forall e :: e in s ==> !Matches(e, key, hash)
  {
    if s == [] then null else if Matches(s[0], key, hash) then s[0] else FindIn(s[1..], key, hash)
  }

  // A client gets a handle of a cached entry.
  function Referenced(s: CacheState, e: LRUHandle): CacheState {
    var clients := s.clients + multiset{e};
    if e in s.lru then s.(lru := Minus(s.lru, e), inUse := s.inUse + [e], clients := clients)
    else s.(clients := clients)
  }

  // One reference less: the entry is deleted, or not in use any more, or neither.
  function Unreferenced(s: CacheState, e: LRUHandle): CacheState {
    if e in s.clients then s
    else if e in s.inUse then s.(inUse := Minus(s.inUse, e), lru := s.lru + [e])
    else s.(deleted := s.deleted + [e])
  }

  function Returned(s: CacheState, e: LRUHandle): CacheState {
    s.(clients := s.clients - multiset{e})
  }

  // A client gives a handle back.
  function Released(s: CacheState, e: LRUHandle): CacheState {
    Unreferenced(Returned(s, e), e)
  }

  function Unlisted(s: CacheState, e: LRUHandle): CacheState {
    s.(lru := Minus(s.lru, e), inUse := Minus(s.inUse, e))
  }

  // The cache lets go of an entry.
  function Dropped(s: CacheState, e: LRUHandle): CacheState {
    Unreferenced(Unlisted(s, e), e)
  }

  // Nothing but the client holds the entry.
  function HandedOut(s: CacheState, e: LRUHandle): CacheState {
    s.(clients := s.clients + multiset{e})
  }

  // The oldest unused entries go until the rest fits.
  function Evicted(s: CacheState, capacity: nat): CacheState
    decreases |s.lru| + |s.inUse|
  {
    if Usage(s) <= capacity || s.lru == [] then s else Evicted(Dropped(s, s.lru[0]), capacity)
  }

  function Emptied(s: CacheState): CacheState
    decreases |s.lru| + |s.inUse|
  {
    if s.lru == [] then s else Emptied(Dropped(s, s.lru[0]))
  }

  // A new entry goes to the entries in use.
  function Added(s: CacheState, e: LRUHandle): CacheState {
    s.(inUse := s.inUse + [e], clients := s.clients + multiset{e})
  }

  // A new entry takes the place of the one with its key, if the cache keeps entries at all.
  function Inserted(s: CacheState, e: LRUHandle, capacity: nat): CacheState {
    var added := if capacity > 0 then Added(s, e) else HandedOut(s, e);
    var old' := FindIn(s.lru + s.inUse, e.key, e.hash);
    Evicted(if capacity > 0 && old' != null then Dropped(added, old') else added, capacity)
  }

  // ---- The rules of the two lists ----

  // `but`: an entry whose count is being changed.
  ghost predicate Consistent(s: CacheState, but: LRUHandle?) {
    && Distinct(s.lru) && Distinct(s.inUse) && Distinct(s.deleted)
    && (forall e :: e in s.lru ==> e !in s.inUse)
    && (forall e :: e in s.deleted ==> e !in s.lru && e !in s.inUse && e !in s.clients)
    && (forall e :: e in s.lru ==> e !in s.clients && e != but)
    && (forall e :: e in s.inUse && e != but ==> e in s.clients)
  }

  lemma {:induction false} MinusIs(s: seq<LRUHandle>, i: nat)
    requires i < |s| && Distinct(s)
    ensures Minus(s, s[i]) == Without(s, i) && Charges(s) == Charges(Minus(s, s[i])) + s[i].charge
    decreases i
  {
    hide Distinct, Without;
    var tail := s[1..];
    TailDistinct(s, i);
    if i > 0 {
      MinusIs(tail, i - 1);
    }
  }

  lemma {:induction false} TailDistinct(s: seq<LRUHandle>, i: nat)
    requires i < |s| && Distinct(s)
    ensures Distinct(s[1..]) && (i > 0 ==> s[1..][i - 1] == s[i] && s[0] != s[i])
    ensures Without(s, i) == if i == 0 then s[1..] else [s[0]] + Without(s[1..], i - 1)
  {
  }

  lemma {:induction false} MinusAbsent(s: seq<LRUHandle>, e: LRUHandle)
    requires e !in s
    ensures Minus(s, e) == s
  {
    if s != [] {
      MinusAbsent(s[1..], e);
    }
  }

  lemma {:induction false} MinusHas(s: seq<LRUHandle>, e: LRUHandle)
    requires Distinct(s)
    ensures Distinct(Minus(s, e))
    ensures forall x :: x in Minus(s, e) ==> x in s && x != e
    ensures forall x :: x in s && x != e ==> x in Minus(s, e)
    ensures Charges(s) == Charges(Minus(s, e)) + if e in s then e.charge else 0
  {
    if e in s {
      hide Distinct, Without, Minus, Charges;
      var i :| 0 <= i < |s| && s[i] == e;
      MinusIs(s, i);
      WithoutDistinct(s, i);
      forall x ensures x in Without(s, i) <==> x in s && x != e { WithoutHas(s, i, x); }
    } else {
      MinusAbsent(s, e);
    }
  }

  lemma {:induction false} ChargesAppend(s: seq<LRUHandle>, e: LRUHandle)
    ensures Charges(s + [e]) == Charges(s) + e.charge
  {
    if s != [] {
      assert (s + [e])[1..] == s[1..] + [e];
      ChargesAppend(s[1..], e);
    }
  }

  lemma {:induction false} Appended(s: seq<LRUHandle>, e: LRUHandle)
    ensures Distinct(s) && e !in s ==> Distinct(s + [e])
    ensures forall x :: x in s + [e] ==> x in s || x == e
    ensures forall x :: x in s || x == e ==> x in s + [e]
    ensures Charges(s + [e]) == Charges(s) + e.charge
  {
    hide Charges;
    ChargesAppend(s, e);
  }

  /** Every operation keeps the rules of the lists, calls the deleter at most once for an entry, and
      loses no entry without that call. */
  lemma {:induction false} ReferencedConsistent(s: CacheState, e: LRUHandle)
    requires Consistent(s, null) && e in Listed(s)
    ensures Consistent(Referenced(s, e), null) && Usage(Referenced(s, e)) == Usage(s)
  {
    hide Distinct, Minus, Charges;
    MinusHas(s.lru, e);
    Appended(s.inUse, e);
  }

  lemma {:induction false} UnreferencedConsistent(s: CacheState, e: LRUHandle)
    requires Consistent(s, e) && e !in s.deleted
    ensures Consistent(Unreferenced(s, e), null) && Usage(Unreferenced(s, e)) == Usage(s)
    ensures Listed(Unreferenced(s, e)) == Listed(s)
  {
    hide Distinct, Minus, Charges;
    MinusHas(s.inUse, e);
    Appended(s.lru, e);
    Appended(s.deleted, e);
    var t := Unreferenced(s, e);
    assert Distinct(t.lru) && Distinct(t.inUse) && Distinct(t.deleted);
  }

  lemma {:induction false} ReturnedConsistent(s: CacheState, e: LRUHandle)
    requires Consistent(s, null) && e in s.clients
    ensures Consistent(Returned(s, e), e) && e !in s.deleted
  {
    hide Distinct;
    LessOne(s.clients, e);
  }

  lemma {:induction false} ReleasedConsistent(s: CacheState, e: LRUHandle)
    requires Consistent(s, null) && e in s.clients
    ensures Consistent(Released(s, e), null) && Usage(Released(s, e)) == Usage(s)
    ensures Listed(Released(s, e)) == Listed(s)
  {
    hide Consistent, Unreferenced;
    ReturnedConsistent(s, e);
    UnreferencedConsistent(Returned(s, e), e);
  }

  lemma {:induction false} UnlistedConsistent(s: CacheState, e: LRUHandle)
    requires Consistent(s, null) && e in Listed(s)
    ensures Consistent(Unlisted(s, e), e) && Usage(Unlisted(s, e)) == Usage(s) - e.charge && e !in s.deleted
    ensures Listed(Unlisted(s, e)) == Listed(s) - {e}
  {
    hide Distinct, Minus, Charges;
    MinusHas(s.inUse, e);
    MinusHas(s.lru, e);
    var t := Unlisted(s, e);
    assert Distinct(t.lru) && Distinct(t.inUse);
  }

  lemma {:induction false} DroppedConsistent(s: CacheState, e: LRUHandle)
    requires Consistent(s, null) && e in Listed(s)
    ensures Consistent(Dropped(s, e), null) && Usage(Dropped(s, e)) == Usage(s) - e.charge
    ensures Listed(Dropped(s, e)) == Listed(s) - {e}
  {
    hide Consistent, Unreferenced, Usage, Listed, Minus;
    UnlistedConsistent(s, e);
    assert Unlisted(s, e).deleted == s.deleted;
    UnreferencedConsistent(Unlisted(s, e), e);
  }

  lemma {:induction false} DroppedHandles(s: CacheState, e: LRUHandle)
    requires Consistent(s, null) && e in Listed(s)
    ensures HandlesOf(Dropped(s, e)) <= HandlesOf(s)
  {
    hide Consistent, Listed, Minus;
    DroppedConsistent(s, e);
    assert Dropped(s, e).clients == s.clients;
  }

  lemma {:induction false} LessOne(clients: multiset<LRUHandle>, e: LRUHandle)
    requires e in clients
    ensures forall x :: x != e ==> (x in clients - multiset{e} <==> x in clients)
    ensures forall x :: x in clients - multiset{e} ==> x in clients
  {
  }

  lemma {:induction false} DroppedOldest(s: CacheState)
    requires Consistent(s, null) && s.lru != []
    ensures Dropped(s, s.lru[0]) == s.(lru := s.lru[1..], deleted := s.deleted + [s.lru[0]])
  {
    hide Distinct, Charges;
    MinusAbsent(s.inUse, s.lru[0]);
  }

  /** What eviction does: some of the oldest unused entries are deleted, oldest first, no more than
      necessary; then the rest fits or nothing unused is left. Entries in use stay. */
  lemma {:induction false} EvictedIs(s: CacheState, capacity: nat) returns (n: nat)
    requires Consistent(s, null)
    ensures n <= |s.lru| && Evicted(s, capacity) == s.(lru := s.lru[n..], deleted := s.deleted + s.lru[..n])
    ensures Consistent(Evicted(s, capacity), null)
    ensures Usage(Evicted(s, capacity)) <= capacity || Evicted(s, capacity).lru == []
    ensures forall k :: 0 <= k < n ==> Usage(s.(lru := s.lru[k..])) > capacity
    decreases |s.lru|
  {
    hide Consistent, Dropped, Charges;
    if Usage(s) <= capacity || s.lru == [] {
      n := 0;
      assert s.lru[0..] == s.lru && s.deleted + [] == s.deleted;
    } else {
      var e := s.lru[0];
      var t := Dropped(s, e);
      DroppedConsistent(s, e);
      DroppedOldest(s);
      var m := EvictedIs(t, capacity);
      n := m + 1;
      assert s.lru[1..][m..] == s.lru[n..];
      assert s.deleted + [e] + s.lru[1..][..m] == s.deleted + s.lru[..n];
      forall k | 0 <= k < n ensures Usage(s.(lru := s.lru[k..])) > capacity {
        if k == 0 {
          assert s.lru[0..] == s.lru;
        } else {
          assert s.lru[1..][k - 1..] == s.lru[k..];
        }
      }
    }
  }

  lemma {:induction false} InsertedConsistent(s: CacheState, e: LRUHandle, capacity: nat)
    requires Consistent(s, null) && !Cached(s, e) && e !in s.clients && e !in s.deleted
    ensures Consistent(Inserted(s, e, capacity), null)
    ensures Usage(Inserted(s, e, capacity)) <= capacity || Inserted(s, e, capacity).lru == []
    ensures e in Inserted(s, e, capacity).clients && (capacity > 0 ==> e in Inserted(s, e, capacity).inUse)
  {
    hide Distinct, Charges, Minus, FindIn, Evicted;
    var added := if capacity > 0 then Added(s, e) else HandedOut(s, e);
    Appended(s.inUse, e);
    assert Consistent(added, null) && (capacity > 0 ==> e in added.inUse);
    var old' := FindIn(s.lru + s.inUse, e.key, e.hash);
    if capacity > 0 && old' != null {
      assert Cached(s, old');
      DroppedConsistent(added, old');
      MinusHas(added.inUse, old');
      var n := EvictedIs(Dropped(added, old'), capacity);
    } else {
      var n := EvictedIs(added, capacity);
    }
  }

  // ---- What is cached after an insert ----

  lemma {:induction false} EvictedListed(s: CacheState, capacity: nat)
    requires Consistent(s, null)
    ensures Listed(Evicted(s, capacity)) <= Listed(s) && Evicted(s, capacity).inUse == s.inUse && Evicted(s, capacity).clients == s.clients
  {
    hide Consistent, Evicted, Usage;
    var n := EvictedIs(s, capacity);
  }

  /** With capacity 0 an insert caches nothing: the entry is the client's alone. Otherwise the entry is
      cached and in use, and no other entry of its key is. */
  lemma {:induction false} InsertedCaches(s: CacheState, e: LRUHandle, capacity: nat)
    requires Consistent(s, null) && !Cached(s, e) && e !in s.clients && e !in s.deleted && OnePerKey(Listed(s))
    ensures
      var t := Inserted(s, e, capacity);
      && t.clients == s.clients + multiset{e}
      && (capacity == 0 ==> e !in Listed(t) && Listed(t) <= Listed(s))
      && (capacity > 0 ==> e in t.inUse && (forall x :: x in Listed(t) && x != e ==> x in Listed(s) && !Matches(x, e.key, e.hash)))
  {
    hide Consistent, Evicted, FindIn, Dropped, Usage, Known;
    var added := if capacity > 0 then Added(s, e) else HandedOut(s, e);
    AddedKnown(s, e, added);
    AddedListed(s, e, added);
    var old' := FindIn(s.lru + s.inUse, e.key, e.hash);
    if capacity > 0 && old' != null {
      DroppedKeeps(added, old');
      EvictedListed(Dropped(added, old'), capacity);
      OneOfKey(s, old', e.key, e.hash);
      StaysInUse(s, e, old');
    } else {
      EvictedListed(added, capacity);
    }
  }

  lemma {:induction false} AddedListed(s: CacheState, e: LRUHandle, added: CacheState)
    requires added == Added(s, e) || added == HandedOut(s, e)
    ensures added == Added(s, e) ==> Listed(added) == Listed(s) + {e} && e in added.inUse
    ensures added == HandedOut(s, e) && added != Added(s, e) ==> Listed(added) == Listed(s)
    ensures added.clients == s.clients + multiset{e}
  {
    Appended(s.inUse, e);
  }

  lemma {:induction false} DroppedKeeps(s: CacheState, e: LRUHandle)
    requires Consistent(s, null) && e in Listed(s)
    ensures Consistent(Dropped(s, e), null) && Listed(Dropped(s, e)) == Listed(s) - {e} && Dropped(s, e).clients == s.clients
  {
    hide Consistent, Listed;
    DroppedConsistent(s, e);
    UnreferencedClients(Unlisted(s, e), e);
  }

  lemma {:induction false} OneOfKey(s: CacheState, h: LRUHandle, key: Bytes, hash: nat)
    requires OnePerKey(Listed(s)) && h in Listed(s) && Matches(h, key, hash)
    ensures forall x :: x in Listed(s) && x != h ==> !Matches(x, key, hash)
  {
    hide Listed;
  }

  lemma {:induction false} StaysInUse(s: CacheState, e: LRUHandle, h: LRUHandle)
    requires Consistent(Added(s, e), null) && !Cached(s, e) && h in Listed(s)
    ensures e in Dropped(Added(s, e), h).inUse
  {
    hide Distinct, Minus;
    MinusHas(s.inUse + [e], h);
    MinusHas(Minus(s.inUse + [e], h), h);
  }

  // ---- No entry is lost ----

  lemma {:induction false} ReferencedKnown(s: CacheState, e: LRUHandle)
    requires Consistent(s, null) && e in Listed(s)
    ensures Known(Referenced(s, e)) == Known(s)
  {
    hide Consistent, Referenced, Listed;
    ReferencedIs(s, e);
    MoreOne(s.clients, e);
    assert e in HandlesOf(s);
  }

  lemma {:induction false} MoreOne(clients: multiset<LRUHandle>, e: LRUHandle)
    ensures (set x | x in clients + multiset{e}) == (set x | x in clients) + {e}
  {
  }

  // The entry whose reference goes is known afterwards, whether or not it is deleted.
  lemma {:induction false} UnreferencedKnown(s: CacheState, e: LRUHandle)
    requires Consistent(s, e) && e !in s.deleted
    ensures Known(Unreferenced(s, e)) == Known(s) + {e}
  {
    hide Consistent, Minus, Charges;
    UnreferencedConsistent(s, e);
    hide Listed;
    Appended(s.deleted, e);
    assert e in s.inUse ==> e in Listed(s);
  }

  lemma {:induction false} ReturnedKnown(s: CacheState, e: LRUHandle)
    requires e in s.clients
    ensures Known(Returned(s, e)) + {e} == Known(s)
  {
    LessOne(s.clients, e);
    assert s.clients == (s.clients - multiset{e}) + multiset{e};
    MoreOne(s.clients - multiset{e}, e);
  }

  lemma {:induction false} ReleasedKnown(s: CacheState, e: LRUHandle)
    requires Consistent(s, null) && e in s.clients
    ensures Known(Released(s, e)) == Known(s)
  {
    hide Consistent, Known, Unreferenced;
    ReturnedConsistent(s, e);
    UnreferencedKnown(Returned(s, e), e);
    ReturnedKnown(s, e);
  }

  lemma {:induction false} DroppedKnown(s: CacheState, e: LRUHandle)
    requires Consistent(s, null) && e in Listed(s)
    ensures Known(Dropped(s, e)) == Known(s)
  {
    hide Consistent, Known, Unreferenced, Listed, Minus;
    UnlistedConsistent(s, e);
    UnreferencedKnown(Unlisted(s, e), e);
    UnlistedKnown(s, e);
  }

  lemma {:induction false} UnlistedKnown(s: CacheState, e: LRUHandle)
    requires Consistent(s, null) && e in Listed(s)
    ensures Known(Unlisted(s, e)) + {e} == Known(s)
  {
    hide Consistent, Listed, Minus;
    UnlistedConsistent(s, e);
  }

  lemma {:induction false} EvictedKnown(s: CacheState, capacity: nat)
    requires Consistent(s, null)
    ensures Known(Evicted(s, capacity)) == Known(s)
    decreases |s.lru|
  {
    hide Consistent, Known, Dropped, Usage;
    if Usage(s) > capacity && s.lru != [] {
      DroppedConsistent(s, s.lru[0]);
      DroppedKnown(s, s.lru[0]);
      DroppedOldest(s);
      EvictedKnown(Dropped(s, s.lru[0]), capacity);
    }
  }

  lemma {:induction false} EmptiedKnown(s: CacheState)
    requires Consistent(s, null)
    ensures Known(Emptied(s)) == Known(s)
    decreases |s.lru|
  {
    hide Consistent, Known, Dropped;
    if s.lru != [] {
      DroppedConsistent(s, s.lru[0]);
      DroppedKnown(s, s.lru[0]);
      DroppedOldest(s);
      EmptiedKnown(Dropped(s, s.lru[0]));
    }
  }

  lemma {:induction false} InsertedKnown(s: CacheState, e: LRUHandle, capacity: nat)
    requires Consistent(s, null) && !Cached(s, e) && e !in s.clients && e !in s.deleted
    ensures Known(Inserted(s, e, capacity)) == Known(s) + {e}
  {
    hide Consistent, Known, HandlesOf, Dropped, Evicted, FindIn, Minus, Usage;
    var added := if capacity > 0 then Added(s, e) else HandedOut(s, e);
    AddedKnown(s, e, added);
    var old' := FindIn(s.lru + s.inUse, e.key, e.hash);
    if capacity > 0 && old' != null {
      assert old' in Listed(added);
      DroppedConsistent(added, old');
      DroppedKnown(added, old');
      EvictedKnown(Dropped(added, old'), capacity);
    } else {
      EvictedKnown(added, capacity);
    }
  }

  lemma {:induction false} AddedKnown(s: CacheState, e: LRUHandle, added: CacheState)
    requires Consistent(s, null) && !Cached(s, e) && e !in s.clients && e !in s.deleted
    requires added == Added(s, e) || added == HandedOut(s, e)
    ensures Consistent(added, null) && Known(added) == Known(s) + {e}
    ensures forall x :: Cached(s, x) ==> Cached(added, x)
  {
    hide Distinct;
    Appended(s.inUse, e);
    MoreOne(s.clients, e);
  }

  lemma {:induction false} CountDistinct(s: seq<LRUHandle>, e: LRUHandle)
    requires Distinct(s)
    ensures multiset(s)[e] == if e in s then 1 else 0
  {
    if s != [] {
      assert s == [s[0]] + s[1..];
      TailDistinct(s, 0);
      CountDistinct(s[1..], e);
    }
  }

  /** The deleter's calls: none for an entry that the cache or a client still holds, exactly one for
      every other entry there ever was. */
  lemma {:induction false} DeletedOnce(s: CacheState, e: LRUHandle)
    requires Consistent(s, null) && e in Known(s)
    ensures multiset(s.deleted)[e] == if e in HandlesOf(s) then 0 else 1
  {
    CountDistinct(s.deleted, e);
  }

  ghost predicate HeadsApart(s: CacheState, lru: LRUHandle, inUse: LRUHandle) {
    && lru != inUse && !Cached(s, lru) && !Cached(s, inUse)
    && lru !in s.clients && inUse !in s.clients && lru !in s.deleted && inUse !in s.deleted
  }

  // ---- The cache in memory ----

  lemma {:induction false} Alone(h: LRUHandle)
    requires h.next == h && h.prev == h
    ensures Ring([h])
  {
  }

  lemma {:induction false} NothingListed()
    ensures
      var s := CacheState([], [], multiset{}, []);
      Consistent(s, null) && Listed(s) == {} && Usage(s) == 0
  {
  }

  class LRUCache {
    var capacity: nat
    var usage: nat
    const lru: LRUHandle      // dummy heads
    const inUse: LRUHandle
    const table: HandleTable
    ghost var state: CacheState
    ghost var created: set<LRUHandle>     // every entry that Insert ever made

    ghost function Handles(): set<LRUHandle>
      reads this
    {
      HandlesOf(state)
    }

    // `missing`: listed, but not in the table; `but`: has one reference that neither a client nor the cache holds.
    ghost predicate Inv(missing: set<LRUHandle>, but: LRUHandle?)
      reads this, table, table.list, lru, inUse, table.entries, Handles()
    {
      && table.Valid()
      && Consistent(state, but)
      && Ring([lru] + state.lru) && Ring([inUse] + state.inUse)
      && HeadsApart(state, lru, inUse)
      && Listed(state) == table.entries + missing && missing !! table.entries
      && Counted(state, but)
      && usage == Usage(state)
    }

    // References are those of clients, and one of the cache if it holds the entry.
    static ghost predicate Counted(s: CacheState, but: LRUHandle?)
      reads Listed(s)`refs, Listed(s)`inCache, (set e | e in s.clients)`refs, (set e | e in s.clients)`inCache
    {
      && (forall e :: e in Listed(s) ==> e.inCache && e.refs == s.clients[e] + 1 + if e == but then 1 else 0)
      && (forall e :: e in s.clients && e !in Listed(s) ==> !e.inCache && e.refs == s.clients[e] + if e == but then 1 else 0)
    }

    ghost predicate Sound()
      reads this, table, table.list, lru, inUse, table.entries, Handles()
    {
      Inv({}, null)
    }

    // No entry that was ever made has been lost without a call of the deleter.
    ghost predicate Valid()
      reads this, table, table.list, lru, inUse, table.entries, Handles()
    {
      Sound() && created == Known(state)
    }

    constructor (capacity: nat)
      ensures Valid() && this.capacity == capacity && state == CacheState([], [], multiset{}, [])
      ensures fresh(table) && fresh(table.list) && fresh(lru) && fresh(inUse)
    {
      hide Ring, Distinct, HandleTable.Valid, Consistent, Usage, Listed;
      this.capacity, usage := capacity, 0;
      var h := new LRUHandle([], 0, 0);
      var g := new LRUHandle([], 0, 0);
      var t := new HandleTable();
      lru, inUse, table := h, g, t;
      state, created := CacheState([], [], multiset{}, []), {};
      new;
      lru.next, lru.prev := lru, lru;
      inUse.next, inUse.prev := inUse, inUse;
      Alone(lru);
      Alone(inUse);
      NothingListed();
      assert [lru] + [] == [lru] && [inUse] + [] == [inUse];
    }

    // LRU_Remove from the list of `head`; `other` is the other list.
    method Unlink(ghost head: LRUHandle, e: LRUHandle, ghost s: seq<LRUHandle>, ghost other: seq<LRUHandle>)
      requires Ring([head] + s) && Distinct(s) && e in s && Ring(other) && Disjoint(other, [head] + s)
      modifies ([head] + s)`next, ([head] + s)`prev
      ensures Ring([head] + Minus(s, e)) && Ring(other)
    {
      hide Distinct, Without, Minus, Succ, Pred;
      ghost var i :| 0 <= i < |s| && s[i] == e;
      MinusIs(s, i);
      WithoutHead(head, s, i);
      LRU_Remove(e, [head] + s, i + 1);
      assert forall i :: 0 <= i < |other| ==> other[i].next == old(other[i].next) && other[i].prev == old(other[i].prev);
    }

    // LRU_Append to the list of `head`.
    method Link(head: LRUHandle, e: LRUHandle, ghost s: seq<LRUHandle>, ghost other: seq<LRUHandle>)
      requires Ring([head] + s) && e !in [head] + s && Ring(other) && Disjoint(other, [head] + s + [e])
      modifies ([head] + s)`next, ([head] + s)`prev, e`next, e`prev
      ensures Ring([head] + (s + [e])) && Ring(other)
    {
      hide Distinct, Succ, Pred;
      LRU_Append(head, e, [head] + s);
      assert [head] + s + [e] == [head] + (s + [e]);
      assert forall i :: 0 <= i < |other| ==> other[i] in other;
      assert forall i :: 0 <= i < |other| ==> other[i].next == old(other[i].next) && other[i].prev == old(other[i].prev);
    }

    // From one list to the other.
    method Move(from: LRUHandle, to: LRUHandle, e: LRUHandle, ghost s: seq<LRUHandle>, ghost t: seq<LRUHandle>)
      requires Ring([from] + s) && Ring([to] + t) && Distinct(s) && e in s && Apart(from, to, s, t) && table.Valid()
      modifies ([from] + s)`next, ([from] + s)`prev, ([to] + t)`next, ([to] + t)`prev
      ensures Ring([from] + Minus(s, e)) && Ring([to] + (t + [e])) && table.Valid()
    {
      hide Distinct, Minus, Apart, Ring, Disjoint, HandleTable.Valid;
      ApartHas(from, to, s, t, e);
      Unlink(from, e, s, [to] + t);
      Link(to, e, t, [from] + Minus(s, e));
    }

    /** Ref */
    method Ref(e: LRUHandle)
      requires Sound() && e in table.entries
      modifies this`state, lru, inUse, Handles()
      ensures Sound() && state == Referenced(old(state), e) && table.entries == old(table.entries)
    {
      hide Ring, HandleTable.Valid, Usage, Consistent, Listed, Referenced, HeadsApart, Counted;
      ghost var t := Referenced(state, e);
      ReferencedConsistent(state, e);
      ReferencedHeads(state, e, lru, inUse);
      ToInUse(e);
      assert Ring([lru] + t.lru) && Ring([inUse] + t.inUse);
      AddReference(e);
      assert Ring([lru] + t.lru) && Ring([inUse] + t.inUse);
      state := t;
    }

    method AddReference(e: LRUHandle)
      requires Consistent(state, null) && e in Listed(state) && Counted(state, null)
      modifies e`refs
      ensures Counted(Referenced(state, e), null)
    {
      hide Consistent, Listed, Referenced;
      ReferencedIs(state, e);
      e.refs := e.refs + 1;
    }

    // The entry moves if it is not in use.
    method ToInUse(e: LRUHandle)
      requires Sound() && e in table.entries
      modifies lru`next, lru`prev, inUse`next, inUse`prev, Listed(state)`next, Listed(state)`prev
      ensures table.Valid() && Ring([lru] + Referenced(state, e).lru) && Ring([inUse] + Referenced(state, e).inUse)
    {
      hide Ring, Distinct, HandleTable.Valid, Usage, Minus, Consistent, Listed, Referenced, Apart, HeadsApart;
      ListsOf(state, e, lru, inUse);
      ReferencedIs(state, e);
      if e.refs == 1 && e.inCache {
        Move(lru, inUse, e, state.lru, state.inUse);
      }
    }

    /** Unref, for a reference that is counted neither for a client nor for the cache. */
    method Unref(e: LRUHandle)
      requires Inv({}, e) && e !in state.deleted && e != lru && e != inUse && e.inCache == (e in Listed(state))
      requires e.refs == state.clients[e] + 1 + if e in Listed(state) then 1 else 0
      modifies this`state, lru, inUse, Handles(), e
      ensures Sound() && state == Unreferenced(old(state), e) && table.entries == old(table.entries)
    {
      hide Ring, Distinct, Minus, HandleTable.Valid, Usage, Consistent, Listed, Unreferenced, HeadsApart, Counted, Apart;
      ghost var s, t := state, Unreferenced(state, e);
      UnreferencedConsistent(s, e);
      UnreferencedHeads(s, e, lru, inUse);
      UnreferencedIs(s, e, lru, inUse);
      DropReference(e);
      assert Ring([lru] + s.lru) && Ring([inUse] + s.inUse) && Counted(t, null);
      if e.refs == 0 {
        // the deleter is called
      } else if e.inCache && e.refs == 1 {
        Move(inUse, lru, e, s.inUse, s.lru);
      }
      assert Ring([lru] + t.lru) && Ring([inUse] + t.inUse) && Counted(t, null);
      state := t;
    }

    // --refs
    method DropReference(e: LRUHandle)
      requires Consistent(state, e) && Counted(state, e) && e !in state.deleted
      requires e.refs == state.clients[e] + 1 + if e in Listed(state) then 1 else 0
      modifies e`refs
      ensures Counted(Unreferenced(state, e), null) && e.refs == old(e.refs) - 1
    {
      hide Consistent, Listed, Unreferenced;
      UnreferencedConsistent(state, e);
      UnreferencedClients(state, e);
      e.refs := e.refs - 1;
      ghost var t := Unreferenced(state, e);
      assert Listed(t) == Listed(state) && t.clients == state.clients;
      assert forall x :: x in Listed(t) ==> x.inCache;
      assert forall x :: x in Listed(t) && x != e ==> x.refs == t.clients[x] + 1;
      assert e in Listed(t) ==> e.refs == t.clients[e] + 1;
      assert forall x :: x in t.clients && x !in Listed(t) ==> !x.inCache;
      assert forall x :: x in t.clients && x !in Listed(t) ==> x.refs == t.clients[x];
    }

    /** Release */
    method Release(e: LRUHandle)
      requires Valid() && e in state.clients
      modifies this`state, lru, inUse, Handles()
      ensures Valid() && state == Released(old(state), e) && table.entries == old(table.entries)
    {
      hide Ring, HandleTable.Valid, Usage, Consistent, Listed, Unreferenced, HeadsApart, Counted;
      ReleasedKnown(state, e);
      ReturnedConsistent(state, e);
      ReturnedIs(state, e, lru, inUse);
      state := Returned(state, e);
      Unref(e);
    }

    /** FinishErase, of an entry that has just been removed from the hash table. */
    method FinishErase(e: LRUHandle)
      requires Inv({e}, null)
      modifies this`state, this`usage, lru, inUse, Handles()
      ensures Sound() && state == Dropped(old(state), e) && table.entries == old(table.entries) && Handles() <= old(Handles())
    {
      hide Ring, HandleTable.Valid, Usage, Consistent, Listed, Unreferenced, HeadsApart, Counted;
      ghost var t := Unlisted(state, e);
      DroppedHandles(state, e);
      UnlistedConsistent(state, e);
      UnlistedHeads(state, e, lru, inUse);
      Unlist(e);
      assert Ring([lru] + t.lru) && Ring([inUse] + t.inUse);
      NotInCache(e);
      assert Ring([lru] + t.lru) && Ring([inUse] + t.inUse);
      usage := usage - e.charge;
      state := t;
      Unref(e);
    }

    // in_cache = false
    method NotInCache(e: LRUHandle)
      requires Consistent(state, null) && Counted(state, null) && e in Listed(state)
      modifies e`inCache
      ensures !e.inCache && Counted(Unlisted(state, e), e) && e.refs == state.clients[e] + 1
    {
      hide Consistent, Minus;
      UnlistedConsistent(state, e);
      e.inCache := false;
    }

    // LRU_Remove from whichever list the entry is in.
    method Unlist(e: LRUHandle)
      requires Inv({e}, null)
      modifies lru`next, lru`prev, inUse`next, inUse`prev, Listed(state)`next, Listed(state)`prev
      ensures table.Valid() && Ring([lru] + Unlisted(state, e).lru) && Ring([inUse] + Unlisted(state, e).inUse)
    {
      hide Ring, Distinct, HandleTable.Valid, Usage, Consistent, Listed, HeadsApart, Counted, Minus, Disjoint;
      UnlistedIs(state, e, lru, inUse);
      ghost var head, s, other := lru, state.lru, [inUse] + state.inUse;
      if e !in state.lru {
        head, s, other := inUse, state.inUse, [lru] + state.lru;
      }
      Unlink(head, e, s, other);
    }

    method Lookup(key: Bytes, hash: nat) returns (e: LRUHandle?)
      requires Valid()
      modifies this`state, lru, inUse, Handles()
      ensures Valid() && table.entries == old(table.entries)
      ensures e == null ==> state == old(state) && forall h :: h in Listed(state) ==> !Matches(h, key, hash)
      ensures e != null ==> e in Listed(old(state)) && Matches(e, key, hash) && state == Referenced(old(state), e)
    {
      hide Ring, HandleTable.Valid, Usage, Consistent, Referenced, HeadsApart, Counted;
      e := table.Lookup(key, hash);
      if e != null {
        ReferencedKnown(state, e);
        Ref(e);
      }
    }

    method Erase(key: Bytes, hash: nat)
      requires Valid()
      modifies this`state, this`usage, table, table.list, lru, inUse, Handles()
      ensures Valid() && table.list == old(table.list)
      ensures
        var e := FindIn(old(state).lru + old(state).inUse, key, hash);
        state == if e == null then old(state) else Dropped(old(state), e)
    {
      hide Ring, HandleTable.Valid, Usage, Consistent, Listed, Dropped, HeadsApart, Counted, OnePerKey, FindIn;
      table.KeysDiffer();
      ghost var entries := table.entries;
      var e := table.Remove(key, hash);
      OldEntry(state, entries, e, key, hash);
      if e != null {
        assert Ring([lru] + state.lru) && Ring([inUse] + state.inUse) && Counted(state, null);
        DroppedKnown(state, e);
        FinishErase(e);
      }
    }

    // One turn of the loops of Insert and Prune.
    method EraseOldest()
      requires Sound() && lru.next != lru
      modifies this`state, this`usage, table, table.list, lru, inUse, Handles()
      ensures Sound() && table.list == old(table.list)
      ensures old(state).lru != [] && state == Dropped(old(state), old(state).lru[0]) && Handles() <= old(Handles())
    {
      hide Ring, HandleTable.Valid, Usage, Consistent, Dropped, HeadsApart, Counted, OnePerKey, Matches;
      FirstInRing(lru, state.lru);
      table.KeysDiffer();
      var oldest: LRUHandle := lru.next;
      ghost var entries := table.entries;
      var e := table.Remove(oldest.key, oldest.hash);
      SameKey(entries, oldest, e);
      assert Ring([lru] + state.lru) && Ring([inUse] + state.inUse) && Counted(state, null);
      FinishErase(e);
    }

    /** Prune */
    method Prune()
      requires Valid()
      modifies this`state, this`usage, table, table.list, lru, inUse, Handles()
      ensures Valid() && state == Emptied(old(state)) && state.lru == []
    {
      hide Ring, HandleTable.Valid, Usage, Consistent, Dropped, HeadsApart, Counted, Listed;
      EmptiedKnown(state);
      FirstInRing(lru, state.lru);
      while lru.next != lru
        invariant Sound() && table.list == old(table.list) && Emptied(state) == Emptied(old(state))
        invariant Handles() <= old(Handles()) && (lru.next == lru <==> state.lru == [])
        decreases |state.lru|
      {
        OldestGoes(state);
        EraseOldest();
        FirstInRing(lru, state.lru);
      }
    }

    // A handle that the cache has not seen.
    ghost predicate New(e: LRUHandle)
      reads this
    {
      e !in Listed(state) && e !in state.clients && e !in state.deleted && e != lru && e != inUse
    }

    // The cache's part of Insert, up to FinishErase.
    method AddEntry(e: LRUHandle) returns (replaced: LRUHandle?)
      requires Sound() && New(e) && e.refs == 1 && !e.inCache
      modifies this`state, this`usage, table, table.list, lru, inUse, Handles(), e
      ensures Inv(if replaced == null then {} else {replaced}, null) && state == Added(old(state), e)
      ensures replaced == FindIn(old(state).lru + old(state).inUse, e.key, e.hash)
      ensures (table.list == old(table.list) || fresh(table.list)) && Handles() <= old(Handles()) + {e}
    {
      hide Ring, Distinct, HandleTable.Valid, Usage, Consistent, HeadsApart, Counted, Listed, Added, FindIn, OnePerKey, Disjoint;
      ghost var t, entries := Added(state, e), table.entries;
      ghost var s := state;
      AddedIs(s, e, lru, inUse);
      LinkNew(e);
      usage, state := usage + e.charge, t;
      assert Counted(state, null);
      replaced := PutInTable(e, t);
      assert Counted(state, null);
      OldEntry(s, entries, replaced, e.key, e.hash);
    }

    // The entry is counted, and linked as the newest of those in use.
    method LinkNew(e: LRUHandle)
      requires Sound() && New(e) && e.refs == 1 && !e.inCache
      modifies lru`next, lru`prev, inUse`next, inUse`prev, Listed(state)`next, Listed(state)`prev, e`next, e`prev, e`refs, e`inCache
      ensures Rings(Added(state, e)) && Counted(Added(state, e), null) && table.Valid()
    {
      hide Ring, Distinct, HandleTable.Valid, Usage, Consistent, HeadsApart, Counted, Listed, Disjoint;
      AddedIs(state, e, lru, inUse);
      CountNew(e);
      assert Rings(state);
      ListedHas(state);
      Link(inUse, e, state.inUse, [lru] + state.lru);
    }

    ghost predicate Rings(s: CacheState)
      reads this, lru, inUse, Listed(s)
    {
      Ring([lru] + s.lru) && Ring([inUse] + s.inUse)
    }

    // table_.Insert(e); the lists stay.
    method PutInTable(e: LRUHandle, ghost t: CacheState) returns (replaced: LRUHandle?)
      requires table.Valid() && e !in table.entries && Rings(t)
      modifies table, table.list, table.entries`nextHash, e`nextHash
      ensures table.Valid() && Rings(t) && (table.list == old(table.list) || fresh(table.list))
      ensures OnePerKey(old(table.entries))
      ensures replaced == null ==> table.entries == old(table.entries) + {e} && forall h :: h in old(table.entries) ==> !Matches(h, e.key, e.hash)
      ensures replaced != null ==>
        replaced in old(table.entries) && Matches(replaced, e.key, e.hash) && table.entries == old(table.entries) - {replaced} + {e}
    {
      hide Ring, HandleTable.Valid, OnePerKey, Matches, Listed;
      table.KeysDiffer();
      ghost var r, q := [lru] + t.lru, [inUse] + t.inUse;
      assert Ring(r) && Ring(q);
      replaced := table.Insert(e);
      assert Ring(r) && Ring(q);
    }

    // refs++ and in_cache = true
    method CountNew(e: LRUHandle)
      requires Consistent(state, null) && Counted(state, null) && New(e) && e.refs == 1
      modifies e`refs, e`inCache
      ensures Counted(Added(state, e), null)
    {
      hide Consistent;
      e.refs := e.refs + 1;
      e.inCache := true;
    }

    // With capacity 0 nothing is cached.
    ghost method HandOut(e: LRUHandle)
      requires Sound() && New(e) && e.refs == 1 && !e.inCache
      modifies this`state
      ensures Sound() && state == HandedOut(old(state), e) && Handles() <= old(Handles()) + {e}
    {
      hide Ring, HandleTable.Valid, Usage, Consistent, HeadsApart, Counted, Listed, HandedOut;
      HandedOutIs(state, e, lru, inUse);
      assert Rings(state);
      state := HandedOut(state, e);
    }

    // The loop of Insert.
    method EvictToCapacity()
      requires Sound()
      modifies this`state, this`usage, table, table.list, lru, inUse, Handles()
      ensures Sound() && state == Evicted(old(state), capacity) && table.list == old(table.list)
    {
      hide Ring, HandleTable.Valid, Usage, Consistent, Dropped, HeadsApart, Counted, Listed, Evicted, HandlesOf;
      FirstInRing(lru, state.lru);
      while usage > capacity && lru.next != lru
        invariant Sound() && table.list == old(table.list) && Evicted(state, capacity) == Evicted(old(state), capacity)
        invariant Handles() <= old(Handles()) && (lru.next == lru <==> state.lru == [])
        decreases |state.lru|
      {
        OldestGoes(state);
        EvictedStep(state, capacity);
        EraseOldest();
        FirstInRing(lru, state.lru);
      }
      EvictedStep(state, capacity);
    }

    /** Insert: returns the handle that the client now holds. */
    method Insert(key: Bytes, hash: nat, charge: nat) returns (e: LRUHandle)
      requires Valid()
      modifies this`state, this`created, this`usage, table, table.list, lru, inUse, Handles()
      ensures Valid() && fresh(e) && Matches(e, key, hash) && e.charge == charge
      ensures state == Inserted(old(state), e, capacity)
      ensures created == old(created) + {e} && e !in old(created)
    {
      hide Ring, HandleTable.Valid, Usage, Consistent, Dropped, HeadsApart, Counted, Listed, Added, FindIn, Evicted, HandlesOf, Rings, Known;
      e := new LRUHandle(key, hash, charge);
      assert Sound() && New(e);
      InsertedKnown(state, e, capacity);
      created := created + {e};
      if capacity > 0 {
        var replaced := AddEntry(e);
        if replaced != null {
          FinishErase(replaced);
        }
      } else {
        HandOut(e);
      }
      EvictToCapacity();
    }

    /** Every entry that Insert ever made is cached or held by a client, or the deleter has been
        called for it exactly once. */
    lemma {:induction false} DeleterCalledOnce(e: LRUHandle)
      requires Valid() && e in created
      ensures multiset(state.deleted)[e] == if e in Handles() then 0 else 1
    {
      hide Ring, HandleTable.Valid, Usage, Consistent, HeadsApart, Counted, Listed, HandlesOf;
      DeletedOnce(state, e);
    }
  }

  ghost predicate Apart(from: LRUHandle, to: LRUHandle, s: seq<LRUHandle>, t: seq<LRUHandle>) {
    from != to && from !in s && from !in t && to !in s && to !in t && forall x :: x in s ==> x !in t
  }

  ghost predicate Disjoint(s: seq<LRUHandle>, t: seq<LRUHandle>) {
    forall i :: 0 <= i < |s| ==> s[i] !in t
  }

  lemma {:induction false} ApartHas(from: LRUHandle, to: LRUHandle, s: seq<LRUHandle>, t: seq<LRUHandle>, e: LRUHandle)
    requires Apart(from, to, s, t) && Distinct(s) && e in s
    ensures Disjoint([to] + t, [from] + s) && Disjoint([from] + Minus(s, e), [to] + t + [e])
    ensures e !in [to] + t && e in [from] + s
  {
    hide Distinct, Minus;
    MinusHas(s, e);
    var m := Minus(s, e);
    forall i | 0 <= i < |[from] + m| ensures ([from] + m)[i] !in [to] + t + [e] {
      assert i > 0 ==> m[i - 1] in m;
    }
  }

  lemma {:induction false} WithoutHead(head: LRUHandle, s: seq<LRUHandle>, i: nat)
    requires i < |s|
    ensures ([head] + s)[i + 1] == s[i] && Without([head] + s, i + 1) == [head] + Without(s, i)
  {
  }

  lemma {:induction false} ListsOf(s: CacheState, e: LRUHandle, lru: LRUHandle, inUse: LRUHandle)
    requires Consistent(s, null) && e in Listed(s) && HeadsApart(s, lru, inUse)
    ensures Distinct(s.lru) && Distinct(s.inUse) && Cached(s, e) && Apart(lru, inUse, s.lru, s.inUse)
    ensures forall x :: x in s.lru ==> x in Listed(s)
    ensures forall x :: x in s.inUse ==> x in Listed(s)
    ensures if s.clients[e] == 0 then e in s.lru && e !in s.inUse else e in s.inUse && e !in s.lru
  {
  }

  lemma {:induction false} ReferencedIs(s: CacheState, e: LRUHandle)
    requires Consistent(s, null) && e in Listed(s)
    ensures Cached(s, e)
    ensures Listed(Referenced(s, e)) == Listed(s) && Referenced(s, e).clients == s.clients + multiset{e}
    ensures forall x :: Cached(Referenced(s, e), x) <==> Cached(s, x)
    ensures Referenced(s, e).lru == (if s.clients[e] == 0 then Minus(s.lru, e) else s.lru)
    ensures Referenced(s, e).inUse == (if s.clients[e] == 0 then s.inUse + [e] else s.inUse)
    ensures Referenced(s, e).deleted == s.deleted
  {
    hide Distinct, Minus;
    MinusHas(s.lru, e);
    Appended(s.inUse, e);
  }

  lemma {:induction false} ReferencedHeads(s: CacheState, e: LRUHandle, lru: LRUHandle, inUse: LRUHandle)
    requires Consistent(s, null) && e in Listed(s) && HeadsApart(s, lru, inUse)
    ensures HeadsApart(Referenced(s, e), lru, inUse) && Listed(Referenced(s, e)) == Listed(s)
  {
    hide Referenced;
    ReferencedIs(s, e);
  }

  lemma {:induction false} UnreferencedHeads(s: CacheState, e: LRUHandle, lru: LRUHandle, inUse: LRUHandle)
    requires Consistent(s, e) && HeadsApart(s, lru, inUse) && e != lru && e != inUse
    ensures HeadsApart(Unreferenced(s, e), lru, inUse)
  {
    hide Minus, Distinct;
    MinusHas(s.inUse, e);
    Appended(s.lru, e);
  }

  lemma {:induction false} UnreferencedClients(s: CacheState, e: LRUHandle)
    ensures Unreferenced(s, e).clients == s.clients
  {
  }

  lemma {:induction false} UnreferencedIs(s: CacheState, e: LRUHandle, lru: LRUHandle, inUse: LRUHandle)
    requires Consistent(s, e) && HeadsApart(s, lru, inUse)
    ensures Distinct(s.inUse) && Apart(inUse, lru, s.inUse, s.lru)
    ensures forall x :: x in s.lru ==> x in Listed(s)
    ensures forall x :: x in s.inUse ==> x in Listed(s)
    ensures e in Listed(s) ==> e in s.inUse
    ensures var t := Unreferenced(s, e);
      if s.clients[e] == 0 && e in Listed(s) then t.inUse == Minus(s.inUse, e) && t.lru == s.lru + [e]
      else t.inUse == s.inUse && t.lru == s.lru
  {
    hide Minus, Distinct;
  }

  // As far as the cache goes, the client's reference is still there.
  lemma {:induction false} ReturnedIs(s: CacheState, e: LRUHandle, lru: LRUHandle, inUse: LRUHandle)
    requires Consistent(s, null) && e in s.clients && HeadsApart(s, lru, inUse) && LRUCache.Counted(s, null)
    ensures HeadsApart(Returned(s, e), lru, inUse) && LRUCache.Counted(Returned(s, e), e)
    ensures Listed(Returned(s, e)) == Listed(s) && Usage(Returned(s, e)) == Usage(s)
    ensures e != lru && e != inUse && e.inCache == (e in Listed(s))
    ensures e.refs == Returned(s, e).clients[e] + 1 + if e in Listed(s) then 1 else 0
  {
    hide Consistent, Charges, Listed;
    LessOne(s.clients, e);
    ReturnedListed(s, e);
  }

  lemma {:induction false} ReturnedListed(s: CacheState, e: LRUHandle)
    ensures Listed(Returned(s, e)) == Listed(s)
  {
  }

  lemma {:induction false} FirstInRing(head: LRUHandle, s: seq<LRUHandle>)
    requires Ring([head] + s)
    ensures head.next == if s == [] then head else s[0]
    ensures head !in s
  {
    var r := [head] + s;
    assert r[0] == head && r[1..] == s && r[0].next == Succ(r, 0);
  }

  lemma {:induction false} AddedIs(s: CacheState, e: LRUHandle, lru: LRUHandle, inUse: LRUHandle)
    requires Consistent(s, null) && HeadsApart(s, lru, inUse) && e !in Listed(s) && e !in s.clients && e !in s.deleted
    requires e != lru && e != inUse
    ensures Consistent(Added(s, e), null) && HeadsApart(Added(s, e), lru, inUse)
    ensures Usage(Added(s, e)) == Usage(s) + e.charge && Listed(Added(s, e)) == Listed(s) + {e}
    ensures HandlesOf(Added(s, e)) <= HandlesOf(s) + {e}
    ensures e !in [inUse] + s.inUse && Disjoint([lru] + s.lru, [inUse] + s.inUse + [e])
  {
    hide Distinct, Charges;
    Appended(s.inUse, e);
    var t := Added(s, e);
    assert Distinct(t.inUse);
  }

  lemma {:induction false} OldEntry(s: CacheState, entries: set<LRUHandle>, old': LRUHandle?, key: Bytes, hash: nat)
    requires Listed(s) == entries && OnePerKey(entries)
    requires old' != null ==> old' in entries && Matches(old', key, hash)
    requires old' == null ==> forall h :: h in entries ==> !Matches(h, key, hash)
    ensures FindIn(s.lru + s.inUse, key, hash) == old'
  {
    hide FindIn;
    var f := FindIn(s.lru + s.inUse, key, hash);
    assert f == null || f in entries;
    assert old' == null || old' in s.lru + s.inUse;
  }

  lemma {:induction false} UnlistedIs(s: CacheState, e: LRUHandle, lru: LRUHandle, inUse: LRUHandle)
    requires Consistent(s, null) && e in Listed(s) && HeadsApart(s, lru, inUse)
    ensures Distinct(s.lru) && Distinct(s.inUse)
    ensures forall x :: x in s.lru ==> x in Listed(s)
    ensures forall x :: x in s.inUse ==> x in Listed(s)
    ensures Disjoint([lru] + s.lru, [inUse] + s.inUse) && Disjoint([inUse] + s.inUse, [lru] + s.lru)
    ensures e in s.lru ==> Unlisted(s, e).lru == Minus(s.lru, e) && Unlisted(s, e).inUse == s.inUse
    ensures e !in s.lru ==> e in s.inUse && Unlisted(s, e).lru == s.lru && Unlisted(s, e).inUse == Minus(s.inUse, e)
  {
    hide Distinct;
    if e in s.lru {
      MinusAbsent(s.inUse, e);
    } else {
      MinusAbsent(s.lru, e);
    }
  }

  lemma {:induction false} UnlistedHeads(s: CacheState, e: LRUHandle, lru: LRUHandle, inUse: LRUHandle)
    requires Consistent(s, null) && e in Listed(s) && HeadsApart(s, lru, inUse)
    ensures HeadsApart(Unlisted(s, e), lru, inUse) && e != lru && e != inUse
    ensures Unlisted(s, e).clients == s.clients && Unlisted(s, e).deleted == s.deleted
  {
    hide Minus, Distinct;
    MinusHas(s.lru, e);
    MinusHas(s.inUse, e);
  }

  lemma {:induction false} OldestGoes(s: CacheState)
    requires Consistent(s, null) && s.lru != []
    ensures Dropped(s, s.lru[0]) == s.(lru := s.lru[1..], deleted := s.deleted + [s.lru[0]])
    ensures Listed(Dropped(s, s.lru[0])) <= Listed(s)
  {
    hide Dropped, Consistent;
    DroppedConsistent(s, s.lru[0]);
    DroppedOldest(s);
  }

  lemma {:induction false} ListedHas(s: CacheState)
    ensures forall x :: x in s.lru ==> x in Listed(s)
    ensures forall x :: x in s.inUse ==> x in Listed(s)
  {
  }

  lemma {:induction false} HandedOutIs(s: CacheState, e: LRUHandle, lru: LRUHandle, inUse: LRUHandle)
    requires Consistent(s, null) && HeadsApart(s, lru, inUse) && LRUCache.Counted(s, null)
    requires e !in Listed(s) && e !in s.clients && e !in s.deleted && e != lru && e != inUse && e.refs == 1 && !e.inCache
    ensures Consistent(HandedOut(s, e), null) && HeadsApart(HandedOut(s, e), lru, inUse) && LRUCache.Counted(HandedOut(s, e), null)
    ensures Usage(HandedOut(s, e)) == Usage(s) && Listed(HandedOut(s, e)) == Listed(s)
    ensures HandlesOf(HandedOut(s, e)) <= HandlesOf(s) + {e}
    ensures HandedOut(s, e).lru == s.lru && HandedOut(s, e).inUse == s.inUse
  {
    hide Distinct, Charges;
    var t := HandedOut(s, e);
    assert Listed(t) == Listed(s);
    assert forall x :: x in Listed(t) ==> x.refs == t.clients[x] + 1;
  }

  lemma {:induction false} EvictedStep(s: CacheState, capacity: nat)
    ensures Evicted(s, capacity) == if Usage(s) <= capacity || s.lru == [] then s else Evicted(Dropped(s, s.lru[0]), capacity)
  {
    hide Dropped, Usage;
  }

  lemma {:induction false} SameKey(entries: set<LRUHandle>, h: LRUHandle, found: LRUHandle?)
    requires OnePerKey(entries) && h in entries
    requires found != null ==> found in entries && Matches(found, h.key, h.hash)
    requires found == null ==> forall e :: e in entries ==> !Matches(e, h.key, h.hash)
    ensures found == h
  {
  }
}
