/** Least recently used (util/cache.cc): over every run of the cache, what is evicted was given back before
    everything unused that stays. */
module LruRecency {
  import opened Circles
  import opened HandleTables
  import opened LruLists
  import opened LruCaches

  // ---- Runs ----

  // Lookup and Erase with the entry that they find; the ones that find nothing change nothing.
  datatype Op =
    | Lookup(e: LRUHandle)
    | Release(e: LRUHandle)
    | Erase(e: LRUHandle)
    | Insert(e: LRUHandle)
    | Prune

  ghost predicate Enabled(s: CacheState, op: Op) {
    match op
    case Lookup(e) => e in Listed(s)
    case Release(e) => e in s.clients
    case Erase(e) => e in Listed(s)
    case Insert(e) => !Cached(s, e) && e !in s.clients && e !in s.deleted
    case Prune => true
  }

  ghost function Apply(s: CacheState, op: Op, capacity: nat): CacheState {
    match op
    case Lookup(e) => Referenced(s, e)
    case Release(e) => Released(s, e)
    case Erase(e) => Dropped(s, e)
    case Insert(e) => Inserted(s, e, capacity)
    case Prune => Emptied(s)
  }

  // The states that a new cache goes through.
  ghost predicate IsRun(states: seq<CacheState>, ops: seq<Op>, capacity: nat) {
    && |states| == |ops| + 1 && states[0] == CacheState([], [], multiset{}, [])
    && forall i :: 0 <= i < |ops| ==> Enabled(states[i], ops[i]) && states[i + 1] == Apply(states[i], ops[i], capacity)
  }

  // The entries that were given back, in the order in which that happened.
  ghost function GivenBack(ops: seq<Op>): seq<LRUHandle> {
    if ops == [] then []
    else
      var last := ops[|ops| - 1];
      GivenBack(ops[..|ops| - 1]) + if last.Release? then [last.e] else []
  }

  // When it was given back last; -1 if never.
  ghost function LastAt(h: seq<LRUHandle>, e: LRUHandle): (i: int)
    ensures -1 <= i < |h|
  {
    if h == [] then -1 else if h[|h| - 1] == e then |h| - 1 else LastAt(h[..|h| - 1], e)
  }

  lemma {:induction false} LastAtAppend(h: seq<LRUHandle>, e: LRUHandle, x: LRUHandle)
    ensures LastAt(h + [e], x) == if x == e then |h| else LastAt(h, x)
  {
    assert (h + [e])[..|h|] == h;
  }

  /** The unused entries stand in the order in which they were given back last. */
  ghost predicate ByRecency(s: seq<LRUHandle>, h: seq<LRUHandle>) {
    && (forall i :: 0 <= i < |s| ==> 0 <= LastAt(h, s[i]))
    && forall i, j :: 0 <= i < j < |s| ==> LastAt(h, s[i]) < LastAt(h, s[j])
  }

  // ---- The list of unused entries under each operation ----

  lemma {:induction false} MinusRecency(s: seq<LRUHandle>, e: LRUHandle, h: seq<LRUHandle>)
    requires ByRecency(s, h) && Distinct(s)
    ensures ByRecency(Minus(s, e), h)
  {
    hide ByRecency, Distinct, Minus, Without;
    if e in s {
      var i :| 0 <= i < |s| && s[i] == e;
      MinusIs(s, i);
      WithoutRecency(s, i, h);
    } else {
      MinusAbsent(s, e);
    }
  }

  lemma {:induction false} WithoutRecency(s: seq<LRUHandle>, i: nat, h: seq<LRUHandle>)
    requires ByRecency(s, h) && i < |s|
    ensures ByRecency(Without(s, i), h)
  {
    hide LastAt;
    var r := Without(s, i);
    forall j | 0 <= j < |r| ensures r[j] == s[if j < i then j else j + 1] {
    }
  }

  lemma {:induction false} SuffixRecency(s: seq<LRUHandle>, n: nat, h: seq<LRUHandle>)
    requires ByRecency(s, h) && n <= |s|
    ensures ByRecency(s[n..], h)
  {
    hide LastAt;
  }

  lemma {:induction false} DroppedRecency(s: CacheState, e: LRUHandle, h: seq<LRUHandle>)
    requires Consistent(s, null) && e in Listed(s) && ByRecency(s.lru, h)
    ensures ByRecency(Dropped(s, e).lru, h)
  {
    MinusRecency(s.lru, e, h);
    MinusHas(s.inUse, e);
    hide ByRecency, Minus, Distinct;
    assert e !in Unlisted(s, e).inUse;
  }

  lemma {:induction false} ReleasedRecency(s: CacheState, e: LRUHandle, h: seq<LRUHandle>)
    requires Consistent(s, null) && e in s.clients && ByRecency(s.lru, h)
    ensures ByRecency(Released(s, e).lru, h + [e])
  {
    hide Distinct, Minus, LastAt;
    forall i | 0 <= i < |s.lru| ensures LastAt(h + [e], s.lru[i]) == LastAt(h, s.lru[i]) {
      assert s.lru[i] in s.lru;
      LastAtAppend(h, e, s.lru[i]);
    }
    LastAtAppend(h, e, e);
  }

  lemma {:induction false} InsertedRecency(s: CacheState, e: LRUHandle, capacity: nat, h: seq<LRUHandle>)
    requires Consistent(s, null) && Enabled(s, Insert(e)) && ByRecency(s.lru, h)
    ensures ByRecency(Inserted(s, e, capacity).lru, h)
  {
    hide Consistent, Evicted, FindIn, Dropped, Usage, Known, ByRecency;
    var added := if capacity > 0 then Added(s, e) else HandedOut(s, e);
    AddedKnown(s, e, added);
    assert added.lru == s.lru;
    var old' := FindIn(s.lru + s.inUse, e.key, e.hash);
    if capacity > 0 && old' != null {
      AddedListed(s, e, added);
      DroppedKeeps(added, old');
      DroppedRecency(added, old', h);
      EvictedRecency(Dropped(added, old'), capacity, h);
    } else {
      EvictedRecency(added, capacity, h);
    }
  }

  lemma {:induction false} EvictedRecency(s: CacheState, capacity: nat, h: seq<LRUHandle>)
    requires Consistent(s, null) && ByRecency(s.lru, h)
    ensures ByRecency(Evicted(s, capacity).lru, h)
  {
    hide Consistent, Evicted, ByRecency, Usage;
    var n := EvictedIs(s, capacity);
    SuffixRecency(s.lru, n, h);
  }

  // Prune deletes all unused entries, oldest first, and nothing else.
  lemma {:induction false} EmptiedIs(s: CacheState)
    requires Consistent(s, null)
    ensures Emptied(s) == s.(lru := [], deleted := s.deleted + s.lru) && Consistent(Emptied(s), null)
    decreases |s.lru|
  {
    hide Consistent, Dropped;
    if s.lru != [] {
      DroppedConsistent(s, s.lru[0]);
      DroppedOldest(s);
      EmptiedIs(Dropped(s, s.lru[0]));
      assert s.deleted + [s.lru[0]] + s.lru[1..] == s.deleted + s.lru;
    } else {
      assert s.deleted + s.lru == s.deleted;
    }
  }

  lemma {:induction false} NothingListedRecency(h: seq<LRUHandle>)
    ensures ByRecency([], h)
  {
  }

  ghost function HistoryAfter(h: seq<LRUHandle>, op: Op): seq<LRUHandle> {
    h + if op.Release? then [op.e] else []
  }

  lemma {:induction false} StepRecency(s: CacheState, op: Op, capacity: nat, h: seq<LRUHandle>)
    requires Consistent(s, null) && Enabled(s, op) && ByRecency(s.lru, h)
    ensures Consistent(Apply(s, op, capacity), null) && ByRecency(Apply(s, op, capacity).lru, HistoryAfter(h, op))
  {
    hide Consistent, Referenced, Released, Dropped, Inserted, Emptied, ByRecency, Listed;
    assert h + [] == h;
    match op
    case Lookup(e) =>
      ReferencedConsistent(s, e);
      ReferencedIs(s, e);
      ListDistinct(s);
      MinusRecency(s.lru, e, h);
    case Release(e) =>
      ReleasedConsistent(s, e);
      ReleasedRecency(s, e, h);
    case Erase(e) =>
      DroppedConsistent(s, e);
      DroppedRecency(s, e, h);
    case Insert(e) =>
      InsertedConsistent(s, e, capacity);
      InsertedRecency(s, e, capacity, h);
    case Prune =>
      EmptiedIs(s);
      NothingListedRecency(h);
  }

  lemma {:induction false} ListDistinct(s: CacheState)
    requires Consistent(s, null)
    ensures Distinct(s.lru)
  {
  }

  /** In every reachable state the unused entries stand in the order in which they were given back last. */
  lemma {:induction false} RunRecency(states: seq<CacheState>, ops: seq<Op>, capacity: nat)
    requires IsRun(states, ops, capacity)
    ensures Consistent(states[|ops|], null) && ByRecency(states[|ops|].lru, GivenBack(ops))
    decreases |ops|
  {
    hide Consistent, Apply, ByRecency, Enabled;
    if ops == [] {
      NothingListed();
      NothingListedRecency([]);
    } else {
      var n := |ops| - 1;
      RunRecency(states[..n + 1], ops[..n], capacity);
      StepRecency(states[n], ops[n], capacity, GivenBack(ops[..n]));
    }
  }

  /** What an insert evicts was given back before everything unused that stays in the cache. */
  lemma {:induction false} EvictsLeastRecent(states: seq<CacheState>, ops: seq<Op>, capacity: nat, e: LRUHandle, gone: LRUHandle, stays: LRUHandle)
    requires IsRun(states, ops, capacity) && Enabled(states[|ops|], Insert(e))
    requires gone in states[|ops|].lru && gone !in Inserted(states[|ops|], e, capacity).lru && !Matches(gone, e.key, e.hash)
    requires stays in Inserted(states[|ops|], e, capacity).lru
    ensures stays in states[|ops|].lru && LastAt(GivenBack(ops), gone) < LastAt(GivenBack(ops), stays)
  {
    var s := states[|ops|];
    RunRecency(states, ops, capacity);
    var n, m := InsertTakes(s, e, capacity);
    hide Consistent, Inserted, Enabled, LastAt, Minus, Matches;
    var i :| 0 <= i < |m| && m[i] == gone;
    var j :| 0 <= j < |m[n..]| && m[n..][j] == stays;
    assert m[n + j] == stays;
    SuffixHas(m, n);
    var old' := FindIn(s.lru + s.inUse, e.key, e.hash);
    ListDistinct(s);
    if old' != null && capacity > 0 {
      MinusRecency(s.lru, old', GivenBack(ops));
      MinusHas(s.lru, old');
    }
  }

  lemma {:induction false} SuffixHas<T>(m: seq<T>, n: nat)
    requires n <= |m|
    ensures forall i :: n <= i < |m| ==> m[i] in m[n..]
  {
    forall i | n <= i < |m| ensures m[i] in m[n..] {
      assert m[n..][i - n] == m[i];
    }
  }

  // The unused entries but the replaced one, without the n oldest.
  lemma {:induction false} InsertTakes(s: CacheState, e: LRUHandle, capacity: nat) returns (n: nat, m: seq<LRUHandle>)
    requires Consistent(s, null) && Enabled(s, Insert(e))
    ensures
      var old' := FindIn(s.lru + s.inUse, e.key, e.hash);
      m == if old' != null && capacity > 0 then Minus(s.lru, old') else s.lru
    ensures n <= |m| && Inserted(s, e, capacity).lru == m[n..]
    ensures
      var old' := FindIn(s.lru + s.inUse, e.key, e.hash);
      forall x :: x in s.lru && !Matches(x, e.key, e.hash) ==> x in m
  {
    hide Consistent, Evicted, FindIn, Usage, Known, Distinct, Minus, Matches;
    var added := if capacity > 0 then Added(s, e) else HandedOut(s, e);
    AddedKnown(s, e, added);
    var old' := FindIn(s.lru + s.inUse, e.key, e.hash);
    m := if old' != null && capacity > 0 then Minus(s.lru, old') else s.lru;
    if capacity > 0 && old' != null {
      AddedListed(s, e, added);
      DroppedKeeps(added, old');
      DroppedList(added, old');
      ListDistinct(s);
      MinusHas(s.lru, old');
      n := EvictedIs(Dropped(added, old'), capacity);
    } else {
      n := EvictedIs(added, capacity);
    }
  }

  lemma {:induction false} DroppedList(s: CacheState, e: LRUHandle)
    requires Consistent(s, null) && e in Listed(s)
    ensures Dropped(s, e).lru == Minus(s.lru, e)
  {
    MinusHas(s.inUse, e);
    hide Minus, Distinct;
    assert e !in Unlisted(s, e).inUse;
  }
}
