/** The circular doubly linked lists of the cache (util/cache.cc). */
module LruLists {
  import opened Circles
  import opened HandleTables

  // The handles of r, the first of which is the dummy head, linked in a circle.
  ghost predicate Ring(r: seq<LRUHandle>)
    reads r`next, r`prev
  {
    |r| > 0 && Distinct(r) && forall i :: 0 <= i < |r| ==> r[i].next == Succ(r, i) && r[i].prev == Pred(r, i)
  }

  /** LRU_Remove; the entry keeps its own links. */
  method LRU_Remove(e: LRUHandle, ghost r: seq<LRUHandle>, ghost i: nat)
    requires Ring(r) && 0 < i < |r| && r[i] == e
    modifies r`next, r`prev
    ensures Ring(Without(r, i))
  {
    hide Without, Succ, Pred;
    RingAt(r, i);
    ghost var p, n := i - 1, if i + 1 < |r| then i + 1 else 0;
    var next: LRUHandle, prev: LRUHandle := e.next, e.prev;
    next.prev := e.prev;
    prev.next := e.next;
    WithoutDistinct(r, i);
    forall j | 0 <= j < |r| - 1
      ensures j < |Without(r, i)| && Without(r, i)[j].next == Succ(Without(r, i), j) && Without(r, i)[j].prev == Pred(Without(r, i), j)
    {
      SuccWithout(r, i, j);
    }
    SuccWithout(r, i, 0);
  }

  lemma {:induction false} RingAt(r: seq<LRUHandle>, i: nat)
    requires Ring(r) && 0 < i < |r|
    ensures r[i].prev == r[i - 1] && r[i].next == r[if i + 1 < |r| then i + 1 else 0]
  {
  }

  /** LRU_Append: just before the head, as the newest. */
  method LRU_Append(list: LRUHandle, e: LRUHandle, ghost r: seq<LRUHandle>)
    requires Ring(r) && r[0] == list && e !in r
    modifies r`next, r`prev, e`next, e`prev
    ensures Ring(r + [e])
  {
    hide Succ, Pred;
    LastAt(r);
    e.next := list;
    e.prev := list.prev;
    var last: LRUHandle := e.prev;
    last.next := e;
    list.prev := e;
    forall j | 0 <= j < |r| + 1 ensures (r + [e])[j].next == Succ(r + [e], j) && (r + [e])[j].prev == Pred(r + [e], j) {
      SuccAppended(r, e, j);
    }
  }

  lemma {:induction false} LastAt(r: seq<LRUHandle>)
    requires Ring(r)
    ensures r[0].prev == r[|r| - 1]
  {
  }
}
