/** MergingIterator (table/merger.cc): several sorted runs seen as one. */
module Merger {
  import opened Options
  import opened Keys
  import opened Cursors

  datatype Direction = Forward | Reverse

  // Position of e in the merged run.
  function Rank(merged: seq<Entry>, e: Entry): nat {
    LowerBound(merged, e.key)
  }

  lemma {:induction false} RankAt(merged: seq<Entry>, i: nat)
    requires SortedEntries(merged) && i < |merged|
    ensures Rank(merged, merged[i]) == i
  {
    LowerBoundSorted(merged, merged[i].key, i);
    if i > 0 {
      LowerBoundSorted(merged, merged[i].key, i - 1);
      assert Before(merged[i - 1].key, merged[i].key);
    }
  }

  // es is one of the runs that make up `merged`.
  ghost predicate RunOf(merged: seq<Entry>, es: seq<Entry>) {
    SortedEntries(es) && forall e :: e in es ==> e in merged
  }

  lemma {:induction false} RankIsPosition(merged: seq<Entry>, es: seq<Entry>, j: nat)
    requires SortedEntries(merged) && RunOf(merged, es) && j < |es|
    ensures Rank(merged, es[j]) < |merged| && merged[Rank(merged, es[j])] == es[j]
  {
    assert es[j] in merged;
    var i :| 0 <= i < |merged| && merged[i] == es[j];
    RankAt(merged, i);
  }

  // Order in a run, in the merged run, and of keys is the same order.
  lemma {:induction false} RankOrder(merged: seq<Entry>, es: seq<Entry>, es': seq<Entry>, i: nat, j: nat)
    requires SortedEntries(merged) && RunOf(merged, es) && RunOf(merged, es') && i < |es| && j < |es'|
    ensures Rank(merged, es[i]) < Rank(merged, es'[j]) <==> Before(es[i].key, es'[j].key)
  {
    RankIsPosition(merged, es, i);
    RankIsPosition(merged, es', j);
    var a, b := Rank(merged, es[i]), Rank(merged, es'[j]);
    if a < b {
      assert Before(merged[a].key, merged[b].key);
    } else if b < a {
      assert Before(merged[b].key, merged[a].key);
    }
  }

  // The cursor stands at its first entry of rank at least b.
  ghost predicate ForwardAt(merged: seq<Entry>, es: seq<Entry>, pos: nat, b: nat) {
    pos <= |es| && forall j :: 0 <= j < |es| ==> (j < pos <==> Rank(merged, es[j]) < b)
  }

  // The cursor stands at its last entry of rank less than b, or is invalid if there is none.
  ghost predicate BackwardAt(merged: seq<Entry>, es: seq<Entry>, pos: nat, b: nat) {
    && pos <= |es|
    && (pos < |es| ==> Rank(merged, es[pos]) < b && forall j :: pos < j < |es| ==> Rank(merged, es[j]) >= b)
    && (pos == |es| ==> forall j :: 0 <= j < |es| ==> Rank(merged, es[j]) >= b)
  }

  lemma {:induction false} SeekIsForward(merged: seq<Entry>, es: seq<Entry>, b: nat)
    requires SortedEntries(merged) && RunOf(merged, es) && b < |merged|
    ensures ForwardAt(merged, es, LowerBound(es, merged[b].key), b)
  {
    forall j | 0 <= j < |es| ensures j < LowerBound(es, merged[b].key) <==> Rank(merged, es[j]) < b {
      LowerBoundSorted(es, merged[b].key, j);
      RankAt(merged, b);
      RankOrder(merged, es, merged, j, b);
    }
  }

  // Seek to a key that need not be stored: the merged position is the one that Seek on `merged` gives.
  lemma {:induction false} SeekTarget(merged: seq<Entry>, es: seq<Entry>, target: InternalKey)
    requires SortedEntries(merged) && RunOf(merged, es)
    ensures ForwardAt(merged, es, LowerBound(es, target), LowerBound(merged, target))
  {
    var b := LowerBound(merged, target);
    forall j | 0 <= j < |es| ensures j < LowerBound(es, target) <==> Rank(merged, es[j]) < b {
      LowerBoundSorted(es, target, j);
      RankIsPosition(merged, es, j);
      LowerBoundSorted(merged, target, Rank(merged, es[j]));
    }
  }

  lemma {:induction false} ForwardNext(merged: seq<Entry>, es: seq<Entry>, pos: nat, b: nat)
    requires SortedEntries(merged) && RunOf(merged, es) && ForwardAt(merged, es, pos, b)
    ensures pos < |es| && Rank(merged, es[pos]) == b ==> ForwardAt(merged, es, pos + 1, b + 1)
    ensures pos == |es| || Rank(merged, es[pos]) != b ==> ForwardAt(merged, es, pos, b + 1)
  {
    forall j | pos < j < |es| ensures Rank(merged, es[j]) > Rank(merged, es[pos]) {
      assert Before(es[pos].key, es[j].key);
      RankOrder(merged, es, es, pos, j);
    }
  }

  // Stepping back from the first entry of rank >= b.
  lemma {:induction false} StepBack(merged: seq<Entry>, es: seq<Entry>, pos: nat, b: nat)
    requires ForwardAt(merged, es, pos, b)
    ensures pos < |es| ==> BackwardAt(merged, es, AfterPrev(es, pos), b)
    ensures pos == |es| ==> BackwardAt(merged, es, LastPosition(es), b)
  {
  }

  // A cursor that is not at rank b stands the same for b and b + 1.
  lemma {:induction false} BackwardWider(merged: seq<Entry>, es: seq<Entry>, pos: nat, b: nat)
    requires BackwardAt(merged, es, pos, b) && forall j :: 0 <= j < |es| ==> Rank(merged, es[j]) != b
    ensures BackwardAt(merged, es, pos, b + 1)
  {
  }

  lemma {:induction false} BackwardPrev(merged: seq<Entry>, es: seq<Entry>, pos: nat, b: nat)
    requires SortedEntries(merged) && RunOf(merged, es) && BackwardAt(merged, es, pos, b + 1)
    ensures pos < |es| && Rank(merged, es[pos]) == b ==> BackwardAt(merged, es, AfterPrev(es, pos), b)
    ensures pos == |es| || Rank(merged, es[pos]) != b ==> BackwardAt(merged, es, pos, b)
  {
    forall j | 0 <= j < pos < |es| ensures Rank(merged, es[j]) < Rank(merged, es[pos]) {
      assert Before(es[j].key, es[pos].key);
      RankOrder(merged, es, es, j, pos);
    }
  }

  /** The iterator over all children. Its contract is that of a Cursor over `merged`. */
  class MergingIterator {
    const children: seq<Cursor>
    ghost const merged: seq<Entry>
    ghost var p: nat
    var current: Option<nat>
    var direction: Direction

    // `merged` is the sorted union of the children, whose keys are pairwise distinct.
    ghost predicate Children()
    {
      && SortedEntries(merged)
      && (forall i :: 0 <= i < |children| ==> RunOf(merged, children[i].es))
      && (forall e :: e in merged ==> exists i :: 0 <= i < |children| && e in children[i].es)
      && (forall i, j :: 0 <= i < j < |children| ==> children[i] != children[j])
      && (forall i, j, e :: 0 <= i < j < |children| && e in children[i].es ==> e !in children[j].es)
    }

    ghost predicate AllForward(b: nat)
      reads children
    {
      forall i :: 0 <= i < |children| ==> ForwardAt(merged, children[i].es, children[i].pos, b)
    }

    ghost predicate AllBackward(b: nat)
      reads children
    {
      forall i :: 0 <= i < |children| ==> BackwardAt(merged, children[i].es, children[i].pos, b)
    }

    // The current child shows the entry at rank b; there is no current child if b is off the end.
    ghost predicate Shows(b: nat)
      reads this, children
    {
      && b <= |merged|
      && (current.None? <==> b == |merged|)
      && (current.Some? ==> current.value < |children| && children[current.value].Valid() &&
                            children[current.value].Current() == merged[b])
    }

    ghost predicate Ok()
      reads this, children
    {
      && Children() && Shows(p)
      && (p < |merged| && direction == Forward ==> AllForward(p))
      && (p < |merged| && direction == Reverse ==> AllBackward(p + 1))
    }

    constructor (children: seq<Cursor>, ghost merged: seq<Entry>)
      requires SortedEntries(merged)
      requires forall i :: 0 <= i < |children| ==> RunOf(merged, children[i].es)
      requires forall e :: e in merged ==> exists i :: 0 <= i < |children| && e in children[i].es
      requires forall i, j :: 0 <= i < j < |children| ==> children[i] != children[j]
      requires forall i, j, e :: 0 <= i < j < |children| && e in children[i].es ==> e !in children[j].es
      ensures Ok() && this.children == children && this.merged == merged && p == |merged|
    {
      this.children := children;
      this.merged := merged;
      p := |merged|;
      current := None;
      direction := Forward;
    }

    predicate Valid()
      reads this
    {
      current.Some?
    }

    function Current(): Entry
      requires Ok() && Valid()
      reads this, children
    {
      children[current.value].Current()
    }

    // The child that holds the entry of rank b.
    lemma {:induction false} Owner(b: nat) returns (i: nat, j: nat)
      requires Children() && b < |merged|
      ensures i < |children| && j < |children[i].es| && children[i].es[j] == merged[b] && Rank(merged, children[i].es[j]) == b
    {
      assert merged[b] in merged;
      i :| 0 <= i < |children| && merged[b] in children[i].es;
      j :| 0 <= j < |children[i].es| && children[i].es[j] == merged[b];
      RankAt(merged, b);
    }

    method FindSmallest(ghost b: nat)
      requires Children() && AllForward(b) && b <= |merged|
      modifies this
      ensures Shows(b) && direction == old(direction) && p == old(p)
    {
      var smallest: Option<nat> := None;
      for i := 0 to |children|
        invariant smallest.Some? ==> smallest.value < i && children[smallest.value].Valid()
        invariant forall j :: 0 <= j < i && children[j].Valid() ==>
                    smallest.Some? && AtOrBefore(children[smallest.value].Current().key, children[j].Current().key)
      {
        if children[i].Valid() {
          if smallest.None? || Before(children[i].Current().key, children[smallest.value].Current().key) {
            smallest := Some(i);
          }
        }
      }
      current := smallest;
      SmallestShows(b);
    }

    lemma {:induction false} SmallestShows(b: nat)
      requires Children() && AllForward(b) && b <= |merged|
      requires current.Some? ==> current.value < |children| && children[current.value].Valid()
      requires forall j :: 0 <= j < |children| && children[j].Valid() ==>
                 current.Some? && AtOrBefore(children[current.value].Current().key, children[j].Current().key)
      ensures Shows(b)
    {
      if b < |merged| {
        var i, j := Owner(b);
        assert ForwardAt(merged, children[i].es, children[i].pos, b);
        var own := children[i];
        if own.pos < j {
          assert Before(own.es[own.pos].key, own.es[j].key);
          RankOrder(merged, own.es, own.es, own.pos, j);
        }
        assert own.Valid() && own.Current() == merged[b];
        var cur := children[current.value];
        assert ForwardAt(merged, cur.es, cur.pos, b);
        RankIsPosition(merged, cur.es, cur.pos);
        RankOrder(merged, own.es, cur.es, j, cur.pos);
      } else if current.Some? {
        var cur := children[current.value];
        assert ForwardAt(merged, cur.es, cur.pos, b);
        RankIsPosition(merged, cur.es, cur.pos);
      }
    }

    method FindLargest(ghost b: nat)
      requires Children() && AllBackward(b) && b <= |merged|
      modifies this
      ensures Shows(if b == 0 then |merged| else b - 1) && direction == old(direction) && p == old(p)
    {
      var largest: Option<nat> := None;
      var i := |children|;
      while i > 0
        invariant 0 <= i <= |children|
        invariant largest.Some? ==> i <= largest.value < |children| && children[largest.value].Valid()
        invariant forall j :: i <= j < |children| && children[j].Valid() ==>
                    largest.Some? && AtOrBefore(children[j].Current().key, children[largest.value].Current().key)
      {
        i := i - 1;
        if children[i].Valid() {
          if largest.None? || Before(children[largest.value].Current().key, children[i].Current().key) {
            largest := Some(i);
          }
        }
      }
      current := largest;
      LargestShows(b);
    }

    lemma {:induction false} LargestShows(b: nat)
      requires Children() && AllBackward(b) && b <= |merged|
      requires current.Some? ==> current.value < |children| && children[current.value].Valid()
      requires forall j :: 0 <= j < |children| && children[j].Valid() ==>
                 current.Some? && AtOrBefore(children[j].Current().key, children[current.value].Current().key)
      ensures Shows(if b == 0 then |merged| else b - 1)
    {
      if b > 0 {
        var i, j := Owner(b - 1);
        var own := children[i];
        assert BackwardAt(merged, own.es, own.pos, b);
        if own.Valid() && j < own.pos {
          assert Before(own.es[j].key, own.es[own.pos].key);
          RankOrder(merged, own.es, own.es, j, own.pos);
        }
        assert own.Valid() && own.Current() == merged[b - 1];
        var cur := children[current.value];
        assert BackwardAt(merged, cur.es, cur.pos, b);
        RankIsPosition(merged, cur.es, cur.pos);
        RankOrder(merged, cur.es, own.es, cur.pos, j);
      }
    }

    method SeekToFirst()
      requires Ok()
      modifies this, children
      ensures Ok() && p == 0
    {
      for i := 0 to |children|
        invariant forall j :: 0 <= j < i ==> children[j].pos == 0
      {
        children[i].SeekToFirst();
      }
      assert AllForward(0);
      FindSmallest(0);
      direction := Forward;
      p := 0;
    }

    method SeekToLast()
      requires Ok()
      modifies this, children
      ensures Ok() && p == LastPosition(merged)
    {
      hide ForwardAt, BackwardAt, RunOf, Rank, SortedEntries;
      for i := 0 to |children|
        invariant forall j :: 0 <= j < i ==> children[j].pos == LastPosition(children[j].es)
      {
        children[i].SeekToLast();
      }
      forall i | 0 <= i < |children| ensures BackwardAt(merged, children[i].es, children[i].pos, |merged|) {
        LastIsBackward(i);
      }
      FindLargest(|merged|);
      direction := Reverse;
      p := LastPosition(merged);
    }

    lemma {:induction false} LastIsBackward(i: nat)
      requires Children() && i < |children|
      ensures BackwardAt(merged, children[i].es, LastPosition(children[i].es), |merged|)
    {
      forall j | 0 <= j < |children[i].es| ensures Rank(merged, children[i].es[j]) < |merged| {
        RankIsPosition(merged, children[i].es, j);
      }
    }

    method Seek(target: InternalKey)
      requires Ok()
      modifies this, children
      ensures Ok() && p == LowerBound(merged, target)
    {
      hide ForwardAt, BackwardAt, RunOf, Rank, SortedEntries;
      for i := 0 to |children|
        invariant forall j :: 0 <= j < i ==> children[j].pos == LowerBound(children[j].es, target)
      {
        children[i].Seek(target);
      }
      forall i | 0 <= i < |children| ensures ForwardAt(merged, children[i].es, children[i].pos, LowerBound(merged, target)) {
        SeekTarget(merged, children[i].es, target);
      }
      FindSmallest(LowerBound(merged, target));
      direction := Forward;
      p := LowerBound(merged, target);
    }

    // Only the current child has the current entry.
    lemma {:induction false} OnlyCurrent(c: nat, i: nat)
      requires Children() && p < |merged| && c < |children| && i < |children| && i != c && merged[p] in children[c].es
      ensures forall j :: 0 <= j < |children[i].es| ==> Rank(merged, children[i].es[j]) != p
    {
      forall j | 0 <= j < |children[i].es| ensures Rank(merged, children[i].es[j]) != p {
        RankIsPosition(merged, children[i].es, j);
        assert children[i].es[j] in children[i].es;
      }
    }

    // Child i, sought to the current key, stands after it.
    lemma {:induction false} SoughtIsAfter(c: nat, i: nat)
      requires Children() && p < |merged| && c < |children| && i < |children| && i != c && merged[p] in children[c].es
      ensures var pos := LowerBound(children[i].es, merged[p].key);
              && ForwardAt(merged, children[i].es, pos, p)
              && (pos < |children[i].es| ==> children[i].es[pos].key != merged[p].key)
    {
      SeekIsForward(merged, children[i].es, p);
      OnlyCurrent(c, i);
      RankAt(merged, p);
    }

    // The direction switch of Next: every other child moves to its first entry after the current key.
    method TurnForward()
      requires Ok() && Valid() && direction == Reverse
      modifies this`direction, children
      ensures AllForward(p) && direction == Forward && children[current.value].pos == old(children[current.value].pos)
    {
      hide ForwardAt, BackwardAt, RunOf, Rank, SortedEntries;
      var c := current.value;
      var key := children[c].Current().key;
      CurrentIsForward();
      for i := 0 to |children|
        invariant children[c].pos == old(children[c].pos)
        invariant forall j :: 0 <= j < i && j != c ==> ForwardAt(merged, children[j].es, children[j].pos, p)
      {
        if i != c {
          children[i].Seek(key);
          if children[i].Valid() && children[i].Current().key == key {
            children[i].Next();
          }
          SoughtIsAfter(c, i);
        }
      }
      direction := Forward;
    }

    lemma {:induction false} CurrentIsForward()
      requires Children() && Shows(p) && current.Some? && p < |merged|
      ensures ForwardAt(merged, children[current.value].es, children[current.value].pos, p)
    {
      var c := children[current.value];
      RankAt(merged, p);
      forall j | 0 <= j < |c.es| ensures j < c.pos <==> Rank(merged, c.es[j]) < p {
        RankOrder(merged, c.es, c.es, j, c.pos);
        if j < c.pos {
          assert Before(c.es[j].key, c.es[c.pos].key);
        } else if c.pos < j {
          assert Before(c.es[c.pos].key, c.es[j].key);
        }
      }
    }

    // Advancing the current child moves the whole from rank p to rank p + 1.
    lemma {:induction false} AdvanceCurrent(i: nat)
      requires Children() && Shows(p) && current.Some? && AllForward(p) && i < |children|
      ensures ForwardAt(merged, children[i].es, if i == current.value then children[i].pos + 1 else children[i].pos, p + 1)
    {
      var c := current.value;
      assert ForwardAt(merged, children[i].es, children[i].pos, p);
      ForwardNext(merged, children[i].es, children[i].pos, p);
      RankAt(merged, p);
      if i != c {
        OnlyCurrent(c, i);
      }
    }

    method Next()
      requires Ok() && Valid()
      modifies this, children
      ensures Ok() && p == AfterNext(merged, old(p))
    {
      hide ForwardAt, BackwardAt, RunOf, Rank, SortedEntries;
      if direction != Forward {
        TurnForward();
      }
      forall i | 0 <= i < |children|
        ensures ForwardAt(merged, children[i].es, if i == current.value then children[i].pos + 1 else children[i].pos, p + 1)
      {
        AdvanceCurrent(i);
      }
      children[current.value].Next();
      FindSmallest(p + 1);
      p := p + 1;
    }

    // Child i, sought to the current key and stepped back, stands before it.
    lemma {:induction false} SoughtThenBack(c: nat, i: nat)
      requires Children() && p < |merged| && c < |children| && i < |children| && i != c && merged[p] in children[c].es
      ensures var es := children[i].es;
              var pos := LowerBound(es, merged[p].key);
              BackwardAt(merged, es, if pos < |es| then AfterPrev(es, pos) else LastPosition(es), p + 1)
    {
      var es := children[i].es;
      var pos := LowerBound(es, merged[p].key);
      SeekIsForward(merged, es, p);
      StepBack(merged, es, pos, p);
      OnlyCurrent(c, i);
      BackwardWider(merged, es, if pos < |es| then AfterPrev(es, pos) else LastPosition(es), p);
    }

    // The direction switch of Prev: every other child moves to its last entry before the current key.
    method TurnBackward()
      requires Ok() && Valid() && direction == Forward
      modifies this`direction, children
      ensures AllBackward(p + 1) && direction == Reverse && children[current.value].pos == old(children[current.value].pos)
    {
      hide ForwardAt, BackwardAt, RunOf, Rank, SortedEntries;
      var c := current.value;
      var key := children[c].Current().key;
      for i := 0 to |children|
        invariant children[c].pos == old(children[c].pos)
        invariant forall j :: 0 <= j < i && j != c ==> BackwardAt(merged, children[j].es, children[j].pos, p + 1)
      {
        if i != c {
          children[i].Seek(key);
          SoughtThenBack(c, i);
          if children[i].Valid() {
            children[i].Prev();
          } else {
            children[i].SeekToLast();
          }
        }
      }
      CurrentIsBackward(children[c].es, children[c].pos);
      direction := Reverse;
    }

    lemma {:induction false} CurrentIsBackward(es: seq<Entry>, pos: nat)
      requires SortedEntries(merged) && RunOf(merged, es) && p < |merged| && pos < |es| && es[pos] == merged[p]
      ensures BackwardAt(merged, es, pos, p + 1)
    {
      RankAt(merged, p);
      forall j | pos < j < |es| ensures Rank(merged, es[j]) >= p + 1 {
        assert Before(es[pos].key, es[j].key);
        RankOrder(merged, es, es, pos, j);
      }
    }

    lemma {:induction false} RetreatCurrent(i: nat)
      requires Children() && Shows(p) && current.Some? && AllBackward(p + 1) && i < |children|
      ensures i == current.value ==> BackwardAt(merged, children[i].es, AfterPrev(children[i].es, children[i].pos), p)
      ensures i != current.value ==> BackwardAt(merged, children[i].es, children[i].pos, p)
    {
      var c := current.value;
      assert BackwardAt(merged, children[i].es, children[i].pos, p + 1);
      BackwardPrev(merged, children[i].es, children[i].pos, p);
      RankAt(merged, p);
      if i != c {
        OnlyCurrent(c, i);
      }
    }

    method Prev()
      requires Ok() && Valid()
      modifies this, children
      ensures Ok() && p == AfterPrev(merged, old(p))
    {
      hide ForwardAt, BackwardAt, RunOf, Rank, SortedEntries;
      if direction != Reverse {
        TurnBackward();
      }
      forall i | 0 <= i < |children|
        ensures i == current.value ==> BackwardAt(merged, children[i].es, AfterPrev(children[i].es, children[i].pos), p)
        ensures i != current.value ==> BackwardAt(merged, children[i].es, children[i].pos, p)
      {
        RetreatCurrent(i);
      }
      children[current.value].Prev();
      FindLargest(p);
      p := AfterPrev(merged, p);
    }
  }
}
