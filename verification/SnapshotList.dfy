/** The snapshots of the database (db/snapshot.h): a circular doubly linked list, oldest first. */
module SnapshotLists {
  import opened Circles

  class SnapshotImpl {
    const sequence: nat
    var prev: SnapshotImpl?
    var next: SnapshotImpl?

    constructor (sequence: nat)
      ensures this.sequence == sequence
    {
      this.sequence := sequence;
      prev, next := null, null;
    }
  }

  // The snapshots of r, the first of which is the dummy head, linked in a circle.
  ghost predicate Ring(r: seq<SnapshotImpl>)
    reads r
  {
    |r| > 0 && Distinct(r) && forall i :: 0 <= i < |r| ==> r[i].next == Succ(r, i) && r[i].prev == Pred(r, i)
  }

  // The numbers of the snapshots after the head.
  function Sequences(r: seq<SnapshotImpl>): seq<nat> {
    if r == [] then [] else seq(|r| - 1, i requires 0 <= i < |r| - 1 => r[i + 1].sequence)
  }

  ghost predicate NonDecreasing(s: seq<nat>) {
    forall i, j :: 0 <= i < j < |s| ==> s[i] <= s[j]
  }

  class SnapshotList {
    const head: SnapshotImpl
    ghost var ring: seq<SnapshotImpl>     // the head, and the snapshots after it

    ghost predicate Valid()
      reads this, ring
    {
      Ring(ring) && ring[0] == head && NonDecreasing(Live())
    }

    // The sequence numbers of the snapshots that have not been deleted.
    ghost function Live(): seq<nat>
      reads this
    {
      Sequences(ring)
    }

    constructor ()
      ensures Valid() && Live() == [] && fresh(head)
    {
      var h := new SnapshotImpl(0);
      head := h;
      ring := [h];
      new;
      head.prev, head.next := head, head;
    }

    method Empty() returns (empty: bool)
      requires Valid()
      ensures empty <==> Live() == []
    {
      assert head.next == Succ(ring, 0);
      empty := head.next == head;
    }

    /** The smallest sequence number that a snapshot still reads at. */
    method Oldest() returns (snapshot: SnapshotImpl)
      requires Valid() && Live() != []
      ensures snapshot in ring[1..] && snapshot.sequence == Live()[0] && forall n :: n in Live() ==> snapshot.sequence <= n
    {
      assert head.next == Succ(ring, 0) == ring[1..][0];
      snapshot := head.next;
    }

    method Newest() returns (snapshot: SnapshotImpl)
      requires Valid() && Live() != []
      ensures snapshot in ring[1..] && snapshot.sequence == Live()[|Live()| - 1]
    {
      assert head.prev == Pred(ring, 0) == ring[1..][|ring| - 2];
      snapshot := head.prev;
    }

    /** New; sequence numbers are handed in in non-decreasing order. */
    method New(sequence: nat) returns (snapshot: SnapshotImpl)
      requires Valid() && (Live() != [] ==> Live()[|Live()| - 1] <= sequence)
      modifies this`ring, ring
      ensures Valid() && fresh(snapshot) && ring == old(ring) + [snapshot] && snapshot.sequence == sequence
      ensures Live() == old(Live()) + [sequence]
    {
      hide Succ, Pred, Sequences, NonDecreasing;
      snapshot := new SnapshotImpl(sequence);
      ghost var r := ring;
      LastOf(r);
      AppendedLive(r, snapshot);
      snapshot.next := head;
      snapshot.prev := head.prev;
      var last: SnapshotImpl := snapshot.prev;
      last.next := snapshot;
      head.prev := snapshot;
      ring := r + [snapshot];
      forall j | 0 <= j < |r| + 1 ensures ring[j].next == Succ(ring, j) && ring[j].prev == Pred(ring, j) {
        SuccAppended(r, snapshot, j);
      }
    }

    /** Delete, of a snapshot of this list: the others stay, in their order. */
    method Delete(snapshot: SnapshotImpl, ghost i: nat)
      requires Valid() && 0 < i < |ring| && ring[i] == snapshot
      modifies this`ring, ring
      ensures Valid() && ring == Without(old(ring), i) && Live() == old(Live())[..i - 1] + old(Live())[i..]
    {
      hide Succ, Pred, Sequences, NonDecreasing, Without;
      ghost var r := ring;
      NeighboursOf(r, i);
      RemovedLive(r, i);
      var prev: SnapshotImpl, next: SnapshotImpl := snapshot.prev, snapshot.next;
      prev.next := snapshot.next;
      next.prev := snapshot.prev;
      ring := Without(r, i);
      forall j | 0 <= j < |r| - 1 ensures ring[j].next == Succ(ring, j) && ring[j].prev == Pred(ring, j) {
        SuccWithout(r, i, j);
      }
    }

    /** The snapshot below which a compaction may drop entries: that of DoCompactionWork. */
    method SmallestSnapshot(lastSequence: nat) returns (smallest: nat)
      requires Valid() && forall n :: n in Live() ==> n <= lastSequence
      ensures smallest == (if Live() == [] then lastSequence else Live()[0]) && forall n :: n in Live() ==> smallest <= n
    {
      var empty := Empty();
      if empty {
        smallest := lastSequence;
      } else {
        var oldest := Oldest();
        smallest := oldest.sequence;
      }
    }
  }

  lemma {:induction false} LastOf(r: seq<SnapshotImpl>)
    requires Ring(r)
    ensures r[0].prev == r[|r| - 1]
  {
  }

  lemma {:induction false} NeighboursOf(r: seq<SnapshotImpl>, i: nat)
    requires Ring(r) && 0 < i < |r|
    ensures r[i].prev == r[i - 1] && r[i].next == r[if i + 1 < |r| then i + 1 else 0]
  {
  }

  lemma {:induction false} AppendedLive(r: seq<SnapshotImpl>, x: SnapshotImpl)
    requires |r| > 0 && Distinct(r) && x !in r && NonDecreasing(Sequences(r))
    requires Sequences(r) != [] ==> Sequences(r)[|Sequences(r)| - 1] <= x.sequence
    ensures Distinct(r + [x]) && Sequences(r + [x]) == Sequences(r) + [x.sequence] && NonDecreasing(Sequences(r) + [x.sequence])
  {
  }

  lemma {:induction false} RemovedLive(r: seq<SnapshotImpl>, i: nat)
    requires Distinct(r) && NonDecreasing(Sequences(r)) && 0 < i < |r|
    ensures |Without(r, i)| == |r| - 1 && Without(r, i)[0] == r[0] && Distinct(Without(r, i))
    ensures |Sequences(r)| == |r| - 1 && Sequences(Without(r, i)) == Sequences(r)[..i - 1] + Sequences(r)[i..]
    ensures NonDecreasing(Sequences(Without(r, i)))
  {
    var s, r' := Sequences(r), Without(r, i);
    assert Sequences(r') == s[..i - 1] + s[i..];
    forall j, k | 0 <= j < k < |r'| ensures r'[j] != r'[k] {
      assert r'[j] == r[if j < i then j else j + 1] && r'[k] == r[if k < i then k else k + 1];
    }
  }
}
