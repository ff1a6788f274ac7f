/** Internal keys (db/dbformat.h, db/dbformat.cc).

    A user key is modelled by its position in the order of the user comparator.
    Module BytewiseComparator shows that the positions of byte strings under the
    default comparator are real numbers, so nothing is assumed about the order
    except that it is total; in particular keys are dense, not discrete. */
module Keys {
  import opened Coding

  type UserKey = real

  // The order of the constructors is the numeric order of the source's enum.
  datatype ValueType = Deletion | Value

  datatype InternalKey = InternalKey(user: UserKey, sequence: nat, kind: ValueType)

  datatype Entry = Entry(key: InternalKey, value: Bytes)

  const MAX_SEQUENCE: nat := 0xff_ffff_ffff_ffff

  // PackSequenceAndType
  function Tag(k: InternalKey): nat {
    256 * k.sequence + if k.kind.Value? then 1 else 0
  }

  // InternalKeyComparator::Compare(a, b) < 0: user key ascending, tag descending.
  predicate Before(a: InternalKey, b: InternalKey) {
    a.user < b.user || (a.user == b.user && Tag(a) > Tag(b))
  }

  predicate AtOrBefore(a: InternalKey, b: InternalKey) {
    !Before(b, a)
  }

  // The key that LookupKey builds: the first possible entry of `user` at or below `snapshot`.
  function LookupKey(user: UserKey, snapshot: nat): InternalKey {
    InternalKey(user, snapshot, Value)
  }

  // The lookup key separates the entries a snapshot must not see from those it may see.
  lemma {:induction false} LookupKeySeparates(k: InternalKey, user: UserKey, snapshot: nat)
    ensures k.user == user ==> (AtOrBefore(LookupKey(user, snapshot), k) <==> k.sequence <= snapshot)
  {
  }

  // Strictly increasing in internal-key order, as every table and memtable is.
  predicate SortedEntries(es: seq<Entry>) {
    forall i, j :: 0 <= i < j < |es| ==> Before(es[i].key, es[j].key)
  }

  // Position of the first entry at or after `target`: what Seek does on a table or a memtable.
  function LowerBound(es: seq<Entry>, target: InternalKey): (p: nat)
    ensures p <= |es|
    ensures forall i :: 0 <= i < p ==> Before(es[i].key, target)
    ensures p < |es| ==> AtOrBefore(target, es[p].key)
  {
    if es == [] || !Before(es[0].key, target) then 0 else 1 + LowerBound(es[1..], target)
  }

  lemma {:induction false} LowerBoundSorted(es: seq<Entry>, target: InternalKey, i: nat)
    requires SortedEntries(es) && i < |es|
    ensures i < LowerBound(es, target) <==> Before(es[i].key, target)
  {
    var p := LowerBound(es, target);
    if p < i {
      assert Before(es[p].key, es[i].key);
    }
  }

  // The position that LowerBound finds is the only one with nothing before the target behind it.
  lemma {:induction false} LowerBoundIs(es: seq<Entry>, t: InternalKey, p: nat)
    requires p <= |es| && (forall x :: 0 <= x < p ==> Before(es[x].key, t)) && (p < |es| ==> !Before(es[p].key, t))
    ensures LowerBound(es, t) == p
  {
  }

  // Consecutive runs as one.
  function Flatten(runs: seq<seq<Entry>>): seq<Entry> {
    if runs == [] then [] else Flatten(runs[..|runs| - 1]) + runs[|runs| - 1]
  }
}
