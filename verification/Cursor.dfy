/** The contract of an internal iterator (leveldb/iterator.h): a position in a sorted run. */
module Cursors {
  import opened Keys

  // The position that "not Valid()" stands for is |es|; an iterator does not remember on which
  // side it ran off the end.
  function AfterNext(es: seq<Entry>, p: nat): nat
    requires p < |es|
  {
    p + 1
  }

  function AfterPrev(es: seq<Entry>, p: nat): nat
    requires p < |es|
  {
    if p == 0 then |es| else p - 1
  }

  function LastPosition(es: seq<Entry>): nat {
    if es == [] then 0 else |es| - 1
  }

  /** A child iterator: a memtable, a table, or the concatenation of the tables of a level. */
  class Cursor {
    const es: seq<Entry>
    var pos: nat

    constructor (es: seq<Entry>)
      ensures this.es == es && pos == |es|
    {
      this.es := es;
      pos := |es|;
    }

    predicate Valid()
      reads this
    {
      pos < |es|
    }

    function Current(): Entry
      requires Valid()
      reads this
    {
      es[pos]
    }

    method SeekToFirst()
      modifies this
      ensures pos == 0
    {
      pos := 0;
    }

    method SeekToLast()
      modifies this
      ensures pos == LastPosition(es)
    {
      pos := if es == [] then 0 else |es| - 1;
    }

    method Seek(target: InternalKey)
      modifies this
      ensures pos == LowerBound(es, target)
    {
      pos := LowerBound(es, target);
    }

    method Next()
      requires Valid()
      modifies this
      ensures pos == AfterNext(es, old(pos))
    {
      pos := pos + 1;
    }

    method Prev()
      requires Valid()
      modifies this
      ensures pos == AfterPrev(es, old(pos))
    {
      pos := if pos == 0 then |es| else pos - 1;
    }
  }
}
