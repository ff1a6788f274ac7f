/** The wrapping field iterator (pb_common.c). */
module NanopbIter {
  import opened NanopbFormat

  class FieldIter {
    const fields: seq<Field>
    var pos: nat
    var requiredFieldIndex: nat

    // Only in an empty message is the position that of the terminator.
    ghost predicate Valid()
      reads this
    {
      && (if fields == [] then pos == 0 else pos < |fields|)
      && requiredFieldIndex == RequiredIndex(fields, pos)
    }

    // pb_field_iter_begin
    constructor (fields: seq<Field>)
      ensures Valid() && this.fields == fields && pos == 0
    {
      this.fields := fields;
      pos, requiredFieldIndex := 0, 0;
    }

    /** pb_field_iter_next: false after the last field, with the iterator back at the first. */
    method Next() returns (more: bool)
      requires Valid()
      modifies this
      ensures Valid()
      ensures more <==> old(pos) + 1 < |fields|
      ensures pos == if more then old(pos) + 1 else 0
    {
      if pos == |fields| { return false; }
      if pos + 1 == |fields| {
        pos, requiredFieldIndex := 0, 0;
        return false;
      }
      if fields[pos].htype.Required? {
        requiredFieldIndex := requiredFieldIndex + 1;
      }
      pos := pos + 1;
      return true;
    }

    // The positions passed on the way from `start`.
    ghost predicate Passed(start: nat, i: nat)
      reads this
    {
      if start <= pos then start <= i < pos else start <= i < |fields| || i < pos
    }

    /** pb_field_iter_find: from where the iterator is, around the end, until the tag or the start is met.
        The terminator of an empty message has tag 0. */
    method Find(tag: nat) returns (found: bool)
      requires Valid()
      modifies this
      ensures Valid()
      ensures fields == [] ==> found == (tag == 0)
      ensures fields != [] ==> found == (FindField(fields, tag) < |fields|)
      ensures fields != [] && found ==> fields[pos].tag == tag && (DistinctTags(fields) ==> pos == FindField(fields, tag))
      ensures !found ==> pos == old(pos)
    {
      if fields == [] {
        found := tag == 0;
        return;
      }
      var start := pos;
      found := fields[pos].tag == tag;
      if !found {
        var more := Next();
        while pos != start && !found
          invariant Valid()
          invariant found ==> fields[pos].tag == tag
          invariant pos == start ==> !found
          invariant forall i :: 0 <= i < |fields| && (Passed(start, i) || (pos == start && !found)) ==> fields[i].tag != tag
          decreases if pos > start then |fields| - pos + start else start - pos, !found
        {
          if fields[pos].tag == tag {
            found := true;
          } else {
            more := Next();
          }
        }
      }
    }
  }
}
