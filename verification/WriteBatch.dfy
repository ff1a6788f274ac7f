/** Batches of updates as bytes (db/write_batch.cc). */
module WriteBatches {
  import opened Coding

  datatype Op = Put(key: Bytes, value: Bytes) | Delete(key: Bytes)

  const HEADER: nat := 12
  const TYPE_DELETION: Byte := 0
  const TYPE_VALUE: Byte := 1
  const WORD: nat := 0x1_0000_0000

  predicate FitsOp(op: Op) {
    |op.key| < WORD && (op.Put? ==> |op.value| < WORD)
  }

  predicate FitsOps(ops: seq<Op>) {
    forall i :: 0 <= i < |ops| ==> FitsOp(ops[i])
  }

  function EncodeOp(op: Op): (r: Bytes)
    ensures |r| > 0
  {
    match op
    case Put(key, value) => [TYPE_VALUE] + (LengthPrefixed(key) + LengthPrefixed(value))
    case Delete(key) => [TYPE_DELETION] + LengthPrefixed(key)
  }

  function EncodeOps(ops: seq<Op>): Bytes {
    if ops == [] then [] else EncodeOps(ops[..|ops| - 1]) + EncodeOp(ops[|ops| - 1])
  }

  // rep_: sequence number, count, records.
  function EncodeBatch(sequence: U64, ops: seq<Op>): Bytes
    requires |ops| < WORD
  {
    Fixed64(sequence) + Fixed32(|ops|) + EncodeOps(ops)
  }

  // One record, and how many bytes it takes.
  datatype ParsedOp = BadOp | ParsedOp(op: Op, size: nat)

  function ParseOp(s: Bytes): (r: ParsedOp)
    requires s != []
    ensures r.ParsedOp? ==> 0 < r.size <= |s|
  {
    if s[0] == TYPE_VALUE then
      match ParseLengthPrefixed(s[1..])
      case NoSlice => BadOp
      case Sliced(key, n) =>
        match ParseLengthPrefixed(s[1 + n..])
        case NoSlice => BadOp
        case Sliced(value, m) => ParsedOp(Put(key, value), 1 + n + m)
    else if s[0] == TYPE_DELETION then
      match ParseLengthPrefixed(s[1..])
      case NoSlice => BadOp
      case Sliced(key, n) => ParsedOp(Delete(key), 1 + n)
    else BadOp
  }

  // What Iterate hands to its handler, and whether every byte made sense.
  datatype Iterated = Iterated(ops: seq<Op>, clean: bool)

  function ParseOps(s: Bytes): Iterated
    decreases |s|
  {
    if s == [] then Iterated([], true)
    else
      match ParseOp(s)
      case BadOp => Iterated([], false)
      case ParsedOp(op, n) =>
        var rest := ParseOps(s[n..]);
        Iterated([op] + rest.ops, rest.clean)
  }

  lemma {:induction false} Regroup(a: Bytes, b: Bytes, c: Bytes)
    ensures a + b + c == a + (b + c)
  {
  }

  // What follows a tag and a slice.
  lemma {:induction false} Behind(tag: Byte, a: Bytes, b: Bytes)
    ensures var s := [tag] + (a + b); s[0] == tag && s[1..] == a + b && s[1 + |a|..] == b
  {
  }

  lemma {:induction false} OpRoundTrip(op: Op, rest: Bytes)
    requires FitsOp(op)
    ensures EncodeOp(op) + rest != [] && ParseOp(EncodeOp(op) + rest) == ParsedOp(op, |EncodeOp(op)|)
  {
    hide LengthPrefixed, ParseLengthPrefixed;
    match op {
      case Put(key, value) =>
        var a, b := LengthPrefixed(key), LengthPrefixed(value);
        Regroup([TYPE_VALUE], a + b, rest);
        Regroup(a, b, rest);
        Behind(TYPE_VALUE, a, b + rest);
        LengthPrefixedRoundTrip(key, b + rest);
        LengthPrefixedRoundTrip(value, rest);
      case Delete(key) =>
        Regroup([TYPE_DELETION], LengthPrefixed(key), rest);
        Behind(TYPE_DELETION, LengthPrefixed(key), rest);
        LengthPrefixedRoundTrip(key, rest);
    }
  }

  // Records can also be read from the front.
  lemma {:induction false} EncodeFront(ops: seq<Op>)
    requires ops != []
    ensures EncodeOps(ops) == EncodeOp(ops[0]) + EncodeOps(ops[1..])
  {
    hide EncodeOp;
    if |ops| == 1 {
      assert EncodeOps(ops[..0]) == [] && ops[1..] == [];
    } else {
      var init, last := ops[..|ops| - 1], ops[|ops| - 1];
      EncodeFront(init);
      assert init[1..] == ops[1..][..|ops| - 2];
      assert EncodeOps(ops) == EncodeOp(ops[0]) + EncodeOps(init[1..]) + EncodeOp(last);
    }
  }

  lemma {:induction false} OneMore(head: Bytes, rest: Bytes)
    requires head != [] && ParseOp(head + rest).ParsedOp? && ParseOp(head + rest).size == |head|
    ensures
      var op, more := ParseOp(head + rest).op, ParseOps(rest);
      ParseOps(head + rest) == Iterated([op] + more.ops, more.clean)
  {
    hide ParseOp;
    assert (head + rest)[|head|..] == rest;
  }

  lemma {:induction false} OpsPrefix(ops: seq<Op>, tail: Bytes)
    requires FitsOps(ops)
    ensures ParseOps(EncodeOps(ops) + tail) == Iterated(ops + ParseOps(tail).ops, ParseOps(tail).clean)
    decreases |ops|
  {
    hide EncodeOp, ParseOp;
    if ops == [] {
      assert EncodeOps(ops) + tail == tail && ops + ParseOps(tail).ops == ParseOps(tail).ops;
    } else {
      var rest := EncodeOps(ops[1..]) + tail;
      EncodeFront(ops);
      Regroup(EncodeOp(ops[0]), EncodeOps(ops[1..]), tail);
      OpRoundTrip(ops[0], rest);
      OneMore(EncodeOp(ops[0]), rest);
      OpsPrefix(ops[1..], tail);
      assert [ops[0]] + (ops[1..] + ParseOps(tail).ops) == ops + ParseOps(tail).ops;
    }
  }

  /** Iterate gives back the operations that were put in the batch. */
  lemma {:induction false} OpsRoundTrip(ops: seq<Op>)
    requires FitsOps(ops)
    ensures ParseOps(EncodeOps(ops)) == Iterated(ops, true)
  {
    hide EncodeOps;
    OpsPrefix(ops, []);
    assert EncodeOps(ops) + [] == EncodeOps(ops) && ops + [] == ops;
  }

  lemma {:induction false} CutOp(op: Op, k: nat)
    requires FitsOp(op) && 0 < k < |EncodeOp(op)|
    ensures ParseOp(EncodeOp(op)[..k]) == BadOp
  {
    hide LengthPrefixed, ParseLengthPrefixed;
    var s := EncodeOp(op)[..k];
    match op
    case Delete(key) =>
      assert s[1..] == LengthPrefixed(key)[..k - 1];
      CutPrefixed(key, k - 1);
    case Put(key, value) =>
      var a, b := LengthPrefixed(key), LengthPrefixed(value);
      assert s[1..] == (a + b)[..k - 1];
      CutOf(a, b, k - 1);
      if k - 1 < |a| {
        CutPrefixed(key, k - 1);
      } else {
        var rest := b[..k - 1 - |a|];
        CutHead(a, b, k - 1);
        LengthPrefixedRoundTrip(key, rest);
        assert s[1 + |a|..] == rest;
        CutPrefixed(value, k - 1 - |a|);
      }
  }

  /** Damage behind good records: they are handed over, and then a record that is cut off or whose tag is not
      known ends the iteration with an error. */
  lemma {:induction false} BadRecordStops(ops: seq<Op>, op: Op, k: nat, tag: Byte, rest: Bytes)
    requires FitsOps(ops) && FitsOp(op)
    ensures 0 < k < |EncodeOp(op)| ==> ParseOps(EncodeOps(ops) + EncodeOp(op)[..k]) == Iterated(ops, false)
    ensures tag != TYPE_VALUE && tag != TYPE_DELETION ==> ParseOps(EncodeOps(ops) + ([tag] + rest)) == Iterated(ops, false)
  {
    hide EncodeOps, EncodeOp;
    assert ops + [] == ops;
    if 0 < k < |EncodeOp(op)| {
      OpsPrefix(ops, EncodeOp(op)[..k]);
      CutOp(op, k);
    }
    OpsPrefix(ops, [tag] + rest);
  }

  lemma {:induction false} EncodeAppend(a: seq<Op>, b: seq<Op>)
    ensures EncodeOps(a + b) == EncodeOps(a) + EncodeOps(b)
  {
    hide EncodeOp;
    if b == [] {
      assert a + b == a;
    } else {
      var init, last := b[..|b| - 1], b[|b| - 1];
      EncodeAppend(a, init);
      assert (a + b)[..|a + b| - 1] == a + init;
      Regroup(EncodeOps(a), EncodeOps(init), EncodeOp(last));
    }
  }

  // The three parts of a batch.
  lemma {:induction false} SplitParts(a: Bytes, b: Bytes, c: Bytes)
    requires |a| == 8 && |b| == 4
    ensures (a + b + c)[..8] == a && (a + b + c)[8..12] == b && (a + b + c)[8..] == b + c && (a + b + c)[12..] == c
    ensures a + b + c == a + (b + c)
  {
  }

  lemma {:induction false} JoinParts(a: Bytes, b: Bytes, c: Bytes, d: Bytes)
    ensures a + b + c + d == a + b + (c + d)
  {
  }

  class WriteBatch {
    var rep: Bytes
    ghost var ops: seq<Op>
    ghost var sequence: U64

    ghost predicate Valid()
      reads this
    {
      |ops| < WORD && FitsOps(ops) && rep == EncodeBatch(sequence, ops)
    }

    constructor ()
      ensures Valid() && ops == []
    {
      rep, ops, sequence := [0, 0, 0, 0, 0, 0, 0, 0, 0, 0, 0, 0], [], 0;
    }

    lemma {:induction false} Parts()
      requires Valid()
      ensures |rep| >= HEADER && rep[..8] == Fixed64(sequence) && rep[8..12] == Fixed32(|ops|) && rep[12..] == EncodeOps(ops)
      ensures DecodeFixed32(rep[8..]) == |ops|
    {
      hide Fixed32, DecodeFixed32, Fixed64, EncodeOps;
      SplitParts(Fixed64(sequence), Fixed32(|ops|), EncodeOps(ops));
      Fixed32RoundTrip(|ops|, EncodeOps(ops));
    }

    function Count(): nat
      requires |rep| >= HEADER
      reads this
    {
      DecodeFixed32(rep[8..])
    }

    method SetSequence(seqno: U64)
      requires Valid()
      modifies this
      ensures Valid() && ops == old(ops) && sequence == seqno
    {
      hide Fixed32, Fixed64, EncodeOps;
      Parts();
      SplitParts(Fixed64(sequence), Fixed32(|ops|), EncodeOps(ops));
      rep := Fixed64(seqno) + rep[8..];
      sequence := seqno;
      SplitParts(Fixed64(sequence), Fixed32(|ops|), EncodeOps(ops));
    }

    method Put(key: Bytes, value: Bytes)
      requires Valid() && FitsOp(Op.Put(key, value)) && |ops| + 1 < WORD
      modifies this
      ensures Valid() && ops == old(ops) + [Op.Put(key, value)] && sequence == old(sequence)
    {
      ghost var op := Op.Put(key, value);
      OneOp(op);
      hide EncodeOps, EncodeBatch;
      Parts();
      var n := Count() + 1;
      AppendRecords(n, EncodeOp(Op.Put(key, value)), [op]);
    }

    method Delete(key: Bytes)
      requires Valid() && FitsOp(Op.Delete(key)) && |ops| + 1 < WORD
      modifies this
      ensures Valid() && ops == old(ops) + [Op.Delete(key)] && sequence == old(sequence)
    {
      ghost var op := Op.Delete(key);
      OneOp(op);
      hide EncodeOps, EncodeBatch;
      Parts();
      var n := Count() + 1;
      AppendRecords(n, EncodeOp(Op.Delete(key)), [op]);
    }

    // WriteBatchInternal::Append
    method Append(src: WriteBatch)
      requires Valid() && src.Valid() && |ops| + |src.ops| < WORD
      modifies this
      ensures Valid() && ops == old(ops) + old(src.ops) && sequence == old(sequence)
    {
      hide EncodeOps, EncodeBatch;
      Parts();
      src.Parts();
      var n := Count() + src.Count();
      AppendRecords(n, src.rep[HEADER..], src.ops);
    }

    static lemma {:induction false} OneOp(op: Op)
      ensures EncodeOps([op]) == EncodeOp(op)
    {
      assert [op][..0] == [];
      assert [] + EncodeOp(op) == EncodeOp(op);
    }

    // SetCount, then more records at the end.
    method AppendRecords(count: nat, records: Bytes, ghost more: seq<Op>)
      requires Valid() && FitsOps(more) && count == |ops| + |more| < WORD && records == EncodeOps(more)
      modifies this
      ensures Valid() && ops == old(ops) + more && sequence == old(sequence)
    {
      hide Fixed32, Fixed64, EncodeOps;
      Parts();
      EncodeAppend(ops, more);
      rep := rep[..8] + Fixed32(count) + rep[HEADER..];
      JoinParts(Fixed64(sequence), Fixed32(count), EncodeOps(ops), records);
      rep := rep + records;
      ops := ops + more;
    }

    method Clear()
      modifies this
      ensures Valid() && ops == []
    {
      rep, ops, sequence := [0, 0, 0, 0, 0, 0, 0, 0, 0, 0, 0, 0], [], 0;
    }
  }

  /** Iterate over any bytes: the handler is called for each record before the first bad one. */
  method Iterate(rep: Bytes) returns (handled: seq<Op>, ok: bool)
    ensures |rep| < HEADER ==> handled == [] && !ok
    ensures |rep| >= HEADER ==>
      var r := ParseOps(rep[HEADER..]);
      handled == r.ops && (ok <==> r.clean && |r.ops| == DecodeFixed32(rep[8..]))
  {
    handled, ok := [], false;
    if |rep| < HEADER {
      return;
    }
    var input := rep[HEADER..];
    while input != []
      invariant ParseOps(rep[HEADER..]) == Iterated(handled + ParseOps(input).ops, ParseOps(input).clean)
      decreases |input|
    {
      hide ParseOp;
      match ParseOp(input) {
        case BadOp =>
          assert handled + [] == handled;
          return;
        case ParsedOp(op, n) =>
          assert handled + ([op] + ParseOps(input[n..]).ops) == (handled + [op]) + ParseOps(input[n..]).ops;
          handled, input := handled + [op], input[n..];
      }
    }
    assert handled + [] == handled;
    ok := |handled| == DecodeFixed32(rep[8..]);
  }

  /** A batch that was built by Put, Delete and Append is iterated without error. */
  lemma {:induction false} BatchRoundTrip(sequence: U64, ops: seq<Op>)
    requires |ops| < WORD && FitsOps(ops)
    ensures
      var rep := EncodeBatch(sequence, ops);
      && |rep| >= HEADER && DecodeFixed64(rep) == sequence && DecodeFixed32(rep[8..]) == |ops|
      && ParseOps(rep[HEADER..]) == Iterated(ops, true)
  {
    hide Fixed32, DecodeFixed32, Fixed64, DecodeFixed64, EncodeOps, ParseOps;
    OpsRoundTrip(ops);
    SplitParts(Fixed64(sequence), Fixed32(|ops|), EncodeOps(ops));
    Fixed64RoundTrip(sequence, Fixed32(|ops|) + EncodeOps(ops));
    Fixed32RoundTrip(|ops|, EncodeOps(ops));
  }
}
