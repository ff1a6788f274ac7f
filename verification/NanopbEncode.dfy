/** The encoder (pb_encode.c): everything that is delimited is encoded twice, once to size it. */
module NanopbEncode {
  import opened Coding
  import opened Options
  import opened NanopbFormat
  import opened NanopbIter

  datatype Error = StreamFull | BytesSizeExceeded | ArrayMaxSizeExceeded | SubmsgSizeChanged
  datatype Status = Success | Failure(error: Error)

  datatype Output = Output(bytesWritten: nat, state: Bytes)

  /** What every encoding method does. It succeeds if and only if the value is in its limits and there is
      room for `b`; then `b` has been counted, and written unless the stream only sizes. If it fails, some
      first part of `b` has been written. The size of a submessage never changes between its two runs. */
  ghost predicate Emitted(sizing: bool, maxSize: nat, before: Output, after: Output, status: Status, inLimits: bool, b: Bytes) {
    && (status.Success? <==> inLimits && (sizing || before.bytesWritten + |b| <= maxSize))
    && (status.Success? ==> after == Output(before.bytesWritten + |b|, before.state + Written(sizing, b)))
    && (status.Failure? ==> before.state <= after.state <= before.state + Written(sizing, b))
    && (status.Failure? ==> status.error != SubmsgSizeChanged && (status.error == StreamFull ==> !sizing) && (inLimits ==> status.error == StreamFull))
  }

  function Written(sizing: bool, b: Bytes): Bytes {
    if sizing then [] else b
  }

  // Two pieces in a row.
  lemma {:induction false} Then(sizing: bool, maxSize: nat, before: Output, mid: Output, after: Output, first: Bytes,
      status: Status, inLimits: bool, second: Bytes)
    requires Emitted(sizing, maxSize, before, mid, Success, true, first) && Emitted(sizing, maxSize, mid, after, status, inLimits, second)
    ensures Emitted(sizing, maxSize, before, after, status, inLimits, first + second)
  {
    assert before.state + first + second == before.state + (first + second);
    assert before.state <= before.state + first;
    if status.Failure? {
      Prefixes(before.state, Written(sizing, first), after.state, Written(sizing, second), Written(sizing, first + second));
    }
  }

  lemma {:induction false} Prefixes(s: Bytes, a: Bytes, t: Bytes, b: Bytes, c: Bytes)
    requires s + a <= t <= s + a + b && c == a + b
    ensures s <= t <= s + c
  {
    assert s + a + b == s + c;
    assert s == (s + a)[..|s|];
  }

  // Failing in the middle of more.
  lemma {:induction false} Stops(sizing: bool, maxSize: nat, before: Output, after: Output, status: Status, inLimits: bool, part: Bytes,
      rest: Bytes, allInLimits: bool)
    requires Emitted(sizing, maxSize, before, after, status, inLimits, part) && status.Failure?
    requires allInLimits ==> inLimits
    ensures Emitted(sizing, maxSize, before, after, status, allInLimits, part + rest)
  {
    assert before.state + (part + rest) == before.state + part + rest;
    assert sizing ==> Written(sizing, part + rest) == Written(sizing, part);
  }

  class OStream {
    const sizing: bool        // callback == NULL
    const maxSize: nat
    var bytesWritten: nat
    var state: Bytes          // what the callback has been given

    ghost predicate Valid()
      reads this
    {
      !sizing ==> bytesWritten <= maxSize
    }

    // PB_OSTREAM_SIZING
    constructor Sizing()
      ensures Valid() && sizing && bytesWritten == 0 && state == []
    {
      sizing, maxSize, bytesWritten, state := true, 0, 0, [];
    }

    // A stream with a callback: from a buffer, or the substream of another stream.
    constructor Writing(maxSize: nat, state: Bytes)
      ensures Valid() && !sizing && this.maxSize == maxSize && bytesWritten == 0 && this.state == state
    {
      sizing, this.maxSize, bytesWritten, this.state := false, maxSize, 0, state;
    }

    ghost function Now(): Output
      reads this
    {
      Output(bytesWritten, state)
    }

    // What a method has done since `before`.
    ghost predicate Emits(before: Output, status: Status, inLimits: bool, b: Bytes)
      reads this
    {
      Emitted(sizing, maxSize, before, Now(), status, inLimits, b)
    }

    /** pb_write; a sizing stream ignores the buffer. */
    method Write(buf: Bytes, count: nat) returns (status: Status)
      requires Valid() && (sizing || |buf| == count)
      modifies this
      ensures Valid()
      ensures |buf| == count ==> Emits(old(Now()), status, true, buf)
      ensures sizing ==> status == Success && bytesWritten == old(bytesWritten) + count && state == old(state)
    {
      if count > 0 && !sizing {
        if bytesWritten + count > maxSize {
          return Failure(StreamFull);
        }
        state := state + buf;
      }
      bytesWritten := bytesWritten + count;
      return Success;
    }

    /** pb_encode_varint */
    method EncodeVarint(value: U64) returns (status: Status)
      requires Valid()
      modifies this
      ensures Valid() && Emits(old(Now()), status, true, Varint(value))
    {
      if value <= 0x7F {
        status := Write([value], 1);
        return;
      }
      hide Varint, Emitted;
      var buffer := new Byte[10];
      var v: nat, i := value, 0;
      WeightsOf();
      VarintSize(value, 10);
      assert buffer[..0] + Varint(value) == Varint(value);
      while v > 0
        invariant i <= 10 && fresh(buffer) && Now() == old(Now())
        invariant v > 0 ==> buffer[..i] + Varint(v) == Varint(value)
        invariant v == 0 ==> i > 0 && buffer[i - 1] >= 128 && buffer[..i - 1] + [buffer[i - 1] - 128] == Varint(value)
      {
        ghost var before := buffer[..i];
        assert |before + Varint(v)| == i + |Varint(v)|;
        VarintSplit(before, v);
        buffer[i] := v % 128 + 128;
        assert buffer[..i] == before && buffer[..i + 1] == before + [v % 128 + 128];
        v := v / 128;
        i := i + 1;
      }
      buffer[i - 1] := buffer[i - 1] - 128;
      assert buffer[..i] == Varint(value);
      status := Write(buffer[..i], i);
    }

    /** pb_encode_svarint */
    method EncodeSVarint(value: int) returns (status: Status)
      requires Valid() && FitsSigned(value, 8)
      modifies this
      ensures Valid() && Emits(old(Now()), status, true, Varint(ZigZag(value)))
    {
      // ~(value << 1) for a negative value
      var zigzagged := if value < 0 then 0xFFFF_FFFF_FFFF_FFFF - AsUnsigned(2 * value, 8) else 2 * value;
      status := EncodeVarint(zigzagged);
    }

    /** pb_encode_tag, of a field number that a descriptor can hold */
    method EncodeTag(wireType: nat, fieldNumber: nat) returns (status: Status)
      requires Valid() && fieldNumber < 0x2000_0000 && wireType < 8
      modifies this
      ensures Valid() && Emits(old(Now()), status, true, TagBytes(fieldNumber, wireType))
    {
      status := EncodeVarint(fieldNumber * 8 + wireType);
    }

    /** pb_encode_string */
    method EncodeString(buffer: Bytes) returns (status: Status)
      requires Valid() && |buffer| < 0x1_0000_0000_0000_0000
      modifies this
      ensures Valid() && Emits(old(Now()), status, true, Delimited(buffer))
    {
      hide Varint;
      status := EncodeVarint(|buffer|);
      if status.Success? {
        status := Write(buffer, |buffer|);
      }
    }

    /** The encoders of the types (PB_ENCODERS). */
    method EncodeData(t: LType, v: Value) returns (status: Status)
      requires Valid() && ValidLType(t) && ValidValue(t, v) && |EncodeValue(t, v)| < 0x1_0000_0000_0000_0000
      modifies this
      ensures Valid() && Emits(old(Now()), status, ValueInLimits(t, v), EncodeValue(t, v))
      decreases t, 4
    {
      hide Varint, Delimited, Fixed32, Fixed64, MessageInLimits, EncodeFields, ValidFields, ValidMessage, FitsSigned;
      match t {
        case Bool => status := EncodeVarint(if v.n != 0 then 1 else 0);
        case Varint_(size) => status := EncodeVarint(AsUnsigned(v.n, 8));
        case UVarint(size) => status := EncodeVarint(v.n);
        case SVarint(size) =>
          WiderFits(v.n, size);
          status := EncodeSVarint(v.n);
        case Fixed32_ => status := Write(Fixed32(v.n), 4);
        case Fixed64_ => status := Write(Fixed64(v.n), 8);
        case Bytes_(max) =>
          if |v.bytes| > max {
            return Failure(BytesSizeExceeded);
          }
          status := EncodeString(v.bytes);
        case String_(_) => status := EncodeString(v.bytes);
        case FixedBytes(_) => status := EncodeString(v.bytes);
        case Submessage(fields) =>
          DelimitedLonger(EncodeFields(fields, v.slots));
          status := EncodeSubmessage(fields, v.slots);
      }
    }

    /** pb_encode_submessage */
    method EncodeSubmessage(fields: seq<Field>, slots: map<nat, Slot>) returns (status: Status)
      requires Valid() && ValidFields(fields) && ValidMessage(fields, slots) && |EncodeFields(fields, slots)| < 0x1_0000_0000_0000_0000
      modifies this
      ensures Valid() && Emits(old(Now()), status, MessageInLimits(fields, slots), Delimited(EncodeFields(fields, slots)))
      decreases fields, 5, 0
    {
      hide Varint, EncodeFields, MessageInLimits, ValidMessage, ValidFields;
      var sizestream := new OStream.Sizing();
      status := sizestream.Encode(fields, slots);
      if status.Failure? { return; }
      var size := sizestream.bytesWritten;
      status := EncodeVarint(size);
      if status.Failure? { return; }
      if sizing {
        status := Write([], size);
        return;
      }
      if bytesWritten + size > maxSize {
        return Failure(StreamFull);
      }
      var substream := new OStream.Writing(size, state);
      status := substream.Encode(fields, slots);
      bytesWritten := bytesWritten + substream.bytesWritten;
      state := substream.state;
      if substream.bytesWritten != size {
        return Failure(SubmsgSizeChanged);
      }
    }

    /** The packed branch of encode_array. */
    method EncodePackedArray(f: Field, vs: seq<Value>) returns (status: Status)
      requires Valid() && ValidField(f) && Packable(f.ltype) && forall i :: 0 <= i < |vs| ==> ValidValue(f.ltype, vs[i])
      requires |EncodePacked(f.ltype, vs)| < 0x1_0000_0000_0000_0000
      modifies this
      ensures Valid() && Emits(old(Now()), status, true, TagBytes(f.tag, WT_STRING) + Delimited(EncodePacked(f.ltype, vs)))
      decreases f, 5
    {
      hide Varint, EncodePacked, ValidValue, TagBytes, Emitted;
      ghost var start, tag, packed := Now(), TagBytes(f.tag, WT_STRING), EncodePacked(f.ltype, vs);
      Regroup(tag, Varint(|packed|), packed);
      status := EncodeTag(WT_STRING, f.tag);
      if status.Failure? {
        Stops(sizing, maxSize, start, Now(), status, true, tag, Delimited(packed), true);
        return;
      }
      var size := PackedSize(f.ltype, vs);
      ghost var mid := Now();
      status := EncodeVarint(size);
      Then(sizing, maxSize, start, mid, Now(), tag, status, true, Varint(size));
      if status.Failure? {
        Stops(sizing, maxSize, start, Now(), status, true, tag + Varint(size), packed, true);
        return;
      }
      mid := Now();
      if sizing {
        status := Write([], size);
        JustSizing(maxSize, mid, Now(), packed);
      } else {
        status := EncodeElements(f.ltype, vs);
      }
      Then(sizing, maxSize, start, mid, Now(), tag + Varint(size), status, true, packed);
    }

    // The total size of a packed array: by a sizing run, unless all elements have the same size.
    static method PackedSize(t: LType, vs: seq<Value>) returns (size: nat)
      requires ValidLType(t) && Packable(t) && forall i :: 0 <= i < |vs| ==> ValidValue(t, vs[i])
      requires |EncodePacked(t, vs)| < 0x1_0000_0000_0000_0000
      ensures size == |EncodePacked(t, vs)|
      decreases t, 6
    {
      hide EncodePacked, ValidValue;
      if t.Fixed32_? {
        PackedFixedSize(t, vs, 4);
        size := 4 * |vs|;
      } else if t.Fixed64_? {
        PackedFixedSize(t, vs, 8);
        size := 8 * |vs|;
      } else {
        var sizestream := new OStream.Sizing();
        var status := sizestream.EncodeElements(t, vs);
        size := sizestream.bytesWritten;
      }
    }

    // The loop over the elements of a packed array.
    method EncodeElements(t: LType, vs: seq<Value>) returns (status: Status)
      requires Valid() && ValidLType(t) && Packable(t) && forall i :: 0 <= i < |vs| ==> ValidValue(t, vs[i])
      requires |EncodePacked(t, vs)| < 0x1_0000_0000_0000_0000
      modifies this
      ensures Valid() && Emits(old(Now()), status, true, EncodePacked(t, vs))
      decreases t, 5
    {
      hide EncodeValue, ValueInLimits, ValidValue, ValidLType, Emitted;
      status := Success;
      ghost var start, done := Now(), [];
      NothingYet(sizing, maxSize, start);
      assert vs[0..] == vs && [] + EncodePacked(t, vs) == EncodePacked(t, vs);
      for i := 0 to |vs|
        invariant done + EncodePacked(t, vs[i..]) == EncodePacked(t, vs)
        invariant Valid() && status.Success? && Emits(start, Success, true, done)
      {
        ghost var mid, b, tail := Now(), EncodeValue(t, vs[i]), EncodePacked(t, vs[i + 1..]);
        EncodePackedStep(t, vs, i);
        Regroup(done, b, tail);
        PackableInLimits(t, vs[i]);
        Shorter(done, b, tail);
        status := EncodeData(t, vs[i]);
        Then(sizing, maxSize, start, mid, Now(), done, status, true, b);
        if status.Failure? {
          Stops(sizing, maxSize, start, Now(), status, true, done + b, tail, true);
          return;
        }
        done := done + b;
      }
      assert done + [] == done;
    }

    /** encode_array */
    method EncodeArray(f: Field, vs: seq<Value>) returns (status: Status)
      requires Valid() && ValidField(f) && f.htype.Repeated? && ValidSlot(f, Many(vs))
      requires |EncodeField(f, Many(vs))| < 0x1_0000_0000_0000_0000
      modifies this
      ensures Valid() && Emits(old(Now()), status, SlotInLimits(f, Many(vs)), EncodeField(f, Many(vs)))
      decreases f, 6
    {
      hide EncodeValue, ValueInLimits, ValidValue, TagBytes, ValidLType, EncodePacked;
      if |vs| == 0 { return Success; }
      if |vs| > f.htype.max {
        return Failure(ArrayMaxSizeExceeded);
      }
      if Packable(f.ltype) {
        forall i | 0 <= i < |vs| ensures ValueInLimits(f.ltype, vs[i]) { PackableInLimits(f.ltype, vs[i]); }
        DelimitedLonger(EncodePacked(f.ltype, vs));
        status := EncodePackedArray(f, vs);
      } else {
        status := EncodeEach(f, vs);
      }
    }

    // The loop over the elements of an array that is not packed.
    method EncodeEach(f: Field, vs: seq<Value>) returns (status: Status)
      requires Valid() && ValidField(f) && !Packable(f.ltype) && forall i :: 0 <= i < |vs| ==> ValidValue(f.ltype, vs[i])
      requires |EncodeUnpacked(f, vs)| < 0x1_0000_0000_0000_0000
      modifies this
      ensures Valid() && Emits(old(Now()), status, forall i :: 0 <= i < |vs| ==> ValueInLimits(f.ltype, vs[i]), EncodeUnpacked(f, vs))
      decreases f, 5
    {
      hide EncodeValue, ValueInLimits, ValidValue, ValidLType, TagBytes, Emitted;
      status := Success;
      ghost var start, done := Now(), [];
      NothingYet(sizing, maxSize, start);
      assert vs[0..] == vs && [] + EncodeUnpacked(f, vs) == EncodeUnpacked(f, vs);
      for i := 0 to |vs|
        invariant done + EncodeUnpacked(f, vs[i..]) == EncodeUnpacked(f, vs)
        invariant Valid() && status.Success? && Emits(start, Success, true, done)
        invariant forall k :: 0 <= k < i ==> ValueInLimits(f.ltype, vs[k])
      {
        ghost var mid, tail := Now(), EncodeUnpacked(f, vs[i + 1..]);
        ghost var b, lim := TagBytes(f.tag, WireType(f.ltype)) + EncodeValue(f.ltype, vs[i]), ValueInLimits(f.ltype, vs[i]);
        EncodeUnpackedStep(f, vs, i);
        Regroup(done, b, tail);
        Shorter(done, b, tail);
        status := EncodeTagged(f, vs[i]);
        Then(sizing, maxSize, start, mid, Now(), done, status, lim, b);
        if status.Failure? {
          Stops(sizing, maxSize, start, Now(), status, lim, done + b, tail, forall k :: 0 <= k < |vs| ==> ValueInLimits(f.ltype, vs[k]));
          return;
        }
        SucceedsInLimits(sizing, maxSize, start, Now(), lim, done + b);
        done := done + b;
      }
      assert done + [] == done;
    }

    // A tag and the data.
    method EncodeTagged(f: Field, v: Value) returns (status: Status)
      requires Valid() && ValidField(f) && ValidValue(f.ltype, v)
      requires |TagBytes(f.tag, WireType(f.ltype)) + EncodeValue(f.ltype, v)| < 0x1_0000_0000_0000_0000
      modifies this
      ensures Valid() && Emits(old(Now()), status, ValueInLimits(f.ltype, v), TagBytes(f.tag, WireType(f.ltype)) + EncodeValue(f.ltype, v))
      decreases f, 3
    {
      hide EncodeValue, ValueInLimits, ValidValue, ValidLType, TagBytes;
      status := EncodeTag(WireType(f.ltype), f.tag);
      if status.Failure? { return; }
      status := EncodeData(f.ltype, v);
    }

    /** encode_basic_field */
    method EncodeBasicField(f: Field, s: Slot) returns (status: Status)
      requires Valid() && ValidField(f) && ValidSlot(f, s) && |EncodeField(f, s)| < 0x1_0000_0000_0000_0000
      modifies this
      ensures Valid() && Emits(old(Now()), status, SlotInLimits(f, s), EncodeField(f, s))
      decreases f, 7
    {
      hide EncodeValue, ValueInLimits, ValidValue, ValidLType, TagBytes, IsZero, EncodePacked, EncodeUnpacked;
      match f.htype {
        case Required => status := EncodeTagged(f, s.value);
        case Optional =>
          if !s.has { return Success; }
          status := EncodeTagged(f, s.value);
        case Implicit =>
          var zero := CheckProto3DefaultValue(f, s);
          if zero { return Success; }
          status := EncodeTagged(f, s.value);
        case Repeated(_) => status := EncodeArray(f, s.values);
        case OneOf =>
          if s.which != f.tag { return Success; }
          status := EncodeTagged(f, s.data);
      }
    }

    /** pb_encode: sizing counts exactly the bytes that writing writes. */
    method Encode(fields: seq<Field>, slots: map<nat, Slot>) returns (status: Status)
      requires Valid() && ValidFields(fields) && ValidMessage(fields, slots) && |EncodeFields(fields, slots)| < 0x1_0000_0000_0000_0000
      modifies this
      ensures Valid() && Emits(old(Now()), status, MessageInLimits(fields, slots), EncodeFields(fields, slots))
      decreases fields, 4, 0
    {
      hide EncodeField, SlotInLimits, ValidSlot, ValidField, Emitted, EncodeFields, DistinctTags, SeparateSlots;
      status := Success;
      ghost var start, done := Now(), [];
      NothingYet(sizing, maxSize, start);
      var iter := new FieldIter(fields);
      EmptyMessage(slots);
      if fields == [] { return; }
      assert fields[0..] == fields && [] + EncodeFields(fields, slots) == EncodeFields(fields, slots);
      var more := true;
      while more
        invariant fresh(iter) && iter.Valid() && iter.fields == fields
        invariant Valid() && status.Success? && Emits(start, Success, true, done)
        invariant more ==> ValidMessage(fields[iter.pos..], slots) && done + EncodeFields(fields[iter.pos..], slots) == EncodeFields(fields, slots)
        invariant !more ==> done == EncodeFields(fields, slots)
        invariant forall k :: 0 <= k < (if more then iter.pos else |fields|) ==> SlotInLimits(fields[k], slots[fields[k].slot])
        decreases more, |fields| - iter.pos
      {
        ghost var i, mid := iter.pos, Now();
        var f := fields[iter.pos];
        ghost var b, tail := EncodeField(f, slots[f.slot]), EncodeFields(fields[i + 1..], slots);
        ghost var lim := SlotInLimits(f, slots[f.slot]);
        EncodeFieldsStep(fields, slots, i);
        Regroup(done, b, tail);
        Shorter(done, b, tail);
        assert ValidField(f);
        status := EncodeBasicField(f, slots[f.slot]);
        Then(sizing, maxSize, start, mid, Now(), done, status, lim, b);
        if status.Failure? {
          Stops(sizing, maxSize, start, Now(), status, lim, done + b, tail, MessageInLimits(fields, slots));
          return;
        }
        SucceedsInLimits(sizing, maxSize, start, Now(), lim, done + b);
        done := done + b;
        more := iter.Next();
        assert i + 1 == |fields| ==> fields[i + 1..] == [] && done + [] == done;
      }
    }
  }

  lemma {:induction false} NothingYet(sizing: bool, maxSize: nat, start: Output)
    requires sizing || start.bytesWritten <= maxSize
    ensures Emitted(sizing, maxSize, start, start, Success, true, [])
  {
    assert start.state + [] == start.state;
  }

  lemma {:induction false} JustSizing(maxSize: nat, before: Output, after: Output, b: Bytes)
    requires after == Output(before.bytesWritten + |b|, before.state)
    ensures Emitted(true, maxSize, before, after, Success, true, b)
  {
    assert before.state + [] == before.state;
  }

  lemma {:induction false} SucceedsInLimits(sizing: bool, maxSize: nat, before: Output, after: Output, inLimits: bool, b: Bytes)
    requires Emitted(sizing, maxSize, before, after, Success, inLimits, b)
    ensures inLimits && Emitted(sizing, maxSize, before, after, Success, true, b)
  {
  }

  lemma {:induction false} Regroup(a: Bytes, b: Bytes, c: Bytes)
    ensures a + (b + c) == a + b + c
  {
  }

  lemma {:induction false} Shorter(a: Bytes, b: Bytes, c: Bytes)
    ensures |b| <= |a + b + c|
  {
  }

  lemma {:induction false} EncodePackedStep(t: LType, vs: seq<Value>, i: nat)
    requires i < |vs| && forall i :: 0 <= i < |vs| ==> ValidValue(t, vs[i])
    ensures EncodePacked(t, vs[i..]) == EncodeValue(t, vs[i]) + EncodePacked(t, vs[i + 1..])
  {
    hide EncodeValue, ValidValue;
    assert vs[i..][0] == vs[i] && vs[i..][1..] == vs[i + 1..];
  }

  lemma {:induction false} EncodeUnpackedStep(f: Field, vs: seq<Value>, i: nat)
    requires i < |vs| && forall i :: 0 <= i < |vs| ==> ValidValue(f.ltype, vs[i])
    ensures EncodeUnpacked(f, vs[i..]) ==
            TagBytes(f.tag, WireType(f.ltype)) + EncodeValue(f.ltype, vs[i]) + EncodeUnpacked(f, vs[i + 1..])
  {
    hide EncodeValue, ValidValue, TagBytes;
    assert vs[i..][0] == vs[i] && vs[i..][1..] == vs[i + 1..];
    Regroup(TagBytes(f.tag, WireType(f.ltype)), EncodeValue(f.ltype, vs[i]), EncodeUnpacked(f, vs[i + 1..]));
  }

  lemma {:induction false} EmptyMessage(slots: map<nat, Slot>)
    ensures ValidMessage([], slots) && EncodeFields([], slots) == []
  {
  }

  lemma {:induction false} EncodeFieldsStep(fields: seq<Field>, slots: map<nat, Slot>, i: nat)
    requires i < |fields| && ValidMessage(fields, slots)
    ensures ValidMessage(fields[i..], slots) && ValidMessage(fields[i + 1..], slots) && ValidSlot(fields[i], slots[fields[i].slot])
    ensures EncodeFields(fields[i..], slots) == EncodeField(fields[i], slots[fields[i].slot]) + EncodeFields(fields[i + 1..], slots)
  {
    hide EncodeField, ValidSlot;
    assert fields[i..][0] == fields[i] && fields[i..][1..] == fields[i + 1..];
  }

  lemma {:induction false} VarintSplit(before: Bytes, v: nat)
    ensures |Varint(v)| > 0
    ensures v / 128 > 0 ==> before + Varint(v) == before + [v % 128 + 128] + Varint(v / 128)
    ensures v / 128 == 0 ==> before + Varint(v) == before + [v % 128]
  {
  }

  lemma {:induction false} WiderFits(n: int, size: nat)
    requires IsSize(size) && FitsSigned(n, size)
    ensures FitsSigned(n, 8)
  {
  }

  lemma {:induction false} DelimitedLonger(b: Bytes)
    ensures |b| < |Delimited(b)|
  {
  }

  lemma {:induction false} PackableInLimits(t: LType, v: Value)
    requires Packable(t) && ValidValue(t, v)
    ensures ValueInLimits(t, v)
  {
  }

  // The sizes that encode_array does not compute by a sizing run.
  lemma {:induction false} PackedFixedSize(t: LType, vs: seq<Value>, size: nat)
    requires (t.Fixed32_? && size == 4) || (t.Fixed64_? && size == 8)
    requires forall i :: 0 <= i < |vs| ==> ValidValue(t, vs[i])
    ensures |EncodePacked(t, vs)| == size * |vs|
    decreases |vs|
  {
    if vs != [] {
      PackedFixedSize(t, vs[1..], size);
    }
  }

  /** pb_check_proto3_default_value */
  method CheckProto3DefaultValue(f: Field, s: Slot) returns (isDefault: bool)
    requires ValidSlot(f, s)
    ensures isDefault == IsDefault(f, s)
    decreases f, 1
  {
    match f.htype {
      case Required => isDefault := false;
      case Repeated(_) => isDefault := |s.values| == 0;
      case OneOf => isDefault := s.which == 0;
      case Optional => isDefault := !s.has;
      case Implicit => isDefault := CheckZero(f.ltype, s.value);
    }
  }

  method CheckZero(t: LType, v: Value) returns (isZero: bool)
    requires ValidValue(t, v)
    ensures isZero == IsZero(t, v)
    decreases t, 0
  {
    match t {
      case Bytes_(_) => isZero := |v.bytes| == 0;
      case String_(_) => isZero := |v.bytes| == 0;
      case FixedBytes(size) => isZero := size == 0;
      case Submessage(fields) =>
        assert ValidMessage(fields, v.slots);
        var iter := new FieldIter(fields);
        if fields == [] { return true; }
        var more := true;
        while more
          invariant iter.Valid() && iter.fields == fields
          invariant forall k :: 0 <= k < (if more then iter.pos else |fields|) ==> IsDefault(fields[k], v.slots[fields[k].slot])
          decreases more, |fields| - iter.pos
        {
          var f := fields[iter.pos];
          var isDefault := CheckProto3DefaultValue(f, v.slots[f.slot]);
          if !isDefault { return false; }
          more := iter.Next();
        }
        isZero := true;
      case _ => isZero := v.n == 0;
    }
  }

  /** pb_get_encoded_size: nothing if the message is not in its limits. */
  method GetEncodedSize(fields: seq<Field>, slots: map<nat, Slot>) returns (size: Option<nat>)
    requires ValidFields(fields) && ValidMessage(fields, slots) && |EncodeFields(fields, slots)| < 0x1_0000_0000_0000_0000
    ensures size == if MessageInLimits(fields, slots) then Some(|EncodeFields(fields, slots)|) else Option<nat>.None
  {
    hide EncodeFields, MessageInLimits, ValidFields, ValidMessage;
    var stream := new OStream.Sizing();
    var status := stream.Encode(fields, slots);
    size := if status.Failure? then Option<nat>.None else Some(stream.bytesWritten);
  }
}
