/** The decoder (pb_decode.c), over streams of bytes and bounded substreams. */
module NanopbDecode {
  import opened Coding
  import opened Options
  import opened NanopbFormat
  import opened NanopbIter

  class IStream {
    var state: Bytes       // the buffer from the read pointer on
    var bytesLeft: nat

    ghost predicate Valid()
      reads this
    {
      bytesLeft <= |state|
    }

    // What can still be read.
    ghost function Rest(): Bytes
      requires Valid()
      reads this
    {
      state[..bytesLeft]
    }

    // What follows in the buffer, and is not for this stream.
    ghost function Beyond(): Bytes
      requires Valid()
      reads this
    {
      state[bytesLeft..]
    }

    // pb_istream_from_buffer, and the copy of a stream that becomes a substream
    constructor (state: Bytes, bytesLeft: nat)
      requires bytesLeft <= |state|
      ensures Valid() && this.state == state && this.bytesLeft == bytesLeft
    {
      this.state, this.bytesLeft := state, bytesLeft;
    }

    /** pb_read */
    method Read(count: nat) returns (ok: bool, buf: Bytes)
      requires Valid()
      modifies this
      ensures Valid() && Beyond() == old(Beyond())
      ensures ReadBytes(old(Rest()), count) == if ok then Ok(buf, Rest()) else Fail
    {
      if count == 0 {
        return true, [];
      }
      if bytesLeft < count {
        return false, [];
      }
      ok, buf := true, state[..count];
      Taken(state, bytesLeft, count);
      state, bytesLeft := state[count..], bytesLeft - count;
    }

    /** pb_readbyte */
    method ReadByte() returns (ok: bool, byte: Byte)
      requires Valid()
      modifies this
      ensures Valid() && Beyond() == old(Beyond())
      ensures ok <==> old(bytesLeft) > 0
      ensures ok ==> old(Rest()) == [byte] + Rest() && bytesLeft == old(bytesLeft) - 1
      ensures !ok ==> Rest() == old(Rest())
    {
      if bytesLeft == 0 {
        return false, 0;
      }
      ok, byte := true, state[0];
      Taken(state, bytesLeft, 1);
      state, bytesLeft := state[1..], bytesLeft - 1;
    }

    /** pb_decode_varint32_eof; the shift by bitpos is a product with a power of two. */
    method DecodeVarint32() returns (ok: bool, value: nat, eof: bool)
      requires Valid()
      modifies this
      ensures Valid() && Beyond() == old(Beyond())
      ensures ReadVarint32(old(Rest())) == if ok then Ok(value, Rest()) else Fail
      ensures eof <==> old(bytesLeft) == 0
    {
      hide MoreVarint32, Or, TwoTo;
      eof := false;
      var byte: Byte;
      ok, byte := ReadByte();
      if !ok {
        return false, 0, true;
      }
      if byte < 128 {
        return true, byte, false;
      }
      value := byte - 128;
      var bitpos: nat := 7;
      var more := true;
      while more
        invariant Valid() && Beyond() == old(Beyond())
        invariant more ==> ReadVarint32(old(Rest())) == MoreVarint32(Rest(), value, bitpos)
        invariant !more ==> ReadVarint32(old(Rest())) == if bitpos == 35 && byte >= 16 then Fail else Ok(value, Rest())
        decreases bytesLeft, more
      {
        MoreStep(Rest(), value, bitpos);
        ok, byte := ReadByte();
        if !ok {
          return false, 0, false;
        }
        if bitpos >= 32 {
          var signExtension := if bitpos < 63 then 0xFF else 0x01;
          if byte % 128 != 0 && (value < 0x8000_0000 || byte != signExtension) {
            return false, 0, false;
          }
        } else {
          value := Or(value, byte % 128 * TwoTo(bitpos) % 0x1_0000_0000);
        }
        bitpos, more := (bitpos + 7) % 256, byte >= 128;
      }
      ok := !(bitpos == 35 && byte >= 16);
    }

    /** pb_decode_varint */
    method DecodeVarint() returns (ok: bool, value: nat)
      requires Valid()
      modifies this
      ensures Valid() && Beyond() == old(Beyond())
      ensures ReadVarint(old(Rest())) == if ok then Ok(value, Rest()) else Fail
    {
      ghost var input := Rest();
      ghost var full: nat := 0;
      var k, weight, byte: Byte := 0, 1, 0;
      value := 0;
      assert input[0..] == input && ParseVarint(input, 10) == Resume(ParseVarint(input, 10), 0, 0);
      hide ParseVarint, Resume;
      var more := true;
      while more
        invariant Valid() && Beyond() == old(Beyond()) && k <= 10 && weight == Weight(k) && k <= |input| && Rest() == input[k..]
        invariant value == full % 0x1_0000_0000_0000_0000
        invariant more ==> ParseVarint(input, 10) == Resume(ParseVarint(input[k..], 10 - k), full, k)
        invariant !more ==> ParseVarint(input, 10) == Parsed(full, k)
        decreases more, bytesLeft
      {
        if k == 10 {
          ResumeEnd(input, 10, k, full);
          return false, 0;
        }
        var ok';
        ok', byte := ReadByte();
        if !ok' {
          ResumeEnd(input, 10, k, full);
          return false, 0;
        }
        assert byte == input[k] && Rest() == input[k + 1..];
        ResumeByte(input, k, full);
        var bits: nat := weight * (byte % 128);
        Truncates(full, bits);
        full := full + bits;
        value := (value + bits) % 0x1_0000_0000_0000_0000;
        k, weight, more := k + 1, 128 * weight, byte >= 128;
      }
      ok := true;
    }

    /** pb_decode_svarint: ~(value >> 1) for an odd value */
    method DecodeSVarint() returns (ok: bool, dest: int)
      requires Valid()
      modifies this
      ensures Valid() && Beyond() == old(Beyond())
      ensures match ReadVarint(old(Rest())) case Fail => !ok case Ok(n, rest) => ok && dest == UnZigZag(n) && Rest() == rest
    {
      hide ReadVarint;
      var value;
      ok, value := DecodeVarint();
      var half: int := value / 2;
      dest := if value % 2 == 1 then -half - 1 else half;
    }

    /** pb_skip_varint */
    method SkipVarint() returns (ok: bool)
      requires Valid()
      modifies this
      ensures Valid() && Beyond() == old(Beyond())
      ensures NanopbFormat.SkipVarint(old(Rest())) == if ok then Ok(true, Rest()) else Fail
    {
      var byte: Byte := 255;
      while byte >= 128
        invariant Valid() && Beyond() == old(Beyond())
        invariant byte >= 128 ==> NanopbFormat.SkipVarint(old(Rest())) == NanopbFormat.SkipVarint(Rest())
        invariant byte < 128 ==> NanopbFormat.SkipVarint(old(Rest())) == Ok(true, Rest())
        decreases byte >= 128, bytesLeft
      {
        ok, byte := ReadByte();
        if !ok { return; }
      }
      ok := true;
    }

    // pb_skip_string
    method SkipString() returns (ok: bool)
      requires Valid()
      modifies this
      ensures Valid() && Beyond() == old(Beyond())
      ensures match ReadDelimited(old(Rest())) case Fail => !ok case Ok(_, rest) => ok && Rest() == rest
    {
      hide ReadVarint32, ReadBytes;
      var length, eof, buf;
      ok, length, eof := DecodeVarint32();
      if ok {
        ok, buf := Read(length);
      }
    }

    /** pb_skip_field */
    method SkipField(wireType: nat) returns (ok: bool)
      requires Valid()
      modifies this
      ensures Valid() && Beyond() == old(Beyond())
      ensures NanopbFormat.SkipField(wireType, old(Rest())) == if ok then Ok(true, Rest()) else Fail
    {
      hide ReadDelimited, NanopbFormat.SkipVarint, ReadBytes;
      var buf;
      if wireType == WT_VARINT {
        ok := SkipVarint();
      } else if wireType == WT_64BIT {
        ok, buf := Read(8);
      } else if wireType == WT_STRING {
        ok := SkipString();
      } else if wireType == WT_32BIT {
        ok, buf := Read(4);
      } else {
        ok := false;
      }
    }

    /** pb_decode_tag: not ok and eof at the end of the message, which may be marked by a zero. */
    method DecodeTag() returns (ok: bool, wireType: nat, tag: nat, eof: bool)
      requires Valid()
      modifies this
      ensures Valid() && Beyond() == old(Beyond())
      ensures
        match ReadVarint32(old(Rest()))
        case Fail => !ok && (eof <==> old(bytesLeft) == 0)
        case Ok(n, rest) => (ok <==> n != 0) && Rest() == rest && (n == 0 ==> eof) && (n != 0 ==> tag == n / 8 && wireType == n % 8)
    {
      hide ReadVarint32;
      var temp;
      wireType, tag := 0, 0;
      ok, temp, eof := DecodeVarint32();
      if !ok { return; }
      if temp == 0 {
        ok, eof := false, true;
        return;
      }
      wireType, tag := temp % 8, temp / 8;
    }

    /** pb_make_string_substream: the substream goes on from here; this stream ends that much earlier, and is
        moved past the substream when that is closed. */
    method MakeStringSubstream() returns (ok: bool, substream: IStream)
      requires Valid()
      modifies this
      ensures Valid() && fresh(substream) && substream.Valid() && (ok <==> ReadDelimited(old(Rest())).Ok?)
      ensures !ok ==> Beyond() == old(Beyond())
      ensures |Beyond()| >= old(|Beyond()|)
      ensures ok ==>
        && substream.Rest() == ReadDelimited(old(Rest())).value && bytesLeft == |ReadDelimited(old(Rest())).rest|
        && substream.Beyond() == ReadDelimited(old(Rest())).rest + old(Beyond())
      ensures ok ==> substream.bytesLeft + bytesLeft < old(bytesLeft)
    {
      hide ReadVarint32;
      var size, eof;
      ok, size, eof := DecodeVarint32();
      substream := new IStream(state, bytesLeft);
      if !ok { return; }
      if substream.bytesLeft < size {
        ok := false;
        return;
      }
      ghost var rest, beyond := Rest(), Beyond();
      assert state == rest + beyond;
      substream.bytesLeft := size;
      bytesLeft := bytesLeft - size;
      assert substream.Rest() == rest[..size];
      assert substream.Beyond() == rest[size..] + beyond;
    }

    /** pb_close_string_substream */
    method CloseStringSubstream(substream: IStream) returns (ok: bool)
      requires substream != this && substream.Valid() && bytesLeft <= |substream.Beyond()|
      modifies this, substream
      ensures ok && Valid() && bytesLeft == old(bytesLeft)
      ensures Rest() == old(substream.Beyond())[..bytesLeft] && Beyond() == old(substream.Beyond())[bytesLeft..]
    {
      if substream.bytesLeft > 0 {
        ghost var beyond := substream.Beyond();
        var done, buf := substream.Read(substream.bytesLeft);
        if !done { return false; }
        assert substream.state == substream.Rest() + beyond;
      }
      state := substream.state;
      ok := true;
    }

    /** The decoders of the types (PB_DECODERS). A submessage in an array is first set to its defaults. */
    method DecodeData(t: LType, prior: Value, repeated: bool) returns (ok: bool, v: Value)
      requires Valid() && ValidLType(t) && (repeated ==> prior == ZeroValue(t))
      modifies this
      ensures Valid() && |Beyond()| >= old(|Beyond()|) && (ok ==> Beyond() == old(Beyond()))
      ensures DecodeValue(t, old(Rest()), prior) == if ok then Ok(v, Rest()) else Fail
      decreases bytesLeft, 1
    {
      hide ReadVarint, ReadVarint32, ReadBytes, DecodeFixed32, DecodeFixed64, AsSigned, FitsSigned, ReadDelimited, DecodeFields;
      v := Int(0);
      match t {
        case Bool =>
          var value, eof;
          ok, value, eof := DecodeVarint32();
          v := Int(if value != 0 then 1 else 0);
        case Varint_(size) =>
          var value;
          ok, value := DecodeVarint();
          if ok {
            var svalue := AsSigned(value, if size == 8 then 8 else 4);
            if !IsSize(size) || !FitsSigned(svalue, size) { return false, v; }
            v := Int(svalue);
          }
        case UVarint(size) =>
          var value;
          ok, value := DecodeVarint();
          if ok {
            if !IsSize(size) || value >= Range(size) { return false, v; }
            v := Int(value);
          }
        case SVarint(size) =>
          var value;
          ok, value := DecodeSVarint();
          if ok {
            if !IsSize(size) || !FitsSigned(value, size) { return false, v; }
            v := Int(value);
          }
        case Fixed32_ => ok, v := DecodeFixed(4);
        case Fixed64_ => ok, v := DecodeFixed(8);
        case Bytes_(_) => ok, v := DecodeBytes(t, prior);
        case String_(_) => ok, v := DecodeBytes(t, prior);
        case FixedBytes(_) => ok, v := DecodeBytes(t, prior);
        case Submessage(fields) => ok, v := DecodeSubmessage(fields, prior, repeated);
      }
    }

    // pb_decode_fixed32 and pb_decode_fixed64
    method DecodeFixed(size: nat) returns (ok: bool, v: Value)
      requires Valid() && (size == 4 || size == 8)
      modifies this
      ensures Valid() && |Beyond()| >= old(|Beyond()|) && (ok ==> Beyond() == old(Beyond()))
      ensures DecodeValue(if size == 4 then Fixed32_ else Fixed64_, old(Rest()), Int(0)) == if ok then Ok(v, Rest()) else Fail
    {
      var bytes;
      ok, bytes := Read(size);
      v := Int(0);
      if ok {
        FixedOfPrefix(old(Rest()), bytes);
        v := Int(if size == 4 then DecodeFixed32(bytes) else DecodeFixed64(bytes));
      }
    }

    /** pb_dec_bytes, pb_dec_string, pb_dec_fixed_length_bytes */
    method DecodeBytes(t: LType, prior: Value) returns (ok: bool, v: Value)
      requires Valid() && (t.Bytes_? || t.String_? || t.FixedBytes?)
      modifies this
      ensures Valid() && |Beyond()| >= old(|Beyond()|) && (ok ==> Beyond() == old(Beyond()))
      ensures DecodeValue(t, old(Rest()), prior) == if ok then Ok(v, Rest()) else Fail
    {
      hide ReadVarint32;
      var size, eof, buf;
      v := Data([]);
      ok, size, eof := DecodeVarint32();
      if !ok { return; }
      match t {
        case Bytes_(max) =>
          if size > max { return false, v; }
        case String_(max) =>
          if size + 1 > max { return false, v; }
        case FixedBytes(dataSize) =>
          if size == 0 {
            assert Rest()[0..] == Rest();
            return true, Data(seq(dataSize, _ => 0));
          }
          if size != dataSize {
            return false, v;
          }
      }
      ok, buf := Read(size);
      v := Data(buf);
    }

    /** pb_dec_submessage */
    method DecodeSubmessage(fields: seq<Field>, prior: Value, repeated: bool) returns (ok: bool, v: Value)
      requires Valid() && ValidFields(fields) && (repeated ==> prior == ZeroValue(Submessage(fields)))
      modifies this
      ensures Valid() && |Beyond()| >= old(|Beyond()|) && (ok ==> Beyond() == old(Beyond()))
      ensures DecodeValue(Submessage(fields), old(Rest()), prior) == if ok then Ok(v, Rest()) else Fail
      decreases bytesLeft, 0
    {
      hide ReadVarint32, ReadDelimited, DecodeFields, Defaults, AllSeen;
      var substream, slots;
      v := Int(0);
      ok, substream := MakeStringSubstream();
      if !ok { return; }
      if repeated {
        ok, slots := substream.Decode(fields);
      } else {
        ok, slots := substream.DecodeNoInit(fields, SlotsIn(prior, fields));
      }
      var closed := CloseStringSubstream(substream);
      v := Message(slots);
    }

    // The loop over a packed array.
    method DecodeElements(t: LType, values: seq<Value>, max: nat) returns (ok: bool, vs: seq<Value>)
      requires Valid() && ValidLType(t) && Packable(t)
      modifies this
      ensures Valid() && |Beyond()| >= old(|Beyond()|) && (ok ==> Beyond() == old(Beyond()))
      ensures DecodePacked(t, old(Rest()), values, max) == if ok && bytesLeft == 0 then Some(vs) else Option<seq<Value>>.None
      decreases bytesLeft, 2
    {
      hide DecodeValue;
      ok, vs := true, values;
      while bytesLeft > 0 && |vs| < max
        invariant Valid() && Beyond() == old(Beyond()) && bytesLeft <= old(bytesLeft) && ok
        invariant DecodePacked(t, old(Rest()), values, max) == DecodePacked(t, Rest(), vs, max)
        decreases bytesLeft
      {
        var v;
        ok, v := DecodeData(t, Int(0), false);
        if !ok { return; }
        vs := vs + [v];
      }
    }

    /** decode_static_field: the new contents of the field's slot. */
    method DecodeStaticField(wireType: nat, f: Field, slot: Slot) returns (ok: bool, slot': Slot)
      requires Valid() && ValidLType(f.ltype)
      modifies this
      ensures Valid() && |Beyond()| >= old(|Beyond()|) && (ok ==> Beyond() == old(Beyond()))
      ensures DecodeField(f, wireType, old(Rest()), slot) == if ok then Ok(slot', Rest()) else Fail
      decreases bytesLeft, 3
    {
      hide ReadVarint32, ReadDelimited, DecodeValue, DecodePacked, Defaults;
      var v;
      var present := f.htype.Optional? || (slot.One? && slot.has);
      slot' := slot;
      match f.htype {
        case Repeated(max) =>
          if wireType == WT_STRING && Packable(f.ltype) {
            var substream, vs;
            ok, substream := MakeStringSubstream();
            if !ok { return; }
            var status;
            status, vs := substream.DecodeElements(f.ltype, ValuesIn(slot), max);
            if substream.bytesLeft != 0 { return false, slot; }
            ok := CloseStringSubstream(substream);
            ok, slot' := status, Many(vs);
          } else {
            var vs := ValuesIn(slot);
            if |vs| >= max { return false, slot; }
            ok, v := DecodeData(f.ltype, ZeroValue(f.ltype), true);
            slot' := Many(vs + [v]);
          }
        case OneOf =>
          var data := ZeroValue(f.ltype);
          if f.ltype.Submessage? {
            var initial := SetToDefaults(f.ltype.fields, map[]);
            data := Message(initial);
          }
          ok, v := DecodeData(f.ltype, data, false);
          slot' := Union(f.tag, v);
        case _ =>
          ok, v := DecodeData(f.ltype, ValueIn(slot, f.ltype), false);
          slot' := One(present, v);
      }
    }

    // One turn of the loop of pb_decode_noinit.
    method DecodeNextField(iter: FieldIter, fieldsSeen: array<bool>, slots: map<nat, Slot>, ghost seen: set<nat>)
      returns (turn: Turn, slots': map<nat, Slot>, ghost seen': set<nat>)
      requires Valid() && bytesLeft > 0 && iter.Valid() && fieldsSeen.Length == MAX_REQUIRED_FIELDS
      requires ValidFields(iter.fields) && (iter.fields != [] ==> Tracks(fieldsSeen[..], seen))
      modifies this, iter, fieldsSeen
      ensures Valid() && iter.Valid() && |Beyond()| >= old(|Beyond()|) && (!turn.Fails? ==> Beyond() == old(Beyond()))
      ensures turn.Fails? ==> DecodeFields(iter.fields, old(Rest()), slots, seen) == Failed
      ensures turn.Ends? ==> DecodeFields(iter.fields, old(Rest()), slots, seen) == Decoded(slots', seen')
      ensures turn.Goes? ==> DecodeFields(iter.fields, old(Rest()), slots, seen) == DecodeFields(iter.fields, Rest(), slots', seen')
      ensures turn.Goes? ==> bytesLeft < old(bytesLeft)
      ensures iter.fields != [] && !turn.Fails? ==> Tracks(fieldsSeen[..], seen')
      decreases bytesLeft, 4
    {
      hide ReadVarint32, DecodeField, NanopbFormat.SkipField, Seen, FindField, DecodeFields, ReadDelimited, ReadBytes;
      turn, slots', seen' := Fails, slots, seen;
      var ok, wireType, tag, eof;
      ghost var input, fields := Rest(), iter.fields;
      DecodeFieldsStep(fields, input, slots, seen);
      assert input != [];
      ok, wireType, tag, eof := DecodeTag();
      if !ok {
        turn := if eof then Ends else Fails;
        return;
      }
      var found := iter.Find(tag);
      if !found {
        ok := SkipField(wireType);
        turn := if ok then Goes else Fails;
        return;
      }
      var f := if iter.fields == [] then TERMINATOR else iter.fields[iter.pos];
      var slot := if f.slot in slots then slots[f.slot] else DefaultSlot(f);
      if f.htype.Required? && iter.requiredFieldIndex < MAX_REQUIRED_FIELDS {
        fieldsSeen[iter.requiredFieldIndex] := true;
      }
      TerminatorDecodes(wireType, Rest(), slot);
      SeenTracks(iter.fields, iter.pos, old(fieldsSeen[..]), fieldsSeen[..], seen);
      ok, slot := DecodeStaticField(wireType, f, slot);
      if iter.fields != [] {
        slots' := slots[f.slot := slot];
        seen' := Seen(iter.fields, iter.pos, seen);
      }
      turn := if ok then Goes else Fails;
    }

    /** pb_decode_noinit: merges the message into what `before` holds. */
    method DecodeNoInit(fields: seq<Field>, before: map<nat, Slot>) returns (ok: bool, slots: map<nat, Slot>)
      requires Valid() && ValidFields(fields)
      modifies this
      ensures Valid() && |Beyond()| >= old(|Beyond()|) && (ok ==> Beyond() == old(Beyond()))
      ensures
        match DecodeFields(fields, old(Rest()), before, {})
        case Failed => !ok
        case Decoded(result, seen) => (ok <==> AllSeen(fields, seen)) && (ok ==> slots == result)
      decreases bytesLeft, 5
    {
      hide DecodeFields, AllSeen;
      slots := before;
      ghost var seen: set<nat> := {};
      var fieldsSeen := new bool[MAX_REQUIRED_FIELDS](_ => false);
      var iter := new FieldIter(fields);
      var turn := Goes;
      while bytesLeft > 0
        invariant Valid() && Beyond() == old(Beyond()) && bytesLeft <= old(bytesLeft)
        invariant fresh(iter) && iter.Valid() && iter.fields == fields && fresh(fieldsSeen)
        invariant DecodeFields(fields, old(Rest()), before, {}) == DecodeFields(fields, Rest(), slots, seen)
        invariant turn.Goes? && (fields != [] ==> Tracks(fieldsSeen[..], seen))
        decreases bytesLeft
      {
        turn, slots, seen := DecodeNextField(iter, fieldsSeen, slots, seen);
        if turn.Fails? { return false, slots; }
        if turn.Ends? { break; }
      }
      assert DecodeFields(fields, old(Rest()), before, {}) == Decoded(slots, seen) by {
        if !turn.Ends? {
          EmptyDecodes(fields, Rest(), slots, seen);
        }
      }
      ok := CheckRequired(iter, fieldsSeen);
      CheckedIsAllSeen(fields, fieldsSeen[..], seen);
    }

    /** pb_decode */
    method Decode(fields: seq<Field>) returns (ok: bool, slots: map<nat, Slot>)
      requires Valid() && ValidFields(fields)
      modifies this
      ensures Valid() && |Beyond()| >= old(|Beyond()|) && (ok ==> Beyond() == old(Beyond()))
      ensures DecodeMessage(fields, old(Rest())) == if ok then Some(slots) else Option<map<nat, Slot>>.None
      decreases bytesLeft, 6
    {
      hide DecodeFields, Defaults, AllSeen;
      var initial := SetToDefaults(fields, map[]);
      ok, slots := DecodeNoInit(fields, initial);
    }
  }

  /** The check at the end of pb_decode_noinit: the iterator is moved to the last field to count the required ones. */
  method CheckRequired(iter: FieldIter, fieldsSeen: array<bool>) returns (ok: bool)
    requires iter.Valid() && fieldsSeen.Length == MAX_REQUIRED_FIELDS
    modifies iter
    ensures ok <==> RequiredChecked(iter.fields, fieldsSeen[..])
  {
    var reqFieldCount, lastRequired, more := 0, false, true;
    while more
      invariant iter.Valid()
      invariant !more && iter.fields != [] ==>
        reqFieldCount == RequiredIndex(iter.fields, |iter.fields| - 1) && lastRequired == iter.fields[|iter.fields| - 1].htype.Required?
      invariant !more && iter.fields == [] ==> reqFieldCount == 0
      decreases more, |iter.fields| - iter.pos
    {
      reqFieldCount := iter.requiredFieldIndex;
      lastRequired := iter.pos < |iter.fields| && iter.fields[iter.pos].htype.Required?;
      more := iter.Next();
    }
    if lastRequired && iter.fields != [] {
      reqFieldCount := reqFieldCount + 1;
    }
    assert reqFieldCount == RequiredIndex(iter.fields, |iter.fields|);
    if reqFieldCount > MAX_REQUIRED_FIELDS {
      reqFieldCount := MAX_REQUIRED_FIELDS;
    }
    for i := 0 to reqFieldCount
      invariant forall k :: 0 <= k < i ==> fieldsSeen[k]
    {
      if !fieldsSeen[i] { return false; }
    }
    ok := true;
  }

  ghost predicate RequiredChecked(fields: seq<Field>, bits: seq<bool>) {
    forall k :: 0 <= k < RequiredIndex(fields, |fields|) && k < MAX_REQUIRED_FIELDS && k < |bits| ==> bits[k]
  }

  // Counting the bits finds what is missing: every index below the number of required fields is that of one.
  lemma {:induction false} CheckedIsAllSeen(fields: seq<Field>, bits: seq<bool>, seen: set<nat>)
    requires fields != [] ==> Tracks(bits, seen)
    requires |bits| == MAX_REQUIRED_FIELDS
    ensures RequiredChecked(fields, bits) <==> AllSeen(fields, seen)
  {
    if RequiredChecked(fields, bits) {
      forall i | 0 <= i < |fields| && fields[i].htype.Required? && RequiredIndex(fields, i) < MAX_REQUIRED_FIELDS
        ensures RequiredIndex(fields, i) in seen
      {
        RequiredIndexGrows(fields, i + 1, |fields|);
      }
    }
    if AllSeen(fields, seen) {
      forall k | 0 <= k < RequiredIndex(fields, |fields|) && k < MAX_REQUIRED_FIELDS ensures bits[k] {
        var i := FieldOfIndex(fields, k, |fields|);
      }
    }
  }

  lemma {:induction false} RequiredIndexGrows(fields: seq<Field>, i: nat, j: nat)
    requires i <= j <= |fields|
    ensures RequiredIndex(fields, i) <= RequiredIndex(fields, j)
    decreases j
  {
    if i < j {
      RequiredIndexGrows(fields, i, j - 1);
    }
  }

  lemma {:induction false} FieldOfIndex(fields: seq<Field>, k: nat, n: nat) returns (i: nat)
    requires n <= |fields| && k < RequiredIndex(fields, n)
    ensures i < n && fields[i].htype.Required? && RequiredIndex(fields, i) == k
    decreases n
  {
    if k < RequiredIndex(fields, n - 1) {
      i := FieldOfIndex(fields, k, n - 1);
    } else {
      i := n - 1;
    }
  }

  datatype Turn = Goes | Ends | Fails

  lemma {:induction false} EmptyDecodes(fields: seq<Field>, s: Bytes, slots: map<nat, Slot>, seen: set<nat>)
    requires s == []
    ensures DecodeFields(fields, s, slots, seen) == Decoded(slots, seen)
  {
  }

  lemma {:induction false} DecodeFieldsStep(fields: seq<Field>, s: Bytes, slots: map<nat, Slot>, seen: set<nat>)
    requires s != []
    ensures ReadVarint32(s).Fail? ==> DecodeFields(fields, s, slots, seen) == Failed
    ensures ReadVarint32(s).Ok? ==>
      DecodeFields(fields, s, slots, seen) == NextField(fields, ReadVarint32(s).value, ReadVarint32(s).rest, slots, seen)
  {
    hide ReadVarint32, DecodeField, SkipField, FindField, Seen;
  }

  // What follows the tag.
  ghost function NextField(fields: seq<Field>, n: nat, rest: Bytes, slots: map<nat, Slot>, seen: set<nat>): Decoded {
    if n == 0 then Decoded(slots, seen)
    else if n < 8 && fields == [] then
      match ReadVarint32(rest)
      case Fail => Failed
      case Ok(_, rest') => DecodeFields(fields, rest', slots, seen)
    else
      var i := FindField(fields, n / 8);
      if i == |fields| then
        match SkipField(n % 8, rest)
        case Fail => Failed
        case Ok(_, rest') => DecodeFields(fields, rest', slots, seen)
      else
        var f := fields[i];
        match DecodeField(f, n % 8, rest, if f.slot in slots then slots[f.slot] else DefaultSlot(f))
        case Fail => Failed
        case Ok(slot, rest') => DecodeFields(fields, rest', slots[f.slot := slot], Seen(fields, i, seen))
  }

  lemma {:induction false} TerminatorDecodes(wireType: nat, s: Bytes, slot: Slot)
    ensures
      match DecodeField(TERMINATOR, wireType, s, slot)
      case Fail => ReadVarint32(s) == Fail
      case Ok(_, rest) => ReadVarint32(s).Ok? && ReadVarint32(s).rest == rest
  {
    hide ReadVarint32;
    var prior := ValueIn(slot, LType.Bool);
    assert DecodeValue(LType.Bool, s, prior) ==
      match ReadVarint32(s) case Fail => Fail case Ok(n, rest) => Ok(Int(if n != 0 then 1 else 0), rest);
  }

  lemma {:induction false} SeenTracks(fields: seq<Field>, i: nat, bits: seq<bool>, bits': seq<bool>, seen: set<nat>)
    requires |bits| == MAX_REQUIRED_FIELDS && i <= |fields|
    requires i < |fields| ==>
      bits' == if fields[i].htype.Required? && RequiredIndex(fields, i) < MAX_REQUIRED_FIELDS then bits[RequiredIndex(fields, i) := true] else bits
    ensures i < |fields| && Tracks(bits, seen) ==> Tracks(bits', Seen(fields, i, seen))
  {
    hide RequiredIndex;
  }

  // PB_LAST_FIELD
  const TERMINATOR: Field := Field(0, 0, Required, LType.Bool, None)

  ghost predicate Tracks(bits: seq<bool>, seen: set<nat>) {
    |bits| == MAX_REQUIRED_FIELDS && forall i :: 0 <= i < MAX_REQUIRED_FIELDS ==> (bits[i] <==> i in seen)
  }

  // pb_field_set_to_default
  method FieldSetToDefault(f: Field) returns (slot: Slot)
    ensures slot == DefaultSlot(f)
    decreases f, 0
  {
    assert InitialValue(f) == if !f.ltype.Submessage? && f.initial.Some? then f.initial.value else ZeroValue(f.ltype);
    match f.htype {
      case Repeated(_) => slot := Many([]);
      case OneOf => slot := Union(0, Int(0));
      case _ =>
        if f.ltype.Submessage? {
          var initial := SetToDefaults(f.ltype.fields, map[]);
          slot := One(false, Message(initial));
        } else if f.initial.Some? {
          slot := One(false, f.initial.value);
        } else {
          slot := One(false, ZeroValue(f.ltype));
        }
    }
  }

  /** pb_message_set_to_defaults */
  method SetToDefaults(fields: seq<Field>, before: map<nat, Slot>) returns (slots: map<nat, Slot>)
    ensures slots == Defaults(fields, before)
    decreases fields, 0
  {
    hide DefaultSlot;
    slots := before;
    var iter := new FieldIter(fields);
    if fields == [] { return; }
    var more := true;
    assert fields[0..] == fields;
    while more
      invariant iter.Valid() && iter.fields == fields
      invariant more ==> Defaults(fields, before) == Defaults(fields[iter.pos..], slots)
      invariant !more ==> slots == Defaults(fields, before)
      decreases more, |fields| - iter.pos
    {
      var f, i := fields[iter.pos], iter.pos;
      assert fields[i..][0] == f && fields[i..][1..] == fields[i + 1..];
      var slot := FieldSetToDefault(f);
      slots := slots[f.slot := slot];
      more := iter.Next();
    }
  }

  lemma {:induction false} FixedOfPrefix(s: Bytes, bytes: Bytes)
    requires |bytes| <= |s| && bytes == s[..|bytes|]
    ensures |bytes| == 4 ==> DecodeFixed32(bytes) == DecodeFixed32(s)
    ensures |bytes| == 8 ==> DecodeFixed64(bytes) == DecodeFixed64(s)
  {
    if |bytes| == 8 {
      assert bytes[4..][..4] == s[4..][..4];
    }
  }

  lemma {:induction false} Taken(s: Bytes, left: nat, n: nat)
    requires n <= left <= |s|
    ensures s[..left][..n] == s[..n] && s[..left][n..] == s[n..][..left - n] && s[left..] == s[n..][left - n..]
    ensures n == 1 ==> s[..left] == [s[0]] + s[1..][..left - 1]
  {
  }

  lemma {:induction false} Truncates(full: nat, bits: nat)
    ensures (full % 0x1_0000_0000_0000_0000 + bits) % 0x1_0000_0000_0000_0000 == (full + bits) % 0x1_0000_0000_0000_0000
  {
  }

  lemma {:induction false} ResumeByte(input: Bytes, k: nat, full: nat)
    requires k < 10 && k < |input|
    ensures Weight(k) * (input[k] % 128) >= 0
    ensures input[k] >= 128 ==>
      Resume(ParseVarint(input[k..], 10 - k), full, k) == Resume(ParseVarint(input[k + 1..], 9 - k), full + Weight(k) * (input[k] % 128), k + 1)
    ensures input[k] < 128 ==>
      Resume(ParseVarint(input[k..], 10 - k), full, k) == Parsed(full + Weight(k) * (input[k] % 128), k + 1)
  {
    hide ParseVarint, Resume, Weight;
    var byte: int := input[k];
    if byte >= 128 {
      assert byte % 128 == byte - 128;
      ResumeStep(input, 10, k, full);
    } else {
      assert byte % 128 == byte;
      ResumeEnd(input, 10, k, full);
    }
  }

  lemma {:induction false} MoreStep(s: Bytes, result: nat, bitpos: nat)
    ensures
      MoreVarint32(s, result, bitpos) ==
      if s == [] then Fail
      else if bitpos >= 32 && s[0] % 128 != 0 && (result < 0x8000_0000 || s[0] != if bitpos < 63 then 0xFF else 0x01) then Fail
      else
        var sum := if bitpos >= 32 then result else Or(result, s[0] % 128 * TwoTo(bitpos) % 0x1_0000_0000);
        var next := (bitpos + 7) % 256;
        if s[0] >= 128 then MoreVarint32(s[1..], sum, next)
        else if next == 35 && s[0] >= 16 then Fail
        else Ok(sum, s[1..])
  {
    hide Or, TwoTo;
  }
}
