/** What the nanopb decoder (pb_decode.c) makes of bytes that the encoder of the same descriptor did not write. */
module NanopbSafety {
  import opened Coding
  import opened Options
  import opened NanopbFormat
  import opened NanopbRoundTrip

  // ---- What fits the generated struct ----

  // The value lies within the member's type and space.
  ghost predicate Storable(t: LType, v: Value)
    decreases t
  {
    match t
    case Bool => v == Int(0) || v == Int(1)
    case Varint_(size) => v.Int? && FitsSigned(v.n, size)
    case UVarint(size) => v.Int? && 0 <= v.n < Range(size)
    case SVarint(size) => v.Int? && FitsSigned(v.n, size)
    case Fixed32_ => v.Int? && 0 <= v.n < Range(4)
    case Fixed64_ => v.Int? && 0 <= v.n < Range(8)
    case Bytes_(max) => v.Data? && |v.bytes| <= max
    case String_(max) => v.Data? && |v.bytes| < max
    case FixedBytes(size) => v.Data? && |v.bytes| == size
    case Submessage(fields) => v.Message? && StorableMessage(fields, v.slots)
  }

  ghost predicate StorableSlot(f: Field, s: Slot)
    decreases f, 0
  {
    match f.htype
    case Repeated(max) => s.Many? && |s.values| <= max && forall i :: 0 <= i < |s.values| ==> Storable(f.ltype, s.values[i])
    case OneOf => s.Union? && (s.which == f.tag ==> Storable(f.ltype, s.data))
    case _ => s.One? && Storable(f.ltype, s.value)
  }

  ghost predicate StorableMessage(fields: seq<Field>, slots: map<nat, Slot>)
    decreases fields
  {
    forall i :: 0 <= i < |fields| ==> fields[i].slot in slots && StorableSlot(fields[i], slots[fields[i].slot])
  }

  // The defaults in the descriptor fit, as those that the generator writes do.
  ghost predicate InitialsFit(t: LType)
    decreases t
  {
    t.Submessage? ==> FieldsFit(t.fields)
  }

  ghost predicate FieldsFit(fields: seq<Field>)
    decreases fields
  {
    forall i :: 0 <= i < |fields| ==> FieldFits(fields[i])
  }

  ghost predicate FieldFits(f: Field)
    decreases f
  {
    InitialsFit(f.ltype) && (f.initial.Some? ==> Storable(f.ltype, f.initial.value))
  }

  lemma {:induction false} ZeroStorable(t: LType)
    requires ValidLType(t) && InitialsFit(t)
    ensures Storable(t, ZeroValue(t))
    decreases t, 0
  {
    if t.Submessage? {
      DefaultsStorable(t.fields);
    }
  }

  lemma {:induction false} DefaultsStorable(fields: seq<Field>)
    requires ValidFields(fields) && FieldsFit(fields)
    ensures StorableMessage(fields, Defaults(fields, map[]))
    decreases fields, 1
  {
    hide DefaultSlot, StorableSlot;
    forall i | 0 <= i < |fields|
      ensures fields[i].slot in Defaults(fields, map[]) && StorableSlot(fields[i], Defaults(fields, map[])[fields[i].slot])
    {
      DefaultsAt(fields, map[], i);
      assert ValidField(fields[i]) && FieldFits(fields[i]);
      DefaultStorable(fields[i]);
    }
  }

  lemma {:induction false} DefaultStorable(f: Field)
    requires ValidField(f) && FieldFits(f)
    ensures StorableSlot(f, DefaultSlot(f))
    decreases f, 0
  {
    ZeroStorable(f.ltype);
  }

  // ---- Decoding arbitrary bytes ----

  lemma {:induction false} ScalarStorable(t: LType, s: Bytes, prior: Value)
    requires ValidLType(t) && !t.Submessage? && DecodeValue(t, s, prior).Ok?
    ensures Storable(t, DecodeValue(t, s, prior).value)
  {
    hide ReadVarint32, ReadDelimited, DecodeFixed64;
    if t.Fixed64_? {
      assert 0 <= DecodeFixed64(s) < Range(8);
    }
  }

  lemma {:induction false} ValueStorable(t: LType, s: Bytes, prior: Value)
    requires ValidLType(t) && InitialsFit(t) && DecodeValue(t, s, prior).Ok?
    requires prior.Message? && t.Submessage? ==> Storable(t, prior)
    ensures Storable(t, DecodeValue(t, s, prior).value)
    decreases |s|, 1
  {
    if t.Submessage? {
      hide ReadVarint32, DecodeFields, StorableMessage, Defaults, AllSeen;
      var r := ReadDelimited(s);
      var before := SlotsIn(prior, t.fields);
      if !prior.Message? {
        DefaultsStorable(t.fields);
      }
      FieldsStorable(t.fields, r.value, before, {});
    } else {
      ScalarStorable(t, s, prior);
    }
  }

  lemma {:induction false} PackedStorable(t: LType, s: Bytes, vs: seq<Value>, max: nat)
    requires ValidLType(t) && Packable(t) && DecodePacked(t, s, vs, max).Some?
    requires |vs| <= max && forall i :: 0 <= i < |vs| ==> Storable(t, vs[i])
    ensures var ws := DecodePacked(t, s, vs, max).value; |ws| <= max && forall i :: 0 <= i < |ws| ==> Storable(t, ws[i])
    decreases |s|, 2
  {
    hide DecodeValue, Storable;
    if s != [] {
      var r := DecodeValue(t, s, Int(0));
      ScalarStorable(t, s, Int(0));
      assert |r.rest| < |s| by { ScalarShortens(t, s); }
      PackedStorable(t, r.rest, vs + [r.value], max);
    }
  }

  lemma {:induction false} ScalarShortens(t: LType, s: Bytes)
    requires Packable(t) && DecodeValue(t, s, Int(0)).Ok?
    ensures |DecodeValue(t, s, Int(0)).rest| < |s|
  {
  }

  lemma {:induction false} FieldStorable(f: Field, wireType: nat, s: Bytes, slot: Slot)
    requires ValidField(f) && FieldFits(f) && StorableSlot(f, slot) && DecodeField(f, wireType, s, slot).Ok?
    ensures StorableSlot(f, DecodeField(f, wireType, s, slot).value)
    ensures f.htype.OneOf? ==> DecodeField(f, wireType, s, slot).value.Union? && DecodeField(f, wireType, s, slot).value.which == f.tag
    decreases |s|, 3
  {
    hide ReadVarint32, DecodeValue, DecodePacked, Storable, ReadDelimited;
    var zero := ZeroValue(f.ltype);
    ZeroStorable(f.ltype);
    match f.htype
    case Repeated(max) =>
      if wireType == WT_STRING && Packable(f.ltype) {
        DelimitedShortens(s);
        PackedStorable(f.ltype, ReadDelimited(s).value, slot.values, max);
      } else {
        ValueStorable(f.ltype, s, zero);
      }
    case OneOf => ValueStorable(f.ltype, s, zero);
    case _ => ValueStorable(f.ltype, s, slot.value);
  }

  lemma {:induction false} DelimitedShortens(s: Bytes)
    requires ReadDelimited(s).Ok?
    ensures |ReadDelimited(s).value| < |s|
  {
  }

  // A decoded field in its slot leaves the other slots storable.
  lemma {:induction false} SlotSet(fields: seq<Field>, i: nat, slots: map<nat, Slot>, slot: Slot)
    requires ValidFields(fields) && i < |fields| && StorableMessage(fields, slots) && StorableSlot(fields[i], slot)
    requires fields[i].htype.OneOf? ==> slot.which == fields[i].tag
    ensures StorableMessage(fields, slots[fields[i].slot := slot])
  {
    hide Storable;
    forall j | 0 <= j < |fields| && j != i && fields[j].slot == fields[i].slot ensures StorableSlot(fields[j], slot) {
      SharedIsUnion(fields, j, i);
      SharedIsUnion(fields, i, j);
    }
  }

  lemma {:induction false} FieldsStorable(fields: seq<Field>, s: Bytes, slots: map<nat, Slot>, seen: set<nat>)
    requires ValidFields(fields) && FieldsFit(fields) && StorableMessage(fields, slots)
    requires DecodeFields(fields, s, slots, seen).Decoded?
    ensures StorableMessage(fields, DecodeFields(fields, s, slots, seen).slots)
    decreases |s|, 0
  {
    hide ReadVarint32, DecodeField, SkipField, StorableSlot, Seen, FindField, ValidField, FieldFits;
    if s != [] {
      var tag := ReadVarint32(s);
      assert tag.Ok?;
      if tag.value != 0 {
        if tag.value < 8 && fields == [] {
          FieldsStorable(fields, ReadVarint32(tag.rest).rest, slots, seen);
        } else {
          var i := FindField(fields, tag.value / 8);
          if i == |fields| {
            FieldsStorable(fields, SkipField(tag.value % 8, tag.rest).rest, slots, seen);
          } else {
            var f := fields[i];
            var r := DecodeField(f, tag.value % 8, tag.rest, slots[f.slot]);
            assert ValidField(f) && FieldFits(f) && StorableSlot(f, slots[f.slot]);
            FieldStorable(f, tag.value % 8, tag.rest, slots[f.slot]);
            SlotSet(fields, i, slots, r.value);
            FieldsStorable(fields, r.rest, slots[f.slot := r.value], Seen(fields, i, seen));
          }
        }
      }
    }
  }

  /** Whatever the bytes are, a message that is decoded fits the struct: every number lies in its type's range,
      no string, byte array or repeated field has more than its space, and a union holds what its tag says. */
  lemma {:induction false} DecodedIsStorable(fields: seq<Field>, s: Bytes)
    requires ValidFields(fields) && FieldsFit(fields) && DecodeMessage(fields, s).Some?
    ensures StorableMessage(fields, DecodeMessage(fields, s).value)
  {
    hide DecodeFields, StorableMessage, Defaults, AllSeen;
    DefaultsStorable(fields);
    FieldsStorable(fields, s, Defaults(fields, map[]), {});
  }

  // ---- Numbers that are too large for 32 bits ----

  // The groups of seven bits from `bitpos` on are all zero or all one, and the last one is bit 63.
  predicate SignExtended(u: nat, bitpos: nat) {
    if u < 128 then bitpos == 63 && u == 1
    else (u % 128 == 0 || u % 128 == 127) && SignExtended(u / 128, bitpos + 7)
  }

  // From bit 35 on, nothing is kept.
  lemma {:induction false} HighReads(u: nat, rest: Bytes, result: nat, bitpos: nat)
    requires bitpos in [35, 42, 49, 56, 63] && u > 0 && (bitpos == 63 ==> u < 128)
    requires bitpos == 35 ==> u < 0x2000_0000
    requires bitpos == 42 ==> u < 0x40_0000
    requires bitpos == 49 ==> u < 0x8000
    requires bitpos == 56 ==> u < 0x100
    ensures MoreVarint32(Varint(u) + rest, result, bitpos) ==
            if result >= 0x8000_0000 && SignExtended(u, bitpos) then Ok(result, rest) else Fail
  {
    hide TwoTo, Or, Varint;
    FirstByte(u, rest);
    if u >= 128 {
      HighReads(u / 128, rest, result, bitpos + 7);
    }
  }

  lemma {:induction false} Split(v: nat)
    ensures v == v % 128 + 128 * (v / 128) && v % 128 < 128 && (v < 128 ==> v / 128 == 0)
  {
  }

  lemma {:induction false} TopGroup(v4: nat)
    ensures v4 == v4 % 16 + 16 * (v4 / 16) && v4 / 128 == v4 / 16 / 8
  {
  }

  lemma {:induction false} TopWord(v: nat)
    ensures v / 0x8_0000_0000 == v / 0x1_0000_0000 / 8
  {
  }

  lemma {:induction false} Groups(v: nat, v1: nat, v2: nat, v3: nat, v4: nat)
    requires v1 == v / 128 && v2 == v1 / 128 && v3 == v2 / 128 && v4 == v3 / 128
    ensures v % 128 + v1 % 128 * 0x80 + v2 % 128 * 0x4000 + v3 % 128 * 0x20_0000 + v4 % 16 * 0x1000_0000 == v % 0x1_0000_0000
    ensures v4 / 128 == v / 0x8_0000_0000 && v / 0x1_0000_0000 == v4 / 16
    ensures (v1 < 128 ==> v2 == 0) && (v2 < 128 ==> v3 == 0) && (v3 < 128 ==> v4 == 0)
  {
    Split(v);
    Split(v1);
    Split(v2);
    Split(v3);
    TopGroup(v4);
    var a, b, c, d, e, high := v % 128, v1 % 128, v2 % 128, v3 % 128, v4 % 16, v4 / 16;
    Remainder(v, a + b * 0x80 + c * 0x4000 + d * 0x20_0000 + e * 0x1000_0000, high);
    TopWord(v);
  }

  /** What pb_decode_varint32 makes of every 64-bit number: those below 2^32 are read; of the others most are
      rejected, but not those that look like the sign extension of a negative number by their bits 31 and
      above, where bits 32 to 34 are not looked at and a group may also be zero. */
  lemma {:induction false} Varint32Iff(v: nat, rest: Bytes)
    requires v < 0x1_0000_0000_0000_0000
    ensures ReadVarint32(Varint(v) + rest) ==
            if v < 0x1_0000_0000 || (v % 0x1_0000_0000 >= 0x8000_0000 && SignExtended(v / 0x8_0000_0000, 35)) then Ok(v % 0x1_0000_0000, rest)
            else Fail
  {
    hide TwoTo, Or, Varint, MoreVarint32, SignExtended;
    if v < 0x1_0000_0000 {
      VarintReads(v, rest);
    } else {
      var v1 := v / 128;
      var v2 := v1 / 128;
      var v3 := v2 / 128;
      var v4 := v3 / 128;
      Groups(v, v1, v2, v3, v4);
      TooLarge(v, v4);
      FirstFour(v, rest, v1, v2, v3, v4);
      if v4 >= 128 {
        HighReads(v4 / 128, rest, v % 0x1_0000_0000, 35);
      } else {
        NoSign();
      }
    }
  }

  lemma {:induction false} TooLarge(v: nat, v4: nat)
    requires 0x1_0000_0000 <= v < 0x1_0000_0000_0000_0000 && v / 0x1_0000_0000 == v4 / 16 && v4 / 128 == v / 0x8_0000_0000
    ensures v4 >= 16 && v4 / 128 < 0x2000_0000 && (v4 < 128 ==> v4 / 128 == 0) && (v4 >= 128 ==> v4 / 128 > 0)
  {
  }

  // The first five bytes of a number that does not fit.
  lemma {:induction false} FirstFour(v: nat, rest: Bytes, v1: nat, v2: nat, v3: nat, v4: nat)
    requires v1 == v / 128 && v2 == v1 / 128 && v3 == v2 / 128 && v4 == v3 / 128 && v4 >= 16
    ensures ReadVarint32(Varint(v) + rest) ==
            if v4 >= 128 then MoreVarint32(Varint(v4 / 128) + rest, v % 0x1_0000_0000, 35) else Fail
  {
    hide TwoTo, Or, Varint, MoreVarint32;
    FirstByte(v, rest);
    Sevens();
    Groups(v, v1, v2, v3, v4);
    var r1: nat := v % 128;
    var r2: nat := r1 + v1 % 128 * 0x80;
    var r3: nat := r2 + v2 % 128 * 0x4000;
    var r4: nat := r3 + v3 % 128 * 0x20_0000;
    LowReads(v1, rest, r1, 7, r2);
    LowReads(v2, rest, r2, 14, r3);
    LowReads(v3, rest, r3, 21, r4);
    LowReads(v4, rest, r4, 28, v % 0x1_0000_0000);
  }

  lemma {:induction false} NoSign()
    ensures !SignExtended(0, 35)
  {
  }

  /** So some numbers that are not negative, and do not fit, are read as others: 2^63 + 2^31 as 2^31. */
  lemma {:induction false} Varint32Drops()
    ensures ReadVarint32(Varint(0x8000_0000_8000_0000)) == Ok(0x8000_0000, [])
  {
    hide Varint, ReadVarint32;
    var u := 0x8000_0000_8000_0000 / 0x8_0000_0000;
    assert u == 0x1000_0000 && SignExtended(u, 35) by {
      assert SignExtended(1, 63);
      assert SignExtended(0x80, 56);
      assert SignExtended(0x4000, 49);
      assert SignExtended(0x20_0000, 42);
    }
    Varint32Iff(0x8000_0000_8000_0000, []);
    assert Varint(0x8000_0000_8000_0000) + [] == Varint(0x8000_0000_8000_0000);
  }

  // ---- A writer with wider integers ----

  /** An integer that was written with 64 bits is read into a narrower member exactly if it fits; plain signed
      varints are cut to 32 bits first, without a complaint. */
  lemma {:induction false} WiderWriter(n: int, size: nat, rest: Bytes, prior: Value)
    requires IsSize(size)
    ensures 0 <= n < Range(8) ==>
      DecodeValue(UVarint(size), EncodeValue(UVarint(8), Int(n)) + rest, prior) == if n < Range(size) then Ok(Int(n), rest) else Fail
    ensures FitsSigned(n, 8) ==>
      DecodeValue(SVarint(size), EncodeValue(SVarint(8), Int(n)) + rest, prior) == if FitsSigned(n, size) then Ok(Int(n), rest) else Fail
    ensures FitsSigned(n, 8) && FitsSigned(n, 4) ==>
      DecodeValue(Varint_(size), EncodeValue(Varint_(8), Int(n)) + rest, prior) == if FitsSigned(n, size) then Ok(Int(n), rest) else Fail
    ensures FitsSigned(n, 8) ==>
      match DecodeValue(Varint_(4), EncodeValue(Varint_(8), Int(n)) + rest, prior)
      case Fail => false
      case Ok(v, rest') => rest' == rest && v.Int? && FitsSigned(v.n, 4) && (v.n - n) % 0x1_0000_0000 == 0
  {
    hide ReadVarint, Varint;
    if 0 <= n < Range(8) {
      VarintReads(n, rest);
    }
    if FitsSigned(n, 8) {
      SignedReads(n, 8);
      ZigZagReads(n, 8);
      VarintReads(AsUnsigned(n, 8), rest);
      VarintReads(ZigZag(n), rest);
      LowWord(n);
    }
  }

  lemma {:induction false} LowWord(n: int)
    requires FitsSigned(n, 8)
    ensures
      var w := AsSigned(AsUnsigned(n, 8), 4);
      FitsSigned(w, 4) && (w - n) % 0x1_0000_0000 == 0 && (FitsSigned(n, 4) ==> w == n)
  {
    var m: int := AsUnsigned(n, 8);
    assert m == if n >= 0 then n else n + 0x1_0000_0000_0000_0000;
    var q, r := m / 0x1_0000_0000, m % 0x1_0000_0000;
    assert m == q * 0x1_0000_0000 + r;
  }

  // ---- Elements one by one, and fields more than once ----

  /** The elements of a packable field are also read one by one, each behind a tag of its own. */
  lemma {:induction false} UnpackedReads(fields: seq<Field>, i: nat, vs: seq<Value>, acc: seq<Value>, state: map<nat, Slot>, seen: set<nat>, rest: Bytes)
    requires ValidFields(fields) && i < |fields| && fields[i].htype.Repeated? && Packable(fields[i].ltype)
    requires fields[i].slot in state && state[fields[i].slot] == Many(acc) && |acc| + |vs| <= fields[i].htype.max
    requires forall k :: 0 <= k < |vs| ==> ValidValue(fields[i].ltype, vs[k])
    ensures DecodeFields(fields, EncodeUnpacked(fields[i], vs) + rest, state, seen) ==
            DecodeFields(fields, rest, state[fields[i].slot := Many(acc + vs)], seen)
    decreases |vs|
  {
    hide DecodeFields, DecodeValue, EncodeValue, TagBytes, ValidValue;
    var f := fields[i];
    if vs == [] {
      assert acc + vs == acc && [] + rest == rest && state[f.slot := Many(acc)] == state;
    } else {
      var tag, head, tail := TagBytes(f.tag, WireType(f.ltype)), EncodeValue(f.ltype, vs[0]), EncodeUnpacked(f, vs[1..]);
      assert EncodeUnpacked(f, vs) + rest == tag + head + (tail + rest);
      assert ValidField(f);
      IntRoundTrip(f.ltype, vs[0], tail + rest, ZeroValue(f.ltype));
      assert WireType(f.ltype) < 8 && WireType(f.ltype) != WT_STRING;
      assert state[f.slot].values == acc;
      OneFieldDecodes(fields, i, WireType(f.ltype), head, tail + rest, state, seen, Many(acc + [vs[0]]));
      assert Seen(fields, i, seen) == seen;
      var next := state[f.slot := Many(acc + [vs[0]])];
      UnpackedReads(fields, i, vs[1..], acc + [vs[0]], next, seen, rest);
      assert acc + [vs[0]] + vs[1..] == acc + vs;
      assert next[f.slot := Many(acc + vs)] == state[f.slot := Many(acc + vs)];
    }
  }

  /** Of a single field that comes twice, the last value stays. */
  lemma {:induction false} LastWins(fields: seq<Field>, i: nat, v: Value, w: Value, state: map<nat, Slot>, seen: set<nat>, rest: Bytes)
    requires ValidFields(fields) && i < |fields| && !fields[i].ltype.Submessage?
    requires (fields[i].htype.Required? || fields[i].htype.Optional? || fields[i].htype.Implicit?)
    requires fields[i].slot in state && state[fields[i].slot].One?
    requires ValidValue(fields[i].ltype, v) && ValueInLimits(fields[i].ltype, v) && |EncodeValue(fields[i].ltype, v)| < 0x1_0000_0000
    requires ValidValue(fields[i].ltype, w) && ValueInLimits(fields[i].ltype, w) && |EncodeValue(fields[i].ltype, w)| < 0x1_0000_0000
    ensures
      var tag := TagBytes(fields[i].tag, WireType(fields[i].ltype));
      && DecodeFields(fields, tag + EncodeValue(fields[i].ltype, v) + (tag + EncodeValue(fields[i].ltype, w) + rest), state, seen) ==
         DecodeFields(fields, tag + EncodeValue(fields[i].ltype, w) + rest, state, seen)
      && exists s: Slot :: s.One? && s.value == w && DecodeFields(fields, tag + EncodeValue(fields[i].ltype, w) + rest, state, seen) ==
           DecodeFields(fields, rest, state[fields[i].slot := s], Seen(fields, i, seen))
  {
    hide DecodeFields, TagBytes, EncodeValue, ValidValue, ValueInLimits, Seen;
    var f := fields[i];
    var tag := TagBytes(f.tag, WireType(f.ltype));
    var more := tag + EncodeValue(f.ltype, w) + rest;
    var s := SingleDecodes(fields, i, v, more, state, seen);
    var s' := SingleDecodes(fields, i, w, rest, state, seen);
    var next := state[f.slot := s];
    var s'' := SingleDecodes(fields, i, w, rest, next, Seen(fields, i, seen));
    assert next[f.slot := s''] == state[f.slot := s'];
    SeenAgain(fields, i, seen);
  }

  lemma {:induction false} SeenAgain(fields: seq<Field>, i: nat, seen: set<nat>)
    requires i < |fields|
    ensures Seen(fields, i, Seen(fields, i, seen)) == Seen(fields, i, seen)
  {
  }

  lemma {:induction false} SingleDecodes(fields: seq<Field>, i: nat, v: Value, rest: Bytes, state: map<nat, Slot>, seen: set<nat>) returns (s: Slot)
    requires ValidFields(fields) && i < |fields| && !fields[i].ltype.Submessage?
    requires (fields[i].htype.Required? || fields[i].htype.Optional? || fields[i].htype.Implicit?)
    requires fields[i].slot in state && state[fields[i].slot].One?
    requires ValidValue(fields[i].ltype, v) && ValueInLimits(fields[i].ltype, v) && |EncodeValue(fields[i].ltype, v)| < 0x1_0000_0000
    ensures s == One(fields[i].htype.Optional? || state[fields[i].slot].has, v)
    ensures DecodeFields(fields, TagBytes(fields[i].tag, WireType(fields[i].ltype)) + EncodeValue(fields[i].ltype, v) + rest, state, seen) ==
            DecodeFields(fields, rest, state[fields[i].slot := s], Seen(fields, i, seen))
  {
    hide DecodeFields, DecodeValue, TagBytes, EncodeValue, ValidValue, ValueInLimits, ReadsValue;
    var f := fields[i];
    s := One(f.htype.Optional? || state[f.slot].has, v);
    assert ValidField(f);
    var prior := state[f.slot].value;
    var w := ValueRoundTrip(f.ltype, v, rest, prior);
    assert w == v by { PlainReads(f.ltype, v, w); }
    assert WireType(f.ltype) < 8;
    OneFieldDecodes(fields, i, WireType(f.ltype), EncodeValue(f.ltype, v), rest, state, seen, s);
  }

  lemma {:induction false} PlainReads(t: LType, v: Value, w: Value)
    requires !t.Submessage? && ValidValue(t, v) && ReadsValue(t, v, w)
    ensures w == v
  {
  }

  // ---- The format itself ----

  lemma {:induction false} SmallVarint(v: nat)
    requires v < 128
    ensures Varint(v) == [v]
  {
  }

  /** Examples of the Protocol Buffers Encoding guide, sections "A Simple Message", "Length-Delimited Records",
      "Packed Repeated Fields" and "Signed Integers". */
  lemma {:induction false} GuideExamples()
    ensures EncodeField(Field(1, 0, Required, Varint_(4), None), One(true, Int(150))) == [0x08, 0x96, 0x01]
    ensures EncodeField(Field(2, 0, Required, String_(8), None), One(true, Data([0x74, 0x65, 0x73, 0x74, 0x69, 0x6e, 0x67]))) ==
            [0x12, 0x07, 0x74, 0x65, 0x73, 0x74, 0x69, 0x6e, 0x67]
    ensures EncodeField(Field(6, 0, Repeated(3), Varint_(4), None), Many([Int(3), Int(270), Int(86942)])) ==
            [0x32, 0x06, 0x03, 0x8e, 0x02, 0x9e, 0xa7, 0x05]
    ensures ZigZag(0) == 0 && ZigZag(-1) == 1 && ZigZag(1) == 2 && ZigZag(0x7fff_ffff) == 0xffff_fffe && ZigZag(-0x8000_0000) == 0xffff_ffff
  {
    hide Varint, EncodePacked;
    LowGroupFirst();
    SmallVarint(6);
    SmallVarint(7);
    SmallVarint(0x08);
    SmallVarint(0x12);
    SmallVarint(0x32);
    PackedExample();
  }

  lemma {:induction false} PackedExample()
    ensures EncodePacked(Varint_(4), [Int(3), Int(270), Int(86942)]) == [0x03, 0x8e, 0x02, 0x9e, 0xa7, 0x05]
  {
    hide Varint;
    LowGroupFirst();
    SmallVarint(3);
    PackedTwo(Int(270), Int(86942));
    var vs := [Int(3), Int(270), Int(86942)];
    assert vs[1..] == [Int(270), Int(86942)];
  }

  lemma {:induction false} PackedTwo(v: Value, w: Value)
    requires ValidValue(Varint_(4), v) && ValidValue(Varint_(4), w)
    ensures EncodePacked(Varint_(4), [v, w]) == EncodeValue(Varint_(4), v) + EncodeValue(Varint_(4), w)
  {
    hide EncodeValue;
    var t := Varint_(4);
    var e := EncodeValue(t, w);
    assert [v, w][1..] == [w] && [w][1..] == [];
    assert EncodePacked(t, [w]) == e + EncodePacked(t, []) && EncodePacked(t, []) == [];
    assert e + [] == e;
  }
}
