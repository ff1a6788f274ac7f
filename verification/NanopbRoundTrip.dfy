/** Decoding undoes encoding (pb_encode.c, pb_decode.c). */
module NanopbRoundTrip {
  import opened Coding
  import opened Options
  import opened NanopbFormat

  // ---- Primitive reads ----

  // Below the position of b's lowest bit, or is addition.
  lemma {:induction false} OrAdds(a: nat, c: nat, n: nat)
    requires a < TwoTo(n)
    ensures Or(a, c * TwoTo(n)) == a + c * TwoTo(n)
  {
    if n > 0 && a > 0 && c > 0 {
      var half := c * TwoTo(n - 1);
      assert c * TwoTo(n) == 2 * half;
      OrAdds(a / 2, c, n - 1);
      assert 2 * half > 0 && 2 * half / 2 == half;
    }
  }

  lemma {:induction false} SevenMore(n: nat)
    ensures TwoTo(n + 7) == 128 * TwoTo(n)
  {
    assert TwoTo(n + 2) == 4 * TwoTo(n);
    assert TwoTo(n + 4) == 4 * TwoTo(n + 2);
    assert TwoTo(n + 6) == 4 * TwoTo(n + 4);
  }

  lemma {:induction false} Sevens()
    ensures TwoTo(7) == 0x80 && TwoTo(14) == 0x4000 && TwoTo(21) == 0x20_0000 && TwoTo(28) == 0x1000_0000 && TwoTo(35) == 0x8_0000_0000
  {
    hide TwoTo;
    SevenMore(0);
    SevenMore(7);
    SevenMore(14);
    SevenMore(21);
    SevenMore(28);
    assert TwoTo(0) == 1 by { TwoToZero(); }
  }

  lemma {:induction false} TwoToZero()
    ensures TwoTo(0) == 1
  {
  }

  lemma {:induction false} FirstByte(v: nat, rest: Bytes)
    ensures
      var s := Varint(v) + rest;
      if v < 128 then s[0] == v && s[1..] == rest else s[0] == v % 128 + 128 && s[1..] == Varint(v / 128) + rest
  {
    if v >= 128 {
      assert (Varint(v) + rest)[1..] == Varint(v / 128) + rest;
    } else {
      assert (Varint(v) + rest)[1..] == rest;
    }
  }

  // One more byte at or before bit 28.
  lemma {:induction false} LowReads(v: nat, rest: Bytes, result: nat, bitpos: nat, sum: nat)
    requires bitpos in [7, 14, 21, 28] && result < TwoTo(bitpos)
    requires sum == result + (if bitpos == 28 then v % 16 else v % 128) * TwoTo(bitpos)
    ensures MoreVarint32(Varint(v) + rest, result, bitpos) ==
            if v >= 128 then MoreVarint32(Varint(v / 128) + rest, sum, bitpos + 7)
            else if bitpos == 28 && v >= 16 then Fail else Ok(sum, rest)
  {
    hide TwoTo, Or, Varint;
    FirstByte(v, rest);
    var low := if bitpos == 28 then v % 16 else v % 128;
    OrAdds(result, low, bitpos);
    Cut(v % 128, bitpos);
    Group(v);
    assert Or(result, v % 128 * TwoTo(bitpos) % 0x1_0000_0000) == sum;
  }

  lemma {:induction false} Group(v: nat)
    ensures v % 128 % 16 == v % 16 && (v >= 128 ==> (v % 128 + 128) % 128 == v % 128)
  {
  }

  // What is left of a group in 32 bits.
  lemma {:induction false} Cut(g: nat, bitpos: nat)
    requires g < 128 && bitpos in [7, 14, 21, 28]
    ensures g * TwoTo(bitpos) % 0x1_0000_0000 == (if bitpos == 28 then g % 16 else g) * TwoTo(bitpos)
  {
    hide TwoTo;
    Sevens();
    if bitpos == 28 {
      assert g == g % 16 + 16 * (g / 16);
      Remainder(g * 0x1000_0000, g % 16 * 0x1000_0000, g / 16);
    }
  }

  lemma {:induction false} Remainder(v: nat, low: nat, high: nat)
    requires low < 0x1_0000_0000 && v == low + 0x1_0000_0000 * high
    ensures v % 0x1_0000_0000 == low && v / 0x1_0000_0000 == high
  {
  }

  lemma {:induction false} MoreReads(v: nat, rest: Bytes, result: nat, bitpos: nat)
    requires bitpos in [7, 14, 21, 28] && 0 < v && result < TwoTo(bitpos) && result + v * TwoTo(bitpos) < 0x1_0000_0000
    ensures MoreVarint32(Varint(v) + rest, result, bitpos) == Ok(result + v * TwoTo(bitpos), rest)
  {
    hide TwoTo, Or, Varint, MoreVarint32;
    var w := TwoTo(bitpos);
    Sevens();
    SevenMore(bitpos);
    assert bitpos == 28 ==> v < 16;
    var low := if bitpos == 28 then v % 16 else v % 128;
    Bounded(0, low, w);
    LowReads(v, rest, result, bitpos, result + low * w);
    if v >= 128 {
      Carry(v, result, w);
      MoreReads(v / 128, rest, result + v % 128 * w, bitpos + 7);
    }
  }

  // The low seven bits are added, the others go on with the next weight.
  lemma {:induction false} Carry(v: nat, result: nat, w: nat)
    requires v >= 128 && w > 0 && result < w && result + v * w < 0x1_0000_0000
    ensures 0 <= v % 128 * w && result + v % 128 * w < 128 * w
    ensures result + v % 128 * w + v / 128 * (128 * w) == result + v * w
    ensures 128 * w < 0x1_0000_0000 && result + v % 128 * w < 0x1_0000_0000
  {
    var q, r := v / 128, v % 128;
    assert v == r + 128 * q;
    Distribute(w, r, q);
    assert w * (r + 128 * q) == v * w;
    Commute(q, w);
    Bounded(r, 127, w);
    Bounded(1, q, 128 * w);
    Bounded(128, v, w);
  }

  lemma {:induction false} Commute(q: int, w: int)
    ensures 128 * w * q == q * (128 * w)
  {
  }

  lemma {:induction false} Bounded(a: nat, b: nat, w: nat)
    requires a <= b
    ensures 0 <= a * w <= b * w
  {
  }

  lemma {:induction false} Varint32Reads(v: nat, rest: Bytes)
    requires v < 0x1_0000_0000
    ensures ReadVarint32(Varint(v) + rest) == Ok(v, rest)
  {
    hide TwoTo, Or, MoreVarint32;
    var s := Varint(v) + rest;
    Sevens();
    if v < 128 {
      assert s[1..] == rest;
    } else {
      assert s[1..] == Varint(v / 128) + rest;
      MoreReads(v / 128, rest, v % 128, 7);
    }
  }

  lemma {:induction false} VarintReads(v: nat, rest: Bytes)
    requires v < 0x1_0000_0000_0000_0000
    ensures ReadVarint(Varint(v) + rest) == Ok(v, rest)
    ensures v < 0x1_0000_0000 ==> ReadVarint32(Varint(v) + rest) == Ok(v, rest)
  {
    hide Varint, ParseVarint, ReadVarint32;
    if v < 0x1_0000_0000 {
      Varint32Reads(v, rest);
    }
    assert |Varint(v)| <= 10 by {
      WeightsOf();
      VarintSize(v, 10);
    }
    VarintRoundTrip(v, rest, 10);
    assert (Varint(v) + rest)[|Varint(v)|..] == rest;
  }

  lemma {:induction false} DelimitedReads(b: Bytes, rest: Bytes)
    requires |b| < 0x1_0000_0000
    ensures ReadDelimited(Delimited(b) + rest) == Ok(b, rest)
  {
    hide Varint, ReadVarint32;
    assert Delimited(b) + rest == Varint(|b|) + (b + rest);
    VarintReads(|b|, b + rest);
    assert (b + rest)[..|b|] == b && (b + rest)[|b|..] == rest;
  }

  lemma {:induction false} TagReads(tag: nat, wireType: nat, rest: Bytes)
    requires 0 < tag < 0x2000_0000 && wireType < 8
    ensures ReadVarint32(TagBytes(tag, wireType) + rest) == Ok(tag * 8 + wireType, rest)
    ensures TagBytes(tag, wireType) + rest != []
  {
    hide Varint, ReadVarint32;
    VarintReads(tag * 8 + wireType, rest);
  }

  // ---- Scalars ----

  lemma {:induction false} SignedReads(n: int, size: nat)
    requires IsSize(size) && FitsSigned(n, size)
    ensures AsSigned(AsUnsigned(n, 8), if size == 8 then 8 else 4) == n
    ensures AsUnsigned(n, 8) < 0x1_0000_0000_0000_0000
  {
    var m := AsUnsigned(n, 8);
    assert m == if n >= 0 then n else n + 0x1_0000_0000_0000_0000;
    if size != 8 {
      assert m % 0x1_0000_0000 == if n >= 0 then n else n + 0x1_0000_0000;
    }
  }

  lemma {:induction false} ZigZagReads(n: int, size: nat)
    requires IsSize(size) && FitsSigned(n, size)
    ensures 0 <= ZigZag(n) < 0x1_0000_0000_0000_0000 && UnZigZag(ZigZag(n)) == n
  {
  }

  lemma {:induction false} IntRoundTrip(t: LType, v: Value, rest: Bytes, prior: Value)
    requires ValidLType(t) && ValidValue(t, v) && Packable(t)
    ensures DecodeValue(t, EncodeValue(t, v) + rest, prior) == Ok(v, rest)
  {
    hide ReadVarint, ReadVarint32, Varint, Fixed32, DecodeFixed32, Fixed64, DecodeFixed64, AsSigned, AsUnsigned, ZigZag, UnZigZag, FitsSigned;
    match t {
      case Bool => VarintReads(v.n, rest);
      case Varint_(size) =>
        SignedReads(v.n, size);
        VarintReads(AsUnsigned(v.n, 8), rest);
      case UVarint(size) =>
        assert Range(size) <= 0x1_0000_0000_0000_0000;
        VarintReads(v.n, rest);
      case SVarint(size) =>
        ZigZagReads(v.n, size);
        VarintReads(ZigZag(v.n), rest);
      case Fixed32_ => Fixed32RoundTrip(v.n, rest);
      case Fixed64_ => Fixed64RoundTrip(v.n, rest);
    }
  }

  lemma {:induction false} DataRoundTrip(t: LType, v: Value, rest: Bytes, prior: Value)
    requires ValidLType(t) && ValidValue(t, v) && ValueInLimits(t, v) && !Packable(t) && !t.Submessage?
    ensures DecodeValue(t, EncodeValue(t, v) + rest, prior) == Ok(v, rest)
  {
    hide Delimited, ReadDelimited;
    DelimitedReads(v.bytes, rest);
    if t.FixedBytes? && v.bytes == [] {
      assert seq(t.size, _ => 0) == v.bytes;
    }
  }

  lemma {:induction false} PackedRoundTrip(t: LType, vs: seq<Value>, acc: seq<Value>, max: nat)
    requires ValidLType(t) && Packable(t) && (forall i :: 0 <= i < |vs| ==> ValidValue(t, vs[i])) && |acc| + |vs| <= max
    ensures DecodePacked(t, EncodePacked(t, vs), acc, max) == Some(acc + vs)
    decreases |vs|
  {
    hide EncodeValue, DecodeValue;
    if vs == [] {
      assert acc + vs == acc;
    } else {
      var rest := EncodePacked(t, vs[1..]);
      IntRoundTrip(t, vs[0], rest, Int(0));
      EncodedNotEmpty(t, vs[0]);
      PackedRoundTrip(t, vs[1..], acc + [vs[0]], max);
      assert acc + [vs[0]] + vs[1..] == acc + vs;
    }
  }

  lemma {:induction false} EncodedNotEmpty(t: LType, v: Value)
    requires ValidValue(t, v)
    ensures EncodeValue(t, v) != []
  {
  }

  // ---- What decoding gives back ----

  // What the decoder makes of an encoded value. Only a proto3 field that was left out can differ: it
  // has its initial value then.
  ghost predicate ReadsValue(t: LType, v: Value, w: Value)
    requires ValidValue(t, v)
    decreases t
  {
    match t
    case Submessage(fields) =>
      assert ValidMessage(fields, v.slots);
      w.Message? && ReadsMessage(fields, v.slots, w.slots)
    case _ => w == v
  }

  ghost predicate ReadsSlot(f: Field, s: Slot, s': Slot)
    requires ValidSlot(f, s)
    decreases f, 0
  {
    match f.htype
    case Required => s'.One? && ReadsValue(f.ltype, s.value, s'.value)
    case Optional => s'.One? && s'.has == s.has && (s.has ==> ReadsValue(f.ltype, s.value, s'.value))
    case Implicit => s'.One? && if IsZero(f.ltype, s.value) then s'.value == InitialValue(f) else ReadsValue(f.ltype, s.value, s'.value)
    case Repeated(_) => s'.Many? && |s'.values| == |s.values| && forall i :: 0 <= i < |s.values| ==> ReadsValue(f.ltype, s.values[i], s'.values[i])
    case OneOf => s'.Union? && (s'.which == f.tag <==> s.which == f.tag) && (s.which == f.tag ==> ReadsValue(f.ltype, s.data, s'.data))
  }

  ghost predicate ReadsMessage(fields: seq<Field>, slots: map<nat, Slot>, slots': map<nat, Slot>)
    requires ValidMessage(fields, slots)
    decreases fields
  {
    forall i :: 0 <= i < |fields| ==> fields[i].slot in slots' && ReadsSlot(fields[i], slots[fields[i].slot], slots'[fields[i].slot])
  }

  // ---- Defaults ----

  lemma {:induction false} DefaultsAt(fields: seq<Field>, slots: map<nat, Slot>, i: nat)
    requires SeparateSlots(fields) && i < |fields|
    ensures fields[i].slot in Defaults(fields, slots) && Defaults(fields, slots)[fields[i].slot] == DefaultSlot(fields[i])
    decreases |fields|
  {
    hide DefaultSlot;
    var next := slots[fields[0].slot := DefaultSlot(fields[0])];
    if i > 0 {
      DefaultsAt(fields[1..], next, i - 1);
    } else if exists j :: 0 < j < |fields| && fields[j].slot == fields[0].slot {
      var j :| 0 < j < |fields| && fields[j].slot == fields[0].slot;
      DefaultsAt(fields[1..], next, j - 1);
      UnionDefaults(fields[0], fields[j]);
    } else {
      DefaultsKeep(fields[1..], next, fields[0].slot);
    }
  }

  lemma {:induction false} UnionDefaults(f: Field, g: Field)
    requires f.htype.OneOf? && g.htype.OneOf?
    ensures DefaultSlot(f) == DefaultSlot(g)
  {
  }

  lemma {:induction false} DefaultsKeep(fields: seq<Field>, slots: map<nat, Slot>, k: nat)
    requires k in slots && forall i :: 0 <= i < |fields| ==> fields[i].slot != k
    ensures k in Defaults(fields, slots) && Defaults(fields, slots)[k] == slots[k]
    decreases |fields|
  {
    hide DefaultSlot;
    if fields != [] {
      DefaultsKeep(fields[1..], slots[fields[0].slot := DefaultSlot(fields[0])], k);
    }
  }

  // ---- The state of the decoder after the fields before position i ----

  // Which alternative of a oneof has been seen.
  ghost predicate Chosen(fields: seq<Field>, i: nat, slot: nat, which: nat) {
    exists k :: 0 <= k < i && k < |fields| && fields[k].slot == slot && fields[k].tag == which
  }

  ghost predicate FieldState(fields: seq<Field>, i: nat, slots: map<nat, Slot>, state: map<nat, Slot>, j: nat)
    requires ValidMessage(fields, slots) && j < |fields|
  {
    var f := fields[j];
    assert ValidSlot(f, slots[f.slot]);
    && f.slot in state
    && var s, s' := slots[f.slot], state[f.slot];
       if f.htype.OneOf? then
         && s'.Union? && s'.which == (if Chosen(fields, i, f.slot, s.which) then s.which else 0)
         && (j < i && s.which == f.tag ==> ReadsValue(f.ltype, s.data, s'.data))
       else if j < i then ReadsSlot(f, s, s')
       else s' == DefaultSlot(f)
  }

  ghost predicate StateOk(fields: seq<Field>, i: nat, slots: map<nat, Slot>, state: map<nat, Slot>)
    requires ValidMessage(fields, slots)
  {
    forall j :: 0 <= j < |fields| ==> FieldState(fields, i, slots, state, j)
  }

  ghost predicate SeenOk(fields: seq<Field>, i: nat, seen: set<nat>) {
    forall j :: 0 <= j < i && j < |fields| && fields[j].htype.Required? && RequiredIndex(fields, j) < MAX_REQUIRED_FIELDS ==> RequiredIndex(fields, j) in seen
  }

  lemma {:induction false} InitialState(fields: seq<Field>, slots: map<nat, Slot>)
    requires ValidFields(fields) && ValidMessage(fields, slots)
    ensures StateOk(fields, 0, slots, Defaults(fields, map[]))
  {
    hide DefaultSlot;
    forall j | 0 <= j < |fields| ensures FieldState(fields, 0, slots, Defaults(fields, map[]), j) {
      DefaultsAt(fields, map[], j);
      if fields[j].htype.OneOf? {
        UnionDefault(fields[j]);
      }
    }
  }

  lemma {:induction false} UnionDefault(f: Field)
    requires f.htype.OneOf?
    ensures DefaultSlot(f) == Union(0, Int(0))
  {
  }

  lemma {:induction false} FinalState(fields: seq<Field>, slots: map<nat, Slot>, state: map<nat, Slot>)
    requires ValidFields(fields) && ValidMessage(fields, slots) && StateOk(fields, |fields|, slots, state)
    ensures ReadsMessage(fields, slots, state)
  {
    hide ReadsValue;
    forall j | 0 <= j < |fields|
      ensures fields[j].slot in state && ReadsSlot(fields[j], slots[fields[j].slot], state[fields[j].slot])
    {
      assert FieldState(fields, |fields|, slots, state, j) && ValidField(fields[j]);
      assert slots[fields[j].slot].Union? && slots[fields[j].slot].which == fields[j].tag ==> Chosen(fields, |fields|, fields[j].slot, fields[j].tag);
    }
  }

  // Field i is absent: nothing is read.
  lemma {:induction false} StateSkips(fields: seq<Field>, i: nat, slots: map<nat, Slot>, state: map<nat, Slot>)
    requires ValidFields(fields) && ValidMessage(fields, slots) && StateOk(fields, i, slots, state) && i < |fields|
    requires
      var f, s := fields[i], slots[fields[i].slot];
      assert ValidSlot(f, s);
      if f.htype.OneOf? then s.which != f.tag else ReadsSlot(f, s, DefaultSlot(f))
    ensures StateOk(fields, i + 1, slots, state)
  {
    hide ReadsValue, ReadsSlot, DefaultSlot;
    var n := i + 1;
    forall j | 0 <= j < |fields| ensures FieldState(fields, n, slots, state, j) {
      assert FieldState(fields, i, slots, state, j) && ValidSlot(fields[j], slots[fields[j].slot]);
      if fields[j].htype.OneOf? {
        ChosenStep(fields, i, fields[j].slot, slots);
      }
    }
  }

  // Field i is present, and its slot has been set.
  lemma {:induction false} StateSets(fields: seq<Field>, i: nat, slots: map<nat, Slot>, state: map<nat, Slot>, slot': Slot)
    requires ValidFields(fields) && ValidMessage(fields, slots) && StateOk(fields, i, slots, state) && i < |fields|
    requires
      var f, s := fields[i], slots[fields[i].slot];
      assert ValidSlot(f, s);
      if f.htype.OneOf? then s.which == f.tag && slot'.Union? && slot'.which == f.tag && ReadsValue(f.ltype, s.data, slot'.data)
      else ReadsSlot(f, s, slot')
    ensures StateOk(fields, i + 1, slots, state[fields[i].slot := slot'])
  {
    hide ReadsValue, ReadsSlot, DefaultSlot;
    var n, state' := i + 1, state[fields[i].slot := slot'];
    forall j | 0 <= j < |fields| ensures FieldState(fields, n, slots, state', j) {
      assert FieldState(fields, i, slots, state, j) && ValidSlot(fields[j], slots[fields[j].slot]);
      if fields[j].htype.OneOf? {
        ChosenStep(fields, i, fields[j].slot, slots);
        if fields[j].slot == fields[i].slot {
          SharedIsUnion(fields, i, j);
        }
      }
    }
  }

  lemma {:induction false} SharedIsUnion(fields: seq<Field>, i: nat, j: nat)
    requires ValidFields(fields) && i < |fields| && j < |fields| && fields[i].slot == fields[j].slot && fields[j].htype.OneOf?
    ensures fields[i].htype.OneOf? && (i != j ==> fields[i].tag != fields[j].tag)
  {
  }

  lemma {:induction false} ChosenStep(fields: seq<Field>, i: nat, slot: nat, slots: map<nat, Slot>)
    requires i < |fields| && slot in slots && slots[slot].Union?
    ensures Chosen(fields, i + 1, slot, slots[slot].which) <==>
            Chosen(fields, i, slot, slots[slot].which) || (fields[i].slot == slot && fields[i].tag == slots[slot].which)
  {
  }

  lemma {:induction false} SeenStep(fields: seq<Field>, i: nat, seen: set<nat>)
    requires i < |fields|
    ensures SeenOk(fields, i, seen) ==> SeenOk(fields, i + 1, Seen(fields, i, seen))
    ensures !fields[i].htype.Required? ==> Seen(fields, i, seen) == seen
  {
  }

  // ---- One field ----

  lemma {:induction false} FindsField(fields: seq<Field>, i: nat)
    requires DistinctTags(fields) && i < |fields|
    ensures FindField(fields, fields[i].tag) == i
  {
    var k := FindField(fields, fields[i].tag);
    assert k <= i;
  }

  // A tag and the contents it announces take the loop one field further.
  lemma {:induction false} OneFieldDecodes(fields: seq<Field>, i: nat, wireType: nat, body: Bytes, rest: Bytes,
      state: map<nat, Slot>, seen: set<nat>, slot: Slot)
    requires ValidFields(fields) && i < |fields| && wireType < 8 && fields[i].slot in state
    requires DecodeField(fields[i], wireType, body + rest, state[fields[i].slot]) == Ok(slot, rest)
    ensures DecodeFields(fields, TagBytes(fields[i].tag, wireType) + body + rest, state, seen) ==
            DecodeFields(fields, rest, state[fields[i].slot := slot], Seen(fields, i, seen))
  {
    hide TagBytes, ReadVarint32, DecodeField, Seen, FindField;
    assert ValidField(fields[i]);
    var tag := fields[i].tag;
    assert TagBytes(tag, wireType) + body + rest == TagBytes(tag, wireType) + (body + rest);
    TagReads(tag, wireType, body + rest);
    assert (tag * 8 + wireType) / 8 == tag && (tag * 8 + wireType) % 8 == wireType;
    FindsField(fields, i);
  }

  // What a submessage is merged into is its initial value.
  ghost predicate Fresh(t: LType, prior: Value) {
    t.Submessage? ==> SlotsIn(prior, t.fields) == Defaults(t.fields, map[])
  }

  lemma {:induction false} ZeroIsFresh(t: LType)
    ensures Fresh(t, ZeroValue(t))
  {
  }

  lemma {:induction false} InitialIsFresh(f: Field)
    ensures Fresh(f.ltype, InitialValue(f))
  {
  }

  lemma {:induction false} ValueRoundTrip(t: LType, v: Value, rest: Bytes, prior: Value) returns (w: Value)
    requires ValidLType(t) && ValidValue(t, v) && ValueInLimits(t, v) && Fresh(t, prior)
    requires |EncodeValue(t, v)| < 0x1_0000_0000
    ensures DecodeValue(t, EncodeValue(t, v) + rest, prior) == Ok(w, rest) && ReadsValue(t, v, w)
    decreases t
  {
    hide Delimited, ReadDelimited, DecodeFields, EncodeFields, ReadsMessage;
    w := v;
    if t.Submessage? {
      var b := EncodeFields(t.fields, v.slots);
      assert |b| < 0x1_0000_0000 by { DelimitedLength(b); }
      DelimitedReads(b, rest);
      var slots', seen' := FieldsRoundTrip(t.fields, v.slots);
      w := Message(slots');
    } else if Packable(t) {
      IntRoundTrip(t, v, rest, prior);
    } else {
      DataRoundTrip(t, v, rest, prior);
    }
  }

  lemma {:induction false} DelimitedLength(b: Bytes)
    ensures |b| < |Delimited(b)|
  {
  }

  lemma {:induction false} UnpackedLoop(f: Field, fields: seq<Field>, i: nat, vs: seq<Value>, acc: seq<Value>,
      state: map<nat, Slot>, seen: set<nat>, rest: Bytes) returns (ws: seq<Value>)
    requires ValidFields(fields) && i < |fields| && f == fields[i] && ValidField(f) && f.htype.Repeated? && !Packable(f.ltype)
    requires f.slot in state && state[f.slot] == Many(acc) && |acc| + |vs| <= f.htype.max
    requires forall k :: 0 <= k < |vs| ==> ValidValue(f.ltype, vs[k]) && ValueInLimits(f.ltype, vs[k])
    requires |EncodeUnpacked(f, vs)| < 0x1_0000_0000
    ensures |ws| == |vs| && forall k :: 0 <= k < |vs| ==> ReadsValue(f.ltype, vs[k], ws[k])
    ensures DecodeFields(fields, EncodeUnpacked(f, vs) + rest, state, seen) ==
            DecodeFields(fields, rest, state[f.slot := Many(acc + ws)], seen)
    decreases f, 1, |vs|
  {
    hide DecodeFields, DecodeValue, EncodeValue, TagBytes, ReadsValue, ValidValue, ValueInLimits;
    ws := [];
    if vs == [] {
      assert acc + ws == acc && [] + rest == rest && state[f.slot := Many(acc)] == state;
    } else {
      var tag, head, tail := TagBytes(f.tag, WireType(f.ltype)), EncodeValue(f.ltype, vs[0]), EncodeUnpacked(f, vs[1..]);
      assert EncodeUnpacked(f, vs) + rest == tag + head + (tail + rest);
      ZeroIsFresh(f.ltype);
      var w := ValueRoundTrip(f.ltype, vs[0], tail + rest, ZeroValue(f.ltype));
      assert WireType(f.ltype) < 8;
      assert state[f.slot].values == acc;
      OneFieldDecodes(fields, i, WireType(f.ltype), head, tail + rest, state, seen, Many(acc + [w]));
      var next := state[f.slot := Many(acc + [w])];
      var ws' := UnpackedLoop(f, fields, i, vs[1..], acc + [w], next, seen, rest);
      ws := [w] + ws';
      assert acc + [w] + ws' == acc + ws;
      assert next[f.slot := Many(acc + ws)] == state[f.slot := Many(acc + ws)];
    }
  }

  /** Field i, in whatever way it is encoded, takes the decoder from one good state to the next. */
  lemma {:induction false} FieldStep(f: Field, fields: seq<Field>, i: nat, slots: map<nat, Slot>,
      state: map<nat, Slot>, seen: set<nat>, rest: Bytes) returns (state': map<nat, Slot>, seen': set<nat>)
    requires ValidFields(fields) && i < |fields| && f == fields[i] && ValidField(f)
    requires ValidMessage(fields, slots) && f.slot in slots && ValidSlot(f, slots[f.slot]) && SlotInLimits(f, slots[f.slot])
    requires StateOk(fields, i, slots, state)
    requires |EncodeField(f, slots[f.slot])| < 0x1_0000_0000
    ensures StateOk(fields, i + 1, slots, state') && seen' == Seen(fields, i, seen)
    ensures DecodeFields(fields, EncodeField(f, slots[f.slot]) + rest, state, seen) == DecodeFields(fields, rest, state', seen')
    decreases f, 2
  {
    hide DecodeFields, DecodeValue, EncodeValue, EncodePacked, EncodeUnpacked, TagBytes, Delimited, ReadDelimited, ReadsValue, ValidValue,
      ValueInLimits, IsZero, StateOk, SeenOk, Seen, ZeroValue;
    var s := slots[f.slot];
    StateAt(fields, i, slots, state);
    SeenStep(fields, i, seen);
    assert [] + rest == rest;
    match f.htype {
      case Required =>
        state', seen' := SingleStep(f, fields, i, slots, state, seen, rest);
      case Optional =>
        if s.has {
          state', seen' := SingleStep(f, fields, i, slots, state, seen, rest);
        } else {
          StateSkips(fields, i, slots, state);
          state', seen' := state, seen;
        }
      case Implicit =>
        if IsZero(f.ltype, s.value) {
          StateSkips(fields, i, slots, state);
          state', seen' := state, seen;
        } else {
          state', seen' := SingleStep(f, fields, i, slots, state, seen, rest);
        }
      case OneOf =>
        if s.which == f.tag {
          state', seen' := OneOfStep(f, fields, i, slots, state, seen, rest);
        } else {
          StateSkips(fields, i, slots, state);
          state', seen' := state, seen;
        }
      case Repeated(max) =>
        if s.values == [] {
          StateSkips(fields, i, slots, state);
          state', seen' := state, seen;
        } else if Packable(f.ltype) {
          state', seen' := PackedStep(f, fields, i, slots, state, seen, rest);
        } else {
          var ws := UnpackedLoop(f, fields, i, s.values, [], state, seen, rest);
          assert [] + ws == ws;
          StateSets(fields, i, slots, state, Many(ws));
          state', seen' := state[f.slot := Many(ws)], seen;
        }
    }
  }

  lemma {:induction false} StateAt(fields: seq<Field>, i: nat, slots: map<nat, Slot>, state: map<nat, Slot>)
    requires ValidMessage(fields, slots) && StateOk(fields, i, slots, state) && i < |fields|
    ensures fields[i].slot in state
    ensures !fields[i].htype.OneOf? ==> state[fields[i].slot] == DefaultSlot(fields[i])
  {
    hide DefaultSlot;
    assert FieldState(fields, i, slots, state, i);
  }

  lemma {:induction false} SingleStep(f: Field, fields: seq<Field>, i: nat, slots: map<nat, Slot>,
      state: map<nat, Slot>, seen: set<nat>, rest: Bytes) returns (state': map<nat, Slot>, seen': set<nat>)
    requires ValidFields(fields) && i < |fields| && f == fields[i] && ValidField(f)
    requires ValidMessage(fields, slots) && f.slot in slots && ValidSlot(f, slots[f.slot]) && StateOk(fields, i, slots, state)
    requires (f.htype.Required? || f.htype.Optional? || f.htype.Implicit?) && ValueInLimits(f.ltype, slots[f.slot].value)
    requires f.htype.Optional? ==> slots[f.slot].has
    requires f.htype.Implicit? ==> !IsZero(f.ltype, slots[f.slot].value)
    requires |EncodeValue(f.ltype, slots[f.slot].value)| < 0x1_0000_0000
    ensures StateOk(fields, i + 1, slots, state') && seen' == Seen(fields, i, seen)
    ensures DecodeFields(fields, TagBytes(f.tag, WireType(f.ltype)) + EncodeValue(f.ltype, slots[f.slot].value) + rest, state, seen) ==
            DecodeFields(fields, rest, state', seen')
    decreases f, 1
  {
    hide DecodeFields, DecodeValue, EncodeValue, TagBytes, ReadsValue, ValidValue, ValueInLimits, IsZero, StateOk, SeenOk, Seen, InitialValue;
    StateAt(fields, i, slots, state);
    SeenStep(fields, i, seen);
    InitialIsFresh(f);
    var w := ValueRoundTrip(f.ltype, slots[f.slot].value, rest, InitialValue(f));
    var slot := One(f.htype.Optional?, w);
    assert WireType(f.ltype) < 8;
    OneFieldDecodes(fields, i, WireType(f.ltype), EncodeValue(f.ltype, slots[f.slot].value), rest, state, seen, slot);
    StateSets(fields, i, slots, state, slot);
    state', seen' := state[f.slot := slot], Seen(fields, i, seen);
  }

  lemma {:induction false} OneOfStep(f: Field, fields: seq<Field>, i: nat, slots: map<nat, Slot>,
      state: map<nat, Slot>, seen: set<nat>, rest: Bytes) returns (state': map<nat, Slot>, seen': set<nat>)
    requires ValidFields(fields) && i < |fields| && f == fields[i] && ValidField(f)
    requires ValidMessage(fields, slots) && f.slot in slots && ValidSlot(f, slots[f.slot]) && StateOk(fields, i, slots, state)
    requires f.htype.OneOf? && slots[f.slot].which == f.tag && ValueInLimits(f.ltype, slots[f.slot].data)
    requires |EncodeValue(f.ltype, slots[f.slot].data)| < 0x1_0000_0000
    ensures StateOk(fields, i + 1, slots, state') && seen' == Seen(fields, i, seen)
    ensures DecodeFields(fields, TagBytes(f.tag, WireType(f.ltype)) + EncodeValue(f.ltype, slots[f.slot].data) + rest, state, seen) ==
            DecodeFields(fields, rest, state', seen')
    decreases f, 1
  {
    hide DecodeFields, DecodeValue, EncodeValue, TagBytes, ReadsValue, ValidValue, ValueInLimits, StateOk, SeenOk, Seen, ZeroValue;
    StateAt(fields, i, slots, state);
    SeenStep(fields, i, seen);
    ZeroIsFresh(f.ltype);
    var w := ValueRoundTrip(f.ltype, slots[f.slot].data, rest, ZeroValue(f.ltype));
    var slot := Union(f.tag, w);
    assert WireType(f.ltype) < 8;
    OneFieldDecodes(fields, i, WireType(f.ltype), EncodeValue(f.ltype, slots[f.slot].data), rest, state, seen, slot);
    StateSets(fields, i, slots, state, slot);
    state', seen' := state[f.slot := slot], Seen(fields, i, seen);
  }

  lemma {:induction false} PackedStep(f: Field, fields: seq<Field>, i: nat, slots: map<nat, Slot>,
      state: map<nat, Slot>, seen: set<nat>, rest: Bytes) returns (state': map<nat, Slot>, seen': set<nat>)
    requires ValidFields(fields) && i < |fields| && f == fields[i] && ValidField(f)
    requires ValidMessage(fields, slots) && f.slot in slots && ValidSlot(f, slots[f.slot]) && StateOk(fields, i, slots, state)
    requires f.htype.Repeated? && Packable(f.ltype) && |slots[f.slot].values| <= f.htype.max
    requires |Delimited(EncodePacked(f.ltype, slots[f.slot].values))| < 0x1_0000_0000
    ensures StateOk(fields, i + 1, slots, state') && seen' == Seen(fields, i, seen)
    ensures DecodeFields(fields, TagBytes(f.tag, WT_STRING) + Delimited(EncodePacked(f.ltype, slots[f.slot].values)) + rest, state, seen) ==
            DecodeFields(fields, rest, state', seen')
    decreases f, 1
  {
    hide DecodeFields, DecodeValue, EncodePacked, DecodePacked, TagBytes, Delimited, ReadDelimited, ValidValue, StateOk, SeenOk, Seen;
    var vs := slots[f.slot].values;
    var b := EncodePacked(f.ltype, vs);
    StateAt(fields, i, slots, state);
    SeenStep(fields, i, seen);
    assert |b| < 0x1_0000_0000 by { DelimitedLength(b); }
    DelimitedReads(b, rest);
    PackedRoundTrip(f.ltype, vs, [], f.htype.max);
    assert [] + vs == vs;
    OneFieldDecodes(fields, i, WT_STRING, Delimited(b), rest, state, seen, Many(vs));
    StateSets(fields, i, slots, state, Many(vs));
    state', seen' := state[f.slot := Many(vs)], seen;
  }

  // ---- All fields ----

  lemma {:induction false} Loop(fields: seq<Field>, slots: map<nat, Slot>, i: nat, state: map<nat, Slot>, seen: set<nat>)
    returns (state': map<nat, Slot>, seen': set<nat>)
    requires ValidFields(fields) && ValidMessage(fields, slots) && MessageInLimits(fields, slots) && i <= |fields|
    requires StateOk(fields, i, slots, state) && SeenOk(fields, i, seen)
    requires ValidMessage(fields[i..], slots) && |EncodeFields(fields[i..], slots)| < 0x1_0000_0000
    ensures StateOk(fields, |fields|, slots, state') && SeenOk(fields, |fields|, seen')
    ensures DecodeFields(fields, EncodeFields(fields[i..], slots), state, seen) == Decoded(state', seen')
    decreases fields, |fields| - i
  {
    hide DecodeField, EncodeField, StateOk, SeenOk, ReadVarint32, Seen, SlotInLimits, ValidSlot;
    if i == |fields| {
      state', seen' := state, seen;
    } else {
      var f, tail := fields[i], EncodeFields(fields[i + 1..], slots);
      assert fields[i..][0] == f && fields[i..][1..] == fields[i + 1..];
      assert ValidField(f) && ValidSlot(f, slots[f.slot]) && SlotInLimits(f, slots[f.slot]);
      SeenStep(fields, i, seen);
      var state1, seen1 := FieldStep(f, fields, i, slots, state, seen, tail);
      state', seen' := Loop(fields, slots, i + 1, state1, seen1);
    }
  }

  lemma {:induction false} FieldsRoundTrip(fields: seq<Field>, slots: map<nat, Slot>) returns (slots': map<nat, Slot>, seen: set<nat>)
    requires ValidFields(fields) && ValidMessage(fields, slots) && MessageInLimits(fields, slots)
    requires |EncodeFields(fields, slots)| < 0x1_0000_0000
    ensures DecodeFields(fields, EncodeFields(fields, slots), Defaults(fields, map[]), {}) == Decoded(slots', seen)
    ensures AllSeen(fields, seen) && ReadsMessage(fields, slots, slots')
    decreases fields, |fields| + 1
  {
    hide DecodeFields, EncodeFields, StateOk, ReadsMessage, ValidFields, ValidMessage, MessageInLimits, Defaults;
    InitialState(fields, slots);
    assert fields[0..] == fields;
    slots', seen := Loop(fields, slots, 0, Defaults(fields, map[]), {});
    FinalState(fields, slots, slots');
  }

  /** Decoding what the encoder writes for a message within its limits: what is absent is absent, what
      is present is equal, and a proto3 field that was left out for being zero has its initial value. */
  lemma {:induction false} MessageRoundTrip(fields: seq<Field>, slots: map<nat, Slot>)
    requires ValidFields(fields) && ValidMessage(fields, slots) && MessageInLimits(fields, slots)
    requires |EncodeFields(fields, slots)| < 0x1_0000_0000
    ensures DecodeMessage(fields, EncodeFields(fields, slots)).Some?
    ensures ReadsMessage(fields, slots, DecodeMessage(fields, EncodeFields(fields, slots)).value)
  {
    hide DecodeFields, EncodeFields, ReadsMessage;
    var slots', seen := FieldsRoundTrip(fields, slots);
  }

  // ---- When that is the message ----

  // Equal as far as present data goes.
  ghost predicate SameValue(t: LType, v: Value, w: Value)
    requires ValidValue(t, v)
    decreases t
  {
    match t
    case Submessage(fields) =>
      assert ValidMessage(fields, v.slots);
      w.Message? && SameMessage(fields, v.slots, w.slots)
    case _ => w == v
  }

  ghost predicate SameSlot(f: Field, s: Slot, s': Slot)
    requires ValidSlot(f, s)
    decreases f, 0
  {
    match f.htype
    case Required => s'.One? && SameValue(f.ltype, s.value, s'.value)
    case Optional => s'.One? && s'.has == s.has && (s.has ==> SameValue(f.ltype, s.value, s'.value))
    case Implicit => s'.One? && SameValue(f.ltype, s.value, s'.value)
    case Repeated(_) => s'.Many? && |s'.values| == |s.values| && forall i :: 0 <= i < |s.values| ==> SameValue(f.ltype, s.values[i], s'.values[i])
    case OneOf => s'.Union? && (s'.which == f.tag <==> s.which == f.tag) && (s.which == f.tag ==> SameValue(f.ltype, s.data, s'.data))
  }

  /** The decoded message: what is absent is absent, what is present is equal. */
  ghost predicate SameMessage(fields: seq<Field>, slots: map<nat, Slot>, slots': map<nat, Slot>)
    requires ValidMessage(fields, slots)
    decreases fields
  {
    forall i :: 0 <= i < |fields| ==> fields[i].slot in slots' && SameSlot(fields[i], slots[fields[i].slot], slots'[fields[i].slot])
  }

  // Every proto3 field that is left out for being zero is also zero by default. Only a descriptor
  // with a default on such a field can fail this.
  ghost predicate KeepsValue(t: LType, v: Value)
    requires ValidValue(t, v)
    decreases t
  {
    match t
    case Submessage(fields) =>
      assert ValidMessage(fields, v.slots);
      KeepsMessage(fields, v.slots)
    case _ => true
  }

  ghost predicate KeepsSlot(f: Field, s: Slot)
    requires ValidSlot(f, s)
    decreases f, 0
  {
    match f.htype
    case Required => KeepsValue(f.ltype, s.value)
    case Optional => s.has ==> KeepsValue(f.ltype, s.value)
    case Implicit => if IsZero(f.ltype, s.value) then SameValue(f.ltype, s.value, InitialValue(f)) else KeepsValue(f.ltype, s.value)
    case Repeated(_) => forall i :: 0 <= i < |s.values| ==> KeepsValue(f.ltype, s.values[i])
    case OneOf => s.which == f.tag ==> KeepsValue(f.ltype, s.data)
  }

  ghost predicate KeepsMessage(fields: seq<Field>, slots: map<nat, Slot>)
    requires ValidMessage(fields, slots)
    decreases fields
  {
    forall i :: 0 <= i < |fields| ==> KeepsSlot(fields[i], slots[fields[i].slot])
  }

  lemma {:induction false} ReadsIsSame(t: LType, v: Value, w: Value)
    requires ValidValue(t, v) && ReadsValue(t, v, w)
    ensures SameValue(t, v, w) <==> KeepsValue(t, v)
    decreases t
  {
    if t.Submessage? {
      assert ValidMessage(t.fields, v.slots);
      MessageIsSame(t.fields, v.slots, w.slots);
    }
  }

  lemma {:induction false} SlotIsSame(f: Field, s: Slot, s': Slot)
    requires ValidSlot(f, s) && ReadsSlot(f, s, s')
    ensures SameSlot(f, s, s') <==> KeepsSlot(f, s)
    decreases f, 0
  {
    match f.htype
    case Required => ReadsIsSame(f.ltype, s.value, s'.value);
    case Optional =>
      if s.has {
        ReadsIsSame(f.ltype, s.value, s'.value);
      }
    case Implicit =>
      if !IsZero(f.ltype, s.value) {
        ReadsIsSame(f.ltype, s.value, s'.value);
      }
    case Repeated(_) =>
      forall i | 0 <= i < |s.values| ensures SameValue(f.ltype, s.values[i], s'.values[i]) <==> KeepsValue(f.ltype, s.values[i]) {
        ReadsIsSame(f.ltype, s.values[i], s'.values[i]);
      }
    case OneOf =>
      if s.which == f.tag {
        ReadsIsSame(f.ltype, s.data, s'.data);
      }
  }

  lemma {:induction false} MessageIsSame(fields: seq<Field>, slots: map<nat, Slot>, slots': map<nat, Slot>)
    requires ValidMessage(fields, slots) && ReadsMessage(fields, slots, slots')
    ensures SameMessage(fields, slots, slots') <==> KeepsMessage(fields, slots)
    decreases fields
  {
    hide ReadsSlot, SameSlot, KeepsSlot;
    forall i | 0 <= i < |fields|
      ensures SameSlot(fields[i], slots[fields[i].slot], slots'[fields[i].slot]) <==> KeepsSlot(fields[i], slots[fields[i].slot])
    {
      SlotIsSame(fields[i], slots[fields[i].slot], slots'[fields[i].slot]);
    }
  }

  /** The message itself comes back, up to the data of fields that are absent, if and only if no
      field that proto3 leaves out for being zero has another default. */
  lemma {:induction false} RoundTripIff(fields: seq<Field>, slots: map<nat, Slot>)
    requires ValidFields(fields) && ValidMessage(fields, slots) && MessageInLimits(fields, slots)
    requires |EncodeFields(fields, slots)| < 0x1_0000_0000
    ensures DecodeMessage(fields, EncodeFields(fields, slots)).Some?
    ensures SameMessage(fields, slots, DecodeMessage(fields, EncodeFields(fields, slots)).value) <==> KeepsMessage(fields, slots)
  {
    hide DecodeMessage, EncodeFields, SameMessage, ReadsMessage, KeepsMessage;
    MessageRoundTrip(fields, slots);
    MessageIsSame(fields, slots, DecodeMessage(fields, EncodeFields(fields, slots)).value);
  }

  // ---- Descriptors without such defaults ----

  // No proto3 field, at any depth, has a default other than zero; so does the generator make them.
  predicate ZeroInitials(t: LType)
    decreases t
  {
    t.Submessage? ==> forall i :: 0 <= i < |t.fields| ==> ZeroInitial(t.fields[i])
  }

  predicate ZeroInitial(f: Field)
    decreases f
  {
    && ZeroInitials(f.ltype)
    && (f.htype.Implicit? && !f.ltype.Submessage? && f.initial.Some? && ValidValue(f.ltype, f.initial.value) ==> IsZero(f.ltype, f.initial.value))
  }

  // A proto3 value that is not encoded is the initial value.
  lemma {:induction false} ZeroIsSame(t: LType, v: Value)
    requires ValidLType(t) && ValidValue(t, v) && IsZero(t, v) && ZeroInitials(t)
    ensures SameValue(t, v, ZeroValue(t))
    decreases t
  {
    match t
    case Submessage(fields) =>
      assert ValidFields(fields) && ValidMessage(fields, v.slots);
      forall i | 0 <= i < |fields|
        ensures fields[i].slot in Defaults(fields, map[]) && SameSlot(fields[i], v.slots[fields[i].slot], Defaults(fields, map[])[fields[i].slot])
      {
        DefaultsAt(fields, map[], i);
        assert ZeroInitial(fields[i]) && ValidField(fields[i]) && IsDefault(fields[i], v.slots[fields[i].slot]);
        DefaultIsSame(fields[i], v.slots[fields[i].slot]);
      }
    case FixedBytes(size) => assert v.bytes == seq(size, _ => 0);
    case _ =>
  }

  lemma {:induction false} DefaultIsSame(f: Field, s: Slot)
    requires ValidField(f) && ValidSlot(f, s) && IsDefault(f, s) && ZeroInitial(f)
    ensures SameSlot(f, s, DefaultSlot(f))
    decreases f, 1
  {
    if f.htype.Implicit? {
      InitialIsSame(f, s.value);
    }
  }

  lemma {:induction false} InitialIsSame(f: Field, v: Value)
    requires ValidField(f) && ValidValue(f.ltype, v) && IsZero(f.ltype, v) && ZeroInitial(f) && f.htype.Implicit?
    ensures SameValue(f.ltype, v, InitialValue(f))
    decreases f, 0
  {
    if f.ltype.Submessage? || f.initial.None? {
      ZeroIsSame(f.ltype, v);
    } else {
      OneZero(f.ltype, v, f.initial.value);
    }
  }

  lemma {:induction false} OneZero(t: LType, v: Value, w: Value)
    requires !t.Submessage? && ValidValue(t, v) && ValidValue(t, w) && IsZero(t, v) && IsZero(t, w)
    ensures v == w
  {
  }

  lemma {:induction false} ValueKept(t: LType, v: Value)
    requires ValidLType(t) && ValidValue(t, v) && ZeroInitials(t)
    ensures KeepsValue(t, v)
    decreases t
  {
    if t.Submessage? {
      assert ValidFields(t.fields) && ValidMessage(t.fields, v.slots);
      forall i | 0 <= i < |t.fields| ensures KeepsSlot(t.fields[i], v.slots[t.fields[i].slot]) {
        assert ZeroInitial(t.fields[i]) && ValidField(t.fields[i]);
        SlotKept(t.fields[i], v.slots[t.fields[i].slot]);
      }
    }
  }

  lemma {:induction false} SlotKept(f: Field, s: Slot)
    requires ValidField(f) && ValidSlot(f, s) && ZeroInitial(f)
    ensures KeepsSlot(f, s)
    decreases f, 0
  {
    match f.htype
    case Required => ValueKept(f.ltype, s.value);
    case Optional => ValueKept(f.ltype, s.value);
    case Implicit =>
      if IsZero(f.ltype, s.value) {
        InitialIsSame(f, s.value);
      } else {
        ValueKept(f.ltype, s.value);
      }
    case Repeated(_) =>
      forall i | 0 <= i < |s.values| ensures KeepsValue(f.ltype, s.values[i]) {
        ValueKept(f.ltype, s.values[i]);
      }
    case OneOf =>
      if s.which == f.tag {
        ValueKept(f.ltype, s.data);
      }
  }

  /** For such descriptors every message comes back. */
  lemma {:induction false} ZeroDefaultsRoundTrip(fields: seq<Field>, slots: map<nat, Slot>)
    requires ValidFields(fields) && ValidMessage(fields, slots) && MessageInLimits(fields, slots)
    requires |EncodeFields(fields, slots)| < 0x1_0000_0000 && ZeroInitials(Submessage(fields))
    ensures DecodeMessage(fields, EncodeFields(fields, slots)).Some?
    ensures SameMessage(fields, slots, DecodeMessage(fields, EncodeFields(fields, slots)).value)
  {
    hide DecodeMessage, EncodeFields, SameMessage;
    RoundTripIff(fields, slots);
    ValueKept(Submessage(fields), Message(slots));
  }
}
