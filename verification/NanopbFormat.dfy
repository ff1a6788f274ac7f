/** Protocol Buffers messages as nanopb encodes them (pb.h, pb_encode.c, pb_decode.c): descriptors, values,
    the wire format as functions of bytes.

    Static fields only. A message maps slots to their contents; the alternatives of a oneof share a slot,
    as they share memory in the generated struct. */
module NanopbFormat {
  import opened Coding
  import opened Options

  // PB_LTYPE, with data_size where it matters. Bytes holds at most `max` bytes, String at most max - 1.
  datatype LType =
    | Bool
    | Varint_(size: nat)
    | UVarint(size: nat)
    | SVarint(size: nat)
    | Fixed32_
    | Fixed64_
    | Bytes_(max: nat)
    | String_(max: nat)
    | FixedBytes(size: nat)
    | Submessage(fields: seq<Field>)

  // PB_HTYPE; Implicit is an optional field without a has_ member (proto3).
  datatype HType = Required | Optional | Implicit | Repeated(max: nat) | OneOf

  // initial: what `ptr` points to, if it is the default value of the field.
  datatype Field = Field(tag: nat, slot: nat, htype: HType, ltype: LType, initial: Option<Value>)

  datatype Value = Int(n: int) | Data(bytes: Bytes) | Message(slots: map<nat, Slot>)

  // One: has_ and the data; Many: the counted elements; Union: which_ and the data.
  datatype Slot = One(has: bool, value: Value) | Many(values: seq<Value>) | Union(which: nat, data: Value)

  // ---- Widths ----

  predicate IsSize(size: nat) {
    size == 1 || size == 2 || size == 4 || size == 8
  }

  // 2 to the power 8 * size
  function Range(size: nat): (r: int)
    ensures r > 1
  {
    if size == 1 then 0x100
    else if size == 2 then 0x1_0000
    else if size == 4 then 0x1_0000_0000
    else 0x1_0000_0000_0000_0000
  }

  predicate FitsSigned(n: int, size: nat) {
    -(Range(size) / 2) <= n < Range(size) / 2
  }

  // (int64_t), (int32_t): reduce and read as two's complement.
  function AsSigned(n: int, size: nat): int {
    var m := n % Range(size);
    if m < Range(size) / 2 then m else m - Range(size)
  }

  function AsUnsigned(n: int, size: nat): nat {
    n % Range(size)
  }

  // pb_encode_svarint and pb_decode_svarint
  function ZigZag(n: int): int {
    if n < 0 then -2 * n - 1 else 2 * n
  }

  function UnZigZag(u: nat): int {
    if u % 2 == 0 then u / 2 else -(u / 2) - 1
  }

  // ---- Types of values ----

  // What the struct can hold, except that a count or a bytes size may exceed the space; that is for
  // the encoder to find. Strings are terminated.

  predicate ValidLType(t: LType)
    decreases t
  {
    match t
    case Bool => true
    case Varint_(size) => IsSize(size)
    case UVarint(size) => IsSize(size)
    case SVarint(size) => IsSize(size)
    case Fixed32_ => true
    case Fixed64_ => true
    case Bytes_(max) => max < 0x1_0000
    case String_(max) => 0 < max < 0x1_0000_0000
    case FixedBytes(size) => size < 0x1_0000
    case Submessage(fields) => ValidFields(fields)
  }

  predicate DistinctTags(fields: seq<Field>) {
    forall i, j :: 0 <= i < j < |fields| ==> fields[i].tag != fields[j].tag
  }

  // Only the alternatives of a oneof share a slot.
  predicate SeparateSlots(fields: seq<Field>) {
    forall i, j :: 0 <= i < j < |fields| && fields[i].slot == fields[j].slot ==> fields[i].htype.OneOf? && fields[j].htype.OneOf?
  }

  predicate ValidFields(fields: seq<Field>)
    decreases fields
  {
    && DistinctTags(fields) && SeparateSlots(fields)
    && forall i :: 0 <= i < |fields| ==> ValidField(fields[i])
  }

  predicate ValidField(f: Field)
    decreases f
  {
    && 0 < f.tag < 0x2000_0000 && ValidLType(f.ltype)
    && (f.initial.Some? ==> !f.ltype.Submessage? && ValidValue(f.ltype, f.initial.value))
  }

  predicate ValidValue(t: LType, v: Value)
    decreases t
  {
    match t
    case Bool => v == Int(0) || v == Int(1)
    case Varint_(size) => v.Int? && FitsSigned(v.n, size)
    case UVarint(size) => v.Int? && 0 <= v.n < Range(size)
    case SVarint(size) => v.Int? && FitsSigned(v.n, size)
    case Fixed32_ => v.Int? && 0 <= v.n < Range(4)
    case Fixed64_ => v.Int? && 0 <= v.n < Range(8)
    case Bytes_(_) => v.Data?
    case String_(max) => v.Data? && |v.bytes| < max && 0 !in v.bytes
    case FixedBytes(size) => v.Data? && |v.bytes| == size
    case Submessage(fields) => v.Message? && ValidMessage(fields, v.slots)
  }

  predicate ValidSlot(f: Field, s: Slot)
    decreases f, 0
  {
    match f.htype
    case Required => s.One? && ValidValue(f.ltype, s.value)
    case Optional => s.One? && ValidValue(f.ltype, s.value)
    case Implicit => s.One? && ValidValue(f.ltype, s.value)
    case Repeated(_) => s.Many? && forall i :: 0 <= i < |s.values| ==> ValidValue(f.ltype, s.values[i])
    case OneOf => s.Union? && (s.which == f.tag ==> ValidValue(f.ltype, s.data))
  }

  predicate ValidMessage(fields: seq<Field>, slots: map<nat, Slot>)
    decreases fields
  {
    forall i :: 0 <= i < |fields| ==> fields[i].slot in slots && ValidSlot(fields[i], slots[fields[i].slot])
  }

  // ---- Limits ----

  // The encoder accepts the value: "bytes size exceeded" and "array max size exceeded" do not occur in it.
  predicate ValueInLimits(t: LType, v: Value)
    requires ValidValue(t, v)
    decreases t
  {
    match t
    case Bytes_(max) => |v.bytes| <= max
    case Submessage(fields) =>
      assert ValidMessage(fields, v.slots);
      MessageInLimits(fields, v.slots)
    case _ => true
  }

  predicate SlotInLimits(f: Field, s: Slot)
    requires ValidSlot(f, s)
    decreases f, 0
  {
    match f.htype
    case Required => ValueInLimits(f.ltype, s.value)
    case Optional => s.has ==> ValueInLimits(f.ltype, s.value)
    case Implicit => IsZero(f.ltype, s.value) || ValueInLimits(f.ltype, s.value)
    case Repeated(max) => |s.values| <= max && forall i :: 0 <= i < |s.values| ==> ValueInLimits(f.ltype, s.values[i])
    case OneOf => s.which == f.tag ==> ValueInLimits(f.ltype, s.data)
  }

  predicate MessageInLimits(fields: seq<Field>, slots: map<nat, Slot>)
    requires ValidMessage(fields, slots)
    decreases fields
  {
    forall i :: 0 <= i < |fields| ==> SlotInLimits(fields[i], slots[fields[i].slot])
  }

  // ---- Encoding ----

  const WT_VARINT: nat := 0
  const WT_64BIT: nat := 1
  const WT_STRING: nat := 2
  const WT_32BIT: nat := 5

  predicate Packable(t: LType) {
    t.Bool? || t.Varint_? || t.UVarint? || t.SVarint? || t.Fixed32_? || t.Fixed64_?
  }

  function WireType(t: LType): nat {
    match t
    case Bool => WT_VARINT
    case Varint_(_) => WT_VARINT
    case UVarint(_) => WT_VARINT
    case SVarint(_) => WT_VARINT
    case Fixed32_ => WT_32BIT
    case Fixed64_ => WT_64BIT
    case Bytes_(_) => WT_STRING
    case String_(_) => WT_STRING
    case FixedBytes(_) => WT_STRING
    case Submessage(_) => WT_STRING
  }

  function TagBytes(tag: nat, wireType: nat): Bytes {
    Varint(tag * 8 + wireType)
  }

  function Delimited(s: Bytes): (r: Bytes)
    ensures |r| > 0
  {
    Varint(|s|) + s
  }

  // pb_check_proto3_default_value for the data of a field that is not in a slot of its own kind.
  predicate IsZero(t: LType, v: Value)
    requires ValidValue(t, v)
    decreases t
  {
    match t
    case Bytes_(_) => v.bytes == []
    case String_(_) => v.bytes == []
    case FixedBytes(size) => size == 0
    case Submessage(fields) =>
      assert ValidMessage(fields, v.slots);
      forall i :: 0 <= i < |fields| ==> IsDefault(fields[i], v.slots[fields[i].slot])
    case _ => v == Int(0)
  }

  // pb_check_proto3_default_value
  predicate IsDefault(f: Field, s: Slot)
    requires ValidSlot(f, s)
    decreases f, 0
  {
    match f.htype
    case Required => false
    case Optional => !s.has
    case Implicit => IsZero(f.ltype, s.value)
    case Repeated(_) => s.values == []
    case OneOf => s.which == 0
  }

  // What the encoder of the type writes for a valid value.
  function EncodeValue(t: LType, v: Value): (r: Bytes)
    requires ValidValue(t, v)
    decreases t, 0
  {
    match t
    case Bool => Varint(v.n)
    case Varint_(_) => Varint(AsUnsigned(v.n, 8))
    case UVarint(_) => Varint(v.n)
    case SVarint(_) => Varint(ZigZag(v.n))
    case Fixed32_ => Fixed32(v.n)
    case Fixed64_ => Fixed64(v.n)
    case Bytes_(_) => Delimited(v.bytes)
    case String_(_) => Delimited(v.bytes)
    case FixedBytes(_) => Delimited(v.bytes)
    case Submessage(fields) => Delimited(EncodeFields(fields, v.slots))
  }

  function EncodePacked(t: LType, vs: seq<Value>): Bytes
    requires forall i :: 0 <= i < |vs| ==> ValidValue(t, vs[i])
    decreases t, 1, |vs|
  {
    if vs == [] then [] else EncodeValue(t, vs[0]) + EncodePacked(t, vs[1..])
  }

  function EncodeUnpacked(f: Field, vs: seq<Value>): Bytes
    requires forall i :: 0 <= i < |vs| ==> ValidValue(f.ltype, vs[i])
    decreases f, 1, |vs|
  {
    if vs == [] then []
    else TagBytes(f.tag, WireType(f.ltype)) + (EncodeValue(f.ltype, vs[0]) + EncodeUnpacked(f, vs[1..]))
  }

  // encode_basic_field
  function EncodeField(f: Field, s: Slot): Bytes
    requires ValidSlot(f, s)
    decreases f, 2, 0
  {
    match f.htype
    case Required => TagBytes(f.tag, WireType(f.ltype)) + EncodeValue(f.ltype, s.value)
    case Optional => if s.has then TagBytes(f.tag, WireType(f.ltype)) + EncodeValue(f.ltype, s.value) else []
    case Implicit => if IsZero(f.ltype, s.value) then [] else TagBytes(f.tag, WireType(f.ltype)) + EncodeValue(f.ltype, s.value)
    case Repeated(_) =>
      if s.values == [] then []
      else if Packable(f.ltype) then TagBytes(f.tag, WT_STRING) + Delimited(EncodePacked(f.ltype, s.values))
      else EncodeUnpacked(f, s.values)
    case OneOf => if s.which == f.tag then TagBytes(f.tag, WireType(f.ltype)) + EncodeValue(f.ltype, s.data) else []
  }

  // pb_encode
  function EncodeFields(fields: seq<Field>, slots: map<nat, Slot>): Bytes
    requires ValidMessage(fields, slots)
    decreases fields, 3, 0
  {
    if fields == [] then [] else
      TailValid(fields, slots);
      EncodeField(fields[0], slots[fields[0].slot]) + EncodeFields(fields[1..], slots)
  }

  lemma {:induction false} TailValid(fields: seq<Field>, slots: map<nat, Slot>)
    requires ValidMessage(fields, slots) && fields != []
    ensures ValidMessage(fields[1..], slots)
  {
  }

  // ---- Decoding ----

  datatype Read<T> = Fail | Ok(value: T, rest: Bytes)

  // pb_decode_varint: at most ten bytes, the low 64 bits of what they denote.
  function ReadVarint(s: Bytes): (r: Read<nat>)
    ensures r.Ok? ==> |r.rest| < |s| && r.value < 0x1_0000_0000_0000_0000
  {
    match ParseVarint(s, 10)
    case Malformed => Fail
    case Parsed(v, n) => Ok(v % 0x1_0000_0000_0000_0000, s[n..])
  }

  // pb_decode_varint32
  function ReadVarint32(s: Bytes): (r: Read<nat>)
    ensures r.Ok? ==> |r.rest| < |s|
  {
    if s == [] then Fail
    else if s[0] < 128 then Ok(s[0], s[1..])
    else MoreVarint32(s[1..], s[0] - 128, 7)
  }

  // 2 to the power n
  function TwoTo(n: nat): (w: nat)
    ensures w > 0
  {
    if n == 0 then 1 else 2 * TwoTo(n - 1)
  }

  // Bitwise or.
  function Or(a: nat, b: nat): nat {
    if a == 0 then b else if b == 0 then a else 2 * Or(a / 2, b / 2) + if a % 2 == 1 || b % 2 == 1 then 1 else 0
  }

  // The bytes from bit position `bitpos` on, which is kept in eight bits; the ones before it gave `result`.
  // At 32 and above only the sign extension of a negative number may follow. Of the byte at 28, the bits
  // past 32 are looked at if it is the last one, and dropped if it is not.
  function MoreVarint32(s: Bytes, result: nat, bitpos: nat): (r: Read<nat>)
    ensures r.Ok? ==> |r.rest| < |s|
  {
    if s == [] then Fail
    else
      var byte: int := s[0];
      if bitpos >= 32 && byte % 128 != 0 && (result < 0x8000_0000 || byte != SignExtension(bitpos)) then Fail
      else
        var sum := if bitpos >= 32 then result else Or(result, byte % 128 * TwoTo(bitpos) % 0x1_0000_0000);
        var next := (bitpos + 7) % 256;
        if byte >= 128 then MoreVarint32(s[1..], sum, next)
        else if next == 35 && byte >= 16 then Fail
        else Ok(sum, s[1..])
  }

  function SignExtension(bitpos: nat): int {
    if bitpos < 63 then 0xFF else 0x01
  }

  // pb_read
  function ReadBytes(s: Bytes, n: nat): (r: Read<Bytes>)
    ensures r.Ok? ==> |r.value| == n && |r.rest| + n == |s|
  {
    if n > |s| then Fail else Ok(s[..n], s[n..])
  }

  // pb_make_string_substream
  function ReadDelimited(s: Bytes): (r: Read<Bytes>)
    ensures r.Ok? ==> |r.value| + |r.rest| < |s|
  {
    match ReadVarint32(s)
    case Fail => Fail
    case Ok(n, rest) => ReadBytes(rest, n)
  }

  // ---- Initial values ----

  function ZeroValue(t: LType): Value
    decreases t
  {
    match t
    case Bytes_(_) => Data([])
    case String_(_) => Data([])
    case FixedBytes(size) => Data(seq(size, _ => 0))
    case Submessage(fields) => Message(Defaults(fields, map[]))
    case _ => Int(0)
  }

  // The default value of the field, or zeros; a submessage gets the defaults of its own fields.
  function InitialValue(f: Field): Value
    decreases f, 0
  {
    if !f.ltype.Submessage? && f.initial.Some? then f.initial.value else ZeroValue(f.ltype)
  }

  // pb_field_set_to_default
  function DefaultSlot(f: Field): Slot
    decreases f, 1
  {
    match f.htype
    case Required => One(false, InitialValue(f))
    case Optional => One(false, InitialValue(f))
    case Implicit => One(false, InitialValue(f))
    case Repeated(_) => Many([])
    case OneOf => Union(0, Int(0))
  }

  // pb_message_set_to_defaults: every field's slot in turn.
  function Defaults(fields: seq<Field>, slots: map<nat, Slot>): map<nat, Slot>
    decreases fields
  {
    if fields == [] then slots else Defaults(fields[1..], slots[fields[0].slot := DefaultSlot(fields[0])])
  }

  // What is in memory before a field is decoded. The struct's types make the last cases impossible.
  function ValueIn(s: Slot, t: LType): Value {
    if s.One? then s.value else ZeroValue(t)
  }

  function ValuesIn(s: Slot): seq<Value> {
    if s.Many? then s.values else []
  }

  function SlotsIn(v: Value, fields: seq<Field>): map<nat, Slot> {
    if v.Message? then v.slots else Defaults(fields, map[])
  }

  // ---- Decoding ----

  datatype Decoded = Failed | Decoded(slots: map<nat, Slot>, seen: set<nat>)

  const MAX_REQUIRED_FIELDS: nat := 64

  function FindField(fields: seq<Field>, tag: nat): (i: nat)
    ensures i <= |fields| && (i < |fields| ==> fields[i].tag == tag)
    ensures forall j :: 0 <= j < i ==> fields[j].tag != tag
  {
    if fields == [] || fields[0].tag == tag then 0 else 1 + FindField(fields[1..], tag)
  }

  // required_field_index at position i: the number of required fields before it.
  function RequiredIndex(fields: seq<Field>, i: nat): nat
    requires i <= |fields|
  {
    if i == 0 then 0 else RequiredIndex(fields, i - 1) + if fields[i - 1].htype.Required? then 1 else 0
  }

  // All required fields that are tracked have been seen.
  predicate AllSeen(fields: seq<Field>, seen: set<nat>) {
    forall i :: 0 <= i < |fields| && fields[i].htype.Required? && RequiredIndex(fields, i) < MAX_REQUIRED_FIELDS ==> RequiredIndex(fields, i) in seen
  }

  function SkipVarint(s: Bytes): (r: Read<bool>)
    ensures r.Ok? ==> |r.rest| < |s|
  {
    if s == [] then Fail else if s[0] < 128 then Ok(true, s[1..]) else SkipVarint(s[1..])
  }

  // pb_skip_field
  function SkipField(wireType: nat, s: Bytes): (r: Read<bool>)
    ensures r.Ok? ==> |r.rest| <= |s|
  {
    if wireType == WT_VARINT then SkipVarint(s)
    else if wireType == WT_STRING then
      match ReadDelimited(s)
      case Fail => Fail
      case Ok(_, rest) => Ok(true, rest)
    else if wireType == WT_64BIT then
      match ReadBytes(s, 8)
      case Fail => Fail
      case Ok(_, rest) => Ok(true, rest)
    else if wireType == WT_32BIT then
      match ReadBytes(s, 4)
      case Fail => Fail
      case Ok(_, rest) => Ok(true, rest)
    else Fail
  }

  // The decoders of the types; `prior` is what a submessage is merged into.
  function DecodeValue(t: LType, s: Bytes, prior: Value): (r: Read<Value>)
    ensures r.Ok? ==> |r.rest| <= |s| && (Packable(t) ==> |r.rest| < |s|)
    decreases |s|, 1
  {
    match t
    case Bool =>
      (match ReadVarint32(s)
       case Fail => Fail
       case Ok(n, rest) => Ok(Int(if n != 0 then 1 else 0), rest))
    case Varint_(size) =>
      (match ReadVarint(s)
       case Fail => Fail
       case Ok(n, rest) =>
         var signed := AsSigned(n, if size == 8 then 8 else 4);
         if IsSize(size) && FitsSigned(signed, size) then Ok(Int(signed), rest) else Fail)
    case UVarint(size) =>
      (match ReadVarint(s)
       case Fail => Fail
       case Ok(n, rest) => if IsSize(size) && n < Range(size) then Ok(Int(n), rest) else Fail)
    case SVarint(size) =>
      (match ReadVarint(s)
       case Fail => Fail
       case Ok(n, rest) => if IsSize(size) && FitsSigned(UnZigZag(n), size) then Ok(Int(UnZigZag(n)), rest) else Fail)
    case Fixed32_ => if |s| < 4 then Fail else Ok(Int(DecodeFixed32(s)), s[4..])
    case Fixed64_ => if |s| < 8 then Fail else Ok(Int(DecodeFixed64(s)), s[8..])
    case Bytes_(max) =>
      (match ReadDelimited(s)
       case Fail => Fail
       case Ok(b, rest) => if |b| <= max then Ok(Data(b), rest) else Fail)
    case String_(max) =>
      (match ReadDelimited(s)
       case Fail => Fail
       case Ok(b, rest) => if |b| < max then Ok(Data(b), rest) else Fail)
    case FixedBytes(size) =>
      (match ReadDelimited(s)
       case Fail => Fail
       case Ok(b, rest) =>
         if b == [] then Ok(Data(seq(size, _ => 0)), rest)
         else if |b| == size then Ok(Data(b), rest) else Fail)
    case Submessage(fields) =>
      (match ReadDelimited(s)
       case Fail => Fail
       case Ok(b, rest) =>
         match DecodeFields(fields, b, SlotsIn(prior, fields), {})
         case Failed => Fail
         case Decoded(slots, seen) => if AllSeen(fields, seen) then Ok(Message(slots), rest) else Fail)
  }

  // The loop over a packed array; every byte has to be used.
  function DecodePacked(t: LType, s: Bytes, vs: seq<Value>, max: nat): Option<seq<Value>>
    requires Packable(t)
    decreases |s|, 2
  {
    if s == [] then Some(vs)
    else if |vs| >= max then None
    else
      match DecodeValue(t, s, Int(0))
      case Fail => None
      case Ok(v, rest) => DecodePacked(t, rest, vs + [v], max)
  }

  // decode_static_field
  function DecodeField(f: Field, wireType: nat, s: Bytes, slot: Slot): (r: Read<Slot>)
    ensures r.Ok? ==> |r.rest| <= |s|
    decreases |s|, 3
  {
    match f.htype
    case Repeated(max) =>
      if wireType == WT_STRING && Packable(f.ltype) then
        match ReadDelimited(s)
        case Fail => Fail
        case Ok(b, rest) =>
          (match DecodePacked(f.ltype, b, ValuesIn(slot), max)
           case None => Fail
           case Some(vs) => Ok(Many(vs), rest))
      else if |ValuesIn(slot)| >= max then Fail
      else
        (match DecodeValue(f.ltype, s, ZeroValue(f.ltype))
         case Fail => Fail
         case Ok(v, rest) => Ok(Many(ValuesIn(slot) + [v]), rest))
    case OneOf =>
      (match DecodeValue(f.ltype, s, ZeroValue(f.ltype))
       case Fail => Fail
       case Ok(v, rest) => Ok(Union(f.tag, v), rest))
    case _ =>
      (match DecodeValue(f.ltype, s, ValueIn(slot, f.ltype))
       case Fail => Fail
       case Ok(v, rest) => Ok(One(f.htype.Optional? || (slot.One? && slot.has), v), rest))
  }

  // The loop of pb_decode_noinit; a zero tag ends the message early.
  function DecodeFields(fields: seq<Field>, s: Bytes, slots: map<nat, Slot>, seen: set<nat>): Decoded
    decreases |s|, 0
  {
    if s == [] then Decoded(slots, seen)
    else
      match ReadVarint32(s)
      case Fail => Failed
      case Ok(n, rest) =>
        if n == 0 then Decoded(slots, seen)
        else if n < 8 && fields == [] then
          // The terminator of the field list has tag 0, and type bool.
          match ReadVarint32(rest)
          case Fail => Failed
          case Ok(_, rest') => DecodeFields(fields, rest', slots, seen)
        else
          var i := FindField(fields, n / 8);
          if i == |fields| then
            match SkipField(n % 8, rest)
            case Fail => Failed
            case Ok(_, rest') => DecodeFields(fields, rest', slots, seen)
          else
            var f := fields[i];
            match DecodeField(f, n % 8, rest, if f.slot in slots then slots[f.slot] else DefaultSlot(f))
            case Fail => Failed
            case Ok(slot, rest') => DecodeFields(fields, rest', slots[f.slot := slot], Seen(fields, i, seen))
  }

  function Seen(fields: seq<Field>, i: nat, seen: set<nat>): set<nat>
    requires i < |fields|
  {
    if fields[i].htype.Required? && RequiredIndex(fields, i) < MAX_REQUIRED_FIELDS then seen + {RequiredIndex(fields, i)} else seen
  }

  /** pb_decode: defaults first, then the loop, then the check for required fields. */
  function DecodeMessage(fields: seq<Field>, s: Bytes): Option<map<nat, Slot>> {
    match DecodeFields(fields, s, Defaults(fields, map[]), {})
    case Failed => None
    case Decoded(slots, seen) => if AllSeen(fields, seen) then Some(slots) else None
  }
}
