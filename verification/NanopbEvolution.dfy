/** Messages between programs whose descriptors differ (pb_decode.c): a reader skips the fields it does
    not know, and gives defaults to those that the writer did not know. */
module NanopbEvolution {
  import opened Coding
  import opened Options
  import opened NanopbFormat
  import opened NanopbRoundTrip

  // ---- Skipping a field ----

  lemma {:induction false} SkipsVarint(v: nat, rest: Bytes)
    ensures NanopbFormat.SkipVarint(Varint(v) + rest) == Ok(true, rest)
  {
    var s := Varint(v) + rest;
    if v < 128 {
      assert s[1..] == rest;
    } else {
      assert s[1..] == Varint(v / 128) + rest;
      SkipsVarint(v / 128, rest);
    }
  }

  /** The wire type is enough to find the end of a value. */
  lemma {:induction false} SkipsValue(t: LType, v: Value, rest: Bytes)
    requires ValidLType(t) && ValidValue(t, v) && |EncodeValue(t, v)| < 0x1_0000_0000
    ensures SkipField(WireType(t), EncodeValue(t, v) + rest) == Ok(true, rest)
  {
    hide Varint, NanopbFormat.SkipVarint, Delimited, ReadDelimited, EncodeFields;
    match t
    case Bool => SkipsVarint(v.n, rest);
    case Varint_(_) => SkipsVarint(AsUnsigned(v.n, 8), rest);
    case UVarint(_) => SkipsVarint(v.n, rest);
    case SVarint(_) => SkipsVarint(ZigZag(v.n), rest);
    case Fixed32_ => SkipsFixed(WT_32BIT, Fixed32(v.n), rest);
    case Fixed64_ => SkipsFixed(WT_64BIT, Fixed64(v.n), rest);
    case Bytes_(_) => SkipsDelimited(v.bytes, rest);
    case String_(_) => SkipsDelimited(v.bytes, rest);
    case FixedBytes(_) => SkipsDelimited(v.bytes, rest);
    case Submessage(fields) => SkipsDelimited(EncodeFields(fields, v.slots), rest);
  }

  lemma {:induction false} SkipsFixed(wireType: nat, b: Bytes, rest: Bytes)
    requires (wireType == WT_32BIT && |b| == 4) || (wireType == WT_64BIT && |b| == 8)
    ensures SkipField(wireType, b + rest) == Ok(true, rest)
  {
    assert (b + rest)[|b|..] == rest;
  }

  lemma {:induction false} SkipsDelimited(b: Bytes, rest: Bytes)
    requires |Delimited(b)| < 0x1_0000_0000
    ensures SkipField(WT_STRING, Delimited(b) + rest) == Ok(true, rest)
  {
    hide Delimited, ReadDelimited;
    DelimitedLength(b);
    DelimitedReads(b, rest);
  }

  predicate Unknown(fields: seq<Field>, tag: nat) {
    forall i :: 0 <= i < |fields| ==> fields[i].tag != tag
  }

  // A tag that the reader does not know, and the contents it announces, are passed over.
  lemma {:induction false} UnknownTagSkipped(fields: seq<Field>, tag: nat, wireType: nat, body: Bytes, rest: Bytes, slots: map<nat, Slot>, seen: set<nat>)
    requires Unknown(fields, tag) && 0 < tag < 0x2000_0000 && wireType < 8
    requires SkipField(wireType, body + rest) == Ok(true, rest)
    ensures DecodeFields(fields, TagBytes(tag, wireType) + body + rest, slots, seen) == DecodeFields(fields, rest, slots, seen)
  {
    hide TagBytes, ReadVarint32, DecodeField, SkipField;
    assert TagBytes(tag, wireType) + body + rest == TagBytes(tag, wireType) + (body + rest);
    TagReads(tag, wireType, body + rest);
    assert (tag * 8 + wireType) / 8 == tag && (tag * 8 + wireType) % 8 == wireType;
    assert FindField(fields, tag) == |fields|;
  }

  lemma {:induction false} UnknownElementsSkipped(fields: seq<Field>, f: Field, vs: seq<Value>, rest: Bytes, slots: map<nat, Slot>, seen: set<nat>)
    requires Unknown(fields, f.tag) && 0 < f.tag < 0x2000_0000 && ValidLType(f.ltype)
    requires (forall i :: 0 <= i < |vs| ==> ValidValue(f.ltype, vs[i])) && |EncodeUnpacked(f, vs)| < 0x1_0000_0000
    ensures DecodeFields(fields, EncodeUnpacked(f, vs) + rest, slots, seen) == DecodeFields(fields, rest, slots, seen)
    decreases |vs|
  {
    hide DecodeFields, EncodeValue, TagBytes, SkipField, Unknown;
    if vs == [] {
      assert [] + rest == rest;
    } else {
      var tag, head, tail := TagBytes(f.tag, WireType(f.ltype)), EncodeValue(f.ltype, vs[0]), EncodeUnpacked(f, vs[1..]);
      assert EncodeUnpacked(f, vs) + rest == tag + head + (tail + rest);
      SkipsValue(f.ltype, vs[0], tail + rest);
      assert WireType(f.ltype) < 8;
      UnknownTagSkipped(fields, f.tag, WireType(f.ltype), head, tail + rest, slots, seen);
      UnknownElementsSkipped(fields, f, vs[1..], rest, slots, seen);
    }
  }

  /** A field that the reader does not know leaves the message as it is, in whatever way it is encoded. */
  lemma {:induction false} UnknownFieldSkipped(fields: seq<Field>, f: Field, s: Slot, rest: Bytes, slots: map<nat, Slot>, seen: set<nat>)
    requires Unknown(fields, f.tag) && ValidField(f) && ValidSlot(f, s) && |EncodeField(f, s)| < 0x1_0000_0000
    ensures DecodeFields(fields, EncodeField(f, s) + rest, slots, seen) == DecodeFields(fields, rest, slots, seen)
  {
    hide DecodeFields, EncodeValue, EncodePacked, EncodeUnpacked, TagBytes, SkipField, Unknown, ValidValue, Delimited, IsZero;
    assert [] + rest == rest;
    match f.htype
    case Required => SingleSkipped(fields, f, s.value, rest, slots, seen);
    case Optional =>
      if s.has {
        SingleSkipped(fields, f, s.value, rest, slots, seen);
      }
    case Implicit =>
      if !IsZero(f.ltype, s.value) {
        SingleSkipped(fields, f, s.value, rest, slots, seen);
      }
    case OneOf =>
      if s.which == f.tag {
        SingleSkipped(fields, f, s.data, rest, slots, seen);
      }
    case Repeated(_) =>
      if s.values != [] && Packable(f.ltype) {
        var b := EncodePacked(f.ltype, s.values);
        SkipsDelimited(b, rest);
        UnknownTagSkipped(fields, f.tag, WT_STRING, Delimited(b), rest, slots, seen);
      } else if s.values != [] {
        UnknownElementsSkipped(fields, f, s.values, rest, slots, seen);
      }
  }

  lemma {:induction false} SingleSkipped(fields: seq<Field>, f: Field, v: Value, rest: Bytes, slots: map<nat, Slot>, seen: set<nat>)
    requires Unknown(fields, f.tag) && ValidField(f) && ValidValue(f.ltype, v)
    requires |TagBytes(f.tag, WireType(f.ltype)) + EncodeValue(f.ltype, v)| < 0x1_0000_0000
    ensures DecodeFields(fields, TagBytes(f.tag, WireType(f.ltype)) + EncodeValue(f.ltype, v) + rest, slots, seen) ==
            DecodeFields(fields, rest, slots, seen)
  {
    hide DecodeFields, EncodeValue, TagBytes, SkipField, Unknown, ValidValue;
    SkipsValue(f.ltype, v, rest);
    assert WireType(f.ltype) < 8;
    UnknownTagSkipped(fields, f.tag, WireType(f.ltype), EncodeValue(f.ltype, v), rest, slots, seen);
  }

  // ---- A smaller reader ----

  // The fields whose tags are in `tags`.
  function Only(fields: seq<Field>, tags: set<nat>): seq<Field> {
    if fields == [] then [] else (if fields[0].tag in tags then [fields[0]] else []) + Only(fields[1..], tags)
  }

  lemma {:induction false} OnlyKnown(fields: seq<Field>, tags: set<nat>)
    ensures forall i :: 0 <= i < |Only(fields, tags)| ==> Only(fields, tags)[i].tag in tags && Only(fields, tags)[i] in fields
  {
    if fields != [] {
      OnlyKnown(fields[1..], tags);
    }
  }

  // The reader has the fields `small`, of which the first k have been read; `big` is what is left to come.
  lemma {:induction false} SmallerLoop(big: seq<Field>, tags: set<nat>, small: seq<Field>, k: nat, slots: map<nat, Slot>,
      state: map<nat, Slot>, seen: set<nat>) returns (state': map<nat, Slot>, seen': set<nat>)
    requires ValidFields(small) && ValidMessage(small, slots) && MessageInLimits(small, slots) && k <= |small|
    requires small[k..] == Only(big, tags) && forall i :: 0 <= i < |small| ==> small[i].tag in tags
    requires (forall i :: 0 <= i < |big| ==> ValidField(big[i])) && ValidMessage(big, slots)
    requires StateOk(small, k, slots, state) && SeenOk(small, k, seen)
    requires |EncodeFields(big, slots)| < 0x1_0000_0000
    ensures StateOk(small, |small|, slots, state') && SeenOk(small, |small|, seen')
    ensures DecodeFields(small, EncodeFields(big, slots), state, seen) == Decoded(state', seen')
    decreases |big|
  {
    hide DecodeField, EncodeField, StateOk, SeenOk, ReadVarint32, Seen, SlotInLimits, ValidSlot, ValidField, ValidFields;
    if big == [] {
      state', seen' := state, seen;
    } else {
      var f, tail := big[0], EncodeFields(big[1..], slots);
      assert ValidField(f) && ValidSlot(f, slots[f.slot]);
      if f.tag in tags {
        assert small[k] == f && small[k..][1..] == small[k + 1..];
        assert SlotInLimits(small[k], slots[small[k].slot]);
        SeenStep(small, k, seen);
        var state1, seen1 := FieldStep(f, small, k, slots, state, seen, tail);
        state', seen' := SmallerLoop(big[1..], tags, small, k + 1, slots, state1, seen1);
      } else {
        UnknownFieldSkipped(small, f, slots[f.slot], tail, state, seen);
        state', seen' := SmallerLoop(big[1..], tags, small, k, slots, state, seen);
      }
    }
  }

  function IndexOf(fields: seq<Field>, f: Field): (i: nat)
    requires f in fields
    ensures i < |fields| && fields[i] == f
  {
    if fields[0] == f then 0 else 1 + IndexOf(fields[1..], f)
  }

  lemma {:induction false} OnlyFields(fields: seq<Field>, tags: set<nat>, i: nat, j: nat) returns (x: nat, y: nat)
    requires i < j < |Only(fields, tags)|
    ensures x < y < |fields| && Only(fields, tags)[i] == fields[x] && Only(fields, tags)[j] == fields[y]
    decreases |fields|
  {
    if fields[0].tag !in tags {
      x, y := OnlyFields(fields[1..], tags, i, j);
      x, y := x + 1, y + 1;
    } else if i > 0 {
      x, y := OnlyFields(fields[1..], tags, i - 1, j - 1);
      x, y := x + 1, y + 1;
    } else {
      OnlyKnown(fields[1..], tags);
      x, y := 0, 1 + IndexOf(fields[1..], Only(fields[1..], tags)[j - 1]);
    }
  }

  // A descriptor without some of its fields is a descriptor, and its message one of its messages.
  lemma {:induction false} OnlyValid(fields: seq<Field>, tags: set<nat>)
    requires ValidFields(fields)
    ensures ValidFields(Only(fields, tags))
  {
    hide Only, ValidField;
    var r := Only(fields, tags);
    OnlyKnown(fields, tags);
    forall i, j | 0 <= i < j < |r|
      ensures r[i].tag != r[j].tag && (r[i].slot == r[j].slot ==> r[i].htype.OneOf? && r[j].htype.OneOf?)
    {
      var x, y := OnlyFields(fields, tags, i, j);
    }
    forall i | 0 <= i < |r| ensures ValidField(r[i]) {
      assert r[i] in fields;
      var x := IndexOf(fields, r[i]);
    }
  }

  lemma {:induction false} OnlyMessage(fields: seq<Field>, tags: set<nat>, slots: map<nat, Slot>)
    requires ValidMessage(fields, slots)
    ensures ValidMessage(Only(fields, tags), slots)
  {
    hide Only, ValidSlot;
    var r := Only(fields, tags);
    OnlyKnown(fields, tags);
    forall i | 0 <= i < |r| ensures r[i].slot in slots && ValidSlot(r[i], slots[r[i].slot]) {
      assert r[i] in fields;
      var x := IndexOf(fields, r[i]);
    }
  }

  // The fields that are read are in their limits.
  predicate KnownInLimits(fields: seq<Field>, tags: set<nat>, slots: map<nat, Slot>)
    requires ValidMessage(fields, slots)
  {
    forall i :: 0 <= i < |fields| && fields[i].tag in tags ==> SlotInLimits(fields[i], slots[fields[i].slot])
  }

  lemma {:induction false} OnlyInLimits(fields: seq<Field>, tags: set<nat>, slots: map<nat, Slot>)
    requires ValidMessage(fields, slots) && KnownInLimits(fields, tags, slots) && ValidMessage(Only(fields, tags), slots)
    ensures MessageInLimits(Only(fields, tags), slots)
  {
    hide Only, ValidSlot, SlotInLimits, ValidMessage;
    var r := Only(fields, tags);
    OnlyKnown(fields, tags);
    forall i | 0 <= i < |r| ensures r[i].slot in slots && ValidSlot(r[i], slots[r[i].slot]) && SlotInLimits(r[i], slots[r[i].slot]) {
      assert r[i] in fields;
      var x := IndexOf(fields, r[i]);
      SlotIsValid(fields, slots, x);
    }
  }

  lemma {:induction false} SlotIsValid(fields: seq<Field>, slots: map<nat, Slot>, i: nat)
    requires ValidMessage(fields, slots) && i < |fields|
    ensures fields[i].slot in slots && ValidSlot(fields[i], slots[fields[i].slot])
  {
  }

  /** What a larger descriptor writes, a smaller one reads: its own fields come back as if only they
      had been written. */
  lemma {:induction false} SmallerReaderReads(big: seq<Field>, tags: set<nat>, slots: map<nat, Slot>)
    requires ValidFields(big) && ValidMessage(big, slots) && KnownInLimits(big, tags, slots) && |EncodeFields(big, slots)| < 0x1_0000_0000
    ensures ValidMessage(Only(big, tags), slots) && DecodeMessage(Only(big, tags), EncodeFields(big, slots)).Some?
    ensures ReadsMessage(Only(big, tags), slots, DecodeMessage(Only(big, tags), EncodeFields(big, slots)).value)
  {
    hide DecodeFields, EncodeFields, StateOk, ReadsMessage, ValidMessage, MessageInLimits, Defaults, Only, KnownInLimits;
    var small := Only(big, tags);
    OnlyKnown(big, tags);
    OnlyValid(big, tags);
    OnlyMessage(big, tags, slots);
    OnlyInLimits(big, tags, slots);
    InitialState(small, slots);
    assert small[0..] == small;
    var state, seen := SmallerLoop(big, tags, small, 0, slots, Defaults(small, map[]), {});
    FinalState(small, slots, state);
  }

  // ---- A larger reader ----

  lemma {:induction false} ZeroIsValid(t: LType)
    requires ValidLType(t)
    ensures ValidValue(t, ZeroValue(t)) && ReadsValue(t, ZeroValue(t), ZeroValue(t))
    decreases t
  {
    if t.Submessage? {
      var slots := Defaults(t.fields, map[]);
      assert ValidFields(t.fields);
      forall i | 0 <= i < |t.fields|
        ensures t.fields[i].slot in slots && ValidSlot(t.fields[i], slots[t.fields[i].slot])
        ensures ReadsSlot(t.fields[i], slots[t.fields[i].slot], slots[t.fields[i].slot])
      {
        DefaultsAt(t.fields, map[], i);
        assert ValidField(t.fields[i]);
        DefaultIsValid(t.fields[i]);
      }
      assert ValidMessage(t.fields, slots) && ReadsMessage(t.fields, slots, slots);
    }
  }

  // The default of a field is a value of the field, and what reading nothing gives.
  lemma {:induction false} DefaultIsValid(f: Field)
    requires ValidField(f)
    ensures ValidSlot(f, DefaultSlot(f)) && ReadsSlot(f, DefaultSlot(f), DefaultSlot(f))
    decreases f, 0
  {
    ZeroIsValid(f.ltype);
    if f.initial.Some? {
      assert InitialValue(f) == f.initial.value;
    } else {
      assert InitialValue(f) == ZeroValue(f.ltype);
    }
  }

  // What stands for the writer's message among the fields of the reader: fields that the writer does not
  // know have their defaults, and no alternative is chosen that the writer does not know.
  ghost predicate Stands(f: Field, known: bool, slots: map<nat, Slot>, full: map<nat, Slot>) {
    && f.slot in full
    && if f.htype.OneOf? then
         && full[f.slot].Union? && (full[f.slot].which == f.tag <==> known && f.slot in slots && slots[f.slot].Union? && slots[f.slot].which == f.tag)
         && (full[f.slot].which == f.tag ==> full[f.slot] == slots[f.slot])
       else if known then f.slot in slots && full[f.slot] == slots[f.slot]
       else full[f.slot] == DefaultSlot(f)
  }

  ghost predicate StandsFor(fields: seq<Field>, tags: set<nat>, slots: map<nat, Slot>, full: map<nat, Slot>) {
    forall i :: 0 <= i < |fields| ==> Stands(fields[i], fields[i].tag in tags, slots, full)
  }

  // The alternative in the slot is one that the writer knows.
  predicate KnownChoice(fields: seq<Field>, tags: set<nat>, slot: nat, which: nat) {
    which in tags && exists i :: 0 <= i < |fields| && fields[i].slot == slot && fields[i].tag == which
  }

  function FullSlot(f: Field, fields: seq<Field>, tags: set<nat>, slots: map<nat, Slot>): Slot {
    if f.htype.OneOf? then
      if f.slot in slots && slots[f.slot].Union? && KnownChoice(fields, tags, f.slot, slots[f.slot].which) then slots[f.slot] else Union(0, Int(0))
    else if f.tag in tags && f.slot in slots then slots[f.slot]
    else DefaultSlot(f)
  }

  function Full(fields: seq<Field>, all: seq<Field>, tags: set<nat>, slots: map<nat, Slot>): map<nat, Slot> {
    if fields == [] then map[] else Full(fields[1..], all, tags, slots)[fields[0].slot := FullSlot(fields[0], all, tags, slots)]
  }

  lemma {:induction false} FullAt(fields: seq<Field>, all: seq<Field>, tags: set<nat>, slots: map<nat, Slot>, i: nat)
    requires SeparateSlots(fields) && i < |fields|
    ensures fields[i].slot in Full(fields, all, tags, slots)
    ensures Full(fields, all, tags, slots)[fields[i].slot] == FullSlot(fields[i], all, tags, slots)
    decreases |fields|
  {
    hide FullSlot;
    if i > 0 {
      FullAt(fields[1..], all, tags, slots, i - 1);
      if fields[i].slot == fields[0].slot {
        SameUnion(fields[0], fields[i], all, tags, slots);
      }
    }
  }

  lemma {:induction false} SameUnion(f: Field, g: Field, all: seq<Field>, tags: set<nat>, slots: map<nat, Slot>)
    requires f.htype.OneOf? && g.htype.OneOf? && f.slot == g.slot
    ensures FullSlot(f, all, tags, slots) == FullSlot(g, all, tags, slots)
  {
  }

  lemma {:induction false} FullStands(fields: seq<Field>, tags: set<nat>, slots: map<nat, Slot>)
    requires ValidFields(fields) && ValidMessage(Only(fields, tags), slots)
    ensures StandsFor(fields, tags, slots, Full(fields, fields, tags, slots))
  {
    hide Only, ValidSlot, Full, ValidMessage;
    var full := Full(fields, fields, tags, slots);
    forall i | 0 <= i < |fields| ensures Stands(fields[i], fields[i].tag in tags, slots, full) {
      FullAt(fields, fields, tags, slots, i);
      if fields[i].tag in tags {
        OnlyHas(fields, tags, slots, i);
      }
      assert ValidField(fields[i]);
      ChoiceIs(fields, tags, i);
    }
  }

  lemma {:induction false} ChoiceIs(fields: seq<Field>, tags: set<nat>, i: nat)
    requires i < |fields| && 0 < fields[i].tag
    ensures KnownChoice(fields, tags, fields[i].slot, fields[i].tag) <==> fields[i].tag in tags
  {
  }

  // A field of the writer is in its message.
  lemma {:induction false} OnlyHas(fields: seq<Field>, tags: set<nat>, slots: map<nat, Slot>, i: nat)
    requires i < |fields| && fields[i].tag in tags && ValidMessage(Only(fields, tags), slots)
    ensures fields[i] in Only(fields, tags) && fields[i].slot in slots && ValidSlot(fields[i], slots[fields[i].slot])
  {
    hide ValidSlot;
    OnlyIn(fields, tags, i);
    var r := Only(fields, tags);
    var k :| 0 <= k < |r| && r[k] == fields[i];
    SlotIsValid(r, slots, k);
  }

  lemma {:induction false} OnlyIn(fields: seq<Field>, tags: set<nat>, i: nat)
    requires i < |fields| && fields[i].tag in tags
    ensures fields[i] in Only(fields, tags)
  {
    if i > 0 {
      OnlyIn(fields[1..], tags, i - 1);
    }
  }

  lemma {:induction false} StandsValid(fields: seq<Field>, tags: set<nat>, slots: map<nat, Slot>, full: map<nat, Slot>)
    requires ValidFields(fields) && ValidMessage(Only(fields, tags), slots) && StandsFor(fields, tags, slots, full)
    ensures ValidMessage(fields, full)
  {
    hide Only, ValidMessage, DefaultSlot;
    forall i | 0 <= i < |fields| ensures fields[i].slot in full && ValidSlot(fields[i], full[fields[i].slot]) {
      assert Stands(fields[i], fields[i].tag in tags, slots, full) && ValidField(fields[i]);
      if fields[i].tag in tags {
        OnlyHas(fields, tags, slots, i);
      }
      DefaultIsValid(fields[i]);
    }
    ValidFrom(fields, full);
  }

  lemma {:induction false} ValidFrom(fields: seq<Field>, slots: map<nat, Slot>)
    requires forall i :: 0 <= i < |fields| ==> fields[i].slot in slots && ValidSlot(fields[i], slots[fields[i].slot])
    ensures ValidMessage(fields, slots)
  {
  }

  // Exactly the required fields that the writer knows have been seen, of the first i.
  ghost predicate SeenExactly(fields: seq<Field>, tags: set<nat>, i: nat, seen: set<nat>) {
    && (forall j :: 0 <= j < |fields| && fields[j].htype.Required? && RequiredIndex(fields, j) < MAX_REQUIRED_FIELDS ==>
          (RequiredIndex(fields, j) in seen <==> j < i && fields[j].tag in tags))
  }

  lemma {:induction false} IndexGrows(fields: seq<Field>, j: nat, k: nat)
    requires j < k <= |fields|
    ensures RequiredIndex(fields, j) + (if fields[j].htype.Required? then 1 else 0) <= RequiredIndex(fields, k)
    decreases k
  {
    if j < k - 1 {
      IndexGrows(fields, j, k - 1);
    }
  }

  lemma {:induction false} SeenExactlyStep(fields: seq<Field>, tags: set<nat>, i: nat, seen: set<nat>)
    requires i < |fields| && SeenExactly(fields, tags, i, seen)
    ensures SeenExactly(fields, tags, i + 1, if fields[i].tag in tags then Seen(fields, i, seen) else seen)
  {
    forall j | 0 <= j < |fields| && j != i ensures fields[i].htype.Required? && fields[j].htype.Required? ==> RequiredIndex(fields, i) != RequiredIndex(fields, j) {
      if i < j {
        IndexGrows(fields, i, j);
      } else {
        IndexGrows(fields, j, i);
      }
    }
  }

  lemma {:induction false} LargerLoop(fields: seq<Field>, tags: set<nat>, slots: map<nat, Slot>, full: map<nat, Slot>, i: nat,
      state: map<nat, Slot>, seen: set<nat>) returns (state': map<nat, Slot>, seen': set<nat>)
    requires ValidFields(fields) && i <= |fields| && ValidMessage(fields, full) && StandsFor(fields, tags, slots, full)
    requires ValidMessage(Only(fields, tags), slots) && ValidMessage(Only(fields[i..], tags), slots) && KnownInLimits(fields, tags, full)
    requires StateOk(fields, i, full, state) && SeenExactly(fields, tags, i, seen)
    requires |EncodeFields(Only(fields[i..], tags), slots)| < 0x1_0000_0000
    ensures StateOk(fields, |fields|, full, state') && SeenExactly(fields, tags, |fields|, seen')
    ensures DecodeFields(fields, EncodeFields(Only(fields[i..], tags), slots), state, seen) == Decoded(state', seen')
    decreases |fields| - i
  {
    hide DecodeField, EncodeField, StateOk, SeenExactly, ReadVarint32, Seen, SlotInLimits, ValidSlot, ValidField, ValidFields, DefaultSlot, Stands, ReadsSlot;
    if i == |fields| {
      state', seen' := state, seen;
    } else {
      var f := fields[i];
      assert fields[i..][0] == f && fields[i..][1..] == fields[i + 1..];
      var now, later := Only(fields[i..], tags), Only(fields[i + 1..], tags);
      SeenExactlyStep(fields, tags, i, seen);
      FieldIsValid(fields, full, i);
      if f.tag in tags {
        assert now[0] == f && now[1..] == later;
        TailValid(now, slots);
        var tail := EncodeFields(later, slots);
        SameEncoding(f, slots, full);
        var state1, seen1 := FieldStep(f, fields, i, full, state, seen, tail);
        state', seen' := LargerLoop(fields, tags, slots, full, i + 1, state1, seen1);
      } else {
        assert now == later;
        NotWritten(f, slots, full);
        StateSkips(fields, i, full, state);
        state', seen' := LargerLoop(fields, tags, slots, full, i + 1, state, seen);
      }
    }
  }

  lemma {:induction false} FieldIsValid(fields: seq<Field>, full: map<nat, Slot>, i: nat)
    requires ValidFields(fields) && ValidMessage(fields, full) && i < |fields|
    ensures ValidField(fields[i]) && fields[i].slot in full && ValidSlot(fields[i], full[fields[i].slot])
  {
  }

  lemma {:induction false} SameEncoding(f: Field, slots: map<nat, Slot>, full: map<nat, Slot>)
    requires Stands(f, true, slots, full) && f.slot in slots && ValidSlot(f, slots[f.slot]) && ValidSlot(f, full[f.slot])
    ensures EncodeField(f, slots[f.slot]) == EncodeField(f, full[f.slot])
  {
  }

  lemma {:induction false} NotWritten(f: Field, slots: map<nat, Slot>, full: map<nat, Slot>)
    requires Stands(f, false, slots, full) && ValidField(f) && ValidSlot(f, full[f.slot])
    ensures if f.htype.OneOf? then full[f.slot].which != f.tag else ReadsSlot(f, full[f.slot], DefaultSlot(f))
  {
    DefaultIsValid(f);
  }

  // ---- What a larger reader makes of it ----

  lemma {:induction false} InLimitsStands(fields: seq<Field>, tags: set<nat>, slots: map<nat, Slot>, full: map<nat, Slot>)
    requires ValidMessage(Only(fields, tags), slots) && MessageInLimits(Only(fields, tags), slots)
    requires ValidMessage(fields, full) && StandsFor(fields, tags, slots, full)
    ensures KnownInLimits(fields, tags, full)
  {
    hide Only, ValidSlot, ValidMessage, ValueInLimits, MessageInLimits;
    forall i | 0 <= i < |fields| && fields[i].tag in tags
      ensures fields[i].slot in full && ValidSlot(fields[i], full[fields[i].slot]) && SlotInLimits(fields[i], full[fields[i].slot])
    {
      SlotIsValid(fields, full, i);
      OnlyHas(fields, tags, slots, i);
      LimitOf(Only(fields, tags), slots, fields[i]);
      assert Stands(fields[i], true, slots, full);
    }
  }

  lemma {:induction false} LimitOf(fields: seq<Field>, slots: map<nat, Slot>, f: Field)
    requires ValidMessage(fields, slots) && MessageInLimits(fields, slots) && f in fields
    ensures f.slot in slots && ValidSlot(f, slots[f.slot]) && SlotInLimits(f, slots[f.slot])
  {
  }

  // No required field that the reader tracks is missing from the writer's descriptor.
  ghost predicate NoneMissing(fields: seq<Field>, tags: set<nat>) {
    forall i :: 0 <= i < |fields| && fields[i].htype.Required? && RequiredIndex(fields, i) < MAX_REQUIRED_FIELDS ==> fields[i].tag in tags
  }

  lemma {:induction false} SeenIffNoneMissing(fields: seq<Field>, tags: set<nat>, seen: set<nat>)
    requires SeenExactly(fields, tags, |fields|, seen)
    ensures AllSeen(fields, seen) <==> NoneMissing(fields, tags)
  {
  }

  // One field of the message read: what was written, or the default where the writer does not know the field.
  ghost predicate ReadsKnown(f: Field, known: bool, slots: map<nat, Slot>, slots': map<nat, Slot>)
    requires ValidField(f) && (known ==> f.slot in slots && ValidSlot(f, slots[f.slot]))
  {
    && f.slot in slots'
    && if known then ReadsSlot(f, slots[f.slot], slots'[f.slot])
       else if f.htype.OneOf? then slots'[f.slot].Union? && slots'[f.slot].which != f.tag
       else ReadsDefault(f, slots'[f.slot])
  }

  ghost predicate ReadsDefault(f: Field, s: Slot)
    requires ValidField(f)
  {
    ValidSlot(f, DefaultSlot(f)) && ReadsSlot(f, DefaultSlot(f), s)
  }

  lemma {:induction false} OneRead(f: Field, known: bool, slots: map<nat, Slot>, full: map<nat, Slot>, state: map<nat, Slot>)
    requires ValidField(f) && (known ==> f.slot in slots && ValidSlot(f, slots[f.slot]))
    requires Stands(f, known, slots, full) && ValidSlot(f, full[f.slot]) && f.slot in state && ReadsSlot(f, full[f.slot], state[f.slot])
    ensures ReadsKnown(f, known, slots, state)
  {
    hide ReadsValue, ValidValue, IsZero, InitialValue;
  }

  lemma {:induction false} ReadAt(fields: seq<Field>, full: map<nat, Slot>, state: map<nat, Slot>, i: nat)
    requires ValidMessage(fields, full) && ReadsMessage(fields, full, state) && i < |fields|
    ensures fields[i].slot in state && ValidSlot(fields[i], full[fields[i].slot]) && ReadsSlot(fields[i], full[fields[i].slot], state[fields[i].slot])
  {
  }

  /** What a smaller descriptor writes, a larger one reads if and only if no required field that it
      tracks is missing; then the fields of the writer come back, and the others have their defaults. */
  lemma {:induction false} LargerReaderReads(fields: seq<Field>, tags: set<nat>, slots: map<nat, Slot>)
    requires ValidFields(fields) && ValidMessage(Only(fields, tags), slots) && MessageInLimits(Only(fields, tags), slots)
    requires |EncodeFields(Only(fields, tags), slots)| < 0x1_0000_0000
    ensures DecodeMessage(fields, EncodeFields(Only(fields, tags), slots)).Some? <==> NoneMissing(fields, tags)
    ensures
      var r := DecodeMessage(fields, EncodeFields(Only(fields, tags), slots));
      r.Some? ==> forall i :: 0 <= i < |fields| ==>
        && ValidField(fields[i]) && (fields[i].tag in tags ==> fields[i].slot in slots && ValidSlot(fields[i], slots[fields[i].slot]))
        && ReadsKnown(fields[i], fields[i].tag in tags, slots, r.value)
  {
    hide DecodeFields, EncodeFields, StateOk, ReadsMessage, ValidMessage, MessageInLimits, Defaults, Only, KnownInLimits, ValidFields, Full, ReadsKnown,
      Stands, ValidSlot, ValidField, ReadsSlot, AllSeen, NoneMissing, SeenExactly;
    var full := Full(fields, fields, tags, slots);
    FullStands(fields, tags, slots);
    StandsValid(fields, tags, slots, full);
    InLimitsStands(fields, tags, slots, full);
    InitialState(fields, full);
    NothingSeen(fields, tags);
    assert fields[0..] == fields;
    var state, seen := LargerLoop(fields, tags, slots, full, 0, Defaults(fields, map[]), {});
    FinalState(fields, full, state);
    SeenIffNoneMissing(fields, tags, seen);
    forall i | 0 <= i < |fields|
      ensures ValidField(fields[i]) && (fields[i].tag in tags ==> fields[i].slot in slots && ValidSlot(fields[i], slots[fields[i].slot]))
      ensures ReadsKnown(fields[i], fields[i].tag in tags, slots, state)
    {
      FieldIsValid(fields, full, i);
      if fields[i].tag in tags {
        OnlyHas(fields, tags, slots, i);
      }
      ReadAt(fields, full, state, i);
      OneRead(fields[i], fields[i].tag in tags, slots, full, state);
    }
  }

  lemma {:induction false} NothingSeen(fields: seq<Field>, tags: set<nat>)
    ensures SeenExactly(fields, tags, 0, {})
  {
  }
}
