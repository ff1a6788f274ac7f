/** Internal keys as bytes (db/dbformat.h, db/dbformat.cc). */
module InternalKeyCodec {
  import opened Coding
  import opened Options
  import opened Keys
  import opened BytewiseComparator

  // AppendInternalKey: the user key, then sequence number and type in eight bytes.
  function EncodeKey(k: ByteKey): (r: Bytes)
    requires k.sequence <= MAX_SEQUENCE
    ensures |r| == |k.user| + 8
  {
    k.user + Fixed64(Tag(Abs(k)))
  }

  function ExtractUserKey(b: Bytes): Bytes
    requires |b| >= 8
  {
    b[..|b| - 8]
  }

  // The fields of an internal key; any type byte but 1 reads as a deletion.
  function DecodeKey(b: Bytes): ByteKey
    requires |b| >= 8
  {
    var tag: int := DecodeFixed64(b[|b| - 8..]);
    ByteKey(ExtractUserKey(b), tag / 256, if tag % 256 == 1 then Value else Deletion)
  }

  // ParseInternalKey: None if the bytes are too few, or the type byte is not one of the two types.
  function ParseInternalKey(b: Bytes): Option<ByteKey> {
    if |b| < 8 then None
    else
      var tag: int := DecodeFixed64(b[|b| - 8..]);
      if tag % 256 <= 1 then Some(DecodeKey(b)) else None
  }

  lemma {:induction false} KeyRoundTrip(k: ByteKey)
    requires k.sequence <= MAX_SEQUENCE
    ensures DecodeKey(EncodeKey(k)) == k && ParseInternalKey(EncodeKey(k)) == Some(k)
  {
    hide Fixed64, DecodeFixed64;
    var b := EncodeKey(k);
    assert b[|b| - 8..] == Fixed64(Tag(Abs(k))) + [];
    Fixed64RoundTrip(Tag(Abs(k)), []);
    assert ExtractUserKey(b) == k.user;
  }

  /** Exactly the encodings parse, each to the key it encodes. */
  lemma {:induction false} ParsesOnlyKeys(b: Bytes)
    requires ParseInternalKey(b).Some?
    ensures var k := ParseInternalKey(b).value; k.sequence <= MAX_SEQUENCE && EncodeKey(k) == b
  {
    hide Fixed64, DecodeFixed64;
    var k, last := ParseInternalKey(b).value, b[|b| - 8..];
    Fixed64Back(last);
    assert Tag(Abs(k)) == DecodeFixed64(last);
    assert b == b[..|b| - 8] + last;
  }

  // InternalKeyComparator::Compare(a, b) < 0 on encoded keys.
  predicate KeyLess(a: Bytes, b: Bytes) {
    |a| >= 8 && |b| >= 8 && Before(Abs(DecodeKey(a)), Abs(DecodeKey(b)))
  }

  lemma {:induction false} KeyLessIsOrder(a: ByteKey, b: ByteKey)
    requires a.sequence <= MAX_SEQUENCE && b.sequence <= MAX_SEQUENCE
    ensures KeyLess(EncodeKey(a), EncodeKey(b)) <==> Before(Abs(a), Abs(b))
  {
    KeyRoundTrip(a);
    KeyRoundTrip(b);
  }
}
