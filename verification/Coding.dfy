/** Byte strings and the fixed and variable length integers (util/coding.h, util/coding.cc). */
module Coding {
  type Byte = x: int | 0 <= x < 256
  type Bytes = seq<Byte>
  type U32 = x: int | 0 <= x < 0x1_0000_0000
  type U64 = x: int | 0 <= x < 0x1_0000_0000_0000_0000

  datatype Parsed = Malformed | Parsed(value: nat, size: nat)

  // EncodeFixed32: little endian.
  function Fixed32(v: U32): (r: Bytes)
    ensures |r| == 4
  {
    [v % 256, v / 256 % 256, v / 65536 % 256, v / 16777216]
  }

  function DecodeFixed32(s: Bytes): U32
    requires |s| >= 4
  {
    var b0: int, b1: int, b2: int, b3: int := s[0], s[1], s[2], s[3];
    b0 + 256 * b1 + 65536 * b2 + 16777216 * b3
  }

  lemma {:induction false} Fixed32RoundTrip(v: U32, rest: Bytes)
    ensures DecodeFixed32(Fixed32(v) + rest) == v
  {
    var s := Fixed32(v) + rest;
    assert s[0] == v % 256 && s[1] == v / 256 % 256 && s[2] == v / 65536 % 256 && s[3] == v / 16777216;
    assert v / 256 == v / 256 % 256 + 256 * (v / 65536);
    assert v / 65536 == v / 65536 % 256 + 256 * (v / 16777216);
  }

  // EncodeFixed64
  function Fixed64(v: U64): (r: Bytes)
    ensures |r| == 8
  {
    Fixed32(v % 0x1_0000_0000) + Fixed32(v / 0x1_0000_0000)
  }

  function DecodeFixed64(s: Bytes): U64
    requires |s| >= 8
  {
    var low: int, high: int := DecodeFixed32(s), DecodeFixed32(s[4..]);
    low + 0x1_0000_0000 * high
  }

  lemma {:induction false} Fixed64RoundTrip(v: U64, rest: Bytes)
    ensures DecodeFixed64(Fixed64(v) + rest) == v
  {
    var low, high := v % 0x1_0000_0000, v / 0x1_0000_0000;
    hide Fixed32, DecodeFixed32;
    var s := Fixed64(v) + rest;
    assert s == Fixed32(low) + (Fixed32(high) + rest);
    assert s[4..] == Fixed32(high) + rest;
    Fixed32RoundTrip(low, Fixed32(high) + rest);
    Fixed32RoundTrip(high, rest);
  }

  lemma {:induction false} Fixed32Back(s: Bytes)
    requires |s| == 4
    ensures Fixed32(DecodeFixed32(s)) == s
  {
    var a: int, b: int, c: int, d: int := s[0], s[1], s[2], s[3];
    FourBytes(a, b, c, d);
  }

  lemma {:induction false} LowByte(a: int, rest: int)
    requires 0 <= a < 256 && rest >= 0
    ensures (a + 256 * rest) % 256 == a && (a + 256 * rest) / 256 == rest
  {
  }

  lemma {:induction false} DivideTwice(v: int)
    requires v >= 0
    ensures v / 65536 == v / 256 / 256 && v / 16777216 == v / 65536 / 256
  {
  }

  lemma {:induction false} FourBytes(a: int, b: int, c: int, d: int)
    requires 0 <= a < 256 && 0 <= b < 256 && 0 <= c < 256 && 0 <= d < 256
    ensures
      var v := a + 256 * b + 65536 * c + 16777216 * d;
      v % 256 == a && v / 256 % 256 == b && v / 65536 % 256 == c && v / 16777216 == d
  {
    var x := c + 256 * d;
    var w := b + 256 * x;
    var v := a + 256 * w;
    assert v == a + 256 * b + 65536 * c + 16777216 * d;
    LowByte(a, w);
    LowByte(b, x);
    LowByte(c, d);
    DivideTwice(v);
  }

  // Eight bytes are what their number is written as.
  lemma {:induction false} Fixed64Back(s: Bytes)
    requires |s| == 8
    ensures Fixed64(DecodeFixed64(s)) == s
  {
    hide Fixed32, DecodeFixed32;
    assert DecodeFixed32(s) == DecodeFixed32(s[..4]) && DecodeFixed32(s[4..]) == DecodeFixed32(s[4..][..4]) by { FirstFour(s); FirstFour(s[4..]); }
    Fixed32Back(s[..4]);
    Fixed32Back(s[4..]);
    assert s == s[..4] + s[4..];
  }

  lemma {:induction false} FirstFour(s: Bytes)
    requires |s| >= 4
    ensures DecodeFixed32(s) == DecodeFixed32(s[..4])
  {
  }

  // An array of 32-bit words.
  function EncodeWords(words: seq<nat>): (r: Bytes)
    requires forall i :: 0 <= i < |words| ==> words[i] < 0x1_0000_0000
    ensures |r| == 4 * |words|
  {
    if words == [] then [] else EncodeWords(words[..|words| - 1]) + Fixed32(words[|words| - 1])
  }

  lemma {:induction false} WordAt(words: seq<nat>, i: nat)
    requires i < |words| && forall i :: 0 <= i < |words| ==> words[i] < 0x1_0000_0000
    ensures EncodeWords(words)[4 * i..4 * i + 4] == Fixed32(words[i])
  {
    var init := words[..|words| - 1];
    if i < |init| {
      WordAt(init, i);
      assert EncodeWords(words)[4 * i..4 * i + 4] == EncodeWords(init)[4 * i..4 * i + 4];
    }
  }

  lemma {:induction false} Middle(a: Bytes, b: Bytes, c: Bytes, x: nat, y: nat)
    requires x <= y <= |b|
    ensures (a + (b + c))[|a| + x..|a| + y] == b[x..y]
  {
  }

  lemma {:induction false} WordReads(a: Bytes, words: seq<nat>, tail: Bytes, r: nat)
    requires r < |words| && forall i :: 0 <= i < |words| ==> words[i] < 0x1_0000_0000
    ensures
      var data := a + (EncodeWords(words) + tail);
      |a| + 4 * r + 4 <= |data| && DecodeFixed32(data[|a| + 4 * r..|a| + 4 * r + 4]) == words[r]
  {
    hide EncodeWords, Fixed32, DecodeFixed32;
    WordAt(words, r);
    Middle(a, EncodeWords(words), tail, 4 * r, 4 * r + 4);
    assert Fixed32(words[r]) + [] == Fixed32(words[r]);
    Fixed32RoundTrip(words[r], []);
  }

  /** The loop of PutFixed32 over an array; each word keeps its low 32 bits. */
  method PutWords(dst: Bytes, words: seq<nat>) returns (r: Bytes)
    ensures (forall i :: 0 <= i < |words| ==> words[i] < 0x1_0000_0000) ==> r == dst + EncodeWords(words)
  {
    hide Fixed32;
    r := dst;
    for i := 0 to |words|
      invariant (forall i :: 0 <= i < |words| ==> words[i] < 0x1_0000_0000) ==> r == dst + EncodeWords(words[..i])
    {
      assert words[..i + 1][..i] == words[..i];
      r := r + Fixed32(words[i] % 0x1_0000_0000);
    }
    assert words[..|words|] == words;
  }

  // 128 to the power k: the weight of byte k of a varint.
  function Weight(k: nat): (w: nat)
    ensures w > 0
  {
    if k == 0 then 1 else 128 * Weight(k - 1)
  }

  // Seven bits to a byte, least significant first; all but the last byte have the top bit set.
  function Varint(v: nat): (r: Bytes)
    ensures |r| > 0
  {
    if v < 128 then [v] else [v % 128 + 128] + Varint(v / 128)
  }

  /** What a run of at most `most` bytes denotes, before any truncation to a machine word. */
  function ParseVarint(s: Bytes, most: nat): (p: Parsed)
    ensures p.Parsed? ==> 0 < p.size <= |s| && p.size <= most
  {
    if most == 0 || s == [] then Malformed
    else if s[0] < 128 then Parsed(s[0], 1)
    else
      match ParseVarint(s[1..], most - 1)
      case Malformed => Malformed
      case Parsed(v, n) => Parsed(s[0] - 128 + 128 * v, n + 1)
  }

  // GetVarint32 and GetVarint64 keep the low 32 and 64 bits.
  function ParseVarint32(s: Bytes): Parsed {
    match ParseVarint(s, 5)
    case Malformed => Malformed
    case Parsed(v, n) => Parsed(v % 0x1_0000_0000, n)
  }

  function ParseVarint64(s: Bytes): Parsed {
    match ParseVarint(s, 10)
    case Malformed => Malformed
    case Parsed(v, n) => Parsed(v % 0x1_0000_0000_0000_0000, n)
  }

  lemma {:induction false} VarintSize(v: nat, k: nat)
    requires k > 0
    ensures |Varint(v)| <= k <==> v < Weight(k)
  {
    if k == 1 {
      assert Weight(1) == 128 * Weight(0);
    } else if v >= 128 {
      VarintSize(v / 128, k - 1);
      assert v / 128 < Weight(k - 1) <==> v < 128 * Weight(k - 1);
    } else {
      assert 128 * Weight(k - 1) >= 128;
    }
  }

  lemma {:induction false} VarintRoundTrip(v: nat, rest: Bytes, most: nat)
    requires |Varint(v)| <= most
    ensures ParseVarint(Varint(v) + rest, most) == Parsed(v, |Varint(v)|)
  {
    var s := Varint(v) + rest;
    if v >= 128 {
      VarintRoundTrip(v / 128, rest, most - 1);
      assert s[1..] == Varint(v / 128) + rest;
    }
  }

  lemma {:induction false} Varint32RoundTrip(v: U32, rest: Bytes)
    ensures ParseVarint32(Varint(v) + rest) == Parsed(v, |Varint(v)|)
  {
    assert Weight(5) == 0x8_0000_0000 by { WeightsOf(); }
    VarintSize(v, 5);
    VarintRoundTrip(v, rest, 5);
  }

  lemma {:induction false} Varint64RoundTrip(v: U64, rest: Bytes)
    ensures ParseVarint64(Varint(v) + rest) == Parsed(v, |Varint(v)|)
  {
    WeightsOf();
    VarintSize(v, 10);
    VarintRoundTrip(v, rest, 10);
  }

  lemma {:induction false} WeightsOf()
    ensures Weight(5) == 0x8_0000_0000
    ensures Weight(10) == 0x40_0000_0000_0000_0000
  {
    assert Weight(3) == 0x20_0000;
    assert Weight(5) == 128 * Weight(4);
    assert Weight(7) == 128 * (128 * Weight(5));
    assert Weight(9) == 128 * (128 * Weight(7));
  }

  /** EncodeVarint64; PutVarint32 writes the same bytes for a 32-bit value. */
  method PutVarint(value: nat) returns (dst: Bytes)
    ensures dst == Varint(value)
  {
    dst := [];
    var v := value;
    while v >= 128
      invariant dst + Varint(v) == Varint(value)
    {
      ghost var before := dst;
      dst := dst + [v % 128 + 128];
      assert dst + Varint(v / 128) == before + Varint(v);
      v := v / 128;
    }
    dst := dst + [v];
  }

  // The bytes before position k contributed `result`; `p` is what the bytes from there on denote.
  function Resume(p: Parsed, result: nat, k: nat): Parsed {
    match p
    case Malformed => Malformed
    case Parsed(v, n) => Parsed(result + Weight(k) * v, n + k)
  }

  lemma {:induction false} ResumeStep(input: Bytes, most: nat, k: nat, result: nat)
    requires k < |input| && k < most && input[k] >= 128
    ensures Resume(ParseVarint(input[k..], most - k), result, k)
         == Resume(ParseVarint(input[k + 1..], most - k - 1), result + Weight(k) * (input[k] - 128), k + 1)
  {
    var byte: int, rest := input[k], input[k..];
    assert rest[1..] == input[k + 1..];
    match ParseVarint(input[k + 1..], most - k - 1)
    case Malformed =>
    case Parsed(v, n) =>
      Distribute(Weight(k), byte - 128, v);
  }

  lemma {:induction false} ResumeEnd(input: Bytes, most: nat, k: nat, result: nat)
    requires k <= |input| && k <= most
    ensures k == |input| || k == most ==> Resume(ParseVarint(input[k..], most - k), result, k) == Malformed
    ensures k < |input| && k < most && input[k] < 128 ==>
      Resume(ParseVarint(input[k..], most - k), result, k) == Parsed(result + Weight(k) * input[k], k + 1)
  {
    hide Weight;
    assert k < |input| ==> input[k..][0] == input[k];
  }

  lemma {:induction false} Distribute(w: int, a: int, v: int)
    ensures w * (a + 128 * v) == w * a + 128 * w * v
  {
    assert w * (a + 128 * v) == w * a + w * (128 * v);
  }

  /** GetVarint32PtrFallback and GetVarint64Ptr: the loop over the bytes of the number. */
  method GetVarint(input: Bytes, most: nat) returns (p: Parsed)
    ensures p == ParseVarint(input, most)
  {
    var result: nat, k: nat, weight: nat := 0, 0, 1;
    assert input[0..] == input && Weight(0) == 1;
    assert ParseVarint(input, most) == Resume(ParseVarint(input[0..], most), 0, 0);
    hide ParseVarint, Resume;
    while k < most && k < |input|
      invariant k <= most && k <= |input| && weight == Weight(k)
      invariant ParseVarint(input, most) == Resume(ParseVarint(input[k..], most - k), result, k)
    {
      var byte: int := input[k];
      if byte >= 128 {
        ResumeStep(input, most, k, result);
        result := result + weight * (byte - 128);
      } else {
        ResumeEnd(input, most, k, result);
        return Parsed(result + weight * byte, k + 1);
      }
      k, weight := k + 1, 128 * weight;
    }
    ResumeEnd(input, most, k, result);
    return Malformed;
  }

  // PutLengthPrefixedSlice and GetLengthPrefixedSlice
  function LengthPrefixed(s: Bytes): Bytes {
    Varint(|s|) + s
  }

  datatype Sliced = NoSlice | Sliced(value: Bytes, size: nat)

  function ParseLengthPrefixed(s: Bytes): (r: Sliced)
    ensures r.Sliced? ==> 0 < r.size <= |s|
  {
    match ParseVarint32(s)
    case Malformed => NoSlice
    case Parsed(len, n) => if n + len > |s| then NoSlice else Sliced(s[n..n + len], n + len)
  }

  lemma {:induction false} LengthPrefixedRoundTrip(s: Bytes, rest: Bytes)
    requires |s| < 0x1_0000_0000
    ensures ParseLengthPrefixed(LengthPrefixed(s) + rest) == Sliced(s, |LengthPrefixed(s)|)
  {
    assert LengthPrefixed(s) + rest == Varint(|s|) + (s + rest);
    Varint32RoundTrip(|s|, s + rest);
  }

  /** The bytes themselves: the low byte first, whatever the width. */
  lemma {:induction false} LowByteFirst()
    ensures Fixed32(0x04030201) == [1, 2, 3, 4] && Fixed64(0x0807_0605_0403_0201) == [1, 2, 3, 4, 5, 6, 7, 8]
  {
  }

  lemma {:induction false} LowGroupFirst()
    ensures Varint(150) == [0x96, 0x01] && Varint(270) == [0x8e, 0x02] && Varint(86942) == [0x9e, 0xa7, 0x05]
  {
    assert Varint(679) == [0xa7, 0x05];
  }

  // ---- What is left when the end is cut off ----

  lemma {:induction false} CutVarint(v: nat, k: nat, most: nat)
    requires k < |Varint(v)|
    ensures ParseVarint(Varint(v)[..k], most) == Malformed
  {
    if k > 0 && most > 0 {
      var s := Varint(v)[..k];
      assert s[1..] == Varint(v / 128)[..k - 1];
      CutVarint(v / 128, k - 1, most - 1);
    }
  }

  // The first k bytes of a + b are in a, or are a and some of b.
  lemma {:induction false} CutOf(a: Bytes, b: Bytes, k: nat)
    requires k <= |a + b|
    ensures (a + b)[..k] == if k <= |a| then a[..k] else a + b[..k - |a|]
  {
  }

  lemma {:induction false} CutHead(a: Bytes, b: Bytes, k: nat)
    requires |a| <= k <= |a + b|
    ensures (a + b)[..k] == a + b[..k - |a|]
  {
  }

  lemma {:induction false} CutPrefixed(b: Bytes, k: nat)
    requires |b| < 0x1_0000_0000 && k < |LengthPrefixed(b)|
    ensures ParseLengthPrefixed(LengthPrefixed(b)[..k]) == NoSlice
  {
    hide ParseVarint, Varint;
    var size := Varint(|b|);
    CutOf(size, b, k);
    if k < |size| {
      CutVarint(|b|, k, 5);
    } else {
      assert k == |size| ==> size[..k] == size + b[..0];
      Varint32RoundTrip(|b|, b[..k - |size|]);
    }
  }
}
