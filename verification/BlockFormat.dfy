/** The block format (table/block_builder.cc, table/block.cc, doc/table_format.md) as functions of bytes. */
module BlockFormat {
  import opened Coding

  datatype Pair = Pair(key: Bytes, value: Bytes)

  const LIMIT: nat := 0x1_0000_0000

  function CommonPrefix(a: Bytes, b: Bytes): (n: nat)
    ensures n <= |a| && n <= |b| && a[..n] == b[..n]
  {
    if a == [] || b == [] || a[0] != b[0] then 0 else 1 + CommonPrefix(a[1..], b[1..])
  }

  function LastKey(ps: seq<Pair>): Bytes {
    if ps == [] then [] else ps[|ps| - 1].key
  }

  // counter_: entries since the last restart point.
  function Counter(ps: seq<Pair>, interval: nat): nat {
    if ps == [] then 0
    else
      var c := Counter(ps[..|ps| - 1], interval);
      1 + if c < interval then c else 0
  }

  // Bytes that the entry for `key` takes over from the entry before it.
  function Shared(ps: seq<Pair>, key: Bytes, interval: nat): (n: nat)
    ensures n <= |key| && n <= |LastKey(ps)| && LastKey(ps)[..n] == key[..n]
  {
    if Counter(ps, interval) < interval then CommonPrefix(LastKey(ps), key) else 0
  }

  function EncodeEntry(shared: nat, p: Pair): (r: Bytes)
    requires shared <= |p.key|
    ensures |r| >= 3
  {
    Varint(shared) + (Varint(|p.key| - shared) + (Varint(|p.value|) + (p.key[shared..] + p.value)))
  }

  // The entries, each after the ones before it.
  function Body(ps: seq<Pair>, interval: nat): Bytes {
    if ps == [] then []
    else
      var init, last := ps[..|ps| - 1], ps[|ps| - 1];
      Body(init, interval) + EncodeEntry(Shared(init, last.key, interval), last)
  }

  // Where the i-th entry starts; the end of the entries when i == |ps|.
  function Offset(ps: seq<Pair>, interval: nat, i: nat): nat
    requires i <= |ps|
  {
    |Body(ps[..i], interval)|
  }

  // Which entries are restart points.
  function Starts(ps: seq<Pair>, interval: nat): (r: seq<nat>)
    ensures |r| > 0
  {
    if ps == [] then [0]
    else
      var init := ps[..|ps| - 1];
      Starts(init, interval) + if Counter(init, interval) < interval then [] else [|init|]
  }

  // restarts_: where they start.
  function Restarts(ps: seq<Pair>, interval: nat): (r: seq<nat>)
    ensures |r| > 0
  {
    if ps == [] then [0]
    else
      var init := ps[..|ps| - 1];
      Restarts(init, interval) + if Counter(init, interval) < interval then [] else [|Body(init, interval)|]
  }

  predicate Fits(ps: seq<Pair>, interval: nat) {
    |Body(ps, interval)| < LIMIT && |Restarts(ps, interval)| < LIMIT
  }

  // What Finish returns.
  function Finished(ps: seq<Pair>, interval: nat): Bytes
    requires Fits(ps, interval)
  {
    RestartsFit(ps, interval);
    Body(ps, interval) + (EncodeWords(Restarts(ps, interval)) + Fixed32(|Restarts(ps, interval)|))
  }

  // ---- Offsets and restart points ----

  lemma {:induction false} RestartsFit(ps: seq<Pair>, interval: nat)
    ensures forall i :: 0 <= i < |Restarts(ps, interval)| ==> Restarts(ps, interval)[i] <= |Body(ps, interval)|
  {
    if ps != [] {
      RestartsFit(ps[..|ps| - 1], interval);
    }
  }

  lemma {:induction false} OffsetStep(ps: seq<Pair>, interval: nat, i: nat)
    requires i < |ps|
    ensures Body(ps[..i + 1], interval) == Body(ps[..i], interval) + EncodeEntry(Shared(ps[..i], ps[i].key, interval), ps[i])
    ensures Offset(ps, interval, i + 1) >= Offset(ps, interval, i) + 3
  {
    assert ps[..i + 1][..i] == ps[..i];
  }

  lemma {:induction false} OffsetsIncrease(ps: seq<Pair>, interval: nat, i: nat, j: nat)
    requires i <= j <= |ps|
    ensures Offset(ps, interval, i) + 3 * (j - i) <= Offset(ps, interval, j)
    ensures Body(ps[..i], interval) <= Body(ps[..j], interval)
    decreases j - i
  {
    hide EncodeEntry, Shared, Body;
    if i < j {
      OffsetStep(ps, interval, j - 1);
      OffsetsIncrease(ps, interval, i, j - 1);
    }
  }

  lemma {:induction false} OffsetOrder(ps: seq<Pair>, interval: nat, i: nat, j: nat)
    requires i <= |ps| && j <= |ps|
    ensures i < j <==> Offset(ps, interval, i) < Offset(ps, interval, j)
  {
    if i <= j {
      OffsetsIncrease(ps, interval, i, j);
    } else {
      OffsetsIncrease(ps, interval, j, i);
    }
  }

  // The entry stored at offset i is the i-th entry.
  lemma {:induction false} EntryAt(ps: seq<Pair>, interval: nat, i: nat)
    requires i < |ps|
    ensures
      var e := EncodeEntry(Shared(ps[..i], ps[i].key, interval), ps[i]);
      var o := Offset(ps, interval, i);
      && Offset(ps, interval, i + 1) == o + |e| <= |Body(ps, interval)|
      && Body(ps, interval)[o..o + |e|] == e
  {
    hide EncodeEntry, Shared, Body;
    OffsetStep(ps, interval, i);
    OffsetsIncrease(ps, interval, i + 1, |ps|);
    assert ps[..|ps|] == ps;
    var e := EncodeEntry(Shared(ps[..i], ps[i].key, interval), ps[i]);
    var part := Body(ps[..i + 1], interval);
    assert Body(ps, interval)[..|part|] == part;
    assert part[Offset(ps, interval, i)..] == e;
  }

  // Restart points start at the entries that share nothing, the first of which is entry 0.
  lemma {:induction false} StartsOk(ps: seq<Pair>, interval: nat)
    requires interval > 0
    ensures |Starts(ps, interval)| == |Restarts(ps, interval)| && Starts(ps, interval)[0] == 0
    ensures forall r :: 0 < r < |Starts(ps, interval)| ==>
              0 < Starts(ps, interval)[r] < |ps| && Counter(ps[..Starts(ps, interval)[r]], interval) >= interval
    ensures forall r :: 0 <= r < |Starts(ps, interval)| ==>
              Starts(ps, interval)[r] <= |ps| && Restarts(ps, interval)[r] == Offset(ps, interval, Starts(ps, interval)[r])
  {
    if ps != [] {
      var init := ps[..|ps| - 1];
      StartsOk(init, interval);
      var s := Starts(init, interval);
      forall r | 0 <= r < |s| ensures s[r] <= |init| && ps[..s[r]] == init[..s[r]] {
        assert r == 0 || s[r] < |init|;
      }
      assert ps[..|init|] == init;
    }
  }

  lemma {:induction false} StartsIncrease(ps: seq<Pair>, interval: nat, r: nat, q: nat)
    requires interval > 0 && r < q < |Starts(ps, interval)|
    ensures Starts(ps, interval)[r] < Starts(ps, interval)[q]
  {
    var init := ps[..|ps| - 1];
    var s := Starts(init, interval);
    if q < |s| {
      StartsIncrease(init, interval, r, q);
    } else {
      StartsOk(init, interval);
    }
  }

  lemma {:induction false} StartShares(ps: seq<Pair>, interval: nat, r: nat)
    requires interval > 0 && r < |Starts(ps, interval)| && Starts(ps, interval)[r] < |ps|
    ensures var i := Starts(ps, interval)[r]; Shared(ps[..i], ps[i].key, interval) == 0
  {
    StartsOk(ps, interval);
  }

  lemma {:induction false} OneMore(n: nat, k: nat)
    ensures n * k == (n - 1) * k + k
  {
  }

  /** There is a restart point at every `interval`-th entry, and nowhere else. */
  lemma {:induction false} RestartEvery(ps: seq<Pair>, interval: nat)
    requires interval > 0
    ensures forall r :: 0 <= r < |Starts(ps, interval)| ==> Starts(ps, interval)[r] == r * interval
    ensures (|Starts(ps, interval)| - 1) * interval + Counter(ps, interval) == |ps|
    ensures Counter(ps, interval) <= interval && (ps != [] ==> Counter(ps, interval) > 0)
  {
    if ps != [] {
      var init := ps[..|ps| - 1];
      RestartEvery(init, interval);
      var s, c := Starts(init, interval), Counter(init, interval);
      OneMore(|s|, interval);
      if c < interval {
        assert Starts(ps, interval) == s;
      } else {
        assert Starts(ps, interval) == s + [|init|];
        assert |init| == |s| * interval;
      }
    }
  }

  lemma {:induction false} LongestPrefix(a: Bytes, b: Bytes)
    ensures var n := CommonPrefix(a, b); n < |a| && n < |b| ==> a[n] != b[n]
  {
    if a != [] && b != [] && a[0] == b[0] {
      LongestPrefix(a[1..], b[1..]);
    }
  }

  lemma {:induction false} RestartIff(ps: seq<Pair>, interval: nat, i: nat)
    requires interval > 0 && i < |ps|
    ensures i in Starts(ps, interval) <==> i == 0 || Counter(ps[..i], interval) >= interval
  {
    var init := ps[..|ps| - 1];
    StartsOk(ps, interval);
    if i < |init| {
      assert init[..i] == ps[..i];
      RestartIff(init, interval, i);
    } else if i > 0 {
      StartsOk(init, interval);
      assert i !in Starts(init, interval);
    } else {
      assert init == [];
    }
  }

  /** An entry at a restart point has its whole key; any other leaves out all that its key has in common with
      the key before. */
  lemma {:induction false} SharesMost(ps: seq<Pair>, interval: nat, i: nat)
    requires interval > 0 && i < |ps|
    ensures
      var n := Shared(ps[..i], ps[i].key, interval);
      if i in Starts(ps, interval) then n == 0
      else i > 0 && (n < |ps[i - 1].key| && n < |ps[i].key| ==> ps[i - 1].key[n] != ps[i].key[n])
  {
    hide Starts, Counter, CommonPrefix;
    RestartIff(ps, interval, i);
    if i > 0 {
      LongestPrefix(ps[i - 1].key, ps[i].key);
      assert LastKey(ps[..i]) == ps[i - 1].key;
    }
  }

  // ---- Reading the trailer ----

  lemma {:induction false} TrailerReads(ps: seq<Pair>, interval: nat)
    requires Fits(ps, interval)
    ensures
      var data, n, m := Finished(ps, interval), |Restarts(ps, interval)|, |Body(ps, interval)|;
      && |data| == m + 4 * n + 4 && DecodeFixed32(data[|data| - 4..]) == n
      && data[..m] == Body(ps, interval)
  {
    RestartsFit(ps, interval);
    var data, n := Finished(ps, interval), |Restarts(ps, interval)|;
    assert data[|data| - 4..] == Fixed32(n) + [];
    Fixed32RoundTrip(n, []);
  }

  lemma {:induction false} RestartReads(ps: seq<Pair>, interval: nat, r: nat)
    requires Fits(ps, interval) && r < |Restarts(ps, interval)|
    ensures
      var data, m := Finished(ps, interval), |Body(ps, interval)|;
      && m + 4 * r + 4 <= |data| && DecodeFixed32(data[m + 4 * r..m + 4 * r + 4]) == Restarts(ps, interval)[r]
  {
    RestartsFit(ps, interval);
    hide Body, Restarts, EncodeWords;
    WordReads(Body(ps, interval), Restarts(ps, interval), Fixed32(|Restarts(ps, interval)|), r);
  }

  // ---- DecodeEntry ----

  datatype Decoded = Corrupt | Decoded(shared: nat, nonShared: nat, valueLength: nat, keyStart: nat)

  // Three 32-bit varints, then as many bytes as the last two say. Positions are relative to s.
  function DecodeEntry(s: Bytes): (d: Decoded)
    ensures d.Decoded? ==> d.keyStart + d.nonShared + d.valueLength <= |s|
  {
    if |s| < 3 then Corrupt
    else
      match ParseVarint32(s)
      case Malformed => Corrupt
      case Parsed(shared, a) =>
        match ParseVarint32(s[a..])
        case Malformed => Corrupt
        case Parsed(nonShared, b) =>
          match ParseVarint32(s[a + b..])
          case Malformed => Corrupt
          case Parsed(valueLength, c) =>
            if |s| - (a + b + c) < nonShared + valueLength then Corrupt
            else Decoded(shared, nonShared, valueLength, a + b + c)
  }

  lemma {:induction false} EntryRoundTrip(shared: nat, p: Pair, rest: Bytes)
    requires shared <= |p.key| < LIMIT && |p.value| < LIMIT
    ensures
      var s := EncodeEntry(shared, p) + rest;
      var d := DecodeEntry(s);
      && d == Decoded(shared, |p.key| - shared, |p.value|, |EncodeEntry(shared, p)| - (|p.key| - shared) - |p.value|)
      && s[d.keyStart..d.keyStart + d.nonShared] == p.key[shared..]
      && s[d.keyStart + d.nonShared..d.keyStart + d.nonShared + d.valueLength] == p.value
  {
    hide Varint, ParseVarint32, DecodeEntry;
    var s := EncodeEntry(shared, p) + rest;
    var delta := p.key[shared..];
    var s3 := delta + (p.value + rest);
    var s2 := Varint(|p.value|) + s3;
    var s1 := Varint(|delta|) + s2;
    Regroup(Varint(shared), Varint(|delta|), Varint(|p.value|), delta, p.value, rest);
    FieldReads(s, shared, s1);
    FieldReads(s1, |delta|, s2);
    FieldReads(s2, |p.value|, s3);
    FieldsRead(s, s1, s2, s3, shared, |delta|, |p.value|);
    Payload(s, |s| - |s3|, delta, p.value, rest);
  }

  lemma {:induction false} Regroup(a: Bytes, b: Bytes, c: Bytes, d: Bytes, e: Bytes, rest: Bytes)
    ensures a + (b + (c + (d + e))) + rest == a + (b + (c + (d + (e + rest))))
  {
    assert d + e + rest == d + (e + rest);
    assert c + (d + e) + rest == c + (d + (e + rest));
    assert b + (c + (d + e)) + rest == b + (c + (d + (e + rest)));
  }

  lemma {:induction false} Payload(s: Bytes, k: nat, delta: Bytes, value: Bytes, rest: Bytes)
    requires k <= |s| && s[k..] == delta + (value + rest)
    ensures s[k..k + |delta|] == delta && s[k + |delta|..k + |delta| + |value|] == value
  {
    Window(s, k, 0, |delta|);
    Window(s, k, |delta|, |delta| + |value|);
  }

  lemma {:induction false} FieldReads(s: Bytes, v: nat, rest: Bytes)
    requires v < LIMIT && s == Varint(v) + rest
    ensures ParseVarint32(s) == Parsed(v, |Varint(v)|) && s[|Varint(v)|..] == rest
  {
    Varint32RoundTrip(v, rest);
  }

  lemma {:induction false} FieldsRead(s: Bytes, s1: Bytes, s2: Bytes, s3: Bytes, a: nat, b: nat, c: nat)
    requires |Varint(a)| <= |s| && |Varint(b)| <= |s1| && |Varint(c)| <= |s2|
    requires ParseVarint32(s) == Parsed(a, |Varint(a)|) && s[|Varint(a)|..] == s1
    requires ParseVarint32(s1) == Parsed(b, |Varint(b)|) && s1[|Varint(b)|..] == s2
    requires ParseVarint32(s2) == Parsed(c, |Varint(c)|) && s2[|Varint(c)|..] == s3
    requires b + c <= |s3|
    ensures
      var k := |Varint(a)| + |Varint(b)| + |Varint(c)|;
      k <= |s| && s[k..] == s3 && DecodeEntry(s) == Decoded(a, b, c, k)
  {
    hide Varint, ParseVarint32;
    assert s[|Varint(a)| + |Varint(b)|..] == s2;
    assert s[|Varint(a)| + |Varint(b)| + |Varint(c)|..] == s3;
  }

  lemma {:induction false} Window(s: Bytes, k: nat, x: nat, y: nat)
    requires k + x <= k + y <= |s|
    ensures s[k + x..k + y] == s[k..][x..y]
  {
  }
}
