/** The Bloom filter policy (util/bloom.cc). The hash function is a parameter. */
module Bloom {
  import opened Coding

  type Hash = Bytes -> U32

  // Bit n of a number; bit 0 is the lowest.
  predicate BitOf(byte: nat, n: nat) {
    if n == 0 then byte % 2 == 1 else BitOf(byte / 2, n - 1)
  }

  // byte | (1 << n)
  function WithBit(byte: nat, n: nat): nat {
    if n == 0 then byte - byte % 2 + 1 else 2 * WithBit(byte / 2, n - 1) + byte % 2
  }

  function Power(n: nat): (p: nat)
    ensures p > 0
  {
    if n == 0 then 1 else 2 * Power(n - 1)
  }

  lemma {:induction false} WithBitFits(byte: nat, n: nat, width: nat)
    requires n < width && byte < Power(width)
    ensures WithBit(byte, n) < Power(width)
  {
    if n > 0 {
      WithBitFits(byte / 2, n - 1, width - 1);
    }
  }

  lemma {:induction false} WithBitSets(byte: nat, n: nat, m: nat)
    ensures BitOf(WithBit(byte, n), m) <==> m == n || BitOf(byte, m)
  {
    if n > 0 {
      var rest := WithBit(byte / 2, n - 1);
      assert WithBit(byte, n) / 2 == rest && WithBit(byte, n) % 2 == byte % 2;
      if m > 0 {
        WithBitSets(byte / 2, n - 1, m - 1);
      }
    } else {
      assert WithBit(byte, 0) / 2 == byte / 2;
    }
  }

  lemma {:induction false} ZeroHasNoBits(n: nat)
    ensures !BitOf(0, n)
  {
    if n > 0 {
      ZeroHasNoBits(n - 1);
    }
  }

  function SetBit(byte: Byte, n: nat): (r: Byte)
    requires n < 8
  {
    assert Power(8) == 256 by {
      assert Power(2) == 4;
      assert Power(4) == 16;
      assert Power(6) == 64;
    }
    WithBitFits(byte, n, 8);
    WithBit(byte, n)
  }

  // Bit `pos` of a bit array.
  predicate Bit(a: seq<Byte>, pos: nat)
    requires pos < 8 * |a|
  {
    BitOf(a[pos / 8], pos % 8)
  }

  // delta: the hash rotated right by 17 bits.
  function Delta(h: U32): U32 {
    h / 0x2_0000 + h % 0x2_0000 * 0x8000
  }

  // The hash value of probe j, in 32-bit arithmetic.
  function ProbeHash(h: U32, j: nat): U32 {
    if j == 0 then h else (ProbeHash(h, j - 1) + Delta(h)) % 0x1_0000_0000
  }

  function Probe(h: U32, j: nat, bits: nat): (pos: nat)
    requires bits > 0
    ensures pos < bits
  {
    ProbeHash(h, j) % bits
  }

  ghost predicate Touches(h: U32, probes: nat, bits: nat, pos: nat)
    requires bits > 0
  {
    exists j :: 0 <= j < probes && Probe(h, j, bits) == pos
  }

  ghost predicate TouchedByKeys(hash: Hash, keys: seq<Bytes>, probes: nat, bits: nat, pos: nat)
    requires bits > 0
  {
    exists i :: 0 <= i < |keys| && Touches(hash(keys[i]), probes, bits, pos)
  }

  /** f is a filter for exactly these keys: a bit is set if and only if a probe of a key touches it. */
  ghost predicate IsFilter(hash: Hash, f: Bytes, keys: seq<Bytes>, probes: nat) {
    && |f| >= 9 && f[|f| - 1] == probes
    && var bytes := f[..|f| - 1];
       forall pos :: 0 <= pos < 8 * |bytes| ==> (Bit(bytes, pos) <==> TouchedByKeys(hash, keys, probes, 8 * |bytes|, pos))
  }

  // What KeyMayMatch decides.
  ghost predicate MayMatch(hash: Hash, key: Bytes, f: Bytes) {
    && |f| >= 2
    && var bytes, h, probes := f[..|f| - 1], hash(key), f[|f| - 1];
       probes <= 30 ==> forall j :: 0 <= j < probes ==> Bit(bytes, Probe(h, j, 8 * |bytes|))
  }

  /** No false negatives. */
  lemma {:induction false} FilterMatchesItsKeys(hash: Hash, f: Bytes, keys: seq<Bytes>, probes: nat, i: nat)
    requires IsFilter(hash, f, keys, probes) && i < |keys|
    ensures MayMatch(hash, keys[i], f)
  {
    var bits := 8 * (|f| - 1);
    forall j | 0 <= j < probes ensures Bit(f[..|f| - 1], Probe(hash(keys[i]), j, bits)) {
      assert Touches(hash(keys[i]), probes, bits, Probe(hash(keys[i]), j, bits));
    }
  }

  // Size of the bit array in bytes.
  function FilterBytes(count: nat, bitsPerKey: nat): (n: nat)
    ensures n >= 8
  {
    var bits := count * bitsPerKey;
    ((if bits < 64 then 64 else bits) + 7) / 8
  }

  /** As many whole bytes as the keys ask for, but at least 64 bits. */
  lemma {:induction false} EnoughBits(count: nat, bitsPerKey: nat)
    ensures
      var n, bits := FilterBytes(count, bitsPerKey), count * bitsPerKey;
      && 8 * n >= 64 && 8 * n >= bits && (8 * (n - 1) < 64 || 8 * (n - 1) < bits)
  {
  }

  class FilterPolicy {
    const name: Bytes
    const hash: Hash
    const bitsPerKey: nat
    const k: Byte

    // k_ is bits_per_key * 0.69 rounded down and clipped; any such number of probes will do.
    constructor (name: Bytes, hash: Hash, bitsPerKey: nat, k: Byte)
      requires 1 <= k <= 30
      ensures this.name == name && this.hash == hash && this.bitsPerKey == bitsPerKey && this.k == k
    {
      this.name, this.hash, this.bitsPerKey, this.k := name, hash, bitsPerKey, k;
    }

    /** CreateFilter: the filter is appended to dst. */
    method CreateFilter(keys: seq<Bytes>, dst: Bytes) returns (r: Bytes)
      ensures |r| == |dst| + FilterBytes(|keys|, bitsPerKey) + 1 && r[..|dst|] == dst
      ensures IsFilter(hash, r[|dst|..], keys, k)
    {
      var bytes := FilterBytes(|keys|, bitsPerKey);
      var bits := bytes * 8;
      var array_ := new Byte[bytes](_ => 0);
      forall pos | 0 <= pos < bits ensures !Bit(array_[..], pos) {
        ZeroHasNoBits(pos % 8);
      }
      for i := 0 to |keys|
        invariant forall pos :: 0 <= pos < bits ==> (Bit(array_[..], pos) <==> TouchedByKeys(hash, keys[..i], k, bits, pos))
      {
        ghost var before := array_[..];
        AddProbes(array_, hash(keys[i]), bits);
        forall pos | 0 <= pos < bits
          ensures Bit(array_[..], pos) <==> TouchedByKeys(hash, keys[..i + 1], k, bits, pos)
        {
          OneMoreKey(keys, i, bits, pos);
        }
      }
      assert keys[..|keys|] == keys;
      r := dst + array_[..] + [k];
      assert r[|dst|..][..bytes] == array_[..];
    }

    lemma {:induction false} OneMoreKey(keys: seq<Bytes>, i: nat, bits: nat, pos: nat)
      requires i < |keys| && bits > 0
      ensures TouchedByKeys(hash, keys[..i + 1], k, bits, pos) <==>
              TouchedByKeys(hash, keys[..i], k, bits, pos) || Touches(hash(keys[i]), k, bits, pos)
    {
      if TouchedByKeys(hash, keys[..i], k, bits, pos) {
        var m :| 0 <= m < i && Touches(hash(keys[..i][m]), k, bits, pos);
        assert keys[..i + 1][m] == keys[..i][m];
      }
      if Touches(hash(keys[i]), k, bits, pos) {
        assert keys[..i + 1][i] == keys[i];
      }
      if TouchedByKeys(hash, keys[..i + 1], k, bits, pos) {
        var m :| 0 <= m < i + 1 && Touches(hash(keys[..i + 1][m]), k, bits, pos);
        assert m < i ==> keys[..i][m] == keys[..i + 1][m];
      }
    }

    // Double hashing: the inner loop, for one key.
    method AddProbes(a: array<Byte>, h0: U32, bits: nat)
      requires bits == 8 * a.Length > 0
      modifies a
      ensures forall pos :: 0 <= pos < bits ==> (Bit(a[..], pos) <==> old(Bit(a[..], pos)) || Touches(h0, k, bits, pos))
    {
      var h := h0;
      var delta := Delta(h);
      for j := 0 to k
        invariant h == ProbeHash(h0, j)
        invariant forall pos :: 0 <= pos < bits ==> (Bit(a[..], pos) <==> old(Bit(a[..], pos)) || Touches(h0, j, bits, pos))
      {
        var bitpos := h % bits;
        ghost var before := a[..];
        a[bitpos / 8] := SetBit(a[bitpos / 8], bitpos % 8);
        forall pos | 0 <= pos < bits ensures Bit(a[..], pos) <==> pos == bitpos || Bit(before, pos) {
          OneBit(before, a[..], bitpos, pos);
        }
        forall pos | 0 <= pos < bits ensures Touches(h0, j + 1, bits, pos) <==> Touches(h0, j, bits, pos) || pos == bitpos {
          OneMoreProbe(h0, j, bits, pos);
        }
        h := (h + delta) % 0x1_0000_0000;
      }
    }

    static lemma {:induction false} OneBit(before: seq<Byte>, after: seq<Byte>, bitpos: nat, pos: nat)
      requires bitpos < 8 * |before| && pos < 8 * |before|
      requires after == before[bitpos / 8 := SetBit(before[bitpos / 8], bitpos % 8)]
      ensures Bit(after, pos) <==> pos == bitpos || Bit(before, pos)
    {
      WithBitSets(before[bitpos / 8], bitpos % 8, pos % 8);
      assert pos == 8 * (pos / 8) + pos % 8 && bitpos == 8 * (bitpos / 8) + bitpos % 8;
    }

    static lemma {:induction false} OneMoreProbe(h: U32, j: nat, bits: nat, pos: nat)
      requires bits > 0
      ensures Touches(h, j + 1, bits, pos) <==> Touches(h, j, bits, pos) || pos == Probe(h, j, bits)
    {
      if Touches(h, j + 1, bits, pos) {
        var i :| 0 <= i < j + 1 && Probe(h, i, bits) == pos;
        assert i < j || i == j;
      }
    }

    method KeyMayMatch(key: Bytes, f: Bytes) returns (r: bool)
      ensures r <==> MayMatch(hash, key, f)
    {
      if |f| < 2 {
        return false;
      }
      var array_, bits := f[..|f| - 1], 8 * (|f| - 1);
      var probes := f[|f| - 1];
      if probes > 30 {
        return true;
      }
      var h := hash(key);
      var delta := Delta(h);
      for j := 0 to probes
        invariant h == ProbeHash(hash(key), j)
        invariant forall i :: 0 <= i < j ==> Bit(array_, Probe(hash(key), i, bits))
      {
        var bitpos := h % bits;
        if !BitOf(array_[bitpos / 8], bitpos % 8) {
          assert !Bit(array_, Probe(hash(key), j, bits));
          return false;
        }
        h := (h + delta) % 0x1_0000_0000;
      }
      return true;
    }
  }
}
