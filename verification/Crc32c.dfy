/** Masked checksums (util/crc32c.h). The checksum itself is a parameter of everything that uses it:
    nothing is used about it but that it is a function of the bytes. */
module Crc32c {
  import opened Coding

  type Checksum = Bytes -> U32

  const MASK_DELTA: U32 := 0xa282_ead8

  // crc32c::Mask: rotate right by 15 bits and add a constant, in 32 bits.
  function Mask(crc: U32): U32 {
    (crc / 0x8000 + crc % 0x8000 * 0x2_0000 + MASK_DELTA) % 0x1_0000_0000
  }

  function Unmask(masked: U32): U32 {
    var rot := (masked - MASK_DELTA) % 0x1_0000_0000;
    rot / 0x2_0000 + rot % 0x2_0000 * 0x8000
  }

  lemma {:induction false} UnmaskMask(crc: U32)
    ensures Unmask(Mask(crc)) == crc
  {
    var high: int, low: int := crc / 0x8000, crc % 0x8000;
    var rot := high + low * 0x2_0000;
    Wraps(rot, MASK_DELTA);
    assert rot / 0x2_0000 == low && rot % 0x2_0000 == high;
  }

  lemma {:induction false} Wraps(a: int, d: int)
    requires 0 <= a < 0x1_0000_0000 && 0 <= d < 0x1_0000_0000
    ensures ((a + d) % 0x1_0000_0000 - d) % 0x1_0000_0000 == a
  {
    if a + d >= 0x1_0000_0000 {
      assert (a + d) % 0x1_0000_0000 == a + d - 0x1_0000_0000;
    }
  }

  lemma {:induction false} SumBytes(crc: Checksum, b: Bytes, covered: Bytes)
    requires |b| >= 4 && Unmask(DecodeFixed32(b)) == crc(covered)
    ensures b[..4] == Fixed32(Mask(crc(covered)))
  {
    hide Unmask, Mask, Fixed32, DecodeFixed32;
    FirstFour(b);
    Fixed32Back(b[..4]);
    MaskUnmask(DecodeFixed32(b));
  }

  lemma {:induction false} MaskUnmask(masked: U32)
    ensures Mask(Unmask(masked)) == masked
  {
    var rot := (masked - MASK_DELTA) % 0x1_0000_0000;
    var high: int, low: int := rot / 0x2_0000, rot % 0x2_0000;
    assert Unmask(masked) / 0x8000 == low && Unmask(masked) % 0x8000 == high;
    assert rot == low + high * 0x2_0000;
    assert (rot + MASK_DELTA) % 0x1_0000_0000 == masked by {
      if masked >= MASK_DELTA {
        assert rot == masked - MASK_DELTA;
      } else {
        assert rot == masked - MASK_DELTA + 0x1_0000_0000;
      }
    }
  }
}
