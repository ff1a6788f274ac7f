/** log::Writer (db/log_writer.cc). */
module LogWriter {
  import opened Coding
  import opened Crc32c
  import opened LogFormat

  class WritableFile {
    var contents: Bytes

    constructor ()
      ensures contents == []
    {
      contents := [];
    }

    method Append(data: Bytes)
      modifies this
      ensures contents == old(contents) + data
    {
      contents := contents + data;
    }
  }

  // Filling the trailer of a block is the first step of encoding what is left.
  lemma {:induction false} TrailerFilled(crc: Checksum, before: Bytes, after: Bytes, left: Bytes, begin: bool)
    requires after == before + if Leftover(|before|) < HEADER_SIZE then Zeros(Leftover(|before|)) else []
    ensures before + Encode(crc, |before|, left, begin) == after + Encode(crc, |after|, left, begin)
    ensures Leftover(|after|) >= HEADER_SIZE
    ensures Leftover(|before|) > HEADER_SIZE ==> after == before
    ensures Leftover(|before|) < HEADER_SIZE ==> Leftover(|after|) == BLOCK_SIZE
  {
    hide Encode, Leftover, Zeros;
    if Leftover(|before|) < HEADER_SIZE {
      Advance(|before|, Leftover(|before|));
      TrailerEncoded(crc, |before|, left, begin);
      Associates(before, Zeros(Leftover(|before|)), Encode(crc, |after|, left, begin));
    }
  }

  lemma {:induction false} Associates(a: Bytes, b: Bytes, c: Bytes)
    ensures a + b + c == a + (b + c)
  {
  }

  // Emitting a fragment is the next one.
  lemma {:induction false} FragmentEmitted(crc: Checksum, before: Bytes, after: Bytes, left: Bytes, begin: bool)
    requires Leftover(|before|) >= HEADER_SIZE
    requires
      var k := FragmentSize(|before|, |left|);
      after == before + Physical(crc, RecordType(begin, k == |left|), left[..k])
    ensures
      var k := FragmentSize(|before|, |left|);
      before + Encode(crc, |before|, left, begin)
        == after + if k == |left| then [] else Encode(crc, |after|, left[k..], false)
    ensures
      var k := FragmentSize(|before|, |left|);
      k == 0 < |left| ==> Leftover(|before|) == HEADER_SIZE && Leftover(|after|) == BLOCK_SIZE
  {
    hide Encode, Physical, Leftover;
    var k := FragmentSize(|before|, |left|);
    var head := Physical(crc, RecordType(begin, k == |left|), left[..k]);
    Advance(|before|, HEADER_SIZE);
    FragmentEncoded(crc, |before|, left, begin);
    Associates(before, head, if k == |left| then [] else Encode(crc, |after|, left[k..], false));
  }

  lemma {:induction false} FragmentEncoded(crc: Checksum, p: nat, left: Bytes, begin: bool)
    requires Leftover(p) >= HEADER_SIZE
    ensures
      var k := FragmentSize(p, |left|);
      Encode(crc, p, left, begin) == Physical(crc, RecordType(begin, k == |left|), left[..k])
        + if k == |left| then [] else Encode(crc, p + HEADER_SIZE + k, left[k..], false)
  {
    hide Leftover, Physical;
  }

  class Writer {
    const crc: Checksum
    const dest: WritableFile
    var blockOffset: nat

    // The offset may also be the size of a block, where the file is at the start of the next.
    ghost predicate Valid()
      reads this, dest
    {
      blockOffset == BLOCK_SIZE - Leftover(|dest.contents|) || (blockOffset == BLOCK_SIZE == Leftover(|dest.contents|))
    }

    constructor (crc: Checksum, dest: WritableFile)
      requires dest.contents == []
      ensures Valid() && this.crc == crc && this.dest == dest
    {
      this.crc, this.dest, blockOffset := crc, dest, 0;
    }

    // Writer(dest, dest_length): go on at the end of a log that is reused.
    constructor Reopen(crc: Checksum, dest: WritableFile, destLength: nat)
      requires destLength == |dest.contents|
      ensures Valid() && this.crc == crc && this.dest == dest
    {
      this.crc, this.dest, blockOffset := crc, dest, destLength % BLOCK_SIZE;
    }

    method AddRecord(slice: Bytes)
      requires Valid()
      modifies this, dest
      ensures Valid() && dest.contents == old(dest.contents) + Encode(crc, |old(dest.contents)|, slice, true)
    {
      hide Encode, Leftover, Zeros, Physical;
      ghost var start := dest.contents;
      var left, begin, more := slice, true, true;
      while more
        invariant Valid() && (more <==> begin || left != [])
        invariant start + Encode(crc, |start|, slice, true)
               == dest.contents + if more then Encode(crc, |dest.contents|, left, begin) else []
        decreases more, |left|, if Leftover(|dest.contents|) <= HEADER_SIZE then 1 else 0
      {
        ghost var before := dest.contents;
        var leftover := BLOCK_SIZE - blockOffset;
        if leftover < HEADER_SIZE {
          if leftover > 0 {
            dest.Append(Zeros(leftover));
          }
          blockOffset := 0;
        }
        TrailerFilled(crc, before, dest.contents, left, begin);
        ghost var filled := dest.contents;

        var avail := BLOCK_SIZE - blockOffset - HEADER_SIZE;
        var fragmentLength := if |left| < avail then |left| else avail;
        var end := |left| == fragmentLength;
        EmitPhysicalRecord(RecordType(begin, end), left[..fragmentLength]);
        FragmentEmitted(crc, filled, dest.contents, left, begin);
        left, begin := left[fragmentLength..], false;
        more := left != [];
      }
    }

    method EmitPhysicalRecord(t: Byte, data: Bytes)
      requires Valid() && |data| <= 0xffff && blockOffset + HEADER_SIZE + |data| <= BLOCK_SIZE
      modifies this, dest
      ensures Valid() && dest.contents == old(dest.contents) + Physical(crc, t, data)
    {
      Advance(|dest.contents|, HEADER_SIZE + |data|);
      hide Leftover;
      var header := Fixed32(Mask(crc([t] + data))) + [|data| % 256, |data| / 256, t];
      dest.Append(header);
      dest.Append(data);
      blockOffset := blockOffset + HEADER_SIZE + |data|;
    }
  }
}
