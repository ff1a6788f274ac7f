/** log::Reader (db/log_reader.cc), checksums on, reading from the start of the file. */
module LogReader {
  import opened Coding
  import opened Options
  import opened Crc32c
  import opened LogFormat

  class SequentialFile {
    const contents: Bytes
    var position: nat

    constructor (contents: Bytes)
      ensures this.contents == contents && position == 0
    {
      this.contents := contents;
      position := 0;
    }

    // A read gives fewer bytes than asked for only at the end of the file.
    method Read(n: nat) returns (data: Bytes)
      requires position <= |contents|
      modifies this
      ensures position == old(position) + |data| <= |contents|
      ensures data == contents[old(position)..position]
      ensures |data| == if n < |contents| - old(position) then n else |contents| - old(position)
    {
      var k := if n < |contents| - position then n else |contents| - position;
      data := contents[position..position + k];
      position := position + k;
    }
  }

  // What ReadPhysicalRecord returns for the token: the type and the fragment.
  ghost predicate Reports(t: Token, kind: Byte, fragment: Bytes) {
    match t
    case Eof(next) => kind == EOF_TYPE
    case Bad(next, drops) => kind == BAD_TYPE
    case Fragment(next, k, data) => kind == k && fragment == data
  }

  function Complaints(t: Token): seq<nat> {
    if t.Bad? then t.dropped else []
  }

  // One turn of the loop of ReadRecord.
  lemma {:induction false} OneFragment(drops: seq<nat>, crc: Checksum, file: Bytes, p: nat, scratch: Option<Bytes>)
    requires p <= |file|
    ensures
      var t := ReadPhysical(crc, file, p);
      var s := Assemble(t, scratch);
      After(drops, ReadLogical(crc, file, p, scratch)) ==
        if s.done then Outcome(s.result, t.next, drops + s.dropped)
        else After(drops + s.dropped, ReadLogical(crc, file, t.next, s.result))
    ensures
      var t := ReadPhysical(crc, file, p);
      Assemble(t, scratch).done || t.next > p
  {
    hide ReadPhysical;
    var t := ReadPhysical(crc, file, p);
    var s := Assemble(t, scratch);
    if !s.done {
      AfterTwice(drops, s.dropped, ReadLogical(crc, file, t.next, s.result));
    }
  }

  class Reader {
    const crc: Checksum
    const file: SequentialFile
    var buffer: Bytes
    var eof: bool
    var endOfBufferOffset: nat
    // The byte counts that the reporter was told.
    var dropped: seq<nat>

    ghost predicate Valid()
      reads this, file
    {
      && file.position == endOfBufferOffset <= |file.contents| && |buffer| <= endOfBufferOffset
      && buffer == file.contents[Position()..endOfBufferOffset]
      && if eof then endOfBufferOffset == |file.contents| && endOfBufferOffset < Position() + Leftover(Position())
         else Leftover(endOfBufferOffset) == BLOCK_SIZE && (|buffer| == 0 || endOfBufferOffset == Position() + Leftover(Position()))
    }

    // The number of bytes consumed.
    function Position(): nat
      requires |buffer| <= endOfBufferOffset
      reads this
    {
      endOfBufferOffset - |buffer|
    }

    constructor (crc: Checksum, file: SequentialFile)
      requires file.position == 0
      ensures Valid() && this.crc == crc && this.file == file && Position() == 0 && dropped == []
    {
      this.crc, this.file := crc, file;
      buffer, eof, endOfBufferOffset, dropped := [], false, 0, [];
    }

    /** ReadRecord: the next record, or none at the end of the file. */
    method ReadRecord() returns (record: Option<Bytes>)
      requires Valid()
      modifies this, file
      ensures Valid()
      ensures Outcome(record, Position(), dropped) == After(old(dropped), ReadLogical(crc, file.contents, old(Position()), None))
    {
      var scratch, done := None, false;
      while !done
        invariant Valid()
        invariant After(old(dropped), ReadLogical(crc, file.contents, old(Position()), None))
               == if done then Outcome(scratch, Position(), dropped) else After(dropped, ReadLogical(crc, file.contents, Position(), scratch))
        decreases !done, |file.contents| - Position()
      {
        hide ReadPhysical, ReadLogical, Leftover, After, Assemble;
        OneFragment(dropped, crc, file.contents, Position(), scratch);
        scratch, done := ReadFragment(scratch);
      }
      record := scratch;
    }

    method ReadFragment(scratch: Option<Bytes>) returns (result: Option<Bytes>, done: bool)
      requires Valid()
      modifies this, file
      ensures Valid()
      ensures
        var t := ReadPhysical(crc, file.contents, old(Position()));
        Progress(done, result, dropped) == Assemble(t, scratch).(dropped := old(dropped) + Assemble(t, scratch).dropped) && Position() == t.next
    {
      hide ReadPhysical, Leftover, Assemble;
      ghost var t := ReadPhysical(crc, file.contents, Position());
      var kind, fragment := ReadPhysicalRecord();
      result, done := UseFragment(kind, fragment, scratch, t);
    }

    // The switch in ReadRecord: what one physical record does to the record being put together.
    method UseFragment(kind: Byte, fragment: Bytes, scratch: Option<Bytes>, ghost t: Token) returns (result: Option<Bytes>, done: bool)
      requires Reports(t, kind, fragment)
      modifies `dropped
      ensures
        var s := Assemble(t, scratch);
        result == s.result && done == s.done && Complaints(t) <= s.dropped && dropped == old(dropped) + s.dropped[|Complaints(t)|..]
    {
      result, done := scratch, false;
      if kind == FULL_TYPE {
        if scratch.Some? && scratch.value != [] {
          dropped := dropped + [|scratch.value|];
        }
        result, done := Some(fragment), true;
      } else if kind == FIRST_TYPE {
        if scratch.Some? && scratch.value != [] {
          dropped := dropped + [|scratch.value|];
        }
        result := Some(fragment);
      } else if kind == MIDDLE_TYPE {
        if scratch.None? {
          dropped := dropped + [|fragment|];
        } else {
          result := Some(scratch.value + fragment);
        }
      } else if kind == LAST_TYPE {
        if scratch.None? {
          dropped := dropped + [|fragment|];
        } else {
          result, done := Some(scratch.value + fragment), true;
        }
      } else if kind == EOF_TYPE {
        result, done := None, true;
      } else if kind == BAD_TYPE {
        if scratch.Some? {
          dropped := dropped + [|scratch.value|];
          result := None;
        }
      } else {
        dropped := dropped + [|fragment| + Size(scratch)];
        result := None;
      }
    }

    method ReadPhysicalRecord() returns (kind: Byte, fragment: Bytes)
      requires Valid()
      modifies this, file
      ensures Valid()
      ensures
        var t := ReadPhysical(crc, file.contents, old(Position()));
        Reports(t, kind, fragment) && Position() == t.next && dropped == old(dropped) + Complaints(t)
    {
      hide ReadPhysical, ParseFragment, Leftover;
      ghost var t := ReadPhysical(crc, file.contents, Position());
      while |buffer| < HEADER_SIZE
        invariant Valid() && dropped == old(dropped)
        invariant t == ReadPhysical(crc, file.contents, Position())
        decreases |file.contents| - endOfBufferOffset, !eof
      {
        if eof {
          AtEnd();
          buffer := [];
          return EOF_TYPE, [];
        }
        RefillBuffer();
      }
      AtHeader();
      kind, fragment := ParseHeader();
    }

    lemma {:induction false} AtEnd()
      requires Valid() && eof && |buffer| < HEADER_SIZE
      ensures ReadPhysical(crc, file.contents, Position()) == Eof(endOfBufferOffset)
      ensures endOfBufferOffset < endOfBufferOffset + Leftover(endOfBufferOffset)
    {
      hide ParseFragment, Leftover;
    }

    // The last read was a full read, so what is left in the buffer is a trailer to skip.
    method RefillBuffer()
      requires Valid() && !eof && |buffer| < HEADER_SIZE
      modifies this, file
      ensures Valid() && dropped == old(dropped) && Position() == old(endOfBufferOffset)
      ensures endOfBufferOffset > old(endOfBufferOffset) || (endOfBufferOffset == old(endOfBufferOffset) && eof)
      ensures ReadPhysical(crc, file.contents, old(Position())) == ReadPhysical(crc, file.contents, Position())
    {
      Advance(endOfBufferOffset, 0);
      buffer := file.Read(BLOCK_SIZE);
      endOfBufferOffset := endOfBufferOffset + |buffer|;
      if |buffer| < BLOCK_SIZE {
        eof := true;
      }
      Advance(old(endOfBufferOffset), |buffer|);
    }

    // A buffer with a header in it is the rest of the block at the current position.
    lemma {:induction false} AtHeader()
      requires Valid() && |buffer| >= HEADER_SIZE
      ensures ReadPhysical(crc, file.contents, Position()) == ParseFragment(crc, buffer, !eof, Position())
    {
      hide ParseFragment, Leftover;
    }

    method ParseHeader() returns (kind: Byte, fragment: Bytes)
      requires Valid() && |buffer| >= HEADER_SIZE
      modifies `buffer, `dropped
      ensures Valid()
      ensures
        var t := ParseFragment(crc, old(buffer), !eof, old(Position()));
        Reports(t, kind, fragment) && Position() == t.next && dropped == old(dropped) + Complaints(t)
    {
      hide Leftover, Unmask, DecodeFixed32, BlockEnd;
      var low: int, high: int := buffer[4], buffer[5];
      var length := low + 256 * high;
      kind, fragment := buffer[6], [];
      if HEADER_SIZE + length > |buffer| {
        kind := EOF_TYPE;
        if !eof {
          dropped := dropped + [|buffer|];
          kind := BAD_TYPE;
        }
        Consume(|buffer|);
      } else if kind == 0 && length == 0 {
        Consume(|buffer|);
        kind := BAD_TYPE;
      } else if Unmask(DecodeFixed32(buffer)) != crc(buffer[6..HEADER_SIZE + length]) {
        dropped := dropped + [|buffer|];
        Consume(|buffer|);
        kind := BAD_TYPE;
      } else {
        fragment := buffer[HEADER_SIZE..HEADER_SIZE + length];
        Consume(HEADER_SIZE + length);
      }
    }

    // buffer_.remove_prefix(n), or buffer_.clear() when n is its size
    method Consume(n: nat)
      requires Valid() && n <= |buffer|
      modifies `buffer
      ensures Valid() && buffer == old(buffer)[n..] && Position() == old(Position()) + n
    {
      if n < Leftover(Position()) {
        Advance(Position(), n);
      }
      hide Leftover;
      buffer := buffer[n..];
    }
  }

  function Then(a: Replay, b: Replay): Replay {
    Replay(a.records + b.records, a.dropped + b.dropped)
  }

  /** The recovery loop of a caller: every record the file gives. */
  method ReplayLog(reader: Reader) returns (records: seq<Bytes>)
    requires reader.Valid() && reader.dropped == []
    modifies reader, reader.file
    ensures reader.Valid()
    ensures Replay(records, reader.dropped) == old(ReadAll(reader.crc, reader.file.contents, reader.Position()))
  {
    hide ReadLogical;
    ghost var all := ReadAll(reader.crc, reader.file.contents, reader.Position());
    records := [];
    var more := true;
    while more
      invariant reader.Valid()
      invariant all == Then(Replay(records, reader.dropped),
                            if more then ReadAll(reader.crc, reader.file.contents, reader.Position()) else Replay([], []))
      decreases more, |reader.file.contents| - reader.Position()
    {
      ReadOne(Replay(records, reader.dropped), reader.crc, reader.file.contents, reader.Position());
      hide ReadAll, Then, After;
      var record := reader.ReadRecord();
      if record.Some? {
        records := records + [record.value];
      } else {
        more := false;
      }
    }
    assert records + [] == records && reader.dropped + [] == reader.dropped;
  }

  lemma {:induction false} ReadOne(sofar: Replay, crc: Checksum, file: Bytes, p: nat)
    requires p <= |file|
    ensures
      var o := After(sofar.dropped, ReadLogical(crc, file, p, None));
      Then(sofar, ReadAll(crc, file, p)) == match o.record
        case None => Then(Replay(sofar.records, o.dropped), Replay([], []))
        case Some(data) => Then(Replay(sofar.records + [data], o.dropped), ReadAll(crc, file, o.next))
  {
    hide ReadLogical;
    var o := ReadLogical(crc, file, p, None);
    if o.record.Some? {
      var rest := ReadAll(crc, file, o.next);
      assert sofar.records + ([o.record.value] + rest.records) == sofar.records + [o.record.value] + rest.records;
      assert sofar.dropped + (o.dropped + rest.dropped) == sofar.dropped + o.dropped + rest.dropped;
    }
  }
}
