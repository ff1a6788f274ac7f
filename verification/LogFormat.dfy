/** The record log (db/log_format.h, db/log_writer.cc, db/log_reader.cc) as functions of bytes. */
module LogFormat {
  import opened Coding
  import opened Options
  import opened Crc32c

  const BLOCK_SIZE: nat := 32768
  const HEADER_SIZE: nat := 7

  const FULL_TYPE: Byte := 1
  const FIRST_TYPE: Byte := 2
  const MIDDLE_TYPE: Byte := 3
  const LAST_TYPE: Byte := 4

  // kEof and kBadRecord of the reader: it returns them in place of a type, so a fragment that has
  // one of them in its type byte is taken for the end of the file, or for a bad record.
  const EOF_TYPE: Byte := 5
  const BAD_TYPE: Byte := 6

  function Zeros(n: nat): (r: Bytes)
    ensures |r| == n
  {
    seq(n, i => 0)
  }

  // Bytes of the current block from position `p` of the file on; a full block at its start.
  function Leftover(p: nat): (r: nat)
    ensures 1 <= r <= BLOCK_SIZE
  {
    BLOCK_SIZE - p % BLOCK_SIZE
  }

  lemma {:induction false} Advance(p: nat, k: nat)
    requires k <= Leftover(p)
    ensures Leftover(p + k) == if k == Leftover(p) then BLOCK_SIZE else Leftover(p) - k
  {
  }

  // EmitPhysicalRecord
  function Physical(crc: Checksum, t: Byte, data: Bytes): (r: Bytes)
    requires |data| <= 0xffff
    ensures |r| == HEADER_SIZE + |data|
  {
    Fixed32(Mask(crc([t] + data))) + [|data| % 256, |data| / 256, t] + data
  }

  function RecordType(begin: bool, end: bool): Byte {
    if begin then if end then FULL_TYPE else FIRST_TYPE
    else if end then LAST_TYPE else MIDDLE_TYPE
  }

  function FragmentSize(p: nat, left: nat): nat
    requires Leftover(p) >= HEADER_SIZE
  {
    var avail := Leftover(p) - HEADER_SIZE;
    if left < avail then left else avail
  }

  /** What AddRecord appends to a file of length `p` for the rest `data` of a record. */
  function Encode(crc: Checksum, p: nat, data: Bytes, begin: bool): (r: Bytes)
    ensures |r| >= HEADER_SIZE
    decreases |data|, if Leftover(p) <= HEADER_SIZE then 1 else 0
  {
    if Leftover(p) < HEADER_SIZE then
      Zeros(Leftover(p)) + Encode(crc, p + Leftover(p), data, begin)
    else
      var n := FragmentSize(p, |data|);
      var head := Physical(crc, RecordType(begin, n == |data|), data[..n]);
      if n == |data| then head else head + Encode(crc, p + |head|, data[n..], false)
  }

  /** How a record is cut: what fits the rest of the block is one fragment, of a longer record the first
      fragment fills the block, and a rest that is too short for a header is filled with zeros. */
  lemma {:induction false} FillsBlocks(crc: Checksum, p: nat, data: Bytes, begin: bool)
    ensures Leftover(p) >= HEADER_SIZE && |data| <= Leftover(p) - HEADER_SIZE ==>
      Encode(crc, p, data, begin) == Physical(crc, RecordType(begin, true), data)
    ensures Leftover(p) >= HEADER_SIZE && |data| > Leftover(p) - HEADER_SIZE ==>
      var n := Leftover(p) - HEADER_SIZE;
      Encode(crc, p, data, begin) == Physical(crc, RecordType(begin, false), data[..n]) + Encode(crc, p + Leftover(p), data[n..], false)
    ensures Leftover(p) < HEADER_SIZE ==> Encode(crc, p, data, begin) == Zeros(Leftover(p)) + Encode(crc, p + Leftover(p), data, begin)
  {
    hide Physical, Leftover;
    assert data[..|data|] == data;
  }

  // A whole log, written from position `p` on.
  function EncodeAll(crc: Checksum, p: nat, records: seq<Bytes>): Bytes
    decreases |records|
  {
    if records == [] then [] else
      var head := Encode(crc, p, records[0], true);
      head + EncodeAll(crc, p + |head|, records[1..])
  }

  datatype Token =
    | Eof(next: nat)
    | Bad(next: nat, dropped: seq<nat>)
    | Fragment(next: nat, kind: Byte, data: Bytes)

  // End of the part of the block at `p` that the file has.
  function BlockEnd(file: Bytes, p: nat): (e: nat)
    requires p <= |file|
    ensures p <= e <= |file|
  {
    if p + Leftover(p) <= |file| then p + Leftover(p) else |file|
  }

  /** The fragment whose header starts `b`, the unread part of a block from position `p` on. `whole` says
      that the file has the block to its end. */
  function ParseFragment(crc: Checksum, b: Bytes, whole: bool, p: nat): (t: Token)
    requires |b| >= HEADER_SIZE
    ensures p + HEADER_SIZE <= t.next <= p + |b|
  {
    var end := p + |b|;
    var low: int, high: int := b[4], b[5];
    var kind, length := b[6], low + 256 * high;
    if HEADER_SIZE + length > |b| then
      if whole then Bad(end, [|b|]) else Eof(end)
    else if kind == 0 && length == 0 then
      Bad(end, [])
    else if Unmask(DecodeFixed32(b)) != crc(b[6..HEADER_SIZE + length]) then
      Bad(end, [|b|])
    else
      Fragment(p + HEADER_SIZE + length, kind, b[HEADER_SIZE..HEADER_SIZE + length])
  }

  /** ReadPhysicalRecord, with `p` bytes of the file consumed: the next fragment, end of file, or the rest
      of a block dropped, with the byte counts reported. */
  function ReadPhysical(crc: Checksum, file: Bytes, p: nat): (t: Token)
    requires p <= |file|
    ensures p <= t.next <= |file|
    ensures t.Bad? || t.Fragment? ==> t.next >= p + HEADER_SIZE
    decreases |file| - p
  {
    var end := BlockEnd(file, p);
    var whole := p + Leftover(p) <= |file|;
    if end - p < HEADER_SIZE then
      if whole then ReadPhysical(crc, file, end) else Eof(end)
    else
      ParseFragment(crc, file[p..end], whole, p)
  }

  // Either the call is over, with a record or none, or `result` is the new scratch buffer.
  datatype Progress = Progress(done: bool, result: Option<Bytes>, dropped: seq<nat>)

  function Size(scratch: Option<Bytes>): nat {
    if scratch.Some? then |scratch.value| else 0
  }

  function Partial(scratch: Option<Bytes>): seq<nat> {
    if Size(scratch) > 0 then [Size(scratch)] else []
  }

  function Broken(scratch: Option<Bytes>): seq<nat> {
    if scratch.Some? then [|scratch.value|] else []
  }

  // What ReadRecord does with one physical record.
  function Assemble(t: Token, scratch: Option<Bytes>): Progress {
    match t
    case Eof(next) => Progress(true, None, [])
    case Bad(next, dropped) => Progress(false, None, dropped + Broken(scratch))
    case Fragment(next, kind, data) =>
      if kind == EOF_TYPE then Progress(true, None, [])
      else if kind == BAD_TYPE then Progress(false, None, Broken(scratch))
      else if kind == FULL_TYPE then Progress(true, Some(data), Partial(scratch))
      else if kind == FIRST_TYPE then Progress(false, Some(data), Partial(scratch))
      else if kind != MIDDLE_TYPE && kind != LAST_TYPE then Progress(false, None, [|data| + Size(scratch)])
      else if scratch.None? then Progress(false, None, [|data|])
      else Progress(kind == LAST_TYPE, Some(scratch.value + data), [])
  }

  datatype Outcome = Outcome(record: Option<Bytes>, next: nat, dropped: seq<nat>)

  function After(dropped: seq<nat>, o: Outcome): (r: Outcome)
    ensures r.record == o.record && r.next == o.next
  {
    o.(dropped := dropped + o.dropped)
  }

  lemma {:induction false} AfterTwice(a: seq<nat>, b: seq<nat>, o: Outcome)
    ensures After(a, After(b, o)) == After(a + b, o)
    ensures After([], o) == o
  {
    assert a + (b + o.dropped) == (a + b) + o.dropped;
    assert [] + o.dropped == o.dropped;
  }

  /** ReadRecord from position `p`; `scratch` holds the fragments of the record being put together. */
  function ReadLogical(crc: Checksum, file: Bytes, p: nat, scratch: Option<Bytes>): (o: Outcome)
    requires p <= |file|
    ensures p <= o.next <= |file|
    ensures o.record.Some? ==> o.next > p
    decreases |file| - p
  {
    var t := ReadPhysical(crc, file, p);
    var s := Assemble(t, scratch);
    if s.done then Outcome(s.result, t.next, s.dropped)
    else After(s.dropped, ReadLogical(crc, file, t.next, s.result))
  }

  datatype Replay = Replay(records: seq<Bytes>, dropped: seq<nat>)

  /** What a caller that reads until the end gets. */
  function ReadAll(crc: Checksum, file: Bytes, p: nat): Replay
    requires p <= |file|
    decreases |file| - p
  {
    var o := ReadLogical(crc, file, p, None);
    match o.record
    case None => Replay([], o.dropped)
    case Some(data) =>
      var rest := ReadAll(crc, file, o.next);
      Replay([data] + rest.records, o.dropped + rest.dropped)
  }

  // ------------------------------------------------------------------------------------------
  // Reading back what was written, from a file that holds a prefix of it

  // `whole` has `part` at position `p`.
  ghost predicate HoldsAt(whole: Bytes, p: nat, part: Bytes) {
    p + |part| <= |whole| && whole[p..p + |part|] == part
  }

  lemma {:induction false} HoldsSplit(whole: Bytes, p: nat, a: Bytes, b: Bytes)
    requires HoldsAt(whole, p, a + b)
    ensures HoldsAt(whole, p, a) && HoldsAt(whole, p + |a|, b)
  {
    var both := whole[p..p + |a + b|];
    assert both[..|a|] == a && both[|a|..] == b;
  }

  lemma {:induction false} PhysicalFields(crc: Checksum, t: Byte, data: Bytes, whole: Bytes, p: nat)
    requires |data| <= 0xffff && HoldsAt(whole, p, Physical(crc, t, data))
    ensures whole[p + 4] == |data| % 256 && whole[p + 5] == |data| / 256 && whole[p + 6] == t
    ensures Unmask(DecodeFixed32(whole[p..p + 4])) == crc([t] + data)
    ensures whole[p + 6..p + HEADER_SIZE + |data|] == [t] + data
    ensures whole[p + HEADER_SIZE..p + HEADER_SIZE + |data|] == data
  {
    var sum := Fixed32(Mask(crc([t] + data)));
    var lengths := [|data| % 256, |data| / 256];
    var r := Physical(crc, t, data);
    assert r == sum + lengths + ([t] + data);
    HoldsSplit(whole, p, sum + lengths, [t] + data);
    HoldsSplit(whole, p, sum, lengths);
    HoldsSplit(whole, p + 6, [t], data);
    assert whole[p + 4..p + 6] == lengths;
    assert whole[p + 6..p + 7] == [t];
    assert sum + [] == sum;
    Fixed32RoundTrip(Mask(crc([t] + data)), []);
    UnmaskMask(crc([t] + data));
  }

  lemma {:induction false} ParsesFragment(crc: Checksum, b: Bytes, whole: bool, p: nat, t: Byte, data: Bytes)
    requires |data| <= 0xffff && t != 0 && HoldsAt(b, 0, Physical(crc, t, data))
    ensures ParseFragment(crc, b, whole, p) == Fragment(p + HEADER_SIZE + |data|, t, data)
  {
    PhysicalFields(crc, t, data, b, 0);
    hide HoldsAt, Physical, Unmask;
    assert DecodeFixed32(b) == DecodeFixed32(b[0..4]);
  }

  lemma {:induction false} ParsesTruncated(crc: Checksum, b: Bytes, p: nat, t: Byte, data: Bytes)
    requires |data| <= 0xffff && HEADER_SIZE <= |b| < HEADER_SIZE + |data| && b == Physical(crc, t, data)[..|b|]
    ensures ParseFragment(crc, b, false, p) == Eof(p + |b|)
  {
    var r := Physical(crc, t, data);
    assert HoldsAt(r, 0, r);
    PhysicalFields(crc, t, data, r, 0);
    hide HoldsAt, Physical, Unmask;
    assert b[4] == r[4] && b[5] == r[5];
  }

  // A fragment that fits its block is read back, if the file has all of it; if not, the file just ends.
  lemma {:induction false} FragmentReadsBack(crc: Checksum, whole: Bytes, n: nat, p: nat, t: Byte, data: Bytes)
    requires p <= n <= |whole| && t != 0
    requires HEADER_SIZE + |data| <= Leftover(p) && HoldsAt(whole, p, Physical(crc, t, data))
    ensures
      var e := p + HEADER_SIZE + |data|;
      ReadPhysical(crc, whole[..n], p) == if e <= n then Fragment(e, t, data) else Eof(n)
  {
    hide Physical, ParseFragment, Leftover;
    var file, e := whole[..n], p + HEADER_SIZE + |data|;
    var end := BlockEnd(file, p);
    var b, r := file[p..end], Physical(crc, t, data);
    if e <= n {
      assert e <= end;
      assert b == whole[p..end];
      assert b[..|r|] == whole[p..e];
      ParsesFragment(crc, b, p + Leftover(p) <= n, p, t, data);
    } else if p + HEADER_SIZE <= n {
      assert end == n < p + Leftover(p);
      assert b == whole[p..n];
      assert b == whole[p..e][..n - p];
      ParsesTruncated(crc, b, p, t, data);
    }
  }

  // The writer never leaves a block's last bytes ambiguous: a short trailer is skipped.
  lemma {:induction false} TrailerSkipped(crc: Checksum, file: Bytes, p: nat)
    requires p <= |file| && Leftover(p) < HEADER_SIZE
    ensures ReadPhysical(crc, file, p)
         == if p + Leftover(p) <= |file| then ReadPhysical(crc, file, p + Leftover(p)) else Eof(|file|)
  {
  }

  lemma {:induction false} SkippedTrailerReads(crc: Checksum, file: Bytes, p: nat, scratch: Option<Bytes>)
    requires p <= |file| && Leftover(p) < HEADER_SIZE
    ensures ReadLogical(crc, file, p, scratch)
         == if p + Leftover(p) <= |file| then ReadLogical(crc, file, p + Leftover(p), scratch) else Outcome(None, |file|, [])
  {
    TrailerSkipped(crc, file, p);
  }

  function Prefix(scratch: Option<Bytes>): Bytes {
    if scratch.Some? then scratch.value else []
  }

  // The rest `data` of a record was written at `p`, and reading it resumes with `scratch`.
  ghost predicate WrittenAt(crc: Checksum, whole: Bytes, n: nat, p: nat, data: Bytes, scratch: Option<Bytes>) {
    p <= n <= |whole| && HoldsAt(whole, p, Encode(crc, p, data, scratch.None?))
  }

  // It is read back whole when the file has all its bytes, and not at all, without a complaint, when not.
  ghost predicate ReadsBack(crc: Checksum, whole: Bytes, n: nat, p: nat, data: Bytes, scratch: Option<Bytes>)
    requires p <= n <= |whole|
  {
    var e := p + |Encode(crc, p, data, scratch.None?)|;
    ReadLogical(crc, whole[..n], p, scratch) == if e <= n then Outcome(Some(Prefix(scratch) + data), e, []) else Outcome(None, n, [])
  }

  lemma {:induction false} RecordReadsBack(crc: Checksum, whole: Bytes, n: nat, p: nat, data: Bytes, scratch: Option<Bytes>)
    requires WrittenAt(crc, whole, n, p, data, scratch)
    ensures ReadsBack(crc, whole, n, p, data, scratch)
    decreases |data|, if Leftover(p) <= HEADER_SIZE then 1 else 0
  {
    hide Encode, ReadLogical, ReadPhysical, HoldsAt, Leftover;
    if Leftover(p) < HEADER_SIZE {
      var q := p + Leftover(p);
      Advance(p, Leftover(p));
      TrailerHeld(crc, whole, n, p, data, scratch);
      SkippedTrailerReads(crc, whole[..n], p, scratch);
      if q <= n {
        RecordReadsBack(crc, whole, n, q, data, scratch);
      }
    } else {
      var k := FragmentSize(p, |data|);
      if k == |data| {
        LastFragment(crc, whole, n, p, data, scratch);
      } else {
        var q := p + HEADER_SIZE + k;
        var scratch' := Some(Prefix(scratch) + data[..k]);
        FirstFragmentHeld(crc, whole, n, p, data, scratch);
        NextMeasure(p, |data|);
        FragmentReads(crc, whole, n, p, data[..k], scratch);
        if q <= n {
          RecordReadsBack(crc, whole, n, q, data[k..], scratch');
          assert Prefix(scratch') + data[k..] == Prefix(scratch) + data;
        }
      }
    }
  }

  lemma {:induction false} NextMeasure(p: nat, left: nat)
    requires Leftover(p) >= HEADER_SIZE
    ensures FragmentSize(p, left) <= left
    ensures FragmentSize(p, left) == 0 < left ==> Leftover(p) == HEADER_SIZE && Leftover(p + HEADER_SIZE) == BLOCK_SIZE
  {
  }

  lemma {:induction false} TrailerEncoded(crc: Checksum, p: nat, left: Bytes, begin: bool)
    requires Leftover(p) < HEADER_SIZE
    ensures Encode(crc, p, left, begin) == Zeros(Leftover(p)) + Encode(crc, p + Leftover(p), left, begin)
  {
    hide Leftover, Zeros, Physical;
  }

  lemma {:induction false} TrailerHeld(crc: Checksum, whole: Bytes, n: nat, p: nat, data: Bytes, scratch: Option<Bytes>)
    requires WrittenAt(crc, whole, n, p, data, scratch) && Leftover(p) < HEADER_SIZE
    ensures
      var q := p + Leftover(p);
      && |Encode(crc, p, data, scratch.None?)| == Leftover(p) + |Encode(crc, q, data, scratch.None?)|
      && HoldsAt(whole, q, Encode(crc, q, data, scratch.None?))
  {
    hide Encode, Leftover, Zeros, HoldsAt;
    var q := p + Leftover(p);
    TrailerEncoded(crc, p, data, scratch.None?);
    HoldsSplit(whole, p, Zeros(Leftover(p)), Encode(crc, q, data, scratch.None?));
  }

  lemma {:induction false} LastFragment(crc: Checksum, whole: Bytes, n: nat, p: nat, data: Bytes, scratch: Option<Bytes>)
    requires WrittenAt(crc, whole, n, p, data, scratch)
    requires Leftover(p) >= HEADER_SIZE && FragmentSize(p, |data|) == |data|
    ensures ReadsBack(crc, whole, n, p, data, scratch)
  {
    assert data[..|data|] == data;
    FragmentReadsBack(crc, whole, n, p, RecordType(scratch.None?, true), data);
    assert [] + data == data;
  }

  lemma {:induction false} FirstFragmentHeld(crc: Checksum, whole: Bytes, n: nat, p: nat, data: Bytes, scratch: Option<Bytes>)
    requires WrittenAt(crc, whole, n, p, data, scratch)
    requires Leftover(p) >= HEADER_SIZE && FragmentSize(p, |data|) < |data|
    ensures
      var k := FragmentSize(p, |data|);
      var q := p + HEADER_SIZE + k;
      && |Encode(crc, p, data, scratch.None?)| == HEADER_SIZE + k + |Encode(crc, q, data[k..], false)|
      && HoldsAt(whole, p, Physical(crc, RecordType(scratch.None?, false), data[..k]))
      && HoldsAt(whole, q, Encode(crc, q, data[k..], false))
  {
    var k := FragmentSize(p, |data|);
    var head := Physical(crc, RecordType(scratch.None?, false), data[..k]);
    HoldsSplit(whole, p, head, Encode(crc, p + |head|, data[k..], false));
  }

  lemma {:induction false} ReadStep(crc: Checksum, file: Bytes, p: nat, scratch: Option<Bytes>)
    requires p <= |file|
    ensures
      var t := ReadPhysical(crc, file, p);
      var s := Assemble(t, scratch);
      ReadLogical(crc, file, p, scratch) ==
        if s.done then Outcome(s.result, t.next, s.dropped) else After(s.dropped, ReadLogical(crc, file, t.next, s.result))
  {
    hide ReadPhysical, Assemble;
  }

  // A fragment that does not end its record is put in the scratch buffer.
  lemma {:induction false} FragmentReads(crc: Checksum, whole: Bytes, n: nat, p: nat, part: Bytes, scratch: Option<Bytes>)
    requires p <= n <= |whole| && HEADER_SIZE + |part| <= Leftover(p)
    requires HoldsAt(whole, p, Physical(crc, RecordType(scratch.None?, false), part))
    ensures
      var q := p + HEADER_SIZE + |part|;
      ReadLogical(crc, whole[..n], p, scratch)
        == if q <= n then ReadLogical(crc, whole[..n], q, Some(Prefix(scratch) + part)) else Outcome(None, n, [])
  {
    hide ReadPhysical, ReadLogical, HoldsAt, Physical, Leftover;
    FragmentReadsBack(crc, whole, n, p, RecordType(scratch.None?, false), part);
    ReadStep(crc, whole[..n], p, scratch);
    assert [] + part == part;
    if p + HEADER_SIZE + |part| <= n {
      AfterTwice([], [], ReadLogical(crc, whole[..n], p + HEADER_SIZE + |part|, Some(Prefix(scratch) + part)));
    }
  }

  // Number of records whose bytes all lie in the first `n` bytes of the file.
  function Complete(crc: Checksum, p: nat, records: seq<Bytes>, n: nat): (k: nat)
    ensures k <= |records|
    decreases |records|
  {
    if records == [] then 0 else
      var e := p + |Encode(crc, p, records[0], true)|;
      if e <= n then 1 + Complete(crc, e, records[1..], n) else 0
  }

  lemma {:induction false} CompleteAll(crc: Checksum, p: nat, records: seq<Bytes>)
    ensures Complete(crc, p, records, p + |EncodeAll(crc, p, records)|) == |records|
    decreases |records|
  {
    hide Encode;
    if records != [] {
      CompleteAll(crc, p + |Encode(crc, p, records[0], true)|, records[1..]);
    }
  }

  // Complete is the largest number of records that fit.
  lemma {:induction false} CompleteIsLargest(crc: Checksum, p: nat, records: seq<Bytes>, n: nat, k: nat)
    requires k <= |records| && p <= n
    ensures k <= Complete(crc, p, records, n) <==> p + |EncodeAll(crc, p, records[..k])| <= n
    decreases |records|
  {
    hide Encode;
    if k > 0 {
      var e := p + |Encode(crc, p, records[0], true)|;
      assert records[..k][1..] == records[1..][..k - 1];
      if e <= n {
        CompleteIsLargest(crc, e, records[1..], n, k - 1);
      }
    }
  }

  /** Crash recovery: a log that was cut off anywhere gives back the records it holds completely, and
      reports no corruption. */
  lemma {:induction false} ReadsBackPrefix(crc: Checksum, whole: Bytes, n: nat, p: nat, records: seq<Bytes>)
    requires p <= n <= |whole| && HoldsAt(whole, p, EncodeAll(crc, p, records)) && |whole| == p + |EncodeAll(crc, p, records)|
    ensures ReadAll(crc, whole[..n], p) == Replay(records[..Complete(crc, p, records, n)], [])
    decreases |records|
  {
    hide Encode, ReadLogical, ReadAll, HoldsAt;
    if records == [] {
      NothingLeft(crc, whole[..n], p);
    } else {
      var head := Encode(crc, p, records[0], true);
      HoldsSplit(whole, p, head, EncodeAll(crc, p + |head|, records[1..]));
      RecordReadsBack(crc, whole, n, p, records[0], None);
      assert Prefix(None) + records[0] == records[0];
      ReadAllStep(crc, whole[..n], p);
      if p + |head| <= n {
        var k := Complete(crc, p + |head|, records[1..], n);
        ReadsBackPrefix(crc, whole, n, p + |head|, records[1..]);
        assert [records[0]] + records[1..][..k] == records[..k + 1];
      }
    }
  }

  lemma {:induction false} ReadAllStep(crc: Checksum, file: Bytes, p: nat)
    requires p <= |file| && ReadLogical(crc, file, p, None).dropped == []
    ensures
      var o := ReadLogical(crc, file, p, None);
      ReadAll(crc, file, p) ==
        if o.record.None? then Replay([], []) else Replay([o.record.value] + ReadAll(crc, file, o.next).records, ReadAll(crc, file, o.next).dropped)
  {
    hide ReadLogical;
    var o := ReadLogical(crc, file, p, None);
    if o.record.Some? {
      assert [] + ReadAll(crc, file, o.next).dropped == ReadAll(crc, file, o.next).dropped;
    }
  }

  lemma {:induction false} NothingLeft(crc: Checksum, file: Bytes, p: nat)
    requires p == |file|
    ensures ReadAll(crc, file, p) == Replay([], [])
  {
    assert ReadPhysical(crc, file, p) == Eof(p);
  }

  lemma {:induction false} CrashPrefix(crc: Checksum, records: seq<Bytes>, n: nat)
    requires n <= |EncodeAll(crc, 0, records)|
    ensures ReadAll(crc, EncodeAll(crc, 0, records)[..n], 0) == Replay(records[..Complete(crc, 0, records, n)], [])
  {
    var whole := EncodeAll(crc, 0, records);
    assert HoldsAt(whole, 0, EncodeAll(crc, 0, records));
    hide EncodeAll, Encode, ReadAll, HoldsAt;
    ReadsBackPrefix(crc, whole, n, 0, records);
  }

  /** Everything that was written is read back, whatever the records' lengths. */
  lemma {:induction false} LogRoundTrip(crc: Checksum, records: seq<Bytes>)
    ensures ReadAll(crc, EncodeAll(crc, 0, records), 0) == Replay(records, [])
  {
    hide EncodeAll, Encode, ReadAll, Complete;
    var whole := EncodeAll(crc, 0, records);
    CompleteAll(crc, 0, records);
    CrashPrefix(crc, records, |whole|);
    assert whole[..|whole|] == whole;
    assert records[..|records|] == records;
  }
}
