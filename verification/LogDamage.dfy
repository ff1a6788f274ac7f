/** What the log reader (db/log_reader.cc) does with a file of arbitrary bytes, said of the fragments that a
    writer would have written (db/log_writer.cc). */
module LogDamage {
  import opened Coding
  import opened Options
  import opened Crc32c
  import opened LogFormat

  // ------------------------------------------------------------------------------------------
  // Which fragments are read

  // Where a fragment that comes at `p` starts: a short trailer holds none.
  function Start(p: nat): (s: nat)
    ensures p <= s && Leftover(s) >= HEADER_SIZE
  {
    if Leftover(p) < HEADER_SIZE then p + Leftover(p) else p
  }

  // The file has, at `s` and inside one block, the fragment that a writer writes for `kind` and `data`.
  ghost predicate IntactAt(crc: Checksum, file: Bytes, s: nat, kind: Byte, data: Bytes) {
    && |data| <= 0xffff
    && HEADER_SIZE + |data| <= Leftover(s)
    && HoldsAt(file, s, Physical(crc, kind, data))
  }

  lemma {:induction false} PartOf(file: Bytes, p: nat, end: nat, k: nat)
    requires p <= end <= |file| && k <= end - p
    ensures file[p..end][..k] == file[p..p + k]
  {
  }

  lemma {:induction false} ParsedBytes(crc: Checksum, b: Bytes, whole: bool, p: nat)
    requires |b| >= HEADER_SIZE && ParseFragment(crc, b, whole, p).Fragment?
    ensures
      var t := ParseFragment(crc, b, whole, p);
      && |t.data| <= 0xffff
      && t.next == p + HEADER_SIZE + |t.data| <= p + |b|
      && b[..HEADER_SIZE + |t.data|] == Physical(crc, t.kind, t.data)
  {
    var t := ParseFragment(crc, b, whole, p);
    var low: int, high: int := b[4], b[5];
    var n := |t.data|;
    LowByte(low, high);
    assert n == low + 256 * high;
    assert b[6..HEADER_SIZE + n] == [t.kind] + t.data;
    var sum := b[..4];
    SumBytes(crc, b, [t.kind] + t.data);
    hide Unmask, Mask, Fixed32, DecodeFixed32;
    assert b[4..7] == [n % 256, n / 256, t.kind];
    assert b[..HEADER_SIZE + n] == sum + b[4..7] + b[7..HEADER_SIZE + n];
  }

  /** Whatever the file's bytes are, a fragment that is read is one that a writer would have written there:
      its checksum, length and type are in front of its data, and it lies in one block. */
  lemma {:induction false} ReadIsIntact(crc: Checksum, file: Bytes, p: nat)
    requires p <= |file| && ReadPhysical(crc, file, p).Fragment?
    ensures
      var t := ReadPhysical(crc, file, p);
      IntactAt(crc, file, Start(p), t.kind, t.data) && t.next == Start(p) + HEADER_SIZE + |t.data|
    decreases |file| - p
  {
    hide ParseFragment, Physical, Leftover;
    var end := BlockEnd(file, p);
    var whole := p + Leftover(p) <= |file|;
    if end - p < HEADER_SIZE {
      assert whole;
      Advance(p, Leftover(p));
      ReadIsIntact(crc, file, end);
    } else {
      var t := ParseFragment(crc, file[p..end], whole, p);
      ParsedBytes(crc, file[p..end], whole, p);
      PartOf(file, p, end, HEADER_SIZE + |t.data|);
    }
  }

  /** The other way round: an intact fragment is read, wherever it is met. */
  lemma {:induction false} IntactIsRead(crc: Checksum, file: Bytes, p: nat, kind: Byte, data: Bytes)
    requires p <= |file| && kind != 0 && IntactAt(crc, file, Start(p), kind, data)
    ensures ReadPhysical(crc, file, p) == Fragment(Start(p) + HEADER_SIZE + |data|, kind, data)
  {
    hide ReadPhysical, ParseFragment, Physical, Leftover, HoldsAt;
    Held(file, Start(p), Physical(crc, kind, data));
    if Leftover(p) < HEADER_SIZE {
      TrailerSkipped(crc, file, p);
    }
    assert file[..|file|] == file;
    FragmentReadsBack(crc, file, |file|, Start(p), kind, data);
  }

  lemma {:induction false} Held(whole: Bytes, p: nat, part: Bytes)
    requires HoldsAt(whole, p, part)
    ensures p + |part| <= |whole|
  {
  }

  // ------------------------------------------------------------------------------------------
  // Which records are read

  /** From `p` on the file has the fragments of a record with the bytes `data`, one right after the other up
      to `end`, with the types that a writer gives them; without the first ones, unless `begin`. */
  ghost predicate RecordAt(crc: Checksum, file: Bytes, p: nat, data: Bytes, begin: bool, end: nat)
    decreases if p <= |file| then |file| - p + 1 else 0
  {
    var s := Start(p);
    || (end == s + HEADER_SIZE + |data| && IntactAt(crc, file, s, RecordType(begin, true), data))
    || (exists k | 0 <= k <= |data| :: MoreAt(crc, file, s, data, begin, k) && RecordAt(crc, file, s + HEADER_SIZE + k, data[k..], false, end))
  }

  // The first `k` bytes are in a fragment that does not end its record.
  ghost predicate MoreAt(crc: Checksum, file: Bytes, s: nat, data: Bytes, begin: bool, k: nat)
    ensures MoreAt(crc, file, s, data, begin, k) ==> s + HEADER_SIZE + k <= |file|
  {
    k <= |data| && IntactAt(crc, file, s, RecordType(begin, false), data[..k])
  }

  // `whole` is what the scratch buffer holds, and `rest`.
  ghost predicate Extends(whole: Bytes, scratch: Option<Bytes>, rest: Bytes) {
    whole == Prefix(scratch) + rest
  }

  // The record `data` that ends at `end` was begun before `p`, or lies at or after `p`.
  ghost predicate FoundFrom(crc: Checksum, file: Bytes, p: nat, scratch: Option<Bytes>, data: Bytes, end: nat) {
    || (scratch.Some? && exists rest :: Extends(data, scratch, rest) && RecordAt(crc, file, p, rest, false, end))
    || (exists q :: p <= q && RecordAt(crc, file, q, data, true, end))
  }

  lemma {:induction false} Found(crc: Checksum, file: Bytes, p: nat, scratch: Option<Bytes>, data: Bytes)
    requires p <= |file| && ReadLogical(crc, file, p, scratch).record == Some(data)
    ensures FoundFrom(crc, file, p, scratch, data, ReadLogical(crc, file, p, scratch).next)
    decreases |file| - p
  {
    hide ReadPhysical, ReadLogical, IntactAt;
    ReadStep(crc, file, p, scratch);
    var t := ReadPhysical(crc, file, p);
    var s := Assemble(t, scratch);
    var end := ReadLogical(crc, file, p, scratch).next;
    if t.Fragment? {
      ReadIsIntact(crc, file, p);
    }
    if s.done {
      if t.kind == FULL_TYPE {
        assert RecordAt(crc, file, p, data, true, end);
      } else {
        assert Extends(data, scratch, t.data) && RecordAt(crc, file, p, t.data, false, end);
      }
    } else {
      Found(crc, file, t.next, s.result, data);
      if rest :| s.result.Some? && Extends(data, s.result, rest) && RecordAt(crc, file, t.next, rest, false, end) {
        Joined(crc, file, p, t, scratch, data, rest, end);
      }
    }
  }

  // A fragment that does not end its record goes in front of the rest of it.
  lemma {:induction false} Prolonged(crc: Checksum, file: Bytes, p: nat, part: Bytes, rest: Bytes, begin: bool, end: nat)
    requires IntactAt(crc, file, Start(p), RecordType(begin, false), part)
    requires RecordAt(crc, file, Start(p) + HEADER_SIZE + |part|, rest, false, end)
    ensures RecordAt(crc, file, p, part + rest, begin, end)
  {
    hide IntactAt;
    var k := |part|;
    assert (part + rest)[..k] == part && (part + rest)[k..] == rest;
    assert MoreAt(crc, file, Start(p), part + rest, begin, k) by {
      Cut(crc, file, Start(p), part + rest, begin, k);
    }
  }

  lemma {:induction false} Cut(crc: Checksum, file: Bytes, s: nat, all: Bytes, begin: bool, k: nat)
    requires k <= |all| && IntactAt(crc, file, s, RecordType(begin, false), all[..k])
    ensures MoreAt(crc, file, s, all, begin, k)
  {
  }

  lemma {:induction false} Joined(crc: Checksum, file: Bytes, p: nat, t: Token, scratch: Option<Bytes>, data: Bytes, rest: Bytes, end: nat)
    requires t.Fragment? && IntactAt(crc, file, Start(p), t.kind, t.data) && t.next == Start(p) + HEADER_SIZE + |t.data|
    requires !Assemble(t, scratch).done && Assemble(t, scratch).result.Some?
    requires Extends(data, Assemble(t, scratch).result, rest) && RecordAt(crc, file, t.next, rest, false, end)
    ensures FoundFrom(crc, file, p, scratch, data, end)
  {
    hide IntactAt, RecordAt;
    var all := t.data + rest;
    Prolonged(crc, file, p, t.data, rest, t.kind == FIRST_TYPE, end);
    if t.kind == FIRST_TYPE {
      assert data == all;
    } else {
      assert data == Prefix(scratch) + t.data + rest;
      assert Extends(data, scratch, all);
    }
  }

  /** No corruption is ever read: a record that comes back, out of whatever bytes, is an unbroken run of
      fragments with good checksums, from one that begins a record to one that ends it. Fragments before
      damage never join those behind it. */
  lemma {:induction false} RecordIsUnbroken(crc: Checksum, file: Bytes, p: nat, data: Bytes)
    requires p <= |file| && ReadLogical(crc, file, p, None).record == Some(data)
    ensures exists q :: p <= q && RecordAt(crc, file, q, data, true, ReadLogical(crc, file, p, None).next)
  {
    hide ReadLogical, RecordAt;
    Found(crc, file, p, None, data);
  }

  // The first fragment of the record, and whether it is the last one.
  lemma {:induction false} FirstOf(crc: Checksum, file: Bytes, p: nat, data: Bytes, begin: bool, end: nat) returns (last: bool, k: nat)
    requires p <= |file| && RecordAt(crc, file, p, data, begin, end)
    ensures last ==> end == Start(p) + HEADER_SIZE + |data| && ReadPhysical(crc, file, p) == Fragment(end, RecordType(begin, true), data)
    ensures !last ==>
      var q := Start(p) + HEADER_SIZE + k;
      && k <= |data| && q <= |file|
      && ReadPhysical(crc, file, p) == Fragment(q, RecordType(begin, false), data[..k])
      && RecordAt(crc, file, q, data[k..], false, end)
  {
    hide ReadPhysical, IntactAt;
    var s := Start(p);
    last := end == s + HEADER_SIZE + |data| && IntactAt(crc, file, s, RecordType(begin, true), data);
    if last {
      k := |data|;
      IntactIsRead(crc, file, p, RecordType(begin, true), data);
    } else {
      k :| 0 <= k <= |data| && MoreAt(crc, file, s, data, begin, k) && RecordAt(crc, file, s + HEADER_SIZE + k, data[k..], false, end);
      MoreIsRead(crc, file, p, data, begin, k);
    }
  }

  lemma {:induction false} MoreIsRead(crc: Checksum, file: Bytes, p: nat, data: Bytes, begin: bool, k: nat)
    requires p <= |file| && k <= |data| && MoreAt(crc, file, Start(p), data, begin, k)
    ensures ReadPhysical(crc, file, p) == Fragment(Start(p) + HEADER_SIZE + k, RecordType(begin, false), data[..k])
  {
    hide ReadPhysical;
    IntactIsRead(crc, file, p, RecordType(begin, false), data[..k]);
  }

  lemma {:induction false} RestIsRead(crc: Checksum, file: Bytes, p: nat, data: Bytes, end: nat, before: Bytes)
    requires p <= |file| && RecordAt(crc, file, p, data, false, end)
    ensures ReadLogical(crc, file, p, Some(before)) == Outcome(Some(before + data), end, [])
    decreases |file| - p
  {
    hide ReadLogical, ReadPhysical, RecordAt;
    ReadStep(crc, file, p, Some(before));
    var last, k := FirstOf(crc, file, p, data, false, end);
    if !last {
      RestIsRead(crc, file, Start(p) + HEADER_SIZE + k, data[k..], end, before + data[..k]);
      assert before + data[..k] + data[k..] == before + data;
    }
  }

  /** And none is overlooked: where the reader meets an unbroken run, it returns it, and reports just what it
      had of a record without an end. */
  lemma {:induction false} UnbrokenIsRead(crc: Checksum, file: Bytes, p: nat, data: Bytes, end: nat, scratch: Option<Bytes>)
    requires p <= |file| && RecordAt(crc, file, p, data, true, end)
    ensures ReadLogical(crc, file, p, scratch) == Outcome(Some(data), end, Partial(scratch))
  {
    hide ReadLogical, ReadPhysical, RecordAt;
    ReadStep(crc, file, p, scratch);
    var last, k := FirstOf(crc, file, p, data, true, end);
    if !last {
      RestIsRead(crc, file, Start(p) + HEADER_SIZE + k, data[k..], end, data[..k]);
      assert data[..k] + data[k..] == data;
      assert Partial(scratch) + [] == Partial(scratch);
    }
  }

  // ------------------------------------------------------------------------------------------
  // Damage ends with its block

  // No intact fragment has the type that the reader takes for the end of the file.
  ghost predicate NoFalseEnd(crc: Checksum, file: Bytes) {
    forall s, data :: !IntactAt(crc, file, s, EOF_TYPE, data)
  }

  // What a caller that reads until the end gets when reading starts at `p` with `scratch`.
  function ReadOn(crc: Checksum, file: Bytes, p: nat, scratch: Option<Bytes>): seq<Bytes>
    requires p <= |file|
  {
    var o := ReadLogical(crc, file, p, scratch);
    if o.record.None? then [] else [o.record.value] + ReadAll(crc, file, o.next).records
  }

  ghost predicate EndsWith<T>(s: seq<T>, t: seq<T>) {
    |t| <= |s| && s[|s| - |t|..] == t
  }

  lemma {:induction false} BlockBoundary(p: nat, b: nat)
    requires p < b && b % BLOCK_SIZE == 0
    ensures p + Leftover(p) <= b
  {
    assert b == b / BLOCK_SIZE * BLOCK_SIZE;
    assert p == p / BLOCK_SIZE * BLOCK_SIZE + p % BLOCK_SIZE;
    assert p / BLOCK_SIZE < b / BLOCK_SIZE;
  }

  // Before a block boundary the file does not end, and nothing is read across the boundary.
  lemma {:induction false} StopsAtBoundary(crc: Checksum, file: Bytes, p: nat, b: nat)
    requires p < b <= |file| && b % BLOCK_SIZE == 0
    ensures
      || ReadPhysical(crc, file, p) == ReadPhysical(crc, file, b)
      || (!ReadPhysical(crc, file, p).Eof? && p < ReadPhysical(crc, file, p).next <= b)
    decreases |file| - p
  {
    hide ParseFragment, Leftover;
    BlockBoundary(p, b);
    var end := BlockEnd(file, p);
    if end - p < HEADER_SIZE {
      if end < b {
        StopsAtBoundary(crc, file, end, b);
      }
    } else {
      NotCutOff(crc, file[p..end], p);
    }
  }

  lemma {:induction false} NotCutOff(crc: Checksum, b: Bytes, p: nat)
    requires |b| >= HEADER_SIZE
    ensures !ParseFragment(crc, b, true, p).Eof?
  {
  }

  lemma {:induction false} Resyncs(crc: Checksum, file: Bytes, p: nat, scratch: Option<Bytes>, b: nat, data: Bytes, end: nat)
    requires p <= b <= |file| && b % BLOCK_SIZE == 0
    requires RecordAt(crc, file, b, data, true, end) && NoFalseEnd(crc, file)
    ensures EndsWith(ReadOn(crc, file, p, scratch), ReadOn(crc, file, b, None))
    decreases b - p
  {
    hide ReadLogical, ReadPhysical, IntactAt, RecordAt, NoFalseEnd, ReadAll;
    var t := ReadPhysical(crc, file, p);
    UnbrokenIsRead(crc, file, b, data, end, None);
    UnbrokenIsRead(crc, file, b, data, end, scratch);
    if p < b {
      StopsAtBoundary(crc, file, p, b);
      ReadStep(crc, file, p, scratch);
      ReadStep(crc, file, b, scratch);
      if t != ReadPhysical(crc, file, b) {
        var s := Assemble(t, scratch);
        NotAnEnd(crc, file, p, scratch);
        Resyncs(crc, file, t.next, if s.done then None else s.result, b, data, end);
        if s.done {
          ReadAllIsReadOn(crc, file, t.next);
          EndsWithLonger(s.result.value, ReadOn(crc, file, t.next, None), ReadOn(crc, file, b, None));
        }
      }
    }
  }

  lemma {:induction false} EndsWithLonger<T>(x: T, s: seq<T>, t: seq<T>)
    requires EndsWith(s, t)
    ensures EndsWith([x] + s, t)
  {
    assert ([x] + s)[|s| + 1 - |t|..] == s[|s| - |t|..];
  }

  lemma {:induction false} ReadAllIsReadOn(crc: Checksum, file: Bytes, p: nat)
    requires p <= |file|
    ensures ReadAll(crc, file, p).records == ReadOn(crc, file, p, None)
  {
    hide ReadLogical;
  }

  // A call that ends without a record has met the end of the file; `result` starts afresh after one with a record.
  lemma {:induction false} NotAnEnd(crc: Checksum, file: Bytes, p: nat, scratch: Option<Bytes>)
    requires p <= |file| && NoFalseEnd(crc, file) && !ReadPhysical(crc, file, p).Eof?
    ensures
      var s := Assemble(ReadPhysical(crc, file, p), scratch);
      s.done ==> s.result.Some?
  {
    hide ReadPhysical, IntactAt;
    if ReadPhysical(crc, file, p).Fragment? {
      ReadIsIntact(crc, file, p);
    }
  }

  /** Resynchronisation: whatever the bytes before a block boundary are, if a record begins there, then it and
      all that is read after it come back as if the file were read from that boundary on. The one way to stop
      the reader earlier is a fragment with a good checksum and the type it uses for the end of the file. */
  lemma {:induction false} DamageIsContained(crc: Checksum, file: Bytes, b: nat, data: Bytes, end: nat)
    requires b <= |file| && b % BLOCK_SIZE == 0
    requires RecordAt(crc, file, b, data, true, end) && NoFalseEnd(crc, file)
    ensures end <= |file|
    ensures EndsWith(ReadAll(crc, file, 0).records, [data] + ReadAll(crc, file, end).records)
  {
    hide ReadLogical, ReadPhysical, RecordAt, NoFalseEnd, ReadAll;
    UnbrokenIsRead(crc, file, b, data, end, None);
    Resyncs(crc, file, 0, None, b, data, end);
    ReadAllIsReadOn(crc, file, 0);
  }

  // ------------------------------------------------------------------------------------------
  // Every byte is accounted for

  function Sum(ns: seq<nat>): nat {
    if ns == [] then 0 else ns[0] + Sum(ns[1..])
  }

  lemma {:induction false} SumAppend(a: seq<nat>, b: seq<nat>)
    ensures Sum(a + b) == Sum(a) + Sum(b)
  {
    if a == [] {
      assert a + b == b;
    } else {
      assert (a + b)[1..] == a[1..] + b;
      SumAppend(a[1..], b);
    }
  }

  // Bytes that come with a token: a fragment's data, or what was given up of a block. A fragment whose type
  // is the reader's mark for a bad record is passed over in silence.
  function Weight(t: Token): nat {
    match t
    case Eof(_) => 0
    case Bad(_, dropped) => Sum(dropped)
    case Fragment(_, kind, data) => if kind == BAD_TYPE then 0 else |data|
  }

  // The bytes of the tokens that lie between `p` and `end`.
  function Between(crc: Checksum, file: Bytes, p: nat, end: nat): nat
    requires p <= |file|
    decreases |file| - p
  {
    var t := ReadPhysical(crc, file, p);
    if p >= end || t.Eof? then 0 else Weight(t) + Between(crc, file, t.next, end)
  }

  lemma {:induction false} AssembleKeeps(t: Token, scratch: Option<Bytes>)
    requires !t.Eof? && !(t.Fragment? && t.kind == EOF_TYPE)
    ensures
      var s := Assemble(t, scratch);
      Size(scratch) + Weight(t) == Size(s.result) + Sum(s.dropped)
  {
    if t.Bad? {
      SumAppend(t.dropped, Broken(scratch));
    }
  }

  /** Nothing disappears: the bytes of all fragments and broken blocks up to the end of a record are in the
      record or were reported, each once. */
  lemma {:induction false} ReportsAccount(crc: Checksum, file: Bytes, p: nat, scratch: Option<Bytes>)
    requires p <= |file| && ReadLogical(crc, file, p, scratch).record.Some?
    ensures
      var o := ReadLogical(crc, file, p, scratch);
      Size(scratch) + Between(crc, file, p, o.next) == |o.record.value| + Sum(o.dropped)
    decreases |file| - p
  {
    hide ReadPhysical, ReadLogical, Assemble, Weight;
    ReadStep(crc, file, p, scratch);
    var t := ReadPhysical(crc, file, p);
    var s := Assemble(t, scratch);
    EndsNothing(t, scratch);
    AssembleKeeps(t, scratch);
    if !s.done {
      var o := ReadLogical(crc, file, t.next, s.result);
      ReportsAccount(crc, file, t.next, s.result);
      SumAppend(s.dropped, o.dropped);
    }
  }

  lemma {:induction false} EndsNothing(t: Token, scratch: Option<Bytes>)
    ensures t.Eof? || (t.Fragment? && t.kind == EOF_TYPE) ==> Assemble(t, scratch).done && Assemble(t, scratch).result.None?
  {
  }
}
