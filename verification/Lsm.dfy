/** The database as a state machine (db/db_impl.cc, db/version_set.cc, db/snapshot.h).

    One step is one critical section under the mutex, or one insertion into the memtable by the
    writer at the head of the queue. There is one background thread; it runs at most one compaction
    at a time and may flush the immutable memtable in the middle of it. */
module Lsm {
  import opened Coding
  import opened Options
  import opened Keys
  import opened Store
  import opened FileSearch
  import opened InputSelection
  import opened CompactionPick
  import opened CompactionWork
  import opened VersionBuilder

  /** A compaction between the moment it picks its inputs and the moment it installs its outputs. */
  datatype Running = Running(pick: Pick, input: Version, snapshot: nat, merged: seq<Entry>)

  datatype Db = Db(
    history: seq<Entry>,      // every operation inserted so far: the flat reference
    allotted: nat,           // the last sequence number handed to a write
    lastSequence: nat,        // versions_->LastSequence(): what a new reader sees
    snapshots: seq<nat>,      // live snapshots, oldest first
    mem: seq<Entry>,
    imm: Option<seq<Entry>>,
    version: Version,
    nextFile: nat,
    compaction: Option<Running>)

  // The flat meaning of a read: scan the history backwards.
  function FlatRead(history: seq<Entry>, k: UserKey, s: nat): Option<Bytes> {
    if history == [] then None
    else
      var last := history[|history| - 1];
      if last.key.user == k && last.key.sequence <= s then Shown(last)
      else FlatRead(history[..|history| - 1], k, s)
  }

  // ---- Stored entries ----

  function ImmEntries(imm: Option<seq<Entry>>): seq<Entry> {
    if imm.Some? then imm.value else []
  }

  ghost predicate Holds(mem: seq<Entry>, imm: Option<seq<Entry>>, v: Version, e: Entry) {
    e in mem || e in ImmEntries(imm) || InVersion(v, e)
  }

  ghost function Stored(mem: seq<Entry>, imm: Option<seq<Entry>>, v: Version): iset<Entry> {
    iset e | Holds(mem, imm, v, e)
  }

  ghost function StoredEntries(db: Db): iset<Entry> {
    Stored(db.mem, db.imm, db.version)
  }

  ghost function HistoryEntries(history: seq<Entry>): iset<Entry> {
    iset e | e in history
  }

  // The oldest snapshot that a reader may still use.
  function MinLive(db: Db): nat {
    if db.snapshots == [] then db.lastSequence else db.snapshots[0]
  }

  // ---- Steps ----

  datatype Step =
    | Insert(kind: ValueType, key: UserKey, value: Bytes)
    | SkipNumbers(count: nat)          // a failed group still consumes its sequence numbers
    | Publish                          // SetLastSequence at the end of a group
    | SwitchMemTable
    | TakeSnapshot
    | ReleaseSnapshot(index: nat)
    | ReserveFileNumber
    | FlushMemTable(level: nat, size: nat)
    | BeginCompaction(pick: Pick, merged: seq<Entry>)
    | MoveTable(pick: Pick)
    | FinishCompaction(outputs: seq<File>)
    | AbandonCompaction

  function InsertEntry(es: seq<Entry>, e: Entry): (r: seq<Entry>)
    ensures forall x :: x in r <==> x in es || x == e
    ensures SortedEntries(es) && (forall i :: 0 <= i < |es| ==> Tag(es[i].key) != Tag(e.key)) ==> SortedEntries(r)
  {
    if es == [] || Before(e.key, es[0].key) then
      InFront(es, e);
      [e] + es
    else
      var rest := InsertEntry(es[1..], e);
      BehindFirst(es, e, rest);
      [es[0]] + rest
  }

  lemma {:induction false} InFront(es: seq<Entry>, e: Entry)
    requires es == [] || Before(e.key, es[0].key)
    ensures forall x :: x in [e] + es <==> x in es || x == e
    ensures SortedEntries(es) ==> SortedEntries([e] + es)
  {
    if SortedEntries(es) {
      forall i | 0 <= i < |es| ensures Before(e.key, es[i].key) {
        assert i == 0 || Before(es[0].key, es[i].key);
      }
    }
  }

  lemma {:induction false} BehindFirst(es: seq<Entry>, e: Entry, rest: seq<Entry>)
    requires es != [] && !Before(e.key, es[0].key) && forall x :: x in rest <==> x in es[1..] || x == e
    requires SortedEntries(es[1..]) && (forall i :: 0 <= i < |es[1..]| ==> Tag(es[1..][i].key) != Tag(e.key)) ==> SortedEntries(rest)
    ensures forall x :: x in [es[0]] + rest <==> x in es || x == e
    ensures SortedEntries(es) && (forall i :: 0 <= i < |es| ==> Tag(es[i].key) != Tag(e.key)) ==> SortedEntries([es[0]] + rest)
  {
    assert forall x :: x in es <==> x == es[0] || x in es[1..];
    if SortedEntries(es) && forall i :: 0 <= i < |es| ==> Tag(es[i].key) != Tag(e.key) {
      forall i | 0 <= i < |rest| ensures Before(es[0].key, rest[i].key) {
        assert rest[i] in rest;
      }
    }
  }

  // The table that BuildTable makes of a memtable.
  function TableOf(es: seq<Entry>, number: nat, size: nat): File
    requires es != []
  {
    File(number, size, es[0].key, es[|es| - 1].key, es)
  }

  function VersionAfterFlush(v: Version, level: nat, f: File): Version
    requires level < |v.files|
  {
    Version(v.files[level := InsertFile(v.files[level], f)])
  }

  function InsertFiles(fs: seq<File>, added: seq<File>): seq<File> {
    if added == [] then fs else InsertFile(InsertFiles(fs, added[..|added| - 1]), added[|added| - 1])
  }

  // The tables of level l that are not inputs of the compaction.
  function Remaining(v: Version, c: Pick, l: nat): seq<File>
    requires l < |v.files|
  {
    if l == c.level then Live(v.files[l], Numbers(c.in0))
    else if l == c.level + 1 then Live(v.files[l], Numbers(c.in1))
    else v.files[l]
  }

  function ReplacedLevel(v: Version, c: Pick, outputs: seq<File>, l: nat): seq<File>
    requires l < |v.files|
  {
    if l == c.level + 1 then InsertFiles(Remaining(v, c, l), outputs) else Remaining(v, c, l)
  }

  function VersionAfterReplace(v: Version, c: Pick, outputs: seq<File>): Version {
    Version(seq(|v.files|, l requires 0 <= l < |v.files| => ReplacedLevel(v, c, outputs, l)))
  }

  ghost predicate IsMerge(m: seq<Entry>, inputs: seq<File>) {
    SortedEntries(m) && forall e :: e in m <==> InFiles(inputs, e)
  }

  // No table of the version has the number.
  ghost predicate UnusedNumber(v: Version, number: nat) {
    forall l :: 0 <= l < |v.files| ==> number !in Numbers(v.files[l])
  }

  function Contents(outputs: seq<File>): seq<seq<Entry>> {
    seq(|outputs|, i requires 0 <= i < |outputs| => outputs[i].entries)
  }

  // Output tables that hold exactly the kept entries, cut anywhere.
  ghost predicate ValidOutputs(v: Version, nextFile: nat, c: Running, outputs: seq<File>)
    requires |c.input.files| == NUM_LEVELS
  {
    && ValidFiles(outputs) && DistinctNumbers(outputs)
    && (forall f :: f in outputs ==> UnusedNumber(v, f.number) && f.number < nextFile)
    && Flatten(Contents(outputs)) == Kept(c.merged, |c.merged|, c.snapshot, c.input, c.pick.level)
  }

  ghost predicate Enabled(db: Db, step: Step)
    requires |db.version.files| == NUM_LEVELS
    requires db.compaction.Some? ==> |db.compaction.value.input.files| == NUM_LEVELS && ValidPick(db.compaction.value.input, db.compaction.value.pick)
  {
    match step
    case Insert(kind, key, value) => db.allotted + 1 < MAX_SEQUENCE
    case SkipNumbers(count) => db.allotted + count < MAX_SEQUENCE
    case Publish => true
    case SwitchMemTable => db.imm.None? && db.allotted == db.lastSequence
    case TakeSnapshot => true
    case ReleaseSnapshot(index) => index < |db.snapshots|
    case ReserveFileNumber => true
    case FlushMemTable(level, size) =>
      db.imm.Some? && level < NUM_LEVELS &&
      (db.imm.value != [] && level > 0 ==> FlushFits(db.version, level, TableOf(db.imm.value, db.nextFile, size)))
    case BeginCompaction(pick, merged) =>
      db.compaction.None? && ValidPick(db.version, pick) && IsMerge(merged, pick.in0 + pick.in1)
    case MoveTable(pick) =>
      db.compaction.None? && ValidPick(db.version, pick) && |pick.in0| == 1 && pick.in1 == []
    case FinishCompaction(outputs) =>
      db.compaction.Some? && ValidOutputs(db.version, db.nextFile, db.compaction.value, outputs)
    case AbandonCompaction => db.compaction.Some?
  }

  // What PickLevelForMemTableOutput guarantees when it goes below level 0.
  ghost predicate FlushFits(v: Version, level: nat, f: File)
    requires level < |v.files|
  {
    forall l, g :: 0 <= l <= level && g in v.files[l] ==> !Overlaps(g, Range(Some(f.smallest.user), Some(f.largest.user)))
  }

  ghost function Apply(db: Db, step: Step): Db
    requires |db.version.files| == NUM_LEVELS
    requires db.compaction.Some? ==> |db.compaction.value.input.files| == NUM_LEVELS && ValidPick(db.compaction.value.input, db.compaction.value.pick)
    requires Enabled(db, step)
  {
    match step
    case Insert(kind, key, value) =>
      var e := Entry(InternalKey(key, db.allotted + 1, kind), value);
      db.(history := db.history + [e], allotted := db.allotted + 1, mem := InsertEntry(db.mem, e))
    case SkipNumbers(count) => db.(allotted := db.allotted + count)
    case Publish => db.(lastSequence := db.allotted)
    case SwitchMemTable => db.(imm := Some(db.mem), mem := [])
    case TakeSnapshot => db.(snapshots := db.snapshots + [db.lastSequence])
    case ReleaseSnapshot(index) => db.(snapshots := db.snapshots[..index] + db.snapshots[index + 1..])
    case ReserveFileNumber => db.(nextFile := db.nextFile + 1)
    case FlushMemTable(level, size) =>
      if db.imm.value == [] then db.(imm := None)
      else db.(imm := None, nextFile := db.nextFile + 1,
               version := VersionAfterFlush(db.version, level, TableOf(db.imm.value, db.nextFile, size)))
    case BeginCompaction(pick, merged) =>
      db.(compaction := Some(Running(pick, db.version, MinLive(db), merged)))
    case MoveTable(pick) => db.(version := VersionAfterReplace(db.version, pick, pick.in0))
    case FinishCompaction(outputs) =>
      db.(version := VersionAfterReplace(db.version, db.compaction.value.pick, outputs), compaction := None)
    case AbandonCompaction => db.(compaction := None)
  }
}
