/** Every run of the database reads like the flat history. */
module LsmInvariant {
  import opened Coding
  import opened Options
  import opened Keys
  import opened Store
  import opened FileSearch
  import opened InputSelection
  import opened CompactionPick
  import opened CompactionWork
  import opened VersionBuilder
  import opened Lsm
  import opened VersionSteps
  import opened ReplaceSteps

  ghost predicate HistoryOk(db: Db) {
    && (forall i, j :: 0 <= i < j < |db.history| ==> db.history[i].key.sequence < db.history[j].key.sequence)
    && (forall e :: e in db.history ==> e.key.sequence <= db.allotted)
    && db.lastSequence <= db.allotted < MAX_SEQUENCE
  }

  // SnapshotList: oldest first, none newer than the last published sequence number.
  ghost predicate SnapshotsOk(db: Db) {
    && (forall i, j :: 0 <= i < j < |db.snapshots| ==> db.snapshots[i] <= db.snapshots[j])
    && (forall i :: 0 <= i < |db.snapshots| ==> db.snapshots[i] <= db.lastSequence)
  }

  // All of `es` is newer than all of the version.
  ghost predicate NewerThanVersion(es: seq<Entry>, v: Version) {
    forall e, e' :: e in es && InVersion(v, e') ==> e.key.sequence > e'.key.sequence
  }

  // The memtable is newer than the immutable memtable, which is newer than every table.
  ghost predicate MemOk(mem: seq<Entry>, imm: Option<seq<Entry>>, v: Version) {
    && SortedEntries(mem) && SortedEntries(ImmEntries(imm))
    && (forall e, e' :: e in mem && e' in ImmEntries(imm) ==> e.key.sequence > e'.key.sequence)
    && NewerThanVersion(mem, v) && NewerThanVersion(ImmEntries(imm), v)
  }

  ghost predicate FilesOk(v: Version, nextFile: nat) {
    && VersionOk(v)
    && forall l, g :: 0 <= l < NUM_LEVELS && g in v.files[l] ==> g.number < nextFile
  }

  ghost predicate StoredOk(stored: iset<Entry>, history: seq<Entry>) {
    forall e :: e in stored ==> e in history
  }

  // Nothing that a live snapshot can read is lost, and nothing deleted comes back.
  ghost predicate ReadsOk(stored: iset<Entry>, history: seq<Entry>, minLive: nat) {
    SameReads(stored, HistoryEntries(history), minLive)
  }

  // Tables that appeared since the compaction started are newer than all its inputs.
  ghost predicate OnlyNewerSince(v: Version, c: Running)
    requires |v.files| == NUM_LEVELS && |c.input.files| == NUM_LEVELS
  {
    forall l, f :: 0 <= l < NUM_LEVELS && f in v.files[l] ==> f in c.input.files[l] || NewerThanAll(f, c.pick.in0 + c.pick.in1)
  }

  ghost predicate RunningOk(v: Version, c: Running, minLive: nat) {
    && VersionOk(c.input) && ValidPick(c.input, c.pick)
    && ClosedInputs(v, c.pick)
    && OnlyNewerSince(v, c)
    && IsMerge(c.merged, c.pick.in0 + c.pick.in1)
    && c.snapshot <= minLive
  }

  ghost predicate CompactionOk(db: Db) {
    && |db.version.files| == NUM_LEVELS
    && (db.compaction.Some? ==> RunningOk(db.version, db.compaction.value, MinLive(db)))
  }

  ghost predicate Inv(db: Db) {
    && HistoryOk(db) && SnapshotsOk(db)
    && MemOk(db.mem, db.imm, db.version) && FilesOk(db.version, db.nextFile)
    && StoredOk(StoredEntries(db), db.history)
    && CompactionOk(db)
    && ReadsOk(StoredEntries(db), db.history, MinLive(db))
  }

  lemma {:induction false} RunningFacts(db: Db)
    requires Inv(db) && db.compaction.Some?
    ensures
      var c := db.compaction.value;
      && VersionOk(db.version) && RunningOk(db.version, c, MinLive(db)) && ClosedInputs(db.version, c.pick)
      && VersionOk(c.input) && ValidPick(c.input, c.pick) && IsMerge(c.merged, c.pick.in0 + c.pick.in1)
      && c.pick.level + 1 < NUM_LEVELS && Steppable(db)
  {
    assert VersionOk(db.compaction.value.input) ==> |db.compaction.value.input.files| == NUM_LEVELS;
    hide VersionOk, IsMerge, ClosedInputs, HistoryOk, SnapshotsOk, MemOk, StoredOk, ReadsOk, OnlyNewerSince, Spans, Admissible;
  }

  // The parts of the invariant that the state machine's definitions ask for.
  ghost predicate Steppable(db: Db) {
    && |db.version.files| == NUM_LEVELS
    && (db.compaction.Some? ==>
          |db.compaction.value.input.files| == NUM_LEVELS && ValidPick(db.compaction.value.input, db.compaction.value.pick))
  }

  // ---- Runs ----

  // Everything stored except the inputs of the compaction.
  ghost function RestEntries(db: Db, c: Pick): iset<Entry>
    requires |db.version.files| == NUM_LEVELS
  {
    iset e | e in db.mem || e in ImmEntries(db.imm) || RestEntry(db.version, c, e)
  }

  // The compaction about to be installed drops a marker that still hides a value elsewhere from
  // the oldest read that is live now.
  ghost predicate FinishResurrects(db: Db)
    requires CompactionOk(db) && db.compaction.Some?
  {
    var c := db.compaction.value;
    SomeResurrection(RestEntries(db, c.pick), c.merged, c.snapshot, MinLive(db), c.input, c.pick.level)
  }

  ghost predicate SafeStep(db: Db, step: Step)
    requires CompactionOk(db)
  {
    step.FinishCompaction? && db.compaction.Some? ==> !FinishResurrects(db)
  }

  function InitialDb(): Db {
    Db([], 0, 0, [], [], None, Version(seq(NUM_LEVELS, _ => [])), 2, None)
  }

  // db is reached by the steps, none of which installs a compaction that resurrects a value.
  ghost predicate Reached(db: Db, steps: seq<Step>)
    decreases |steps|
  {
    if steps == [] then db == InitialDb()
    else
      var init, last := steps[..|steps| - 1], steps[|steps| - 1];
      exists prev :: Reached(prev, init) && Leads(prev, last, db)
  }

  ghost predicate Leads(prev: Db, step: Step, db: Db) {
    CompactionOk(prev) && Enabled(prev, step) && SafeStep(prev, step) && db == Apply(prev, step)
  }

  // ---- Steps that touch no table ----

  lemma {:induction false} HistoryUnique(db: Db)
    requires HistoryOk(db) && StoredOk(StoredEntries(db), db.history)
    ensures UniqueSequences(StoredEntries(db)) && UniqueSequences(HistoryEntries(db.history))
    ensures UniqueSequences(VersionEntries(db.version))
  {
    forall e, e' | e in db.history && e' in db.history && e.key.sequence == e'.key.sequence ensures e == e' {
      var i :| 0 <= i < |db.history| && db.history[i] == e;
      var j :| 0 <= j < |db.history| && db.history[j] == e';
    }
    forall e | InVersion(db.version, e) ensures e in db.history {
      assert e in StoredEntries(db);
    }
  }

  // A newer entry on both sides changes both in the same way.
  lemma {:induction false} AddNewest(a: iset<Entry>, b: iset<Entry>, a': iset<Entry>, b': iset<Entry>, e: Entry, snapshot: nat)
    requires SameReads(a, b, snapshot)
    requires forall x :: x in a' <==> x in a || x == e
    requires forall x :: x in b' <==> x in b || x == e
    requires forall x :: x in a || x in b ==> x.key.sequence < e.key.sequence
    ensures SameReads(a', b', snapshot)
  {
    forall k, s, r | s >= snapshot ensures ReadIs(a', k, s, r) <==> ReadIs(b', k, s, r) {
      AddNewestRead(a, a', e, k, s, r);
      AddNewestRead(b, b', e, k, s, r);
      assert ReadIs(a, k, s, r) <==> ReadIs(b, k, s, r);
    }
  }

  lemma {:induction false} AddNewestRead(a: iset<Entry>, a': iset<Entry>, e: Entry, k: UserKey, s: nat, r: Option<Bytes>)
    requires forall x :: x in a' <==> x in a || x == e
    requires forall x :: x in a ==> x.key.sequence < e.key.sequence
    ensures k == e.key.user && s >= e.key.sequence ==> (ReadIs(a', k, s, r) <==> r == Shown(e))
    ensures !(k == e.key.user && s >= e.key.sequence) ==> (ReadIs(a', k, s, r) <==> ReadIs(a, k, s, r))
  {
    if k == e.key.user && s >= e.key.sequence {
      assert IsNewest(a', k, s, e);
      assert e in a' && e.key.user == k && e.key.sequence <= s;
    } else {
      forall x ensures IsNewest(a', k, s, x) <==> IsNewest(a, k, s, x) {
      }
    }
  }

  lemma {:induction false} InsertKeeps(db: Db, step: Step)
    requires Inv(db) && step.Insert? && Enabled(db, step)
    ensures Inv(Apply(db, step))
  {
    hide MemOk, FilesOk, StoredOk, ReadsOk, RunningOk, Stored;
    var e := Entry(InternalKey(step.key, db.allotted + 1, step.kind), step.value);
    StoredBounded(db);
    InsertMemOk(db.mem, db.imm, db.version, e, db.allotted);
    InsertReadsOk(db.mem, db.imm, db.version, db.history, e, MinLive(db), db.allotted);
  }

  lemma {:induction false} StoredBounded(db: Db)
    requires HistoryOk(db) && StoredOk(StoredEntries(db), db.history)
    ensures forall x :: x in StoredEntries(db) ==> x.key.sequence <= db.allotted
  {
  }

  lemma {:induction false} InsertMemOk(mem: seq<Entry>, imm: Option<seq<Entry>>, v: Version, e: Entry, bound: nat)
    requires MemOk(mem, imm, v) && e.key.sequence > bound
    requires forall x :: x in Stored(mem, imm, v) ==> x.key.sequence <= bound
    ensures MemOk(InsertEntry(mem, e), imm, v)
  {
    forall i | 0 <= i < |mem| ensures Tag(mem[i].key) != Tag(e.key) {
      assert mem[i] in Stored(mem, imm, v);
    }
    forall y | y in ImmEntries(imm) || InVersion(v, y) ensures y.key.sequence < e.key.sequence {
      assert y in Stored(mem, imm, v);
    }
  }

  lemma {:induction false} InsertReadsOk(mem: seq<Entry>, imm: Option<seq<Entry>>, v: Version, history: seq<Entry>, e: Entry, minLive: nat, bound: nat)
    requires ReadsOk(Stored(mem, imm, v), history, minLive) && StoredOk(Stored(mem, imm, v), history)
    requires e.key.sequence > bound && forall x :: x in history ==> x.key.sequence <= bound
    ensures ReadsOk(Stored(InsertEntry(mem, e), imm, v), history + [e], minLive)
    ensures StoredOk(Stored(InsertEntry(mem, e), imm, v), history + [e])
  {
    var before, after := Stored(mem, imm, v), Stored(InsertEntry(mem, e), imm, v);
    forall x ensures x in after <==> x in before || x == e {
    }
    AddNewest(before, HistoryEntries(history), after, HistoryEntries(history + [e]), e, minLive);
  }

  lemma {:induction false} LiveLater(a: iset<Entry>, b: iset<Entry>, s: nat, s': nat)
    requires SameReads(a, b, s) && s <= s'
    ensures SameReads(a, b, s')
  {
  }

  // A step that changes neither the tables nor what is stored, and does not lower MinLive.
  lemma {:induction false} SameStoreKeeps(db: Db, db': Db)
    requires Inv(db)
    requires db'.mem == db.mem && db'.imm == db.imm && db'.version == db.version && db'.history == db.history
    requires db.nextFile <= db'.nextFile && MinLive(db) <= MinLive(db')
    requires db'.compaction == db.compaction || db'.compaction == None
    requires HistoryOk(db') && SnapshotsOk(db')
    ensures Inv(db')
  {
    LiveLater(StoredEntries(db), HistoryEntries(db.history), MinLive(db), MinLive(db'));
  }

  lemma {:induction false} ReleasedOk(db: Db, index: nat)
    requires SnapshotsOk(db) && index < |db.snapshots|
    ensures var db' := db.(snapshots := db.snapshots[..index] + db.snapshots[index + 1..]);
            SnapshotsOk(db') && MinLive(db) <= MinLive(db')
  {
  }

  lemma {:induction false} BookkeepingKeeps(db: Db, step: Step)
    requires Inv(db) && Enabled(db, step)
    requires step.SkipNumbers? || step.Publish? || step.TakeSnapshot? || step.ReleaseSnapshot? || step.ReserveFileNumber? || step.AbandonCompaction?
    ensures Inv(Apply(db, step))
  {
    var db' := Apply(db, step);
    hide MemOk, FilesOk, StoredOk, ReadsOk, RunningOk, Stored;
    if step.ReleaseSnapshot? {
      ReleasedOk(db, step.index);
    }
    SameStoreKeeps(db, db');
  }

  lemma {:induction false} SwitchKeeps(db: Db, step: Step)
    requires Inv(db) && step.SwitchMemTable? && Enabled(db, step)
    ensures Inv(Apply(db, step))
  {
    hide MemOk, FilesOk, StoredOk, ReadsOk, RunningOk, Stored;
    SwitchedStore(db.mem, db.version);
  }

  lemma {:induction false} SwitchedStore(mem: seq<Entry>, v: Version)
    requires MemOk(mem, None, v)
    ensures Stored([], Some(mem), v) == Stored(mem, None, v)
    ensures MemOk([], Some(mem), v)
  {
  }

  // ---- Flush ----

  lemma {:induction false} TableIsNew(db: Db, level: nat, size: nat)
    requires Inv(db) && db.imm.Some? && db.imm.value != [] && level < NUM_LEVELS
    requires level > 0 ==> FlushFits(db.version, level, TableOf(db.imm.value, db.nextFile, size))
    ensures NewTable(db.version, level, TableOf(db.imm.value, db.nextFile, size))
  {
    var f := TableOf(db.imm.value, db.nextFile, size);
    StoredBounded(db);
    forall i | 0 <= i < |f.entries| ensures f.entries[i].key.sequence <= MAX_SEQUENCE {
      assert f.entries[i] in StoredEntries(db);
    }
    forall l | 0 <= l < NUM_LEVELS ensures NewerThanAll(f, db.version.files[l]) {
      forall e, e' | e in f.entries && InFiles(db.version.files[l], e') ensures e.key.sequence > e'.key.sequence {
        assert InVersion(db.version, e');
      }
    }
  }

  lemma {:induction false} FlushKeepsFiles(v: Version, nextFile: nat, level: nat, f: File)
    requires FilesOk(v, nextFile) && NewTable(v, level, f) && f.number == nextFile
    ensures FilesOk(VersionAfterFlush(v, level, f), nextFile + 1)
  {
    FlushKeepsVersionOk(v, level, f);
    InsertFileMembers(v.files[level], f);
  }

  lemma {:induction false} FlushKeepsStored(mem: seq<Entry>, imm: seq<Entry>, v: Version, level: nat, f: File)
    requires MemOk(mem, Some(imm), v) && NewTable(v, level, f) && f.entries == imm
    ensures Stored(mem, None, VersionAfterFlush(v, level, f)) == Stored(mem, Some(imm), v)
    ensures MemOk(mem, None, VersionAfterFlush(v, level, f))
  {
    var v' := VersionAfterFlush(v, level, f);
    NumberBelow(v.files[level], f.number);
    forall e ensures InVersion(v', e) <==> InVersion(v, e) || e in imm {
      FlushedEntries(v, level, f, e);
    }
  }

  lemma {:induction false} FlushKeepsRunning(v: Version, c: Running, minLive: nat, level: nat, f: File)
    requires RunningOk(v, c, minLive) && VersionOk(v) && NewTable(v, level, f)
    ensures RunningOk(VersionAfterFlush(v, level, f), c, minLive)
  {
    InputsValid(v, c.pick);
    FlushKeepsInputsClosed(v, c.pick, level, f);
    FlushKeepsOnlyNewer(v, c, level, f);
  }

  lemma {:induction false} FlushKeepsOnlyNewer(v: Version, c: Running, level: nat, f: File)
    requires ClosedInputs(v, c.pick) && |c.input.files| == NUM_LEVELS && OnlyNewerSince(v, c) && NewTable(v, level, f)
    ensures OnlyNewerSince(VersionAfterFlush(v, level, f), c)
  {
    InsertFileMembers(v.files[level], f);
    forall e, e' | e in f.entries && InFiles(c.pick.in0 + c.pick.in1, e') ensures e.key.sequence > e'.key.sequence {
      var m, _ := InputLevel(v, c.pick, e');
      assert NewerThanAll(f, v.files[m]);
    }
  }

  lemma {:induction false} FlushKeeps(db: Db, step: Step)
    requires Inv(db) && step.FlushMemTable? && Enabled(db, step)
    ensures Inv(Apply(db, step))
  {
    hide HistoryOk, SnapshotsOk, MemOk, FilesOk, StoredOk, ReadsOk, RunningOk, NewTable, TableOf, VersionAfterFlush, Stored, FlushFits;
    if db.imm.value == [] {
      NothingFlushed(db.mem, db.imm, db.version);
      WithoutImm(db, db.version, db.nextFile);
    } else {
      var f := TableOf(db.imm.value, db.nextFile, step.size);
      var v' := VersionAfterFlush(db.version, step.level, f);
      TableIsNew(db, step.level, step.size);
      TableHas(db.imm.value, db.nextFile, step.size);
      FlushKeepsFiles(db.version, db.nextFile, step.level, f);
      FlushKeepsStored(db.mem, db.imm.value, db.version, step.level, f);
      FilesAreOk(db.version, db.nextFile);
      FilesAreOk(v', db.nextFile + 1);
      if db.compaction.Some? {
        FlushKeepsRunning(db.version, db.compaction.value, MinLive(db), step.level, f);
      }
      WithoutImm(db, v', db.nextFile + 1);
    }
  }

  lemma {:induction false} TableHas(es: seq<Entry>, number: nat, size: nat)
    requires es != []
    ensures TableOf(es, number, size).entries == es && TableOf(es, number, size).number == number
  {
  }

  lemma {:induction false} FilesAreOk(v: Version, nextFile: nat)
    requires FilesOk(v, nextFile)
    ensures VersionOk(v) && |v.files| == NUM_LEVELS
  {
  }

  lemma {:induction false} NothingFlushed(mem: seq<Entry>, imm: Option<seq<Entry>>, v: Version)
    requires ImmEntries(imm) == []
    ensures Stored(mem, None, v) == Stored(mem, imm, v) && (MemOk(mem, imm, v) ==> MemOk(mem, None, v))
  {
  }

  // The immutable memtable is dropped; the version has its entries.
  lemma {:induction false} WithoutImm(db: Db, v: Version, nextFile: nat)
    requires Inv(db) && |v.files| == NUM_LEVELS
    requires MemOk(db.mem, None, v) && FilesOk(v, nextFile) && Stored(db.mem, None, v) == StoredEntries(db)
    requires db.compaction.Some? ==> RunningOk(v, db.compaction.value, MinLive(db))
    ensures Inv(db.(imm := None, version := v, nextFile := nextFile))
  {
    hide MemOk, FilesOk, StoredOk, ReadsOk, RunningOk, Stored;
    var db' := db.(imm := None, version := v, nextFile := nextFile);
    assert MinLive(db') == MinLive(db) && StoredEntries(db') == StoredEntries(db);
  }

  // ---- Compactions ----

  lemma {:induction false} StartedOk(v: Version, pick: Pick, merged: seq<Entry>, minLive: nat)
    requires VersionOk(v) && ValidPick(v, pick) && IsMerge(merged, pick.in0 + pick.in1)
    requires UniqueSequences(VersionEntries(v))
    ensures RunningOk(v, Running(pick, v, minLive, merged), minLive)
  {
    PickIsClosed(v, pick);
  }

  lemma {:induction false} BeginKeeps(db: Db, step: Step)
    requires Inv(db) && step.BeginCompaction? && Enabled(db, step)
    ensures Inv(Apply(db, step))
  {
    assert UniqueSequences(VersionEntries(db.version)) by {
      HistoryUnique(db);
    }
    StartedOk(db.version, step.pick, step.merged, MinLive(db));
    WithRunning(db, Running(step.pick, db.version, MinLive(db), step.merged));
  }

  lemma {:induction false} WithRunning(db: Db, c: Running)
    requires Inv(db) && RunningOk(db.version, c, MinLive(db))
    ensures Inv(db.(compaction := Some(c)))
  {
    hide MemOk, FilesOk, StoredOk, ReadsOk, RunningOk, Stored;
    assert MinLive(db.(compaction := Some(c))) == MinLive(db);
  }

  // What remains stored when the outputs replace the inputs.
  lemma {:induction false} ReplaceKeepsMem(mem: seq<Entry>, imm: Option<seq<Entry>>, v: Version, c: Pick, outputs: seq<File>)
    requires MemOk(mem, imm, v) && VersionOk(v) && ClosedInputs(v, c) && NewTables(v, c, outputs)
    ensures MemOk(mem, imm, VersionAfterReplace(v, c, outputs))
  {
    var v' := VersionAfterReplace(v, c, outputs);
    forall e | InVersion(v', e) ensures InVersion(v, e) {
      EntriesAfter(v, c, outputs, e);
      EntriesSplit(v, c, e);
    }
  }

  lemma {:induction false} ReplaceKeepsFiles(v: Version, nextFile: nat, c: Pick, outputs: seq<File>)
    requires FilesOk(v, nextFile) && ClosedInputs(v, c) && NewTables(v, c, outputs)
    requires forall f :: f in outputs ==> f.number < nextFile
    ensures FilesOk(VersionAfterReplace(v, c, outputs), nextFile)
  {
    ReplaceKeepsVersionOk(v, c, outputs);
    OutputLevelOk(v, c, outputs);
    forall l, g | 0 <= l < NUM_LEVELS && g in ReplacedLevel(v, c, outputs, l) ensures g.number < nextFile {
      NumberBounded(v, c, outputs, nextFile, l, g);
    }
  }

  lemma {:induction false} NumberBounded(v: Version, c: Pick, outputs: seq<File>, nextFile: nat, l: nat, g: File)
    requires |v.files| == NUM_LEVELS && c.level + 1 < NUM_LEVELS && OutputMembers(v, c, outputs)
    requires l < NUM_LEVELS && g in ReplacedLevel(v, c, outputs, l)
    requires forall f :: f in v.files[l] || f in outputs ==> f.number < nextFile
    ensures g.number < nextFile
  {
    RemainingNumbers(v, c, l);
    assert g in Remaining(v, c, l) ==> g.number in Numbers(Remaining(v, c, l));
  }

  // The stored entries are those of the inputs and the rest.
  lemma {:induction false} StoredSplit(db: Db, c: Pick, m: seq<Entry>)
    requires VersionOk(db.version) && ClosedInputs(db.version, c) && IsMerge(m, c.in0 + c.in1)
    ensures StoredEntries(db) == With(RestEntries(db, c), m)
  {
    forall e ensures e in StoredEntries(db) <==> e in With(RestEntries(db, c), m) {
      EntriesSplit(db.version, c, e);
    }
  }

  lemma {:induction false} StoredAfter(db: Db, c: Pick, outputs: seq<File>, kept: seq<Entry>)
    requires VersionOk(db.version) && ClosedInputs(db.version, c) && NewTables(db.version, c, outputs)
    requires forall e :: e in kept <==> InFiles(outputs, e)
    ensures Stored(db.mem, db.imm, VersionAfterReplace(db.version, c, outputs)) == With(RestEntries(db, c), kept)
  {
    var after := Stored(db.mem, db.imm, VersionAfterReplace(db.version, c, outputs));
    forall e ensures e in after <==> e in With(RestEntries(db, c), kept) {
      EntriesAfter(db.version, c, outputs, e);
    }
  }

  // ---- Cutting the outputs ----

  lemma {:induction false} KeptSorted(m: seq<Entry>, n: nat, snapshot: nat, v: Version, level: nat)
    requires SortedEntries(m) && n <= |m| && |v.files| == NUM_LEVELS
    ensures SortedEntries(Kept(m, n, snapshot, v, level))
  {
    if n > 0 {
      KeptSorted(m, n - 1, snapshot, v, level);
      var prefix := Kept(m, n - 1, snapshot, v, level);
      forall i | 0 <= i < |prefix| ensures Before(prefix[i].key, m[n - 1].key) {
        KeptMembers(m, n - 1, snapshot, v, level, prefix[i]);
      }
    }
  }

  lemma {:induction false} ContentsSnoc(outputs: seq<File>)
    requires outputs != []
    ensures Flatten(Contents(outputs)) == Flatten(Contents(outputs[..|outputs| - 1])) + outputs[|outputs| - 1].entries
  {
    var all := Contents(outputs);
    assert all[..|all| - 1] == Contents(outputs[..|outputs| - 1]);
  }

  lemma {:induction false} CutMembers(outputs: seq<File>, e: Entry)
    ensures e in Flatten(Contents(outputs)) <==> InFiles(outputs, e)
  {
    if outputs != [] {
      var init, last := outputs[..|outputs| - 1], outputs[|outputs| - 1];
      ContentsSnoc(outputs);
      CutMembers(init, e);
      if InFiles(init, e) {
        InFilesSubset(init, outputs, e);
      }
      if e in last.entries {
        InFilesMember(outputs, last, e);
      }
      if InFiles(outputs, e) {
        var i :| 0 <= i < |outputs| && e in outputs[i].entries;
        assert i < |init| ==> init[i] == outputs[i];
      }
    }
  }

  lemma {:induction false} CutSorted(outputs: seq<File>)
    requires ValidFiles(outputs) && SortedEntries(Flatten(Contents(outputs)))
    ensures SortedDisjoint(outputs)
  {
    if outputs != [] {
      var init, last := outputs[..|outputs| - 1], outputs[|outputs| - 1];
      ContentsSnoc(outputs);
      var prefix := Flatten(Contents(init));
      var all := Flatten(Contents(outputs));
      assert SortedEntries(prefix) by {
        assert forall i :: 0 <= i < |prefix| ==> prefix[i] == all[i];
      }
      CutSorted(init);
      forall i | 0 <= i < |init| ensures Before(init[i].largest, last.smallest) {
        CutBefore(init, last, i);
      }
    }
  }

  lemma {:induction false} CutBefore(init: seq<File>, last: File, i: nat)
    requires ValidFiles(init) && ValidFile(last) && i < |init|
    requires SortedEntries(Flatten(Contents(init)) + last.entries)
    ensures Before(init[i].largest, last.smallest)
  {
    var prefix := Flatten(Contents(init));
    var e := init[i].entries[|init[i].entries| - 1];
    InFilesMember(init, init[i], e);
    CutMembers(init, e);
    var a :| 0 <= a < |prefix| && prefix[a] == e;
    var all := prefix + last.entries;
    assert all[a] == e && all[|prefix|] == last.entries[0];
  }

  // ---- Move and finish ----

  lemma {:induction false} MovedTableIsNew(v: Version, pick: Pick)
    requires |v.files| == NUM_LEVELS && pick.level < NUM_LEVELS && NumbersApart(v)
    requires ValidFiles(pick.in0) && |pick.in0| == 1 && pick.in0[0] in v.files[pick.level] && pick.in1 == []
    ensures NewTables(v, pick, pick.in0)
  {
    hide NumbersApart, Remaining, InFiles, ValidFile;
    assert pick.in0 + pick.in1 == pick.in0;
    forall l | 0 <= l < NUM_LEVELS ensures Numbers(Remaining(v, pick, l)) !! Numbers(pick.in0) {
      MovedNumber(v, pick, l);
    }
  }

  lemma {:induction false} MovedNumber(v: Version, pick: Pick, l: nat)
    requires NumbersApart(v) && |v.files| == NUM_LEVELS && pick.level < NUM_LEVELS && l < NUM_LEVELS
    requires |pick.in0| == 1 && pick.in0[0] in v.files[pick.level]
    ensures Numbers(Remaining(v, pick, l)) !! Numbers(pick.in0)
  {
    assert Numbers(pick.in0) == {pick.in0[0].number};
    LiveMembers(v.files[pick.level], Numbers(pick.in0));
    RemainingNumbers(v, pick, l);
    NumberElsewhere(v, pick.level, l, pick.in0[0]);
  }

  lemma {:induction false} NumberElsewhere(v: Version, level: nat, l: nat, f: File)
    requires NumbersApart(v) && level < |v.files| && l < |v.files| && f in v.files[level]
    ensures l != level ==> f.number !in Numbers(v.files[l])
  {
    assert f.number in Numbers(v.files[level]);
    if l < level {
      assert Numbers(v.files[l]) !! Numbers(v.files[level]);
    } else if level < l {
      assert Numbers(v.files[level]) !! Numbers(v.files[l]);
    }
  }

  lemma {:induction false} MoveKeepsStored(mem: seq<Entry>, imm: Option<seq<Entry>>, v: Version, pick: Pick)
    requires VersionOk(v) && ClosedInputs(v, pick) && NewTables(v, pick, pick.in0) && pick.in1 == []
    ensures Stored(mem, imm, VersionAfterReplace(v, pick, pick.in0)) == Stored(mem, imm, v)
  {
    assert pick.in0 + pick.in1 == pick.in0;
    forall e ensures InVersion(VersionAfterReplace(v, pick, pick.in0), e) <==> InVersion(v, e) {
      EntriesAfter(v, pick, pick.in0, e);
      EntriesSplit(v, pick, e);
    }
  }

  lemma {:induction false} MovePieces(db: Db, pick: Pick)
    requires MemOk(db.mem, db.imm, db.version) && FilesOk(db.version, db.nextFile)
    requires ClosedInputs(db.version, pick) && |pick.in0| == 1 && pick.in1 == []
    ensures var v' := VersionAfterReplace(db.version, pick, pick.in0);
            && MemOk(db.mem, db.imm, v') && FilesOk(v', db.nextFile)
            && Stored(db.mem, db.imm, v') == StoredEntries(db)
  {
    assert pick.in0[0] in pick.in0;
    InputsValid(db.version, pick);
    MovedTableIsNew(db.version, pick);
    assert forall f :: f in pick.in0 ==> f in db.version.files[pick.level];
    ReplaceKeepsFiles(db.version, db.nextFile, pick, pick.in0);
    ReplaceKeepsMem(db.mem, db.imm, db.version, pick, pick.in0);
    MoveKeepsStored(db.mem, db.imm, db.version, pick);
  }

  lemma {:induction false} PickedInputsClosed(db: Db, pick: Pick)
    requires Inv(db) && ValidPick(db.version, pick)
    ensures ClosedInputs(db.version, pick)
  {
    HistoryUnique(db);
    PickIsClosed(db.version, pick);
  }

  lemma {:induction false} MoveKeeps(db: Db, step: Step)
    requires Inv(db) && step.MoveTable? && Enabled(db, step)
    ensures Inv(Apply(db, step))
  {
    PickedInputsClosed(db, step.pick);
    MovePieces(db, step.pick);
    WithVersion(db, VersionAfterReplace(db.version, step.pick, step.pick.in0));
  }

  // A version with the same answers, installed while no compaction is left running.
  lemma {:induction false} WithVersion(db: Db, v: Version)
    requires Inv(db) && |v.files| == NUM_LEVELS
    requires MemOk(db.mem, db.imm, v) && FilesOk(v, db.nextFile)
    requires StoredOk(Stored(db.mem, db.imm, v), db.history) && ReadsOk(Stored(db.mem, db.imm, v), db.history, MinLive(db))
    ensures Inv(db.(version := v, compaction := None))
  {
    var db' := db.(version := v, compaction := None);
    assert MinLive(db') == MinLive(db) && StoredEntries(db') == Stored(db.mem, db.imm, v);
    hide MemOk, FilesOk, StoredOk, ReadsOk, RunningOk, Stored;
  }

  lemma {:induction false} OutputsAreNew(v: Version, nextFile: nat, c: Running, outputs: seq<File>, minLive: nat)
    requires RunningOk(v, c, minLive) && ValidOutputs(v, nextFile, c, outputs)
    ensures NewTables(v, c.pick, outputs)
    ensures forall e :: e in Kept(c.merged, |c.merged|, c.snapshot, c.input, c.pick.level) <==> InFiles(outputs, e)
  {
    var kept := Kept(c.merged, |c.merged|, c.snapshot, c.input, c.pick.level);
    KeptSorted(c.merged, |c.merged|, c.snapshot, c.input, c.pick.level);
    CutSorted(outputs);
    SortedDisjointIsSeparated(outputs);
    KeptIsSubset(c.merged, c.snapshot, c.input, c.pick.level);
    forall e ensures e in kept <==> InFiles(outputs, e) {
      CutMembers(outputs, e);
    }
    forall l | 0 <= l < NUM_LEVELS ensures Numbers(Remaining(v, c.pick, l)) !! Numbers(outputs) {
      RemainingNumbers(v, c.pick, l);
    }
  }

  lemma {:induction false} SameReadsSides(a: iset<Entry>, b: iset<Entry>, h: iset<Entry>, s: nat)
    requires SameReads(a, h, s)
    ensures SameReads(b, h, s) <==> SameReads(a, b, s)
  {
    if SameReads(b, h, s) {
      forall k, t, r | t >= s ensures ReadIs(a, k, t, r) <==> ReadIs(b, k, t, r) {
        assert ReadIs(a, k, t, r) <==> ReadIs(h, k, t, r);
        assert ReadIs(b, k, t, r) <==> ReadIs(h, k, t, r);
      }
    }
    if SameReads(a, b, s) {
      forall k, t, r | t >= s ensures ReadIs(b, k, t, r) <==> ReadIs(h, k, t, r) {
        assert ReadIs(a, k, t, r) <==> ReadIs(h, k, t, r);
        assert ReadIs(a, k, t, r) <==> ReadIs(b, k, t, r);
      }
    }
  }

  // What the reads are once the outputs stand in for the inputs.
  lemma {:induction false} FinishReads(db: Db, outputs: seq<File>)
    requires Inv(db) && db.compaction.Some? && ValidOutputs(db.version, db.nextFile, db.compaction.value, outputs)
    requires NewTables(db.version, db.compaction.value.pick, outputs)
    requires var c := db.compaction.value;
             forall e :: e in Kept(c.merged, |c.merged|, c.snapshot, c.input, c.pick.level) <==> InFiles(outputs, e)
    ensures var after := Stored(db.mem, db.imm, VersionAfterReplace(db.version, db.compaction.value.pick, outputs));
            StoredOk(after, db.history) && (ReadsOk(after, db.history, MinLive(db)) <==> !FinishResurrects(db))
  {
    var c := db.compaction.value;
    var rest := RestEntries(db, c.pick);
    var kept := Kept(c.merged, |c.merged|, c.snapshot, c.input, c.pick.level);
    HistoryUnique(db);
    StoredSplit(db, c.pick, c.merged);
    StoredAfter(db, c.pick, outputs, kept);
    KeptIsSubset(c.merged, c.snapshot, c.input, c.pick.level);
    CompactionPreservesReads(rest, c.merged, c.snapshot, MinLive(db), c.input, c.pick.level);
    SameReadsSides(StoredEntries(db), With(rest, kept), HistoryEntries(db.history), MinLive(db));
  }

  lemma {:induction false} FinishPieces(db: Db, outputs: seq<File>)
    requires Inv(db) && db.compaction.Some? && ValidOutputs(db.version, db.nextFile, db.compaction.value, outputs)
    ensures var v' := VersionAfterReplace(db.version, db.compaction.value.pick, outputs);
            && MemOk(db.mem, db.imm, v') && FilesOk(v', db.nextFile)
            && StoredOk(Stored(db.mem, db.imm, v'), db.history)
            && (ReadsOk(Stored(db.mem, db.imm, v'), db.history, MinLive(db)) <==> !FinishResurrects(db))
  {
    var v, c := db.version, db.compaction.value;
    OutputsAreNew(v, db.nextFile, c, outputs, MinLive(db));
    ReplaceKeepsFiles(v, db.nextFile, c.pick, outputs);
    ReplaceKeepsMem(db.mem, db.imm, v, c.pick, outputs);
    FinishReads(db, outputs);
  }

  lemma {:induction false} FinishKeeps(db: Db, step: Step)
    requires Inv(db) && step.FinishCompaction? && Enabled(db, step) && !FinishResurrects(db)
    ensures Inv(Apply(db, step))
  {
    FinishPieces(db, step.outputs);
    WithVersion(db, VersionAfterReplace(db.version, db.compaction.value.pick, step.outputs));
  }

  // ---- The main results ----

  lemma {:induction false} StepKeeps(db: Db, step: Step)
    requires Inv(db) && Enabled(db, step) && SafeStep(db, step)
    ensures Inv(Apply(db, step))
  {
    match step
    case Insert(_, _, _) => InsertKeeps(db, step);
    case SkipNumbers(_) => BookkeepingKeeps(db, step);
    case Publish => BookkeepingKeeps(db, step);
    case SwitchMemTable => SwitchKeeps(db, step);
    case TakeSnapshot => BookkeepingKeeps(db, step);
    case ReleaseSnapshot(_) => BookkeepingKeeps(db, step);
    case ReserveFileNumber => BookkeepingKeeps(db, step);
    case FlushMemTable(_, _) => FlushKeeps(db, step);
    case BeginCompaction(_, _) => BeginKeeps(db, step);
    case MoveTable(_) => MoveKeeps(db, step);
    case FinishCompaction(_) => FinishKeeps(db, step);
    case AbandonCompaction => BookkeepingKeeps(db, step);
  }

  /** Every reachable state keeps the level order, the closure of a running compaction's inputs,
      and every answer that a live snapshot can ask for. */
  lemma {:induction false} RunsKeepInv(db: Db, steps: seq<Step>)
    requires Reached(db, steps)
    ensures Inv(db)
    decreases |steps|
  {
    if steps == [] {
      InitialInv();
    } else {
      var init, last := steps[..|steps| - 1], steps[|steps| - 1];
      var prev :| Reached(prev, init) && Leads(prev, last, db);
      RunsKeepInv(prev, init);
      StepKeeps(prev, last);
    }
  }

  lemma {:induction false} InitialInv()
    ensures Inv(InitialDb())
  {
    var db := InitialDb();
    forall l | 0 <= l < NUM_LEVELS ensures db.version.files[l] == [] {
    }
    assert VersionOk(db.version);
    hide VersionOk;
    assert forall e :: e !in StoredEntries(db);
  }

  // The flat scan and the set of history entries agree.
  lemma {:induction false} FlatReadIs(history: seq<Entry>, k: UserKey, s: nat)
    requires forall i, j :: 0 <= i < j < |history| ==> history[i].key.sequence < history[j].key.sequence
    ensures ReadIs(HistoryEntries(history), k, s, FlatRead(history, k, s))
  {
    if history != [] {
      var init, last := history[..|history| - 1], history[|history| - 1];
      FlatReadIs(init, k, s);
      forall x | x in init ensures x.key.sequence < last.key.sequence {
      }
      AddNewestRead(HistoryEntries(init), HistoryEntries(history), last, k, s, FlatRead(history, k, s));
    }
  }

  /** DBImpl::Get at a live snapshot. The reader took its memtables and version under the mutex in
      state db; `memNow` is the memtable when it is searched, which may hold later insertions. */
  method Get(db: Db, memNow: seq<Entry>, k: UserKey, s: nat) returns (r: Option<Bytes>)
    requires Inv(db) && MinLive(db) <= s <= db.lastSequence
    requires SortedEntries(memNow) && forall e :: e in db.mem ==> e in memNow
    requires forall e :: e in memNow ==> e in db.mem || e.key.sequence > db.lastSequence
    ensures r == FlatRead(db.history, k, s)
  {
    VersionOkIsOrdered(db.version);
    var state := SaveValue(memNow, k, s);
    SaveValueFindsNewest(memNow, k, s);
    if state != NotFound {
      r := Shown(state.e);
      NewestInMem(db, k, s, state.e);
    } else {
      state := SaveValue(ImmEntries(db.imm), k, s);
      SaveValueFindsNewest(ImmEntries(db.imm), k, s);
      if state != NotFound {
        r := Shown(state.e);
        NewestInImm(db, k, s, state.e);
      } else {
        r, state := FileSearch.Get(db.version, k, s);
        NewestInFiles(db, k, s, state, r);
      }
    }
    AnswerIsFlat(db, k, s, r);
  }

  lemma {:induction false} AnswerIsFlat(db: Db, k: UserKey, s: nat, r: Option<Bytes>)
    requires Inv(db) && MinLive(db) <= s && ReadIs(StoredEntries(db), k, s, r)
    ensures r == FlatRead(db.history, k, s)
  {
    HistoryUnique(db);
    FlatReadIs(db.history, k, s);
    assert ReadIs(HistoryEntries(db.history), k, s, r);
    ReadIsUnique(HistoryEntries(db.history), k, s, r, FlatRead(db.history, k, s));
  }

  lemma {:induction false} NewestInMem(db: Db, k: UserKey, s: nat, e: Entry)
    requires MemOk(db.mem, db.imm, db.version) && NewestIn(db.mem, k, s, e)
    ensures ReadIs(StoredEntries(db), k, s, Shown(e))
  {
    assert IsNewest(StoredEntries(db), k, s, e);
  }

  lemma {:induction false} NewestInImm(db: Db, k: UserKey, s: nat, e: Entry)
    requires MemOk(db.mem, db.imm, db.version) && NoneIn(db.mem, k, s) && NewestIn(ImmEntries(db.imm), k, s, e)
    ensures ReadIs(StoredEntries(db), k, s, Shown(e))
  {
    assert IsNewest(StoredEntries(db), k, s, e);
  }

  lemma {:induction false} NewestInFiles(db: Db, k: UserKey, s: nat, state: SaverState, r: Option<Bytes>)
    requires NoneIn(db.mem, k, s) && NoneIn(ImmEntries(db.imm), k, s)
    requires match state
             case NotFound => r == None && forall e :: InVersion(db.version, e) && e.key.user == k ==> e.key.sequence > s
             case Found(e) => r == Some(e.value) && e.key.kind.Value? && IsNewest(VersionEntries(db.version), k, s, e)
             case Deleted(e) => r == None && e.key.kind.Deletion? && IsNewest(VersionEntries(db.version), k, s, e)
    ensures ReadIs(StoredEntries(db), k, s, r)
  {
    if state != NotFound {
      assert IsNewest(StoredEntries(db), k, s, state.e);
      assert r == Shown(state.e);
    }
  }
}
