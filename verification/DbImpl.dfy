/** The background thread's critical sections (db/db_impl.cc, VersionSet::LogAndApply): the algorithms
    that choose and install tables only ever take steps that the state machine enables. */
module DbImpl {
  import opened Coding
  import opened Options
  import opened Keys
  import opened Store
  import opened InputSelection
  import opened CompactionPick
  import opened SetupInputs
  import opened CompactionWork
  import opened VersionBuilder
  import opened Lsm
  import opened VersionSteps
  import opened ReplaceSteps
  import opened LsmInvariant

  // ---- Edits ----

  function Deletions(level: nat, fs: seq<File>): seq<(nat, nat)> {
    seq(|fs|, i requires 0 <= i < |fs| => (level, fs[i].number))
  }

  function Additions(level: nat, fs: seq<File>): seq<(nat, File)> {
    seq(|fs|, i requires 0 <= i < |fs| => (level, fs[i]))
  }

  // AddInputDeletions and the additions of InstallCompactionResults; a trivial move is the case outputs == in0.
  function CompactionEdit(c: Pick, outputs: seq<File>): VersionEdit {
    VersionEdit(Deletions(c.level, c.in0) + Deletions(c.level + 1, c.in1), Additions(c.level + 1, outputs))
  }

  // WriteLevel0Table adds no table for an empty memtable.
  function FlushEdit(level: nat, tables: seq<File>): VersionEdit {
    VersionEdit([], Additions(level, tables))
  }

  lemma {:induction false} DeletionsOf(l: nat, level: nat, fs: seq<File>)
    ensures DeletedNumbers(l, Deletions(level, fs)) == if l == level then Numbers(fs) else {}
  {
    if fs != [] {
      var init, last := fs[..|fs| - 1], fs[|fs| - 1];
      DeletionsOf(l, level, init);
      assert Deletions(level, fs)[..|fs| - 1] == Deletions(level, init);
      assert forall f :: f in fs <==> f in init || f == last;
      assert Numbers(fs) == Numbers(init) + {last.number};
    }
  }

  lemma {:induction false} DeletionsAppend(l: nat, a: seq<(nat, nat)>, b: seq<(nat, nat)>)
    ensures DeletedNumbers(l, a + b) == DeletedNumbers(l, a) + DeletedNumbers(l, b)
  {
    if b == [] {
      assert a + b == a;
    } else {
      DeletionsAppend(l, a, b[..|b| - 1]);
      assert (a + b)[..|a + b| - 1] == a + b[..|b| - 1];
    }
  }

  function FileSet(fs: seq<File>): set<File> {
    set f | f in fs
  }

  lemma {:induction false} AdditionsOf(l: nat, level: nat, fs: seq<File>)
    requires DistinctNumbers(fs)
    ensures AddedFiles(l, Additions(level, fs)) == if l == level then FileSet(fs) else {}
    ensures AddsNew([], l, Additions(level, fs))
  {
    if fs != [] {
      var init, last := fs[..|fs| - 1], fs[|fs| - 1];
      AdditionsOf(l, level, init);
      assert Additions(level, fs)[..|fs| - 1] == Additions(level, init);
      assert forall f :: f in fs <==> f in init || f == last;
      assert forall f :: f in init ==> f.number != last.number;
    }
  }

  // The tables an edit with these additions leaves on level l.
  lemma {:induction false} EditMembers(fs: seq<File>, l: nat, deleted: seq<(nat, nat)>, level: nat, added: seq<File>, r: seq<File>)
    requires DistinctNumbers(added) && IsReplayedLevel(fs, l, [VersionEdit(deleted, Additions(level, added))], r)
    ensures SortedBySmallest(r)
    ensures forall f :: f in r <==>
      if l == level then f in added || (f in fs && f.number !in DeletedNumbers(l, deleted) - Numbers(added))
      else f in fs && f.number !in DeletedNumbers(l, deleted)
  {
    var e := VersionEdit(deleted, Additions(level, added));
    AdditionsOf(l, level, added);
    OneEdit(fs, l, e, r);
    assert forall f :: f in added ==> f.number in Numbers(added);
    assert l == level ==> AddedNumbers(l, e.added) == Numbers(added);
  }

  // What the builder needs: no added number is on the level already.
  lemma {:induction false} AddedDisjoint(fs: seq<File>, l: nat, deleted: seq<(nat, nat)>, level: nat, added: seq<File>)
    requires DistinctNumbers(added) && (l == level ==> Numbers(fs) !! Numbers(added))
    ensures DisjointNumbers(fs, AfterEdits(NOTHING, l, [VersionEdit(deleted, Additions(level, added))]).added)
  {
    var e := VersionEdit(deleted, Additions(level, added));
    var es := [e];
    assert es[..|es| - 1] == [];
    AdditionsOf(l, level, added);
    DeletesKeepAdded(NOTHING, l, deleted);
    AddsMembers(AfterDeletes(NOTHING, l, deleted), l, e.added);
    assert AfterEdits(NOTHING, l, es) == AfterAdds(AfterDeletes(NOTHING, l, deleted), l, e.added);
    var r := AfterEdits(NOTHING, l, es).added;
    assert forall f :: f in r ==> l == level && f in FileSet(added);
  }

  /** LogAndApply: the new version is the current one with a single edit built in. */
  method LogAndApply(v: Version, deleted: seq<(nat, nat)>, level: nat, added: seq<File>) returns (v': Version)
    requires VersionOk(v) && level < NUM_LEVELS && (forall i :: 0 <= i < |deleted| ==> deleted[i].0 < NUM_LEVELS)
    requires DistinctNumbers(added) && Numbers(v.files[level]) !! Numbers(added)
    ensures IsReplay(v, [VersionEdit(deleted, Additions(level, added))], v')
  {
    var edit := VersionEdit(deleted, Additions(level, added));
    forall l | 0 <= l < NUM_LEVELS
      ensures SortedBySmallest(v.files[l]) && DisjointNumbers(v.files[l], AfterEdits(NOTHING, l, [edit]).added)
    {
      assert LevelOk(l, v.files[l]);
      AddedDisjoint(v.files[l], l, deleted, level, added);
    }
    hide VersionOk, DisjointNumbers, AfterEdits, IsReplay;
    var builder := new Builder(v);
    builder.Apply(edit);
    assert builder.edits == [edit];
    v' := builder.SaveTo();
  }

  // ---- Installing the results of a compaction ----

  lemma {:induction false} ReplacedByEdit(v: Version, c: Pick, outputs: seq<File>, v': Version)
    requires VersionOk(v) && ClosedInputs(v, c) && NewTables(v, c, outputs)
    requires Numbers(v.files[c.level + 1]) !! Numbers(outputs)
    requires IsReplay(v, [CompactionEdit(c, outputs)], v')
    ensures v' == VersionAfterReplace(v, c, outputs)
  {
    var w := VersionAfterReplace(v, c, outputs);
    ReplaceKeepsVersionOk(v, c, outputs);
    OutputLevelOk(v, c, outputs);
    forall l | 0 <= l < NUM_LEVELS ensures v'.files[l] == w.files[l] {
      assert IsReplayedLevel(v.files[l], l, [CompactionEdit(c, outputs)], v'.files[l]);
      assert LevelOk(l, w.files[l]) && LevelOk(l, v.files[l]);
      ReplacedLevelByEdit(v, c, outputs, l, v'.files[l]);
    }
    assert v'.files == w.files;
  }

  lemma {:induction false} ReplacedLevelByEdit(v: Version, c: Pick, outputs: seq<File>, l: nat, r: seq<File>)
    requires |v.files| == NUM_LEVELS && c.level + 1 < NUM_LEVELS && l < NUM_LEVELS
    requires OutputMembers(v, c, outputs) && DistinctNumbers(outputs)
    requires Numbers(v.files[c.level + 1]) !! Numbers(outputs)
    requires IsReplayedLevel(v.files[l], l, [CompactionEdit(c, outputs)], r)
    requires SortedBySmallest(VersionAfterReplace(v, c, outputs).files[l])
    ensures r == VersionAfterReplace(v, c, outputs).files[l]
  {
    hide InsertFiles, Remaining, DeletedNumbers, IsReplayedLevel, Live, Deletions, Numbers, SortedBySmallest, DistinctNumbers, OutputMembers;
    var w := VersionAfterReplace(v, c, outputs).files[l];
    var d0, d1 := Deletions(c.level, c.in0), Deletions(c.level + 1, c.in1);
    EditMembers(v.files[l], l, d0 + d1, c.level + 1, outputs, r);
    forall f ensures f in r <==> f in w {
      ReplacedMember(v, c, outputs, l, f);
    }
    SortedUnique(r, w);
  }

  // Which tables the edit leaves at level l, and which the replacement does.
  lemma {:induction false} ReplacedMember(v: Version, c: Pick, outputs: seq<File>, l: nat, f: File)
    requires |v.files| == NUM_LEVELS && c.level + 1 < NUM_LEVELS && l < NUM_LEVELS
    requires OutputMembers(v, c, outputs) && Numbers(v.files[c.level + 1]) !! Numbers(outputs)
    ensures
      var dead := DeletedNumbers(l, Deletions(c.level, c.in0) + Deletions(c.level + 1, c.in1));
      f in VersionAfterReplace(v, c, outputs).files[l] <==>
        if l == c.level + 1 then f in outputs || (f in v.files[l] && f.number !in dead - Numbers(outputs))
        else f in v.files[l] && f.number !in dead
  {
    hide InsertFiles, DeletedNumbers, Live, Deletions;
    DeletionsAppend(l, Deletions(c.level, c.in0), Deletions(c.level + 1, c.in1));
    DeletionsOf(l, c.level, c.in0);
    DeletionsOf(l, c.level + 1, c.in1);
    LiveMembers(v.files[l], Numbers(c.in0));
    LiveMembers(v.files[l], Numbers(c.in1));
    hide Numbers;
    NumberIn(v.files[l], f);
  }

  lemma {:induction false} NumberIn(fs: seq<File>, f: File)
    ensures f in fs ==> f.number in Numbers(fs)
  {
  }

  // ---- CompactMemTable ----

  function TablesOf(es: seq<Entry>, number: nat, size: nat): seq<File> {
    if es == [] then [] else [TableOf(es, number, size)]
  }

  // The table of a flush goes as deep as it may: it overlaps nothing down to `level`, and that is the
  // first level with a reason not to go deeper.
  ghost predicate DeepestFit(v: Version, level: nat, r: Range, maxFileSize: nat)
    requires |v.files| == NUM_LEVELS
  {
    && level <= MAX_MEM_COMPACT_LEVEL
    && (level > 0 ==> forall l, f :: 0 <= l <= level && f in v.files[l] ==> !Overlaps(f, r))
    && (level < MAX_MEM_COMPACT_LEVEL ==> StopsAt(v, level, r, maxFileSize))
    && (forall l :: 0 <= l < level ==> !StopsAt(v, l, r, maxFileSize))
  }

  /** CompactMemTable: the table goes to the level that PickLevelForMemTableOutput finds, whatever
      compaction is running. */
  method CompactMemTable(db: Db, size: nat, maxFileSize: nat) returns (ghost step: Step, v': Version)
    requires Inv(db) && db.imm.Some?
    ensures step.FlushMemTable? && step.size == size && Enabled(db, step) && v' == Apply(db, step).version
    ensures Inv(Apply(db, step))
    ensures
      var es := db.imm.value;
      es != [] ==> DeepestFit(db.version, step.level, Range(Some(es[0].key.user), Some(es[|es| - 1].key.user)), maxFileSize)
  {
    hide Inv, VersionOk, ValidVersion, Enabled, Apply, IsReplay, StopsAt, Overlaps, FlushFits;
    var es := db.imm.value;
    var level := 0;
    VersionIsValid(db);
    if es != [] {
      level := PickLevelForMemTableOutput(db.version, es[0].key.user, es[|es| - 1].key.user, maxFileSize);
    }
    step := FlushMemTable(level, size);
    FitsFlush(db, level, size);
    FlushEnabled(db, level, size);
    v' := LogAndApply(db.version, [], level, TablesOf(es, db.nextFile, size));
    FlushedByEdit(db, step, v');
  }

  lemma {:induction false} VersionIsValid(db: Db)
    requires Inv(db)
    ensures VersionOk(db.version) && ValidVersion(db.version) && |db.version.files| == NUM_LEVELS
  {
    VersionOkIsOrdered(db.version);
  }

  lemma {:induction false} FitsFlush(db: Db, level: nat, size: nat)
    requires |db.version.files| == NUM_LEVELS && db.imm.Some? && level < NUM_LEVELS
    requires
      var es := db.imm.value;
      es != [] && level > 0 ==>
        forall l, f :: 0 <= l <= level && f in db.version.files[l] ==> !Overlaps(f, Range(Some(es[0].key.user), Some(es[|es| - 1].key.user)))
    ensures db.imm.value != [] && level > 0 ==> FlushFits(db.version, level, TableOf(db.imm.value, db.nextFile, size))
  {
    hide Overlaps;
  }

  lemma {:induction false} FlushEnabled(db: Db, level: nat, size: nat)
    requires Inv(db) && db.imm.Some? && level < NUM_LEVELS
    requires db.imm.value != [] && level > 0 ==> FlushFits(db.version, level, TableOf(db.imm.value, db.nextFile, size))
    ensures Enabled(db, FlushMemTable(level, size)) && Inv(Apply(db, FlushMemTable(level, size)))
    ensures Numbers(db.version.files[level]) !! Numbers(TablesOf(db.imm.value, db.nextFile, size))
  {
    FlushNumberUnused(db, level, size);
    StepKeeps(db, FlushMemTable(level, size));
  }

  lemma {:induction false} FlushNumberUnused(db: Db, level: nat, size: nat)
    requires FilesOk(db.version, db.nextFile) && db.imm.Some? && level < NUM_LEVELS
    ensures Numbers(db.version.files[level]) !! Numbers(TablesOf(db.imm.value, db.nextFile, size))
  {
    assert forall f :: f in db.version.files[level] ==> f.number < db.nextFile;
  }

  lemma {:induction false} FlushedByEdit(db: Db, step: Step, v': Version)
    requires Inv(db) && step.FlushMemTable? && Enabled(db, step) && Inv(Apply(db, step))
    requires IsReplay(db.version, [FlushEdit(step.level, TablesOf(db.imm.value, db.nextFile, step.size))], v')
    ensures v' == Apply(db, step).version
  {
    var tables := TablesOf(db.imm.value, db.nextFile, step.size);
    var w := Apply(db, step).version;
    hide HistoryOk, SnapshotsOk, MemOk, StoredOk, StoredEntries, CompactionOk, ReadsOk, LevelOrder, NewerByNumber, FlushFits, IsReplayedLevel, InsertFile;
    FlushNumberUnused(db, step.level, step.size);
    forall l | 0 <= l < NUM_LEVELS ensures v'.files[l] == w.files[l] {
      assert LevelOk(l, w.files[l]) && LevelOk(l, db.version.files[l]);
      assert IsReplayedLevel(db.version.files[l], l, [FlushEdit(step.level, tables)], v'.files[l]);
      FlushedLevelByEdit(db.version.files[l], l, step.level, tables, v'.files[l], w.files[l]);
    }
    assert v'.files == w.files;
  }

  lemma {:induction false} FlushedLevelByEdit(fs: seq<File>, l: nat, level: nat, tables: seq<File>, r: seq<File>, w: seq<File>)
    requires |tables| <= 1 && (l == level ==> Numbers(fs) !! Numbers(tables))
    requires IsReplayedLevel(fs, l, [FlushEdit(level, tables)], r)
    requires SortedBySmallest(w) && w == if l == level && tables != [] then InsertFile(fs, tables[0]) else fs
    ensures r == w
  {
    EditMembers(fs, l, [], level, tables, r);
    if tables != [] {
      assert tables[0].number in Numbers(tables);
      InsertFileMembers(fs, tables[0]);
    }
    assert tables != [] ==> forall f :: f in tables <==> f == tables[0];
    SortedUnique(r, w);
  }
}
