/** A run of the database in which a deleted key comes back.

    Every step is one the code can take. K is written and flushed; under a snapshot it is deleted,
    and the deletion is compacted with the old value. The snapshot keeps both, and the output is cut
    between them. The snapshot is released, J is written again, and the next compaction picks the
    table that ends in the deletion of K but not the one that goes on with K. */
module HazardRun {
  import opened Options
  import opened Keys
  import opened Store
  import opened FileSearch
  import opened InputSelection
  import opened CompactionPick
  import opened CompactionWork
  import opened VersionBuilder
  import opened Lsm
  import opened ReplaceSteps
  import opened LsmInvariant
  import opened BoundaryHazard

  const J: UserKey := 1.0
  const K: UserKey := 2.0
  const OLD := Entry(InternalKey(K, 1, Value), [7])
  const GONE := Entry(InternalKey(K, 2, Deletion), [])
  const J3 := Entry(InternalKey(J, 3, Value), [8])
  const J4 := Entry(InternalKey(J, 4, Value), [9])

  const BASE := File(2, 100, OLD.key, OLD.key, [OLD])
  const DELTA := File(3, 100, J3.key, GONE.key, [J3, GONE])
  const LEFT := File(4, 100, J3.key, GONE.key, [J3, GONE])
  const RIGHT := File(5, 100, OLD.key, OLD.key, [OLD])
  const UPPER := File(6, 100, J4.key, J4.key, [J4])
  const MERGED := File(7, 100, J4.key, J4.key, [J4])

  const FIRST_PICK := Pick(1, [DELTA], [BASE])
  const FIRST_MERGE: seq<Entry> := [J3, GONE, OLD]
  const HAZARD_PICK := Pick(1, [UPPER], [LEFT])
  const HAZARD_MERGE: seq<Entry> := [J4, J3, GONE]

  // The tables of levels 1 and 2; the other levels stay empty.
  function At(one: seq<File>, two: seq<File>): (v: Version)
    ensures |v.files| == NUM_LEVELS
  {
    Version([[], one, two, [], [], [], []])
  }

  lemma {:induction false} IsAt(v: Version, one: seq<File>, two: seq<File>)
    requires |v.files| == NUM_LEVELS && v.files[1] == one && v.files[2] == two
    requires forall l :: 0 <= l < NUM_LEVELS && l != 1 && l != 2 ==> v.files[l] == []
    ensures v == At(one, two)
  {
    forall l | 0 <= l < NUM_LEVELS ensures v.files[l] == At(one, two).files[l] {
    }
    assert v.files == At(one, two).files;
  }

  ghost predicate Reachable(db: Db) {
    exists steps :: LsmInvariant.Reached(db, steps)
  }

  lemma {:induction false} ReachableInv(db: Db)
    requires Reachable(db)
    ensures Inv(db)
  {
    var steps :| LsmInvariant.Reached(db, steps);
    RunsKeepInv(db, steps);
  }

  lemma {:induction false} Take(db: Db, step: Step, db': Db)
    requires Reachable(db) && CompactionOk(db) && Enabled(db, step) && SafeStep(db, step) && db' == Apply(db, step)
    ensures Reachable(db')
  {
    hide LsmInvariant.Reached, Enabled, SafeStep, Apply, RunningOk;
    var steps :| LsmInvariant.Reached(db, steps);
    TakeAfter(db, steps, step);
    assert LsmInvariant.Reached(db', steps + [step]);
  }

  lemma {:induction false} TakeAfter(db: Db, steps: seq<Step>, step: Step)
    requires LsmInvariant.Reached(db, steps) && CompactionOk(db) && Enabled(db, step) && SafeStep(db, step)
    ensures LsmInvariant.Reached(Apply(db, step), steps + [step])
  {
    hide Enabled, SafeStep, Apply, HistoryOk;
    var all := steps + [step];
    assert all[..|all| - 1] == steps && all[|all| - 1] == step;
    assert Leads(db, step, Apply(db, step));
  }

  // A step while no compaction runs.
  lemma {:induction false} TakeQuiet(db: Db, step: Step, db': Db)
    requires Reachable(db) && |db.version.files| == NUM_LEVELS && db.compaction == None
    requires Enabled(db, step) && db' == Apply(db, step)
    ensures Reachable(db')
  {
    hide Reachable, Enabled, Apply;
    Take(db, step, db');
  }

  lemma {:induction false} Initially()
    ensures Reachable(Db([], 0, 0, [], [], None, At([], []), 2, None))
  {
    assert InitialDb().version == At([], []);
    assert LsmInvariant.Reached(InitialDb(), []);
  }

  // ---- K is written, flushed, snapshot and deleted ----

  lemma {:induction false} Written()
    ensures Reachable(Db([OLD], 1, 1, [], [OLD], None, At([], []), 2, None))
  {
    hide Reachable, At;
    var v := At([], []);
    Initially();
    var d := Db([OLD], 1, 0, [], [OLD], None, v, 2, None);
    TakeQuiet(Db([], 0, 0, [], [], None, v, 2, None), Insert(Value, K, [7]), d);
    TakeQuiet(d, Publish, d.(lastSequence := 1));
  }

  lemma {:induction false} Flushed()
    ensures Reachable(Db([OLD], 1, 1, [1], [], None, At([], [BASE]), 3, None))
  {
    hide Reachable, At;
    Written();
    var d := Db([OLD], 1, 1, [], [], Some([OLD]), At([], []), 2, None);
    TakeQuiet(Db([OLD], 1, 1, [], [OLD], None, At([], []), 2, None), SwitchMemTable, d);
    FlushBase();
    var d' := Db([OLD], 1, 1, [], [], None, At([], [BASE]), 3, None);
    TakeQuiet(d, FlushMemTable(2, 100), d');
    TakeQuiet(d', TakeSnapshot, d'.(snapshots := [1]));
  }

  lemma {:induction false} FlushBase()
    ensures TableOf([OLD], 2, 100) == BASE && FlushFits(At([], []), 2, BASE)
    ensures VersionAfterFlush(At([], []), 2, BASE) == At([], [BASE])
  {
    IsAt(VersionAfterFlush(At([], []), 2, BASE), [], [BASE]);
  }

  lemma {:induction false} Deleted()
    ensures Reachable(Db([OLD, GONE, J3], 3, 3, [1], [J3, GONE], None, At([], [BASE]), 3, None))
  {
    hide Reachable, At;
    Flushed();
    var d := Db([OLD], 1, 1, [1], [], None, At([], [BASE]), 3, None);
    var d' := Db([OLD, GONE], 2, 1, [1], [GONE], None, At([], [BASE]), 3, None);
    TakeQuiet(d, Insert(Deletion, K, []), d');
    var d'' := Db([OLD, GONE, J3], 3, 1, [1], [J3, GONE], None, At([], [BASE]), 3, None);
    TakeQuiet(d', Insert(Value, J, [8]), d'');
    TakeQuiet(d'', Publish, d''.(lastSequence := 3));
  }

  lemma {:induction false} FlushDelta()
    ensures TableOf([J3, GONE], 3, 100) == DELTA && FlushFits(At([], [BASE]), 1, DELTA)
    ensures VersionAfterFlush(At([], [BASE]), 1, DELTA) == At([DELTA], [BASE])
  {
    IsAt(VersionAfterFlush(At([], [BASE]), 1, DELTA), [DELTA], [BASE]);
  }

  lemma {:induction false} FlushedAgain()
    ensures Reachable(Db([OLD, GONE, J3], 3, 3, [1], [], None, At([DELTA], [BASE]), 4, None))
  {
    hide Reachable, At;
    Deleted();
    var d := Db([OLD, GONE, J3], 3, 3, [1], [], Some([J3, GONE]), At([], [BASE]), 3, None);
    TakeQuiet(Db([OLD, GONE, J3], 3, 3, [1], [J3, GONE], None, At([], [BASE]), 3, None), SwitchMemTable, d);
    FlushDelta();
    TakeQuiet(d, FlushMemTable(1, 100), Db([OLD, GONE, J3], 3, 3, [1], [], None, At([DELTA], [BASE]), 4, None));
  }

  // ---- The first compaction cuts its output between the deletion and the old value ----

  lemma {:induction false} RangeOfPair(f: File, g: File)
    ensures UserRange([f]) == Range(Some(f.smallest.user), Some(f.largest.user))
    ensures SmallestOf([f, g]) == MinKey(f.smallest, g.smallest) && LargestOf([f, g]) == MaxKey(f.largest, g.largest)
  {
    assert [f, g][..1] == [f];
  }

  lemma {:induction false} PairEntries(f: File, g: File, e: Entry)
    ensures InFiles([f, g], e) <==> e in f.entries || e in g.entries
  {
    var fs := [f, g];
    assert fs[0] == f && fs[1] == g;
  }

  // The first table of two reaches over the whole range of both.
  lemma {:induction false} PairSpans(f: File, g: File, w: File)
    requires w == f || w == g
    requires w.smallest.user == SmallestOf([f, g]).user && w.largest.user == LargestOf([f, g]).user
    ensures Spans([f, g])
  {
    var fs := [f, g];
    assert fs[0] == f && fs[1] == g && w in fs;
    var r := UserRange(fs);
    forall u: UserKey | r.lo.value <= u <= r.hi.value ensures Covered(fs, u) {
      assert UserRangeContains(w, u);
    }
  }

  lemma {:induction false} FirstPick()
    ensures ValidPick(At([DELTA], [BASE]), FIRST_PICK) && IsMerge(FIRST_MERGE, [DELTA] + [BASE])
  {
    assert [DELTA] + [BASE] == [DELTA, BASE] && [BASE][..0] == [];
    RangeOfPair(DELTA, BASE);
    PairSpans(DELTA, BASE, DELTA);
    forall e ensures e in FIRST_MERGE <==> InFiles([DELTA, BASE], e) {
      PairEntries(DELTA, BASE, e);
    }
    hide Spans, InFiles, SmallestOf, LargestOf;
    assert Overlapping([BASE], UserRange([DELTA])) == [BASE];
  }

  lemma {:induction false} FirstKept(v: Version)
    requires |v.files| == NUM_LEVELS
    ensures Kept(FIRST_MERGE, 3, 1, v, 1) == FIRST_MERGE
  {
    assert Kept(FIRST_MERGE, 1, 1, v, 1) == [J3];
    assert Kept(FIRST_MERGE, 2, 1, v, 1) == [J3, GONE];
  }

  lemma {:induction false} FlattenPair(a: File, b: File)
    ensures Flatten(Contents([a, b])) == a.entries + b.entries
  {
    ContentsSnoc([a, b]);
    assert [a, b][..1] == [a];
    FlattenOne(a);
  }

  lemma {:induction false} FlattenOne(a: File)
    ensures Flatten(Contents([a])) == a.entries
  {
    ContentsSnoc([a]);
    assert [a][..0] == [];
  }

  lemma {:induction false} FirstOutputs(v: Version)
    requires v == At([DELTA], [BASE])
    ensures ValidOutputs(v, 6, Running(FIRST_PICK, v, 1, FIRST_MERGE), [LEFT, RIGHT])
  {
    FirstKept(v);
    FlattenPair(LEFT, RIGHT);
    hide Kept, Flatten;
    assert LEFT.entries + RIGHT.entries == FIRST_MERGE;
  }

  lemma {:induction false} LiveOne(f: File)
    ensures Live([f], Numbers([f])) == []
  {
    assert f in [f] && f.number in Numbers([f]);
    assert [f][..0] == [];
  }

  lemma {:induction false} FirstReplaced()
    ensures VersionAfterReplace(At([DELTA], [BASE]), FIRST_PICK, [LEFT, RIGHT]) == At([], [LEFT, RIGHT])
  {
    LiveOne(DELTA);
    LiveOne(BASE);
    assert [LEFT, RIGHT][..1] == [LEFT] && [LEFT][..0] == [];
    assert InsertFiles([], [LEFT]) == [LEFT];
    assert InsertFile([LEFT], RIGHT) == [LEFT, RIGHT] by {
      assert InsertFile([LEFT][1..], RIGHT) == [RIGHT];
    }
    assert InsertFiles([], [LEFT, RIGHT]) == [LEFT, RIGHT];
    IsAt(VersionAfterReplace(At([DELTA], [BASE]), FIRST_PICK, [LEFT, RIGHT]), [], [LEFT, RIGHT]);
  }

  lemma {:induction false} Compacting()
    ensures Reachable(Db([OLD, GONE, J3], 3, 3, [1], [], None, At([DELTA], [BASE]), 6,
                         Some(Running(FIRST_PICK, At([DELTA], [BASE]), 1, FIRST_MERGE))))
  {
    hide Reachable, At, ValidPick, IsMerge;
    FlushedAgain();
    FirstPick();
    var v := At([DELTA], [BASE]);
    var d := Db([OLD, GONE, J3], 3, 3, [1], [], None, v, 4, None);
    var d' := d.(compaction := Some(Running(FIRST_PICK, v, 1, FIRST_MERGE)));
    TakeQuiet(d, BeginCompaction(FIRST_PICK, FIRST_MERGE), d');
    Reserve(d');
    Reserve(d'.(nextFile := 5));
  }

  lemma {:induction false} Reserve(db: Db)
    requires Reachable(db)
    ensures Reachable(db.(nextFile := db.nextFile + 1))
  {
    ReachableInv(db);
    hide Reachable, HistoryOk, SnapshotsOk, MemOk, FilesOk, StoredOk, ReadsOk;
    Take(db, ReserveFileNumber, db.(nextFile := db.nextFile + 1));
  }

  lemma {:induction false} FirstEndsCleanly()
    ensures EndsCleanly(At([DELTA], [BASE]), FIRST_PICK)
  {
    assert LargestOf([BASE]) == OLD.key;
  }

  // Installing outputs whose pick ended cleanly.
  lemma {:induction false} CleanFinish(db: Db, outputs: seq<File>)
    requires Reachable(db) && db.compaction.Some? && |db.version.files| == NUM_LEVELS
    requires var c := db.compaction.value;
             c.pick.level + 1 < |c.input.files| && EndsCleanly(c.input, c.pick) &&
             |c.input.files| == NUM_LEVELS && ValidOutputs(db.version, db.nextFile, c, outputs)
    ensures CompactionOk(db) && Enabled(db, FinishCompaction(outputs)) && SafeStep(db, FinishCompaction(outputs))
    ensures Inv(db)
  {
    hide Reachable, HistoryOk, SnapshotsOk, MemOk, FilesOk, StoredOk, ReadsOk, ValidOutputs, FinishResurrects, EndsCleanly, IsMerge, RunningOk;
    ReachableInv(db);
    if FinishResurrects(db) {
      ResurrectionNeedsBoundary(db);
    }
  }

  lemma {:induction false} Compacted()
    ensures Reachable(Db([OLD, GONE, J3], 3, 3, [], [], None, At([], [LEFT, RIGHT]), 6, None))
  {
    hide Reachable, At, Inv, CompactionOk, ValidPick, IsMerge, ValidOutputs, SafeStep, VersionAfterReplace, EndsCleanly;
    var v := At([DELTA], [BASE]);
    var d := Db([OLD, GONE, J3], 3, 3, [1], [], None, v, 6, Some(Running(FIRST_PICK, v, 1, FIRST_MERGE)));
    var d' := Db([OLD, GONE, J3], 3, 3, [1], [], None, At([], [LEFT, RIGHT]), 6, None);
    Compacting();
    FirstEndsCleanly();
    FirstOutputs(v);
    FirstReplaced();
    CleanFinish(d, [LEFT, RIGHT]);
    Take(d, FinishCompaction([LEFT, RIGHT]), d');
    TakeQuiet(d', ReleaseSnapshot(0), d'.(snapshots := []));
  }

  // ---- J is written again, and the second compaction misses the other half of K ----

  function HazardDb(): Db {
    Db([OLD, GONE, J3, J4], 4, 4, [], [], None, At([UPPER], [LEFT, RIGHT]), 8,
       Some(Running(HAZARD_PICK, At([UPPER], [LEFT, RIGHT]), 4, HAZARD_MERGE)))
  }

  lemma {:induction false} FlushUpper()
    ensures TableOf([J4], 6, 100) == UPPER && FlushFits(At([], [LEFT, RIGHT]), 1, UPPER)
    ensures VersionAfterFlush(At([], [LEFT, RIGHT]), 1, UPPER) == At([UPPER], [LEFT, RIGHT])
  {
    IsAt(VersionAfterFlush(At([], [LEFT, RIGHT]), 1, UPPER), [UPPER], [LEFT, RIGHT]);
  }

  lemma {:induction false} WrittenAgain()
    ensures Reachable(Db([OLD, GONE, J3, J4], 4, 4, [], [], None, At([UPPER], [LEFT, RIGHT]), 7, None))
  {
    hide Reachable, At;
    Compacted();
    var v := At([], [LEFT, RIGHT]);
    var d := Db([OLD, GONE, J3], 3, 3, [], [], None, v, 6, None);
    var d' := Db([OLD, GONE, J3, J4], 4, 3, [], [J4], None, v, 6, None);
    TakeQuiet(d, Insert(Value, J, [9]), d');
    TakeQuiet(d', Publish, d'.(lastSequence := 4));
    var d'' := d'.(lastSequence := 4, mem := [], imm := Some([J4]));
    TakeQuiet(d'.(lastSequence := 4), SwitchMemTable, d'');
    FlushUpper();
    TakeQuiet(d'', FlushMemTable(1, 100), Db([OLD, GONE, J3, J4], 4, 4, [], [], None, At([UPPER], [LEFT, RIGHT]), 7, None));
  }

  lemma {:induction false} OverlappingLeft()
    ensures Overlapping([LEFT, RIGHT], Range(Some(J), Some(J))) == [LEFT]
  {
    assert [LEFT, RIGHT][..1] == [LEFT] && [LEFT][..0] == [];
    assert Overlapping([LEFT], Range(Some(J), Some(J))) == [LEFT];
  }

  lemma {:induction false} HazardPick()
    ensures ValidPick(At([UPPER], [LEFT, RIGHT]), HAZARD_PICK) && IsMerge(HAZARD_MERGE, [UPPER] + [LEFT])
  {
    assert [UPPER] + [LEFT] == [UPPER, LEFT];
    RangeOfPair(UPPER, LEFT);
    PairSpans(UPPER, LEFT, LEFT);
    forall e ensures e in HAZARD_MERGE <==> InFiles([UPPER, LEFT], e) {
      PairEntries(UPPER, LEFT, e);
    }
    OverlappingLeft();
    hide Spans, InFiles, SmallestOf, LargestOf, Overlapping;
  }

  lemma {:induction false} HazardReachable()
    ensures Reachable(HazardDb())
  {
    hide Reachable, At, ValidPick, IsMerge;
    WrittenAgain();
    HazardPick();
    var v := At([UPPER], [LEFT, RIGHT]);
    var d := Db([OLD, GONE, J3, J4], 4, 4, [], [], None, v, 7, None);
    var d' := d.(compaction := Some(Running(HAZARD_PICK, v, 4, HAZARD_MERGE)));
    TakeQuiet(d, BeginCompaction(HAZARD_PICK, HAZARD_MERGE), d');
    Reserve(d');
  }

  lemma {:induction false} BaseLevel(one: seq<File>, two: seq<File>, k: UserKey)
    ensures IsBaseLevel(At(one, two), 1, k)
  {
  }

  lemma {:induction false} HazardKept(v: Version)
    requires |v.files| == NUM_LEVELS && IsBaseLevel(v, 1, K)
    ensures Kept(HAZARD_MERGE, 3, 4, v, 1) == [J4]
  {
    hide IsBaseLevel;
    assert Kept(HAZARD_MERGE, 1, 4, v, 1) == [J4];
    assert Kept(HAZARD_MERGE, 2, 4, v, 1) == [J4];
  }

  lemma {:induction false} HazardOutputs(v: Version)
    requires v == At([UPPER], [LEFT, RIGHT])
    ensures ValidOutputs(v, 8, Running(HAZARD_PICK, v, 4, HAZARD_MERGE), [MERGED])
  {
    BaseLevel([UPPER], [LEFT, RIGHT], K);
    HazardKept(v);
    FlattenOne(MERGED);
    hide Kept, Flatten, IsBaseLevel;
  }

  lemma {:induction false} HazardRest(v: Version)
    requires v == At([UPPER], [LEFT, RIGHT])
    ensures forall e :: RestEntry(v, HAZARD_PICK, e) <==> e == OLD
  {
    LiveOne(UPPER);
    LiveRight();
    forall e ensures RestEntry(v, HAZARD_PICK, e) <==> e == OLD {
      RestOnly(v, e);
    }
  }

  lemma {:induction false} LiveRight()
    ensures Live([LEFT, RIGHT], Numbers([LEFT])) == [RIGHT]
  {
    assert [LEFT, RIGHT][..1] == [LEFT];
    LiveOne(LEFT);
    assert RIGHT.number !in Numbers([LEFT]);
  }

  lemma {:induction false} RestOnly(v: Version, e: Entry)
    requires v == At([UPPER], [LEFT, RIGHT]) && Remaining(v, HAZARD_PICK, 1) == [] && Remaining(v, HAZARD_PICK, 2) == [RIGHT]
    ensures RestEntry(v, HAZARD_PICK, e) <==> e == OLD
  {
    if RestEntry(v, HAZARD_PICK, e) {
      var l :| 0 <= l < NUM_LEVELS && InFiles(Remaining(v, HAZARD_PICK, l), e);
      assert l == 2;
    }
    if e == OLD {
      assert OLD in Remaining(v, HAZARD_PICK, 2)[0].entries;
    }
  }

  lemma {:induction false} HazardResurrects(rest: iset<Entry>, v: Version)
    requires (forall e :: e in rest <==> e == OLD) && v == At([UPPER], [LEFT, RIGHT])
    ensures Resurrects(rest, HAZARD_MERGE, 4, 4, v, 1, K, GONE, OLD)
  {
    BaseLevel([UPPER], [LEFT, RIGHT], K);
    hide IsBaseLevel, At;
    assert GONE == HAZARD_MERGE[2];
    forall e | e in With(rest, HAZARD_MERGE) ensures e in [OLD, J4, J3, GONE] {
    }
    assert IsNewest(With(rest, HAZARD_MERGE), K, 4, GONE);
    assert IsNewest(rest, K, 4, OLD);
  }

  lemma {:induction false} RestOfDb(db: Db, c: Pick)
    requires |db.version.files| == NUM_LEVELS && db.mem == [] && db.imm == None
    requires forall e :: RestEntry(db.version, c, e) <==> e == OLD
    ensures forall e :: e in RestEntries(db, c) <==> e == OLD
  {
    hide RestEntry;
  }

  // The output can be installed, and uncovers the old value.
  lemma {:induction false} HazardFinish(db: Db)
    requires db == HazardDb()
    ensures Inv(db) && |db.version.files| == NUM_LEVELS
    ensures var c := db.compaction.value; ValidPick(c.input, c.pick) && ValidOutputs(db.version, db.nextFile, c, [MERGED])
    ensures Resurrects(RestEntries(db, HAZARD_PICK), HAZARD_MERGE, 4, 4, db.version, 1, K, GONE, OLD)
  {
    hide Reachable, At, Inv, ValidPick, ValidOutputs, Resurrects, RestEntry, RestEntries, IsMerge;
    HazardReachable();
    ReachableInv(db);
    HazardPick();
    HazardOutputs(db.version);
    HazardRest(db.version);
    RestOfDb(db, HAZARD_PICK);
    HazardResurrects(RestEntries(db, HAZARD_PICK), db.version);
  }

  lemma {:induction false} KReadsAsAbsent()
    ensures FlatRead(HazardDb().history, K, 4) == None
  {
    var h := HazardDb().history;
    assert h[..3] == [OLD, GONE, J3] && [OLD, GONE, J3][..2] == [OLD, GONE];
  }

  /** Nothing was wrong with any read before, the code can install this output now, and afterwards a
      reader finds the value of K that was deleted. */
  lemma {:induction false} DeletedKeyComesBack()
    ensures Reachable(HazardDb()) && Inv(HazardDb()) && Enabled(HazardDb(), FinishCompaction([MERGED]))
    ensures
      var db := Apply(HazardDb(), FinishCompaction([MERGED]));
      && FlatRead(db.history, K, 4) == None
      && ReadIs(StoredEntries(db), K, 4, Some([7]))
  {
    hide Reachable, At, Inv, ValidPick, ValidOutputs, Resurrects, RestEntries, StoredEntries, ReadIs, FlatRead, VersionAfterReplace;
    HazardReachable();
    HazardFinish(HazardDb());
    KReadsAsAbsent();
    ResurrectedRead(HazardDb(), [MERGED], K, GONE, OLD);
  }
}
