/** When a compaction brings a deleted value back.

    SetupOtherInputs follows boundary files for inputs_[0] only (db/version_set.cc:1407,1422). If the
    last user key of inputs_[1] continues in a table of level+1 that was not selected, dropping its
    deletion marker uncovers the older value there. This module shows that a step keeps the reads of
    the database exactly when that does not happen, that it can happen only at such a boundary, and
    that a test of the pick before the compaction starts would rule it out in every run. Module
    HazardRun gives a run in which it happens. */
module BoundaryHazard {
  import opened Options
  import opened Keys
  import opened Store
  import opened FileSearch
  import opened InputSelection
  import opened CompactionPick
  import opened CompactionWork
  import opened VersionBuilder
  import opened Lsm
  import opened VersionSteps
  import opened ReplaceSteps
  import opened LsmInvariant

  /** Installing a finished compaction keeps every read that is live now if and only if it
      resurrects nothing: whatever was written, published, flushed, snapshot or released while the
      compaction worked. */
  lemma {:induction false} FinishKeepsReadsIff(db: Db, outputs: seq<File>)
    requires Inv(db) && Enabled(db, FinishCompaction(outputs))
    ensures ReadsOk(StoredEntries(Apply(db, FinishCompaction(outputs))), db.history, MinLive(db)) <==> !FinishResurrects(db)
    ensures Inv(Apply(db, FinishCompaction(outputs))) <==> !FinishResurrects(db)
  {
    FinishPieces(db, outputs);
    if !FinishResurrects(db) {
      FinishKeeps(db, FinishCompaction(outputs));
    }
  }

  // The unselected table that still holds an older entry of the marker's key.
  lemma {:induction false} StaleIsInParent(db: Db, k: UserKey, marker: Entry, stale: Entry) returns (f: File)
    requires Inv(db) && db.compaction.Some?
    requires var c := db.compaction.value;
             Resurrects(RestEntries(db, c.pick), c.merged, c.snapshot, MinLive(db), c.input, c.pick.level, k, marker, stale)
    ensures var c := db.compaction.value.pick;
            f in db.version.files[c.level + 1] && f !in c.in1 && stale in f.entries
    ensures stale.key.user == marker.key.user && stale.key.sequence < marker.key.sequence
  {
    hide Inv, VersionOk, ClosedInputs, ValidPick, Resurrects, RestEntry, InFiles, IsBaseLevel, IsMerge, OnlyNewerSince;
    StaleIsOlder(db, k, marker, stale);
    RunningFacts(db);
    f := StaleTable(db.version, db.compaction.value, stale, marker);
  }

  lemma {:induction false} StaleTable(v: Version, c: Running, stale: Entry, marker: Entry) returns (f: File)
    requires VersionOk(v) && ClosedInputs(v, c.pick) && |c.input.files| == NUM_LEVELS && OnlyNewerSince(v, c)
    requires RestEntry(v, c.pick, stale) && InFiles(c.pick.in0 + c.pick.in1, marker)
    requires stale.key.user == marker.key.user && stale.key.sequence < marker.key.sequence
    requires IsBaseLevel(c.input, c.pick.level, marker.key.user)
    ensures f in v.files[c.pick.level + 1] && f !in c.pick.in1 && stale in f.entries
  {
    var l :| 0 <= l < NUM_LEVELS && InFiles(Remaining(v, c.pick, l), stale);
    if l <= c.pick.level {
      RestNewerThanInput(v, c.pick, l, stale, marker);
    }
    assert LevelOk(l, v.files[l]);
    var rest := Remaining(v, c.pick, l);
    var i :| 0 <= i < |rest| && stale in rest[i].entries;
    f := rest[i];
    assert f in rest;
    RemainingMembers(v, c.pick, l);
    if l > c.pick.level + 1 {
      OlderWasThere(v, c, l, f, stale, marker);
      RangeHasKey(c.input.files[l], f, stale);
    }
  }

  lemma {:induction false} StaleIsOlder(db: Db, k: UserKey, marker: Entry, stale: Entry)
    requires Inv(db) && db.compaction.Some?
    requires var c := db.compaction.value;
             Resurrects(RestEntries(db, c.pick), c.merged, c.snapshot, MinLive(db), c.input, c.pick.level, k, marker, stale)
    ensures stale.key.user == marker.key.user && stale.key.sequence < marker.key.sequence
    ensures RestEntry(db.version, db.compaction.value.pick, stale)
    ensures InFiles(db.compaction.value.pick.in0 + db.compaction.value.pick.in1, marker)
    ensures IsBaseLevel(db.compaction.value.input, db.compaction.value.pick.level, marker.key.user)
  {
    var v, c := db.version, db.compaction.value;
    var rest := RestEntries(db, c.pick);
    HistoryUnique(db);
    StoredSplit(db, c.pick, c.merged);
    assert stale in With(rest, c.merged) && marker in With(rest, c.merged);
    EntriesSplit(v, c.pick, marker);
  }

  // A table with an entry older than an input was there when the compaction started.
  lemma {:induction false} OlderWasThere(v: Version, c: Running, l: nat, f: File, stale: Entry, marker: Entry)
    requires |v.files| == NUM_LEVELS && |c.input.files| == NUM_LEVELS && l < NUM_LEVELS
    requires OnlyNewerSince(v, c) && f in v.files[l] && stale in f.entries
    requires InFiles(c.pick.in0 + c.pick.in1, marker) && stale.key.sequence < marker.key.sequence
    ensures f in c.input.files[l]
  {
    assert f in c.input.files[l] || NewerThanAll(f, c.pick.in0 + c.pick.in1);
  }

  lemma {:induction false} RangeHasKey(fs: seq<File>, f: File, e: Entry)
    requires f in fs && ValidFile(f) && e in f.entries
    ensures !NoRangeContains(fs, e.key.user)
  {
    SmallestToLargest(f, e);
    var i :| 0 <= i < |fs| && fs[i] == f;
    assert UserRangeContains(fs[i], e.key.user);
  }

  /** The test that SetupOtherInputs leaves out: nothing of the output level goes on with the user
      key at which inputs_[1] ends. */
  predicate EndsCleanly(v: Version, c: Pick)
    requires c.level + 1 < |v.files|
  {
    c.in1 == [] || NoBoundary(v.files[c.level + 1], LargestOf(c.in1))
  }

  /** A value can come back only across the boundary that SetupOtherInputs does not follow, and that
      boundary was there when the inputs were picked: inputs_[1] ends in the marker's user key and
      an unselected table of the same level goes on with it. */
  lemma {:induction false} ResurrectionNeedsBoundary(db: Db)
    requires Inv(db) && db.compaction.Some? && FinishResurrects(db)
    ensures var c := db.compaction.value; !EndsCleanly(c.input, c.pick)
  {
    hide Inv, VersionOk, ClosedInputs, ValidPick, IsMerge, Resurrects, RestEntry, EndsCleanly;
    var v, c := db.version, db.compaction.value;
    RunningFacts(db);
    hide OnlyNewerSince;
    var k, marker, stale :| Resurrects(RestEntries(db, c.pick), c.merged, c.snapshot, MinLive(db), c.input, c.pick.level, k, marker, stale);
    var f := StaleIsInParent(db, k, marker, stale);
    StaleIsOlder(db, k, marker, stale);
    StaleContinues(v, c, f, stale, marker);
  }

  lemma {:induction false} StaleContinues(v: Version, c: Running, f: File, stale: Entry, marker: Entry)
    requires VersionOk(v) && ClosedInputs(v, c.pick) && ValidPick(c.input, c.pick) && OnlyNewerSince(v, c)
    requires f in v.files[c.pick.level + 1] && f !in c.pick.in1 && stale in f.entries
    requires InFiles(c.pick.in0 + c.pick.in1, marker)
    requires stale.key.user == marker.key.user && stale.key.sequence < marker.key.sequence
    ensures !EndsCleanly(c.input, c.pick)
  {
    hide LevelOrder, NumbersApart, LeftNewer, Spans, Admissible, NewerByNumber, SortedDisjoint, SortedBySmallest, DistinctNumbers, NoBoundary;
    var m, g := InputLevel(v, c.pick, marker);
    InputsValid(v, c.pick);
    assert LevelOk(c.pick.level + 1, v.files[c.pick.level + 1]) && LevelOk(m, v.files[m]);
    OlderWasThere(v, c, c.pick.level + 1, f, stale, marker);
    ParentContinues(v, c, f, stale, m, g, marker);
  }

  lemma {:induction false} ParentContinues(v: Version, c: Running, f: File, stale: Entry, m: nat, g: File, marker: Entry)
    requires ValidPick(c.input, c.pick)
    requires |v.files| == NUM_LEVELS && c.pick.level + 1 < NUM_LEVELS && f in c.input.files[c.pick.level + 1]
    requires ParentsApart(v.files[c.pick.level + 1], c.pick.in1, c.pick.in0 + c.pick.in1)
    requires ValidFile(f) && ValidFile(g)
    requires f in v.files[c.pick.level + 1] && f !in c.pick.in1 && stale in f.entries
    requires (m == c.pick.level && g in c.pick.in0) || (m == c.pick.level + 1 && g in c.pick.in1)
    requires marker in g.entries && stale.key.user == marker.key.user && stale.key.sequence < marker.key.sequence
    ensures !EndsCleanly(c.input, c.pick)
  {
    SmallestToLargest(f, stale);
    SmallestToLargest(g, marker);
    if m == c.pick.level {
      ParentOverlaps(c, f, g, marker.key.user);
    }
    hide ValidPick, ValidFile;
    assert g in c.pick.in1 && g in c.pick.in0 + c.pick.in1;
    HullBounds(c.pick.in1, g);
    var _, last := HullAttained(c.pick.in1);
    assert last in c.pick.in0 + c.pick.in1;
    assert AfterAll(f, c.pick.in0 + c.pick.in1);
    assert Boundary(f, LargestOf(c.pick.in1));
  }

  // A parent that shares a key with inputs_[0] is selected.
  lemma {:induction false} ParentOverlaps(c: Running, f: File, g: File, k: UserKey)
    requires ValidPick(c.input, c.pick) && f in c.input.files[c.pick.level + 1] && g in c.pick.in0
    requires UserRangeContains(f, k) && UserRangeContains(g, k)
    ensures f in c.pick.in1
  {
    HullBounds(c.pick.in0, g);
    OverlappingMembers(c.input.files[c.pick.level + 1], UserRange(c.pick.in0));
  }

  /** The test would make every compaction safe. */
  lemma {:induction false} NoBoundaryIsSafe(db: Db, outputs: seq<File>)
    requires Inv(db) && Enabled(db, FinishCompaction(outputs))
    requires var c := db.compaction.value; EndsCleanly(c.input, c.pick)
    ensures Inv(Apply(db, FinishCompaction(outputs)))
  {
    if FinishResurrects(db) {
      ResurrectionNeedsBoundary(db);
    }
    FinishKeeps(db, FinishCompaction(outputs));
  }

  // ---- Runs in which every pick passes the test ----

  ghost predicate TestedStep(db: Db, step: Step)
    requires |db.version.files| == NUM_LEVELS
  {
    step.BeginCompaction? && step.pick.level + 1 < NUM_LEVELS ==> EndsCleanly(db.version, step.pick)
  }

  ghost predicate Tested(db: Db, steps: seq<Step>)
    decreases |steps|
  {
    if steps == [] then db == InitialDb()
    else
      var init, last := steps[..|steps| - 1], steps[|steps| - 1];
      exists prev :: Tested(prev, init) && TestedLeads(prev, last, db)
  }

  ghost predicate TestedLeads(prev: Db, step: Step, db: Db) {
    CompactionOk(prev) && Enabled(prev, step) && TestedStep(prev, step) && db == Apply(prev, step)
  }

  ghost predicate CleanRunning(db: Db) {
    && CompactionOk(db)
    && (db.compaction.Some? ==> EndsCleanly(db.compaction.value.input, db.compaction.value.pick))
  }

  /** With the test, every run is as good as the flat history: no other condition is left on how a
      compaction finishes. */
  lemma {:induction false} TestedRunsKeepInv(db: Db, steps: seq<Step>)
    requires Tested(db, steps)
    ensures Inv(db) && CleanRunning(db) && LsmInvariant.Reached(db, steps)
    decreases |steps|
  {
    hide Inv, Apply, Enabled, FinishResurrects, CompactionOk, EndsCleanly, InitialDb;
    if steps == [] {
      RunsKeepInv(db, steps);
      InitialIsClean();
    } else {
      var init, last := steps[..|steps| - 1], steps[|steps| - 1];
      var prev :| Tested(prev, init) && TestedLeads(prev, last, db);
      TestedRunsKeepInv(prev, init);
      TestedStepKeeps(prev, last);
      assert Leads(prev, last, db);
    }
  }

  lemma {:induction false} InitialIsClean()
    ensures CleanRunning(InitialDb())
  {
  }

  lemma {:induction false} TestedStepKeeps(db: Db, step: Step)
    requires Inv(db) && CleanRunning(db) && Enabled(db, step) && TestedStep(db, step)
    ensures SafeStep(db, step) && Inv(Apply(db, step)) && CleanRunning(Apply(db, step))
  {
    assert SafeStep(db, step) by {
      hide Inv, Apply, Enabled, CompactionOk, EndsCleanly;
      if step.FinishCompaction? && db.compaction.Some? && FinishResurrects(db) {
        ResurrectionNeedsBoundary(db);
      }
    }
    StepKeeps(db, step);
    StaysClean(db, step);
  }

  lemma {:induction false} StaysClean(db: Db, step: Step)
    requires CleanRunning(db) && Enabled(db, step) && TestedStep(db, step) && Inv(Apply(db, step))
    ensures CleanRunning(Apply(db, step))
  {
    hide EndsCleanly, RunningOk, Admissible, Spans, HistoryOk, SnapshotsOk, MemOk, FilesOk, StoredOk, ReadsOk;
  }

  /** What goes wrong when the condition fails: the marker's key had no value for the oldest live
      read before the outputs are installed, and has the old value afterwards. */
  lemma {:induction false} ResurrectedRead(db: Db, outputs: seq<File>, k: UserKey, marker: Entry, stale: Entry)
    requires Inv(db) && Enabled(db, FinishCompaction(outputs))
    requires var c := db.compaction.value;
             Resurrects(RestEntries(db, c.pick), c.merged, c.snapshot, MinLive(db), c.input, c.pick.level, k, marker, stale)
    ensures ReadIs(HistoryEntries(db.history), k, MinLive(db), None)
    ensures ReadIs(StoredEntries(Apply(db, FinishCompaction(outputs))), k, MinLive(db), Some(stale.value))
  {
    var c := db.compaction.value;
    var rest := RestEntries(db, c.pick);
    var kept := Kept(c.merged, |c.merged|, c.snapshot, c.input, c.pick.level);
    OutputsAreNew(db.version, db.nextFile, c, outputs, MinLive(db));
    HistoryUnique(db);
    StoredSplit(db, c.pick, c.merged);
    StoredAfter(db, c.pick, outputs, kept);
    ResurrectionChangesRead(rest, c.merged, c.snapshot, MinLive(db), c.input, c.pick.level, k, marker, stale);
    assert StoredEntries(Apply(db, FinishCompaction(outputs))) == With(rest, kept);
    ReadAnswer(StoredEntries(db), k, MinLive(db), marker, None);
    assert ReadIs(StoredEntries(db), k, MinLive(db), None) <==> ReadIs(HistoryEntries(db.history), k, MinLive(db), None);
  }
}
