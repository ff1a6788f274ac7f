/** One background compaction from its inputs to the installed version (db/db_impl.cc:
    BackgroundCompaction, DoCompactionWork, InstallCompactionResults; VersionSet::MakeInputIterator). */
module CompactionRun {
  import opened Coding
  import opened Options
  import opened Keys
  import opened Store
  import opened FileSearch
  import opened InputSelection
  import opened CompactionPick
  import opened SetupInputs
  import opened CompactionWork
  import opened VersionBuilder
  import opened Lsm
  import opened VersionSteps
  import opened ReplaceSteps
  import opened LsmInvariant
  import opened DbImpl
  import C = Cursors
  import M = Merger

  // The two-level iterator over tables of one level.
  function Concat(fs: seq<File>): seq<Entry> {
    Flatten(Contents(fs))
  }

  lemma {:induction false} ConcatSorted(fs: seq<File>)
    requires ValidFiles(fs) && SortedDisjoint(fs)
    ensures SortedEntries(Concat(fs))
  {
    if fs != [] {
      var init, last := fs[..|fs| - 1], fs[|fs| - 1];
      ContentsSnoc(fs);
      ConcatSorted(init);
      var all, m := Concat(fs), |Concat(init)|;
      forall i, j | 0 <= i < j < |all| ensures Before(all[i].key, all[j].key) {
        if i < m <= j {
          assert all[i] in Concat(init);
          CutMembers(init, all[i]);
          var k :| 0 <= k < |init| && all[i] in init[k].entries;
          SmallestToLargest(init[k], all[i]);
          SmallestToLargest(last, last.entries[j - m]);
        }
      }
    }
  }

  lemma {:induction false} ConcatMembers(fs: seq<File>, e: Entry)
    ensures e in Concat(fs) <==> InFiles(fs, e)
  {
    CutMembers(fs, e);
  }

  // The children of the merging iterator.
  function InputRuns(c: Pick): seq<seq<Entry>> {
    (if c.level == 0 then Contents(c.in0) else [Concat(c.in0)]) + if c.in1 == [] then [] else [Concat(c.in1)]
  }

  ghost predicate InRuns(runs: seq<seq<Entry>>, e: Entry) {
    exists i :: 0 <= i < |runs| && e in runs[i]
  }

  ghost predicate RunsApart(runs: seq<seq<Entry>>) {
    forall i, j, e :: 0 <= i < j < |runs| && e in runs[i] ==> e !in runs[j]
  }

  lemma {:induction false} RunMembers(c: Pick, e: Entry)
    ensures InRuns(InputRuns(c), e) <==> InFiles(c.in0 + c.in1, e)
  {
    var runs, a := InputRuns(c), if c.level == 0 then |c.in0| else 1;
    CutMembers(c.in0, e);
    CutMembers(c.in1, e);
    ConcatEntries(c.in0, c.in1, c.in0 + c.in1, e);
    if InFiles(c.in0, e) {
      var k :| 0 <= k < |c.in0| && e in c.in0[k].entries;
      assert e in runs[if c.level == 0 then k else 0];
    }
    if InFiles(c.in1, e) {
      assert e in runs[a];
    }
    if InRuns(runs, e) {
      var i :| 0 <= i < |runs| && e in runs[i];
      assert i < a || (i == a && runs[i] == Concat(c.in1));
    }
  }

  // What the two input lists are.
  ghost predicate InputShape(v: Version, c: Pick) {
    && |v.files| == NUM_LEVELS && c.level + 1 < NUM_LEVELS
    && ValidFiles(c.in0) && DistinctNumbers(c.in0) && (forall f :: f in c.in0 ==> f in v.files[c.level])
    && ValidFiles(c.in1) && SortedDisjoint(c.in1) && (forall f :: f in c.in1 ==> f in v.files[c.level + 1])
    && NewerFiles(v.files[c.level], v.files[c.level + 1])
    && if c.level > 0 then SortedDisjoint(c.in0) else NewerByNumber(v.files[0])
  }

  lemma {:induction false} PickShape(v: Version, c: Pick)
    requires VersionOk(v) && ValidPick(v, c)
    ensures InputShape(v, c)
  {
    hide Spans, ClosedAtLevel0, ClosedAtSortedLevel, NewerFiles, ValidFiles, SortedBySmallest, NumbersApart, SortedDisjoint, DistinctNumbers,
      NewerByNumber, Overlapping;
    var upper, lower := v.files[c.level], v.files[c.level + 1];
    assert LevelOk(c.level, upper) && LevelOk(c.level + 1, lower);
    MembersValid(c.in0, upper);
    OverlappingIn(lower, UserRange(c.in0));
    MembersValid(c.in1, lower);
    OverlappingDisjoint(lower, UserRange(c.in0));
  }

  lemma {:induction false} MembersValid(fs: seq<File>, gs: seq<File>)
    requires ValidFiles(gs) && forall f :: f in fs ==> f in gs
    ensures ValidFiles(fs)
  {
    hide ValidFile;
    forall i | 0 <= i < |fs| ensures ValidFile(fs[i]) {
      assert fs[i] in gs;
    }
  }

  lemma {:induction false} OverlappingIn(files: seq<File>, range: Range)
    ensures forall f :: f in Overlapping(files, range) ==> f in files
  {
    hide Overlapping, Overlaps, DistinctNumbers;
    OverlappingMembers(files, range);
  }

  lemma {:induction false} OverlappingDisjoint(files: seq<File>, range: Range)
    requires SortedDisjoint(files)
    ensures SortedDisjoint(Overlapping(files, range))
  {
    if files != [] {
      var init, last := files[..|files| - 1], files[|files| - 1];
      OverlappingDisjoint(init, range);
      OverlappingMembers(init, range);
      var r := Overlapping(init, range);
      forall i | 0 <= i < |r| ensures Before(r[i].largest, last.smallest) {
        assert r[i] in init;
        var k :| 0 <= k < |init| && init[k] == r[i];
        assert files[k] == r[i];
      }
    }
  }

  lemma {:induction false} RunsSorted(v: Version, c: Pick)
    requires InputShape(v, c)
    ensures forall i :: 0 <= i < |InputRuns(c)| ==> SortedEntries(InputRuns(c)[i])
  {
    if c.level > 0 {
      ConcatSorted(c.in0);
    }
    ConcatSorted(c.in1);
    forall i | 0 <= i < |c.in0| ensures SortedEntries(c.in0[i].entries) {
      assert ValidFile(c.in0[i]);
    }
    hide Concat, SortedEntries, NewerFiles, NewerByNumber;
  }

  lemma {:induction false} InputRunsApart(v: Version, c: Pick)
    requires InputShape(v, c)
    ensures RunsApart(InputRuns(c))
  {
    hide ValidFiles, SortedDisjoint, Concat, NewerByNumber, NewerFiles;
    var runs, a := InputRuns(c), if c.level == 0 then |c.in0| else 1;
    forall i, j, e | 0 <= i < j < |runs| && e in runs[i] ensures e !in runs[j] {
      if j == a {
        assert runs[j] == Concat(c.in1);
        ParentApart(v, c, e);
        if c.level == 0 {
          InFilesMember(c.in0, c.in0[i], e);
        } else {
          ConcatMembers(c.in0, e);
        }
      } else {
        Level0Apart(v.files[0], c.in0[i], c.in0[j], e);
      }
    }
  }

  lemma {:induction false} ParentApart(v: Version, c: Pick, e: Entry)
    requires InputShape(v, c)
    ensures InFiles(c.in0, e) ==> e !in Concat(c.in1)
  {
    hide Concat, ValidFiles, SortedDisjoint, NewerByNumber;
    ConcatMembers(c.in1, e);
    if InFiles(c.in0, e) && InFiles(c.in1, e) {
      InFilesSubset(c.in0, v.files[c.level], e);
      InFilesSubset(c.in1, v.files[c.level + 1], e);
    }
  }

  lemma {:induction false} Level0Apart(files: seq<File>, f: File, g: File, e: Entry)
    requires NewerByNumber(files) && f in files && g in files && f.number != g.number
    ensures e in f.entries ==> e !in g.entries
  {
    var i :| 0 <= i < |files| && files[i] == f;
    var j :| 0 <= j < |files| && files[j] == g;
    assert files[i].number > files[j].number ==> NewerFile(f, g);
    assert files[j].number > files[i].number ==> NewerFile(g, f);
  }

  // The sorted union of the runs, as a reference for the iterator.
  ghost function SortAll(es: seq<Entry>): seq<Entry> {
    if es == [] then []
    else
      var rest, last := SortAll(es[..|es| - 1]), es[|es| - 1];
      if last in rest then rest else InsertEntry(rest, last)
  }

  lemma {:induction false} SortAllOk(es: seq<Entry>, all: iset<Entry>)
    requires UniqueSequences(all) && forall e :: e in es ==> e in all
    ensures SortedEntries(SortAll(es)) && forall e :: e in SortAll(es) <==> e in es
  {
    if es != [] {
      var init, last := es[..|es| - 1], es[|es| - 1];
      SortAllOk(init, all);
      assert forall e :: e in es <==> e in init || e == last;
      var rest := SortAll(init);
      if last !in rest {
        forall i | 0 <= i < |rest| ensures Tag(rest[i].key) != Tag(last.key) {
          assert rest[i] in init;
        }
      }
    }
  }

  lemma {:induction false} FlattenMembers(runs: seq<seq<Entry>>, e: Entry)
    ensures e in Flatten(runs) <==> InRuns(runs, e)
  {
    if runs != [] {
      FlattenMembers(runs[..|runs| - 1], e);
    }
  }

  lemma {:induction false} MergedInputs(db: Db, c: Pick) returns (merged: seq<Entry>)
    requires Inv(db) && ValidPick(db.version, c)
    ensures IsMerge(merged, c.in0 + c.in1) && forall e :: e in merged <==> InRuns(InputRuns(c), e)
  {
    HistoryUnique(db);
    var es := Flatten(InputRuns(c));
    forall e ensures e in es <==> InRuns(InputRuns(c), e)
      ensures InRuns(InputRuns(c), e) <==> InFiles(c.in0 + c.in1, e)
    {
      FlattenMembers(InputRuns(c), e);
      RunMembers(c, e);
    }
    forall e | e in es ensures e in VersionEntries(db.version) {
      InputInVersion(db.version, c, e);
    }
    SortAllOk(es, VersionEntries(db.version));
    merged := SortAll(es);
  }

  lemma {:induction false} InputInVersion(v: Version, c: Pick, e: Entry)
    requires ValidPick(v, c) && InFiles(c.in0 + c.in1, e)
    ensures InVersion(v, e)
  {
    OverlappingMembers(v.files[c.level + 1], UserRange(c.in0));
    ConcatEntries(c.in0, c.in1, c.in0 + c.in1, e);
    if InFiles(c.in0, e) {
      InFilesSubset(c.in0, v.files[c.level], e);
    } else {
      InFilesSubset(c.in1, v.files[c.level + 1], e);
    }
  }

  /** MakeInputIterator */
  method MakeInputIterator(db: Db, c: Pick) returns (it: M.MergingIterator)
    requires Inv(db) && ValidPick(db.version, c)
    ensures fresh(it) && (forall i :: 0 <= i < |it.children| ==> fresh(it.children[i]))
    ensures it.Ok() && IsMerge(it.merged, c.in0 + c.in1)
  {
    ghost var merged := MergedInputs(db, c);
    assert SortedEntries(merged);
    PickShape(db.version, c);
    RunsSorted(db.version, c);
    InputRunsApart(db.version, c);
    hide Inv, ValidPick, IsMerge, InputRuns, SortedEntries, RunsApart, InputShape;
    var list := ChildIterators(InputRuns(c));
    ChildrenCover(merged, InputRuns(c), list);
    it := new M.MergingIterator(list, merged);
  }

  method ChildIterators(runs: seq<seq<Entry>>) returns (list: seq<C.Cursor>)
    ensures |list| == |runs|
    ensures forall j :: 0 <= j < |list| ==> fresh(list[j]) && list[j].es == runs[j]
    ensures forall j, k :: 0 <= j < k < |list| ==> list[j] != list[k]
  {
    list := [];
    for i := 0 to |runs|
      invariant |list| == i
      invariant forall j :: 0 <= j < i ==> fresh(list[j]) && list[j].es == runs[j]
      invariant forall j, k :: 0 <= j < k < i ==> list[j] != list[k]
    {
      var child := new C.Cursor(runs[i]);
      list := list + [child];
    }
  }

  lemma {:induction false} ChildrenCover(merged: seq<Entry>, runs: seq<seq<Entry>>, list: seq<C.Cursor>)
    requires |list| == |runs| && forall j :: 0 <= j < |list| ==> list[j].es == runs[j]
    requires (forall i :: 0 <= i < |runs| ==> SortedEntries(runs[i])) && RunsApart(runs)
    requires forall e :: e in merged <==> InRuns(runs, e)
    ensures forall i :: 0 <= i < |list| ==> M.RunOf(merged, list[i].es)
    ensures forall e :: e in merged ==> exists i :: 0 <= i < |list| && e in list[i].es
    ensures forall i, j, e :: 0 <= i < j < |list| && e in list[i].es ==> e !in list[j].es
  {
    hide SortedEntries;
    forall e | e in merged ensures exists i :: 0 <= i < |list| && e in list[i].es {
      var i :| 0 <= i < |runs| && e in runs[i];
      assert e in list[i].es;
    }
    forall i, e | 0 <= i < |list| && e in list[i].es ensures e in merged {
      assert e in runs[i];
    }
  }

  /** The input of the compaction loop: all entries of all inputs, in internal-key order. */
  method MergeInputs(db: Db, c: Pick) returns (m: seq<Entry>)
    requires Inv(db) && ValidPick(db.version, c)
    ensures IsMerge(m, c.in0 + c.in1)
  {
    hide Inv, ValidPick, IsMerge, AtOrBefore, SortedEntries, M.Rank, M.RunOf, M.ForwardAt, M.BackwardAt;
    var it := MakeInputIterator(db, c);
    it.SeekToFirst();
    m := [];
    while it.Valid()
      invariant it.Ok() && m == it.merged[..it.p]
      decreases |it.merged| - it.p
    {
      m := m + [it.Current()];
      it.Next();
    }
    assert it.merged[..it.p] == it.merged;
  }

  // ---- BackgroundCompaction ----

  /** Picks a compaction for the table `files[level][i]`; a trivial move is installed at once: the table
      alone, with nothing below it to merge with, and not too much two levels down. */
  method BackgroundCompaction(db: Db, level: nat, i: nat, maxFileSize: nat) returns (ghost step: Step, v': Version)
    requires Inv(db) && db.compaction.None?
    requires level + 1 < NUM_LEVELS && i < |db.version.files[level]|
    ensures step.MoveTable? || step.BeginCompaction?
    ensures step.pick.level == level && db.version.files[level][i] in step.pick.in0 && ValidPick(db.version, step.pick)
    ensures PickedAround(db.version, level, db.version.files[level][i], step.pick, maxFileSize)
    ensures
      var c := step.pick;
      step.MoveTable? <==>
        |c.in0| == 1 && c.in1 == [] && TotalFileSize(GrandparentsOf(db.version, c)) <= MaxGrandParentOverlapBytes(maxFileSize)
    ensures Enabled(db, step) && Inv(Apply(db, step)) && v' == Apply(db, step).version
  {
    VersionOkIsOrdered(db.version);
    assert ValidVersion(db.version);
    hide Inv, VersionOk, ValidVersion, IsReplay, ValidPick, Apply, VersionAfterReplace, IsMerge, UserRange, Overlapping, PickedAround, GrandparentsOf;
    var c, grandparents, newPointer := PickTable(db.version, level, i, maxFileSize);
    if IsTrivialMove(c, grandparents, maxFileSize) {
      step := MoveTable(c);
      v' := MoveToNextLevel(db, c);
    } else {
      var merged := MergeInputs(db, c);
      step, v' := BeginCompaction(c, merged), db.version;
      BeginKeepsVersion(db, c, merged);
    }
    StepKeeps(db, step);
  }

  lemma {:induction false} BeginKeepsVersion(db: Db, c: Pick, merged: seq<Entry>)
    requires Inv(db) && db.compaction.None? && ValidPick(db.version, c) && IsMerge(merged, c.in0 + c.in1)
    ensures Enabled(db, BeginCompaction(c, merged)) && Apply(db, BeginCompaction(c, merged)).version == db.version
  {
  }

  method MoveToNextLevel(db: Db, c: Pick) returns (v': Version)
    requires Inv(db) && db.compaction.None? && ValidPick(db.version, c) && |c.in0| == 1 && c.in1 == []
    ensures Enabled(db, MoveTable(c)) && v' == Apply(db, MoveTable(c)).version
  {
    hide Inv, ValidPick, Apply, Enabled;
    MoveInstallable(db, c);
    v' := ReplaceTables(db.version, c, c.in0);
  }

  // The new tables may be put on the output level in place of the inputs.
  ghost predicate Installable(v: Version, c: Pick, outputs: seq<File>) {
    && VersionOk(v) && ClosedInputs(v, c) && NewTables(v, c, outputs)
    && Numbers(v.files[c.level + 1]) !! Numbers(outputs)
  }

  method ReplaceTables(v: Version, c: Pick, outputs: seq<File>) returns (v': Version)
    requires Installable(v, c, outputs)
    ensures v' == VersionAfterReplace(v, c, outputs)
  {
    hide VersionOk, IsReplay, Numbers, PairwiseSeparated, LeftNewer, Spans, ParentsApart;
    var deleted := Deletions(c.level, c.in0) + Deletions(c.level + 1, c.in1);
    v' := LogAndApply(v, deleted, c.level + 1, outputs);
    ReplacedByEdit(v, c, outputs, v');
  }

  lemma {:induction false} MoveInstallable(db: Db, c: Pick)
    requires Inv(db) && db.compaction.None? && ValidPick(db.version, c) && |c.in0| == 1 && c.in1 == []
    ensures Installable(db.version, c, c.in0)
    ensures Enabled(db, MoveTable(c)) && Apply(db, MoveTable(c)).version == VersionAfterReplace(db.version, c, c.in0)
  {
    PickedInputsClosed(db, c);
    MoveApplied(db, c);
    assert VersionOk(db.version) && NumbersApart(db.version) && c.in0[0] in c.in0;
    hide Inv, VersionOk, ValidPick, VersionAfterReplace, LeftNewer, Spans, ParentsApart, Enabled, Apply;
    InputsValid(db.version, c);
    MovedTableIsNew(db.version, c);
    assert forall f :: f in c.in0 ==> f.number in Numbers(db.version.files[c.level]);
  }

  lemma {:induction false} MoveApplied(db: Db, c: Pick)
    requires |db.version.files| == NUM_LEVELS && db.compaction.None? && ValidPick(db.version, c) && |c.in0| == 1 && c.in1 == []
    ensures Enabled(db, MoveTable(c)) && Apply(db, MoveTable(c)).version == VersionAfterReplace(db.version, c, c.in0)
  {
    hide ValidPick, VersionAfterReplace;
  }

  // ---- DoCompactionWork and InstallCompactionResults ----

  /** The compaction proper, outside the mutex: it uses nothing but what it started with. */
  method CompactInputs(c: Running) returns (contents: seq<seq<Entry>>)
    requires VersionOk(c.input) && ValidPick(c.input, c.pick) && c.snapshot < MAX_SEQUENCE
    requires IsMerge(c.merged, c.pick.in0 + c.pick.in1)
    ensures Flatten(contents) == Kept(c.merged, |c.merged|, c.snapshot, c.input, c.pick.level) && NonEmptyOutputs(contents)
  {
    VersionOkIsOrdered(c.input);
    var compaction := new Compaction(c.pick.level, c.input);
    contents := DoCompactionWork(compaction, c.merged, c.snapshot);
  }

  function OutputFiles(contents: seq<seq<Entry>>, numbers: seq<nat>, sizes: seq<nat>): seq<File>
    requires |contents| == |numbers| == |sizes| && NonEmptyOutputs(contents)
  {
    seq(|contents|, i requires 0 <= i < |contents| => TableOf(contents[i], numbers[i], sizes[i]))
  }

  // The numbers were taken from NewFileNumber while the compaction ran.
  ghost predicate ReservedNumbers(v: Version, nextFile: nat, numbers: seq<nat>) {
    && (forall i, j :: 0 <= i < j < |numbers| ==> numbers[i] != numbers[j])
    && (forall i :: 0 <= i < |numbers| ==> numbers[i] < nextFile && UnusedNumber(v, numbers[i]))
  }

  /** InstallCompactionResults: whatever was flushed in the meantime, the outputs fit the current version. */
  method InstallCompactionResults(db: Db, contents: seq<seq<Entry>>, numbers: seq<nat>, sizes: seq<nat>)
    returns (ghost step: Step, v': Version)
    requires Inv(db) && db.compaction.Some?
    requires |contents| == |numbers| == |sizes| && NonEmptyOutputs(contents) && ReservedNumbers(db.version, db.nextFile, numbers)
    requires
      var c := db.compaction.value;
      Flatten(contents) == Kept(c.merged, |c.merged|, c.snapshot, c.input, c.pick.level)
    ensures step == FinishCompaction(OutputFiles(contents, numbers, sizes)) && Enabled(db, step)
    ensures v' == Apply(db, step).version
  {
    hide Inv, Apply, Enabled, Kept, Flatten, ReservedNumbers;
    var outputs := OutputFiles(contents, numbers, sizes);
    step := FinishCompaction(outputs);
    FinishInstallable(db, contents, numbers, sizes);
    v' := ReplaceTables(db.version, db.compaction.value.pick, outputs);
  }

  lemma {:induction false} FinishInstallable(db: Db, contents: seq<seq<Entry>>, numbers: seq<nat>, sizes: seq<nat>)
    requires Inv(db) && db.compaction.Some?
    requires |contents| == |numbers| == |sizes| && NonEmptyOutputs(contents) && ReservedNumbers(db.version, db.nextFile, numbers)
    requires
      var c := db.compaction.value;
      Flatten(contents) == Kept(c.merged, |c.merged|, c.snapshot, c.input, c.pick.level)
    ensures
      var c, outputs := db.compaction.value, OutputFiles(contents, numbers, sizes);
      && Installable(db.version, c.pick, outputs)
      && Enabled(db, FinishCompaction(outputs))
      && Apply(db, FinishCompaction(outputs)).version == VersionAfterReplace(db.version, c.pick, outputs)
  {
    hide Inv, VersionOk, ValidPick, IsMerge, ClosedInputs, RunningOk, VersionAfterReplace, Kept, Flatten, Enabled, Apply, ValidOutputs, NewTables, ReservedNumbers;
    var c, outputs := db.compaction.value, OutputFiles(contents, numbers, sizes);
    RunningFacts(db);
    OutputsValid(db.version, db.nextFile, c, contents, numbers, sizes);
    OutputsAreNew(db.version, db.nextFile, c, outputs, MinLive(db));
    assert DistinctNumbers(outputs) && (forall f :: f in outputs ==> UnusedNumber(db.version, f.number)) by {
      OutputsUnused(db.version, db.nextFile, c, outputs);
    }
    OutputNumbers(db.version, outputs, c.pick.level + 1);
    FinishApplied(db, outputs);
  }

  lemma {:induction false} OutputsUnused(v: Version, nextFile: nat, c: Running, outputs: seq<File>)
    requires |c.input.files| == NUM_LEVELS && ValidOutputs(v, nextFile, c, outputs)
    ensures DistinctNumbers(outputs) && (forall f :: f in outputs ==> UnusedNumber(v, f.number))
  {
    hide Kept, Flatten, ValidFile;
  }

  lemma {:induction false} FinishApplied(db: Db, outputs: seq<File>)
    requires Steppable(db) && db.compaction.Some? && ValidOutputs(db.version, db.nextFile, db.compaction.value, outputs)
    ensures Enabled(db, FinishCompaction(outputs))
    ensures Apply(db, FinishCompaction(outputs)).version == VersionAfterReplace(db.version, db.compaction.value.pick, outputs)
  {
    hide ValidPick, ValidOutputs, VersionAfterReplace;
  }

  lemma {:induction false} OutputNumbers(v: Version, outputs: seq<File>, l: nat)
    requires l < |v.files| && forall f :: f in outputs ==> UnusedNumber(v, f.number)
    ensures Numbers(v.files[l]) !! Numbers(outputs)
  {
  }

  lemma {:induction false} OutputsValid(v: Version, nextFile: nat, c: Running, contents: seq<seq<Entry>>, numbers: seq<nat>, sizes: seq<nat>)
    requires VersionOk(c.input) && ValidPick(c.input, c.pick) && IsMerge(c.merged, c.pick.in0 + c.pick.in1)
    requires |contents| == |numbers| == |sizes| && NonEmptyOutputs(contents) && ReservedNumbers(v, nextFile, numbers)
    requires Flatten(contents) == Kept(c.merged, |c.merged|, c.snapshot, c.input, c.pick.level)
    ensures ValidOutputs(v, nextFile, c, OutputFiles(contents, numbers, sizes))
  {
    hide VersionOk, ValidPick, IsMerge, Kept, Flatten;
    var outputs := OutputFiles(contents, numbers, sizes);
    assert Contents(outputs) == contents;
    forall f | f in outputs ensures UnusedNumber(v, f.number) && f.number < nextFile {
      var i :| 0 <= i < |outputs| && outputs[i] == f;
    }
    forall i | 0 <= i < |contents| ensures ValidFile(outputs[i]) {
      KeptRunValid(c, contents, i);
    }
  }

  lemma {:induction false} KeptRunValid(c: Running, contents: seq<seq<Entry>>, i: nat)
    requires VersionOk(c.input) && ValidPick(c.input, c.pick) && IsMerge(c.merged, c.pick.in0 + c.pick.in1)
    requires Flatten(contents) == Kept(c.merged, |c.merged|, c.snapshot, c.input, c.pick.level) && i < |contents|
    ensures SortedEntries(contents[i]) && forall e :: e in contents[i] ==> e.key.sequence <= MAX_SEQUENCE
  {
    var kept := Kept(c.merged, |c.merged|, c.snapshot, c.input, c.pick.level);
    KeptSorted(c.merged, |c.merged|, c.snapshot, c.input, c.pick.level);
    KeptIsSubset(c.merged, c.snapshot, c.input, c.pick.level);
    var a := FlattenHolds(contents, i);
    forall j, k | 0 <= j < k < |contents[i]| ensures Before(contents[i][j].key, contents[i][k].key) {
      assert contents[i][j] == kept[a + j] && contents[i][k] == kept[a + k];
    }
    VersionOkIsOrdered(c.input);
    forall e | e in contents[i] ensures e.key.sequence <= MAX_SEQUENCE {
      var j :| 0 <= j < |contents[i]| && contents[i][j] == e;
      assert kept[a + j] == e;
      assert e in kept && e in c.merged;
      InputInVersion(c.input, c.pick, e);
      StoredSequence(c.input, e);
    }
  }

  lemma {:induction false} StoredSequence(v: Version, e: Entry)
    requires ValidVersion(v) && InVersion(v, e)
    ensures e.key.sequence <= MAX_SEQUENCE
  {
    var l :| 0 <= l < |v.files| && InFiles(v.files[l], e);
    var i :| 0 <= i < |v.files[l]| && e in v.files[l][i].entries;
    assert ValidFile(v.files[l][i]);
  }

  lemma {:induction false} FlattenHolds(runs: seq<seq<Entry>>, i: nat) returns (a: nat)
    requires i < |runs|
    ensures a + |runs[i]| <= |Flatten(runs)| && Flatten(runs)[a..a + |runs[i]|] == runs[i]
  {
    var init := runs[..|runs| - 1];
    if i < |init| {
      a := FlattenHolds(init, i);
      assert Flatten(runs)[a..a + |runs[i]|] == Flatten(init)[a..a + |runs[i]|];
    } else {
      a := |Flatten(init)|;
    }
  }
}
