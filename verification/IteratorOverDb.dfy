/** DBImpl::NewIterator: a DBIter over everything stored, at a live snapshot. */
module IteratorOverDb {
  import opened Options
  import opened Keys
  import opened Store
  import opened FileSearch
  import opened CompactionWork
  import opened Lsm
  import opened VersionSteps
  import opened LsmInvariant
  import opened CompactionRun
  import opened DbIterator
  import C = Cursors
  import M = Merger

  // ---- The internal iterator ----

  // One concatenation for each level from l on that has tables.
  function LevelRuns(v: Version, l: nat): seq<seq<Entry>>
    requires l <= |v.files|
    decreases |v.files| - l
  {
    if l == |v.files| then [] else (if v.files[l] == [] then [] else [Concat(v.files[l])]) + LevelRuns(v, l + 1)
  }

  // Version::AddIterators
  function VersionRuns(v: Version): seq<seq<Entry>>
    requires |v.files| == NUM_LEVELS
  {
    Contents(v.files[0]) + LevelRuns(v, 1)
  }

  // The runs that the children of the internal iterator go over.
  function DbRuns(db: Db): seq<seq<Entry>>
    requires |db.version.files| == NUM_LEVELS
  {
    [db.mem] + (if db.imm.Some? then [db.imm.value] else []) + VersionRuns(db.version)
  }

  lemma {:induction false} InRunsAppend(a: seq<seq<Entry>>, b: seq<seq<Entry>>, e: Entry)
    ensures InRuns(a + b, e) <==> InRuns(a, e) || InRuns(b, e)
  {
    if InRuns(a, e) {
      var i :| 0 <= i < |a| && e in a[i];
      assert e in (a + b)[i];
    }
    if InRuns(b, e) {
      var i :| 0 <= i < |b| && e in b[i];
      assert e in (a + b)[|a| + i];
    }
  }

  lemma {:induction false} LevelRunsMembers(v: Version, l: nat, e: Entry)
    requires l <= |v.files|
    ensures InRuns(LevelRuns(v, l), e) <==> exists m :: l <= m < |v.files| && InFiles(v.files[m], e)
    decreases |v.files| - l
  {
    hide Concat;
    if l < |v.files| {
      var first := if v.files[l] == [] then [] else [Concat(v.files[l])];
      LevelRunsMembers(v, l + 1, e);
      InRunsAppend(first, LevelRuns(v, l + 1), e);
      ConcatMembers(v.files[l], e);
      if InFiles(v.files[l], e) {
        assert e in first[0];
      }
    }
  }

  lemma {:induction false} ContentsMembers(fs: seq<File>, e: Entry)
    ensures InRuns(Contents(fs), e) <==> InFiles(fs, e)
  {
    if InFiles(fs, e) {
      var i :| 0 <= i < |fs| && e in fs[i].entries;
      assert e in Contents(fs)[i];
    }
  }

  lemma {:induction false} VersionRunsMembers(v: Version, e: Entry)
    requires |v.files| == NUM_LEVELS
    ensures InRuns(VersionRuns(v), e) <==> InVersion(v, e)
  {
    hide LevelRuns;
    InRunsAppend(Contents(v.files[0]), LevelRuns(v, 1), e);
    ContentsMembers(v.files[0], e);
    LevelRunsMembers(v, 1, e);
  }

  lemma {:induction false} OneRun(es: seq<Entry>, e: Entry)
    ensures InRuns([es], e) <==> e in es
  {
    assert e in es ==> e in [es][0];
  }

  lemma {:induction false} DbRunsMembers(db: Db, e: Entry)
    requires |db.version.files| == NUM_LEVELS
    ensures InRuns(DbRuns(db), e) <==> e in StoredEntries(db)
  {
    hide VersionRuns;
    var imm := if db.imm.Some? then [db.imm.value] else [];
    InRunsAppend([db.mem] + imm, VersionRuns(db.version), e);
    InRunsAppend([db.mem], imm, e);
    OneRun(db.mem, e);
    OneRun(ImmEntries(db.imm), e);
    VersionRunsMembers(db.version, e);
  }

  // What a merging iterator asks of the runs of its children.
  ghost predicate Mergeable(runs: seq<seq<Entry>>) {
    (forall i :: 0 <= i < |runs| ==> SortedEntries(runs[i])) && RunsApart(runs)
  }

  lemma {:induction false} InRunAt(runs: seq<seq<Entry>>, i: nat)
    requires i < |runs|
    ensures forall e :: e in runs[i] ==> InRuns(runs, e)
  {
  }

  // Two lists of runs with nothing in common.
  lemma {:induction false} MergeableAppend(a: seq<seq<Entry>>, b: seq<seq<Entry>>)
    requires Mergeable(a) && Mergeable(b) && forall e :: InRuns(a, e) ==> !InRuns(b, e)
    ensures Mergeable(a + b)
  {
    hide SortedEntries, InRuns;
    var r := a + b;
    forall i, j, e | 0 <= i < j < |r| && e in r[i] ensures e !in r[j] {
      if j < |a| {
        assert r[i] == a[i] && r[j] == a[j];
      } else if i < |a| {
        InRunAt(a, i);
        InRunAt(b, j - |a|);
        assert InRuns(a, e);
      } else {
        assert r[i] == b[i - |a|] && r[j] == b[j - |a|];
      }
    }
  }

  lemma {:induction false} MergeableOne(es: seq<Entry>)
    requires SortedEntries(es)
    ensures Mergeable([es]) && Mergeable([])
  {
  }

  lemma {:induction false} LevelRunsOk(v: Version, l: nat)
    requires VersionOk(v) && 1 <= l <= NUM_LEVELS
    ensures Mergeable(LevelRuns(v, l))
    decreases NUM_LEVELS - l
  {
    assert |v.files| == NUM_LEVELS;
    hide VersionOk, Concat, SortedEntries, Mergeable, InRuns, InFiles;
    if l == NUM_LEVELS {
      MergeableOne([]);
    } else {
      var first, rest := if v.files[l] == [] then [] else [Concat(v.files[l])], LevelRuns(v, l + 1);
      LevelSorted(v, l);
      MergeableOne(Concat(v.files[l]));
      LevelRunsOk(v, l + 1);
      forall e | InRuns(first, e) ensures !InRuns(rest, e) {
        LevelEntry(v, l, first, e);
        LevelRunsMembers(v, l + 1, e);
        DeeperLacks(v, l, e);
      }
      MergeableAppend(first, rest);
    }
  }

  lemma {:induction false} LevelSorted(v: Version, l: nat)
    requires VersionOk(v) && 1 <= l < NUM_LEVELS
    ensures SortedEntries(Concat(v.files[l]))
  {
    hide Concat, SortedEntries;
    assert LevelOk(l, v.files[l]);
    ConcatSorted(v.files[l]);
  }

  lemma {:induction false} LevelEntry(v: Version, l: nat, first: seq<seq<Entry>>, e: Entry)
    requires l < |v.files| && (first == [] || first == [Concat(v.files[l])]) && InRuns(first, e)
    ensures InFiles(v.files[l], e)
  {
    hide Concat;
    OneRun(Concat(v.files[l]), e);
    ConcatMembers(v.files[l], e);
  }

  lemma {:induction false} DeeperLacks(v: Version, l: nat, e: Entry)
    requires VersionOk(v) && l < NUM_LEVELS && InFiles(v.files[l], e)
    ensures forall m :: l < m < NUM_LEVELS ==> !InFiles(v.files[m], e)
  {
    hide LevelOk, NumbersApart;
    forall m | l < m < NUM_LEVELS ensures !InFiles(v.files[m], e) {
      assert NewerFiles(v.files[l], v.files[m]);
    }
  }

  lemma {:induction false} Level0RunsOk(v: Version)
    requires VersionOk(v)
    ensures Mergeable(Contents(v.files[0]))
  {
    hide LevelOrder, NumbersApart;
    var fs := v.files[0];
    assert LevelOk(0, fs);
    hide LevelOk;
    forall i | 0 <= i < |fs| ensures SortedEntries(fs[i].entries) {
      assert ValidFile(fs[i]);
    }
    forall i, j, e | 0 <= i < j < |fs| && e in fs[i].entries ensures e !in fs[j].entries {
      Level0Apart(fs, fs[i], fs[j], e);
    }
  }

  lemma {:induction false} VersionRunsOk(v: Version)
    requires VersionOk(v)
    ensures Mergeable(VersionRuns(v))
  {
    assert |v.files| == NUM_LEVELS;
    hide VersionOk, LevelRuns, Contents, Mergeable, InRuns, InFiles;
    Level0RunsOk(v);
    LevelRunsOk(v, 1);
    forall e | InRuns(Contents(v.files[0]), e) ensures !InRuns(LevelRuns(v, 1), e) {
      ContentsMembers(v.files[0], e);
      LevelRunsMembers(v, 1, e);
      DeeperLacks(v, 0, e);
    }
    MergeableAppend(Contents(v.files[0]), LevelRuns(v, 1));
  }

  lemma {:induction false} DbRunsOk(db: Db)
    requires VersionOk(db.version) && MemOk(db.mem, db.imm, db.version)
    ensures Mergeable(DbRuns(db))
  {
    assert |db.version.files| == NUM_LEVELS;
    hide VersionOk, VersionRuns, SortedEntries, Mergeable, InRuns, InVersion;
    var imm := if db.imm.Some? then [db.imm.value] else [];
    var rest := VersionRuns(db.version);
    VersionRunsOk(db.version);
    MergeableOne(db.mem);
    MergeableOne(ImmEntries(db.imm));
    forall e ensures InRuns([db.mem], e) ==> !InRuns(imm, e)
      ensures InRuns([db.mem] + imm, e) ==> !InRuns(rest, e)
    {
      InRunsAppend([db.mem], imm, e);
      OneRun(db.mem, e);
      OneRun(ImmEntries(db.imm), e);
      NoRun(e);
      VersionRunsMembers(db.version, e);
      MemApart(db, e);
    }
    MergeableAppend([db.mem], imm);
    MergeableAppend([db.mem] + imm, rest);
  }

  lemma {:induction false} NoRun(e: Entry)
    ensures !InRuns([], e)
  {
  }

  lemma {:induction false} MemApart(db: Db, e: Entry)
    requires MemOk(db.mem, db.imm, db.version)
    ensures e in db.mem ==> e !in ImmEntries(db.imm)
    ensures e in db.mem || e in ImmEntries(db.imm) ==> !InVersion(db.version, e)
  {
    hide InVersion, SortedEntries;
  }

  lemma {:induction false} MergedDb(db: Db) returns (merged: seq<Entry>)
    requires Inv(db)
    ensures SortedEntries(merged) && forall e :: e in merged <==> e in StoredEntries(db)
    ensures |db.version.files| == NUM_LEVELS && forall e :: e in merged <==> InRuns(DbRuns(db), e)
  {
    HistoryUnique(db);
    assert |db.version.files| == NUM_LEVELS;
    hide Inv, DbRuns, StoredEntries;
    var es := Flatten(DbRuns(db));
    forall e ensures e in es <==> InRuns(DbRuns(db), e)
      ensures InRuns(DbRuns(db), e) <==> e in StoredEntries(db)
    {
      FlattenMembers(DbRuns(db), e);
      DbRunsMembers(db, e);
    }
    SortAllOk(es, StoredEntries(db));
    merged := SortAll(es);
  }

  // The loop of Version::AddIterators over the levels.
  method AddLevels(v: Version) returns (runs: seq<seq<Entry>>)
    requires |v.files| == NUM_LEVELS
    ensures runs == LevelRuns(v, 1)
  {
    hide Concat;
    runs := [];
    for level := 1 to NUM_LEVELS
      invariant runs + LevelRuns(v, level) == LevelRuns(v, 1)
    {
      if v.files[level] != [] {
        assert runs + LevelRuns(v, level) == runs + [Concat(v.files[level])] + LevelRuns(v, level + 1);
        runs := runs + [Concat(v.files[level])];
      } else {
        assert runs + LevelRuns(v, level) == runs + LevelRuns(v, level + 1);
      }
    }
    assert runs + [] == runs;
  }

  /** NewInternalIterator: a merging iterator over the memtable, the immutable one, every level-0
      table and one concatenation for each deeper level runs over exactly what is stored. */
  method NewInternalIterator(db: Db) returns (iter: M.MergingIterator, latestSnapshot: nat)
    requires Inv(db)
    ensures fresh(iter) && iter.Ok() && latestSnapshot == db.lastSequence
    ensures SortedEntries(iter.merged) && forall e :: e in iter.merged <==> e in StoredEntries(db)
  {
    hide SortedEntries, RunsApart, LevelRuns, StoredEntries, InRuns, Inv, Contents;
    ghost var merged := MergedDb(db);
    PartsOk(db);
    latestSnapshot := db.lastSequence;
    var runs := [db.mem];
    if db.imm.Some? {
      runs := runs + [db.imm.value];
    }
    var deeper := AddLevels(db.version);
    runs := runs + (Contents(db.version.files[0]) + deeper);
    assert runs == DbRuns(db);
    hide DbRuns;
    var list := ChildIterators(runs);
    ChildrenCover(merged, runs, list);
    iter := new M.MergingIterator(list, merged);
  }

  lemma {:induction false} PartsOk(db: Db)
    requires Inv(db)
    ensures |db.version.files| == NUM_LEVELS && Mergeable(DbRuns(db))
  {
    hide Mergeable, DbRuns;
    DbRunsOk(db);
  }

  // ---- The iterator that the user sees ----

  /** In every state that satisfies the invariant, an iterator over the merge of memtables and tables
      lists a user key with the value that a scan of the flat history returns for it, and lists
      nothing else. */
  lemma {:induction false} IteratorShowsHistory(db: Db, es: seq<Entry>, s: nat, k: UserKey)
    requires Inv(db) && MinLive(db) <= s
    requires SortedEntries(es) && forall e :: e in es <==> e in StoredEntries(db)
    ensures FlatRead(db.history, k, s).Some? <==> exists e :: e in LiveEntries(es, s, |es|) && e.key.user == k
    ensures forall e :: e in LiveEntries(es, s, |es|) && e.key.user == k ==> FlatRead(db.history, k, s) == Some(e.value)
  {
    var r := FlatRead(db.history, k, s);
    HistoryUnique(db);
    FlatReadIs(db.history, k, s);
    assert ReadIs(StoredEntries(db), k, s, r);
    ViewIsSnapshot(es, StoredEntries(db), s, k, r);
  }

  lemma {:induction false} LaterWritesUnseen(history: seq<Entry>, more: seq<Entry>, k: UserKey, s: nat)
    requires forall e :: e in more ==> e.key.sequence > s
    ensures FlatRead(history + more, k, s) == FlatRead(history, k, s)
    decreases |more|
  {
    if more == [] {
      assert history + more == history;
    } else {
      var all, init := history + more, more[..|more| - 1];
      assert all[..|all| - 1] == history + init && all[|all| - 1] == more[|more| - 1];
      LaterWritesUnseen(history, init, k, s);
    }
  }

  /** What is stored later - writes into the memtable under the iterator, flushes, compactions - does
      not change what an iterator at a snapshot that is still live shows: the history as it was when
      the iterator was made. */
  lemma {:induction false} IteratorStaysAtSnapshot(db: Db, history: seq<Entry>, more: seq<Entry>, es: seq<Entry>, s: nat, k: UserKey)
    requires Inv(db) && MinLive(db) <= s && db.history == history + more && forall e :: e in more ==> e.key.sequence > s
    requires SortedEntries(es) && forall e :: e in es <==> e in StoredEntries(db)
    ensures FlatRead(history, k, s).Some? <==> exists e :: e in LiveEntries(es, s, |es|) && e.key.user == k
    ensures forall e :: e in LiveEntries(es, s, |es|) && e.key.user == k ==> FlatRead(history, k, s) == Some(e.value)
  {
    hide Inv, SortedEntries, StoredEntries, LiveEntries, FlatRead;
    LaterWritesUnseen(history, more, k, s);
    IteratorShowsHistory(db, es, s, k);
  }
}
