/** How flushes, moves and compactions change a version without breaking its order. */
module VersionSteps {
  import opened Options
  import opened Keys
  import opened Store
  import opened FileSearch
  import opened InputSelection
  import opened CompactionPick
  import opened CompactionWork
  import opened VersionBuilder
  import opened Lsm

  ghost predicate NumbersApart(v: Version) {
    forall l, m :: 0 <= l < m < |v.files| ==> Numbers(v.files[l]) !! Numbers(v.files[m])
  }

  ghost predicate LevelOk(l: nat, fs: seq<File>) {
    && ValidFiles(fs) && DistinctNumbers(fs) && SortedBySmallest(fs)
    && if l == 0 then NewerByNumber(fs) else SortedDisjoint(fs)
  }

  /** What every installed version satisfies. */
  ghost predicate VersionOk(v: Version) {
    && |v.files| == NUM_LEVELS
    && (forall l :: 0 <= l < NUM_LEVELS ==> LevelOk(l, v.files[l]))
    && LevelOrder(v) && NumbersApart(v)
  }

  lemma {:induction false} VersionOkIsOrdered(v: Version)
    requires VersionOk(v)
    ensures OrderedVersion(v)
  {
    forall l | 0 <= l < NUM_LEVELS
      ensures ValidFiles(v.files[l]) && DistinctNumbers(v.files[l]) && (l >= 1 ==> SortedDisjoint(v.files[l]))
    {
      assert LevelOk(l, v.files[l]);
    }
    assert LevelOk(0, v.files[0]);
  }

  // ---- Sorted levels ----

  predicate Separated(f: File, g: File) {
    Before(f.largest, g.smallest) || Before(g.largest, f.smallest)
  }

  ghost predicate PairwiseSeparated(fs: seq<File>) {
    forall f, g :: f in fs && g in fs && f != g ==> Separated(f, g)
  }

  lemma {:induction false} SeparatedIsSortedDisjoint(fs: seq<File>)
    requires ValidFiles(fs) && SortedBySmallest(fs) && DistinctNumbers(fs) && PairwiseSeparated(fs)
    ensures SortedDisjoint(fs)
  {
    forall i, j | 0 <= i < j < |fs| ensures Before(fs[i].largest, fs[j].smallest) {
      assert BySmallest(fs[i], fs[j]);
      assert fs[i] != fs[j] && Separated(fs[i], fs[j]);
      SmallestToLargest(fs[j], fs[j].entries[0]);
    }
  }

  lemma {:induction false} SortedDisjointIsSeparated(fs: seq<File>)
    requires SortedDisjoint(fs)
    ensures PairwiseSeparated(fs)
  {
  }

  lemma {:induction false} InsertFileDistinct(fs: seq<File>, f: File)
    requires DistinctNumbers(fs) && f.number !in Numbers(fs)
    ensures DistinctNumbers(InsertFile(fs, f))
    ensures Numbers(InsertFile(fs, f)) == Numbers(fs) + {f.number}
  {
    InsertFileMembers(fs, f);
    if fs != [] && !BySmallest(f, fs[0]) && BySmallest(fs[0], f) {
      InsertFileMembers(fs[1..], f);
      var tail := fs[1..];
      assert forall g :: g in fs <==> g == fs[0] || g in tail;
      InsertFileDistinct(tail, f);
      var rest := InsertFile(tail, f);
      forall i | 0 <= i < |rest| ensures rest[i].number != fs[0].number {
        assert rest[i] in tail || rest[i] == f;
        if rest[i] in tail {
          var j :| 0 <= j < |tail| && tail[j] == rest[i];
          assert fs[j + 1].number != fs[0].number;
        }
        assert fs[0].number in Numbers(fs);
      }
      assert InsertFile(fs, f) == [fs[0]] + rest;
    } else if fs != [] {
      assert fs[0].number in Numbers(fs);
      InsertFirst(fs, f);
    }
  }

  lemma {:induction false} InsertFirst(fs: seq<File>, f: File)
    requires DistinctNumbers(fs) && f.number !in Numbers(fs)
    ensures DistinctNumbers([f] + fs) && Numbers([f] + fs) == Numbers(fs) + {f.number}
  {
    forall j | 0 <= j < |fs| ensures fs[j].number != f.number {
      assert fs[j] in fs;
    }
  }

  lemma {:induction false} InsertFilesMembers(fs: seq<File>, added: seq<File>)
    requires DistinctNumbers(fs) && DistinctNumbers(added) && Numbers(fs) !! Numbers(added)
    ensures DistinctNumbers(InsertFiles(fs, added))
    ensures Numbers(InsertFiles(fs, added)) == Numbers(fs) + Numbers(added)
    ensures forall f :: f in InsertFiles(fs, added) <==> f in fs || f in added
    ensures SortedBySmallest(fs) ==> SortedBySmallest(InsertFiles(fs, added))
  {
    if added != [] {
      var init, last := added[..|added| - 1], added[|added| - 1];
      assert added == init + [last];
      InsertFilesMembers(fs, init);
      assert last.number in Numbers(added);
      forall i | 0 <= i < |init| ensures init[i].number != last.number {
        assert added[i].number != added[|added| - 1].number;
      }
      InsertFileDistinct(InsertFiles(fs, init), last);
      InsertFileMembers(InsertFiles(fs, init), last);
    }
  }

  lemma {:induction false} LiveKeeps(fs: seq<File>, gone: seq<File>)
    requires DistinctNumbers(fs) && forall g :: g in gone ==> g in fs
    ensures forall f :: f in Live(fs, Numbers(gone)) <==> f in fs && f !in gone
    ensures DistinctNumbers(Live(fs, Numbers(gone)))
  {
    LiveMembers(fs, Numbers(gone));
    forall f | f in fs && f !in gone ensures f.number !in Numbers(gone) {
      if f.number in Numbers(gone) {
        var g :| g in gone && g.number == f.number;
        SameNumberSameFile(fs, f, g);
      }
    }
    LiveDistinct(fs, Numbers(gone));
  }

  lemma {:induction false} SameNumberSameFile(fs: seq<File>, f: File, g: File)
    requires DistinctNumbers(fs) && f in fs && g in fs && f.number == g.number
    ensures f == g
  {
    var i :| 0 <= i < |fs| && fs[i] == f;
    var j :| 0 <= j < |fs| && fs[j] == g;
  }

  lemma {:induction false} LiveDistinct(fs: seq<File>, dead: set<nat>)
    requires DistinctNumbers(fs)
    ensures DistinctNumbers(Live(fs, dead))
  {
    if fs != [] {
      var init := fs[..|fs| - 1];
      LiveDistinct(init, dead);
      LiveMembers(init, dead);
      var rest := Live(init, dead);
      forall i | 0 <= i < |rest| ensures rest[i].number != fs[|fs| - 1].number {
        assert rest[i] in init;
      }
    }
  }

  lemma {:induction false} InFilesMember(fs: seq<File>, f: File, e: Entry)
    requires f in fs && e in f.entries
    ensures InFiles(fs, e)
  {
    var i :| 0 <= i < |fs| && fs[i] == f;
  }

  lemma {:induction false} InFilesSubset(fs: seq<File>, gs: seq<File>, e: Entry)
    requires InFiles(fs, e) && forall f :: f in fs ==> f in gs
    ensures InFiles(gs, e)
  {
    var i :| 0 <= i < |fs| && e in fs[i].entries;
    InFilesMember(gs, fs[i], e);
  }

  // ---- Closure of the inputs ----

  // Every table left on the compaction's level is newer, key by key, than the inputs from that level.
  ghost predicate LeftNewer(files: seq<File>, in0: seq<File>) {
    forall f, g :: f in files && f !in in0 && g in in0 ==> NewerFile(f, g)
  }

  ghost predicate BeforeAll(f: File, inputs: seq<File>) {
    forall g :: g in inputs ==> Before(f.largest, g.smallest)
  }

  ghost predicate AfterAll(f: File, inputs: seq<File>) {
    forall g :: g in inputs ==> Before(g.largest, f.smallest)
  }

  // Every table left on the output level lies wholly before or wholly after all inputs.
  ghost predicate ParentsApart(parents: seq<File>, in1: seq<File>, inputs: seq<File>) {
    forall f :: f in parents && f !in in1 ==> BeforeAll(f, inputs) || AfterAll(f, inputs)
  }

  // The conditions that hold from the moment a compaction starts until it is installed.
  ghost predicate ClosedInputs(v: Version, c: Pick) {
    && |v.files| == NUM_LEVELS && c.level + 1 < NUM_LEVELS && |c.in0| > 0
    && (forall f :: f in c.in0 ==> f in v.files[c.level])
    && (forall f :: f in c.in1 ==> f in v.files[c.level + 1])
    && LeftNewer(v.files[c.level], c.in0)
    && ParentsApart(v.files[c.level + 1], c.in1, c.in0 + c.in1)
    && Spans(c.in0 + c.in1)
  }

  lemma {:induction false} EntryInUserRange(fs: seq<File>, g: File, e: Entry)
    requires g in fs && ValidFile(g) && e in g.entries
    ensures UserRange(fs).lo.value <= g.smallest.user <= e.key.user <= g.largest.user <= UserRange(fs).hi.value
  {
    SmallestToLargest(g, e);
    HullBounds(fs, g);
  }

  lemma {:induction false} BeforeMeansNewer(f: File, g: File, all: iset<Entry>)
    requires ValidFile(f) && ValidFile(g) && Before(f.largest, g.smallest)
    requires UniqueSequences(all) && forall e :: e in f.entries || e in g.entries ==> e in all
    ensures NewerFile(f, g)
  {
    forall e, e' | e in f.entries && e' in g.entries && e.key.user == e'.key.user
      ensures e.key.sequence > e'.key.sequence
    {
      SmallestToLargest(f, e);
      SmallestToLargest(g, e');
    }
  }

  lemma {:induction false} UserApartMeansNewer(f: File, g: File)
    requires ValidFile(f) && ValidFile(g) && (f.largest.user < g.smallest.user || g.largest.user < f.smallest.user)
    ensures NewerFile(f, g)
  {
    forall e, e' | e in f.entries && e' in g.entries ensures e.key.user != e'.key.user {
      SmallestToLargest(f, e);
      SmallestToLargest(g, e');
    }
  }

  lemma {:induction false} PickLeavesNewer(files: seq<File>, level: nat, in0: seq<File>, all: iset<Entry>)
    requires ValidFiles(files) && Admissible(files, level, in0)
    requires UniqueSequences(all) && forall e :: InFiles(files, e) ==> e in all
    ensures LeftNewer(files, in0)
  {
    forall f, g | f in files && f !in in0 && g in in0 ensures NewerFile(f, g) {
      EntryInUserRange(in0, g, g.entries[0]);
      if level == 0 {
        UserApartMeansNewer(f, g);
      } else if Before(f.largest, SmallestOf(in0)) {
        HullBounds(in0, g);
        forall e | e in f.entries || e in g.entries ensures e in all {
          InFilesMember(files, if e in f.entries then f else g, e);
        }
        BeforeMeansNewer(f, g, all);
      } else {
        UserApartMeansNewer(f, g);
      }
    }
  }

  lemma {:induction false} ParentBesideSelected(parents: seq<File>, r: Range, f: File, g: File)
    requires ValidFiles(parents) && SortedDisjoint(parents) && f in parents && g in parents
    requires Bounded(r) && Overlaps(g, r) && !Overlaps(f, r)
    ensures f.largest.user < r.lo.value ==> Before(f.largest, g.smallest)
    ensures f.smallest.user > r.hi.value ==> Before(g.largest, f.smallest)
  {
    var i :| 0 <= i < |parents| && parents[i] == f;
    var j :| 0 <= j < |parents| && parents[j] == g;
    SmallestToLargest(f, f.entries[0]);
    SmallestToLargest(g, g.entries[0]);
  }

  lemma {:induction false} PickLeavesParentsApart(parents: seq<File>, in0: seq<File>, in1: seq<File>)
    requires ValidFiles(parents) && SortedDisjoint(parents) && ValidFiles(in0) && |in0| > 0
    requires in1 == Overlapping(parents, UserRange(in0))
    ensures ParentsApart(parents, in1, in0 + in1)
    ensures forall f :: f in in1 ==> f in parents
  {
    var r := UserRange(in0);
    OverlappingMembers(parents, r);
    forall f | f in parents && f !in in1 ensures BeforeAll(f, in0 + in1) || AfterAll(f, in0 + in1) {
      forall g | g in in0 + in1
        ensures f.largest.user < r.lo.value ==> Before(f.largest, g.smallest)
        ensures f.smallest.user > r.hi.value ==> Before(g.largest, f.smallest)
      {
        if g in in0 {
          EntryInUserRange(in0, g, g.entries[0]);
        } else {
          ParentBesideSelected(parents, r, f, g);
        }
      }
    }
  }

  lemma {:induction false} PickIsClosed(v: Version, c: Pick)
    requires VersionOk(v) && ValidPick(v, c) && UniqueSequences(VersionEntries(v))
    ensures ClosedInputs(v, c)
  {
    var files := v.files[c.level];
    assert LevelOk(c.level, files) && LevelOk(c.level + 1, v.files[c.level + 1]);
    forall e | InFiles(files, e) ensures e in VersionEntries(v) {
    }
    PickLeavesNewer(files, c.level, c.in0, VersionEntries(v));
    forall i | 0 <= i < |c.in0| ensures ValidFile(c.in0[i]) {
      assert c.in0[i] in files;
    }
    PickLeavesParentsApart(v.files[c.level + 1], c.in0, c.in1);
  }

  // ---- Flush ----

  // Every entry of f is newer than every entry of the list.
  ghost predicate NewerThanAll(f: File, fs: seq<File>) {
    forall e, e' :: e in f.entries && InFiles(fs, e') ==> e.key.sequence > e'.key.sequence
  }

  ghost predicate NewTable(v: Version, level: nat, f: File) {
    && |v.files| == NUM_LEVELS && level < NUM_LEVELS && ValidFile(f)
    && (forall l :: 0 <= l < NUM_LEVELS ==> NewerThanAll(f, v.files[l]))
    && (forall l, g :: 0 <= l < NUM_LEVELS && g in v.files[l] ==> g.number < f.number)
    && (level > 0 ==> FlushFits(v, level, f))
  }

  lemma {:induction false} NumberBelow(fs: seq<File>, n: nat)
    requires forall g :: g in fs ==> g.number < n
    ensures n !in Numbers(fs)
  {
  }

  lemma {:induction false} FlushedLevel(files: seq<File>, level: nat, f: File)
    requires LevelOk(level, files) && ValidFile(f) && NewerThanAll(f, files)
    requires forall g :: g in files ==> g.number < f.number
    requires level > 0 ==> forall g :: g in files ==> !Overlaps(g, Range(Some(f.smallest.user), Some(f.largest.user)))
    ensures LevelOk(level, InsertFile(files, f)) && Numbers(InsertFile(files, f)) == Numbers(files) + {f.number}
  {
    var r := InsertFile(files, f);
    NumberBelow(files, f.number);
    InsertFileDistinct(files, f);
    InsertFileMembers(files, f);
    InsertFileValid(files, f);
    if level == 0 {
      forall i, j | 0 <= i < |r| && 0 <= j < |r| && r[i].number > r[j].number ensures NewerFile(r[i], r[j]) {
        assert r[i] in r && r[j] in r;
        NewerInserted(files, f, r[i], r[j]);
      }
    } else {
      InsertFileSeparated(files, f);
      SeparatedIsSortedDisjoint(r);
    }
  }

  lemma {:induction false} InsertFileValid(files: seq<File>, f: File)
    requires ValidFiles(files) && ValidFile(f)
    ensures ValidFiles(InsertFile(files, f))
  {
    InsertFileMembers(files, f);
    var r := InsertFile(files, f);
    forall i | 0 <= i < |r| ensures ValidFile(r[i]) {
      assert r[i] in files || r[i] == f;
    }
  }

  lemma {:induction false} InsertFileSeparated(files: seq<File>, f: File)
    requires SortedDisjoint(files)
    requires forall g :: g in files ==> !Overlaps(g, Range(Some(f.smallest.user), Some(f.largest.user)))
    ensures PairwiseSeparated(InsertFile(files, f))
  {
    SortedDisjointIsSeparated(files);
    InsertFileMembers(files, f);
    var r := InsertFile(files, f);
    forall g, h | g in r && h in r && g != h ensures Separated(g, h) {
    }
  }

  lemma {:induction false} NewerInserted(files: seq<File>, f: File, g: File, h: File)
    requires NewerByNumber(files) && NewerThanAll(f, files) && g.number > h.number
    requires (g in files || g == f) && (h in files || h == f)
    requires forall x :: x in files ==> x.number < f.number
    ensures NewerFile(g, h)
  {
    if g == f {
      forall e, e' | e in g.entries && e' in h.entries ensures e.key.sequence > e'.key.sequence {
        InFilesMember(files, h, e');
      }
    } else {
      var i :| 0 <= i < |files| && files[i] == g;
      var j :| 0 <= j < |files| && files[j] == h;
    }
  }

  lemma {:induction false} FlushKeepsLevelOrder(v: Version, level: nat, f: File)
    requires VersionOk(v) && NewTable(v, level, f)
    ensures LevelOrder(VersionAfterFlush(v, level, f))
  {
    var v' := VersionAfterFlush(v, level, f);
    forall l, m | 0 <= l < m < |v'.files| ensures NewerFiles(v'.files[l], v'.files[m]) {
      forall e, e' | InFiles(v'.files[l], e) && InFiles(v'.files[m], e') && e.key.user == e'.key.user
        ensures e.key.sequence > e'.key.sequence
      {
        FlushedEntry(v, level, f, l, e);
        FlushedEntry(v, level, f, m, e');
        FlushedPair(v, level, f, l, m, e, e');
      }
    }
  }

  lemma {:induction false} FlushedPair(v: Version, level: nat, f: File, l: nat, m: nat, e: Entry, e': Entry)
    requires VersionOk(v) && NewTable(v, level, f) && l < m < NUM_LEVELS && e.key.user == e'.key.user
    requires InFiles(v.files[l], e) || (l == level && e in f.entries)
    requires InFiles(v.files[m], e') || (m == level && e' in f.entries)
    ensures e.key.sequence > e'.key.sequence
  {
    if !InFiles(v.files[l], e) {
      assert NewerThanAll(f, v.files[m]);
    } else if InFiles(v.files[m], e') {
      assert NewerFiles(v.files[l], v.files[m]);
    } else {
      assert LevelOk(l, v.files[l]);
      NoSharedKey(v.files[l], f, e, e');
    }
  }

  lemma {:induction false} NoSharedKey(fs: seq<File>, f: File, e: Entry, e': Entry)
    requires ValidFiles(fs) && ValidFile(f) && InFiles(fs, e) && e' in f.entries
    requires forall g :: g in fs ==> !Overlaps(g, Range(Some(f.smallest.user), Some(f.largest.user)))
    ensures e.key.user != e'.key.user
  {
    var i :| 0 <= i < |fs| && e in fs[i].entries;
    SmallestToLargest(fs[i], e);
    SmallestToLargest(f, e');
    assert fs[i] in fs;
  }

  lemma {:induction false} FlushedEntry(v: Version, level: nat, f: File, l: nat, e: Entry)
    requires |v.files| == NUM_LEVELS && level < NUM_LEVELS && l < NUM_LEVELS
    ensures InFiles(VersionAfterFlush(v, level, f).files[l], e) ==> InFiles(v.files[l], e) || (l == level && e in f.entries)
    ensures InFiles(v.files[l], e) ==> InFiles(VersionAfterFlush(v, level, f).files[l], e)
    ensures f.number !in Numbers(v.files[level]) && l == level && e in f.entries ==> InFiles(VersionAfterFlush(v, level, f).files[l], e)
  {
    InsertFileMembers(v.files[level], f);
    var fs := v.files[l];
    var fs' := VersionAfterFlush(v, level, f).files[l];
    if InFiles(fs', e) {
      var i :| 0 <= i < |fs'| && e in fs'[i].entries;
      assert fs'[i] in fs';
      if fs'[i] in fs {
        InFilesMember(fs, fs'[i], e);
      }
    }
    if InFiles(fs, e) {
      InFilesSubset(fs, fs', e);
    }
    if f.number !in Numbers(v.files[level]) && l == level && e in f.entries {
      InFilesMember(fs', f, e);
    }
  }

  lemma {:induction false} FlushedEntries(v: Version, level: nat, f: File, e: Entry)
    requires |v.files| == NUM_LEVELS && level < NUM_LEVELS && f.number !in Numbers(v.files[level])
    ensures InVersion(VersionAfterFlush(v, level, f), e) <==> InVersion(v, e) || e in f.entries
  {
    var v' := VersionAfterFlush(v, level, f);
    if InVersion(v', e) {
      var l :| 0 <= l < |v'.files| && InFiles(v'.files[l], e);
      FlushedEntry(v, level, f, l, e);
    }
    if InVersion(v, e) {
      var l :| 0 <= l < |v.files| && InFiles(v.files[l], e);
      FlushedEntry(v, level, f, l, e);
    }
    FlushedEntry(v, level, f, level, e);
  }

  lemma {:induction false} FlushKeepsVersionOk(v: Version, level: nat, f: File)
    requires VersionOk(v) && NewTable(v, level, f)
    ensures VersionOk(VersionAfterFlush(v, level, f))
  {
    var v' := VersionAfterFlush(v, level, f);
    FlushKeepsLevelOrder(v, level, f);
    FlushedLevel(v.files[level], level, f);
    forall l | 0 <= l < NUM_LEVELS ensures LevelOk(l, v'.files[l]) {
      assert LevelOk(l, v.files[l]);
    }
    FlushKeepsNumbersApart(v, level, f);
  }

  lemma {:induction false} FlushKeepsNumbersApart(v: Version, level: nat, f: File)
    requires NumbersApart(v) && |v.files| == NUM_LEVELS && level < NUM_LEVELS
    requires forall l, g :: 0 <= l < NUM_LEVELS && g in v.files[l] ==> g.number < f.number
    ensures NumbersApart(VersionAfterFlush(v, level, f))
  {
    var v' := VersionAfterFlush(v, level, f);
    InsertFileMembers(v.files[level], f);
    forall l, m | 0 <= l < m < NUM_LEVELS ensures Numbers(v'.files[l]) !! Numbers(v'.files[m]) {
      assert Numbers(v.files[l]) !! Numbers(v.files[m]);
      NumberBelow(v.files[l], f.number);
      NumberBelow(v.files[m], f.number);
    }
  }

  lemma {:induction false} InputsMissed(v: Version, c: Pick, level: nat, f: File, g: File)
    requires ClosedInputs(v, c) && level < NUM_LEVELS && FlushFits(v, level, f) && c.level + 1 <= level
    requires g in c.in0 + c.in1
    ensures !Overlaps(g, Range(Some(f.smallest.user), Some(f.largest.user)))
  {
    assert g in v.files[c.level] || g in v.files[c.level + 1];
  }

  // A flushed table that fits lies outside the hull of a running compaction's inputs.
  lemma {:induction false} FlushMissesHull(v: Version, c: Pick, level: nat, f: File)
    requires ClosedInputs(v, c) && level < NUM_LEVELS && ValidFile(f) && FlushFits(v, level, f) && c.level + 1 <= level
    requires ValidFiles(c.in0)
    ensures !Overlaps(f, UserRange(c.in0 + c.in1))
  {
    var inputs := c.in0 + c.in1;
    var hull := UserRange(inputs);
    forall u: UserKey | hull.lo.value <= u <= hull.hi.value ensures !UserRangeContains(f, u) {
      assert Covered(inputs, u);
      var g :| g in inputs && UserRangeContains(g, u);
      InputsMissed(v, c, level, f, g);
    }
    SmallestToLargest(f, f.entries[0]);
    assert inputs[0] == c.in0[0];
    EntryInUserRange(inputs, inputs[0], inputs[0].entries[0]);
    var u := if f.smallest.user < hull.lo.value then hull.lo.value else f.smallest.user;
    assert hull.lo.value <= u <= hull.hi.value ==> !UserRangeContains(f, u);
  }

  lemma {:induction false} OutsideHullIsApart(f: File, inputs: seq<File>)
    requires |inputs| > 0 && !Overlaps(f, UserRange(inputs))
    ensures BeforeAll(f, inputs) || AfterAll(f, inputs)
  {
    forall g | g in inputs
      ensures UserRange(inputs).lo.value <= g.smallest.user && g.largest.user <= UserRange(inputs).hi.value
    {
      HullBounds(inputs, g);
    }
  }

  lemma {:induction false} FlushLeavesNewer(files: seq<File>, in0: seq<File>, f: File)
    requires LeftNewer(files, in0) && NewerThanAll(f, files) && forall g :: g in in0 ==> g in files
    ensures LeftNewer(InsertFile(files, f), in0)
  {
    InsertFileMembers(files, f);
    forall h, g | h in InsertFile(files, f) && h !in in0 && g in in0 ensures NewerFile(h, g) {
      if h !in files {
        forall e, e' | e in h.entries && e' in g.entries ensures e.key.sequence > e'.key.sequence {
          InFilesMember(files, g, e');
        }
      }
    }
  }

  /** A flush in the middle of a compaction keeps the compaction's inputs closed: it never lands
      inside the range that the outputs will occupy. */
  lemma {:induction false} FlushKeepsInputsClosed(v: Version, c: Pick, level: nat, f: File)
    requires ValidFiles(c.in0) && NewTable(v, level, f) && ClosedInputs(v, c)
    ensures ClosedInputs(VersionAfterFlush(v, level, f), c)
  {
    InsertFileMembers(v.files[level], f);
    if level == c.level {
      FlushLeavesNewer(v.files[level], c.in0, f);
    } else if level == c.level + 1 {
      FlushMissesHull(v, c, level, f);
      OutsideHullIsApart(f, c.in0 + c.in1);
    }
  }
}
