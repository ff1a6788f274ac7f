/** VersionSet::PickCompaction and VersionSet::SetupOtherInputs (db/version_set.cc). */
module SetupInputs {
  import opened Options
  import opened Keys
  import opened Store
  import opened FileSearch
  import opened InputSelection
  import opened CompactionPick

  function TotalFileSize(fs: seq<File>): nat {
    if fs == [] then 0 else TotalFileSize(fs[..|fs| - 1]) + fs[|fs| - 1].size
  }

  function MaxGrandParentOverlapBytes(maxFileSize: nat): nat {
    10 * maxFileSize
  }

  function ExpandedCompactionByteSizeLimit(maxFileSize: nat): nat {
    25 * maxFileSize
  }

  // A selection of level `level` before boundary files are added: what a scan of the level can return.
  ghost predicate Scanned(files: seq<File>, level: nat, cf: seq<File>) {
    && cf != []
    && if level == 0 then exists range :: OverlapClosed(files, range) && cf == Overlapping(files, range)
       else exists a, b :: 0 <= a < b <= |files| && cf == files[a..b]
  }

  lemma {:induction false} BoundaryMakesAdmissible(files: seq<File>, level: nat, cf: seq<File>, in0: seq<File>)
    requires ValidFiles(files) && DistinctNumbers(files) && (level > 0 ==> SortedDisjoint(files))
    requires Scanned(files, level, cf)
    requires BoundaryChain(files, cf, in0) && NoBoundary(files, LargestOf(in0))
    ensures Admissible(files, level, in0)
    ensures forall f :: f in cf ==> f in in0
  {
    if level == 0 {
      var range :| OverlapClosed(files, range) && cf == Overlapping(files, range);
      ClosedChainIsShort(files, range, in0);
      OverlappingMembers(files, range);
      Level0Closed(files, range);
    } else {
      SortedAdmissible(files, cf, in0);
    }
  }

  lemma {:induction false} SliceKeeps(files: seq<File>, a: nat, b: nat)
    requires DistinctNumbers(files) && SortedDisjoint(files) && a <= b <= |files|
    ensures DistinctNumbers(files[a..b]) && SortedDisjoint(files[a..b])
    ensures forall f :: f in files[a..b] ==> f in files
  {
  }

  lemma {:induction false} SortedAdmissible(files: seq<File>, cf: seq<File>, in0: seq<File>)
    requires ValidFiles(files) && DistinctNumbers(files) && SortedDisjoint(files)
    requires Scanned(files, 1, cf)
    requires BoundaryChain(files, cf, in0) && NoBoundary(files, LargestOf(in0))
    ensures Admissible(files, 1, in0)
    ensures forall f :: f in cf ==> f in in0
  {
    hide ClosedAtSortedLevel, BoundaryChain, NoBoundary, ValidFiles, SortedDisjoint, DistinctNumbers, LargestOf;
    var a, b: nat :| 0 <= a < b <= |files| && cf == files[a..b];
    var b' := ChainIsSlice(files, a, b, cf, in0);
    SortedLevelClosed(files, a, b');
    SliceKeeps(files, a, b');
    forall f | f in cf ensures f in in0 {
      ChainKeeps(files, cf, in0, f);
    }
  }

  lemma {:induction false} ChainKeeps(files: seq<File>, cf: seq<File>, r: seq<File>, f: File)
    requires BoundaryChain(files, cf, r) && f in cf
    ensures f in r
    decreases |r|
  {
    if |r| > |cf| {
      ChainKeeps(files, cf, r[..|r| - 1], f);
    }
  }

  lemma {:induction false} MembersOverlapHull(fs: seq<File>, f: File)
    requires ValidFiles(fs) && f in fs
    ensures Overlaps(f, UserRange(fs))
  {
    SmallestToLargest(f, f.entries[0]);
    HullBounds(fs, f);
  }

  // Two scans of a sorted level, the second over a wider range, with the same number of results.
  lemma {:induction false} SameCountSameTables(files: seq<File>, r: Range, r': Range)
    requires ValidFiles(files) && SortedDisjoint(files) && Widens(r, r')
    requires Overlapping(files, r) != [] && |Overlapping(files, r)| == |Overlapping(files, r')|
    ensures Overlapping(files, r) == Overlapping(files, r')
  {
    var a, b := OverlappingSlice(files, r);
    var a', b' := OverlappingSlice(files, r');
    OverlapsWider(files[a], r, r');
    OverlapsWider(files[b - 1], r, r');
  }

  lemma {:induction false} ParentsLeaveNoGap(in0: seq<File>, files: seq<File>)
    requires Spans(in0)
    ensures Spans(in0 + Overlapping(files, UserRange(in0)))
  {
    OverlappingMembers(files, UserRange(in0));
    SpansAppendAll(in0, Overlapping(files, UserRange(in0)));
  }

  /** SetupOtherInputs adds boundary files, takes the overlapping tables of the next level, and
      grows inputs_[0] when that leaves the next level's share unchanged. `base` is inputs_[0]
      before it is grown. */
  method SetupOtherInputs(v: Version, level: nat, picked: seq<File>, maxFileSize: nat)
    returns (c: Pick, grandparents: seq<File>, compactPointer: InternalKey, base: seq<File>)
    requires ValidVersion(v) && level + 1 < NUM_LEVELS
    requires Scanned(v.files[level], level, picked) && Spans(picked)
    ensures ValidPick(v, c) && c.level == level
    ensures BoundaryChain(v.files[level], picked, base)
    ensures forall f :: f in base ==> f in c.in0
    ensures c.in1 == Overlapping(v.files[level + 1], UserRange(base))
    ensures GrownWhenWorthwhile(v, level, base, c.in1, c.in0, maxFileSize)
    ensures grandparents == if level + 2 < NUM_LEVELS then Overlapping(v.files[level + 2], UserRange(c.in0 + c.in1)) else []
    ensures compactPointer == LargestOf(c.in0)
  {
    assert ValidFiles(v.files[level]) && DistinctNumbers(v.files[level]) && ValidFiles(v.files[level + 1]);
    hide GrownWhenWorthwhile, ValidVersion, Spans, BoundaryChain, Overlapping, Scanned, ValidFiles, DistinctNumbers;
    var in0, in1 := InitialInputs(v.files[level], v.files[level + 1], level, picked);
    base := in0;
    in0 := Grow(v, level, in0, in1, maxFileSize);
    c := Pick(level, in0, in1);
    grandparents := Grandparents(v, level, in0 + in1);
    var smallest, largest := GetRange(in0);
    compactPointer := largest;
  }

  // The first half of SetupOtherInputs: boundary files, then the overlapping tables of the next level.
  method InitialInputs(files: seq<File>, parents: seq<File>, level: nat, picked: seq<File>) returns (in0: seq<File>, in1: seq<File>)
    requires ValidFiles(files) && DistinctNumbers(files) && (level > 0 ==> SortedDisjoint(files)) && ValidFiles(parents)
    requires Scanned(files, level, picked) && Spans(picked)
    ensures Admissible(files, level, in0) && BoundaryChain(files, picked, in0)
    ensures in1 == Overlapping(parents, UserRange(in0)) && Spans(in0 + in1)
  {
    ScannedValid(files, level, picked);
    in0 := AddBoundaryInputs(files, picked);
    BoundaryMakesAdmissible(files, level, picked, in0);
    ChainLeavesNoGap(files, picked, in0);
    var smallest, largest := GetRange(in0);
    var overlapping, _ := GetOverlappingInputs(level + 1, parents, Range(Some(smallest.user), Some(largest.user)), []);
    in1 := overlapping;
    ParentsLeaveNoGap(in0, parents);
  }

  lemma {:induction false} ChainLeavesNoGap(files: seq<File>, picked: seq<File>, in0: seq<File>)
    requires ValidFiles(files) && ValidFiles(in0) && Spans(picked) && BoundaryChain(files, picked, in0)
    ensures Spans(in0)
  {
    assert [] + picked == picked && [] + in0 == in0;
    SpansChain([], files, picked, in0);
  }

  method Grandparents(v: Version, level: nat, all: seq<File>) returns (r: seq<File>)
    requires ValidVersion(v) && |all| > 0
    ensures r == if level + 2 < NUM_LEVELS then Overlapping(v.files[level + 2], UserRange(all)) else []
  {
    r := [];
    if level + 2 < NUM_LEVELS {
      var allStart, allLimit := GetRange(all);
      var overlapping, _ := GetOverlappingInputs(level + 2, v.files[level + 2], Range(Some(allStart.user), Some(allLimit.user)), []);
      r := overlapping;
    }
  }

  lemma {:induction false} ScannedValid(files: seq<File>, level: nat, cf: seq<File>)
    requires ValidFiles(files) && Scanned(files, level, cf)
    ensures ValidFiles(cf)
  {
    if level == 0 {
      var range :| OverlapClosed(files, range) && cf == Overlapping(files, range);
      OverlappingMembers(files, range);
      forall i | 0 <= i < |cf| ensures ValidFile(cf[i]) {
        assert cf[i] in files;
      }
    }
  }

  // The second half of SetupOtherInputs: inputs_[0] grows if inputs_[1] stays what it is.
  method Grow(v: Version, level: nat, in0: seq<File>, in1: seq<File>, maxFileSize: nat) returns (r: seq<File>)
    requires ValidVersion(v) && level + 1 < NUM_LEVELS
    requires Admissible(v.files[level], level, in0) && Spans(in0 + in1)
    requires in1 == Overlapping(v.files[level + 1], UserRange(in0))
    ensures Admissible(v.files[level], level, r) && Spans(r + in1)
    ensures in1 == Overlapping(v.files[level + 1], UserRange(r))
    ensures forall f :: f in in0 ==> f in r
    ensures GrownWhenWorthwhile(v, level, in0, in1, r, maxFileSize)
  {
    hide IsCandidate, Worthwhile, Admissible, Spans, ValidVersion;
    r := in0;
    if in1 != [] {
      var expanded0, _, ok := Expand(v, level, in0, in1, maxFileSize);
      if ok {
        r := expanded0;
      }
    }
  }

  // `expanded0` is what a rescan of the level over the range `asked` gives, boundary files included.
  ghost predicate IsCandidate(files: seq<File>, level: nat, asked: Range, expanded0: seq<File>) {
    exists range ::
      && (if level == 0 then LeastClosed(files, asked, range) else range == asked)
      && Overlapping(files, range) != [] && BoundaryChain(files, Overlapping(files, range), expanded0)
      && NoBoundary(files, LargestOf(expanded0))
  }

  // When inputs_[0] is replaced: more tables, not too many bytes, and as many parents as before.
  predicate Worthwhile(parents: seq<File>, in0: seq<File>, in1: seq<File>, expanded0: seq<File>, maxFileSize: nat) {
    && |expanded0| > |in0|
    && TotalFileSize(in1) + TotalFileSize(expanded0) < ExpandedCompactionByteSizeLimit(maxFileSize)
    && |Overlapping(parents, UserRange(expanded0))| == |in1|
  }

  // inputs_[0] grows exactly when it is worthwhile.
  ghost predicate GrownWhenWorthwhile(v: Version, level: nat, base: seq<File>, in1: seq<File>, in0: seq<File>, maxFileSize: nat)
    requires |v.files| == NUM_LEVELS && level + 1 < NUM_LEVELS
  {
    if in1 == [] then in0 == base
    else exists e :: IsCandidate(v.files[level], level, UserRange(base + in1), e)
                && in0 == if Worthwhile(v.files[level + 1], base, in1, e, maxFileSize) then e else base
  }

  method Expand(v: Version, level: nat, in0: seq<File>, in1: seq<File>, maxFileSize: nat)
    returns (expanded0: seq<File>, expanded1: seq<File>, ok: bool)
    requires ValidVersion(v) && level + 1 < NUM_LEVELS
    requires Admissible(v.files[level], level, in0) && Spans(in0 + in1) && in1 != []
    requires in1 == Overlapping(v.files[level + 1], UserRange(in0))
    ensures ok ==> Admissible(v.files[level], level, expanded0) && Spans(expanded0 + expanded1)
    ensures ok ==> expanded1 == in1 == Overlapping(v.files[level + 1], UserRange(expanded0))
    ensures ok ==> forall f :: f in in0 ==> f in expanded0
    ensures IsCandidate(v.files[level], level, UserRange(in0 + in1), expanded0)
    ensures ok <==> Worthwhile(v.files[level + 1], in0, in1, expanded0, maxFileSize)
  {
    var files, parents := v.files[level], v.files[level + 1];
    var all := in0 + in1;
    var allStart, allLimit := GetRange(all);
    var asked := Range(Some(allStart.user), Some(allLimit.user));
    var cf, range := GetOverlappingInputs(level, files, asked, all);
    ExpansionScanned(v, level, in0, in1, cf, range);
    expanded0 := AddBoundaryInputs(files, cf);
    assert asked == UserRange(all) && IsCandidate(files, level, asked, expanded0);
    hide IsCandidate;
    BoundaryMakesAdmissible(files, level, cf, expanded0);
    expanded1, ok := [], false;
    if |expanded0| > |in0| && TotalFileSize(in1) + TotalFileSize(expanded0) < ExpandedCompactionByteSizeLimit(maxFileSize) {
      var newStart, newLimit := GetRange(expanded0);
      var overlapping, _ := GetOverlappingInputs(level + 1, parents, Range(Some(newStart.user), Some(newLimit.user)), []);
      expanded1 := overlapping;
      if |expanded1| == |in1| {
        HullGrows(in0, expanded0);
        SameCountSameTables(parents, UserRange(in0), UserRange(expanded0));
        SpansChain(all, files, cf, expanded0);
        SpansMembers(all + expanded0, expanded0 + expanded1);
        ok := true;
      }
    }
  }

  lemma {:induction false} ExpansionScanned(v: Version, level: nat, in0: seq<File>, in1: seq<File>, cf: seq<File>, range: Range)
    requires ValidVersion(v) && level + 1 < NUM_LEVELS
    requires Admissible(v.files[level], level, in0) && Spans(in0 + in1)
    requires in1 == Overlapping(v.files[level + 1], UserRange(in0))
    requires cf == Overlapping(v.files[level], range)
    requires level > 0 ==> range == UserRange(in0 + in1)
    requires level == 0 ==> LeastClosed(v.files[0], UserRange(in0 + in1), range)
    requires level == 0 ==> CoversRange(in0 + in1 + cf, range)
    ensures Scanned(v.files[level], level, cf) && ValidFiles(cf)
    ensures forall f :: f in in0 ==> f in cf
    ensures Spans(in0 + in1 + cf)
  {
    var files := v.files[level];
    var all := in0 + in1;
    OverlappingMembers(v.files[level + 1], UserRange(in0));
    OverlappingMembers(files, range);
    forall i | 0 <= i < |all| ensures ValidFile(all[i]) {
      assert all[i] in files || all[i] in v.files[level + 1];
    }
    forall f | f in all ensures Overlaps(f, range) {
      MembersOverlapHull(all, f);
      OverlapsWider(f, UserRange(all), range);
    }
    assert in0[0] in all && in0[0] in cf;
    if level == 0 {
      forall f | f in all + cf ensures Within(f, range) {
        if f in all {
          HullContains(all, f);
        }
      }
      SpansWithin(all + cf, range);
    } else {
      var a, b := OverlappingSlice(files, range);
      SpansAppendAll(all, cf);
    }
    ScannedValid(files, level, cf);
  }

  lemma {:induction false} HullContains(fs: seq<File>, f: File)
    requires f in fs
    ensures Within(f, UserRange(fs))
  {
    HullBounds(fs, f);
  }

  // The tables that a compaction of f starts with.
  ghost predicate FirstInputs(files: seq<File>, level: nat, f: File, picked: seq<File>) {
    if level > 0 then picked == [f]
    else exists range :: LeastClosed(files, UserRange([f]), range) && picked == Overlapping(files, range)
  }

  // What SetupOtherInputs makes of them: boundary files, the share of the next level, and growth.
  ghost predicate GrownFrom(v: Version, level: nat, picked: seq<File>, base: seq<File>, c: Pick, maxFileSize: nat)
    requires |v.files| == NUM_LEVELS && level + 1 < NUM_LEVELS
  {
    && BoundaryChain(v.files[level], picked, base) && base != []
    && (forall f :: f in base ==> f in c.in0)
    && c.in1 == Overlapping(v.files[level + 1], UserRange(base))
    && GrownWhenWorthwhile(v, level, base, c.in1, c.in0, maxFileSize)
  }

  /** c is the compaction of the table f. */
  ghost predicate PickedAround(v: Version, level: nat, f: File, c: Pick, maxFileSize: nat)
    requires |v.files| == NUM_LEVELS && level + 1 < NUM_LEVELS
  {
    exists picked, base :: FirstInputs(v.files[level], level, f, picked) && GrownFrom(v, level, picked, base, c, maxFileSize)
  }

  // The tables two levels down that the outputs may overlap.
  function GrandparentsOf(v: Version, c: Pick): seq<File>
    requires |v.files| == NUM_LEVELS && c.in0 + c.in1 != []
  {
    if c.level + 2 < NUM_LEVELS then Overlapping(v.files[c.level + 2], UserRange(c.in0 + c.in1)) else []
  }

  /** PickCompaction, size-triggered: the first table after the compaction pointer, wrapping
      around to the first table of the level. The level comes from Finalize, which picks a level
      that is not empty. */
  method PickCompaction(v: Version, level: nat, pointer: Option<InternalKey>, maxFileSize: nat)
    returns (c: Pick, grandparents: seq<File>, newPointer: InternalKey)
    requires ValidVersion(v) && level + 1 < NUM_LEVELS && v.files[level] != []
    ensures ValidPick(v, c) && c.level == level
    ensures newPointer == LargestOf(c.in0)
    ensures grandparents == GrandparentsOf(v, c)
    ensures exists i :: 0 <= i < |v.files[level]| && v.files[level][i] in c.in0 && IsPicked(v.files[level], pointer, i)
                        && PickedAround(v, level, v.files[level][i], c, maxFileSize)
  {
    var files := v.files[level];
    var i := 0;
    while i < |files| && pointer.Some? && !Before(pointer.value, files[i].largest)
      invariant 0 <= i <= |files|
      invariant pointer.Some? ==> forall j :: 0 <= j < i ==> !Before(pointer.value, files[j].largest)
      invariant pointer.None? ==> i == 0
    {
      i := i + 1;
    }
    if i == |files| {
      i := 0;
    }
    c, grandparents, newPointer := PickTable(v, level, i, maxFileSize);
  }

  predicate IsPicked(files: seq<File>, pointer: Option<InternalKey>, i: nat)
    requires i < |files|
  {
    if pointer.None? then i == 0
    else if Before(pointer.value, files[i].largest) then forall j :: 0 <= j < i ==> !Before(pointer.value, files[j].largest)
    else i == 0 && forall j :: 0 <= j < |files| ==> !Before(pointer.value, files[j].largest)
  }

  lemma {:induction false} OneScanned(files: seq<File>, level: nat, i: nat)
    requires i < |files| && level > 0
    ensures Scanned(files, level, [files[i]])
  {
    assert files[i..i + 1] == [files[i]];
  }

  /** The rest of PickCompaction, for whichever table the size or seek trigger chose. */
  method PickTable(v: Version, level: nat, i: nat, maxFileSize: nat)
    returns (c: Pick, grandparents: seq<File>, newPointer: InternalKey)
    requires ValidVersion(v) && level + 1 < NUM_LEVELS && i < |v.files[level]|
    ensures ValidPick(v, c) && c.level == level && v.files[level][i] in c.in0
    ensures PickedAround(v, level, v.files[level][i], c, maxFileSize)
    ensures newPointer == LargestOf(c.in0) && grandparents == GrandparentsOf(v, c)
  {
    hide ValidPick, Spans, BoundaryChain, GrownWhenWorthwhile, Overlapping, LeastClosed, CoversRange, Scanned;
    var files := v.files[level];
    var f := files[i];
    var picked := [f];
    SingleSpans(f);
    if level == 0 {
      var smallest, largest := GetRange(picked);
      var range;
      picked, range := GetOverlappingInputs(0, files, Range(Some(smallest.user), Some(largest.user)), [f]);
      Level0Picked(files, f, picked, range);
    } else {
      OneScanned(files, level, i);
    }
    var base;
    c, grandparents, newPointer, base := SetupOtherInputs(v, level, picked, maxFileSize);
    ChainKeeps(files, picked, base, f);
    assert FirstInputs(files, level, f, picked) && GrownFrom(v, level, picked, base, c, maxFileSize);
  }

  lemma {:induction false} SingleSpans(f: File)
    ensures Spans([f])
  {
    forall u: UserKey | f.smallest.user <= u <= f.largest.user ensures Covered([f], u) {
      assert f in [f] && UserRangeContains(f, u);
    }
  }

  lemma {:induction false} Level0Picked(files: seq<File>, f: File, picked: seq<File>, range: Range)
    requires ValidFiles(files) && f in files
    requires picked == Overlapping(files, range) && LeastClosed(files, UserRange([f]), range)
    requires CoversRange([f] + picked, range)
    ensures Scanned(files, 0, picked) && Spans(picked) && f in picked
  {
    OverlappingMembers(files, range);
    SmallestToLargest(f, f.entries[0]);
    assert Overlaps(f, range);
    SpansWithin([f] + picked, range);
    SpansMembers([f] + picked, picked);
  }

  // Compaction::IsTrivialMove
  predicate IsTrivialMove(c: Pick, grandparents: seq<File>, maxFileSize: nat) {
    |c.in0| == 1 && |c.in1| == 0 && TotalFileSize(grandparents) <= MaxGrandParentOverlapBytes(maxFileSize)
  }

  /** Version::PickLevelForMemTableOutput: no table of the levels down to the result overlaps the range. */
  method PickLevelForMemTableOutput(v: Version, smallest: UserKey, largest: UserKey, maxFileSize: nat) returns (level: nat)
    requires ValidVersion(v)
    ensures level <= MAX_MEM_COMPACT_LEVEL
    ensures level > 0 ==> forall l, f :: 0 <= l <= level && f in v.files[l] ==> !Overlaps(f, Range(Some(smallest), Some(largest)))
    ensures level < MAX_MEM_COMPACT_LEVEL ==> StopsAt(v, level, Range(Some(smallest), Some(largest)), maxFileSize)
    ensures forall l :: 0 <= l < level ==> !StopsAt(v, l, Range(Some(smallest), Some(largest)), maxFileSize)
  {
    var range := Range(Some(smallest), Some(largest));
    level := 0;
    var overlap0 := SomeFileOverlapsRange(false, v.files[0], range);
    if !overlap0 {
      NoneOverlaps(v.files[0], range);
      while level < MAX_MEM_COMPACT_LEVEL
        invariant 0 <= level <= MAX_MEM_COMPACT_LEVEL
        invariant forall l, f :: 0 <= l <= level && f in v.files[l] ==> !Overlaps(f, range)
        invariant forall l :: 0 <= l < level ==> !StopsAt(v, l, range, maxFileSize)
      {
        var overlap := SomeFileOverlapsRange(true, v.files[level + 1], range);
        if overlap {
          break;
        }
        NoneOverlaps(v.files[level + 1], range);
        var overlaps, _ := GetOverlappingInputs(level + 2, v.files[level + 2], range, []);
        if TotalFileSize(overlaps) > MaxGrandParentOverlapBytes(maxFileSize) {
          break;
        }
        level := level + 1;
      }
    }
  }

  const MAX_MEM_COMPACT_LEVEL: nat := 2

  // Why the level search went no deeper.
  ghost predicate StopsAt(v: Version, level: nat, range: Range, maxFileSize: nat)
    requires |v.files| == NUM_LEVELS && level + 2 < NUM_LEVELS
  {
    || (level == 0 && SomeOverlap(v.files[0], range))
    || SomeOverlap(v.files[level + 1], range)
    || TotalFileSize(Overlapping(v.files[level + 2], range)) > MaxGrandParentOverlapBytes(maxFileSize)
  }

  ghost predicate SomeOverlap(files: seq<File>, range: Range) {
    exists i :: 0 <= i < |files| && Overlaps(files[i], range)
  }

  lemma {:induction false} NoneOverlaps(files: seq<File>, range: Range)
    requires !SomeOverlap(files, range)
    ensures forall f :: f in files ==> !Overlaps(f, range)
  {
  }
}
