/** How VersionSet::PickCompaction completes its inputs (db/version_set.cc). */
module CompactionPick {
  import opened Options
  import opened Keys
  import opened Store
  import opened FileSearch
  import opened InputSelection

  function MinKey(a: InternalKey, b: InternalKey): InternalKey {
    if Before(b, a) then b else a
  }

  function MaxKey(a: InternalKey, b: InternalKey): InternalKey {
    if Before(a, b) then b else a
  }

  function SmallestOf(fs: seq<File>): InternalKey
    requires |fs| > 0
  {
    var last := fs[|fs| - 1].smallest;
    if |fs| == 1 then last else MinKey(SmallestOf(fs[..|fs| - 1]), last)
  }

  function LargestOf(fs: seq<File>): InternalKey
    requires |fs| > 0
  {
    var last := fs[|fs| - 1].largest;
    if |fs| == 1 then last else MaxKey(LargestOf(fs[..|fs| - 1]), last)
  }

  lemma {:induction false} HullBounds(fs: seq<File>, f: File)
    requires f in fs
    ensures AtOrBefore(SmallestOf(fs), f.smallest) && AtOrBefore(f.largest, LargestOf(fs))
  {
    if |fs| > 1 {
      var init := fs[..|fs| - 1];
      assert f in init || f == fs[|fs| - 1];
      if f in init {
        HullBounds(init, f);
      }
    }
  }

  lemma {:induction false} HullAttained(fs: seq<File>) returns (a: File, b: File)
    requires |fs| > 0
    ensures a in fs && b in fs && SmallestOf(fs) == a.smallest && LargestOf(fs) == b.largest
  {
    var last := fs[|fs| - 1];
    a, b := last, last;
    if |fs| > 1 {
      var a', b' := HullAttained(fs[..|fs| - 1]);
      a := if Before(last.smallest, a'.smallest) then last else a';
      b := if Before(b'.largest, last.largest) then last else b';
    }
  }

  // VersionSet::GetRange
  method GetRange(inputs: seq<File>) returns (smallest: InternalKey, largest: InternalKey)
    requires |inputs| > 0
    ensures smallest == SmallestOf(inputs) && largest == LargestOf(inputs)
  {
    smallest, largest := inputs[0].smallest, inputs[0].largest;
    for i := 1 to |inputs|
      invariant smallest == SmallestOf(inputs[..i]) && largest == LargestOf(inputs[..i])
    {
      assert inputs[..i + 1][..i] == inputs[..i];
      if Before(inputs[i].smallest, smallest) {
        smallest := inputs[i].smallest;
      }
      if Before(largest, inputs[i].largest) {
        largest := inputs[i].largest;
      }
    }
    assert inputs[..|inputs|] == inputs;
  }

  // The hull of the tables, as the range of user keys handed to GetOverlappingInputs.
  function UserRange(fs: seq<File>): Range
    requires |fs| > 0
  {
    Range(Some(SmallestOf(fs).user), Some(LargestOf(fs).user))
  }

  // The tables cover their own hull: no user key inside it is left out.
  ghost predicate Spans(fs: seq<File>) {
    |fs| > 0 && CoversRange(fs, UserRange(fs))
  }

  // ---- Boundary files ----

  // f continues the user key at which `largest` ends.
  predicate Boundary(f: File, largest: InternalKey) {
    Before(largest, f.smallest) && f.smallest.user == largest.user
  }

  predicate NextBoundary(levelFiles: seq<File>, largest: InternalKey, f: File) {
    f in levelFiles && Boundary(f, largest) &&
    forall g :: g in levelFiles && Boundary(g, largest) ==> AtOrBefore(f.smallest, g.smallest)
  }

  predicate NoBoundary(levelFiles: seq<File>, largest: InternalKey) {
    forall f :: f in levelFiles ==> !Boundary(f, largest)
  }

  method FindSmallestBoundaryFile(levelFiles: seq<File>, largest: InternalKey) returns (r: Option<File>)
    ensures r.None? ==> NoBoundary(levelFiles, largest)
    ensures r.Some? ==> NextBoundary(levelFiles, largest, r.value)
  {
    r := None;
    for i := 0 to |levelFiles|
      invariant r.None? ==> NoBoundary(levelFiles[..i], largest)
      invariant r.Some? ==> NextBoundary(levelFiles[..i], largest, r.value)
    {
      var f := levelFiles[i];
      assert levelFiles[..i + 1] == levelFiles[..i] + [f];
      if Boundary(f, largest) {
        if r.None? || Before(f.smallest, r.value.smallest) {
          r := Some(f);
        }
      }
    }
    assert levelFiles[..|levelFiles|] == levelFiles;
  }

  // r extends the compaction files by boundary files, each the next one after the largest key so far.
  predicate BoundaryChain(levelFiles: seq<File>, compactionFiles: seq<File>, r: seq<File>) {
    if |r| <= |compactionFiles| || r == [] then
      r == compactionFiles && r != []
    else
      var last := |r| - 1;
      last > 0 && NextBoundary(levelFiles, LargestOf(r[..last]), r[last]) && BoundaryChain(levelFiles, compactionFiles, r[..last])
  }

  function CountAfter(files: seq<File>, key: InternalKey): nat {
    if files == [] then 0
    else CountAfter(files[1..], key) + if Before(key, files[0].smallest) then 1 else 0
  }

  lemma {:induction false} CountAfterDrops(files: seq<File>, key: InternalKey, f: File)
    requires Before(key, f.smallest) && AtOrBefore(f.smallest, f.largest)
    ensures CountAfter(files, f.largest) <= CountAfter(files, key)
    ensures f in files ==> CountAfter(files, f.largest) < CountAfter(files, key)
  {
    if files != [] {
      CountAfterDrops(files[1..], key, f);
    }
  }

  method AddBoundaryInputs(levelFiles: seq<File>, compactionFiles: seq<File>) returns (r: seq<File>)
    requires ValidFiles(levelFiles) && ValidFiles(compactionFiles)
    ensures ValidFiles(r)
    ensures compactionFiles == [] ==> r == []
    ensures compactionFiles != [] ==> BoundaryChain(levelFiles, compactionFiles, r) && NoBoundary(levelFiles, LargestOf(r))
  {
    r := compactionFiles;
    if compactionFiles == [] {
      return;
    }
    var _, largestKey := GetRange(compactionFiles);
    var continueSearching := true;
    while continueSearching
      invariant ValidFiles(r)
      invariant BoundaryChain(levelFiles, compactionFiles, r) && largestKey == LargestOf(r)
      invariant !continueSearching ==> NoBoundary(levelFiles, largestKey)
      decreases continueSearching, CountAfter(levelFiles, largestKey)
    {
      var boundary := FindSmallestBoundaryFile(levelFiles, largestKey);
      if boundary.Some? {
        var f := boundary.value;
        SmallestToLargest(f, f.entries[0]);
        CountAfterDrops(levelFiles, largestKey, f);
        assert (r + [f])[..|r|] == r;
        r := r + [f];
        largestKey := f.largest;
      } else {
        continueSearching := false;
      }
    }
  }

  // ---- Slices of sorted levels ----

  lemma {:induction false} SliceHull(files: seq<File>, a: nat, b: nat)
    requires ValidFiles(files) && SortedDisjoint(files) && a < b <= |files|
    ensures SmallestOf(files[a..b]) == files[a].smallest
    ensures LargestOf(files[a..b]) == files[b - 1].largest
  {
    if a + 1 < b {
      SliceHull(files, a, b - 1);
      assert files[a..b][..b - a - 1] == files[a..b - 1];
      SmallestToLargest(files[a], files[a].entries[0]);
      LargestIncreasing(files, b - 2, b - 1);
    }
  }

  lemma {:induction false} OverlapConvex(files: seq<File>, r: Range, i: nat, j: nat, k: nat)
    requires ValidFiles(files) && SortedDisjoint(files) && i < j < k < |files|
    requires Overlaps(files[i], r) && Overlaps(files[k], r)
    ensures Overlaps(files[j], r)
  {
    LargestIncreasing(files, i, j);
    SmallestToLargest(files[j], files[j].entries[0]);
    assert Before(files[j].largest, files[k].smallest);
  }

  // On a sorted level the overlapping tables are contiguous.
  lemma {:induction false} ContiguousOverlap(files: seq<File>, r: Range, n: nat) returns (a: nat, b: nat)
    requires ValidFiles(files) && SortedDisjoint(files) && n <= |files|
    ensures a <= b <= n
    ensures forall i :: 0 <= i < n ==> (Overlaps(files[i], r) <==> a <= i < b)
  {
    if n == 0 {
      return 0, 0;
    }
    a, b := ContiguousOverlap(files, r, n - 1);
    if Overlaps(files[n - 1], r) {
      if a == b {
        a := n - 1;
      } else if b < n - 1 {
        OverlapConvex(files, r, b - 1, b, n - 1);
      }
      b := n;
    }
  }

  lemma {:induction false} OverlappingIsSlice(files: seq<File>, r: Range, a: nat, b: nat)
    requires a <= b <= |files|
    requires forall i :: 0 <= i < |files| ==> (Overlaps(files[i], r) <==> a <= i < b)
    ensures Overlapping(files, r) == files[a..b]
  {
    if files != [] {
      var n := |files| - 1;
      if a <= n < b {
        OverlappingIsSlice(files[..n], r, a, n);
        assert files[..n][a..n] + [files[n]] == files[a..b];
      } else if b <= n {
        OverlappingIsSlice(files[..n], r, a, b);
        assert files[..n][a..b] == files[a..b];
      } else {
        OverlappingIsSlice(files[..n], r, n, n);
      }
    }
  }

  lemma {:induction false} OverlappingSlice(files: seq<File>, r: Range) returns (a: nat, b: nat)
    requires ValidFiles(files) && SortedDisjoint(files)
    ensures a <= b <= |files| && Overlapping(files, r) == files[a..b]
    ensures forall i :: 0 <= i < |files| ==> (Overlaps(files[i], r) <==> a <= i < b)
  {
    a, b := ContiguousOverlap(files, r, |files|);
    OverlappingIsSlice(files, r, a, b);
  }

  lemma {:induction false} NextAfterSlice(files: seq<File>, b: nat, largest: InternalKey, f: File)
    requires ValidFiles(files) && SortedDisjoint(files) && 0 < b <= |files|
    requires largest == files[b - 1].largest && NextBoundary(files, largest, f)
    ensures b < |files| && f == files[b]
  {
    var j :| 0 <= j < |files| && files[j] == f;
    SmallestToLargest(f, f.entries[0]);
    SmallestToLargest(files[b - 1], files[b - 1].entries[0]);
    assert b <= j;
    if b < j {
      SmallestToLargest(files[b], files[b].entries[0]);
      assert Boundary(files[b], files[b - 1].largest);
    }
  }

  // Following boundary files from a slice of a sorted level extends the slice to the right.
  lemma {:induction false} ChainIsSlice(files: seq<File>, a: nat, b: nat, cf: seq<File>, r: seq<File>) returns (b': nat)
    requires ValidFiles(files) && SortedDisjoint(files) && a < b <= |files|
    requires cf == files[a..b] && BoundaryChain(files, cf, r)
    ensures b <= b' <= |files| && r == files[a..b']
    decreases |r|
  {
    if |r| <= |cf| {
      b' := b;
    } else {
      var prefix, f := r[..|r| - 1], r[|r| - 1];
      assert NextBoundary(files, LargestOf(prefix), f);
      b' := ChainIsSlice(files, a, b, cf, prefix);
      b' := ChainStep(files, a, b', prefix, f, r);
    }
  }

  lemma {:induction false} ChainStep(files: seq<File>, a: nat, b: nat, prefix: seq<File>, f: File, r: seq<File>) returns (b': nat)
    requires ValidFiles(files) && SortedDisjoint(files) && a < b <= |files|
    requires prefix == files[a..b] && NextBoundary(files, LargestOf(prefix), f) && r == prefix + [f]
    ensures b' == b + 1 <= |files| && r == files[a..b']
  {
    b' := b + 1;
    assert b < |files| && f == files[b] by {
      SliceHull(files, a, b);
      NextAfterSlice(files, b, LargestOf(prefix), f);
    }
    SliceSnoc(files, a, b, prefix, r);
  }

  lemma {:induction false} SliceSnoc(files: seq<File>, a: nat, b: nat, prefix: seq<File>, r: seq<File>)
    requires a <= b < |files| && prefix == files[a..b] && r == prefix + [files[b]]
    ensures r == files[a..b + 1]
  {
  }

  // ---- What a completed selection guarantees ----

  datatype Pick = Pick(level: nat, in0: seq<File>, in1: seq<File>)

  // A table of level 0 that stays behind shares no user key with the selected ones.
  ghost predicate ClosedAtLevel0(files: seq<File>, in0: seq<File>)
    requires |in0| > 0
  {
    forall f :: f in files && f !in in0 ==> !Overlaps(f, UserRange(in0))
  }

  // A table of a sorted level that stays behind lies wholly before the selected ones in internal-key
  // order, or wholly after them in user-key order: no older version of a selected user key stays.
  ghost predicate ClosedAtSortedLevel(files: seq<File>, in0: seq<File>)
    requires |in0| > 0
  {
    forall f :: f in files && f !in in0 ==> Before(f.largest, SmallestOf(in0)) || f.smallest.user > LargestOf(in0).user
  }

  // What is required of inputs_[0] alone.
  ghost predicate Admissible(files: seq<File>, level: nat, in0: seq<File>) {
    && |in0| > 0
    && (forall f :: f in in0 ==> f in files)
    && DistinctNumbers(in0)
    && if level == 0 then ClosedAtLevel0(files, in0) else ClosedAtSortedLevel(files, in0) && SortedDisjoint(in0)
  }

  ghost predicate ValidPick(v: Version, c: Pick) {
    && |v.files| == NUM_LEVELS && c.level + 1 < NUM_LEVELS
    && Admissible(v.files[c.level], c.level, c.in0)
    && c.in1 == Overlapping(v.files[c.level + 1], UserRange(c.in0))
    && Spans(c.in0 + c.in1)
  }

  lemma {:induction false} SortedLevelClosed(files: seq<File>, a: nat, b: nat)
    requires ValidFiles(files) && SortedDisjoint(files) && a < b <= |files|
    requires NoBoundary(files, LargestOf(files[a..b]))
    ensures ClosedAtSortedLevel(files, files[a..b])
  {
    SliceHull(files, a, b);
    var in0 := files[a..b];
    forall j | a <= j < b ensures files[j] in in0 {
      assert in0[j - a] == files[j];
    }
    forall f | f in files && f !in in0
      ensures Before(f.largest, SmallestOf(in0)) || f.smallest.user > LargestOf(in0).user
    {
      var j :| 0 <= j < |files| && files[j] == f;
      if b <= j {
        assert Before(files[b - 1].largest, files[j].smallest);
        assert !Boundary(f, LargestOf(in0));
      }
    }
  }

  // A level-0 selection closed under overlap has no boundary file: the chain adds nothing.
  lemma {:induction false} ClosedHasNoBoundary(files: seq<File>, range: Range)
    requires ValidFiles(files) && OverlapClosed(files, range) && Overlapping(files, range) != []
    ensures NoBoundary(files, LargestOf(Overlapping(files, range)))
  {
    var cf := Overlapping(files, range);
    OverlappingMembers(files, range);
    var largest := LargestOf(cf);
    var _, last := HullAttained(cf);
    assert Within(last, range);
    SmallestToLargest(last, last.entries[0]);
    forall f | f in files ensures !Boundary(f, largest) {
      SmallestToLargest(f, f.entries[0]);
      if Overlaps(f, range) {
        HullBounds(cf, f);
      }
    }
  }

  lemma {:induction false} ClosedChainIsShort(files: seq<File>, range: Range, r: seq<File>)
    requires ValidFiles(files) && OverlapClosed(files, range)
    requires BoundaryChain(files, Overlapping(files, range), r)
    ensures r == Overlapping(files, range)
    decreases |r|
  {
    var cf := Overlapping(files, range);
    if |cf| < |r| {
      ClosedChainIsShort(files, range, r[..|r| - 1]);
      ClosedHasNoBoundary(files, range);
    }
  }

  lemma {:induction false} Level0Closed(files: seq<File>, range: Range)
    requires OverlapClosed(files, range) && Overlapping(files, range) != []
    ensures ClosedAtLevel0(files, Overlapping(files, range))
  {
    var in0 := Overlapping(files, range);
    OverlappingMembers(files, range);
    var _, _ := HullAttained(in0);
  }

  // ---- No gaps ----

  lemma {:induction false} SpansMembers(fs: seq<File>, gs: seq<File>)
    requires Spans(fs) && |gs| > 0
    requires forall f :: f in fs <==> f in gs
    ensures Spans(gs)
  {
    HullGrows(fs, gs);
    HullGrows(gs, fs);
    forall u: UserKey | SmallestOf(gs).user <= u <= LargestOf(gs).user ensures Covered(gs, u) {
      assert Covered(fs, u);
      var f :| f in fs && UserRangeContains(f, u);
      assert f in gs;
    }
  }

  lemma {:induction false} HullGrows(fs: seq<File>, gs: seq<File>)
    requires |fs| > 0 && |gs| > 0 && forall f :: f in fs ==> f in gs
    ensures Widens(UserRange(fs), UserRange(gs))
  {
    var a, b := HullAttained(fs);
    HullBounds(gs, a);
    HullBounds(gs, b);
  }

  lemma {:induction false} OverlapsWider(f: File, r: Range, r': Range)
    requires Overlaps(f, r) && Widens(r, r')
    ensures Overlaps(f, r')
  {
  }

  lemma {:induction false} SpansAppend(fs: seq<File>, f: File)
    requires Spans(fs) && Overlaps(f, UserRange(fs))
    ensures Spans(fs + [f])
  {
    var gs := fs + [f];
    assert gs[..|fs|] == fs;
    forall u: UserKey | SmallestOf(gs).user <= u <= LargestOf(gs).user ensures Covered(gs, u) {
      if SmallestOf(fs).user <= u <= LargestOf(fs).user {
        assert Covered(fs, u);
        var g :| g in fs && UserRangeContains(g, u);
        assert g in gs;
      } else {
        assert f in gs && UserRangeContains(f, u);
      }
    }
  }

  lemma {:induction false} SpansAppendAll(fs: seq<File>, gs: seq<File>)
    requires Spans(fs) && forall g :: g in gs ==> Overlaps(g, UserRange(fs))
    ensures Spans(fs + gs)
    decreases |gs|
  {
    if gs == [] {
      assert fs + gs == fs;
    } else {
      var init := gs[..|gs| - 1];
      SpansAppendAll(fs, init);
      HullGrows(fs, fs + init);
      OverlapsWider(gs[|gs| - 1], UserRange(fs), UserRange(fs + init));
      SpansAppend(fs + init, gs[|gs| - 1]);
      assert fs + init + [gs[|gs| - 1]] == fs + gs;
    }
  }

  lemma {:induction false} BoundaryTouches(all: seq<File>, prefix: seq<File>, f: File)
    requires ValidFiles(prefix) && |prefix| > 0 && forall g :: g in prefix ==> g in all
    requires ValidFile(f) && Boundary(f, LargestOf(prefix))
    ensures |all| > 0 && Overlaps(f, UserRange(all))
  {
    SmallestToLargest(f, f.entries[0]);
    var _, last := HullAttained(prefix);
    SmallestToLargest(last, last.entries[0]);
    HullBounds(all, last);
  }

  lemma {:induction false} ValidPrefix(fs: seq<File>, n: nat)
    requires ValidFiles(fs) && n < |fs|
    ensures ValidFiles(fs[..n]) && ValidFile(fs[n])
  {
  }

  // Boundary files touch the hull, so following them leaves no gap.
  lemma {:induction false} SpansChain(cover: seq<File>, levelFiles: seq<File>, cf: seq<File>, r: seq<File>)
    requires ValidFiles(levelFiles) && ValidFiles(r)
    requires Spans(cover + cf) && BoundaryChain(levelFiles, cf, r)
    ensures Spans(cover + r)
    decreases |r|
  {
    if |r| == |cf| {
      assert r == cf;
    } else {
      hide Spans, Overlaps, LargestOf, ValidFiles;
      var n := |r| - 1;
      ValidPrefix(r, n);
      SpansChain(cover, levelFiles, cf, r[..n]);
      BoundaryTouches(cover + r[..n], r[..n], r[n]);
      SpansAppend(cover + r[..n], r[n]);
      assert cover + r[..n] + [r[n]] == cover + r;
    }
  }

  // A closed level-0 range covered by tables that do not stick out of it.
  lemma {:induction false} SpansWithin(fs: seq<File>, range: Range)
    requires |fs| > 0 && CoversRange(fs, range) && forall f :: f in fs ==> Within(f, range)
    ensures Spans(fs)
  {
    var _, _ := HullAttained(fs);
  }
}
