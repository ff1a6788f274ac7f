/** Which tables a compaction takes (db/version_set.cc). */
module InputSelection {
  import opened Options
  import opened Keys
  import opened Store
  import opened FileSearch

  // A user-key range; an absent bound is unlimited, as a null pointer is in the source.
  datatype Range = Range(lo: Option<UserKey>, hi: Option<UserKey>)

  predicate AfterFile(key: Option<UserKey>, f: File) {
    key.Some? && key.value > f.largest.user
  }

  predicate BeforeFile(key: Option<UserKey>, f: File) {
    key.Some? && key.value < f.smallest.user
  }

  predicate Overlaps(f: File, r: Range) {
    !AfterFile(r.lo, f) && !BeforeFile(r.hi, f)
  }

  // f sticks out of r on neither side.
  predicate Within(f: File, r: Range) {
    && (r.lo.Some? ==> r.lo.value <= f.smallest.user)
    && (r.hi.Some? ==> f.largest.user <= r.hi.value)
  }

  // r is contained in r'.
  predicate Widens(r: Range, r': Range) {
    && (r'.lo.Some? ==> r.lo.Some? && r'.lo.value <= r.lo.value)
    && (r'.hi.Some? ==> r.hi.Some? && r.hi.value <= r'.hi.value)
  }

  method SomeFileOverlapsRange(disjointSortedFiles: bool, files: seq<File>, r: Range) returns (overlap: bool)
    requires ValidFiles(files) && (disjointSortedFiles ==> SortedDisjoint(files))
    ensures overlap <==> exists i :: 0 <= i < |files| && Overlaps(files[i], r)
  {
    if !disjointSortedFiles {
      for i := 0 to |files|
        invariant forall j :: 0 <= j < i ==> !Overlaps(files[j], r)
      {
        if AfterFile(r.lo, files[i]) || BeforeFile(r.hi, files[i]) {
        } else {
          return true;
        }
      }
      return false;
    }
    var index := 0;
    if r.lo.Some? {
      index := FindFile(files, InternalKey(r.lo.value, MAX_SEQUENCE, Value));
    }
    if index >= |files| {
      forall i | 0 <= i < |files| ensures !Overlaps(files[i], r) {
        LargestSequenceBounded(files[i]);
      }
      return false;
    }
    overlap := !BeforeFile(r.hi, files[index]);
    LargestSequenceBounded(files[index]);
    forall i | 0 <= i < |files| && Overlaps(files[i], r) ensures overlap {
      LargestSequenceBounded(files[i]);
      if index < i {
        LargestIncreasing(files, index, i);
        SmallestToLargest(files[index], files[index].entries[0]);
      }
    }
  }

  lemma {:induction false} LargestSequenceBounded(f: File)
    requires ValidFile(f)
    ensures f.largest.sequence <= MAX_SEQUENCE
  {
  }

  // The tables that overlap r, in order.
  function Overlapping(files: seq<File>, r: Range): seq<File> {
    if files == [] then []
    else
      var f := files[|files| - 1];
      Overlapping(files[..|files| - 1], r) + if Overlaps(f, r) then [f] else []
  }

  lemma {:induction false} OverlappingMembers(files: seq<File>, r: Range)
    ensures forall f :: f in Overlapping(files, r) <==> f in files && Overlaps(f, r)
    ensures DistinctNumbers(files) ==> DistinctNumbers(Overlapping(files, r))
    ensures |Overlapping(files, r)| <= |files|
  {
    if files != [] {
      var init := files[..|files| - 1];
      OverlappingMembers(init, r);
      assert files == init + [files[|files| - 1]];
      if DistinctNumbers(files) {
        var prefix := Overlapping(init, r);
        forall i | 0 <= i < |prefix| ensures prefix[i].number != files[|files| - 1].number {
          assert prefix[i] in init;
        }
      }
    }
  }

  // No overlapping table sticks out of r: another pass over the level cannot widen r.
  ghost predicate OverlapClosed(files: seq<File>, r: Range) {
    forall f :: f in files && Overlaps(f, r) ==> Within(f, r)
  }

  ghost predicate LeastClosed(files: seq<File>, asked: Range, r: Range) {
    && Widens(asked, r) && OverlapClosed(files, r)
    && forall r' :: Widens(asked, r') && OverlapClosed(files, r') ==> Widens(r, r')
  }

  // Every user key from lo to hi lies in the range of some table: the range has no gap.
  ghost predicate Covers(fs: seq<File>, lo: UserKey, hi: UserKey) {
    forall u: UserKey :: lo <= u <= hi ==> Covered(fs, u)
  }

  ghost predicate Covered(fs: seq<File>, u: UserKey) {
    exists f :: f in fs && UserRangeContains(f, u)
  }

  function CountStartingBefore(files: seq<File>, lo: Option<UserKey>): nat {
    if files == [] then 0
    else CountStartingBefore(files[1..], lo) + if BeforeBound(files[0], lo) then 1 else 0
  }

  function CountEndingAfter(files: seq<File>, hi: Option<UserKey>): nat {
    if files == [] then 0
    else CountEndingAfter(files[1..], hi) + if AfterBound(files[0], hi) then 1 else 0
  }

  predicate BeforeBound(f: File, lo: Option<UserKey>) {
    lo.Some? && f.smallest.user < lo.value
  }

  predicate AfterBound(f: File, hi: Option<UserKey>) {
    hi.Some? && f.largest.user > hi.value
  }

  lemma {:induction false} CountStartingBeforeDrops(files: seq<File>, f: File, lo: UserKey)
    ensures f.smallest.user <= lo ==>
              CountStartingBefore(files, Some(f.smallest.user)) <= CountStartingBefore(files, Some(lo))
    ensures f in files && f.smallest.user < lo ==>
              CountStartingBefore(files, Some(f.smallest.user)) < CountStartingBefore(files, Some(lo))
  {
    if files != [] {
      CountStartingBeforeDrops(files[1..], f, lo);
    }
  }

  lemma {:induction false} CountEndingAfterDrops(files: seq<File>, f: File, hi: UserKey)
    ensures f.largest.user >= hi ==>
              CountEndingAfter(files, Some(f.largest.user)) <= CountEndingAfter(files, Some(hi))
    ensures f in files && f.largest.user > hi ==>
              CountEndingAfter(files, Some(f.largest.user)) < CountEndingAfter(files, Some(hi))
  {
    if files != [] {
      CountEndingAfterDrops(files[1..], f, hi);
    }
  }

  // Every closed range that contains `asked` contains `r`.
  ghost predicate BelowEveryClosed(files: seq<File>, asked: Range, r: Range) {
    forall r' :: Widens(asked, r') && OverlapClosed(files, r') ==> Widens(r, r')
  }

  // The state of the level-0 scan between restarts.
  ghost predicate Reached(files: seq<File>, asked: Range, cover: seq<File>, r: Range) {
    && Widens(asked, r) && r.lo.Some? == asked.lo.Some? && r.hi.Some? == asked.hi.Some?
    && BelowEveryClosed(files, asked, r)
    && (Bounded(asked) && CoversRange(cover, asked) ==> CoversRange(cover + files, r))
  }

  predicate Bounded(r: Range) {
    r.lo.Some? && r.hi.Some?
  }

  ghost predicate CoversRange(fs: seq<File>, r: Range) {
    Bounded(r) && Covers(fs, r.lo.value, r.hi.value)
  }

  lemma {:induction false} ReachedLower(files: seq<File>, asked: Range, cover: seq<File>, r: Range, f: File)
    requires Reached(files, asked, cover, r)
    requires f in files && Overlaps(f, r) && BeforeBound(f, r.lo)
    ensures Reached(files, asked, cover, r.(lo := Some(f.smallest.user)))
  {
    var wider := r.(lo := Some(f.smallest.user));
    forall r' | Widens(asked, r') && OverlapClosed(files, r') ensures Widens(wider, r') {
      assert Overlaps(f, r');
    }
    if Bounded(asked) && CoversRange(cover, asked) {
      forall u: UserKey | wider.lo.value <= u <= wider.hi.value ensures Covered(cover + files, u) {
        if u < r.lo.value {
          assert f in cover + files && UserRangeContains(f, u);
        }
      }
    }
  }

  lemma {:induction false} ReachedUpper(files: seq<File>, asked: Range, cover: seq<File>, r: Range, f: File)
    requires Reached(files, asked, cover, r)
    requires f in files && Overlaps(f, r) && AfterBound(f, r.hi)
    ensures Reached(files, asked, cover, r.(hi := Some(f.largest.user)))
  {
    var wider := r.(hi := Some(f.largest.user));
    forall r' | Widens(asked, r') && OverlapClosed(files, r') ensures Widens(wider, r') {
      assert Overlaps(f, r');
    }
    if Bounded(asked) && CoversRange(cover, asked) {
      forall u: UserKey | wider.lo.value <= u <= wider.hi.value ensures Covered(cover + files, u) {
        if r.hi.value < u {
          assert f in cover + files && UserRangeContains(f, u);
        }
      }
    }
  }

  // A closed range reached by the scan is the least closed one, and its tables leave no gap.
  lemma {:induction false} ReachedClosed(files: seq<File>, asked: Range, cover: seq<File>, r: Range)
    requires Reached(files, asked, cover, r)
    requires forall f :: f in Overlapping(files, r) ==> Within(f, r)
    ensures LeastClosed(files, asked, r)
    ensures Bounded(asked) && CoversRange(cover, asked) ==> CoversRange(cover + Overlapping(files, r), r)
  {
    OverlappingMembers(files, r);
    if Bounded(asked) && CoversRange(cover, asked) {
      var all := cover + Overlapping(files, r);
      forall u: UserKey | r.lo.value <= u <= r.hi.value ensures Covered(all, u) {
        assert Covered(cover + files, u);
        var f :| f in cover + files && UserRangeContains(f, u);
        assert f in all;
      }
    }
  }

  lemma {:induction false} ReachedStart(files: seq<File>, asked: Range, cover: seq<File>)
    ensures Reached(files, asked, cover, asked)
  {
    if Bounded(asked) && CoversRange(cover, asked) {
      forall u: UserKey | asked.lo.value <= u <= asked.hi.value ensures Covered(cover + files, u) {
        assert Covered(cover, u);
        var f :| f in cover && UserRangeContains(f, u);
        assert f in cover + files;
      }
    }
  }

  /** Version::GetOverlappingInputs. On level 0 a table that sticks out widens the range and
      restarts the scan; the final range is the least one closed under overlap.
      `cover` is any list of tables: if it covers the range asked for, then it covers the final
      range together with the result. */
  method GetOverlappingInputs(level: nat, files: seq<File>, asked: Range, ghost cover: seq<File>)
    returns (inputs: seq<File>, range: Range)
    requires ValidFiles(files)
    ensures inputs == Overlapping(files, range)
    ensures level > 0 ==> range == asked
    ensures level == 0 ==> LeastClosed(files, asked, range)
    ensures level == 0 && Bounded(asked) && CoversRange(cover, asked) ==> CoversRange(cover + inputs, range)
  {
    inputs := [];
    range := asked;
    ReachedStart(files, asked, cover);
    var i := 0;
    while i < |files|
      invariant 0 <= i <= |files|
      invariant inputs == Overlapping(files[..i], range)
      invariant level > 0 ==> range == asked
      invariant level == 0 ==> Reached(files, asked, cover, range)
      invariant level == 0 ==> forall f :: f in inputs ==> Within(f, range)
      decreases CountStartingBefore(files, range.lo) + CountEndingAfter(files, range.hi), |files| - i
    {
      var f := files[i];
      i := i + 1;
      assert files[..i][..i - 1] == files[..i - 1];
      if Overlaps(f, range) {
        inputs := inputs + [f];
        if level == 0 && BeforeBound(f, range.lo) {
          CountStartingBeforeDrops(files, f, range.lo.value);
          ReachedLower(files, asked, cover, range, f);
          range := range.(lo := Some(f.smallest.user));
          inputs, i := [], 0;
        } else if level == 0 && AfterBound(f, range.hi) {
          CountEndingAfterDrops(files, f, range.hi.value);
          ReachedUpper(files, asked, cover, range, f);
          range := range.(hi := Some(f.largest.user));
          inputs, i := [], 0;
        }
      }
    }
    assert files[..i] == files;
    if level == 0 {
      ReachedClosed(files, asked, cover, range);
    }
  }
}
