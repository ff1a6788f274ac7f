/** VersionSet::Builder (db/version_set.cc): a version plus a run of edits, saved as one version. */
module VersionBuilder {
  import opened Keys
  import opened Store

  // BySmallestKey: smallest key, ties broken by file number.
  predicate BySmallest(f: File, g: File) {
    Before(f.smallest, g.smallest) || (!Before(g.smallest, f.smallest) && f.number < g.number)
  }

  predicate SortedBySmallest(fs: seq<File>) {
    forall i, j :: 0 <= i < j < |fs| ==> BySmallest(fs[i], fs[j])
  }

  // std::set insertion: nothing happens if an equivalent element is present.
  function InsertFile(fs: seq<File>, f: File): seq<File> {
    if fs == [] || BySmallest(f, fs[0]) then [f] + fs
    else if BySmallest(fs[0], f) then [fs[0]] + InsertFile(fs[1..], f)
    else fs
  }

  lemma {:induction false} InsertFileMembers(fs: seq<File>, f: File)
    ensures SortedBySmallest(fs) ==> SortedBySmallest(InsertFile(fs, f))
    ensures forall g :: g in InsertFile(fs, f) ==> g in fs || g == f
    ensures forall g :: g in fs ==> g in InsertFile(fs, f)
    ensures f.number !in Numbers(fs) ==> f in InsertFile(fs, f)
  {
    if fs != [] && !BySmallest(f, fs[0]) && BySmallest(fs[0], f) {
      InsertFileMembers(fs[1..], f);
      var rest := InsertFile(fs[1..], f);
      assert forall i :: 0 <= i < |rest| ==> rest[i] in fs[1..] || rest[i] == f;
      assert forall g :: g in fs <==> g == fs[0] || g in fs[1..];
    } else if fs != [] {
      assert fs[0].number in Numbers(fs);
    }
  }

  function Numbers(fs: seq<File>): set<nat> {
    set f | f in fs :: f.number
  }

  // The tables whose number is not in `dead`, in order.
  function Live(fs: seq<File>, dead: set<nat>): seq<File> {
    if fs == [] then []
    else
      var last := fs[|fs| - 1];
      Live(fs[..|fs| - 1], dead) + if last.number in dead then [] else [last]
  }

  lemma {:induction false} LiveMembers(fs: seq<File>, dead: set<nat>)
    ensures forall f :: f in Live(fs, dead) <==> f in fs && f.number !in dead
    ensures SortedBySmallest(fs) ==> SortedBySmallest(Live(fs, dead))
  {
    if fs != [] {
      var init, last := fs[..|fs| - 1], fs[|fs| - 1];
      LiveMembers(init, dead);
      assert forall f :: f in fs <==> f in init || f == last;
      assert forall i :: 0 <= i < |Live(init, dead)| ==> Live(init, dead)[i] in init;
    }
  }

  // Two sorted lists with the same tables are the same list.
  lemma {:induction false} SortedUnique(fs: seq<File>, gs: seq<File>)
    requires SortedBySmallest(fs) && SortedBySmallest(gs)
    requires forall f :: f in fs <==> f in gs
    ensures fs == gs
  {
    assert fs != [] ==> fs[0] in fs;
    assert gs != [] ==> gs[0] in gs;
    if fs != [] && gs != [] {
      assert fs[0] in gs && gs[0] in fs;
      assert fs[0] == gs[0];
      SameMembersTail(fs, gs);
      SameMembersTail(gs, fs);
      SortedUnique(fs[1..], gs[1..]);
    }
  }

  lemma {:induction false} SameMembersTail(fs: seq<File>, gs: seq<File>)
    requires SortedBySmallest(fs) && fs != [] && gs != [] && fs[0] == gs[0]
    requires forall f :: f in fs ==> f in gs
    ensures forall f :: f in fs[1..] ==> f in gs[1..]
  {
    forall f | f in fs[1..] ensures f in gs[1..] {
      var i :| 1 <= i < |fs| && fs[i] == f;
      assert BySmallest(fs[0], fs[i]);
      assert f in fs && f in gs;
      var j :| 0 <= j < |gs| && gs[j] == f;
      assert j != 0;
      assert gs[1..][j - 1] == f;
    }
  }

  // std::upper_bound from position `from`: the first table after f.
  method UpperBound(fs: seq<File>, from: nat, f: File) returns (p: nat)
    requires SortedBySmallest(fs) && from <= |fs|
    ensures from <= p <= |fs|
    ensures forall i :: from <= i < p ==> !BySmallest(f, fs[i])
    ensures forall i :: p <= i < |fs| ==> BySmallest(f, fs[i])
  {
    p := from;
    var end := |fs|;
    while p < end
      invariant from <= p <= end <= |fs|
      invariant forall i :: from <= i < p ==> !BySmallest(f, fs[i])
      invariant forall i :: end <= i < |fs| ==> BySmallest(f, fs[i])
    {
      var mid := p + (end - p) / 2;
      if BySmallest(f, fs[mid]) {
        forall i | mid <= i < |fs| ensures BySmallest(f, fs[i]) {
          if mid < i {
            assert BySmallest(fs[mid], fs[i]);
          }
        }
        end := mid;
      } else {
        forall i | from <= i <= mid ensures !BySmallest(f, fs[i]) {
          if i < mid {
            assert BySmallest(fs[i], fs[mid]);
          }
        }
        p := mid + 1;
      }
    }
  }

  // MaybeAddFile
  function MaybeAdd(fs: seq<File>, f: File, dead: set<nat>): seq<File> {
    if f.number in dead then fs else fs + [f]
  }

  // What is saved for one level: the base tables and the added ones, without the deleted.
  ghost predicate IsSaved(base: seq<File>, added: seq<File>, dead: set<nat>, r: seq<File>) {
    && SortedBySmallest(r)
    && forall f :: f in r <==> (f in base || f in added) && f.number !in dead
  }

  // The saved list so far ends before every table still to come.
  ghost predicate Merged(base: seq<File>, b: nat, added: seq<File>, a: nat, dead: set<nat>, r: seq<File>)
    requires b <= |base| && a <= |added|
  {
    && IsSaved(base[..b], added[..a], dead, r)
    && (forall f, j :: f in r && b <= j < |base| ==> BySmallest(f, base[j]))
    && (forall f, j :: f in r && a <= j < |added| ==> BySmallest(f, added[j]))
  }

  lemma {:induction false} MergeBase(base: seq<File>, b: nat, added: seq<File>, a: nat, dead: set<nat>, r: seq<File>)
    requires SortedBySmallest(base) && b < |base| && a <= |added|
    requires Merged(base, b, added, a, dead, r)
    requires forall j :: a <= j < |added| ==> BySmallest(base[b], added[j])
    ensures Merged(base, b + 1, added, a, dead, MaybeAdd(r, base[b], dead))
  {
    assert base[..b + 1] == base[..b] + [base[b]];
  }

  lemma {:induction false} MergeAdded(base: seq<File>, b: nat, added: seq<File>, a: nat, dead: set<nat>, r: seq<File>)
    requires SortedBySmallest(added) && b <= |base| && a < |added|
    requires Merged(base, b, added, a, dead, r)
    requires forall j :: b <= j < |base| ==> BySmallest(added[a], base[j])
    ensures Merged(base, b, added, a + 1, dead, MaybeAdd(r, added[a], dead))
  {
    assert added[..a + 1] == added[..a] + [added[a]];
  }

  // No table of `base` has the number of a table of `added`.
  predicate DisjointNumbers(base: seq<File>, added: seq<File>) {
    Numbers(base) !! Numbers(added)
  }

  // SaveTo, one level: merge by std::upper_bound, dropping deleted tables.
  method SaveLevel(base: seq<File>, added: seq<File>, dead: set<nat>) returns (r: seq<File>)
    requires SortedBySmallest(base) && SortedBySmallest(added) && DisjointNumbers(base, added)
    ensures IsSaved(base, added, dead, r)
  {
    r := [];
    var b := 0;
    for a := 0 to |added|
      invariant 0 <= b <= |base|
      invariant Merged(base, b, added, a, dead, r)
    {
      var bpos := UpperBound(base, b, added[a]);
      while b < bpos
        invariant 0 <= b <= bpos
        invariant Merged(base, b, added, a, dead, r)
      {
        forall j | a <= j < |added| ensures BySmallest(base[b], added[j]) {
          Trichotomy(base, b, added, a);
          assert j == a || BySmallest(added[a], added[j]);
        }
        MergeBase(base, b, added, a, dead, r);
        r := MaybeAdd(r, base[b], dead);
        b := b + 1;
      }
      MergeAdded(base, b, added, a, dead, r);
      r := MaybeAdd(r, added[a], dead);
    }
    while b < |base|
      invariant 0 <= b <= |base|
      invariant Merged(base, b, added, |added|, dead, r)
    {
      MergeBase(base, b, added, |added|, dead, r);
      r := MaybeAdd(r, base[b], dead);
      b := b + 1;
    }
    assert base[..b] == base && added[..|added|] == added;
  }

  lemma {:induction false} Trichotomy(base: seq<File>, b: nat, added: seq<File>, a: nat)
    requires b < |base| && a < |added| && DisjointNumbers(base, added)
    ensures BySmallest(base[b], added[a]) || BySmallest(added[a], base[b])
  {
    assert base[b].number in Numbers(base) && added[a].number in Numbers(added);
  }

  /** The parts of VersionEdit that change the set of tables. */
  datatype VersionEdit = VersionEdit(deleted: seq<(nat, nat)>, added: seq<(nat, File)>)

  predicate ValidEdit(e: VersionEdit) {
    && (forall i :: 0 <= i < |e.deleted| ==> e.deleted[i].0 < NUM_LEVELS)
    && (forall i :: 0 <= i < |e.added| ==> e.added[i].0 < NUM_LEVELS)
  }

  // levels_[l] of the builder.
  datatype LevelState = LevelState(deleted: set<nat>, added: seq<File>)

  function DeleteIn(s: LevelState, number: nat): LevelState {
    s.(deleted := s.deleted + {number})
  }

  function AddIn(s: LevelState, f: File): LevelState {
    LevelState(s.deleted - {f.number}, InsertFile(s.added, f))
  }

  // The effect on level l of the first n deletions, then of the first n additions.
  function AfterDeletes(s: LevelState, l: nat, deleted: seq<(nat, nat)>): LevelState {
    if deleted == [] then s
    else
      var before := AfterDeletes(s, l, deleted[..|deleted| - 1]);
      var last := deleted[|deleted| - 1];
      if last.0 == l then DeleteIn(before, last.1) else before
  }

  function AfterAdds(s: LevelState, l: nat, added: seq<(nat, File)>): LevelState {
    if added == [] then s
    else
      var before := AfterAdds(s, l, added[..|added| - 1]);
      var last := added[|added| - 1];
      if last.0 == l then AddIn(before, last.1) else before
  }

  function AfterEdit(s: LevelState, l: nat, e: VersionEdit): LevelState {
    AfterAdds(AfterDeletes(s, l, e.deleted), l, e.added)
  }

  function AfterEdits(s: LevelState, l: nat, es: seq<VersionEdit>): LevelState {
    if es == [] then s else AfterEdit(AfterEdits(s, l, es[..|es| - 1]), l, es[|es| - 1])
  }

  const NOTHING := LevelState({}, [])

  class Builder {
    const base: Version
    var levels: seq<LevelState>
    ghost var edits: seq<VersionEdit>

    ghost predicate Valid()
      reads this
    {
      && |base.files| == NUM_LEVELS && |levels| == NUM_LEVELS
      && (forall l :: 0 <= l < NUM_LEVELS ==> SortedBySmallest(base.files[l]))
      && (forall l :: 0 <= l < NUM_LEVELS ==> levels[l] == AfterEdits(NOTHING, l, edits))
    }

    constructor (base: Version)
      requires |base.files| == NUM_LEVELS && forall l :: 0 <= l < NUM_LEVELS ==> SortedBySmallest(base.files[l])
      ensures Valid() && this.base == base && edits == []
    {
      this.base := base;
      levels := seq(NUM_LEVELS, l => NOTHING);
      edits := [];
    }

    method Apply(e: VersionEdit)
      requires Valid() && ValidEdit(e)
      modifies this
      ensures Valid() && edits == old(edits) + [e]
    {
      for i := 0 to |e.deleted|
        invariant |levels| == NUM_LEVELS && edits == old(edits)
        invariant forall l :: 0 <= l < NUM_LEVELS ==> levels[l] == AfterDeletes(old(levels[l]), l, e.deleted[..i])
      {
        var (level, number) := e.deleted[i];
        assert e.deleted[..i + 1][..i] == e.deleted[..i];
        levels := levels[level := DeleteIn(levels[level], number)];
      }
      assert e.deleted[..|e.deleted|] == e.deleted;
      for i := 0 to |e.added|
        invariant |levels| == NUM_LEVELS && edits == old(edits)
        invariant forall l :: 0 <= l < NUM_LEVELS ==>
                    levels[l] == AfterAdds(AfterDeletes(old(levels[l]), l, e.deleted), l, e.added[..i])
      {
        var (level, f) := e.added[i];
        assert e.added[..i + 1][..i] == e.added[..i];
        levels := levels[level := AddIn(levels[level], f)];
      }
      assert e.added[..|e.added|] == e.added;
      edits := edits + [e];
      assert edits[..|edits| - 1] == old(edits);
    }

    method SaveTo() returns (v: Version)
      requires Valid()
      requires forall l :: 0 <= l < NUM_LEVELS ==> DisjointNumbers(base.files[l], AfterEdits(NOTHING, l, edits).added)
      ensures IsReplay(base, edits, v)
    {
      var files := [];
      for level := 0 to NUM_LEVELS
        invariant |files| == level
        invariant forall l :: 0 <= l < level ==> IsReplayedLevel(base.files[l], l, edits, files[l])
      {
        AddedSorted(level, edits);
        var r := SaveLevel(base.files[level], levels[level].added, levels[level].deleted);
        files := files + [r];
      }
      v := Version(files);
    }
  }

  ghost predicate IsReplayedLevel(base: seq<File>, l: nat, edits: seq<VersionEdit>, r: seq<File>) {
    var s := AfterEdits(NOTHING, l, edits);
    IsSaved(base, s.added, s.deleted, r)
  }

  // v is what one Builder saves after applying all the edits to `base`.
  ghost predicate IsReplay(base: Version, edits: seq<VersionEdit>, v: Version) {
    && |base.files| == NUM_LEVELS && |v.files| == NUM_LEVELS
    && forall l :: 0 <= l < NUM_LEVELS ==> IsReplayedLevel(base.files[l], l, edits, v.files[l])
  }

  lemma {:induction false} AddsSorted(s: LevelState, l: nat, added: seq<(nat, File)>)
    requires SortedBySmallest(s.added)
    ensures SortedBySmallest(AfterAdds(s, l, added).added)
  {
    if added != [] {
      var init, last := added[..|added| - 1], added[|added| - 1];
      AddsSorted(s, l, init);
      InsertFileMembers(AfterAdds(s, l, init).added, last.1);
    }
  }

  lemma {:induction false} DeletesKeepAdded(s: LevelState, l: nat, deleted: seq<(nat, nat)>)
    ensures AfterDeletes(s, l, deleted).added == s.added
    ensures AfterDeletes(s, l, deleted).deleted == s.deleted + DeletedNumbers(l, deleted)
  {
    if deleted != [] {
      DeletesKeepAdded(s, l, deleted[..|deleted| - 1]);
    }
  }

  function DeletedNumbers(l: nat, deleted: seq<(nat, nat)>): set<nat> {
    if deleted == [] then {}
    else DeletedNumbers(l, deleted[..|deleted| - 1]) + if deleted[|deleted| - 1].0 == l then {deleted[|deleted| - 1].1} else {}
  }

  lemma {:induction false} AddedSorted(l: nat, edits: seq<VersionEdit>)
    ensures SortedBySmallest(AfterEdits(NOTHING, l, edits).added)
  {
    if edits != [] {
      var init, e := edits[..|edits| - 1], edits[|edits| - 1];
      AddedSorted(l, init);
      DeletesKeepAdded(AfterEdits(NOTHING, l, init), l, e.deleted);
      AddsSorted(AfterDeletes(AfterEdits(NOTHING, l, init), l, e.deleted), l, e.added);
    }
  }

  // ---- Manifest replay ----

  // The tables that the additions put into level l.
  function AddedFiles(l: nat, added: seq<(nat, File)>): set<File> {
    if added == [] then {}
    else AddedFiles(l, added[..|added| - 1]) + if added[|added| - 1].0 == l then {added[|added| - 1].1} else {}
  }

  function AddedNumbers(l: nat, added: seq<(nat, File)>): set<nat> {
    set f | f in AddedFiles(l, added) :: f.number
  }

  // No table number is added to level l twice, nor added where the list `fs` already has it.
  predicate AddsNew(fs: seq<File>, l: nat, added: seq<(nat, File)>) {
    added == [] ||
    (var init, last := added[..|added| - 1], added[|added| - 1];
     AddsNew(fs, l, init) && (last.0 == l ==> last.1.number !in Numbers(fs) + AddedNumbers(l, init)))
  }

  lemma {:induction false} AddsMembers(s: LevelState, l: nat, added: seq<(nat, File)>)
    requires AddsNew(s.added, l, added)
    ensures AfterAdds(s, l, added).deleted == s.deleted - AddedNumbers(l, added)
    ensures forall f :: f in AfterAdds(s, l, added).added <==> f in s.added || f in AddedFiles(l, added)
  {
    if added != [] {
      var init, last := added[..|added| - 1], added[|added| - 1];
      AddsMembers(s, l, init);
      var t := AfterAdds(s, l, init);
      if last.0 == l {
        assert AddedFiles(l, added) == AddedFiles(l, init) + {last.1};
        assert AddedNumbers(l, added) == AddedNumbers(l, init) + {last.1.number};
        assert Numbers(t.added) == Numbers(s.added) + AddedNumbers(l, init);
        InsertFileMembers(t.added, last.1);
      }
    }
  }

  // One edit applied by a fresh builder: LogAndApply.
  lemma {:induction false} OneEdit(fs: seq<File>, l: nat, e: VersionEdit, r: seq<File>)
    requires AddsNew([], l, e.added) && IsReplayedLevel(fs, l, [e], r)
    ensures forall f :: f in r <==>
              (f in fs || f in AddedFiles(l, e.added)) && f.number !in DeletedNumbers(l, e.deleted) - AddedNumbers(l, e.added)
  {
    var es := [e];
    assert es[..|es| - 1] == [];
    assert AfterEdits(NOTHING, l, es) == AfterEdit(NOTHING, l, e);
    DeletesKeepAdded(NOTHING, l, e.deleted);
    AddsMembers(AfterDeletes(NOTHING, l, e.deleted), l, e.added);
  }

  // Every number that e adds to level l is new there: neither in the base nor in any earlier edit.
  ghost predicate FreshAt(base: seq<File>, l: nat, edits: seq<VersionEdit>, e: VersionEdit) {
    AddsNew(base + AfterEdits(NOTHING, l, edits).added, l, e.added)
  }

  ghost predicate AllFresh(base: seq<File>, l: nat, edits: seq<VersionEdit>) {
    edits == [] || (AllFresh(base, l, edits[..|edits| - 1]) && FreshAt(base, l, edits[..|edits| - 1], edits[|edits| - 1]))
  }

  lemma {:induction false} AddsNewWeaker(fs: seq<File>, gs: seq<File>, l: nat, added: seq<(nat, File)>)
    requires AddsNew(fs, l, added) && Numbers(gs) <= Numbers(fs)
    ensures AddsNew(gs, l, added)
  {
    if added != [] {
      AddsNewWeaker(fs, gs, l, added[..|added| - 1]);
    }
  }

  // The versions that LogAndApply installed one edit at a time, on level l.
  ghost predicate InstalledOneByOne(levels: seq<seq<File>>, base: seq<File>, l: nat, edits: seq<VersionEdit>) {
    && |levels| == |edits| + 1 && levels[0] == base
    && forall i :: 0 <= i < |edits| ==> IsReplayedLevel(levels[i], l, [edits[i]], levels[i + 1])
  }

  /** Recovery applies every edit of the manifest through one builder; the result is the version
      that was current after the last edit was installed. */
  lemma {:induction false} ReplayIsLastInstalled(levels: seq<seq<File>>, base: seq<File>, l: nat, edits: seq<VersionEdit>, r: seq<File>)
    requires SortedBySmallest(base) && AllFresh(base, l, edits)
    requires InstalledOneByOne(levels, base, l, edits)
    requires IsReplayedLevel(base, l, edits, r)
    ensures r == levels[|edits|]
  {
    ReplayMembers(levels, base, l, edits, |edits|);
    assert edits[..|edits|] == edits;
    if |edits| > 0 {
      assert IsReplayedLevel(levels[|edits| - 1], l, [edits[|edits| - 1]], levels[|edits|]);
    }
    SortedUnique(r, levels[|edits|]);
  }

  lemma {:induction false} ReplayMembers(levels: seq<seq<File>>, base: seq<File>, l: nat, edits: seq<VersionEdit>, n: nat)
    requires AllFresh(base, l, edits) && InstalledOneByOne(levels, base, l, edits) && n <= |edits|
    ensures var s := AfterEdits(NOTHING, l, edits[..n]);
            forall f :: f in levels[n] <==> (f in base || f in s.added) && f.number !in s.deleted
  {
    if n > 0 {
      ReplayMembers(levels, base, l, edits, n - 1);
      var init, e := edits[..n - 1], edits[n - 1];
      assert edits[..n][..n - 1] == init;
      FreshPrefix(base, l, edits, n);
      var s := AfterEdits(NOTHING, l, init);
      var known := base + s.added;
      AddsNewWeaker(known, s.added, l, e.added);
      AddsNewWeaker(known, [], l, e.added);
      OneEdit(levels[n - 1], l, e, levels[n]);
      DeletesKeepAdded(s, l, e.deleted);
      AddsMembers(AfterDeletes(s, l, e.deleted), l, e.added);
      AddedAreNew(known, l, e.added);
      forall f | f in base || f in s.added ensures f.number !in AddedNumbers(l, e.added) {
        assert f in known && f.number in Numbers(known);
      }
    }
  }

  lemma {:induction false} FreshPrefix(base: seq<File>, l: nat, edits: seq<VersionEdit>, n: nat)
    requires AllFresh(base, l, edits) && 0 < n <= |edits|
    ensures FreshAt(base, l, edits[..n - 1], edits[n - 1])
    decreases |edits|
  {
    if n < |edits| {
      var init := edits[..|edits| - 1];
      FreshPrefix(base, l, init, n);
      assert init[..n - 1] == edits[..n - 1];
    }
  }

  lemma {:induction false} AddedAreNew(known: seq<File>, l: nat, added: seq<(nat, File)>)
    requires AddsNew(known, l, added)
    ensures AddedNumbers(l, added) !! Numbers(known)
  {
    if added != [] {
      AddedAreNew(known, l, added[..|added| - 1]);
    }
  }
}
