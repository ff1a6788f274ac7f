/** Point lookups in a version (db/version_set.cc: FindFile, Version::Get). */
module FileSearch {
  import opened Coding
  import opened Options
  import opened Keys
  import opened Store

  // Earliest table whose largest key is at or after `key`; |files| if there is none.
  method FindFile(files: seq<File>, key: InternalKey) returns (right: nat)
    requires ValidFiles(files) && SortedDisjoint(files)
    ensures right <= |files|
    ensures forall i :: 0 <= i < right ==> Before(files[i].largest, key)
    ensures forall i :: right <= i < |files| ==> AtOrBefore(key, files[i].largest)
  {
    var left := 0;
    right := |files|;
    while left < right
      invariant 0 <= left <= right <= |files|
      invariant forall i :: 0 <= i < left ==> Before(files[i].largest, key)
      invariant forall i :: right <= i < |files| ==> AtOrBefore(key, files[i].largest)
    {
      var mid := (left + right) / 2;
      if Before(files[mid].largest, key) {
        forall i | 0 <= i < mid ensures Before(files[i].largest, key) {
          LargestIncreasing(files, i, mid);
        }
        left := mid + 1;
      } else {
        forall i | mid < i < |files| ensures AtOrBefore(key, files[i].largest) {
          LargestIncreasing(files, mid, i);
        }
        right := mid;
      }
    }
  }

  lemma {:induction false} SmallestToLargest(f: File, e: Entry)
    requires ValidFile(f) && e in f.entries
    ensures AtOrBefore(f.smallest, e.key) && AtOrBefore(e.key, f.largest)
    ensures AtOrBefore(f.smallest, f.largest)
  {
    var i :| 0 <= i < |f.entries| && f.entries[i] == e;
  }

  lemma {:induction false} LargestIncreasing(files: seq<File>, i: nat, j: nat)
    requires ValidFiles(files) && SortedDisjoint(files) && i < j < |files|
    ensures Before(files[i].largest, files[j].largest)
  {
    SmallestToLargest(files[j], files[j].entries[0]);
  }

  // Entries of a sorted level follow the order of its tables.
  lemma {:induction false} AcrossFiles(files: seq<File>, i: nat, j: nat, e: Entry, e': Entry)
    requires ValidFiles(files) && SortedDisjoint(files) && i < j < |files|
    requires e in files[i].entries && e' in files[j].entries
    ensures Before(e.key, e'.key)
  {
    SmallestToLargest(files[i], e);
    SmallestToLargest(files[j], e');
  }

  // What TableCache::Get hands to SaveValue, filtered by the user key.
  datatype SaverState = NotFound | Found(e: Entry) | Deleted(e: Entry)

  function SaveValue(es: seq<Entry>, k: UserKey, s: nat): SaverState {
    var p := LowerBound(es, LookupKey(k, s));
    if p == |es| || es[p].key.user != k then NotFound
    else if es[p].key.kind.Value? then Found(es[p])
    else Deleted(es[p])
  }

  ghost predicate NewestIn(es: seq<Entry>, k: UserKey, s: nat, e: Entry) {
    && e in es && e.key.user == k && e.key.sequence <= s
    && forall e' :: e' in es && e'.key.user == k && e'.key.sequence <= s ==> e'.key.sequence <= e.key.sequence
  }

  ghost predicate NoneIn(es: seq<Entry>, k: UserKey, s: nat) {
    forall e :: e in es && e.key.user == k ==> e.key.sequence > s
  }

  // One sorted run answers with its newest visible entry, or says that it has none.
  lemma {:induction false} SaveValueFindsNewest(es: seq<Entry>, k: UserKey, s: nat)
    requires SortedEntries(es)
    ensures match SaveValue(es, k, s)
            case NotFound => NoneIn(es, k, s)
            case Found(e) => NewestIn(es, k, s, e) && e.key.kind.Value?
            case Deleted(e) => NewestIn(es, k, s, e) && e.key.kind.Deletion?
  {
    var t := LookupKey(k, s);
    var p := LowerBound(es, t);
    forall e | e in es && e.key.user == k && e.key.sequence <= s
      ensures p < |es| && es[p].key.user == k && e.key.sequence <= es[p].key.sequence
    {
      var i :| 0 <= i < |es| && es[i] == e;
      LowerBoundSorted(es, t, i);
      if p < i {
        assert Before(es[p].key, es[i].key);
      }
    }
  }

  // UserRangeContains: the test on smallest.user_key() and largest.user_key().
  predicate UserRangeContains(f: File, k: UserKey) {
    f.smallest.user <= k <= f.largest.user
  }

  lemma {:induction false} OutOfRange(f: File, k: UserKey, e: Entry)
    requires ValidFile(f) && e in f.entries && e.key.user == k
    ensures UserRangeContains(f, k)
  {
    SmallestToLargest(f, e);
  }

  // std::sort with NewestFirst, as insertion into a list that is already sorted.
  function InsertNewestFirst(fs: seq<File>, f: File): (r: seq<File>)
    requires forall i, j :: 0 <= i < j < |fs| ==> fs[i].number > fs[j].number
    requires forall i :: 0 <= i < |fs| ==> fs[i].number != f.number
    ensures forall g :: g in r <==> g in fs || g == f
    ensures forall i, j :: 0 <= i < j < |r| ==> r[i].number > r[j].number
  {
    if fs == [] || f.number > fs[0].number then [f] + fs
    else
      var rest := InsertNewestFirst(fs[1..], f);
      assert forall i :: 0 <= i < |rest| ==> rest[i] in fs[1..] || rest[i] == f;
      [fs[0]] + rest
  }

  // The tables of level 0 that may hold k, newest first.
  method OverlappingNewestFirst(files: seq<File>, k: UserKey) returns (tmp: seq<File>)
    requires DistinctNumbers(files)
    ensures forall g :: g in tmp <==> g in files && UserRangeContains(g, k)
    ensures forall i, j :: 0 <= i < j < |tmp| ==> tmp[i].number > tmp[j].number
  {
    tmp := [];
    var i := 0;
    while i < |files|
      invariant 0 <= i <= |files|
      invariant forall g :: g in tmp <==> g in files[..i] && UserRangeContains(g, k)
      invariant forall i, j :: 0 <= i < j < |tmp| ==> tmp[i].number > tmp[j].number
    {
      if UserRangeContains(files[i], k) {
        forall j | 0 <= j < |tmp| ensures tmp[j].number != files[i].number {
          assert tmp[j] in files[..i];
        }
        tmp := InsertNewestFirst(tmp, files[i]);
      }
      assert files[..i + 1] == files[..i] + [files[i]];
      i := i + 1;
    }
    assert files[..i] == files;
  }

  // The newest visible entry of k over one level.
  ghost predicate LevelNewest(fs: seq<File>, k: UserKey, s: nat, e: Entry) {
    && InFiles(fs, e) && e.key.user == k && e.key.sequence <= s
    && forall e' :: InFiles(fs, e') && e'.key.user == k && e'.key.sequence <= s ==> e'.key.sequence <= e.key.sequence
  }

  ghost predicate LevelHasNone(fs: seq<File>, k: UserKey, s: nat) {
    forall e :: InFiles(fs, e) && e.key.user == k ==> e.key.sequence > s
  }

  ghost predicate LevelAnswer(fs: seq<File>, k: UserKey, s: nat, r: SaverState) {
    match r
    case NotFound => LevelHasNone(fs, k, s)
    case Found(e) => LevelNewest(fs, k, s, e) && e.key.kind.Value?
    case Deleted(e) => LevelNewest(fs, k, s, e) && e.key.kind.Deletion?
  }

  // Level 0: every overlapping table in order from newest to oldest.
  method SearchLevel0(files: seq<File>, k: UserKey, s: nat) returns (r: SaverState)
    requires ValidFiles(files) && DistinctNumbers(files) && NewerByNumber(files)
    ensures LevelAnswer(files, k, s, r)
  {
    var tmp := OverlappingNewestFirst(files, k);
    var i := 0;
    r := NotFound;
    while i < |tmp|
      invariant 0 <= i <= |tmp|
      invariant r == NotFound
      invariant forall j :: 0 <= j < i ==> NoneIn(tmp[j].entries, k, s)
    {
      assert tmp[i] in files;
      r := SaveValue(tmp[i].entries, k, s);
      SaveValueFindsNewest(tmp[i].entries, k, s);
      if r != NotFound {
        NewestTableWins(files, tmp, i, k, s, r.e);
        return;
      }
      i := i + 1;
    }
    forall e | InFiles(files, e) && e.key.user == k ensures e.key.sequence > s {
      var j := PositionInTmp(files, tmp, k, e);
    }
  }

  lemma {:induction false} PositionInTmp(files: seq<File>, tmp: seq<File>, k: UserKey, e: Entry) returns (j: nat)
    requires ValidFiles(files) && InFiles(files, e) && e.key.user == k
    requires forall g :: g in tmp <==> g in files && UserRangeContains(g, k)
    ensures j < |tmp| && e in tmp[j].entries
  {
    var i :| 0 <= i < |files| && e in files[i].entries;
    OutOfRange(files[i], k, e);
    assert files[i] in tmp;
    j :| 0 <= j < |tmp| && tmp[j] == files[i];
  }

  lemma {:induction false} NewestTableWins(files: seq<File>, tmp: seq<File>, i: nat, k: UserKey, s: nat, e: Entry)
    requires ValidFiles(files) && NewerByNumber(files)
    requires forall g :: g in tmp <==> g in files && UserRangeContains(g, k)
    requires forall i, j :: 0 <= i < j < |tmp| ==> tmp[i].number > tmp[j].number
    requires i < |tmp| && NewestIn(tmp[i].entries, k, s, e)
    requires forall j :: 0 <= j < i ==> NoneIn(tmp[j].entries, k, s)
    ensures LevelNewest(files, k, s, e)
  {
    assert tmp[i] in files;
    var fi :| 0 <= fi < |files| && files[fi] == tmp[i];
    forall e' | InFiles(files, e') && e'.key.user == k && e'.key.sequence <= s
      ensures e'.key.sequence <= e.key.sequence
    {
      var j := PositionInTmp(files, tmp, k, e');
      assert NoneIn(tmp[j].entries, k, s) ==> false;
      if i < j {
        assert tmp[j] in files;
        var fj :| 0 <= fj < |files| && files[fj] == tmp[j];
        assert NewerFile(files[fi], files[fj]);
      }
    }
  }

  // Levels >= 1: binary search for the single table that can hold the newest visible entry.
  method SearchSortedLevel(files: seq<File>, k: UserKey, s: nat) returns (r: SaverState)
    requires ValidFiles(files) && SortedDisjoint(files)
    ensures LevelAnswer(files, k, s, r)
  {
    var index := FindFile(files, LookupKey(k, s));
    r := NotFound;
    if index < |files| && !(k < files[index].smallest.user) {
      r := SaveValue(files[index].entries, k, s);
      SaveValueFindsNewest(files[index].entries, k, s);
    }
    forall e | InFiles(files, e) && e.key.user == k && e.key.sequence <= s
      ensures r != NotFound && e.key.sequence <= r.e.key.sequence
    {
      var j := OnlyOneTable(files, index, k, s, e);
      if index < j {
        AcrossFiles(files, index, j, r.e, e);
      }
    }
  }

  // If any table of the level has a visible entry of k, so has the one that FindFile returned.
  lemma {:induction false} OnlyOneTable(files: seq<File>, index: nat, k: UserKey, s: nat, e: Entry) returns (j: nat)
    requires ValidFiles(files) && SortedDisjoint(files) && index <= |files|
    requires forall i :: 0 <= i < index ==> Before(files[i].largest, LookupKey(k, s))
    requires forall i :: index <= i < |files| ==> AtOrBefore(LookupKey(k, s), files[i].largest)
    requires InFiles(files, e) && e.key.user == k && e.key.sequence <= s
    ensures index <= j < |files| && e in files[j].entries
    ensures files[index].smallest.user <= k && !NoneIn(files[index].entries, k, s)
  {
    j :| 0 <= j < |files| && e in files[j].entries;
    SmallestToLargest(files[j], e);
    LookupKeySeparates(e.key, k, s);
    if index < j {
      var found := files[index];
      SmallestToLargest(found, found.entries[0]);
      assert Before(found.largest, files[j].smallest);
      var last := found.entries[|found.entries| - 1];
      assert last in found.entries;
      LookupKeySeparates(last.key, k, s);
    }
  }

  // Version::Get: level by level, stopping at the first level that has a visible entry.
  method Get(v: Version, k: UserKey, s: nat) returns (r: Option<Bytes>, state: SaverState)
    requires OrderedVersion(v)
    ensures ReadIs(VersionEntries(v), k, s, r)
    ensures match state
            case NotFound => r == None && forall e :: InVersion(v, e) && e.key.user == k ==> e.key.sequence > s
            case Found(e) => r == Some(e.value) && e.key.kind.Value? && IsNewest(VersionEntries(v), k, s, e)
            case Deleted(e) => r == None && e.key.kind.Deletion? && IsNewest(VersionEntries(v), k, s, e)
  {
    var level := 0;
    while level < NUM_LEVELS
      invariant 0 <= level <= NUM_LEVELS
      invariant forall l :: 0 <= l < level ==> LevelHasNone(v.files[l], k, s)
    {
      if level == 0 {
        state := SearchLevel0(v.files[0], k, s);
      } else {
        state := SearchSortedLevel(v.files[level], k, s);
      }
      if state != NotFound {
        FirstLevelWins(v, level, k, s, state.e);
        return Shown(state.e), state;
      }
      level := level + 1;
    }
    return None, NotFound;
  }

  lemma {:induction false} FirstLevelWins(v: Version, level: nat, k: UserKey, s: nat, e: Entry)
    requires ValidVersion(v) && LevelOrder(v) && level < NUM_LEVELS
    requires forall l :: 0 <= l < level ==> LevelHasNone(v.files[l], k, s)
    requires LevelNewest(v.files[level], k, s, e)
    ensures IsNewest(VersionEntries(v), k, s, e)
  {
    forall e' | InVersion(v, e') && e'.key.user == k && e'.key.sequence <= s
      ensures e'.key.sequence <= e.key.sequence
    {
      var l :| 0 <= l < |v.files| && InFiles(v.files[l], e');
      assert level <= l;
      if level < l {
        assert NewerFiles(v.files[level], v.files[l]);
      }
    }
  }
}
