/** What a compaction drops (db/db_impl.cc: DoCompactionWork, db/version_set.cc: Compaction). */
module CompactionWork {
  import opened Coding
  import opened Options
  import opened Keys
  import opened Store
  import opened FileSearch

  // No table below level+1 has a range that contains k: the stateless meaning of IsBaseLevelForKey.
  predicate IsBaseLevel(v: Version, level: nat, k: UserKey)
    requires |v.files| == NUM_LEVELS
  {
    forall l :: level + 2 <= l < NUM_LEVELS ==> NoRangeContains(v.files[l], k)
  }

  predicate NoRangeContains(fs: seq<File>, k: UserKey) {
    forall i :: 0 <= i < |fs| ==> !UserRangeContains(fs[i], k)
  }

  // The first n tables end before k.
  predicate EndBefore(fs: seq<File>, n: nat, k: UserKey) {
    n <= |fs| && forall i :: 0 <= i < n ==> fs[i].largest.user < k
  }

  lemma {:induction false} RangesAfter(fs: seq<File>, n: nat, k: UserKey)
    requires ValidFiles(fs) && SortedDisjoint(fs) && EndBefore(fs, n, k)
    requires n < |fs| ==> k <= fs[n].largest.user
    ensures NoRangeContains(fs, k) <==> (n < |fs| ==> !UserRangeContains(fs[n], k))
  {
    forall i | n < i < |fs| && !UserRangeContains(fs[n], k) ensures !UserRangeContains(fs[i], k) {
      SmallestToLargest(fs[n], fs[n].entries[0]);
      assert Before(fs[n].largest, fs[i].smallest);
    }
  }

  /** The state that IsBaseLevelForKey carries from key to key. */
  class Compaction {
    const level: nat
    const inputVersion: Version
    const levelPtrs: array<nat>

    ghost predicate Valid()
    {
      ValidVersion(inputVersion) && level + 1 < NUM_LEVELS && levelPtrs.Length == NUM_LEVELS
    }

    // Every table that the pointers have passed ends before k.
    ghost predicate ReadyFor(k: UserKey)
      requires Valid()
      reads levelPtrs
    {
      forall l :: level + 2 <= l < NUM_LEVELS ==> EndBefore(inputVersion.files[l], levelPtrs[l], k)
    }

    constructor (level: nat, v: Version)
      requires ValidVersion(v) && level + 1 < NUM_LEVELS
      ensures Valid() && this.level == level && inputVersion == v && fresh(levelPtrs)
      ensures forall k :: ReadyFor(k)
    {
      this.level := level;
      inputVersion := v;
      levelPtrs := new nat[NUM_LEVELS](_ => 0);
    }

    lemma {:induction false} ReadyLater(k: UserKey, k': UserKey)
      requires Valid() && ReadyFor(k) && k <= k'
      ensures ReadyFor(k')
    {
    }

    /** The pointers only move forward, so keys must come in non-decreasing order; then the answer
        does not depend on the pointers. */
    method IsBaseLevelForKey(k: UserKey) returns (base: bool)
      requires Valid() && ReadyFor(k)
      modifies levelPtrs
      ensures ReadyFor(k)
      ensures base <==> IsBaseLevel(inputVersion, level, k)
    {
      var lvl := level + 2;
      while lvl < NUM_LEVELS
        invariant level + 2 <= lvl <= NUM_LEVELS || lvl == level + 2
        invariant ReadyFor(k)
        invariant forall l :: level + 2 <= l < lvl && l < NUM_LEVELS ==> NoRangeContains(inputVersion.files[l], k)
      {
        var files := inputVersion.files[lvl];
        while levelPtrs[lvl] < |files|
          invariant ReadyFor(k)
          invariant levelPtrs[lvl] <= |files|
          decreases |files| - levelPtrs[lvl]
        {
          var f := files[levelPtrs[lvl]];
          if k <= f.largest.user {
            RangesAfter(files, levelPtrs[lvl], k);
            if k >= f.smallest.user {
              return false;
            }
            break;
          }
          levelPtrs[lvl] := levelPtrs[lvl] + 1;
        }
        RangesAfter(files, levelPtrs[lvl], k);
        lvl := lvl + 1;
      }
      return true;
    }
  }

  // Rule (A): hidden by the entry just before it, which is newer and visible at every live snapshot.
  predicate Hidden(m: seq<Entry>, i: nat, snapshot: nat)
    requires i < |m|
  {
    i > 0 && m[i - 1].key.user == m[i].key.user && m[i - 1].key.sequence <= snapshot
  }

  // Rule (B): a deletion marker with nothing below it.
  predicate Obsolete(e: Entry, snapshot: nat, v: Version, level: nat)
    requires |v.files| == NUM_LEVELS
  {
    e.key.kind.Deletion? && e.key.sequence <= snapshot && IsBaseLevel(v, level, e.key.user)
  }

  predicate Dropped(m: seq<Entry>, i: nat, snapshot: nat, v: Version, level: nat)
    requires i < |m| && |v.files| == NUM_LEVELS
  {
    Hidden(m, i, snapshot) || Obsolete(m[i], snapshot, v, level)
  }

  // The entries among the first n that are written to the outputs.
  function Kept(m: seq<Entry>, n: nat, snapshot: nat, v: Version, level: nat): seq<Entry>
    requires n <= |m| && |v.files| == NUM_LEVELS
  {
    if n == 0 then []
    else Kept(m, n - 1, snapshot, v, level) + if Dropped(m, n - 1, snapshot, v, level) then [] else [m[n - 1]]
  }

  predicate NonEmptyOutputs(outputs: seq<seq<Entry>>) {
    forall i :: 0 <= i < |outputs| ==> outputs[i] != []
  }

  /** The loop of DoCompactionWork over the merged inputs. Where an output is cut (ShouldStopBefore,
      MaxOutputFileSize) is left open. The oldest snapshot must be below the largest sequence
      number, which the loop uses to mean "no entry of this key seen yet". */
  method DoCompactionWork(c: Compaction, m: seq<Entry>, snapshot: nat) returns (outputs: seq<seq<Entry>>)
    requires c.Valid() && SortedEntries(m) && snapshot < MAX_SEQUENCE
    requires m != [] ==> c.ReadyFor(m[0].key.user)
    modifies c.levelPtrs
    ensures Flatten(outputs) == Kept(m, |m|, snapshot, c.inputVersion, c.level)
    ensures NonEmptyOutputs(outputs)
  {
    outputs := [];
    var builder: Option<seq<Entry>> := None;
    var currentUserKey: Option<UserKey> := None;
    var lastSequenceForKey := MAX_SEQUENCE;
    for i := 0 to |m|
      invariant NonEmptyOutputs(outputs) && (builder.Some? ==> builder.value != [])
      invariant Flatten(outputs) + Open(builder) == Kept(m, i, snapshot, c.inputVersion, c.level)
      invariant i < |m| ==> c.ReadyFor(m[i].key.user)
      invariant TracksKey(m, i, currentUserKey, lastSequenceForKey)
    {
      hide ValidVersion, IsBaseLevel, EndBefore, SortedEntries;
      if currentUserKey != Some(m[i].key.user) {
        currentUserKey := Some(m[i].key.user);
        lastSequenceForKey := MAX_SEQUENCE;
      }
      var drop := DropEntry(c, m[i], lastSequenceForKey, snapshot);
      lastSequenceForKey := m[i].key.sequence;
      outputs, builder := WriteEntry(outputs, builder, m[i], drop);
      ReadyNext(c, m, i);
    }
    outputs, builder := FinishOutput(outputs, builder);
  }

  lemma {:induction false} ReadyNext(c: Compaction, m: seq<Entry>, i: nat)
    requires c.Valid() && SortedEntries(m) && i < |m| && c.ReadyFor(m[i].key.user)
    ensures i + 1 < |m| ==> c.ReadyFor(m[i + 1].key.user)
  {
    if i + 1 < |m| {
      assert Before(m[i].key, m[i + 1].key);
      c.ReadyLater(m[i].key.user, m[i + 1].key.user);
    }
  }

  // Adds an entry to the open output unless it is dropped; the output may be closed before or after it.
  method WriteEntry(outputs: seq<seq<Entry>>, builder: Option<seq<Entry>>, e: Entry, drop: bool)
    returns (outputs': seq<seq<Entry>>, builder': Option<seq<Entry>>)
    requires NonEmptyOutputs(outputs) && (builder.Some? ==> builder.value != [])
    ensures NonEmptyOutputs(outputs') && (builder'.Some? ==> builder'.value != [])
    ensures Flatten(outputs') + Open(builder') == Flatten(outputs) + Open(builder) + if drop then [] else [e]
  {
    outputs', builder' := outputs, builder;
    if * {
      outputs', builder' := FinishOutput(outputs', builder');
    }
    if !drop {
      builder' := Some(Open(builder') + [e]);
      if * {
        outputs', builder' := FinishOutput(outputs', builder');
      }
    }
  }

  // The loop variables current_user_key and last_sequence_for_key after i entries.
  predicate TracksKey(m: seq<Entry>, i: nat, currentUserKey: Option<UserKey>, lastSequenceForKey: nat)
    requires i <= |m|
  {
    if i == 0 then currentUserKey == None
    else currentUserKey == Some(m[i - 1].key.user) && lastSequenceForKey == m[i - 1].key.sequence
  }

  method DropEntry(c: Compaction, e: Entry, lastSequenceForKey: nat, snapshot: nat) returns (drop: bool)
    requires c.Valid() && c.ReadyFor(e.key.user)
    modifies c.levelPtrs
    ensures c.ReadyFor(e.key.user)
    ensures drop <==> lastSequenceForKey <= snapshot || Obsolete(e, snapshot, c.inputVersion, c.level)
  {
    drop := false;
    if lastSequenceForKey <= snapshot {
      drop := true;
    } else if e.key.kind.Deletion? && e.key.sequence <= snapshot {
      drop := c.IsBaseLevelForKey(e.key.user);
    }
  }

  function Open(builder: Option<seq<Entry>>): seq<Entry> {
    if builder.Some? then builder.value else []
  }

  method FinishOutput(outputs: seq<seq<Entry>>, builder: Option<seq<Entry>>)
    returns (outputs': seq<seq<Entry>>, builder': Option<seq<Entry>>)
    requires NonEmptyOutputs(outputs) && (builder.Some? ==> builder.value != [])
    ensures NonEmptyOutputs(outputs') && builder' == None
    ensures Flatten(outputs') == Flatten(outputs) + Open(builder)
  {
    outputs', builder' := outputs, None;
    if builder.Some? {
      outputs' := outputs + [builder.value];
      assert outputs'[..|outputs'| - 1] == outputs;
    }
  }

  // ---- Reads across a compaction ----

  // Entry i of m survives.
  lemma {:induction false} KeptMembers(m: seq<Entry>, n: nat, snapshot: nat, v: Version, level: nat, e: Entry)
    requires n <= |m| && |v.files| == NUM_LEVELS
    ensures e in Kept(m, n, snapshot, v, level) <==> exists i :: 0 <= i < n && m[i] == e && !Dropped(m, i, snapshot, v, level)
  {
    if n > 0 {
      KeptMembers(m, n - 1, snapshot, v, level, e);
    }
  }

  // A newer entry of the same key that every live snapshot sees.
  ghost predicate Superseded(m: seq<Entry>, e: Entry, snapshot: nat) {
    exists newer :: newer in m && newer.key.user == e.key.user && e.key.sequence < newer.key.sequence <= snapshot
  }

  // A deletion marker that every live snapshot sees, of a key that no deeper table has in its range.
  ghost predicate HidesNothing(e: Entry, snapshot: nat, v: Version, level: nat)
    requires |v.files| == NUM_LEVELS
  {
    && e.key.kind.Deletion? && e.key.sequence <= snapshot
    && forall l, i :: level + 2 <= l < NUM_LEVELS && 0 <= i < |v.files[l]| ==>
         !(v.files[l][i].smallest.user <= e.key.user <= v.files[l][i].largest.user)
  }

  lemma {:induction false} HiddenIsSuperseded(all: iset<Entry>, m: seq<Entry>, i: nat, snapshot: nat)
    requires SortedEntries(m) && UniqueSequences(all) && (forall x :: x in m ==> x in all) && i < |m|
    ensures Hidden(m, i, snapshot) <==> Superseded(m, m[i], snapshot)
  {
    hide UniqueSequences;
    if Superseded(m, m[i], snapshot) {
      var newer :| newer in m && newer.key.user == m[i].key.user && m[i].key.sequence < newer.key.sequence <= snapshot;
      var j := IndexIn(m, newer);
      if i < j {
        MergedNewestFirst(all, m, i, j);
      }
      OlderIsHidden(all, m, j, i, snapshot);
    }
    if Hidden(m, i, snapshot) {
      MergedNewestFirst(all, m, i - 1, i);
      assert m[i - 1] in m;
    }
  }

  lemma {:induction false} OnePlace(m: seq<Entry>, i: nat, j: nat)
    requires SortedEntries(m) && i < |m| && j < |m| && m[i] == m[j]
    ensures i == j
  {
  }

  /** What a compaction removes, without the order in which it looks: exactly the entries that a newer one
      hides from every live snapshot, and the deletion markers with no table below that could have the key.
      Nothing else goes, and nothing of that kind is written again. */
  lemma {:induction false} RemovesExactly(all: iset<Entry>, m: seq<Entry>, snapshot: nat, v: Version, level: nat, e: Entry)
    requires SortedEntries(m) && UniqueSequences(all) && (forall x :: x in m ==> x in all) && |v.files| == NUM_LEVELS
    requires e in m
    ensures e !in Kept(m, |m|, snapshot, v, level) <==> Superseded(m, e, snapshot) || HidesNothing(e, snapshot, v, level)
  {
    hide SortedEntries, UniqueSequences, Superseded, Hidden, Kept;
    var i := IndexIn(m, e);
    KeptMembers(m, |m|, snapshot, v, level, e);
    HiddenIsSuperseded(all, m, i, snapshot);
    forall j | 0 <= j < |m| && m[j] == e ensures j == i {
      OnePlace(m, i, j);
    }
  }

  ghost function IndexIn(m: seq<Entry>, e: Entry): (i: nat)
    requires e in m
    ensures i < |m| && m[i] == e
  {
    var i :| 0 <= i < |m| && m[i] == e;
    i
  }

  ghost function With(rest: iset<Entry>, m: seq<Entry>): iset<Entry> {
    iset e | e in rest || e in m
  }

  // Dropping a marker brings a value back for the reads at `live`: the marker is the newest entry
  // of k there, rule (B) of a compaction started at `snapshot` drops it, and of the entries that
  // stay behind in other tables the newest one is a value.
  ghost predicate Resurrects(rest: iset<Entry>, m: seq<Entry>, snapshot: nat, live: nat, v: Version, level: nat,
                             k: UserKey, marker: Entry, stale: Entry)
    requires |v.files| == NUM_LEVELS
  {
    && marker in m && Obsolete(marker, snapshot, v, level)
    && IsNewest(With(rest, m), k, live, marker)
    && IsNewest(rest, k, live, stale) && stale.key.kind.Value?
  }

  ghost predicate SomeResurrection(rest: iset<Entry>, m: seq<Entry>, snapshot: nat, live: nat, v: Version, level: nat)
    requires |v.files| == NUM_LEVELS
  {
    exists k, marker, stale :: Resurrects(rest, m, snapshot, live, v, level, k, marker, stale)
  }

  // Every read at a snapshot no older than `snapshot` has the same answers.
  ghost predicate SameReads(before: iset<Entry>, after: iset<Entry>, snapshot: nat) {
    forall k, s, r :: s >= snapshot ==> (ReadIs(before, k, s, r) <==> ReadIs(after, k, s, r))
  }

  // In the merged order, an earlier entry of the same key is strictly newer.
  lemma {:induction false} MergedNewestFirst(all: iset<Entry>, m: seq<Entry>, i: nat, j: nat)
    requires SortedEntries(m) && i < j < |m| && m[i].key.user == m[j].key.user
    requires UniqueSequences(all) && forall e :: e in m ==> e in all
    ensures m[i] in all && m[i].key.sequence > m[j].key.sequence
  {
    assert Before(m[i].key, m[j].key);
    assert m[i] in m && m[j] in m;
  }

  // Entries of one key are contiguous in the merged order.
  lemma {:induction false} SameKeyBetween(m: seq<Entry>, i: nat, j: nat)
    requires SortedEntries(m) && i < j < |m| && m[i].key.user == m[j].key.user
    ensures m[j - 1].key.user == m[j].key.user
  {
    assert Before(m[j - 1].key, m[j].key);
    if i < j - 1 {
      assert Before(m[i].key, m[j - 1].key);
    }
  }

  // An entry after one that is already visible at the oldest snapshot is dropped.
  lemma {:induction false} OlderIsHidden(all: iset<Entry>, m: seq<Entry>, i: nat, j: nat, snapshot: nat)
    requires SortedEntries(m) && i < j < |m| && m[i].key.user == m[j].key.user
    requires UniqueSequences(all) && forall e :: e in m ==> e in all
    requires m[i].key.sequence <= snapshot
    ensures Hidden(m, j, snapshot)
  {
    SameKeyBetween(m, i, j);
    if i < j - 1 {
      MergedNewestFirst(all, m, i, j - 1);
    }
  }

  // The newest visible entry of a live snapshot is never dropped by rule (A).
  lemma {:induction false} NewestNotHidden(rest: iset<Entry>, m: seq<Entry>, i: nat, snapshot: nat, k: UserKey, s: nat)
    requires SortedEntries(m) && i < |m| && UniqueSequences(With(rest, m))
    requires IsNewest(With(rest, m), k, s, m[i]) && snapshot <= s
    ensures !Hidden(m, i, snapshot)
  {
    if i > 0 && m[i - 1].key.user == m[i].key.user {
      MergedNewestFirst(With(rest, m), m, i - 1, i);
    }
  }

  // After the newest entry of k is dropped as obsolete, only the entries that stay behind can answer.
  lemma {:induction false} OnlyRestAnswers(rest: iset<Entry>, m: seq<Entry>, i: nat, snapshot: nat, v: Version, level: nat, k: UserKey, s: nat)
    requires SortedEntries(m) && i < |m| && |v.files| == NUM_LEVELS && UniqueSequences(With(rest, m))
    requires IsNewest(With(rest, m), k, s, m[i]) && snapshot <= s && Obsolete(m[i], snapshot, v, level)
    ensures forall e :: e in Kept(m, |m|, snapshot, v, level) && e.key.user == k ==> e.key.sequence > s
  {
    forall e | e in Kept(m, |m|, snapshot, v, level) && e.key.user == k ensures e.key.sequence > s {
      KeptMembers(m, |m|, snapshot, v, level, e);
      var j :| 0 <= j < |m| && m[j] == e && !Dropped(m, j, snapshot, v, level);
      if j < i {
        MergedNewestFirst(With(rest, m), m, j, i);
      } else if i < j {
        OlderIsHidden(With(rest, m), m, i, j, snapshot);
      }
    }
  }

  ghost predicate Visible(all: iset<Entry>, k: UserKey, s: nat) {
    exists e :: e in all && e.key.user == k && e.key.sequence <= s
  }

  // A set with a visible entry of k has a newest one.
  lemma {:induction false} NewestExists(all: iset<Entry>, k: UserKey, s: nat, e: Entry, bound: nat) returns (newest: Entry)
    requires e in all && e.key.user == k && e.key.sequence <= s && s <= e.key.sequence + bound
    ensures IsNewest(all, k, s, newest)
    decreases bound
  {
    if e' :| e' in all && e'.key.user == k && e.key.sequence < e'.key.sequence <= s {
      newest := NewestExists(all, k, s, e', bound - 1);
    } else {
      newest := e;
    }
  }

  // With unique sequence numbers a read has exactly one answer.
  lemma {:induction false} ReadAnswer(all: iset<Entry>, k: UserKey, s: nat, e: Entry, r: Option<Bytes>)
    requires UniqueSequences(all) && IsNewest(all, k, s, e)
    ensures ReadIs(all, k, s, r) <==> r == Shown(e)
  {
    if ReadIs(all, k, s, r) {
      var e' :| IsNewest(all, k, s, e') && r == Shown(e');
    }
  }

  lemma {:induction false} SubsetUnique(all: iset<Entry>, sub: iset<Entry>)
    requires UniqueSequences(all) && forall e :: e in sub ==> e in all
    ensures UniqueSequences(sub)
  {
  }

  lemma {:induction false} KeptIsSubset(m: seq<Entry>, snapshot: nat, v: Version, level: nat)
    requires |v.files| == NUM_LEVELS
    ensures forall e :: e in Kept(m, |m|, snapshot, v, level) ==> e in m
  {
    forall e | e in Kept(m, |m|, snapshot, v, level) ensures e in m {
      KeptMembers(m, |m|, snapshot, v, level, e);
    }
  }

  // What is newest at a later snapshot and old enough for an earlier one is newest there too.
  lemma {:induction false} NewestEarlier(all: iset<Entry>, k: UserKey, live: nat, s: nat, e: Entry)
    requires IsNewest(all, k, s, e) && e.key.sequence <= live <= s
    ensures IsNewest(all, k, live, e)
  {
  }

  // The newest entry of k was dropped as obsolete, and nothing is resurrected: k reads as absent.
  lemma {:induction false} DroppedReadsAbsent(rest: iset<Entry>, m: seq<Entry>, i: nat, snapshot: nat, live: nat, v: Version, level: nat, k: UserKey, s: nat)
    requires SortedEntries(m) && i < |m| && |v.files| == NUM_LEVELS && UniqueSequences(With(rest, m)) && snapshot <= live <= s
    requires IsNewest(With(rest, m), k, s, m[i]) && Obsolete(m[i], snapshot, v, level)
    requires !SomeResurrection(rest, m, snapshot, live, v, level)
    requires UniqueSequences(With(rest, Kept(m, |m|, snapshot, v, level)))
    ensures forall r :: ReadIs(With(rest, Kept(m, |m|, snapshot, v, level)), k, s, r) <==> r == None
  {
    var after := With(rest, Kept(m, |m|, snapshot, v, level));
    OnlyRestAnswers(rest, m, i, snapshot, v, level, k, s);
    if e' :| e' in after && e'.key.user == k && e'.key.sequence <= s {
      var stale := NewestExists(after, k, s, e', s);
      assert stale in With(rest, m);
      NewestEarlier(rest, k, live, s, stale);
      NewestEarlier(With(rest, m), k, live, s, m[i]);
      assert !Resurrects(rest, m, snapshot, live, v, level, k, m[i], stale);
      forall r ensures ReadIs(after, k, s, r) <==> r == None {
        ReadAnswer(after, k, s, stale, r);
      }
    }
  }

  // One key, one snapshot.
  lemma {:induction false} ReadSurvives(rest: iset<Entry>, m: seq<Entry>, snapshot: nat, live: nat, v: Version, level: nat, k: UserKey, s: nat, r: Option<Bytes>)
    requires SortedEntries(m) && |v.files| == NUM_LEVELS && UniqueSequences(With(rest, m))
    requires !SomeResurrection(rest, m, snapshot, live, v, level) && snapshot <= live <= s
    ensures ReadIs(With(rest, m), k, s, r) <==> ReadIs(With(rest, Kept(m, |m|, snapshot, v, level)), k, s, r)
  {
    var kept := Kept(m, |m|, snapshot, v, level);
    var before, after := With(rest, m), With(rest, kept);
    KeptIsSubset(m, snapshot, v, level);
    SubsetUnique(before, after);
    if e :| e in before && e.key.user == k && e.key.sequence <= s {
      var newest := NewestExists(before, k, s, e, s);
      ReadAnswer(before, k, s, newest, r);
      if newest in after {
        assert IsNewest(after, k, s, newest);
        ReadAnswer(after, k, s, newest, r);
      } else {
        var i :| 0 <= i < |m| && m[i] == newest;
        KeptMembers(m, |m|, snapshot, v, level, newest);
        NewestNotHidden(rest, m, i, snapshot, k, s);
        DroppedReadsAbsent(rest, m, i, snapshot, live, v, level, k, s);
      }
    }
  }

  // A resurrection is a read at `live` with another answer.
  lemma {:induction false} ResurrectionChangesRead(rest: iset<Entry>, m: seq<Entry>, snapshot: nat, live: nat, v: Version, level: nat,
                                                   k: UserKey, marker: Entry, stale: Entry)
    requires SortedEntries(m) && |v.files| == NUM_LEVELS && UniqueSequences(With(rest, m)) && snapshot <= live
    requires Resurrects(rest, m, snapshot, live, v, level, k, marker, stale)
    ensures ReadIs(With(rest, Kept(m, |m|, snapshot, v, level)), k, live, Some(stale.value))
    ensures !ReadIs(With(rest, m), k, live, Some(stale.value))
  {
    var before, after := With(rest, m), With(rest, Kept(m, |m|, snapshot, v, level));
    var i :| 0 <= i < |m| && m[i] == marker;
    KeptIsSubset(m, snapshot, v, level);
    SubsetUnique(before, after);
    OnlyRestAnswers(rest, m, i, snapshot, v, level, k, live);
    assert IsNewest(after, k, live, stale);
    ReadAnswer(after, k, live, stale, Some(stale.value));
    ReadAnswer(before, k, live, marker, Some(stale.value));
  }

  /** A compaction started at `snapshot` keeps every read at `live` or later, wherever the oldest
      live snapshot has moved to since, if and only if no dropped marker was the only thing that
      hid a value left behind in another table from the reads at `live`. */
  lemma {:induction false} CompactionPreservesReads(rest: iset<Entry>, m: seq<Entry>, snapshot: nat, live: nat, v: Version, level: nat)
    requires SortedEntries(m) && |v.files| == NUM_LEVELS && snapshot <= live
    requires UniqueSequences(With(rest, m))
    ensures SameReads(With(rest, m), With(rest, Kept(m, |m|, snapshot, v, level)), live) <==>
            !SomeResurrection(rest, m, snapshot, live, v, level)
  {
    var before, after := With(rest, m), With(rest, Kept(m, |m|, snapshot, v, level));
    if !SomeResurrection(rest, m, snapshot, live, v, level) {
      forall k, s, r | s >= live ensures ReadIs(before, k, s, r) <==> ReadIs(after, k, s, r) {
        ReadSurvives(rest, m, snapshot, live, v, level, k, s, r);
      }
    } else {
      var k, marker, stale :| Resurrects(rest, m, snapshot, live, v, level, k, marker, stale);
      ResurrectionChangesRead(rest, m, snapshot, live, v, level, k, marker, stale);
    }
  }
}
