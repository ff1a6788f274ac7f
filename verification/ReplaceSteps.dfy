/** Replacing the inputs of a compaction by its outputs. */
module ReplaceSteps {
  import opened Keys
  import opened Store
  import opened FileSearch
  import opened InputSelection
  import opened CompactionPick
  import opened CompactionWork
  import opened VersionBuilder
  import opened Lsm
  import opened VersionSteps

  // An entry of a table that is not an input.
  ghost predicate RestEntry(v: Version, c: Pick, e: Entry)
    requires |v.files| == NUM_LEVELS
  {
    exists l :: 0 <= l < NUM_LEVELS && InFiles(Remaining(v, c, l), e)
  }

  ghost predicate NewTables(v: Version, c: Pick, outputs: seq<File>)
    requires |v.files| == NUM_LEVELS
  {
    && ValidFiles(outputs) && DistinctNumbers(outputs) && PairwiseSeparated(outputs)
    && (forall l :: 0 <= l < NUM_LEVELS ==> Numbers(Remaining(v, c, l)) !! Numbers(outputs))
    && (forall e :: InFiles(outputs, e) ==> InFiles(c.in0 + c.in1, e))
  }

  lemma {:induction false} RemainingMembers(v: Version, c: Pick, l: nat)
    requires ClosedInputs(v, c) && l < NUM_LEVELS && DistinctNumbers(v.files[l])
    ensures DistinctNumbers(Remaining(v, c, l))
    ensures SortedBySmallest(v.files[l]) ==> SortedBySmallest(Remaining(v, c, l))
    ensures forall f :: f in Remaining(v, c, l) <==>
              f in v.files[l] && !(l == c.level && f in c.in0) && !(l == c.level + 1 && f in c.in1)
  {
    if l == c.level {
      LiveKeeps(v.files[l], c.in0);
      LiveMembers(v.files[l], Numbers(c.in0));
    } else if l == c.level + 1 {
      LiveKeeps(v.files[l], c.in1);
      LiveMembers(v.files[l], Numbers(c.in1));
    }
  }

  lemma {:induction false} SubsetLevelOk(l: nat, fs: seq<File>, gs: seq<File>)
    requires LevelOk(l, fs) && DistinctNumbers(gs) && SortedBySmallest(gs)
    requires forall g :: g in gs ==> g in fs
    ensures LevelOk(l, gs)
  {
    forall i | 0 <= i < |gs| ensures ValidFile(gs[i]) {
      assert gs[i] in fs;
    }
    if l == 0 {
      forall i, j | 0 <= i < |gs| && 0 <= j < |gs| && gs[i].number > gs[j].number ensures NewerFile(gs[i], gs[j]) {
        assert gs[i] in fs && gs[j] in fs;
        var a :| 0 <= a < |fs| && fs[a] == gs[i];
        var b :| 0 <= b < |fs| && fs[b] == gs[j];
      }
    } else {
      SortedDisjointIsSeparated(fs);
      assert PairwiseSeparated(gs);
      SeparatedIsSortedDisjoint(gs);
    }
  }

  lemma {:induction false} RemainingLevelOk(v: Version, c: Pick, l: nat)
    requires VersionOk(v) && ClosedInputs(v, c) && l < NUM_LEVELS
    ensures LevelOk(l, Remaining(v, c, l))
  {
    assert LevelOk(l, v.files[l]);
    RemainingMembers(v, c, l);
    SubsetLevelOk(l, v.files[l], Remaining(v, c, l));
  }

  lemma {:induction false} ApartFromOutput(f: File, inputs: seq<File>, outputs: seq<File>, o: File)
    requires BeforeAll(f, inputs) || AfterAll(f, inputs)
    requires ValidFiles(inputs) && ValidFiles(outputs) && o in outputs
    requires forall e :: InFiles(outputs, e) ==> InFiles(inputs, e)
    ensures Separated(f, o)
  {
    var first, last := o.entries[0], o.entries[|o.entries| - 1];
    InFilesMember(outputs, o, first);
    InFilesMember(outputs, o, last);
    var i :| 0 <= i < |inputs| && first in inputs[i].entries;
    var j :| 0 <= j < |inputs| && last in inputs[j].entries;
    SmallestToLargest(inputs[i], first);
    SmallestToLargest(inputs[j], last);
    assert inputs[i] in inputs && inputs[j] in inputs;
  }

  lemma {:induction false} SubsetValid(files: seq<File>, sub: seq<File>)
    requires ValidFiles(files) && forall f :: f in sub ==> f in files
    ensures ValidFiles(sub)
  {
    forall i | 0 <= i < |sub| ensures ValidFile(sub[i]) {
      assert sub[i] in files;
    }
  }

  lemma {:induction false} ConcatValid(fs: seq<File>, gs: seq<File>)
    requires ValidFiles(fs) && ValidFiles(gs)
    ensures ValidFiles(fs + gs)
  {
  }

  lemma {:induction false} InputsValid(v: Version, c: Pick)
    requires VersionOk(v) && ClosedInputs(v, c)
    ensures ValidFiles(c.in0 + c.in1) && ValidFiles(c.in0) && ValidFiles(c.in1)
  {
    hide SortedDisjoint, NewerByNumber, SortedBySmallest, DistinctNumbers, LevelOrder, LeftNewer, ParentsApart, Spans, NumbersApart;
    assert LevelOk(c.level, v.files[c.level]) && LevelOk(c.level + 1, v.files[c.level + 1]);
    SubsetValid(v.files[c.level], c.in0);
    SubsetValid(v.files[c.level + 1], c.in1);
    ConcatValid(c.in0, c.in1);
  }

  lemma {:induction false} OutputLevelOk(v: Version, c: Pick, outputs: seq<File>)
    requires VersionOk(v) && ClosedInputs(v, c) && NewTables(v, c, outputs)
    ensures LevelOk(c.level + 1, InsertFiles(Remaining(v, c, c.level + 1), outputs))
    ensures OutputMembers(v, c, outputs)
    ensures Numbers(InsertFiles(Remaining(v, c, c.level + 1), outputs)) == Numbers(Remaining(v, c, c.level + 1)) + Numbers(outputs)
  {
    var l := c.level + 1;
    var rest := Remaining(v, c, l);
    RemainingLevelOk(v, c, l);
    assert Numbers(Remaining(v, c, l)) !! Numbers(outputs);
    InsertFilesMembers(rest, outputs);
    InputsValid(v, c);
    assert LevelOk(l, v.files[l]);
    RemainingMembers(v, c, l);
    OutputsSeparated(v, c, rest, outputs);
    MergedLevelOk(l, rest, outputs, InsertFiles(rest, outputs));
  }

  lemma {:induction false} OutputsSeparated(v: Version, c: Pick, rest: seq<File>, outputs: seq<File>)
    requires ClosedInputs(v, c) && ValidFiles(c.in0 + c.in1) && ValidFiles(outputs)
    requires forall f :: f in rest ==> f in v.files[c.level + 1] && f !in c.in1
    requires forall e :: InFiles(outputs, e) ==> InFiles(c.in0 + c.in1, e)
    ensures forall f, o :: f in rest && o in outputs ==> Separated(f, o)
  {
    forall f, o | f in rest && o in outputs ensures Separated(f, o) {
      ApartFromOutput(f, c.in0 + c.in1, outputs, o);
    }
  }

  lemma {:induction false} MergedLevelOk(l: nat, rest: seq<File>, outputs: seq<File>, r: seq<File>)
    requires l > 0 && LevelOk(l, rest) && ValidFiles(outputs) && PairwiseSeparated(outputs)
    requires forall f, o :: f in rest && o in outputs ==> Separated(f, o)
    requires DistinctNumbers(r) && SortedBySmallest(r) && forall f :: f in r <==> f in rest || f in outputs
    ensures LevelOk(l, r)
  {
    SortedDisjointIsSeparated(rest);
    forall f, g | f in r && g in r && f != g ensures Separated(f, g) {
      assert f in rest && g in outputs ==> Separated(f, g);
      assert g in rest && f in outputs ==> Separated(g, f);
    }
    forall i | 0 <= i < |r| ensures ValidFile(r[i]) {
      assert r[i] in r;
    }
    SeparatedIsSortedDisjoint(r);
  }

  // Where an entry of the new version comes from.
  // The output level holds what remains there and the outputs.
  ghost predicate OutputMembers(v: Version, c: Pick, outputs: seq<File>)
    requires |v.files| == NUM_LEVELS && c.level + 1 < NUM_LEVELS
  {
    var rest := Remaining(v, c, c.level + 1);
    forall f :: f in InsertFiles(rest, outputs) <==> f in rest || f in outputs
  }

  lemma {:induction false} ReplacedEntry(v: Version, c: Pick, outputs: seq<File>, l: nat, e: Entry)
    requires |v.files| == NUM_LEVELS && c.level + 1 < NUM_LEVELS && l < NUM_LEVELS
    requires OutputMembers(v, c, outputs)
    ensures InFiles(VersionAfterReplace(v, c, outputs).files[l], e) <==>
            InFiles(Remaining(v, c, l), e) || (l == c.level + 1 && InFiles(outputs, e))
  {
    if l == c.level + 1 {
      ConcatEntries(Remaining(v, c, l), outputs, InsertFiles(Remaining(v, c, l), outputs), e);
    }
  }

  lemma {:induction false} ConcatEntries(rest: seq<File>, outputs: seq<File>, fs: seq<File>, e: Entry)
    requires forall f :: f in fs <==> f in rest || f in outputs
    ensures InFiles(fs, e) <==> InFiles(rest, e) || InFiles(outputs, e)
  {
    if InFiles(fs, e) {
      var i :| 0 <= i < |fs| && e in fs[i].entries;
      assert fs[i] in fs;
      InFilesMember(if fs[i] in rest then rest else outputs, fs[i], e);
    }
    if InFiles(rest, e) {
      InFilesSubset(rest, fs, e);
    }
    if InFiles(outputs, e) {
      InFilesSubset(outputs, fs, e);
    }
  }

  lemma {:induction false} RemainingEntry(v: Version, c: Pick, l: nat, e: Entry)
    requires |v.files| == NUM_LEVELS && l < NUM_LEVELS && InFiles(Remaining(v, c, l), e)
    ensures InFiles(v.files[l], e)
  {
    LiveMembers(v.files[l], Numbers(c.in0));
    LiveMembers(v.files[l], Numbers(c.in1));
    InFilesSubset(Remaining(v, c, l), v.files[l], e);
  }

  // An input entry and an entry left at level l or above, for the same key.
  lemma {:induction false} RestNewerThanInput(v: Version, c: Pick, l: nat, e: Entry, e': Entry)
    requires VersionOk(v) && ClosedInputs(v, c) && l <= c.level
    requires InFiles(Remaining(v, c, l), e) && InFiles(c.in0 + c.in1, e') && e.key.user == e'.key.user
    ensures e.key.sequence > e'.key.sequence
  {
    assert LevelOk(l, v.files[l]);
    RemainingMembers(v, c, l);
    RemainingEntry(v, c, l, e);
    var i :| 0 <= i < |Remaining(v, c, l)| && e in Remaining(v, c, l)[i].entries;
    var f := Remaining(v, c, l)[i];
    assert f in Remaining(v, c, l);
    var m, g := InputLevel(v, c, e');
    if l == m {
      assert NewerFile(f, g);
    } else {
      assert NewerFiles(v.files[l], v.files[m]);
    }
  }

  // The level an input entry is on, and its table.
  lemma {:induction false} InputLevel(v: Version, c: Pick, e: Entry) returns (m: nat, g: File)
    requires ClosedInputs(v, c) && InFiles(c.in0 + c.in1, e)
    ensures m == c.level || m == c.level + 1
    ensures g in v.files[m] && e in g.entries && InFiles(v.files[m], e)
    ensures if m == c.level then g in c.in0 else g in c.in1
  {
    var inputs := c.in0 + c.in1;
    var i :| 0 <= i < |inputs| && e in inputs[i].entries;
    g := inputs[i];
    if i < |c.in0| {
      assert c.in0[i] in c.in0;
      m := c.level;
    } else {
      assert c.in1[i - |c.in0|] in c.in1;
      m := c.level + 1;
    }
    InFilesMember(v.files[m], g, e);
  }

  lemma {:induction false} ReplaceKeepsLevelOrder(v: Version, c: Pick, outputs: seq<File>)
    requires VersionOk(v) && ClosedInputs(v, c) && NewTables(v, c, outputs)
    ensures LevelOrder(VersionAfterReplace(v, c, outputs))
  {
    var v' := VersionAfterReplace(v, c, outputs);
    OutputLevelOk(v, c, outputs);
    forall l, m | 0 <= l < m < |v'.files| ensures NewerFiles(v'.files[l], v'.files[m]) {
      forall e, e' | InFiles(v'.files[l], e) && InFiles(v'.files[m], e') && e.key.user == e'.key.user
        ensures e.key.sequence > e'.key.sequence
      {
        ReplacedEntry(v, c, outputs, l, e);
        ReplacedEntry(v, c, outputs, m, e');
        ReplacedPair(v, c, outputs, l, m, e, e');
      }
    }
  }

  lemma {:induction false} ReplacedPair(v: Version, c: Pick, outputs: seq<File>, l: nat, m: nat, e: Entry, e': Entry)
    requires VersionOk(v) && ClosedInputs(v, c) && NewTables(v, c, outputs) && l < m < NUM_LEVELS && e.key.user == e'.key.user
    requires InFiles(Remaining(v, c, l), e) || (l == c.level + 1 && InFiles(outputs, e))
    requires InFiles(Remaining(v, c, m), e') || (m == c.level + 1 && InFiles(outputs, e'))
    ensures e.key.sequence > e'.key.sequence
  {
    if InFiles(Remaining(v, c, l), e) {
      RemainingEntry(v, c, l, e);
      if InFiles(Remaining(v, c, m), e') {
        RemainingEntry(v, c, m, e');
        assert NewerFiles(v.files[l], v.files[m]);
      } else {
        RestNewerThanInput(v, c, l, e, e');
      }
    } else {
      RemainingEntry(v, c, m, e');
      var n, _ := InputLevel(v, c, e);
      assert NewerFiles(v.files[n], v.files[m]);
    }
  }

  lemma {:induction false} ReplaceKeepsNumbersApart(v: Version, c: Pick, outputs: seq<File>)
    requires |v.files| == NUM_LEVELS && c.level + 1 < NUM_LEVELS && NumbersApart(v)
    requires forall l :: 0 <= l < NUM_LEVELS ==> Numbers(Remaining(v, c, l)) !! Numbers(outputs)
    requires Numbers(InsertFiles(Remaining(v, c, c.level + 1), outputs)) == Numbers(Remaining(v, c, c.level + 1)) + Numbers(outputs)
    ensures NumbersApart(VersionAfterReplace(v, c, outputs))
  {
    var v' := VersionAfterReplace(v, c, outputs);
    forall l, m | 0 <= l < m < NUM_LEVELS ensures Numbers(v'.files[l]) !! Numbers(v'.files[m]) {
      NumbersStayApart(v, c, outputs, l, m);
    }
  }

  lemma {:induction false} NumbersStayApart(v: Version, c: Pick, outputs: seq<File>, l: nat, m: nat)
    requires |v.files| == NUM_LEVELS && l < m < NUM_LEVELS && Numbers(v.files[l]) !! Numbers(v.files[m])
    requires forall l :: 0 <= l < NUM_LEVELS ==> Numbers(Remaining(v, c, l)) !! Numbers(outputs)
    ensures Numbers(Remaining(v, c, l)) !! Numbers(Remaining(v, c, m))
    ensures Numbers(Remaining(v, c, l)) + Numbers(outputs) !! Numbers(Remaining(v, c, m))
    ensures Numbers(Remaining(v, c, l)) !! Numbers(Remaining(v, c, m)) + Numbers(outputs)
  {
    RemainingNumbers(v, c, l);
    RemainingNumbers(v, c, m);
  }

  lemma {:induction false} RemainingNumbers(v: Version, c: Pick, l: nat)
    requires |v.files| == NUM_LEVELS && l < NUM_LEVELS
    ensures Numbers(Remaining(v, c, l)) <= Numbers(v.files[l])
  {
    if l == c.level {
      LiveMembers(v.files[l], Numbers(c.in0));
    } else if l == c.level + 1 {
      LiveMembers(v.files[l], Numbers(c.in1));
    }
  }

  /** Installing the outputs keeps the order of the version. */
  lemma {:induction false} ReplaceKeepsVersionOk(v: Version, c: Pick, outputs: seq<File>)
    requires VersionOk(v) && ClosedInputs(v, c) && NewTables(v, c, outputs)
    ensures VersionOk(VersionAfterReplace(v, c, outputs))
  {
    hide LevelOk, LevelOrder, LeftNewer, ParentsApart, Spans, OutputMembers, PairwiseSeparated, InsertFiles, Remaining;
    var v' := VersionAfterReplace(v, c, outputs);
    forall l | 0 <= l < NUM_LEVELS ensures LevelOk(l, v'.files[l]) {
      if l == c.level + 1 {
        OutputLevelOk(v, c, outputs);
      } else {
        RemainingLevelOk(v, c, l);
      }
    }
    ReplaceKeepsLevelOrder(v, c, outputs);
    OutputLevelOk(v, c, outputs);
    ReplaceKeepsNumbersApart(v, c, outputs);
  }

  lemma {:induction false} EntriesSplit(v: Version, c: Pick, e: Entry)
    requires VersionOk(v) && ClosedInputs(v, c)
    ensures InVersion(v, e) <==> RestEntry(v, c, e) || InFiles(c.in0 + c.in1, e)
  {
    if InVersion(v, e) {
      var l :| 0 <= l < |v.files| && InFiles(v.files[l], e);
      assert LevelOk(l, v.files[l]);
      RemainingMembers(v, c, l);
      var i :| 0 <= i < |v.files[l]| && e in v.files[l][i].entries;
      var f := v.files[l][i];
      assert f in v.files[l];
      InFilesMember(if f in Remaining(v, c, l) then Remaining(v, c, l) else c.in0 + c.in1, f, e);
    }
    if RestEntry(v, c, e) {
      var l :| 0 <= l < NUM_LEVELS && InFiles(Remaining(v, c, l), e);
      RemainingEntry(v, c, l, e);
    }
    if InFiles(c.in0 + c.in1, e) {
      var m, _ := InputLevel(v, c, e);
    }
  }

  lemma {:induction false} EntriesAfter(v: Version, c: Pick, outputs: seq<File>, e: Entry)
    requires VersionOk(v) && ClosedInputs(v, c) && NewTables(v, c, outputs)
    ensures InVersion(VersionAfterReplace(v, c, outputs), e) <==> RestEntry(v, c, e) || InFiles(outputs, e)
  {
    var v' := VersionAfterReplace(v, c, outputs);
    OutputLevelOk(v, c, outputs);
    if InVersion(v', e) {
      var l :| 0 <= l < |v'.files| && InFiles(v'.files[l], e);
      ReplacedEntry(v, c, outputs, l, e);
    }
    if RestEntry(v, c, e) {
      var l :| 0 <= l < NUM_LEVELS && InFiles(Remaining(v, c, l), e);
      ReplacedEntry(v, c, outputs, l, e);
    }
    ReplacedEntry(v, c, outputs, c.level + 1, e);
  }
}
