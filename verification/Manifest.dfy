/** The MANIFEST (db/version_set.cc: LogAndApply, Recover): a log of edits from which recovery
    builds the current version again, whatever byte the log was cut off at. */
module Manifest {
  import opened Coding
  import opened Options
  import opened Crc32c
  import opened Keys
  import opened Store
  import opened VersionBuilder
  import opened LogReader
  import opened LogWriter
  import opened InternalKeyCodec
  import B = BytewiseComparator
  import E = VersionEdits
  import L = LogFormat

  // What the table files hold, by their numbers.
  type Tables = nat -> seq<Entry>

  // Shorter keys are in no edit; the comparator may not be given them.
  function KeyOf(b: Bytes): InternalKey {
    if |b| >= 8 then B.Abs(DecodeKey(b)) else InternalKey(0.0, 0, Deletion)
  }

  function FileOf(f: E.NewFile, tables: Tables): File {
    File(f.number, f.fileSize, KeyOf(f.smallest), KeyOf(f.largest), tables(f.number))
  }

  /** What a record means for the set of tables. */
  function EditOf(c: E.Contents, tables: Tables): VersionEdit {
    VersionEdit(seq(|c.deletedFiles|, i requires 0 <= i < |c.deletedFiles| => (c.deletedFiles[i].level, c.deletedFiles[i].number)),
                seq(|c.newFiles|, i requires 0 <= i < |c.newFiles| => (c.newFiles[i].level, FileOf(c.newFiles[i], tables))))
  }

  function EditsOf(es: seq<E.Contents>, tables: Tables): seq<VersionEdit> {
    seq(|es|, i requires 0 <= i < |es| => EditOf(es[i], tables))
  }

  // ---- What recovery makes of the records ----

  // The comparator that the edit names, if any, is the one in use.
  predicate SameComparator(c: E.Contents, comparator: Bytes) {
    c.comparator.None? || c.comparator.value == comparator
  }

  // The edits of the records, each decoded into a fresh edit; None if one is corrupt or names another comparator.
  function Decoded(records: seq<Bytes>, comparator: Bytes): Option<seq<E.Contents>> {
    if records == [] then Some([])
    else
      match Decoded(records[..|records| - 1], comparator)
      case None => None
      case Some(es) =>
        match E.Decode(E.EMPTY, records[|records| - 1])
        case None => None
        case Some(c) => if SameComparator(c, comparator) then Some(es + [c]) else None
  }

  // The numbers last set by the edits.
  datatype Marks = Marks(log: Option<nat>, prevLog: Option<nat>, nextFile: Option<nat>, lastSequence: Option<nat>)

  const NO_MARKS := Marks(None, None, None, None)

  function Latest(before: Option<nat>, o: Option<nat>): Option<nat> {
    if o.Some? then o else before
  }

  function Marked(m: Marks, c: E.Contents): Marks {
    Marks(Latest(m.log, c.logNumber), Latest(m.prevLog, c.prevLogNumber),
          Latest(m.nextFile, c.nextFileNumber), Latest(m.lastSequence, c.lastSequence))
  }

  function MarksOf(es: seq<E.Contents>): Marks {
    if es == [] then NO_MARKS else Marked(MarksOf(es[..|es| - 1]), es[|es| - 1])
  }

  // LogAndApply sets all of these.
  predicate Numbered(c: E.Contents) {
    c.logNumber.Some? && c.nextFileNumber.Some? && c.lastSequence.Some?
  }

  predicate HasMeta(m: Marks) {
    m.nextFile.Some? && m.log.Some? && m.lastSequence.Some?
  }

  predicate Recoverable(all: L.Replay, comparator: Bytes) {
    && all.dropped == []
    && var es := Decoded(all.records, comparator);
       es.Some? && HasMeta(MarksOf(es.value))
  }

  function NoTables(): (v: Version)
    ensures |v.files| == NUM_LEVELS && forall l :: 0 <= l < NUM_LEVELS ==> v.files[l] == []
  {
    Version(seq(NUM_LEVELS, _ => []))
  }

  // ---- Levels ----

  predicate LevelsOk(c: E.Contents) {
    && (forall i :: 0 <= i < |c.deletedFiles| ==> c.deletedFiles[i].level < NUM_LEVELS)
    && (forall i :: 0 <= i < |c.newFiles| ==> c.newFiles[i].level < NUM_LEVELS)
  }

  lemma {:induction false} InsertedLevels(s: seq<E.DeletedFile>, x: E.DeletedFile)
    requires x.level < NUM_LEVELS && forall i :: 0 <= i < |s| ==> s[i].level < NUM_LEVELS
    ensures forall i :: 0 <= i < |E.Inserted(s, x)| ==> E.Inserted(s, x)[i].level < NUM_LEVELS
  {
    if s != [] && !E.Before(x, s[0]) && s[0] != x {
      InsertedLevels(s[1..], x);
    }
  }

  // Whatever is decoded has only levels that exist.
  lemma {:induction false} DecodedLevels(c: E.Contents, s: Bytes)
    requires LevelsOk(c) && E.Decode(c, s).Some?
    ensures LevelsOk(E.Decode(c, s).value)
    decreases |s|
  {
    hide E.GetTag, E.Take, LevelsOk;
    var tag := E.GetTag(s);
    if tag.Good? {
      var item := E.GetItem(tag.value, tag.rest);
      if item.Good? {
        TakenLevels(c, tag.value, tag.rest);
        DecodedLevels(E.Take(c, item.value), item.rest);
      }
    }
  }

  lemma {:induction false} TakenLevels(c: E.Contents, tag: nat, s: Bytes)
    requires LevelsOk(c) && E.GetItem(tag, s).Good?
    ensures LevelsOk(E.Take(c, E.GetItem(tag, s).value))
  {
    hide E.GetNumber, E.GetSlice, E.GetTag;
    var item := E.GetItem(tag, s).value;
    if item.Deleted? {
      InsertedLevels(c.deletedFiles, item.file);
    }
  }

  // ---- What is in the file ----

  function Records(es: seq<E.Contents>): seq<Bytes> {
    seq(|es|, i requires 0 <= i < |es| => E.Encode(E.Items(es[i])))
  }

  // The edit adds no number to a level that an earlier one has added there.
  ghost predicate Fresh(es: seq<E.Contents>, c: E.Contents, tables: Tables) {
    forall l :: 0 <= l < NUM_LEVELS ==> FreshAt([], l, EditsOf(es, tables), EditOf(c, tables))
  }

  ghost predicate AllEditsFresh(es: seq<E.Contents>, tables: Tables) {
    forall l :: 0 <= l < NUM_LEVELS ==> AllFresh([], l, EditsOf(es, tables))
  }

  ghost predicate OneByOne(es: seq<E.Contents>, versions: seq<Version>, tables: Tables) {
    && |versions| == |es| + 1 && versions[0] == NoTables()
    && forall i :: 0 <= i < |es| ==> IsReplay(versions[i], [EditOf(es[i], tables)], versions[i + 1])
  }

  /** The file is the log of the edits es, and versions[i] is what was current after the first i. */
  ghost predicate IsLog(file: Bytes, crc: Checksum, tables: Tables, es: seq<E.Contents>, versions: seq<Version>) {
    && file == L.EncodeAll(crc, 0, Records(es))
    && (forall i :: 0 <= i < |es| ==> E.ContentsOk(es[i]))
    && AllEditsFresh(es, tables) && OneByOne(es, versions, tables)
  }

  lemma {:induction false} FreshSame(es: seq<E.Contents>, c: E.Contents, c': E.Contents, tables: Tables)
    requires c'.deletedFiles == c.deletedFiles && c'.newFiles == c.newFiles
    ensures EditOf(c', tables) == EditOf(c, tables)
    ensures Fresh(es, c, tables) ==> Fresh(es, c', tables)
    ensures LevelsOk(c) ==> ValidEdit(EditOf(c', tables))
  {
    assert EditOf(c', tables) == EditOf(c, tables);
  }

  // A MANIFEST that has just been created.
  lemma {:induction false} EmptyLog(crc: Checksum, tables: Tables)
    ensures IsLog([], crc, tables, [], [NoTables()])
  {
  }

  // One level of the versions.
  function LevelOf(versions: seq<Version>, l: nat): seq<seq<File>>
    requires forall i :: 0 <= i < |versions| ==> l < |versions[i].files|
  {
    seq(|versions|, i requires 0 <= i < |versions| => versions[i].files[l])
  }

  lemma {:induction false} LevelOneByOne(es: seq<E.Contents>, versions: seq<Version>, tables: Tables, l: nat)
    requires OneByOne(es, versions, tables) && l < NUM_LEVELS
    ensures forall i :: 0 <= i < |versions| ==> |versions[i].files| == NUM_LEVELS
    ensures InstalledOneByOne(LevelOf(versions, l), [], l, EditsOf(es, tables))
  {
    hide IsReplayedLevel, EditOf;
    forall i | 0 <= i < |versions| ensures |versions[i].files| == NUM_LEVELS {
      if i > 0 {
        assert IsReplay(versions[i - 1], [EditOf(es[i - 1], tables)], versions[i]);
      }
    }
    forall i | 0 <= i < |es| ensures IsReplayedLevel(LevelOf(versions, l)[i], l, [EditsOf(es, tables)[i]], LevelOf(versions, l)[i + 1]) {
      assert IsReplay(versions[i], [EditOf(es[i], tables)], versions[i + 1]);
    }
  }

  lemma {:induction false} CanApply(file: Bytes, crc: Checksum, tables: Tables, es: seq<E.Contents>, versions: seq<Version>, c: E.Contents)
    requires IsLog(file, crc, tables, es, versions) && Fresh(es, c, tables)
    ensures
      var v := versions[|es|];
      && |v.files| == NUM_LEVELS
      && forall l :: 0 <= l < NUM_LEVELS ==>
           SortedBySmallest(v.files[l]) && DisjointNumbers(v.files[l], AfterEdits(NOTHING, l, [EditOf(c, tables)]).added)
  {
    hide SortedBySmallest, DisjointNumbers, AfterEdits, EditOf, L.EncodeAll, Records, FreshAt, AllFresh, InstalledOneByOne, IsReplay;
    var v := versions[|es|];
    LevelOneByOne(es, versions, tables, 0);
    forall l | 0 <= l < NUM_LEVELS
      ensures SortedBySmallest(v.files[l]) && DisjointNumbers(v.files[l], AfterEdits(NOTHING, l, [EditOf(c, tables)]).added)
    {
      LevelOneByOne(es, versions, tables, l);
      CanApplyLevel(LevelOf(versions, l), l, EditsOf(es, tables), EditOf(c, tables));
    }
  }

  lemma {:induction false} CanApplyLevel(levels: seq<seq<File>>, l: nat, edits: seq<VersionEdit>, e: VersionEdit)
    requires InstalledOneByOne(levels, [], l, edits) && AllFresh([], l, edits) && FreshAt([], l, edits, e)
    ensures SortedBySmallest(levels[|edits|]) && DisjointNumbers(levels[|edits|], AfterEdits(NOTHING, l, [e]).added)
  {
    var added := AfterEdits(NOTHING, l, edits).added;
    assert [] + added == added;
    assert edits[..|edits|] == edits;
    ReplayMembers(levels, [], l, edits, |edits|);
    AddsNewWeaker(added, [], l, e.added);
    DeletesKeepAdded(NOTHING, l, e.deleted);
    AddsMembers(AfterDeletes(NOTHING, l, e.deleted), l, e.added);
    AddedAreNew(added, l, e.added);
    var one := [e];
    assert one[..|one| - 1] == [] && AfterEdits(NOTHING, l, one) == AfterEdit(NOTHING, l, e);
    var all := AfterEdits(NOTHING, l, one).added;
    assert forall f :: f in all ==> f in AddedFiles(l, e.added) && f.number in AddedNumbers(l, e.added);
    assert forall f :: f in levels[|edits|] ==> f in added && f.number in Numbers(added);
    if edits != [] {
      assert IsReplayedLevel(levels[|edits| - 1], l, [edits[|edits| - 1]], levels[|edits|]);
    }
  }

  lemma {:induction false} EncodedLast(crc: Checksum, p: nat, records: seq<Bytes>, record: Bytes)
    ensures
      var before := L.EncodeAll(crc, p, records);
      L.EncodeAll(crc, p, records + [record]) == before + L.Encode(crc, p + |before|, record, true)
    decreases |records|
  {
    hide L.Encode;
    var all := records + [record];
    if records == [] {
      assert all[1..] == [];
    } else {
      assert all[1..] == records[1..] + [record];
      EncodedLast(crc, p + |L.Encode(crc, p, records[0], true)|, records[1..], record);
    }
  }

  // One record more.
  lemma {:induction false} LogGrows(file: Bytes, crc: Checksum, tables: Tables, es: seq<E.Contents>, versions: seq<Version>, c: E.Contents, v: Version)
    requires IsLog(file, crc, tables, es, versions) && E.ContentsOk(c) && Fresh(es, c, tables)
    requires IsReplay(versions[|es|], [EditOf(c, tables)], v)
    ensures IsLog(file + L.Encode(crc, |file|, E.Encode(E.Items(c)), true), crc, tables, es + [c], versions + [v])
  {
    hide L.Encode, L.EncodeAll, E.Encode, E.Items, EditOf, Fresh, E.ContentsOk, IsReplay, AllEditsFresh;
    assert Records(es + [c]) == Records(es) + [E.Encode(E.Items(c))];
    EncodedLast(crc, 0, Records(es), E.Encode(E.Items(c)));
    StaysFresh(es, c, tables);
    OneMore(es, versions, tables, c, v);
  }

  lemma {:induction false} StaysFresh(es: seq<E.Contents>, c: E.Contents, tables: Tables)
    ensures AllEditsFresh(es + [c], tables) <==> AllEditsFresh(es, tables) && Fresh(es, c, tables)
  {
    hide EditOf, FreshAt;
    EditsSnoc(es, c, tables);
    var edits := EditsOf(es + [c], tables);
    assert edits[..|edits| - 1] == EditsOf(es, tables);
    assert forall l: nat :: AllFresh([], l, edits) <==> AllFresh([], l, EditsOf(es, tables)) && FreshAt([], l, EditsOf(es, tables), EditOf(c, tables));
  }

  lemma {:induction false} OneMore(es: seq<E.Contents>, versions: seq<Version>, tables: Tables, c: E.Contents, v: Version)
    requires |versions| == |es| + 1
    ensures OneByOne(es + [c], versions + [v], tables) <==> OneByOne(es, versions, tables) && IsReplay(versions[|es|], [EditOf(c, tables)], v)
  {
    hide EditOf, IsReplay;
    var es', versions' := es + [c], versions + [v];
    if OneByOne(es', versions', tables) {
      forall i | 0 <= i < |es| ensures IsReplay(versions[i], [EditOf(es[i], tables)], versions[i + 1]) {
        assert IsReplay(versions'[i], [EditOf(es'[i], tables)], versions'[i + 1]);
      }
      assert IsReplay(versions'[|es|], [EditOf(es'[|es|], tables)], versions'[|es| + 1]);
      assert versions'[0] == versions[0];
    }
    if OneByOne(es, versions, tables) && IsReplay(versions[|es|], [EditOf(c, tables)], v) {
      forall i | 0 <= i < |es'| ensures IsReplay(versions'[i], [EditOf(es'[i], tables)], versions'[i + 1]) {
        if i < |es| {
          assert IsReplay(versions[i], [EditOf(es[i], tables)], versions[i + 1]);
        }
      }
      assert versions'[0] == versions[0];
    }
  }

  // ---- Recovery ----

  lemma {:induction false} RecordsDecode(es: seq<E.Contents>, comparator: Bytes)
    requires forall i :: 0 <= i < |es| ==> E.ContentsOk(es[i]) && SameComparator(es[i], comparator)
    ensures Decoded(Records(es), comparator) == Some(es)
  {
    hide E.Encode, E.Items, E.Decode, E.ContentsOk;
    if es != [] {
      var init, c := es[..|es| - 1], es[|es| - 1];
      RecordsDecode(init, comparator);
      assert Records(es)[..|es| - 1] == Records(init);
      E.EditRoundTrip(c);
      assert es == init + [c];
    }
  }

  // The levels of the replay are those of the version that was current.
  lemma {:induction false} ReplayedVersion(es: seq<E.Contents>, versions: seq<Version>, tables: Tables, v: Version)
    requires AllEditsFresh(es, tables) && OneByOne(es, versions, tables)
    requires IsReplay(NoTables(), EditsOf(es, tables), v)
    ensures v == versions[|es|]
  {
    hide EditOf, AllFresh, IsReplayedLevel, InstalledOneByOne;
    LevelOneByOne(es, versions, tables, 0);
    var w := versions[|es|];
    forall l | 0 <= l < NUM_LEVELS ensures v.files[l] == w.files[l] {
      LevelOneByOne(es, versions, tables, l);
      assert IsReplayedLevel(NoTables().files[l], l, EditsOf(es, tables), v.files[l]);
      ReplayIsLastInstalled(LevelOf(versions, l), [], l, EditsOf(es, tables), v.files[l]);
    }
    assert v.files == w.files;
  }

  lemma {:induction false} Shorter(es: seq<E.Contents>, versions: seq<Version>, tables: Tables, k: nat)
    requires AllEditsFresh(es, tables) && OneByOne(es, versions, tables) && k <= |es| && |versions| == |es| + 1
    ensures AllEditsFresh(es[..k], tables) && OneByOne(es[..k], versions[..k + 1], tables)
    decreases |es|
  {
    hide AllEditsFresh, OneByOne;
    if k == |es| {
      assert |versions| == |es| + 1 ==> versions[..k + 1] == versions;
      assert es[..k] == es;
    } else {
      var init, c := es[..|es| - 1], es[|es| - 1];
      assert es == init + [c] && versions == versions[..|es|] + [versions[|es|]];
      StaysFresh(init, c, tables);
      OneMore(init, versions[..|es|], tables, c, versions[|es|]);
      Shorter(init, versions[..|es|], tables, k);
      assert init[..k] == es[..k] && versions[..|es|][..k + 1] == versions[..k + 1];
    }
  }

  lemma {:induction false} LastMarks(es: seq<E.Contents>)
    requires es != [] && Numbered(es[|es| - 1])
    ensures HasMeta(MarksOf(es))
  {
  }

  /** Wherever the MANIFEST was cut off, recovery decodes the edits whose records are complete, and
      builds the version that was current after the last of them. */
  lemma {:induction false} CrashRecovery(file: Bytes, crc: Checksum, tables: Tables, es: seq<E.Contents>, versions: seq<Version>,
                                         comparator: Bytes, n: nat) returns (k: nat)
    requires IsLog(file, crc, tables, es, versions) && n <= |file|
    requires forall i :: 0 <= i < |es| ==> SameComparator(es[i], comparator)
    ensures k == L.Complete(crc, 0, Records(es), n) <= |es|
    ensures
      var all := L.ReadAll(crc, file[..n], 0);
      && all.dropped == [] && Decoded(all.records, comparator) == Some(es[..k])
      && (Recoverable(all, comparator) <==> HasMeta(MarksOf(es[..k])))
      && (k > 0 && Numbered(es[k - 1]) ==> Recoverable(all, comparator))
    ensures forall v :: IsReplay(NoTables(), EditsOf(es[..k], tables), v) ==> v == versions[k]
  {
    hide L.EncodeAll, L.ReadAll, L.Complete, E.ContentsOk, E.Encode, E.Items, Decoded, MarksOf, IsReplay, EditsOf, AllEditsFresh;
    assert |Records(es)| == |es|;
    k := L.Complete(crc, 0, Records(es), n);
    L.CrashPrefix(crc, Records(es), n);
    assert Records(es)[..k] == Records(es[..k]);
    RecordsDecode(es[..k], comparator);
    if k > 0 && Numbered(es[k - 1]) {
      LastMarks(es[..k]);
    }
    Shorter(es, versions, tables, k);
    forall v | IsReplay(NoTables(), EditsOf(es[..k], tables), v) ensures v == versions[k] {
      ReplayedVersion(es[..k], versions[..k + 1], tables, v);
    }
  }

  // ---- The calls of LogAndApply ----

  // The edit as the caller gave it, and the two numbers of the VersionSet at the call.
  datatype Call = Call(asked: E.Contents, nextFileNumber: nat, lastSequence: nat)

  // The log number that was set last, by the calls or before them.
  function LastLog(calls: seq<Call>, before: nat): nat {
    if calls == [] then before
    else
      var o := calls[|calls| - 1].asked.logNumber;
      if o.Some? then o.value else LastLog(calls[..|calls| - 1], before)
  }

  function LastPrevLog(calls: seq<Call>, before: nat): nat {
    if calls == [] then before
    else
      var o := calls[|calls| - 1].asked.prevLogNumber;
      if o.Some? then o.value else LastPrevLog(calls[..|calls| - 1], before)
  }

  // What the last of the calls writes.
  predicate WrittenFor(c: E.Contents, calls: seq<Call>, log: nat, prevLog: nat)
    requires calls != []
  {
    var last := calls[|calls| - 1];
    && c.logNumber == Some(LastLog(calls, log)) && c.prevLogNumber == Some(LastPrevLog(calls, prevLog))
    && c.nextFileNumber == Some(last.nextFileNumber) && c.lastSequence == Some(last.lastSequence)
    && c.comparator == last.asked.comparator && c.compactPointers == last.asked.compactPointers
    && c.deletedFiles == last.asked.deletedFiles && c.newFiles == last.asked.newFiles
  }

  /** The edits es are what the calls wrote, when the log numbers were `log` and `prevLog` before them. */
  ghost predicate Wrote(calls: seq<Call>, es: seq<E.Contents>, log: nat, prevLog: nat) {
    |calls| == |es| && forall i :: 0 <= i < |es| ==> WrittenFor(es[i], calls[..i + 1], log, prevLog)
  }

  lemma {:induction false} WroteOne(calls: seq<Call>, es: seq<E.Contents>, log: nat, prevLog: nat, call: Call, c: E.Contents)
    requires Wrote(calls, es, log, prevLog) && WrittenFor(c, calls + [call], log, prevLog)
    ensures Wrote(calls + [call], es + [c], log, prevLog)
  {
    hide WrittenFor;
    var calls', es' := calls + [call], es + [c];
    forall i | 0 <= i < |es'| ensures WrittenFor(es'[i], calls'[..i + 1], log, prevLog) {
      if i < |es| {
        assert calls'[..i + 1] == calls[..i + 1];
        assert WrittenFor(es[i], calls[..i + 1], log, prevLog);
      } else {
        assert calls'[..i + 1] == calls';
      }
    }
  }

  // So it is for the edits that survive a crash.
  lemma {:induction false} WrotePrefix(calls: seq<Call>, es: seq<E.Contents>, log: nat, prevLog: nat, k: nat)
    requires Wrote(calls, es, log, prevLog) && k <= |es|
    ensures Wrote(calls[..k], es[..k], log, prevLog)
  {
    hide WrittenFor;
    forall i | 0 <= i < k ensures WrittenFor(es[..k][i], calls[..k][..i + 1], log, prevLog) {
      assert calls[..k][..i + 1] == calls[..i + 1];
      assert WrittenFor(es[i], calls[..i + 1], log, prevLog);
    }
  }

  // ---- VersionSet ----

  class VersionSet {
    const comparator: Bytes
    const tables: Tables
    var current: Version
    var nextFileNumber: nat
    var manifestFileNumber: nat
    var lastSequence: nat
    var logNumber: nat
    var prevLogNumber: nat

    constructor (comparator: Bytes, tables: Tables)
      ensures this.comparator == comparator && this.tables == tables && current == NoTables()
    {
      this.comparator, this.tables := comparator, tables;
      current := NoTables();
      nextFileNumber, manifestFileNumber, lastSequence, logNumber, prevLogNumber := 2, 0, 0, 0, 0;
    }

    method MarkFileNumberUsed(number: nat)
      modifies this`nextFileNumber
      ensures nextFileNumber > number && nextFileNumber >= old(nextFileNumber)
    {
      if nextFileNumber <= number {
        nextFileNumber := number + 1;
      }
    }

    // The edit with the numbers that LogAndApply fills in.
    function Completed(c: E.Contents): E.Contents
      reads this
    {
      c.(logNumber := if c.logNumber.Some? then c.logNumber else Some(logNumber),
         prevLogNumber := if c.prevLogNumber.Some? then c.prevLogNumber else Some(prevLogNumber),
         nextFileNumber := Some(nextFileNumber), lastSequence := Some(lastSequence))
    }

    /** LogAndApply, onto a MANIFEST that is open. `synced` says whether the record's Sync succeeds;
        if not, the record is in the file, but the version `v` is not installed. */
    method LogAndApply(edit: E.VersionEdit, log: Writer, synced: bool, ghost es: seq<E.Contents>, ghost versions: seq<Version>,
                       ghost calls: seq<Call>, ghost log0: nat, ghost prevLog0: nat)
      returns (ok: bool, ghost v: Version)
      requires log.Valid() && IsLog(log.dest.contents, log.crc, tables, es, versions) && current == versions[|es|]
      requires edit.logNumber.Some? ==> logNumber <= edit.logNumber.value < nextFileNumber
      requires LevelsOk(edit.Value()) && E.ContentsOk(Completed(edit.Value())) && Fresh(es, edit.Value(), tables)
      requires Wrote(calls, es, log0, prevLog0) && logNumber == LastLog(calls, log0) && prevLogNumber == LastPrevLog(calls, prevLog0)
      modifies this, edit, log, log.dest
      ensures log.Valid() && ok == synced
      ensures
        var calls' := calls + [old(Call(edit.Value(), nextFileNumber, lastSequence))];
        && Wrote(calls', es + [edit.Value()], log0, prevLog0)
        && (ok ==> logNumber == LastLog(calls', log0) && prevLogNumber == LastPrevLog(calls', prevLog0))
      ensures !ok ==> logNumber == old(logNumber) && prevLogNumber == old(prevLogNumber)
      ensures IsLog(log.dest.contents, log.crc, tables, es + [edit.Value()], versions + [v])
      ensures current == if ok then v else old(current)
      ensures old(edit.logNumber).None? ==> logNumber == old(logNumber)
      ensures old(edit.prevLogNumber).None? ==> prevLogNumber == old(prevLogNumber)
      ensures ok && old(edit.logNumber).Some? ==> logNumber == old(edit.logNumber).value
      ensures ok && old(edit.prevLogNumber).Some? ==> prevLogNumber == old(edit.prevLogNumber).value
      ensures nextFileNumber == old(nextFileNumber) && lastSequence == old(lastSequence)
    {
      hide IsLog, Fresh, E.ContentsOk, E.Encode, E.Items, L.Encode, IsReplay, EditOf, LevelsOk, Wrote;
      ghost var call := Call(edit.Value(), nextFileNumber, lastSequence);
      FillIn(edit);
      ghost var c := edit.Value();
      assert (calls + [call])[..|calls|] == calls;
      WroteOne(calls, es, log0, prevLog0, call, c);
      FreshSame(es, old(edit.Value()), c, tables);
      var v' := Build(EditOf(edit.Value(), tables), log.dest.contents, log.crc, es, versions, c);
      v := v';
      LogGrows(log.dest.contents, log.crc, tables, es, versions, c, v);
      var record := edit.EncodeTo([]);
      assert record == E.Encode(E.Items(c));
      log.AddRecord(record);
      ok := synced;
      if ok {
        current := v';
        logNumber := edit.logNumber.value;
        prevLogNumber := edit.prevLogNumber.value;
      }
    }

    // The numbers that the edit does not have, and the two that it always gets.
    method FillIn(edit: E.VersionEdit)
      modifies edit
      ensures edit.Value() == Completed(old(edit.Value()))
    {
      if edit.logNumber.None? {
        edit.logNumber := Some(logNumber);
      }
      if edit.prevLogNumber.None? {
        edit.prevLogNumber := Some(prevLogNumber);
      }
      edit.nextFileNumber := Some(nextFileNumber);
      edit.lastSequence := Some(lastSequence);
    }

    method Build(e: VersionEdit, ghost file: Bytes, ghost crc: Checksum, ghost es: seq<E.Contents>, ghost versions: seq<Version>, ghost c: E.Contents)
      returns (v: Version)
      requires IsLog(file, crc, tables, es, versions) && current == versions[|es|]
      requires Fresh(es, c, tables) && e == EditOf(c, tables) && ValidEdit(e)
      ensures IsReplay(current, [e], v)
    {
      hide IsLog, Fresh, EditOf, AfterEdits, IsReplay, DisjointNumbers, SortedBySmallest;
      CanApply(file, crc, tables, es, versions, c);
      var builder := new Builder(current);
      builder.Apply(e);
      assert builder.edits == [e];
      v := builder.SaveTo();
    }

    /** Recover, from the MANIFEST that CURRENT names. */
    method Recover(reader: Reader) returns (ok: bool)
      requires reader.Valid() && reader.dropped == [] && current == NoTables()
      modifies this, reader, reader.file
      ensures
        var all := old(L.ReadAll(reader.crc, reader.file.contents, reader.Position()));
        && (ok <==> Recoverable(all, comparator))
        && (ok ==> Recovered(Decoded(all.records, comparator).value))
      ensures !ok ==> current == NoTables()
    {
      hide L.ReadAll, Decoded, EditsOf, MarksOf, IsReplay, Marked;
      var builder := new Builder(current);
      ghost var es;
      var m;
      ok, m, es := ReadEdits(reader, builder);
      if ok {
        var prevLog := if m.prevLog.Some? then m.prevLog.value else 0;
        ok := m.nextFile.Some? && m.log.Some? && m.lastSequence.Some?;
        MarkFileNumberUsed(prevLog);
        MarkFileNumberUsed(if m.log.Some? then m.log.value else 0);
        if ok {
          NoTablesDisjoint(builder.edits);
          current := builder.SaveTo();
          manifestFileNumber := m.nextFile.value;
          nextFileNumber := m.nextFile.value + 1;
          lastSequence := m.lastSequence.value;
          logNumber := m.log.value;
          prevLogNumber := prevLog;
        }
      }
    }

    // The state is that after the edits.
    ghost predicate Recovered(es: seq<E.Contents>)
      reads this
    {
      var m := MarksOf(es);
      && HasMeta(m) && IsReplay(NoTables(), EditsOf(es, tables), current)
      && lastSequence == m.lastSequence.value && logNumber == m.log.value
      && manifestFileNumber == m.nextFile.value && nextFileNumber == m.nextFile.value + 1
      && prevLogNumber == if m.prevLog.Some? then m.prevLog.value else 0
    }

    /** After recovery from the edits es the state is that of the last one: the version installed
        with it, and its numbers. */
    lemma {:induction false} RecoveredState(es: seq<E.Contents>, versions: seq<Version>)
      requires Recovered(es) && AllEditsFresh(es, tables) && OneByOne(es, versions, tables)
      requires es != [] && Numbered(es[|es| - 1])
      ensures current == versions[|es|]
      ensures
        var last := es[|es| - 1];
        && logNumber == last.logNumber.value && lastSequence == last.lastSequence.value
        && nextFileNumber == last.nextFileNumber.value + 1
        && (last.prevLogNumber.Some? ==> prevLogNumber == last.prevLogNumber.value)
    {
      hide AllEditsFresh, OneByOne, IsReplay, EditsOf;
      ReplayedVersion(es, versions, tables, current);
    }

    /** The recovered log numbers are those that a caller of LogAndApply set last, and the other two
        those of the last call. */
    lemma {:induction false} RecoveredNumbers(es: seq<E.Contents>, calls: seq<Call>, log: nat, prevLog: nat)
      requires Recovered(es) && Wrote(calls, es, log, prevLog) && es != []
      ensures logNumber == LastLog(calls, log) && prevLogNumber == LastPrevLog(calls, prevLog)
      ensures lastSequence == calls[|calls| - 1].lastSequence && nextFileNumber == calls[|calls| - 1].nextFileNumber + 1
    {
      hide IsReplay, EditsOf;
      assert calls[..|es| - 1 + 1] == calls;
      assert WrittenFor(es[|es| - 1], calls[..|es| - 1 + 1], log, prevLog);
    }

    // The loop of Recover; `ok` is the status that the reader's reporter also sets.
    method ReadEdits(reader: Reader, builder: Builder) returns (ok: bool, m: Marks, ghost es: seq<E.Contents>)
      requires reader.Valid() && reader.dropped == []
      requires builder.Valid() && builder.edits == []
      modifies reader, reader.file, builder
      ensures builder.Valid()
      ensures
        var all := old(L.ReadAll(reader.crc, reader.file.contents, reader.Position()));
        && (ok <==> all.dropped == [] && Decoded(all.records, comparator).Some?)
        && (ok ==> Decoded(all.records, comparator) == Some(es) && builder.edits == EditsOf(es, tables) && m == MarksOf(es))
    {
      hide L.ReadLogical, L.ReadAll, Decoded, EditsOf, MarksOf, Marked, Then;
      ghost var all := L.ReadAll(reader.crc, reader.file.contents, reader.Position());
      NothingDecoded(comparator, tables);
      ghost var seen: seq<Bytes>, rest: L.Replay := [], all;
      ThenNothing(all);
      es, m, ok := [], NO_MARKS, true;
      var more := true;
      while more
        invariant reader.Valid() && builder.Valid()
        invariant all == Then(L.Replay(seen, reader.dropped), rest)
        invariant more ==> rest == L.ReadAll(reader.crc, reader.file.contents, reader.Position())
        invariant !more && ok ==> rest == L.Replay([], [])
        invariant ok ==> reader.dropped == [] && Decoded(seen, comparator) == Some(es)
        invariant ok ==> builder.edits == EditsOf(es, tables) && m == MarksOf(es)
        invariant !ok ==> reader.dropped != [] || Decoded(seen, comparator).None?
        decreases more, |reader.file.contents| - reader.Position()
      {
        ReadOne(L.Replay(seen, reader.dropped), reader.crc, reader.file.contents, reader.Position());
        var record := reader.ReadRecord();
        ok := ok && reader.dropped == [];
        if record.None? {
          more, rest := false, L.Replay([], []);
        } else {
          rest := L.ReadAll(reader.crc, reader.file.contents, reader.Position());
          DecodedSnoc(seen, record.value, comparator);
          seen := seen + [record.value];
          if ok {
            ghost var c;
            ok, m, c := TakeRecord(record.value, builder, m);
            EditsSnoc(es, c, tables);
            es := es + [c];
          } else {
            more := false;
          }
        }
      }
      AllSeen(seen, reader.dropped, rest, comparator);
    }

    // One turn of the loop.
    method TakeRecord(record: Bytes, builder: Builder, before: Marks) returns (ok: bool, m: Marks, ghost c: E.Contents)
      requires builder.Valid()
      modifies builder
      ensures builder.Valid()
      ensures ok <==> E.Decode(E.EMPTY, record).Some? && SameComparator(E.Decode(E.EMPTY, record).value, comparator)
      ensures ok ==> E.Decode(E.EMPTY, record) == Some(c)
      ensures ok ==> builder.edits == old(builder.edits) + [EditOf(c, tables)] && m == Marked(before, c)
    {
      hide E.Decode, EditOf;
      var edit := new E.VersionEdit();
      ok := edit.DecodeFrom(record);
      c := edit.Value();
      if ok && edit.comparator.Some? && edit.comparator.value != comparator {
        ok := false;
      }
      if ok {
        DecodedEdit(record, tables);
        var e := EditOf(edit.Value(), tables);
        builder.Apply(e);
      }
      m := Marks(Latest(before.log, edit.logNumber), Latest(before.prevLog, edit.prevLogNumber),
                 Latest(before.nextFile, edit.nextFileNumber), Latest(before.lastSequence, edit.lastSequence));
    }
  }

  lemma {:induction false} NoTablesDisjoint(edits: seq<VersionEdit>)
    ensures forall l :: 0 <= l < NUM_LEVELS ==> DisjointNumbers(NoTables().files[l], AfterEdits(NOTHING, l, edits).added)
  {
  }

  lemma {:induction false} NothingDecoded(comparator: Bytes, tables: Tables)
    ensures Decoded([], comparator) == Some([]) && EditsOf([], tables) == [] && MarksOf([]) == NO_MARKS
  {
  }

  lemma {:induction false} ThenNothing(all: L.Replay)
    ensures Then(L.Replay([], []), all) == all
  {
  }

  lemma {:induction false} DecodedSnoc(records: seq<Bytes>, record: Bytes, comparator: Bytes)
    ensures Decoded(records + [record], comparator) ==
      match Decoded(records, comparator)
      case None => None
      case Some(es) =>
        match E.Decode(E.EMPTY, record)
        case None => None
        case Some(c) => if SameComparator(c, comparator) then Some(es + [c]) else None
  {
    hide E.Decode;
    var all := records + [record];
    assert all[..|all| - 1] == records;
  }

  lemma {:induction false} EditsSnoc(es: seq<E.Contents>, c: E.Contents, tables: Tables)
    ensures EditsOf(es + [c], tables) == EditsOf(es, tables) + [EditOf(c, tables)]
    ensures MarksOf(es + [c]) == Marked(MarksOf(es), c)
  {
    hide EditOf, Marked;
    assert (es + [c])[..|es|] == es;
  }

  // More records do not help once one has failed.
  lemma {:induction false} DecodedPrefix(a: seq<Bytes>, b: seq<Bytes>, comparator: Bytes)
    requires Decoded(a + b, comparator).Some?
    ensures Decoded(a, comparator).Some?
    decreases |b|
  {
    hide E.Decode;
    if b == [] {
      assert a + b == a;
    } else {
      assert (a + b)[..|a + b| - 1] == a + b[..|b| - 1];
      DecodedPrefix(a, b[..|b| - 1], comparator);
    }
  }

  lemma {:induction false} AllSeen(seen: seq<Bytes>, dropped: seq<nat>, rest: L.Replay, comparator: Bytes)
    ensures
      var all := Then(L.Replay(seen, dropped), rest);
      && (rest == L.Replay([], []) ==> all == L.Replay(seen, dropped))
      && (dropped != [] ==> all.dropped != [])
      && (Decoded(seen, comparator).None? ==> Decoded(all.records, comparator).None?)
  {
    hide Decoded;
    assert seen + [] == seen && dropped + [] == dropped;
    if Decoded(seen + rest.records, comparator).Some? {
      DecodedPrefix(seen, rest.records, comparator);
    }
  }

  lemma {:induction false} DecodedEdit(record: Bytes, tables: Tables)
    requires E.Decode(E.EMPTY, record).Some?
    ensures ValidEdit(EditOf(E.Decode(E.EMPTY, record).value, tables))
  {
    hide E.Decode;
    DecodedLevels(E.EMPTY, record);
  }
}
