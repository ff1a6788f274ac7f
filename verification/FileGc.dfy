/** Which files may be deleted (db_impl.cc, version_set.cc): referenced versions, pending outputs, logs, and what
    the MANIFEST says, while one background thread works among readers and writers.

    A step is what happens in one go under the mutex. */
module FileGc {
  import opened Options

  // The table files of a version, and the references to it; versions without references are not listed.
  datatype Version = Version(tables: set<nat>, refs: nat)

  // logNumber: what the edit sets the log number to. covered: the logs whose contents the added tables hold.
  datatype Edit = Edit(deleted: set<nat>, added: set<nat>, logNumber: nat, covered: set<nat>)

  // What recovery finds: the tables, the logs it does not replay, and those that the tables make up for.
  datatype Image = Image(tables: set<nat>, logNumber: nat, covers: set<nat>)

  // WriteLevel0Table has unlocked the mutex and writes file `number`.
  datatype Flush = NotFlushing | Building(number: nat, base: nat)

  // DoCompactionWork; `ok` until something fails.
  datatype Compaction = NotCompacting | Compacting(base: nat, inputs: set<nat>, outputs: set<nat>, ok: bool)

  // LogAndApply has unlocked the mutex and writes the edit.
  datatype Logging = NotLogging | LoggingFlush(edit: Edit) | LoggingCompaction(edit: Edit) | LoggingMove(edit: Edit)

  datatype State = State(
    tableFiles: set<nat>, logFiles: set<nat>, manifestFiles: set<nat>,
    versions: map<nat, Version>, current: nat, nextVersion: nat, readers: multiset<nat>,
    pendingOutputs: set<nat>, nextFileNumber: nat, logNumber: nat, prevLogNumber: nat, manifestNumber: nat,
    mem: nat, imm: Option<nat>, bgError: bool,
    flush: Flush, compaction: Compaction, logging: Logging,
    images: set<Image>, logsWritten: set<nat>)

  // ---- Versions ----

  function RefVersion(s: State, id: nat): State
    requires id in s.versions
  {
    s.(versions := s.versions[id := s.versions[id].(refs := s.versions[id].refs + 1)])
  }

  // The last reference takes the version off the list.
  function UnrefVersion(s: State, id: nat): State
    requires id in s.versions
  {
    if s.versions[id].refs <= 1 then s.(versions := s.versions - {id})
    else s.(versions := s.versions[id := s.versions[id].(refs := s.versions[id].refs - 1)])
  }

  // AppendVersion
  function AppendVersion(s: State, tables: set<nat>): State
    requires s.current in s.versions
  {
    var t := UnrefVersion(s, s.current);
    t.(versions := t.versions[s.nextVersion := Version(tables, 1)], current := s.nextVersion, nextVersion := s.nextVersion + 1)
  }

  function Applied(e: Edit, tables: set<nat>): set<nat> {
    tables - e.deleted + e.added
  }

  function AppliedImage(e: Edit, i: Image): Image {
    Image(Applied(e, i.tables), e.logNumber, i.covers + e.covered)
  }

  // ---- Garbage collection ----

  // AddLiveFiles
  function LiveTables(s: State): set<nat> {
    set id, n | id in s.versions && n in s.versions[id].tables :: n
  }

  predicate KeepTable(s: State, n: nat) {
    n in s.pendingOutputs || n in LiveTables(s)
  }

  predicate KeepLog(s: State, n: nat) {
    n >= s.logNumber || n == s.prevLogNumber
  }

  /** DeleteObsoleteFiles */
  function DeleteObsoleteFiles(s: State): State {
    if s.bgError then s
    else s.(
        tableFiles := (set n | n in s.tableFiles && KeepTable(s, n)),
        logFiles := (set n | n in s.logFiles && KeepLog(s, n)),
        manifestFiles := (set n | n in s.manifestFiles && n >= s.manifestNumber))
  }

  // ---- Steps ----

  datatype Step =
    | Acquire                          // Get, or an iterator, references the current version
    | Relinquish(id: nat)              // and lets go of it
    | SwitchMemTable
    | StartFlush
    | FlushFails                       // BuildTable fails, and deletes the file
    | FlushEmpty                       // BuildTable finds nothing to write
    | LogFlush
    | StartCompaction(inputs: set<nat>)
    | OpenOutput(created: bool)
    | LogCompaction
    | AbandonCompaction                // after a failure, or at shutdown
    | LogMove(table: nat)
    | ManifestWritten
    | ManifestFails

  predicate Idle(s: State) {
    s.flush.NotFlushing? && s.logging.NotLogging?
  }

  predicate Enabled(s: State, step: Step) {
    match step
    case Acquire => s.current in s.versions
    case Relinquish(id) => id in s.readers && id in s.versions
    case SwitchMemTable => s.imm.None? && !s.bgError
    case StartFlush => Idle(s) && s.imm.Some? && s.current in s.versions
    case FlushFails => s.flush.Building? && s.flush.base in s.versions
    case FlushEmpty => s.flush.Building? && s.flush.base in s.versions && s.imm.Some? && s.current in s.versions
    case LogFlush => s.flush.Building? && s.flush.base in s.versions && s.imm.Some? && s.current in s.versions
    case StartCompaction(inputs) =>
      Idle(s) && s.compaction.NotCompacting? && !s.bgError && s.current in s.versions && inputs <= s.versions[s.current].tables
    case OpenOutput(_) => Idle(s) && s.compaction.Compacting? && s.compaction.ok
    case LogCompaction => Idle(s) && s.compaction.Compacting? && s.compaction.ok && s.current in s.versions
    case AbandonCompaction => Idle(s) && s.compaction.Compacting? && s.compaction.base in s.versions
    case LogMove(table) =>
      Idle(s) && s.compaction.NotCompacting? && !s.bgError && s.current in s.versions && table in s.versions[s.current].tables
    case ManifestWritten =>
      !s.logging.NotLogging? && s.current in s.versions && (s.logging.LoggingCompaction? ==> s.compaction.Compacting?)
    case ManifestFails => !s.logging.NotLogging? && (s.logging.LoggingCompaction? ==> s.compaction.Compacting?)
  }

  // CleanupCompaction, ReleaseInputs, DeleteObsoleteFiles
  function EndCompaction(s: State): State
    requires s.compaction.Compacting?
  {
    var t := s.(pendingOutputs := s.pendingOutputs - s.compaction.outputs, compaction := NotCompacting);
    DeleteObsoleteFiles(if s.compaction.base in t.versions then UnrefVersion(t, s.compaction.base) else t)
  }

  // The edit that CompactMemTable logs.
  function FlushEdit(s: State, added: set<nat>): Edit
    requires s.imm.Some?
  {
    Edit({}, added, s.mem, {s.imm.value})
  }

  // The version is installed, and the log number set; the rest of ManifestWritten is clean-up.
  function Installed(s: State): State
    requires Enabled(s, ManifestWritten)
  {
    var e := s.logging.edit;
    AppendVersion(s, Applied(e, s.versions[s.current].tables)).(
      logNumber := e.logNumber, prevLogNumber := if s.logging.LoggingFlush? then 0 else s.prevLogNumber,
      images := (set i | i in s.images :: AppliedImage(e, i)), logging := NotLogging,
      imm := if s.logging.LoggingFlush? then None else s.imm)
  }

  function Do(s: State, step: Step): State
    requires Enabled(s, step)
  {
    match step
    case Acquire => RefVersion(s, s.current).(readers := s.readers + multiset{s.current})
    case Relinquish(id) => UnrefVersion(s, id).(readers := s.readers - multiset{id})
    case SwitchMemTable =>
      var n := s.nextFileNumber;
      s.(nextFileNumber := n + 1, logFiles := s.logFiles + {n}, logsWritten := s.logsWritten + {n}, imm := Some(s.mem), mem := n)
    case StartFlush =>
      var n := s.nextFileNumber;
      RefVersion(s, s.current).(nextFileNumber := n + 1, pendingOutputs := s.pendingOutputs + {n}, tableFiles := s.tableFiles + {n},
        flush := Building(n, s.current))
    case FlushFails =>
      var n := s.flush.number;
      UnrefVersion(s, s.flush.base).(pendingOutputs := s.pendingOutputs - {n}, tableFiles := s.tableFiles - {n}, flush := NotFlushing,
        bgError := true)
    case FlushEmpty =>
      var n := s.flush.number;
      UnrefVersion(s, s.flush.base).(pendingOutputs := s.pendingOutputs - {n}, tableFiles := s.tableFiles - {n}, flush := NotFlushing,
        logging := LoggingFlush(FlushEdit(s, {})))
    case LogFlush =>
      var n := s.flush.number;
      UnrefVersion(s, s.flush.base).(pendingOutputs := s.pendingOutputs - {n}, flush := NotFlushing,
        logging := LoggingFlush(FlushEdit(s, {n})))
    case StartCompaction(inputs) => RefVersion(s, s.current).(compaction := Compacting(s.current, inputs, {}, true))
    case OpenOutput(created) =>
      var n := s.nextFileNumber;
      s.(nextFileNumber := n + 1, pendingOutputs := s.pendingOutputs + {n}, tableFiles := if created then s.tableFiles + {n} else s.tableFiles,
        compaction := s.compaction.(outputs := s.compaction.outputs + {n}, ok := created))
    case LogCompaction =>
      s.(logging := LoggingCompaction(Edit(s.compaction.inputs, s.compaction.outputs, s.logNumber, {})))
    case AbandonCompaction => EndCompaction(s.(bgError := true))
    case LogMove(table) => s.(logging := LoggingMove(Edit({table}, {table}, s.logNumber, {})))
    case ManifestWritten =>
      if s.logging.LoggingFlush? then DeleteObsoleteFiles(Installed(s))
      else if s.logging.LoggingCompaction? then EndCompaction(Installed(s))
      else Installed(s)
    case ManifestFails =>
      // The edit may have reached the disk or not.
      var e := s.logging.edit;
      var t := s.(images := s.images + (set i | i in s.images :: AppliedImage(e, i)), logging := NotLogging, bgError := true);
      if s.logging.LoggingCompaction? then EndCompaction(t) else t
  }

  // ---- What has to be there ----

  // What recovery may find if the process dies now.
  function PossibleImages(s: State): set<Image> {
    if s.logging.NotLogging? then s.images else s.images + (set i | i in s.images :: AppliedImage(s.logging.edit, i))
  }

  /** A crash now loses nothing: for whatever the MANIFEST says, its tables exist, and every log that was ever
      written is made up for by those tables, or exists and is replayed. */
  ghost predicate Recoverable(s: State, i: Image) {
    && i.tables <= s.tableFiles
    && forall log :: log in s.logsWritten ==> log in i.covers || (log in s.logFiles && log >= i.logNumber)
  }

  /** Nothing that is in use has been deleted. */
  ghost predicate NothingLost(s: State) {
    && (forall id :: id in s.readers ==> id in s.versions && s.versions[id].tables <= s.tableFiles)
    && s.current in s.versions && s.versions[s.current].tables <= s.tableFiles
    && (s.compaction.Compacting? ==> s.compaction.inputs <= s.tableFiles && (s.compaction.ok ==> s.compaction.outputs <= s.tableFiles))
    && (s.flush.Building? ==> s.flush.number in s.tableFiles)
    && (!s.logging.NotLogging? ==> s.logging.edit.added <= s.tableFiles)
    && s.mem in s.logFiles && (s.imm.Some? ==> s.imm.value in s.logFiles)
    && s.manifestNumber in s.manifestFiles
    && forall i :: i in PossibleImages(s) ==> Recoverable(s, i)
  }

  // ---- The invariant ----

  // The references to a version.
  function Held(s: State, id: nat): nat {
    s.readers[id] + (if id == s.current then 1 else 0) + (if s.flush.Building? && s.flush.base == id then 1 else 0)
      + if s.compaction.Compacting? && s.compaction.base == id then 1 else 0
  }

  // A version is listed exactly as long as something references it.
  ghost predicate RefsOk(s: State) {
    && (forall id :: id in s.versions ==> s.versions[id].refs == Held(s, id) > 0 && id < s.nextVersion)
    && (forall id :: Held(s, id) > 0 ==> id in s.versions)
  }

  ghost predicate TablesOk(s: State) {
    && (forall id :: id in s.versions ==> s.versions[id].tables <= s.tableFiles)
    && (s.flush.Building? ==> s.flush.number in s.tableFiles && s.flush.number in s.pendingOutputs)
    && (s.compaction.Compacting? && s.compaction.base in s.versions ==> s.compaction.inputs <= s.versions[s.compaction.base].tables)
    && (s.compaction.Compacting? ==> s.compaction.outputs <= s.pendingOutputs && (s.compaction.ok ==> s.compaction.outputs <= s.tableFiles))
    && (!s.logging.NotLogging? ==> s.logging.edit.added <= s.tableFiles)
    && (forall i :: i in s.images ==> i.tables <= s.tableFiles)
    && (forall n :: n in s.tableFiles || n in s.pendingOutputs ==> n < s.nextFileNumber)
  }

  // Without an error the MANIFEST and the current version agree.
  ghost predicate ImagesOk(s: State) {
    && (forall i :: i in s.images ==> ImageOk(s, i))
    && s.images != {}
    && (!s.bgError && s.current in s.versions ==>
          forall i :: i in s.images ==> i.tables == s.versions[s.current].tables && i.logNumber == s.logNumber)
  }

  // Only the logs of the two memtables may not be covered, and they are replayed.
  ghost predicate ImageOk(s: State, i: Image) {
    && i.logNumber <= s.mem
    && (forall log :: log in s.logsWritten ==> log in i.covers || log == s.mem || s.imm == Some(log))
    && (s.imm.Some? && s.imm.value !in i.covers ==> i.logNumber <= s.imm.value)
  }

  ghost predicate LogsOk(s: State) {
    && s.mem in s.logFiles && s.mem < s.nextFileNumber && s.logNumber <= s.mem
    && (s.imm.Some? ==> s.imm.value in s.logFiles && s.imm.value < s.mem && s.logNumber <= s.imm.value)
    && s.manifestNumber in s.manifestFiles
    && (!s.logging.NotLogging? ==> EditOk(s))
    && (s.flush.Building? ==> s.imm.Some?)
  }

  ghost predicate EditOk(s: State)
    requires !s.logging.NotLogging?
  {
    if s.logging.LoggingFlush? then s.imm.Some? && s.logging.edit.logNumber == s.mem && s.logging.edit.covered == {s.imm.value}
    else s.logging.edit.logNumber == s.logNumber && s.logging.edit.covered == {}
  }

  ghost predicate PhaseOk(s: State) {
    && (s.flush.Building? ==> NewTable(s, s.flush.number))
    && (s.logging.LoggingCompaction? ==> s.compaction.Compacting? && s.compaction.ok && s.logging.edit.added == s.compaction.outputs)
    && (!s.logging.NotLogging? ==> s.flush.NotFlushing?)
  }

  // No version, image or compaction knows the table.
  ghost predicate NewTable(s: State, n: nat) {
    && (forall id :: id in s.versions ==> n !in s.versions[id].tables)
    && (forall i :: i in s.images ==> n !in i.tables)
    && (s.compaction.Compacting? ==> n !in s.compaction.outputs && n !in s.compaction.inputs)
  }

  ghost predicate Inv(s: State) {
    RefsOk(s) && TablesOk(s) && ImagesOk(s) && LogsOk(s) && PhaseOk(s)
  }

  lemma {:induction false} InvIsSafe(s: State)
    requires Inv(s)
    ensures NothingLost(s)
  {
    assert Held(s, s.current) > 0;
  }

  // ---- Every step keeps it ----

  lemma {:induction false} RefKeeps(s: State, t: State, id: nat)
    requires RefsOk(s) && id in s.versions
    requires t.versions == RefVersion(s, id).versions && t.nextVersion == s.nextVersion
    requires forall x: nat :: Held(t, x) == Held(s, x) + if x == id then 1 else 0
    ensures RefsOk(t)
  {
    hide Held;
  }

  lemma {:induction false} UnrefKeeps(s: State, t: State, id: nat)
    requires RefsOk(s) && id in s.versions
    requires t.versions == UnrefVersion(s, id).versions && t.nextVersion == s.nextVersion
    requires forall x: nat :: Held(t, x) == Held(s, x) - if x == id then 1 else 0
    ensures RefsOk(t)
  {
    hide Held;
  }

  // The versions of t are versions of s.
  ghost predicate Fewer(s: State, t: State) {
    forall id :: id in t.versions ==> id in s.versions && t.versions[id].tables == s.versions[id].tables
  }

  lemma {:induction false} UnrefFewer(s: State, id: nat)
    requires id in s.versions
    ensures Fewer(s, UnrefVersion(s, id))
    ensures s.versions[id].refs > 1 ==> id in UnrefVersion(s, id).versions
    ensures forall x :: x in s.versions && x != id ==> x in UnrefVersion(s, id).versions
  {
  }

  // Who references what does not matter to the rest.
  lemma {:induction false} RestKeeps(s: State, t: State)
    requires TablesOk(s) && ImagesOk(s) && LogsOk(s) && PhaseOk(s) && Fewer(s, t)
    requires t == s.(versions := t.versions, readers := t.readers)
    ensures TablesOk(t) && ImagesOk(t) && LogsOk(t) && PhaseOk(t)
  {
  }

  lemma {:induction false} KeepAcquire(s: State)
    requires Inv(s) && Enabled(s, Acquire)
    ensures Inv(Do(s, Acquire))
  {
    hide TablesOk, ImagesOk, LogsOk, PhaseOk, RefsOk;
    var t := Do(s, Acquire);
    RefKeeps(s, t, s.current);
    RestKeeps(s, t);
  }

  lemma {:induction false} KeepRelinquish(s: State, id: nat)
    requires Inv(s) && Enabled(s, Relinquish(id))
    ensures Inv(Do(s, Relinquish(id)))
  {
    hide TablesOk, ImagesOk, LogsOk, PhaseOk, RefsOk, UnrefVersion;
    var t := Do(s, Relinquish(id));
    UnrefRest(s, id);
    assert t == UnrefVersion(s, id).(readers := s.readers - multiset{id});
    UnrefKeeps(s, t, id);
    UnrefFewer(s, id);
    RestKeeps(s, t);
  }

  lemma {:induction false} UnrefRest(s: State, id: nat)
    requires id in s.versions
    ensures UnrefVersion(s, id) == s.(versions := UnrefVersion(s, id).versions)
  {
  }

  lemma {:induction false} KeepSwitch(s: State)
    requires Inv(s) && Enabled(s, SwitchMemTable)
    ensures Inv(Do(s, SwitchMemTable))
  {
    hide RefsOk;
    var t := Do(s, SwitchMemTable);
    assert RefsOk(t) by { SameRefs(s, t); }
  }

  lemma {:induction false} BasesListed(s: State)
    requires RefsOk(s)
    ensures s.current in s.versions && s.nextVersion !in s.versions
    ensures s.compaction.Compacting? ==> s.compaction.base in s.versions
    ensures s.flush.Building? ==> s.flush.base in s.versions
  {
    assert Held(s, s.current) > 0;
    assert s.compaction.Compacting? ==> Held(s, s.compaction.base) > 0;
    assert s.flush.Building? ==> Held(s, s.flush.base) > 0;
  }

  lemma {:induction false} SameRefs(s: State, t: State)
    requires RefsOk(s) && t.versions == s.versions && t.nextVersion == s.nextVersion
    requires forall x: nat :: Held(t, x) == Held(s, x)
    ensures RefsOk(t)
  {
    hide Held;
  }

  lemma {:induction false} KeepStartFlush(s: State)
    requires Inv(s) && Enabled(s, StartFlush)
    ensures Inv(Do(s, StartFlush))
  {
    hide RefsOk;
    BasesListed(s);
    var t := Do(s, StartFlush);
    assert RefsOk(t) by {
      hide TablesOk, ImagesOk, LogsOk, PhaseOk;
      RefKeeps(s, t, s.current);
    }
  }

  // WriteLevel0Table is over, with or without a file.
  lemma {:induction false} FlushEnds(s: State, t: State)
    requires Inv(s) && s.flush.Building? && s.flush.base in s.versions
    requires t.versions == UnrefVersion(s, s.flush.base).versions
    requires t.pendingOutputs == s.pendingOutputs - {s.flush.number}
    requires t.tableFiles == s.tableFiles || t.tableFiles == s.tableFiles - {s.flush.number}
    requires t == s.(versions := t.versions, pendingOutputs := t.pendingOutputs, tableFiles := t.tableFiles, flush := NotFlushing,
      bgError := t.bgError, logging := t.logging)
    requires s.bgError ==> t.bgError
    requires t.logging == s.logging || (t.logging.LoggingFlush? && s.imm.Some? && t.logging.edit == FlushEdit(s, t.logging.edit.added) && t.logging.edit.added <= t.tableFiles)
    ensures Inv(t)
  {
    hide RefsOk, UnrefVersion, ImageOk, NewTable, Held;
    UnrefFewer(s, s.flush.base);
    FlushEndsRefs(s, t);
    assert TablesOk(t) by {
      assert NewTable(s, s.flush.number);
      FlushTables(s, t);
    }
    assert forall i :: i in t.images ==> ImageOk(t, i) by {
      forall i | i in t.images ensures ImageOk(t, i) { SameImageOk(s, t, i); }
    }
  }

  lemma {:induction false} SameImageOk(s: State, t: State, i: Image)
    requires ImageOk(s, i) && t.mem == s.mem && t.imm == s.imm && t.logsWritten == s.logsWritten
    ensures ImageOk(t, i)
  {
  }

  lemma {:induction false} FlushEndsRefs(s: State, t: State)
    requires RefsOk(s) && s.flush.Building? && s.flush.base in s.versions
    requires t.versions == UnrefVersion(s, s.flush.base).versions && t.nextVersion == s.nextVersion && t.current == s.current
    requires t.readers == s.readers && t.flush.NotFlushing? && t.compaction == s.compaction
    ensures RefsOk(t)
  {
    hide RefsOk, UnrefVersion;
    UnrefKeeps(s, t, s.flush.base);
  }

  // A table that nobody knows may go.
  lemma {:induction false} FlushTables(s: State, t: State)
    requires TablesOk(s) && Fewer(s, t) && s.flush.Building? && NewTable(s, s.flush.number)
    requires t.pendingOutputs == s.pendingOutputs - {s.flush.number} && t.flush.NotFlushing?
    requires t.tableFiles == s.tableFiles || t.tableFiles == s.tableFiles - {s.flush.number}
    requires t.compaction == s.compaction && t.images == s.images && t.nextFileNumber == s.nextFileNumber
    requires !t.logging.NotLogging? ==> t.logging.edit.added <= t.tableFiles
    ensures TablesOk(t)
  {
  }

  lemma {:induction false} KeepFlushFails(s: State)
    requires Inv(s) && Enabled(s, FlushFails)
    ensures Inv(Do(s, FlushFails))
  {
    hide RefsOk, TablesOk, ImagesOk, LogsOk, PhaseOk, UnrefVersion, Inv;
    UnrefRest(s, s.flush.base);
    FlushEnds(s, Do(s, FlushFails));
  }

  lemma {:induction false} KeepFlushEmpty(s: State)
    requires Inv(s) && Enabled(s, FlushEmpty)
    ensures Inv(Do(s, FlushEmpty))
  {
    hide RefsOk, TablesOk, ImagesOk, LogsOk, PhaseOk, UnrefVersion, Inv;
    UnrefRest(s, s.flush.base);
    FlushEnds(s, Do(s, FlushEmpty));
  }

  lemma {:induction false} KeepLogFlush(s: State)
    requires Inv(s) && Enabled(s, LogFlush)
    ensures Inv(Do(s, LogFlush))
  {
    hide RefsOk, ImagesOk, LogsOk, PhaseOk, UnrefVersion;
    UnrefRest(s, s.flush.base);
    FlushEnds(s, Do(s, LogFlush));
  }

  lemma {:induction false} KeepStartCompaction(s: State, inputs: set<nat>)
    requires Inv(s) && Enabled(s, StartCompaction(inputs))
    ensures Inv(Do(s, StartCompaction(inputs)))
  {
    hide RefsOk;
    var t := Do(s, StartCompaction(inputs));
    assert RefsOk(t) by {
      hide TablesOk, ImagesOk, LogsOk, PhaseOk;
      RefKeeps(s, t, s.current);
    }
  }

  lemma {:induction false} KeepOpenOutput(s: State, created: bool)
    requires Inv(s) && Enabled(s, OpenOutput(created))
    ensures Inv(Do(s, OpenOutput(created)))
  {
    hide RefsOk;
    var t := Do(s, OpenOutput(created));
    assert RefsOk(t) by { SameRefs(s, t); }
  }

  lemma {:induction false} KeepLogging(s: State, step: Step)
    requires Inv(s) && (step.LogCompaction? || step.LogMove?) && Enabled(s, step)
    ensures Inv(Do(s, step))
  {
    hide RefsOk;
    var t := Do(s, step);
    assert RefsOk(t) by { SameRefs(s, t); }
  }

  // ---- Garbage collection and the end of a compaction ----

  /** Deleting obsolete files deletes nothing that is in use. */
  lemma {:induction false} CollectKeeps(s: State)
    requires Inv(s) && s.flush.NotFlushing? && s.logging.NotLogging?
    ensures Inv(DeleteObsoleteFiles(s))
  {
    hide RefsOk;
    BasesListed(s);
    var t := DeleteObsoleteFiles(s);
    assert RefsOk(t) by { SameRefs(s, t); }
  }

  lemma {:induction false} EndCompactionKeeps(s: State)
    requires Inv(s) && s.flush.NotFlushing? && s.logging.NotLogging? && s.compaction.Compacting?
    ensures Inv(EndCompaction(s))
  {
    hide RefsOk, UnrefVersion;
    BasesListed(s);
    var base := s.compaction.base;
    var u := UnrefVersion(s, base);
    var t := s.(pendingOutputs := s.pendingOutputs - s.compaction.outputs, compaction := NotCompacting, versions := u.versions);
    assert RefsOk(t) by {
      hide TablesOk, ImagesOk, LogsOk, PhaseOk;
      UnrefKeeps(s, t, base);
    }
    UnrefFewer(s, base);
    UnrefCommutes(s, s.(pendingOutputs := s.pendingOutputs - s.compaction.outputs, compaction := NotCompacting), base);
    CollectKeeps(t);
  }

  lemma {:induction false} UnrefCommutes(s: State, t: State, id: nat)
    requires id in s.versions && t.versions == s.versions
    ensures UnrefVersion(t, id) == t.(versions := UnrefVersion(s, id).versions)
  {
  }

  // ---- The end of LogAndApply ----

  lemma {:induction false} AppendKeepsRefs(s: State, t: State, tables: set<nat>)
    requires RefsOk(s) && s.current in s.versions
    requires t.versions == AppendVersion(s, tables).versions && t.current == s.nextVersion && t.nextVersion == s.nextVersion + 1
    requires t.readers == s.readers && t.flush == s.flush && t.compaction == s.compaction
    ensures RefsOk(t)
  {
    hide Held;
    HeldMoves(s, t);
    assert s.nextVersion !in s.versions;
    assert Held(s, s.nextVersion) == 0;
  }

  lemma {:induction false} HeldMoves(s: State, t: State)
    requires t.current == s.nextVersion && t.readers == s.readers && t.flush == s.flush && t.compaction == s.compaction
    ensures forall x: nat :: Held(t, x) == Held(s, x) - (if x == s.current then 1 else 0) + (if x == s.nextVersion then 1 else 0)
  {
  }

  lemma {:induction false} AppendedFewer(s: State, tables: set<nat>)
    requires s.current in s.versions && s.nextVersion !in s.versions
    ensures
      var t := AppendVersion(s, tables);
      && s.nextVersion in t.versions && t.versions[s.nextVersion].tables == tables
      && forall id :: id in t.versions && id != s.nextVersion ==> id in s.versions && t.versions[id].tables == s.versions[id].tables
  {
  }

  lemma {:induction false} InstalledKeeps(s: State)
    requires Inv(s) && Enabled(s, ManifestWritten)
    ensures Inv(Installed(s))
  {
    hide RefsOk, Held, AppendVersion, ImagesOk;
    var t, tables := Installed(s), Applied(s.logging.edit, s.versions[s.current].tables);
    BasesListed(s);
    AppendedFewer(s, tables);
    AppendRest(s, tables);
    AppendKeepsRefs(s, t, tables);
    InstalledTables(s);
    InstalledImages(s);
  }

  lemma {:induction false} AppendRest(s: State, tables: set<nat>)
    requires s.current in s.versions
    ensures AppendVersion(s, tables) == s.(versions := AppendVersion(s, tables).versions, current := s.nextVersion, nextVersion := s.nextVersion + 1)
  {
  }

  lemma {:induction false} InstalledTables(s: State)
    requires RefsOk(s) && TablesOk(s) && ImagesOk(s) && PhaseOk(s) && Enabled(s, ManifestWritten)
    ensures TablesOk(Installed(s))
  {
    hide RefsOk, Held, AppendVersion;
    var tables := Applied(s.logging.edit, s.versions[s.current].tables);
    BasesListed(s);
    AppendedFewer(s, tables);
    AppendRest(s, tables);
  }

  lemma {:induction false} InstalledImages(s: State)
    requires RefsOk(s) && ImagesOk(s) && LogsOk(s) && Enabled(s, ManifestWritten)
    ensures ImagesOk(Installed(s))
  {
    hide RefsOk, Held, AppendVersion, Applied;
    var t, e, tables := Installed(s), s.logging.edit, Applied(s.logging.edit, s.versions[s.current].tables);
    BasesListed(s);
    AppendedFewer(s, tables);
    AppendRest(s, tables);
    var i0 :| i0 in s.images;
    assert AppliedImage(e, i0) in t.images;
    forall i | i in t.images ensures ImageOk(t, i) {
      var j :| j in s.images && i == AppliedImage(e, j);
      assert ImageOk(s, j);
    }
  }

  lemma {:induction false} KeepManifestWritten(s: State)
    requires Inv(s) && Enabled(s, ManifestWritten)
    ensures Inv(Do(s, ManifestWritten))
  {
    hide Inv, EndCompaction, DeleteObsoleteFiles, AppendVersion;
    var t, tables := Installed(s), Applied(s.logging.edit, s.versions[s.current].tables);
    InstalledKeeps(s);
    AppendRest(s, tables);
    assert s.flush.NotFlushing? by { Phase(s); }
    if s.logging.LoggingFlush? {
      CollectKeeps(t);
    } else if s.logging.LoggingCompaction? {
      EndCompactionKeeps(t);
    }
  }

  lemma {:induction false} Phase(s: State)
    requires Inv(s) && !s.logging.NotLogging?
    ensures s.flush.NotFlushing?
  {
  }

  lemma {:induction false} KeepManifestFails(s: State)
    requires Inv(s) && Enabled(s, ManifestFails)
    ensures Inv(Do(s, ManifestFails))
  {
    hide EndCompaction, RefsOk;
    var e := s.logging.edit;
    var t := s.(images := s.images + (set i | i in s.images :: AppliedImage(e, i)), logging := NotLogging, bgError := true);
    assert RefsOk(t) by { SameRefs(s, t); }
    assert ImagesOk(t) by {
      forall i | i in t.images ensures ImageOk(t, i) {
        if i !in s.images {
          var j :| j in s.images && i == AppliedImage(e, j);
          assert ImageOk(s, j);
        }
      }
    }
    if s.logging.LoggingCompaction? {
      EndCompactionKeeps(t);
    }
  }

  lemma {:induction false} KeepAbandon(s: State)
    requires Inv(s) && Enabled(s, AbandonCompaction)
    ensures Inv(Do(s, AbandonCompaction))
  {
    hide EndCompaction, RefsOk;
    var t := s.(bgError := true);
    assert RefsOk(t) by { SameRefs(s, t); }
    EndCompactionKeeps(t);
  }

  // ---- Runs ----

  // After DB::Open: one version, one memtable with a new log; what older logs held is in the tables.
  ghost predicate Init(s: State) {
    && s.versions.Keys == {s.current} && s.versions[s.current].refs == 1 && s.versions[s.current].tables <= s.tableFiles
    && s.current < s.nextVersion && s.readers == multiset{} && s.pendingOutputs == {}
    && (forall n :: n in s.tableFiles ==> n < s.nextFileNumber)
    && s.mem in s.logFiles && s.mem < s.nextFileNumber && s.logNumber == s.mem && s.prevLogNumber == 0 && s.imm == None
    && s.manifestNumber in s.manifestFiles && !s.bgError
    && (forall n :: n in s.logFiles ==> 0 < n <= s.mem) && (forall n :: n in s.manifestFiles ==> n <= s.manifestNumber)
    && s.flush == NotFlushing && s.compaction == NotCompacting && s.logging == NotLogging
    && (exists i :: s.images == {i} && i.tables == s.versions[s.current].tables && i.logNumber == s.logNumber
          && forall log :: log in s.logsWritten ==> log in i.covers || log == s.mem)
  }

  ghost predicate Run(states: seq<State>, steps: seq<Step>) {
    && |states| == |steps| + 1 && Init(states[0])
    && forall k :: 0 <= k < |steps| ==> Enabled(states[k], steps[k]) && states[k + 1] == Do(states[k], steps[k])
  }

  lemma {:induction false} InitInv(s: State)
    requires Init(s)
    ensures Inv(s)
  {
    assert s.current in s.versions;
  }

  lemma {:induction false} StepKeeps(s: State, step: Step)
    requires Inv(s) && Enabled(s, step)
    ensures Inv(Do(s, step))
  {
    hide Inv, Enabled, Do;
    match step
    case Acquire => KeepAcquire(s);
    case Relinquish(id) => KeepRelinquish(s, id);
    case SwitchMemTable => KeepSwitch(s);
    case StartFlush => KeepStartFlush(s);
    case FlushFails => KeepFlushFails(s);
    case FlushEmpty => KeepFlushEmpty(s);
    case LogFlush => KeepLogFlush(s);
    case StartCompaction(inputs) => KeepStartCompaction(s, inputs);
    case OpenOutput(created) => KeepOpenOutput(s, created);
    case LogCompaction => KeepLogging(s, step);
    case AbandonCompaction => KeepAbandon(s);
    case LogMove(_) => KeepLogging(s, step);
    case ManifestWritten => KeepManifestWritten(s);
    case ManifestFails => KeepManifestFails(s);
  }

  /** In every reachable state nothing that is in use has been deleted, and a crash would lose nothing. */
  lemma {:induction false} NothingIsEverLost(states: seq<State>, steps: seq<Step>, n: nat)
    requires Run(states, steps) && n < |states|
    ensures NothingLost(states[n]) && Inv(states[n])
  {
    hide Inv, Enabled, Do, NothingLost;
    if n == 0 {
      InitInv(states[0]);
    } else {
      var m := n - 1;
      NothingIsEverLost(states, steps, m);
      assert states[m + 1] == Do(states[m], steps[m]);
      StepKeeps(states[m], steps[m]);
    }
    InvIsSafe(states[n]);
  }

  // ---- Nothing is kept for ever ----

  // Nothing is pending but what is being written, and no log or descriptor is newer than those in use.
  ghost predicate Tidy(s: State) {
    && s.pendingOutputs == (if s.flush.Building? then {s.flush.number} else {}) + (if s.compaction.Compacting? then s.compaction.outputs else {})
    && (s.imm.None? ==> s.logNumber == s.mem) && s.prevLogNumber == 0
    && (forall n :: n in s.logFiles ==> 0 < n <= s.mem) && (forall n :: n in s.manifestFiles ==> n <= s.manifestNumber)
  }

  lemma {:induction false} CollectTidy(s: State)
    requires Tidy(s)
    ensures Tidy(DeleteObsoleteFiles(s))
  {
  }

  lemma {:induction false} EndCompactionTidy(s: State)
    requires Tidy(s) && s.compaction.Compacting? && s.flush.NotFlushing?
    ensures Tidy(EndCompaction(s))
  {
    hide DeleteObsoleteFiles, UnrefVersion;
    var t := s.(pendingOutputs := s.pendingOutputs - s.compaction.outputs, compaction := NotCompacting);
    if s.compaction.base in t.versions {
      UnrefRest(t, s.compaction.base);
      CollectTidy(UnrefVersion(t, s.compaction.base));
    } else {
      CollectTidy(t);
    }
  }

  lemma {:induction false} ManifestTidy(s: State, step: Step)
    requires Inv(s) && Tidy(s) && Enabled(s, step) && (step.ManifestWritten? || step.ManifestFails? || step.AbandonCompaction?)
    ensures Tidy(Do(s, step))
  {
    hide RefsOk, TablesOk, ImagesOk, DeleteObsoleteFiles, EndCompaction, UnrefVersion, AppendVersion;
    if step.ManifestWritten? {
      AppendRest(s, Applied(s.logging.edit, s.versions[s.current].tables));
      var t := Installed(s);
      assert Tidy(t);
      if s.logging.LoggingFlush? {
        CollectTidy(t);
      } else if s.logging.LoggingCompaction? {
        EndCompactionTidy(t);
      }
    } else if step.ManifestFails? {
      var e := s.logging.edit;
      var t := s.(images := s.images + (set i | i in s.images :: AppliedImage(e, i)), logging := NotLogging, bgError := true);
      if s.logging.LoggingCompaction? {
        EndCompactionTidy(t);
      }
    } else {
      EndCompactionTidy(s.(bgError := true));
    }
  }

  lemma {:induction false} StepTidy(s: State, step: Step)
    requires Inv(s) && Tidy(s) && Enabled(s, step)
    ensures Tidy(Do(s, step))
  {
    hide RefsOk, ImagesOk, UnrefVersion;
    if step.ManifestWritten? || step.ManifestFails? || step.AbandonCompaction? {
      ManifestTidy(s, step);
    } else if step.FlushFails? || step.FlushEmpty? || step.LogFlush? {
      UnrefRest(s, s.flush.base);
      FlushTidy(s);
    } else if step.Relinquish? {
      UnrefRest(s, step.id);
    }
  }

  lemma {:induction false} FlushTidy(s: State)
    requires Tidy(s) && PhaseOk(s) && s.flush.Building?
    ensures s.pendingOutputs - {s.flush.number} == if s.compaction.Compacting? then s.compaction.outputs else {}
  {
  }

  lemma {:induction false} AlwaysTidy(states: seq<State>, steps: seq<Step>, n: nat)
    requires Run(states, steps) && n < |states|
    ensures Tidy(states[n]) && Inv(states[n])
  {
    hide Inv, Enabled, Do, Tidy, NothingLost;
    NothingIsEverLost(states, steps, n);
    if n == 0 {
      InitTidy(states[0]);
    } else {
      AlwaysTidy(states, steps, n - 1);
      assert states[n - 1 + 1] == Do(states[n - 1], steps[n - 1]);
      StepTidy(states[n - 1], steps[n - 1]);
    }
  }

  lemma {:induction false} InitTidy(s: State)
    requires Init(s)
    ensures Tidy(s)
  {
  }

  // Nobody reads, nothing is being written, and no error has been recorded.
  ghost predicate Quiet(s: State) {
    s.readers == multiset{} && s.flush.NotFlushing? && s.compaction.NotCompacting? && s.logging.NotLogging? && s.imm.None? && !s.bgError
  }

  // No file is there that is not in use.
  ghost predicate Clean(s: State) {
    && s.current in s.versions && s.tableFiles == s.versions[s.current].tables
    && s.logFiles == {s.mem} && s.manifestFiles == {s.manifestNumber}
  }

  /** Collecting in a quiet state leaves exactly the tables of the current version, the log in use and
      the MANIFEST in use. */
  lemma {:induction false} QuietIsClean(s: State)
    requires Inv(s) && Tidy(s) && Quiet(s)
    ensures Clean(DeleteObsoleteFiles(s))
  {
    hide ImagesOk, PhaseOk;
    BasesListed(s);
    forall id | id in s.versions ensures id == s.current {
      assert Held(s, id) > 0;
    }
    var t := DeleteObsoleteFiles(s);
    assert t.tableFiles == s.versions[s.current].tables;
    assert t.logFiles == {s.mem};
  }

  /** So at the end of a flush or a compaction, after every run: if nothing else goes on, no obsolete
      file is left. */
  lemma {:induction false} NothingIsKeptForever(states: seq<State>, steps: seq<Step>, n: nat)
    requires Run(states, steps) && n < |steps| && steps[n].ManifestWritten? && !states[n].logging.LoggingMove?
    requires Quiet(states[n + 1])
    ensures Clean(states[n + 1])
  {
    hide Inv, Tidy, Do, Enabled, DeleteObsoleteFiles, Installed, UnrefVersion, Clean;
    AlwaysTidy(states, steps, n);
    AlwaysTidy(states, steps, n + 1);
    assert Enabled(states[n], steps[n]) && states[n + 1] == Do(states[n], steps[n]);
    Collected(states[n]);
    QuietIsClean(states[n + 1]);
  }

  // The step ends with a collection, and collecting again finds nothing.
  lemma {:induction false} Collected(s: State)
    requires Enabled(s, ManifestWritten) && !s.logging.LoggingMove?
    ensures DeleteObsoleteFiles(Do(s, ManifestWritten)) == Do(s, ManifestWritten)
  {
    hide DeleteObsoleteFiles, Installed, UnrefVersion, AppendVersion, Applied;
    if s.logging.LoggingFlush? {
      CollectTwice(Installed(s));
    } else {
      InstalledCompaction(s);
      var i := Installed(s);
      var t := i.(pendingOutputs := i.pendingOutputs - i.compaction.outputs, compaction := NotCompacting);
      CollectTwice(if i.compaction.base in t.versions then UnrefVersion(t, i.compaction.base) else t);
    }
  }

  lemma {:induction false} InstalledCompaction(s: State)
    requires Enabled(s, ManifestWritten)
    ensures Installed(s).compaction == s.compaction
  {
    hide AppendVersion, Applied;
    AppendRest(s, Applied(s.logging.edit, s.versions[s.current].tables));
  }

  lemma {:induction false} CollectTwice(s: State)
    ensures DeleteObsoleteFiles(DeleteObsoleteFiles(s)) == DeleteObsoleteFiles(s)
  {
  }

  // ---- The loops ----

  function NumbersIn(files: seq<nat>): set<nat> {
    set n | n in files
  }

  function NumbersInLevels(levels: seq<seq<nat>>): set<nat> {
    set l, n | 0 <= l < |levels| && n in levels[l] :: n
  }

  function NumbersInVersions(list: seq<seq<seq<nat>>>): set<nat> {
    set v, l, n | 0 <= v < |list| && 0 <= l < |list[v]| && n in list[v][l] :: n
  }

  /** VersionSet::AddLiveFiles over the list of versions: for each its levels, and their file numbers. */
  method AddLiveFiles(list: seq<seq<seq<nat>>>, before: set<nat>) returns (live: set<nat>)
    ensures live == before + NumbersInVersions(list)
  {
    live := before;
    for v := 0 to |list|
      invariant live == before + NumbersInVersions(list[..v])
    {
      ghost var live0 := live;
      for level := 0 to |list[v]|
        invariant live == live0 + NumbersInLevels(list[v][..level])
      {
        ghost var live1 := live;
        var files := list[v][level];
        for i := 0 to |files|
          invariant live == live1 + NumbersIn(files[..i])
        {
          live := live + {files[i]};
        }
        assert files[..|files|] == files;
        assert list[v][..level + 1] == list[v][..level] + [files];
      }
      assert list[v][..|list[v]|] == list[v];
      assert list[..v + 1] == list[..v] + [list[v]];
    }
    assert list[..|list|] == list;
  }

  datatype FileType = LogFile | DescriptorFile | TableFile | TempFile | CurrentFile | DBLockFile | InfoLogFile

  datatype FileName = FileName(kind: FileType, number: nat)

  // The directory has exactly the files of the state, and perhaps others that are not deleted.
  ghost predicate Lists(filenames: seq<FileName>, s: State) {
    && (forall n :: n in s.tableFiles <==> FileName(TableFile, n) in filenames)
    && (forall n :: n in s.logFiles <==> FileName(LogFile, n) in filenames)
    && (forall n :: n in s.manifestFiles <==> FileName(DescriptorFile, n) in filenames)
  }

  // What has to stay in the directory.
  ghost predicate InUse(s: State, f: FileName) {
    match f.kind
    case LogFile => f.number >= s.logNumber || f.number == s.prevLogNumber
    case DescriptorFile => f.number >= s.manifestNumber
    case TableFile => f.number in s.pendingOutputs || exists id :: id in s.versions && f.number in s.versions[id].tables
    case TempFile => f.number in s.pendingOutputs || exists id :: id in s.versions && f.number in s.versions[id].tables
    case CurrentFile => true
    case DBLockFile => true
    case InfoLogFile => true
  }

  /** DeleteObsoleteFiles: the names that stay in the directory are exactly those in use, or all of them after an error. */
  method CollectGarbage(s: State, list: seq<seq<seq<nat>>>, filenames: seq<FileName>) returns (kept: seq<FileName>)
    requires NumbersInVersions(list) == LiveTables(s) && Lists(filenames, s)
    ensures Lists(kept, DeleteObsoleteFiles(s))
    ensures s.bgError ==> kept == filenames
    ensures !s.bgError ==> forall f :: f in kept <==> f in filenames && InUse(s, f)
  {
    if s.bgError { return filenames; }
    var live := AddLiveFiles(list, s.pendingOutputs);
    kept := [];
    for i := 0 to |filenames|
      invariant forall f :: f in kept ==> f in filenames[..i] && Keeps(s, live, f)
      invariant forall f :: f in filenames[..i] && Keeps(s, live, f) ==> f in kept
    {
      var f := filenames[i];
      var keep := true;
      match f.kind {
        case LogFile => keep := f.number >= s.logNumber || f.number == s.prevLogNumber;
        case DescriptorFile => keep := f.number >= s.manifestNumber;
        case TableFile => keep := f.number in live;
        case TempFile => keep := f.number in live;
        case CurrentFile => keep := true;
        case DBLockFile => keep := true;
        case InfoLogFile => keep := true;
      }
      if keep {
        kept := kept + [f];
      }
    }
    assert filenames[..|filenames|] == filenames;
  }

  predicate Keeps(s: State, live: set<nat>, f: FileName) {
    match f.kind
    case LogFile => KeepLog(s, f.number)
    case DescriptorFile => f.number >= s.manifestNumber
    case TableFile => f.number in live
    case TempFile => f.number in live
    case _ => true
  }
}
