/** What a snapshot promises (include/leveldb/db.h: GetSnapshot, db/db_impl.cc): over every later run, flushes
    and compactions included, reads at it answer as when it was taken. */
module SnapshotReads {
  import opened Coding
  import opened Options
  import opened Keys
  import opened Store
  import opened CompactionWork
  import opened Lsm
  import opened LsmInvariant
  import opened IteratorOverDb

  // The steps lead from `db` to `later`, and none of them installs a compaction that resurrects a value.
  ghost predicate RunsTo(db: Db, steps: seq<Step>, later: Db)
    decreases |steps|
  {
    if steps == [] then later == db
    else
      var init, last := steps[..|steps| - 1], steps[|steps| - 1];
      exists prev :: RunsTo(db, init, prev) && Leads(prev, last, later)
  }

  // `later` has what `db` had, and after it only what was numbered later.
  ghost predicate Extends(db: Db, later: Db) {
    && |db.history| <= |later.history| && later.history[..|db.history|] == db.history
    && (forall e :: e in later.history[|db.history|..] ==> e.key.sequence > db.allotted)
    && db.allotted <= later.allotted && db.lastSequence <= later.lastSequence
  }

  lemma {:induction false} StepExtends(db: Db, prev: Db, step: Step, later: Db)
    requires Extends(db, prev) && Leads(prev, step, later) && HistoryOk(prev)
    ensures Extends(db, later)
  {
    hide InsertEntry, VersionAfterFlush, VersionAfterReplace, SafeStep;
    if step.Insert? {
      var n := |db.history|;
      assert later.history[n..] == prev.history[n..] + [later.history[|prev.history|]];
      assert later.history[..n] == prev.history[..n];
    }
  }

  lemma {:induction false} RunExtends(db: Db, steps: seq<Step>, later: Db)
    requires Inv(db) && RunsTo(db, steps, later)
    ensures Inv(later) && Extends(db, later)
    decreases |steps|
  {
    hide Inv, Extends, Leads;
    if steps == [] {
      ExtendsItself(db);
    } else {
      var init, last := steps[..|steps| - 1], steps[|steps| - 1];
      var prev :| RunsTo(db, init, prev) && Leads(prev, last, later);
      RunExtends(db, init, prev);
      OneStep(db, prev, last, later);
    }
  }

  lemma {:induction false} ExtendsItself(db: Db)
    ensures Extends(db, db)
  {
  }

  lemma {:induction false} OneStep(db: Db, prev: Db, step: Step, later: Db)
    requires Inv(prev) && Extends(db, prev) && Leads(prev, step, later)
    ensures Inv(later) && Extends(db, later)
  {
    hide Extends, SafeStep, MemOk, FilesOk, StoredOk, CompactionOk, ReadsOk, Enabled, Apply;
    StepExtends(db, prev, step, later);
    StepKeeps(prev, step);
  }

  lemma {:induction false} OldestIsMinLive(db: Db, s: nat)
    requires SnapshotsOk(db) && s in db.snapshots
    ensures MinLive(db) <= s
  {
  }

  /** A snapshot taken in a reachable state, in any state that any run leads to while it is live: what is
      stored answers every read at it as the history did when it was taken. Writes, flushes, moves and
      compactions in between do not show. */
  lemma {:induction false} SnapshotIsolation(db: Db, taken: Db, steps: seq<Step>, later: Db, k: UserKey)
    requires Inv(db) && Leads(db, TakeSnapshot, taken) && RunsTo(taken, steps, later) && db.lastSequence in later.snapshots
    ensures Inv(later) && MinLive(later) <= db.lastSequence <= later.lastSequence
    ensures ReadIs(StoredEntries(later), k, db.lastSequence, FlatRead(db.history, k, db.lastSequence))
    ensures FlatRead(later.history, k, db.lastSequence) == FlatRead(db.history, k, db.lastSequence)
  {
    hide RunsTo, StoredEntries, FlatRead, MinLive, ReadIs, Leads, Inv;
    var s, n := db.lastSequence, |db.history|;
    TakingKeeps(db, taken);
    RunExtends(taken, steps, later);
    InvParts(db);
    InvParts(later);
    OldestIsMinLive(later, s);
    assert later.history == db.history + later.history[n..];
    LaterWritesUnseen(db.history, later.history[n..], k, s);
    FlatReadIs(later.history, k, s);
    Answers(later, k, s, FlatRead(later.history, k, s));
  }

  lemma {:induction false} InvParts(db: Db)
    requires Inv(db)
    ensures HistoryOk(db) && SnapshotsOk(db) && ReadsOk(StoredEntries(db), db.history, MinLive(db))
  {
    hide HistoryOk, SnapshotsOk, MemOk, FilesOk, StoredOk, CompactionOk, ReadsOk;
  }

  lemma {:induction false} TakingKeeps(db: Db, taken: Db)
    requires Inv(db) && Leads(db, TakeSnapshot, taken)
    ensures Inv(taken) && taken.history == db.history && taken.allotted == db.allotted && taken.lastSequence == db.lastSequence
  {
    hide HistoryOk, SnapshotsOk, MemOk, FilesOk, StoredOk, CompactionOk, ReadsOk;
    StepKeeps(db, TakeSnapshot);
  }

  lemma {:induction false} Answers(db: Db, k: UserKey, s: nat, r: Option<Bytes>)
    requires ReadsOk(StoredEntries(db), db.history, MinLive(db)) && MinLive(db) <= s
    requires ReadIs(HistoryEntries(db.history), k, s, r)
    ensures ReadIs(StoredEntries(db), k, s, r)
  {
    hide StoredEntries, ReadIs, MinLive, HistoryEntries;
  }

  /** And a reader without a snapshot sees the newest write: once a write is published, and until the next one
      of its key, every read of the key at the last sequence number gives it. */
  lemma {:induction false} PublishedWriteIsRead(db: Db, kind: ValueType, k: UserKey, value: Bytes, written: Db, steps: seq<Step>, later: Db)
    requires Inv(db) && Leads(db, Insert(kind, k, value), written) && RunsTo(written, steps, later)
    requires later.lastSequence > db.allotted && forall step :: step in steps && step.Insert? ==> step.key != k
    ensures ReadIs(StoredEntries(later), k, later.lastSequence, if kind.Value? then Some(value) else None)
  {
    hide RunsTo, StoredEntries, FlatRead, MinLive, ReadIs, Leads, Inv;
    var s, n := later.lastSequence, |written.history|;
    InsertingKeeps(db, kind, k, value, written);
    RunExtends(written, steps, later);
    OthersOnly(written, steps, later, k);
    InvParts(later);
    assert later.history == written.history + later.history[n..];
    OthersUnseen(written.history, later.history[n..], k, s);
    LastIsRead(written.history, k, s);
    FlatReadIs(later.history, k, s);
    PublishedIsLive(later);
    Answers(later, k, s, FlatRead(later.history, k, s));
  }

  lemma {:induction false} InsertingKeeps(db: Db, kind: ValueType, k: UserKey, value: Bytes, written: Db)
    requires Inv(db) && Leads(db, Insert(kind, k, value), written)
    ensures Inv(written) && written.history == db.history + [Entry(InternalKey(k, db.allotted + 1, kind), value)]
  {
    hide HistoryOk, SnapshotsOk, MemOk, FilesOk, StoredOk, CompactionOk, ReadsOk;
    StepKeeps(db, Insert(kind, k, value));
  }

  lemma {:induction false} PublishedIsLive(db: Db)
    requires SnapshotsOk(db)
    ensures MinLive(db) <= db.lastSequence
  {
  }

  lemma {:induction false} LastIsRead(history: seq<Entry>, k: UserKey, s: nat)
    requires history != []
    ensures
      var last := history[|history| - 1];
      last.key.user == k && last.key.sequence <= s ==> FlatRead(history, k, s) == Shown(last)
  {
  }

  lemma {:induction false} OthersUnseen(history: seq<Entry>, more: seq<Entry>, k: UserKey, s: nat)
    requires forall e :: e in more ==> e.key.user != k
    ensures FlatRead(history + more, k, s) == FlatRead(history, k, s)
    decreases |more|
  {
    if more == [] {
      assert history + more == history;
    } else {
      var all, init := history + more, more[..|more| - 1];
      assert all[..|all| - 1] == history + init && all[|all| - 1] == more[|more| - 1];
      OthersUnseen(history, init, k, s);
    }
  }

  // Steps that insert other keys add entries of other keys.
  lemma {:induction false} OthersOnly(db: Db, steps: seq<Step>, later: Db, k: UserKey)
    requires Inv(db) && RunsTo(db, steps, later) && forall step :: step in steps && step.Insert? ==> step.key != k
    ensures Extends(db, later) && forall e :: e in later.history[|db.history|..] ==> e.key.user != k
    decreases |steps|
  {
    hide Inv, Leads;
    RunExtends(db, steps, later);
    if steps != [] {
      var init, last := steps[..|steps| - 1], steps[|steps| - 1];
      var prev :| RunsTo(db, init, prev) && Leads(prev, last, later);
      OthersOnly(db, init, prev, k);
      OneMore(prev, last, later);
      var n := |db.history|;
      assert last in steps;
      if last.Insert? {
        assert later.history[n..] == prev.history[n..] + [later.history[|prev.history|]];
      }
    }
  }

  lemma {:induction false} OneMore(prev: Db, step: Step, later: Db)
    requires Leads(prev, step, later)
    ensures if step.Insert? then |later.history| == |prev.history| + 1 && later.history[..|prev.history|] == prev.history
                                  && later.history[|prev.history|].key.user == step.key
            else later.history == prev.history
  {
    hide InsertEntry, VersionAfterFlush, VersionAfterReplace, SafeStep, Enabled;
  }
}
