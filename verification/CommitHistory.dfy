/** A committed group as steps of the database (WriteBatchInternal::InsertInto, MemTableInserter). */
module CommitHistory {
  import opened Coding
  import opened Options
  import opened Keys
  import opened Store
  import opened BytewiseComparator
  import opened WriteBatches
  import opened Lsm
  import opened LsmInvariant

  // MemTableInserter::Put and Delete
  function InsertStep(op: Op): Step {
    match op
    case Put(key, value) => Insert(Value, Position(key), value)
    case Delete(key) => Insert(Deletion, Position(key), [])
  }

  function EntryOf(op: Op, sequence: nat): Entry {
    match op
    case Put(key, value) => Entry(InternalKey(Position(key), sequence, Value), value)
    case Delete(key) => Entry(InternalKey(Position(key), sequence, Deletion), [])
  }

  // The operations numbered from `first`.
  function EntriesOf(ops: seq<Op>, first: nat): (r: seq<Entry>)
    ensures |r| == |ops|
  {
    seq(|ops|, i requires 0 <= i < |ops| => EntryOf(ops[i], first + i))
  }

  // db' is db after the operations have been inserted one by one.
  ghost predicate Inserted(db: Db, ops: seq<Op>, db': Db)
    decreases |ops|
  {
    if ops == [] then db' == db
    else
      var init, last := ops[..|ops| - 1], InsertStep(ops[|ops| - 1]);
      exists mid :: Inserted(db, init, mid) && Leads(mid, last, db')
  }

  /** A group can always be inserted while numbers are left; it extends the history by its operations,
      numbered consecutively, and changes nothing that a reader uses. */
  lemma {:induction false} GroupInserts(db: Db, ops: seq<Op>) returns (db': Db)
    requires Inv(db) && db.allotted + |ops| < MAX_SEQUENCE
    ensures Inserted(db, ops, db') && Inv(db')
    ensures db'.history == db.history + EntriesOf(ops, db.allotted + 1) && db'.allotted == db.allotted + |ops|
    ensures db'.lastSequence == db.lastSequence && db'.snapshots == db.snapshots && db'.version == db.version && db'.imm == db.imm
    decreases |ops|
  {
    hide Inv, Leads, EntryOf, InsertStep;
    if ops == [] {
      db' := db;
      assert db.history + [] == db.history;
    } else {
      var init, last := ops[..|ops| - 1], InsertStep(ops[|ops| - 1]);
      var mid := GroupInserts(db, init);
      db' := InsertLeads(mid, ops[|ops| - 1]);
      var e := EntryOf(ops[|ops| - 1], db.allotted + |ops|);
      assert EntriesOf(ops, db.allotted + 1) == EntriesOf(init, db.allotted + 1) + [e];
    }
  }

  lemma {:induction false} InsertLeads(db: Db, op: Op) returns (db': Db)
    requires Inv(db) && db.allotted + 1 < MAX_SEQUENCE
    ensures Leads(db, InsertStep(op), db') && Inv(db')
    ensures db'.history == db.history + [EntryOf(op, db.allotted + 1)] && db'.allotted == db.allotted + 1
    ensures db'.lastSequence == db.lastSequence && db'.snapshots == db.snapshots && db'.version == db.version && db'.imm == db.imm
  {
    StepKeeps(db, InsertStep(op));
    hide Inv, RunningOk;
    db' := Apply(db, InsertStep(op));
  }

  // The last operation of the group on the key, if any.
  function LastWrite(ops: seq<Op>, k: UserKey): Option<Op> {
    if ops == [] then None
    else
      var last := ops[|ops| - 1];
      if Position(last.key) == k then Some(last) else LastWrite(ops[..|ops| - 1], k)
  }

  function Effect(op: Op): Option<Bytes> {
    match op
    case Put(_, value) => Some(value)
    case Delete(_) => None
  }

  /** A reader sees all of a group or none of it: below its first number nothing changes, and from its
      last number on the last operation on each key decides. */
  lemma {:induction false} GroupIsAtomic(history: seq<Entry>, n: nat, ops: seq<Op>, k: UserKey, s: nat)
    ensures
      var after := FlatRead(history + EntriesOf(ops, n + 1), k, s);
      && (s <= n ==> after == FlatRead(history, k, s))
      && (s >= n + |ops| ==>
            after == match LastWrite(ops, k)
              case None => FlatRead(history, k, s)
              case Some(op) => Effect(op))
    decreases |ops|
  {
    var all := history + EntriesOf(ops, n + 1);
    if ops == [] {
      assert all == history;
    } else {
      var init, op := ops[..|ops| - 1], ops[|ops| - 1];
      var e := EntryOf(op, n + |ops|);
      assert EntriesOf(ops, n + 1) == EntriesOf(init, n + 1) + [e];
      assert all[..|all| - 1] == history + EntriesOf(init, n + 1) && all[|all| - 1] == e;
      GroupIsAtomic(history, n, init, k, s);
    }
  }
}
