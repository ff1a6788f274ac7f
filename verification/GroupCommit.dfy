/** The writer queue (db/db_impl.cc: Write, BuildBatchGroup): a group of writers shares one log record.

    Writers are numbered in the order in which they joined the queue, so the queue is what has
    arrived and has not been popped. One step is what a thread does between two points where the
    mutex may change hands; writers can arrive between any two steps. */
module GroupCommit {
  import opened Coding
  import opened Options
  import opened Keys
  import opened WriteBatches

  // A null batch only asks for a memtable switch.
  datatype Writer = Writer(batch: Option<seq<Op>>, sync: bool)

  // ---- BuildBatchGroup ----

  // WriteBatchInternal::ByteSize
  function ByteSize(ops: seq<Op>): nat {
    HEADER + |EncodeOps(ops)|
  }

  function BatchOps(w: Writer): seq<Op> {
    if w.batch.Some? then w.batch.value else []
  }

  // The operations of a run of writers, in queue order.
  function GroupOps(ws: seq<Writer>): seq<Op> {
    if ws == [] then [] else GroupOps(ws[..|ws| - 1]) + BatchOps(ws[|ws| - 1])
  }

  function GroupBytes(ws: seq<Writer>): nat {
    if ws == [] then 0
    else
      var last := ws[|ws| - 1];
      GroupBytes(ws[..|ws| - 1]) + if last.batch.Some? then ByteSize(last.batch.value) else 0
  }

  // The group may grow to this size; a small first write keeps it small.
  function MaxSize(first: nat): nat {
    if first <= 131072 then first + 131072 else 1048576
  }

  // The writer after the group may not join it.
  predicate Refused(queue: seq<Writer>, next: nat)
    requires 0 < next < |queue| && queue[0].batch.Some?
  {
    || (queue[next].sync && !queue[0].sync)
    || (queue[next].batch.Some? && GroupBytes(queue[..next + 1]) > MaxSize(ByteSize(queue[0].batch.value)))
  }

  /** The longest run from the front that fits the size limit and has no sync write unless the first one is. */
  ghost predicate IsGroup(queue: seq<Writer>, last: nat) {
    && last < |queue| && queue[0].batch.Some?
    && (forall i :: 0 < i <= last ==> !Refused(queue, i))
    && (last + 1 < |queue| ==> Refused(queue, last + 1))
  }

  // The first n writers of the queue form a group so far.
  ghost predicate GroupSoFar(queue: seq<Writer>, n: nat, result: seq<Op>, size: nat) {
    && 0 < n <= |queue| && queue[0].batch.Some?
    && (forall i :: 0 < i < n ==> !Refused(queue, i))
    && result == GroupOps(queue[..n]) && size == GroupBytes(queue[..n])
  }

  // The tests in the loop decide whether writer n is refused.
  predicate Stops(queue: seq<Writer>, n: nat, size: nat)
    requires 0 < n < |queue| && queue[0].batch.Some?
  {
    var w := queue[n];
    || (w.sync && !queue[0].sync)
    || (w.batch.Some? && size + ByteSize(w.batch.value) > MaxSize(ByteSize(queue[0].batch.value)))
  }

  lemma {:induction false} GroupStarts(queue: seq<Writer>)
    requires queue != [] && queue[0].batch.Some?
    ensures GroupSoFar(queue, 1, queue[0].batch.value, ByteSize(queue[0].batch.value))
  {
    assert queue[..1][..0] == [];
    assert [] + queue[0].batch.value == queue[0].batch.value;
  }

  lemma {:induction false} GroupGrows(queue: seq<Writer>, n: nat, result: seq<Op>, size: nat)
    requires GroupSoFar(queue, n, result, size) && n < |queue| && !Stops(queue, n, size)
    ensures
      var w := queue[n];
      GroupSoFar(queue, n + 1, result + BatchOps(w), size + if w.batch.Some? then ByteSize(w.batch.value) else 0)
  {
    hide ByteSize;
    assert queue[..n + 1][..n] == queue[..n];
  }

  lemma {:induction false} GroupEnds(queue: seq<Writer>, n: nat, result: seq<Op>, size: nat)
    requires GroupSoFar(queue, n, result, size) && (n < |queue| ==> Stops(queue, n, size))
    ensures IsGroup(queue, n - 1) && result == GroupOps(queue[..n])
  {
    hide ByteSize;
    assert n < |queue| ==> queue[..n + 1][..n] == queue[..n];
  }

  method BuildBatchGroup(queue: seq<Writer>) returns (result: seq<Op>, last: nat)
    requires queue != [] && queue[0].batch.Some?
    ensures IsGroup(queue, last) && result == GroupOps(queue[..last + 1])
  {
    hide GroupSoFar, ByteSize, GroupOps, GroupBytes, IsGroup;
    var first := queue[0];
    result := first.batch.value;
    var size: nat := ByteSize(first.batch.value);
    var maxSize := 1048576;
    if size <= 131072 {
      maxSize := size + 131072;
    }
    last := 0;
    GroupStarts(queue);
    while last + 1 < |queue|
      invariant last < |queue| && GroupSoFar(queue, last + 1, result, size)
    {
      var w := queue[last + 1];
      GroupStep(queue, last + 1, result, size);
      if w.sync && !first.sync {
        return;
      }
      if w.batch.Some? {
        if size + ByteSize(w.batch.value) > maxSize {
          return;
        }
        size := size + ByteSize(w.batch.value);
        result := result + w.batch.value;
      }
      last := last + 1;
    }
    GroupEnds(queue, last + 1, result, size);
  }

  lemma {:induction false} GroupStep(queue: seq<Writer>, n: nat, result: seq<Op>, size: nat)
    requires GroupSoFar(queue, n, result, size) && 0 < n < |queue| && queue[0].batch.Some?
    ensures Stops(queue, n, size) ==> IsGroup(queue, n - 1) && result == GroupOps(queue[..n])
    ensures !Stops(queue, n, size) ==>
      var w := queue[n];
      GroupSoFar(queue, n + 1, if w.batch.Some? then result + w.batch.value else result,
                 if w.batch.Some? then size + ByteSize(w.batch.value) else size)
  {
    if Stops(queue, n, size) {
      GroupEnds(queue, n, result, size);
    } else {
      GroupGrows(queue, n, result, size);
      assert result + [] == result;
    }
  }

  // ---- The state machine ----

  /** One log record: the writers first..last, and their operations numbered from `sequence`. */
  datatype Record = Record(first: nat, last: nat, sequence: nat, ops: seq<Op>, synced: bool)

  datatype Phase = Idle | Logging(record: Record)

  datatype State = State(
    arrived: seq<Writer>,
    results: seq<bool>,          // for the writers popped so far, whether their call succeeded
    phase: Phase,
    lastSequence: nat,
    log: seq<Record>,
    applied: seq<Record>,        // inserted in the memtable
    bgError: bool)

  // What became of the log append, the sync and the memtable insertion of a group.
  datatype Outcome = AppendFailed(reached: bool) | SyncFailed | InsertFailed | Written

  datatype Step =
    | Arrive(w: Writer)
    | FailLeader                 // MakeRoomForWrite fails
    | NullLeader
    | StartGroup(last: nat)      // the lock is released for logging
    | EndGroup(outcome: Outcome) // the lock is taken again and the group is popped
    | BackgroundError

  function Head(s: State): nat {
    |s.results|
  }

  function Queue(s: State): seq<Writer>
    requires Head(s) <= |s.arrived|
  {
    s.arrived[Head(s)..]
  }

  ghost predicate Enabled(s: State, step: Step) {
    Head(s) <= |s.arrived| &&
    match step
    case Arrive(w) => true
    case FailLeader => s.phase.Idle? && Queue(s) != []
    case NullLeader => s.phase.Idle? && Queue(s) != [] && !s.bgError && Queue(s)[0].batch.None?
    case StartGroup(last) => s.phase.Idle? && Queue(s) != [] && !s.bgError && IsGroup(Queue(s), last)
    case EndGroup(outcome) => s.phase.Logging? && (outcome.SyncFailed? ==> Queue(s) != [] && Queue(s)[0].sync)
    case BackgroundError => true
  }

  function Succeeded(o: Outcome): bool {
    o.Written?
  }

  function Reached(o: Outcome): bool {
    !o.AppendFailed? || o.reached
  }

  ghost function Apply(s: State, step: Step): State
    requires Enabled(s, step)
  {
    match step
    case Arrive(w) => s.(arrived := s.arrived + [w])
    case FailLeader => s.(results := s.results + [false])
    case NullLeader => s.(results := s.results + [true])
    case StartGroup(last) =>
      s.(phase := Logging(Record(Head(s), Head(s) + last, s.lastSequence + 1, GroupOps(Queue(s)[..last + 1]), false)))
    case EndGroup(o) =>
      var r := s.phase.record.(synced := o.Written? && Queue(s) != [] && Queue(s)[0].sync);
      State(s.arrived, s.results + seq(if r.last >= r.first then r.last - r.first + 1 else 0, _ => Succeeded(o)), Idle,
            s.lastSequence + |r.ops|,
            if Reached(o) then s.log + [r] else s.log,
            if o.Written? then s.applied + [r] else s.applied,
            s.bgError || o.SyncFailed?)
    case BackgroundError => s.(bgError := true)
  }

  // ---- Invariant ----

  // The record holds exactly the operations of its writers, and its leader syncs if any of them asks for it.
  ghost predicate RecordOk(arrived: seq<Writer>, r: Record) {
    && r.first <= r.last < |arrived| && r.ops == GroupOps(arrived[r.first..r.last + 1])
    && arrived[r.first].batch.Some?
    && forall i :: r.first <= i <= r.last && arrived[i].sync ==> arrived[r.first].sync
  }

  // Earlier records hold earlier writers and smaller sequence numbers.
  predicate InOrder(r: Record, r': Record) {
    r.last < r'.first && r.sequence + |r.ops| <= r'.sequence
  }

  predicate Ordered(rs: seq<Record>) {
    forall i, j :: 0 <= i < j < |rs| ==> InOrder(rs[i], rs[j])
  }

  // All of a record's writers were told the same.
  ghost predicate SharedResult(s: State, r: Record) {
    r.last < |s.results| && forall i :: r.first <= i <= r.last ==> s.results[i] == (r in s.applied)
  }

  // A writer that was told "ok" is in a record that is in the log and in the memtable, synced if it asked for that.
  ghost predicate Delivered(s: State, i: nat)
    requires i < |s.arrived|
  {
    exists k :: 0 <= k < |s.applied| && s.applied[k].first <= i <= s.applied[k].last && s.applied[k] in s.log && (s.arrived[i].sync ==> s.applied[k].synced)
  }

  ghost predicate Inv(s: State) {
    && Head(s) <= |s.arrived|
    && Ordered(s.log) && Ordered(s.applied)
    && (forall r :: r in s.log ==> RecordOk(s.arrived, r) && r.last < Head(s) && r.sequence + |r.ops| <= s.lastSequence + 1)
    && (forall r :: r in s.applied ==> r in s.log)
    && (forall r :: r in s.log ==> SharedResult(s, r))
    && (forall i :: 0 <= i < Head(s) && s.results[i] && s.arrived[i].batch.Some? ==> Delivered(s, i))
    && (s.phase.Logging? ==>
          var r := s.phase.record;
          RecordOk(s.arrived, r) && r.first == Head(s) && r.sequence == s.lastSequence + 1)
  }

  lemma {:induction false} GroupIsRecord(arrived: seq<Writer>, head: nat, last: nat, sequence: nat)
    requires head <= |arrived| && IsGroup(arrived[head..], last)
    ensures RecordOk(arrived, Record(head, head + last, sequence, GroupOps(arrived[head..][..last + 1]), false))
  {
    var queue := arrived[head..];
    assert queue[..last + 1] == arrived[head..head + last + 1];
    forall i | head <= i <= head + last && arrived[i].sync ensures arrived[head].sync {
      if i > head {
        assert queue[i - head] == arrived[i] && !Refused(queue, i - head);
      }
    }
  }

  lemma {:induction false} RecordStays(arrived: seq<Writer>, w: Writer, r: Record)
    requires RecordOk(arrived, r)
    ensures RecordOk(arrived + [w], r)
  {
    assert (arrived + [w])[r.first..r.last + 1] == arrived[r.first..r.last + 1];
  }

  lemma {:induction false} ArriveKeeps(s: State, w: Writer)
    requires Inv(s)
    ensures Inv(Apply(s, Arrive(w)))
  {
    var s' := Apply(s, Arrive(w));
    forall r | RecordOk(s.arrived, r) ensures RecordOk(s'.arrived, r) {
      RecordStays(s.arrived, w, r);
    }
    hide RecordOk, Ordered;
    forall i | 0 <= i < Head(s') && s'.results[i] && s'.arrived[i].batch.Some? ensures Delivered(s', i) {
      assert Delivered(s, i);
    }
    forall r | r in s'.log ensures SharedResult(s', r) {
      assert SharedResult(s, r);
    }
  }

  // Popping one writer that is in no record.
  lemma {:induction false} PopKeeps(s: State, ok: bool)
    requires Inv(s) && s.phase.Idle? && Head(s) < |s.arrived| && (ok ==> s.arrived[Head(s)].batch.None?)
    ensures Inv(s.(results := s.results + [ok]))
  {
    var s' := s.(results := s.results + [ok]);
    hide RecordOk, Ordered;
    forall i | 0 <= i < Head(s') && s'.results[i] && s'.arrived[i].batch.Some? ensures Delivered(s', i) {
      assert i < Head(s) && s.results[i];
      assert Delivered(s, i);
    }
    forall r | r in s'.log ensures SharedResult(s', r) {
      assert SharedResult(s, r);
    }
  }

  lemma {:induction false} EndKeeps(s: State, o: Outcome)
    requires Inv(s) && Enabled(s, EndGroup(o))
    ensures Inv(Apply(s, EndGroup(o)))
  {
    hide RecordOk, Ordered, IsGroup, GroupOps, SharedResult, Delivered, Apply, InOrder;
    var s' := Apply(s, EndGroup(o));
    LeaderWaits(s);
    var r := s.phase.record.(synced := o.Written? && Queue(s)[0].sync);
    EndState(s, o, r);
    EndOrdered(s, r);
    EndShared(s, s', o, r);
    EndDelivered(s, s', o, r);
  }

  lemma {:induction false} LeaderWaits(s: State)
    requires Inv(s) && s.phase.Logging?
    ensures Queue(s) != []
  {
    hide Ordered, SharedResult, Delivered;
  }

  lemma {:induction false} EndShared(s: State, s': State, o: Outcome, r: Record)
    requires Inv(s) && r.first == Head(s) && r.first <= r.last && (forall q :: q in s.log ==> InOrder(q, r))
    requires |s'.results| == r.last + 1 && s'.results[..Head(s)] == s.results
    requires forall i :: r.first <= i <= r.last ==> s'.results[i] == o.Written?
    requires s'.applied == if o.Written? then s.applied + [r] else s.applied
    ensures forall q :: q in s.log + [r] ==> SharedResult(s', q)
  {
    hide RecordOk, Ordered, Delivered;
    forall q | q in s.log + [r] ensures SharedResult(s', q) {
      if q in s.log {
        assert SharedResult(s, q) && q.last < r.first;
        assert forall i :: q.first <= i <= q.last ==> s'.results[i] == s.results[i];
      }
    }
  }

  lemma {:induction false} EndDelivered(s: State, s': State, o: Outcome, r: Record)
    requires Inv(s) && s'.arrived == s.arrived && r.first <= r.last < |s.arrived| && r.first == Head(s) && RecordOk(s.arrived, r)
    requires r.synced == (o.Written? && s.arrived[r.first].sync)
    requires |s'.results| == r.last + 1 && s'.results[..Head(s)] == s.results
    requires forall i :: r.first <= i <= r.last ==> s'.results[i] == o.Written?
    requires s'.log == (if Reached(o) then s.log + [r] else s.log) && s'.applied == (if o.Written? then s.applied + [r] else s.applied)
    ensures forall i :: 0 <= i < Head(s') && s'.results[i] && s'.arrived[i].batch.Some? ==> Delivered(s', i)
  {
    hide RecordOk, Ordered, SharedResult;
    forall i | 0 <= i < Head(s') && s'.results[i] && s'.arrived[i].batch.Some? ensures Delivered(s', i) {
      if i < Head(s) {
        assert s'.results[..Head(s)][i] == s.results[i];
        assert Delivered(s, i);
        DeliveredStays(s, s', i);
      } else {
        NewlyDelivered(s, s', r, i);
      }
    }
  }

  // What EndGroup changes, field by field.
  lemma {:induction false} EndState(s: State, o: Outcome, r: Record)
    requires Inv(s) && Enabled(s, EndGroup(o)) && Queue(s) != [] && r == s.phase.record.(synced := o.Written? && Queue(s)[0].sync)
    ensures
      var s' := Apply(s, EndGroup(o));
      && s'.arrived == s.arrived && s'.phase.Idle? && s'.lastSequence == s.lastSequence + |r.ops|
      && s'.log == (if Reached(o) then s.log + [r] else s.log) && s'.applied == (if o.Written? then s.applied + [r] else s.applied)
      && |s'.results| == r.last + 1 && s'.results[..Head(s)] == s.results && r.first == Head(s) <= r.last < |s.arrived|
      && forall i :: r.first <= i <= r.last ==> s'.results[i] == o.Written?
    ensures RecordOk(s.arrived, r) && r.sequence == s.lastSequence + 1 && s.arrived[r.first] == Queue(s)[0]
  {
    hide IsGroup, GroupOps, Ordered;
    assert RecordOk(s.arrived, s.phase.record);
  }

  lemma {:induction false} EndOrdered(s: State, r: Record)
    requires Inv(s) && r.first == Head(s) && r.first <= r.last && r.sequence == s.lastSequence + 1
    ensures Ordered(s.log + [r]) && Ordered(s.applied + [r]) && r !in s.log && r !in s.applied
    ensures forall q :: q in s.log ==> InOrder(q, r)
  {
    hide RecordOk;
    assert forall q :: q in s.log ==> InOrder(q, r);
  }

  lemma {:induction false} DeliveredStays(s: State, s': State, i: nat)
    requires i < |s.arrived| && Delivered(s, i) && s.arrived == s'.arrived && s.log <= s'.log && s.applied <= s'.applied
    ensures Delivered(s', i)
  {
    var k :| 0 <= k < |s.applied| && s.applied[k].first <= i <= s.applied[k].last && s.applied[k] in s.log && (s.arrived[i].sync ==> s.applied[k].synced);
    assert s'.applied[k] == s.applied[k];
  }

  lemma {:induction false} NewlyDelivered(s: State, s': State, r: Record, i: nat)
    requires s'.applied == s.applied + [r] && s'.log == s.log + [r] && s'.arrived == s.arrived
    requires RecordOk(s.arrived, r) && r.synced == s.arrived[r.first].sync && r.first <= i <= r.last
    ensures Delivered(s', i)
  {
    assert s'.applied[|s.applied|] == r;
  }

  lemma {:induction false} StartKeeps(s: State, last: nat)
    requires Inv(s) && Enabled(s, StartGroup(last))
    ensures Inv(Apply(s, StartGroup(last)))
  {
    hide Ordered, RecordOk, SharedResult, Delivered, IsGroup, GroupOps;
    GroupIsRecord(s.arrived, Head(s), last, s.lastSequence + 1);
    SameShared(s, Apply(s, StartGroup(last)));
  }

  lemma {:induction false} StepKeeps(s: State, step: Step)
    requires Inv(s) && Enabled(s, step)
    ensures Inv(Apply(s, step))
  {
    hide Ordered, RecordOk, SharedResult, Delivered, IsGroup, GroupOps;
    match step
    case Arrive(w) => ArriveKeeps(s, w);
    case FailLeader => PopKeeps(s, false);
    case NullLeader => PopKeeps(s, true);
    case StartGroup(last) => StartKeeps(s, last);
    case EndGroup(o) => EndKeeps(s, o);
    case BackgroundError => SameShared(s, Apply(s, step));
  }

  lemma {:induction false} SameShared(s: State, s': State)
    requires s.arrived == s'.arrived && s.results == s'.results && s.log == s'.log && s.applied == s'.applied
    ensures forall r :: SharedResult(s, r) ==> SharedResult(s', r)
    ensures forall i :: 0 <= i < |s.arrived| && Delivered(s, i) ==> Delivered(s', i)
  {
  }

  function InitialState(): State {
    State([], [], Idle, 0, [], [], false)
  }

  ghost predicate Reachable(s: State, steps: seq<Step>)
    decreases |steps|
  {
    if steps == [] then s == InitialState()
    else
      var init, last := steps[..|steps| - 1], steps[|steps| - 1];
      exists prev :: Reachable(prev, init) && Leads(prev, last, s)
  }

  ghost predicate Leads(prev: State, step: Step, s: State) {
    Enabled(prev, step) && s == Apply(prev, step)
  }

  /** Every interleaving of Write calls keeps the invariant. */
  lemma {:induction false} RunsKeepInv(s: State, steps: seq<Step>)
    requires Reachable(s, steps)
    ensures Inv(s)
    decreases |steps|
  {
    if steps != [] {
      var init, last := steps[..|steps| - 1], steps[|steps| - 1];
      var prev :| Reachable(prev, init) && Leads(prev, last, s);
      RunsKeepInv(prev, init);
      StepKeeps(prev, last);
    }
  }

  // ---- What a caller of Write may rely on ----

  lemma {:induction false} DeliveredRecord(s: State, i: nat) returns (a: nat)
    requires i < |s.arrived| && Delivered(s, i)
    ensures a < |s.applied| && s.applied[a].first <= i <= s.applied[a].last && s.applied[a] in s.log && (s.arrived[i].sync ==> s.applied[a].synced)
  {
    a :| 0 <= a < |s.applied| && s.applied[a].first <= i <= s.applied[a].last && s.applied[a] in s.log && (s.arrived[i].sync ==> s.applied[a].synced);
  }

  lemma {:induction false} OneRecord(log: seq<Record>, i: nat, m: nat, k: nat)
    requires Ordered(log) && m < |log| && k < |log|
    requires log[m].first <= i <= log[m].last && log[k].first <= i <= log[k].last
    ensures m == k
  {
  }

  /** A successful batch is in exactly one record of the log, and a sync write was synced. */
  lemma {:induction false} LoggedOnce(s: State, steps: seq<Step>, i: nat) returns (k: nat)
    requires Reachable(s, steps) && i < |s.results| && i < |s.arrived| && s.results[i] && s.arrived[i].batch.Some?
    ensures k < |s.log| && s.log[k].first <= i <= s.log[k].last && s.log[k] in s.applied
    ensures s.arrived[i].sync ==> s.log[k].synced && s.arrived[s.log[k].first].sync
    ensures forall m :: 0 <= m < |s.log| && s.log[m].first <= i <= s.log[m].last ==> m == k
  {
    RunsKeepInv(s, steps);
    assert Head(s) <= |s.arrived| && Delivered(s, i);
    var a := DeliveredRecord(s, i);
    k :| 0 <= k < |s.log| && s.log[k] == s.applied[a];
    assert RecordOk(s.arrived, s.log[k]);
    forall m | 0 <= m < |s.log| && s.log[m].first <= i <= s.log[m].last ensures m == k {
      OneRecord(s.log, i, m, k);
    }
  }

  // The sequence number of operation j of writer i, which is in the record r.
  function NumberOf(arrived: seq<Writer>, r: Record, i: nat, j: nat): nat
    requires r.first <= i < |arrived|
  {
    r.sequence + |GroupOps(arrived[r.first..i])| + j
  }

  lemma {:induction false} GroupOpsAt(ws: seq<Writer>, i: nat, j: nat)
    requires i < |ws| && j < |BatchOps(ws[i])|
    ensures |GroupOps(ws[..i])| + |BatchOps(ws[i])| <= |GroupOps(ws)|
    ensures GroupOps(ws)[|GroupOps(ws[..i])| + j] == BatchOps(ws[i])[j]
    decreases |ws|
  {
    var init := ws[..|ws| - 1];
    if i < |init| {
      GroupOpsAt(init, i, j);
      assert init[..i] == ws[..i];
    } else {
      assert init == ws[..i];
    }
  }

  lemma {:induction false} GroupOpsGrow(ws: seq<Writer>, i: nat, m: nat)
    requires i < m <= |ws|
    ensures |GroupOps(ws[..i])| + |BatchOps(ws[i])| <= |GroupOps(ws[..m])|
    decreases m
  {
    assert ws[..m][..m - 1] == ws[..m - 1];
    if i < m - 1 {
      GroupOpsGrow(ws, i, m - 1);
    }
  }

  // The record stores each operation under its number.
  lemma {:induction false} StoredUnderNumber(arrived: seq<Writer>, r: Record, i: nat, j: nat)
    requires RecordOk(arrived, r) && r.first <= i <= r.last && j < |BatchOps(arrived[i])|
    ensures NumberOf(arrived, r, i, j) < r.sequence + |r.ops|
    ensures r.ops[NumberOf(arrived, r, i, j) - r.sequence] == BatchOps(arrived[i])[j]
  {
    var ws := arrived[r.first..r.last + 1];
    assert ws[..i - r.first] == arrived[r.first..i];
    GroupOpsAt(ws, i - r.first, j);
  }

  /** Sequence numbers follow the order of arrival, and no number is used twice. */
  lemma {:induction false} NumbersFollowArrival(s: State, steps: seq<Step>, k: nat, i: nat, j: nat, k': nat, i': nat, j': nat)
    requires Reachable(s, steps) && k < |s.log| && k' < |s.log|
    requires s.log[k].first <= i <= s.log[k].last && s.log[k'].first <= i' <= s.log[k'].last
    requires i < |s.arrived| && i' < |s.arrived| && j < |BatchOps(s.arrived[i])| && j' < |BatchOps(s.arrived[i'])|
    requires i < i' || (i == i' && k == k' && j < j')
    ensures NumberOf(s.arrived, s.log[k], i, j) < NumberOf(s.arrived, s.log[k'], i', j')
  {
    RunsKeepInv(s, steps);
    var r, r' := s.log[k], s.log[k'];
    assert r in s.log && r' in s.log && RecordOk(s.arrived, r) && RecordOk(s.arrived, r');
    assert k < k' ==> InOrder(r, r');
    assert k' < k ==> InOrder(r', r);
    hide Inv, RecordOk, Reachable, BatchOps, GroupOps;
    if k < k' {
      StoredUnderNumber(s.arrived, r, i, j);
    } else if i < i' {
      WithinRecord(s.arrived, r, i, j, i', j');
    }
  }

  lemma {:induction false} WithinRecord(arrived: seq<Writer>, r: Record, i: nat, j: nat, i': nat, j': nat)
    requires r.first <= i < i' <= r.last < |arrived| && j < |BatchOps(arrived[i])|
    ensures NumberOf(arrived, r, i, j) < NumberOf(arrived, r, i', j')
  {
    var ws := arrived[r.first..r.last + 1];
    assert ws[..i - r.first] == arrived[r.first..i] && ws[..i' - r.first] == arrived[r.first..i'];
    GroupOpsGrow(ws, i - r.first, i' - r.first);
  }

  // ---- After an error ----

  // t is reached from s by the steps.
  ghost predicate Runs(s: State, steps: seq<Step>, t: State)
    decreases |steps|
  {
    if steps == [] then t == s
    else
      var init, last := steps[..|steps| - 1], steps[|steps| - 1];
      exists prev :: Runs(s, init, prev) && Leads(prev, last, t)
  }

  predicate InFlight(s: State, i: nat) {
    s.phase.Logging? && s.phase.record.first <= i <= s.phase.record.last
  }

  // What t can have written since s: at most the group that was being logged at s.
  ghost predicate OnlyInFlight(s: State, t: State) {
    var most := if s.phase.Logging? then 1 else 0;
    && s.log <= t.log && |t.log| <= |s.log| + most
    && s.applied <= t.applied && |t.applied| <= |s.applied| + most
    && s.results <= t.results
    && forall i :: |s.results| <= i < |t.results| && t.results[i] ==> InFlight(s, i)
  }

  ghost predicate Stopped(s: State, t: State) {
    && t.bgError && OnlyInFlight(s, t)
    && (t.phase.Logging? ==> t.phase == s.phase && t.log == s.log && t.applied == s.applied && t.results == s.results)
  }

  lemma {:induction false} StepStaysStopped(s: State, t: State, step: Step)
    requires Inv(t) && Stopped(s, t) && Enabled(t, step)
    ensures Stopped(s, Apply(t, step))
  {
    hide Ordered, RecordOk, SharedResult, Delivered, IsGroup, GroupOps;
  }

  /** Once the background error is set - by a failed sync, or by the background thread - then
      whatever happens and whoever arrives, no group is logged or applied any more except the one
      that was being logged at that moment, and every other write that returns has failed. */
  lemma {:induction false} NothingAfterError(s: State, steps: seq<Step>, t: State)
    requires Inv(s) && s.bgError && Runs(s, steps, t)
    ensures t.bgError && OnlyInFlight(s, t)
    ensures Inv(t) && Stopped(s, t)
    decreases |steps|
  {
    hide Inv, Stopped, Enabled, Apply;
    if steps == [] {
      StoppedAtOnce(s);
    } else {
      var init, last := steps[..|steps| - 1], steps[|steps| - 1];
      var prev :| Runs(s, init, prev) && Leads(prev, last, t);
      NothingAfterError(s, init, prev);
      StepStaysStopped(s, prev, last);
      StepKeeps(prev, last);
    }
    StoppedIs(s, t);
  }

  lemma {:induction false} StoppedAtOnce(s: State)
    requires s.bgError
    ensures Stopped(s, s)
  {
  }

  lemma {:induction false} StoppedIs(s: State, t: State)
    requires Stopped(s, t)
    ensures t.bgError && OnlyInFlight(s, t)
  {
  }

  /** A failed sync is such an error. From that step on, in every continuation, nothing more is logged
      or applied, and every call that returns - of the group itself, or of any later write - has failed. */
  lemma {:induction false} FailedSyncStopsWrites(before: seq<Step>, s: State, steps: seq<Step>, t: State)
    requires Reachable(s, before) && Enabled(s, EndGroup(SyncFailed)) && Runs(Apply(s, EndGroup(SyncFailed)), steps, t)
    ensures t.log == s.log + [s.phase.record.(synced := false)] && t.applied == s.applied
    ensures s.results <= t.results && |t.results| > s.phase.record.last
    ensures forall i :: |s.results| <= i < |t.results| ==> !t.results[i]
  {
    hide Inv, Reachable, Runs, Enabled, IsGroup, GroupOps;
    RunsKeepInv(s, before);
    var u := Apply(s, EndGroup(SyncFailed));
    EndKeeps(s, SyncFailed);
    SyncFailureSets(s);
    NothingAfterError(u, steps, t);
    assert u.results <= t.results;
  }

  lemma {:induction false} SyncFailureSets(s: State)
    requires Inv(s) && Enabled(s, EndGroup(SyncFailed))
    ensures
      var u := Apply(s, EndGroup(SyncFailed));
      && u.bgError && u.phase.Idle? && u.log == s.log + [s.phase.record.(synced := false)] && u.applied == s.applied
      && s.results <= u.results && |u.results| == s.phase.record.last + 1
      && forall i :: |s.results| <= i < |u.results| ==> !u.results[i]
  {
    hide Ordered, SharedResult, Delivered, IsGroup, GroupOps;
    assert RecordOk(s.arrived, s.phase.record);
  }
}
