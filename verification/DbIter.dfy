/** DBIter (db/db_iter.cc): the user's view of an internal iterator at a snapshot. */
module DbIterator {
  import opened Coding
  import opened Options
  import opened Keys
  import opened Store
  import opened Cursors

  // Entry i may be seen at snapshot s.
  predicate Visible(es: seq<Entry>, s: nat, i: nat)
    requires i < |es|
  {
    es[i].key.sequence <= s
  }

  // Entry i is what its user key shows at snapshot s: the newest visible entry, and not a marker.
  predicate Live(es: seq<Entry>, s: nat, i: nat)
    requires i < |es|
  {
    && Visible(es, s, i) && es[i].key.kind.Value?
    && forall j :: 0 <= j < i && es[j].key.user == es[i].key.user ==> !Visible(es, s, j)
  }

  // First live position at or after i, |es| if there is none.
  function NextLive(es: seq<Entry>, s: nat, i: nat): (r: nat)
    requires i <= |es|
    ensures i <= r <= |es|
    ensures forall j :: i <= j < r ==> !Live(es, s, j)
    ensures r < |es| ==> Live(es, s, r)
    decreases |es| - i
  {
    if i == |es| || Live(es, s, i) then i else NextLive(es, s, i + 1)
  }

  // Last live position before i, |es| if there is none.
  function PrevLive(es: seq<Entry>, s: nat, i: nat): (r: nat)
    requires i <= |es|
    ensures r == |es| || (r < i && Live(es, s, r))
    ensures forall j :: (if r == |es| then 0 else r + 1) <= j < i ==> !Live(es, s, j)
  {
    if i == 0 then |es| else if Live(es, s, i - 1) then i - 1 else PrevLive(es, s, i - 1)
  }

  // The live entries among the first n, in order: what the user may see.
  function LiveEntries(es: seq<Entry>, s: nat, n: nat): seq<Entry>
    requires n <= |es|
  {
    if n == 0 then [] else LiveEntries(es, s, n - 1) + if Live(es, s, n - 1) then [es[n - 1]] else []
  }

  lemma {:induction false} LiveEntriesGrow(es: seq<Entry>, s: nat, i: nat, n: nat)
    requires i <= n <= |es|
    ensures LiveEntries(es, s, i) <= LiveEntries(es, s, n)
    ensures i < n && Live(es, s, i) ==> LiveEntries(es, s, i) + [es[i]] <= LiveEntries(es, s, n)
    ensures (forall j :: i <= j < n ==> !Live(es, s, j)) ==> LiveEntries(es, s, i) == LiveEntries(es, s, n)
    decreases n
  {
    if i < n {
      LiveEntriesGrow(es, s, i, n - 1);
    }
  }

  lemma {:induction false} LiveEntriesMembers(es: seq<Entry>, s: nat, n: nat, e: Entry)
    requires n <= |es|
    ensures e in LiveEntries(es, s, n) <==> exists i :: 0 <= i < n && Live(es, s, i) && es[i] == e
  {
    if n > 0 {
      LiveEntriesMembers(es, s, n - 1, e);
    }
  }

  // What the view shows at or past the position of index i comes from index i on.
  lemma {:induction false} LiveEntriesSuffix(es: seq<Entry>, s: nat, i: nat, n: nat, a: nat) returns (j: nat)
    requires i <= n <= |es| && |LiveEntries(es, s, i)| <= a < |LiveEntries(es, s, n)|
    ensures i <= j < n && es[j] == LiveEntries(es, s, n)[a]
    decreases n
  {
    if a < |LiveEntries(es, s, n - 1)| {
      j := LiveEntriesSuffix(es, s, i, n - 1, a);
    } else {
      j := n - 1;
    }
  }

  // Each user key appears once, in order.
  lemma {:induction false} LiveEntriesAscend(es: seq<Entry>, s: nat, n: nat)
    requires SortedEntries(es) && n <= |es|
    ensures forall i, j :: 0 <= i < j < |LiveEntries(es, s, n)| ==> LiveEntries(es, s, n)[i].key.user < LiveEntries(es, s, n)[j].key.user
  {
    if n > 0 {
      LiveEntriesAscend(es, s, n - 1);
      var view := LiveEntries(es, s, n - 1);
      if Live(es, s, n - 1) {
        forall i | 0 <= i < |view| ensures view[i].key.user < es[n - 1].key.user {
          LiveEntriesMembers(es, s, n - 1, view[i]);
          var a :| 0 <= a < n - 1 && Live(es, s, a) && es[a] == view[i];
          UsersAscend(es, a, n - 1);
        }
      }
    }
  }

  /** The view of the iterator is the snapshot: a user key is listed with exactly the value that a
      read of it at that snapshot returns, and is not listed if the read finds nothing. */
  lemma {:induction false} ViewIsSnapshot(es: seq<Entry>, all: iset<Entry>, s: nat, k: UserKey, r: Option<Bytes>)
    requires SortedEntries(es) && UniqueSequences(all) && forall e :: e in es <==> e in all
    requires ReadIs(all, k, s, r)
    ensures r.Some? <==> exists e :: e in LiveEntries(es, s, |es|) && e.key.user == k
    ensures forall e :: e in LiveEntries(es, s, |es|) && e.key.user == k ==> r == Some(e.value)
  {
    forall e | e in LiveEntries(es, s, |es|) && e.key.user == k ensures r == Some(e.value) {
      LiveEntriesMembers(es, s, |es|, e);
      var i :| 0 <= i < |es| && Live(es, s, i) && es[i] == e;
      LiveIsNewest(es, all, s, i);
      ReadIsUnique(all, k, s, r, Some(e.value));
    }
    if r.Some? {
      var e :| IsNewest(all, k, s, e) && r == Shown(e);
      NewestIsLive(es, all, s, k, e);
    }
  }

  lemma {:induction false} NewestIsLive(es: seq<Entry>, all: iset<Entry>, s: nat, k: UserKey, e: Entry)
    requires SortedEntries(es) && UniqueSequences(all) && forall e :: e in es <==> e in all
    requires IsNewest(all, k, s, e) && e.key.kind.Value?
    ensures e in LiveEntries(es, s, |es|)
  {
    assert e in es;
    var i :| 0 <= i < |es| && es[i] == e;
    forall j | 0 <= j < i && es[j].key.user == k ensures !Visible(es, s, j) {
      assert Before(es[j].key, es[i].key);
      assert es[j] in es;
    }
    LiveEntriesMembers(es, s, |es|, e);
  }

  lemma {:induction false} LiveIsNewest(es: seq<Entry>, all: iset<Entry>, s: nat, i: nat)
    requires SortedEntries(es) && forall e :: e in es <==> e in all
    requires i < |es| && Live(es, s, i)
    ensures IsNewest(all, es[i].key.user, s, es[i])
    ensures ReadIs(all, es[i].key.user, s, Some(es[i].value))
  {
    forall e | e in all && e.key.user == es[i].key.user && e.key.sequence <= s ensures e.key.sequence <= es[i].key.sequence {
      var j :| 0 <= j < |es| && es[j] == e;
      if i < j {
        assert Before(es[i].key, es[j].key);
      }
    }
    assert Shown(es[i]) == Some(es[i].value);
    assert es[i] in all;
  }

  // Position of the first entry whose user key is at least k.
  predicate IsFirstAtOrAfter(es: seq<Entry>, k: UserKey, i: nat) {
    && i <= |es|
    && (forall j :: 0 <= j < i ==> es[j].key.user < k)
    && (forall j :: i <= j < |es| ==> es[j].key.user >= k)
  }

  lemma {:induction false} UsersAscend(es: seq<Entry>, i: nat, j: nat)
    requires SortedEntries(es) && i <= j < |es|
    ensures es[i].key.user <= es[j].key.user
  {
    if i < j {
      assert Before(es[i].key, es[j].key);
    }
  }

  datatype Direction = Forward | Reverse

  class DBIter {
    const iter: Cursor
    const sequence: nat
    var savedKey: Option<UserKey>
    var savedValue: Bytes
    var direction: Direction
    var valid: bool
    ghost var cur: nat

    ghost predicate Run()
    {
      SortedEntries(iter.es)
    }

    // iter is at the last visible entry before the user key k; invalid if there is none.
    ghost predicate JustBefore(k: UserKey)
      reads iter
    {
      var es := iter.es;
      && iter.pos <= |es|
      && (iter.pos < |es| ==> Visible(es, sequence, iter.pos) && es[iter.pos].key.user < k)
      && (forall j :: (if iter.pos < |es| then iter.pos + 1 else 0) <= j < |es| && es[j].key.user < k ==> !Visible(es, sequence, j))
    }

    ghost predicate Ok()
      reads this, iter
    {
      var es := iter.es;
      && Run() && cur <= |es| && (valid <==> cur < |es|)
      && (valid ==>
            && Live(es, sequence, cur)
            && (direction == Forward ==> iter.pos == cur)
            && (direction == Reverse ==>
                  && savedKey == Some(es[cur].key.user) && savedValue == es[cur].value
                  && JustBefore(es[cur].key.user)))
    }

    // The view as a sorted list, and the position in it: DBIter is a Cursor over View().
    ghost function View(): seq<Entry> {
      LiveEntries(iter.es, sequence, |iter.es|)
    }

    ghost function Position(): nat
      requires cur <= |iter.es|
      reads this
    {
      |LiveEntries(iter.es, sequence, cur)|
    }

    // The position before an index is also the position of the next live index.
    lemma {:induction false} PositionNext(i: nat)
      requires i <= |iter.es| && cur == NextLive(iter.es, sequence, i)
      ensures Position() == |LiveEntries(iter.es, sequence, i)|
    {
      LiveEntriesGrow(iter.es, sequence, i, cur);
    }

    lemma {:induction false} PositionOfLive(i: nat)
      requires i < |iter.es| && Live(iter.es, sequence, i)
      ensures |LiveEntries(iter.es, sequence, i)| < |View()|
      ensures View()[|LiveEntries(iter.es, sequence, i)|] == iter.es[i]
      ensures |LiveEntries(iter.es, sequence, i + 1)| == |LiveEntries(iter.es, sequence, i)| + 1
    {
      LiveEntriesGrow(iter.es, sequence, i, |iter.es|);
    }

    lemma {:induction false} PositionPrev(i: nat)
      requires i <= |iter.es| && cur == PrevLive(iter.es, sequence, i)
      ensures var q := |LiveEntries(iter.es, sequence, i)|;
              Position() == if q == 0 then |View()| else q - 1
    {
      if cur == |iter.es| {
        LiveEntriesGrow(iter.es, sequence, 0, i);
      } else {
        PositionOfLive(cur);
        LiveEntriesGrow(iter.es, sequence, cur + 1, i);
      }
    }

    // What a valid iterator shows is the entry of the view at its position.
    lemma {:induction false} ShowsView()
      requires Ok()
      ensures valid <==> Position() < |View()|
      ensures valid ==> Key() == View()[Position()].key.user && GetValue() == View()[Position()].value
    {
      if valid {
        PositionOfLive(cur);
      }
    }

    constructor (iter: Cursor, s: nat)
      requires SortedEntries(iter.es)
      ensures Ok() && this.iter == iter && sequence == s && cur == |iter.es|
    {
      this.iter := iter;
      sequence := s;
      savedKey := None;
      savedValue := [];
      direction := Forward;
      valid := false;
      cur := |iter.es|;
    }

    function Key(): UserKey
      requires Ok() && valid
      reads this, iter
      ensures Key() == iter.es[cur].key.user
    {
      if direction == Forward then iter.Current().key.user else savedKey.value
    }

    function GetValue(): Bytes
      requires Ok() && valid
      reads this, iter
      ensures GetValue() == iter.es[cur].value
    {
      if direction == Forward then iter.Current().value else savedValue
    }

    // No visible entry of the position's user key lies before the position, unless `skip` covers it.
    ghost predicate ScanPoint(y: nat, skip: Option<UserKey>)
    {
      var es := iter.es;
      y <= |es| &&
      match skip
      case None => forall i, j :: 0 <= i < y && y <= j < |es| && Visible(es, sequence, i) ==> es[i].key.user != es[j].key.user
      case Some(k) =>
        && (forall i :: 0 <= i < y && Visible(es, sequence, i) ==> es[i].key.user <= k)
        && (forall i :: y <= i < |es| && Visible(es, sequence, i) ==> es[i].key.user >= k)
    }

    // What the forward scan looks for: a live entry past the key to skip.
    ghost predicate Wanted(i: nat, skip: Option<UserKey>)
      requires i < |iter.es|
    {
      Live(iter.es, sequence, i) && (skip.Some? ==> iter.es[i].key.user > skip.value)
    }

    /** FindNextUserEntry: `skip` is Some exactly when the source passes skipping = true. */
    method FindNextUserEntry(skip: Option<UserKey>)
      requires Run() && iter.Valid() && direction == Forward && ScanPoint(iter.pos, skip)
      modifies this, iter
      ensures direction == Forward && old(iter.pos) <= cur <= |iter.es| && (valid <==> cur < |iter.es|)
      ensures valid ==> iter.pos == cur && Wanted(cur, skip)
      ensures forall j :: old(iter.pos) <= j < cur ==> !Wanted(j, skip)
    {
      ghost var start := iter.pos;
      var hidden := skip;
      var more := true;
      hide Scanning, ScanPoint, Wanted, Live, SortedEntries;
      StartScan(start, skip);
      while more
        invariant iter.pos <= |iter.es| && (more <==> iter.Valid())
        invariant direction == Forward
        invariant Scanning(start, iter.pos, skip, hidden)
        decreases |iter.es| - iter.pos
      {
        var e := iter.Current();
        if e.key.sequence <= sequence {
          match e.key.kind
          case Deletion =>
            StepPastMarker(start, iter.pos, skip, hidden);
            hidden := Some(e.key.user);
          case Value =>
            if hidden.Some? && e.key.user <= hidden.value {
              StepPastHidden(start, iter.pos, skip, hidden);
            } else {
              FoundLive(start, iter.pos, skip, hidden);
              valid := true;
              savedKey := None;
              cur := iter.pos;
              return;
            }
        } else {
          StepPastInvisible(start, iter.pos, skip, hidden);
        }
        iter.Next();
        more := iter.Valid();
      }
      ScannedAll(start, skip, hidden);
      savedKey := None;
      valid := false;
      cur := |iter.es|;
    }

    // The scan from `start` has reached y without meeting a wanted entry; `hidden` is at least the
    // key asked to be skipped, and hides only what is not wanted.
    ghost predicate Scanning(start: nat, y: nat, skip: Option<UserKey>, hidden: Option<UserKey>) {
      && start <= y <= |iter.es| && ScanPoint(y, hidden)
      && (forall j :: start <= j < y ==> !Wanted(j, skip))
      && (skip.Some? ==> hidden.Some? && skip.value <= hidden.value)
      && (hidden.Some? ==> forall i :: y <= i < |iter.es| && iter.es[i].key.user <= hidden.value ==> !Wanted(i, skip))
    }

    lemma {:induction false} StartScan(y: nat, skip: Option<UserKey>)
      requires ScanPoint(y, skip)
      ensures Scanning(y, y, skip, skip)
    {
    }

    lemma {:induction false} ScannedAll(start: nat, skip: Option<UserKey>, hidden: Option<UserKey>)
      requires Scanning(start, |iter.es|, skip, hidden)
      ensures start <= |iter.es| && forall j :: start <= j < |iter.es| ==> !Wanted(j, skip)
    {
    }

    lemma {:induction false} StepPastMarker(start: nat, y: nat, skip: Option<UserKey>, hidden: Option<UserKey>)
      requires Run() && y < |iter.es| && Scanning(start, y, skip, hidden)
      requires Visible(iter.es, sequence, y) && iter.es[y].key.kind.Deletion?
      ensures Scanning(start, y + 1, skip, Some(iter.es[y].key.user))
    {
      var es := iter.es;
      var k := es[y].key.user;
      forall i | 0 <= i < |es| ensures (i <= y ==> es[i].key.user <= k) && (y <= i ==> es[i].key.user >= k) {
        if i <= y {
          UsersAscend(es, i, y);
        } else {
          UsersAscend(es, y, i);
        }
      }
      forall i | y + 1 <= i < |es| && es[i].key.user <= k ensures !Wanted(i, skip) {
        assert es[y].key.user == es[i].key.user;
      }
    }

    lemma {:induction false} StepPastHidden(start: nat, y: nat, skip: Option<UserKey>, hidden: Option<UserKey>)
      requires Run() && y < |iter.es| && Scanning(start, y, skip, hidden)
      requires hidden.Some? && iter.es[y].key.user <= hidden.value
      ensures Scanning(start, y + 1, skip, hidden)
    {
    }

    lemma {:induction false} StepPastInvisible(start: nat, y: nat, skip: Option<UserKey>, hidden: Option<UserKey>)
      requires Run() && y < |iter.es| && Scanning(start, y, skip, hidden)
      requires !Visible(iter.es, sequence, y)
      ensures Scanning(start, y + 1, skip, hidden)
    {
    }

    lemma {:induction false} FoundLive(start: nat, y: nat, skip: Option<UserKey>, hidden: Option<UserKey>)
      requires Run() && y < |iter.es| && Scanning(start, y, skip, hidden)
      requires Visible(iter.es, sequence, y) && iter.es[y].key.kind.Value?
      requires hidden.Some? ==> iter.es[y].key.user > hidden.value
      ensures Wanted(y, skip) && start <= y && forall j :: start <= j < y ==> !Wanted(j, skip)
    {
    }

    method SeekToFirst()
      requires Ok()
      modifies this, iter
      ensures Ok() && Position() == 0
    {
      direction := Forward;
      savedValue := [];
      iter.SeekToFirst();
      if iter.Valid() {
        FindNextUserEntry(None);
        FirstWanted(0, cur);
        SamePosition(0, cur);
      } else {
        valid := false;
        cur := |iter.es|;
      }
      PositionNext(0);
    }

    // The first wanted position is the first live one.
    lemma {:induction false} SamePosition(from: nat, r: nat)
      requires from <= r <= |iter.es| && (r < |iter.es| ==> Live(iter.es, sequence, r))
      requires forall j :: from <= j < r ==> !Live(iter.es, sequence, j)
      ensures r == NextLive(iter.es, sequence, from)
    {
    }

    lemma {:induction false} FirstWanted(from: nat, r: nat)
      requires from <= r <= |iter.es| && forall j :: from <= j < r ==> !Wanted(j, None)
      ensures forall j :: from <= j < r ==> !Live(iter.es, sequence, j)
    {
      forall j | from <= j < r ensures !Live(iter.es, sequence, j) {
        assert !Wanted(j, None);
      }
    }

    method Seek(target: UserKey)
      requires Ok()
      modifies this, iter
      ensures Ok() && IsFirstAtOrAfter(View(), target, Position())
    {
      direction := Forward;
      savedValue := [];
      savedKey := None;
      iter.Seek(LookupKey(target, sequence));
      ghost var i := SeekPoint(target);
      if iter.Valid() {
        ghost var from := iter.pos;
        FindNextUserEntry(None);
        FirstWanted(from, cur);
        SamePosition(i, cur);
      } else {
        valid := false;
        cur := |iter.es|;
        SamePosition(i, cur);
      }
      PositionNext(i);
      ViewFirstAtOrAfter(target, i);
    }

    lemma {:induction false} ViewFirstAtOrAfter(target: UserKey, i: nat)
      requires Run() && IsFirstAtOrAfter(iter.es, target, i)
      ensures IsFirstAtOrAfter(View(), target, |LiveEntries(iter.es, sequence, i)|)
    {
      var es, view := iter.es, View();
      var q := |LiveEntries(es, sequence, i)|;
      LiveEntriesGrow(es, sequence, i, |es|);
      forall a | 0 <= a < |view| ensures if a < q then view[a].key.user < target else view[a].key.user >= target {
        if a < q {
          assert view[a] == LiveEntries(es, sequence, i)[a];
          LiveEntriesMembers(es, sequence, i, view[a]);
        } else {
          var j := LiveEntriesSuffix(es, sequence, i, |es|, a);
        }
      }
    }

    // Entries between the first of the target's user key and the sought position are invisible.
    lemma {:induction false} SeekPoint(target: UserKey) returns (i: nat)
      requires Run() && iter.pos == LowerBound(iter.es, LookupKey(target, sequence))
      ensures IsFirstAtOrAfter(iter.es, target, i) && i <= iter.pos
      ensures ScanPoint(iter.pos, None)
      ensures forall j :: i <= j < iter.pos ==> !Live(iter.es, sequence, j)
    {
      var es := iter.es;
      i := FirstAtOrAfter(es, target);
      forall j | 0 <= j < |es| ensures j < iter.pos <==> Before(es[j].key, LookupKey(target, sequence)) {
        LowerBoundSorted(es, LookupKey(target, sequence), j);
      }
      forall a, b | 0 <= a < iter.pos && iter.pos <= b < |es| && Visible(es, sequence, a)
        ensures es[a].key.user != es[b].key.user
      {
        LookupKeySeparates(es[a].key, target, sequence);
      }
      forall j | i <= j < iter.pos ensures !Live(es, sequence, j) {
        LookupKeySeparates(es[j].key, target, sequence);
      }
    }

    static lemma {:induction false} FirstAtOrAfter(es: seq<Entry>, k: UserKey) returns (i: nat)
      requires SortedEntries(es)
      ensures IsFirstAtOrAfter(es, k, i)
    {
      i := 0;
      while i < |es| && es[i].key.user < k
        invariant 0 <= i <= |es|
        invariant forall j :: 0 <= j < i ==> es[j].key.user < k
      {
        i := i + 1;
      }
      forall j | i <= j < |es| ensures es[j].key.user >= k {
        UsersAscend(es, i, j);
      }
    }

    lemma {:induction false} AroundCurrent()
      requires Run() && cur < |iter.es|
      ensures forall i :: 0 <= i <= cur ==> iter.es[i].key.user <= iter.es[cur].key.user
      ensures forall i :: cur <= i < |iter.es| ==> iter.es[i].key.user >= iter.es[cur].key.user
    {
      forall i | 0 <= i < |iter.es|
        ensures i <= cur ==> iter.es[i].key.user <= iter.es[cur].key.user
        ensures cur <= i ==> iter.es[i].key.user >= iter.es[cur].key.user
      {
        if i <= cur {
          UsersAscend(iter.es, i, cur);
        } else {
          UsersAscend(iter.es, cur, i);
        }
      }
    }

    // The first half of Next: after it the iterator is at or before the current entry, with nothing
    // visible in between that a scan skipping the current key would stop at.
    method StartNext() returns (skip: UserKey)
      requires Ok() && valid
      modifies this`direction, this`savedKey, iter
      ensures direction == Forward && skip == iter.es[cur].key.user
      ensures iter.pos <= cur && ScanPoint(iter.pos, Some(skip))
    {
      if direction == Reverse {
        direction := Forward;
        ReverseScanPoint(iter.es[cur].key.user);
        if !iter.Valid() {
          iter.SeekToFirst();
        } else {
          iter.Next();
        }
        // The source returns here if nothing follows; the entries of the current key always do.
      } else {
        savedKey := Some(iter.Current().key.user);
        ForwardScanPoint();
      }
      skip := savedKey.value;
    }

    method Next()
      requires Ok() && valid
      modifies this, iter
      ensures old(Position()) < |View()| && View()[old(Position())] == iter.es[old(cur)]
      ensures Ok() && Position() == AfterNext(View(), old(Position()))
    {
      ghost var was := cur;
      PositionOfLive(was);
      var skip := StartNext();
      ghost var from := iter.pos;
      FindNextUserEntry(Some(skip));
      LiveAfter(was, from, cur, skip);
      PositionNext(was + 1);
    }

    // Past a live position, the live entries are those with a larger user key.
    lemma {:induction false} LiveAfter(was: nat, from: nat, r: nat, k: UserKey)
      requires Run() && was < |iter.es| && Live(iter.es, sequence, was) && k == iter.es[was].key.user
      requires from <= was && from <= r <= |iter.es|
      requires r < |iter.es| ==> Wanted(r, Some(k))
      requires forall j :: from <= j < r ==> !Wanted(j, Some(k))
      ensures r == NextLive(iter.es, sequence, was + 1)
    {
      var es := iter.es;
      if r <= was {
        UsersAscend(es, r, was);
      }
      forall j | was + 1 <= j < r ensures !Live(es, sequence, j) {
        UsersAscend(es, was, j);
        assert !Wanted(j, Some(k));
      }
      SamePosition(was + 1, r);
    }

    lemma {:induction false} ForwardScanPoint()
      requires Run() && cur < |iter.es|
      ensures ScanPoint(cur, Some(iter.es[cur].key.user))
    {
      AroundCurrent();
    }

    // Turning around: the entry after the iterator's position starts a scan that skips k.
    lemma {:induction false} ReverseScanPoint(k: UserKey)
      requires Run() && cur < |iter.es| && JustBefore(k) && k == iter.es[cur].key.user
      ensures var y := if iter.pos < |iter.es| then iter.pos + 1 else 0;
              y <= cur && ScanPoint(y, Some(k))
    {
      if iter.pos < |iter.es| {
        if cur <= iter.pos {
          UsersAscend(iter.es, cur, iter.pos);
        }
        forall i | 0 <= i <= iter.pos ensures iter.es[i].key.user <= k {
          UsersAscend(iter.es, i, iter.pos);
        }
      }
    }

    // One past the iterator's position, 0 if it is invalid: where a backward scan ends.
    ghost function Limit(): nat
      reads iter
    {
      if iter.pos < |iter.es| then iter.pos + 1 else 0
    }

    // The entries from lo up to hi have been scanned backwards; m is the lowest visible one, or |es|.
    ghost predicate Scanned(lo: nat, hi: nat, m: nat)
    {
      var es := iter.es;
      && lo <= hi <= |es| && (m == |es| || lo <= m < hi)
      && (m < |es| ==> Visible(es, sequence, m))
      && (forall j :: lo <= j < (if m == |es| then hi else m) ==> !Visible(es, sequence, j))
      && (forall j :: lo <= j < hi && j != m ==> !Live(es, sequence, j))
    }

    /** FindPrevUserEntry: the last live entry before the scan's start. */
    method FindPrevUserEntry()
      requires Run() && direction == Reverse && iter.pos <= |iter.es|
      modifies this, iter
      ensures Ok() && cur == PrevLive(iter.es, sequence, old(Limit()))
      ensures valid <==> direction == Reverse
    {
      var es := iter.es;
      StartBackward(Limit());
      hide Scanned, Live, JustBefore, SortedEntries;
      var valueType := Deletion;
      ghost var hi := Limit();
      ghost var m: nat := |es|;
      var more := iter.Valid();
      while more
        invariant iter.pos <= |es| && (more ==> iter.Valid())
        invariant Limit() <= hi && Scanned(Limit(), hi, m)
        invariant valueType == if m < |es| then es[m].key.kind else Deletion
        invariant valueType == Value ==> savedKey == Some(es[m].key.user) && savedValue == es[m].value
        invariant !more ==> !iter.Valid()
        invariant direction == Reverse
        decreases more, Limit()
      {
        var e := iter.Current();
        if e.key.sequence <= sequence {
          if valueType != Deletion && e.key.user < savedKey.value {
            break;
          }
          ScanVisible(iter.pos, hi, m);
          valueType := e.key.kind;
          m := iter.pos;
          if valueType == Deletion {
            savedKey := None;
            savedValue := [];
          } else {
            savedKey := Some(e.key.user);
            savedValue := e.value;
          }
        } else {
          ScanInvisible(iter.pos, hi, m);
        }
        iter.Prev();
        more := iter.Valid();
      }
      if valueType == Deletion {
        valid := false;
        savedKey := None;
        savedValue := [];
        direction := Forward;
        cur := |es|;
        NothingBefore(hi, m);
      } else {
        valid := true;
        cur := m;
        FoundBefore(hi, m);
      }
    }

    lemma {:induction false} StartBackward(hi: nat)
      requires hi <= |iter.es|
      ensures Scanned(hi, hi, |iter.es|)
    {
    }

    lemma {:induction false} ScanInvisible(y: nat, hi: nat, m: nat)
      requires y < hi && Scanned(y + 1, hi, m) && !Visible(iter.es, sequence, y)
      ensures Scanned(y, hi, m)
    {
    }

    // Moving the lowest visible entry from m down to y.
    lemma {:induction false} ScanVisible(y: nat, hi: nat, m: nat)
      requires Run() && y < hi && Scanned(y + 1, hi, m) && Visible(iter.es, sequence, y)
      requires m < |iter.es| && iter.es[m].key.kind.Value? ==> iter.es[y].key.user >= iter.es[m].key.user
      ensures Scanned(y, hi, y)
    {
      if m < |iter.es| {
        UsersAscend(iter.es, y, m);
      }
    }

    lemma {:induction false} NothingBefore(hi: nat, m: nat)
      requires Run() && Scanned(0, hi, m) && (m < |iter.es| ==> iter.es[m].key.kind.Deletion?)
      ensures PrevLive(iter.es, sequence, hi) == |iter.es|
    {
    }

    lemma {:induction false} FoundBefore(hi: nat, m: nat)
      requires Run() && Scanned(Limit(), hi, m) && m < |iter.es| && iter.es[m].key.kind.Value?
      requires iter.pos <= |iter.es|
      requires iter.Valid() ==> Visible(iter.es, sequence, iter.pos) && iter.es[iter.pos].key.user < iter.es[m].key.user
      ensures Live(iter.es, sequence, m) && m == PrevLive(iter.es, sequence, hi) && JustBefore(iter.es[m].key.user)
    {
      var es := iter.es;
      forall j | 0 <= j < |es|
        ensures j < Limit() ==> es[j].key.user < es[m].key.user
        ensures m <= j ==> es[j].key.user >= es[m].key.user
      {
        if j < Limit() {
          UsersAscend(es, j, iter.pos);
        } else if m <= j {
          UsersAscend(es, m, j);
        }
      }
      var r := PrevLive(es, sequence, hi);
      assert Live(es, sequence, m);
      assert r == |es| || r == m || r < Limit();
    }

    method SeekToLast()
      requires Ok()
      modifies this, iter
      ensures Ok() && Position() == LastPosition(View())
    {
      direction := Reverse;
      savedValue := [];
      iter.SeekToLast();
      FindPrevUserEntry();
      PositionPrev(|iter.es|);
    }

    method Prev()
      requires Ok() && valid
      modifies this, iter
      ensures old(Position()) < |View()| && View()[old(Position())] == iter.es[old(cur)]
      ensures Ok() && Position() == AfterPrev(View(), old(Position()))
    {
      var es := iter.es;
      ghost var was := cur;
      AroundCurrent();
      PositionOfLive(was);
      if direction == Forward {
        savedKey := Some(iter.Current().key.user);
        iter.Prev();
        while iter.Valid() && !(iter.Current().key.user < savedKey.value)
          invariant iter.Valid() ==> iter.pos < was
          invariant forall j :: Limit() <= j < was ==> es[j].key.user >= es[was].key.user
          invariant savedKey == Some(es[was].key.user)
          decreases Limit()
        {
          iter.Prev();
        }
        if !iter.Valid() {
          valid := false;
          savedKey := None;
          savedValue := [];
          cur := |es|;
          NoLiveBetween(0, was);
          PositionPrev(was);
          return;
        }
        direction := Reverse;
      } else {
        ReverseScanPoint(es[was].key.user);
      }
      NoLiveBetween(Limit(), was);
      FindPrevUserEntry();
      PositionPrev(was);
    }

    // Between the scan's start and the current entry there are only older or invisible entries.
    lemma {:induction false} NoLiveBetween(lo: nat, was: nat)
      requires Run() && lo <= was < |iter.es| && Live(iter.es, sequence, was)
      requires forall j :: lo <= j < was && Visible(iter.es, sequence, j) ==> iter.es[j].key.user >= iter.es[was].key.user
      ensures PrevLive(iter.es, sequence, was) == PrevLive(iter.es, sequence, lo)
      decreases was - lo
    {
      forall j | lo <= j < was ensures !Live(iter.es, sequence, j) {
        UsersAscend(iter.es, j, was);
      }
      PrevLiveSkips(iter.es, sequence, lo, was);
    }
  }

  lemma {:induction false} PrevLiveSkips(es: seq<Entry>, s: nat, lo: nat, hi: nat)
    requires lo <= hi <= |es| && forall j :: lo <= j < hi ==> !Live(es, s, j)
    ensures PrevLive(es, s, hi) == PrevLive(es, s, lo)
  {
    if lo < hi {
      PrevLiveSkips(es, s, lo, hi - 1);
    }
  }
}
