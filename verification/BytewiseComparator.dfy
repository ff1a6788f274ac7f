/** The default comparator (util/comparator.cc) and the separators that the index block uses (db/dbformat.cc). */
module BytewiseComparator {
  import opened Coding
  import opened Keys

  // Compare(a, b) < 0: memcmp on the common length, then the shorter string first.
  predicate Less(a: Bytes, b: Bytes) {
    b != [] && (a == [] || a[0] < b[0] || (a[0] == b[0] && Less(a[1..], b[1..])))
  }

  // ---- Byte strings as positions on the line ----

  // Digits 1..256 in base 257 after the point; the end of the string is digit 0.
  function Position(s: Bytes): (r: real) {
    if s == [] then 0.0 else (s[0] as real + 1.0 + Position(s[1..])) / 257.0
  }

  lemma {:induction false} PositionBounds(s: Bytes)
    ensures 0.0 <= Position(s) < 1.0
    ensures s != [] ==> 0.0 < Position(s)
  {
    if s != [] {
      PositionBounds(s[1..]);
    }
  }

  /** The order of byte strings is the order of their positions, so Keys may take a user key to be its position. */
  lemma {:induction false} PositionOrder(a: Bytes, b: Bytes)
    ensures Less(a, b) <==> Position(a) < Position(b)
    ensures Position(a) == Position(b) ==> a == b
    decreases |a|
  {
    PositionBounds(a);
    PositionBounds(b);
    if a != [] && b != [] {
      PositionBounds(a[1..]);
      PositionBounds(b[1..]);
      PositionOrder(a[1..], b[1..]);
      var x, y := a[0] as real + 1.0, b[0] as real + 1.0;
      assert a[0] < b[0] ==> x + 1.0 <= y;
      assert b[0] < a[0] ==> y + 1.0 <= x;
      if Position(a) == Position(b) {
        assert a == [a[0]] + a[1..] && b == [b[0]] + b[1..];
      }
    }
  }

  lemma {:induction false} LessIsTransitive(a: Bytes, b: Bytes, c: Bytes)
    requires Less(a, b) && Less(b, c)
    ensures Less(a, c)
  {
    PositionOrder(a, b);
    PositionOrder(b, c);
    PositionOrder(a, c);
  }

  // ---- Separators ----

  // How far two strings agree.
  function Agree(a: Bytes, b: Bytes): (n: nat)
    ensures n <= |a| && n <= |b|
  {
    if a == [] || b == [] || a[0] != b[0] then 0 else 1 + Agree(a[1..], b[1..])
  }

  // The string that differs from s first at position i, where it is one higher, and ends there.
  function Bump(s: Bytes, i: nat): Bytes
    requires i < |s| && s[i] < 255
  {
    s[..i] + [s[i] + 1]
  }

  lemma {:induction false} BumpIsAbove(s: Bytes, i: nat)
    requires i < |s| && s[i] < 255
    ensures Less(s, Bump(s, i))
    decreases i
  {
    if i > 0 {
      BumpIsAbove(s[1..], i - 1);
      assert Bump(s, i)[1..] == Bump(s[1..], i - 1);
    }
  }

  lemma {:induction false} BumpIsBelow(s: Bytes, limit: Bytes, i: nat)
    requires i < |s| && i < |limit| && i == Agree(s, limit) && s[i] < 255 && s[i] + 1 < limit[i]
    ensures Less(Bump(s, i), limit)
    decreases i
  {
    if i > 0 {
      BumpIsBelow(s[1..], limit[1..], i - 1);
      assert Bump(s, i)[1..] == Bump(s[1..], i - 1);
    }
  }

  // The first difference leaves room for a byte in between.
  predicate HasRoom(start: Bytes, limit: Bytes) {
    var i := Agree(start, limit);
    i < |start| && i < |limit| && start[i] < 255 && start[i] + 1 < limit[i]
  }

  /** FindShortestSeparator: the string stays, or becomes a shorter one strictly between the two. */
  method FindShortestSeparator(start: Bytes, limit: Bytes) returns (r: Bytes)
    ensures r == if HasRoom(start, limit) then Bump(start, Agree(start, limit)) else start
    ensures r != start ==> Less(start, r) && Less(r, limit) && |r| <= |start|
  {
    var diffIndex := 0;
    while diffIndex < |start| && diffIndex < |limit| && start[diffIndex] == limit[diffIndex]
      invariant diffIndex <= |start| && diffIndex <= |limit|
      invariant Agree(start, limit) == diffIndex + Agree(start[diffIndex..], limit[diffIndex..])
    {
      assert start[diffIndex..][1..] == start[diffIndex + 1..] && limit[diffIndex..][1..] == limit[diffIndex + 1..];
      diffIndex := diffIndex + 1;
    }
    r := start;
    if diffIndex < |start| && diffIndex < |limit| {
      var diffByte := start[diffIndex];
      if diffByte < 255 && diffByte + 1 < limit[diffIndex] {
        r := start[..diffIndex] + [diffByte + 1];
        BumpIsAbove(start, diffIndex);
        BumpIsBelow(start, limit, diffIndex);
      }
    }
  }

  /** FindShortSuccessor: the string stays only if it is a run of 0xff. */
  method FindShortSuccessor(key: Bytes) returns (r: Bytes)
    ensures r == key <==> forall i :: 0 <= i < |key| ==> key[i] == 255
    ensures r != key ==> Less(key, r) && |r| <= |key|
    ensures r != key ==> exists i :: 0 <= i < |key| && key[i] < 255 && r == Bump(key, i) && forall j :: 0 <= j < i ==> key[j] == 255
  {
    r := key;
    for i := 0 to |key|
      invariant r == key && forall j :: 0 <= j < i ==> key[j] == 255
    {
      if key[i] != 255 {
        r := key[..i] + [key[i] + 1];
        BumpIsAbove(key, i);
        assert r == Bump(key, i);
        assert r[i] != key[i];
        return;
      }
    }
  }

  /** An internal key whose user key is still bytes. */
  datatype ByteKey = ByteKey(user: Bytes, sequence: nat, kind: ValueType)

  function Abs(k: ByteKey): InternalKey {
    InternalKey(Position(k.user), k.sequence, k.kind)
  }

  // A key after `last` whose user key lies strictly between: it sorts before every entry of the next user key.
  predicate Between(last: ByteKey, sep: ByteKey) {
    Abs(last).user < Abs(sep).user && sep.sequence == MAX_SEQUENCE && sep.kind.Value?
  }

  /** InternalKeyComparator::FindShortestSeparator */
  method SeparateInternalKeys(start: ByteKey, limit: ByteKey) returns (sep: ByteKey)
    ensures sep == start || (Between(start, sep) && Abs(sep).user < Abs(limit).user && |sep.user| < |start.user|)
  {
    var tmp := FindShortestSeparator(start.user, limit.user);
    sep := start;
    if |tmp| < |start.user| && Less(start.user, tmp) {
      PositionOrder(start.user, tmp);
      PositionOrder(tmp, limit.user);
      sep := ByteKey(tmp, MAX_SEQUENCE, Value);
    }
  }

  /** InternalKeyComparator::FindShortSuccessor */
  method SucceedInternalKey(key: ByteKey) returns (sep: ByteKey)
    ensures sep == key || (Between(key, sep) && |sep.user| < |key.user|)
  {
    var tmp := FindShortSuccessor(key.user);
    sep := key;
    if |tmp| < |key.user| && Less(key.user, tmp) {
      PositionOrder(key.user, tmp);
      sep := ByteKey(tmp, MAX_SEQUENCE, Value);
    }
  }
}
