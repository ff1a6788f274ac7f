/** Sequences without repetition, and their neighbours when they are closed to a circle. */
module Circles {
  ghost predicate Distinct<T>(s: seq<T>) {
    forall i, j :: 0 <= i < j < |s| ==> s[i] != s[j]
  }

  function Without<T>(s: seq<T>, i: nat): seq<T>
    requires i < |s|
  {
    s[..i] + s[i + 1..]
  }

  function Succ<T>(r: seq<T>, i: nat): T
    requires i < |r|
  {
    if i + 1 < |r| then r[i + 1] else r[0]
  }

  function Pred<T>(r: seq<T>, i: nat): T
    requires i < |r|
  {
    if i > 0 then r[i - 1] else r[|r| - 1]
  }

  lemma {:induction false} WithoutHas<T>(s: seq<T>, i: nat, x: T)
    requires i < |s| && Distinct(s)
    ensures x in Without(s, i) <==> x in s && x != s[i]
  {
    var s' := Without(s, i);
    if x in s && x != s[i] {
      var j :| 0 <= j < |s| && s[j] == x;
      assert s'[if j < i then j else j - 1] == x;
    }
    if x in s' {
      var j :| 0 <= j < |s'| && s'[j] == x;
      assert s[if j < i then j else j + 1] == x;
    }
  }

  lemma {:induction false} WithoutDistinct<T>(s: seq<T>, i: nat)
    requires i < |s| && Distinct(s)
    ensures Distinct(Without(s, i))
  {
    var s' := Without(s, i);
    forall j, k | 0 <= j < k < |s'| ensures s'[j] != s'[k] {
      assert s'[j] == s[if j < i then j else j + 1] && s'[k] == s[if k < i then k else k + 1];
    }
  }

  // The neighbours when an element that is not the first is taken out.
  lemma {:induction false} SuccWithout<T>(r: seq<T>, i: nat, j: nat)
    requires 0 < i < |r| && j < |r| - 1
    ensures |Without(r, i)| == |r| - 1 && Without(r, i)[j] == r[if j < i then j else j + 1]
    ensures Succ(Without(r, i), j) == if j == i - 1 then Succ(r, i) else Succ(r, if j < i then j else j + 1)
    ensures Pred(Without(r, i), j) == if j == i || (j == 0 && i == |r| - 1) then Pred(r, i) else Pred(r, if j < i then j else j + 1)
  {
  }

  // The neighbours when an element is put in before the first.
  lemma {:induction false} SuccAppended<T>(r: seq<T>, e: T, j: nat)
    requires 0 < |r| && j <= |r|
    ensures Succ(r + [e], j) == if j == |r| then r[0] else if j == |r| - 1 then e else Succ(r, j)
    ensures Pred(r + [e], j) == if j == |r| then r[|r| - 1] else if j == 0 then e else Pred(r, j)
  {
  }
}
