/** The memtable's skip list (db/skiplist.h). Stores are sequentially consistent; readers run between
    any two pointer stores of the one writer. */
module SkipLists {
  import opened Coding
  import opened Keys
  import opened Store
  import opened FileSearch
  import opened Lsm

  const MAX_HEIGHT: nat := 12

  class Node {
    const entry: Entry
    const next: array<Node?>

    constructor (entry: Entry, height: nat)
      ensures this.entry == entry && next.Length == height && fresh(next)
      ensures forall i :: 0 <= i < height ==> next[i] == null
    {
      this.entry := entry;
      next := new Node?[height](_ => null);
    }
  }

  // ---- The lists of the levels, as values ----

  /** `nodes` is level 0 in order; a node is in the lists of the levels below its `linked` count. */
  datatype Shape = Shape(nodes: seq<Node>, linked: map<Node, nat>)

  ghost predicate Counted(ns: seq<Node>, linked: map<Node, nat>) {
    forall n :: n in ns ==> n in linked
  }

  // The first node of a run that is in the list of the level.
  ghost function First(ns: seq<Node>, linked: map<Node, nat>, level: nat): (r: Node?)
    requires Counted(ns, linked)
    ensures r != null ==> r in ns && linked[r] > level
  {
    if ns == [] then null
    else if linked[ns[0]] > level then ns[0]
    else First(ns[1..], linked, level)
  }

  lemma {:induction false} FirstSkips(ns: seq<Node>, linked: map<Node, nat>, level: nat, k: nat)
    requires Counted(ns, linked) && k <= |ns| && forall i :: 0 <= i < k ==> linked[ns[i]] <= level
    ensures First(ns, linked, level) == First(ns[k..], linked, level)
  {
    if k > 0 {
      FirstSkips(ns[1..], linked, level, k - 1);
      assert ns[1..][k - 1..] == ns[k..];
    } else {
      assert ns[0..] == ns;
    }
  }

  // Where the first node is; everything before it is not in the list.
  lemma {:induction false} FirstAt(ns: seq<Node>, linked: map<Node, nat>, level: nat) returns (k: nat)
    requires Counted(ns, linked)
    ensures k <= |ns| && forall i :: 0 <= i < k ==> linked[ns[i]] <= level
    ensures if First(ns, linked, level) == null then k == |ns| else k < |ns| && ns[k] == First(ns, linked, level)
  {
    if ns == [] || linked[ns[0]] > level {
      k := 0;
    } else {
      k := FirstAt(ns[1..], linked, level);
      assert forall i :: 1 <= i < k + 1 ==> ns[i] == ns[1..][i - 1];
      k := k + 1;
    }
  }

  ghost predicate KeysIncrease(ns: seq<Node>) {
    forall i, j :: 0 <= i < j < |ns| ==> Before(ns[i].entry.key, ns[j].entry.key)
  }

  ghost predicate ShapeOk(s: Shape) {
    && Counted(s.nodes, s.linked) && KeysIncrease(s.nodes)
    && forall n :: n in s.nodes ==> 1 <= s.linked[n] <= MAX_HEIGHT
  }

  ghost function EntriesOf(ns: seq<Node>): (r: seq<Entry>)
    ensures |r| == |ns|
  {
    seq(|ns|, i requires 0 <= i < |ns| => ns[i].entry)
  }

  // The writer has only added nodes and links.
  ghost predicate Grows(s: Shape, s': Shape) {
    && Counted(s.nodes, s.linked) && Counted(s'.nodes, s'.linked)
    && forall n :: n in s.nodes ==> n in s'.nodes && s.linked[n] <= s'.linked[n]
  }

  /** x is where a search for `target` may stand on a level: the head, or a node before the target that
      is in the level's list. */
  ghost predicate SearchAt(s: Shape, head: Node, x: Node, level: nat, target: InternalKey)
    requires Counted(s.nodes, s.linked)
  {
    x == head || (x in s.nodes && s.linked[x] > level && Before(x.entry.key, target))
  }

  /** A search position stays good whatever the writer does in between. */
  lemma {:induction false} SearchIsStable(s: Shape, s': Shape, head: Node, x: Node, level: nat, target: InternalKey)
    requires Grows(s, s') && SearchAt(s, head, x, level, target)
    ensures SearchAt(s', head, x, level, target)
  {
  }

  // Where x is on level 0.
  ghost function Position(ns: seq<Node>, x: Node): (i: nat)
    requires x in ns
    ensures i < |ns| && ns[i] == x
  {
    if ns[0] == x then 0 else 1 + Position(ns[1..], x)
  }

  // Where the search that stands at x goes on: the nodes after it; after the head, all of them.
  ghost function Behind(ns: seq<Node>, head: Node, x: Node): (p: nat)
    requires x == head || x in ns
    ensures p <= |ns| && if x == head then p == 0 else p > 0 && ns[p - 1] == x
  {
    if x == head then 0 else Position(ns, x) + 1
  }

  // The node that the pointer of x on a level has to lead to.
  ghost function NextOf(s: Shape, head: Node, x: Node, level: nat): Node?
    requires Counted(s.nodes, s.linked) && (x == head || x in s.nodes)
  {
    First(s.nodes[Behind(s.nodes, head, x)..], s.linked, level)
  }

  lemma {:induction false} PositionIs(ns: seq<Node>, i: nat)
    requires KeysIncrease(ns) && i < |ns|
    ensures Position(ns, ns[i]) == i
  {
    var k := Position(ns, ns[i]);
    assert k < i ==> Before(ns[k].entry.key, ns[i].entry.key);
    assert i < k ==> Before(ns[i].entry.key, ns[k].entry.key);
  }

  // From position p on, the list of the level has nothing before the target.
  lemma {:induction false} NoneFrom(s: Shape, level: nat, target: InternalKey, p: nat, k: nat)
    requires ShapeOk(s) && p + k <= |s.nodes| && (forall i :: 0 <= i < k ==> s.linked[s.nodes[p..][i]] <= level)
    requires p + k < |s.nodes| ==> !Before(s.nodes[p + k].entry.key, target)
    ensures forall i :: p <= i < |s.nodes| ==> s.linked[s.nodes[i]] <= level || !Before(s.nodes[i].entry.key, target)
  {
    var ns := s.nodes;
    forall i | p <= i < |ns| ensures s.linked[ns[i]] <= level || !Before(ns[i].entry.key, target) {
      if i < p + k {
        assert ns[p..][i - p] == ns[i];
      } else if i > p + k {
        assert Before(ns[p + k].entry.key, ns[i].entry.key);
      }
    }
  }

  lemma {:induction false} AllUpTo(s: Shape, head: Node, x: Node)
    requires ShapeOk(s) && (x == head || x in s.nodes)
    ensures forall i :: 0 <= i < Behind(s.nodes, head, x) ==> x != head && !Before(x.entry.key, s.nodes[i].entry.key)
  {
    var ns, p := s.nodes, Behind(s.nodes, head, x);
    forall i | 0 <= i < p ensures x != head && !Before(x.entry.key, ns[i].entry.key) {
      if i < p - 1 {
        assert Before(ns[i].entry.key, ns[p - 1].entry.key);
      }
    }
  }

  // x is the last node before the target on the level, or the head.
  ghost predicate IsPredecessor(s: Shape, head: Node, x: Node, level: nat, target: InternalKey)
    requires Counted(s.nodes, s.linked)
  {
    && SearchAt(s, head, x, level, target)
    && forall i :: 0 <= i < |s.nodes| && s.linked[s.nodes[i]] > level && Before(s.nodes[i].entry.key, target) ==>
         x != head && !Before(x.entry.key, s.nodes[i].entry.key)
  }

  // ---- What one pointer store does to the lists ----

  // The shape after the node x, the successor of position q - 1 on level 0, has been put in the list of `level`.
  ghost function Spliced(s: Shape, x: Node, q: nat, level: nat): Shape
    requires q <= |s.nodes|
  {
    Shape(if level == 0 then s.nodes[..q] + [x] + s.nodes[q..] else s.nodes, s.linked[x := level + 1])
  }

  lemma {:induction false} FirstSame(ns: seq<Node>, linked: map<Node, nat>, linked': map<Node, nat>, level: nat)
    requires Counted(ns, linked) && Counted(ns, linked') && forall n :: n in ns ==> (linked[n] > level <==> linked'[n] > level)
    ensures First(ns, linked', level) == First(ns, linked, level)
  {
    if ns != [] && linked[ns[0]] <= level {
      FirstSame(ns[1..], linked, linked', level);
    }
  }

  lemma {:induction false} FirstIs(ns: seq<Node>, linked: map<Node, nat>, level: nat, k: nat)
    requires Counted(ns, linked) && k < |ns| && linked[ns[k]] > level && forall i :: 0 <= i < k ==> linked[ns[i]] <= level
    ensures First(ns, linked, level) == ns[k]
  {
    FirstSkips(ns, linked, level, k);
  }

  // Levels above 0 do not see a node that has just been put on level 0.
  lemma {:induction false} FirstWithNew(a: seq<Node>, x: Node, b: seq<Node>, linked: map<Node, nat>, level: nat)
    requires Counted(a + [x] + b, linked) && linked[x] <= level
    ensures Counted(a + b, linked) && First(a + [x] + b, linked, level) == First(a + b, linked, level)
    decreases |a|
  {
    assert forall n :: n in a + b ==> n in a + [x] + b;
    if a == [] {
      assert a + [x] + b == [x] + b && a + b == b;
    } else {
      assert (a + [x] + b)[1..] == a[1..] + [x] + b && (a + b)[1..] == a[1..] + b;
      assert (a + [x] + b)[0] == a[0] && (a + b)[0] == a[0];
      FirstWithNew(a[1..], x, b, linked, level);
    }
  }

  // w is the last node of the list of `level` before position q, and x goes to position q.
  ghost predicate Fits(s: Shape, head: Node, w: Node, x: Node, q: nat, level: nat) {
    && ShapeOk(s) && q <= |s.nodes| && x != head && head !in s.nodes && (w == head || w in s.nodes)
    && Behind(s.nodes, head, w) <= q && (w != head ==> s.linked[w] > level)
    && (forall i :: Behind(s.nodes, head, w) <= i < q ==> s.linked[s.nodes[i]] <= level)
    && (forall i :: 0 <= i < q ==> Before(s.nodes[i].entry.key, x.entry.key))
    && if level == 0 then x !in s.nodes && (q < |s.nodes| ==> Before(x.entry.key, s.nodes[q].entry.key))
       else level < MAX_HEIGHT && q < |s.nodes| && s.nodes[q] == x && s.linked[x] == level
  }

  lemma {:induction false} SplicedOk(s: Shape, head: Node, w: Node, x: Node, q: nat, level: nat)
    requires Fits(s, head, w, x, q, level)
    ensures ShapeOk(Spliced(s, x, q, level)) && Grows(s, Spliced(s, x, q, level))
    ensures forall n :: n in Spliced(s, x, q, level).nodes <==> n in s.nodes || n == x
  {
    var s' := Spliced(s, x, q, level);
    if level == 0 {
      forall i | q < i <= |s.nodes| ensures Before(x.entry.key, s'.nodes[i].entry.key) {
        assert s'.nodes[i] == s.nodes[i - 1];
        if i > q + 1 {
          assert Before(s.nodes[q].entry.key, s.nodes[i - 1].entry.key);
        }
      }
      forall i, j | 0 <= i < j < |s'.nodes| ensures Before(s'.nodes[i].entry.key, s'.nodes[j].entry.key) {
        if i != q && j != q {
          assert Before(s.nodes[if i < q then i else i - 1].entry.key, s.nodes[if j < q then j else j - 1].entry.key);
        }
      }
      assert forall n :: n in s'.nodes <==> n in s.nodes || n == x;
    }
  }

  lemma {:induction false} BehindIs(ns: seq<Node>, head: Node, n: Node, p: nat)
    requires KeysIncrease(ns) && head !in ns && if n == head then p == 0 else 0 < p <= |ns| && ns[p - 1] == n
    ensures Behind(ns, head, n) == p
  {
    if n != head {
      PositionIs(ns, p - 1);
    }
  }

  // Level 0: the new node is the only news, and it is seen on level 0 only.
  lemma {:induction false} NewNodeNext(s: Shape, head: Node, w: Node, x: Node, q: nat, n: Node, l: nat)
    requires Fits(s, head, w, x, q, 0) && (n == head || (n in s.nodes && l < s.linked[n]))
    ensures Counted(Spliced(s, x, q, 0).nodes, Spliced(s, x, q, 0).linked) && (n == head || n in Spliced(s, x, q, 0).nodes)
    ensures NextOf(Spliced(s, x, q, 0), head, n, l) == if l == 0 && n == w then x else NextOf(s, head, n, l)
  {
    OnlyLast(s, head, w, q, n);
    SplicedOk(s, head, w, x, q, 0);
    var p, s' := Behind(s.nodes, head, n), Spliced(s, x, q, 0);
    ShiftedBehind(s, head, x, q, n);
    assert ShapeOk(s) && x !in s.nodes && q <= |s.nodes|;
    hide First, Behind, Fits, Before, KeysIncrease, ShapeOk;
    NewSuffix(s, x, q, p, l);
  }

  // Positions behind the new node shift by one.
  lemma {:induction false} ShiftedBehind(s: Shape, head: Node, x: Node, q: nat, n: Node)
    requires ShapeOk(s) && q <= |s.nodes| && ShapeOk(Spliced(s, x, q, 0)) && head !in s.nodes && x != head && (n == head || n in s.nodes)
    ensures n == head || n in Spliced(s, x, q, 0).nodes
    ensures
      var p := Behind(s.nodes, head, n);
      Behind(Spliced(s, x, q, 0).nodes, head, n) == if p <= q then p else p + 1
  {
    hide Before;
    var ns', p := Spliced(s, x, q, 0).nodes, Behind(s.nodes, head, n);
    var p' := if p <= q then p else p + 1;
    assert n != head ==> ns'[p' - 1] == n;
    BehindIs(ns', head, n, p');
  }

  lemma {:induction false} NewSuffix(s: Shape, x: Node, q: nat, p: nat, l: nat)
    requires ShapeOk(s) && x !in s.nodes && q <= |s.nodes| && p <= |s.nodes|
    ensures
      var s', p' := Spliced(s, x, q, 0), if p <= q then p else p + 1;
      Counted(s'.nodes[p'..], s'.linked) && First(s'.nodes[p'..], s'.linked, l) == if l == 0 && p == q then x else First(s.nodes[p..], s.linked, l)
  {
    hide First, Before;
    var s' := Spliced(s, x, q, 0);
    if p > q {
      assert s'.nodes[p + 1..] == s.nodes[p..];
      AfterNew(s, x, p, l);
    } else {
      assert s'.nodes[p..] == s.nodes[p..q] + [x] + s.nodes[q..];
      BeforeNew(s, x, q, p, l);
    }
  }

  lemma {:induction false} AfterNew(s: Shape, x: Node, p: nat, l: nat)
    requires ShapeOk(s) && x !in s.nodes && p <= |s.nodes|
    ensures Counted(s.nodes[p..], s.linked[x := 1]) && First(s.nodes[p..], s.linked[x := 1], l) == First(s.nodes[p..], s.linked, l)
  {
    FirstSame(s.nodes[p..], s.linked, s.linked[x := 1], l);
  }

  lemma {:induction false} BeforeNew(s: Shape, x: Node, q: nat, p: nat, l: nat)
    requires ShapeOk(s) && x !in s.nodes && p <= q <= |s.nodes|
    ensures
      var linked', rest := s.linked[x := 1], s.nodes[p..q] + [x] + s.nodes[q..];
      && Counted(rest, linked')
      && First(rest, linked', l) == if l == 0 && p == q then x else First(s.nodes[p..], s.linked, l)
  {
    hide First, Before;
    var ns, linked', rest := s.nodes, s.linked[x := 1], s.nodes[p..q] + [x] + s.nodes[q..];
    assert ns[p..] == ns[p..q] + ns[q..];
    if l > 0 {
      FirstWithNew(ns[p..q], x, ns[q..], linked', l);
      FirstSame(ns[p..], s.linked, linked', l);
    } else {
      FirstIs(rest, linked', 0, 0);
      if p < q {
        assert ns[p] in ns && rest[0] == ns[p];
        FirstIs(ns[p..], s.linked, 0, 0);
      }
    }
  }

  // On level 0 the node that ends at position q is the predecessor.
  lemma {:induction false} OnlyLast(s: Shape, head: Node, w: Node, q: nat, n: Node)
    requires ShapeOk(s) && head !in s.nodes && q <= |s.nodes| && (w == head || w in s.nodes) && (n == head || n in s.nodes)
    requires Behind(s.nodes, head, w) <= q && forall i :: Behind(s.nodes, head, w) <= i < q ==> s.linked[s.nodes[i]] <= 0
    ensures Behind(s.nodes, head, w) == q && (Behind(s.nodes, head, n) == q <==> n == w)
  {
    var p := Behind(s.nodes, head, w);
    var next := if p < |s.nodes| then s.nodes[p] else head;
    assert next == head || next in s.nodes;
  }

  // A node joins a list: the run it belongs to now starts with it, if nothing before it was in the list.
  lemma {:induction false} MemberAdded(ns: seq<Node>, linked: map<Node, nat>, level: nat, q: nat, p: nat)
    requires KeysIncrease(ns) && Counted(ns, linked) && q < |ns| && linked[ns[q]] <= level && p <= |ns|
    ensures
      var linked' := linked[ns[q] := level + 1];
      First(ns[p..], linked', level)
        == if p <= q && (forall i :: p <= i < q ==> linked[ns[i]] <= level) then ns[q] else First(ns[p..], linked, level)
    decreases |ns| - p
  {
    var linked' := linked[ns[q] := level + 1];
    if p < |ns| {
      KeysDiffer(ns);
      assert ns[p..][0] == ns[p] && ns[p..][1..] == ns[p + 1..];
      if linked'[ns[p]] <= level {
        MemberAdded(ns, linked, level, q, p + 1);
        assert p < q ==> ((forall i :: p <= i < q ==> linked[ns[i]] <= level) <==> (forall i :: p + 1 <= i < q ==> linked[ns[i]] <= level));
      }
    }
  }

  // A higher level: the node is there already, and becomes a member of one more list.
  lemma {:induction false} HigherNext(s: Shape, head: Node, w: Node, x: Node, q: nat, level: nat, n: Node, l: nat)
    requires Fits(s, head, w, x, q, level) && level > 0 && (n == head || (n in s.nodes && l < s.linked[n]))
    ensures NextOf(Spliced(s, x, q, level), head, n, l) == if l == level && n == w then x else NextOf(s, head, n, l)
  {
    hide First, Position, Before;
    var ns, p := s.nodes, Behind(s.nodes, head, n);
    if l != level {
      FirstSame(ns[p..], s.linked, s.linked[x := level + 1], l);
    } else {
      MemberAdded(ns, s.linked, level, q, p);
      if n != w && p <= q {
        var pw := MembersEnd(s, head, w, x, q, level, n);
        assert s.linked[ns[pw - 1]] > level;
      }
    }
  }

  lemma {:induction false} MembersEnd(s: Shape, head: Node, w: Node, x: Node, q: nat, level: nat, n: Node) returns (pw: nat)
    requires Fits(s, head, w, x, q, level) && (n == head || (n in s.nodes && level < s.linked[n]))
    requires Behind(s.nodes, head, n) <= q && n != w
    ensures Behind(s.nodes, head, n) < pw <= q && s.nodes[pw - 1] == w && w in s.nodes
  {
    hide Position, First;
    pw := Behind(s.nodes, head, w);
  }

  // What the new node's own pointer has to be.
  lemma {:induction false} NewNext(s: Shape, head: Node, w: Node, x: Node, q: nat, level: nat)
    requires Fits(s, head, w, x, q, level)
    ensures
      var s' := Spliced(s, x, q, level);
      ShapeOk(s') && x in s'.nodes && NextOf(s', head, x, level) == NextOf(s, head, w, level)
  {
    var s' := Spliced(s, x, q, level);
    SplicedOk(s, head, w, x, q, level);
    var ns, p := s.nodes, Behind(s.nodes, head, w);
    assert s'.nodes[q] == x && x in s'.nodes && head !in s'.nodes;
    NewAtEnd(s, head, x, q, level);
    var k := q + if level == 0 then 0 else 1;
    assert s'.nodes[q + 1..] == ns[k..];
    assert k <= |ns| && forall i :: p <= i < k ==> s.linked[ns[i]] <= level;
    NewNextRest(s, x, q, level, p, k);
  }

  lemma {:induction false} NewNextRest(s: Shape, x: Node, q: nat, level: nat, p: nat, k: nat)
    requires ShapeOk(s) && p <= k <= |s.nodes| && (forall i :: p <= i < k ==> s.linked[s.nodes[i]] <= level)
    requires if level == 0 then x !in s.nodes else k > 0 && s.nodes[k - 1] == x
    ensures First(s.nodes[k..], s.linked[x := level + 1], level) == First(s.nodes[p..], s.linked, level)
  {
    hide First, Before;
    var ns := s.nodes;
    SkipTo(ns, s.linked, level, p, k);
    KeysDiffer(ns);
    FirstSame(ns[k..], s.linked, s.linked[x := level + 1], level);
  }

  lemma {:induction false} NewAtEnd(s: Shape, head: Node, x: Node, q: nat, level: nat)
    requires q <= |s.nodes| && ShapeOk(Spliced(s, x, q, level)) && head !in Spliced(s, x, q, level).nodes
    requires q < |Spliced(s, x, q, level).nodes| && Spliced(s, x, q, level).nodes[q] == x && x != head
    ensures Behind(Spliced(s, x, q, level).nodes, head, x) == q + 1
  {
    hide First, Before;
    PositionIs(Spliced(s, x, q, level).nodes, q);
  }

  lemma {:induction false} SkipTo(ns: seq<Node>, linked: map<Node, nat>, level: nat, p: nat, k: nat)
    requires Counted(ns, linked) && p <= k <= |ns| && forall i :: p <= i < k ==> linked[ns[i]] <= level
    ensures First(ns[p..], linked, level) == First(ns[k..], linked, level)
  {
    hide First;
    assert ns[p..][k - p..] == ns[k..];
    forall i | 0 <= i < k - p ensures linked[ns[p..][i]] <= level {
      assert ns[p..][i] == ns[p + i];
    }
    FirstSkips(ns[p..], linked, level, k - p);
  }

  // How the pointers have to change when x, after w, joins the list of `level`.
  ghost predicate Changes(s: Shape, s': Shape, head: Node, x: Node, level: nat, w: Node) {
    && ShapeOk(s) && ShapeOk(s') && s'.linked == s.linked[x := level + 1]
    && (forall n :: n in s'.nodes ==> n in s.nodes || n == x) && x in s'.nodes && (forall n :: n in s.nodes ==> n in s'.nodes)
    && head !in s'.nodes && (w == head || (w in s.nodes && s.linked[w] > level))
    && (if level == 0 then x !in s.nodes else x in s.nodes && s.linked[x] == level)
    && NextOf(s', head, x, level) == NextOf(s, head, w, level)
    && (forall l :: 0 <= l < MAX_HEIGHT ==> NextOf(s', head, head, l) == if l == level && head == w then x else NextOf(s, head, head, l))
    && (forall n, l :: n in s.nodes && 0 <= l < s.linked[n] ==>
          NextOf(s', head, n, l) == if l == level && n == w then x else NextOf(s, head, n, l))
  }

  lemma {:induction false} LinksChange(s: Shape, head: Node, x: Node, level: nat, w: Node, q: nat)
    requires Fits(s, head, w, x, q, level) && q <= |s.nodes|
    ensures Changes(s, Spliced(s, x, q, level), head, x, level, w)
  {
    hide First, NextOf, Spliced, Fits, Before, KeysIncrease, ShapeOk, Grows;
    SpliceBasics(s, head, w, x, q, level);
    SpliceNext(s, head, x, level, w, q);
    NewNext(s, head, w, x, q, level);
  }

  lemma {:induction false} SpliceBasics(s: Shape, head: Node, w: Node, x: Node, q: nat, level: nat)
    requires Fits(s, head, w, x, q, level)
    ensures
      var s' := Spliced(s, x, q, level);
      && ShapeOk(s) && ShapeOk(s') && Grows(s, s') && s'.linked == s.linked[x := level + 1]
      && (forall n :: n in s'.nodes ==> n in s.nodes || n == x) && x in s'.nodes && (forall n :: n in s.nodes ==> n in s'.nodes)
      && head !in s'.nodes && (w == head || (w in s.nodes && s.linked[w] > level))
      && (if level == 0 then x !in s.nodes else x in s.nodes && s.linked[x] == level)
  {
    SplicedOk(s, head, w, x, q, level);
    hide Grows, ShapeOk, First, Before;
    assert level > 0 ==> s.nodes[q] == x;
  }

  lemma {:induction false} SpliceNext(s: Shape, head: Node, x: Node, level: nat, w: Node, q: nat)
    requires Fits(s, head, w, x, q, level) && q <= |s.nodes| && ShapeOk(s) && ShapeOk(Spliced(s, x, q, level))
    requires forall n :: n in s.nodes ==> n in Spliced(s, x, q, level).nodes
    ensures
      var s' := Spliced(s, x, q, level);
      && (forall l :: 0 <= l < MAX_HEIGHT ==> NextOf(s', head, head, l) == if l == level && head == w then x else NextOf(s, head, head, l))
      && (forall n, l :: n in s.nodes && 0 <= l < s.linked[n] ==>
            NextOf(s', head, n, l) == if l == level && n == w then x else NextOf(s, head, n, l))
  {
    hide First, NextOf, Spliced, Fits, Before, KeysIncrease;
    forall n, l | (n == head && 0 <= l < MAX_HEIGHT) || (n in s.nodes && 0 <= l < s.linked[n])
      ensures NextOf(Spliced(s, x, q, level), head, n, l) == if l == level && n == w then x else NextOf(s, head, n, l)
    {
      if level == 0 {
        NewNodeNext(s, head, w, x, q, n, l);
      } else {
        HigherNext(s, head, w, x, q, level, n, l);
      }
    }
  }

  // A predecessor found before the insertion is where the node fits, on level 0 first.
  lemma {:induction false} PredecessorFits(s: Shape, head: Node, w: Node, x: Node, q: nat)
    requires ShapeOk(s) && head !in s.nodes && x != head && x !in s.nodes && IsPredecessor(s, head, w, 0, x.entry.key)
    requires q == LowerBound(EntriesOf(s.nodes), x.entry.key) && (q < |s.nodes| ==> Before(x.entry.key, s.nodes[q].entry.key))
    ensures Fits(s, head, w, x, q, 0)
  {
    SoughtPosition(s, x.entry.key, q);
    BetweenPredecessor(s, head, w, x.entry.key, q, 0);
  }

  lemma {:induction false} BetweenPredecessor(s: Shape, head: Node, w: Node, target: InternalKey, q: nat, level: nat)
    requires ShapeOk(s) && head !in s.nodes && IsPredecessor(s, head, w, level, target)
    requires q <= |s.nodes| && (forall i :: 0 <= i < q ==> Before(s.nodes[i].entry.key, target))
    requires q < |s.nodes| ==> !Before(s.nodes[q].entry.key, target)
    ensures Behind(s.nodes, head, w) <= q && forall i :: Behind(s.nodes, head, w) <= i < q ==> s.linked[s.nodes[i]] <= level
  {
    var ns, p := s.nodes, Behind(s.nodes, head, w);
    forall i | 0 <= i < p ensures Before(ns[i].entry.key, target) {
      if i < p - 1 {
        assert Before(ns[i].entry.key, ns[p - 1].entry.key);
      }
    }
    forall i | p <= i < q ensures s.linked[ns[i]] <= level {
      assert p > 0 ==> Before(ns[p - 1].entry.key, ns[i].entry.key);
    }
  }

  // Then on each higher level.
  lemma {:induction false} PredecessorStillFits(s: Shape, s': Shape, head: Node, w: Node, x: Node, q: nat, level: nat)
    requires ShapeOk(s) && head !in s.nodes && x != head && x !in s.nodes && IsPredecessor(s, head, w, level, x.entry.key)
    requires q == LowerBound(EntriesOf(s.nodes), x.entry.key) && 0 < level < MAX_HEIGHT
    requires s' == Shape(s.nodes[..q] + [x] + s.nodes[q..], s.linked[x := level]) && ShapeOk(s')
    ensures Fits(s', head, w, x, q, level)
  {
    hide Position, First, IsPredecessor;
    SoughtPosition(s, x.entry.key, q);
    BetweenPredecessor(s, head, w, x.entry.key, q, level);
    PredecessorIn(s, head, w, level, x.entry.key);
    var p := Behind(s.nodes, head, w);
    SamePositions(s, s', head, w, x, q, level, p);
    forall i | p <= i < q ensures s'.linked[s'.nodes[i]] <= level {
      assert s'.nodes[i] == s.nodes[i] && s.nodes[i] in s.nodes;
    }
    forall i | 0 <= i < q ensures Before(s'.nodes[i].entry.key, x.entry.key) {
      assert s'.nodes[i] == s.nodes[i];
    }
  }

  lemma {:induction false} PredecessorIn(s: Shape, head: Node, w: Node, level: nat, target: InternalKey)
    requires Counted(s.nodes, s.linked) && IsPredecessor(s, head, w, level, target)
    ensures w == head || (w in s.nodes && s.linked[w] > level)
  {
  }

  lemma {:induction false} SoughtPosition(s: Shape, target: InternalKey, q: nat)
    requires q == LowerBound(EntriesOf(s.nodes), target)
    ensures q <= |s.nodes| && (forall i :: 0 <= i < q ==> Before(s.nodes[i].entry.key, target))
    ensures q < |s.nodes| ==> !Before(s.nodes[q].entry.key, target)
  {
    var es := EntriesOf(s.nodes);
    assert forall i :: 0 <= i < |es| ==> es[i] == s.nodes[i].entry;
  }

  lemma {:induction false} SamePositions(s: Shape, s': Shape, head: Node, w: Node, x: Node, q: nat, level: nat, p: nat)
    requires ShapeOk(s) && head !in s.nodes && x != head && q <= |s.nodes| && (w == head || w in s.nodes) && p == Behind(s.nodes, head, w) <= q
    requires s' == Shape(s.nodes[..q] + [x] + s.nodes[q..], s.linked[x := level]) && ShapeOk(s')
    ensures Behind(s'.nodes, head, w) == p && head !in s'.nodes && s'.nodes[q] == x && (w == head || w in s'.nodes)
  {
    hide Position, First;
    assert w != head ==> s'.nodes[p - 1] == w;
    BehindIs(s'.nodes, head, w, p);
  }

  // The shape once the new node has been put in the lists of the levels below n.
  ghost function InsertedShape(s: Shape, x: Node, q: nat, n: nat): Shape
    requires q <= |s.nodes|
  {
    if n == 0 then s else Shape(s.nodes[..q] + [x] + s.nodes[q..], s.linked[x := n])
  }

  lemma {:induction false} OneLevelMore(s: Shape, x: Node, q: nat, n: nat)
    requires q <= |s.nodes|
    ensures q <= |InsertedShape(s, x, q, n).nodes| && Spliced(InsertedShape(s, x, q, n), x, q, n) == InsertedShape(s, x, q, n + 1)
    ensures n > 0 ==> x in InsertedShape(s, x, q, n).nodes
    ensures forall y :: y in InsertedShape(s, x, q, n).nodes ==> y in s.nodes || y == x
    ensures InsertedShape(s, x, q, 0) == s
  {
    if n > 0 {
      assert s.linked[x := n][x := n + 1] == s.linked[x := n + 1];
      assert (s.nodes[..q] + [x] + s.nodes[q..])[q] == x;
    }
  }

  // What is known about the new node and the predecessors that were found for it; `old` arrays are in R.
  ghost predicate Prepared(s: Shape, head: Node, x: Node, q: nat, prev: seq<Node>, height: nat, R: set<object>) {
    && ShapeOk(s) && head !in s.nodes && x !in s.nodes && x != head
    && q == LowerBound(EntriesOf(s.nodes), x.entry.key) && (q < |s.nodes| ==> Before(x.entry.key, s.nodes[q].entry.key))
    && (forall l :: 0 <= l < |prev| ==> IsPredecessor(s, head, prev[l], l, x.entry.key))
    && height <= |prev| && x.next.Length == height <= MAX_HEIGHT
    && x.next != head.next && head.next in R && (forall n :: n in s.nodes ==> n.next != x.next && n.next in R)
  }

  lemma {:induction false} PreparedFits(s: Shape, head: Node, x: Node, q: nat, prev: seq<Node>, height: nat, R: set<object>, i: nat)
    requires Prepared(s, head, x, q, prev, height, R) && i < height && q <= |s.nodes| && ShapeOk(InsertedShape(s, x, q, i))
    ensures Fits(InsertedShape(s, x, q, i), head, prev[i], x, q, i) && prev[i].next in R
  {
    PredecessorIn(s, head, prev[i], i, x.entry.key);
    hide IsPredecessor, Fits, First, Before, LowerBound;
    if i == 0 {
      PredecessorFits(s, head, prev[0], x, q);
    } else {
      PredecessorStillFits(s, InsertedShape(s, x, q, i), head, prev[i], x, q, i);
    }
  }

  lemma {:induction false} GrowsBy(s: Shape, x: Node, q: nat, n: nat)
    requires ShapeOk(s) && x !in s.nodes && q <= |s.nodes|
    ensures Counted(InsertedShape(s, x, q, n).nodes, InsertedShape(s, x, q, n).linked) ==> Grows(s, InsertedShape(s, x, q, n))
  {
    var ns, ns' := s.nodes, InsertedShape(s, x, q, n).nodes;
    forall m | m in ns ensures m in ns' {
      var i :| 0 <= i < |ns| && ns[i] == m;
      assert n > 0 ==> ns'[if i < q then i else i + 1] == m;
    }
  }

  lemma {:induction false} InsertedEntries(s: Shape, x: Node, q: nat, n: nat)
    requires n > 0 && q == LowerBound(EntriesOf(s.nodes), x.entry.key) && q <= |s.nodes|
    requires forall i :: 0 <= i < |s.nodes| ==> Before(s.nodes[i].entry.key, x.entry.key) || Before(x.entry.key, s.nodes[i].entry.key)
    ensures EntriesOf(InsertedShape(s, x, q, n).nodes) == InsertEntry(EntriesOf(s.nodes), x.entry)
  {
    hide LowerBound, InsertEntry, Before;
    var es := EntriesOf(s.nodes);
    assert forall i :: 0 <= i < |es| ==> es[i] == s.nodes[i].entry;
    SoughtPosition(s, x.entry.key, q);
    InsertedAt(es, x.entry);
    EntriesSplice(s.nodes, x, q);
  }

  lemma {:induction false} EntriesSplice(ns: seq<Node>, x: Node, q: nat)
    requires q <= |ns|
    ensures EntriesOf(ns[..q] + [x] + ns[q..]) == EntriesOf(ns)[..q] + [x.entry] + EntriesOf(ns)[q..]
  {
  }

  lemma {:induction false} InsertedAt(es: seq<Entry>, e: Entry)
    requires var q := LowerBound(es, e.key); q < |es| ==> Before(e.key, es[q].key)
    ensures var q := LowerBound(es, e.key); InsertEntry(es, e) == es[..q] + [e] + es[q..]
  {
    if es != [] && Before(es[0].key, e.key) {
      InsertedAt(es[1..], e);
      var q := LowerBound(es[1..], e.key);
      assert es[1..][..q] == es[1..q + 1] && es[1..][q..] == es[q + 1..];
    }
  }

  lemma {:induction false} KeysDiffer(ns: seq<Node>)
    requires KeysIncrease(ns)
    ensures forall i, j :: 0 <= i < j < |ns| ==> ns[i] != ns[j]
  {
  }

  // ---- A search in the middle of insertions ----

  // One turn of the loop of FindGreaterOrEqual that does not end it: right, or down.
  ghost predicate Turn(s: Shape, head: Node, x: Node, level: nat, target: InternalKey, x': Node, level': nat)
    requires Counted(s.nodes, s.linked) && (x == head || x in s.nodes)
  {
    var next := NextOf(s, head, x, level);
    if next != null && Before(next.entry.key, target) then x' == next && level' == level
    else level > 0 && x' == x && level' == level - 1
  }

  // The turn that ends the search.
  ghost predicate LastTurn(s: Shape, head: Node, x: Node, level: nat, target: InternalKey, found: Node?)
    requires Counted(s.nodes, s.linked) && (x == head || x in s.nodes)
  {
    level == 0 && found == NextOf(s, head, x, 0) && (found != null ==> !Before(found.entry.key, target))
  }

  lemma {:induction false} TurnKeeps(s: Shape, head: Node, x: Node, level: nat, target: InternalKey, x': Node, level': nat)
    requires Counted(s.nodes, s.linked) && SearchAt(s, head, x, level, target) && Turn(s, head, x, level, target, x', level')
    ensures SearchAt(s, head, x', level', target)
  {
  }

  /** A moment of a search: the list at that moment, and where the search stands. */
  datatype Moment = Moment(shape: Shape, x: Node, level: nat)

  // From one moment to the next the search takes a turn, or the writer adds nodes and links.
  ghost predicate Follows(head: Node, target: InternalKey, a: Moment, b: Moment) {
    && ShapeOk(a.shape) && ShapeOk(b.shape) && (a.x == head || a.x in a.shape.nodes)
    && if b.shape == a.shape then Turn(a.shape, head, a.x, a.level, target, b.x, b.level)
       else Grows(a.shape, b.shape) && b.x == a.x && b.level == a.level
  }

  ghost predicate SearchRun(head: Node, target: InternalKey, run: seq<Moment>) {
    && run != [] && run[0].x == head && ShapeOk(run[0].shape) && head !in run[0].shape.nodes
    && (forall i :: 0 <= i < |run| - 1 ==> Follows(head, target, run[i], run[i + 1]))
    && head !in run[|run| - 1].shape.nodes
  }

  lemma {:induction false} RunStands(head: Node, target: InternalKey, run: seq<Moment>, n: nat)
    requires SearchRun(head, target, run) && n < |run|
    ensures ShapeOk(run[n].shape) && SearchAt(run[n].shape, head, run[n].x, run[n].level, target)
    ensures Grows(run[0].shape, run[n].shape)
  {
    if n > 0 {
      RunStands(head, target, run, n - 1);
      var a, b := run[n - 1], run[n];
      assert Follows(head, target, run[n - 1], run[n - 1 + 1]);
      if a.shape == b.shape {
        TurnKeeps(a.shape, head, a.x, a.level, target, b.x, b.level);
      } else {
        SearchIsStable(a.shape, b.shape, head, a.x, a.level, target);
      }
    }
  }

  /** However the insertions fall between its turns, a search ends at the first node at or after the target in the
      list of that moment; so it skips nothing that was in the list when it began. */
  lemma {:induction false} SearchNeverSkips(head: Node, target: InternalKey, run: seq<Moment>, found: Node?)
    requires SearchRun(head, target, run)
    requires
      var m := run[|run| - 1];
      ShapeOk(m.shape) && (m.x == head || m.x in m.shape.nodes) && LastTurn(m.shape, head, m.x, m.level, target, found)
    ensures
      var end := run[|run| - 1].shape.nodes;
      var q := LowerBound(EntriesOf(end), target);
      found == if q < |end| then end[q] else null
    ensures forall n :: n in run[0].shape.nodes && !Before(n.entry.key, target) ==> found != null && !Before(n.entry.key, found.entry.key)
  {
    var m := run[|run| - 1];
    RunStands(head, target, run, |run| - 1);
    hide SearchRun, SearchAt, First;
    EndIsSought(m.shape, head, m.x, target, found);
    forall n | n in run[0].shape.nodes && !Before(n.entry.key, target) ensures found != null && !Before(n.entry.key, found.entry.key) {
      FoundIsFirst(m.shape, target, found, n);
    }
  }

  lemma {:induction false} EndIsSought(s: Shape, head: Node, x: Node, target: InternalKey, found: Node?)
    requires ShapeOk(s) && head !in s.nodes && SearchAt(s, head, x, 0, target) && (x == head || x in s.nodes)
    requires LastTurn(s, head, x, 0, target, found)
    ensures
      var q := LowerBound(EntriesOf(s.nodes), target);
      q == Behind(s.nodes, head, x) && found == if q < |s.nodes| then s.nodes[q] else null
  {
    var ns, es, p := s.nodes, EntriesOf(s.nodes), Behind(s.nodes, head, x);
    if p < |ns| {
      assert ns[p] in ns;
      FirstIs(ns[p..], s.linked, 0, 0);
    }
    forall i | 0 <= i < p ensures Before(es[i].key, target) {
      if i < p - 1 {
        assert Before(ns[i].entry.key, ns[p - 1].entry.key);
      }
    }
    LowerBoundIs(es, target, p);
  }

  lemma {:induction false} FoundIsFirst(s: Shape, target: InternalKey, found: Node?, n: Node)
    requires ShapeOk(s) && n in s.nodes && !Before(n.entry.key, target)
    requires
      var q := LowerBound(EntriesOf(s.nodes), target);
      found == if q < |s.nodes| then s.nodes[q] else null
    ensures found != null && !Before(n.entry.key, found.entry.key)
  {
    SoughtPosition(s, target, LowerBound(EntriesOf(s.nodes), target));
    var q := LowerBound(EntriesOf(s.nodes), target);
    var i :| 0 <= i < |s.nodes| && s.nodes[i] == n;
    if q < i {
      assert Before(s.nodes[q].entry.key, s.nodes[i].entry.key);
    }
  }

  class SkipList {
    const head: Node
    var maxHeight: nat
    ghost var shape: Shape
    ghost var Repr: set<object>

    // Every pointer on every level leads to the next node of that level.
    ghost predicate Linked()
      requires ShapeOk(shape) && Arrays()
      reads this, Repr
    {
      && (forall l :: 0 <= l < MAX_HEIGHT ==> head.next[l] == NextOf(shape, head, head, l))
      && (forall n, l :: n in shape.nodes && 0 <= l < shape.linked[n] ==> n.next[l] == NextOf(shape, head, n, l))
    }

    ghost predicate Arrays()
      requires Counted(shape.nodes, shape.linked)
      reads this, Repr
    {
      && head.next.Length == MAX_HEIGHT && head !in shape.nodes && head.next in Repr
      && (forall n :: n in shape.nodes ==> n.next in Repr && n.next != head.next && shape.linked[n] <= n.next.Length <= maxHeight)
      && (forall m, n :: m in shape.nodes && n in shape.nodes && m != n ==> m.next != n.next)
    }

    ghost predicate Valid()
      reads this, Repr
    {
      && this in Repr && ShapeOk(shape) && 1 <= maxHeight <= MAX_HEIGHT && Arrays() && Linked()
    }

    ghost function Contents(): seq<Entry>
      reads this
    {
      EntriesOf(shape.nodes)
    }

    constructor ()
      ensures Valid() && fresh(Repr) && Contents() == []
    {
      var h := new Node(Entry(InternalKey(0.0, 0, Deletion), []), MAX_HEIGHT);
      head, maxHeight, shape := h, 1, Shape([], map[]);
      Repr := {this, h, h.next};
    }

    // The pointer that a search follows.
    lemma {:induction false} NextIs(x: Node, level: nat, target: InternalKey)
      requires Valid() && level < maxHeight && SearchAt(shape, head, x, level, target)
      ensures level < x.next.Length && x.next[level] == NextOf(shape, head, x, level)
    {
    }

    /** One turn of the loop of FindGreaterOrEqual at any moment: the search goes right, or down, or ends
        at the first node at or after the target that is in the list now. */
    method SearchStep(x: Node, level: nat, target: InternalKey) returns (x': Node, level': nat, done: bool, found: Node?)
      requires Valid() && level < maxHeight && SearchAt(shape, head, x, level, target)
      ensures SearchAt(shape, head, x', level', target) && level' <= level
      ensures if done then LastTurn(shape, head, x, level, target, found) else Turn(shape, head, x, level, target, x', level')
      ensures !done ==> if level' == level then x' != x && x' == x.next[level] else level' == level - 1 && x' == x
      ensures done ==> level == 0 && x' == x && IsSought(target, found) && Behind(shape.nodes, head, x) == LowerBound(Contents(), target)
      ensures level' < level || done ==> IsPredecessor(shape, head, x, level, target)
    {
      NextIs(x, level, target);
      ghost var p := Behind(shape.nodes, head, x);
      var next := x.next[level];
      x', level', done, found := x, level, false, null;
      ghost var k := FirstAt(shape.nodes[p..], shape.linked, level);
      if next != null && Before(next.entry.key, target) {
        x' := next;
        NotItself(x, p, next, k);
      } else {
        LastBefore(x, level, target, p, k);
        if level == 0 {
          done, found := true, next;
          EndIsSought(shape, head, x, target, next);
        } else {
          level' := level - 1;
        }
      }
    }

    lemma {:induction false} NotItself(x: Node, p: nat, next: Node, k: nat)
      requires Valid() && (x == head || x in shape.nodes) && p == Behind(shape.nodes, head, x) && p + k < |shape.nodes| && shape.nodes[p..][k] == next
      ensures next != x
    {
      if x != head {
        assert Before(shape.nodes[p - 1].entry.key, shape.nodes[p + k].entry.key);
      }
    }

    // The answer to a search: the first node at or after the target.
    ghost predicate IsSought(target: InternalKey, found: Node?)
      reads this
    {
      var q := LowerBound(Contents(), target);
      if q < |shape.nodes| then found == shape.nodes[q] else found == null
    }

    lemma {:induction false} LastBefore(x: Node, level: nat, target: InternalKey, p: nat, k: nat)
      requires Valid() && SearchAt(shape, head, x, level, target) && p == Behind(shape.nodes, head, x)
      requires k <= |shape.nodes| - p && (forall i :: 0 <= i < k ==> shape.linked[shape.nodes[p..][i]] <= level)
      requires p + k < |shape.nodes| ==> !Before(shape.nodes[p + k].entry.key, target)
      ensures IsPredecessor(shape, head, x, level, target)
    {
      NoneFrom(shape, level, target, p, k);
      AllUpTo(shape, head, x);
    }

    /** FindGreaterOrEqual; prev[l] is the last node before the target on level l. */
    method FindGreaterOrEqual(target: InternalKey) returns (found: Node?, prev: seq<Node>)
      requires Valid()
      ensures IsSought(target, found) && |prev| == maxHeight
      ensures forall l :: 0 <= l < |prev| ==> IsPredecessor(shape, head, prev[l], l, target)
    {
      hide IsSought, IsPredecessor, First, LowerBound, Arrays, Linked, KeysIncrease;
      var x, level: nat, done := head, maxHeight - 1, false;
      found, prev := null, seq(maxHeight, _ => head);
      while !done
        invariant level < maxHeight && SearchAt(shape, head, x, level, target) && |prev| == maxHeight
        invariant done ==> level == 0 && IsSought(target, found)
        invariant forall l :: level < l < maxHeight ==> IsPredecessor(shape, head, prev[l], l, target)
        invariant done ==> IsPredecessor(shape, head, prev[0], 0, target)
        decreases !done, level, Rest(x)
      {
        Progress(x, level, target);
        var x', level', stop, next := SearchStep(x, level, target);
        if level' < level || stop {
          prev := prev[level := x];
        }
        x, level, done, found := x', level', stop, next;
      }
    }

    // How many nodes come after x.
    ghost function Rest(x: Node): nat
      requires x == head || x in shape.nodes
      reads this
    {
      |shape.nodes| - Behind(shape.nodes, head, x)
    }

    lemma {:induction false} Progress(x: Node, level: nat, target: InternalKey)
      requires Valid() && level < maxHeight && SearchAt(shape, head, x, level, target)
      ensures level < x.next.Length && (x.next[level] != null ==> x.next[level] in shape.nodes && Rest(x.next[level]) < Rest(x))
    {
      NextIs(x, level, target);
      var p := Behind(shape.nodes, head, x);
      var k := FirstAt(shape.nodes[p..], shape.linked, level);
      if x.next[level] != null {
        PositionIs(shape.nodes, p + k);
      }
    }

    /** FindLessThan: the last node before the target, or the head. */
    method FindLessThan(target: InternalKey) returns (x: Node)
      requires Valid()
      ensures
        var q := LowerBound(Contents(), target);
        x == if q == 0 then head else shape.nodes[q - 1]
    {
      hide IsSought, IsPredecessor, First, LowerBound;
      x := head;
      var level: nat, done := maxHeight - 1, false;
      while !done
        invariant level < maxHeight && SearchAt(shape, head, x, level, target)
        invariant done ==> Behind(shape.nodes, head, x) == LowerBound(Contents(), target)
        decreases !done, level, Rest(x)
      {
        Progress(x, level, target);
        var x', level', stop, next := SearchStep(x, level, target);
        x, level, done := x', level', stop;
      }
    }

    // Every node is on level 0.
    lemma {:induction false} BottomHasAll(p: nat)
      requires Valid() && p <= |shape.nodes|
      ensures First(shape.nodes[p..], shape.linked, 0) == if p < |shape.nodes| then shape.nodes[p] else null
    {
      assert p < |shape.nodes| ==> shape.nodes[p] in shape.nodes;
    }

    /** FindLast: the last node, or the head. */
    method FindLast() returns (x: Node)
      requires Valid()
      ensures x == if shape.nodes == [] then head else shape.nodes[|shape.nodes| - 1]
    {
      hide First, NextOf, KeysIncrease, Arrays, Linked;
      x := head;
      var level: nat, done := maxHeight - 1, false;
      while !done
        invariant level < maxHeight && (x == head || (x in shape.nodes && shape.linked[x] > level))
        invariant done ==> Behind(shape.nodes, head, x) == |shape.nodes|
        decreases !done, level, Rest(x)
      {
        GoRight(x, level);
        var next := x.next[level];
        if next == null {
          if level == 0 {
            done := true;
          } else {
            level := level - 1;
          }
        } else {
          x := next;
        }
      }
    }

    // A pointer leads to a later node of the level; on level 0 there is one unless x is the last node.
    lemma {:induction false} GoRight(x: Node, level: nat)
      requires Valid() && level < maxHeight && (x == head || (x in shape.nodes && shape.linked[x] > level))
      ensures level < x.next.Length
      ensures x.next[level] != null ==>
        x.next[level] in shape.nodes && shape.linked[x.next[level]] > level && Rest(x.next[level]) < Rest(x)
      ensures x.next[level] == null && level == 0 ==> Behind(shape.nodes, head, x) == |shape.nodes|
    {
      assert x.next[level] == NextOf(shape, head, x, level);
      hide Arrays, Linked;
      var p := Behind(shape.nodes, head, x);
      var k := FirstAt(shape.nodes[p..], shape.linked, level);
      BottomHasAll(p);
      if x.next[level] != null {
        PositionIs(shape.nodes, p + k);
      }
    }

    // The node may be put in the list of `level` at position q of level 0, after w.
    ghost predicate CanLink(x: Node, level: nat, w: Node, q: nat)
      reads this, Repr
    {
      && Fits(shape, head, w, x, q, level)
      && level < x.next.Length <= maxHeight && x.next in Repr && x.next != head.next
      && forall n :: n in shape.nodes && n != x ==> n.next != x.next
    }

    /** The two stores that put a node in the list of one level. The node becomes visible with the
        second, and every level is then again the list of its nodes in order. */
    method Link(x: Node, level: nat, w: Node, ghost q: nat)
      requires Valid() && CanLink(x, level, w, q)
      modifies x.next, w.next, `shape
      ensures Valid() && shape == Spliced(old(shape), x, q, level) && Grows(old(shape), shape)
    {
      SplicedOk(shape, head, w, x, q, level);
      LinksChange(shape, head, x, level, w, q);
      hide Fits, Spliced, ShapeOk, Grows, Arrays, Linked, Before;
      Store(x, level, w, Spliced(shape, x, q, level));
    }

    method Store(x: Node, level: nat, w: Node, ghost s': Shape)
      requires Valid() && Changes(shape, s', head, x, level, w)
      requires level < x.next.Length <= maxHeight && x.next in Repr && x.next != head.next && level < MAX_HEIGHT
      requires forall n :: n in shape.nodes && n != x ==> n.next != x.next
      modifies x.next, w.next, `shape
      ensures Valid() && shape == s'
    {
      hide First, NextOf, Before, KeysIncrease, Behind;
      assert w == head || w in shape.nodes;
      assert w.next[level] == NextOf(shape, head, w, level);
      x.next[level] := w.next[level];
      assert Valid();
      w.next[level] := x;
      shape := s';
    }

    // The nodes above the old height have the head before them.
    lemma {:induction false} HeadIsPredecessor(level: nat, target: InternalKey)
      requires Valid() && level >= maxHeight
      ensures IsPredecessor(shape, head, head, level, target)
    {
    }

    lemma {:induction false} ReadyToLink(s: Shape, x: Node, q: nat, prev: seq<Node>, height: nat, R: set<object>, i: nat)
      requires Valid() && q <= |s.nodes| && shape == InsertedShape(s, x, q, i)
      requires Prepared(s, head, x, q, prev, height, R) && i < height <= maxHeight && x.next in Repr
      ensures CanLink(x, i, prev[i], q) && prev[i].next in R
    {
      hide Fits, First, Before, LowerBound, IsPredecessor, InsertedShape, KeysIncrease;
      OneLevelMore(s, x, q, i);
      PreparedFits(s, head, x, q, prev, height, R, i);
    }

    // The loop over the levels of the new node, from the bottom up.
    method LinkAll(x: Node, prev: seq<Node>, height: nat, ghost s: Shape, ghost q: nat)
      requires Valid() && shape == s && q <= |s.nodes| && 0 < height <= maxHeight && x.next in Repr
      requires Prepared(s, head, x, q, prev, height, Repr)
      modifies Repr
      ensures Valid() && shape == InsertedShape(s, x, q, height) && Repr == old(Repr)
    {
      hide Prepared, ShapeOk, Arrays, Linked, First, Fits, InsertedShape, Before, Spliced, Grows;
      OneLevelMore(s, x, q, 0);
      assert height <= |prev| by {
        EnoughPredecessors(s, x, prev, height, q);
      }
      for i := 0 to height
        invariant Valid() && shape == InsertedShape(s, x, q, i) && Repr == old(Repr) && maxHeight >= height
      {
        OneLevelMore(s, x, q, i);
        ReadyToLink(s, x, q, prev, height, Repr, i);
        Link(x, i, prev[i], q);
      }
    }

    lemma {:induction false} EnoughPredecessors(s: Shape, x: Node, prev: seq<Node>, height: nat, q: nat)
      requires Prepared(s, head, x, q, prev, height, Repr)
      ensures height <= |prev|
    {
    }

    /** Insert: after each pointer store the list is valid; the random height is a parameter. */
    method Insert(e: Entry, height: nat)
      requires Valid() && 1 <= height <= MAX_HEIGHT
      requires forall i :: 0 <= i < |Contents()| ==> Before(Contents()[i].key, e.key) || Before(e.key, Contents()[i].key)
      modifies Repr
      ensures Valid() && fresh(Repr - old(Repr)) && Grows(old(shape), shape)
      ensures Contents() == InsertEntry(old(Contents()), e)
    {
      hide First, IsPredecessor, Fits, NextOf, Spliced, KeysIncrease, LowerBound, IsSought, InsertedShape, Grows, InsertEntry, Before;
      ghost var s, q := shape, LowerBound(Contents(), e.key);
      assert forall i :: 0 <= i < |s.nodes| ==> s.nodes[i].entry == Contents()[i];
      var prev := FindPredecessors(e.key, height);
      if height > maxHeight {
        maxHeight := height;
      }
      var x := new Node(e, height);
      Repr := Repr + {x, x.next};
      assert forall n :: n in s.nodes ==> n.next in old(Repr);
      NewNodePrepared(s, x, q, prev, height, Repr);
      LinkAll(x, prev, height, s, q);
      InsertedEntries(s, x, q, height);
      GrowsBy(s, x, q, height);
    }

    lemma {:induction false} NewNodePrepared(s: Shape, x: Node, q: nat, prev: seq<Node>, height: nat, R: set<object>)
      requires ShapeOk(s) && head !in s.nodes && x !in s.nodes && x != head && q == LowerBound(EntriesOf(s.nodes), x.entry.key)
      requires forall i :: 0 <= i < |s.nodes| ==> Before(s.nodes[i].entry.key, x.entry.key) || Before(x.entry.key, s.nodes[i].entry.key)
      requires forall l :: 0 <= l < |prev| ==> IsPredecessor(s, head, prev[l], l, x.entry.key)
      requires height <= |prev| && x.next.Length == height <= MAX_HEIGHT
      requires x.next != head.next && head.next in R && (forall n :: n in s.nodes ==> n.next != x.next && n.next in R)
      ensures q <= |s.nodes| && Prepared(s, head, x, q, prev, height, R)
    {
      hide IsPredecessor, Before, KeysIncrease;
      SoughtPosition(s, x.entry.key, q);
    }

    // FindGreaterOrEqual fills prev up to the current height; the levels above it start at the head.
    method FindPredecessors(target: InternalKey, height: nat) returns (prev: seq<Node>)
      requires Valid() && height <= MAX_HEIGHT
      ensures height <= |prev| && forall l :: 0 <= l < |prev| ==> IsPredecessor(shape, head, prev[l], l, target)
    {
      hide IsPredecessor, IsSought;
      var found;
      found, prev := FindGreaterOrEqual(target);
      if height > maxHeight {
        forall l | maxHeight <= l < MAX_HEIGHT ensures IsPredecessor(shape, head, head, l, target) {
          HeadIsPredecessor(l, target);
        }
        prev := prev + seq(height - maxHeight, _ => head);
      }
    }

    /** MemTable::Get: seek to the lookup key, then compare the user key. */
    method Get(k: UserKey, snapshot: nat) returns (r: SaverState)
      requires Valid()
      ensures r == SaveValue(Contents(), k, snapshot)
    {
      hide IsPredecessor, LowerBound;
      var found, prev := FindGreaterOrEqual(LookupKey(k, snapshot));
      r := NotFound;
      if found != null && found.entry.key.user == k {
        r := if found.entry.key.kind.Value? then Found(found.entry) else Deleted(found.entry);
      }
    }
  }
}
