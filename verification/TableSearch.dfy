/** Why a point lookup may look in a single data block (table/table.cc: InternalGet). */
module TableSearch {
  import opened Coding
  import opened Options
  import opened Keys
  import opened Store
  import opened FileSearch

  // The index entry of a block: its last key, or a key for a user key strictly after it that is
  // also strictly before the user key of the next block's first entry.
  predicate Separates(last: InternalKey, sep: InternalKey, next: Option<InternalKey>) {
    sep == last || (last.user < sep.user && sep.sequence == MAX_SEQUENCE && sep.kind.Value? && (next.Some? ==> sep.user < next.value.user))
  }

  function FirstOf(blocks: seq<seq<Entry>>, i: nat): Option<InternalKey> {
    if i < |blocks| && blocks[i] != [] then Some(blocks[i][0].key) else None
  }

  ghost predicate Indexed(blocks: seq<seq<Entry>>, seps: seq<InternalKey>) {
    && |seps| == |blocks| && SortedEntries(Flatten(blocks))
    && (forall i :: 0 <= i < |blocks| ==> blocks[i] != [])
    && (forall i :: 0 <= i < |blocks| ==> Separates(blocks[i][|blocks[i]| - 1].key, seps[i], FirstOf(blocks, i + 1)))
  }

  // Number of entries before block i.
  function EntriesBefore(blocks: seq<seq<Entry>>, i: nat): nat
    requires i <= |blocks|
  {
    |Flatten(blocks[..i])|
  }

  lemma {:induction false} BlockAt(blocks: seq<seq<Entry>>, i: nat, j: nat)
    requires i < |blocks| && j < |blocks[i]|
    ensures EntriesBefore(blocks, i) + j < EntriesBefore(blocks, i + 1) <= |Flatten(blocks)|
    ensures Flatten(blocks)[EntriesBefore(blocks, i) + j] == blocks[i][j]
    decreases |blocks|
  {
    var init := blocks[..|blocks| - 1];
    assert blocks[..i + 1][..i] == blocks[..i];
    if i < |init| {
      BlockAt(init, i, j);
      assert init[..i] == blocks[..i] && init[..i + 1] == blocks[..i + 1];
    } else {
      assert init == blocks[..i] && blocks[..i + 1] == blocks;
    }
  }

  lemma {:induction false} EntryBlock(blocks: seq<seq<Entry>>, p: nat) returns (i: nat, j: nat)
    requires p < |Flatten(blocks)|
    ensures i < |blocks| && j < |blocks[i]| && p == EntriesBefore(blocks, i) + j && Flatten(blocks)[p] == blocks[i][j]
  {
    var init := blocks[..|blocks| - 1];
    if p < |Flatten(init)| {
      i, j := EntryBlock(init, p);
      BlockAt(blocks, i, j);
      assert init[..i] == blocks[..i];
    } else {
      i, j := |init|, p - |Flatten(init)|;
      assert init == blocks[..i];
    }
  }

  // Entries of the whole table follow the order of the blocks.
  lemma {:induction false} AcrossBlocks(blocks: seq<seq<Entry>>, i: nat, j: nat, m: nat, n: nat)
    requires SortedEntries(Flatten(blocks)) && i < |blocks| && m < |blocks| && j < |blocks[i]| && n < |blocks[m]|
    requires i < m || (i == m && j < n)
    ensures Before(blocks[i][j].key, blocks[m][n].key)
  {
    BlockAt(blocks, i, j);
    BlockAt(blocks, m, n);
    if i < m {
      PrefixGrows(blocks, i + 1, m);
    }
  }

  lemma {:induction false} PrefixGrows(blocks: seq<seq<Entry>>, i: nat, m: nat)
    requires i <= m <= |blocks|
    ensures EntriesBefore(blocks, i) <= EntriesBefore(blocks, m)
    decreases m
  {
    if i < m {
      PrefixGrows(blocks, i, m - 1);
      assert blocks[..m][..m - 1] == blocks[..m - 1];
    }
  }

  lemma {:induction false} BlockSorted(blocks: seq<seq<Entry>>, i: nat)
    requires SortedEntries(Flatten(blocks)) && i < |blocks|
    ensures SortedEntries(blocks[i])
  {
    forall j, n | 0 <= j < n < |blocks[i]| ensures Before(blocks[i][j].key, blocks[i][n].key) {
      AcrossBlocks(blocks, i, j, i, n);
    }
  }

  // i is the block that Seek on the index finds.
  ghost predicate IndexSeek(seps: seq<InternalKey>, target: InternalKey, i: nat) {
    && i <= |seps|
    && (forall j :: 0 <= j < i ==> Before(seps[j], target))
    && (i < |seps| ==> !Before(seps[i], target))
  }

  /** The block found by the index answers for the whole table: when its entries end before the
      target, whatever comes next belongs to another user key. */
  lemma {:induction false} OneBlockSuffices(blocks: seq<seq<Entry>>, seps: seq<InternalKey>, k: UserKey, s: nat, i: nat)
    requires Indexed(blocks, seps) && IndexSeek(seps, LookupKey(k, s), i) && s <= MAX_SEQUENCE
    ensures SaveValue(Flatten(blocks), k, s) == if i < |blocks| then SaveValue(blocks[i], k, s) else NotFound
  {
    assert |seps| == |blocks|;
    hide SaveValue, Indexed, IndexSeek, Flatten, LowerBound;
    var all, t := Flatten(blocks), LookupKey(k, s);
    var p := LowerBound(all, t);
    BeforeBlock(blocks, seps, t, i);
    if i < |blocks| {
      BlockSortedOf(blocks, seps, i);
      var q := LowerBound(blocks[i], t);
      AnswerInBlock(blocks, seps, k, s, i, q);
    } else {
      assert blocks[..i] == blocks;
      LowerBoundIs(all, t, |all|);
      SaveValueAt(all, k, s, |all|);
    }
  }

  lemma {:induction false} BlockSortedOf(blocks: seq<seq<Entry>>, seps: seq<InternalKey>, i: nat)
    requires Indexed(blocks, seps) && i < |blocks|
    ensures SortedEntries(blocks[i]) && SortedEntries(Flatten(blocks)) && blocks[i] != []
  {
    BlockSorted(blocks, i);
  }

  // Everything in the earlier blocks is before the target.
  lemma {:induction false} BeforeBlock(blocks: seq<seq<Entry>>, seps: seq<InternalKey>, t: InternalKey, i: nat)
    requires Indexed(blocks, seps) && IndexSeek(seps, t, i)
    ensures EntriesBefore(blocks, i) <= |Flatten(blocks)| && SortedEntries(Flatten(blocks))
    ensures forall x :: 0 <= x < EntriesBefore(blocks, i) ==> Before(Flatten(blocks)[x].key, t)
  {
    PrefixGrows(blocks, i, |blocks|);
    assert blocks[..|blocks|] == blocks;
    hide Flatten;
    forall x | 0 <= x < EntriesBefore(blocks, i) ensures Before(Flatten(blocks)[x].key, t) {
      var m, n := EntryBlock(blocks, x);
      if m >= i {
        PrefixGrows(blocks, i, m);
      }
      BeforeSeparator(blocks, seps, t, m, n);
    }
  }

  lemma {:induction false} BeforeSeparator(blocks: seq<seq<Entry>>, seps: seq<InternalKey>, t: InternalKey, m: nat, n: nat)
    requires Indexed(blocks, seps) && m < |blocks| && n < |blocks[m]| && Before(seps[m], t)
    ensures Before(blocks[m][n].key, t)
  {
    var last := |blocks[m]| - 1;
    assert Separates(blocks[m][last].key, seps[m], FirstOf(blocks, m + 1));
    hide Flatten;
    if n < last {
      AcrossBlocks(blocks, m, n, m, last);
    }
  }

  lemma {:induction false} SaveValueAt(es: seq<Entry>, k: UserKey, s: nat, p: nat)
    requires p == LowerBound(es, LookupKey(k, s))
    ensures SaveValue(es, k, s)
         == if p == |es| || es[p].key.user != k then NotFound else if es[p].key.kind.Value? then Found(es[p]) else Deleted(es[p])
  {
  }

  lemma {:induction false} AnswerInBlock(blocks: seq<seq<Entry>>, seps: seq<InternalKey>, k: UserKey, s: nat, i: nat, q: nat)
    requires Indexed(blocks, seps) && IndexSeek(seps, LookupKey(k, s), i) && s <= MAX_SEQUENCE && i < |blocks|
    requires q == LowerBound(blocks[i], LookupKey(k, s)) && SortedEntries(blocks[i]) && SortedEntries(Flatten(blocks))
    requires EntriesBefore(blocks, i) <= |Flatten(blocks)|
    requires forall x :: 0 <= x < EntriesBefore(blocks, i) ==> Before(Flatten(blocks)[x].key, LookupKey(k, s))
    ensures SaveValue(Flatten(blocks), k, s) == SaveValue(blocks[i], k, s)
  {
    assert forall j :: 0 <= j < |blocks| ==> blocks[j] != [];
    hide Flatten, LowerBound, EntriesBefore, Indexed, SortedEntries, SaveValue;
    var all, t, a := Flatten(blocks), LookupKey(k, s), EntriesBefore(blocks, i);
    BlockBelow(blocks, i, q, t);
    SaveValueAt(blocks[i], k, s, q);
    if q < |blocks[i]| {
      BlockAt(blocks, i, q);
      AnswerAt(all, k, s, a + q);
    } else {
      EndOfBlock(blocks, i);
      if i + 1 < |blocks| {
        NextBlockIsOther(blocks, seps, k, s, i);
      }
      AnswerAt(all, k, s, a + q);
    }
  }

  lemma {:induction false} BlockBelow(blocks: seq<seq<Entry>>, i: nat, q: nat, t: InternalKey)
    requires i < |blocks| && q == LowerBound(blocks[i], t) && blocks[i] != []
    ensures
      var all, a := Flatten(blocks), EntriesBefore(blocks, i);
      a + q <= |all| && forall x :: a <= x < a + q ==> Before(all[x].key, t)
  {
    hide Flatten, EntriesBefore;
    var all, a := Flatten(blocks), EntriesBefore(blocks, i);
    BlockAt(blocks, i, |blocks[i]| - 1);
    forall x | a <= x < a + q ensures x < |all| && Before(all[x].key, t) {
      BlockAt(blocks, i, x - a);
    }
  }

  lemma {:induction false} AnswerAt(all: seq<Entry>, k: UserKey, s: nat, p: nat)
    requires p <= |all| && (forall x :: 0 <= x < p ==> Before(all[x].key, LookupKey(k, s)))
    requires p < |all| ==> !Before(all[p].key, LookupKey(k, s))
    ensures SaveValue(all, k, s)
         == if p == |all| || all[p].key.user != k then NotFound else if all[p].key.kind.Value? then Found(all[p]) else Deleted(all[p])
  {
    LowerBoundIs(all, LookupKey(k, s), p);
  }

  lemma {:induction false} EndOfBlock(blocks: seq<seq<Entry>>, i: nat)
    requires i < |blocks| && forall j :: 0 <= j < |blocks| ==> blocks[j] != []
    ensures EntriesBefore(blocks, i) + |blocks[i]| == EntriesBefore(blocks, i + 1)
    ensures i + 1 == |blocks| ==> EntriesBefore(blocks, i + 1) == |Flatten(blocks)|
    ensures i + 1 < |blocks| ==> EntriesBefore(blocks, i + 1) < |Flatten(blocks)| && Flatten(blocks)[EntriesBefore(blocks, i + 1)] == blocks[i + 1][0]
  {
    assert blocks[..i + 1][..i] == blocks[..i];
    assert blocks[..|blocks|] == blocks;
    if i + 1 < |blocks| {
      BlockAt(blocks, i + 1, 0);
    }
  }

  // A target between a block's last key and its separator is for another user key than the next block's first.
  lemma {:induction false} NextBlockIsOther(blocks: seq<seq<Entry>>, seps: seq<InternalKey>, k: UserKey, s: nat, i: nat)
    requires Indexed(blocks, seps) && i + 1 < |blocks| && s <= MAX_SEQUENCE
    requires !Before(seps[i], LookupKey(k, s)) && Before(blocks[i][|blocks[i]| - 1].key, LookupKey(k, s))
    ensures !Before(blocks[i + 1][0].key, LookupKey(k, s)) && blocks[i + 1][0].key.user != k
  {
    assert Separates(blocks[i][|blocks[i]| - 1].key, seps[i], FirstOf(blocks, i + 1));
  }
}
