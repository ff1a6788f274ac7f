/** Tables, versions and the meaning of a read (db/version_set.h). */
module Store {
  import opened Coding
  import opened Options
  import opened Keys

  const NUM_LEVELS: nat := 7

  /** FileMetaData together with the immutable contents of the table it names. */
  datatype File = File(number: nat, size: nat, smallest: InternalKey, largest: InternalKey, entries: seq<Entry>)

  /** files[l] lists the tables of level l. */
  datatype Version = Version(files: seq<seq<File>>)

  predicate ValidFile(f: File) {
    && |f.entries| > 0
    && SortedEntries(f.entries)
    && f.smallest == f.entries[0].key
    && f.largest == f.entries[|f.entries| - 1].key
    && forall i :: 0 <= i < |f.entries| ==> f.entries[i].key.sequence <= MAX_SEQUENCE
  }

  predicate ValidFiles(fs: seq<File>) {
    forall i :: 0 <= i < |fs| ==> ValidFile(fs[i])
  }

  // Levels >= 1: tables in key order with disjoint internal-key ranges.
  predicate SortedDisjoint(fs: seq<File>) {
    forall i, j :: 0 <= i < j < |fs| ==> Before(fs[i].largest, fs[j].smallest)
  }

  predicate DistinctNumbers(fs: seq<File>) {
    forall i, j :: 0 <= i < j < |fs| ==> fs[i].number != fs[j].number
  }

  predicate ValidVersion(v: Version) {
    && |v.files| == NUM_LEVELS
    && (forall l :: 0 <= l < NUM_LEVELS ==> ValidFiles(v.files[l]) && DistinctNumbers(v.files[l]))
    && (forall l :: 1 <= l < NUM_LEVELS ==> SortedDisjoint(v.files[l]))
  }

  // e is stored in one of the tables of the list.
  ghost predicate InFiles(fs: seq<File>, e: Entry) {
    exists i :: 0 <= i < |fs| && e in fs[i].entries
  }

  // For one user key, everything in f is newer than everything in g.
  ghost predicate NewerFile(f: File, g: File) {
    forall e, e' :: e in f.entries && e' in g.entries && e.key.user == e'.key.user ==> e.key.sequence > e'.key.sequence
  }

  // For one user key, everything in the tables fs is newer than everything in the tables gs.
  ghost predicate NewerFiles(fs: seq<File>, gs: seq<File>) {
    forall e, e' :: InFiles(fs, e) && InFiles(gs, e') && e.key.user == e'.key.user ==> e.key.sequence > e'.key.sequence
  }

  // Level 0: a table with a larger number is newer.
  ghost predicate NewerByNumber(fs: seq<File>) {
    forall i, j :: 0 <= i < |fs| && 0 <= j < |fs| && fs[i].number > fs[j].number ==> NewerFile(fs[i], fs[j])
  }

  // For one user key, shallower levels hold newer entries than deeper ones.
  ghost predicate LevelOrder(v: Version) {
    forall l, m :: 0 <= l < m < |v.files| ==> NewerFiles(v.files[l], v.files[m])
  }

  ghost predicate OrderedVersion(v: Version) {
    ValidVersion(v) && LevelOrder(v) && NewerByNumber(v.files[0])
  }

  ghost predicate InVersion(v: Version, e: Entry) {
    exists l :: 0 <= l < |v.files| && InFiles(v.files[l], e)
  }

  ghost function VersionEntries(v: Version): iset<Entry> {
    iset e | InVersion(v, e)
  }

  // e is the newest entry of user key k in `all` with sequence at most s.
  ghost predicate IsNewest(all: iset<Entry>, k: UserKey, s: nat, e: Entry) {
    && e in all && e.key.user == k && e.key.sequence <= s
    && forall e' :: e' in all && e'.key.user == k && e'.key.sequence <= s ==> e'.key.sequence <= e.key.sequence
  }

  // What an entry found by a search tells the reader: a deletion marker reads as absent.
  function Shown(e: Entry): Option<Bytes> {
    if e.key.kind.Value? then Some(e.value) else None
  }

  // r is the answer to "k at snapshot s" over the entries `all`.
  ghost predicate ReadIs(all: iset<Entry>, k: UserKey, s: nat, r: Option<Bytes>) {
    if exists e :: e in all && e.key.user == k && e.key.sequence <= s then
      exists e :: IsNewest(all, k, s, e) && r == Shown(e)
    else
      r == None
  }

  ghost predicate UniqueSequences(all: iset<Entry>) {
    forall e, e' :: e in all && e' in all && e.key.sequence == e'.key.sequence ==> e == e'
  }

  lemma {:induction false} ReadIsUnique(all: iset<Entry>, k: UserKey, s: nat, r: Option<Bytes>, r': Option<Bytes>)
    requires UniqueSequences(all)
    requires ReadIs(all, k, s, r) && ReadIs(all, k, s, r')
    ensures r == r'
  {
    if exists e :: e in all && e.key.user == k && e.key.sequence <= s {
      var e :| IsNewest(all, k, s, e) && r == Shown(e);
      var e' :| IsNewest(all, k, s, e') && r' == Shown(e');
    }
  }
}
