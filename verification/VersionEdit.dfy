/** The records of the MANIFEST (db/version_edit.h, db/version_edit.cc): EncodeTo and DecodeFrom. */
module VersionEdits {
  import opened Coding
  import opened Options

  const NUM_LEVELS: nat := 7

  datatype CompactPointer = CompactPointer(level: nat, key: Bytes)
  datatype DeletedFile = DeletedFile(level: nat, number: nat)
  datatype NewFile = NewFile(level: nat, number: nat, fileSize: nat, smallest: Bytes, largest: Bytes)

  // deletedFiles in the order of the std::set that holds them.
  datatype Contents = Contents(
    comparator: Option<Bytes>, logNumber: Option<nat>, prevLogNumber: Option<nat>, nextFileNumber: Option<nat>, lastSequence: Option<nat>,
    compactPointers: seq<CompactPointer>, deletedFiles: seq<DeletedFile>, newFiles: seq<NewFile>)

  const EMPTY: Contents := Contents(None, None, None, None, None, [], [], [])

  predicate Before(a: DeletedFile, b: DeletedFile) {
    a.level < b.level || (a.level == b.level && a.number < b.number)
  }

  ghost predicate Ordered(s: seq<DeletedFile>) {
    forall i, j :: 0 <= i < j < |s| ==> Before(s[i], s[j])
  }

  // std::set::insert
  function Inserted(s: seq<DeletedFile>, x: DeletedFile): seq<DeletedFile> {
    if s == [] || Before(x, s[0]) then [x] + s
    else if s[0] == x then s
    else [s[0]] + Inserted(s[1..], x)
  }

  // ---- Items ----

  datatype Item =
    | Comparator(name: Bytes)
    | LogNumber(number: nat)
    | PrevLogNumber(number: nat)
    | NextFileNumber(number: nat)
    | LastSequence(number: nat)
    | Pointer(pointer: CompactPointer)
    | Deleted(file: DeletedFile)
    | New(newFile: NewFile)

  function Tag(item: Item): nat {
    match item
    case Comparator(_) => 1
    case LogNumber(_) => 2
    case NextFileNumber(_) => 3
    case LastSequence(_) => 4
    case Pointer(_) => 5
    case Deleted(_) => 6
    case New(_) => 7
    case PrevLogNumber(_) => 9
  }

  function ItemBytes(item: Item): Bytes {
    Varint(Tag(item)) +
    match item
    case Comparator(name) => LengthPrefixed(name)
    case LogNumber(n) => Varint(n)
    case PrevLogNumber(n) => Varint(n)
    case NextFileNumber(n) => Varint(n)
    case LastSequence(n) => Varint(n)
    case Pointer(p) => Varint(p.level) + LengthPrefixed(p.key)
    case Deleted(f) => Varint(f.level) + Varint(f.number)
    case New(f) => Varint(f.level) + (Varint(f.number) + (Varint(f.fileSize) + (LengthPrefixed(f.smallest) + LengthPrefixed(f.largest))))
  }

  function Encode(items: seq<Item>): Bytes {
    if items == [] then [] else ItemBytes(items[0]) + Encode(items[1..])
  }

  // What EncodeTo writes, in its order.
  function Numbered(tag: nat, n: nat): Item {
    if tag == 2 then LogNumber(n) else if tag == 9 then PrevLogNumber(n) else if tag == 3 then NextFileNumber(n) else LastSequence(n)
  }

  function OptionItem(tag: nat, o: Option<nat>): seq<Item> {
    if o.None? then [] else [Numbered(tag, o.value)]
  }

  function PointerItems(ps: seq<CompactPointer>): seq<Item> {
    seq(|ps|, i requires 0 <= i < |ps| => Pointer(ps[i]))
  }

  function DeletedItems(fs: seq<DeletedFile>): seq<Item> {
    seq(|fs|, i requires 0 <= i < |fs| => Deleted(fs[i]))
  }

  function NewItems(fs: seq<NewFile>): seq<Item> {
    seq(|fs|, i requires 0 <= i < |fs| => New(fs[i]))
  }

  // The single items.
  function Singles(c: Contents): seq<Item> {
    (if c.comparator.None? then [] else [Comparator(c.comparator.value)])
    + OptionItem(2, c.logNumber) + OptionItem(9, c.prevLogNumber) + OptionItem(3, c.nextFileNumber) + OptionItem(4, c.lastSequence)
  }

  function Items(c: Contents): seq<Item> {
    Singles(c) + PointerItems(c.compactPointers) + DeletedItems(c.deletedFiles) + NewItems(c.newFiles)
  }

  // What DecodeFrom does with an item.
  function Take(c: Contents, item: Item): Contents {
    match item
    case Comparator(name) => c.(comparator := Some(name))
    case LogNumber(n) => c.(logNumber := Some(n))
    case PrevLogNumber(n) => c.(prevLogNumber := Some(n))
    case NextFileNumber(n) => c.(nextFileNumber := Some(n))
    case LastSequence(n) => c.(lastSequence := Some(n))
    case Pointer(p) => c.(compactPointers := c.compactPointers + [p])
    case Deleted(f) => c.(deletedFiles := Inserted(c.deletedFiles, f))
    case New(f) => c.(newFiles := c.newFiles + [f])
  }

  function TakeAll(c: Contents, items: seq<Item>): Contents
    decreases |items|
  {
    if items == [] then c else TakeAll(Take(c, items[0]), items[1..])
  }

  // ---- Parsing ----

  datatype Read<T> = Bad | Good(value: T, rest: Bytes)

  // GetVarint64
  function GetNumber(s: Bytes): (r: Read<nat>)
    ensures r.Good? ==> |r.rest| < |s| && r.value < 0x1_0000_0000_0000_0000
  {
    match ParseVarint64(s)
    case Malformed => Bad
    case Parsed(v, n) => Good(v, s[n..])
  }

  // GetVarint32
  function GetTag(s: Bytes): (r: Read<nat>)
    ensures r.Good? ==> |r.rest| < |s|
  {
    match ParseVarint32(s)
    case Malformed => Bad
    case Parsed(v, n) => Good(v, s[n..])
  }

  function GetLevel(s: Bytes): (r: Read<nat>)
    ensures r.Good? ==> |r.rest| < |s| && r.value < NUM_LEVELS
  {
    match GetTag(s)
    case Bad => Bad
    case Good(v, rest) => if v < NUM_LEVELS then Good(v, rest) else Bad
  }

  // GetLengthPrefixedSlice
  function GetSlice(s: Bytes): (r: Read<Bytes>)
    ensures r.Good? ==> |r.rest| < |s|
  {
    match ParseLengthPrefixed(s)
    case NoSlice => Bad
    case Sliced(value, n) => Good(value, s[n..])
  }

  function NumberItem(r: Read<nat>, tag: nat): (q: Read<Item>)
    ensures q.Good? ==> r.Good? && q.rest == r.rest
  {
    match r
    case Bad => Bad
    case Good(n, rest) => Good(Numbered(tag, n), rest)
  }

  // The contents of the item after its tag.
  function GetItem(tag: nat, s: Bytes): (r: Read<Item>)
    ensures r.Good? ==> |r.rest| < |s|
  {
    if tag == 1 then
      match GetSlice(s)
      case Bad => Bad
      case Good(name, rest) => Good(Comparator(name), rest)
    else if tag == 2 then NumberItem(GetNumber(s), 2)
    else if tag == 9 then NumberItem(GetNumber(s), 9)
    else if tag == 3 then NumberItem(GetNumber(s), 3)
    else if tag == 4 then NumberItem(GetNumber(s), 4)
    else if tag == 5 then
      match GetLevel(s)
      case Bad => Bad
      case Good(level, s1) =>
        (match GetSlice(s1)
         case Bad => Bad
         case Good(key, rest) => Good(Pointer(CompactPointer(level, key)), rest))
    else if tag == 6 then
      match GetLevel(s)
      case Bad => Bad
      case Good(level, s1) =>
        (match GetNumber(s1)
         case Bad => Bad
         case Good(number, rest) => Good(Deleted(DeletedFile(level, number)), rest))
    else if tag == 7 then
      match GetLevel(s)
      case Bad => Bad
      case Good(level, s1) => GetNewFile(level, s1)
    else Bad
  }

  function GetNewFile(level: nat, s: Bytes): (r: Read<Item>)
    ensures r.Good? ==> |r.rest| < |s|
  {
    match GetNumber(s)
    case Bad => Bad
    case Good(number, s1) =>
      match GetNumber(s1)
      case Bad => Bad
      case Good(size, s2) =>
        match GetSlice(s2)
        case Bad => Bad
        case Good(smallest, s3) =>
          match GetSlice(s3)
          case Bad => Bad
          case Good(largest, rest) => Good(New(NewFile(level, number, size, smallest, largest)), rest)
  }

  // The loop of DecodeFrom; Bad is a corruption.
  function Decode(c: Contents, s: Bytes): Option<Contents>
    decreases |s|
  {
    match GetTag(s)
    case Bad => if s == [] then Some(c) else None
    case Good(tag, rest) =>
      match GetItem(tag, rest)
      case Bad => None
      case Good(item, rest') => Decode(Take(c, item), rest')
  }

  // ---- Round trip ----

  // What fits in the types of the record.
  predicate ItemOk(item: Item) {
    match item
    case Comparator(name) => |name| < 0x1_0000_0000
    case LogNumber(n) => n < 0x1_0000_0000_0000_0000
    case PrevLogNumber(n) => n < 0x1_0000_0000_0000_0000
    case NextFileNumber(n) => n < 0x1_0000_0000_0000_0000
    case LastSequence(n) => n < 0x1_0000_0000_0000_0000
    case Pointer(p) => p.level < NUM_LEVELS && |p.key| < 0x1_0000_0000
    case Deleted(f) => f.level < NUM_LEVELS && f.number < 0x1_0000_0000_0000_0000
    case New(f) =>
      f.level < NUM_LEVELS && f.number < 0x1_0000_0000_0000_0000 && f.fileSize < 0x1_0000_0000_0000_0000
      && |f.smallest| < 0x1_0000_0000 && |f.largest| < 0x1_0000_0000
  }

  ghost predicate ContentsOk(c: Contents) {
    Ordered(c.deletedFiles) && forall item :: item in Items(c) ==> ItemOk(item)
  }

  lemma {:induction false} NumberReads(n: nat, rest: Bytes)
    requires n < 0x1_0000_0000_0000_0000
    ensures GetNumber(Varint(n) + rest) == Good(n, rest)
  {
    hide ParseVarint64, Varint;
    Varint64RoundTrip(n, rest);
    assert (Varint(n) + rest)[|Varint(n)|..] == rest;
  }

  lemma {:induction false} TagReads(n: nat, rest: Bytes)
    requires n < 0x1_0000_0000
    ensures GetTag(Varint(n) + rest) == Good(n, rest)
    ensures n < NUM_LEVELS ==> GetLevel(Varint(n) + rest) == Good(n, rest)
  {
    hide ParseVarint32, Varint;
    Varint32RoundTrip(n, rest);
    assert (Varint(n) + rest)[|Varint(n)|..] == rest;
  }

  lemma {:induction false} SliceReads(b: Bytes, rest: Bytes)
    requires |b| < 0x1_0000_0000
    ensures GetSlice(LengthPrefixed(b) + rest) == Good(b, rest)
  {
    hide ParseLengthPrefixed, LengthPrefixed;
    LengthPrefixedRoundTrip(b, rest);
    assert (LengthPrefixed(b) + rest)[|LengthPrefixed(b)|..] == rest;
  }

  lemma {:induction false} Regroup(a: Bytes, b: Bytes, c: Bytes)
    ensures a + b + c == a + (b + c)
  {
  }

  lemma {:induction false} ItemReads(item: Item, rest: Bytes)
    requires ItemOk(item)
    ensures GetTag(ItemBytes(item) + rest).Good? && GetTag(ItemBytes(item) + rest).value == Tag(item)
    ensures GetItem(Tag(item), GetTag(ItemBytes(item) + rest).rest) == Good(item, rest)
  {
    hide GetTag, GetNumber, GetSlice, GetLevel, Varint, LengthPrefixed;
    var tag := Varint(Tag(item));
    match item
    case Comparator(name) =>
      Regroup(tag, LengthPrefixed(name), rest);
      TagReads(1, LengthPrefixed(name) + rest);
      SliceReads(name, rest);
    case LogNumber(n) => NumberItemReads(item, 2, n, rest);
    case PrevLogNumber(n) => NumberItemReads(item, 9, n, rest);
    case NextFileNumber(n) => NumberItemReads(item, 3, n, rest);
    case LastSequence(n) => NumberItemReads(item, 4, n, rest);
    case Pointer(p) =>
      var tail := LengthPrefixed(p.key) + rest;
      Regroup(Varint(p.level), LengthPrefixed(p.key), rest);
      Regroup(tag, Varint(p.level) + LengthPrefixed(p.key), rest);
      TagReads(5, Varint(p.level) + tail);
      TagReads(p.level, tail);
      SliceReads(p.key, rest);
    case Deleted(f) =>
      var tail := Varint(f.number) + rest;
      Regroup(Varint(f.level), Varint(f.number), rest);
      Regroup(tag, Varint(f.level) + Varint(f.number), rest);
      TagReads(6, Varint(f.level) + tail);
      TagReads(f.level, tail);
      NumberReads(f.number, rest);
    case New(f) => NewFileReads(f, rest);
  }

  lemma {:induction false} NumberItemReads(item: Item, tag: nat, n: nat, rest: Bytes)
    requires Tag(item) == tag && ItemBytes(item) == Varint(tag) + Varint(n) && n < 0x1_0000_0000_0000_0000
    ensures GetTag(ItemBytes(item) + rest) == Good(tag, Varint(n) + rest) && GetNumber(Varint(n) + rest) == Good(n, rest)
  {
    hide GetTag, GetNumber, Varint, ItemBytes;
    Regroup(Varint(tag), Varint(n), rest);
    TagReads(tag, Varint(n) + rest);
    NumberReads(n, rest);
  }

  lemma {:induction false} NewFileReads(f: NewFile, rest: Bytes)
    requires ItemOk(New(f))
    ensures GetTag(ItemBytes(New(f)) + rest).Good? && GetTag(ItemBytes(New(f)) + rest).value == 7
    ensures GetItem(7, GetTag(ItemBytes(New(f)) + rest).rest) == Good(New(f), rest)
  {
    hide GetTag, GetNumber, GetSlice, GetLevel, Varint, LengthPrefixed;
    var s4 := LengthPrefixed(f.largest) + rest;
    var s3 := LengthPrefixed(f.smallest) + s4;
    var s2 := Varint(f.fileSize) + s3;
    var s1 := Varint(f.number) + s2;
    assert ItemBytes(New(f)) + rest == Varint(7) + (Varint(f.level) + s1);
    TagReads(7, Varint(f.level) + s1);
    TagReads(f.level, s1);
    NumberReads(f.number, s2);
    NumberReads(f.fileSize, s3);
    SliceReads(f.smallest, s4);
    SliceReads(f.largest, rest);
  }

  /** Decoding takes the items one after another. */
  lemma {:induction false} DecodeItems(c: Contents, items: seq<Item>)
    requires forall item :: item in items ==> ItemOk(item)
    ensures Decode(c, Encode(items)) == Some(TakeAll(c, items))
    decreases |items|
  {
    hide GetTag, GetItem, ItemBytes, Take, ItemOk;
    if items == [] {
      EmptyEnds();
    } else {
      ItemReads(items[0], Encode(items[1..]));
      DecodeItems(Take(c, items[0]), items[1..]);
    }
  }

  lemma {:induction false} EmptyEnds()
    ensures GetTag([]) == Bad
  {
  }

  lemma {:induction false} DecodePrefix(c: Contents, items: seq<Item>, tail: Bytes)
    requires forall item :: item in items ==> ItemOk(item)
    ensures Decode(c, Encode(items) + tail) == Decode(TakeAll(c, items), tail)
    decreases |items|
  {
    hide GetTag, GetItem, ItemBytes, Take, ItemOk;
    if items == [] {
      assert Encode(items) + tail == tail;
    } else {
      var rest := Encode(items[1..]) + tail;
      Regroup(ItemBytes(items[0]), Encode(items[1..]), tail);
      ItemReads(items[0], rest);
      DecodePrefix(Take(c, items[0]), items[1..], tail);
    }
  }

  // The tags that are in use; 8 was.
  predicate KnownTag(tag: nat) {
    1 <= tag <= 7 || tag == 9
  }

  /** A tag that is not known, or a level that the database does not have, is a corruption whatever else the
      record holds. */
  lemma {:induction false} UnknownIsCorrupt(c: Contents, items: seq<Item>, tag: nat, level: nat, rest: Bytes)
    requires (forall item :: item in items ==> ItemOk(item)) && tag < 0x1_0000_0000 && level < 0x1_0000_0000
    ensures !KnownTag(tag) ==> Decode(c, Encode(items) + (Varint(tag) + rest)) == None
    ensures tag in [5, 6, 7] && level >= NUM_LEVELS ==> Decode(c, Encode(items) + (Varint(tag) + (Varint(level) + rest))) == None
  {
    hide Encode, TakeAll, GetTag, Varint, GetNumber, GetSlice, ItemOk;
    DecodePrefix(c, items, Varint(tag) + rest);
    DecodePrefix(c, items, Varint(tag) + (Varint(level) + rest));
    TagReads(tag, rest);
    TagReads(tag, Varint(level) + rest);
    TagReads(level, rest);
  }

  // ---- A record that is cut off ----

  lemma {:induction false} CutNumber(v: nat, k: nat)
    requires k < |Varint(v)|
    ensures GetNumber(Varint(v)[..k]) == Bad && GetTag(Varint(v)[..k]) == Bad && GetLevel(Varint(v)[..k]) == Bad
  {
    hide ParseVarint;
    CutVarint(v, k, 10);
    CutVarint(v, k, 5);
  }

  lemma {:induction false} CutSlice(b: Bytes, k: nat)
    requires |b| < 0x1_0000_0000 && k < |LengthPrefixed(b)|
    ensures GetSlice(LengthPrefixed(b)[..k]) == Bad
  {
    hide LengthPrefixed, ParseLengthPrefixed;
    CutPrefixed(b, k);
  }

  lemma {:induction false} CutPointer(p: CompactPointer, k: nat)
    requires ItemOk(Pointer(p)) && k < |Varint(p.level) + LengthPrefixed(p.key)|
    ensures GetItem(5, (Varint(p.level) + LengthPrefixed(p.key))[..k]) == Bad
  {
    hide Varint, LengthPrefixed, GetLevel, GetSlice;
    CutOf(Varint(p.level), LengthPrefixed(p.key), k);
    if k < |Varint(p.level)| {
      CutNumber(p.level, k);
    } else {
      CutHead(Varint(p.level), LengthPrefixed(p.key), k);
      TagReads(p.level, LengthPrefixed(p.key)[..k - |Varint(p.level)|]);
      CutSlice(p.key, k - |Varint(p.level)|);
    }
  }

  lemma {:induction false} CutDeleted(f: DeletedFile, k: nat)
    requires ItemOk(Deleted(f)) && k < |Varint(f.level) + Varint(f.number)|
    ensures GetItem(6, (Varint(f.level) + Varint(f.number))[..k]) == Bad
  {
    hide Varint, GetLevel, GetNumber;
    CutOf(Varint(f.level), Varint(f.number), k);
    if k < |Varint(f.level)| {
      CutNumber(f.level, k);
    } else {
      CutHead(Varint(f.level), Varint(f.number), k);
      TagReads(f.level, Varint(f.number)[..k - |Varint(f.level)|]);
      CutNumber(f.number, k - |Varint(f.level)|);
    }
  }

  lemma {:induction false} CutNew(f: NewFile, k: nat)
    requires ItemOk(New(f)) && k < |NewBytes(f)|
    ensures GetItem(7, NewBytes(f)[..k]) == Bad
  {
    hide Varint, LengthPrefixed, GetLevel, GetNumber, GetSlice;
    var tail4 := LengthPrefixed(f.largest);
    var tail3 := LengthPrefixed(f.smallest) + tail4;
    var tail2 := Varint(f.fileSize) + tail3;
    var tail1 := Varint(f.number) + tail2;
    CutOf(Varint(f.level), tail1, k);
    if k < |Varint(f.level)| {
      CutNumber(f.level, k);
    } else {
      var k1 := k - |Varint(f.level)|;
      CutHead(Varint(f.level), tail1, k);
      TagReads(f.level, tail1[..k1]);
      CutOf(Varint(f.number), tail2, k1);
      if k1 < |Varint(f.number)| {
        CutNumber(f.number, k1);
      } else {
        var k2 := k1 - |Varint(f.number)|;
        CutHead(Varint(f.number), tail2, k1);
        NumberReads(f.number, tail2[..k2]);
        CutOf(Varint(f.fileSize), tail3, k2);
        if k2 < |Varint(f.fileSize)| {
          CutNumber(f.fileSize, k2);
        } else {
          var k3 := k2 - |Varint(f.fileSize)|;
          CutHead(Varint(f.fileSize), tail3, k2);
          NumberReads(f.fileSize, tail3[..k3]);
          CutKeys(f, k3);
        }
      }
    }
  }

  lemma {:induction false} CutKeys(f: NewFile, k: nat)
    requires ItemOk(New(f)) && k < |LengthPrefixed(f.smallest) + LengthPrefixed(f.largest)|
    ensures
      match GetSlice((LengthPrefixed(f.smallest) + LengthPrefixed(f.largest))[..k])
      case Bad => true
      case Good(_, rest) => GetSlice(rest) == Bad
  {
    hide LengthPrefixed, GetSlice;
    var a, b := LengthPrefixed(f.smallest), LengthPrefixed(f.largest);
    CutOf(a, b, k);
    if k < |a| {
      CutSlice(f.smallest, k);
    } else {
      CutHead(a, b, k);
      SliceReads(f.smallest, b[..k - |a|]);
      CutSlice(f.largest, k - |a|);
    }
  }

  function NewBytes(f: NewFile): Bytes {
    Varint(f.level) + (Varint(f.number) + (Varint(f.fileSize) + (LengthPrefixed(f.smallest) + LengthPrefixed(f.largest))))
  }

  lemma {:induction false} CutItem(item: Item, k: nat)
    requires ItemOk(item) && 0 < k < |ItemBytes(item)|
    ensures GetTag(ItemBytes(item)[..k]).Good?
    ensures GetItem(GetTag(ItemBytes(item)[..k]).value, GetTag(ItemBytes(item)[..k]).rest) == Bad
  {
    var body := ItemBytes(item)[1..];
    assert Varint(Tag(item)) == [Tag(item)];
    assert ItemBytes(item) == Varint(Tag(item)) + body;
    CutHead(Varint(Tag(item)), body, k);
    hide GetTag, GetLevel, GetNumber, GetSlice, Varint, LengthPrefixed;
    TagReads(Tag(item), body[..k - 1]);
    match item
    case Comparator(name) => CutSlice(name, k - 1);
    case LogNumber(n) => CutNumber(n, k - 1);
    case PrevLogNumber(n) => CutNumber(n, k - 1);
    case NextFileNumber(n) => CutNumber(n, k - 1);
    case LastSequence(n) => CutNumber(n, k - 1);
    case Pointer(p) => CutPointer(p, k - 1);
    case Deleted(f) => CutDeleted(f, k - 1);
    case New(f) => CutNew(f, k - 1);
  }

  /** A record that ends inside an item is a corruption: of what was written, a part is taken for an edit only
      if it is cut between two items. */
  lemma {:induction false} CutIsCorrupt(c: Contents, items: seq<Item>, item: Item, k: nat)
    requires (forall x :: x in items ==> ItemOk(x)) && ItemOk(item) && k < |ItemBytes(item)|
    ensures Decode(c, Encode(items) + ItemBytes(item)[..k]) == if k == 0 then Some(TakeAll(c, items)) else None
  {
    hide Encode, TakeAll, GetTag, GetItem, ItemBytes, ItemOk;
    DecodePrefix(c, items, ItemBytes(item)[..k]);
    if k == 0 {
      EmptyEnds();
    } else {
      CutItem(item, k);
    }
  }

  lemma {:induction false} TakeAllAppend(c: Contents, a: seq<Item>, b: seq<Item>)
    ensures TakeAll(c, a + b) == TakeAll(TakeAll(c, a), b)
    decreases |a|
  {
    hide Take;
    if a == [] {
      assert a + b == b;
    } else {
      assert (a + b)[1..] == a[1..] + b;
      TakeAllAppend(Take(c, a[0]), a[1..], b);
    }
  }

  lemma {:induction false} TakePointers(c: Contents, ps: seq<CompactPointer>)
    ensures TakeAll(c, PointerItems(ps)) == c.(compactPointers := c.compactPointers + ps)
    decreases |ps|
  {
    var items := PointerItems(ps);
    if ps == [] {
      assert c.compactPointers + ps == c.compactPointers;
    } else {
      var tail := ps[1..];
      assert items[1..] == PointerItems(tail);
      TakePointers(Take(c, items[0]), tail);
      assert c.compactPointers + [ps[0]] + tail == c.compactPointers + ps;
    }
  }

  lemma {:induction false} TakeNewFiles(c: Contents, fs: seq<NewFile>)
    ensures TakeAll(c, NewItems(fs)) == c.(newFiles := c.newFiles + fs)
    decreases |fs|
  {
    var items := NewItems(fs);
    if fs == [] {
      assert c.newFiles + fs == c.newFiles;
    } else {
      var tail := fs[1..];
      assert items[1..] == NewItems(tail);
      TakeNewFiles(Take(c, items[0]), tail);
      assert c.newFiles + [fs[0]] + tail == c.newFiles + fs;
    }
  }

  // Inserting in order appends.
  lemma {:induction false} InsertLast(s: seq<DeletedFile>, x: DeletedFile)
    requires forall i :: 0 <= i < |s| ==> Before(s[i], x)
    ensures Inserted(s, x) == s + [x]
  {
    if s != [] {
      InsertLast(s[1..], x);
    }
  }

  lemma {:induction false} TakeDeleted(c: Contents, fs: seq<DeletedFile>)
    requires Ordered(c.deletedFiles + fs)
    ensures TakeAll(c, DeletedItems(fs)) == c.(deletedFiles := c.deletedFiles + fs)
    decreases |fs|
  {
    var items := DeletedItems(fs);
    if fs == [] {
      assert c.deletedFiles + fs == c.deletedFiles;
    } else {
      var tail, all := fs[1..], c.deletedFiles + fs;
      assert items[1..] == DeletedItems(tail);
      forall i | 0 <= i < |c.deletedFiles| ensures Before(c.deletedFiles[i], fs[0]) {
        assert all[i] == c.deletedFiles[i] && all[|c.deletedFiles|] == fs[0];
      }
      InsertLast(c.deletedFiles, fs[0]);
      assert c.deletedFiles + [fs[0]] + tail == all;
      TakeDeleted(Take(c, items[0]), tail);
    }
  }

  lemma {:induction false} TakeOption(c: Contents, tag: nat, o: Option<nat>)
    ensures TakeAll(c, OptionItem(tag, o)) == if o.None? then c else Take(c, Numbered(tag, o.value))
  {
    hide Take;
    if o.Some? {
      var d := Take(c, Numbered(tag, o.value));
      assert OptionItem(tag, o)[1..] == [] && TakeAll(d, []) == d;
    }
  }

  lemma {:induction false} TakeSingles(c: Contents, e: Contents)
    requires e.comparator.None? && e.logNumber.None? && e.prevLogNumber.None? && e.nextFileNumber.None? && e.lastSequence.None?
    ensures TakeAll(e, Singles(c)) == c.(compactPointers := e.compactPointers, deletedFiles := e.deletedFiles, newFiles := e.newFiles)
  {
    hide TakeAll, OptionItem;
    var s0 := if c.comparator.None? then [] else [Comparator(c.comparator.value)];
    var s1, s2 := OptionItem(2, c.logNumber), OptionItem(9, c.prevLogNumber);
    var s3, s4 := OptionItem(3, c.nextFileNumber), OptionItem(4, c.lastSequence);
    TakeComparator(e, c.comparator);
    var e0 := e.(comparator := c.comparator);
    var e1 := e0.(logNumber := c.logNumber);
    var e2 := e1.(prevLogNumber := c.prevLogNumber);
    var e3 := e2.(nextFileNumber := c.nextFileNumber);
    TakeOption(e0, 2, c.logNumber);
    TakeOption(e1, 9, c.prevLogNumber);
    TakeOption(e2, 3, c.nextFileNumber);
    TakeOption(e3, 4, c.lastSequence);
    TakeAllAppend(e, s0, s1);
    assert TakeAll(e, s0 + s1) == e1;
    TakeAllAppend(e, s0 + s1, s2);
    assert TakeAll(e, s0 + s1 + s2) == e2;
    TakeAllAppend(e, s0 + s1 + s2, s3);
    assert TakeAll(e, s0 + s1 + s2 + s3) == e3;
    TakeAllAppend(e, s0 + s1 + s2 + s3, s4);
  }

  lemma {:induction false} TakeComparator(c: Contents, o: Option<Bytes>)
    requires c.comparator.None?
    ensures TakeAll(c, if o.None? then [] else [Comparator(o.value)]) == c.(comparator := o)
  {
    if o.Some? {
      var d := Take(c, Comparator(o.value));
      assert [Comparator(o.value)][1..] == [] && TakeAll(d, []) == d;
    }
  }

  /** Taking the items of an edit into one that Clear has emptied gives the edit, behind the compaction
      pointers that Clear has left. */
  lemma {:induction false} TakeItems(c: Contents, e: Contents)
    requires Ordered(c.deletedFiles) && e == EMPTY.(compactPointers := e.compactPointers)
    ensures TakeAll(e, Items(c)) == c.(compactPointers := e.compactPointers + c.compactPointers)
  {
    hide TakeAll, OptionItem;
    var ps := PointerItems(c.compactPointers);
    var ds := DeletedItems(c.deletedFiles);
    var fs := NewItems(c.newFiles);
    var s := Singles(c);
    assert Items(c) == s + ps + ds + fs;
    TakeSingles(c, e);
    TakeAllAppend(e, s, ps);
    TakeAllAppend(e, s + ps, ds);
    TakeAllAppend(e, s + ps + ds, fs);
    var e1 := c.(compactPointers := e.compactPointers, deletedFiles := [], newFiles := []);
    TakePointers(e1, c.compactPointers);
    var e2 := e1.(compactPointers := e.compactPointers + c.compactPointers);
    assert [] + c.deletedFiles == c.deletedFiles && [] + c.newFiles == c.newFiles;
    TakeDeleted(e2, c.deletedFiles);
    TakeNewFiles(e2.(deletedFiles := c.deletedFiles), c.newFiles);
  }

  /** EncodeTo and DecodeFrom into a fresh edit undo each other. */
  lemma {:induction false} EditRoundTrip(c: Contents)
    requires ContentsOk(c)
    ensures Decode(EMPTY, Encode(Items(c))) == Some(c)
  {
    hide Decode, Encode, Items, TakeAll;
    DecodeItems(EMPTY, Items(c));
    TakeItems(c, EMPTY);
    assert [] + c.compactPointers == c.compactPointers;
  }

  /** Into a used edit it is not so: the result is the encoded edit if and only if the edit held no compaction
      pointers, because Clear does not clear those. */
  lemma {:induction false} ReusedEditIff(c: Contents, used: Contents)
    requires ContentsOk(c)
    ensures Decode(Cleared(used), Encode(Items(c))) == Some(c) <==> used.compactPointers == []
  {
    hide Decode, Encode, Items, TakeAll;
    DecodeItems(Cleared(used), Items(c));
    TakeItems(c, Cleared(used));
    assert |used.compactPointers + c.compactPointers| == |used.compactPointers| + |c.compactPointers|;
    assert [] + c.compactPointers == c.compactPointers;
  }

  function Cleared(c: Contents): Contents {
    EMPTY.(compactPointers := c.compactPointers)
  }

  // ---- The class ----

  class VersionEdit {
    var comparator: Option<Bytes>
    var logNumber: Option<nat>
    var prevLogNumber: Option<nat>
    var nextFileNumber: Option<nat>
    var lastSequence: Option<nat>
    var compactPointers: seq<CompactPointer>
    var deletedFiles: seq<DeletedFile>
    var newFiles: seq<NewFile>

    function Value(): Contents
      reads this
    {
      Contents(comparator, logNumber, prevLogNumber, nextFileNumber, lastSequence, compactPointers, deletedFiles, newFiles)
    }

    constructor ()
      ensures Value() == EMPTY
    {
      comparator, logNumber, prevLogNumber, nextFileNumber, lastSequence := None, None, None, None, None;
      compactPointers, deletedFiles, newFiles := [], [], [];
    }

    method Clear()
      modifies this
      ensures Value() == Cleared(old(Value()))
    {
      comparator, logNumber, prevLogNumber, nextFileNumber, lastSequence := None, None, None, None, None;
      deletedFiles, newFiles := [], [];
    }

    /** EncodeTo */
    method EncodeTo(dst: Bytes) returns (r: Bytes)
      ensures r == dst + Encode(Items(Value()))
    {
      hide Varint, LengthPrefixed, ItemBytes, Encode, OptionItem;
      ghost var c: Contents, done: seq<Item> := Value(), [];
      r := dst;
      EncodeNothing(dst);
      if comparator.Some? {
        PutItem(dst, done, Comparator(comparator.value));
        assert done + [Comparator(comparator.value)] == [Comparator(comparator.value)];
        r := r + Varint(1) + LengthPrefixed(comparator.value);
        done := [Comparator(comparator.value)];
      }
      r := PutOption(dst, done, 2, logNumber, r);
      done := done + OptionItem(2, c.logNumber);
      r := PutOption(dst, done, 9, prevLogNumber, r);
      done := done + OptionItem(9, c.prevLogNumber);
      r := PutOption(dst, done, 3, nextFileNumber, r);
      done := done + OptionItem(3, c.nextFileNumber);
      r := PutOption(dst, done, 4, lastSequence, r);
      done := done + OptionItem(4, c.lastSequence);
      r := EncodeLists(dst, r);
    }

    // if (has_...) PutVarint32 of the tag, PutVarint64 of the number
    static method PutOption(ghost dst: Bytes, ghost done: seq<Item>, tag: nat, o: Option<nat>, before: Bytes) returns (r: Bytes)
      requires before == dst + Encode(done) && tag in [2, 9, 3, 4]
      ensures r == dst + Encode(done + OptionItem(tag, o))
    {
      hide Varint, LengthPrefixed, ItemBytes, Encode;
      r := before;
      if o.Some? {
        PutItem(dst, done, Numbered(tag, o.value));
        r := r + Varint(tag) + Varint(o.value);
      } else {
        assert done + [] == done;
      }
    }

    // The three loops of EncodeTo.
    method EncodeLists(ghost dst: Bytes, before: Bytes) returns (r: Bytes)
      requires before == dst + Encode(Singles(Value()))
      ensures r == dst + Encode(Items(Value()))
    {
      hide Varint, LengthPrefixed, ItemBytes, Encode, Singles;
      ghost var ps := PointerItems(compactPointers);
      ghost var ds := DeletedItems(deletedFiles);
      ghost var fs := NewItems(newFiles);
      ghost var c, done := Value(), Singles(Value());
      r := before;
      assert done + ps[..0] == done;
      for i := 0 to |compactPointers|
        invariant r == dst + Encode(done + ps[..i])
      {
        var p := compactPointers[i];
        PutItem(dst, done + ps[..i], Pointer(p));
        assert done + ps[..i] + [Pointer(p)] == done + ps[..i + 1];
        r := r + Varint(5) + Varint(p.level) + LengthPrefixed(p.key);
      }
      assert ps[..|ps|] == ps;
      done := done + ps;
      assert done + ds[..0] == done;
      for i := 0 to |deletedFiles|
        invariant r == dst + Encode(done + ds[..i])
      {
        var f := deletedFiles[i];
        PutItem(dst, done + ds[..i], Deleted(f));
        assert done + ds[..i] + [Deleted(f)] == done + ds[..i + 1];
        r := r + Varint(6) + Varint(f.level) + Varint(f.number);
      }
      assert ds[..|ds|] == ds;
      done := done + ds;
      assert done + fs[..0] == done;
      for i := 0 to |newFiles|
        invariant r == dst + Encode(done + fs[..i])
      {
        var f := newFiles[i];
        PutItem(dst, done + fs[..i], New(f));
        assert done + fs[..i] + [New(f)] == done + fs[..i + 1];
        r := r + Varint(7) + Varint(f.level) + Varint(f.number) + Varint(f.fileSize) + LengthPrefixed(f.smallest) + LengthPrefixed(f.largest);
      }
      assert fs[..|fs|] == fs;
      assert Items(c) == done + fs;
    }

    /** DecodeFrom; on a corruption the fields hold what came before it. */
    method DecodeFrom(src: Bytes) returns (ok: bool)
      modifies this
      ensures Decode(Cleared(old(Value())), src) == if ok then Some(Value()) else None
    {
      hide GetTag, GetItem, Cleared;
      Clear();
      var input := src;
      while true
        invariant Decode(Cleared(old(Value())), src) == Decode(Value(), input)
        decreases |input|
      {
        DecodeStep(Value(), input);
        var tag := GetTag(input);
        if tag.Bad? {
          return input == [];
        }
        ok, input := DecodeItem(tag.value, tag.rest);
        if !ok { return; }
      }
    }

    // The switch of DecodeFrom.
    method DecodeItem(tag: nat, input: Bytes) returns (ok: bool, rest: Bytes)
      modifies this
      ensures ok <==> GetItem(tag, input).Good?
      ensures ok ==> rest == GetItem(tag, input).rest && Value() == Take(old(Value()), GetItem(tag, input).value)
    {
      hide GetNumber, GetLevel, GetSlice;
      ok, rest := false, input;
      if tag == 1 {
        var name := GetSlice(input);
        if name.Good? {
          ok, rest, comparator := true, name.rest, Some(name.value);
        }
      } else if tag == 2 {
        var n := GetNumber(input);
        if n.Good? {
          ok, rest, logNumber := true, n.rest, Some(n.value);
        }
      } else if tag == 9 {
        var n := GetNumber(input);
        if n.Good? {
          ok, rest, prevLogNumber := true, n.rest, Some(n.value);
        }
      } else if tag == 3 {
        var n := GetNumber(input);
        if n.Good? {
          ok, rest, nextFileNumber := true, n.rest, Some(n.value);
        }
      } else if tag == 4 {
        var n := GetNumber(input);
        if n.Good? {
          ok, rest, lastSequence := true, n.rest, Some(n.value);
        }
      } else if 5 <= tag <= 7 {
        var level := GetLevel(input);
        if level.Good? {
          ok, rest := DecodeFile(tag, level.value, level.rest);
        }
      }
    }

    // The cases that start with a level.
    method DecodeFile(tag: nat, level: nat, input: Bytes) returns (ok: bool, rest: Bytes)
      requires 5 <= tag <= 7
      modifies this
      ensures
        var r := if tag == 5 then match GetSlice(input) case Bad => Bad case Good(key, s) => Good(Pointer(CompactPointer(level, key)), s)
                 else if tag == 6 then match GetNumber(input) case Bad => Bad case Good(n, s) => Good(Deleted(DeletedFile(level, n)), s)
                 else GetNewFile(level, input);
        (ok <==> r.Good?) && (ok ==> rest == r.rest && Value() == Take(old(Value()), r.value))
    {
      hide GetNumber, GetSlice;
      ok, rest := false, input;
      if tag == 5 {
        var key := GetSlice(input);
        if key.Good? {
          ok, rest, compactPointers := true, key.rest, compactPointers + [CompactPointer(level, key.value)];
        }
      } else if tag == 6 {
        var n := GetNumber(input);
        if n.Good? {
          ok, rest, deletedFiles := true, n.rest, Inserted(deletedFiles, DeletedFile(level, n.value));
        }
      } else {
        var number := GetNumber(input);
        if number.Bad? { return; }
        var size := GetNumber(number.rest);
        if size.Bad? { return; }
        var smallest := GetSlice(size.rest);
        if smallest.Bad? { return; }
        var largest := GetSlice(smallest.rest);
        if largest.Bad? { return; }
        ok, rest := true, largest.rest;
        newFiles := newFiles + [NewFile(level, number.value, size.value, smallest.value, largest.value)];
      }
    }
  }

  lemma {:induction false} DecodeStep(c: Contents, s: Bytes)
    ensures Decode(c, s) ==
      match GetTag(s)
      case Bad => if s == [] then Some(c) else None
      case Good(tag, rest) =>
        match GetItem(tag, rest)
        case Bad => None
        case Good(item, rest') => Decode(Take(c, item), rest')
  {
    hide GetTag, GetItem, Take;
  }

  lemma {:induction false} EncodeNothing(dst: Bytes)
    ensures dst + Encode([]) == dst
  {
  }

  // One item more, in the pieces in which EncodeTo writes it.
  lemma {:induction false} PutItem(dst: Bytes, done: seq<Item>, item: Item)
    ensures
      var r := dst + Encode(done);
      dst + Encode(done + [item]) ==
      match item
      case Comparator(name) => r + Varint(1) + LengthPrefixed(name)
      case LogNumber(n) => r + Varint(2) + Varint(n)
      case PrevLogNumber(n) => r + Varint(9) + Varint(n)
      case NextFileNumber(n) => r + Varint(3) + Varint(n)
      case LastSequence(n) => r + Varint(4) + Varint(n)
      case Pointer(p) => r + Varint(5) + Varint(p.level) + LengthPrefixed(p.key)
      case Deleted(f) => r + Varint(6) + Varint(f.level) + Varint(f.number)
      case New(f) => r + Varint(7) + Varint(f.level) + Varint(f.number) + Varint(f.fileSize) + LengthPrefixed(f.smallest) + LengthPrefixed(f.largest)
  {
    hide Varint, LengthPrefixed, Encode;
    EncodeLast(done, item);
    assert dst + Encode(done + [item]) == dst + Encode(done) + ItemBytes(item);
  }

  lemma {:induction false} EncodeLast(items: seq<Item>, item: Item)
    ensures Encode(items + [item]) == Encode(items) + ItemBytes(item)
    decreases |items|
  {
    hide ItemBytes;
    if items == [] {
      assert [item][1..] == [] && ItemBytes(item) + [] == ItemBytes(item);
    } else {
      assert (items + [item])[1..] == items[1..] + [item];
      EncodeLast(items[1..], item);
    }
  }
}
