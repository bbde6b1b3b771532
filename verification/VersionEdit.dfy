/** Version edits as bytes (db/version_edit.cc): tagged fields, each present or not, and lists of compaction pointers,
    deleted files and new files. */
module VersionEdit {
  import opened InternalKeys
  import opened Coding

  const NUM_LEVELS: nat := 7

  /** The metadata of a table file; keys are encoded internal keys. */
  datatype FileMeta = FileMeta(number: uint64, size: uint64, smallest: Slice, largest: Slice)

  datatype Fields = Fields(comparator: Option<Slice>, logNumber: Option<uint64>, prevLogNumber: Option<uint64>,
                           nextFileNumber: Option<uint64>, lastSequence: Option<uint64>,
                           compactPointers: seq<(nat, Slice)>, deletedFiles: set<(nat, uint64)>, newFiles: seq<(nat, FileMeta)>)

  const NO_FIELDS: Fields := Fields(None, None, None, None, None, [], {}, [])

  /** One tagged field of the encoding. */
  datatype Item =
    | Comparator(name: Slice)
    | LogNumber(number: uint64)
    | PrevLogNumber(number: uint64)
    | NextFile(number: uint64)
    | LastSequence(number: uint64)
    | CompactPointer(level: nat, key: Slice)
    | DeletedFile(level: nat, number: uint64)
    | NewFile(level: nat, meta: FileMeta)

  predicate Short(s: Slice) { |s| < TWO_32 }

  predicate Encodable(item: Item) {
    match item
    case Comparator(name) => Short(name)
    case CompactPointer(level, key) => level < NUM_LEVELS && Short(key)
    case DeletedFile(level, _) => level < NUM_LEVELS
    case NewFile(level, f) => level < NUM_LEVELS && Short(f.smallest) && Short(f.largest)
    case _ => true
  }

  predicate AllEncodable(items: seq<Item>) {
    forall i :: 0 <= i < |items| ==> Encodable(items[i])
  }

  function Tag(item: Item): (tag: nat)
    ensures 1 <= tag <= 9
  {
    match item
    case Comparator(_) => 1
    case LogNumber(_) => 2
    case NextFile(_) => 3
    case LastSequence(_) => 4
    case CompactPointer(_, _) => 5
    case DeletedFile(_, _) => 6
    case NewFile(_, _) => 7
    case PrevLogNumber(_) => 9
  }

  function EncodeBody(item: Item): Slice
    requires Encodable(item)
  {
    match item
    case Comparator(name) => LengthPrefixed(name)
    case LogNumber(n) => Varint(n)
    case PrevLogNumber(n) => Varint(n)
    case NextFile(n) => Varint(n)
    case LastSequence(n) => Varint(n)
    case CompactPointer(level, key) => EncodeVarint32(level) + LengthPrefixed(key)
    case DeletedFile(level, n) => EncodeVarint32(level) + Varint(n)
    case NewFile(level, f) =>
      EncodeVarint32(level) + FileBytes(f)
  }

  function EncodeItem(item: Item): Slice
    requires Encodable(item)
  {
    EncodeVarint32(Tag(item)) + EncodeBody(item)
  }

  function EncodeItems(items: seq<Item>): Slice
    requires AllEncodable(items)
  {
    if items == [] then [] else EncodeItem(items[0]) + EncodeItems(items[1..])
  }

  // ---------------------------------------------------------------- decoding

  /** Byte by byte, each kind of field behind its tag. */
  lemma ItemExamples()
    ensures EncodeItem(Comparator([8])) == [1, 1, 8] && EncodeItem(LogNumber(5)) == [2, 5] && EncodeItem(PrevLogNumber(5)) == [9, 5]
    ensures EncodeItem(NextFile(5)) == [3, 5] && EncodeItem(LastSequence(5)) == [4, 5]
  {
  }

  lemma LevelExamples()
    ensures EncodeItem(CompactPointer(2, [8])) == [5, 2, 1, 8] && EncodeItem(DeletedFile(2, 5)) == [6, 2, 5]
  {
  }

  lemma NewFileExample()
    ensures EncodeItem(NewFile(2, FileMeta(5, 6, [8], [9]))) == [7, 2, 5, 6, 1, 8, 1, 9]
  {
    assert FileBytes(FileMeta(5, 6, [8], [9])) == [5, 6, 1, 8, 1, 9];
  }

  function GetLevel(input: Slice): (r: Option<(nat, Slice)>)
    ensures r.Some? ==> |r.value.1| < |input|
  {
    match GetVarint32(input)
    case None => None
    case Some((v, rest)) => if v < NUM_LEVELS then Some((v, rest)) else None
  }

  function GetFile(input: Slice): (r: Option<(FileMeta, Slice)>)
    ensures r.Some? ==> |r.value.1| < |input|
  {
    match GetVarint64(input)
    case None => None
    case Some((number, a)) =>
      match GetVarint64(a)
      case None => None
      case Some((size, b)) =>
        match GetLengthPrefixed(b)
        case None => None
        case Some((smallest, c)) =>
          match GetLengthPrefixed(c)
          case None => None
          case Some((largest, d)) => Some((FileMeta(number, size, smallest, largest), d))
  }

  /** The value behind a tag; None for a malformed value or an unknown tag. */
  function DecodeBody(tag: nat, input: Slice): (r: Option<(Item, Slice)>)
    ensures r.Some? ==> |r.value.1| <= |input|
  {
    if tag == 1 then
      match GetLengthPrefixed(input) case None => None case Some((s, rest)) => Some((Comparator(s), rest))
    else if tag == 2 then
      match GetVarint64(input) case None => None case Some((n, rest)) => Some((LogNumber(n), rest))
    else if tag == 9 then
      match GetVarint64(input) case None => None case Some((n, rest)) => Some((PrevLogNumber(n), rest))
    else if tag == 3 then
      match GetVarint64(input) case None => None case Some((n, rest)) => Some((NextFile(n), rest))
    else if tag == 4 then
      match GetVarint64(input) case None => None case Some((n, rest)) => Some((LastSequence(n), rest))
    else if tag == 5 then
      match GetLevel(input)
      case None => None
      case Some((level, a)) =>
        match GetLengthPrefixed(a) case None => None case Some((key, rest)) => Some((CompactPointer(level, key), rest))
    else if tag == 6 then
      match GetLevel(input)
      case None => None
      case Some((level, a)) =>
        match GetVarint64(a) case None => None case Some((n, rest)) => Some((DeletedFile(level, n), rest))
    else if tag == 7 then
      match GetLevel(input)
      case None => None
      case Some((level, a)) =>
        match GetFile(a) case None => None case Some((f, rest)) => Some((NewFile(level, f), rest))
    else None
  }

  /** The items up to the end of the input or to the first error, and whether there was none. */
  function DecodeItems(input: Slice): (seq<Item>, bool)
    decreases |input|
  {
    match GetVarint32(input)
    case None => ([], input == [])
    case Some((tag, rest)) =>
      match DecodeBody(tag, rest)
      case None => ([], false)
      case Some((item, after)) =>
        var more := DecodeItems(after);
        ([item] + more.0, more.1)
  }

  /** What an item does to the fields. */
  function Apply(f: Fields, item: Item): Fields {
    match item
    case Comparator(name) => f.(comparator := Some(name))
    case LogNumber(n) => f.(logNumber := Some(n))
    case PrevLogNumber(n) => f.(prevLogNumber := Some(n))
    case NextFile(n) => f.(nextFileNumber := Some(n))
    case LastSequence(n) => f.(lastSequence := Some(n))
    case CompactPointer(level, key) => f.(compactPointers := f.compactPointers + [(level, key)])
    case DeletedFile(level, n) => f.(deletedFiles := f.deletedFiles + {(level, n)})
    case NewFile(level, meta) => f.(newFiles := f.newFiles + [(level, meta)])
  }

  function ApplyAll(f: Fields, items: seq<Item>): Fields
    decreases |items|
  {
    if items == [] then f else ApplyAll(Apply(f, items[0]), items[1..])
  }

  // ---------------------------------------------------------------- round trip

  function FileBytes(f: FileMeta): Slice
    requires Short(f.smallest) && Short(f.largest)
  {
    Varint(f.number) + (Varint(f.size) + (LengthPrefixed(f.smallest) + LengthPrefixed(f.largest)))
  }

  lemma FileRoundTrip(f: FileMeta, rest: Slice)
    requires Short(f.smallest) && Short(f.largest)
    ensures GetFile(FileBytes(f) + rest) == Some((f, rest))
  {
    hide Varint, GetVarint64, LengthPrefixed, GetLengthPrefixed;
    var d := LengthPrefixed(f.largest) + rest;
    var c := LengthPrefixed(f.smallest) + d;
    var b := Varint(f.size) + c;
    Varint64RoundTrip(f.number, b);
    Varint64RoundTrip(f.size, c);
    LengthPrefixedRoundTrip(f.smallest, d);
    LengthPrefixedRoundTrip(f.largest, rest);
    FourParts(Varint(f.number), Varint(f.size), LengthPrefixed(f.smallest), LengthPrefixed(f.largest), rest);
  }

  lemma FourParts(a: Slice, b: Slice, c: Slice, d: Slice, e: Slice)
    ensures a + (b + (c + d)) + e == a + (b + (c + (d + e)))
  {
  }

  lemma LevelRoundTrip(level: nat, rest: Slice)
    requires level < NUM_LEVELS
    ensures GetLevel(EncodeVarint32(level) + rest) == Some((level, rest))
  {
    hide EncodeVarint32, GetVarint32;
    Varint32RoundTrip(level, rest);
  }

  lemma BodyRoundTrip(item: Item, rest: Slice)
    requires Encodable(item)
    ensures DecodeBody(Tag(item), EncodeBody(item) + rest) == Some((item, rest))
  {
    hide Varint, GetVarint64, LengthPrefixed, GetLengthPrefixed, EncodeVarint32, GetLevel, GetFile, FileBytes;
    match item
    case Comparator(name) => LengthPrefixedRoundTrip(name, rest);
    case LogNumber(n) => Varint64RoundTrip(n, rest);
    case PrevLogNumber(n) => Varint64RoundTrip(n, rest);
    case NextFile(n) => Varint64RoundTrip(n, rest);
    case LastSequence(n) => Varint64RoundTrip(n, rest);
    case CompactPointer(level, key) =>
      LevelRoundTrip(level, LengthPrefixed(key) + rest);
      LengthPrefixedRoundTrip(key, rest);
      assert EncodeBody(item) + rest == EncodeVarint32(level) + (LengthPrefixed(key) + rest);
    case DeletedFile(level, n) =>
      LevelRoundTrip(level, Varint(n) + rest);
      Varint64RoundTrip(n, rest);
      assert EncodeBody(item) + rest == EncodeVarint32(level) + (Varint(n) + rest);
    case NewFile(level, f) =>
      LevelRoundTrip(level, FileBytes(f) + rest);
      FileRoundTrip(f, rest);
      assert EncodeBody(item) + rest == EncodeVarint32(level) + (FileBytes(f) + rest);
  }

  lemma {:induction false} ItemsRoundTrip(items: seq<Item>)
    requires AllEncodable(items)
    ensures DecodeItems(EncodeItems(items)) == (items, true)
  {
    hide EncodeBody, DecodeBody, EncodeVarint32, GetVarint32;
    if items == [] {
      NothingLeft();
    } else {
      var item, more := items[0], EncodeItems(items[1..]);
      ItemsRoundTrip(items[1..]);
      Varint32RoundTrip(Tag(item), EncodeBody(item) + more);
      BodyRoundTrip(item, more);
      assert EncodeItem(item) + more == EncodeVarint32(Tag(item)) + (EncodeBody(item) + more);
      assert [item] + items[1..] == items;
    }
  }

  lemma NothingLeft()
    ensures GetVarint32([]) == None
  {
  }

  /** Whatever the input, decoded items are such as can be encoded: levels exist. */
  lemma {:induction false} DecodedFit(input: Slice, i: nat)
    requires i < |DecodeItems(input).0|
    ensures Encodable(DecodeItems(input).0[i])
    decreases |input|
  {
    hide GetVarint32, GetVarint64, DecodeBody;
    var (tag, rest) := GetVarint32(input).value;
    var (item, after) := DecodeBody(tag, rest).value;
    if i == 0 {
      BodyFits(tag, rest);
    } else {
      DecodedFit(after, i - 1);
    }
  }

  lemma BodyFits(tag: nat, input: Slice)
    requires DecodeBody(tag, input).Some?
    ensures Encodable(DecodeBody(tag, input).value.0)
  {
    hide GetVarint32, GetVarint64, GetLengthPrefixed, GetLevel, GetFile;
    PrefixedIsShort(input);
    var level := GetLevel(input);
    if level.Some? {
      LevelIsLow(input);
      PrefixedIsShort(level.value.1);
      if GetFile(level.value.1).Some? {
        FileIsShort(level.value.1);
      }
    }
  }

  lemma PrefixedIsShort(input: Slice)
    ensures GetLengthPrefixed(input).Some? ==> Short(GetLengthPrefixed(input).value.0)
  {
    hide GetVarint32;
  }

  lemma LevelIsLow(input: Slice)
    ensures GetLevel(input).Some? ==> GetLevel(input).value.0 < NUM_LEVELS
  {
    hide GetVarint32;
  }

  lemma FileIsShort(input: Slice)
    requires GetFile(input).Some?
    ensures var f := GetFile(input).value.0; Short(f.smallest) && Short(f.largest)
  {
    hide GetVarint64, GetLengthPrefixed;
    var a := GetVarint64(input).value.1;
    var b := GetVarint64(a).value.1;
    PrefixedIsShort(b);
    PrefixedIsShort(GetLengthPrefixed(b).value.1);
  }

  /** A tag that no item has is an error. */
  lemma UnknownTag(tag: uint32, rest: Slice)
    requires tag !in {1, 2, 3, 4, 5, 6, 7, 9}
    ensures DecodeItems(EncodeVarint32(tag) + rest) == ([], false)
  {
    hide EncodeVarint32, GetVarint32;
    Varint32RoundTrip(tag, rest);
  }

  // ---------------------------------------------------------------- the items of an edit

  function Present(comparator: Option<Slice>): seq<Item> {
    if comparator.Some? then [Comparator(comparator.value)] else []
  }

  /** The scalar fields that are present, in the order in which they are written. */
  function Scalars(f: Fields): seq<Item> {
    Present(f.comparator) +
    (if f.logNumber.Some? then [LogNumber(f.logNumber.value)] else []) +
    (if f.prevLogNumber.Some? then [PrevLogNumber(f.prevLogNumber.value)] else []) +
    (if f.nextFileNumber.Some? then [NextFile(f.nextFileNumber.value)] else []) +
    (if f.lastSequence.Some? then [LastSequence(f.lastSequence.value)] else [])
  }

  function Pointers(ps: seq<(nat, Slice)>): seq<Item> {
    seq(|ps|, i requires 0 <= i < |ps| => CompactPointer(ps[i].0, ps[i].1))
  }

  function Deletions(ds: seq<(nat, uint64)>): seq<Item> {
    seq(|ds|, i requires 0 <= i < |ds| => DeletedFile(ds[i].0, ds[i].1))
  }

  function Additions(fs: seq<(nat, FileMeta)>): seq<Item> {
    seq(|fs|, i requires 0 <= i < |fs| => NewFile(fs[i].0, fs[i].1))
  }

  /** All items of an edit, with its deleted files listed in some order. */
  function ItemsOf(f: Fields, ds: seq<(nat, uint64)>): seq<Item> {
    Scalars(f) + Pointers(f.compactPointers) + Deletions(ds) + Additions(f.newFiles)
  }

  lemma {:induction false} ApplyAppend(f: Fields, a: seq<Item>, b: seq<Item>)
    ensures ApplyAll(f, a + b) == ApplyAll(ApplyAll(f, a), b)
    decreases |a|
  {
    if a == [] {
      assert a + b == b;
    } else {
      assert (a + b)[1..] == a[1..] + b;
      ApplyAppend(Apply(f, a[0]), a[1..], b);
    }
  }

  lemma ApplyScalars(f: Fields, base: Fields)
    requires base == NO_FIELDS
    ensures ApplyAll(base, Scalars(f)) == f.(compactPointers := [], deletedFiles := {}, newFiles := [])
  {
    var a := Present(f.comparator);
    var b := if f.logNumber.Some? then [LogNumber(f.logNumber.value)] else [];
    var c := if f.prevLogNumber.Some? then [PrevLogNumber(f.prevLogNumber.value)] else [];
    var d := if f.nextFileNumber.Some? then [NextFile(f.nextFileNumber.value)] else [];
    var e := if f.lastSequence.Some? then [LastSequence(f.lastSequence.value)] else [];
    ApplyAppend(base, a + b + c + d, e);
    ApplyAppend(base, a + b + c, d);
    ApplyAppend(base, a + b, c);
    ApplyAppend(base, a, b);
  }

  lemma {:induction false} ApplyPointers(f: Fields, ps: seq<(nat, Slice)>)
    ensures ApplyAll(f, Pointers(ps)) == f.(compactPointers := f.compactPointers + ps)
    decreases |ps|
  {
    if ps != [] {
      assert Pointers(ps)[1..] == Pointers(ps[1..]);
      ApplyPointers(Apply(f, Pointers(ps)[0]), ps[1..]);
      assert f.compactPointers + [ps[0]] + ps[1..] == f.compactPointers + ps;
    } else {
      assert f.compactPointers + ps == f.compactPointers;
    }
  }

  lemma {:induction false} ApplyDeletions(f: Fields, ds: seq<(nat, uint64)>)
    ensures ApplyAll(f, Deletions(ds)) == f.(deletedFiles := f.deletedFiles + Elements(ds))
    decreases |ds|
  {
    if ds != [] {
      assert Deletions(ds)[1..] == Deletions(ds[1..]);
      ApplyDeletions(Apply(f, Deletions(ds)[0]), ds[1..]);
      assert Elements(ds) == {ds[0]} + Elements(ds[1..]);
    }
  }

  lemma {:induction false} ApplyAdditions(f: Fields, fs: seq<(nat, FileMeta)>)
    ensures ApplyAll(f, Additions(fs)) == f.(newFiles := f.newFiles + fs)
    decreases |fs|
  {
    if fs != [] {
      assert Additions(fs)[1..] == Additions(fs[1..]);
      ApplyAdditions(Apply(f, Additions(fs)[0]), fs[1..]);
      assert f.newFiles + [fs[0]] + fs[1..] == f.newFiles + fs;
    } else {
      assert f.newFiles + fs == f.newFiles;
    }
  }

  /** The items of an edit rebuild it, in whatever order its deleted files are listed. */
  lemma ItemsRebuild(f: Fields, ds: seq<(nat, uint64)>)
    requires Elements(ds) == f.deletedFiles
    ensures ApplyAll(NO_FIELDS, ItemsOf(f, ds)) == f
  {
    var a, b, c, d := Scalars(f), Pointers(f.compactPointers), Deletions(ds), Additions(f.newFiles);
    ApplyAppend(NO_FIELDS, a + b + c, d);
    ApplyAppend(NO_FIELDS, a + b, c);
    ApplyAppend(NO_FIELDS, a, b);
    ApplyScalars(f, NO_FIELDS);
    ApplyPointers(ApplyAll(NO_FIELDS, a), f.compactPointers);
    ApplyDeletions(ApplyAll(NO_FIELDS, a + b), ds);
    ApplyAdditions(ApplyAll(NO_FIELDS, a + b + c), f.newFiles);
    assert [] + f.compactPointers == f.compactPointers && [] + f.newFiles == f.newFiles;
  }

  // ---------------------------------------------------------------- the object

  class VersionEdit {
    var comparator: Option<Slice>
    var logNumber: Option<uint64>
    var prevLogNumber: Option<uint64>
    var nextFileNumber: Option<uint64>
    var lastSequence: Option<uint64>
    var compactPointers: seq<(nat, Slice)>
    var deletedFiles: set<(nat, uint64)>
    var newFiles: seq<(nat, FileMeta)>

    function Now(): Fields
      reads this
    {
      Fields(comparator, logNumber, prevLogNumber, nextFileNumber, lastSequence, compactPointers, deletedFiles, newFiles)
    }

    constructor ()
      ensures Now() == NO_FIELDS
    {
      comparator, logNumber, prevLogNumber, nextFileNumber, lastSequence := None, None, None, None, None;
      compactPointers, deletedFiles, newFiles := [], {}, [];
    }

    /** Clear leaves the compaction pointers as they are. */
    method Clear()
      modifies this
      ensures Now() == NO_FIELDS.(compactPointers := old(compactPointers))
    {
      comparator, logNumber, prevLogNumber, nextFileNumber, lastSequence := None, None, None, None, None;
      deletedFiles, newFiles := {}, [];
    }

    /** Append the encoding. Deleted files are written in some order. */
    method EncodeTo(dst: Slice) returns (r: Slice, ghost order: seq<(nat, uint64)>)
      requires AllEncodable(Scalars(Now())) && AllEncodable(Pointers(compactPointers)) && AllEncodable(Additions(newFiles))
      requires forall d <- deletedFiles :: d.0 < NUM_LEVELS
      ensures Elements(order) == deletedFiles && AllEncodable(ItemsOf(Now(), order))
      ensures r == dst + EncodeItems(ItemsOf(Now(), order))
    {
      hide Encodable, EncodeItem, EncodeItems, AllEncodable, Scalars;
      r := AppendScalars(dst);
      r := AppendItems(r, Pointers(compactPointers));
      DeletionsFit(deletedFiles);
      r, order := AppendDeletions(r, deletedFiles);
      r := AppendItems(r, Additions(newFiles));
      EncodeFour(Scalars(Now()), Pointers(compactPointers), Deletions(order), Additions(newFiles));
      FiveParts(dst, EncodeItems(Scalars(Now())), EncodeItems(Pointers(compactPointers)), EncodeItems(Deletions(order)),
                EncodeItems(Additions(newFiles)));
    }

    method AppendScalars(dst: Slice) returns (r: Slice)
      requires AllEncodable(Scalars(Now()))
      ensures r == dst + EncodeItems(Scalars(Now()))
    {
      r := AppendItems(dst, Scalars(Now()));
    }

    /** Read an encoding. What was decoded up to an error stays in the fields. */
    method DecodeFrom(src: Slice) returns (ok: bool)
      modifies this
      ensures var d := DecodeItems(src);
              ok == d.1 && Now() == ApplyAll(NO_FIELDS.(compactPointers := old(compactPointers)), d.0)
    {
      Clear();
      ghost var start := Now();
      ghost var all := DecodeItems(src);
      ghost var done: seq<Item> := [];
      var input := src;
      var tag := GetVarint32(input);
      assert [] + all.0 == all.0;
      while tag.Some?
        invariant tag == GetVarint32(input)
        invariant all.0 == done + DecodeItems(input).0 && all.1 == DecodeItems(input).1
        invariant Now() == ApplyAll(start, done)
        decreases |input|
      {
        DecodeStep(input, done);
        var item := DecodeBody(tag.value.0, tag.value.1);
        if item.None? {
          return false;
        }
        ApplyAppend(start, done, [item.value.0]);
        assert [item.value.0][1..] == [];
        Set(item.value.0);
        done := done + [item.value.0];
        input := item.value.1;
        tag := GetVarint32(input);
      }
      DecodeEnd(input, done);
      ok := input == [];
    }

    method Set(item: Item)
      modifies this
      ensures Now() == Apply(old(Now()), item)
    {
      match item
      case Comparator(name) => comparator := Some(name);
      case LogNumber(n) => logNumber := Some(n);
      case PrevLogNumber(n) => prevLogNumber := Some(n);
      case NextFile(n) => nextFileNumber := Some(n);
      case LastSequence(n) => lastSequence := Some(n);
      case CompactPointer(level, key) => compactPointers := compactPointers + [(level, key)];
      case DeletedFile(level, n) => deletedFiles := deletedFiles + {(level, n)};
      case NewFile(level, f) => newFiles := newFiles + [(level, f)];
    }
  }

  lemma FiveParts(a: Slice, b: Slice, c: Slice, d: Slice, e: Slice)
    ensures a + b + c + d + e == a + (b + c + d + e)
  {
  }

  lemma DeletionsFit(ds: set<(nat, uint64)>)
    requires forall d <- ds :: d.0 < NUM_LEVELS
    ensures forall d <- ds :: Encodable(DeletedFile(d.0, d.1))
  {
  }

  method AppendDeletions(dst: Slice, ds: set<(nat, uint64)>) returns (r: Slice, ghost order: seq<(nat, uint64)>)
    requires forall d <- ds :: Encodable(DeletedFile(d.0, d.1))
    ensures Elements(order) == ds && AllEncodable(Deletions(order)) && r == dst + EncodeItems(Deletions(order))
  {
    hide Encodable, EncodeItem;
    r := dst;
    var left := ds;
    order := [];
    assert Deletions([]) == [];
    while left != {}
      invariant left <= ds && Elements(order) == ds - left
      invariant AllEncodable(Deletions(order)) && r == dst + EncodeItems(Deletions(order))
      decreases left
    {
      var d :| d in left;
      EncodeSnoc(Deletions(order), DeletedFile(d.0, d.1));
      assert Deletions(order + [d]) == Deletions(order) + [DeletedFile(d.0, d.1)];
      r := r + EncodeItem(DeletedFile(d.0, d.1));
      assert Elements(order + [d]) == Elements(order) + {d};
      order := order + [d];
      left := left - {d};
    }
  }

  method AppendItems(dst: Slice, items: seq<Item>) returns (r: Slice)
    requires AllEncodable(items)
    ensures r == dst + EncodeItems(items)
  {
    hide Encodable, EncodeItem;
    r := dst;
    assert items[..0] == [];
    for i := 0 to |items|
      invariant AllEncodable(items[..i]) && r == dst + EncodeItems(items[..i])
    {
      assert items[..i + 1] == items[..i] + [items[i]];
      EncodeSnoc(items[..i], items[i]);
      r := r + EncodeItem(items[i]);
    }
    assert items[..|items|] == items;
  }

  lemma {:induction false} EncodeAppend(a: seq<Item>, b: seq<Item>)
    requires AllEncodable(a) && AllEncodable(b)
    ensures AllEncodable(a + b) && EncodeItems(a + b) == EncodeItems(a) + EncodeItems(b)
    decreases |a|
  {
    hide EncodeItem, Encodable;
    if a == [] {
      assert a + b == b;
    } else {
      assert (a + b)[1..] == a[1..] + b;
      EncodeAppend(a[1..], b);
    }
  }

  lemma EncodeSnoc(a: seq<Item>, item: Item)
    requires AllEncodable(a) && Encodable(item)
    ensures AllEncodable(a + [item]) && EncodeItems(a + [item]) == EncodeItems(a) + EncodeItem(item)
  {
    hide EncodeItem;
    EncodeAppend(a, [item]);
    assert [item][1..] == [];
    assert EncodeItems([item]) == EncodeItem(item) + EncodeItems([]);
  }

  lemma EncodeFour(a: seq<Item>, b: seq<Item>, c: seq<Item>, d: seq<Item>)
    requires AllEncodable(a) && AllEncodable(b) && AllEncodable(c) && AllEncodable(d)
    ensures AllEncodable(a + b + c + d)
    ensures EncodeItems(a + b + c + d) == EncodeItems(a) + EncodeItems(b) + EncodeItems(c) + EncodeItems(d)
  {
    EncodeAppend(a, b);
    EncodeAppend(a + b, c);
    EncodeAppend(a + b + c, d);
  }

  lemma DecodeStep(input: Slice, done: seq<Item>)
    requires GetVarint32(input).Some?
    ensures var (tag, rest) := GetVarint32(input).value;
            var d := DecodeItems(input);
            match DecodeBody(tag, rest)
            case None => done + d.0 == done && !d.1
            case Some((item, after)) => done + d.0 == done + [item] + DecodeItems(after).0 && d.1 == DecodeItems(after).1
  {
    hide DecodeBody, GetVarint32;
  }

  lemma DecodeEnd(input: Slice, done: seq<Item>)
    requires GetVarint32(input).None?
    ensures done + DecodeItems(input).0 == done && (DecodeItems(input).1 <==> input == [])
  {
  }

  /** An edit decodes from its encoding as it was, whatever order its deleted files were written in. */
  lemma EditRoundTrip(f: Fields, order: seq<(nat, uint64)>)
    requires Elements(order) == f.deletedFiles && AllEncodable(ItemsOf(f, order))
    ensures var d := DecodeItems(EncodeItems(ItemsOf(f, order)));
            d.1 && ApplyAll(NO_FIELDS, d.0) == f
  {
    ItemsRoundTrip(ItemsOf(f, order));
    ItemsRebuild(f, order);
  }

  /** Decoding into an edit that has compaction pointers already keeps them in front of the decoded ones; so the result is
      the encoded edit exactly when there were none. */
  lemma ReusedEditKeepsPointers(f: Fields, order: seq<(nat, uint64)>, before: seq<(nat, Slice)>)
    requires Elements(order) == f.deletedFiles && AllEncodable(ItemsOf(f, order))
    ensures var d := DecodeItems(EncodeItems(ItemsOf(f, order)));
            var r := ApplyAll(NO_FIELDS.(compactPointers := before), d.0);
            r == f.(compactPointers := before + f.compactPointers) && (r == f <==> before == [])
  {
    hide ItemsOf, EncodeItems, DecodeItems, AllEncodable, ApplyAll;
    ItemsRoundTrip(ItemsOf(f, order));
    EditRoundTrip(f, order);
    assert before + [] == before;
    PointersInFront(NO_FIELDS, before, ItemsOf(f, order));
    assert before + f.compactPointers == f.compactPointers ==> |before| == 0;
    assert [] + f.compactPointers == f.compactPointers;
  }

  lemma {:induction false} PointersInFront(f: Fields, front: seq<(nat, Slice)>, items: seq<Item>)
    ensures ApplyAll(f.(compactPointers := front + f.compactPointers), items) ==
            ApplyAll(f, items).(compactPointers := front + ApplyAll(f, items).compactPointers)
    decreases |items|
  {
    if items != [] {
      var next := Apply(f, items[0]);
      PointersInFront(next, front, items[1..]);
      if items[0].CompactPointer? {
        assert front + f.compactPointers + [(items[0].level, items[0].key)] == front + next.compactPointers;
      }
    }
  }
}
