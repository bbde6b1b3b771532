/** The set of versions with its manifest (db/version_set.cc, LogAndApply, WriteSnapshot): every installed edit is recorded,
    the first record of a new manifest is a snapshot, and recovering the file gives the current state back. */
module VersionSet {
  import opened InternalKeys
  import opened Coding
  import LogWriter
  import LogReader
  import VE = VersionEdit
  import opened Version
  import opened VersionBuilder
  import opened Manifest

  /** How internal keys are written. */
  type KeyWriter = IKey -> Slice

  function MetaOf(write: KeyWriter, f: File): VE.FileMeta
    requires f.number < TWO_64 && f.size < TWO_64
  {
    VE.FileMeta(f.number, f.size, write(f.smallest), write(f.largest))
  }

  /** The metadata of a file reads back as the file. */
  ghost predicate Recordable(read: KeyReader, write: KeyWriter, tables: Tables, f: File) {
    && f.number < TWO_64 && f.size < TWO_64
    && |write(f.smallest)| < TWO_32 && |write(f.largest)| < TWO_32
    && FileOf(read, tables, MetaOf(write, f)) == f
  }

  ghost predicate AllRecordable(read: KeyReader, write: KeyWriter, tables: Tables, v: Levels) {
    && |v| == NUM_LEVELS
    && (forall l :: 0 <= l < NUM_LEVELS ==> SortedBySmallest(v[l]) && DistinctNumbers(v[l]))
    && forall l, i :: 0 <= l < NUM_LEVELS && 0 <= i < |v[l]| ==> Recordable(read, write, tables, v[l][i])
  }

  // ---------------------------------------------------------------- the snapshot record

  function PointerList(pointers: seq<Option<Slice>>, n: nat): seq<(nat, Slice)>
    requires n <= |pointers|
  {
    if n == 0 then []
    else PointerList(pointers, n - 1) + if pointers[n - 1].Some? then [(n - 1, pointers[n - 1].value)] else []
  }

  lemma {:induction false} PointerListGives(pointers: seq<Option<Slice>>, n: nat, level: nat)
    requires n <= |pointers|
    ensures LastPointer(PointerList(pointers, n), level) == if level < n then pointers[level] else None
  {
    if n > 0 {
      PointerListGives(pointers, n - 1, level);
      var front := PointerList(pointers, n - 1);
      if pointers[n - 1].Some? {
        assert (front + [(n - 1, pointers[n - 1].value)])[..|front|] == front;
      } else {
        assert front + [] == front;
      }
    }
  }

  lemma {:induction false} PointerListFits(pointers: seq<Option<Slice>>, n: nat)
    requires n <= |pointers| <= NUM_LEVELS && forall p <- pointers :: p.Some? ==> VE.Short(p.value)
    ensures forall p <- PointerList(pointers, n) :: p.0 < NUM_LEVELS && VE.Short(p.1)
  {
    if n > 0 {
      PointerListFits(pointers, n - 1);
      assert pointers[n - 1] in pointers;
    }
  }

  /** The files of the first levels with their metadata. */
  function MetaList(write: KeyWriter, v: Levels, n: nat): seq<(nat, VE.FileMeta)>
    requires n <= |v| && forall l, i :: 0 <= l < |v| && 0 <= i < |v[l]| ==> v[l][i].number < TWO_64 && v[l][i].size < TWO_64
  {
    if n == 0 then []
    else MetaList(write, v, n - 1) + seq(|v[n - 1]|, i requires 0 <= i < |v[n - 1]| => (n - 1, MetaOf(write, v[n - 1][i])))
  }

  function SnapshotFields(comparator: Slice, write: KeyWriter, pointers: seq<Option<Slice>>, v: Levels): VE.Fields
    requires |pointers| == |v| == NUM_LEVELS
    requires forall l, i :: 0 <= l < |v| && 0 <= i < |v[l]| ==> v[l][i].number < TWO_64 && v[l][i].size < TWO_64
  {
    VE.NO_FIELDS.(comparator := Some(comparator), compactPointers := PointerList(pointers, NUM_LEVELS),
                  newFiles := MetaList(write, v, NUM_LEVELS))
  }

  function FilesIn(read: KeyReader, tables: Tables, metas: seq<(nat, VE.FileMeta)>): seq<(nat, File)> {
    seq(|metas|, i requires 0 <= i < |metas| => (metas[i].0, FileOf(read, tables, metas[i].1)))
  }

  lemma {:induction false} MetaListReads(read: KeyReader, write: KeyWriter, tables: Tables, v: Levels, n: nat)
    requires AllRecordable(read, write, tables, v) && n <= NUM_LEVELS
    ensures FilesIn(read, tables, MetaList(write, v, n)) == SnapshotFiles(v, n)
    ensures forall m <- MetaList(write, v, n) :: m.0 < NUM_LEVELS && VE.Short(m.1.smallest) && VE.Short(m.1.largest)
  {
    hide FileOf, SortedBySmallest, DistinctNumbers;
    if n > 0 {
      MetaListReads(read, write, tables, v, n - 1);
      var here := seq(|v[n - 1]|, i requires 0 <= i < |v[n - 1]| => (n - 1, MetaOf(write, v[n - 1][i])));
      var files := seq(|v[n - 1]|, i requires 0 <= i < |v[n - 1]| => (n - 1, v[n - 1][i]));
      forall i | 0 <= i < |here| ensures FilesIn(read, tables, here)[i] == files[i] && VE.Short(here[i].1.smallest) && VE.Short(here[i].1.largest) {
        assert Recordable(read, write, tables, v[n - 1][i]);
      }
      assert FilesIn(read, tables, here) == files;
      FilesInAppend(read, tables, MetaList(write, v, n - 1), here);
    }
  }

  lemma FilesInAppend(read: KeyReader, tables: Tables, a: seq<(nat, VE.FileMeta)>, b: seq<(nat, VE.FileMeta)>)
    ensures FilesIn(read, tables, a + b) == FilesIn(read, tables, a) + FilesIn(read, tables, b)
  {
  }

  /** The record that WriteSnapshot makes stands for the snapshot edit of the version. */
  lemma SnapshotStandsFor(read: KeyReader, write: KeyWriter, tables: Tables, comparator: Slice,
                          pointers: seq<Option<Slice>>, v: Levels)
    requires AllRecordable(read, write, tables, v) && |pointers| == NUM_LEVELS
    ensures EditOf(read, tables, SnapshotFields(comparator, write, pointers, v)) == SnapshotEdit(v)
  {
    hide FileOf, SortedBySmallest, DistinctNumbers;
    MetaListReads(read, write, tables, v, NUM_LEVELS);
    var f := SnapshotFields(comparator, write, pointers, v);
    assert EditOf(read, tables, f).added == FilesIn(read, tables, f.newFiles);
  }

  predicate NumbersFit(change: Edit) {
    (forall d <- change.deleted :: d.1 < TWO_64) && forall p <- change.added :: p.1.number < TWO_64 && p.1.size < TWO_64
  }

  /** The fields that record a change. */
  function FieldsOf(write: KeyWriter, change: Edit): VE.Fields
    requires NumbersFit(change)
  {
    VE.NO_FIELDS.(deletedFiles := set d | d in change.deleted :: (d.0, d.1 as uint64),
                  newFiles := seq(|change.added|, i requires 0 <= i < |change.added| =>
                    assert change.added[i] in change.added; (change.added[i].0, MetaOf(write, change.added[i].1))))
  }

  /** A change is what its record stands for, level by level and file by file. */
  lemma RecordStandsFor(read: KeyReader, write: KeyWriter, tables: Tables, change: Edit)
    requires NumbersFit(change) && forall p <- change.added :: Recordable(read, write, tables, p.1)
    ensures EditOf(read, tables, FieldsOf(write, change)) == change
  {
    hide FileOf;
    var f := FieldsOf(write, change);
    var edit := EditOf(read, tables, f);
    forall d: (nat, nat) ensures d in edit.deleted <==> d in change.deleted {
      if d in change.deleted {
        assert (d.0, d.1 as uint64) in f.deletedFiles;
      }
    }
    assert edit.deleted == change.deleted;
    forall i | 0 <= i < |change.added| ensures edit.added[i] == change.added[i] {
      assert change.added[i] in change.added;
    }
  }

  /** What the encoder needs of an edit's fields. */
  predicate FieldsFit(f: VE.Fields) {
    && (f.comparator.Some? ==> VE.Short(f.comparator.value))
    && (forall p <- f.compactPointers :: p.0 < NUM_LEVELS && VE.Short(p.1))
    && (forall d <- f.deletedFiles :: d.0 < NUM_LEVELS)
    && (forall m <- f.newFiles :: m.0 < NUM_LEVELS && VE.Short(m.1.smallest) && VE.Short(m.1.largest))
  }

  lemma FittingIsEncodable(f: VE.Fields)
    requires FieldsFit(f)
    ensures VE.AllEncodable(VE.Scalars(f)) && VE.AllEncodable(VE.Pointers(f.compactPointers))
    ensures VE.AllEncodable(VE.Additions(f.newFiles))
  {
  }

  // ---------------------------------------------------------------- what a manifest says

  /** The file is a log of edits that lead to the recorded state. */
  ghost predicate Describes(crc: LogWriter.Checksum, file: Slice, comparator: Slice, read: KeyReader, tables: Tables,
                            records: seq<Slice>, fs: seq<VE.Fields>, r: Recovered)
  {
    && file == LogWriter.Log(crc, 0, records) && AllEncode(records, fs) && SameComparator(fs, comparator)
    && AddedOnce(EMPTY_VERSION, EditsOf(read, tables, fs)) && MatchesEdits(r, read, tables, fs)
  }

  /** The state after one more edit with all its numbers. */
  lemma DescribesMore(crc: LogWriter.Checksum, file: Slice, comparator: Slice, read: KeyReader, tables: Tables,
                      records: seq<Slice>, fs: seq<VE.Fields>, f: VE.Fields, record: Slice, r: Recovered)
    requires file == LogWriter.Log(crc, 0, records) && AllEncode(records, fs) && SameComparator(fs, comparator)
    requires AddedOnce(EMPTY_VERSION, EditsOf(read, tables, fs))
    requires AddsFresh(EMPTY_VERSION, EditsOf(read, tables, fs), EditOf(read, tables, f)) && Encodes(record, f)
    requires f.comparator.Some? ==> f.comparator.value == comparator
    requires f.nextFileNumber == Some(r.nextFile) && f.logNumber == Some(r.logNumber) && f.lastSequence == Some(r.lastSequence)
    requires f.prevLogNumber == Some(r.prevLogNumber)
    requires Replays(r.version, EditsOf(read, tables, fs) + [EditOf(read, tables, f)])
    requires |r.compactPointers| == NUM_LEVELS
    requires forall l :: 0 <= l < NUM_LEVELS ==>
               r.compactPointers[l] == var last := LastPointer(f.compactPointers, l);
                                       if last.Some? then last else LatestPointer(fs, l)
    ensures Describes(crc, file + LogWriter.Encoded(crc, |file|, record, true), comparator, read, tables,
                      records + [record], fs + [f], r)
  {
    hide AddsFresh, AddedOnce, Encodes, Replays, LogWriter.Log, LogWriter.Encoded, EditsOf, EditOf, LastPointer, LatestPointer;
    hide AllEncode, SameComparator, PointersOf, Latest;
    LogWriter.LogAppend(crc, 0, records, [record]);
    LogWriter.LogOne(crc, |file|, record);
    ListsMore(records, fs, record, f, comparator);
    EditsMore(read, tables, fs, f);
    NumbersMore(fs, f, r);
    PointersMore(fs, f, r.compactPointers);
  }

  lemma ListsMore(records: seq<Slice>, fs: seq<VE.Fields>, record: Slice, f: VE.Fields, comparator: Slice)
    requires AllEncode(records, fs) && SameComparator(fs, comparator) && Encodes(record, f)
    requires f.comparator.Some? ==> f.comparator.value == comparator
    ensures AllEncode(records + [record], fs + [f]) && SameComparator(fs + [f], comparator)
  {
    hide Encodes;
  }

  lemma EditsMore(read: KeyReader, tables: Tables, fs: seq<VE.Fields>, f: VE.Fields)
    ensures EditsOf(read, tables, fs + [f]) == EditsOf(read, tables, fs) + [EditOf(read, tables, f)]
    ensures AddedOnce(EMPTY_VERSION, EditsOf(read, tables, fs)) &&
            AddsFresh(EMPTY_VERSION, EditsOf(read, tables, fs), EditOf(read, tables, f)) ==>
              AddedOnce(EMPTY_VERSION, EditsOf(read, tables, fs + [f]))
  {
    hide AddsFresh, EditOf;
    var before, edits := EditsOf(read, tables, fs), EditsOf(read, tables, fs + [f]);
    assert edits == before + [EditOf(read, tables, f)];
    assert edits[..|edits| - 1] == before;
  }

  lemma NumbersMore(fs: seq<VE.Fields>, f: VE.Fields, r: Recovered)
    requires f.nextFileNumber == Some(r.nextFile) && f.logNumber == Some(r.logNumber) && f.lastSequence == Some(r.lastSequence)
    requires f.prevLogNumber == Some(r.prevLogNumber)
    ensures var all := fs + [f];
            && Latest(all, NextFile) == Some(r.nextFile) && Latest(all, Log) == Some(r.logNumber)
            && Latest(all, PrevLog) == Some(r.prevLogNumber) && Latest(all, Last) == Some(r.lastSequence)
  {
  }

  lemma PointersMore(fs: seq<VE.Fields>, f: VE.Fields, pointers: seq<Option<Slice>>)
    requires |pointers| == NUM_LEVELS
    requires forall l :: 0 <= l < NUM_LEVELS ==>
               pointers[l] == var last := LastPointer(f.compactPointers, l); if last.Some? then last else LatestPointer(fs, l)
    ensures pointers == PointersOf(fs + [f])
  {
    assert (fs + [f])[..|fs|] == fs;
  }

  /** The file loops of WriteSnapshot. */
  method ListFiles(write: KeyWriter, v: Levels) returns (metas: seq<(nat, VE.FileMeta)>)
    requires forall l, i :: 0 <= l < |v| && 0 <= i < |v[l]| ==> v[l][i].number < TWO_64 && v[l][i].size < TWO_64
    ensures metas == MetaList(write, v, |v|)
  {
    metas := [];
    for level := 0 to |v|
      invariant metas == MetaList(write, v, level)
    {
      var files := v[level];
      ghost var before := metas;
      for i := 0 to |files|
        invariant metas == before + seq(i, j requires 0 <= j < i => (level, MetaOf(write, v[level][j])))
      {
        metas := metas + [(level, MetaOf(write, files[i]))];
      }
    }
  }

  // ---------------------------------------------------------------- the object

  class VersionSet {
    const crc: LogWriter.Checksum
    const comparator: Slice
    const read: KeyReader
    const write: KeyWriter
    const tables: Tables
    var current: Levels
    var logNumber: uint64
    var prevLogNumber: uint64
    var nextFileNumber: uint64
    var lastSequence: uint64
    var compactPointers: seq<Option<Slice>>
    /** The manifest; none before the first edit is applied. */
    var descriptorLog: LogWriter.Writer?
    ghost var records: seq<Slice>
    ghost var fs: seq<VE.Fields>
    /** The state at the time of the last record; counters may have advanced since. */
    ghost var recorded: Recovered

    ghost function State(): Recovered
      reads this
    {
      Recovered(current, nextFileNumber, logNumber, prevLogNumber, lastSequence, compactPointers)
    }

    ghost predicate Valid()
      reads this, if descriptorLog != null then {descriptorLog} else {}
    {
      && |compactPointers| == NUM_LEVELS && VE.Short(comparator) && (forall p <- compactPointers :: p.Some? ==> VE.Short(p.value))
      && (descriptorLog == null ==> AllRecordable(read, write, tables, current) && fs == [])
      && (descriptorLog != null ==>
            && descriptorLog.Valid() && descriptorLog.crc == crc
            && Describes(crc, descriptorLog.dest, comparator, read, tables, records, fs, recorded)
            && recorded == State().(nextFile := recorded.nextFile, lastSequence := recorded.lastSequence))
    }

    /** The edits that the manifest will start from: those recorded, or a snapshot of the current version. */
    ghost function Base(): seq<Edit>
      requires Valid()
      reads this, if descriptorLog != null then {descriptorLog} else {}
    {
      if descriptorLog != null then EditsOf(read, tables, fs) else [SnapshotEdit(current)]
    }

    constructor (crc: LogWriter.Checksum, comparator: Slice, read: KeyReader, write: KeyWriter, tables: Tables, r: Recovered)
      requires AllRecordable(read, write, tables, r.version) && |r.compactPointers| == NUM_LEVELS && VE.Short(comparator)
      requires forall p <- r.compactPointers :: p.Some? ==> VE.Short(p.value)
      requires r.nextFile < TWO_64 && r.logNumber < TWO_64 && r.prevLogNumber < TWO_64 && r.lastSequence < TWO_64
      ensures Valid() && descriptorLog == null && State() == r
      ensures this.crc == crc && this.comparator == comparator && this.read == read && this.write == write && this.tables == tables
    {
      this.crc, this.comparator, this.read, this.write, this.tables := crc, comparator, read, write, tables;
      current, logNumber, prevLogNumber, nextFileNumber, lastSequence, compactPointers :=
        r.version, r.logNumber, r.prevLogNumber, r.nextFile, r.lastSequence, r.compactPointers;
      descriptorLog := null;
      records, fs, recorded := [], [], r;
    }

    /** The comparator's name, the compaction pointers and all files. */
    method BuildSnapshot() returns (edit: VE.VersionEdit)
      requires |compactPointers| == NUM_LEVELS && AllRecordable(read, write, tables, current)
      ensures fresh(edit) && edit.Now() == SnapshotFields(comparator, write, compactPointers, current)
    {
      hide Recordable, SortedBySmallest, DistinctNumbers, MetaList;
      RecordableNumbers(read, write, tables, current);
      edit := new VE.VersionEdit();
      edit.comparator := Some(comparator);
      for level := 0 to NUM_LEVELS
        invariant fresh(edit) && edit.Now() == VE.NO_FIELDS.(comparator := Some(comparator), compactPointers := PointerList(compactPointers, level))
      {
        if compactPointers[level].Some? {
          edit.compactPointers := edit.compactPointers + [(level, compactPointers[level].value)];
        }
      }
      edit.newFiles := ListFiles(write, current);
    }

    /** Save the state as the first record of a new manifest. */
    method WriteSnapshot(log: LogWriter.Writer) returns (ghost record: Slice)
      requires |compactPointers| == NUM_LEVELS && VE.Short(comparator) && AllRecordable(read, write, tables, current)
      requires forall p <- compactPointers :: p.Some? ==> VE.Short(p.value)
      requires log.Valid() && log.dest == [] && log.crc == crc
      modifies log
      ensures log.Valid() && log.dest == LogWriter.Encoded(crc, 0, record, true)
      ensures Encodes(record, SnapshotFields(comparator, write, compactPointers, current))
    {
      hide LogWriter.Encoded, Recordable, SortedBySmallest, DistinctNumbers, Encodes, PointerList, MetaList;
      var edit := BuildSnapshot();
      PointerListFits(compactPointers, NUM_LEVELS);
      MetaListReads(read, write, tables, current, NUM_LEVELS);
      record := AddRecord(log, edit);
      assert [] + LogWriter.Encoded(crc, 0, record, true) == LogWriter.Encoded(crc, 0, record, true);
    }

    /** Append the encoding of an edit to a manifest. */
    method AddRecord(log: LogWriter.Writer, edit: VE.VersionEdit) returns (ghost record: Slice)
      requires log.Valid() && FieldsFit(edit.Now())
      modifies log
      ensures log.Valid() && log.dest == old(log.dest) + LogWriter.Encoded(log.crc, |old(log.dest)|, record, true)
      ensures Encodes(record, edit.Now())
    {
      hide LogWriter.Encoded, VE.EncodeItems, VE.ItemsOf, VE.AllEncodable, FieldsFit;
      FittingIsEncodable(edit.Now());
      FittingDeletions(edit.Now());
      var bytes;
      ghost var order;
      bytes, order := edit.EncodeTo([]);
      assert [] + VE.EncodeItems(VE.ItemsOf(edit.Now(), order)) == VE.EncodeItems(VE.ItemsOf(edit.Now(), order));
      record := bytes;
      log.AddRecord(bytes);
    }

    /** Complete an edit with the current numbers, as far as it does not bring its own. */
    method FillIn(edit: VE.VersionEdit)
      modifies edit
      ensures var f := old(edit.Now());
              edit.Now() == f.(logNumber := if f.logNumber.Some? then f.logNumber else Some(logNumber),
                               prevLogNumber := if f.prevLogNumber.Some? then f.prevLogNumber else Some(prevLogNumber),
                               nextFileNumber := Some(nextFileNumber), lastSequence := Some(lastSequence))
    {
      if edit.logNumber.None? {
        edit.logNumber := Some(logNumber);
      }
      if edit.prevLogNumber.None? {
        edit.prevLogNumber := Some(prevLogNumber);
      }
      edit.nextFileNumber := Some(nextFileNumber);
      edit.lastSequence := Some(lastSequence);
    }

    /** Start a manifest, if there is none, with a snapshot of the current version. */
    method OpenManifest()
      requires Valid()
      requires descriptorLog == null
      modifies this
      ensures descriptorLog != null && fresh(descriptorLog) && descriptorLog.Valid() && descriptorLog.crc == crc
      ensures State() == old(State())
      ensures descriptorLog.dest == LogWriter.Log(crc, 0, records) && AllEncode(records, fs) && SameComparator(fs, comparator)
      ensures EditsOf(read, tables, fs) == [SnapshotEdit(current)] && AddedOnce(EMPTY_VERSION, EditsOf(read, tables, fs))
      ensures forall l :: 0 <= l < NUM_LEVELS ==> LatestPointer(fs, l) == compactPointers[l]
    {
      hide Describes, Recordable, Encodes, LogWriter.Log, LogWriter.Encoded, AddedOnce, EditOf, SortedBySmallest, DistinctNumbers;
      hide PointerList, MetaList, LastPointer;
      var log := new LogWriter.Writer(crc);
      ghost var record := WriteSnapshot(log);
      RecordableNumbers(read, write, tables, current);
      ghost var f := SnapshotFields(comparator, write, compactPointers, current);
      LogWriter.LogOne(crc, 0, record);
      SnapshotStandsFor(read, write, tables, comparator, compactPointers, current);
      SnapshotAlone(current);
      OneEdit(read, tables, f);
      forall l | 0 <= l < NUM_LEVELS ensures LatestPointer([f], l) == compactPointers[l] {
        PointerListGives(compactPointers, NUM_LEVELS, l);
      }
      descriptorLog := log;
      records, fs := [record], [f];
    }

    /** Install an edit: build the next version, write the record, then make the version current. */
    method LogAndApply(edit: VE.VersionEdit)
      requires Valid() && FieldsFit(edit.Now())
      requires edit.comparator.Some? ==> edit.comparator.value == comparator
      requires edit.logNumber.Some? ==> logNumber <= edit.logNumber.value < nextFileNumber
      requires AddsFresh(EMPTY_VERSION, Base(), EditOf(read, tables, edit.Now()))
      modifies this, edit, if descriptorLog != null then {descriptorLog} else {}
      ensures Valid() && descriptorLog != null && (old(descriptorLog) == null ==> fresh(descriptorLog))
      ensures old(descriptorLog) != null ==> descriptorLog == old(descriptorLog)
      ensures Installs(old(current), EditOf(read, tables, old(edit.Now())), current)
      ensures logNumber == (if old(edit.logNumber).Some? then old(edit.logNumber).value else old(logNumber))
      ensures nextFileNumber == old(nextFileNumber) && lastSequence == old(lastSequence)
      ensures recorded == State() && Base() == old(Base()) + [EditOf(read, tables, old(edit.Now()))]
    {
      hide Describes, Recordable, Encodes, LogWriter.Log, LogWriter.Encoded, AddedOnce, AddsFresh, EditOf, SortedBySmallest;
      hide DistinctNumbers, Installs, Replays, FieldsFit, LatestPointer, LastPointer, AllRecordable, AllEncode, SameComparator, EditsOf;
      var next := NextVersion(edit);
      PointersFit(edit.Now());
      if descriptorLog != null {
        ManifestSays();
      }
      compactPointers := TakePointers(compactPointers, edit.compactPointers);
      if descriptorLog == null {
        OpenManifest();
      }
      Commit(edit, next);
    }

    /** The manifest is open, and its edits lead up to a new one. */
    ghost predicate Ready(f: VE.Fields, next: Levels)
      reads this, if descriptorLog != null then {descriptorLog} else {}
    {
      && |compactPointers| == NUM_LEVELS && VE.Short(comparator) && (forall p <- compactPointers :: p.Some? ==> VE.Short(p.value))
      && descriptorLog != null && descriptorLog.Valid() && descriptorLog.crc == crc
      && descriptorLog.dest == LogWriter.Log(crc, 0, records) && AllEncode(records, fs) && SameComparator(fs, comparator)
      && AddedOnce(EMPTY_VERSION, EditsOf(read, tables, fs))
      && AddsFresh(EMPTY_VERSION, EditsOf(read, tables, fs), EditOf(read, tables, f))
      && Replays(next, EditsOf(read, tables, fs) + [EditOf(read, tables, f)])
      && forall l :: 0 <= l < NUM_LEVELS ==>
           compactPointers[l] == var last := LastPointer(f.compactPointers, l); if last.Some? then last else LatestPointer(fs, l)
    }

    /** Write the record, then make the version current. */
    method Commit(edit: VE.VersionEdit, next: Levels)
      requires Ready(edit.Now(), next) && FieldsFit(edit.Now())
      requires edit.comparator.Some? ==> edit.comparator.value == comparator
      requires edit.logNumber.Some? && edit.prevLogNumber.Some?
      requires edit.nextFileNumber == Some(nextFileNumber) && edit.lastSequence == Some(lastSequence)
      modifies this, descriptorLog
      ensures Valid() && descriptorLog == old(descriptorLog) && recorded == State()
      ensures EditsOf(read, tables, fs) == old(EditsOf(read, tables, fs)) + [EditOf(read, tables, edit.Now())]
      ensures State() == old(State()).(version := next, logNumber := edit.logNumber.value, prevLogNumber := edit.prevLogNumber.value)
    {
      hide Describes, Encodes, LogWriter.Log, LogWriter.Encoded, AddedOnce, AddsFresh, EditOf, Replays, FieldsFit;
      hide LatestPointer, LastPointer, AllEncode, SameComparator, EditsOf;
      ghost var file := descriptorLog.dest;
      ghost var record := AddRecord(descriptorLog, edit);
      current, logNumber, prevLogNumber := next, edit.logNumber.value, edit.prevLogNumber.value;
      DescribesMore(crc, file, comparator, read, tables, records, fs, edit.Now(), record, State());
      EditsMore(read, tables, fs, edit.Now());
      records, fs, recorded := records + [record], fs + [edit.Now()], State();
    }

    /** Complete the edit and build the version that it leads to. */
    method NextVersion(edit: VE.VersionEdit) returns (next: Levels)
      requires Valid() && FieldsFit(edit.Now())
      requires AddsFresh(EMPTY_VERSION, Base(), EditOf(read, tables, edit.Now()))
      modifies edit
      ensures var f := old(edit.Now());
              edit.Now() == f.(logNumber := if f.logNumber.Some? then f.logNumber else Some(logNumber),
                               prevLogNumber := if f.prevLogNumber.Some? then f.prevLogNumber else Some(prevLogNumber),
                               nextFileNumber := Some(nextFileNumber), lastSequence := Some(lastSequence))
      ensures FieldsFit(edit.Now()) && EditOf(read, tables, edit.Now()) == EditOf(read, tables, old(edit.Now()))
      ensures Installs(current, EditOf(read, tables, edit.Now()), next)
      ensures Replays(next, Base() + [EditOf(read, tables, edit.Now())]) && AddedOnce(EMPTY_VERSION, Base())
    {
      hide Describes, Recordable, AddedOnce, AddsFresh, EditOf, SortedBySmallest, DistinctNumbers, Installs, Replays, FieldsFit;
      ghost var change := EditOf(read, tables, edit.Now());
      CurrentReplays();
      FreshForCurrent(Base(), current, change);
      ghost var was := edit.Now();
      FillIn(edit);
      SameFit(was, edit.Now());
      SameChange(read, tables, edit.Now());
      next := VersionBuilder.LogAndApply(current, EditOf(read, tables, edit.Now()));
      InstallReplays(current, Base(), change, next);
    }

    lemma ManifestSays()
      requires Valid() && descriptorLog != null
      ensures descriptorLog.dest == LogWriter.Log(crc, 0, records) && AllEncode(records, fs) && SameComparator(fs, comparator)
      ensures AddedOnce(EMPTY_VERSION, EditsOf(read, tables, fs))
      ensures forall l :: 0 <= l < NUM_LEVELS ==> LatestPointer(fs, l) == compactPointers[l]
    {
      hide AddedOnce, LogWriter.Log, AllEncode, LatestPointer, Replays;
      assert compactPointers == PointersOf(fs);
    }

    /** The current version is what the edits in the manifest, or its snapshot, lead to. */
    lemma CurrentReplays()
      requires Valid()
      ensures Replays(current, Base()) && AddedOnce(EMPTY_VERSION, Base())
      ensures |current| == NUM_LEVELS && forall l :: 0 <= l < NUM_LEVELS ==> SortedBySmallest(current[l])
    {
      hide AddedOnce, Recordable, LogWriter.Log, AllEncode, SortedBySmallest;
      if descriptorLog == null {
        SnapshotAlone(current);
        SnapshotReplays(current);
      }
    }
  }

  lemma SnapshotReplays(v: Levels)
    requires |v| == NUM_LEVELS && forall l :: 0 <= l < NUM_LEVELS ==> SortedBySmallest(v[l])
    ensures Replays(v, [SnapshotEdit(v)])
  {
    hide Installs, Replays, SnapshotEdit;
    SnapshotRebuilds(v);
    EmptyReplays();
    InstallReplays(EMPTY_VERSION, [], SnapshotEdit(v), v);
    assert [] + [SnapshotEdit(v)] == [SnapshotEdit(v)];
  }

  /** Numbers that are new to the edits so far are new to the version. */
  lemma FreshForCurrent(edits: seq<Edit>, v: Levels, change: Edit)
    requires Replays(v, edits) && AddedOnce(EMPTY_VERSION, edits) && AddsFresh(EMPTY_VERSION, edits, change)
    ensures AddedOnce(v, [change])
  {
    hide Replayed, AddedFiles, DeletedNumbers;
    forall l | 0 <= l < NUM_LEVELS ensures Elements(v[l]) <= AddedFiles(edits, l) {
      BuiltIsReplayed(EMPTY_VERSION, edits, l);
      assert EMPTY_VERSION[l] == [];
    }
    assert [change][..0] == [];
    NoFiles();
    assert AddsFresh(v, [], change);
  }

  lemma NoFiles()
    ensures forall l :: AddedFiles([], l) == {}
  {
  }

  lemma SameChange(read: KeyReader, tables: Tables, f: VE.Fields)
    ensures forall g: VE.Fields :: g.deletedFiles == f.deletedFiles && g.newFiles == f.newFiles ==>
              EditOf(read, tables, g) == EditOf(read, tables, f)
  {
  }

  lemma SameFit(f: VE.Fields, g: VE.Fields)
    requires FieldsFit(f) && g.comparator == f.comparator && g.compactPointers == f.compactPointers
    requires g.deletedFiles == f.deletedFiles && g.newFiles == f.newFiles
    ensures FieldsFit(g)
  {
  }

  lemma FittingDeletions(f: VE.Fields)
    requires FieldsFit(f)
    ensures forall d <- f.deletedFiles :: d.0 < NUM_LEVELS
  {
  }

  lemma PointersFit(f: VE.Fields)
    requires FieldsFit(f)
    ensures forall l: nat :: var last := LastPointer(f.compactPointers, l); last.Some? ==> VE.Short(last.value)
  {
    forall l: nat ensures var last := LastPointer(f.compactPointers, l); last.Some? ==> VE.Short(last.value) {
      LastPointerFits(f.compactPointers, l);
    }
  }

  lemma {:induction false} LastPointerFits(ps: seq<(nat, Slice)>, l: nat)
    requires forall p <- ps :: VE.Short(p.1)
    ensures var last := LastPointer(ps, l); last.Some? ==> VE.Short(last.value)
  {
    if ps != [] {
      assert ps[|ps| - 1] in ps;
      LastPointerFits(ps[..|ps| - 1], l);
    }
  }

  lemma OneEdit(read: KeyReader, tables: Tables, f: VE.Fields)
    ensures EditsOf(read, tables, [f]) == [EditOf(read, tables, f)]
  {
  }

  lemma RecordableNumbers(read: KeyReader, write: KeyWriter, tables: Tables, v: Levels)
    requires AllRecordable(read, write, tables, v)
    ensures forall l, i :: 0 <= l < |v| && 0 <= i < |v[l]| ==> v[l][i].number < TWO_64 && v[l][i].size < TWO_64
  {
    forall l, i | 0 <= l < |v| && 0 <= i < |v[l]| ensures v[l][i].number < TWO_64 && v[l][i].size < TWO_64 {
      assert Recordable(read, write, tables, v[l][i]);
    }
  }

  // ---------------------------------------------------------------- reopening

  lemma SameRecovered(read: KeyReader, tables: Tables, fs: seq<VE.Fields>, a: Recovered, b: Recovered)
    requires MatchesEdits(a, read, tables, fs) && MatchesEdits(b, read, tables, fs)
    ensures a == b
  {
    hide Replays, Latest, PointersOf;
    ReplaysIsUnique(a.version, b.version, EditsOf(read, tables, fs));
  }

  /** A record that is not wholly in the file is not read. */
  lemma TornIsIncomplete(crc: LogWriter.Checksum, records: seq<Slice>, torn: Slice, size: nat)
    requires |LogWriter.Log(crc, 0, records)| <= size < |LogWriter.Log(crc, 0, records + [torn])|
    ensures LogReader.Complete(crc, 0, records + [torn], size) == |records|
  {
    hide LogReader.Complete, LogWriter.Log;
    var all := records + [torn];
    LogReader.CompleteIsLast(crc, 0, all, size, |records|);
    LogReader.CompleteIsLast(crc, 0, all, size, |all|);
    assert all[..|records|] == records && all[..|all|] == all;
  }

  /** Recovering from the manifest, with the next record torn at any byte or not begun, gives back the state as of the last
      installed edit. */
  method Reopen(v: VersionSet, file: Slice, ghost torn: Slice, ghost f: VE.Fields) returns (r: Option<Recovered>)
    requires v.Valid() && v.descriptorLog != null && Encodes(torn, f)
    requires v.descriptorLog.dest <= file < v.descriptorLog.dest + LogWriter.Encoded(v.crc, |v.descriptorLog.dest|, torn, true)
    ensures r == Some(v.recorded)
  {
    hide LogWriter.Log, LogWriter.Encoded, Encodes, AddedOnce, MatchesEdits, EditsOf, LogReader.Complete, SameComparator;
    ghost var records, fs := v.records + [torn], v.fs + [f];
    ghost var dest := v.descriptorLog.dest;
    LogWriter.LogAppend(v.crc, 0, v.records, [torn]);
    LogWriter.LogOne(v.crc, |dest|, torn);
    TornIsIncomplete(v.crc, v.records, torn, |file|);
    assert fs[..|v.fs|] == v.fs;
    RecordedCounters(v.recorded, v.read, v.tables, v.fs);
    r := Manifest.Recover(v.crc, file, v.comparator, v.read, v.tables, records, fs);
    SameRecovered(v.read, v.tables, v.fs, r.value, v.recorded);
  }

  lemma RecordedCounters(r: Recovered, read: KeyReader, tables: Tables, fs: seq<VE.Fields>)
    requires MatchesEdits(r, read, tables, fs)
    ensures Latest(fs, NextFile).Some? && Latest(fs, Log).Some? && Latest(fs, Last).Some?
  {
  }
}
