/** The manifest as a file (db/version_set.cc, VersionSet::Recover): a log whose records are version edits. Reading it, also
    when it was cut off at any byte, rebuilds the version that the edits in it describe. */
module Manifest {
  import opened InternalKeys
  import opened Coding
  import LogWriter
  import LogReader
  import VE = VersionEdit
  import opened Version
  import opened VersionBuilder

  /** What an encoded internal key stands for, and what the table file of a number holds. */
  type KeyReader = Slice -> IKey
  type Tables = nat -> seq<Entry>

  function FileOf(key: KeyReader, tables: Tables, m: VE.FileMeta): File {
    File(m.number, m.size, key(m.smallest), key(m.largest), tables(m.number))
  }

  /** The file changes that decoded fields stand for. */
  function EditOf(key: KeyReader, tables: Tables, f: VE.Fields): Edit {
    Edit(set d | d in f.deletedFiles :: (d.0, d.1 as nat),
         seq(|f.newFiles|, i requires 0 <= i < |f.newFiles| => (f.newFiles[i].0, FileOf(key, tables, f.newFiles[i].1))))
  }

  function EditsOf(key: KeyReader, tables: Tables, fs: seq<VE.Fields>): seq<Edit> {
    seq(|fs|, i requires 0 <= i < |fs| => EditOf(key, tables, fs[i]))
  }

  /** The record encodes the fields, with the deleted files in some order. */
  ghost predicate Encodes(record: Slice, f: VE.Fields) {
    exists order :: Elements(order) == f.deletedFiles && VE.AllEncodable(VE.ItemsOf(f, order))
      && record == VE.EncodeItems(VE.ItemsOf(f, order))
  }

  ghost predicate AllEncode(records: seq<Slice>, fs: seq<VE.Fields>) {
    |records| == |fs| && forall i :: 0 <= i < |fs| ==> Encodes(records[i], fs[i])
  }

  /** The value of a field after a list of edits: that of the last edit that has it. */
  function Latest(fs: seq<VE.Fields>, pick: VE.Fields -> Option<uint64>): Option<uint64> {
    if fs == [] then None
    else
      var last := pick(fs[|fs| - 1]);
      if last.Some? then last else Latest(fs[..|fs| - 1], pick)
  }

  function Log(f: VE.Fields): Option<uint64> { f.logNumber }
  function PrevLog(f: VE.Fields): Option<uint64> { f.prevLogNumber }
  function NextFile(f: VE.Fields): Option<uint64> { f.nextFileNumber }
  function Last(f: VE.Fields): Option<uint64> { f.lastSequence }

  /** Every comparator name in the edits is the expected one. */
  predicate SameComparator(fs: seq<VE.Fields>, name: Slice) {
    forall i :: 0 <= i < |fs| && fs[i].comparator.Some? ==> fs[i].comparator.value == name
  }

  datatype Recovered = Recovered(version: Levels, nextFile: nat, logNumber: nat, prevLogNumber: nat, lastSequence: nat,
                                 compactPointers: seq<Option<Slice>>)

  /** The key where the next compaction of a level starts: the last one in the edits for this level. */
  function LastPointer(ps: seq<(nat, Slice)>, level: nat): Option<Slice> {
    if ps == [] then None
    else
      var (l, key) := ps[|ps| - 1];
      if l == level then Some(key) else LastPointer(ps[..|ps| - 1], level)
  }

  function LatestPointer(fs: seq<VE.Fields>, level: nat): Option<Slice> {
    if fs == [] then None
    else
      var last := LastPointer(fs[|fs| - 1].compactPointers, level);
      if last.Some? then last else LatestPointer(fs[..|fs| - 1], level)
  }

  ghost function PointersOf(fs: seq<VE.Fields>): seq<Option<Slice>> {
    seq(NUM_LEVELS, l requires 0 <= l < NUM_LEVELS => LatestPointer(fs, l))
  }

  /** The first loop of Builder::Apply: take over the compaction pointers of an edit. */
  method TakePointers(pointers: seq<Option<Slice>>, ps: seq<(nat, Slice)>) returns (r: seq<Option<Slice>>)
    requires |pointers| == NUM_LEVELS
    ensures |r| == NUM_LEVELS
    ensures forall l :: 0 <= l < NUM_LEVELS ==>
              r[l] == var last := LastPointer(ps, l); if last.Some? then last else pointers[l]
  {
    r := pointers;
    for i := 0 to |ps|
      invariant |r| == NUM_LEVELS
      invariant forall l :: 0 <= l < NUM_LEVELS ==>
                  r[l] == var last := LastPointer(ps[..i], l); if last.Some? then last else pointers[l]
    {
      assert ps[..i + 1][..i] == ps[..i];
      if ps[i].0 < NUM_LEVELS {
        r := r[ps[i].0 := Some(ps[i].1)];
      }
    }
    assert ps[..|ps|] == ps;
  }

  lemma DecodesAs(record: Slice, f: VE.Fields)
    requires Encodes(record, f)
    ensures var d := VE.DecodeItems(record);
            d.1 && VE.ApplyAll(VE.NO_FIELDS, d.0) == f
  {
    hide VE.EncodeItems, VE.DecodeItems, VE.ItemsOf, VE.AllEncodable;
    var order :| Elements(order) == f.deletedFiles && VE.AllEncodable(VE.ItemsOf(f, order))
                   && record == VE.EncodeItems(VE.ItemsOf(f, order));
    VE.EditRoundTrip(f, order);
  }

  /** The numbers that the edits read so far have set. */
  datatype Numbers = Numbers(nextFile: Option<uint64>, logNumber: Option<uint64>, prevLogNumber: Option<uint64>,
                             lastSequence: Option<uint64>)

  function NewerNumbers(n: Numbers, f: VE.Fields): Numbers {
    Numbers(if f.nextFileNumber.Some? then f.nextFileNumber else n.nextFile,
            if f.logNumber.Some? then f.logNumber else n.logNumber,
            if f.prevLogNumber.Some? then f.prevLogNumber else n.prevLogNumber,
            if f.lastSequence.Some? then f.lastSequence else n.lastSequence)
  }

  ghost function NumbersOf(fs: seq<VE.Fields>): Numbers {
    Numbers(Latest(fs, NextFile), Latest(fs, Log), Latest(fs, PrevLog), Latest(fs, Last))
  }

  lemma LatestNumbers(fs: seq<VE.Fields>, i: nat)
    requires i < |fs|
    ensures NumbersOf(fs[..i + 1]) == NewerNumbers(NumbersOf(fs[..i]), fs[i])
  {
    assert fs[..i + 1][..i] == fs[..i];
  }

  /** Decode one record and check its comparator name. */
  method ReadEdit(record: Slice, comparator: Slice, ghost f: VE.Fields) returns (edit: VE.VersionEdit, ok: bool)
    requires Encodes(record, f)
    ensures fresh(edit) && edit.Now() == f && (ok <==> f.comparator.Some? ==> f.comparator.value == comparator)
  {
    hide VE.DecodeItems, VE.ApplyAll;
    edit := new VE.VersionEdit();
    DecodesAs(record, f);
    ok := edit.DecodeFrom(record);
    if edit.comparator.Some? && edit.comparator.value != comparator {
      ok := false;
    }
  }

  /** Read the records of a manifest, decode each into a new edit, and let one builder take it in; false stands for a
      comparator that does not match. */
  method ReplayEdits(crc: LogWriter.Checksum, file: Slice, comparator: Slice, key: KeyReader, tables: Tables,
                     ghost records: seq<Slice>, ghost fs: seq<VE.Fields>)
    returns (ok: bool, builder: Builder, numbers: Numbers, pointers: seq<Option<Slice>>)
    requires file <= LogWriter.Log(crc, 0, records) && AllEncode(records, fs)
    requires var k := LogReader.Complete(crc, 0, records, |file|);
             AddedOnce(EMPTY_VERSION, EditsOf(key, tables, fs[..k]))
    ensures var k := LogReader.Complete(crc, 0, records, |file|);
            && (ok <==> SameComparator(fs[..k], comparator))
            && (ok ==> builder.Valid() && builder.base == EMPTY_VERSION && builder.edits == EditsOf(key, tables, fs[..k])
                       && numbers == NumbersOf(fs[..k]) && pointers == PointersOf(fs[..k]))
  {
    hide Encodes, AddedOnce, LogReader.AllRecords, LogReader.NextRecord, Builder.Valid, NewerNumbers, EditOf, Latest,
         LogReader.Complete, LogWriter.Log, LatestPointer;
    ghost var k := LogReader.Complete(crc, 0, records, |file|);
    ghost var edits := EditsOf(key, tables, fs[..k]);
    EmptyLevelsSorted();
    var reader := new LogReader.Reader(crc, true, file);
    builder := new Builder(EMPTY_VERSION);
    LogReader.CutLogReads(crc, true, records, |file|);
    assert LogWriter.Log(crc, 0, records)[..|file|] == file;
    numbers, pointers := Numbers(None, None, None, None), seq(NUM_LEVELS, _ => None);
    ghost var i := 0;
    assert records[..k] == records[i..k] && fs[..0] == [] && edits[..0] == [];
    NothingYet();
    var record := LogReader.NextLogRecord(reader, records[i..k]);
    while record.Some?
      invariant fresh(reader) && reader.Valid() && reader.crc == crc && reader.checksum && reader.file == file
      invariant i <= k && record == if i < k then Some(records[i]) else None
      invariant i < k ==> LogReader.AllRecords(crc, true, file, reader.At()) == (records[i + 1..k], [])
      invariant fresh(builder) && builder.Valid() && builder.base == EMPTY_VERSION && builder.edits == edits[..i]
      invariant SameComparator(fs[..i], comparator) && numbers == NumbersOf(fs[..i]) && pointers == PointersOf(fs[..i])
      decreases k - i
    {
      var edit;
      edit, ok := ReadEdit(record.value, comparator, fs[i]);
      assert fs[..k][i] == fs[i];
      if !ok {
        return;
      }
      assert fs[..i + 1] == fs[..i] + [fs[i]];
      PrefixAddedOnce(EMPTY_VERSION, edits, i + 1);
      assert edits[..i + 1] == edits[..i] + [edits[i]];
      builder.Apply(EditOf(key, tables, edit.Now()));
      pointers := TakePointers(pointers, edit.compactPointers);
      LatestPointers(fs, i, pointers);
      numbers := NewerNumbers(numbers, edit.Now());
      LatestNumbers(fs, i);
      i := i + 1;
      record := LogReader.NextLogRecord(reader, records[i..k]);
    }
    ok := true;
    assert edits[..k] == edits;
  }

  /** Rebuild the version and the counters from a manifest. */
  method Recover(crc: LogWriter.Checksum, file: Slice, comparator: Slice, key: KeyReader, tables: Tables,
                 ghost records: seq<Slice>, ghost fs: seq<VE.Fields>) returns (r: Option<Recovered>)
    requires file <= LogWriter.Log(crc, 0, records) && AllEncode(records, fs)
    requires var k := LogReader.Complete(crc, 0, records, |file|);
             AddedOnce(EMPTY_VERSION, EditsOf(key, tables, fs[..k]))
    ensures var k := LogReader.Complete(crc, 0, records, |file|);
            var done := fs[..k];
            && (r.Some? <==> SameComparator(done, comparator) &&
                             Latest(done, NextFile).Some? && Latest(done, Log).Some? && Latest(done, Last).Some?)
            && (r.Some? ==> MatchesEdits(r.value, key, tables, done))
  {
    hide AddedOnce, Builder.Valid, SortedBySmallest, Built;
    ghost var done := fs[..LogReader.Complete(crc, 0, records, |file|)];
    ghost var edits := EditsOf(key, tables, done);
    var ok, builder, numbers, pointers := ReplayEdits(crc, file, comparator, key, tables, records, fs);
    if !ok || numbers.nextFile.None? || numbers.logNumber.None? || numbers.lastSequence.None? {
      return None;
    }
    BuilderHolds(builder);
    var version := builder.SaveTo();
    SavedReplays(version, edits);
    r := Some(Recovered(version, numbers.nextFile.value, numbers.logNumber.value,
                        if numbers.prevLogNumber.Some? then numbers.prevLogNumber.value else 0, numbers.lastSequence.value,
                        pointers));
  }

  lemma LatestPointers(fs: seq<VE.Fields>, i: nat, pointers: seq<Option<Slice>>)
    requires i < |fs| && |pointers| == NUM_LEVELS
    requires forall l :: 0 <= l < NUM_LEVELS ==>
               pointers[l] == var last := LastPointer(fs[i].compactPointers, l);
                              if last.Some? then last else PointersOf(fs[..i])[l]
    ensures pointers == PointersOf(fs[..i + 1])
  {
    assert fs[..i + 1][..i] == fs[..i];
  }

  lemma NothingYet()
    ensures NumbersOf([]) == Numbers(None, None, None, None)
    ensures PointersOf([]) == seq(NUM_LEVELS, _ => None)
  {
  }

  lemma BuilderHolds(builder: Builder)
    requires builder.Valid()
    ensures |builder.base| == NUM_LEVELS && AddedOnce(builder.base, builder.edits)
  {
  }

  lemma EmptyLevelsSorted()
    ensures |EMPTY_VERSION| == NUM_LEVELS
    ensures forall l :: 0 <= l < NUM_LEVELS ==> SortedBySmallest(EMPTY_VERSION[l])
  {
    assert forall l :: 0 <= l < NUM_LEVELS ==> EMPTY_VERSION[l] == [];
  }

  /** The recovered version is the one that replaying the edits one after the other gives, and with it what installing them
      in turn ends in; numbers and compaction pointers are the latest ones in the edits. */
  ghost predicate MatchesEdits(r: Recovered, key: KeyReader, tables: Tables, done: seq<VE.Fields>) {
    && Replays(r.version, EditsOf(key, tables, done))
    && r.compactPointers == PointersOf(done)
    && Latest(done, NextFile) == Some(r.nextFile) && Latest(done, Log) == Some(r.logNumber)
    && r.prevLogNumber == (if Latest(done, PrevLog).Some? then Latest(done, PrevLog).value else 0)
    && Latest(done, Last) == Some(r.lastSequence)
  }
}
