/** Recovery from the write-ahead log (db/db_impl.cc, RecoverLogFile): after a crash that cut the log at any byte, the
    store holds exactly the writes of the batches that were wholly in the log. */
module Recovery {
  import opened InternalKeys
  import opened Coding
  import LogWriter
  import LogReader
  import WB = WriteBatch
  import opened Version
  import opened VersionBuilder
  import opened MemTableFlush
  import opened Database
  import DBImpl

  /** The order of the user's byte strings, as ranks. */
  type Ranking = Slice -> UserKey

  function OpOf(rank: Ranking, u: WB.Update): Update {
    match u
    case Put(key, value) => Op(rank(key), TypeValue, value)
    case Delete(key) => Op(rank(key), TypeDeletion, [])
  }

  function OpsOf(rank: Ranking, us: seq<WB.Update>): seq<Update> {
    seq(|us|, i requires 0 <= i < |us| => OpOf(rank, us[i]))
  }

  /** A batch in the log: the sequence number of its first update, and the updates. */
  datatype Logged = Logged(first: nat, updates: seq<WB.Update>)

  /** The last sequence number once the batches are applied behind number `after`. */
  function EndOf(after: nat, batches: seq<Logged>): int {
    if batches == [] then after else var b := batches[|batches| - 1]; b.first + |b.updates| - 1
  }

  /** What a log can hold: batches whose numbers rise, not necessarily without gaps, as failed writes use numbers up. */
  predicate Loggable(after: nat, batches: seq<Logged>) {
    forall i :: 0 <= i < |batches| ==> FitsBehind(EndOf(after, batches[..i]), batches[i])
  }

  predicate FitsBehind(end: int, b: Logged) {
    && WB.AllFit(b.updates) && |b.updates| < TWO_32
    && end < b.first && b.first + |b.updates| <= MAX_SEQUENCE
  }

  function Gap(n: nat): seq<Op> { seq(n, _ => Unused) }

  /** What the batches add to the history behind number `after`: their updates, and unused numbers before each of them. */
  function HistoryOf(rank: Ranking, after: nat, batches: seq<Logged>): (ops: seq<Op>)
    requires Loggable(after, batches)
    ensures after + |ops| == EndOf(after, batches)
    decreases |batches|
  {
    if batches == [] then []
    else
      var n := |batches| - 1;
      LoggablePrefix(after, batches, n);
      assert batches[..n] + [batches[n]] == batches;
      var before := HistoryOf(rank, after, batches[..n]);
      before + Gap(batches[n].first - 1 - EndOf(after, batches[..n])) + OpsOf(rank, batches[n].updates)
  }

  lemma LoggablePrefix(after: nat, batches: seq<Logged>, n: nat)
    requires Loggable(after, batches) && n <= |batches|
    ensures Loggable(after, batches[..n])
    ensures n < |batches| ==> FitsBehind(EndOf(after, batches[..n]), batches[n])
  {
    forall i | 0 <= i < n ensures FitsBehind(EndOf(after, batches[..n][..i]), batches[..n][i]) {
      assert batches[..n][..i] == batches[..i];
    }
  }

  /** The records of the log. */
  function Records(after: nat, batches: seq<Logged>): (records: seq<Slice>)
    requires Loggable(after, batches)
    ensures |records| == |batches|
  {
    seq(|batches|, i requires 0 <= i < |batches| => assert FitsBehind(EndOf(after, batches[..i]), batches[i]);
      WB.Contents(batches[i].first, batches[i].updates))
  }

  /** The memtable of a state waits to be flushed; unlike a switch during operation this starts no new log. */
  ghost function Waiting(st: State): State {
    st.(mem := [], imm := Some(st.mem))
  }

  lemma WaitingKeepsInv(st: State)
    requires Inv(st) && st.imm.None?
    ensures Inv(Waiting(st))
  {
    assert Elements<Entry>([]) == {};
    assert All(Waiting(st)) == All(st);
  }

  /** WriteLevel0Table without a base version: the table goes to level 0; an empty memtable makes none. */
  method WriteLevel0Table(run: seq<Entry>, version: Levels, number: nat, tableSize: nat, ghost st: State) returns (next: Levels)
    requires Inv(st) && st.imm == Some(run) && version == st.version && number == st.nextFile
    ensures Inv(st.(imm := None, version := next, nextFile := number + 1))
  {
    var edit := Edit({}, []);
    assert [edit][..0] == [];
    assert AddsFresh(version, [], edit);
    if run != [] {
      var table := TableOf(number, tableSize, run);
      edit := Edit({}, [(0, table)]);
      assert FitsAt(version, 0, UserRangeOf(run));
      DBImpl.FreshTableAddedOnce(st, 0, table);
    }
    next := LogAndApply(version, edit);
    ghost var w := st.(imm := None, version := next, nextFile := number + 1);
    assert Flushed(st, w);
    FlushKeepsInv(st, w);
  }

  /** The store with more history recovered into it. */
  ghost predicate Recovered(st: State, w: State, ops: seq<Op>) {
    && Inv(w)
    && w == st.(mem := w.mem, version := w.version, nextFile := w.nextFile,
                lastSequence := st.lastSequence + |ops|, history := st.history + ops)
  }

  lemma RecoveredMore(st: State, w: State, ops: seq<Op>, more: seq<Op>)
    requires Recovered(st, w, ops) && w.lastSequence + |more| < MAX_SEQUENCE
    ensures Recovered(st, Written(w, more), ops + more)
  {
    hide Inv, InsertAll;
    WriteKeepsInv(w, more);
    assert st.history + ops + more == st.history + (ops + more);
  }

  /** A batch behind a gap: the unused numbers insert nothing. */
  lemma RecoveredBatch(st: State, w: State, ops: seq<Op>, gap: nat, more: seq<Op>)
    requires Recovered(st, w, ops) && w.lastSequence + gap + |more| < MAX_SEQUENCE
    ensures Recovered(st, Written(Failed(w, gap), more), ops + Gap(gap) + more)
    ensures Written(Failed(w, gap), more).mem == InsertAll(w.mem, more, w.lastSequence + gap + 1)
  {
    hide Inv, InsertAll;
    RecoveredMore(st, w, ops, Gap(gap));
    RecoveredMore(st, Failed(w, gap), ops + Gap(gap), more);
    UnusedInsertsNothing(w.mem, gap, w.lastSequence + 1);
  }

  /** Apply one log record to the memtable. */
  method ReplayBatch(rank: Ranking, record: Slice, mem: seq<Entry>, ghost b: Logged) returns (table: seq<Entry>, last: int)
    requires WB.AllFit(b.updates) && |b.updates| < TWO_32 && b.first <= MAX_SEQUENCE && record == WB.Contents(b.first, b.updates)
    ensures table == InsertAll(mem, OpsOf(rank, b.updates), b.first)
    ensures last == b.first + |b.updates| - 1
  {
    WB.ContentsRoundTrip(b.first, b.updates);
    var handled, ok := WB.Iterate(record);
    table := DBImpl.InsertInto(mem, OpsOf(rank, handled), WB.Sequence(record));
    last := WB.Sequence(record) + WB.Count(record) - 1;
  }

  /** Flush the memtable of a recovering store. */
  method FlushRecovered(mem: seq<Entry>, version: Levels, number: nat, tableSize: nat,
                        ghost st: State, ghost w: State, ghost ops: seq<Op>)
    returns (next: Levels)
    requires Recovered(st, w, ops) && st.imm.None? && w.mem == mem && w.version == version && w.nextFile == number
    ensures Recovered(st, w.(mem := [], version := next, nextFile := number + 1), ops)
  {
    WaitingKeepsInv(w);
    next := WriteLevel0Table(mem, version, number, tableSize, Waiting(w));
    assert Waiting(w).(imm := None, version := next, nextFile := number + 1) == w.(mem := [], version := next, nextFile := number + 1);
  }

  /** The store after another batch. */
  ghost function WithBatch(rank: Ranking, w: State, b: Logged): State
    requires w.lastSequence < b.first
  {
    Written(Failed(w, b.first - 1 - w.lastSequence), OpsOf(rank, b.updates))
  }

  /** Recover record `i` of the log; `w` is the store after the ones before it. */
  method RecoverRecord(rank: Ranking, record: Slice, mem: seq<Entry>, maxSequence: nat,
                       ghost st: State, ghost w: State, ghost batches: seq<Logged>, ghost i: nat)
    returns (table: seq<Entry>, newMax: nat)
    requires Loggable(st.lastSequence, batches) && i < |batches|
    requires record == Records(st.lastSequence, batches)[i]
    requires Loggable(st.lastSequence, batches[..i]) && Recovered(st, w, HistoryOf(rank, st.lastSequence, batches[..i]))
    requires w.mem == mem && maxSequence <= w.lastSequence
    ensures w.lastSequence < batches[i].first && Loggable(st.lastSequence, batches[..i + 1])
    ensures Recovered(st, WithBatch(rank, w, batches[i]), HistoryOf(rank, st.lastSequence, batches[..i + 1]))
    ensures table == WithBatch(rank, w, batches[i]).mem && newMax == WithBatch(rank, w, batches[i]).lastSequence
  {
    hide Inv, WB.AllFit, WB.Contents, InsertAll, HistoryOf;
    LoggablePrefix(st.lastSequence, batches, i);
    LoggablePrefix(st.lastSequence, batches, i + 1);
    var last;
    table, last := ReplayBatch(rank, record, mem, batches[i]);
    HistorySnoc(rank, st.lastSequence, batches, i);
    RecoveredBatch(st, w, HistoryOf(rank, st.lastSequence, batches[..i]), batches[i].first - 1 - w.lastSequence,
                   OpsOf(rank, batches[i].updates));
    newMax := if last > maxSequence then last else maxSequence;
  }

  lemma HistorySnoc(rank: Ranking, after: nat, batches: seq<Logged>, i: nat)
    requires Loggable(after, batches) && i < |batches|
    ensures Loggable(after, batches[..i]) && Loggable(after, batches[..i + 1]) && EndOf(after, batches[..i]) < batches[i].first
    ensures HistoryOf(rank, after, batches[..i + 1]) ==
            HistoryOf(rank, after, batches[..i]) + Gap(batches[i].first - 1 - EndOf(after, batches[..i])) + OpsOf(rank, batches[i].updates)
  {
    LoggablePrefix(after, batches, i);
    LoggablePrefix(after, batches, i + 1);
    assert batches[..i + 1][..i] == batches[..i];
  }

  /** The number of batches that are complete in the file. */
  ghost function CompleteIn(crc: LogWriter.Checksum, file: Slice, after: nat, batches: seq<Logged>): (k: nat)
    requires Loggable(after, batches)
    ensures k <= |batches| && Loggable(after, batches[..k])
  {
    var k := LogReader.Complete(crc, 0, Records(after, batches), |file|);
    LoggablePrefix(after, batches, k);
    k
  }

  /** All that is recovered: the complete batches, and unused numbers up to the counter that the manifest had. */
  ghost function RecoveredOps(crc: LogWriter.Checksum, file: Slice, rank: Ranking, after: nat, counter: nat, batches: seq<Logged>): seq<Op>
    requires Loggable(after, batches)
  {
    var k := CompleteIn(crc, file, after, batches);
    var end := EndOf(after, batches[..k]);
    HistoryOf(rank, after, batches[..k]) + Gap(if end < counter then counter - end else 0)
  }

  /** A memtable that is full is written to a table, and so is the last one unless its log is reused and all of it is in
      memory. */
  ghost predicate TablesWritten(mem: seq<Entry>, full: nat -> bool, reuse: bool, first: nat, next: nat) {
    && (mem != [] ==> reuse && next == first && !full(|mem|))
    && (reuse && (forall n: nat :: !full(n)) ==> next == first)
  }

  /** Read a log whose file was cut off at any byte, and replay its records into a memtable, writing the memtable out
      whenever it is full. `st` is the store in the manifest's version, whose counter may be ahead of the log: a table is
      written while newer writes go to a newer log. The store ends up with the updates of exactly the batches that were
      complete in the file, and its last sequence number is the counter or the last recovered one, whichever is larger. */
  method RecoverLogFile(crc: LogWriter.Checksum, file: Slice, rank: Ranking, full: nat -> bool, reuse: bool, tableSize: nat,
                        version: Levels, nextFile: nat, counter: nat, ghost st: State, ghost batches: seq<Logged>)
    returns (mem: seq<Entry>, next: Levels, nextNumber: nat, lastSequence: nat)
    requires Inv(st) && st.mem == [] && st.imm.None? && version == st.version && nextFile == st.nextFile
    requires st.lastSequence <= counter < MAX_SEQUENCE && Loggable(st.lastSequence, batches)
    requires file <= LogWriter.Log(crc, 0, Records(st.lastSequence, batches))
    ensures var ops := RecoveredOps(crc, file, rank, st.lastSequence, counter, batches);
            Recovered(st, st.(mem := mem, version := next, nextFile := nextNumber, lastSequence := lastSequence,
                              history := st.history + ops), ops)
    ensures var end := EndOf(st.lastSequence, batches[..CompleteIn(crc, file, st.lastSequence, batches)]);
            lastSequence == if end < counter then counter else end
    ensures TablesWritten(mem, full, reuse, nextFile, nextNumber)
  {
    hide Inv, Recovered, FitsBehind, HistoryOf, EndOf, Records, LogReader.Complete;
    var maxSequence;
    ghost var w;
    mem, next, nextNumber, maxSequence, w := ReplayLog(crc, file, rank, full, reuse, tableSize, version, nextFile, st, batches);
    lastSequence := if counter < maxSequence then maxSequence else counter;
    ghost var k := CompleteIn(crc, file, st.lastSequence, batches);
    ghost var ops := HistoryOf(rank, st.lastSequence, batches[..k]);
    RecoveredEnd(rank, st, w, batches, k);
    RecoveredPadded(st, w, ops, lastSequence);
  }

  lemma RecoveredEnd(rank: Ranking, st: State, w: State, batches: seq<Logged>, k: nat)
    requires k <= |batches| && Loggable(st.lastSequence, batches[..k])
    requires Recovered(st, w, HistoryOf(rank, st.lastSequence, batches[..k]))
    ensures w.lastSequence == EndOf(st.lastSequence, batches[..k]) && st.lastSequence <= w.lastSequence < MAX_SEQUENCE
    ensures k == 0 ==> w.lastSequence == st.lastSequence
  {
    hide HistoryOf;
  }

  /** Unused numbers up to a larger last sequence number. */
  lemma RecoveredPadded(st: State, w: State, ops: seq<Op>, last: nat)
    requires Recovered(st, w, ops) && w.lastSequence <= last < MAX_SEQUENCE
    ensures var all := ops + Gap(last - w.lastSequence);
            Recovered(st, st.(mem := w.mem, version := w.version, nextFile := w.nextFile, lastSequence := last,
                              history := st.history + all), all)
  {
    hide Inv, InsertAll;
    RecoveredMore(st, w, ops, Gap(last - w.lastSequence));
    UnusedInsertsNothing(w.mem, last - w.lastSequence, w.lastSequence + 1);
  }

  method ReplayLog(crc: LogWriter.Checksum, file: Slice, rank: Ranking, full: nat -> bool, reuse: bool, tableSize: nat,
                   version: Levels, nextFile: nat, ghost st: State, ghost batches: seq<Logged>)
    returns (mem: seq<Entry>, next: Levels, nextNumber: nat, maxSequence: nat, ghost w: State)
    requires Inv(st) && st.mem == [] && st.imm.None? && version == st.version && nextFile == st.nextFile
    requires Loggable(st.lastSequence, batches)
    requires file <= LogWriter.Log(crc, 0, Records(st.lastSequence, batches))
    ensures var k := CompleteIn(crc, file, st.lastSequence, batches);
            && Recovered(st, w, HistoryOf(rank, st.lastSequence, batches[..k]))
            && maxSequence == if k == 0 then 0 else w.lastSequence
    ensures w.mem == mem && w.version == next && w.nextFile == nextNumber && (!reuse ==> mem == [])
    ensures TablesWritten(mem, full, reuse, nextFile, nextNumber)
  {
    hide Inv, Recovered, Written, Records, LogReader.AllRecords, LogReader.NextRecord, FitsBehind, HistoryOf, EndOf, LogWriter.Log;
    hide LogReader.Complete, Failed, InsertAll, OpsOf, Loggable, LogReader.InStep;
    ghost var records := Records(st.lastSequence, batches);
    ghost var k := LogReader.Complete(crc, 0, records, |file|);
    var reader := new LogReader.Reader(crc, true, file);
    LogReader.CutLogReads(crc, true, records, |file|);
    mem, next, nextNumber, maxSequence := [], version, nextFile, 0;
    var hasMem, compactions := false, 0;
    ghost var i := 0;
    w := st;
    NothingRecovered(st, rank, batches);
    assert LogWriter.Log(crc, 0, records)[..|file|] == file;
    assert records[..k] == records[i..k];
    var record := LogReader.NextLogRecord(reader, records[i..k]);
    while record.Some?
      invariant fresh(reader) && reader.Valid() && reader.crc == crc && reader.checksum && reader.file == file
      invariant i <= k
      invariant record == if i < k then Some(records[i]) else None
      invariant i < k ==> LogReader.AllRecords(crc, true, file, reader.At()) == (records[i + 1..k], [])
      invariant Loggable(st.lastSequence, batches[..i])
      invariant Recovered(st, w, HistoryOf(rank, st.lastSequence, batches[..i]))
      invariant w.mem == mem && w.version == next && w.nextFile == nextNumber
      invariant maxSequence == if i == 0 then 0 else w.lastSequence
      invariant if hasMem then !full(|mem|) else mem == []
      invariant nextNumber == nextFile + compactions && ((forall n: nat :: !full(n)) ==> compactions == 0)
      decreases k - i
    {
      mem, maxSequence := RecoverRecord(rank, record.value, mem, maxSequence, st, w, batches, i);
      WithBatchFields(rank, w, batches[i]);
      w := WithBatch(rank, w, batches[i]);
      hasMem := true;
      i := i + 1;
      if full(|mem|) {
        compactions := compactions + 1;
        next := FlushRecovered(mem, next, nextNumber, tableSize, st, w, HistoryOf(rank, st.lastSequence, batches[..i]));
        mem, hasMem, nextNumber := [], false, nextNumber + 1;
        w := w.(mem := [], version := next, nextFile := nextNumber);
      }
      record := LogReader.NextLogRecord(reader, records[i..k]);
    }
    if hasMem && !(reuse && compactions == 0) {
      next := FlushRecovered(mem, next, nextNumber, tableSize, st, w, HistoryOf(rank, st.lastSequence, batches[..i]));
      mem, nextNumber := [], nextNumber + 1;
      w := w.(mem := [], version := next, nextFile := nextNumber);
    }
  }

  lemma WithBatchFields(rank: Ranking, w: State, b: Logged)
    requires w.lastSequence < b.first
    ensures var x := WithBatch(rank, w, b);
            x.version == w.version && x.nextFile == w.nextFile
  {
  }

  lemma NothingRecovered(st: State, rank: Ranking, batches: seq<Logged>)
    requires Inv(st) && Loggable(st.lastSequence, batches)
    ensures Loggable(st.lastSequence, batches[..0]) && Recovered(st, st, HistoryOf(rank, st.lastSequence, batches[..0]))
  {
    assert batches[..0] == [];
    assert st.history + [] == st.history;
  }
}
