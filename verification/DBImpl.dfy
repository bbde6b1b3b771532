/** The store as an object (db/db_impl.cc): each method performs one step of the state machine. */
module DBImpl {
  import opened InternalKeys
  import opened SortedRuns
  import opened Version
  import opened InputSelection
  import opened VersionBuilder
  import C = Compaction
  import opened CompactionReads
  import opened MergeDown
  import opened MemTableFlush
  import opened Database
  import opened Runs
  import opened ChildRuns
  import DBIter
  import M = MergingIterator

  // ---------------------------------------------------------------- the view of an iterator

  /** `view` lists the keys and values of `store`, each key once and in order. */
  ghost predicate Lists(view: seq<Entry>, store: map<UserKey, Slice>) {
    && (forall a, b :: 0 <= a < b < |view| ==> view[a].k.user < view[b].k.user)
    && (forall u, v :: (u in store && store[u] == v) <==> Shows(view, u, v))
  }

  ghost predicate Shows(view: seq<Entry>, u: UserKey, v: Slice) {
    exists k :: 0 <= k < |view| && view[k].k.user == u && view[k].v == v
  }

  /** What a user iterator over all entries of the store shows is the replayed store at its sequence number. */
  lemma ViewIsStore(st: State, es: seq<Entry>, s: nat)
    requires Inv(st) && Sorted(es) && Elements(es) == All(st)
    requires SmallestSnapshot(st.snapshots, st.lastSequence) <= s <= st.lastSequence
    ensures Lists(DBIter.View(es, s), Store(st.history, s))
  {
    var view := DBIter.View(es, s);
    MatchedIsUnambiguous(st);
    forall a, b | 0 <= a < b < |view| ensures view[a].k.user < view[b].k.user {
      DBIter.ViewAscends(es, s, a, b);
    }
    forall u, v ensures (u in Store(st.history, s) && Store(st.history, s)[u] == v) <==> Shows(view, u, v) {
      var r := NewestExists(Elements(es), u, s);
      DBIter.ViewHoldsNewest(es, s, u, v, r);
      assert ReadsAs(All(st), u, s, ReadStore(st.history, s, u));
    }
  }

  // ---------------------------------------------------------------- the store

  class DBImpl {
    var mem: seq<Entry>
    var imm: Option<seq<Entry>>
    var version: Levels
    var snapshots: seq<nat>
    var lastSequence: nat
    var nextFileNumber: nat
    var compactPointer: seq<Option<IKey>>
    ghost var history: seq<Op>

    ghost function Abstract(): State
      reads this
    {
      State(mem, imm, version, snapshots, lastSequence, nextFileNumber, history)
    }

    ghost predicate Valid()
      reads this
    {
      Inv(Abstract()) && |compactPointer| == NUM_LEVELS
    }

    constructor ()
      ensures Valid() && Abstract() == EMPTY_STORE
    {
      mem, imm, version := [], None, EMPTY_VERSION;
      snapshots, lastSequence, nextFileNumber := [], 0, 2;
      compactPointer := seq(NUM_LEVELS, _ => None);
      history := [];
      new;
      EmptyStoreInv();
    }

    /** A read at the last sequence number, or at a live snapshot, returns what the replayed history holds. */
    method Get(u: UserKey, snapshot: Option<nat>) returns (value: Option<Slice>)
      requires Valid()
      requires snapshot.Some? ==> snapshot.value in snapshots
      ensures value == ReadStore(history, if snapshot.Some? then snapshot.value else |history|, u)
    {
      var s := if snapshot.Some? then snapshot.value else lastSequence;
      var inMem := RunGet(mem, u, s);
      RunGetFindsNewest(mem, u, s);
      var inImm, inVersion := None, None;
      if imm.Some? {
        RunGetFindsNewest(imm.value, u, s);
        inImm := RunGet(imm.value, u, s);
      }
      if inMem.None? && inImm.None? {
        inVersion := Version.Get(version, u, s);
      }
      LayeredAnswer(Abstract(), u, s, inMem, inImm, inVersion);
      value := ValueOf(if inMem.Some? then inMem else if inImm.Some? then inImm else inVersion);
    }

    /** An iterator at the last sequence number or at a live snapshot: its view lists the replayed store. */
    method NewIterator(snapshot: Option<nat>) returns (it: DBIter.DBIter)
      requires Valid()
      requires snapshot.Some? ==> snapshot.value in snapshots
      ensures fresh(it) && fresh(it.iter) && it.Invariant() && !it.valid
      ensures Lists(DBIter.View(it.Es(), it.sequence),
                    Store(history, if snapshot.Some? then snapshot.value else |history|))
    {
      var s := if snapshot.Some? then snapshot.value else lastSequence;
      StoreRunsGood(Abstract());
      var inner := new M.MergingIterator(StoreRuns(mem, imm, version));
      it := new DBIter.DBIter(inner, s);
      ViewIsStore(Abstract(), it.Es(), s);
    }

    /** Apply a batch: consecutive sequence numbers, one insertion each. */
    method Write(ops: seq<Update>)
      requires Valid() && lastSequence + |ops| < MAX_SEQUENCE
      modifies this
      ensures Takes(old(Abstract()), Step.Write(ops), Abstract()) && Valid()
    {
      hide Inv, InsertAll, Flushed, Moved, Compacted;
      var table := InsertInto(mem, ops, lastSequence + 1);
      ghost var w := Written(Abstract(), ops);
      WriteKeepsInv(Abstract(), ops);
      mem, lastSequence := table, lastSequence + |ops|;
      history := history + ops;
      assert Abstract() == w;
    }

    /** A write whose log record cannot be written: nothing is applied, and the sequence numbers are used up. */
    method FailedWrite(count: nat)
      requires Valid() && lastSequence + count < MAX_SEQUENCE
      modifies this
      ensures Takes(old(Abstract()), Step.Fail(count), Abstract()) && Valid()
      ensures mem == old(mem) && version == old(version)
    {
      hide Inv;
      ghost var ops := seq(count, _ => Unused);
      UnusedInsertsNothing(mem, count, lastSequence + 1);
      WriteKeepsInv(Abstract(), ops);
      ghost var w := Failed(Abstract(), count);
      lastSequence := lastSequence + count;
      history := history + ops;
      assert Abstract() == w;
    }

    /** MakeRoomForWrite, when the memtable is full and no other one waits to be flushed. */
    method SwitchMemTable()
      requires Valid() && imm.None?
      modifies this
      ensures Takes(old(Abstract()), Step.Switch, Abstract()) && Valid()
    {
      SwitchKeepsInv(Abstract());
      imm, mem, nextFileNumber := Some(mem), [], nextFileNumber + 1;
    }

    method GetSnapshot() returns (s: nat)
      requires Valid()
      modifies this
      ensures Takes(old(Abstract()), Step.TakeSnapshot, Abstract()) && Valid()
      ensures s == lastSequence
    {
      SnapshotKeepsInv(Abstract());
      s := lastSequence;
      snapshots := snapshots + [s];
    }

    method ReleaseSnapshot(i: nat)
      requires Valid() && i < |snapshots|
      modifies this
      ensures Takes(old(Abstract()), Step.ReleaseSnapshot(i), Abstract()) && Valid()
    {
      ReleaseKeepsInv(Abstract(), i);
      snapshots := snapshots[..i] + snapshots[i + 1..];
    }

    /** Flush the immutable memtable to a table of the level that PickLevelForMemTableOutput chooses. */
    method CompactMemTable(tableSize: nat, grandparentLimit: nat)
      requires Valid() && imm.Some?
      modifies this
      ensures Takes(old(Abstract()), Step.Flush, Abstract()) && Valid()
      ensures GoesWherePicked(old(version), old(imm.value), grandparentLimit, old(nextFileNumber), tableSize, version)
    {
      ghost var st := Abstract();
      var next := FlushTable(imm.value, nextFileNumber, version, tableSize, grandparentLimit, st);
      imm, version, nextFileNumber := None, next, nextFileNumber + 1;
      assert Abstract() == st.(imm := None, version := next, nextFile := st.nextFile + 1);
    }

    /** A compaction the store picks itself: a trivial move when nothing has to be merged, otherwise a merge. The step
        taken is one of the state machine, and the store stays valid exactly when that step is guarded. */
    method BackgroundCompaction(level: nat, seekFile: Option<File>, limits: Limits) returns (ghost step: Step)
      requires Valid() && level + 1 < NUM_LEVELS
      requires if seekFile.Some? then seekFile.value in version[level] else version[level] != []
      modifies this
      ensures Takes(old(Abstract()), step, Abstract())
      ensures Valid() <==> Guarded(old(Abstract()), step)
      ensures PointerBehind(step, level, old(compactPointer), compactPointer)
      ensures InTurn(old(version), level, old(compactPointer[level]), seekFile, limits.bytes, step)
      ensures MovesIfTrivial(old(version), level, limits.grandparentLimit, step)
    {
      hide Selected, ValidVersion, IsRange, CompletedFrom, NextInTurn, StartsFrom, Inv, Takes, Guarded, AreGrandparents, OutputsWithinReach;
      ghost var st := Abstract();
      ValidLevels(st);
      ghost var picked;
      var in0, in1, pointer;
      in0, in1, pointer, picked := PickCompaction(version, level, compactPointer[level], seekFile, limits.bytes);
      compactPointer := compactPointer[level := Some(pointer)];
      var grandparents := FindGrandparents(version, level, in0, in1);
      if IsTrivialMove(in0, in1, grandparents, limits.grandparentLimit) {
        assert in0 == [in0[0]] && in1 == [];
        version := MoveFile(version, level, in0[0], st);
        step := Step.Move(level, in0[0]);
        assert Abstract() == st.(version := version);
        MoveIsStep(st, level, in0[0], Abstract());
      } else {
        step := MergeSelected(level, in0, in1, grandparents, limits);
      }
    }

    /** A compaction of a requested range of one level; nothing happens when no file meets the range. */
    method CompactLevelRange(level: nat, range: Range, sizeLimit: nat, limits: Limits) returns (done: bool, ghost step: Step)
      requires Valid() && level + 1 < NUM_LEVELS
      modifies this
      ensures done <==> forall f <- old(version[level]) :: !Overlaps(f, range)
      ensures done ==> Abstract() == old(Abstract()) && Valid()
      ensures !done ==> Takes(old(Abstract()), step, Abstract()) && (Valid() <==> Guarded(old(Abstract()), step))
      ensures if done then compactPointer == old(compactPointer) else PointerBehind(step, level, old(compactPointer), compactPointer)
      ensures !done ==> OnRequest(old(version), level, range, sizeLimit, limits.bytes, step)
      ensures !done ==> MergesWithinReach(old(version), level, limits.grandparentLimit, step)
    {
      hide IsRange, CompletedFrom, Requested, Inv, Takes, Guarded, Selected, AreGrandparents, OutputsWithinReach;
      ValidLevels(Abstract());
      var in0, in1, pointer;
      ghost var start;
      in0, in1, pointer, start := CompactRange(version, level, range, sizeLimit, limits.bytes);
      done := in0 == [];
      step := Step.Switch;
      if !done {
        compactPointer := compactPointer[level := pointer];
        var grandparents := FindGrandparents(version, level, in0, in1);
        step := MergeSelected(level, in0, in1, grandparents, limits);
      }
    }

    method MergeSelected(level: nat, in0: seq<File>, in1: seq<File>, grandparents: seq<File>, limits: Limits) returns (ghost step: Step)
      requires Valid() && level + 1 < NUM_LEVELS
      requires Selected(version, level, in0, in1)
      modifies this
      ensures Takes(old(Abstract()), step, Abstract())
      ensures Valid() <==> Guarded(old(Abstract()), step)
      ensures step.Compact? && step.level == level && step.in0 == in0 && step.in1 == in1 && compactPointer == old(compactPointer)
      ensures OutputsWithinReach(step, grandparents, limits.grandparentLimit)
    {
      hide Inv, Takes, Guarded, Selected, ValidVersion;
      ghost var st := Abstract();
      var next, outputs, merged;
      next, outputs, merged := MergeFiles(version, level, in0, in1, SmallestSnapshot(snapshots, lastSequence), nextFileNumber, grandparents,
                                            limits, st);
      step := Step.Compact(level, in0, in1, merged, outputs);
      ghost var w := st.(version := next, nextFile := st.nextFile + |outputs|);
      StepExact(st, step, w);
      version, nextFileNumber := next, nextFileNumber + |outputs|;
      assert Abstract() == w;
    }
  }

  /** The next compaction of the level starts behind the largest key of this one's inputs from it. */
  ghost predicate PointerBehind(step: Step, level: nat, before: seq<Option<IKey>>, after: seq<Option<IKey>>) {
    var inputs := InputsOf(step).0;
    level < |before| && exists smallest, largest :: IsRange(inputs, smallest, largest) && after == before[level := Some(largest)]
  }

  function InputsOf(step: Step): (seq<File>, seq<File>) {
    if step.Move? then ([step.file], []) else if step.Compact? then (step.in0, step.in1) else ([], [])
  }

  /** The step compacts the file that was asked for by its seeks, or else the next one in turn, with what has to go along. */
  ghost predicate InTurn(v: Levels, level: nat, pointer: Option<IKey>, seekFile: Option<File>, byteLimit: nat, step: Step) {
    level + 1 < |v| && exists f, start ::
      && (if seekFile.Some? then f == seekFile.value else NextInTurn(v[level], pointer, f))
      && StartsFrom(v[level], level, f, start) && CompletedFrom(v, level, start, byteLimit, InputsOf(step).0, InputsOf(step).1)
  }

  /** No output of the step reaches over too much of the level below. */
  ghost predicate OutputsWithinReach(step: Step, grandparents: seq<File>, limit: nat) {
    step.Compact? && forall o <- step.outputs :: C.WithinReach(grandparents, limit, o.entries)
  }

  ghost predicate MergesWithinReach(v: Levels, level: nat, limit: nat, step: Step) {
    exists grandparents ::
      AreGrandparents(v, level, InputsOf(step).0, InputsOf(step).1, grandparents) && OutputsWithinReach(step, grandparents, limit)
  }

  /** A single file is moved just if nothing has to be merged with it and it meets not too much of the level below. */
  ghost predicate MovesIfTrivial(v: Levels, level: nat, limit: nat, step: Step) {
    exists grandparents ::
      && AreGrandparents(v, level, InputsOf(step).0, InputsOf(step).1, grandparents)
      && if IsTrivialMove(InputsOf(step).0, InputsOf(step).1, grandparents, limit) then step.Move?
         else OutputsWithinReach(step, grandparents, limit)
  }

  /** The step compacts what was requested, with what has to go along. */
  ghost predicate OnRequest(v: Levels, level: nat, range: Range, sizeLimit: nat, byteLimit: nat, step: Step) {
    level + 1 < |v| && exists start ::
      Requested(v[level], level, range, sizeLimit, start) && CompletedFrom(v, level, start, byteLimit, InputsOf(step).0, InputsOf(step).1)
  }

  lemma ValidLevels(st: State)
    requires Inv(st)
    ensures ValidVersion(st.version) && |st.version| == NUM_LEVELS
  {
  }

  lemma MoveIsStep(st: State, level: nat, f: File, w: State)
    requires Inv(st) && Moved(st, level, f, w)
    ensures Takes(st, Step.Move(level, f), w) && Inv(w) && Guarded(st, Step.Move(level, f))
  {
    MoveKeepsInv(st, level, f, w);
  }

  /** The choices a compaction leaves to limits and sizes: where output files end and how large tables are. */
  datatype Limits = Limits(bytes: nat, grandparentLimit: nat, full: nat -> bool, tableSize: nat -> nat)

  lemma CompactionAddedOnce(v: Levels, level: nat, in0: seq<File>, in1: seq<File>, outputs: seq<File>)
    requires |v| == NUM_LEVELS && level + 1 < NUM_LEVELS
    requires DistinctNumbers(outputs)
    requires forall o, g :: o in outputs && g in v[level + 1] ==> o.number != g.number
    ensures AddedOnce(v, [CompactionEdit(level, in0, in1, outputs)])
  {
    var edit := CompactionEdit(level, in0, in1, outputs);
    assert [edit][..0] == [];
    assert AddedFiles([], level + 1) == {};
    forall p | p in edit.added ensures p.0 == level + 1 && p.1 in outputs {
      var i :| 0 <= i < |outputs| && edit.added[i] == p;
    }
  }

  /** Move one file a level down. */
  method MoveFile(version: Levels, level: nat, f: File, ghost st: State) returns (next: Levels)
    requires Inv(st) && version == st.version && level + 1 < NUM_LEVELS
    requires Selected(version, level, [f], [])
    ensures var w := st.(version := next);
            Takes(st, Step.Move(level, f), w) && Inv(w)
  {
    assert f in [f];
    CompactionAddedOnce(version, level, [f], [], [f]);
    next := LogAndApply(version, CompactionEdit(level, [f], [], [f]));
    MoveKeepsInv(st, level, f, st.(version := next));
  }

  /** Merge the selected inputs, drop what the two rules allow, write the rest into new tables, install the result. */
  method MergeFiles(version: Levels, level: nat, in0: seq<File>, in1: seq<File>, snapshot: nat, nextFile: nat,
                    grandparents: seq<File>, limits: Limits, ghost st: State)
    returns (next: Levels, outputs: seq<File>, merged: seq<Entry>)
    requires Inv(st) && version == st.version && nextFile == st.nextFile && level + 1 < NUM_LEVELS
    requires snapshot == SmallestSnapshot(st.snapshots, st.lastSequence)
    requires Selected(version, level, in0, in1)
    ensures Takes(st, Step.Compact(level, in0, in1, merged, outputs), st.(version := next, nextFile := st.nextFile + |outputs|))
    ensures forall o <- outputs :: C.WithinReach(grandparents, limits.grandparentLimit, o.entries)
  {
    hide C.WithinReach, C.Kept, C.Flatten, Selected, ReadsAs, ReadStore, All, CompactionEdit, Installs;
    merged := MergeInputs(version, level, in0, in1);
    outputs := WriteTables(version, level, merged, snapshot, nextFile, grandparents, limits);
    OutputsFresh(version, level, merged, snapshot, nextFile, outputs);
    CompactionAddedOnce(version, level, in0, in1, outputs);
    next := LogAndApply(version, CompactionEdit(level, in0, in1, outputs));
  }

  lemma OutputsFresh(version: Levels, level: nat, input: seq<Entry>, snapshot: nat, nextFile: nat, outputs: seq<File>)
    requires Sorted(input) && NewTables(outputs, nextFile)
    requires C.Flatten(Contents(outputs)) == C.Kept(version, level, snapshot, input, |input|)
    ensures DistinctNumbers(outputs) && forall o <- outputs :: o.number >= nextFile
  {
    C.KeptEntries(version, level, snapshot, input, |input|);
    OutputsAreTables(outputs, nextFile);
  }

  /** Run the compaction loop and give each of its outputs a table under the next free number. */
  method WriteTables(version: Levels, level: nat, input: seq<Entry>, snapshot: nat, nextFile: nat, grandparents: seq<File>,
                     limits: Limits) returns (outputs: seq<File>)
    requires ValidVersion(version) && level + 1 < NUM_LEVELS
    requires Sorted(input) && snapshot < MAX_SEQUENCE
    ensures NewTables(outputs, nextFile)
    ensures C.Flatten(Contents(outputs)) == C.Kept(version, level, snapshot, input, |input|)
    ensures forall o <- outputs :: C.WithinReach(grandparents, limits.grandparentLimit, o.entries)
    ensures C.CutAsTold(C.Work(version, level, snapshot, input, grandparents, limits.grandparentLimit, seq(|input|, limits.full)),
                        Contents(outputs))
  {
    hide C.CutAsTold, C.Flatten, C.Kept, Sorted, ValidVersion;
    var compaction := new C.Compaction(version, level, grandparents, limits.grandparentLimit);
    var parts := compaction.DoCompactionWork(input, snapshot, seq(|input|, limits.full));
    outputs := [];
    for i := 0 to |parts|
      invariant |outputs| == i && NewTables(outputs, nextFile)
      invariant forall j :: 0 <= j < i ==> outputs[j].entries == parts[j]
      invariant forall o <- outputs :: C.WithinReach(grandparents, limits.grandparentLimit, o.entries)
    {
      assert parts[i] in parts;
      outputs := outputs + [TableOf(nextFile + i, limits.tableSize(i), parts[i])];
    }
    TablesHold(outputs, parts);
  }

  lemma TablesHold(files: seq<File>, parts: seq<seq<Entry>>)
    requires |files| == |parts| && forall i :: 0 <= i < |files| ==> files[i].entries == parts[i]
    ensures Contents(files) == parts
  {
  }

  /** WriteBatchInternal::InsertInto: walk the batch and add one entry per operation. */
  method InsertInto(mem: seq<Entry>, ops: seq<Update>, seqno: nat) returns (table: seq<Entry>)
    ensures table == InsertAll(mem, ops, seqno)
  {
    hide Insert, EntryOf;
    table := mem;
    ghost var all: seq<Op> := ops;
    assert all[..0] == [];
    for i := 0 to |ops|
      invariant table == InsertAll(mem, all[..i], seqno)
    {
      assert all[..i + 1] == all[..i] + [all[i]];
      InsertAllSnoc(mem, all[..i], all[i], seqno);
      table := Insert(table, EntryOf(ops[i], seqno + i));
    }
    assert all[..|all|] == all;
  }

  /** The edit that records the table of a memtable; an empty memtable makes no table. */
  method WriteLevel0Table(run: seq<Entry>, number: nat, version: Levels, tableSize: nat, grandparentLimit: nat, ghost st: State)
    returns (edit: Edit)
    requires Inv(st) && version == st.version && number == st.nextFile
    requires forall l :: 0 <= l < NUM_LEVELS ==> Encodable(version[l])
    ensures AddedOnce(version, [edit])
    ensures run == [] ==> edit == Edit({}, [])
    ensures run != [] ==> exists level :: 0 <= level < NUM_LEVELS && FitsAt(version, level, UserRangeOf(run))
                            && Picked(version, UserRangeOf(run), grandparentLimit, level)
                            && edit == Edit({}, [(level, TableOf(number, tableSize, run))])
  {
    edit := Edit({}, []);
    assert [edit][..0] == [];
    assert AddsFresh(version, [], edit);
    if run != [] {
      var table := TableOf(number, tableSize, run);
      var level := PickLevelForMemTableOutput(version, table.smallest.user, table.largest.user, grandparentLimit);
      edit := Edit({}, [(level, table)]);
      assert FitsAt(version, level, UserRangeOf(run));
      FreshTableAddedOnce(st, level, table);
    }
  }

  /** The memtable's table is added to the level that is picked for its range, and nothing else changes. */
  ghost predicate GoesWherePicked(v: Levels, run: seq<Entry>, grandparentLimit: nat, number: nat, size: nat, w: Levels) {
    |v| == NUM_LEVELS &&
    if run == [] then Installs(v, Edit({}, []), w)
    else exists level :: 0 <= level < NUM_LEVELS && Picked(v, UserRangeOf(run), grandparentLimit, level)
           && Installs(v, Edit({}, [(level, TableOf(number, size, run))]), w)
  }

  /** Write the table and install the edit: the version after the flush. */
  method FlushTable(run: seq<Entry>, number: nat, version: Levels, tableSize: nat, grandparentLimit: nat, ghost st: State)
    returns (next: Levels)
    requires Inv(st) && st.imm == Some(run) && version == st.version && number == st.nextFile
    ensures var w := st.(imm := None, version := next, nextFile := st.nextFile + 1);
            Takes(st, Step.Flush, w) && Inv(w)
    ensures GoesWherePicked(version, run, grandparentLimit, number, tableSize, next)
  {
    KeysAreEncodable(st);
    var edit := WriteLevel0Table(run, number, version, tableSize, grandparentLimit, st);
    next := LogAndApply(version, edit);
    ghost var w := st.(imm := None, version := next, nextFile := st.nextFile + 1);
    assert Flushed(st, w);
    FlushKeepsInv(st, w);
  }

  lemma KeysAreEncodable(st: State)
    requires Inv(st)
    ensures forall l :: 0 <= l < NUM_LEVELS ==> Encodable(st.version[l])
  {
    forall l, f | 0 <= l < NUM_LEVELS && f in st.version[l] ensures f.largest.seqno <= MAX_SEQUENCE {
      assert ValidFile(f);
      var e := f.entries[|f.entries| - 1];
      assert f in Elements(st.version[l]) && e in f.entries;
      assert e in EntriesAt(st.version, l);
      assert e in All(st);
    }
  }

  lemma FreshTableAddedOnce(st: State, level: nat, table: File)
    requires Inv(st) && level < NUM_LEVELS && table.number == st.nextFile
    ensures AddedOnce(st.version, [Edit({}, [(level, table)])])
  {
    assert [Edit({}, [(level, table)])][..0] == [];
    assert AddedFiles([], level) == {};
    assert AddsFresh(st.version, [], Edit({}, [(level, table)]));
  }
}
