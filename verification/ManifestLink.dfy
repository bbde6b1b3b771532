/** The running store and its manifest together (db/db_impl.cc with db/version_set.cc): whatever step the store takes, the
    set of versions takes it too, and the manifest can be opened again at every point. */
module ManifestLink {
  import opened InternalKeys
  import opened Coding
  import VE = VersionEdit
  import opened Version
  import opened InputSelection
  import opened VersionBuilder
  import opened Compaction
  import opened MergeDown
  import opened MemTableFlush
  import opened Database
  import Runs
  import opened Recovery
  import opened DurableRuns
  import M = Manifest
  import VS = VersionSet

  /** Numbers once added to the version were handed out before, and a file was never at a deeper level than it is now: so a
      file moved down is new to its level. */
  ghost predicate FilesSink(v: Levels, edits: seq<Edit>, next: nat) {
    && |v| == NUM_LEVELS
    && (forall l, f :: 0 <= l < NUM_LEVELS && f in AddedFiles(edits, l) ==> f.number < next)
    && (forall l, m, f, g :: 0 <= l < m < NUM_LEVELS && f in v[l] && g in AddedFiles(edits, m) ==> f.number != g.number)
  }

  /** The set of versions is that of the store, and its manifest is not behind the tables. */
  ghost predicate Linked(v: VS.VersionSet, d: Durable)
    reads v, if v.descriptorLog != null then {v.descriptorLog} else {}
  {
    && v.Valid() && v.descriptorLog != null
    && v.current == d.st.version && v.nextFileNumber == d.st.nextFile && v.lastSequence == d.st.lastSequence
    && d.base <= v.recorded.lastSequence <= v.lastSequence
    && NumbersUnique(v.current, v.recorded.nextFile) && v.recorded.nextFile <= v.nextFileNumber
    && FilesSink(v.current, v.Base(), v.nextFileNumber)
  }

  // ---------------------------------------------------------------- steps that change the version

  /** The edit that a step installs. */
  ghost predicate Begins(st: State, step: Runs.Step, change: Edit) {
    match step
    case Flush =>
      && st.imm.Some?
      && if st.imm.value == [] then change == Edit({}, [])
         else exists level, size :: 0 <= level < |st.version| && FitsAt(st.version, level, UserRangeOf(st.imm.value))
                && change == Edit({}, [(level, TableOf(st.nextFile, size, st.imm.value))])
    case Move(level, f) =>
      && level + 1 < NUM_LEVELS == |st.version| && Selected(st.version, level, [f], [])
      && change == CompactionEdit(level, [f], [], [f])
    case Compact(level, in0, in1, merged, outputs) =>
      && level + 1 < NUM_LEVELS == |st.version| && Selected(st.version, level, in0, in1)
      && Sorted(merged) && Elements(merged) == InputEntries(in0, in1) && NewTables(outputs, st.nextFile)
      && Flatten(Contents(outputs)) == Kept(st.version, level, SmallestSnapshot(st.snapshots, st.lastSequence), merged, |merged|)
      && change == CompactionEdit(level, in0, in1, outputs)
    case _ => false
  }

  /** How many file numbers the step takes for its tables. */
  function NumbersFor(step: Runs.Step): nat {
    match step
    case Flush => 1
    case Compact(_, _, _, _, outputs) => |outputs|
    case _ => 0
  }

  /** The store once the step's version is installed. */
  ghost function Installed(d: Durable, step: Runs.Step, v: Levels): Durable {
    var st := d.st.(version := v, nextFile := d.st.nextFile + NumbersFor(step));
    if step.Flush? then Durable(st.(imm := None), d.mid, d.mid, NO_LOG, d.recent, d.dead) else d.(st := st)
  }

  lemma InstallIsStep(rank: Ranking, d: Durable, step: Runs.Step, change: Edit, v: Levels)
    requires Begins(d.st, step, change) && Installs(d.st.version, change, v)
    ensures Takes(rank, d, Change(step), Installed(d, step, v))
  {
    hide Installs, Selected, Kept, CompactionEdit, FitsAt;
    match step
    case Flush => assert Flushed(d.st, Installed(d, step, v).st);
    case Move(level, f) =>
    case Compact(level, in0, in1, merged, outputs) =>
  }

  /** All files that an edit adds go to one level, under new numbers. */
  ghost predicate AddsNew(change: Edit, level: nat, first: nat, count: nat) {
    && (forall p <- change.added :: p.0 == level && first <= p.1.number < first + count)
    && (forall i, j :: 0 <= i < j < |change.added| ==> change.added[i].1.number != change.added[j].1.number)
  }

  lemma NewFilesFresh(v: Levels, edits: seq<Edit>, change: Edit, level: nat, next: nat, count: nat)
    requires FilesSink(v, edits, next) && level < NUM_LEVELS && AddsNew(change, level, next, count)
    ensures AddsFresh(EMPTY_VERSION, edits, change)
  {
    hide AddedFiles;
    assert EMPTY_VERSION[level] == [];
  }

  lemma NewFilesSink(v: Levels, edits: seq<Edit>, change: Edit, w: Levels, level: nat, next: nat, count: nat)
    requires FilesSink(v, edits, next) && NumbersUnique(v, next) && level < NUM_LEVELS
    requires AddsNew(change, level, next, count) && Installs(v, change, w)
    ensures FilesSink(w, edits + [change], next + count)
  {
    var all := edits + [change];
    forall l: nat, f | l < NUM_LEVELS && f in w[l] ensures f in v[l] || f in AddedAt(change, l) {
      assert f in Elements(w[l]);
    }
    forall l: nat ensures AddedFiles(all, l) == AddedFiles(edits, l) + AddedAt(change, l) {
      AddedMore(edits, change, l);
    }
  }

  lemma AddedMore(edits: seq<Edit>, change: Edit, l: nat)
    ensures AddedFiles(edits + [change], l) == AddedFiles(edits, l) + AddedAt(change, l)
  {
    assert (edits + [change])[..|edits|] == edits;
  }

  lemma MovedFileSinks(v: Levels, edits: seq<Edit>, w: Levels, level: nat, f: File, next: nat)
    requires FilesSink(v, edits, next) && NumbersUnique(v, next) && level + 1 < NUM_LEVELS && f in v[level]
    requires Installs(v, CompactionEdit(level, [f], [], [f]), w)
    ensures FilesSink(w, edits + [CompactionEdit(level, [f], [], [f])], next)
  {
    hide AddedFiles, Installs, CompactionEdit;
    MovedFiles(v, w, level, f);
    MovedAdds(edits, level, f);
  }

  lemma MovedAdds(edits: seq<Edit>, level: nat, f: File)
    ensures var change := CompactionEdit(level, [f], [], [f]);
            && change.added == [(level + 1, f)]
            && forall l: nat :: AddedFiles(edits + [change], l) == AddedFiles(edits, l) + if l == level + 1 then {f} else {}
  {
    var change := CompactionEdit(level, [f], [], [f]);
    forall l: nat ensures AddedFiles(edits + [change], l) == AddedFiles(edits, l) + if l == level + 1 then {f} else {} {
      AddedMore(edits, change, l);
      assert change.added == [(level + 1, f)];
      assert AddedAt(change, l) == if l == level + 1 then {f} else {};
    }
  }

  lemma MovedFiles(v: Levels, w: Levels, level: nat, f: File)
    requires |v| == NUM_LEVELS && level + 1 < NUM_LEVELS && Installs(v, CompactionEdit(level, [f], [], [f]), w)
    ensures |w| == NUM_LEVELS
    ensures forall l, g :: 0 <= l < NUM_LEVELS && g in w[l] ==> g in v[l] || (l == level + 1 && g == f)
    ensures forall g <- w[level] :: g.number != f.number
  {
    hide SortedBySmallest;
    var change := CompactionEdit(level, [f], [], [f]);
    MovedAdds([], level, f);
    assert f in [f];
    forall l, g | 0 <= l < NUM_LEVELS && g in w[l] ensures g in v[l] || (l == level + 1 && g == f) {
      assert g in Elements(w[l]) && Elements(w[l]) == FilesAfter(Elements(v[l]), change, l);
      assert g in Elements(v[l]) || g in AddedAt(change, l);
    }
    forall g | g in w[level] ensures g.number != f.number {
      assert g in Elements(w[level]) && Elements(w[level]) == FilesAfter(Elements(v[level]), change, level);
      assert (level, f.number) in change.deleted;
    }
  }

  /** The level that a step adds new tables to. */
  lemma StepIsNew(st: State, step: Runs.Step, change: Edit) returns (level: nat)
    requires !step.Move? && Begins(st, step, change)
    ensures level < NUM_LEVELS || |st.version| != NUM_LEVELS
    ensures AddsNew(change, level, st.nextFile, NumbersFor(step))
  {
    hide Kept, FitsAt, CompactionEdit;
    match step
    case Flush =>
      if st.imm.value == [] {
        level := 0;
      } else {
        var size;
        level, size :| 0 <= level < |st.version| && FitsAt(st.version, level, UserRangeOf(st.imm.value))
                         && change == Edit({}, [(level, TableOf(st.nextFile, size, st.imm.value))]);
      }
    case Compact(l, in0, in1, merged, outputs) =>
      level := l + 1;
      OutputsAreNew(l, in0, in1, outputs, st.nextFile);
  }

  lemma StepAddsFresh(st: State, step: Runs.Step, edits: seq<Edit>, change: Edit)
    requires Inv(st) && FilesSink(st.version, edits, st.nextFile) && Begins(st, step, change)
    ensures AddsFresh(EMPTY_VERSION, edits, change)
  {
    hide Kept, FitsAt, AddedFiles, CompactionEdit, Inv, Selected;
    UniqueNumbers(st);
    if step.Move? {
      MovedAdds(edits, step.level, step.file);
      SelectedFile(st.version, step.level, step.file);
      assert EMPTY_VERSION[step.level + 1] == [];
    } else {
      var level := StepIsNew(st, step, change);
      NewFilesFresh(st.version, edits, change, level, st.nextFile, NumbersFor(step));
    }
  }

  lemma SelectedFile(v: Levels, level: nat, f: File)
    requires level + 1 < |v| && Selected(v, level, [f], [])
    ensures f in v[level]
  {
    assert f in [f];
  }

  lemma StepSinks(st: State, step: Runs.Step, edits: seq<Edit>, change: Edit, v: Levels)
    requires Inv(st) && FilesSink(st.version, edits, st.nextFile) && Begins(st, step, change) && Installs(st.version, change, v)
    ensures FilesSink(v, edits + [change], st.nextFile + NumbersFor(step))
  {
    hide FilesSink, Installs, Kept, FitsAt, AddedFiles, CompactionEdit, Inv, Selected;
    UniqueNumbers(st);
    if step.Move? {
      SelectedFile(st.version, step.level, step.file);
      MovedFileSinks(st.version, edits, v, step.level, step.file, st.nextFile);
    } else {
      var level := StepIsNew(st, step, change);
      NewFilesSink(st.version, edits, change, v, level, st.nextFile, NumbersFor(step));
    }
  }

  lemma UniqueNumbers(st: State)
    requires Inv(st)
    ensures NumbersUnique(st.version, st.nextFile) && |st.version| == NUM_LEVELS
  {
  }

  lemma OutputsAreNew(level: nat, in0: seq<File>, in1: seq<File>, outputs: seq<File>, next: nat)
    requires NewTables(outputs, next)
    ensures AddsNew(CompactionEdit(level, in0, in1, outputs), level + 1, next, |outputs|)
  {
  }

  /** File numbers stay unique, whether the step is guarded or not. */
  lemma StepNumbers(rank: Ranking, d: Durable, step: Runs.Step, change: Edit, v: Levels)
    requires DInv(rank, d) && Begins(d.st, step, change) && Installs(d.st.version, change, v)
    ensures NumbersUnique(v, d.st.nextFile + NumbersFor(step))
  {
    hide Inv, Installs, Kept, CompactionEdit, Logs, NumbersUnique, Structured, Flushed, Moved, Compacted, Begins;
    InstallIsStep(rank, d, step, change, v);
    BeginsOnlyThese(d.st, step, change);
    var w := Installed(d, step, v).st;
    match step
    case Flush =>
      FlushKeepsInv(d.st, w);
      UniqueNumbers(w);
    case Move(level, f) =>
      MoveKeepsInv(d.st, level, f, w);
      UniqueNumbers(w);
    case Compact(level, in0, in1, merged, outputs) =>
      CompactionStructure(d.st, level, in0, in1, merged, outputs, w);
      StructuredNumbers(w);
  }

  lemma BeginsOnlyThese(st: State, step: Runs.Step, change: Edit)
    requires Begins(st, step, change)
    ensures step.Flush? || step.Move? || step.Compact?
  {
  }

  lemma StructuredNumbers(st: State)
    requires Structured(st)
    ensures NumbersUnique(st.version, st.nextFile)
  {
  }

  /** A flush, a move or a compaction: hand out the numbers of its tables and install its edit. The state machine takes the
      step, and the set of versions stays with it. */
  method Install(v: VS.VersionSet, edit: VE.VersionEdit, numbers: nat, ghost rank: Ranking, ghost d: Durable, ghost step: Runs.Step)
    returns (ghost e: Durable)
    requires Linked(v, d) && DInv(rank, d) && numbers == NumbersFor(step) && v.nextFileNumber + numbers < TWO_64
    requires Begins(d.st, step, M.EditOf(v.read, v.tables, edit.Now()))
    requires VS.FieldsFit(edit.Now()) && (edit.comparator.Some? ==> edit.comparator.value == v.comparator)
    requires edit.logNumber.Some? ==> v.logNumber <= edit.logNumber.value < v.nextFileNumber + numbers
    modifies v, edit, if v.descriptorLog != null then {v.descriptorLog} else {}
    ensures Takes(rank, d, Change(step), e) && Linked(v, e) && v.descriptorLog == old(v.descriptorLog)
    ensures DInv(rank, e) <==> DiskGuarded(d, Change(step))
  {
    hide DInv, Begins, Takes, FilesSink, VS.Describes, VS.AllRecordable, AddsFresh, AddedOnce, Installs, VS.FieldsFit, DiskGuarded;
    ghost var change, before, was := M.EditOf(v.read, v.tables, edit.Now()), v.Base(), v.current;
    v.nextFileNumber := v.nextFileNumber + numbers;
    StoreInv(rank, d);
    StepAddsFresh(d.st, step, before, change);
    assert v.Base() == before;
    v.LogAndApply(edit);
    e := Installed(d, step, v.current);
    InstallIsStep(rank, d, step, change, v.current);
    StepSinks(d.st, step, before, change, v.current);
    StepNumbers(rank, d, step, change, v.current);
    DStepExact(rank, d, Change(step), e);
  }

  lemma StoreInv(rank: Ranking, d: Durable)
    requires DInv(rank, d)
    ensures Inv(d.st) && d.base <= d.mid <= d.st.lastSequence == |d.st.history|
  {
  }

  /** Every other step: the counters move on, and the manifest stays as it is. */
  method Advance(v: VS.VersionSet, lastSequence: uint64, nextFile: uint64, ghost rank: Ranking, ghost d: Durable, ghost step: Step,
                 ghost e: Durable)
    requires Linked(v, d) && Takes(rank, d, step, e)
    requires step.Change? ==> !step.step.Flush? && !step.step.Move? && !step.step.Compact?
    requires lastSequence == e.st.lastSequence && nextFile == e.st.nextFile
    modifies v`lastSequence, v`nextFileNumber
    ensures Linked(v, e)
  {
    hide VS.Describes, VS.AllRecordable, AddedFiles, InsertAll;
    v.lastSequence, v.nextFileNumber := lastSequence, nextFile;
  }

  /** The first edit after opening brings the tables that were written from the logs, if there were any; with it the manifest
      begins, as a snapshot of the version that the older manifest gave. */
  method Begin(v: VS.VersionSet, edit: VE.VersionEdit, ghost rank: Ranking, ghost d: Durable, ghost first: nat, ghost count: nat)
    requires v.Valid() && v.descriptorLog == null && DInv(rank, d)
    requires v.nextFileNumber == d.st.nextFile && v.lastSequence == d.st.lastSequence
    requires NumbersUnique(v.current, first) && first + count <= v.nextFileNumber
    requires AddsNew(M.EditOf(v.read, v.tables, edit.Now()), 0, first, count)
    requires Installs(v.current, M.EditOf(v.read, v.tables, edit.Now()), d.st.version)
    requires VS.FieldsFit(edit.Now()) && (edit.comparator.Some? ==> edit.comparator.value == v.comparator)
    requires edit.logNumber.Some? ==> v.logNumber <= edit.logNumber.value < v.nextFileNumber
    modifies v, edit
    ensures Linked(v, d) && fresh(v.descriptorLog)
  {
    hide DInv, FilesSink, VS.Describes, AddsFresh, AddsNew, Installs, VS.FieldsFit, NumbersUnique, VS.Recordable, SortedBySmallest;
    StoreInv(rank, d);
    UniqueNumbers(d.st);
    ghost var was, change := v.current, M.EditOf(v.read, v.tables, edit.Now());
    SnapshotSinks(was, first);
    NewFilesFresh(was, [SnapshotEdit(was)], change, 0, first, count);
    NewFilesSink(was, [SnapshotEdit(was)], change, d.st.version, 0, first, count);
    v.LogAndApply(edit);
    InstalledIsUnique(was, change, v.current, d.st.version);
    MoreNumbersSink(v.current, [SnapshotEdit(was)] + [change], first + count, v.nextFileNumber);
  }

  lemma SnapshotSinks(v: Levels, next: nat)
    requires |v| == NUM_LEVELS && NumbersUnique(v, next) && forall l :: 0 <= l < NUM_LEVELS ==> DistinctNumbers(v[l])
    ensures FilesSink(v, [SnapshotEdit(v)], next)
  {
    hide SnapshotEdit, AddedFiles;
    SnapshotAlone(v);
  }

  lemma InstalledIsUnique(v: Levels, change: Edit, a: Levels, b: Levels)
    requires Installs(v, change, a) && Installs(v, change, b)
    ensures a == b
  {
    hide SortedBySmallest;
    forall l | 0 <= l < NUM_LEVELS ensures a[l] == b[l] {
      SortedIsUnique(a[l], b[l]);
    }
  }

  lemma MoreNumbersSink(v: Levels, edits: seq<Edit>, next: nat, more: nat)
    requires FilesSink(v, edits, next) && next <= more
    ensures FilesSink(v, edits, more)
  {
    hide AddedFiles;
  }
}
