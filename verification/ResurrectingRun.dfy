/** A whole run that needs its guard: from the empty store, through writes, a snapshot, flushes to the levels that
    PickLevelForMemTableOutput chooses and two compactions of the range of all keys, to a state in which a deleted key
    reads as its old value. The output of the first compaction is cut within key 5, behind its tombstone, which the size of
    the key can bring about. The run passes through the state of BoundaryGuard. */
module ResurrectingRun {
  import opened InternalKeys
  import opened SortedRuns
  import opened Version
  import opened InputSelection
  import opened VersionBuilder
  import opened Compaction
  import opened MergeDown
  import opened MemTableFlush
  import opened Database
  import opened BoundaryGuard
  import opened Runs

  /** Key 5 as it is written first, and key 5 deleted together with a write of key 3. A snapshot in between keeps both. */
  const OLD_TABLE: File := TableOf(3, 1, [RecordOf(1)])
  const NEW_TABLE: File := TableOf(5, 1, [RecordOf(2), RecordOf(3)])
  const FIRST_RUN: seq<Entry> := [RecordOf(2), RecordOf(3), RecordOf(1)]
  /** What the last compaction makes of the upper and the left file. */
  const LAST_TABLE: File := TableOf(10, 1, [RecordOf(4)])

  function TwoLevels(one: seq<File>, two: seq<File>): Levels {
    [[], one, two, [], [], [], []]
  }

  /** The states of the run, one per line with the step that led there. */
  ghost function Trace(): seq<State> {
    [EMPTY_STORE,
     State([RecordOf(1)], None, EMPTY_VERSION, [], 1, 2, HISTORY[..1]),                          // write 5
     State([RecordOf(1)], None, EMPTY_VERSION, [1], 1, 2, HISTORY[..1]),                         // snapshot
     State([], Some([RecordOf(1)]), EMPTY_VERSION, [1], 1, 3, HISTORY[..1]),                     // switch
     State([], None, TwoLevels([], [OLD_TABLE]), [1], 1, 4, HISTORY[..1]),                       // flush to level 2
     State([RecordOf(2), RecordOf(3)], None, TwoLevels([], [OLD_TABLE]), [1], 3, 4, HISTORY[..3]), // write 3, delete 5
     State([], Some([RecordOf(2), RecordOf(3)]), TwoLevels([], [OLD_TABLE]), [1], 3, 5, HISTORY[..3]), // switch
     State([], None, TwoLevels([NEW_TABLE], [OLD_TABLE]), [1], 3, 6, HISTORY[..3]),              // flush to level 1
     State([], None, TwoLevels([], [LEFT_FILE, RIGHT_FILE]), [1], 3, 8, HISTORY[..3]),           // compact level 1
     State([], None, TwoLevels([], [LEFT_FILE, RIGHT_FILE]), [], 3, 8, HISTORY[..3]),            // release the snapshot
     State([RecordOf(4)], None, TwoLevels([], [LEFT_FILE, RIGHT_FILE]), [], 4, 8, HISTORY),      // write 3
     State([], Some([RecordOf(4)]), TwoLevels([], [LEFT_FILE, RIGHT_FILE]), [], 4, 9, HISTORY),  // switch
     SPLIT_STORE,                                                                                // flush to level 1
     State([], None, TwoLevels([], [LAST_TABLE, RIGHT_FILE]), [], 4, 11, HISTORY)]               // compact level 1
  }

  ghost function Steps(): seq<Step> {
    [Write(HISTORY[..1]), TakeSnapshot, Switch, Flush, Write(HISTORY[1..3]), Switch, Flush,
     Compact(1, [NEW_TABLE], [OLD_TABLE], FIRST_RUN, [LEFT_FILE, RIGHT_FILE]), ReleaseSnapshot(0),
     Write(HISTORY[3..]), Switch, Flush,
     Compact(1, [UPPER_FILE], [LEFT_FILE], [RecordOf(4), RecordOf(2), RecordOf(3)], [LAST_TABLE])]
  }

  // ---------------------------------------------------------------- writes, switches, snapshots

  lemma InsertOne(mem: seq<Entry>, op: Update, seqno: nat)
    ensures InsertAll(mem, [op], seqno) == Insert(mem, EntryOf(op, seqno))
  {
    assert [op][1..] == [];
  }

  lemma FirstWriteTaken()
    ensures Takes(Trace()[0], Steps()[0], Trace()[1])
  {
    InsertOne([], HISTORY[0], 1);
    assert HISTORY[..1] == [HISTORY[0]] && [] + HISTORY[..1] == HISTORY[..1];
    assert Insert([], RecordOf(1)) == [RecordOf(1)];
  }

  lemma LastWriteTaken()
    ensures Takes(Trace()[9], Steps()[9], Trace()[10])
  {
    InsertOne([], HISTORY[3], 4);
    assert HISTORY[3..] == [HISTORY[3]] && HISTORY[..3] + HISTORY[3..] == HISTORY;
    assert Insert([], RecordOf(4)) == [RecordOf(4)];
  }

  lemma SecondWriteTaken()
    ensures Takes(Trace()[4], Steps()[4], Trace()[5])
  {
    var ops := HISTORY[1..3];
    assert ops == [HISTORY[1]] + [HISTORY[2]];
    InsertOne([], HISTORY[1], 2);
    InsertAllSnoc([], [HISTORY[1]], HISTORY[2], 2);
    assert HISTORY[..1] + ops == HISTORY[..3];
    assert Insert([], RecordOf(2)) == [RecordOf(2)];
    assert [RecordOf(2)][1..] == [];
    assert SeekIndex([RecordOf(2)], RecordOf(3).k) == 1;
    assert Insert([RecordOf(2)], RecordOf(3)) == [RecordOf(2), RecordOf(3)];
  }

  lemma BookkeepingTaken()
    ensures Takes(Trace()[1], Steps()[1], Trace()[2])
    ensures Takes(Trace()[2], Steps()[2], Trace()[3])
    ensures Takes(Trace()[5], Steps()[5], Trace()[6])
    ensures Takes(Trace()[8], Steps()[8], Trace()[9])
    ensures Takes(Trace()[10], Steps()[10], Trace()[11])
  {
    assert [1][..0] + [1][1..] == [];
  }

  // ---------------------------------------------------------------- flushes and compactions

  lemma TwoLevelsInstalled(one: seq<File>, two: seq<File>, edit: Edit, one': seq<File>, two': seq<File>)
    requires SortedBySmallest(one') && SortedBySmallest(two')
    requires Elements(one') == FilesAfter(Elements(one), edit, 1)
    requires Elements(two') == FilesAfter(Elements(two), edit, 2)
    requires forall l :: l != 1 && l != 2 ==> AddedAt(edit, l) == {}
    ensures Installs(TwoLevels(one, two), edit, TwoLevels(one', two'))
  {
    var v, w := TwoLevels(one, two), TwoLevels(one', two');
    forall l | 0 <= l < NUM_LEVELS ensures SortedBySmallest(w[l]) && Elements(w[l]) == FilesAfter(Elements(v[l]), edit, l) {
      if l != 1 && l != 2 {
        assert v[l] == [] && w[l] == [] && AddedAt(edit, l) == {};
      }
    }
  }

  lemma AddedTo(level: nat, f: File)
    ensures var edit := Edit({}, [(level, f)]);
            && FilesAfter({}, edit, level) == {f}
            && (forall l, files :: l != level ==> FilesAfter(files, edit, l) == files)
            && forall l :: l != level ==> AddedAt(edit, l) == {}
  {
    var edit := Edit({}, [(level, f)]);
    assert edit.added[0] == (level, f);
    assert (level, f).1 in AddedAt(edit, level);
    assert AddedAt(edit, level) == {f};
    forall l, files | l != level ensures FilesAfter(files, edit, l) == files {
      assert AddedAt(edit, l) == {};
    }
  }

  /** A flush to level 2 of an empty store, or to level 1 over a file that the table meets. */
  lemma FlushTaken(run: seq<Entry>, two: seq<File>, st: State, w: State, level: nat)
    requires run != [] && SortedBySmallest(two) && (level == 1 || (level == 2 && two == []))
    requires st.imm == Some(run) && st.version == TwoLevels([], two)
    requires var f := TableOf(st.nextFile, 1, run);
             w == st.(imm := None, version := if level == 1 then TwoLevels([f], two) else TwoLevels([], [f]), nextFile := st.nextFile + 1)
    ensures Takes(st, Flush, w)
  {
    var size := 1;
    var f := TableOf(st.nextFile, size, run);
    AddedTo(level, f);
    if level == 1 {
      TwoLevelsInstalled([], two, Edit({}, [(level, f)]), [f], two);
    } else {
      TwoLevelsInstalled([], [], Edit({}, [(level, f)]), [], [f]);
    }
    assert FitsAt(st.version, level, UserRangeOf(run))
           && Installs(st.version, Edit({}, [(level, TableOf(st.nextFile, size, run))]), w.version);
  }

  lemma FlushesTaken()
    ensures Takes(Trace()[3], Steps()[3], Trace()[4])
    ensures Takes(Trace()[6], Steps()[6], Trace()[7])
    ensures Takes(Trace()[11], Steps()[11], Trace()[12])
  {
    hide Takes;
    FlushTaken([RecordOf(1)], [], Trace()[3], Trace()[4], 2);
    FlushTaken([RecordOf(2), RecordOf(3)], [OLD_TABLE], Trace()[6], Trace()[7], 1);
    FlushTaken([RecordOf(4)], [LEFT_FILE, RIGHT_FILE], Trace()[11], Trace()[12], 1);
  }

  lemma FirstSelection(v: Levels)
    requires v == TwoLevels([NEW_TABLE], [OLD_TABLE])
    ensures Selected(v, 1, [NEW_TABLE], [OLD_TABLE])
  {
    assert v[1][0..1] == [NEW_TABLE];
    assert NEW_TABLE in [NEW_TABLE];
    assert IsRange([NEW_TABLE], NEW_TABLE.smallest, NEW_TABLE.largest);
    assert [OLD_TABLE][..0] == [];
    assert OverlappingFiles(v[2], UserRange(NEW_TABLE.smallest, NEW_TABLE.largest)) == [OLD_TABLE];
  }

  /** With the snapshot at 1 live, neither rule drops any of the three entries. */
  lemma FirstKept(v: Levels)
    ensures Kept(v, 1, 1, FIRST_RUN, 3) == FIRST_RUN
  {
    forall i: nat | i < 3 ensures !Dropped(v, 1, 1, Elements(FIRST_RUN), FIRST_RUN[i]) {
      HiddenByPredecessor(FIRST_RUN, i, 1);
    }
    assert Kept(v, 1, 1, FIRST_RUN, 1) == [RecordOf(2)];
    assert Kept(v, 1, 1, FIRST_RUN, 2) == [RecordOf(2), RecordOf(3)];
  }

  lemma FlattenOne<T>(a: seq<T>)
    ensures Flatten([a]) == a
  {
    assert [a][..0] == [];
  }

  lemma FlattenTwo<T>(a: seq<T>, b: seq<T>)
    ensures Flatten([a, b]) == a + b
  {
    assert [a, b][..1] == [a];
    FlattenOne(a);
  }

  lemma FirstEdit()
    ensures var edit := CompactionEdit(1, [NEW_TABLE], [OLD_TABLE], [LEFT_FILE, RIGHT_FILE]);
            && FilesAfter({NEW_TABLE}, edit, 1) == {} && FilesAfter({OLD_TABLE}, edit, 2) == {LEFT_FILE, RIGHT_FILE}
            && forall l :: l != 2 ==> AddedAt(edit, l) == {}
  {
    var edit := CompactionEdit(1, [NEW_TABLE], [OLD_TABLE], [LEFT_FILE, RIGHT_FILE]);
    forall l: nat ensures AddedAt(edit, l) == if l == 2 then {LEFT_FILE, RIGHT_FILE} else {} {
      EditAdds(1, [NEW_TABLE], [OLD_TABLE], [LEFT_FILE, RIGHT_FILE], l);
    }
    assert NEW_TABLE in [NEW_TABLE] && OLD_TABLE in [OLD_TABLE];
    assert (1, NEW_TABLE.number) in edit.deleted && (2, OLD_TABLE.number) in edit.deleted;
    EditAdds(1, [NEW_TABLE], [OLD_TABLE], [LEFT_FILE, RIGHT_FILE], 2);
    EditAdds(1, [NEW_TABLE], [OLD_TABLE], [LEFT_FILE, RIGHT_FILE], 1);
  }

  lemma FirstMerge()
    ensures Sorted(FIRST_RUN) && Elements(FIRST_RUN) == InputEntries([NEW_TABLE], [OLD_TABLE])
  {
    assert Elements([NEW_TABLE]) + Elements([OLD_TABLE]) == {NEW_TABLE, OLD_TABLE};
    forall e ensures e in InputEntries([NEW_TABLE], [OLD_TABLE]) <==> e in NEW_TABLE.entries || e in OLD_TABLE.entries {
      assert NEW_TABLE in {NEW_TABLE, OLD_TABLE} && OLD_TABLE in {NEW_TABLE, OLD_TABLE};
    }
  }

  lemma FirstOutputs()
    ensures NewTables([LEFT_FILE, RIGHT_FILE], 6)
    ensures Flatten(Contents([LEFT_FILE, RIGHT_FILE])) == FIRST_RUN
  {
    assert Contents([LEFT_FILE, RIGHT_FILE]) == [LEFT_FILE.entries, RIGHT_FILE.entries];
    FlattenTwo(LEFT_FILE.entries, RIGHT_FILE.entries);
  }

  lemma FirstInstalled()
    ensures Installs(TwoLevels([NEW_TABLE], [OLD_TABLE]), CompactionEdit(1, [NEW_TABLE], [OLD_TABLE], [LEFT_FILE, RIGHT_FILE]),
                     TwoLevels([], [LEFT_FILE, RIGHT_FILE]))
  {
    FirstEdit();
    assert Elements([NEW_TABLE]) == {NEW_TABLE} && Elements([OLD_TABLE]) == {OLD_TABLE} && Elements<File>([]) == {};
    assert Elements([LEFT_FILE, RIGHT_FILE]) == {LEFT_FILE, RIGHT_FILE};
    TwoLevelsInstalled([NEW_TABLE], [OLD_TABLE], CompactionEdit(1, [NEW_TABLE], [OLD_TABLE], [LEFT_FILE, RIGHT_FILE]),
                       [], [LEFT_FILE, RIGHT_FILE]);
  }

  lemma FirstCompactionTaken()
    ensures Takes(Trace()[7], Steps()[7], Trace()[8])
  {
    hide Installs, Selected, NewTables, Sorted, InputEntries, Kept, CompactionEdit, Flatten, Contents;
    FirstSelection(Trace()[7].version);
    FirstMerge();
    FirstKept(Trace()[7].version);
    FirstOutputs();
    FirstInstalled();
  }

  /** Nothing is deeper and no snapshot is live, so the older write of key 3 and the tombstone of key 5 are dropped. */
  lemma LastKept(v: Levels, merged: seq<Entry>)
    requires v == SPLIT_STORE.version && merged == [RecordOf(4), RecordOf(2), RecordOf(3)]
    ensures Kept(v, 1, 4, merged, 3) == [RecordOf(4)]
  {
    forall i: nat | i < 3 ensures Dropped(v, 1, 4, Elements(merged), merged[i]) <==> i > 0 {
      HiddenByPredecessor(merged, i, 4);
    }
    assert Kept(v, 1, 4, merged, 1) == [RecordOf(4)];
    assert Kept(v, 1, 4, merged, 2) == [RecordOf(4)];
  }

  lemma LastMerge()
    ensures var merged := [RecordOf(4), RecordOf(2), RecordOf(3)];
            Sorted(merged) && Elements(merged) == InputEntries([UPPER_FILE], [LEFT_FILE])
  {
    SplitFilesValid();
    assert Elements([UPPER_FILE]) + Elements([LEFT_FILE]) == {UPPER_FILE, LEFT_FILE};
    forall e ensures e in InputEntries([UPPER_FILE], [LEFT_FILE]) <==> e in UPPER_FILE.entries || e in LEFT_FILE.entries {
      assert UPPER_FILE in {UPPER_FILE, LEFT_FILE} && LEFT_FILE in {UPPER_FILE, LEFT_FILE};
    }
    assert Elements([RecordOf(4), RecordOf(2), RecordOf(3)]) == Elements(UPPER_FILE.entries) + Elements(LEFT_FILE.entries);
  }

  lemma LastOutputs()
    ensures NewTables([LAST_TABLE], 10)
    ensures Flatten(Contents([LAST_TABLE])) == [RecordOf(4)]
  {
    assert Contents([LAST_TABLE]) == [LAST_TABLE.entries];
    FlattenOne(LAST_TABLE.entries);
  }

  lemma LastInstalled()
    ensures Installs(SPLIT_STORE.version, CompactionEdit(1, [UPPER_FILE], [LEFT_FILE], [LAST_TABLE]),
                     TwoLevels([], [LAST_TABLE, RIGHT_FILE]))
  {
    var edit := CompactionEdit(1, [UPPER_FILE], [LEFT_FILE], [LAST_TABLE]);
    forall l: nat ensures AddedAt(edit, l) == if l == 2 then {LAST_TABLE} else {} {
      EditAdds(1, [UPPER_FILE], [LEFT_FILE], [LAST_TABLE], l);
    }
    EditAdds(1, [UPPER_FILE], [LEFT_FILE], [LAST_TABLE], 2);
    assert UPPER_FILE in [UPPER_FILE] && LEFT_FILE in [LEFT_FILE];
    assert (1, UPPER_FILE.number) in edit.deleted && (2, LEFT_FILE.number) in edit.deleted;
    assert FilesAfter({UPPER_FILE}, edit, 1) == {};
    assert FilesAfter({LEFT_FILE, RIGHT_FILE}, edit, 2) == {LAST_TABLE, RIGHT_FILE};
    assert Elements([LAST_TABLE, RIGHT_FILE]) == {LAST_TABLE, RIGHT_FILE};
    TwoLevelsInstalled([UPPER_FILE], [LEFT_FILE, RIGHT_FILE], edit, [], [LAST_TABLE, RIGHT_FILE]);
  }

  lemma LastCompactionTaken()
    ensures Takes(Trace()[12], Steps()[12], Trace()[13])
  {
    hide Installs, Selected, NewTables, Sorted, InputEntries, Kept, CompactionEdit, Flatten, Contents;
    SplitStoreSelection();
    LastMerge();
    LastKept(SPLIT_STORE.version, [RecordOf(4), RecordOf(2), RecordOf(3)]);
    LastOutputs();
    LastInstalled();
  }

  // ---------------------------------------------------------------- the run

  lemma TraceIsRun()
    ensures IsRun(Trace(), Steps())
  {
    hide Takes;
    FirstWriteTaken();
    LastWriteTaken();
    SecondWriteTaken();
    BookkeepingTaken();
    FlushesTaken();
    FirstCompactionTaken();
    LastCompactionTaken();
    forall i | 0 <= i < 13 ensures Takes(Trace()[i], Steps()[i], Trace()[i + 1]) {
      assert i == 0 || i == 1 || i == 2 || i == 3 || i == 4 || i == 5 || i == 6 || i == 7 || i == 8 || i == 9 || i == 10
             || i == 11 || i == 12;
    }
  }

  lemma LastEntries(st: State)
    requires st == Trace()[13]
    ensures All(st) == {RecordOf(1), RecordOf(4)}
  {
    var v := st.version;
    assert v == TwoLevels([], [LAST_TABLE, RIGHT_FILE]);
    assert Elements(v[2]) == {LAST_TABLE, RIGHT_FILE};
    assert LAST_TABLE.entries[0] == RecordOf(4) && RIGHT_FILE.entries[0] == RecordOf(1);
    forall l: nat | l < NUM_LEVELS && l != 2 ensures EntriesAt(v, l) == {} {
      assert v[l] == [];
    }
    forall e ensures e in VersionEntries(v) <==> e in EntriesAt(v, 2) {
    }
    assert LAST_TABLE in Elements(v[2]) && RIGHT_FILE in Elements(v[2]);
    forall e ensures e in EntriesAt(v, 2) <==> e in LAST_TABLE.entries || e in RIGHT_FILE.entries {
    }
    assert Elements(st.mem) == {};
  }

  lemma FirstCompactionGuarded()
    ensures Guarded(Trace()[7], Steps()[7])
  {
    var p := PartsOf(Trace()[7], 1, [NEW_TABLE], [OLD_TABLE]);
    assert Trace()[7].version[2] == [OLD_TABLE];
    assert Elements([OLD_TABLE]) - Elements([OLD_TABLE]) == {};
    assert p.stays == {};
  }

  lemma LastCompactionUnguarded()
    ensures !Guarded(Trace()[12], Steps()[12])
  {
    hide CompactionResurrects;
    SplitStoreResurrects();
  }

  lemma OtherStepsNeedNoGuard(st: State, step: Step)
    requires !step.Compact?
    ensures Guarded(st, step)
  {
  }

  lemma OnlyLastUnguarded()
    ensures GuardedUpTo(Trace(), Steps(), 12) && !Guarded(Trace()[12], Steps()[12])
  {
    hide Guarded;
    FirstCompactionGuarded();
    LastCompactionUnguarded();
    forall i | 0 <= i < 12 ensures Guarded(Trace()[i], Steps()[i]) {
      if i != 7 {
        assert !Steps()[i].Compact?;
        OtherStepsNeedNoGuard(Trace()[i], Steps()[i]);
      }
    }
  }

  lemma OldValueShows(es: set<Entry>)
    requires es == {RecordOf(1), RecordOf(4)}
    ensures ReadsAs(es, 5.0, 4, Some([1]))
  {
    assert Visible(RecordOf(1), 5.0, 4) && RecordOf(1) in es;
  }

  /** The result does not hold without its guard: this is a run, every step but the last is guarded, and at its end the
      read of key 5 answers the old value although the key was deleted. */
  lemma DeletedKeyComesBack()
    ensures IsRun(Trace(), Steps()) && GuardedUpTo(Trace(), Steps(), 12) && !Guarded(Trace()[12], Steps()[12])
    ensures var st := Trace()[13];
            && ReadStore(st.history, st.lastSequence, 5.0) == None
            && ReadsAs(All(st), 5.0, st.lastSequence, Some([1]))
  {
    hide IsRun, GuardedUpTo, Guarded, ReadsAs, All, ReadStore;
    TraceIsRun();
    OnlyLastUnguarded();
    DeletedKeyReadsAsMissing();
    LastEntries(Trace()[13]);
    OldValueShows(All(Trace()[13]));
  }
}
