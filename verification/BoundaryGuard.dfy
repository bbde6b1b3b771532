/** The input selection adds boundary files to the inputs of its own level only. Here: a state where that makes a
    compaction bring a deleted key back, and the check on the output level that rules it out. */
module BoundaryGuard {
  import opened InternalKeys
  import opened Version
  import opened InputSelection
  import opened VersionBuilder
  import opened Compaction
  import opened CompactionReads
  import opened MergeDown
  import opened Database

  /** No file of the output level continues the user key at the end of the pulled-in files: what running
      AddBoundaryInputs on the second input set as well would establish. */
  ghost predicate OutputLevelClosed(v: Levels, level: nat, in1: seq<File>)
    requires level + 1 < |v|
  {
    in1 == [] || NoBoundary(v[level + 1], in1[|in1| - 1].largest)
  }

  /** A file outside an adjacent run whose end is closed shares a user key with a file in it only by being newer. */
  lemma OutsideClosedSlice(files: seq<File>, lo: nat, hi: nat, f: File, h: File)
    requires forall g <- files :: ValidFile(g)
    requires Disjoint(files) && Unambiguous(LevelEntries(Elements(files)))
    requires lo < hi <= |files| && NoBoundary(files, files[hi - 1].largest)
    requires f in files && f !in files[lo..hi] && h in files[lo..hi]
    ensures Newer(Elements(f.entries), Elements(h.entries))
  {
    SliceLeavesNewer(files, lo, hi);
  }

  /** An input that shares a user key with a file that stays is itself of the output level. */
  lemma SharedKeyIsPulledIn(next: seq<File>, in0: seq<File>, in1: seq<File>, f: File, h: File, x: Entry, t: Entry)
    requires PullsIn(next, in0, in1)
    requires f in next && f !in in1 && ValidFile(f) && x in f.entries
    requires (h in in0 || h in in1) && ValidFile(h)
    requires t in h.entries && t.k.user == x.k.user
    ensures h in in1
  {
    var smallest, largest :| IsRange(in0, smallest, largest) && in1 == OverlappingFiles(next, UserRange(smallest, largest));
    OverlappingMembers(next, UserRange(smallest, largest));
    FileBounds(f);
    FileBounds(h);
  }

  lemma PulledInSlice(files: seq<File>, in0: seq<File>, in1: seq<File>) returns (lo: nat, hi: nat)
    requires forall g <- files :: ValidFile(g)
    requires Disjoint(files) && PullsIn(files, in0, in1)
    ensures lo <= hi <= |files| && in1 == files[lo..hi]
  {
    var smallest, largest :| IsRange(in0, smallest, largest) && in1 == OverlappingFiles(files, UserRange(smallest, largest));
    lo, hi := OverlapIsSlice(files, UserRange(smallest, largest));
  }

  lemma StayingFileIsNewer(files: seq<File>, in0: seq<File>, in1: seq<File>, f: File, h: File, x: Entry, t: Entry)
    requires forall g <- files :: ValidFile(g)
    requires forall g <- in0 :: ValidFile(g)
    requires Disjoint(files) && Unambiguous(LevelEntries(Elements(files))) && PullsIn(files, in0, in1)
    requires in1 == [] || NoBoundary(files, in1[|in1| - 1].largest)
    requires f in files && f !in in1 && x in f.entries
    requires (h in in0 || h in in1) && t in h.entries && t.k.user == x.k.user
    ensures x.k.seqno > t.k.seqno
  {
    hide Disjoint, PullsIn, NoBoundary, Unambiguous;
    var lo, hi := PulledInSlice(files, in0, in1);
    SharedKeyIsPulledIn(files, in0, in1, f, h, x, t);
    assert |in1| == hi - lo && in1[|in1| - 1] == files[hi - 1];
    OutsideClosedSlice(files, lo, hi, f, h);
    assert x in Elements(f.entries) && t in Elements(h.entries);
  }

  /** An entry that stays in the output level and shares its user key with an input entry is the newer of the two. */
  lemma StayingEntryIsNewer(v: Levels, level: nat, in0: seq<File>, in1: seq<File>, t: Entry, x: Entry)
    requires ValidVersion(v) && level + 1 < NUM_LEVELS
    requires Selected(v, level, in0, in1) && OutputLevelClosed(v, level, in1)
    requires t in InputEntries(in0, in1) && x in LevelEntries(Elements(v[level + 1]) - Elements(in1))
    requires t.k.user == x.k.user
    ensures x.k.seqno > t.k.seqno
  {
    var files := v[level + 1];
    var f :| f in Elements(files) - Elements(in1) && x in f.entries;
    var h :| h in Elements(in0) + Elements(in1) && t in h.entries;
    assert Unambiguous(EntriesAt(v, level + 1));
    StayingFileIsNewer(files, in0, in1, f, h, x, t);
  }

  lemma InvValid(st: State)
    requires Inv(st)
    ensures ValidVersion(st.version)
  {
  }

  /** With the output level closed, no compaction resurrects a key: the check a caller can make beforehand. */
  lemma ClosedOutputLevelGuards(st: State, level: nat, in0: seq<File>, in1: seq<File>)
    requires Inv(st) && level + 1 < NUM_LEVELS
    requires Selected(st.version, level, in0, in1) && OutputLevelClosed(st.version, level, in1)
    ensures !CompactionResurrects(st, level, in0, in1)
  {
    hide ValidVersion, Faithful, Structured, OutputLevelClosed, Selected, InputEntries, LevelEntries;
    InvValid(st);
    var p := PartsOf(st, level, in0, in1);
    forall t, x | t in p.inputs && x in p.stays && t.k.user == x.k.user ensures x.k.seqno > t.k.seqno {
      StayingEntryIsNewer(st.version, level, in0, in1, t, x);
    }
  }

  // ---------------------------------------------------------------- the concrete failure

  const HISTORY: seq<Update> := [
    Op(5.0, TypeValue, [1]), Op(3.0, TypeValue, [2]), Op(5.0, TypeDeletion, []), Op(3.0, TypeValue, [3])]

  function RecordOf(s: nat): Entry
    requires 1 <= s <= |HISTORY|
  {
    EntryOf(HISTORY[s - 1], s)
  }

  /** Level 1 holds the newest write of key 3; level 2 the rest, with key 5 split over two files. */
  const UPPER_FILE: File := File(9, 1, RecordOf(4).k, RecordOf(4).k, [RecordOf(4)])
  const LEFT_FILE: File := File(6, 1, RecordOf(2).k, RecordOf(3).k, [RecordOf(2), RecordOf(3)])
  const RIGHT_FILE: File := File(7, 1, RecordOf(1).k, RecordOf(1).k, [RecordOf(1)])

  const SPLIT_STORE: State :=
    State([], None, [[], [UPPER_FILE], [LEFT_FILE, RIGHT_FILE], [], [], [], []], [], 4, 10, HISTORY)

  /** Levels 1 and 2 hold one and two files; the other levels are empty. */
  ghost predicate ThreeFiles(v: Levels, up: File, left: File, right: File) {
    && |v| == NUM_LEVELS
    && v[1] == [up] && v[2] == [left, right]
    && forall l :: 0 <= l < NUM_LEVELS && l != 1 && l != 2 ==> v[l] == []
  }

  lemma ThreeFilesEntries(v: Levels, up: File, left: File, right: File)
    requires ThreeFiles(v, up, left, right)
    ensures EntriesAt(v, 1) == Elements(up.entries)
    ensures EntriesAt(v, 2) == Elements(left.entries) + Elements(right.entries)
    ensures forall l: nat :: l < NUM_LEVELS && l != 1 && l != 2 ==> EntriesAt(v, l) == {}
    ensures forall k: nat :: 3 <= k ==> EntriesBelow(v, k) == {}
    ensures VersionEntries(v) == Elements(up.entries) + Elements(left.entries) + Elements(right.entries)
  {
    assert v[1] == [up] && v[2] == [left, right];
    assert Elements(v[1]) == {up} && Elements(v[2]) == {left, right};
    forall l: nat | l < NUM_LEVELS && l != 1 && l != 2 ensures EntriesAt(v, l) == {} {
      assert v[l] == [];
    }
    forall e ensures e in VersionEntries(v) <==> e in EntriesAt(v, 1) || e in EntriesAt(v, 2) {
    }
  }

  lemma ThreeFilesRecency(v: Levels, up: File, left: File, right: File, l: nat, m: nat)
    requires ThreeFiles(v, up, left, right) && l < m < NUM_LEVELS
    requires Newer(Elements(up.entries), Elements(left.entries) + Elements(right.entries))
    ensures Newer(EntriesAt(v, l), EntriesAt(v, m))
  {
    ThreeFilesEntries(v, up, left, right);
  }

  lemma ThreeFilesLevel(v: Levels, up: File, left: File, right: File, l: nat)
    requires ThreeFiles(v, up, left, right) && l < NUM_LEVELS
    requires ValidFile(up) && ValidFile(left) && ValidFile(right)
    requires Less(left.largest, right.smallest) && left.number != right.number
    ensures DistinctNumbers(v[l]) && Disjoint(v[l])
    ensures forall f <- v[l] :: ValidFile(f)
  {
  }

  lemma ThreeFilesValid(v: Levels, up: File, left: File, right: File)
    requires ThreeFiles(v, up, left, right)
    requires ValidFile(up) && ValidFile(left) && ValidFile(right)
    requires Less(left.largest, right.smallest) && left.number != right.number
    requires Newer(Elements(up.entries), Elements(left.entries) + Elements(right.entries))
    requires Unambiguous(Elements(up.entries) + Elements(left.entries) + Elements(right.entries))
    ensures ValidVersion(v)
  {
    hide ValidFile, Less, LevelEntries;
    ThreeFilesEntries(v, up, left, right);
    forall l | 0 <= l < NUM_LEVELS
      ensures DistinctNumbers(v[l]) && Disjoint(v[l]) && Unambiguous(EntriesAt(v, l)) && forall f <- v[l] :: ValidFile(f)
    {
      ThreeFilesLevel(v, up, left, right, l);
      assert EntriesAt(v, l) <= VersionEntries(v);
    }
    forall l, m | 0 <= l < m < NUM_LEVELS ensures Newer(EntriesAt(v, l), EntriesAt(v, m)) {
      ThreeFilesRecency(v, up, left, right, l, m);
    }
    assert v[0] == [];
  }

  lemma SplitFilesValid()
    ensures ThreeFiles(SPLIT_STORE.version, UPPER_FILE, LEFT_FILE, RIGHT_FILE)
    ensures ValidFile(UPPER_FILE) && ValidFile(LEFT_FILE) && ValidFile(RIGHT_FILE)
    ensures Elements(UPPER_FILE.entries) == {RecordOf(4)}
    ensures Elements(LEFT_FILE.entries) == {RecordOf(2), RecordOf(3)}
    ensures Elements(RIGHT_FILE.entries) == {RecordOf(1)}
  {
    var v := SPLIT_STORE.version;
    assert v[0] == [] && v[3] == [] && v[4] == [] && v[5] == [] && v[6] == [];
    assert LEFT_FILE.entries[0] == RecordOf(2) && LEFT_FILE.entries[1] == RecordOf(3);
    assert UPPER_FILE.entries[0] == RecordOf(4) && RIGHT_FILE.entries[0] == RecordOf(1);
  }

  lemma SplitStoreEntries()
    ensures All(SPLIT_STORE) == {RecordOf(1), RecordOf(2), RecordOf(3), RecordOf(4)}
    ensures VersionEntries(SPLIT_STORE.version) == All(SPLIT_STORE)
  {
    SplitFilesValid();
    ThreeFilesEntries(SPLIT_STORE.version, UPPER_FILE, LEFT_FILE, RIGHT_FILE);
    assert Elements(SPLIT_STORE.mem) == {};
  }

  lemma SplitStoreReads(u: UserKey)
    ensures ReadsAs(All(SPLIT_STORE), u, 4, ReadStore(HISTORY, 4, u))
  {
    SplitStoreEntries();
    assert Store(HISTORY, 0) == map[];
    assert Store(HISTORY, 1) == map[5.0 := [1]];
    assert Store(HISTORY, 2) == map[5.0 := [1], 3.0 := [2]];
    assert Store(HISTORY, 3) == map[3.0 := [2]];
    assert Store(HISTORY, 4) == map[3.0 := [3]];
    forall r | Newest(All(SPLIT_STORE), u, 4, r) ensures ValueOf(r) == ReadStore(HISTORY, 4, u) {
      assert RecordOf(4) in All(SPLIT_STORE) && RecordOf(3) in All(SPLIT_STORE);
      if u == 3.0 {
        assert Visible(RecordOf(4), u, 4);
      } else if u == 5.0 {
        assert Visible(RecordOf(3), u, 4);
      }
    }
  }

  lemma ThreeFilesNumbers(v: Levels, up: File, left: File, right: File, n: nat)
    requires ThreeFiles(v, up, left, right)
    requires up.number != left.number && up.number != right.number
    requires up.number < n && left.number < n && right.number < n
    ensures NumbersUnique(v, n)
  {
  }

  lemma ThreeFilesSorted(v: Levels, up: File, left: File, right: File, l: nat)
    requires ThreeFiles(v, up, left, right) && BySmallestKey(left, right) && l < NUM_LEVELS
    ensures SortedBySmallest(v[l])
  {
  }

  lemma SplitStoreStructured()
    ensures Structured(SPLIT_STORE)
  {
    var v := SPLIT_STORE.version;
    SplitFilesValid();
    ThreeFilesValid(v, UPPER_FILE, LEFT_FILE, RIGHT_FILE);
    ThreeFilesNumbers(v, UPPER_FILE, LEFT_FILE, RIGHT_FILE, SPLIT_STORE.nextFile);
    forall l | 0 <= l < NUM_LEVELS ensures SortedBySmallest(v[l]) {
      ThreeFilesSorted(v, UPPER_FILE, LEFT_FILE, RIGHT_FILE, l);
    }
    assert Elements(SPLIT_STORE.mem) == {};
  }

  lemma SplitStoreFaithful()
    ensures Faithful(SPLIT_STORE)
  {
    SplitStoreEntries();
    assert SPLIT_STORE.lastSequence == |SPLIT_STORE.history|;
    forall e | e in All(SPLIT_STORE) ensures Matches(e, HISTORY) {
      assert e == RecordOf(1) || e == RecordOf(2) || e == RecordOf(3) || e == RecordOf(4);
    }
    forall u, s | 4 <= s <= 4 ensures ReadsAs(All(SPLIT_STORE), u, s, ReadStore(HISTORY, s, u)) {
      SplitStoreReads(u);
    }
  }

  /** The input selection of the code takes the upper file and only the left one of the two below it. */
  lemma SplitStoreSelection()
    ensures Selected(SPLIT_STORE.version, 1, [UPPER_FILE], [LEFT_FILE])
  {
    SplitFilesValid();
    var v := SPLIT_STORE.version;
    assert v[1] == [UPPER_FILE] && v[1][0..1] == [UPPER_FILE];
    assert v[2] == [LEFT_FILE, RIGHT_FILE];
    var smallest, largest := UPPER_FILE.smallest, UPPER_FILE.largest;
    assert UPPER_FILE in [UPPER_FILE];
    assert IsRange([UPPER_FILE], smallest, largest);
    var r := UserRange(smallest, largest);
    assert [LEFT_FILE, RIGHT_FILE][..1] == [LEFT_FILE] && [LEFT_FILE][..0] == [];
    assert OverlappingFiles([LEFT_FILE], r) == [LEFT_FILE];
    assert OverlappingFiles(v[2], r) == [LEFT_FILE];
  }

  lemma SplitStoreParts()
    ensures var p := PartsOf(SPLIT_STORE, 1, [UPPER_FILE], [LEFT_FILE]);
            && RecordOf(3) in p.inputs && p.stays == {RecordOf(1)} && p.All() == All(SPLIT_STORE)
  {
    SplitFilesValid();
    var v := SPLIT_STORE.version;
    assert v[1] == [UPPER_FILE] && v[2] == [LEFT_FILE, RIGHT_FILE];
    assert UPPER_FILE in v[1] && LEFT_FILE in v[2];
    PartsCoverAll(SPLIT_STORE, 1, [UPPER_FILE], [LEFT_FILE]);
    assert LEFT_FILE in Elements([LEFT_FILE]) && RecordOf(3) in Elements(LEFT_FILE.entries);
    assert Elements(v[2]) - Elements([LEFT_FILE]) == {RIGHT_FILE};
    assert LevelEntries({RIGHT_FILE}) == Elements(RIGHT_FILE.entries);
  }

  lemma SplitStoreInv()
    ensures Inv(SPLIT_STORE)
  {
    SplitStoreStructured();
    SplitStoreFaithful();
    assert SPLIT_STORE.snapshots == [];
  }

  lemma TombstoneOverValue(p: Parts)
    requires RecordOf(3) in p.inputs && p.stays == {RecordOf(1)}
    requires p.All() == {RecordOf(1), RecordOf(2), RecordOf(3), RecordOf(4)}
    ensures Resurrects(SPLIT_STORE.version, 1, 4, p, 5.0)
  {
    var t, x := RecordOf(3), RecordOf(1);
    var v := SPLIT_STORE.version;
    SplitFilesValid();
    assert BaseLevel(v, 1, 5.0);
    assert Newest(p.All(), 5.0, 4, Some(t));
    assert Newest(p.stays, 5.0, 4, Some(x));
  }

  lemma SplitStoreResurrects()
    ensures CompactionResurrects(SPLIT_STORE, 1, [UPPER_FILE], [LEFT_FILE])
  {
    SplitStoreEntries();
    SplitStoreParts();
    assert SmallestSnapshot(SPLIT_STORE.snapshots, SPLIT_STORE.lastSequence) == 4;
    TombstoneOverValue(PartsOf(SPLIT_STORE, 1, [UPPER_FILE], [LEFT_FILE]));
  }

  lemma DeletedKeyReadsAsMissing()
    ensures ReadStore(HISTORY, 4, 5.0) == None
  {
    assert Store(HISTORY, 0) == map[];
    assert Store(HISTORY, 1) == map[5.0 := [1]];
    assert Store(HISTORY, 2) == map[5.0 := [1], 3.0 := [2]];
    assert Store(HISTORY, 3) == map[3.0 := [2]];
    assert Store(HISTORY, 4) == map[3.0 := [3]];
  }

  lemma OnlyUpper(in0: seq<File>)
    requires Adjacent([UPPER_FILE], in0) && in0 != []
    ensures in0 == [UPPER_FILE]
  {
    var lo, hi :| 0 <= lo <= hi <= 1 && in0 == [UPPER_FILE][lo..hi];
    assert lo == 0 && hi == 1;
  }

  lemma OnlyLeft(in1: seq<File>)
    requires PullsIn([LEFT_FILE, RIGHT_FILE], [UPPER_FILE], in1)
    ensures in1 == [LEFT_FILE]
  {
    var smallest, largest :| IsRange([UPPER_FILE], smallest, largest)
                               && in1 == OverlappingFiles([LEFT_FILE, RIGHT_FILE], UserRange(smallest, largest));
    assert smallest == UPPER_FILE.smallest && largest == UPPER_FILE.largest;
    var r := UserRange(smallest, largest);
    assert [LEFT_FILE, RIGHT_FILE][..1] == [LEFT_FILE] && [LEFT_FILE][..0] == [];
    assert OverlappingFiles([LEFT_FILE], r) == [LEFT_FILE];
  }

  /** There is nothing else to select: every finished input selection of this level is that one. */
  lemma SplitStoreSelectionIsForced(in0: seq<File>, in1: seq<File>)
    requires Selected(SPLIT_STORE.version, 1, in0, in1)
    ensures in0 == [UPPER_FILE] && in1 == [LEFT_FILE]
  {
    hide Adjacent, PullsIn, LeftOutIsNewer;
    var v := SPLIT_STORE.version;
    assert v[1] == [UPPER_FILE] && v[2] == [LEFT_FILE, RIGHT_FILE];
    OnlyUpper(in0);
    OnlyLeft(in1);
  }

  /** What goes wrong without the check: the state is proper and key 5 is deleted in it, but the one compaction of level 1
      that the code can select brings the old value of key 5 back. */
  lemma SelectionCanResurrect(in0: seq<File>, in1: seq<File>)
    ensures Inv(SPLIT_STORE) && ReadStore(HISTORY, 4, 5.0) == None
    ensures Selected(SPLIT_STORE.version, 1, in0, in1) <==> in0 == [UPPER_FILE] && in1 == [LEFT_FILE]
    ensures CompactionResurrects(SPLIT_STORE, 1, [UPPER_FILE], [LEFT_FILE])
  {
    SplitStoreInv();
    SplitStoreSelection();
    SplitStoreResurrects();
    DeletedKeyReadsAsMissing();
    if Selected(SPLIT_STORE.version, 1, in0, in1) {
      SplitStoreSelectionIsForced(in0, in1);
    }
  }
}
