/** The children of merging iterators: for a compaction (MakeInputIterator) and for reading the whole store
    (NewInternalIterator, AddIterators), with the proof that they are sorted runs without common keys. */
module ChildRuns {
  import opened InternalKeys
  import opened SortedRuns
  import opened Version
  import opened InputSelection
  import opened MergeDown
  import opened Database
  import C = Compaction
  import M = MergingIterator

  /** Sorted runs with pairwise distinct keys that hold the given entries between them. */
  ghost predicate GoodRuns(runs: seq<seq<Entry>>, entries: set<Entry>) {
    && (forall a :: 0 <= a < |runs| ==> Sorted(runs[a]))
    && DistinctKeys(runs)
    && RunEntries(runs) == entries
  }

  lemma NoRuns()
    ensures GoodRuns([], {})
  {
  }

  lemma OneRun(run: seq<Entry>)
    requires Sorted(run)
    ensures GoodRuns([run], Elements(run))
  {
    var runs := [run];
    assert runs[0] == run;
    forall i: nat, j: nat | i < |run| && j < |run| && i != j ensures run[i].k != run[j].k {
      assert Less(run[if i < j then i else j].k, run[if i < j then j else i].k);
    }
  }

  lemma NoCommonKey(a: seq<seq<Entry>>, b: seq<seq<Entry>>, x: nat, y: nat, i: nat, j: nat)
    requires Newer(RunEntries(a), RunEntries(b))
    requires x < |a| && y < |b| && i < |a[x]| && j < |b[y]|
    ensures a[x][i].k != b[y][j].k
  {
    assert a[x][i] in RunEntries(a) && b[y][j] in RunEntries(b);
  }

  /** Runs over newer data beside runs over older data. */
  lemma JoinRuns(a: seq<seq<Entry>>, b: seq<seq<Entry>>, newer: set<Entry>, older: set<Entry>)
    requires GoodRuns(a, newer) && GoodRuns(b, older) && Newer(newer, older)
    ensures GoodRuns(a + b, newer + older)
  {
    var runs: seq<seq<Entry>> := a + b;
    forall x: nat, y: nat, i: nat, j: nat | 0 <= x < |runs| && 0 <= y < |runs| && 0 <= i < |runs[x]| && 0 <= j < |runs[y]| && runs[x][i].k == runs[y][j].k
      ensures x == y && i == j
    {
      if x < |a| <= y {
        NoCommonKey(a, b, x, y - |a|, i, j);
        assert false;
      } else if y < |a| <= x {
        NoCommonKey(a, b, y, x - |a|, j, i);
        assert false;
      }
    }
    forall e ensures e in RunEntries(runs) <==> e in newer || e in older {
      if e in newer {
        var x, i :| 0 <= x < |a| && 0 <= i < |a[x]| && a[x][i] == e;
        assert runs[x][i] == e;
      }
      if e in older {
        var x, i :| 0 <= x < |b| && 0 <= i < |b[x]| && b[x][i] == e;
        assert runs[|a| + x][i] == e;
      }
    }
  }

  // ---------------------------------------------------------------- files as runs

  lemma SortedJoin(a: seq<Entry>, b: seq<Entry>)
    requires Sorted(a) && Sorted(b)
    requires forall x, y :: x in a && y in b ==> Less(x.k, y.k)
    ensures Sorted(a + b)
  {
    forall i, j | 0 <= i < j < |a + b| ensures Less((a + b)[i].k, (a + b)[j].k) {
      if i < |a| <= j {
        assert a[i] in a && b[j - |a|] in b;
      }
    }
  }

  /** Walking the files of a disjoint level one after the other is walking one sorted run. */
  lemma {:induction false} ConcatenationSorted(files: seq<File>)
    requires Disjoint(files) && forall f <- files :: ValidFile(f)
    ensures Sorted(C.Flatten(Contents(files)))
    ensures Elements(C.Flatten(Contents(files))) == LevelEntries(Elements(files))
  {
    if files != [] {
      var n := |files| - 1;
      var init, last := files[..n], files[n];
      ConcatenationSorted(init);
      assert files == init + [last];
      assert Contents(files)[..n] == Contents(init);
      var front := C.Flatten(Contents(init));
      FileBounds(last);
      forall x | x in front ensures Less(x.k, last.smallest) {
        assert x in Elements(front);
        var f :| f in Elements(init) && x in f.entries;
        FileBounds(f);
        assert Less(f.largest, last.smallest);
      }
      SortedJoin(front, last.entries);
      assert Elements(files) == Elements(init) + {last};
      assert C.Flatten(Contents(files)) == front + last.entries;
      assert Elements(front + last.entries) == Elements(front) + Elements(last.entries);
    }
  }

  lemma LevelRun(files: seq<File>)
    requires Disjoint(files) && forall f <- files :: ValidFile(f)
    ensures GoodRuns([C.Flatten(Contents(files))], LevelEntries(Elements(files)))
  {
    ConcatenationSorted(files);
    OneRun(C.Flatten(Contents(files)));
  }

  lemma KeyInOneFile(files: seq<File>, a: nat, b: nat, i: nat, j: nat)
    requires NewerByNumber(Elements(files)) && DistinctNumbers(files)
    requires a < |files| && b < |files| && Sorted(files[a].entries)
    requires i < |files[a].entries| && j < |files[b].entries| && (a != b || i != j)
    ensures files[a].entries[i].k != files[b].entries[j].k
  {
    var f, g := files[a], files[b];
    if a != b {
      assert f in Elements(files) && g in Elements(files) && f.number != g.number;
      assert f.entries[i] in Elements(f.entries) && g.entries[j] in Elements(g.entries);
    } else {
      assert Less(f.entries[if i < j then i else j].k, f.entries[if i < j then j else i].k);
    }
  }

  /** Level-0 files are separate runs: two of them never hold the same key, as one is newer by number. */
  lemma LevelZeroRuns(files: seq<File>)
    requires NewerByNumber(Elements(files)) && DistinctNumbers(files)
    requires forall f <- files :: ValidFile(f)
    ensures GoodRuns(Contents(files), LevelEntries(Elements(files)))
  {
    var runs: seq<seq<Entry>> := Contents(files);
    forall a: nat, b: nat, i: nat, j: nat | 0 <= a < |runs| && 0 <= b < |runs| && 0 <= i < |runs[a]| && 0 <= j < |runs[b]| && runs[a][i].k == runs[b][j].k
      ensures a == b && i == j
    {
      assert files[a] in files;
      if a != b || i != j {
        KeyInOneFile(files, a, b, i, j);
        assert false;
      }
    }
    forall a | 0 <= a < |runs| ensures Sorted(runs[a]) {
      assert files[a] in files;
    }
    RunEntriesOf(files);
  }

  lemma RunEntriesOf(files: seq<File>)
    ensures RunEntries(Contents(files)) == LevelEntries(Elements(files))
  {
    var runs := Contents(files);
    forall e ensures e in RunEntries(runs) <==> e in LevelEntries(Elements(files)) {
      if e in RunEntries(runs) {
        var a, j :| 0 <= a < |runs| && 0 <= j < |runs[a]| && runs[a][j] == e;
        assert files[a] in Elements(files) && e in files[a].entries;
      }
      if e in LevelEntries(Elements(files)) {
        var f :| f in Elements(files) && e in f.entries;
        var a :| 0 <= a < |files| && files[a] == f;
        var j :| 0 <= j < |runs[a]| && runs[a][j] == e;
      }
    }
  }

  // ---------------------------------------------------------------- the inputs of a compaction

  /** One child per level-0 input file, one concatenation per deeper input level. */
  function InputRuns(level: nat, in0: seq<File>, in1: seq<File>): seq<seq<Entry>> {
    (if level == 0 then Contents(in0) else [C.Flatten(Contents(in0))]) + NextRuns(in1)
  }

  function NextRuns(in1: seq<File>): seq<seq<Entry>> {
    if in1 == [] then [] else [C.Flatten(Contents(in1))]
  }

  lemma SliceDisjoint(files: seq<File>, part: seq<File>)
    requires Disjoint(files) && Adjacent(files, part)
    ensures Disjoint(part)
  {
  }

  lemma PulledInRun(next: seq<File>, in0: seq<File>, in1: seq<File>)
    requires Disjoint(next) && forall f <- next :: ValidFile(f)
    requires PullsIn(next, in0, in1)
    ensures Disjoint(in1) && forall f <- in1 :: ValidFile(f)
  {
    var smallest, largest :| IsRange(in0, smallest, largest) && in1 == OverlappingFiles(next, UserRange(smallest, largest));
    var lo, hi := OverlapIsSlice(next, UserRange(smallest, largest));
  }

  lemma {:induction false} OverlappingDistinct(files: seq<File>, r: Range)
    requires DistinctNumbers(files)
    ensures DistinctNumbers(OverlappingFiles(files, r))
  {
    if files != [] {
      var init := files[..|files| - 1];
      OverlappingDistinct(init, r);
      OverlappingMembers(init, r);
      var part := OverlappingFiles(init, r);
      forall i | 0 <= i < |part| ensures part[i].number != files[|files| - 1].number {
        assert part[i] in part && part[i] in init;
      }
    }
  }

  lemma FirstInputRuns(v: Levels, level: nat, in0: seq<File>)
    requires ValidVersion(v) && level < NUM_LEVELS
    requires CanStart(v[level], level, in0) && forall f <- in0 :: f in v[level]
    ensures GoodRuns(if level == 0 then Contents(in0) else [C.Flatten(Contents(in0))], LevelEntries(Elements(in0)))
  {
    if level == 0 {
      var r :| ClosedRange(v[0], r) && in0 == OverlappingFiles(v[0], r);
      OverlappingDistinct(v[0], r);
      forall f <- in0 ensures ValidFile(f) {
        assert f in v[level];
      }
      LevelZeroRuns(in0);
    } else {
      SliceDisjoint(v[level], in0);
      LevelRun(in0);
    }
  }

  lemma InputRunsGood(v: Levels, level: nat, in0: seq<File>, in1: seq<File>)
    requires ValidVersion(v) && level + 1 < NUM_LEVELS
    requires Selected(v, level, in0, in1)
    ensures GoodRuns(InputRuns(level, in0, in1), InputEntries(in0, in1))
  {
    hide GoodRuns, Disjoint;
    SelectedFromNext(v, level, in0, in1);
    FirstInputRuns(v, level, in0);
    PulledInRun(v[level + 1], in0, in1);
    if in1 == [] {
      NoRuns();
      assert LevelEntries(Elements(in1)) == {};
    } else {
      LevelRun(in1);
    }
    InputsAreOldEntries(v, level, in0, in1);
    assert Newer(EntriesAt(v, level), EntriesAt(v, level + 1));
    NewerParts(EntriesAt(v, level), EntriesAt(v, level + 1), LevelEntries(Elements(in0)), LevelEntries(Elements(in1)));
    JoinRuns(if level == 0 then Contents(in0) else [C.Flatten(Contents(in0))], NextRuns(in1),
             LevelEntries(Elements(in0)), LevelEntries(Elements(in1)));
  }

  /** Merge the inputs of a compaction by walking a merging iterator over them from its first entry. */
  method MergeInputs(v: Levels, level: nat, in0: seq<File>, in1: seq<File>) returns (merged: seq<Entry>)
    requires ValidVersion(v) && level + 1 < NUM_LEVELS
    requires Selected(v, level, in0, in1)
    ensures Sorted(merged) && Elements(merged) == InputEntries(in0, in1)
  {
    InputRunsGood(v, level, in0, in1);
    merged := M.WalkForward(InputRuns(level, in0, in1));
  }

  // ---------------------------------------------------------------- the whole store

  /** The children for the levels from `level` (at least 1) down: one per non-empty level. */
  function LevelRuns(v: Levels, level: nat): seq<seq<Entry>>
    decreases |v| - level
  {
    if level >= |v| then []
    else (if v[level] == [] then [] else [C.Flatten(Contents(v[level]))]) + LevelRuns(v, level + 1)
  }

  function StoreRuns(mem: seq<Entry>, imm: Option<seq<Entry>>, v: Levels): seq<seq<Entry>>
    requires |v| > 0
  {
    [mem] + ((if imm.Some? then [imm.value] else []) + (Contents(v[0]) + LevelRuns(v, 1)))
  }

  lemma {:induction false} LevelRunsGood(v: Levels, level: nat)
    requires ValidVersion(v) && 1 <= level <= NUM_LEVELS
    ensures GoodRuns(LevelRuns(v, level), EntriesBelow(v, level))
    decreases NUM_LEVELS - level
  {
    if level == NUM_LEVELS {
      NoRuns();
      assert EntriesBelow(v, level) == {};
    } else {
      hide GoodRuns;
      LevelRunsGood(v, level + 1);
      LevelAbove(v, level);
      if v[level] == [] {
        assert EntriesAt(v, level) == {};
        assert LevelRuns(v, level) == LevelRuns(v, level + 1);
        assert EntriesBelow(v, level) == EntriesBelow(v, level + 1);
      } else {
        LevelRun(v[level]);
        JoinRuns([C.Flatten(Contents(v[level]))], LevelRuns(v, level + 1), EntriesAt(v, level), EntriesBelow(v, level + 1));
      }
    }
  }

  lemma LevelAbove(v: Levels, level: nat)
    requires ValidVersion(v) && level < NUM_LEVELS
    ensures EntriesBelow(v, level) == EntriesAt(v, level) + EntriesBelow(v, level + 1)
    ensures Newer(EntriesAt(v, level), EntriesBelow(v, level + 1))
  {
    forall x, y | x in EntriesAt(v, level) && y in EntriesBelow(v, level + 1) && x.k.user == y.k.user ensures x.k.seqno > y.k.seqno {
      var l: nat :| level + 1 <= l < |v| && y in EntriesAt(v, l);
      assert Newer(EntriesAt(v, level), EntriesAt(v, l));
    }
  }

  lemma VersionRunsGood(v: Levels)
    requires ValidVersion(v)
    ensures GoodRuns(Contents(v[0]) + LevelRuns(v, 1), VersionEntries(v))
  {
    hide GoodRuns;
    LevelRunsGood(v, 1);
    LevelAbove(v, 0);
    var files := v[0];
    assert forall f <- files :: ValidFile(f);
    LevelZeroRuns(files);
    JoinRuns(Contents(v[0]), LevelRuns(v, 1), EntriesAt(v, 0), EntriesBelow(v, 1));
  }

  lemma VersionHasLevels(v: Levels)
    requires ValidVersion(v)
    ensures |v| == NUM_LEVELS
  {
  }

  /** The children of the iterator over the whole store are good runs for all of its entries. */
  lemma StoreRunsGood(st: State)
    requires Structured(st)
    ensures GoodRuns(StoreRuns(st.mem, st.imm, st.version), All(st))
  {
    hide GoodRuns, ValidVersion;
    var v := st.version;
    VersionHasLevels(v);
    VersionRunsGood(v);
    OneRun(st.mem);
    NewerUnion(VersionEntries(v), Elements(st.mem), ImmEntries(st));
    var below := Contents(v[0]) + LevelRuns(v, 1);
    if st.imm.Some? {
      OneRun(st.imm.value);
      JoinRuns([st.imm.value], below, ImmEntries(st), VersionEntries(v));
    }
    var rest := (if st.imm.Some? then [st.imm.value] else []) + below;
    assert GoodRuns(rest, ImmEntries(st) + VersionEntries(v)) by {
      if st.imm.None? {
        assert rest == below && ImmEntries(st) + VersionEntries(v) == VersionEntries(v);
      }
    }
    NewerUnion(Elements(st.mem), ImmEntries(st), VersionEntries(v));
    JoinRuns([st.mem], rest, Elements(st.mem), ImmEntries(st) + VersionEntries(v));
    assert All(st) == Elements(st.mem) + (ImmEntries(st) + VersionEntries(v));
  }
}
