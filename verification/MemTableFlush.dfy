/** Turning a memtable into a table file of a well-chosen level (db/version_set.cc: SomeFileOverlapsRange,
    PickLevelForMemTableOutput; db/db_impl.cc: WriteLevel0Table; db/builder.cc: BuildTable). */
module MemTableFlush {
  import opened InternalKeys
  import opened Version
  import opened InputSelection
  import opened VersionBuilder
  import opened MergeDown

  const MAX_MEM_COMPACT_LEVEL: nat := 2

  ghost predicate Encodable(files: seq<File>) {
    forall f <- files :: f.largest.seqno <= MAX_SEQUENCE
  }

  method SomeFileOverlapsRange(disjointSorted: bool, files: seq<File>, r: Range) returns (overlap: bool)
    requires forall f <- files :: ValidFile(f)
    requires Encodable(files)
    requires disjointSorted ==> Disjoint(files)
    ensures overlap <==> exists f <- files :: Overlaps(f, r)
  {
    if !disjointSorted {
      for i := 0 to |files|
        invariant forall j :: 0 <= j < i ==> !Overlaps(files[j], r)
      {
        var f := files[i];
        if (r.begin.Some? && r.begin.value > f.largest.user) || (r.end.Some? && r.end.value < f.smallest.user) {
        } else {
          assert f in files && Overlaps(f, r);
          return true;
        }
      }
      return false;
    }
    var index := 0;
    if r.begin.Some? {
      index := FindFile(files, SeekKey(r.begin.value, MAX_SEQUENCE));
      UsersBefore(files, r.begin.value, index);
    }
    overlap := index < |files| && !(r.end.Some? && r.end.value < files[index].smallest.user);
    if overlap {
      assert Overlaps(files[index], r);
    } else {
      NoneBehind(files, r, index);
    }
  }

  lemma UsersBefore(files: seq<File>, u: UserKey, index: nat)
    requires Encodable(files) && index <= |files|
    requires forall i :: 0 <= i < index ==> Less(files[i].largest, SeekKey(u, MAX_SEQUENCE))
    requires forall i :: index <= i < |files| ==> !Less(files[i].largest, SeekKey(u, MAX_SEQUENCE))
    ensures forall i :: 0 <= i < index ==> files[i].largest.user < u
    ensures forall i :: index <= i < |files| ==> files[i].largest.user >= u
  {
    assert forall i :: 0 <= i < |files| ==> files[i] in files;
  }

  lemma NoneBehind(files: seq<File>, r: Range, index: nat)
    requires (forall f <- files :: ValidFile(f)) && Disjoint(files) && index <= |files|
    requires if r.begin.Some? then forall i :: 0 <= i < index ==> files[i].largest.user < r.begin.value else index == 0
    requires index < |files| ==> r.end.Some? && r.end.value < files[index].smallest.user
    ensures forall f <- files :: !Overlaps(f, r)
  {
    forall j | index <= j < |files| ensures !Overlaps(files[j], r) {
      StartsAscend(files, index, j);
    }
  }

  lemma StartsAscend(files: seq<File>, i: nat, j: nat)
    requires (forall f <- files :: ValidFile(f)) && Disjoint(files) && i <= j < |files|
    ensures files[i].smallest.user <= files[j].smallest.user
  {
    FileBounds(files[i]);
  }

  ghost predicate FitsAt(v: Levels, level: nat, r: Range)
    requires level < |v|
  {
    level > 0 ==> forall l, f :: 0 <= l <= level && f in v[l] ==> !Overlaps(f, r)
  }

  /** The output may go one level further down: nothing there meets it, and not too much of the level below that does. */
  predicate GoesOn(v: Levels, r: Range, grandparentLimit: nat, level: nat)
    requires |v| == NUM_LEVELS
  {
    && level < MAX_MEM_COMPACT_LEVEL && level + 2 < NUM_LEVELS
    && (forall f <- v[level + 1] :: !Overlaps(f, r))
    && TotalFileSize(OverlappingFiles(v[level + 2], r)) <= grandparentLimit
  }

  /** The level is 0 if something there meets the range, and otherwise as far down as one can go from there. */
  predicate Picked(v: Levels, r: Range, grandparentLimit: nat, level: nat)
    requires |v| == NUM_LEVELS
  {
    if exists f <- v[0] :: Overlaps(f, r) then level == 0
    else !GoesOn(v, r, grandparentLimit, level) && forall l :: 0 <= l < level ==> GoesOn(v, r, grandparentLimit, l)
  }

  /** The level for a flushed memtable: it may skip levels only while nothing there overlaps its user-key range. */
  method PickLevelForMemTableOutput(v: Levels, smallest: UserKey, largest: UserKey, grandparentLimit: nat) returns (level: nat)
    requires ValidVersion(v)
    requires forall l :: 0 <= l < NUM_LEVELS ==> Encodable(v[l])
    ensures level <= MAX_MEM_COMPACT_LEVEL
    ensures FitsAt(v, level, Range(Some(smallest), Some(largest)))
    ensures Picked(v, Range(Some(smallest), Some(largest)), grandparentLimit, level)
  {
    level := 0;
    var r := Range(Some(smallest), Some(largest));
    var overlap := SomeFileOverlapsRange(false, v[0], r);
    if !overlap {
      while level < MAX_MEM_COMPACT_LEVEL
        invariant level <= MAX_MEM_COMPACT_LEVEL
        invariant forall l, f :: 0 <= l <= level && f in v[l] ==> !Overlaps(f, r)
        invariant forall l :: 0 <= l < level ==> GoesOn(v, r, grandparentLimit, l)
      {
        overlap := SomeFileOverlapsRange(true, v[level + 1], r);
        if overlap {
          break;
        }
        if level + 2 < NUM_LEVELS {
          var overlaps := GetOverlappingInputs(v[level + 2], level + 2, r);
          if TotalFileSize(overlaps) > grandparentLimit {
            break;
          }
        }
        level := level + 1;
      }
    }
  }

  /** BuildTable: the file that holds a non-empty sorted run. */
  function TableOf(number: nat, size: nat, run: seq<Entry>): File
    requires run != []
  {
    File(number, size, run[0].k, run[|run| - 1].k, run)
  }

  function UserRangeOf(run: seq<Entry>): Range
    requires run != []
  {
    Range(Some(run[0].k.user), Some(run[|run| - 1].k.user))
  }

  /** A new file at `level`, the other levels unchanged. */
  ghost predicate Added(v: Levels, level: nat, f: File, w: Levels) {
    && |v| == |w| == NUM_LEVELS
    && (forall l :: 0 <= l < NUM_LEVELS ==> SortedBySmallest(w[l]))
    && (forall l :: 0 <= l < NUM_LEVELS ==> Elements(w[l]) == Elements(v[l]) + if l == level then {f} else {})
  }

  lemma InstalledAdds(v: Levels, level: nat, f: File, w: Levels)
    requires level < NUM_LEVELS && Installs(v, Edit({}, [(level, f)]), w)
    ensures Added(v, level, f, w)
  {
    var edit := Edit({}, [(level, f)]);
    forall l | 0 <= l < NUM_LEVELS ensures Elements(w[l]) == Elements(v[l]) + if l == level then {f} else {} {
      assert (level, f) in edit.added;
      assert AddedAt(edit, l) == if l == level then {f} else {};
    }
  }

  /** The entries of a file with no user-key overlap share no user key with the files it does not meet. */
  lemma NoOverlapIsNewer(f: File, files: set<File>)
    requires ValidFile(f) && forall g <- files :: ValidFile(g)
    requires forall g <- files :: !Overlaps(g, Range(Some(f.smallest.user), Some(f.largest.user)))
    ensures Newer(LevelEntries(files), Elements(f.entries))
  {
    FileBounds(f);
    forall x, y | x in LevelEntries(files) && y in Elements(f.entries) ensures x.k.user != y.k.user {
      var g :| g in files && x in g.entries;
      FileBounds(g);
    }
  }

  lemma AddedEntries(v: Levels, level: nat, f: File, w: Levels)
    requires Added(v, level, f, w) && level < NUM_LEVELS
    ensures EntriesAt(w, level) == EntriesAt(v, level) + Elements(f.entries)
    ensures forall l: nat :: l < NUM_LEVELS && l != level ==> EntriesAt(w, l) == EntriesAt(v, l)
    ensures VersionEntries(w) == VersionEntries(v) + Elements(f.entries)
  {
    forall e | e in EntriesAt(v, level) + Elements(f.entries) ensures e in EntriesAt(w, level) {
      assert f in Elements(w[level]);
      if e in EntriesAt(v, level) {
        var g :| g in Elements(v[level]) && e in g.entries;
        assert g in Elements(w[level]);
      }
    }
  }

  lemma AddedKeepsRecency(v: Levels, level: nat, f: File, w: Levels, l: nat, m: nat)
    requires ValidVersion(v) && ValidFile(f) && level < NUM_LEVELS
    requires Added(v, level, f, w)
    requires FitsAt(v, level, Range(Some(f.smallest.user), Some(f.largest.user)))
    requires Newer(Elements(f.entries), VersionEntries(v))
    requires l < m < NUM_LEVELS
    ensures Newer(EntriesAt(w, l), EntriesAt(w, m))
  {
    AddedEntries(v, level, f, w);
    assert Newer(EntriesAt(v, l), EntriesAt(v, m));
    if m == level {
      NoOverlapIsNewer(f, Elements(v[l]));
      NewerUnion(EntriesAt(v, l), EntriesAt(v, m), Elements(f.entries));
    } else if l == level {
      assert EntriesAt(v, m) <= VersionEntries(v);
      NewerParts(Elements(f.entries), VersionEntries(v), Elements(f.entries), EntriesAt(v, m));
      NewerUnion(EntriesAt(v, m), EntriesAt(v, l), Elements(f.entries));
    }
  }

  lemma AddedDisjoint(v: Levels, level: nat, f: File, w: Levels, l: nat)
    requires ValidVersion(v) && ValidFile(f) && 1 <= l < NUM_LEVELS
    requires Added(v, level, f, w) && level < NUM_LEVELS
    requires FitsAt(v, level, Range(Some(f.smallest.user), Some(f.largest.user)))
    ensures Disjoint(w[l])
  {
    DisjointIsApart(v[l]);
    forall g | g in w[l] ensures ValidFile(g) {
      assert g in Elements(w[l]);
    }
    if l == level {
      var r := Range(Some(f.smallest.user), Some(f.largest.user));
      forall g | g in v[l] ensures Less(g.largest, f.smallest) || Less(f.largest, g.smallest) {
        assert !Overlaps(g, r);
      }
    }
    SortedApartIsDisjoint(w[l]);
  }

  lemma AddedNumbers(v: Levels, level: nat, f: File, w: Levels, l: nat)
    requires ValidVersion(v) && level < NUM_LEVELS && l < NUM_LEVELS
    requires Added(v, level, f, w) && forall g <- v[level] :: g.number != f.number
    ensures DistinctNumbers(w[l])
  {
    forall g, h | g in Elements(w[l]) && h in Elements(w[l]) && g.number == h.number ensures g == h {
      if g in v[l] && h in v[l] {
        LevelNumbersDistinct(v[l], g, h);
      }
    }
    NumbersStayDistinct(w[l], Elements(w[l]));
  }

  /** Adding the newest data as a new file keeps the version well-formed if it meets nothing down to its level. */
  lemma AddedIsValid(v: Levels, level: nat, f: File, w: Levels)
    requires ValidVersion(v) && ValidFile(f) && level < NUM_LEVELS
    requires Added(v, level, f, w)
    requires FitsAt(v, level, Range(Some(f.smallest.user), Some(f.largest.user)))
    requires Newer(Elements(f.entries), VersionEntries(v))
    requires Unambiguous(VersionEntries(v) + Elements(f.entries))
    requires forall l, g :: 0 <= l < NUM_LEVELS && g in v[l] ==> g.number < f.number
    ensures ValidVersion(w)
  {
    AddedEntries(v, level, f, w);
    forall l | 0 <= l < NUM_LEVELS ensures DistinctNumbers(w[l]) {
      AddedNumbers(v, level, f, w, l);
    }
    forall l, g | 0 <= l < NUM_LEVELS && g in w[l] ensures ValidFile(g) {
      assert g in Elements(w[l]);
    }
    forall l | 1 <= l < NUM_LEVELS ensures Disjoint(w[l]) {
      AddedDisjoint(v, level, f, w, l);
    }
    forall l, m | 0 <= l < m < NUM_LEVELS ensures Newer(EntriesAt(w, l), EntriesAt(w, m)) {
      AddedKeepsRecency(v, level, f, w, l, m);
    }
    AddedLevelZero(v, level, f, w);
    forall l | 0 <= l < NUM_LEVELS ensures Unambiguous(EntriesAt(w, l)) {
      assert EntriesAt(w, l) <= VersionEntries(w);
    }
  }

  lemma AddedLevelZero(v: Levels, level: nat, f: File, w: Levels)
    requires ValidVersion(v) && level < NUM_LEVELS
    requires Added(v, level, f, w)
    requires Newer(Elements(f.entries), VersionEntries(v))
    requires forall l, g :: 0 <= l < NUM_LEVELS && g in v[l] ==> g.number < f.number
    ensures NewerByNumber(Elements(w[0]))
  {
    forall g, h | g in Elements(w[0]) && h in Elements(w[0]) && g.number > h.number
      ensures Newer(Elements(g.entries), Elements(h.entries))
    {
      if g == f {
        assert Elements(h.entries) <= EntriesAt(v, 0);
        assert EntriesAt(v, 0) <= VersionEntries(v);
        NewerParts(Elements(f.entries), VersionEntries(v), Elements(f.entries), Elements(h.entries));
      }
    }
  }
}
