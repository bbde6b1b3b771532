/** Replacing compaction inputs by their outputs one level down keeps a version well-formed. */
module MergeDown {
  import opened InternalKeys
  import opened Version
  import opened InputSelection
  import opened VersionBuilder

  ghost function InputEntries(in0: seq<File>, in1: seq<File>): set<Entry> {
    LevelEntries(Elements(in0) + Elements(in1))
  }

  /** The edit that moves the inputs of `level` and `level + 1` into `outputs` at `level + 1`. */
  function CompactionEdit(level: nat, in0: seq<File>, in1: seq<File>, outputs: seq<File>): Edit {
    Edit((set f | f in in0 :: (level, f.number)) + (set f | f in in1 :: (level + 1, f.number)),
         seq(|outputs|, i requires 0 <= i < |outputs| => (level + 1, outputs[i])))
  }

  /** Outputs that may replace the inputs: well-formed, ordered, made of input entries, under numbers new to the output level. */
  ghost predicate GoodOutputs(v: Levels, level: nat, in0: seq<File>, in1: seq<File>, outputs: seq<File>)
    requires level + 1 < |v|
  {
    && (forall o <- outputs :: ValidFile(o))
    && Disjoint(outputs)
    && LevelEntries(Elements(outputs)) <= InputEntries(in0, in1)
    && DistinctNumbers(outputs)
    && (forall o, g :: o in outputs && g in v[level + 1] ==> o.number != g.number)
  }

  /** The files of each level once the inputs have been replaced. */
  ghost predicate Replaced(v: Levels, level: nat, in0: seq<File>, in1: seq<File>, outputs: seq<File>, w: Levels)
    requires level + 1 < NUM_LEVELS
  {
    && |v| == |w| == NUM_LEVELS
    && (forall l :: 0 <= l < NUM_LEVELS ==> SortedBySmallest(w[l]))
    && Elements(w[level]) == Elements(v[level]) - Elements(in0)
    && Elements(w[level + 1]) == (Elements(v[level + 1]) - Elements(in1)) + Elements(outputs)
    && (forall l :: 0 <= l < NUM_LEVELS && l != level && l != level + 1 ==> Elements(w[l]) == Elements(v[l]))
  }

  lemma EditAdds(level: nat, in0: seq<File>, in1: seq<File>, outputs: seq<File>, l: nat)
    ensures AddedAt(CompactionEdit(level, in0, in1, outputs), l) == if l == level + 1 then Elements(outputs) else {}
    ensures forall n :: AddsNumber(CompactionEdit(level, in0, in1, outputs), l, n) ==>
              l == level + 1 && exists o <- outputs :: o.number == n
  {
    var edit := CompactionEdit(level, in0, in1, outputs);
    forall o | o in outputs ensures (level + 1, o) in edit.added {
      var i :| 0 <= i < |outputs| && outputs[i] == o;
      assert edit.added[i] == (level + 1, o);
    }
    assert forall o <- outputs :: (level + 1, o).1 in AddedAt(edit, level + 1);
  }

  lemma InstalledReplaces(v: Levels, level: nat, in0: seq<File>, in1: seq<File>, outputs: seq<File>, w: Levels)
    requires ValidVersion(v) && level + 1 < NUM_LEVELS
    requires forall f <- in0 :: f in v[level]
    requires forall f <- in1 :: f in v[level + 1]
    requires GoodOutputs(v, level, in0, in1, outputs)
    requires Installs(v, CompactionEdit(level, in0, in1, outputs), w)
    ensures Replaced(v, level, in0, in1, outputs, w)
  {
    var edit := CompactionEdit(level, in0, in1, outputs);
    forall l | 0 <= l < NUM_LEVELS
      ensures Elements(w[l]) == if l == level then Elements(v[level]) - Elements(in0)
                                else if l == level + 1 then (Elements(v[level + 1]) - Elements(in1)) + Elements(outputs)
                                else Elements(v[l])
    {
      EditAdds(level, in0, in1, outputs, l);
      forall f | f in v[l] ensures (l, f.number) in edit.deleted <==> (l == level && f in in0) || (l == level + 1 && f in in1) {
        if l == level && f in in0 {
          assert (level, f.number) in set g | g in in0 :: (level, g.number);
        }
        if l == level + 1 && f in in1 {
          assert (level + 1, f.number) in set g | g in in1 :: (level + 1, g.number);
        }
      }
      assert Elements(w[l]) == FilesAfter(Elements(v[l]), edit, l);
      if l == level + 1 {
        forall o | o in outputs ensures AddsNumber(edit, l, o.number) {
          assert o in AddedAt(edit, l);
        }
      }
    }
  }

  ghost predicate Apart(files: set<File>) {
    forall f, g :: f in files && g in files && f != g ==> Less(f.largest, g.smallest) || Less(g.largest, f.smallest)
  }

  lemma SortedApartIsDisjoint(files: seq<File>)
    requires SortedBySmallest(files) && Apart(Elements(files))
    requires forall f <- files :: ValidFile(f)
    ensures Disjoint(files)
  {
    forall i, j | 0 <= i < j < |files| ensures Less(files[i].largest, files[j].smallest) {
      assert files[i] in Elements(files) && files[j] in Elements(files);
      FileBounds(files[i]);
      FileBounds(files[j]);
      assert BySmallestKey(files[i], files[j]);
    }
  }

  lemma DisjointIsApart(files: seq<File>)
    requires Disjoint(files)
    ensures Apart(Elements(files))
  {
  }

  /** A file of the next level that was not pulled in lies to one side of every input file. */
  lemma StaysAside(v: Levels, level: nat, in0: seq<File>, in1: seq<File>, g: File, smallest: IKey, largest: IKey)
    requires ValidVersion(v) && level + 1 < NUM_LEVELS
    requires IsRange(in0, smallest, largest)
    requires forall f <- in0 :: ValidFile(f)
    requires in1 == OverlappingFiles(v[level + 1], UserRange(smallest, largest))
    requires g in v[level + 1] && g !in in1
    ensures (g.largest.user < smallest.user && forall h <- in1 :: Less(g.largest, h.smallest)) ||
            (g.smallest.user > largest.user && forall h <- in1 :: Less(h.largest, g.smallest))
  {
    OverlappingMembers(v[level + 1], UserRange(smallest, largest));
    FileBounds(g);
    forall h <- in1
      ensures g.largest.user < smallest.user ==> Less(g.largest, h.smallest)
      ensures g.smallest.user > largest.user ==> Less(h.largest, g.smallest)
    {
      FileBounds(h);
      DisjointIsApart(v[level + 1]);
      assert g in Elements(v[level + 1]) && h in Elements(v[level + 1]);
      assert Overlaps(h, UserRange(smallest, largest));
    }
  }

  /** Every output lies to one side of every file that stays in the output level. */
  lemma OutputAside(v: Levels, level: nat, in0: seq<File>, in1: seq<File>, o: File, g: File)
    requires ValidVersion(v) && level + 1 < NUM_LEVELS
    requires Selected(v, level, in0, in1)
    requires ValidFile(o) && Elements(o.entries) <= InputEntries(in0, in1)
    requires g in v[level + 1] && g !in in1
    ensures Less(g.largest, o.smallest) || Less(o.largest, g.smallest)
  {
    var smallest, largest :| IsRange(in0, smallest, largest) && in1 == OverlappingFiles(v[level + 1], UserRange(smallest, largest));
    StaysAside(v, level, in0, in1, g, smallest, largest);
    OverlappingMembers(v[level + 1], UserRange(smallest, largest));
    var first, last := o.entries[0], o.entries[|o.entries| - 1];
    assert first in Elements(o.entries) && last in Elements(o.entries);
    InputEntryAside(in0, in1, g, smallest, largest, first);
    InputEntryAside(in0, in1, g, smallest, largest, last);
  }

  lemma InputEntryAside(in0: seq<File>, in1: seq<File>, g: File, smallest: IKey, largest: IKey, e: Entry)
    requires forall f :: f in in0 || f in in1 ==> ValidFile(f)
    requires IsRange(in0, smallest, largest) && e in InputEntries(in0, in1) && ValidFile(g)
    ensures g.largest.user < smallest.user && (forall h <- in1 :: Less(g.largest, h.smallest)) ==> Less(g.largest, e.k)
    ensures g.smallest.user > largest.user && (forall h <- in1 :: Less(h.largest, g.smallest)) ==> Less(e.k, g.smallest)
  {
    var f :| f in Elements(in0) + Elements(in1) && e in f.entries;
    FileBounds(f);
    assert f in in0 || f in in1;
  }

  lemma OutputLevelApart(v: Levels, level: nat, in0: seq<File>, in1: seq<File>, outputs: seq<File>)
    requires ValidVersion(v) && level + 1 < NUM_LEVELS
    requires Selected(v, level, in0, in1)
    requires GoodOutputs(v, level, in0, in1, outputs)
    ensures Apart((Elements(v[level + 1]) - Elements(in1)) + Elements(outputs))
  {
    DisjointIsApart(v[level + 1]);
    DisjointIsApart(outputs);
    forall o, g | o in outputs && g in v[level + 1] && g !in in1
      ensures Less(g.largest, o.smallest) || Less(o.largest, g.smallest)
    {
      forall e | e in Elements(o.entries) ensures e in InputEntries(in0, in1) {
        assert o in Elements(outputs);
        assert e in LevelEntries(Elements(outputs));
      }
      OutputAside(v, level, in0, in1, o, g);
    }
  }

  /** The entries of the two changed levels after the replacement. */
  lemma ReplacedEntries(v: Levels, level: nat, in0: seq<File>, in1: seq<File>, outputs: seq<File>, w: Levels)
    requires level + 1 < NUM_LEVELS && Replaced(v, level, in0, in1, outputs, w)
    ensures EntriesAt(w, level) == LevelEntries(Elements(v[level]) - Elements(in0))
    ensures EntriesAt(w, level + 1) == LevelEntries(Elements(v[level + 1]) - Elements(in1)) + LevelEntries(Elements(outputs))
    ensures forall l: nat :: l < NUM_LEVELS && l != level && l != level + 1 ==> EntriesAt(w, l) == EntriesAt(v, l)
  {
  }

  lemma InputsAreOldEntries(v: Levels, level: nat, in0: seq<File>, in1: seq<File>)
    requires level + 1 < |v|
    requires forall f <- in0 :: f in v[level]
    requires forall f <- in1 :: f in v[level + 1]
    ensures InputEntries(in0, in1) == LevelEntries(Elements(in0)) + LevelEntries(Elements(in1))
    ensures LevelEntries(Elements(in0)) <= EntriesAt(v, level)
    ensures LevelEntries(Elements(in1)) <= EntriesAt(v, level + 1)
  {
  }

  lemma LeftOutNewerThanInputs(v: Levels, level: nat, in0: seq<File>, in1: seq<File>)
    requires ValidVersion(v) && level + 1 < NUM_LEVELS
    requires LeftOutIsNewer(v[level], in0) && forall f <- in1 :: f in v[level + 1]
    requires forall f <- in0 :: f in v[level]
    ensures Newer(LevelEntries(Elements(v[level]) - Elements(in0)), InputEntries(in0, in1))
  {
    InputsAreOldEntries(v, level, in0, in1);
    assert Newer(EntriesAt(v, level), EntriesAt(v, level + 1));
    var left := LevelEntries(Elements(v[level]) - Elements(in0));
    assert left <= EntriesAt(v, level);
    forall x, y | x in left && y in LevelEntries(Elements(in0)) && x.k.user == y.k.user ensures x.k.seqno > y.k.seqno {
      var f :| f in Elements(v[level]) - Elements(in0) && x in f.entries;
      var g :| g in Elements(in0) && y in g.entries;
      assert Newer(Elements(f.entries), Elements(g.entries));
      assert x in Elements(f.entries) && y in Elements(g.entries);
    }
  }

  lemma NewerParts(a: set<Entry>, b: set<Entry>, a': set<Entry>, b': set<Entry>)
    requires Newer(a, b) && a' <= a && b' <= b
    ensures Newer(a', b')
  {
  }

  lemma NewerUnion(a: set<Entry>, b: set<Entry>, c: set<Entry>)
    ensures Newer(a, b + c) <==> Newer(a, b) && Newer(a, c)
    ensures Newer(b + c, a) <==> Newer(b, a) && Newer(c, a)
  {
  }

  /** Levels stay ordered by recency. */
  lemma ReplacedKeepsRecency(v: Levels, level: nat, in0: seq<File>, in1: seq<File>, outputs: seq<File>, w: Levels, l: nat, m: nat)
    requires ValidVersion(v) && level + 1 < NUM_LEVELS
    requires Selected(v, level, in0, in1) && GoodOutputs(v, level, in0, in1, outputs)
    requires Replaced(v, level, in0, in1, outputs, w)
    requires l < m < NUM_LEVELS
    ensures Newer(EntriesAt(w, l), EntriesAt(w, m))
  {
    SelectedFromNext(v, level, in0, in1);
    ReplacedEntries(v, level, in0, in1, outputs, w);
    InputsAreOldEntries(v, level, in0, in1);
    LeftOutNewerThanInputs(v, level, in0, in1);
    var left0 := LevelEntries(Elements(v[level]) - Elements(in0));
    var left1 := LevelEntries(Elements(v[level + 1]) - Elements(in1));
    var outs := LevelEntries(Elements(outputs));
    assert left0 <= EntriesAt(v, level) && left1 <= EntriesAt(v, level + 1);
    assert outs <= EntriesAt(v, level) + EntriesAt(v, level + 1);
    assert Newer(EntriesAt(v, l), EntriesAt(v, m));
    if m == level {
      NewerParts(EntriesAt(v, l), EntriesAt(v, level), EntriesAt(w, l), left0);
    } else if m == level + 1 {
      if l == level {
        NewerParts(EntriesAt(v, l), EntriesAt(v, m), left0, left1);
        NewerParts(left0, InputEntries(in0, in1), left0, outs);
        NewerUnion(left0, left1, outs);
      } else {
        assert Newer(EntriesAt(v, l), EntriesAt(v, level));
        NewerUnion(EntriesAt(v, l), EntriesAt(v, level), EntriesAt(v, m));
        NewerParts(EntriesAt(v, l), EntriesAt(v, level) + EntriesAt(v, m), EntriesAt(w, l), EntriesAt(w, m));
      }
    } else if l == level + 1 {
      assert Newer(EntriesAt(v, level), EntriesAt(v, m));
      NewerUnion(EntriesAt(v, m), EntriesAt(v, level), EntriesAt(v, l));
      NewerParts(EntriesAt(v, level) + EntriesAt(v, l), EntriesAt(v, m), EntriesAt(w, l), EntriesAt(w, m));
    } else {
      NewerParts(EntriesAt(v, l), EntriesAt(v, m), EntriesAt(w, l), EntriesAt(w, m));
    }
  }

  lemma SelectedFromNext(v: Levels, level: nat, in0: seq<File>, in1: seq<File>)
    requires level + 1 < |v| && Selected(v, level, in0, in1)
    ensures forall f <- in1 :: f in v[level + 1]
  {
    var smallest, largest :| IsRange(in0, smallest, largest) && in1 == OverlappingFiles(v[level + 1], UserRange(smallest, largest));
    OverlappingMembers(v[level + 1], UserRange(smallest, largest));
  }

  lemma NumbersStayDistinct(files: seq<File>, numbers: set<File>)
    requires SortedBySmallest(files) && Elements(files) == numbers
    requires forall f, g :: f in numbers && g in numbers && f.number == g.number ==> f == g
    ensures DistinctNumbers(files)
  {
    forall i, j | 0 <= i < j < |files| ensures files[i].number != files[j].number {
      assert files[i] in Elements(files) && files[j] in Elements(files);
      assert BySmallestKey(files[i], files[j]);
    }
  }

  lemma LevelNumbersDistinct(files: seq<File>, f: File, g: File)
    requires DistinctNumbers(files) && f in files && g in files && f.number == g.number
    ensures f == g
  {
  }

  lemma ReplacedNumbers(v: Levels, level: nat, in0: seq<File>, in1: seq<File>, outputs: seq<File>, w: Levels, l: nat)
    requires ValidVersion(v) && level + 1 < NUM_LEVELS && l < NUM_LEVELS
    requires GoodOutputs(v, level, in0, in1, outputs) && Replaced(v, level, in0, in1, outputs, w)
    ensures DistinctNumbers(w[l])
    ensures forall f <- w[l] :: ValidFile(f)
  {
    forall f | f in w[l] ensures ValidFile(f) {
      assert f in Elements(w[l]);
    }
    forall f, g | f in Elements(w[l]) && g in Elements(w[l]) && f.number == g.number ensures f == g {
      if f in v[l] && g in v[l] {
        LevelNumbersDistinct(v[l], f, g);
      } else if f in outputs && g in outputs {
        LevelNumbersDistinct(outputs, f, g);
      }
    }
    NumbersStayDistinct(w[l], Elements(w[l]));
  }

  lemma ReplacedDisjoint(v: Levels, level: nat, in0: seq<File>, in1: seq<File>, outputs: seq<File>, w: Levels, l: nat)
    requires ValidVersion(v) && level + 1 < NUM_LEVELS && 1 <= l < NUM_LEVELS
    requires Selected(v, level, in0, in1) && GoodOutputs(v, level, in0, in1, outputs)
    requires Replaced(v, level, in0, in1, outputs, w)
    ensures Disjoint(w[l])
  {
    DisjointIsApart(v[l]);
    if l == level + 1 {
      OutputLevelApart(v, level, in0, in1, outputs);
    }
    ReplacedNumbers(v, level, in0, in1, outputs, w, l);
    SortedApartIsDisjoint(w[l]);
  }

  lemma ReplacedUnambiguous(v: Levels, level: nat, in0: seq<File>, in1: seq<File>, outputs: seq<File>, w: Levels, l: nat)
    requires |v| == NUM_LEVELS && level + 1 < NUM_LEVELS && l < NUM_LEVELS
    requires Unambiguous(VersionEntries(v))
    requires forall f <- in0 :: f in v[level]
    requires forall f <- in1 :: f in v[level + 1]
    requires LevelEntries(Elements(outputs)) <= InputEntries(in0, in1)
    requires Replaced(v, level, in0, in1, outputs, w)
    ensures EntriesAt(w, l) <= VersionEntries(v)
  {
    ReplacedEntries(v, level, in0, in1, outputs, w);
    InputsAreOldEntries(v, level, in0, in1);
    forall e | e in EntriesAt(w, l) ensures e in VersionEntries(v) {
      if l == level + 1 {
        assert e in EntriesAt(v, level) || e in EntriesAt(v, level + 1);
      } else {
        assert e in EntriesAt(v, l);
      }
    }
  }

  /** Replacing selected inputs by good outputs one level down keeps the version well-formed. */
  lemma ReplacedIsValid(v: Levels, level: nat, in0: seq<File>, in1: seq<File>, outputs: seq<File>, w: Levels)
    requires ValidVersion(v) && level + 1 < NUM_LEVELS
    requires Unambiguous(VersionEntries(v))
    requires Selected(v, level, in0, in1) && GoodOutputs(v, level, in0, in1, outputs)
    requires Replaced(v, level, in0, in1, outputs, w)
    ensures ValidVersion(w)
  {
    SelectedFromNext(v, level, in0, in1);
    forall l | 0 <= l < NUM_LEVELS ensures DistinctNumbers(w[l]) && forall f <- w[l] :: ValidFile(f) {
      ReplacedNumbers(v, level, in0, in1, outputs, w, l);
    }
    forall l | 1 <= l < NUM_LEVELS ensures Disjoint(w[l]) {
      ReplacedDisjoint(v, level, in0, in1, outputs, w, l);
    }
    forall l, m | 0 <= l < m < NUM_LEVELS ensures Newer(EntriesAt(w, l), EntriesAt(w, m)) {
      ReplacedKeepsRecency(v, level, in0, in1, outputs, w, l, m);
    }
    forall l | 0 <= l < NUM_LEVELS ensures Unambiguous(EntriesAt(w, l)) {
      ReplacedUnambiguous(v, level, in0, in1, outputs, w, l);
    }
    assert NewerByNumber(Elements(w[0]));
  }
}
