/** Choosing the inputs of a compaction (db/version_set.cc: GetOverlappingInputs, AddBoundaryInputs,
    SetupOtherInputs, PickCompaction, CompactRange). */
module InputSelection {
  import opened InternalKeys
  import opened Version

  /** A user-key range; a missing bound stands for "before all keys" or "after all keys". */
  datatype Range = Range(begin: Option<UserKey>, end: Option<UserKey>)

  predicate Overlaps(f: File, r: Range) {
    !(r.begin.Some? && f.largest.user < r.begin.value) && !(r.end.Some? && f.smallest.user > r.end.value)
  }

  predicate Inside(f: File, r: Range) {
    (r.begin.Some? ==> r.begin.value <= f.smallest.user) && (r.end.Some? ==> f.largest.user <= r.end.value)
  }

  predicate Covers(outer: Range, inner: Range) {
    && outer.begin.Some? == inner.begin.Some?
    && outer.end.Some? == inner.end.Some?
    && (outer.begin.Some? ==> outer.begin.value <= inner.begin.value)
    && (outer.end.Some? ==> inner.end.value <= outer.end.value)
  }

  /** The files that meet the range, in level order. */
  function OverlappingFiles(files: seq<File>, r: Range): seq<File> {
    if files == [] then []
    else OverlappingFiles(files[..|files| - 1], r) + if Overlaps(files[|files| - 1], r) then [files[|files| - 1]] else []
  }

  /** A range no file straddles: a file that meets it lies inside it. */
  ghost predicate ClosedRange(files: seq<File>, r: Range) {
    forall f <- files :: Overlaps(f, r) ==> Inside(f, r)
  }

  /** The least closed range that covers `start`. */
  ghost predicate LeastClosed(files: seq<File>, start: Range, r: Range) {
    && Covers(r, start)
    && ClosedRange(files, r)
    && forall other :: Covers(other, start) && ClosedRange(files, other) ==> Covers(other, r)
  }

  lemma {:induction false} OverlappingMembers(files: seq<File>, r: Range)
    ensures forall f :: f in OverlappingFiles(files, r) <==> f in files && Overlaps(f, r)
    ensures |OverlappingFiles(files, r)| <= |files|
  {
    if files != [] {
      OverlappingMembers(files[..|files| - 1], r);
      assert files == files[..|files| - 1] + [files[|files| - 1]];
    }
  }

  /** How many of the files reach past the range on the left, and on the right: what a restart makes smaller. */
  ghost function Outside(files: seq<File>, r: Range): nat {
    |set f | f in files && r.begin.Some? && f.smallest.user < r.begin.value| +
    |set f | f in files && r.end.Some? && f.largest.user > r.end.value|
  }

  lemma WideningLowersOutside(files: seq<File>, r: Range, f: File, wider: Range)
    requires f in files && Covers(wider, r)
    requires (r.begin.Some? && f.smallest.user < r.begin.value && wider == r.(begin := Some(f.smallest.user))) ||
             (r.end.Some? && f.largest.user > r.end.value && wider == r.(end := Some(f.largest.user)))
    ensures Outside(files, wider) < Outside(files, r)
  {
    var left := set g | g in files && r.begin.Some? && g.smallest.user < r.begin.value;
    var right := set g | g in files && r.end.Some? && g.largest.user > r.end.value;
    var left' := set g | g in files && wider.begin.Some? && g.smallest.user < wider.begin.value;
    var right' := set g | g in files && wider.end.Some? && g.largest.user > wider.end.value;
    if wider.begin != r.begin {
      assert left' <= left - {f} && f in left && right' == right;
      Cardinalities(left', left - {f});
    } else {
      assert right' <= right - {f} && f in right && left' == left;
      Cardinalities(right', right - {f});
    }
  }

  lemma {:induction false} Cardinalities<T>(a: set<T>, b: set<T>)
    requires a <= b
    ensures |a| <= |b|
  {
    assert b == a + (b - a);
  }

  /** What GetOverlappingInputs collects: below level 0 the files that meet the range, in level 0 those that meet the
      least closed range around it. */
  ghost predicate OverlapSet(files: seq<File>, level: nat, start: Range, inputs: seq<File>) {
    if level > 0 then inputs == OverlappingFiles(files, start)
    else exists r :: LeastClosed(files, start, r) && inputs == OverlappingFiles(files, r)
  }

  lemma LeastClosedIsUnique(files: seq<File>, start: Range, r: Range, r': Range)
    requires LeastClosed(files, start, r) && LeastClosed(files, start, r')
    ensures r == r'
  {
    assert Covers(r, r') && Covers(r', r);
  }

  /** What the search loop knows after the first `n` files. */
  ghost predicate Searched(files: seq<File>, level: nat, start: Range, r: Range, inputs: seq<File>, n: nat)
    requires n <= |files|
  {
    && inputs == OverlappingFiles(files[..n], r)
    && (level > 0 ==> r == start)
    && (level == 0 ==> Covers(r, start) && ClosedRange(files[..n], r))
    && (level == 0 ==> forall other :: Covers(other, start) && ClosedRange(files, other) ==> Covers(other, r))
  }

  lemma SearchedAll(files: seq<File>, level: nat, start: Range, r: Range, inputs: seq<File>)
    requires Searched(files, level, start, r, inputs, |files|)
    ensures OverlapSet(files, level, start, inputs)
  {
    assert files[..|files|] == files;
  }

  lemma SearchedNext(files: seq<File>, level: nat, start: Range, r: Range, inputs: seq<File>, n: nat)
    requires n < |files| && Searched(files, level, start, r, inputs, n)
    requires level > 0 || (Overlaps(files[n], r) ==> Inside(files[n], r))
    ensures Searched(files, level, start, r, if Overlaps(files[n], r) then inputs + [files[n]] else inputs, n + 1)
  {
    assert files[..n + 1] == files[..n] + [files[n]];
    assert files[..n + 1][..n] == files[..n];
  }

  /** Level 0 widens the range whenever a file sticks out of it and starts over; deeper levels take the plain overlap. */
  method GetOverlappingInputs(files: seq<File>, level: nat, start: Range) returns (inputs: seq<File>)
    ensures OverlapSet(files, level, start, inputs)
  {
    hide Searched, Outside, Covers, OverlappingFiles;
    inputs := [];
    var r := start;
    var i := 0;
    SearchedStart(files, level, start);
    while i < |files|
      invariant 0 <= i <= |files|
      invariant Searched(files, level, start, r, inputs, i)
      decreases Outside(files, r), |files| - i
    {
      var f := files[i];
      i := i + 1;
      if (r.begin.Some? && f.largest.user < r.begin.value) || (r.end.Some? && f.smallest.user > r.end.value) {
        SearchedNext(files, level, start, r, inputs, i - 1);
      } else if level == 0 && r.begin.Some? && f.smallest.user < r.begin.value {
        SearchedWider(files, start, r, inputs, i - 1, r.(begin := Some(f.smallest.user)));
        r := r.(begin := Some(f.smallest.user));
        inputs := [];
        i := 0;
      } else if level == 0 && r.end.Some? && f.largest.user > r.end.value {
        SearchedWider(files, start, r, inputs, i - 1, r.(end := Some(f.largest.user)));
        r := r.(end := Some(f.largest.user));
        inputs := [];
        i := 0;
      } else {
        SearchedNext(files, level, start, r, inputs, i - 1);
        inputs := inputs + [f];
      }
    }
    SearchedAll(files, level, start, r, inputs);
  }

  lemma SearchedStart(files: seq<File>, level: nat, start: Range)
    ensures Searched(files, level, start, start, [], 0)
  {
  }

  /** Starting over with a range that a file forced open: it gets closer to the least closed range. */
  lemma SearchedWider(files: seq<File>, start: Range, r: Range, inputs: seq<File>, n: nat, wider: Range)
    requires n < |files| && Searched(files, 0, start, r, inputs, n) && Overlaps(files[n], r)
    requires (r.begin.Some? && files[n].smallest.user < r.begin.value && wider == r.(begin := Some(files[n].smallest.user))) ||
             (r.end.Some? && files[n].largest.user > r.end.value && wider == r.(end := Some(files[n].largest.user)))
    ensures Searched(files, 0, start, wider, [], 0)
    ensures Outside(files, wider) < Outside(files, r)
  {
    hide Outside;
    var f := files[n];
    assert f in files;
    WideningLowersOutside(files, r, f, wider);
    assert Covers(wider, start);
    forall other | Covers(other, start) && ClosedRange(files, other) ensures Covers(other, wider) {
      assert Covers(other, r);
      assert Overlaps(f, other);
      assert Inside(f, other);
    }
  }

  lemma OverlapRange(files: seq<File>, level: nat, start: Range, inputs: seq<File>) returns (r: Range)
    requires OverlapSet(files, level, start, inputs)
    ensures level > 0 ==> r == start
    ensures level == 0 ==> LeastClosed(files, start, r)
    ensures Covers(r, start) && inputs == OverlappingFiles(files, r)
    ensures forall f :: f in inputs <==> f in files && Overlaps(f, r)
  {
    if level > 0 {
      r := start;
    } else {
      r :| LeastClosed(files, start, r) && inputs == OverlappingFiles(files, r);
    }
    OverlappingMembers(files, r);
  }

  /** The key range of a set of files (GetRange). */
  method GetRange(inputs: seq<File>) returns (smallest: IKey, largest: IKey)
    requires inputs != []
    ensures IsRange(inputs, smallest, largest)
  {
    smallest, largest := inputs[0].smallest, inputs[0].largest;
    for i := 1 to |inputs|
      invariant IsRange(inputs[..i], smallest, largest)
    {
      var f := inputs[i];
      assert inputs[..i + 1] == inputs[..i] + [f];
      if Less(f.smallest, smallest) {
        smallest := f.smallest;
      }
      if Less(largest, f.largest) {
        largest := f.largest;
      }
    }
    assert inputs[..|inputs|] == inputs;
  }

  /** The smallest and the largest key of the files, both taken on by some file. */
  ghost predicate IsRange(inputs: seq<File>, smallest: IKey, largest: IKey) {
    && (exists f <- inputs :: f.smallest == smallest)
    && (exists f <- inputs :: f.largest == largest)
    && (forall f <- inputs :: !Less(f.smallest, smallest) && !Less(largest, f.largest))
  }

  function UserRange(smallest: IKey, largest: IKey): Range {
    Range(Some(smallest.user), Some(largest.user))
  }

  // ---------------------------------------------------------------- boundary files

  /** `b` is the first file that continues the user key of `key` after `key`. */
  ghost predicate IsBoundary(files: seq<File>, key: IKey, b: File) {
    && b in files
    && Continues(b, key)
    && forall g <- files :: Continues(g, key) ==> !Less(g.smallest, b.smallest)
  }

  predicate Continues(f: File, key: IKey) {
    Less(key, f.smallest) && f.smallest.user == key.user
  }

  ghost predicate NoBoundary(files: seq<File>, key: IKey) {
    forall f <- files :: !Continues(f, key)
  }

  method FindSmallestBoundaryFile(files: seq<File>, key: IKey) returns (r: Option<File>)
    ensures r.Some? ==> IsBoundary(files, key, r.value)
    ensures r.None? ==> NoBoundary(files, key)
  {
    r := None;
    for i := 0 to |files|
      invariant r.Some? ==> IsBoundary(files[..i], key, r.value)
      invariant r.None? ==> NoBoundary(files[..i], key)
    {
      var f := files[i];
      assert files[..i + 1] == files[..i] + [f];
      if Less(key, f.smallest) && f.smallest.user == key.user {
        if r.None? || Less(f.smallest, r.value.smallest) {
          r := Some(f);
        }
      }
    }
    assert files[..|files|] == files;
  }

  /** The largest key after following the first `n` files of a chain of boundary files from `key`. */
  ghost function ChainKey(key: IKey, chain: seq<File>, n: nat): IKey
    requires n <= |chain|
  {
    if n == 0 then key else chain[n - 1].largest
  }

  ghost predicate BoundaryChain(files: seq<File>, key: IKey, chain: seq<File>) {
    forall i {:trigger ChainKey(key, chain, i)} :: 0 <= i < |chain| ==> IsBoundary(files, ChainKey(key, chain, i), chain[i])
  }

  /** `inputs` is `start` followed by the boundary files reached from its largest key, until none is left. */
  ghost predicate BoundaryAdded(files: seq<File>, start: seq<File>, inputs: seq<File>) {
    && start <= inputs
    && forall smallest, largest :: IsRange(start, smallest, largest) ==>
         && BoundaryChain(files, largest, inputs[|start|..])
         && NoBoundary(files, ChainKey(largest, inputs[|start|..], |inputs| - |start|))
  }

  method AddBoundaryInputs(files: seq<File>, start: seq<File>) returns (inputs: seq<File>)
    requires forall f <- files :: ValidFile(f)
    ensures BoundaryAdded(files, start, inputs)
    ensures start == [] ==> inputs == []
  {
    inputs := start;
    if start == [] {
      return;
    }
    var smallestKey, largestKey := GetRange(start);
    ghost var largest := largestKey;
    var continueSearching := true;
    ghost var chain := [];
    while continueSearching
      invariant inputs == start + chain
      invariant largestKey == ChainKey(largest, chain, |chain|)
      invariant BoundaryChain(files, largest, chain)
      invariant !continueSearching ==> NoBoundary(files, largestKey)
      decreases |set f | f in files && Less(largestKey, f.smallest)|, continueSearching
    {
      var b := FindSmallestBoundaryFile(files, largestKey);
      if b.Some? {
        ghost var before := set f | f in files && Less(largestKey, f.smallest);
        ghost var after := set f | f in files && Less(b.value.largest, f.smallest);
        FileBounds(b.value);
        assert after <= before - {b.value} && b.value in before;
        Cardinalities(after, before - {b.value});
        ChainGrows(files, largest, chain, b.value);
        inputs := inputs + [b.value];
        chain := chain + [b.value];
        largestKey := b.value.largest;
      } else {
        continueSearching := false;
      }
    }
    assert inputs[|start|..] == chain;
    forall s, l | IsRange(start, s, l) ensures l == largest {
      LargestIsUnique(start, l, largest);
    }
  }

  lemma LargestIsUnique(inputs: seq<File>, a: IKey, b: IKey)
    requires exists smallest :: IsRange(inputs, smallest, a)
    requires exists smallest :: IsRange(inputs, smallest, b)
    ensures a == b
  {
    assert !Less(a, b) && !Less(b, a);
    SameRank(a, b);
  }

  lemma SameRank(a: IKey, b: IKey)
    requires !Less(a, b) && !Less(b, a)
    ensures a == b
  {
  }

  lemma ChainGrows(files: seq<File>, key: IKey, chain: seq<File>, b: File)
    requires BoundaryChain(files, key, chain) && IsBoundary(files, ChainKey(key, chain, |chain|), b)
    ensures BoundaryChain(files, key, chain + [b])
  {
    var c := chain + [b];
    forall i | 0 <= i < |c| ensures IsBoundary(files, ChainKey(key, c, i), c[i]) {
      assert ChainKey(key, c, i) == ChainKey(key, chain, i);
    }
  }

  // ---------------------------------------------------------------- the selected inputs

  ghost predicate Adjacent(files: seq<File>, part: seq<File>) {
    exists lo, hi :: 0 <= lo <= hi <= |files| && part == files[lo..hi]
  }

  /** Inputs a compaction may start from: in level 0 all files of a closed range, deeper a run of adjacent files. */
  ghost predicate CanStart(files: seq<File>, level: nat, inputs: seq<File>) {
    if level == 0 then exists r :: ClosedRange(files, r) && inputs == OverlappingFiles(files, r)
    else Adjacent(files, inputs)
  }

  /** Files of the level that stay behind hold only newer entries for the user keys of the inputs. */
  ghost predicate LeftOutIsNewer(files: seq<File>, inputs: seq<File>) {
    forall f, g :: f in files && f !in inputs && g in inputs ==> Newer(Elements(f.entries), Elements(g.entries))
  }

  /** `in1` is every file of the next level that meets the user-key range of `in0`. */
  ghost predicate PullsIn(next: seq<File>, in0: seq<File>, in1: seq<File>) {
    exists smallest, largest :: IsRange(in0, smallest, largest) && in1 == OverlappingFiles(next, UserRange(smallest, largest))
  }

  /** What a finished input selection guarantees. */
  ghost predicate Selected(v: Levels, level: nat, in0: seq<File>, in1: seq<File>)
    requires level + 1 < |v|
  {
    && in0 != []
    && (forall f <- in0 :: f in v[level])
    && CanStart(v[level], level, in0)
    && LeftOutIsNewer(v[level], in0)
    && PullsIn(v[level + 1], in0, in1)
  }

  lemma BoundaryIsNext(files: seq<File>, h: nat, b: File)
    requires forall f <- files :: ValidFile(f)
    requires Disjoint(files)
    requires 0 < h <= |files|
    requires IsBoundary(files, files[h - 1].largest, b)
    ensures h < |files| && b == files[h]
  {
    var j :| 0 <= j < |files| && files[j] == b;
    FileBounds(files[h - 1]);
    FileBounds(b);
    if j < h - 1 {
      assert false;
    }
    if h < j {
      FileBounds(files[h]);
      assert Less(files[h].largest, b.smallest) && Less(files[h - 1].largest, files[h].smallest);
      assert Continues(files[h], files[h - 1].largest);
    }
  }

  lemma {:induction false} ChainIsAdjacent(files: seq<File>, hi: nat, chain: seq<File>, n: nat)
    requires forall f <- files :: ValidFile(f)
    requires Disjoint(files)
    requires 0 < hi <= |files| && n < |chain|
    requires BoundaryChain(files, files[hi - 1].largest, chain)
    ensures hi + n < |files| && chain[n] == files[hi + n]
  {
    if n > 0 {
      ChainIsAdjacent(files, hi, chain, n - 1);
    }
    assert IsBoundary(files, ChainKey(files[hi - 1].largest, chain, n), chain[n]);
    BoundaryIsNext(files, hi + n, chain[n]);
  }

  /** In a disjoint level the files that meet a range are adjacent. */
  lemma {:induction false} OverlapIsSlice(files: seq<File>, r: Range) returns (lo: nat, hi: nat)
    requires forall f <- files :: ValidFile(f)
    requires Disjoint(files)
    ensures lo <= hi <= |files| && OverlappingFiles(files, r) == files[lo..hi]
  {
    if files == [] {
      lo, hi := 0, 0;
    } else {
      var n := |files| - 1;
      lo, hi := OverlapIsSlice(files[..n], r);
      assert files[..n][lo..hi] == files[lo..hi];
      if Overlaps(files[n], r) {
        if lo < hi {
          NoGapBeforeLast(files, lo, hi, r);
        }
        lo, hi := if lo == hi then n else lo, n + 1;
      }
    }
  }

  lemma NoGapBeforeLast(files: seq<File>, lo: nat, hi: nat, r: Range)
    requires forall f <- files :: ValidFile(f)
    requires Disjoint(files)
    requires lo < hi < |files|
    requires OverlappingFiles(files[..|files| - 1], r) == files[lo..hi]
    requires Overlaps(files[|files| - 1], r)
    ensures hi == |files| - 1
  {
    var init := files[..|files| - 1];
    OverlappingMembers(init, r);
    assert files[hi - 1] in files[lo..hi];
    if hi < |files| - 1 {
      BetweenOverlaps(files, hi - 1, hi, |files| - 1, r);
      assert false;
    }
  }

  lemma BetweenOverlaps(files: seq<File>, i: nat, j: nat, k: nat, r: Range)
    requires forall f <- files :: ValidFile(f)
    requires Disjoint(files)
    requires i < j < k < |files|
    requires Overlaps(files[k], r) && Overlaps(files[i], r)
    ensures Overlaps(files[j], r)
    ensures forall m :: 0 <= m < j ==> files[m] != files[j]
  {
    FileBounds(files[j]);
    assert Less(files[i].largest, files[j].smallest) && Less(files[j].largest, files[k].smallest);
    forall m | 0 <= m < j ensures files[m] != files[j] {
      assert Less(files[m].largest, files[j].smallest);
    }
  }

  lemma {:induction false} WiderOverlapsMore(files: seq<File>, narrow: Range, wide: Range)
    requires Covers(wide, narrow)
    ensures |OverlappingFiles(files, narrow)| <= |OverlappingFiles(files, wide)|
    ensures |OverlappingFiles(files, narrow)| == |OverlappingFiles(files, wide)| ==>
              OverlappingFiles(files, narrow) == OverlappingFiles(files, wide)
  {
    if files != [] {
      WiderOverlapsMore(files[..|files| - 1], narrow, wide);
    }
  }

  lemma FileBeforeIsNewer(f: File, g: File)
    requires ValidFile(f) && ValidFile(g) && Less(f.largest, g.smallest)
    requires Unambiguous(Elements(f.entries) + Elements(g.entries))
    ensures Newer(Elements(f.entries), Elements(g.entries))
  {
    FileBounds(f);
    FileBounds(g);
    forall x, y | x in Elements(f.entries) && y in Elements(g.entries) && x.k.user == y.k.user
      ensures x.k.seqno > y.k.seqno
    {
      assert Less(x.k, y.k);
      assert x in Elements(f.entries) + Elements(g.entries) && y in Elements(f.entries) + Elements(g.entries);
    }
  }

  /** Past the last input no file continues its user key, so the files after it share no user key with the inputs. */
  lemma FilesAfterShareNoKey(files: seq<File>, j: nat, hi: nat, i: nat)
    requires forall f <- files :: ValidFile(f)
    requires Disjoint(files)
    requires j < hi <= i < |files|
    requires NoBoundary(files, files[hi - 1].largest)
    ensures files[j].largest.user < files[i].smallest.user
  {
    FileBounds(files[hi - 1]);
    FileBounds(files[hi]);
    assert !Continues(files[hi], files[hi - 1].largest);
    assert Less(files[hi - 1].largest, files[hi].smallest);
    if j < hi - 1 {
      assert Less(files[j].largest, files[hi - 1].smallest);
    }
    if hi < i {
      assert Less(files[hi].largest, files[i].smallest);
    }
  }

  /** Adjacent files of a disjoint level with no boundary file after them leave only newer entries behind. */
  lemma SliceLeavesNewer(files: seq<File>, lo: nat, hi: nat)
    requires forall f <- files :: ValidFile(f)
    requires Disjoint(files)
    requires lo < hi <= |files|
    requires Unambiguous(LevelEntries(Elements(files)))
    requires NoBoundary(files, files[hi - 1].largest)
    ensures LeftOutIsNewer(files, files[lo..hi])
  {
    forall f, g | f in files && f !in files[lo..hi] && g in files[lo..hi]
      ensures Newer(Elements(f.entries), Elements(g.entries))
    {
      var i :| 0 <= i < |files| && files[i] == f;
      var j :| lo <= j < hi && files[j] == g;
      assert i < lo || hi <= i;
      if i < lo {
        assert f in Elements(files) && g in Elements(files);
        FileBeforeIsNewer(f, g);
      } else {
        FilesAfterShareNoKey(files, j, hi, i);
        FileBounds(f);
        FileBounds(g);
      }
    }
  }

  /** The user keys of the left-out level-0 files lie outside the closed range of the inputs. */
  lemma ClosedRangeLeavesNewer(files: seq<File>, r: Range)
    requires forall f <- files :: ValidFile(f)
    requires ClosedRange(files, r)
    ensures LeftOutIsNewer(files, OverlappingFiles(files, r))
  {
    OverlappingMembers(files, r);
    forall f, g | f in files && f !in OverlappingFiles(files, r) && g in OverlappingFiles(files, r)
      ensures Newer(Elements(f.entries), Elements(g.entries))
    {
      FileBounds(f);
      FileBounds(g);
    }
  }

  lemma SliceRange(files: seq<File>, lo: nat, hi: nat)
    requires forall f <- files :: ValidFile(f)
    requires Disjoint(files)
    requires lo < hi <= |files|
    ensures IsRange(files[lo..hi], files[lo].smallest, files[hi - 1].largest)
  {
    assert files[lo] in files[lo..hi] && files[hi - 1] in files[lo..hi];
    forall f <- files[lo..hi] ensures !Less(f.smallest, files[lo].smallest) && !Less(files[hi - 1].largest, f.largest) {
      var i :| lo <= i < hi && files[i] == f;
      FileBounds(files[i]);
      FileBounds(files[lo]);
      FileBounds(files[hi - 1]);
    }
  }

  lemma ChainIsSlice(files: seq<File>, hi: nat, chain: seq<File>)
    requires forall f <- files :: ValidFile(f)
    requires Disjoint(files)
    requires 0 < hi <= |files|
    requires BoundaryChain(files, files[hi - 1].largest, chain)
    ensures hi + |chain| <= |files| && chain == files[hi..hi + |chain|]
    ensures ChainKey(files[hi - 1].largest, chain, |chain|) == files[hi + |chain| - 1].largest
  {
    forall i | 0 <= i < |chain| ensures hi + i < |files| && chain[i] == files[hi + i] {
      ChainIsAdjacent(files, hi, chain, i);
    }
    if chain != [] {
      ChainIsAdjacent(files, hi, chain, |chain| - 1);
    }
  }

  lemma JoinSlices<T>(s: seq<T>, lo: nat, mid: nat, hi: nat)
    requires lo <= mid <= hi <= |s|
    ensures s[lo..mid] + s[mid..hi] == s[lo..hi]
  {
  }

  lemma SliceBoundaryAdjacent(files: seq<File>, lo: nat, hi: nat, inputs: seq<File>)
    requires forall f <- files :: ValidFile(f)
    requires Disjoint(files)
    requires lo < hi <= |files|
    requires BoundaryAdded(files, files[lo..hi], inputs)
    ensures 0 < |inputs| && lo + |inputs| <= |files| && inputs == files[lo..lo + |inputs|]
    ensures NoBoundary(files, files[lo + |inputs| - 1].largest)
  {
    hide IsBoundary, BoundaryChain, NoBoundary, ValidFile, Disjoint, IsRange;
    SliceRange(files, lo, hi);
    var chain := inputs[hi - lo..];
    ChainIsSlice(files, hi, chain);
    assert inputs == files[lo..hi] + chain;
    JoinSlices(files, lo, hi, hi + |chain|);
    assert hi + |chain| == lo + |inputs|;
  }

  lemma SliceBoundaryCloses(files: seq<File>, lo: nat, hi: nat, inputs: seq<File>)
    requires forall f <- files :: ValidFile(f)
    requires Disjoint(files) && Unambiguous(LevelEntries(Elements(files)))
    requires lo < hi <= |files|
    requires BoundaryAdded(files, files[lo..hi], inputs)
    ensures lo + |inputs| <= |files| && inputs == files[lo..lo + |inputs|]
    ensures LeftOutIsNewer(files, inputs)
  {
    SliceBoundaryAdjacent(files, lo, hi, inputs);
    SliceLeavesNewer(files, lo, lo + |inputs|);
  }

  /** Adding boundary files keeps the inputs adjacent and leaves only newer entries behind in their level. */
  lemma BoundaryCloses(files: seq<File>, level: nat, start: seq<File>, inputs: seq<File>)
    requires forall f <- files :: ValidFile(f)
    requires level > 0 ==> Disjoint(files) && Unambiguous(LevelEntries(Elements(files)))
    requires start != [] && CanStart(files, level, start)
    requires BoundaryAdded(files, start, inputs)
    ensures CanStart(files, level, inputs) && LeftOutIsNewer(files, inputs)
    ensures forall f <- inputs :: f in files
  {
    if level == 0 {
      var r :| ClosedRange(files, r) && start == OverlappingFiles(files, r);
      NoBoundaryOutsideClosedRange(files, r, inputs);
      ClosedRangeLeavesNewer(files, r);
      OverlappingMembers(files, r);
    } else {
      var lo, hi :| 0 <= lo <= hi <= |files| && start == files[lo..hi];
      SliceBoundaryCloses(files, lo, hi, inputs);
    }
  }

  lemma NoBoundaryOutsideClosedRange(files: seq<File>, r: Range, inputs: seq<File>)
    requires forall f <- files :: ValidFile(f)
    requires ClosedRange(files, r) && OverlappingFiles(files, r) != []
    requires BoundaryAdded(files, OverlappingFiles(files, r), inputs)
    ensures inputs == OverlappingFiles(files, r)
  {
    var start := OverlappingFiles(files, r);
    OverlappingMembers(files, r);
    var smallest, largest := RangeExists(start);
    var chain := inputs[|start|..];
    if chain != [] {
      var b := chain[0];
      assert IsBoundary(files, ChainKey(largest, chain, 0), b);
      FileBounds(b);
      assert false;
    }
  }

  lemma {:induction false} RangeExists(inputs: seq<File>) returns (smallest: IKey, largest: IKey)
    requires inputs != []
    ensures IsRange(inputs, smallest, largest)
  {
    var n := |inputs| - 1;
    var last := inputs[n];
    assert inputs == inputs[..n] + [last];
    if n == 0 {
      smallest, largest := last.smallest, last.largest;
    } else {
      smallest, largest := RangeExists(inputs[..n]);
      smallest := if Less(last.smallest, smallest) then last.smallest else smallest;
      largest := if Less(largest, last.largest) then last.largest else largest;
    }
  }

  // ---------------------------------------------------------------- whole selections

  /** The input set that growing `base` leads to: all files of the level that meet the range of all inputs, with their
      boundary files. */
  ghost predicate Widened(v: Levels, level: nat, base: seq<File>, in1: seq<File>, wide: seq<File>)
    requires level < |v|
  {
    exists smallest, largest, wider ::
      && IsRange(base + in1, smallest, largest)
      && OverlapSet(v[level], level, UserRange(smallest, largest), wider) && BoundaryAdded(v[level], wider, wide)
  }

  /** Growing adds files, keeps the total size below the limit and pulls in no more of the next level. */
  ghost predicate WorthIt(v: Levels, level: nat, base: seq<File>, in1: seq<File>, byteLimit: nat, wide: seq<File>)
    requires level + 1 < |v|
  {
    |wide| > |base| && TotalFileSize(in1) + TotalFileSize(wide) < byteLimit && PullsIn(v[level + 1], wide, in1)
  }

  /** The inputs are grown exactly when something of the next level is pulled in and it is worth it. */
  ghost predicate GrownIfWorthIt(v: Levels, level: nat, base: seq<File>, in1: seq<File>, byteLimit: nat, in0: seq<File>)
    requires level + 1 < |v|
  {
    if in1 == [] then in0 == base
    else exists wide :: Widened(v, level, base, in1, wide) && in0 == if WorthIt(v, level, base, in1, byteLimit, wide) then wide else base
  }

  /** The inputs that come from a start set: its boundary files, what they pull in, and possibly the grown set. */
  ghost predicate CompletedFrom(v: Levels, level: nat, start: seq<File>, byteLimit: nat, in0: seq<File>, in1: seq<File>)
    requires level + 1 < |v|
  {
    exists base :: BoundaryAdded(v[level], start, base) && PullsIn(v[level + 1], base, in1) && (forall f <- base :: f in in0)
                   && GrownIfWorthIt(v, level, base, in1, byteLimit, in0)
  }

  /** The files of the level below the output level that meet the range of all inputs. */
  ghost predicate AreGrandparents(v: Levels, level: nat, in0: seq<File>, in1: seq<File>, grandparents: seq<File>) {
    if level + 2 < |v| then PullsIn(v[level + 2], in0 + in1, grandparents) else grandparents == []
  }

  method FindGrandparents(v: Levels, level: nat, in0: seq<File>, in1: seq<File>) returns (grandparents: seq<File>)
    requires in0 != []
    ensures AreGrandparents(v, level, in0, in1, grandparents)
  {
    hide IsRange, OverlapSet;
    grandparents := [];
    if level + 2 < |v| {
      var allStart, allLimit := GetRange(in0 + in1);
      grandparents := GetOverlappingInputs(v[level + 2], level + 2, UserRange(allStart, allLimit));
      OverlapIsPullsIn(v[level + 2], level + 2, in0 + in1, grandparents, allStart, allLimit);
    }
  }

  /** Complete the inputs: boundary files, the overlapping files one level down, and the growth step that may add
      level files when that pulls in no more files of the next level. `pointer` is where the next compaction resumes. */
  method SetupOtherInputs(v: Levels, level: nat, start: seq<File>, byteLimit: nat)
    returns (in0: seq<File>, in1: seq<File>, pointer: IKey)
    requires ValidVersion(v) && level + 1 < NUM_LEVELS
    requires start != [] && CanStart(v[level], level, start)
    ensures Selected(v, level, in0, in1) && CompletedFrom(v, level, start, byteLimit, in0, in1)
    ensures exists smallest :: IsRange(in0, smallest, pointer)
  {
    hide BoundaryAdded, CanStart, LeftOutIsNewer, Selected, IsRange, OverlapSet, PullsIn, WorthIt, Widened;
    in0 := AddBoundaryInputs(v[level], start);
    ghost var base := in0;
    BoundaryClosesIn(v, level, start, in0);
    var smallest, largest := GetRange(in0);
    in1 := GetOverlappingInputs(v[level + 1], level + 1, UserRange(smallest, largest));
    OverlapIsPullsIn(v[level + 1], level + 1, in0, in1, smallest, largest);
    if in1 != [] {
      in0, largest := Grow(v, level, in0, in1, smallest, largest, byteLimit);
    }
    SelectedParts(v, level, in0, in1);
    pointer := largest;
  }

  lemma SelectedParts(v: Levels, level: nat, in0: seq<File>, in1: seq<File>)
    requires level + 1 < |v| && in0 != [] && (forall f <- in0 :: f in v[level])
    requires CanStart(v[level], level, in0) && LeftOutIsNewer(v[level], in0) && PullsIn(v[level + 1], in0, in1)
    ensures Selected(v, level, in0, in1)
  {
    hide CanStart, LeftOutIsNewer, PullsIn;
  }

  lemma OverlapIsPullsIn(next: seq<File>, level: nat, in0: seq<File>, in1: seq<File>, smallest: IKey, largest: IKey)
    requires level > 0 && IsRange(in0, smallest, largest) && OverlapSet(next, level, UserRange(smallest, largest), in1)
    ensures PullsIn(next, in0, in1)
  {
  }

  /** Take the larger input set if it pulls in no more files of the next level and is not too large. */
  method Grow(v: Levels, level: nat, base: seq<File>, in1: seq<File>, smallest: IKey, largest: IKey, byteLimit: nat)
    returns (in0: seq<File>, pointer: IKey)
    requires ValidVersion(v) && level + 1 < NUM_LEVELS && base != [] && forall f <- base :: f in v[level]
    requires CanStart(v[level], level, base) && LeftOutIsNewer(v[level], base)
    requires IsRange(base, smallest, largest) && PullsIn(v[level + 1], base, in1) && in1 != []
    ensures in0 != [] && (forall f <- base :: f in in0) && (forall f <- in0 :: f in v[level])
    ensures CanStart(v[level], level, in0) && LeftOutIsNewer(v[level], in0) && PullsIn(v[level + 1], in0, in1)
    ensures GrownIfWorthIt(v, level, base, in1, byteLimit, in0)
    ensures exists s :: IsRange(in0, s, pointer)
  {
    hide BoundaryAdded, CanStart, LeftOutIsNewer, IsRange, OverlapSet, PullsIn;
    in0, pointer := base, largest;
    var allStart, allLimit := GetRange(base + in1);
    var expanded0;
    ghost var wider;
    expanded0, wider := Expand(v, level, base, base + in1, allStart, allLimit);
    assert Widened(v, level, base, in1, expanded0);
    if |expanded0| > |base| && TotalFileSize(in1) + TotalFileSize(expanded0) < byteLimit {
      var newStart, newLimit := GetRange(expanded0);
      var expanded1 := GetOverlappingInputs(v[level + 1], level + 1, UserRange(newStart, newLimit));
      if |expanded1| == |in1| {
        SamePulledIn(v, level, base, in1, smallest, largest, expanded0, expanded1, newStart, newLimit);
        in0, pointer := expanded0, newLimit;
      } else {
        PulledInIsUnique(v[level + 1], level + 1, expanded0, expanded1, in1, newStart, newLimit);
      }
    }
  }

  lemma SamePulledIn(v: Levels, level: nat, base: seq<File>, in1: seq<File>, smallest: IKey, largest: IKey,
                     expanded0: seq<File>, expanded1: seq<File>, newStart: IKey, newLimit: IKey)
    requires level + 1 < |v| && IsRange(base, smallest, largest) && PullsIn(v[level + 1], base, in1)
    requires IsRange(expanded0, newStart, newLimit) && OverlapSet(v[level + 1], level + 1, UserRange(newStart, newLimit), expanded1)
    requires |expanded1| == |in1| && forall f <- base :: f in expanded0
    ensures expanded1 == in1 && PullsIn(v[level + 1], expanded0, in1)
  {
    hide IsRange;
    var s, l :| IsRange(base, s, l) && in1 == OverlappingFiles(v[level + 1], UserRange(s, l));
    RangeOfMoreFiles(base, s, l, expanded0, newStart, newLimit);
    WiderOverlapsMore(v[level + 1], UserRange(s, l), UserRange(newStart, newLimit));
  }

  lemma PulledInIsUnique(next: seq<File>, level: nat, in0: seq<File>, in1: seq<File>, other: seq<File>, smallest: IKey, largest: IKey)
    requires level > 0 && IsRange(in0, smallest, largest) && OverlapSet(next, level, UserRange(smallest, largest), in1) && other != in1
    ensures !PullsIn(next, in0, other)
  {
    forall s, l | IsRange(in0, s, l) ensures s == smallest && l == largest {
      LargestIsUnique(in0, l, largest);
      SameRank(s, smallest);
    }
  }

  lemma BoundaryClosesIn(v: Levels, level: nat, start: seq<File>, inputs: seq<File>)
    requires ValidVersion(v) && level < NUM_LEVELS
    requires start != [] && CanStart(v[level], level, start)
    requires BoundaryAdded(v[level], start, inputs)
    ensures inputs != [] && CanStart(v[level], level, inputs) && LeftOutIsNewer(v[level], inputs)
    ensures forall f <- inputs :: f in v[level]
  {
    assert Unambiguous(EntriesAt(v, level));
    BoundaryCloses(v[level], level, start, inputs);
  }

  /** The larger first input set that the growth step considers: the level's files that meet the range of all inputs. */
  method Expand(v: Levels, level: nat, in0: seq<File>, all: seq<File>, allStart: IKey, allLimit: IKey)
    returns (expanded0: seq<File>, ghost wider: seq<File>)
    requires ValidVersion(v) && level < NUM_LEVELS
    requires in0 != [] && forall f <- in0 :: f in v[level] && f in all
    requires IsRange(all, allStart, allLimit)
    ensures expanded0 != [] && CanStart(v[level], level, expanded0) && LeftOutIsNewer(v[level], expanded0)
    ensures forall f <- expanded0 :: f in v[level]
    ensures forall f <- in0 :: f in expanded0
    ensures OverlapSet(v[level], level, UserRange(allStart, allLimit), wider) && BoundaryAdded(v[level], wider, expanded0)
  {
    hide LeastClosed, BoundaryAdded, LeftOutIsNewer, Unambiguous;
    assert forall f <- in0 :: ValidFile(f);
    expanded0 := GetOverlappingInputs(v[level], level, UserRange(allStart, allLimit));
    ghost var range := OverlapRange(v[level], level, UserRange(allStart, allLimit), expanded0);
    forall f <- in0 ensures f in expanded0 {
      RangeHoldsFile(all, allStart, allLimit, range, f);
    }
    assert in0[0] in in0;
    if level > 0 {
      var lo, hi := OverlapIsSlice(v[level], range);
    }
    wider := expanded0;
    expanded0 := AddBoundaryInputs(v[level], expanded0);
    BoundaryClosesIn(v, level, wider, expanded0);
    assert forall f <- in0 :: f in wider;
  }

  lemma RangeHoldsFile(inputs: seq<File>, smallest: IKey, largest: IKey, range: Range, f: File)
    requires IsRange(inputs, smallest, largest) && f in inputs && ValidFile(f)
    requires Covers(range, UserRange(smallest, largest))
    ensures Overlaps(f, range)
  {
    FileBounds(f);
  }

  lemma RangeOfMoreFiles(a: seq<File>, s: IKey, l: IKey, b: seq<File>, s': IKey, l': IKey)
    requires IsRange(a, s, l) && IsRange(b, s', l')
    requires forall f <- a :: f in b
    ensures Covers(UserRange(s', l'), UserRange(s, l))
  {
  }

  /** The first file past the compaction pointer, or the first of all when there is no pointer or nothing behind it. */
  ghost predicate NextInTurn(files: seq<File>, compactPointer: Option<IKey>, f: File) {
    exists i :: 0 <= i < |files| && files[i] == f
      && (compactPointer.Some? ==> forall j :: 0 <= j < i ==> !Less(compactPointer.value, files[j].largest))
      && (if compactPointer.Some? && Less(compactPointer.value, f.largest) then true
          else i == 0 && (compactPointer.Some? ==> forall g <- files :: !Less(compactPointer.value, g.largest)))
  }

  /** The file that a size-triggered compaction begins with. */
  method PickFile(files: seq<File>, compactPointer: Option<IKey>) returns (f: File)
    requires files != []
    ensures f in files && NextInTurn(files, compactPointer, f)
  {
    for i := 0 to |files|
      invariant compactPointer.Some? || i == 0
      invariant forall j :: 0 <= j < i ==> !Less(compactPointer.value, files[j].largest)
    {
      if compactPointer.None? || Less(compactPointer.value, files[i].largest) {
        return files[i];
      }
    }
    f := files[0];
  }

  /** What a compaction of one picked file starts from: the file, in level 0 with all that its range reaches. */
  ghost predicate StartsFrom(files: seq<File>, level: nat, f: File, start: seq<File>) {
    if level > 0 then start == [f] else OverlapSet(files, 0, UserRange(f.smallest, f.largest), start)
  }

  /** PickCompaction: begin with one file (size- or seek-triggered), close level 0 over its overlaps, complete the inputs. */
  method PickCompaction(v: Levels, level: nat, compactPointer: Option<IKey>, seekFile: Option<File>, byteLimit: nat)
    returns (in0: seq<File>, in1: seq<File>, pointer: IKey, ghost picked: File)
    requires ValidVersion(v) && level + 1 < NUM_LEVELS
    requires if seekFile.Some? then seekFile.value in v[level] else v[level] != []
    ensures Selected(v, level, in0, in1) && exists smallest :: IsRange(in0, smallest, pointer)
    ensures picked in in0
    ensures if seekFile.Some? then picked == seekFile.value else NextInTurn(v[level], compactPointer, picked)
    ensures exists start :: StartsFrom(v[level], level, picked, start) && CompletedFrom(v, level, start, byteLimit, in0, in1)
  {
    var f: File;
    if seekFile.None? {
      f := PickFile(v[level], compactPointer);
    } else {
      f := seekFile.value;
    }
    picked := f;
    var start := [f];
    if level == 0 {
      var smallest, largest := GetRange(start);
      start := GetOverlappingInputs(v[0], 0, UserRange(smallest, largest));
      ghost var range := OverlapRange(v[0], 0, UserRange(smallest, largest), start);
      RangeHoldsFile([f], smallest, largest, range, f);
      assert smallest == f.smallest && largest == f.largest;
    } else {
      var i :| 0 <= i < |v[level]| && v[level][i] == f;
      assert start == v[level][i..i + 1];
    }
    assert f in start;
    in0, in1, pointer := SetupOtherInputs(v, level, start, byteLimit);
    assert StartsFrom(v[level], level, f, start);
    StartIsCompleted(v, level, start, byteLimit, in0, in1, f);
  }

  lemma StartIsCompleted(v: Levels, level: nat, start: seq<File>, byteLimit: nat, in0: seq<File>, in1: seq<File>, f: File)
    requires level + 1 < |v| && CompletedFrom(v, level, start, byteLimit, in0, in1) && f in start
    ensures f in in0
  {
    var base :| BoundaryAdded(v[level], start, base) && forall g <- base :: g in in0;
    var i :| 0 <= i < |start| && start[i] == f;
    assert base[i] == f;
  }

  /** The files that a request for a range of a level starts from: in level 0 those of the least closed range around it;
      deeper those that meet the range, up to the first one that brings the total size to the limit. */
  ghost predicate Requested(files: seq<File>, level: nat, range: Range, sizeLimit: nat, start: seq<File>) {
    && start != []
    && if level == 0 then OverlapSet(files, 0, range, start)
       else
         && start <= OverlappingFiles(files, range)
         && (start == OverlappingFiles(files, range) || TotalFileSize(start) >= sizeLimit)
         && forall n :: 0 < n < |start| ==> TotalFileSize(start[..n]) < sizeLimit
  }

  /** The first files, up to the one that brings the total size to the limit. */
  method CutToSize(files: seq<File>, sizeLimit: nat) returns (start: seq<File>)
    requires files != []
    ensures start != [] && start <= files && (start == files || TotalFileSize(start) >= sizeLimit)
    ensures forall n :: 0 < n < |start| ==> TotalFileSize(start[..n]) < sizeLimit
  {
    var total := 0;
    for i := 0 to |files|
      invariant total == TotalFileSize(files[..i]) && forall n :: 0 < n <= i ==> TotalFileSize(files[..n]) < sizeLimit
    {
      total := total + files[i].size;
      TotalStep(files, i);
      if total >= sizeLimit {
        start := files[..i + 1];
        assert forall n :: 0 < n < |start| ==> start[..n] == files[..n];
        return;
      }
    }
    start := files;
  }

  method RequestedFiles(v: Levels, level: nat, range: Range, sizeLimit: nat) returns (start: seq<File>)
    requires ValidVersion(v) && level < NUM_LEVELS
    ensures start == [] <==> forall f <- v[level] :: !Overlaps(f, range)
    ensures start != [] ==> Requested(v[level], level, range, sizeLimit, start) && CanStart(v[level], level, start)
  {
    hide OverlappingFiles, LeastClosed, Covers, TotalFileSize;
    start := GetOverlappingInputs(v[level], level, range);
    ghost var r := OverlapRange(v[level], level, range, start);
    if start == [] {
      WiderOverlapsMore(v[level], range, r);
      NoneOverlaps(v[level], range);
      return;
    }
    SomeOverlaps(v[level], level, range, r);
    if level > 0 {
      ghost var lo, hi := OverlapIsSlice(v[level], r);
      ghost var all := start;
      start := CutToSize(start, sizeLimit);
      JoinSlices(v[level], lo, lo + |start|, hi);
      assert start == all[..|start|] == v[level][lo..lo + |start|];
    } else {
      LeastIsClosed(v[level], range, r);
    }
  }

  lemma LeastIsClosed(files: seq<File>, start: Range, r: Range)
    requires LeastClosed(files, start, r)
    ensures ClosedRange(files, r)
  {
  }

  /** CompactRange: the files that meet the requested range, cut short by total size below level 0; empty when none does. */
  method CompactRange(v: Levels, level: nat, range: Range, sizeLimit: nat, byteLimit: nat)
    returns (in0: seq<File>, in1: seq<File>, pointer: Option<IKey>, ghost start: seq<File>)
    requires ValidVersion(v) && level + 1 < NUM_LEVELS
    ensures in0 == [] <==> forall f <- v[level] :: !Overlaps(f, range)
    ensures in0 != [] ==> Selected(v, level, in0, in1) && pointer.Some? && exists smallest :: IsRange(in0, smallest, pointer.value)
    ensures in0 != [] ==> Requested(v[level], level, range, sizeLimit, start) && CompletedFrom(v, level, start, byteLimit, in0, in1)
  {
    hide Requested, CompletedFrom, CanStart, ValidVersion;
    var inputs := RequestedFiles(v, level, range, sizeLimit);
    start := inputs;
    if inputs == [] {
      return [], [], None, [];
    }
    var largest;
    in0, in1, largest := SetupOtherInputs(v, level, inputs, byteLimit);
    pointer := Some(largest);
  }

  lemma TotalStep(files: seq<File>, i: nat)
    requires i < |files|
    ensures TotalFileSize(files[..i + 1]) == TotalFileSize(files[..i]) + files[i].size
  {
    assert files[..i + 1][..i] == files[..i];
  }

  /** A request reaches the range: in level 0 every file that meets it is an input, deeper the first such file is. */
  lemma RequestReaches(v: Levels, level: nat, range: Range, sizeLimit: nat, start: seq<File>, byteLimit: nat,
                       in0: seq<File>, in1: seq<File>, k: nat)
    requires level + 1 < |v| && k < |v[level]|
    requires Requested(v[level], level, range, sizeLimit, start) && CompletedFrom(v, level, start, byteLimit, in0, in1)
    requires Overlaps(v[level][k], range) && (level > 0 ==> forall j :: 0 <= j < k ==> !Overlaps(v[level][j], range))
    ensures v[level][k] in in0
  {
    hide CompletedFrom;
    var f := v[level][k];
    if level == 0 {
      var r := OverlapRange(v[0], 0, range, start);
      assert Overlaps(f, r);
    } else {
      FirstOverlapping(v[level], range, k);
      assert start[0] == f;
    }
    StartIsCompleted(v, level, start, byteLimit, in0, in1, f);
  }

  lemma {:induction false} FirstOverlapping(files: seq<File>, r: Range, k: nat)
    requires k < |files| && Overlaps(files[k], r) && forall j :: 0 <= j < k ==> !Overlaps(files[j], r)
    ensures OverlappingFiles(files, r) != [] && OverlappingFiles(files, r)[0] == files[k]
  {
    var n := |files| - 1;
    if k < n {
      FirstOverlapping(files[..n], r, k);
    } else {
      NoneMeets(files[..n], r);
    }
  }

  lemma {:induction false} NoneMeets(files: seq<File>, r: Range)
    requires forall f <- files :: !Overlaps(f, r)
    ensures OverlappingFiles(files, r) == []
  {
    if files != [] {
      NoneMeets(files[..|files| - 1], r);
    }
  }

  lemma NoneOverlaps(files: seq<File>, r: Range)
    requires OverlappingFiles(files, r) == []
    ensures forall f <- files :: !Overlaps(f, r)
  {
    OverlappingMembers(files, r);
  }

  /** A widened level-0 range holds a file only if the requested range met one already. */
  lemma SomeOverlaps(files: seq<File>, level: nat, start: Range, r: Range)
    requires level > 0 ==> r == start
    requires level == 0 ==> LeastClosed(files, start, r)
    requires OverlappingFiles(files, r) != []
    ensures exists f <- files :: Overlaps(f, start)
  {
    OverlappingMembers(files, r);
    var f := OverlappingFiles(files, r)[0];
    assert f in OverlappingFiles(files, r);
    if ClosedRange(files, start) {
      assert Covers(start, start);
      assert Overlaps(f, start);
    }
  }

  /** A compaction that only moves one file down, to where it overlaps not too much of the level below. */
  predicate IsTrivialMove(in0: seq<File>, in1: seq<File>, grandparents: seq<File>, limit: nat) {
    |in0| == 1 && |in1| == 0 && TotalFileSize(grandparents) <= limit
  }
}
