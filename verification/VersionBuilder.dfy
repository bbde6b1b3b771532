/** Applying version edits (db/version_set.cc, VersionSet::Builder) and replaying a list of them (Recover). */
module VersionBuilder {
  import opened InternalKeys
  import opened Version

  /** The file changes of one version edit. Deletions are applied before additions. */
  datatype Edit = Edit(deleted: set<(nat, nat)>, added: seq<(nat, File)>)

  /** Files are ordered by smallest key, ties broken by number. */
  predicate BySmallestKey(f: File, g: File) {
    Less(f.smallest, g.smallest) || (f.smallest == g.smallest && f.number < g.number)
  }

  ghost predicate SortedBySmallest(files: seq<File>) {
    forall i, j :: 0 <= i < j < |files| ==> BySmallestKey(files[i], files[j])
  }

  predicate AddsNumber(edit: Edit, level: nat, number: nat) {
    exists p <- edit.added :: p.0 == level && p.1.number == number
  }

  /** What an edit makes of the set of files of one level. */
  ghost function FilesAfter(files: set<File>, edit: Edit, level: nat): set<File> {
    set f | f in files + AddedAt(edit, level) &&
            !((level, f.number) in edit.deleted && !AddsNumber(edit, level, f.number))
  }

  ghost function AddedAt(edit: Edit, level: nat): set<File> {
    set p | p in edit.added && p.0 == level :: p.1
  }

  /** `w` is the version that installing `edit` on `v` produces. */
  ghost predicate Installs(v: Levels, edit: Edit, w: Levels) {
    && |v| == |w| == NUM_LEVELS
    && forall l :: 0 <= l < NUM_LEVELS ==> SortedBySmallest(w[l]) && Elements(w[l]) == FilesAfter(Elements(v[l]), edit, l)
  }

  /** The builder's view of one level: numbers to drop, and the added files in order. */
  datatype LevelState = LevelState(deleted: set<nat>, added: seq<File>)

  /** Insertion into a std::set: nothing happens when an equal element is present. */
  function InsertBySmallest(f: File, files: seq<File>): seq<File> {
    if files == [] || BySmallestKey(f, files[0]) then [f] + files
    else if !BySmallestKey(files[0], f) then files
    else [files[0]] + InsertBySmallest(f, files[1..])
  }

  predicate SameRank(f: File, g: File) {
    f.smallest == g.smallest && f.number == g.number
  }

  lemma {:induction false} InsertKeepsSorted(f: File, files: seq<File>)
    requires SortedBySmallest(files)
    requires forall g <- files :: !SameRank(f, g)
    ensures SortedBySmallest(InsertBySmallest(f, files))
    ensures forall g :: g in InsertBySmallest(f, files) <==> g == f || g in files
  {
    if files != [] && !BySmallestKey(f, files[0]) {
      var tail := files[1..];
      assert files == [files[0]] + tail;
      InsertKeepsSorted(f, tail);
      var rest := InsertBySmallest(f, tail);
      forall i | 0 <= i < |rest| ensures BySmallestKey(files[0], rest[i]) {
        assert rest[i] in rest;
        assert files[0] in files;
      }
    }
  }

  lemma {:induction false} SortedIsUnique(a: seq<File>, b: seq<File>)
    requires SortedBySmallest(a) && SortedBySmallest(b)
    requires Elements(a) == Elements(b)
    ensures a == b
  {
    assert b != [] ==> b[0] in Elements(b);
    if a != [] {
      assert a[0] in Elements(b);
      assert b[0] in Elements(a) by { assert b[0] in b; }
      assert a[0] == b[0];
      assert Elements(a[1..]) == Elements(a) - {a[0]};
      assert Elements(b[1..]) == Elements(b) - {b[0]};
      SortedIsUnique(a[1..], b[1..]);
      assert a == [a[0]] + a[1..] && b == [b[0]] + b[1..];
    }
  }

  // ---------------------------------------------------------------- what a list of edits means

  ghost function DeletedNumbers(edits: seq<Edit>, level: nat): set<nat> {
    if edits == [] then {}
    else
      var last := edits[|edits| - 1];
      set n | n in DeletedNumbers(edits[..|edits| - 1], level) + DeletedAt(last, level) && !AddsNumber(last, level, n)
  }

  ghost function DeletedAt(edit: Edit, level: nat): set<nat> {
    set p | p in edit.deleted && p.0 == level :: p.1
  }

  ghost function AddedFiles(edits: seq<Edit>, level: nat): set<File> {
    if edits == [] then {} else AddedFiles(edits[..|edits| - 1], level) + AddedAt(edits[|edits| - 1], level)
  }

  /** A file number is added to a given level at most once, and never one that the base version has there. */
  ghost predicate AddedOnce(base: Levels, edits: seq<Edit>)
    requires |base| == NUM_LEVELS
  {
    edits == [] ||
    (var init, last := edits[..|edits| - 1], edits[|edits| - 1];
     AddedOnce(base, init) && AddsFresh(base, init, last))
  }

  /** The last edit adds only numbers that are new to their levels. */
  ghost predicate AddsFresh(base: Levels, init: seq<Edit>, last: Edit)
    requires |base| == NUM_LEVELS
  {
    && (forall p <- last.added :: p.0 < NUM_LEVELS &&
          forall g :: g in base[p.0] || g in AddedFiles(init, p.0) ==> g.number != p.1.number)
    && (forall i, j :: 0 <= i < j < |last.added| && last.added[i].0 == last.added[j].0 ==>
          last.added[i].1.number != last.added[j].1.number)
  }

  /** The files of a level after one builder has taken in all the edits. */
  ghost function Built(base: Levels, edits: seq<Edit>, level: nat): set<File>
    requires level < |base|
  {
    set f | f in Elements(base[level]) + AddedFiles(edits, level) && f.number !in DeletedNumbers(edits, level)
  }

  // ---------------------------------------------------------------- the builder

  class Builder {
    const base: Levels
    var levels: seq<LevelState>
    ghost var edits: seq<Edit>

    ghost predicate Valid()
      reads this
    {
      && |base| == |levels| == NUM_LEVELS
      && AddedOnce(base, edits)
      && (forall l :: 0 <= l < NUM_LEVELS ==> SortedBySmallest(base[l]))
      && (forall l :: 0 <= l < NUM_LEVELS ==> LevelHolds(levels[l], edits, l))
    }

    constructor (base: Levels)
      requires |base| == NUM_LEVELS
      requires forall l :: 0 <= l < NUM_LEVELS ==> SortedBySmallest(base[l])
      ensures Valid() && this.base == base && edits == []
    {
      this.base := base;
      levels := seq(NUM_LEVELS, _ => LevelState({}, []));
      edits := [];
    }

    method Apply(edit: Edit)
      requires Valid() && AddedOnce(base, edits + [edit])
      modifies this
      ensures Valid() && edits == old(edits) + [edit]
    {
      ghost var was := edits;
      assert (was + [edit])[..|was|] == was;
      var start := levels;
      levels := seq(NUM_LEVELS, l requires 0 <= l < |start| =>
        start[l].(deleted := start[l].deleted + set p | p in edit.deleted && p.0 == l :: p.1));
      for i := 0 to |edit.added|
        invariant |levels| == NUM_LEVELS && edits == was
        invariant forall l :: 0 <= l < NUM_LEVELS ==> PartlyHolds(levels[l], was, edit, i, l)
      {
        var (level, f) := edit.added[i];
        assert edit.added[i] in edit.added;
        TakeInFile(levels[level], was, edit, i, level);
        forall l | 0 <= l < NUM_LEVELS && l != level ensures PartlyHolds(levels[l], was, edit, i + 1, l) {
          SkipFile(levels[l], was, edit, i, l);
        }
        levels := levels[level := LevelState(levels[level].deleted - {f.number}, InsertBySmallest(f, levels[level].added))];
      }
      edits := edits + [edit];
      forall l | 0 <= l < NUM_LEVELS ensures LevelHolds(levels[l], edits, l) {
        AllTakenIn(levels[l], was, edit, l);
      }
    }

    /** The merged levels: base and added files in order of smallest key, without the deleted ones. */
    method SaveTo() returns (v: Levels)
      requires Valid()
      ensures |v| == NUM_LEVELS
      ensures forall l :: 0 <= l < NUM_LEVELS ==> SortedBySmallest(v[l]) && Elements(v[l]) == Built(base, edits, l)
    {
      v := [];
      for l := 0 to NUM_LEVELS
        invariant |v| == l
        invariant forall m :: 0 <= m < l ==> SortedBySmallest(v[m]) && Elements(v[m]) == Built(base, edits, m)
      {
        AddedAreFresh(base, edits, l);
        assert forall g <- levels[l].added :: g in Elements(levels[l].added);
        var files := SaveLevel(base[l], levels[l].added, levels[l].deleted);
        v := v + [files];
      }
    }
  }

  ghost predicate LevelHolds(s: LevelState, edits: seq<Edit>, level: nat) {
    && SortedBySmallest(s.added)
    && Elements(s.added) == AddedFiles(edits, level)
    && s.deleted == DeletedNumbers(edits, level)
  }

  ghost predicate DistinctRanks(base: seq<File>, added: seq<File>) {
    forall f <- base, g <- added :: !SameRank(f, g)
  }

  /** The state of a level after the deletions of `edit` and its first `n` additions. */
  ghost predicate PartlyHolds(s: LevelState, edits: seq<Edit>, edit: Edit, n: nat, level: nat)
    requires n <= |edit.added|
  {
    var seen := Edit(edit.deleted, edit.added[..n]);
    && SortedBySmallest(s.added)
    && Elements(s.added) == AddedFiles(edits, level) + AddedAt(seen, level)
    && s.deleted == set m | m in DeletedNumbers(edits, level) + DeletedAt(edit, level) && !AddsNumber(seen, level, m)
  }

  lemma SkipFile(s: LevelState, edits: seq<Edit>, edit: Edit, n: nat, level: nat)
    requires n < |edit.added| && edit.added[n].0 != level
    requires PartlyHolds(s, edits, edit, n, level)
    ensures PartlyHolds(s, edits, edit, n + 1, level)
  {
    assert edit.added[..n + 1] == edit.added[..n] + [edit.added[n]];
  }

  lemma TakeInFile(s: LevelState, edits: seq<Edit>, edit: Edit, n: nat, level: nat)
    requires n < |edit.added| && edit.added[n].0 == level
    requires PartlyHolds(s, edits, edit, n, level)
    requires forall g <- AddedFiles(edits, level) :: g.number != edit.added[n].1.number
    requires forall i, j :: 0 <= i < j < |edit.added| && edit.added[i].0 == edit.added[j].0 ==>
               edit.added[i].1.number != edit.added[j].1.number
    ensures PartlyHolds(LevelState(s.deleted - {edit.added[n].1.number}, InsertBySmallest(edit.added[n].1, s.added)),
                        edits, edit, n + 1, level)
  {
    var f := edit.added[n].1;
    assert edit.added[..n + 1] == edit.added[..n] + [edit.added[n]];
    assert AddedAt(Edit(edit.deleted, edit.added[..n + 1]), level) == AddedAt(Edit(edit.deleted, edit.added[..n]), level) + {f} by {
      assert edit.added[n] in edit.added[..n + 1];
    }
    forall g <- s.added ensures g.number != f.number {
      assert g in Elements(s.added);
    }
    InsertKeepsSorted(f, s.added);
    assert Elements(InsertBySmallest(f, s.added)) == Elements(s.added) + {f};
  }

  lemma AllTakenIn(s: LevelState, edits: seq<Edit>, edit: Edit, level: nat)
    requires PartlyHolds(s, edits, edit, |edit.added|, level)
    ensures LevelHolds(s, edits + [edit], level)
  {
    assert edit.added[..|edit.added|] == edit.added;
    assert (edits + [edit])[..|edits|] == edits;
    assert Edit(edit.deleted, edit.added) == edit;
  }

  /** Merge the base files of a level with the added ones; a deleted number drops its file. */
  method SaveLevel(base: seq<File>, added: seq<File>, deleted: set<nat>) returns (files: seq<File>)
    requires SortedBySmallest(base) && SortedBySmallest(added) && DistinctRanks(base, added)
    ensures SortedBySmallest(files)
    ensures Elements(files) == set f | f in Elements(base) + Elements(added) && f.number !in deleted
  {
    files := [];
    var b := 0;
    for a := 0 to |added|
      invariant 0 <= b <= |base|
      invariant Merged(base[..b], added[..a], deleted, files)
      invariant AllBefore(base[..b], added[..a], base[b..], added[a..])
    {
      while b < |base| && !BySmallestKey(added[a], base[b])
        invariant 0 <= b <= |base|
        invariant Merged(base[..b], added[..a], deleted, files)
        invariant AllBefore(base[..b], added[..a], base[b..], added[a..])
        decreases |base| - b
      {
        files := MaybeAddFile(base[..b], added[..a], deleted, files, base[b]);
        assert base[..b + 1] == base[..b] + [base[b]];
        forall g | g in base[b + 1..] || g in added[a..] ensures BySmallestKey(base[b], g) {
          assert g in added[a..] ==> g == added[a] || BySmallestKey(added[a], g);
          assert !SameRank(base[b], added[a]);
        }
        b := b + 1;
      }
      files := MaybeAddFile(added[..a], base[..b], deleted, files, added[a]);
      assert added[..a + 1] == added[..a] + [added[a]];
    }
    while b < |base|
      invariant 0 <= b <= |base|
      invariant Merged(base[..b], added, deleted, files)
      invariant AllBefore(base[..b], added, base[b..], [])
    {
      files := MaybeAddFile(base[..b], added, deleted, files, base[b]);
      assert base[..b + 1] == base[..b] + [base[b]];
      b := b + 1;
    }
    assert base[..b] == base;
  }

  ghost predicate Merged(a: seq<File>, b: seq<File>, deleted: set<nat>, files: seq<File>) {
    SortedBySmallest(files) && forall f :: f in files <==> (f in a || f in b) && f.number !in deleted
  }

  ghost predicate AllBefore(a: seq<File>, b: seq<File>, c: seq<File>, d: seq<File>) {
    forall f, g :: (f in a || f in b) && (g in c || g in d) ==> BySmallestKey(f, g)
  }

  method MaybeAddFile(a: seq<File>, b: seq<File>, deleted: set<nat>, files: seq<File>, f: File) returns (r: seq<File>)
    requires Merged(a, b, deleted, files)
    requires forall g :: g in a || g in b ==> BySmallestKey(g, f)
    ensures Merged(a + [f], b, deleted, r)
  {
    r := if f.number in deleted then files else files + [f];
  }

  lemma {:induction false} AddedAreFresh(base: Levels, edits: seq<Edit>, level: nat)
    requires |base| == NUM_LEVELS && level < NUM_LEVELS && AddedOnce(base, edits)
    ensures forall f, g :: f in base[level] && g in AddedFiles(edits, level) ==> f.number != g.number
  {
    if edits != [] {
      AddedAreFresh(base, edits[..|edits| - 1], level);
    }
  }

  // ---------------------------------------------------------------- installing and replaying edits

  /** Install one edit on the current version. */
  method LogAndApply(current: Levels, edit: Edit) returns (w: Levels)
    requires |current| == NUM_LEVELS
    requires forall l :: 0 <= l < NUM_LEVELS ==> SortedBySmallest(current[l])
    requires AddedOnce(current, [edit])
    ensures Installs(current, edit, w)
  {
    var builder := new Builder(current);
    assert [] + [edit] == [edit];
    builder.Apply(edit);
    w := builder.SaveTo();
    forall l | 0 <= l < NUM_LEVELS ensures Elements(w[l]) == FilesAfter(Elements(current[l]), edit, l) {
      BuiltFromOne(current, edit, l);
    }
  }

  lemma BuiltFromOne(base: Levels, edit: Edit, level: nat)
    requires |base| == NUM_LEVELS && level < NUM_LEVELS
    ensures Built(base, [edit], level) == FilesAfter(Elements(base[level]), edit, level)
  {
    assert [edit][..0] == [];
    assert AddedFiles([edit], level) == AddedFiles([], level) + AddedAt(edit, level);
    forall n ensures n in DeletedNumbers([edit], level) <==> (level, n) in edit.deleted && !AddsNumber(edit, level, n) {
      assert n in DeletedAt(edit, level) <==> (level, n) in edit.deleted by {
        if (level, n) in edit.deleted {
          assert (level, n).1 in DeletedAt(edit, level);
        }
      }
    }
  }

  /** A run of installed versions, one per edit. */
  ghost predicate InstallRun(vs: seq<Levels>, edits: seq<Edit>) {
    && |vs| == |edits| + 1
    && |vs[0]| == NUM_LEVELS
    && forall i :: 0 <= i < |edits| ==> Installs(vs[i], edits[i], vs[i + 1])
  }

  /** One builder that takes in all edits reaches the same files as installing the edits one after the other. */
  lemma {:induction false} ReplayMatchesInstalls(vs: seq<Levels>, edits: seq<Edit>, level: nat)
    requires InstallRun(vs, edits) && level < NUM_LEVELS
    requires AddedOnce(vs[0], edits)
    ensures |vs[|edits|]| == NUM_LEVELS
    ensures Elements(vs[|edits|][level]) == Built(vs[0], edits, level)
  {
    if edits != [] {
      var n := |edits| - 1;
      var init, last := edits[..n], edits[n];
      ReplayMatchesInstalls(vs[..n + 1], init, level);
      AddedAreFresh(vs[0], init, level);
      assert Installs(vs[n], last, vs[n + 1]);
      var files := Built(vs[0], init, level);
      assert Elements(vs[n + 1][level]) == FilesAfter(files, last, level);
      OneMoreEdit(vs[0], init, last, level);
      assert init + [last] == edits;
    }
  }

  lemma OneMoreEdit(base: Levels, init: seq<Edit>, last: Edit, level: nat)
    requires |base| == NUM_LEVELS && level < NUM_LEVELS
    requires AddedOnce(base, init + [last])
    ensures FilesAfter(Built(base, init, level), last, level) == Built(base, init + [last], level)
  {
    var edits := init + [last];
    assert edits[..|edits| - 1] == init;
    AddedAreFresh(base, init, level);
    var a, b := FilesAfter(Built(base, init, level), last, level), Built(base, edits, level);
    forall f ensures f in a <==> f in b {
      assert f.number in DeletedAt(last, level) <==> (level, f.number) in last.deleted by {
        if (level, f.number) in last.deleted {
          assert (level, f.number).1 in DeletedAt(last, level);
        }
      }
      if f in AddedAt(last, level) {
        var p :| p in last.added && p.0 == level && p.1 == f;
        assert AddsNumber(last, level, f.number);
      } else if f in Elements(base[level]) + AddedFiles(init, level) {
        assert !AddsNumber(last, level, f.number);
      }
    }
  }

  /** The files of a level after the edits one after the other: the plain meaning of a list of edits. */
  ghost function Replayed(base: Levels, edits: seq<Edit>, level: nat): set<File>
    requires level < |base|
  {
    if edits == [] then Elements(base[level])
    else FilesAfter(Replayed(base, edits[..|edits| - 1], level), edits[|edits| - 1], level)
  }

  /** One builder for all edits is as good as applying them in turn. */
  lemma {:induction false} BuiltIsReplayed(base: Levels, edits: seq<Edit>, level: nat)
    requires |base| == NUM_LEVELS && level < NUM_LEVELS && AddedOnce(base, edits)
    ensures Built(base, edits, level) == Replayed(base, edits, level)
  {
    hide FilesAfter;
    if edits == [] {
    } else {
      var n := |edits| - 1;
      BuiltIsReplayed(base, edits[..n], level);
      assert edits[..n] + [edits[n]] == edits;
      OneMoreEdit(base, edits[..n], edits[n], level);
    }
  }

  /** A version with the files of the replayed edits, each level in order. */
  ghost predicate Replays(w: Levels, edits: seq<Edit>) {
    |w| == NUM_LEVELS && forall l :: 0 <= l < NUM_LEVELS ==> SortedBySmallest(w[l]) && Elements(w[l]) == Replayed(EMPTY_VERSION, edits, l)
  }

  /** There is only one such version. */
  lemma ReplaysIsUnique(v: Levels, w: Levels, edits: seq<Edit>)
    requires Replays(v, edits) && Replays(w, edits)
    ensures v == w
  {
    hide Replayed, SortedBySmallest;
    forall l | 0 <= l < NUM_LEVELS ensures v[l] == w[l] {
      SortedIsUnique(v[l], w[l]);
    }
  }

  /** Installing one more edit goes one replayed edit further. */
  lemma InstallReplays(v: Levels, edits: seq<Edit>, edit: Edit, w: Levels)
    requires Replays(v, edits) && Installs(v, edit, w)
    ensures Replays(w, edits + [edit])
  {
    hide FilesAfter, SortedBySmallest;
    assert (edits + [edit])[..|edits|] == edits;
  }

  /** A run of installs from the empty version ends in the version of the replayed edits. */
  lemma {:induction false} RunReplays(vs: seq<Levels>, edits: seq<Edit>)
    requires InstallRun(vs, edits) && vs[0] == EMPTY_VERSION
    ensures Replays(vs[|edits|], edits)
    decreases |edits|
  {
    hide Replays, Installs;
    if edits == [] {
      EmptyReplays();
    } else {
      var n := |edits| - 1;
      RunReplays(vs[..n + 1], edits[..n]);
      InstallReplays(vs[n], edits[..n], edits[n], vs[n + 1]);
      assert edits[..n] + [edits[n]] == edits;
    }
  }

  lemma EmptyReplays()
    ensures Replays(EMPTY_VERSION, [])
  {
    assert forall l :: 0 <= l < NUM_LEVELS ==> EMPTY_VERSION[l] == [];
  }

  const EMPTY_VERSION: Levels := [[], [], [], [], [], [], []]

  /** Recover: replay the edits of a manifest into one builder over the empty version. */
  method Recover(edits: seq<Edit>) returns (w: Levels)
    requires AddedOnce(EMPTY_VERSION, edits)
    ensures Replays(w, edits)
    ensures forall vs :: InstallRun(vs, edits) && vs[0] == EMPTY_VERSION ==> w == vs[|edits|]
  {
    var builder := new Builder(EMPTY_VERSION);
    for i := 0 to |edits|
      invariant builder.Valid() && builder.base == EMPTY_VERSION
      invariant builder.edits == edits[..i]
    {
      PrefixAddedOnce(EMPTY_VERSION, edits, i + 1);
      assert edits[..i + 1] == edits[..i] + [edits[i]];
      builder.Apply(edits[i]);
    }
    assert edits[..|edits|] == edits;
    w := builder.SaveTo();
    SavedReplays(w, edits);
  }

  /** What the builder saves is the version of the replayed edits, and the one that installing them in turn ends in. */
  lemma SavedReplays(w: Levels, edits: seq<Edit>)
    requires AddedOnce(EMPTY_VERSION, edits) && |w| == NUM_LEVELS
    requires forall l :: 0 <= l < NUM_LEVELS ==> SortedBySmallest(w[l]) && Elements(w[l]) == Built(EMPTY_VERSION, edits, l)
    ensures Replays(w, edits)
    ensures forall vs :: InstallRun(vs, edits) && vs[0] == EMPTY_VERSION ==> w == vs[|edits|]
  {
    hide InstallRun, Built, Replayed, SortedBySmallest, AddedOnce;
    forall l | 0 <= l < NUM_LEVELS ensures Elements(w[l]) == Replayed(EMPTY_VERSION, edits, l) {
      BuiltIsReplayed(EMPTY_VERSION, edits, l);
    }
    RunsEndThere(w, edits);
  }

  lemma RunsEndThere(w: Levels, edits: seq<Edit>)
    requires Replays(w, edits)
    ensures forall vs :: InstallRun(vs, edits) && vs[0] == EMPTY_VERSION ==> w == vs[|edits|]
  {
    hide Replays;
    forall vs | InstallRun(vs, edits) && vs[0] == EMPTY_VERSION ensures w == vs[|edits|] {
      RunReplays(vs, edits);
      ReplaysIsUnique(w, vs[|edits|], edits);
    }
  }

  lemma {:induction false} PrefixAddedOnce(base: Levels, edits: seq<Edit>, n: nat)
    requires |base| == NUM_LEVELS && AddedOnce(base, edits) && n <= |edits|
    ensures AddedOnce(base, edits[..n])
    decreases |edits|
  {
    if n < |edits| {
      PrefixAddedOnce(base, edits[..|edits| - 1], n);
      assert edits[..|edits| - 1][..n] == edits[..n];
    } else {
      assert edits[..n] == edits;
    }
  }

  /** The edit that WriteSnapshot records: every file of every level, nothing deleted. */
  function SnapshotEdit(v: Levels): Edit {
    Edit({}, SnapshotFiles(v, |v|))
  }

  function SnapshotFiles(v: Levels, n: nat): seq<(nat, File)>
    requires n <= |v|
  {
    if n == 0 then [] else SnapshotFiles(v, n - 1) + seq(|v[n - 1]|, i requires 0 <= i < |v[n - 1]| => (n - 1, v[n - 1][i]))
  }

  lemma {:induction false} SnapshotHolds(v: Levels, n: nat)
    requires n <= |v|
    ensures forall l, f :: (l, f) in SnapshotFiles(v, n) <==> 0 <= l < n && f in v[l]
  {
    if n > 0 {
      SnapshotHolds(v, n - 1);
      var part := seq(|v[n - 1]|, i requires 0 <= i < |v[n - 1]| => (n - 1, v[n - 1][i]));
      var files := v[n - 1];
      forall f | f in files ensures (n - 1, f) in part {
        var i :| 0 <= i < |files| && files[i] == f;
        assert part[i] == (n - 1, f);
      }
    }
  }

  /** A manifest's first record rebuilds the version it was written from. */
  lemma SnapshotRebuilds(v: Levels)
    requires |v| == NUM_LEVELS
    requires forall l :: 0 <= l < NUM_LEVELS ==> SortedBySmallest(v[l])
    ensures Installs(EMPTY_VERSION, SnapshotEdit(v), v)
  {
    SnapshotHolds(v, NUM_LEVELS);
    var edit := SnapshotEdit(v);
    forall l | 0 <= l < NUM_LEVELS ensures Elements(v[l]) == FilesAfter(Elements(EMPTY_VERSION[l]), edit, l) {
      forall f ensures f in AddedAt(edit, l) <==> f in v[l] {
        if f in v[l] {
          assert (l, f) in edit.added;
        }
      }
    }
  }

  lemma {:induction false} SnapshotIsAddedOnce(v: Levels, n: nat)
    requires n <= |v| == NUM_LEVELS
    requires forall l :: 0 <= l < NUM_LEVELS ==> DistinctNumbers(v[l])
    ensures forall i, j :: 0 <= i < j < |SnapshotFiles(v, n)| && SnapshotFiles(v, n)[i].0 == SnapshotFiles(v, n)[j].0 ==>
              SnapshotFiles(v, n)[i].1.number != SnapshotFiles(v, n)[j].1.number
  {
    if n > 0 {
      SnapshotIsAddedOnce(v, n - 1);
      SnapshotHolds(v, n - 1);
      var front := SnapshotFiles(v, n - 1);
      forall i | 0 <= i < |front| ensures front[i].0 < n - 1 {
        assert (front[i].0, front[i].1) in front;
      }
    }
  }

  lemma SnapshotAlone(v: Levels)
    requires |v| == NUM_LEVELS
    requires forall l :: 0 <= l < NUM_LEVELS ==> DistinctNumbers(v[l])
    ensures AddedOnce(EMPTY_VERSION, [SnapshotEdit(v)])
    ensures forall l :: 0 <= l < NUM_LEVELS ==> AddedFiles([SnapshotEdit(v)], l) == Elements(v[l])
  {
    var snap := SnapshotEdit(v);
    SnapshotHolds(v, NUM_LEVELS);
    SnapshotIsAddedOnce(v, NUM_LEVELS);
    assert [snap][..0] == [];
    forall p | p in snap.added ensures p.0 < NUM_LEVELS {
      assert (p.0, p.1) in snap.added;
    }
    assert forall l :: 0 <= l < NUM_LEVELS ==> EMPTY_VERSION[l] == [];
    assert AddsFresh(EMPTY_VERSION, [], snap);
    forall l | 0 <= l < NUM_LEVELS ensures AddedFiles([snap], l) == Elements(v[l]) {
      assert AddedFiles([snap], l) == AddedFiles([], l) + AddedAt(snap, l);
      forall f ensures f in AddedAt(snap, l) <==> f in v[l] {
        if f in v[l] {
          assert (l, f) in snap.added;
        }
      }
    }
  }

  lemma FreshBehindSnapshot(v: Levels, snap: Edit, edits: seq<Edit>, last: Edit)
    requires |v| == NUM_LEVELS && AddsFresh(v, edits, last)
    requires forall l :: 0 <= l < NUM_LEVELS ==> AddedFiles([snap] + edits, l) == Elements(v[l]) + AddedFiles(edits, l)
    ensures AddsFresh(EMPTY_VERSION, [snap] + edits, last)
  {
    hide AddedFiles;
    assert forall l :: 0 <= l < NUM_LEVELS ==> EMPTY_VERSION[l] == [];
  }

  /** Behind a snapshot record, edits are added once over the empty version if they are over the recorded one. */
  lemma {:induction false} AddedOnceBehindSnapshot(v: Levels, edits: seq<Edit>)
    requires |v| == NUM_LEVELS && AddedOnce(v, edits)
    requires forall l :: 0 <= l < NUM_LEVELS ==> SortedBySmallest(v[l]) && DistinctNumbers(v[l])
    ensures AddedOnce(EMPTY_VERSION, [SnapshotEdit(v)] + edits)
    ensures forall l :: 0 <= l < NUM_LEVELS ==>
              AddedFiles([SnapshotEdit(v)] + edits, l) == Elements(v[l]) + AddedFiles(edits, l)
  {
    hide AddsFresh, SnapshotEdit, SortedBySmallest, DistinctNumbers, AddedAt;
    var snap := SnapshotEdit(v);
    if edits == [] {
      assert [snap] + edits == [snap];
      SnapshotAlone(v);
    } else {
      var n := |edits| - 1;
      AddedOnceBehindSnapshot(v, edits[..n]);
      assert ([snap] + edits)[..n + 1] == [snap] + edits[..n];
      FreshBehindSnapshot(v, snap, edits[..n], edits[n]);
      forall l | 0 <= l < NUM_LEVELS ensures AddedFiles([snap] + edits, l) == Elements(v[l]) + AddedFiles(edits, l) {
        assert AddedFiles([snap] + edits, l) == AddedFiles([snap] + edits[..n], l) + AddedAt(edits[n], l);
      }
    }
  }

  /** A manifest that starts with the record of `vs[0]` and goes on with the edits installed since: the run that
      Recover replays ends in the version that is current, whatever the edits. */
  lemma ManifestDescribesRun(vs: seq<Levels>, edits: seq<Edit>)
    requires InstallRun(vs, edits) && AddedOnce(vs[0], edits)
    requires forall l :: 0 <= l < NUM_LEVELS ==> SortedBySmallest(vs[0][l]) && DistinctNumbers(vs[0][l])
    ensures AddedOnce(EMPTY_VERSION, [SnapshotEdit(vs[0])] + edits)
    ensures InstallRun([EMPTY_VERSION] + vs, [SnapshotEdit(vs[0])] + edits)
    ensures ([EMPTY_VERSION] + vs)[|edits| + 1] == vs[|edits|]
  {
    AddedOnceBehindSnapshot(vs[0], edits);
    SnapshotRebuilds(vs[0]);
    var allVs, allEdits := [EMPTY_VERSION] + vs, [SnapshotEdit(vs[0])] + edits;
    forall i | 0 <= i < |allEdits| ensures Installs(allVs[i], allEdits[i], allVs[i + 1]) {
      if i > 0 {
        assert Installs(vs[i - 1], edits[i - 1], vs[i]);
      }
    }
  }
}
