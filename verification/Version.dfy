/** Table files, levels and the read path of one version (db/version_set.cc). */
module Version {
  import opened InternalKeys

  const NUM_LEVELS: nat := 7

  /** A table file: its metadata in the version and the entries it stores. */
  datatype File = File(number: nat, size: nat, smallest: IKey, largest: IKey, entries: seq<Entry>)

  type Levels = seq<seq<File>>

  function TotalFileSize(files: seq<File>): nat {
    if files == [] then 0 else TotalFileSize(files[..|files| - 1]) + files[|files| - 1].size
  }

  ghost predicate ValidFile(f: File) {
    && |f.entries| > 0
    && Sorted(f.entries)
    && f.smallest == f.entries[0].k
    && f.largest == f.entries[|f.entries| - 1].k
  }

  ghost predicate Disjoint(files: seq<File>) {
    forall i, j :: 0 <= i < j < |files| ==> Less(files[i].largest, files[j].smallest)
  }

  ghost predicate DistinctNumbers(files: seq<File>) {
    forall i, j :: 0 <= i < j < |files| ==> files[i].number != files[j].number
  }

  ghost function LevelEntries(files: set<File>): set<Entry> {
    set f, e | f in files && e in f.entries :: e
  }

  /** In level 0 a file with a larger number is newer, for every user key. */
  ghost predicate NewerByNumber(files: set<File>) {
    forall f, g :: f in files && g in files && f.number > g.number ==> Newer(Elements(f.entries), Elements(g.entries))
  }

  ghost function EntriesAt(v: Levels, level: nat): set<Entry>
    requires level < |v|
  {
    LevelEntries(Elements(v[level]))
  }

  ghost function EntriesBelow(v: Levels, level: nat): set<Entry> {
    set l: nat, e | level <= l < |v| && e in EntriesAt(v, l) :: e
  }

  ghost function VersionEntries(v: Levels): set<Entry> {
    EntriesBelow(v, 0)
  }

  /** What every version keeps: well-formed files, level 0 ordered by file number, deeper levels sorted
      and disjoint, each level newer, user key by user key, than the levels below it, and no sequence number
      shared by two entries of a user key. */
  ghost predicate ValidVersion(v: Levels) {
    && |v| == NUM_LEVELS
    && (forall l, f :: 0 <= l < NUM_LEVELS && f in v[l] ==> ValidFile(f))
    && (forall l :: 0 <= l < NUM_LEVELS ==> DistinctNumbers(v[l]))
    && NewerByNumber(Elements(v[0]))
    && (forall l :: 1 <= l < NUM_LEVELS ==> Disjoint(v[l]))
    && (forall l, m :: 0 <= l < m < NUM_LEVELS ==> Newer(EntriesAt(v, l), EntriesAt(v, m)))
    && (forall l :: 0 <= l < NUM_LEVELS ==> Unambiguous(EntriesAt(v, l)))
  }

  /** The smallest index whose file's largest key is at or after `key`. */
  method FindFile(files: seq<File>, key: IKey) returns (right: nat)
    requires forall f <- files :: ValidFile(f)
    requires Disjoint(files)
    ensures right <= |files|
    ensures forall i :: 0 <= i < right ==> Less(files[i].largest, key)
    ensures forall i :: right <= i < |files| ==> !Less(files[i].largest, key)
  {
    var left := 0;
    right := |files|;
    while left < right
      invariant 0 <= left <= right <= |files|
      invariant forall i :: 0 <= i < left ==> Less(files[i].largest, key)
      invariant forall i :: right <= i < |files| ==> !Less(files[i].largest, key)
    {
      var mid := (left + right) / 2;
      var f := files[mid];
      if Less(f.largest, key) {
        forall i | 0 <= i < mid ensures Less(files[i].largest, key) {
          FileBounds(f);
        }
        left := mid + 1;
      } else {
        forall i | mid < i < |files| ensures !Less(files[i].largest, key) {
          FileBounds(files[i]);
        }
        right := mid;
      }
    }
  }

  lemma FileBounds(f: File)
    requires ValidFile(f)
    ensures !Less(f.largest, f.smallest)
    ensures forall e <- f.entries :: !Less(e.k, f.smallest) && !Less(f.largest, e.k)
  {
  }

  /** A sorted, disjoint level is read through a single file: the first whose largest key reaches the seek key. */
  lemma OneFileSuffices(files: seq<File>, index: nat, u: UserKey, s: nat)
    requires forall f <- files :: ValidFile(f)
    requires Disjoint(files)
    requires index <= |files|
    requires forall i :: 0 <= i < index ==> Less(files[i].largest, SeekKey(u, s))
    requires index < |files| ==> !Less(files[index].largest, SeekKey(u, s))
    ensures Newest(LevelEntries(Elements(files)), u, s,
                   if index < |files| && files[index].smallest.user <= u then RunGet(files[index].entries, u, s) else None)
  {
    hide RunGet, Sorted, Less;
    var r := if index < |files| && files[index].smallest.user <= u then RunGet(files[index].entries, u, s) else None;
    forall e | e in LevelEntries(Elements(files)) && Visible(e, u, s)
      ensures r.Some? && e.k.seqno <= r.value.k.seqno
    {
      var f :| f in Elements(files) && e in f.entries;
      var j :| 0 <= j < |files| && files[j] == f;
      EntryDecided(files, index, u, s, e, j);
      assert files[index] in files && ValidFile(files[index]);
      RunGetFindsNewest(files[index].entries, u, s);
    }
    if r.Some? {
      assert files[index] in files;
      RunGetFindsNewest(files[index].entries, u, s);
      assert r.value in files[index].entries && files[index] in Elements(files);
    }
  }

  /** A visible entry of the level is in the selected file or older than a visible one there. */
  lemma EntryDecided(files: seq<File>, index: nat, u: UserKey, s: nat, e: Entry, j: nat)
    requires forall f <- files :: ValidFile(f)
    requires Disjoint(files)
    requires index <= |files|
    requires forall i :: 0 <= i < index ==> Less(files[i].largest, SeekKey(u, s))
    requires index < |files| ==> !Less(files[index].largest, SeekKey(u, s))
    requires j < |files| && e in files[j].entries && Visible(e, u, s)
    ensures index < |files| && files[index].smallest.user <= u
    ensures exists x <- Elements(files[index].entries) :: Visible(x, u, s) && e.k.seqno <= x.k.seqno
  {
    FileBounds(files[j]);
    SeekKeySplits(u, s, e.k);
    var g := files[index];
    FileBounds(g);
    if index < j {
      var last := g.entries[|g.entries| - 1];
      assert Less(g.largest, e.k) && g.largest.user == u;
      assert Visible(last, u, s) by { SeekKeySplits(u, s, last.k); }
      assert last in Elements(g.entries);
    } else {
      assert e in Elements(g.entries);
    }
  }

  method GetFromSortedLevel(files: seq<File>, u: UserKey, s: nat) returns (r: Option<Entry>)
    requires forall f <- files :: ValidFile(f)
    requires Disjoint(files)
    ensures Newest(LevelEntries(Elements(files)), u, s, r)
  {
    var index := FindFile(files, SeekKey(u, s));
    OneFileSuffices(files, index, u, s);
    if index >= |files| || u < files[index].smallest.user {
      return None;
    }
    r := RunGet(files[index].entries, u, s);
  }

  ghost predicate NewestFirst(files: seq<File>) {
    forall i, j :: 0 <= i < j < |files| ==> files[i].number > files[j].number
  }

  /** Insert into a list that is ordered by decreasing file number. */
  function InsertByNumber(f: File, files: seq<File>): seq<File> {
    if files == [] || files[0].number < f.number then [f] + files
    else [files[0]] + InsertByNumber(f, files[1..])
  }

  lemma {:induction false} InsertKeepsNewestFirst(f: File, files: seq<File>)
    requires NewestFirst(files)
    requires forall g <- files :: g.number != f.number
    ensures NewestFirst(InsertByNumber(f, files))
    ensures forall g :: g in InsertByNumber(f, files) <==> g == f || g in files
  {
    if files != [] && files[0].number >= f.number {
      InsertKeepsNewestFirst(f, files[1..]);
      var rest := InsertByNumber(f, files[1..]);
      assert files == [files[0]] + files[1..];
      forall i | 0 <= i < |rest| ensures rest[i].number < files[0].number {
        assert rest[i] in rest;
        assert files[0] in files;
      }
    }
  }

  /** The files of level 0 whose user-key range holds `u`, newest first. */
  method CollectNewestFirst(files: seq<File>, u: UserKey) returns (tmp: seq<File>)
    requires DistinctNumbers(files)
    ensures NewestFirst(tmp)
    ensures Elements(tmp) == set f | f in files && f.smallest.user <= u <= f.largest.user
  {
    tmp := [];
    for i := 0 to |files|
      invariant NewestFirst(tmp)
      invariant forall g :: g in tmp <==> g in files[..i] && g.smallest.user <= u <= g.largest.user
    {
      var f := files[i];
      assert files[..i + 1] == files[..i] + [f];
      if f.smallest.user <= u && u <= f.largest.user {
        forall g <- tmp ensures g.number != f.number {
          assert g in files[..i];
        }
        InsertKeepsNewestFirst(f, tmp);
        tmp := InsertByNumber(f, tmp);
      }
    }
    assert files[..|files|] == files;
  }

  lemma OnlyOverlappingFilesMatter(files: seq<File>, tmp: seq<File>, u: UserKey, s: nat)
    requires forall f <- files :: ValidFile(f)
    requires Elements(tmp) == set f | f in files && f.smallest.user <= u <= f.largest.user
    ensures forall f <- files, e | e in f.entries && Visible(e, u, s) :: f in tmp
    ensures forall f <- tmp :: f in files
  {
    forall f <- files, e | e in f.entries && Visible(e, u, s) ensures f in tmp {
      FileBounds(f);
      assert f in Elements(tmp);
    }
    forall f <- tmp ensures f in files {
      assert f in Elements(tmp);
    }
  }

  /** Among files ordered newest first, the first file that answers decides. */
  lemma FirstFileDecides(files: seq<File>, tmp: seq<File>, i: nat, u: UserKey, s: nat, r: Option<Entry>)
    requires NewerByNumber(Elements(files)) && NewestFirst(tmp)
    requires forall f <- files, e | e in f.entries && Visible(e, u, s) :: f in tmp
    requires forall f <- tmp :: f in files
    requires i <= |tmp|
    requires forall j :: 0 <= j < i ==> Newest(Elements(tmp[j].entries), u, s, None)
    requires if i < |tmp| then r.Some? && Newest(Elements(tmp[i].entries), u, s, r) else r.None?
    ensures Newest(LevelEntries(Elements(files)), u, s, r)
  {
    hide NewerByNumber, NewestFirst;
    forall e | e in LevelEntries(Elements(files)) && Visible(e, u, s)
      ensures r.Some? && e.k.seqno <= r.value.k.seqno
    {
      var f :| f in Elements(files) && e in f.entries;
      var j :| 0 <= j < |tmp| && tmp[j] == f;
      assert e in Elements(tmp[j].entries);
      if i < j {
        NewerFile(files, tmp, i, j);
        assert r.value in Elements(tmp[i].entries);
      }
    }
    if r.Some? {
      assert r.value in tmp[i].entries && tmp[i] in Elements(files);
    }
  }

  lemma NewerFile(files: seq<File>, tmp: seq<File>, i: nat, j: nat)
    requires NewerByNumber(Elements(files)) && NewestFirst(tmp) && i < j < |tmp| && tmp[i] in files && tmp[j] in files
    ensures Newer(Elements(tmp[i].entries), Elements(tmp[j].entries))
  {
    hide Newer;
  }

  /** The level-0 part of Version::Get: search the files whose range holds `u`, newest first. */
  method GetFromLevelZero(files: seq<File>, u: UserKey, s: nat) returns (r: Option<Entry>)
    requires forall f <- files :: ValidFile(f)
    requires DistinctNumbers(files)
    requires NewerByNumber(Elements(files))
    ensures Newest(LevelEntries(Elements(files)), u, s, r)
  {
    hide NewestFirst, NewerByNumber, DistinctNumbers, Newest, RunGet, LevelEntries;
    var tmp := CollectNewestFirst(files, u);
    OnlyOverlappingFilesMatter(files, tmp, u, s);
    r := None;
    var i := 0;
    while i < |tmp|
      invariant 0 <= i <= |tmp|
      invariant r.None?
      invariant forall j :: 0 <= j < i ==> Newest(Elements(tmp[j].entries), u, s, None)
    {
      assert tmp[i] in tmp;
      RunGetFindsNewest(tmp[i].entries, u, s);
      r := RunGet(tmp[i].entries, u, s);
      if r.Some? {
        break;
      }
      i := i + 1;
    }
    FirstFileDecides(files, tmp, i, u, s, r);
  }

  /** Version::Get: level by level, stopping at the first answer, returns the newest visible entry of the whole version. */
  method Get(v: Levels, u: UserKey, s: nat) returns (r: Option<Entry>)
    requires ValidVersion(v)
    ensures Newest(VersionEntries(v), u, s, r)
  {
    var level := 0;
    while level < NUM_LEVELS
      invariant 0 <= level <= NUM_LEVELS
      invariant forall l :: 0 <= l < level ==> Newest(EntriesAt(v, l), u, s, None)
    {
      if level == 0 {
        r := GetFromLevelZero(v[0], u, s);
      } else {
        r := GetFromSortedLevel(v[level], u, s);
      }
      if r.Some? {
        AnswerOfFirstLevel(v, level, u, s, r);
        return;
      }
      level := level + 1;
    }
    r := None;
  }

  lemma AnswerOfFirstLevel(v: Levels, level: nat, u: UserKey, s: nat, r: Option<Entry>)
    requires ValidVersion(v) && level < NUM_LEVELS
    requires forall l :: 0 <= l < level ==> Newest(EntriesAt(v, l), u, s, None)
    requires r.Some? && Newest(EntriesAt(v, level), u, s, r)
    ensures Newest(VersionEntries(v), u, s, r)
  {
    forall e | e in VersionEntries(v) && Visible(e, u, s) ensures e.k.seqno <= r.value.k.seqno {
      var l: nat :| l < |v| && e in EntriesAt(v, l);
      if level < l {
        assert Newer(EntriesAt(v, level), EntriesAt(v, l));
      }
    }
  }
}
