/** The store as a state machine (db/db_impl.cc, db/memtable.cc, db/snapshot.h): its state, the invariant that ties
    it to the history of writes, and the steps. */
module Database {
  import opened InternalKeys
  import opened Version
  import opened InputSelection
  import opened VersionBuilder
  import opened Compaction
  import opened CompactionReads
  import opened MergeDown
  import opened MemTableFlush
  import opened SortedRuns

  /** The i-th element of the history (from 1) says what sequence number i was given to: a put or a delete, or nothing that
      is stored, when the write failed. */
  datatype Op = Op(user: UserKey, kind: ValueType, value: Slice) | Unused

  type Update = op: Op | op.Op? witness Op(0.0, TypeDeletion, [])

  function EntryOf(op: Update, seqno: nat): Entry {
    Entry(IKey(op.user, seqno, op.kind), op.value)
  }

  /** The reference: a plain map, built by replaying the first `s` writes. */
  ghost function Store(history: seq<Op>, s: nat): map<UserKey, Slice>
    requires s <= |history|
  {
    if s == 0 then map[]
    else
      var m, op := Store(history, s - 1), history[s - 1];
      if op.Unused? then m else if op.kind.TypeValue? then m[op.user := op.value] else m - {op.user}
  }

  ghost function ReadStore(history: seq<Op>, s: nat, u: UserKey): Option<Slice>
    requires s <= |history|
  {
    var m := Store(history, s);
    if u in m then Some(m[u]) else None
  }

  /** `mem` and `imm` are sorted runs (the contents of the memtables); `history` is ghost. */
  datatype State = State(mem: seq<Entry>, imm: Option<seq<Entry>>, version: Levels, snapshots: seq<nat>,
                         lastSequence: nat, nextFile: nat, history: seq<Op>)

  ghost function ImmEntries(st: State): set<Entry> {
    if st.imm.Some? then Elements(st.imm.value) else {}
  }

  ghost function All(st: State): set<Entry> {
    Elements(st.mem) + ImmEntries(st) + VersionEntries(st.version)
  }

  /** The lowest sequence number a compaction must preserve: the oldest snapshot, or the last write when there is none. */
  function SmallestSnapshot(snapshots: seq<nat>, lastSequence: nat): nat {
    if snapshots == [] then lastSequence else snapshots[0]
  }

  ghost predicate Matches(e: Entry, history: seq<Op>) {
    1 <= e.k.seqno <= |history| && history[e.k.seqno - 1].Op? && e == EntryOf(history[e.k.seqno - 1], e.k.seqno)
  }

  ghost predicate ReadsAs(es: set<Entry>, u: UserKey, s: nat, value: Option<Slice>) {
    forall r :: Newest(es, u, s, r) ==> ValueOf(r) == value
  }

  ghost predicate SnapshotsOrdered(st: State) {
    && (forall i, j :: 0 <= i < j < |st.snapshots| ==> st.snapshots[i] <= st.snapshots[j])
    && (forall i :: 0 <= i < |st.snapshots| ==> st.snapshots[i] <= st.lastSequence)
  }

  /** File numbers are unique over all levels and below the next one to be given out. */
  ghost predicate NumbersUnique(v: Levels, nextFile: nat)
  {
    && (forall l, f :: 0 <= l < |v| && f in v[l] ==> f.number < nextFile)
    && (forall l, m, f, g :: 0 <= l < m < |v| && f in v[l] && g in v[m] ==> f.number != g.number)
  }

  /** Memory and disk are ordered by recency, and all of it is sorted. */
  ghost predicate Structured(st: State) {
    && ValidVersion(st.version)
    && (forall l :: 0 <= l < NUM_LEVELS ==> SortedBySmallest(st.version[l]))
    && NumbersUnique(st.version, st.nextFile)
    && Sorted(st.mem) && (st.imm.Some? ==> Sorted(st.imm.value))
    && Newer(Elements(st.mem), ImmEntries(st))
    && Newer(Elements(st.mem) + ImmEntries(st), VersionEntries(st.version))
  }

  /** Every stored entry is a write of the history, and every readable sequence number reads as the replayed history. */
  ghost predicate Faithful(st: State) {
    && st.lastSequence == |st.history| < MAX_SEQUENCE
    && (forall e <- All(st) :: Matches(e, st.history))
    && (forall u, s :: SmallestSnapshot(st.snapshots, st.lastSequence) <= s <= st.lastSequence ==>
          ReadsAs(All(st), u, s, ReadStore(st.history, s, u)))
  }

  ghost predicate Inv(st: State) {
    Structured(st) && Faithful(st) && SnapshotsOrdered(st)
  }

  lemma MatchedIsUnambiguous(st: State)
    requires Faithful(st)
    ensures Unambiguous(All(st)) && Unambiguous(VersionEntries(st.version))
  {
  }

  // ---------------------------------------------------------------- reading

  /** The first answer of memtable, immutable memtable and version, in that order, is the right one. */
  lemma LayeredAnswer(st: State, u: UserKey, s: nat, inMem: Option<Entry>, inImm: Option<Entry>, inVersion: Option<Entry>)
    requires Inv(st)
    requires SmallestSnapshot(st.snapshots, st.lastSequence) <= s <= st.lastSequence
    requires Newest(Elements(st.mem), u, s, inMem) && Newest(ImmEntries(st), u, s, inImm)
    requires inMem.None? && inImm.None? ==> Newest(VersionEntries(st.version), u, s, inVersion)
    ensures ValueOf(if inMem.Some? then inMem else if inImm.Some? then inImm else inVersion) == ReadStore(st.history, s, u)
  {
    NewestOfLayers(Elements(st.mem), ImmEntries(st), u, s, inMem, inImm);
    var r := if inMem.Some? then inMem else inImm;
    var deep := inVersion;
    if r.Some? {
      deep := NewestExists(VersionEntries(st.version), u, s);
    }
    NewestOfLayers(Elements(st.mem) + ImmEntries(st), VersionEntries(st.version), u, s, r, deep);
    assert ReadsAs(All(st), u, s, ReadStore(st.history, s, u));
  }

  // ---------------------------------------------------------------- writing

  function InsertOp(mem: seq<Entry>, op: Op, seqno: nat): seq<Entry> {
    if op.Op? then Insert(mem, EntryOf(op, seqno)) else mem
  }

  /** WriteBatchInternal::InsertInto: the operations of a batch get consecutive sequence numbers. */
  function InsertAll(mem: seq<Entry>, ops: seq<Op>, seqno: nat): seq<Entry>
    decreases |ops|
  {
    if ops == [] then mem else InsertAll(InsertOp(mem, ops[0], seqno), ops[1..], seqno + 1)
  }

  ghost function Written(st: State, ops: seq<Op>): State {
    st.(mem := InsertAll(st.mem, ops, st.lastSequence + 1),
        lastSequence := st.lastSequence + |ops|,
        history := st.history + ops)
  }

  /** Inserting a batch entry by entry, from the front, is inserting it as a whole. */
  lemma {:induction false} InsertAllSnoc(mem: seq<Entry>, ops: seq<Op>, op: Op, seqno: nat)
    ensures InsertAll(mem, ops + [op], seqno) == InsertOp(InsertAll(mem, ops, seqno), op, seqno + |ops|)
    decreases |ops|
  {
    if ops == [] {
      assert ([] + [op])[1..] == [];
    } else {
      assert (ops + [op])[1..] == ops[1..] + [op];
      InsertAllSnoc(InsertOp(mem, ops[0], seqno), ops[1..], op, seqno + 1);
    }
  }

  lemma {:induction false} StorePrefix(history: seq<Op>, more: seq<Op>, s: nat)
    requires s <= |history|
    ensures Store(history + more, s) == Store(history, s)
  {
    if s > 0 {
      StorePrefix(history, more, s - 1);
    }
  }

  ghost function StoredBy(op: Op, seqno: nat): set<Entry> {
    if op.Op? then {EntryOf(op, seqno)} else {}
  }

  lemma WriteOneAll(st: State, op: Op)
    requires Inv(st)
    ensures Sorted(Written(st, [op]).mem)
    ensures All(Written(st, [op])) == All(st) + StoredBy(op, st.lastSequence + 1)
    ensures Elements(Written(st, [op]).mem) == Elements(st.mem) + StoredBy(op, st.lastSequence + 1)
  {
    assert [op][1..] == [];
    assert InsertAll(st.mem, [op], st.lastSequence + 1) == InsertOp(st.mem, op, st.lastSequence + 1);
    if op.Op? {
      var e := EntryOf(op, st.lastSequence + 1);
      forall x | x in st.mem ensures x.k != e.k {
        assert x in All(st);
      }
      InsertSorts(st.mem, e);
    }
  }

  lemma WriteOneReads(st: State, op: Op, u: UserKey, s: nat)
    requires Inv(st)
    requires SmallestSnapshot(st.snapshots, st.lastSequence + 1) <= s <= st.lastSequence + 1
    ensures ReadsAs(All(Written(st, [op])), u, s, ReadStore(st.history + [op], s, u))
  {
    WriteOneAll(st, op);
    var last := if s <= st.lastSequence then s else st.lastSequence;
    StorePrefix(st.history, [op], last);
    assert ReadsAs(All(st), u, last, ReadStore(st.history, last, u));
    forall r | Newest(All(st) + StoredBy(op, st.lastSequence + 1), u, s, r)
      ensures ValueOf(r) == ReadStore(st.history + [op], s, u)
    {
      if s <= st.lastSequence {
        assert Newest(All(st), u, s, r);
      } else if op.Op? && u == op.user {
        var e := EntryOf(op, st.lastSequence + 1);
        assert Visible(e, u, s);
        assert r == Some(e);
      } else {
        assert Newest(All(st), u, last, r);
      }
    }
  }

  lemma WriteOneMatches(st: State, op: Op)
    requires Inv(st)
    ensures forall x <- All(Written(st, [op])) :: Matches(x, st.history + [op])
  {
    hide All, Structured, ReadsAs, ReadStore;
    WriteOneAll(st, op);
    forall x | x in All(Written(st, [op])) ensures Matches(x, st.history + [op]) {
      if x in All(st) {
        assert Matches(x, st.history);
      }
    }
  }

  /** The new entry is newer than everything else. */
  lemma WriteOneStructured(st: State, op: Op)
    requires Inv(st)
    ensures Structured(Written(st, [op]))
  {
    hide ReadsAs, ReadStore, ValidVersion;
    WriteOneAll(st, op);
    assert forall x <- All(st) :: Matches(x, st.history);
  }

  lemma WriteOneKeepsInv(st: State, op: Op)
    requires Inv(st) && st.lastSequence + 1 < MAX_SEQUENCE
    ensures Inv(Written(st, [op]))
  {
    hide Structured, ReadsAs, ReadStore, All, InsertAll;
    WriteOneStructured(st, op);
    WriteOneMatches(st, op);
    var w := Written(st, [op]);
    forall u, s | SmallestSnapshot(w.snapshots, w.lastSequence) <= s <= w.lastSequence
      ensures ReadsAs(All(w), u, s, ReadStore(w.history, s, u))
    {
      WriteOneReads(st, op, u, s);
    }
  }

  lemma WrittenSplit(st: State, ops: seq<Op>)
    requires ops != []
    ensures Written(st, ops) == Written(Written(st, [ops[0]]), ops[1..])
  {
    assert [ops[0]] + ops[1..] == ops;
    assert [ops[0]][1..] == [];
    assert st.history + [ops[0]] + ops[1..] == st.history + ops;
    assert InsertAll(st.mem, [ops[0]], st.lastSequence + 1) == InsertOp(st.mem, ops[0], st.lastSequence + 1);
  }

  /** Writing a batch keeps the invariant: its operations become visible as replayed history, older reads stay. */
  lemma {:induction false} WriteKeepsInv(st: State, ops: seq<Op>)
    requires Inv(st) && st.lastSequence + |ops| < MAX_SEQUENCE
    ensures Inv(Written(st, ops))
    decreases |ops|
  {
    hide Inv, InsertAll;
    if ops == [] {
      NothingWritten(st);
    } else {
      WriteOneKeepsInv(st, ops[0]);
      WrittenSplit(st, ops);
      WriteKeepsInv(Written(st, [ops[0]]), ops[1..]);
    }
  }

  lemma NothingWritten(st: State)
    ensures Written(st, []) == st
  {
    assert st.history + [] == st.history;
  }

  /** A write of `n` operations whose log record could not be written: its sequence numbers are used up all the same. */
  ghost function Failed(st: State, n: nat): State {
    Written(st, seq(n, _ => Unused))
  }

  lemma {:induction false} UnusedInsertsNothing(mem: seq<Entry>, n: nat, seqno: nat)
    ensures InsertAll(mem, seq(n, _ => Unused), seqno) == mem
  {
    if n > 0 {
      assert seq(n, _ => Unused)[1..] == seq(n - 1, _ => Unused);
      UnusedInsertsNothing(mem, n - 1, seqno + 1);
    }
  }

  /** A failed write stores nothing, and a reader at the new last sequence number sees what one at the old one saw. */
  lemma {:induction false} FailedStoresNothing(st: State, n: nat, u: UserKey)
    requires st.lastSequence == |st.history|
    ensures Failed(st, n) == st.(lastSequence := st.lastSequence + n, history := Failed(st, n).history)
    ensures ReadStore(Failed(st, n).history, st.lastSequence + n, u) == ReadStore(st.history, st.lastSequence, u)
  {
    UnusedInsertsNothing(st.mem, n, st.lastSequence + 1);
    UnusedChangesNothing(st.history, n);
  }

  lemma {:induction false} UnusedChangesNothing(history: seq<Op>, n: nat)
    ensures Store(history + seq(n, _ => Unused), |history| + n) == Store(history, |history|)
  {
    if n == 0 {
      assert history + [] == history;
    } else {
      var longer := history + seq(n - 1, _ => Unused);
      assert history + seq(n, _ => Unused) == longer + [Unused];
      StorePrefix(longer, [Unused], |longer|);
      UnusedChangesNothing(history, n - 1);
    }
  }

  // ---------------------------------------------------------------- memtable switch and snapshots

  /** MakeRoomForWrite: a full memtable becomes the immutable one. A file number is spent on the new log. */
  ghost function Switched(st: State): State {
    st.(mem := [], imm := Some(st.mem), nextFile := st.nextFile + 1)
  }

  ghost function SnapshotTaken(st: State): State {
    st.(snapshots := st.snapshots + [st.lastSequence])
  }

  ghost function SnapshotReleased(st: State, i: nat): State
    requires i < |st.snapshots|
  {
    st.(snapshots := st.snapshots[..i] + st.snapshots[i + 1..])
  }

  lemma SwitchKeepsInv(st: State)
    requires Inv(st) && st.imm.None?
    ensures Inv(Switched(st))
  {
    assert Elements<Entry>([]) == {};
    assert All(Switched(st)) == All(st);
  }

  lemma SnapshotKeepsInv(st: State)
    requires Inv(st)
    ensures Inv(SnapshotTaken(st))
  {
    assert All(SnapshotTaken(st)) == All(st);
  }

  lemma ReleaseOrdered(s: seq<nat>, i: nat)
    requires i < |s| && forall j, k :: 0 <= j < k < |s| ==> s[j] <= s[k]
    ensures var r := s[..i] + s[i + 1..];
            && (forall j, k :: 0 <= j < k < |r| ==> r[j] <= r[k])
            && forall j :: 0 <= j < |r| ==> r[j] == s[if j < i then j else j + 1]
  {
  }

  /** The same entries under the same history serve every read that a higher floor still allows. */
  lemma SameEntriesFaithful(st: State, w: State)
    requires Faithful(st) && All(w) == All(st)
    requires w.history == st.history && w.lastSequence == st.lastSequence
    requires SmallestSnapshot(st.snapshots, st.lastSequence) <= SmallestSnapshot(w.snapshots, w.lastSequence)
    ensures Faithful(w)
  {
  }

  lemma ReleaseKeepsInv(st: State, i: nat)
    requires Inv(st) && i < |st.snapshots|
    ensures Inv(SnapshotReleased(st, i))
  {
    ReleaseOrdered(st.snapshots, i);
    SameEntriesFaithful(st, SnapshotReleased(st, i));
  }

  // ---------------------------------------------------------------- flushing the immutable memtable

  /** CompactMemTable: the immutable memtable becomes a file at a level it fits in; an empty one just disappears. */
  ghost predicate Flushed(st: State, w: State) {
    && st.imm.Some?
    && w == st.(imm := None, version := w.version, nextFile := st.nextFile + 1)
    && (st.imm.value == [] ==> Installs(st.version, Edit({}, []), w.version))
    && (st.imm.value != [] ==>
          exists level, size :: 0 <= level < |st.version|
            && FitsAt(st.version, level, UserRangeOf(st.imm.value))
            && Installs(st.version, Edit({}, [(level, TableOf(st.nextFile, size, st.imm.value))]), w.version))
  }

  lemma NothingInstalled(v: Levels, w: Levels)
    requires Installs(v, Edit({}, []), w)
    requires forall l :: 0 <= l < NUM_LEVELS ==> SortedBySmallest(v[l])
    ensures v == w
  {
    forall l | 0 <= l < NUM_LEVELS ensures v[l] == w[l] {
      assert AddedAt(Edit({}, []), l) == {};
      assert FilesAfter(Elements(v[l]), Edit({}, []), l) == Elements(v[l]);
      SortedIsUnique(v[l], w[l]);
    }
  }

  lemma FlushedEntries(st: State, w: State, level: nat, f: File)
    requires st.imm.Some? && st.imm.value != [] && level < NUM_LEVELS
    requires w == st.(imm := None, version := w.version, nextFile := st.nextFile + 1)
    requires f.entries == st.imm.value && Added(st.version, level, f, w.version)
    ensures All(w) == All(st)
    ensures VersionEntries(w.version) == VersionEntries(st.version) + Elements(f.entries)
  {
    AddedEntries(st.version, level, f, w.version);
  }

  lemma FlushedRecency(st: State, w: State, f: File)
    requires Structured(st) && st.imm.Some? && f.entries == st.imm.value
    requires w.mem == st.mem && w.imm.None?
    requires VersionEntries(w.version) == VersionEntries(st.version) + Elements(f.entries)
    ensures Newer(Elements(f.entries), VersionEntries(st.version))
    ensures Newer(Elements(w.mem), ImmEntries(w))
    ensures Newer(Elements(w.mem) + ImmEntries(w), VersionEntries(w.version))
  {
    var v, run := VersionEntries(st.version), Elements(f.entries);
    assert ImmEntries(st) == run;
    NewerUnion(v, Elements(st.mem), run);
    NewerUnion(Elements(st.mem), v, run);
    assert Elements(w.mem) + ImmEntries(w) == Elements(st.mem);
  }

  lemma FlushedVersion(st: State, w: State, level: nat, f: File)
    requires Inv(st) && st.imm.Some? && st.imm.value != [] && level < NUM_LEVELS
    requires f.number == st.nextFile && f == TableOf(f.number, f.size, st.imm.value)
    requires FitsAt(st.version, level, UserRangeOf(st.imm.value))
    requires Added(st.version, level, f, w.version)
    requires Newer(Elements(f.entries), VersionEntries(st.version))
    ensures ValidVersion(w.version)
  {
    MatchedIsUnambiguous(st);
    assert VersionEntries(st.version) + Elements(f.entries) <= All(st);
    AddedIsValid(st.version, level, f, w.version);
  }

  lemma FlushedNumbers(st: State, w: State, level: nat, f: File)
    requires NumbersUnique(st.version, st.nextFile) && level < NUM_LEVELS
    requires f.number == st.nextFile
    requires Added(st.version, level, f, w.version)
    ensures NumbersUnique(w.version, st.nextFile + 1)
  {
    var v := w.version;
    forall l, g: File | 0 <= l < |v| && g in v[l] ensures g.number < st.nextFile + 1 && (g in st.version[l] || (l == level && g == f)) {
      assert g in Elements(v[l]);
    }
    forall l, m, g: File, h: File | 0 <= l < m < |v| && g in v[l] && h in v[m] ensures g.number != h.number {
      assert g in Elements(v[l]) && h in Elements(v[m]);
    }
  }

  /** Flushing the immutable memtable keeps the invariant; no entry is lost or made up. */
  lemma FlushKeepsInv(st: State, w: State)
    requires Inv(st) && Flushed(st, w)
    ensures Inv(w) && All(w) == All(st)
  {
    if st.imm.value == [] {
      NothingInstalled(st.version, w.version);
      assert Elements<Entry>([]) == {};
      assert All(w) == All(st);
    } else {
      var level, size :| 0 <= level < NUM_LEVELS
        && FitsAt(st.version, level, UserRangeOf(st.imm.value))
        && Installs(st.version, Edit({}, [(level, TableOf(st.nextFile, size, st.imm.value))]), w.version);
      var f := TableOf(st.nextFile, size, st.imm.value);
      InstalledAdds(st.version, level, f, w.version);
      FlushedEntries(st, w, level, f);
      FlushedRecency(st, w, f);
      FlushedVersion(st, w, level, f);
      FlushedNumbers(st, w, level, f);
    }
    SameEntriesFaithful(st, w);
  }

  // ---------------------------------------------------------------- moving and merging files down

  ghost function EntriesAbove(v: Levels, level: nat): set<Entry>
    requires level <= |v|
  {
    set l: nat, e | l < level && e in EntriesAt(v, l) :: e
  }

  /** The parts of the store around a compaction of `level`. */
  ghost function PartsOf(st: State, level: nat, in0: seq<File>, in1: seq<File>): Parts
    requires level + 1 < |st.version|
  {
    Parts(Elements(st.mem) + ImmEntries(st) + EntriesAbove(st.version, level) +
          LevelEntries(Elements(st.version[level]) - Elements(in0)),
          InputEntries(in0, in1),
          LevelEntries(Elements(st.version[level + 1]) - Elements(in1)),
          EntriesBelow(st.version, level + 2))
  }

  lemma VersionInParts(v: Levels, level: nat, in0: seq<File>, in1: seq<File>)
    requires level + 1 < |v|
    requires forall f <- in0 :: f in v[level]
    requires forall f <- in1 :: f in v[level + 1]
    ensures VersionEntries(v) == EntriesAbove(v, level) + LevelEntries(Elements(v[level]) - Elements(in0)) +
                                 InputEntries(in0, in1) + LevelEntries(Elements(v[level + 1]) - Elements(in1)) +
                                 EntriesBelow(v, level + 2)
  {
    InputsAreOldEntries(v, level, in0, in1);
    LevelSplit(Elements(v[level]), Elements(in0));
    LevelSplit(Elements(v[level + 1]), Elements(in1));
    forall e ensures e in VersionEntries(v) <==>
      e in EntriesAbove(v, level) || e in EntriesAt(v, level) || e in EntriesAt(v, level + 1) || e in EntriesBelow(v, level + 2)
    {
      if e in VersionEntries(v) {
        var l: nat :| l < |v| && e in EntriesAt(v, l);
        assert l < level || l == level || l == level + 1 || level + 2 <= l;
      }
    }
  }

  lemma LevelSplit(files: set<File>, part: set<File>)
    requires part <= files
    ensures LevelEntries(files) == LevelEntries(files - part) + LevelEntries(part)
  {
  }

  lemma ReplacedInParts(v: Levels, level: nat, in0: seq<File>, in1: seq<File>, outputs: seq<File>, w: Levels)
    requires level + 1 < NUM_LEVELS && Replaced(v, level, in0, in1, outputs, w)
    ensures VersionEntries(w) == EntriesAbove(v, level) + LevelEntries(Elements(v[level]) - Elements(in0)) +
                                 LevelEntries(Elements(outputs)) + LevelEntries(Elements(v[level + 1]) - Elements(in1)) +
                                 EntriesBelow(v, level + 2)
  {
    ReplacedEntries(v, level, in0, in1, outputs, w);
    forall e ensures e in VersionEntries(w) <==>
      e in EntriesAbove(v, level) || e in EntriesAt(w, level) || e in EntriesAt(w, level + 1) || e in EntriesBelow(v, level + 2)
    {
      if e in VersionEntries(w) {
        var l: nat :| l < |w| && e in EntriesAt(w, l);
        assert l < level || l == level || l == level + 1 || level + 2 <= l;
        if l != level && l != level + 1 {
          assert e in EntriesAt(v, l);
        }
      }
    }
  }

  lemma PartsCoverAll(st: State, level: nat, in0: seq<File>, in1: seq<File>)
    requires level + 1 < |st.version|
    requires forall f <- in0 :: f in st.version[level]
    requires forall f <- in1 :: f in st.version[level + 1]
    ensures PartsOf(st, level, in0, in1).All() == All(st)
  {
    VersionInParts(st.version, level, in0, in1);
  }

  lemma UpperNewerThanInputs(st: State, level: nat, in0: seq<File>, in1: seq<File>)
    requires Structured(st) && level + 1 < NUM_LEVELS
    requires Selected(st.version, level, in0, in1)
    ensures Newer(PartsOf(st, level, in0, in1).upper, InputEntries(in0, in1))
  {
    var v, inputs := st.version, InputEntries(in0, in1);
    SelectedFromNext(v, level, in0, in1);
    VersionInParts(v, level, in0, in1);
    LeftOutNewerThanInputs(v, level, in0, in1);
    AboveNewerThanInputs(v, level, in0, in1);
    var memory := Elements(st.mem) + ImmEntries(st);
    NewerParts(memory, VersionEntries(v), memory, inputs);
    var above, left := EntriesAbove(v, level), LevelEntries(Elements(v[level]) - Elements(in0));
    NewerUnion(inputs, memory, above);
    NewerUnion(inputs, memory + above, left);
  }

  lemma PartsSeparated(st: State, level: nat, in0: seq<File>, in1: seq<File>)
    requires Inv(st) && level + 1 < NUM_LEVELS
    requires Selected(st.version, level, in0, in1)
    ensures Separated(st.version, level, PartsOf(st, level, in0, in1))
    ensures PartsOf(st, level, in0, in1).All() == All(st)
  {
    SelectedFromNext(st.version, level, in0, in1);
    PartsCoverAll(st, level, in0, in1);
    MatchedIsUnambiguous(st);
    UpperNewerThanInputs(st, level, in0, in1);
    forall e | e in PartsOf(st, level, in0, in1).deeper ensures !BaseLevel(st.version, level, e.k.user) {
      DeepEntryIsNotBase(st.version, level, e);
    }
  }

  lemma AboveNewerThanInputs(v: Levels, level: nat, in0: seq<File>, in1: seq<File>)
    requires ValidVersion(v) && level + 1 < NUM_LEVELS
    requires forall f <- in0 :: f in v[level]
    requires forall f <- in1 :: f in v[level + 1]
    ensures Newer(EntriesAbove(v, level), InputEntries(in0, in1))
  {
    InputsAreOldEntries(v, level, in0, in1);
    forall x, y | x in EntriesAbove(v, level) && y in InputEntries(in0, in1) && x.k.user == y.k.user
      ensures x.k.seqno > y.k.seqno
    {
      var l: nat :| l < level && x in EntriesAt(v, l);
      assert Newer(EntriesAt(v, l), EntriesAt(v, level));
      assert Newer(EntriesAt(v, l), EntriesAt(v, level + 1));
    }
  }

  lemma DeepEntryIsNotBase(v: Levels, level: nat, e: Entry)
    requires ValidVersion(v) && e in EntriesBelow(v, level + 2)
    ensures !BaseLevel(v, level, e.k.user)
  {
    var l: nat :| level + 2 <= l < |v| && e in EntriesAt(v, l);
    var f :| f in Elements(v[l]) && e in f.entries;
    FileBounds(f);
    assert f in v[l] && f.smallest.user <= e.k.user <= f.largest.user;
  }

  function Contents(files: seq<File>): seq<seq<Entry>> {
    seq(|files|, i requires 0 <= i < |files| => files[i].entries)
  }

  /** Table files under consecutive new numbers. */
  ghost predicate NewTables(files: seq<File>, nextFile: nat) {
    forall i :: 0 <= i < |files| ==>
      files[i].entries != [] && files[i] == TableOf(nextFile + i, files[i].size, files[i].entries)
  }

  /** A compaction of `level`: selected inputs, merged in order, filtered by the drop rules, cut into new files. */
  ghost predicate Compacted(st: State, level: nat, in0: seq<File>, in1: seq<File>, merged: seq<Entry>, outputs: seq<File>, w: State) {
    && level + 1 < NUM_LEVELS == |st.version|
    && Selected(st.version, level, in0, in1)
    && Sorted(merged) && Elements(merged) == InputEntries(in0, in1)
    && NewTables(outputs, st.nextFile)
    && Flatten(Contents(outputs)) ==
       Kept(st.version, level, SmallestSnapshot(st.snapshots, st.lastSequence), merged, |merged|)
    && Installs(st.version, CompactionEdit(level, in0, in1, outputs), w.version)
    && w == st.(version := w.version, nextFile := st.nextFile + |outputs|)
  }

  lemma OutputsHoldKept(v: Levels, level: nat, snapshot: nat, merged: seq<Entry>, outputs: seq<File>)
    requires Sorted(merged)
    requires Flatten(Contents(outputs)) == Kept(v, level, snapshot, merged, |merged|)
    ensures LevelEntries(Elements(outputs)) == KeptSet(v, level, snapshot, Elements(merged))
  {
    var parts := Contents(outputs);
    KeptEntries(v, level, snapshot, merged, |merged|);
    FlattenMembers(parts);
    assert merged[..|merged|] == merged;
    forall e ensures e in LevelEntries(Elements(outputs)) <==> e in Flatten(parts) {
      if e in LevelEntries(Elements(outputs)) {
        var o :| o in Elements(outputs) && e in o.entries;
        var i :| 0 <= i < |outputs| && outputs[i] == o;
        assert parts[i] == o.entries;
      }
      if e in Flatten(parts) {
        var p :| p in parts && e in p;
        var i :| 0 <= i < |parts| && parts[i] == p;
        assert outputs[i] in Elements(outputs) && e in outputs[i].entries;
      }
    }
  }

  lemma OutputsAreTables(outputs: seq<File>, nextFile: nat)
    requires NewTables(outputs, nextFile) && Sorted(Flatten(Contents(outputs)))
    ensures forall o <- outputs :: ValidFile(o) && nextFile <= o.number < nextFile + |outputs|
    ensures Disjoint(outputs) && DistinctNumbers(outputs)
  {
    var parts := Contents(outputs);
    forall i | 0 <= i < |outputs|
      ensures ValidFile(outputs[i])
      ensures forall j :: 0 <= j < i ==> Less(outputs[j].largest, outputs[i].smallest)
    {
      PartsOfSorted(parts, i);
      assert parts[i] == outputs[i].entries;
      forall j | 0 <= j < i ensures Less(outputs[j].largest, outputs[i].smallest) {
        assert parts[j] == outputs[j].entries;
        assert outputs[j].entries[|outputs[j].entries| - 1] in parts[j] && outputs[i].entries[0] in parts[i];
      }
    }
  }

  lemma CompactionOutputs(st: State, level: nat, in0: seq<File>, in1: seq<File>, merged: seq<Entry>, outputs: seq<File>, w: State)
    requires Inv(st) && Compacted(st, level, in0, in1, merged, outputs, w)
    ensures GoodOutputs(st.version, level, in0, in1, outputs)
    ensures LevelEntries(Elements(outputs)) ==
            KeptSet(st.version, level, SmallestSnapshot(st.snapshots, st.lastSequence), InputEntries(in0, in1))
    ensures forall o <- outputs :: st.nextFile <= o.number < w.nextFile
  {
    var snapshot := SmallestSnapshot(st.snapshots, st.lastSequence);
    OutputsHoldKept(st.version, level, snapshot, merged, outputs);
    KeptEntries(st.version, level, snapshot, merged, |merged|);
    OutputsAreTables(outputs, st.nextFile);
  }

  lemma ReplacedNumbersUnique(v: Levels, level: nat, in0: seq<File>, in1: seq<File>, outputs: seq<File>, w: Levels, n: nat, m: nat)
    requires level + 1 < NUM_LEVELS && Replaced(v, level, in0, in1, outputs, w)
    requires NumbersUnique(v, n) && n <= m
    requires forall o <- outputs :: o.number < m
    requires forall o, l, g :: o in outputs && 0 <= l < NUM_LEVELS && g in Elements(v[l]) && g in Elements(w[l]) ==> o.number != g.number
    ensures NumbersUnique(w, m)
  {
    forall l, g: File | 0 <= l < |w| && g in w[l] ensures g.number < m {
      assert g in Elements(w[l]);
    }
    forall l, k, g: File, h: File | 0 <= l < k < |w| && g in w[l] && h in w[k] ensures g.number != h.number {
      assert g in Elements(w[l]) && h in Elements(w[k]);
      if g in v[l] && h in v[k] {
      } else if g in v[l] {
        assert h in outputs && g in Elements(v[l]);
      } else {
        assert g in outputs && h in Elements(v[k]);
      }
    }
  }

  /** What any replacement of selected inputs by good outputs keeps. */
  lemma ReplacedVersion(st: State, level: nat, in0: seq<File>, in1: seq<File>, outputs: seq<File>, w: Levels)
    requires Inv(st) && level + 1 < NUM_LEVELS
    requires Selected(st.version, level, in0, in1)
    requires GoodOutputs(st.version, level, in0, in1, outputs)
    requires Installs(st.version, CompactionEdit(level, in0, in1, outputs), w)
    ensures Replaced(st.version, level, in0, in1, outputs, w)
    ensures ValidVersion(w)
  {
    SelectedFromNext(st.version, level, in0, in1);
    InstalledReplaces(st.version, level, in0, in1, outputs, w);
    MatchedIsUnambiguous(st);
    ReplacedIsValid(st.version, level, in0, in1, outputs, w);
  }

  lemma ReplacedAll(st: State, level: nat, in0: seq<File>, in1: seq<File>, outputs: seq<File>, w: State)
    requires level + 1 < NUM_LEVELS == |st.version| && Selected(st.version, level, in0, in1)
    requires Replaced(st.version, level, in0, in1, outputs, w.version)
    requires LevelEntries(Elements(outputs)) <= InputEntries(in0, in1)
    requires w.mem == st.mem && w.imm == st.imm
    ensures All(w) == PartsOf(st, level, in0, in1).(inputs := LevelEntries(Elements(outputs))).All()
    ensures VersionEntries(w.version) <= VersionEntries(st.version)
  {
    hide Replaced, VersionEntries, EntriesAbove, EntriesBelow, LevelEntries, InputEntries;
    SelectedFromNext(st.version, level, in0, in1);
    ReplacedInParts(st.version, level, in0, in1, outputs, w.version);
    VersionInParts(st.version, level, in0, in1);
  }

  /** A compaction always keeps the store well-formed, and leaves exactly the undropped entries. */
  lemma CompactionStructure(st: State, level: nat, in0: seq<File>, in1: seq<File>, merged: seq<Entry>, outputs: seq<File>, w: State)
    requires Inv(st) && Compacted(st, level, in0, in1, merged, outputs, w)
    ensures Structured(w)
    ensures All(w) == After(st.version, level, SmallestSnapshot(st.snapshots, st.lastSequence), PartsOf(st, level, in0, in1))
  {
    CompactionOutputs(st, level, in0, in1, merged, outputs, w);
    ReplacedVersion(st, level, in0, in1, outputs, w.version);
    ReplacedAll(st, level, in0, in1, outputs, w);
    ReplacedNumbersUnique(st.version, level, in0, in1, outputs, w.version, st.nextFile, w.nextFile);
    NewerParts(Elements(st.mem) + ImmEntries(st), VersionEntries(st.version),
               Elements(w.mem) + ImmEntries(w), VersionEntries(w.version));
  }

  /** The compaction brings a deleted key back: its tombstone is dropped while an older value stays behind. */
  ghost predicate CompactionResurrects(st: State, level: nat, in0: seq<File>, in1: seq<File>)
    requires level + 1 < |st.version|
  {
    exists u :: Resurrects(st.version, level, SmallestSnapshot(st.snapshots, st.lastSequence), PartsOf(st, level, in0, in1), u)
  }

  lemma ResurrectionBreaksInv(st: State, w: State, level: nat, p: Parts, u: UserKey)
    requires Inv(st) && Separated(st.version, level, p) && p.All() == All(st)
    requires w.history == st.history && w.lastSequence == st.lastSequence && w.snapshots == st.snapshots
    requires All(w) == After(st.version, level, SmallestSnapshot(st.snapshots, st.lastSequence), p)
    requires Resurrects(st.version, level, SmallestSnapshot(st.snapshots, st.lastSequence), p, u)
    ensures var floor := SmallestSnapshot(st.snapshots, st.lastSequence);
            floor <= |st.history| && !ReadsAs(All(w), u, floor, ReadStore(st.history, floor, u))
    ensures !Faithful(w)
  {
    var floor := SmallestSnapshot(st.snapshots, st.lastSequence);
    var r := NewestExists(All(st), u, floor);
    var r' := NewestExists(All(w), u, floor);
    ResurrectedReadChanges(st.version, level, floor, p, u, r, r');
    assert ReadsAs(All(st), u, floor, ReadStore(st.history, floor, u));
    assert !ReadsAs(All(w), u, floor, ReadStore(st.history, floor, u));
  }

  lemma SafeCompactionFaithful(st: State, w: State, level: nat, p: Parts)
    requires Inv(st) && Separated(st.version, level, p) && p.All() == All(st)
    requires w.history == st.history && w.lastSequence == st.lastSequence && w.snapshots == st.snapshots
    requires All(w) == After(st.version, level, SmallestSnapshot(st.snapshots, st.lastSequence), p)
    requires forall u :: !Resurrects(st.version, level, SmallestSnapshot(st.snapshots, st.lastSequence), p, u)
    ensures Faithful(w)
  {
    var floor := SmallestSnapshot(st.snapshots, st.lastSequence);
    DropRulesExact(st.version, level, floor, p);
    forall u, s | floor <= s <= st.lastSequence ensures ReadsAs(All(w), u, s, ReadStore(st.history, s, u)) {
      SameReadAs(st, w, u, s);
    }
    assert All(w) <= All(st);
  }

  lemma InvUnlessUnfaithful(st: State, w: State)
    requires SnapshotsOrdered(st) && w.snapshots == st.snapshots && w.lastSequence == st.lastSequence
    requires Structured(w)
    ensures Inv(w) <==> Faithful(w)
  {
  }

  /** A resurrected key reads wrongly right after the compaction, at a sequence number that readers use. */
  lemma ResurrectionShows(st: State, level: nat, in0: seq<File>, in1: seq<File>, merged: seq<Entry>, outputs: seq<File>, w: State)
    returns (u: UserKey)
    requires Inv(st) && Compacted(st, level, in0, in1, merged, outputs, w)
    requires CompactionResurrects(st, level, in0, in1)
    ensures var floor := SmallestSnapshot(w.snapshots, w.lastSequence);
            floor <= |w.history| && !ReadsAs(All(w), u, floor, ReadStore(w.history, floor, u))
  {
    hide Inv, Resurrects, ReadsAs;
    CompactionStructure(st, level, in0, in1, merged, outputs, w);
    PartsSeparated(st, level, in0, in1);
    var p := PartsOf(st, level, in0, in1);
    u :| Resurrects(st.version, level, SmallestSnapshot(st.snapshots, st.lastSequence), p, u);
    ResurrectionBreaksInv(st, w, level, p, u);
  }

  /** A compaction keeps the invariant exactly when it resurrects no key. */
  lemma CompactionExact(st: State, level: nat, in0: seq<File>, in1: seq<File>, merged: seq<Entry>, outputs: seq<File>, w: State)
    requires Inv(st) && Compacted(st, level, in0, in1, merged, outputs, w)
    ensures Inv(w) <==> !CompactionResurrects(st, level, in0, in1)
  {
    CompactionStructure(st, level, in0, in1, merged, outputs, w);
    InvUnlessUnfaithful(st, w);
    CompactionFaithful(st, level, in0, in1, w);
  }

  lemma CompactionFaithful(st: State, level: nat, in0: seq<File>, in1: seq<File>, w: State)
    requires Inv(st) && level + 1 < NUM_LEVELS
    requires Selected(st.version, level, in0, in1)
    requires All(w) == After(st.version, level, SmallestSnapshot(st.snapshots, st.lastSequence), PartsOf(st, level, in0, in1))
    requires w.history == st.history && w.lastSequence == st.lastSequence && w.snapshots == st.snapshots
    ensures Faithful(w) <==> !CompactionResurrects(st, level, in0, in1)
  {
    var p := PartsOf(st, level, in0, in1);
    PartsSeparated(st, level, in0, in1);
    if CompactionResurrects(st, level, in0, in1) {
      var u :| Resurrects(st.version, level, SmallestSnapshot(st.snapshots, st.lastSequence), p, u);
      ResurrectionBreaksInv(st, w, level, p, u);
    } else {
      SafeCompactionFaithful(st, w, level, p);
    }
  }

  lemma SameReadAs(st: State, w: State, u: UserKey, s: nat)
    requires Faithful(st) && SmallestSnapshot(st.snapshots, st.lastSequence) <= s <= st.lastSequence
    requires SameRead(All(st), All(w), u, s)
    ensures ReadsAs(All(w), u, s, ReadStore(st.history, s, u))
  {
    var r := NewestExists(All(st), u, s);
    assert ReadsAs(All(st), u, s, ReadStore(st.history, s, u));
  }

  /** A trivial move: the only input file, with nothing to merge it with, changes level. */
  ghost predicate Moved(st: State, level: nat, f: File, w: State) {
    && level + 1 < NUM_LEVELS == |st.version|
    && Selected(st.version, level, [f], [])
    && Installs(st.version, CompactionEdit(level, [f], [], [f]), w.version)
    && w == st.(version := w.version)
  }

  lemma MovedOutputs(v: Levels, level: nat, f: File)
    requires ValidVersion(v) && level + 1 < NUM_LEVELS && f in v[level]
    requires forall g <- v[level + 1] :: g.number != f.number
    ensures GoodOutputs(v, level, [f], [], [f])
    ensures LevelEntries(Elements([f])) == InputEntries([f], [])
  {
    assert Elements([f]) == Elements([f]) + Elements<File>([]);
  }

  lemma MoveKeepsInv(st: State, level: nat, f: File, w: State)
    requires Inv(st) && Moved(st, level, f, w)
    ensures Inv(w) && All(w) == All(st)
  {
    assert f in [f];
    MovedOutputs(st.version, level, f);
    ReplacedVersion(st, level, [f], [], [f], w.version);
    ReplacedAll(st, level, [f], [], [f], w);
    PartsCoverAll(st, level, [f], []);
    assert All(w) == All(st);
    MovedNumbers(st, level, f, w);
    NewerParts(Elements(st.mem) + ImmEntries(st), VersionEntries(st.version),
               Elements(w.mem) + ImmEntries(w), VersionEntries(w.version));
    SameEntriesFaithful(st, w);
  }

  lemma MovedNumbers(st: State, level: nat, f: File, w: State)
    requires Structured(st) && level + 1 < NUM_LEVELS && f in st.version[level]
    requires Replaced(st.version, level, [f], [], [f], w.version)
    ensures NumbersUnique(w.version, st.nextFile)
  {
    var v := st.version;
    forall o, l, g | o in [f] && 0 <= l < NUM_LEVELS && g in Elements(v[l]) && g in Elements(w.version[l])
      ensures o.number != g.number
    {
      if l == level && g.number == f.number {
        LevelNumbersDistinct(v[level], f, g);
      }
    }
    ReplacedNumbersUnique(v, level, [f], [], [f], w.version, st.nextFile, st.nextFile);
  }
}
