/** What is on disk during a run of the store: the tables of the current version, and the log behind each memtable. The
    tables alone are a store of their own, with the history up to the last flush; every step keeps it so exactly when it is
    guarded for the tables alone, without the memtables' help. */
module DurableRuns {
  import opened InternalKeys
  import opened Coding
  import WB = WriteBatch
  import opened Version
  import opened InputSelection
  import opened VersionBuilder
  import opened Compaction
  import opened CompactionReads
  import opened MergeDown
  import opened Database
  import Runs
  import opened Recovery

  /** What is known of a log's file. After a failed write its last batch is in doubt: all of its record may be in the file,
      or a part, or nothing. Whatever is written behind that leaves the file torn, and nothing is said about it: the writer
      is out of step with the blocks, and the reader may lose records that were synced (TornLog.LostBehindFailure). */
  datatype LogState = Clean | Doubt | Torn

  /** The batches handed to a log, and how many of them a sync has covered. */
  datatype LogFile = LogFile(batches: seq<Logged>, synced: nat, state: LogState)

  const NO_LOG: LogFile := LogFile([], 0, Clean)

  /** The batches whose writers were told that all went well. */
  function Acknowledged(log: LogFile): seq<Logged> {
    if log.state.Doubt? && log.batches != [] then log.batches[..|log.batches| - 1] else log.batches
  }

  function Appended(log: LogFile, b: Logged, sync: bool): LogFile {
    if !log.state.Clean? then log.(state := Torn)
    else LogFile(log.batches + [b], if sync then |log.batches| + 1 else log.synced, Clean)
  }

  function Doubtful(log: LogFile, b: Logged): LogFile {
    if !log.state.Clean? then log.(state := Torn) else LogFile(log.batches + [b], log.synced, Doubt)
  }

  /** The writes numbered up to `base` are in tables, those from there to `mid` in the immutable memtable and the older log,
      the rest in the memtable and the newer log. A background error makes all later writes fail at once. */
  datatype Durable = Durable(st: State, base: nat, mid: nat, former: LogFile, recent: LogFile, dead: bool)

  datatype Step =
    | LogWrite(updates: seq<WB.Update>, sync: bool)
    | AppendFails(updates: seq<WB.Update>)
    | SyncFails(updates: seq<WB.Update>)
    | Change(step: Runs.Step)

  ghost predicate CanWrite(d: Durable, us: seq<WB.Update>) {
    !d.dead && WB.AllFit(us) && |us| < TWO_32 && d.st.lastSequence + |us| < MAX_SEQUENCE
  }

  ghost predicate Takes(rank: Ranking, d: Durable, step: Step, e: Durable) {
    match step
    case LogWrite(us, sync) =>
      && CanWrite(d, us)
      && e == d.(st := Written(d.st, OpsOf(rank, us)), recent := Appended(d.recent, Logged(d.st.lastSequence + 1, us), sync))
    // Nothing is stored, but the numbers are used up. The next write goes to the same log.
    case AppendFails(us) =>
      && CanWrite(d, us)
      && e == d.(st := Failed(d.st, |us|), recent := Doubtful(d.recent, Logged(d.st.lastSequence + 1, us)))
    // The record may show up when the store is opened again, so there is no next write.
    case SyncFails(us) =>
      && CanWrite(d, us)
      && e == d.(st := Failed(d.st, |us|), recent := Doubtful(d.recent, Logged(d.st.lastSequence + 1, us)), dead := true)
    case Change(s) =>
      match s
      case Write(_) => false
      case Fail(_) => false
      // A new log is begun for the new memtable; the older one is closed as it is, without a sync.
      case Switch => !d.dead && Runs.Takes(d.st, s, e.st) && e == Durable(e.st, d.base, d.st.lastSequence, d.recent, NO_LOG, false)
      // The log number in the edit makes the older log obsolete.
      case Flush => Runs.Takes(d.st, s, e.st) && e == Durable(e.st, d.mid, d.mid, NO_LOG, d.recent, d.dead)
      case _ => Runs.Takes(d.st, s, e.st) && e == d.(st := e.st)
  }

  /** The batches make the history from one number to another, but for unused numbers at the end. */
  ghost predicate LogSays(rank: Ranking, history: seq<Op>, from: nat, to: nat, batches: seq<Logged>) {
    && from <= to <= |history| && Loggable(from, batches) && EndOf(from, batches) <= to
    && history[from..to] == HistoryOf(rank, from, batches) + Gap(to - EndOf(from, batches))
  }

  /** A log that is not torn holds the history from one number to another by the batches that were acknowledged. */
  ghost predicate FileSays(rank: Ranking, history: seq<Op>, from: nat, to: nat, log: LogFile) {
    !log.state.Torn? ==>
      && (log.state.Doubt? ==> log.batches != []) && log.synced <= |Acknowledged(log)|
      && Loggable(from, log.batches) && EndOf(from, log.batches) <= to
      && LogSays(rank, history, from, to, Acknowledged(log))
  }

  /** The store that the tables alone make. */
  ghost function DiskOf(d: Durable): State
    requires d.base <= |d.st.history|
  {
    State([], None, d.st.version, [], d.base, d.st.nextFile, d.st.history[..d.base])
  }

  ghost predicate Logs(rank: Ranking, d: Durable) {
    && d.base <= d.mid <= d.st.lastSequence == |d.st.history|
    && FileSays(rank, d.st.history, d.base, d.mid, d.former) && FileSays(rank, d.st.history, d.mid, |d.st.history|, d.recent)
    && d.st.mem == InsertAll([], d.st.history[d.mid..], d.mid + 1)
    && (match d.st.imm
        case None => d.base == d.mid && d.former == NO_LOG
        case Some(run) => run == InsertAll([], d.st.history[d.base..d.mid], d.base + 1))
  }

  ghost predicate DInv(rank: Ranking, d: Durable) {
    Inv(d.st) && Logs(rank, d) && Inv(DiskOf(d))
  }

  // ---------------------------------------------------------------- the logs

  lemma {:induction false} InsertAllAppend(mem: seq<Entry>, a: seq<Op>, b: seq<Op>, seqno: nat)
    ensures InsertAll(mem, a + b, seqno) == InsertAll(InsertAll(mem, a, seqno), b, seqno + |a|)
    decreases |a|
  {
    if a == [] {
      assert a + b == b;
    } else {
      assert (a + b)[1..] == a[1..] + b;
      InsertAllAppend(InsertOp(mem, a[0], seqno), a[1..], b, seqno + 1);
    }
  }

  lemma LogMore(rank: Ranking, history: seq<Op>, from: nat, batches: seq<Logged>, us: seq<WB.Update>)
    requires LogSays(rank, history, from, |history|, batches)
    requires WB.AllFit(us) && |us| < TWO_32 && |history| + |us| < MAX_SEQUENCE
    ensures LogSays(rank, history + OpsOf(rank, us), from, |history| + |us|, batches + [Logged(|history| + 1, us)])
  {
    hide HistoryOf, OpsOf, WB.AllFit, FitsBehind, Loggable, EndOf, Gap;
    var b := Logged(|history| + 1, us);
    var all := batches + [b];
    BatchFits(EndOf(from, batches), b);
    LoggableMore(from, batches, b);
    HistoryMore(rank, from, batches, b);
    OpsCount(rank, us);
    var h, ops, k := history + OpsOf(rank, us), OpsOf(rank, us), |history| - EndOf(from, batches);
    assert h[from..|h|] == history[from..|history|] + ops;
    assert history[from..|history|] == HistoryOf(rank, from, batches) + Gap(k);
    EmptyGap();
    assert HistoryOf(rank, from, all) + [] == HistoryOf(rank, from, all);
  }

  lemma EmptyGap()
    ensures Gap(0) == []
  {
  }

  lemma HistoryMore(rank: Ranking, from: nat, batches: seq<Logged>, b: Logged)
    requires Loggable(from, batches) && Loggable(from, batches + [b]) && FitsBehind(EndOf(from, batches), b)
    ensures EndOf(from, batches + [b]) == b.first + |b.updates| - 1
    ensures HistoryOf(rank, from, batches + [b]) ==
            HistoryOf(rank, from, batches) + Gap(b.first - 1 - EndOf(from, batches)) + OpsOf(rank, b.updates)
  {
    hide HistoryOf, OpsOf, WB.AllFit, Loggable;
    var all := batches + [b];
    assert all[..|batches|] == batches && all[..|all|] == all;
    HistorySnoc(rank, from, all, |batches|);
  }

  lemma BatchFits(end: int, b: Logged)
    requires WB.AllFit(b.updates) && |b.updates| < TWO_32 && end < b.first && b.first + |b.updates| <= MAX_SEQUENCE
    ensures FitsBehind(end, b)
  {
  }

  lemma LoggableMore(from: nat, batches: seq<Logged>, b: Logged)
    requires Loggable(from, batches) && FitsBehind(EndOf(from, batches), b)
    ensures Loggable(from, batches + [b])
  {
    hide FitsBehind;
    var all := batches + [b];
    forall i | 0 <= i < |all| ensures FitsBehind(EndOf(from, all[..i]), all[i]) {
      assert all[..i] == batches[..i];
      assert i == |batches| ==> batches[..i] == batches;
    }
  }

  lemma OpsCount(rank: Ranking, us: seq<WB.Update>)
    ensures |OpsOf(rank, us)| == |us|
  {
  }

  lemma LogGap(rank: Ranking, history: seq<Op>, from: nat, batches: seq<Logged>, n: nat)
    requires LogSays(rank, history, from, |history|, batches)
    ensures LogSays(rank, history + Gap(n), from, |history| + n, batches)
  {
    hide HistoryOf, Loggable, Gap;
    var h, k := history + Gap(n), |history| - EndOf(from, batches);
    GapsJoin(k, n);
    var said := HistoryOf(rank, from, batches);
    assert (said + Gap(k)) + Gap(n) == said + (Gap(k) + Gap(n));
    assert h[from..|h|] == history[from..|history|] + Gap(n);
  }

  lemma GapsJoin(k: nat, n: nat)
    ensures Gap(k) + Gap(n) == Gap(k + n) && |Gap(n)| == n
  {
  }

  lemma LogKept(rank: Ranking, history: seq<Op>, from: nat, to: nat, batches: seq<Logged>, more: seq<Op>)
    requires LogSays(rank, history, from, to, batches)
    ensures LogSays(rank, history + more, from, to, batches)
  {
    hide HistoryOf;
    assert (history + more)[from..to] == history[from..to];
  }

  lemma NothingLogged(rank: Ranking, history: seq<Op>, at: nat)
    requires at <= |history|
    ensures LogSays(rank, history, at, at, [])
  {
    assert history[at..at] == [] == Gap(0);
  }

  /** What a log says does not change as the history goes on. */
  lemma FileKept(rank: Ranking, history: seq<Op>, from: nat, to: nat, log: LogFile, more: seq<Op>)
    requires FileSays(rank, history, from, to, log)
    ensures FileSays(rank, history + more, from, to, log)
  {
    hide LogSays, Loggable, EndOf;
    if !log.state.Torn? {
      LogKept(rank, history, from, to, Acknowledged(log), more);
    }
  }

  lemma FileAppended(rank: Ranking, history: seq<Op>, from: nat, log: LogFile, us: seq<WB.Update>, sync: bool)
    requires FileSays(rank, history, from, |history|, log)
    requires WB.AllFit(us) && |us| < TWO_32 && |history| + |us| < MAX_SEQUENCE
    ensures FileSays(rank, history + OpsOf(rank, us), from, |history + OpsOf(rank, us)|, Appended(log, Logged(|history| + 1, us), sync))
  {
    hide HistoryOf, OpsOf, WB.AllFit, FitsBehind, Loggable;
    if log.state.Clean? {
      OpsCount(rank, us);
      LogMore(rank, history, from, log.batches, us);
    }
  }

  lemma FileInDoubt(rank: Ranking, history: seq<Op>, from: nat, log: LogFile, us: seq<WB.Update>)
    requires FileSays(rank, history, from, |history|, log)
    requires WB.AllFit(us) && |us| < TWO_32 && |history| + |us| < MAX_SEQUENCE
    ensures FileSays(rank, history + Gap(|us|), from, |history| + |us|, Doubtful(log, Logged(|history| + 1, us)))
  {
    hide HistoryOf, WB.AllFit, FitsBehind, Loggable;
    if log.state.Clean? {
      var b := Logged(|history| + 1, us);
      BatchFits(EndOf(from, log.batches), b);
      LoggableMore(from, log.batches, b);
      LogGap(rank, history, from, log.batches, |us|);
      assert Acknowledged(Doubtful(log, b)) == log.batches;
    }
  }

  lemma NoFile(rank: Ranking, history: seq<Op>, at: nat)
    requires at <= |history|
    ensures FileSays(rank, history, at, at, NO_LOG)
  {
    NothingLogged(rank, history, at);
  }

  /** Writing, or failing to, extends the newer log, the memtable and the history alike. */
  lemma WriteKeepsLogs(rank: Ranking, d: Durable, ops: seq<Op>, recent: LogFile, dead: bool)
    requires Logs(rank, d) && FileSays(rank, d.st.history + ops, d.mid, |d.st.history + ops|, recent)
    ensures Logs(rank, d.(st := Written(d.st, ops), recent := recent, dead := dead))
  {
    hide FileSays, InsertAll;
    var h := d.st.history;
    var all := h + ops;
    FileKept(rank, h, d.base, d.mid, d.former, ops);
    InsertAllAppend([], h[d.mid..], ops, d.mid + 1);
    assert all[d.mid..] == h[d.mid..] + ops && all[d.base..d.mid] == h[d.base..d.mid];
  }

  lemma SwitchKeepsLogs(rank: Ranking, d: Durable)
    requires Logs(rank, d) && d.st.imm.None?
    ensures Logs(rank, Durable(Switched(d.st), d.base, d.st.lastSequence, d.recent, NO_LOG, false))
  {
    hide FileSays;
    var h := d.st.history;
    NoFile(rank, h, |h|);
    assert h[|h|..] == [] && h[d.mid..] == h[d.mid..|h|];
  }

  lemma FlushKeepsLogs(rank: Ranking, d: Durable, w: State)
    requires Logs(rank, d) && d.st.imm.Some? && w == d.st.(imm := None, version := w.version, nextFile := w.nextFile)
    ensures Logs(rank, Durable(w, d.mid, d.mid, NO_LOG, d.recent, d.dead))
  {
    hide FileSays;
    NoFile(rank, d.st.history, d.mid);
  }

  // ---------------------------------------------------------------- the tables

  lemma MoreNumbers(st: State)
    requires Inv(st)
    ensures Inv(st.(nextFile := st.nextFile + 1))
  {
    assert All(st.(nextFile := st.nextFile + 1)) == All(st);
  }

  /** A flush moves the boundary of the tables up to the end of the immutable memtable. */
  lemma FlushKeepsDisk(rank: Ranking, d: Durable, w: State)
    requires DInv(rank, d) && Flushed(d.st, w)
    ensures Inv(DiskOf(Durable(w, d.mid, d.mid, NO_LOG, d.recent, d.dead)))
  {
    hide Inv, InsertAll, FileSays;
    var disk, ops := DiskOf(d), d.st.history[d.base..d.mid];
    InvBelowMax(d.st);
    WriteKeepsInv(disk, ops);
    var written := Written(disk, ops);
    WaitingKeepsInv(written);
    assert d.st.history[..d.base] + ops == d.st.history[..d.mid];
    var waiting := Waiting(written);
    var after := waiting.(imm := None, version := w.version, nextFile := waiting.nextFile + 1);
    assert Flushed(waiting, after);
    FlushKeepsInv(waiting, after);
  }

  lemma InvBelowMax(st: State)
    requires Inv(st)
    ensures st.lastSequence == |st.history| < MAX_SEQUENCE
  {
  }

  lemma MoveKeepsDisk(rank: Ranking, d: Durable, level: nat, f: File, w: State)
    requires DInv(rank, d) && Moved(d.st, level, f, w)
    ensures Inv(DiskOf(d.(st := w)))
  {
    hide Inv, FileSays, Selected, Installs;
    var disk := DiskOf(d);
    MoveKeepsInv(disk, level, f, disk.(version := w.version));
  }

  /** The tables with the snapshot that holds a compaction back, if there is one that the tables reach up to. */
  ghost function DiskFor(d: Durable): State
    requires d.base <= |d.st.history|
  {
    var snapshots := d.st.snapshots;
    DiskOf(d).(snapshots := if snapshots != [] && snapshots[0] <= d.base then [snapshots[0]] else [])
  }

  lemma TablesReadAs(d: Durable, u: UserKey, s: nat)
    requires Inv(d.st) && d.base <= |d.st.history| && Inv(DiskOf(d))
    requires SmallestSnapshot(d.st.snapshots, d.st.lastSequence) <= s <= d.base
    requires forall e <- Elements(d.st.mem) + ImmEntries(d.st) :: e.k.seqno > d.base
    ensures ReadsAs(VersionEntries(d.st.version), u, s, ReadStore(d.st.history[..d.base], s, u))
  {
    var h := d.st.history;
    StorePrefix(h[..d.base], h[d.base..], s);
    assert h[..d.base] + h[d.base..] == h;
    assert ReadsAs(All(d.st), u, s, ReadStore(h, s, u));
    forall r | Newest(VersionEntries(d.st.version), u, s, r) ensures Newest(All(d.st), u, s, r) {
    }
  }

  lemma {:induction false} InsertedAbove(mem: seq<Entry>, ops: seq<Op>, seqno: nat, floor: nat)
    requires seqno > floor && (forall e <- mem :: e.k.seqno > floor)
    ensures forall e <- InsertAll(mem, ops, seqno) :: e.k.seqno > floor
    decreases |ops|
  {
    if ops != [] {
      InsertedAbove(InsertOp(mem, ops[0], seqno), ops[1..], seqno + 1, floor);
    }
  }

  lemma MemoryAbove(rank: Ranking, d: Durable)
    requires Logs(rank, d)
    ensures forall e <- Elements(d.st.mem) + ImmEntries(d.st) :: e.k.seqno > d.base
  {
    hide FileSays;
    InsertedAbove([], d.st.history[d.mid..], d.mid + 1, d.base);
    InsertedAbove([], d.st.history[d.base..d.mid], d.base + 1, d.base);
  }

  lemma DiskForInv(rank: Ranking, d: Durable)
    requires DInv(rank, d)
    ensures Inv(DiskFor(d))
  {
    hide FileSays, Structured, ReadsAs, ReadStore;
    var disk, w := DiskOf(d), DiskFor(d);
    MemoryAbove(rank, d);
    SameStructure(disk, w);
    forall u, s | SmallestSnapshot(w.snapshots, w.lastSequence) <= s <= w.lastSequence
      ensures ReadsAs(All(w), u, s, ReadStore(w.history, s, u))
    {
      assert All(w) == All(disk) == VersionEntries(d.st.version) by {
        OnlyTables(disk);
      }
      if w.snapshots != [] {
        TablesReadAs(d, u, s);
      } else {
        assert s == d.base;
      }
    }
  }

  lemma OnlyTables(disk: State)
    requires disk.mem == [] && disk.imm.None?
    ensures All(disk) == VersionEntries(disk.version)
  {
    assert Elements<Entry>([]) == {};
  }

  lemma SameStructure(st: State, w: State)
    requires Structured(st) && w == st.(snapshots := w.snapshots)
    ensures Structured(w) && All(w) == All(st)
  {
  }

  /** Entries that are all old enough are treated alike under any higher floor. */
  lemma {:induction false} SameKept(v: Levels, level: nat, low: nat, high: nat, input: seq<Entry>, n: nat)
    requires n <= |input| && low <= high && forall e <- input :: e.k.seqno <= low
    ensures Kept(v, level, low, input, n) == Kept(v, level, high, input, n)
  {
    if n > 0 {
      SameKept(v, level, low, high, input, n - 1);
      assert input[n - 1] in Elements(input);
      assert Dropped(v, level, low, Elements(input), input[n - 1]) <==> Dropped(v, level, high, Elements(input), input[n - 1]);
    }
  }

  /** The compaction as a step of the tables alone. */
  lemma CompactsDisk(rank: Ranking, d: Durable, level: nat, in0: seq<File>, in1: seq<File>, merged: seq<Entry>, outputs: seq<File>, w: State)
    requires DInv(rank, d) && Compacted(d.st, level, in0, in1, merged, outputs, w)
    ensures Compacted(DiskFor(d), level, in0, in1, merged, outputs, DiskFor(d.(st := w)))
  {
    hide Inv, Selected, Installs, Kept, FileSays;
    InputsBelow(rank, d, level, in0, in1, merged);
    var floor, diskFloor := SmallestSnapshot(d.st.snapshots, d.st.lastSequence), SmallestSnapshot(DiskFor(d).snapshots, d.base);
    if floor != diskFloor {
      SnapshotsBelow(d.st);
      SameKept(d.st.version, level, diskFloor, floor, merged, |merged|);
    }
  }

  lemma SnapshotsBelow(st: State)
    requires Inv(st)
    ensures SmallestSnapshot(st.snapshots, st.lastSequence) <= st.lastSequence
  {
  }

  lemma InputsBelow(rank: Ranking, d: Durable, level: nat, in0: seq<File>, in1: seq<File>, merged: seq<Entry>)
    requires DInv(rank, d) && level + 1 < NUM_LEVELS && Selected(d.st.version, level, in0, in1)
    requires Elements(merged) == InputEntries(in0, in1)
    ensures forall e <- merged :: e.k.seqno <= d.base
  {
    hide PullsIn, CanStart, LeftOutIsNewer, FileSays;
    SelectedFromNext(d.st.version, level, in0, in1);
    VersionInParts(d.st.version, level, in0, in1);
    OnlyTables(DiskOf(d));
    forall e | e in merged ensures e.k.seqno <= d.base {
      assert e in Elements(merged);
      assert e in All(DiskOf(d)) && Matches(e, DiskOf(d).history);
    }
  }

  /** The guard of a compaction for the tables alone. */
  ghost predicate DiskGuarded(d: Durable, step: Step)
    requires d.base <= |d.st.history|
  {
    step.Change? && step.step.Compact? && step.step.level + 1 < |d.st.version| ==>
      !CompactionResurrects(DiskFor(d), step.step.level, step.step.in0, step.step.in1)
  }

  /** What a compaction brings back in the store it brings back in the tables alone. The other way round a newer write in
      a memtable may hide it. */
  lemma DiskGuardIsStronger(rank: Ranking, d: Durable, level: nat, in0: seq<File>, in1: seq<File>)
    requires DInv(rank, d) && level + 1 < NUM_LEVELS && Selected(d.st.version, level, in0, in1)
    requires CompactionResurrects(d.st, level, in0, in1)
    ensures CompactionResurrects(DiskFor(d), level, in0, in1)
  {
    hide Inv, Selected, FileSays, Resurrects;
    var v := d.st.version;
    SevenLevels(d.st);
    var floor, diskFloor := SmallestSnapshot(d.st.snapshots, d.st.lastSequence), SmallestSnapshot(DiskFor(d).snapshots, d.base);
    var p, q := PartsOf(d.st, level, in0, in1), PartsOf(DiskFor(d), level, in0, in1);
    var u :| Resurrects(v, level, floor, p, u);
    TablesBelow(rank, d, level, in0, in1);
    SnapshotsBelow(d.st);
    assert q.All() <= p.All();
    LowerFloorResurrects(v, level, floor, diskFloor, d.base, p, q, u);
  }

  lemma LowerFloorResurrects(v: Levels, level: nat, high: nat, low: nat, base: nat, p: Parts, q: Parts, u: UserKey)
    requires Resurrects(v, level, high, p, u) && q.inputs == p.inputs && q.stays == p.stays && q.All() <= p.All()
    requires (forall e <- q.All() :: e.k.seqno <= base) && (low == high || base == low <= high)
    ensures Resurrects(v, level, low, q, u)
  {
    hide BaseLevel;
    var t, x :| t in p.inputs && Newest(p.All(), u, high, Some(t)) && Obsolete(v, level, high, t)
                && Newest(p.stays, u, high, Some(x)) && x.k.kind.TypeValue?;
    assert t in q.All() && x in q.All();
    assert Newest(q.All(), u, low, Some(t)) && Newest(q.stays, u, low, Some(x));
    assert Obsolete(v, level, low, t);
  }

  lemma SevenLevels(st: State)
    requires Inv(st)
    ensures |st.version| == NUM_LEVELS
  {
  }

  lemma TablesBelow(rank: Ranking, d: Durable, level: nat, in0: seq<File>, in1: seq<File>)
    requires DInv(rank, d) && level + 1 < NUM_LEVELS && Selected(d.st.version, level, in0, in1)
    ensures forall e <- PartsOf(DiskFor(d), level, in0, in1).All() :: e.k.seqno <= d.base
    ensures PartsOf(DiskFor(d), level, in0, in1).inputs == PartsOf(d.st, level, in0, in1).inputs
    ensures PartsOf(DiskFor(d), level, in0, in1).stays == PartsOf(d.st, level, in0, in1).stays
  {
    hide PullsIn, CanStart, LeftOutIsNewer, FileSays;
    SelectedFromNext(d.st.version, level, in0, in1);
    PartsCoverAll(DiskFor(d), level, in0, in1);
    OnlyTables(DiskOf(d));
    OnlyTables(DiskFor(d));
    forall e | e in PartsOf(DiskFor(d), level, in0, in1).All() ensures e.k.seqno <= d.base {
      assert e in All(DiskOf(d)) && Matches(e, DiskOf(d).history);
    }
  }

  /** A compaction keeps store, logs and tables right exactly when it brings nothing back in the tables alone. */
  lemma CompactionExactOnDisk(rank: Ranking, d: Durable, level: nat, in0: seq<File>, in1: seq<File>, merged: seq<Entry>,
                              outputs: seq<File>, w: State)
    requires DInv(rank, d) && Compacted(d.st, level, in0, in1, merged, outputs, w)
    ensures DInv(rank, d.(st := w)) <==> !CompactionResurrects(DiskFor(d), level, in0, in1)
  {
    hide Inv, Compacted, CompactionResurrects, FileSays;
    var e := d.(st := w);
    CompactionFields(d.st, level, in0, in1, merged, outputs, w);
    DiskForInv(rank, d);
    CompactsDisk(rank, d, level, in0, in1, merged, outputs, w);
    CompactionExact(d.st, level, in0, in1, merged, outputs, w);
    CompactionExact(DiskFor(d), level, in0, in1, merged, outputs, DiskFor(e));
    if CompactionResurrects(d.st, level, in0, in1) {
      DiskGuardIsStronger(rank, d, level, in0, in1);
    }
    if Inv(DiskFor(e)) {
      WithoutSnapshots(DiskFor(e));
    }
    if DInv(rank, e) {
      DiskForInv(rank, e);
    }
  }

  lemma CompactionFields(st: State, level: nat, in0: seq<File>, in1: seq<File>, merged: seq<Entry>, outputs: seq<File>, w: State)
    requires Compacted(st, level, in0, in1, merged, outputs, w)
    ensures level + 1 < NUM_LEVELS == |st.version| && Selected(st.version, level, in0, in1)
    ensures w == st.(version := w.version, nextFile := w.nextFile)
  {
  }

  lemma WithoutSnapshots(st: State)
    requires Inv(st)
    ensures Inv(st.(snapshots := []))
  {
    var w := st.(snapshots := []);
    SameStructure(st, w);
    SameEntriesFaithful(st, w);
  }

  // ---------------------------------------------------------------- steps and runs

  /** Each step keeps store, logs and tables right exactly under its guard for the tables alone. */
  lemma DStepExact(rank: Ranking, d: Durable, step: Step, e: Durable)
    requires DInv(rank, d) && Takes(rank, d, step, e)
    ensures DInv(rank, e) <==> DiskGuarded(d, step)
  {
    hide Inv, FileSays, InsertAll, Compacted, Moved, Flushed, CompactionResurrects;
    match step
    case LogWrite(us, sync) =>
      OpsCount(rank, us);
      FileAppended(rank, d.st.history, d.mid, d.recent, us, sync);
      WriteStep(rank, d, OpsOf(rank, us), e.recent, false);
    case AppendFails(us) => FailStep(rank, d, us, false);
    case SyncFails(us) => FailStep(rank, d, us, true);
    case Change(s) =>
      match s
      case Compact(level, in0, in1, merged, outputs) =>
        CompactionExactOnDisk(rank, d, level, in0, in1, merged, outputs, e.st);
        CompactionFields(d.st, level, in0, in1, merged, outputs, e.st);
      case Flush => FlushStep(rank, d, e);
      case Move(level, f) =>
        MoveKeepsInv(d.st, level, f, e.st);
        MoveKeepsDisk(rank, d, level, f, e.st);
        MoveFields(d.st, level, f, e.st);
      case Switch => SwitchStep(rank, d);
      case TakeSnapshot => SnapshotKeepsInv(d.st);
      case ReleaseSnapshot(i) => ReleaseKeepsInv(d.st, i);
      case _ =>
  }

  lemma WriteStep(rank: Ranking, d: Durable, ops: seq<Op>, recent: LogFile, dead: bool)
    requires DInv(rank, d) && d.st.lastSequence + |ops| < MAX_SEQUENCE
    requires FileSays(rank, d.st.history + ops, d.mid, |d.st.history + ops|, recent)
    ensures DInv(rank, d.(st := Written(d.st, ops), recent := recent, dead := dead))
  {
    hide Inv, FileSays, InsertAll;
    WriteKeepsInv(d.st, ops);
    WriteKeepsLogs(rank, d, ops, recent, dead);
    var e := d.(st := Written(d.st, ops), recent := recent, dead := dead);
    assert DiskOf(e) == DiskOf(d) by {
      assert (d.st.history + ops)[..d.base] == d.st.history[..d.base];
    }
  }

  lemma FailStep(rank: Ranking, d: Durable, us: seq<WB.Update>, dead: bool)
    requires DInv(rank, d) && CanWrite(d, us)
    ensures DInv(rank, d.(st := Failed(d.st, |us|), recent := Doubtful(d.recent, Logged(d.st.lastSequence + 1, us)), dead := dead))
  {
    hide Inv, FileSays, InsertAll, Doubtful, WB.AllFit;
    FileInDoubt(rank, d.st.history, d.mid, d.recent, us);
    WriteStep(rank, d, Gap(|us|), Doubtful(d.recent, Logged(d.st.lastSequence + 1, us)), dead);
  }

  lemma FlushStep(rank: Ranking, d: Durable, e: Durable)
    requires DInv(rank, d) && Flushed(d.st, e.st) && e == Durable(e.st, d.mid, d.mid, NO_LOG, d.recent, d.dead)
    ensures DInv(rank, e)
  {
    hide Inv, FileSays, InsertAll;
    FlushKeepsInv(d.st, e.st);
    FlushKeepsDisk(rank, d, e.st);
    FlushKeepsLogs(rank, d, e.st);
  }

  lemma SwitchStep(rank: Ranking, d: Durable)
    requires DInv(rank, d) && d.st.imm.None?
    ensures DInv(rank, Durable(Switched(d.st), d.base, d.st.lastSequence, d.recent, NO_LOG, false))
  {
    hide Inv, FileSays, InsertAll;
    SwitchKeepsInv(d.st);
    SwitchKeepsLogs(rank, d);
    MoreNumbers(DiskOf(d));
  }

  lemma MoveFields(st: State, level: nat, f: File, w: State)
    requires Moved(st, level, f, w)
    ensures w == st.(version := w.version)
  {
  }

  /** A store just created. */
  function Empty(nextFile: nat): Durable {
    Durable(Runs.EMPTY_STORE.(nextFile := nextFile), 0, 0, NO_LOG, NO_LOG, false)
  }

  /** A run from a store just created, or from one that was opened again. */
  ghost predicate IsRun(rank: Ranking, trace: seq<Durable>, steps: seq<Step>) {
    && |trace| == |steps| + 1
    && (trace[0] == Empty(trace[0].st.nextFile) || DInv(rank, trace[0]))
    && forall i :: 0 <= i < |steps| ==> Takes(rank, trace[i], steps[i], trace[i + 1])
  }

  lemma EmptyDInv(rank: Ranking, nextFile: nat)
    ensures DInv(rank, Empty(nextFile))
  {
    hide Inv, FileSays;
    Runs.EmptyStoreInv();
    Runs.EmptyVersionValid();
    NoFile(rank, [], 0);
    OtherNumbers(Runs.EMPTY_STORE, nextFile);
    assert DiskOf(Empty(nextFile)) == Runs.EMPTY_STORE.(nextFile := nextFile);
  }

  lemma OtherNumbers(st: State, n: nat)
    requires Inv(st) && NumbersUnique(st.version, n)
    ensures Inv(st.(nextFile := n))
  {
    assert All(st.(nextFile := n)) == All(st);
  }

  ghost predicate GuardedUpTo(trace: seq<Durable>, steps: seq<Step>, n: nat)
    requires n <= |steps| && n <= |trace|
  {
    forall i :: 0 <= i < n ==> trace[i].base <= |trace[i].st.history| && DiskGuarded(trace[i], steps[i])
  }

  /** At every point of a run that is guarded for the tables alone, failed writes or not, the tables and the logs that are
      not torn hold the whole history. */
  lemma {:induction false} RunIsDurable(rank: Ranking, trace: seq<Durable>, steps: seq<Step>, n: nat)
    requires IsRun(rank, trace, steps) && n <= |steps| && GuardedUpTo(trace, steps, n)
    ensures DInv(rank, trace[n])
  {
    hide Takes, DInv, DiskGuarded;
    if n == 0 {
      EmptyDInv(rank, trace[0].st.nextFile);
    } else {
      RunIsDurable(rank, trace, steps, n - 1);
      DStepExact(rank, trace[n - 1], steps[n - 1], trace[n]);
    }
  }

  predicate Fails(step: Step) { step.AppendFails? || step.SyncFails? }

  /** The older log is closed and a new one begun, or the older one becomes obsolete. */
  predicate ChangesLogs(step: Step) { step.Change? && (step.step.Switch? || step.step.Flush?) }

  /** A log in which no write has failed since it was begun is clean, and stays so when it becomes the older one. */
  lemma {:induction false} CleanSince(rank: Ranking, trace: seq<Durable>, steps: seq<Step>, m: nat, n: nat)
    requires IsRun(rank, trace, steps) && m <= n <= |steps|
    requires trace[m].recent.state.Clean? && forall i :: m <= i < n ==> !Fails(steps[i])
    ensures trace[n].recent.state.Clean?
    ensures trace[m].former.state.Clean? || (exists i :: m <= i < n && ChangesLogs(steps[i])) ==> trace[n].former.state.Clean?
    decreases n
  {
    if m < n {
      CleanSince(rank, trace, steps, m, n - 1);
      assert Takes(rank, trace[n - 1], steps[n - 1], trace[n]);
    }
  }
}
