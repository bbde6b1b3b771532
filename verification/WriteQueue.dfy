/** Group commit (db/db_impl.cc, DBImpl::Write and BuildBatchGroup) as a protocol: writers queue up, the one at the
    front writes a group of batches on behalf of several, while others go on arriving and reading. */
module WriteQueue {
  import opened InternalKeys
  import opened CompactionReads
  import opened Database

  /** `batch` is None for the request to switch memtables; `size` is the batch's number of bytes. */
  datatype Writer = Writer(sync: bool, batch: Option<seq<Update>>, size: nat)

  function OpsIn(w: Writer): seq<Update> {
    if w.batch.Some? then w.batch.value else []
  }

  function AllOps(ws: seq<Writer>): seq<Update> {
    if ws == [] then [] else AllOps(ws[..|ws| - 1]) + OpsIn(ws[|ws| - 1])
  }

  // ---------------------------------------------------------------- choosing the group

  function MaxSize(first: nat): nat {
    if first <= 0x2_0000 then first + 0x2_0000 else 0x10_0000
  }

  /** The bytes of the batches of the first `n` writers. */
  function Bytes(queue: seq<Writer>, n: nat): nat
    requires n <= |queue|
  {
    if n == 0 then 0 else Bytes(queue, n - 1) + if queue[n - 1].batch.Some? then queue[n - 1].size else 0
  }

  /** Writer `i` may join the group of the first one: no sync writer behind a leader that does not sync, and no
      batch that makes the group too large. */
  predicate Joins(queue: seq<Writer>, i: nat)
    requires 0 < i < |queue|
  {
    && (queue[i].sync ==> queue[0].sync)
    && (queue[i].batch.Some? ==> Bytes(queue, i + 1) <= MaxSize(queue[0].size))
  }

  /** The first `n` writers are a group: all of them may join, and the next one may not. */
  predicate IsGroup(queue: seq<Writer>, n: nat) {
    && 1 <= n <= |queue|
    && (forall i :: 0 < i < n ==> Joins(queue, i))
    && (n < |queue| ==> !Joins(queue, n))
  }

  method BuildBatchGroup(queue: seq<Writer>) returns (n: nat, ops: seq<Update>)
    requires queue != [] && queue[0].batch.Some?
    ensures IsGroup(queue, n) && ops == AllOps(queue[..n])
  {
    var first := queue[0];
    var size := first.size;
    var maxSize := if size <= 0x2_0000 then size + 0x2_0000 else 0x10_0000;
    ops := first.batch.value;
    n := 1;
    assert queue[..1] == [first] && [first][..0] == [];
    assert AllOps([first]) == [] + OpsIn(first);
    assert Bytes(queue, 1) == Bytes(queue, 0) + size;
    while n < |queue|
      invariant 1 <= n <= |queue|
      invariant forall i :: 0 < i < n ==> Joins(queue, i)
      invariant size == Bytes(queue, n) && ops == AllOps(queue[..n])
    {
      var w := queue[n];
      if w.sync && !first.sync {
        break;
      }
      if w.batch.Some? {
        size := size + w.size;
        if size > maxSize {
          break;
        }
        ops := ops + w.batch.value;
      }
      assert queue[..n + 1][..n] == queue[..n];
      n := n + 1;
    }
  }

  lemma GroupIsUnique(queue: seq<Writer>, m: nat, n: nat)
    requires IsGroup(queue, m) && IsGroup(queue, n)
    ensures m == n
  {
  }

  /** A group that takes in other batches stays below a megabyte, and one that a small batch leads grows by no more than
      128 KB; no writer that asks for a sync joins a leader that does not. */
  lemma {:induction false} GroupIsBounded(queue: seq<Writer>, n: nat)
    requires 1 <= n <= |queue| && (forall i :: 0 < i < n ==> Joins(queue, i)) && queue[0].batch.Some?
    ensures Bytes(queue, n) == queue[0].size || Bytes(queue, n) <= 0x10_0000
    ensures queue[0].size <= 0x2_0000 ==> Bytes(queue, n) <= queue[0].size + 0x2_0000
    ensures forall i :: 0 <= i < n && queue[i].sync ==> queue[0].sync
    decreases n
  {
    if n > 1 {
      GroupIsBounded(queue, n - 1);
      assert Joins(queue, n - 1);
    } else {
      assert Bytes(queue, 0) == 0;
    }
  }

  // ---------------------------------------------------------------- the protocol

  /** The group that the leader is writing with the mutex released: its first `n` writers, whether the log record is
      written (and synced if the leader asks for it), and how many entries are in the memtable by now. */
  datatype Flight = Flight(n: nat, ops: seq<Update>, logged: bool, inserted: nat)

  /** A group that has left the queue: its writers, the status they all got, and its first sequence number. */
  datatype Group = Group(writers: seq<Writer>, ok: bool, first: nat, ops: seq<Update>)

  /** `arrived` lists all writers that ever came; `entries` is all data a reader can find. */
  datatype QueueState = QueueState(arrived: seq<Writer>, queue: seq<Writer>, flight: Option<Flight>,
                         lastSequence: nat, entries: set<Entry>, groups: seq<Group>)

  const IDLE: QueueState := QueueState([], [], None, 0, {}, [])

  datatype Step =
    | Arrive(w: Writer)
    | NoRoom
    | Forced
    | Lead
    | Log
    | LogFails
    | InsertOne
    | Finish

  /** The first `n` writers leave the queue with a common status. */
  function Leave(st: QueueState, n: nat, ok: bool, ops: seq<Update>): QueueState
    requires n <= |st.queue|
  {
    st.(queue := st.queue[n..], flight := None, lastSequence := st.lastSequence + |ops|,
        groups := st.groups + [Group(st.queue[..n], ok, st.lastSequence + 1, ops)])
  }

  ghost predicate Takes(st: QueueState, step: Step, w: QueueState) {
    match step
    // A writer takes its place at the end.
    case Arrive(writer) => w == st.(arrived := st.arrived + [writer], queue := st.queue + [writer])
    // MakeRoomForWrite fails: only the leader leaves.
    case NoRoom => st.flight.None? && st.queue != [] && w == Leave(st, 1, false, [])
    // The leader only asked for a memtable switch.
    case Forced => st.flight.None? && st.queue != [] && st.queue[0].batch.None? && w == Leave(st, 1, true, [])
    case Lead =>
      && st.flight.None? && st.queue != [] && st.queue[0].batch.Some?
      && exists n: nat :: IsGroup(st.queue, n) && w == st.(flight := Some(Flight(n, AllOps(st.queue[..n]), false, 0)))
    case Log => st.flight.Some? && !st.flight.value.logged && w == st.(flight := Some(st.flight.value.(logged := true)))
    // Writing or syncing the log fails: the sequence numbers are used up all the same.
    case LogFails =>
      && st.flight.Some? && !st.flight.value.logged && st.flight.value.n <= |st.queue|
      && w == Leave(st, st.flight.value.n, false, st.flight.value.ops)
    case InsertOne =>
      && st.flight.Some? && st.flight.value.logged && st.flight.value.inserted < |st.flight.value.ops|
      && var k := st.flight.value.inserted;
         w == st.(entries := st.entries + {EntryOf(st.flight.value.ops[k], st.lastSequence + 1 + k)},
                  flight := Some(st.flight.value.(inserted := k + 1)))
    case Finish =>
      && st.flight.Some? && st.flight.value.logged && st.flight.value.inserted == |st.flight.value.ops|
      && st.flight.value.n <= |st.queue|
      && w == Leave(st, st.flight.value.n, true, st.flight.value.ops)
  }

  // ---------------------------------------------------------------- the invariant

  function WritersOf(groups: seq<Group>): seq<Writer> {
    if groups == [] then [] else WritersOf(groups[..|groups| - 1]) + groups[|groups| - 1].writers
  }

  /** Every operation of the groups, in order, whether its group succeeded or not. */
  function Numbered(groups: seq<Group>): seq<Update> {
    if groups == [] then [] else Numbered(groups[..|groups| - 1]) + groups[|groups| - 1].ops
  }

  ghost function EntriesFrom(first: nat, ops: seq<Update>, n: nat): set<Entry>
    requires n <= |ops|
  {
    set i | 0 <= i < n :: EntryOf(ops[i], first + i)
  }

  /** The entries of the groups that succeeded. */
  ghost function Committed(groups: seq<Group>): set<Entry> {
    set g, e | g in groups && g.ok && e in EntriesFrom(g.first, g.ops, |g.ops|) :: e
  }

  ghost predicate GroupDone(g: Group, before: nat) {
    && g.first == before + 1
    && g.writers != []
    && (g.ops == AllOps(g.writers) || (g.ops == [] && |g.writers| == 1))
    && (g.ok ==> g.ops == AllOps(g.writers))
    && forall w <- g.writers :: w.sync ==> g.writers[0].sync
  }

  ghost predicate FlightGoes(st: QueueState) {
    st.flight.Some? ==>
      var f := st.flight.value;
      && 1 <= f.n <= |st.queue|
      && (forall i :: 0 < i < f.n ==> Joins(st.queue, i))
      && f.ops == AllOps(st.queue[..f.n])
      && f.inserted <= |f.ops| && (f.inserted > 0 ==> f.logged)
  }

  ghost function InFlight(st: QueueState): set<Entry> {
    if st.flight.Some? && st.flight.value.inserted <= |st.flight.value.ops|
    then EntriesFrom(st.lastSequence + 1, st.flight.value.ops, st.flight.value.inserted) else {}
  }

  /** The groups that have left are in order of arrival, and numbered one after the other. */
  ghost predicate Ordered(st: QueueState) {
    && st.arrived == WritersOf(st.groups) + st.queue
    && st.lastSequence == |Numbered(st.groups)|
    && AllDone(st.groups)
  }

  ghost predicate AllDone(groups: seq<Group>) {
    forall i :: 0 <= i < |groups| ==> GroupDone(groups[i], |Numbered(groups[..i])|)
  }

  ghost predicate Inv(st: QueueState) {
    && Ordered(st)
    && FlightGoes(st)
    && st.entries == Committed(st.groups) + InFlight(st)
  }

  lemma IdleInv()
    ensures Inv(IDLE)
  {
  }

  lemma AllOpsPrefix(queue: seq<Writer>, w: Writer, n: nat)
    requires n <= |queue|
    ensures (queue + [w])[..n] == queue[..n]
    ensures forall m: nat :: m <= n ==> Bytes(queue + [w], m) == Bytes(queue, m)
  {
    forall m: nat | m <= n ensures Bytes(queue + [w], m) == Bytes(queue, m) {
      BytesPrefix(queue, w, m);
    }
  }

  lemma {:induction false} BytesPrefix(queue: seq<Writer>, w: Writer, m: nat)
    requires m <= |queue|
    ensures Bytes(queue + [w], m) == Bytes(queue, m)
  {
    if m > 0 {
      BytesPrefix(queue, w, m - 1);
    }
  }

  lemma ArriveKeepsInv(st: QueueState, writer: Writer)
    requires Inv(st)
    ensures Inv(st.(arrived := st.arrived + [writer], queue := st.queue + [writer]))
  {
    if st.flight.Some? {
      var n := st.flight.value.n;
      AllOpsPrefix(st.queue, writer, n);
      forall i | 0 < i < n ensures Joins(st.queue + [writer], i) {
        assert Joins(st.queue, i);
      }
    }
  }

  lemma AllDoneMore(groups: seq<Group>, g: Group)
    requires AllDone(groups) && GroupDone(g, |Numbered(groups)|)
    ensures AllDone(groups + [g])
    ensures Numbered(groups + [g]) == Numbered(groups) + g.ops
    ensures WritersOf(groups + [g]) == WritersOf(groups) + g.writers
  {
    hide GroupDone;
    var all := groups + [g];
    assert all[..|groups|] == groups;
    forall i | 0 <= i < |all| ensures GroupDone(all[i], |Numbered(all[..i])|) {
      if i < |groups| {
        assert all[..i] == groups[..i];
      }
    }
  }

  lemma LeaveKeepsOrder(st: QueueState, n: nat, ok: bool, ops: seq<Update>)
    requires Ordered(st) && 1 <= n <= |st.queue|
    requires GroupDone(Group(st.queue[..n], ok, st.lastSequence + 1, ops), st.lastSequence)
    ensures Ordered(Leave(st, n, ok, ops))
  {
    hide GroupDone, AllDone;
    AllDoneMore(st.groups, Group(st.queue[..n], ok, st.lastSequence + 1, ops));
    assert st.queue == st.queue[..n] + st.queue[n..];
  }

  lemma CommittedMore(groups: seq<Group>, g: Group)
    ensures Committed(groups + [g]) == Committed(groups) + if g.ok then EntriesFrom(g.first, g.ops, |g.ops|) else {}
  {
    var all := groups + [g];
    forall x ensures x in all <==> x in groups || x == g {
    }
    forall e ensures e in Committed(all) <==> e in Committed(groups) || (g.ok && e in EntriesFrom(g.first, g.ops, |g.ops|)) {
      if g.ok && e in EntriesFrom(g.first, g.ops, |g.ops|) {
        assert g in all;
      }
    }
  }

  /** Every step of the protocol keeps its invariant. */
  lemma StepKeepsInv(st: QueueState, step: Step, w: QueueState)
    requires Inv(st) && Takes(st, step, w)
    ensures Inv(w)
  {
    match step
    case Arrive(writer) => ArriveKeepsInv(st, writer);
    case NoRoom => LeadersLeave(st, false);
    case Forced => LeadersLeave(st, true);
    case Lead | Log => LeadingKeepsInv(st, step, w);
    case LogFails | Finish => FlightDone(st, step.Finish?);
    case InsertOne => InsertKeepsInv(st, w);
  }

  lemma LeadingKeepsInv(st: QueueState, step: Step, w: QueueState)
    requires Inv(st) && Takes(st, step, w) && (step.Lead? || step.Log?)
    ensures Inv(w)
  {
    hide AllDone, Joins;
    assert InFlight(st) == {} ==> InFlight(w) == {};
  }

  lemma InsertKeepsInv(st: QueueState, w: QueueState)
    requires Inv(st) && Takes(st, InsertOne, w)
    ensures Inv(w)
  {
    hide AllDone, Joins, EntriesFrom;
    var f := st.flight.value;
    InsertedOne(st.lastSequence + 1, f.ops, f.inserted);
  }

  lemma InsertedOne(first: nat, ops: seq<Update>, k: nat)
    requires k < |ops|
    ensures EntriesFrom(first, ops, k + 1) == EntriesFrom(first, ops, k) + {EntryOf(ops[k], first + k)}
  {
  }

  lemma LeadersLeave(st: QueueState, ok: bool)
    requires Inv(st) && st.flight.None? && st.queue != [] && (ok ==> st.queue[0].batch.None?)
    ensures Inv(Leave(st, 1, ok, []))
  {
    hide AllDone;
    var g := Group(st.queue[..1], ok, st.lastSequence + 1, []);
    assert g.writers == [st.queue[0]] && [st.queue[0]][..0] == [];
    assert AllOps(g.writers) == [] + OpsIn(st.queue[0]);
    LeaveKeepsOrder(st, 1, ok, []);
    CommittedMore(st.groups, g);
    assert EntriesFrom(g.first, [], 0) == {};
  }

  lemma FlightDone(st: QueueState, ok: bool)
    requires Inv(st) && st.flight.Some?
    requires if ok then st.flight.value.inserted == |st.flight.value.ops| else st.flight.value.inserted == 0
    ensures Inv(Leave(st, st.flight.value.n, ok, st.flight.value.ops))
  {
    hide AllDone, AllOps;
    var f := st.flight.value;
    var writers := st.queue[..f.n];
    forall w | w in writers && w.sync ensures writers[0].sync {
      var i :| 0 <= i < f.n && writers[i] == w;
      assert i > 0 ==> Joins(st.queue, i);
    }
    var g := Group(writers, ok, st.lastSequence + 1, f.ops);
    LeaveKeepsOrder(st, f.n, ok, f.ops);
    CommittedMore(st.groups, g);
    assert EntriesFrom(g.first, f.ops, 0) == {};
  }

  // ---------------------------------------------------------------- whole runs

  ghost predicate IsRun(trace: seq<QueueState>, steps: seq<Step>) {
    && |trace| == |steps| + 1
    && trace[0] == IDLE
    && forall i :: 0 <= i < |steps| ==> Takes(trace[i], steps[i], trace[i + 1])
  }

  lemma {:induction false} RunKeepsInv(trace: seq<QueueState>, steps: seq<Step>, n: nat)
    requires IsRun(trace, steps) && n <= |steps|
    ensures Inv(trace[n])
  {
    if n == 0 {
      IdleInv();
    } else {
      RunKeepsInv(trace, steps, n - 1);
      StepKeepsInv(trace[n - 1], steps[n - 1], trace[n]);
    }
  }

  lemma LeaversStay(st: QueueState, step: Step, w: QueueState)
    requires Takes(st, step, w)
    ensures WritersOf(st.groups) <= WritersOf(w.groups)
  {
    var g, h := st.groups, w.groups;
    assert h == g || (|h| == |g| + 1 && h[..|g|] == g);
  }

  /** Writers leave in the order in which they came, each once: those that have left and those that wait make up the
      arrivals, at every point of a run, and who has left stays so. */
  lemma {:induction false} FirstInFirstOut(trace: seq<QueueState>, steps: seq<Step>, m: nat, n: nat)
    requires IsRun(trace, steps) && m <= n <= |steps|
    ensures WritersOf(trace[n].groups) + trace[n].queue == trace[n].arrived
    ensures WritersOf(trace[m].groups) <= WritersOf(trace[n].groups)
  {
    hide Takes, WritersOf, FlightGoes, InFlight, Committed, AllDone, Numbered;
    RunKeepsInv(trace, steps, n);
    if m < n {
      FirstInFirstOut(trace, steps, m, n - 1);
      LeaversStay(trace[n - 1], steps[n - 1], trace[n]);
    }
  }

  /** No group is told that all went well before its record is in the log: its leader's log step comes after it took the lead. */
  lemma {:induction false} AcknowledgedIsLogged(trace: seq<QueueState>, steps: seq<Step>, n: nat) returns (k: nat)
    requires IsRun(trace, steps) && n <= |steps| && trace[n].flight.Some?
    requires trace[n].flight.value.logged || (n < |steps| && steps[n].Finish?)
    ensures k < n && steps[k].Log? && forall i :: k < i < n ==> steps[i].Arrive? || steps[i].InsertOne?
    decreases n
  {
    assert n < |steps| ==> Takes(trace[n], steps[n], trace[n + 1]);
    assert n > 0;
    var step := steps[n - 1];
    assert Takes(trace[n - 1], step, trace[n]);
    if step.Log? {
      k := n - 1;
    } else {
      k := AcknowledgedIsLogged(trace, steps, n - 1);
    }
  }

  // ---------------------------------------------------------------- what becomes of a writer

  lemma {:induction false} ArrivalsStay(trace: seq<QueueState>, steps: seq<Step>, m: nat, n: nat)
    requires IsRun(trace, steps) && m <= n <= |steps|
    ensures trace[m].arrived <= trace[n].arrived
  {
    if m < n {
      ArrivalsStay(trace, steps, m, n - 1);
      assert Takes(trace[n - 1], steps[n - 1], trace[n]);
    }
  }

  /** Where a writer that has left is among the groups. */
  lemma {:induction false} FindLeaver(groups: seq<Group>, p: nat) returns (i: nat, k: nat)
    requires p < |WritersOf(groups)|
    ensures i < |groups| && k < |groups[i].writers| && |WritersOf(groups[..i])| + k == p
    ensures groups[i].writers[k] == WritersOf(groups)[p]
  {
    var n := |groups| - 1;
    var before := WritersOf(groups[..n]);
    if p < |before| {
      i, k := FindLeaver(groups[..n], p);
      assert groups[..n][..i] == groups[..i];
    } else {
      i, k := n, p - |before|;
    }
  }

  /** A writer that arrives keeps its turn: it waits in the queue at its place, or it has left with a group of its turn. */
  lemma WriterIsServed(trace: seq<QueueState>, steps: seq<Step>, m: nat, n: nat, w: Writer) returns (i: nat, k: nat)
    requires IsRun(trace, steps) && m < n <= |steps| && steps[m] == Arrive(w)
    ensures var p, st := |trace[m].arrived|, trace[n];
            if p < |WritersOf(st.groups)| then
              i < |st.groups| && k < |st.groups[i].writers| && st.groups[i].writers[k] == w && |WritersOf(st.groups[..i])| + k == p
            else p - |WritersOf(st.groups)| < |st.queue| && st.queue[p - |WritersOf(st.groups)|] == w
  {
    hide WritersOf;
    var p, st := |trace[m].arrived|, trace[n];
    assert Takes(trace[m], steps[m], trace[m + 1]);
    assert trace[m + 1].arrived[p] == w;
    ArrivalsStay(trace, steps, m + 1, n);
    FirstInFirstOut(trace, steps, n, n);
    i, k := 0, 0;
    if p < |WritersOf(st.groups)| {
      i, k := FindLeaver(st.groups, p);
    }
  }

  lemma {:induction false} OpsOfWriter(ws: seq<Writer>, k: nat, j: nat)
    requires k < |ws| && j < |OpsIn(ws[k])|
    ensures |AllOps(ws[..k])| + j < |AllOps(ws)| && AllOps(ws)[|AllOps(ws[..k])| + j] == OpsIn(ws[k])[j]
    decreases |ws|
  {
    var n := |ws| - 1;
    if k == n {
      assert ws[..n] == ws[..k];
    } else {
      assert ws[..n][..k] == ws[..k] && ws[..n][k] == ws[k];
      OpsOfWriter(ws[..n], k, j);
    }
  }

  /** A writer that was told that all went well has its operations stored, under consecutive numbers that readers see. */
  lemma OkIsStored(st: QueueState, i: nat, k: nat, j: nat)
    requires Inv(st) && i < |st.groups| && st.groups[i].ok && k < |st.groups[i].writers| && j < |OpsIn(st.groups[i].writers[k])|
    ensures var g := st.groups[i];
            var number := g.first + |AllOps(g.writers[..k])| + j;
            EntryOf(OpsIn(g.writers[k])[j], number) in st.entries && number <= st.lastSequence
  {
    hide FlightGoes, InFlight, AllOps, WritersOf, Numbered;
    var g := st.groups[i];
    assert GroupDone(st.groups[i], |Numbered(st.groups[..i])|);
    OpsOfWriter(g.writers, k, j);
    var at := |AllOps(g.writers[..k])| + j;
    assert EntryOf(g.ops[at], g.first + at) in EntriesFrom(g.first, g.ops, |g.ops|);
    assert g in st.groups;
    GroupInRange(st, i);
  }

  /** A writer that was told of a failure has nothing stored. */
  lemma FailedIsNotStored(st: QueueState, i: nat, e: Entry)
    requires Inv(st) && i < |st.groups| && !st.groups[i].ok && e in st.entries
    ensures e.k.seqno < st.groups[i].first || e.k.seqno >= st.groups[i].first + |st.groups[i].ops|
  {
    hide FlightGoes, AllOps, WritersOf, Numbered, AllDone;
    GroupInRange(st, i);
    if e in Committed(st.groups) {
      var g :| g in st.groups && g.ok && e in EntriesFrom(g.first, g.ops, |g.ops|);
      var h :| 0 <= h < |st.groups| && st.groups[h] == g;
      if h < i {
        GapFree(st, h, i);
      } else {
        GapFree(st, i, h);
      }
    }
  }

  /** A batch is applied as a whole: its operations get consecutive sequence numbers, directly behind the group before. */
  lemma SequenceBlocks(st: QueueState, i: nat)
    requires Inv(st) && i + 1 < |st.groups|
    ensures st.groups[i + 1].first == st.groups[i].first + |st.groups[i].ops|
  {
    var groups := st.groups;
    assert GroupDone(groups[i], |Numbered(groups[..i])|) && GroupDone(groups[i + 1], |Numbered(groups[..i + 1])|);
    assert groups[..i + 1][..i] == groups[..i];
  }

  /** The blocks of two successful groups are gap-free exactly when no group between them had operations: one whose log
      write failed uses its sequence numbers up. */
  lemma {:induction false} GapFree(st: QueueState, i: nat, j: nat)
    requires Inv(st) && i < j < |st.groups|
    ensures st.groups[j].first >= st.groups[i].first + |st.groups[i].ops|
    ensures st.groups[j].first == st.groups[i].first + |st.groups[i].ops| <==> NoOpsBetween(st.groups, i, j)
    decreases j - i
  {
    hide Inv;
    SequenceBlocks(st, j - 1);
    if i + 1 < j {
      GapFree(st, i, j - 1);
      if NoOpsBetween(st.groups, i, j) {
        assert st.groups[j - 1].ops == [];
      }
      assert NoOpsBetween(st.groups, i, j) <==> NoOpsBetween(st.groups, i, j - 1) && st.groups[j - 1].ops == [];
    }
  }

  predicate NoOpsBetween(groups: seq<Group>, i: nat, j: nat)
    requires j <= |groups|
  {
    forall k :: i < k < j ==> groups[k].ops == []
  }

  /** A sync writer is never served by a leader that does not sync. */
  lemma SyncIsSynced(st: QueueState, g: Group, w: Writer)
    requires Inv(st) && g in st.groups && w in g.writers && w.sync
    ensures g.writers[0].sync
  {
    var i :| 0 <= i < |st.groups| && st.groups[i] == g;
    assert GroupDone(st.groups[i], |Numbered(st.groups[..i])|);
  }

  lemma {:induction false} NumbersGrow(groups: seq<Group>, i: nat)
    requires i <= |groups|
    ensures |Numbered(groups[..i])| <= |Numbered(groups)|
    decreases |groups| - i
  {
    if i == |groups| {
      assert groups[..i] == groups;
    } else {
      assert groups[..i + 1][..i] == groups[..i];
      NumbersGrow(groups, i + 1);
    }
  }

  lemma NumberedUpTo(groups: seq<Group>, i: nat)
    requires i < |groups|
    ensures Numbered(groups[..i + 1]) == Numbered(groups[..i]) + groups[i].ops
  {
    assert groups[..i + 1][..i] == groups[..i];
  }

  lemma GroupInRange(st: QueueState, i: nat)
    requires Inv(st) && i < |st.groups|
    ensures st.groups[i].first + |st.groups[i].ops| <= st.lastSequence + 1
  {
    hide FlightGoes, Committed, InFlight, AllOps, Numbered, WritersOf;
    assert GroupDone(st.groups[i], |Numbered(st.groups[..i])|);
    NumberedUpTo(st.groups, i);
    NumbersGrow(st.groups, i + 1);
  }

  lemma CommittedInRange(st: QueueState, e: Entry)
    requires Inv(st) && e in Committed(st.groups)
    ensures e.k.seqno <= st.lastSequence
  {
    hide Inv;
    var g :| g in st.groups && g.ok && e in EntriesFrom(g.first, g.ops, |g.ops|);
    var i: nat :| i < |st.groups| && st.groups[i] == g;
    var j :| 0 <= j < |g.ops| && e == EntryOf(g.ops[j], g.first + j);
    GroupInRange(st, i);
    assert e.k.seqno < g.first + |g.ops|;
  }

  /** What a reader sees at the last sequence number is whole groups, also while a group is being inserted. */
  lemma VisibleIsWholeGroups(st: QueueState)
    requires Inv(st)
    ensures (set e | e in st.entries && e.k.seqno <= st.lastSequence) == Committed(st.groups)
  {
    hide Committed;
    forall e | e in Committed(st.groups) ensures e.k.seqno <= st.lastSequence {
      CommittedInRange(st, e);
    }
  }

  // ---------------------------------------------------------------- what readers get

  /** The operations of the groups that succeeded. */
  function Applied(groups: seq<Group>): seq<Update> {
    if groups == [] then []
    else
      var g := groups[|groups| - 1];
      Applied(groups[..|groups| - 1]) + if g.ok then g.ops else []
  }

  ghost predicate AtMost(es: set<Entry>, s: nat) {
    forall e <- es :: e.k.seqno <= s
  }

  lemma NewestWriteWins(es: set<Entry>, history: seq<Op>, op: Update, s: nat, u: UserKey)
    requires AtMost(es, s) && ReadsAs(es, u, s, ReadStore(history, |history|, u))
    ensures ReadsAs(es + {EntryOf(op, s + 1)}, u, s + 1, ReadStore(history + [op], |history| + 1, u))
  {
    var e := EntryOf(op, s + 1);
    StorePrefix(history, [op], |history|);
    forall r | Newest(es + {e}, u, s + 1, r) ensures ValueOf(r) == ReadStore(history + [op], |history| + 1, u) {
      if u == op.user {
        assert Visible(e, u, s + 1);
        assert r == Some(e);
      } else {
        assert Newest(es, u, s, r);
      }
    }
  }

  lemma NoEntries(first: nat, ops: seq<Update>)
    ensures EntriesFrom(first, ops, 0) == {}
  {
  }

  lemma {:induction false} GroupReads(es: set<Entry>, history: seq<Op>, ops: seq<Update>, k: nat, s: nat, u: UserKey)
    requires k <= |ops| && AtMost(es, s) && ReadsAs(es, u, s, ReadStore(history, |history|, u))
    ensures AtMost(es + EntriesFrom(s + 1, ops, k), s + k)
    ensures ReadsAs(es + EntriesFrom(s + 1, ops, k), u, s + k, ReadStore(history + ops[..k], |history| + k, u))
  {
    hide ReadsAs, ReadStore, Store, EntriesFrom;
    if k == 0 {
      NoEntries(s + 1, ops);
      assert history + ops[..0] == history;
      assert es + EntriesFrom(s + 1, ops, 0) == es;
    } else {
      GroupReads(es, history, ops, k - 1, s, u);
      var before := es + EntriesFrom(s + 1, ops, k - 1);
      NewestWriteWins(before, history + ops[..k - 1], ops[k - 1], s + k - 1, u);
      InsertedOne(s + 1, ops, k - 1);
      assert before + {EntryOf(ops[k - 1], s + k)} == es + EntriesFrom(s + 1, ops, k);
      assert history + ops[..k - 1] + [ops[k - 1]] == history + ops[..k];
    }
  }

  lemma LaterReads(es: set<Entry>, u: UserKey, s: nat, t: nat, value: Option<Slice>)
    requires AtMost(es, s) && s <= t && ReadsAs(es, u, s, value)
    ensures ReadsAs(es, u, t, value) && AtMost(es, t)
  {
    forall r | Newest(es, u, t, r) ensures ValueOf(r) == value {
      assert Newest(es, u, s, r);
    }
  }

  lemma NothingCommitted(u: UserKey)
    ensures Committed([]) == {} && ReadsAs(Committed([]), u, 0, ReadStore([], 0, u))
  {
  }

  lemma AllDoneInit(groups: seq<Group>)
    requires AllDone(groups) && groups != []
    ensures var n := |groups| - 1;
            AllDone(groups[..n]) && groups[n].first == |Numbered(groups[..n])| + 1
  {
    var n := |groups| - 1;
    var init := groups[..n];
    assert GroupDone(groups[n], |Numbered(groups[..n])|);
    forall i | 0 <= i < n ensures GroupDone(init[i], |Numbered(init[..i])|) {
      assert init[..i] == groups[..i];
    }
  }

  lemma {:induction false} CommittedReads(groups: seq<Group>, u: UserKey)
    requires AllDone(groups)
    ensures AtMost(Committed(groups), |Numbered(groups)|)
    ensures ReadsAs(Committed(groups), u, |Numbered(groups)|, ReadStore(Applied(groups), |Applied(groups)|, u))
  {
    hide ReadsAs, AllDone, ReadStore, Store, Committed;
    if groups == [] {
      NothingCommitted(u);
    } else {
      var n := |groups| - 1;
      var init, g := groups[..n], groups[n];
      AllDoneInit(groups);
      CommittedReads(init, u);
      assert groups == init + [g];
      CommittedMore(init, g);
      if g.ok {
        GroupReads(Committed(init), Applied(init), g.ops, |g.ops|, |Numbered(init)|, u);
        assert g.ops[..|g.ops|] == g.ops;
      } else {
        assert Committed(groups) == Committed(init);
        assert Applied(groups) == Applied(init) + [] == Applied(init);
        LaterReads(Committed(init), u, |Numbered(init)|, |Numbered(groups)|, ReadStore(Applied(init), |Applied(init)|, u));
      }
    }
  }

  /** At every point of a run, also in the middle of a group, a read at the last sequence number gives what replaying
      the groups that succeeded so far gives. */
  lemma ReadsSeeWholeGroups(trace: seq<QueueState>, steps: seq<Step>, n: nat, u: UserKey)
    requires IsRun(trace, steps) && n <= |steps|
    ensures var st := trace[n];
            ReadsAs(st.entries, u, st.lastSequence, ReadStore(Applied(st.groups), |Applied(st.groups)|, u))
  {
    RunKeepsInv(trace, steps, n);
    var st := trace[n];
    VisibleIsWholeGroups(st);
    CommittedReads(st.groups, u);
    forall r | Newest(st.entries, u, st.lastSequence, r) ensures Newest(Committed(st.groups), u, st.lastSequence, r) {
      var visible := set e | e in st.entries && e.k.seqno <= st.lastSequence;
      assert r.Some? ==> r.value in visible;
      assert forall e <- Committed(st.groups) :: e in visible;
    }
  }

  // ---------------------------------------------------------------- progress

  lemma {:induction false} FindGroup(queue: seq<Writer>, m: nat) returns (n: nat)
    requires 1 <= m <= |queue| && forall i :: 0 < i < m ==> Joins(queue, i)
    ensures IsGroup(queue, n)
    decreases |queue| - m
  {
    if m == |queue| || !Joins(queue, m) {
      n := m;
    } else {
      n := FindGroup(queue, m + 1);
    }
  }

  /** The queue never gets stuck: while a writer waits, the leader can take a step of its own. */
  lemma LeaderCanStep(st: QueueState) returns (step: Step, w: QueueState)
    requires Inv(st) && st.queue != []
    ensures !step.Arrive? && !step.NoRoom? && !step.LogFails? && Takes(st, step, w)
  {
    hide Ordered, Joins;
    match st.flight
    case None =>
      if st.queue[0].batch.None? {
        step, w := Forced, Leave(st, 1, true, []);
      } else {
        var n := FindGroup(st.queue, 1);
        step, w := Lead, st.(flight := Some(Flight(n, AllOps(st.queue[..n]), false, 0)));
      }
    case Some(f) =>
      if !f.logged {
        step, w := Log, st.(flight := Some(f.(logged := true)));
      } else if f.inserted < |f.ops| {
        step := InsertOne;
        w := st.(entries := st.entries + {EntryOf(f.ops[f.inserted], st.lastSequence + 1 + f.inserted)},
                 flight := Some(f.(inserted := f.inserted + 1)));
      } else {
        step, w := Finish, Leave(st, f.n, true, f.ops);
      }
  }

  // ---------------------------------------------------------------- a run with a gap

  const FIRST: Writer := Writer(false, Some([Op(1.0, TypeValue, [1])]), 20)
  const SECOND: Writer := Writer(false, Some([Op(1.0, TypeValue, [2])]), 20)
  const LOST: Group := Group([FIRST], false, 1, [Op(1.0, TypeValue, [1])])
  const KEPT: Group := Group([SECOND], true, 2, [Op(1.0, TypeValue, [2])])

  /** The first writer's log write fails; then the second one succeeds. */
  ghost function GapTrace(): seq<QueueState> {
    var e := EntryOf(Op(1.0, TypeValue, [2]), 2);
    [IDLE,
     QueueState([FIRST], [FIRST], None, 0, {}, []),
     QueueState([FIRST], [FIRST], Some(Flight(1, LOST.ops, false, 0)), 0, {}, []),
     QueueState([FIRST], [], None, 1, {}, [LOST]),
     QueueState([FIRST, SECOND], [SECOND], None, 1, {}, [LOST]),
     QueueState([FIRST, SECOND], [SECOND], Some(Flight(1, KEPT.ops, false, 0)), 1, {}, [LOST]),
     QueueState([FIRST, SECOND], [SECOND], Some(Flight(1, KEPT.ops, true, 0)), 1, {}, [LOST]),
     QueueState([FIRST, SECOND], [SECOND], Some(Flight(1, KEPT.ops, true, 1)), 1, {e}, [LOST]),
     QueueState([FIRST, SECOND], [], None, 2, {e}, [LOST, KEPT])]
  }

  ghost function GapSteps(): seq<Step> {
    [Arrive(FIRST), Lead, LogFails, Arrive(SECOND), Lead, Log, InsertOne, Finish]
  }

  lemma LeadAlone(st: QueueState, writer: Writer)
    requires st.flight.None? && st.queue == [writer] && writer.batch.Some?
    ensures Takes(st, Lead, st.(flight := Some(Flight(1, writer.batch.value, false, 0))))
  {
    assert st.queue[..1] == [writer] && [writer][..0] == [];
    assert AllOps([writer]) == [] + OpsIn(writer);
    var n: nat := 1;
    assert AllOps(st.queue[..n]) == writer.batch.value;
    assert IsGroup(st.queue, n);
  }

  lemma GapRun()
    ensures IsRun(GapTrace(), GapSteps())
  {
    var t := GapTrace();
    LeadAlone(t[1], FIRST);
    LeadAlone(t[4], SECOND);
    assert [FIRST][..1] == [FIRST] && [FIRST][1..] == [] && [SECOND][..1] == [SECOND] && [SECOND][1..] == [];
    forall i | 0 <= i < 8 ensures Takes(t[i], GapSteps()[i], t[i + 1]) {
      assert i == 0 || i == 1 || i == 2 || i == 3 || i == 4 || i == 5 || i == 6 || i == 7;
    }
  }

  /** Sequence numbers of what can be read need not be contiguous: in this run number 1 belongs to nothing. */
  lemma FailedGroupLeavesGap()
    ensures IsRun(GapTrace(), GapSteps())
    ensures var st := GapTrace()[8];
            && st.groups == [LOST, KEPT] && !LOST.ok && LOST.ops != [] && KEPT.ok
            && st.lastSequence == 2 && forall e <- st.entries :: e.k.seqno == 2
  {
    GapRun();
  }
}
