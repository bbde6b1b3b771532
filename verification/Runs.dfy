/** Whole runs of the store: every state of every run reads as the replayed history of writes. */
module Runs {
  import opened InternalKeys
  import opened Version
  import opened VersionBuilder
  import opened Database

  /** The steps of the store, with the choices each one leaves open. */
  datatype Step =
    | Write(ops: seq<Update>)
    | Fail(count: nat)
    | Switch
    | Flush
    | Move(level: nat, file: File)
    | Compact(level: nat, in0: seq<File>, in1: seq<File>, merged: seq<Entry>, outputs: seq<File>)
    | TakeSnapshot
    | ReleaseSnapshot(index: nat)

  ghost predicate Takes(st: State, step: Step, w: State) {
    match step
    case Write(ops) => st.lastSequence + |ops| < MAX_SEQUENCE && w == Written(st, ops)
    case Fail(n) => st.lastSequence + n < MAX_SEQUENCE && w == Failed(st, n)
    case Switch => st.imm.None? && w == Switched(st)
    case Flush => Flushed(st, w)
    case Move(level, f) => Moved(st, level, f, w)
    case Compact(level, in0, in1, merged, outputs) => Compacted(st, level, in0, in1, merged, outputs, w)
    case TakeSnapshot => w == SnapshotTaken(st)
    case ReleaseSnapshot(i) => i < |st.snapshots| && w == SnapshotReleased(st, i)
  }

  /** The guard a compaction needs: it drops no tombstone whose key lives on in a file of the output level that stays. */
  ghost predicate Guarded(st: State, step: Step) {
    step.Compact? && step.level + 1 < |st.version| ==> !CompactionResurrects(st, step.level, step.in0, step.in1)
  }

  const EMPTY_STORE: State := State([], None, EMPTY_VERSION, [], 0, 2, [])

  ghost predicate IsRun(trace: seq<State>, steps: seq<Step>) {
    && |trace| == |steps| + 1
    && trace[0] == EMPTY_STORE
    && forall i :: 0 <= i < |steps| ==> Takes(trace[i], steps[i], trace[i + 1])
  }

  lemma EmptyVersionValid()
    ensures ValidVersion(EMPTY_VERSION)
    ensures VersionEntries(EMPTY_VERSION) == {}
    ensures forall l :: 0 <= l < NUM_LEVELS ==> EMPTY_VERSION[l] == []
  {
    assert forall l :: 0 <= l < NUM_LEVELS ==> EMPTY_VERSION[l] == [];
    forall l: nat | l < NUM_LEVELS ensures EntriesAt(EMPTY_VERSION, l) == {} {
    }
  }

  lemma EmptyStoreStructured()
    ensures Structured(EMPTY_STORE) && All(EMPTY_STORE) == {}
  {
    EmptyVersionValid();
    assert Elements<Entry>([]) == {};
  }

  lemma EmptyStoreInv()
    ensures Inv(EMPTY_STORE)
  {
    EmptyStoreStructured();
    assert Store([], 0) == map[];
  }

  /** Each step keeps the invariant exactly under its guard. */
  lemma StepExact(st: State, step: Step, w: State)
    requires Inv(st) && Takes(st, step, w)
    ensures Inv(w) <==> Guarded(st, step)
  {
    match step
    case Write(ops) => WriteKeepsInv(st, ops);
    case Fail(n) => WriteKeepsInv(st, seq(n, _ => Unused));
    case Switch => SwitchKeepsInv(st);
    case Flush => FlushKeepsInv(st, w);
    case Move(level, f) => MoveKeepsInv(st, level, f, w);
    case Compact(level, in0, in1, merged, outputs) => CompactionExact(st, level, in0, in1, merged, outputs, w);
    case TakeSnapshot => SnapshotKeepsInv(st);
    case ReleaseSnapshot(i) => ReleaseKeepsInv(st, i);
  }

  ghost predicate InvUpTo(trace: seq<State>, n: nat)
    requires n < |trace|
  {
    forall i :: 0 <= i <= n ==> Inv(trace[i])
  }

  ghost predicate GuardedUpTo(trace: seq<State>, steps: seq<Step>, n: nat)
    requires n <= |steps| && n <= |trace|
  {
    forall i :: 0 <= i < n ==> Guarded(trace[i], steps[i])
  }

  /** The states of a run satisfy the invariant exactly as far as its compactions are guarded. */
  lemma {:induction false} RunExact(trace: seq<State>, steps: seq<Step>, n: nat)
    requires IsRun(trace, steps) && n <= |steps|
    ensures InvUpTo(trace, n) <==> GuardedUpTo(trace, steps, n)
  {
    if n == 0 {
      EmptyStoreInv();
    } else {
      RunExact(trace, steps, n - 1);
      assert InvUpTo(trace, n) <==> InvUpTo(trace, n - 1) && Inv(trace[n]);
      assert GuardedUpTo(trace, steps, n) <==> GuardedUpTo(trace, steps, n - 1) && Guarded(trace[n - 1], steps[n - 1]);
      if InvUpTo(trace, n - 1) {
        StepExact(trace[n - 1], steps[n - 1], trace[n]);
      }
    }
  }

  lemma {:induction false} HistoryGrows(trace: seq<State>, steps: seq<Step>, i: nat, j: nat)
    requires IsRun(trace, steps) && i <= j <= |steps|
    ensures trace[i].history <= trace[j].history
  {
    if i < j {
      HistoryGrows(trace, steps, i, j - 1);
      assert Takes(trace[j - 1], steps[j - 1], trace[j]);
    }
  }

  /** A sequence number a reader may use: the last one, or that of a live snapshot. */
  predicate Readable(st: State, s: nat) {
    s == st.lastSequence || s in st.snapshots
  }

  /** The main result: at every state of every guarded run, a read at the last sequence number or at any live
      snapshot answers what replaying the writes up to that number gives. */
  lemma RunReadsReplayedHistory(trace: seq<State>, steps: seq<Step>, j: nat, u: UserKey, s: nat)
    requires IsRun(trace, steps) && j <= |steps|
    requires GuardedUpTo(trace, steps, j)
    requires Readable(trace[j], s)
    ensures s <= |trace[j].history|
    ensures ReadsAs(All(trace[j]), u, s, ReadStore(trace[j].history, s, u))
  {
    RunExact(trace, steps, j);
    assert Inv(trace[j]);
  }

  /** Every read that the state allows answers what the replay gives. */
  ghost predicate ReadsRight(st: State) {
    forall u, s :: Readable(st, s) ==> ReadsRightAt(st, u, s)
  }

  ghost predicate ReadsRightAt(st: State, u: UserKey, s: nat) {
    s <= |st.history| && ReadsAs(All(st), u, s, ReadStore(st.history, s, u))
  }

  ghost predicate ReadsRightUpTo(trace: seq<State>, n: nat)
    requires n < |trace|
  {
    forall i :: 0 <= i <= n ==> ReadsRight(trace[i])
  }

  lemma UnguardedReadsWrong(st: State, step: Step, w: State)
    requires Inv(st) && Takes(st, step, w) && !Guarded(st, step)
    ensures !ReadsRight(w)
  {
    hide Inv, Compacted, CompactionResurrects, ReadsAs, ReadStore, All;
    var u := ResurrectionShows(st, step.level, step.in0, step.in1, step.merged, step.outputs, w);
    assert !ReadsRightAt(w, u, SmallestSnapshot(w.snapshots, w.lastSequence));
  }

  /** The exact condition in terms of reads: all reads at all states of a run so far are right if and only if all its
      compactions so far are guarded. */
  lemma {:induction false} ReadsExact(trace: seq<State>, steps: seq<Step>, n: nat)
    requires IsRun(trace, steps) && n <= |steps|
    ensures ReadsRightUpTo(trace, n) <==> GuardedUpTo(trace, steps, n)
  {
    hide Guarded, Takes, ReadsRight;
    if GuardedUpTo(trace, steps, n) {
      forall i | 0 <= i <= n ensures ReadsRight(trace[i]) {
        GuardedReadsRight(trace, steps, i);
      }
    } else if ReadsRightUpTo(trace, n) {
      ReadsExact(trace, steps, n - 1);
      RunExact(trace, steps, n - 1);
      UnguardedReadsWrong(trace[n - 1], steps[n - 1], trace[n]);
    }
  }

  lemma GuardedReadsRight(trace: seq<State>, steps: seq<Step>, i: nat)
    requires IsRun(trace, steps) && i <= |steps| && GuardedUpTo(trace, steps, i)
    ensures ReadsRight(trace[i])
  {
    hide Guarded, Takes, ReadsAs;
    forall u, s | Readable(trace[i], s) ensures ReadsRightAt(trace[i], u, s) {
      RunReadsReplayedHistory(trace, steps, i, u, s);
    }
  }

  /** A snapshot that is live at two points of a run reads the same at both, whatever happened in between. */
  lemma SnapshotIsStable(trace: seq<State>, steps: seq<Step>, i: nat, j: nat, u: UserKey, s: nat)
    requires IsRun(trace, steps) && i <= j <= |steps|
    requires GuardedUpTo(trace, steps, j)
    requires Readable(trace[i], s) && s in trace[j].snapshots
    ensures exists value :: ReadsAs(All(trace[i]), u, s, value) && ReadsAs(All(trace[j]), u, s, value)
  {
    RunReadsReplayedHistory(trace, steps, i, u, s);
    RunReadsReplayedHistory(trace, steps, j, u, s);
    HistoryGrows(trace, steps, i, j);
    var early, late := trace[i].history, trace[j].history;
    StorePrefix(early, late[|early|..], s);
    assert early + late[|early|..] == late;
  }

  // ---------------------------------------------------------------- what single steps are for

  /** What the last of the operations on a key leaves of it: a value or nothing; None when none of them is on the key. */
  function LastOn(ops: seq<Update>, u: UserKey): Option<Option<Slice>> {
    if ops == [] then None
    else
      var op := ops[|ops| - 1];
      if op.user == u then Some(if op.kind.TypeValue? then Some(op.value) else None) else LastOn(ops[..|ops| - 1], u)
  }

  lemma {:induction false} StoreAfter(history: seq<Op>, ops: seq<Update>, u: UserKey)
    ensures ReadStore(history + ops, |history| + |ops|, u) ==
            if LastOn(ops, u).Some? then LastOn(ops, u).value else ReadStore(history, |history|, u)
  {
    if ops == [] {
      assert history + ops == history;
    } else {
      var n := |ops| - 1;
      StoreAfter(history, ops[..n], u);
      assert history + ops == (history + ops[..n]) + [ops[n]];
      StorePrefix(history + ops[..n], [ops[n]], |history| + n);
    }
  }

  /** A write is read: right after it a reader finds, under each key, what the last operation of the batch on it left, and
      for other keys what was there before. */
  lemma WriteIsRead(trace: seq<State>, steps: seq<Step>, m: nat, u: UserKey)
    requires IsRun(trace, steps) && m < |steps| && steps[m].Write? && GuardedUpTo(trace, steps, m + 1)
    ensures trace[m].lastSequence == |trace[m].history|
    ensures ReadsAs(All(trace[m + 1]), u, trace[m + 1].lastSequence,
                    if LastOn(steps[m].ops, u).Some? then LastOn(steps[m].ops, u).value
                    else ReadStore(trace[m].history, trace[m].lastSequence, u))
  {
    hide ReadsAs, ReadStore, LastOn, Guarded, Takes, Inv, All;
    RunReadsReplayedHistory(trace, steps, m, u, trace[m].lastSequence);
    RunReadsReplayedHistory(trace, steps, m + 1, u, trace[m + 1].lastSequence);
    RunExact(trace, steps, m);
    NumbersMatch(trace[m]);
    WriteFields(trace[m], steps[m], trace[m + 1]);
    StoreAfter(trace[m].history, steps[m].ops, u);
  }

  lemma WriteFields(st: State, step: Step, w: State)
    requires Takes(st, step, w) && step.Write?
    ensures w.history == st.history + step.ops && w.lastSequence == st.lastSequence + |step.ops|
  {
    hide InsertAll;
  }

  lemma NumbersMatch(st: State)
    requires Inv(st)
    ensures st.lastSequence == |st.history|
  {
  }

  /** The step gives up a snapshot of this number. */
  predicate Releases(st: State, step: Step, s: nat) {
    step.ReleaseSnapshot? && step.index < |st.snapshots| && st.snapshots[step.index] == s
  }

  lemma {:induction false} SnapshotStays(trace: seq<State>, steps: seq<Step>, m: nat, n: nat, s: nat)
    requires IsRun(trace, steps) && m <= n <= |steps| && s in trace[m].snapshots
    requires forall k :: m <= k < n ==> !Releases(trace[k], steps[k], s)
    ensures s in trace[n].snapshots
    decreases n
  {
    hide Flushed, Moved, Compacted, InsertAll;
    if m < n {
      SnapshotStays(trace, steps, m, n - 1, s);
      assert Takes(trace[n - 1], steps[n - 1], trace[n]);
      StepSnapshots(trace[n - 1], steps[n - 1], trace[n], s);
    }
  }

  lemma StepSnapshots(st: State, step: Step, w: State, s: nat)
    requires Takes(st, step, w) && s in st.snapshots && !Releases(st, step, s)
    ensures s in w.snapshots
  {
    hide InsertAll;
    if step.ReleaseSnapshot? {
      var i :| 0 <= i < |st.snapshots| && st.snapshots[i] == s;
      assert w.snapshots[if i < step.index then i else i - 1] == s;
    }
  }

  /** A snapshot holds what was there when it was taken, until it is released, whatever happens in between. */
  lemma SnapshotHolds(trace: seq<State>, steps: seq<Step>, m: nat, n: nat, u: UserKey)
    requires IsRun(trace, steps) && m < n <= |steps| && steps[m] == TakeSnapshot && GuardedUpTo(trace, steps, n)
    requires forall k :: m < k < n ==> !Releases(trace[k], steps[k], trace[m].lastSequence)
    ensures trace[m].lastSequence == |trace[m].history|
    ensures ReadsAs(All(trace[n]), u, trace[m].lastSequence, ReadStore(trace[m].history, trace[m].lastSequence, u))
  {
    hide ReadsAs, Guarded;
    var s := trace[m].lastSequence;
    assert Takes(trace[m], steps[m], trace[m + 1]);
    assert s in trace[m + 1].snapshots by {
      assert trace[m + 1].snapshots[|trace[m].snapshots|] == s;
    }
    SnapshotStays(trace, steps, m + 1, n, s);
    RunReadsReplayedHistory(trace, steps, n, u, s);
    RunExact(trace, steps, m);
    NumbersMatch(trace[m]);
    HistoryGrows(trace, steps, m, n);
    var early, late := trace[m].history, trace[n].history;
    StorePrefix(early, late[|early|..], s);
    assert early + late[|early|..] == late;
  }
}
