/** What a write with `sync` set buys (db/db_impl.cc, Write): over whole runs, after whatever crash, the write itself and
    everything that went to its log before it are there. And after a failed sync nothing is written any more. */
module SyncedRuns {
  import opened InternalKeys
  import LogWriter
  import LogReader
  import WB = WriteBatch
  import opened Database
  import Runs
  import opened Recovery
  import opened DurableRuns
  import opened CrashRecovery

  // ---------------------------------------------------------------- one step

  lemma StepGrowsHistory(rank: Ranking, d: Durable, step: Step, e: Durable)
    requires Takes(rank, d, step, e)
    ensures d.st.history <= e.st.history
  {
    hide Flushed, Moved, Compacted, InsertAll, WB.AllFit;
    if step.Change? && step.step.Compact? {
      var s := step.step;
      CompactionFields(d.st, s.level, s.in0, s.in1, s.merged, s.outputs, e.st);
    } else if step.Change? && step.step.Move? {
      MoveFields(d.st, step.step.level, step.step.file, e.st);
    } else if step.Change? && step.step.Flush? {
      FlushFields(d.st, e.st);
    }
  }

  lemma FlushFields(st: State, w: State)
    requires Flushed(st, w)
    ensures st.imm.Some? && w.history == st.history && w.imm.None?
  {
  }

  /** A log that holds the batches `synced` at its front, and will keep them. */
  ghost predicate Keeps(log: LogFile, synced: seq<Logged>) {
    !log.state.Torn? ==> synced <= log.batches && |synced| <= log.synced
  }

  /** The batches written behind number `from` are safe: in the newer log or the older one, or in tables. */
  ghost predicate Safe(d: Durable, from: nat, synced: seq<Logged>) {
    || (d.mid == from && Keeps(d.recent, synced))
    || (d.base == from && EndOf(from, synced) <= d.mid && Keeps(d.former, synced))
    || EndOf(from, synced) <= d.base
  }

  lemma KeepsMore(log: LogFile, synced: seq<Logged>, b: Logged, sync: bool)
    requires Keeps(log, synced) && (!log.state.Torn? ==> log.synced <= |log.batches|)
    ensures Keeps(Appended(log, b, sync), synced) && Keeps(Doubtful(log, b), synced)
  {
  }

  lemma StepKeepsSafe(rank: Ranking, d: Durable, step: Step, e: Durable, from: nat, synced: seq<Logged>)
    requires DInv(rank, d) && Takes(rank, d, step, e) && Safe(d, from, synced) && EndOf(from, synced) <= |d.st.history|
    ensures Safe(e, from, synced)
  {
    hide Flushed, Moved, Compacted, InsertAll, Inv, Keeps, EndOf, LogSays, Loggable, WB.AllFit, Appended, Doubtful;
    if Keeps(d.recent, synced) {
      SyncedInside(rank, d);
      match step
      case LogWrite(us, sync) => KeepsMore(d.recent, synced, Logged(d.st.lastSequence + 1, us), sync);
      case AppendFails(us) => KeepsMore(d.recent, synced, Logged(d.st.lastSequence + 1, us), false);
      case SyncFails(us) => KeepsMore(d.recent, synced, Logged(d.st.lastSequence + 1, us), false);
      case Change(_) =>
    }
    NoLogKeeps(d, from, synced);
  }

  lemma SyncedInside(rank: Ranking, d: Durable)
    requires Logs(rank, d)
    ensures !d.recent.state.Torn? ==> d.recent.synced <= |d.recent.batches|
  {
  }

  lemma NoLogKeeps(d: Durable, from: nat, synced: seq<Logged>)
    ensures Keeps(NO_LOG, synced) ==> EndOf(from, synced) == from
  {
  }

  // ---------------------------------------------------------------- a synced write

  /** The updates are there, under the numbers behind `last`. */
  ghost predicate AreThere(rank: Ranking, ops: seq<Op>, last: nat, us: seq<WB.Update>) {
    forall k :: last <= k < last + |us| ==> At(ops, k) == OpOf(rank, us[k - last])
  }

  /** The `count` numbers behind `last` belong to nothing. */
  ghost predicate AreUnused(ops: seq<Op>, last: nat, count: nat) {
    forall k :: last <= k < last + count ==> At(ops, k) == Unused
  }

  lemma SyncMakesSafe(rank: Ranking, d: Durable, us: seq<WB.Update>, e: Durable) returns (synced: seq<Logged>)
    requires Logs(rank, d) && Takes(rank, d, LogWrite(us, true), e) && d.recent.state.Clean?
    ensures e.mid == d.mid && synced == e.recent.batches && Safe(e, d.mid, synced) && EndOf(d.mid, synced) == |e.st.history|
    ensures e.st.history == d.st.history + OpsOf(rank, us)
  {
    hide InsertAll, FileSays, WB.AllFit;
    synced := e.recent.batches;
  }

  lemma {:induction false} SafeAfter(rank: Ranking, trace: seq<Durable>, steps: seq<Step>, i: nat, n: nat, synced: seq<Logged>)
    requires IsRun(rank, trace, steps) && i < n <= |steps| && GuardedUpTo(trace, steps, n)
    requires Safe(trace[i + 1], trace[i + 1].mid, synced) && EndOf(trace[i + 1].mid, synced) == |trace[i + 1].st.history|
    ensures Safe(trace[n], trace[i + 1].mid, synced) && trace[i + 1].st.history <= trace[n].st.history
    decreases n
  {
    hide Takes, Safe, EndOf, DInv, DiskGuarded;
    if i + 1 < n {
      SafeAfter(rank, trace, steps, i, n - 1, synced);
      RunIsDurable(rank, trace, steps, n - 1);
      StepKeepsSafe(rank, trace[n - 1], steps[n - 1], trace[n], trace[i + 1].mid, synced);
      StepGrowsHistory(rank, trace[n - 1], steps[n - 1], trace[n]);
    }
  }

  lemma SafeIsSynced(rank: Ranking, d: Durable, from: nat, synced: seq<Logged>, k: nat)
    requires Logs(rank, d) && Intact(d) && Safe(d, from, synced) && from <= k < EndOf(from, synced)
    ensures d.former.synced <= |d.former.batches| && d.recent.synced <= |d.recent.batches| && Synced(d, k)
  {
    hide EndOf, Loggable, HistoryOf, InsertAll;
    LogsLoggable(rank, d);
    if d.mid == from && Keeps(d.recent, synced) {
      assert d.recent.batches[..|synced|] == synced;
      EndsGrow(rank, from, d.recent.batches, |synced|, d.recent.synced);
    } else if d.base == from && Keeps(d.former, synced) {
      assert d.former.batches[..|synced|] == synced;
      EndsGrow(rank, from, d.former.batches, |synced|, d.former.synced);
    }
  }

  lemma SafeIsLeft(crc: LogWriter.Checksum, rank: Ranking, d: Durable, from: nat, synced: seq<Logged>, formerLog: Slice, recentLog: Slice)
    requires Logs(rank, d) && Intact(d) && Safe(d, from, synced) && CrashImage(crc, d, formerLog, recentLog)
    ensures forall k :: from <= k < EndOf(from, synced) && k < |d.st.history| && d.st.history[k].Op? ==>
              At(Left(crc, rank, d, formerLog, recentLog), k) == d.st.history[k]
  {
    hide Logs, Safe, EndOf, CutOf, Survivors, Synced, At;
    SyncedSurvives(crc, rank, d, formerLog, recentLog);
    forall k | from <= k < EndOf(from, synced) && k < |d.st.history| && d.st.history[k].Op?
      ensures At(Left(crc, rank, d, formerLog, recentLog), k) == d.st.history[k]
    {
      SafeIsSynced(rank, d, from, synced, k);
    }
  }

  /** A history that goes on from one with these operations at its end has them under their numbers. */
  lemma OpsStay(rank: Ranking, before: seq<Op>, us: seq<WB.Update>, history: seq<Op>)
    requires before + OpsOf(rank, us) <= history
    ensures forall j :: 0 <= j < |us| ==> history[|before| + j] == OpOf(rank, us[j])
    ensures forall k :: 0 <= k < |before| ==> history[k] == before[k]
  {
    var all := before + OpsOf(rank, us);
    assert forall k :: 0 <= k < |all| ==> history[k] == all[k];
  }

  /** After a write with `sync` set to a clean log, at every later point of the run at which no live log is torn, and after
      every crash: the write's updates are there under their numbers, and so is all that went to the same log before. */
  lemma SyncedWriteSurvives(crc: LogWriter.Checksum, rank: Ranking, trace: seq<Durable>, steps: seq<Step>, i: nat, n: nat,
                            us: seq<WB.Update>, formerLog: Slice, recentLog: Slice)
    requires IsRun(rank, trace, steps) && i < n <= |steps| && GuardedUpTo(trace, steps, n)
    requires steps[i] == LogWrite(us, true) && trace[i].recent.state.Clean?
    requires Intact(trace[n]) && CrashImage(crc, trace[n], formerLog, recentLog)
    ensures DInv(rank, trace[n]) && trace[i].mid <= |trace[i].st.history| == trace[i].st.lastSequence
    ensures var left := Left(crc, rank, trace[n], formerLog, recentLog);
            && AreThere(rank, left, trace[i].st.lastSequence, us)
            && forall k :: trace[i].mid <= k < trace[i].st.lastSequence && trace[i].st.history[k].Op? ==>
                 At(left, k) == trace[i].st.history[k]
  {
    hide Takes, Safe, EndOf, DInv, DiskGuarded, CutOf, Survivors, At, Logs, OpsOf, OpOf, GuardedUpTo, AreThere;
    GuardedBefore(trace, steps, i, n);
    RunIsDurable(rank, trace, steps, i);
    RunIsDurable(rank, trace, steps, n);
    DurableLogs(rank, trace[i]);
    DurableLogs(rank, trace[n]);
    LogsReach(rank, trace[i]);
    OpsCount(rank, us);
    var d, h := trace[n], trace[i].st.history;
    assert Takes(rank, trace[i], steps[i], trace[i + 1]);
    var synced := SyncMakesSafe(rank, trace[i], us, trace[i + 1]);
    SafeAfter(rank, trace, steps, i, n, synced);
    SafeIsLeft(crc, rank, d, trace[i].mid, synced, formerLog, recentLog);
    OpsStay(rank, h, us, d.st.history);
    KeptAreThere(rank, h, us, d.st.history, Left(crc, rank, d, formerLog, recentLog));
  }

  lemma KeptAreThere(rank: Ranking, before: seq<Op>, us: seq<WB.Update>, history: seq<Op>, left: seq<Op>)
    requires before + OpsOf(rank, us) <= history
    requires forall k :: |before| <= k < |before| + |us| && k < |history| && history[k].Op? ==> At(left, k) == history[k]
    ensures AreThere(rank, left, |before|, us)
  {
    hide At, OpsOf, OpOf;
    OpsCount(rank, us);
    OpsAreOps(rank, us);
    OpsStay(rank, before, us, history);
    forall k | |before| <= k < |before| + |us| ensures At(left, k) == OpOf(rank, us[k - |before|]) {
      assert history[|before| + (k - |before|)].Op?;
    }
  }

  lemma OpsAreOps(rank: Ranking, us: seq<WB.Update>)
    ensures forall j :: 0 <= j < |us| ==> OpOf(rank, us[j]).Op?
  {
  }

  lemma GuardedBefore(trace: seq<Durable>, steps: seq<Step>, i: nat, n: nat)
    requires i <= n <= |steps| && n <= |trace| && GuardedUpTo(trace, steps, n)
    ensures GuardedUpTo(trace, steps, i)
  {
    hide DiskGuarded;
  }

  lemma LogsReach(rank: Ranking, d: Durable)
    requires Logs(rank, d)
    ensures d.mid <= |d.st.history| == d.st.lastSequence
  {
  }

  // ---------------------------------------------------------------- a failed write

  /** A write that failed on a clean log may show up or not when the store is opened again: there is a crash after which its
      updates are there, and one after which its numbers belong to nothing, as they do for readers before the crash. */
  lemma FailedWriteMayReturn(crc: LogWriter.Checksum, rank: Ranking, trace: seq<Durable>, steps: seq<Step>, i: nat)
      returns (formerLog: Slice, whole: Slice, short: Slice)
    requires IsRun(rank, trace, steps) && i < |steps| && GuardedUpTo(trace, steps, i + 1)
    requires Fails(steps[i]) && trace[i].recent.state.Clean? && !trace[i].former.state.Torn?
    ensures var d := trace[i + 1];
            && DInv(rank, d) && Intact(d) && CrashImage(crc, d, formerLog, whole) && CrashImage(crc, d, formerLog, short)
            && |d.st.history| == trace[i].st.lastSequence + |steps[i].updates|
            && AreUnused(d.st.history, trace[i].st.lastSequence, |steps[i].updates|)
            && AreThere(rank, Left(crc, rank, d, formerLog, whole), trace[i].st.lastSequence, steps[i].updates)
            && AreUnused(Left(crc, rank, d, formerLog, short), trace[i].st.lastSequence, |steps[i].updates|)
  {
    hide Takes, DInv, DiskGuarded, Survivors, Records, Logs, CutOf, LogWriter.Log, AreThere, AreUnused;
    RunIsDurable(rank, trace, steps, i);
    RunIsDurable(rank, trace, steps, i + 1);
    DurableLogs(rank, trace[i]);
    DurableLogs(rank, trace[i + 1]);
    assert Takes(rank, trace[i], steps[i], trace[i + 1]);
    formerLog, whole, short := InDoubt(crc, rank, trace[i], steps[i], trace[i + 1]);
  }

  lemma FailFields(rank: Ranking, d: Durable, step: Step, e: Durable)
    requires Logs(rank, d) && Takes(rank, d, step, e) && Fails(step) && d.recent.state.Clean?
    ensures e.st.history == d.st.history + Gap(|step.updates|) && |d.st.history| == d.st.lastSequence
    ensures e.base == d.base && e.mid == d.mid && e.former == d.former
    ensures e.recent == LogFile(d.recent.batches + [Logged(d.st.lastSequence + 1, step.updates)], d.recent.synced, Doubt)
    ensures d.recent.synced <= |d.recent.batches|
  {
    hide InsertAll, WB.AllFit, LogSays, Loggable, EndOf;
  }

  lemma GapIsUnused(ops: seq<Op>, count: nat)
    ensures AreUnused(ops + Gap(count), |ops|, count)
  {
  }

  lemma InDoubt(crc: LogWriter.Checksum, rank: Ranking, d: Durable, step: Step, e: Durable)
      returns (formerLog: Slice, whole: Slice, short: Slice)
    requires Logs(rank, d) && Logs(rank, e) && Takes(rank, d, step, e) && Fails(step)
    requires d.recent.state.Clean? && !d.former.state.Torn?
    ensures Intact(e) && CrashImage(crc, e, formerLog, whole) && CrashImage(crc, e, formerLog, short)
    ensures |e.st.history| == d.st.lastSequence + |step.updates|
    ensures AreUnused(e.st.history, d.st.lastSequence, |step.updates|)
    ensures AreThere(rank, Left(crc, rank, e, formerLog, whole), d.st.lastSequence, step.updates)
    ensures AreUnused(Left(crc, rank, e, formerLog, short), d.st.lastSequence, |step.updates|)
  {
    hide Takes, Survivors, Records, Logs, CutOf, LogWriter.Log, OpOf, AreThere, AreUnused;
    FailFields(rank, d, step, e);
    GapIsUnused(d.st.history, |step.updates|);
    LogsLoggable(rank, e);
    var batches, n := e.recent.batches, |e.recent.batches| - 1;
    ExtremeCuts(crc, e.base, e.former);
    ExtremeCuts(crc, e.mid, e.recent);
    formerLog := LogWriter.Log(crc, 0, Records(e.base, e.former.batches));
    whole := LogWriter.Log(crc, 0, Records(e.mid, batches));
    short := LogWriter.Log(crc, 0, Records(e.mid, batches)[..n]);
    LastCutOff(crc, e.mid, e.recent);
    WholeLog(crc, e.base, e.former.batches);
    WholeLog(crc, e.mid, batches);
    LastBatchLeft(rank, e, |e.former.batches|, d.st.lastSequence, step.updates);
  }

  lemma LastCutOff(crc: LogWriter.Checksum, from: nat, log: LogFile)
    requires Loggable(from, log.batches) && log.synced < |log.batches|
    ensures var n := |log.batches| - 1;
            var file := LogWriter.Log(crc, 0, Records(from, log.batches)[..n]);
            CutOf(crc, file, from, log) && CompleteIn(crc, file, from, log.batches) == n
  {
    hide Loggable, LogWriter.Log, LogReader.Complete, Records;
    var records, n := Records(from, log.batches), |log.batches| - 1;
    CutBehind(crc, records, n);
    CutBehind(crc, records[..n], log.synced);
    assert records[..n][..log.synced] == records[..log.synced];
  }

  /** With the last batch of the newer log or without it. */
  lemma LastBatchLeft(rank: Ranking, e: Durable, j: nat, last: nat, us: seq<WB.Update>)
    requires Logs(rank, e) && Intact(e) && j == |e.former.batches|
    requires e.recent.batches != [] && e.recent.batches[|e.recent.batches| - 1] == Logged(last + 1, us)
    requires |e.st.history| == last + |us|
    ensures AreThere(rank, Survivors(rank, e, j, |e.recent.batches|), last, us)
    ensures AreUnused(Survivors(rank, e, j, |e.recent.batches| - 1), last, |us|)
  {
    hide Logs, HistoryOf, Loggable, OpOf, Survivors;
    var batches, n := e.recent.batches, |e.recent.batches| - 1;
    LogsLoggable(rank, e);
    AttemptedParts(rank, e, j, |batches|);
    AttemptedParts(rank, e, j, n);
    EndsInside(rank, e, j, |batches|);
    EndsInside(rank, e, j, n);
    HistorySnoc(rank, e.mid, batches, n);
    assert batches[..n + 1] == batches[..|batches|];
    HistoryPrefix(rank, e.mid, batches, n);
    HistoryPrefix(rank, e.mid, batches, |batches|);
    var front := e.st.history[..e.base] + HistoryOf(rank, e.base, e.former.batches[..j]) + Gap(e.mid - EndOf(e.base, e.former.batches[..j]));
    var all := HistoryOf(rank, e.mid, batches[..|batches|]);
    assert |front| == e.mid;
    assert |OpsOf(rank, us)| == |us| && |all| == last + |us| - e.mid;
    assert forall k :: last <= k < last + |us| ==> (front + all)[k] == all[k - e.mid];
    var rest := Survivors(rank, e, j, n);
    assert rest == front + HistoryOf(rank, e.mid, batches[..n]) && |rest| <= last;
  }

  // ---------------------------------------------------------------- a failed sync

  lemma {:induction false} DeadFrom(rank: Ranking, trace: seq<Durable>, steps: seq<Step>, m: nat, n: nat)
    requires IsRun(rank, trace, steps) && m <= n <= |steps| && trace[m].dead
    ensures trace[n].dead && trace[n].st.history == trace[m].st.history
    decreases n
  {
    hide Flushed, Moved, Compacted, InsertAll, WB.AllFit;
    if m < n {
      DeadFrom(rank, trace, steps, m, n - 1);
      assert Takes(rank, trace[n - 1], steps[n - 1], trace[n]);
      var step, st, w := steps[n - 1], trace[n - 1].st, trace[n].st;
      if step.Change? && step.step.Compact? {
        var s := step.step;
        CompactionFields(st, s.level, s.in0, s.in1, s.merged, s.outputs, w);
      } else if step.Change? && step.step.Move? {
        MoveFields(st, step.step.level, step.step.file, w);
      } else if step.Change? && step.step.Flush? {
        FlushFields(st, w);
      }
    }
  }

  /** Behind a failed sync no write succeeds or even uses up numbers, and no memtable is switched, for the rest of the run. */
  lemma NothingAfterFailedSync(rank: Ranking, trace: seq<Durable>, steps: seq<Step>, m: nat, n: nat)
    requires IsRun(rank, trace, steps) && m < n < |steps| && steps[m].SyncFails?
    ensures trace[n].st.history == trace[m + 1].st.history
    ensures steps[n].Change? && !steps[n].step.Switch?
  {
    hide Flushed, Moved, Compacted, InsertAll, WB.AllFit;
    assert Takes(rank, trace[m], steps[m], trace[m + 1]);
    DeadFrom(rank, trace, steps, m + 1, n);
    assert Takes(rank, trace[n], steps[n], trace[n + 1]);
  }
}
