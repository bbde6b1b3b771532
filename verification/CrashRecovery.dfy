/** Opening a store after a crash (db/db_impl.cc, Recover): the version that the manifest gives, the log of the immutable
    memtable if there was one, and the newest log, each cut off at any byte behind its last sync. What is read afterwards is
    the replay of the writes whose batches are complete; when that is a prefix of the writes is stated exactly. */
module CrashRecovery {
  import opened InternalKeys
  import opened Coding
  import LogWriter
  import LogReader
  import WB = WriteBatch
  import opened Version
  import opened Database
  import opened Recovery
  import opened DurableRuns
  import opened ManifestLink
  import M = Manifest
  import VE = VersionEdit
  import VS = VersionSet

  // ---------------------------------------------------------------- histories of prefixes

  lemma {:induction false} HistoryPrefix(rank: Ranking, after: nat, batches: seq<Logged>, k: nat)
    requires Loggable(after, batches) && k <= |batches|
    ensures Loggable(after, batches[..k]) && HistoryOf(rank, after, batches[..k]) <= HistoryOf(rank, after, batches)
    decreases |batches| - k
  {
    hide HistoryOf, OpsOf;
    LoggablePrefix(after, batches, k);
    if k == |batches| {
      assert batches[..k] == batches;
    } else {
      HistorySnoc(rank, after, batches, k);
      HistoryPrefix(rank, after, batches, k + 1);
    }
  }

  lemma EndsGrow(rank: Ranking, after: nat, batches: seq<Logged>, j: nat, k: nat)
    requires Loggable(after, batches) && j <= k <= |batches|
    ensures after <= EndOf(after, batches[..j]) <= EndOf(after, batches[..k]) <= EndOf(after, batches)
  {
    hide HistoryOf;
    LoggablePrefix(after, batches, k);
    HistoryPrefix(rank, after, batches, k);
    HistoryPrefix(rank, after, batches[..k], j);
    assert batches[..k][..j] == batches[..j];
  }

  /** Batches behind an earlier number: the numbers in between are unused. */
  lemma {:induction false} GapAhead(rank: Ranking, early: nat, late: nat, batches: seq<Logged>)
    requires early <= late && Loggable(late, batches) && batches != []
    ensures Loggable(early, batches) && EndOf(early, batches) == EndOf(late, batches)
    ensures HistoryOf(rank, early, batches) == Gap(late - early) + HistoryOf(rank, late, batches)
    decreases |batches|
  {
    hide HistoryOf, OpsOf, Gap, Loggable, EndOf, WB.AllFit;
    LogsBehindEarlier(early, late, batches);
    var n := |batches| - 1;
    LoggablePrefix(late, batches, n);
    LoggablePrefix(early, batches, n);
    assert batches[..n] + [batches[n]] == batches;
    HistoryMore(rank, early, batches[..n], batches[n]);
    HistoryMore(rank, late, batches[..n], batches[n]);
    var ops, gap := OpsOf(rank, batches[n].updates), batches[n].first - 1 - EndOf(late, batches[..n]);
    if n == 0 {
      NoBatches(rank, early, early, batches);
      NoBatches(rank, late, late, batches);
      GapsJoin(late - early, gap);
      assert [] + (Gap(late - early) + Gap(gap)) + ops == Gap(late - early) + ([] + Gap(gap) + ops);
    } else {
      GapAhead(rank, early, late, batches[..n]);
      var before := HistoryOf(rank, late, batches[..n]);
      assert Gap(late - early) + before + Gap(gap) + ops == Gap(late - early) + (before + Gap(gap) + ops);
    }
  }

  lemma LogsBehindEarlier(early: nat, late: nat, batches: seq<Logged>)
    requires early <= late && Loggable(late, batches)
    ensures Loggable(early, batches) && Records(early, batches) == Records(late, batches)
  {
    forall i | 0 <= i < |batches| ensures FitsBehind(EndOf(early, batches[..i]), batches[i]) {
      assert FitsBehind(EndOf(late, batches[..i]), batches[i]);
    }
  }

  lemma NoBatches(rank: Ranking, e: nat, mid: nat, recent: seq<Logged>)
    ensures Loggable(e, recent[..0]) && HistoryOf(rank, e, recent[..0]) == [] && EndOf(mid, recent[..0]) == mid
  {
  }

  lemma WholePrefix(batches: seq<Logged>)
    ensures batches[..|batches|] == batches
  {
  }

  // ---------------------------------------------------------------- numbered writes

  function At(history: seq<Op>, n: nat): Op {
    if n < |history| then history[n] else Unused
  }

  /** The same writes under the same numbers; unused numbers at the end make no difference. */
  ghost predicate SameWrites(a: seq<Op>, b: seq<Op>) {
    forall n: nat :: At(a, n) == At(b, n)
  }

  /** The first so many numbered writes of a history, and nothing else. */
  ghost predicate IsCut(a: seq<Op>, history: seq<Op>) {
    exists p :: 0 <= p <= |history| && SameWrites(a, history[..p])
  }

  /** Readers cannot tell histories with the same writes apart. */
  lemma SameWritesReadSame(a: seq<Op>, b: seq<Op>)
    requires SameWrites(a, b)
    ensures Store(a, |a|) == Store(b, |b|)
  {
    if |a| <= |b| {
      UnusedAtEnd(a, b);
    } else {
      UnusedAtEnd(b, a);
    }
  }

  lemma UnusedAtEnd(a: seq<Op>, b: seq<Op>)
    requires SameWrites(a, b) && |a| <= |b|
    ensures Store(a, |a|) == Store(b, |b|)
  {
    var n := |b| - |a|;
    forall i | 0 <= i < |b| ensures b[i] == (a + Gap(n))[i] {
      assert At(a, i) == At(b, i);
    }
    assert b == a + Gap(n);
    UnusedChangesNothing(a, n);
  }

  lemma SameCut(a: seq<Op>, b: seq<Op>, history: seq<Op>)
    requires SameWrites(a, b) && IsCut(a, history)
    ensures IsCut(b, history)
  {
    var p :| 0 <= p <= |history| && SameWrites(a, history[..p]);
    forall n: nat ensures At(b, n) == At(history[..p], n) {
      assert At(a, n) == At(b, n) && At(a, n) == At(history[..p], n);
    }
    assert SameWrites(b, history[..p]);
  }

  /** A cut reads as the replay of a prefix. */
  lemma CutReads(a: seq<Op>, history: seq<Op>) returns (p: nat)
    requires IsCut(a, history)
    ensures p <= |history| && Store(a, |a|) == Store(history, p)
  {
    p :| 0 <= p <= |history| && SameWrites(a, history[..p]);
    SameWritesReadSame(a, history[..p]);
    StorePrefix(history[..p], history[p..], p);
    assert history[..p] + history[p..] == history;
  }

  predicate NoUpdates(batches: seq<Logged>) {
    forall b <- batches :: b.updates == []
  }

  ghost predicate AllUnused(ops: seq<Op>) {
    forall op <- ops :: op.Unused?
  }

  /** What batches from the k-th on add is all unused exactly when they have no updates. */
  lemma {:induction false} UpdatesShow(rank: Ranking, after: nat, batches: seq<Logged>, k: nat)
    requires Loggable(after, batches) && k <= |batches| && Loggable(after, batches[..k])
    ensures |HistoryOf(rank, after, batches[..k])| <= |HistoryOf(rank, after, batches)|
    ensures AllUnused(HistoryOf(rank, after, batches)[|HistoryOf(rank, after, batches[..k])|..]) <==> NoUpdates(batches[k..])
    decreases |batches|
  {
    hide HistoryOf, OpsOf, Gap, Loggable, EndOf, AllUnused, NoUpdates;
    HistoryPrefix(rank, after, batches, k);
    if k == |batches| {
      assert batches[..k] == batches;
      NothingLeft(HistoryOf(rank, after, batches), batches);
    } else {
      var n := |batches| - 1;
      HistorySnoc(rank, after, batches, n);
      WholePrefix(batches);
      assert batches[..n][..k] == batches[..k];
      UpdatesShow(rank, after, batches[..n], k);
      var before, g, ops := HistoryOf(rank, after, batches[..n]), batches[n].first - 1 - EndOf(after, batches[..n]), OpsOf(rank, batches[n].updates);
      var m := |HistoryOf(rank, after, batches[..k])|;
      assert (before + Gap(g) + ops)[m..] == before[m..] + Gap(g) + ops;
      UnusedParts(before[m..], Gap(g), ops);
      GapUnused(g);
      OpsUnused(rank, batches[n].updates);
      NoMoreUpdates(batches, k);
    }
  }

  lemma NothingLeft(ops: seq<Op>, batches: seq<Logged>)
    ensures AllUnused(ops[|ops|..]) && NoUpdates(batches[|batches|..])
  {
  }

  lemma NoMoreUpdates(batches: seq<Logged>, k: nat)
    requires k < |batches|
    ensures var n := |batches| - 1;
            NoUpdates(batches[k..]) <==> NoUpdates(batches[..n][k..]) && batches[n].updates == []
  {
    var n := |batches| - 1;
    assert batches[k..] == batches[..n][k..] + [batches[n]];
    if NoUpdates(batches[k..]) {
      forall b | b in batches[..n][k..] ensures b.updates == [] {
        assert b in batches[k..];
      }
      assert batches[n] in batches[k..];
    }
  }

  lemma UnusedParts(a: seq<Op>, b: seq<Op>, c: seq<Op>)
    ensures AllUnused(a + b + c) <==> AllUnused(a) && AllUnused(b) && AllUnused(c)
  {
    var all := a + b + c;
    if AllUnused(all) {
      forall op | op in a || op in b || op in c ensures op.Unused? {
        assert op in all;
      }
    }
  }

  lemma GapUnused(n: nat)
    ensures AllUnused(Gap(n))
  {
  }

  lemma OpsUnused(rank: Ranking, us: seq<WB.Update>)
    ensures AllUnused(OpsOf(rank, us)) <==> us == []
  {
    if us != [] {
      assert OpsOf(rank, us)[0] in OpsOf(rank, us);
    }
  }

  // ---------------------------------------------------------------- the history that a crash leaves

  /** Neither of the two logs is torn. */
  predicate Intact(d: Durable) {
    !d.former.state.Torn? && !d.recent.state.Torn?
  }

  ghost function Filled(rank: Ranking, from: nat, to: nat, batches: seq<Logged>): (ops: seq<Op>)
    requires from <= to && Loggable(from, batches) && EndOf(from, batches) <= to
    ensures |ops| == to - from
  {
    HistoryOf(rank, from, batches) + Gap(to - EndOf(from, batches))
  }

  /** The history with the writes in doubt as if they had gone through. */
  ghost function Attempted(rank: Ranking, d: Durable): (ops: seq<Op>)
    requires Logs(rank, d) && Intact(d)
    ensures |ops| == |d.st.history|
  {
    d.st.history[..d.base] + Filled(rank, d.base, d.mid, d.former.batches)
      + Filled(rank, d.mid, |d.st.history|, d.recent.batches)
  }

  /** It differs from the history only where a failed write left its numbers unused. */
  lemma AttemptedWrites(rank: Ranking, d: Durable)
    requires Logs(rank, d) && Intact(d)
    ensures forall n :: 0 <= n < |d.st.history| ==> Attempted(rank, d)[n] == d.st.history[n] || d.st.history[n].Unused?
    ensures d.former.state.Clean? && d.recent.state.Clean? ==> Attempted(rank, d) == d.st.history
  {
    hide InsertAll, Loggable, EndOf, Filled;
    var h := d.st.history;
    FilledWrites(rank, h, d.base, d.mid, d.former);
    FilledWrites(rank, h, d.mid, |h|, d.recent);
    JoinedWrites(h, d.base, d.mid, Filled(rank, d.base, d.mid, d.former.batches), Filled(rank, d.mid, |h|, d.recent.batches));
  }

  lemma JoinedWrites(h: seq<Op>, base: nat, mid: nat, a: seq<Op>, b: seq<Op>)
    requires base <= mid <= |h| && |a| == mid - base && |b| == |h| - mid
    requires forall n :: 0 <= n < |a| ==> a[n] == h[base + n] || h[base + n].Unused?
    requires forall n :: 0 <= n < |b| ==> b[n] == h[mid + n] || h[mid + n].Unused?
    ensures var all := h[..base] + a + b;
            && |all| == |h| && (forall n :: 0 <= n < |h| ==> all[n] == h[n] || h[n].Unused?)
            && (a == h[base..mid] && b == h[mid..|h|] ==> all == h)
  {
    var all := h[..base] + a + b;
    forall n | 0 <= n < |h| ensures all[n] == h[n] || h[n].Unused? {
      if n >= mid {
        assert all[n] == b[n - mid] && h[mid + (n - mid)] == h[n];
      } else if n >= base {
        assert all[n] == a[n - base] && h[base + (n - base)] == h[n];
      }
    }
    if a == h[base..mid] && b == h[mid..|h|] {
      assert h == h[..base] + h[base..mid] + h[mid..|h|];
    }
  }

  lemma FilledWrites(rank: Ranking, history: seq<Op>, from: nat, to: nat, log: LogFile)
    requires FileSays(rank, history, from, to, log) && !log.state.Torn?
    ensures from <= to <= |history|
    ensures var ops := Filled(rank, from, to, log.batches);
            && (forall n :: 0 <= n < to - from ==> ops[n] == history[from + n] || history[from + n].Unused?)
            && (log.state.Clean? ==> ops == history[from..to])
  {
    hide Loggable, EndOf, HistoryOf;
    if log.state.Doubt? {
      var n := |log.batches| - 1;
      HistoryPrefix(rank, from, log.batches, n);
      var said := HistoryOf(rank, from, log.batches[..n]);
      forall i | 0 <= i < to - from
        ensures Filled(rank, from, to, log.batches)[i] == history[from + i] || history[from + i].Unused?
      {
        assert history[from + i] == history[from..to][i];
      }
    }
  }

  /** What survives when the first `j` batches of the older log and the first `k` of the newer one are complete. */
  ghost function Survivors(rank: Ranking, d: Durable, j: nat, k: nat): seq<Op>
    requires Logs(rank, d) && Intact(d) && j <= |d.former.batches| && k <= |d.recent.batches|
  {
    var all := Attempted(rank, d);
    EndsInside(rank, d, j, k);
    all[..EndOf(d.base, d.former.batches[..j])] + Gap(d.mid - EndOf(d.base, d.former.batches[..j]))
      + all[d.mid..EndOf(d.mid, d.recent.batches[..k])]
  }

  lemma EndsInside(rank: Ranking, d: Durable, j: nat, k: nat)
    requires Logs(rank, d) && Intact(d) && j <= |d.former.batches| && k <= |d.recent.batches|
    ensures d.base <= EndOf(d.base, d.former.batches[..j]) <= d.mid <= EndOf(d.mid, d.recent.batches[..k]) <= |d.st.history|
  {
    hide InsertAll, Loggable, EndOf, HistoryOf;
    EndsGrow(rank, d.base, d.former.batches, j, |d.former.batches|);
    EndsGrow(rank, d.mid, d.recent.batches, k, |d.recent.batches|);
    WholePrefix(d.former.batches);
    WholePrefix(d.recent.batches);
  }

  /** The survivors are a prefix of the numbered writes exactly when no update was lost from the older log, or none was kept
      in the newer one. */
  lemma SurvivorsExact(rank: Ranking, d: Durable, j: nat, k: nat)
    requires Logs(rank, d) && Intact(d) && j <= |d.former.batches| && k <= |d.recent.batches|
    ensures IsCut(Survivors(rank, d, j, k), Attempted(rank, d)) <==>
            NoUpdates(d.former.batches[j..]) || NoUpdates(d.recent.batches[..k])
  {
    hide Logs, EndOf, Attempted, AllUnused, NoUpdates, Gap;
    var all := Attempted(rank, d);
    EndsInside(rank, d, j, k);
    var p, q := EndOf(d.base, d.former.batches[..j]), EndOf(d.mid, d.recent.batches[..k]);
    LostShows(rank, d, j);
    KeptShows(rank, d, k);
    CutExact(all, p, d.mid, q);
  }

  lemma LostShows(rank: Ranking, d: Durable, j: nat)
    requires Logs(rank, d) && Intact(d) && j <= |d.former.batches|
    ensures 0 <= EndOf(d.base, d.former.batches[..j]) <= d.mid
    ensures AllUnused(Attempted(rank, d)[EndOf(d.base, d.former.batches[..j])..d.mid]) <==> NoUpdates(d.former.batches[j..])
  {
    hide InsertAll, Loggable, EndOf, HistoryOf, AllUnused, NoUpdates, LogSays;
    EndsInside(rank, d, j, 0);
    var former := d.former.batches;
    LoggablePrefix(d.base, former, j);
    UpdatesShow(rank, d.base, former, j);
    var said, gap := HistoryOf(rank, d.base, former), Gap(d.mid - EndOf(d.base, former));
    var m := |HistoryOf(rank, d.base, former[..j])|;
    assert Attempted(rank, d)[d.base + m..d.mid] == said[m..] + gap + Gap(0);
    GapUnused(d.mid - EndOf(d.base, former));
    GapUnused(0);
    UnusedParts(said[m..], gap, Gap(0));
  }

  lemma KeptShows(rank: Ranking, d: Durable, k: nat)
    requires Logs(rank, d) && Intact(d) && k <= |d.recent.batches|
    ensures d.mid <= EndOf(d.mid, d.recent.batches[..k]) <= |d.st.history|
    ensures AllUnused(Attempted(rank, d)[d.mid..EndOf(d.mid, d.recent.batches[..k])]) <==> NoUpdates(d.recent.batches[..k])
  {
    hide InsertAll, Loggable, EndOf, HistoryOf, AllUnused, NoUpdates, LogSays;
    EndsInside(rank, d, 0, k);
    var recent := d.recent.batches;
    LoggablePrefix(d.mid, recent, k);
    NoBatches(rank, d.mid, d.mid, recent[..k]);
    UpdatesShow(rank, d.mid, recent[..k], 0);
    HistoryPrefix(rank, d.mid, recent, k);
    var said := HistoryOf(rank, d.mid, recent[..k]);
    assert recent[..k][0..] == recent[..k] && said[0..] == said;
    assert Attempted(rank, d)[d.mid..d.mid + |said|] == said;
  }

  /** Cutting a piece out of a history leaves a prefix exactly when nothing was in the piece or nothing is behind it. */
  lemma CutExact(all: seq<Op>, p: nat, mid: nat, q: nat)
    requires p <= mid <= q <= |all|
    ensures IsCut(all[..p] + Gap(mid - p) + all[mid..q], all) <==> AllUnused(all[p..mid]) || AllUnused(all[mid..q])
  {
    var left := all[..p] + Gap(mid - p) + all[mid..q];
    if AllUnused(all[p..mid]) {
      forall n: nat ensures At(left, n) == At(all[..q], n) {
        assert p <= n < mid ==> all[n] in all[p..mid];
      }
    } else if AllUnused(all[mid..q]) {
      forall n: nat ensures At(left, n) == At(all[..p], n) {
        assert mid <= n < q ==> all[n] in all[mid..q];
      }
    } else {
      var i :| p <= i < mid && all[i].Op?;
      var j :| mid <= j < q && all[j].Op?;
      forall c | 0 <= c <= |all| ensures !SameWrites(left, all[..c]) {
        assert At(left, if c <= j then j else i) != At(all[..c], if c <= j then j else i);
      }
    }
  }

  // ---------------------------------------------------------------- crashes

  /** The file of a log after the machine went down: cut off at any byte behind the last sync. */
  ghost predicate CutOf(crc: LogWriter.Checksum, file: Slice, from: nat, log: LogFile) {
    && Loggable(from, log.batches) && log.synced <= |log.batches|
    && file <= LogWriter.Log(crc, 0, Records(from, log.batches))
    && |LogWriter.Log(crc, 0, Records(from, log.batches)[..log.synced])| <= |file|
  }

  ghost predicate CrashImage(crc: LogWriter.Checksum, d: Durable, formerLog: Slice, recentLog: Slice) {
    CutOf(crc, formerLog, d.base, d.former) && CutOf(crc, recentLog, d.mid, d.recent)
  }

  /** The history that is there after a crash. */
  ghost function Left(crc: LogWriter.Checksum, rank: Ranking, d: Durable, formerLog: Slice, recentLog: Slice): seq<Op>
    requires Logs(rank, d) && Intact(d) && CrashImage(crc, d, formerLog, recentLog)
  {
    Survivors(rank, d, CompleteIn(crc, formerLog, d.base, d.former.batches), CompleteIn(crc, recentLog, d.mid, d.recent.batches))
  }

  /** A log that is whole reads as all of its records. */
  lemma WholeLog(crc: LogWriter.Checksum, from: nat, batches: seq<Logged>)
    requires Loggable(from, batches)
    ensures CompleteIn(crc, LogWriter.Log(crc, 0, Records(from, batches)), from, batches) == |batches|
  {
    hide Loggable;
    var records := Records(from, batches);
    LogReader.CompleteIsLast(crc, 0, records, |LogWriter.Log(crc, 0, records)|, |records|);
    assert records[..|records|] == records;
  }

  /** Batches whose records end within the file are among the complete ones. */
  lemma SyncedIsComplete(crc: LogWriter.Checksum, rank: Ranking, file: Slice, from: nat, log: LogFile)
    requires CutOf(crc, file, from, log)
    ensures log.synced <= CompleteIn(crc, file, from, log.batches)
    ensures EndOf(from, log.batches[..log.synced]) <= EndOf(from, log.batches[..CompleteIn(crc, file, from, log.batches)])
  {
    hide Loggable, EndOf;
    LogReader.CompleteIsLast(crc, 0, Records(from, log.batches), |file|, log.synced);
    EndsGrow(rank, from, log.batches, log.synced, CompleteIn(crc, file, from, log.batches));
  }

  /** A log cut behind its n-th record holds just the first n. */
  lemma CutBehind(crc: LogWriter.Checksum, records: seq<Slice>, n: nat)
    requires n <= |records|
    ensures LogWriter.Log(crc, 0, records[..n]) <= LogWriter.Log(crc, 0, records)
    ensures LogReader.Complete(crc, 0, records, |LogWriter.Log(crc, 0, records[..n])|) == n
  {
    hide LogWriter.Log, LogWriter.Encoded, LogReader.Complete;
    var size := |LogWriter.Log(crc, 0, records[..n])|;
    assert records[..n] + records[n..] == records;
    LogWriter.LogAppend(crc, 0, records[..n], records[n..]);
    LogReader.CompleteIsLast(crc, 0, records, size, n);
    if n < |records| {
      assert records[..n + 1] == records[..n] + [records[n]];
      LogWriter.LogAppend(crc, 0, records[..n], [records[n]]);
      LogWriter.LogOne(crc, size, records[n]);
      LogReader.CompleteIsLast(crc, 0, records, size, n + 1);
    }
  }

  /** A crash may leave the synced batches and no more, or the whole file. */
  lemma ExtremeCuts(crc: LogWriter.Checksum, from: nat, log: LogFile)
    requires Loggable(from, log.batches) && log.synced <= |log.batches|
    ensures var file := LogWriter.Log(crc, 0, Records(from, log.batches)[..log.synced]);
            CutOf(crc, file, from, log) && CompleteIn(crc, file, from, log.batches) == log.synced
    ensures CutOf(crc, LogWriter.Log(crc, 0, Records(from, log.batches)), from, log)
  {
    hide Loggable, LogWriter.Log, LogReader.Complete, Records;
    CutBehind(crc, Records(from, log.batches), log.synced);
  }

  lemma LogsLoggable(rank: Ranking, d: Durable)
    requires Logs(rank, d) && Intact(d)
    ensures Loggable(d.base, d.former.batches) && Loggable(d.mid, d.recent.batches)
    ensures d.former.synced <= |d.former.batches| && d.recent.synced <= |d.recent.batches|
    ensures d.base <= d.mid <= |d.st.history| == d.st.lastSequence
  {
    hide HistoryOf, Loggable, EndOf, InsertAll;
  }

  /** Every crash leaves a prefix of the writes exactly when the older log has no update behind its last sync, or the newer
      one has no update at all. The writer of a full memtable's log does not see to it: the log is closed without a sync. */
  lemma EveryCrashExact(crc: LogWriter.Checksum, rank: Ranking, d: Durable)
    requires Logs(rank, d) && Intact(d)
    ensures d.former.synced <= |d.former.batches|
    ensures (forall formerLog, recentLog :: CrashImage(crc, d, formerLog, recentLog) ==>
               IsCut(Left(crc, rank, d, formerLog, recentLog), Attempted(rank, d)))
            <==> NoUpdates(d.former.batches[d.former.synced..]) || NoUpdates(d.recent.batches)
  {
    hide Logs, Attempted, Survivors, IsCut, LogWriter.Log, Records;
    LogsLoggable(rank, d);
    var former, recent, n := d.former.batches, d.recent.batches, d.former.synced;
    forall formerLog, recentLog | CrashImage(crc, d, formerLog, recentLog)
      ensures NoUpdates(former[n..]) || NoUpdates(recent) ==> IsCut(Left(crc, rank, d, formerLog, recentLog), Attempted(rank, d))
    {
      var j, k := CompleteIn(crc, formerLog, d.base, former), CompleteIn(crc, recentLog, d.mid, recent);
      SyncedIsComplete(crc, rank, formerLog, d.base, d.former);
      SurvivorsExact(rank, d, j, k);
      assert former[j..] == former[n..][j - n..];
    }
    var formerLog, recentLog := LogWriter.Log(crc, 0, Records(d.base, former)[..n]), LogWriter.Log(crc, 0, Records(d.mid, recent));
    ExtremeCuts(crc, d.base, d.former);
    ExtremeCuts(crc, d.mid, d.recent);
    WholeLog(crc, d.mid, recent);
    WholePrefix(recent);
    SurvivorsExact(rank, d, n, |recent|);
    assert CrashImage(crc, d, formerLog, recentLog);
  }

  /** When only the process goes down the files stay whole, and all the writes are there. */
  lemma WholeFilesKeepAll(crc: LogWriter.Checksum, rank: Ranking, d: Durable)
    requires Logs(rank, d) && Intact(d)
    ensures Loggable(d.base, d.former.batches) && Loggable(d.mid, d.recent.batches)
    ensures var formerLog, recentLog :=
              LogWriter.Log(crc, 0, Records(d.base, d.former.batches)), LogWriter.Log(crc, 0, Records(d.mid, d.recent.batches));
            CrashImage(crc, d, formerLog, recentLog) && SameWrites(Left(crc, rank, d, formerLog, recentLog), Attempted(rank, d))
  {
    hide Logs, Attempted, Loggable, EndOf, LogWriter.Log, Records, AllUnused;
    LogsLoggable(rank, d);
    ExtremeCuts(crc, d.base, d.former);
    ExtremeCuts(crc, d.mid, d.recent);
    WholeLog(crc, d.base, d.former.batches);
    WholeLog(crc, d.mid, d.recent.batches);
    EndsInside(rank, d, |d.former.batches|, |d.recent.batches|);
    LostShows(rank, d, |d.former.batches|);
    NothingBehind(rank, d);
    var all, p, q := Attempted(rank, d), EndOf(d.base, d.former.batches[..|d.former.batches|]), EndOf(d.mid, d.recent.batches[..|d.recent.batches|]);
    UnusedCutOut(all, p, d.mid, q);
  }

  lemma UnusedCutOut(all: seq<Op>, p: nat, mid: nat, q: nat)
    requires p <= mid <= q <= |all| && AllUnused(all[p..mid]) && AllUnused(all[q..])
    ensures SameWrites(all[..p] + Gap(mid - p) + all[mid..q], all)
  {
    var left := all[..p] + Gap(mid - p) + all[mid..q];
    forall n: nat ensures At(left, n) == At(all, n) {
      assert p <= n < mid ==> all[n] in all[p..mid];
      assert q <= n < |all| ==> all[n] in all[q..];
    }
  }

  lemma NothingBehind(rank: Ranking, d: Durable)
    requires Logs(rank, d) && Intact(d)
    ensures 0 <= EndOf(d.mid, d.recent.batches[..|d.recent.batches|]) <= |d.st.history|
    ensures AllUnused(Attempted(rank, d)[EndOf(d.mid, d.recent.batches[..|d.recent.batches|])..])
  {
    hide InsertAll, Loggable, EndOf, HistoryOf;
    EndsInside(rank, d, 0, |d.recent.batches|);
    WholePrefix(d.recent.batches);
    var end := EndOf(d.mid, d.recent.batches);
    assert Attempted(rank, d)[end..] == Gap(|d.st.history| - end);
  }

  /** A write that is in a table, or that a sync covered. */
  predicate Synced(d: Durable, n: nat)
    requires d.former.synced <= |d.former.batches| && d.recent.synced <= |d.recent.batches|
  {
    || n < d.base || n < EndOf(d.base, d.former.batches[..d.former.synced])
    || d.mid <= n < EndOf(d.mid, d.recent.batches[..d.recent.synced])
  }

  ghost predicate SyncedKept(d: Durable, history: seq<Op>)
    requires d.former.synced <= |d.former.batches| && d.recent.synced <= |d.recent.batches|
  {
    forall n :: 0 <= n < |d.st.history| && Synced(d, n) && d.st.history[n].Op? ==> At(history, n) == d.st.history[n]
  }

  /** No crash takes a synced write away. */
  lemma SyncedSurvives(crc: LogWriter.Checksum, rank: Ranking, d: Durable, formerLog: Slice, recentLog: Slice)
    requires Logs(rank, d) && Intact(d) && CrashImage(crc, d, formerLog, recentLog)
    ensures SyncedKept(d, Left(crc, rank, d, formerLog, recentLog))
  {
    hide Logs, Attempted, Loggable, LogWriter.Log, Records, EndOf;
    SyncedIsComplete(crc, rank, formerLog, d.base, d.former);
    SyncedIsComplete(crc, rank, recentLog, d.mid, d.recent);
    AttemptedWrites(rank, d);
    EndsInside(rank, d, CompleteIn(crc, formerLog, d.base, d.former.batches), CompleteIn(crc, recentLog, d.mid, d.recent.batches));
  }

  /** The newest writes may survive without earlier ones, though only the older log was not synced: of a put of `a`, the
      switch to a new memtable and a synced put of `b`, a crash can leave just the second, which is no prefix of the writes. */
  lemma OlderLogLost(crc: LogWriter.Checksum, rank: Ranking, a: Slice, b: Slice) returns (trace: seq<Durable>, steps: seq<Step>)
    requires |a| < TWO_32 && |b| < TWO_32 && rank(a) != rank(b)
    ensures IsRun(rank, trace, steps) && GuardedUpTo(trace, steps, |steps|)
    ensures var d := trace[|steps|];
            && DInv(rank, d) && Intact(d) && d.st.history == [Op(rank(a), TypeValue, []), Op(rank(b), TypeValue, [])]
            && d.recent.synced == |d.recent.batches|
            && Loggable(d.mid, d.recent.batches)
            && var recentLog := LogWriter.Log(crc, 0, Records(d.mid, d.recent.batches));
               && CrashImage(crc, d, [], recentLog)
               && var left := Left(crc, rank, d, [], recentLog);
                  forall p :: 0 <= p <= |d.st.history| ==> Store(left, |left|) != Store(d.st.history, p)
  {
    hide DInv, Logs, LogWriter.Log, CutOf, Survivors, FileSays, Inv, InsertAll;
    trace, steps := TwoPuts(rank, a, b);
    RunIsDurable(rank, trace, steps, 3);
    var d := trace[3];
    DurableLogs(rank, d);
    LogsLoggable(rank, d);
    ExtremeCuts(crc, d.base, d.former);
    ExtremeCuts(crc, d.mid, d.recent);
    assert Records(d.base, d.former.batches)[..0] == [];
    assert LogWriter.Log(crc, 0, []) == [] by { NothingIsEmpty(crc); }
    WholeLog(crc, d.mid, d.recent.batches);
    OnlySecond(rank, d, a, b);
  }

  lemma NothingIsEmpty(crc: LogWriter.Checksum)
    ensures LogWriter.Log(crc, 0, []) == []
  {
  }

  lemma DurableLogs(rank: Ranking, d: Durable)
    requires DInv(rank, d)
    ensures Logs(rank, d)
  {
  }

  lemma TwoPuts(rank: Ranking, a: Slice, b: Slice) returns (trace: seq<Durable>, steps: seq<Step>)
    requires |a| < TWO_32 && |b| < TWO_32
    ensures |steps| == 3 && IsRun(rank, trace, steps) && GuardedUpTo(trace, steps, 3)
    ensures var d := trace[3];
            && d.former == LogFile([Logged(1, [WB.Put(a, [])])], 0, Clean) && d.recent == LogFile([Logged(2, [WB.Put(b, [])])], 1, Clean)
            && d.base == 0 && d.mid == 1 && d.st.history == [Op(rank(a), TypeValue, []), Op(rank(b), TypeValue, [])]
  {
    hide InsertAll;
    var first, second := [WB.Put(a, [])], [WB.Put(b, [])];
    steps := [LogWrite(first, false), Change(Runs.Step.Switch), LogWrite(second, true)];
    var d0 := Empty(2);
    var d1 := d0.(st := Written(d0.st, OpsOf(rank, first)), recent := LogFile([Logged(1, first)], 0, Clean));
    var d2 := Durable(Switched(d1.st), 0, 1, d1.recent, NO_LOG, false);
    var d3 := d2.(st := Written(d2.st, OpsOf(rank, second)), recent := LogFile([Logged(2, second)], 1, Clean));
    trace := [d0, d1, d2, d3];
    assert Takes(rank, d0, steps[0], d1);
    assert Takes(rank, d1, steps[1], d2);
    assert Takes(rank, d2, steps[2], d3);
  }

  lemma OnlySecond(rank: Ranking, d: Durable, a: Slice, b: Slice)
    requires Logs(rank, d) && Intact(d) && rank(a) != rank(b)
    requires d.former == LogFile([Logged(1, [WB.Put(a, [])])], 0, Clean) && d.recent == LogFile([Logged(2, [WB.Put(b, [])])], 1, Clean)
    requires d.base == 0 && d.mid == 1 && d.st.history == [Op(rank(a), TypeValue, []), Op(rank(b), TypeValue, [])]
    ensures var left := Survivors(rank, d, 0, 1);
            forall p :: 0 <= p <= 2 ==> Store(left, |left|) != Store(d.st.history, p)
  {
    hide Logs, Attempted, Store;
    AttemptedWrites(rank, d);
    var left, h := Survivors(rank, d, 0, 1), d.st.history;
    assert left == [Unused, h[1]] && h == [h[0], h[1]];
    OneIsNoPrefix(h[0], h[1]);
  }

  lemma OneIsNoPrefix(x: Update, y: Update)
    requires x.kind.TypeValue? && y.kind.TypeValue? && x.user != y.user
    ensures forall p :: 0 <= p <= 2 ==> Store([Unused, y], 2) != Store([x, y], p)
  {
    var left, h := [Unused, y], [x, y];
    assert Store(left, 0) == map[] && Store(left, 1) == map[];
    assert Store(left, 2) == map[y.user := y.value];
    assert Store(h, 0) == map[];
    assert Store(h, 1) == map[x.user := x.value];
    assert Store(h, 2) == map[x.user := x.value, y.user := y.value];
    forall p | 0 <= p <= 2 ensures Store(left, 2) != Store(h, p) {
      assert y.user in Store(left, 2) && x.user !in Store(left, 2);
      assert p == 0 || p == 1 || p == 2;
    }
  }

  // ---------------------------------------------------------------- opening

  /** Replay both logs over the version from the manifest. */
  method Recover(crc: LogWriter.Checksum, rank: Ranking, formerLog: Slice, recentLog: Slice, full: nat -> bool, reuse: bool,
                 tableSize: nat, version: Levels, nextFile: nat, counter: nat, ghost d: Durable)
    returns (mem: seq<Entry>, next: Levels, nextNumber: nat, lastSequence: nat, ghost w: State)
    requires DInv(rank, d) && Intact(d) && version == d.st.version && NumbersUnique(version, nextFile)
    requires d.base <= counter <= d.st.lastSequence && CrashImage(crc, d, formerLog, recentLog)
    ensures Inv(w) && w == State(mem, None, next, [], lastSequence, nextNumber, w.history)
    ensures SameWrites(w.history, Left(crc, rank, d, formerLog, recentLog)) && SyncedKept(d, w.history)
    ensures IsCut(w.history, Attempted(rank, d)) <==>
            || NoUpdates(d.former.batches[CompleteIn(crc, formerLog, d.base, d.former.batches)..])
            || NoUpdates(d.recent.batches[..CompleteIn(crc, recentLog, d.mid, d.recent.batches)])
    ensures forall u :: ReadsAs(All(w), u, lastSequence, ReadStore(w.history, lastSequence, u))
    ensures !reuse ==> DInv(rank, Durable(w, lastSequence, lastSequence, NO_LOG, NO_LOG, false))
  {
    hide Inv, FileSays, Recovered, HistoryOf, Loggable, EndOf, Records, InsertAll, ReadsAs, NumbersUnique, LogReader.Complete, Survivors;
    hide SameWrites, LogWriter.Log, Logs;
    LogsLoggable(rank, d);
    ghost var disk := DiskOf(d).(nextFile := nextFile);
    OtherNumbers(DiskOf(d), nextFile);
    InvBelowMax(d.st);
    var max0, max1;
    ghost var w0, w1;
    mem, next, nextNumber, max0, w0 :=
      ReplayLog(crc, formerLog, rank, full, false, tableSize, version, nextFile, disk, d.former.batches);
    ghost var j := CompleteIn(crc, formerLog, d.base, d.former.batches);
    RecoveredEnd(rank, disk, w0, d.former.batches, j);
    RecoveredFields(disk, w0, HistoryOf(rank, d.base, d.former.batches[..j]));
    EndsInside(rank, d, j, 0);
    LogsBehindEarlier(w0.lastSequence, d.mid, d.recent.batches);
    mem, next, nextNumber, max1, w1 :=
      ReplayLog(crc, recentLog, rank, full, reuse, tableSize, next, nextNumber, w0, d.recent.batches);
    ghost var k := CompleteIn(crc, recentLog, w0.lastSequence, d.recent.batches);
    RecoveredEnd(rank, w0, w1, d.recent.batches, k);
    var maxSequence := if max1 > max0 then max1 else max0;
    lastSequence := if counter < maxSequence then maxSequence else counter;
    w := Padded(rank, disk, w0, w1, d, j, k, lastSequence);
    LeftExactly(crc, rank, d, formerLog, recentLog, w.history);
    if !reuse {
      ReopenedIsDurable(rank, w);
    }
  }

  lemma LeftExactly(crc: LogWriter.Checksum, rank: Ranking, d: Durable, formerLog: Slice, recentLog: Slice, history: seq<Op>)
    requires Logs(rank, d) && Intact(d) && CrashImage(crc, d, formerLog, recentLog)
    requires SameWrites(history, Left(crc, rank, d, formerLog, recentLog))
    ensures Loggable(d.base, d.former.batches) && Loggable(d.mid, d.recent.batches)
    ensures d.former.synced <= |d.former.batches| && d.recent.synced <= |d.recent.batches|
    ensures SyncedKept(d, history)
    ensures IsCut(history, Attempted(rank, d)) <==>
            || NoUpdates(d.former.batches[CompleteIn(crc, formerLog, d.base, d.former.batches)..])
            || NoUpdates(d.recent.batches[..CompleteIn(crc, recentLog, d.mid, d.recent.batches)])
  {
    hide Logs, Attempted, Loggable, EndOf, IsCut, LogWriter.Log, Records, NoUpdates, Survivors;
    var left := Left(crc, rank, d, formerLog, recentLog);
    SyncedSurvives(crc, rank, d, formerLog, recentLog);
    SurvivorsExact(rank, d, CompleteIn(crc, formerLog, d.base, d.former.batches), CompleteIn(crc, recentLog, d.mid, d.recent.batches));
    if IsCut(history, Attempted(rank, d)) {
      SameCut(history, left, Attempted(rank, d));
    } else if IsCut(left, Attempted(rank, d)) {
      SameCut(left, history, Attempted(rank, d));
    }
    forall n | 0 <= n < |d.st.history| && Synced(d, n) && d.st.history[n].Op? ensures At(history, n) == d.st.history[n] {
      assert At(history, n) == At(left, n);
    }
  }

  lemma RecoveredFields(st: State, w: State, ops: seq<Op>)
    requires Recovered(st, w, ops)
    ensures Inv(w) && w.imm == st.imm && w.snapshots == st.snapshots
  {
    hide Inv;
  }

  /** With all writes in tables the store starts over with two empty logs. */
  lemma ReopenedIsDurable(rank: Ranking, w: State)
    requires Inv(w) && w.mem == [] && w.imm.None? && w.snapshots == []
    ensures DInv(rank, Durable(w, w.lastSequence, w.lastSequence, NO_LOG, NO_LOG, false))
  {
    hide Inv, FileSays;
    InvBelowMax(w);
    var n := w.lastSequence;
    NoFile(rank, w.history, n);
    assert w.history[n..] == [] && w.history[..n] == w.history;
    assert DiskOf(Durable(w, n, n, NO_LOG, NO_LOG, false)) == w;
  }

  /** The store at the final sequence number, and the writes in it. */
  lemma Padded(rank: Ranking, disk: State, w0: State, w1: State, d: Durable, j: nat, k: nat, last: nat) returns (w: State)
    requires Logs(rank, d) && Intact(d) && disk == DiskOf(d).(nextFile := disk.nextFile)
    requires j <= |d.former.batches| && k <= |d.recent.batches|
    requires Loggable(d.base, d.former.batches[..j]) && Recovered(disk, w0, HistoryOf(rank, d.base, d.former.batches[..j]))
    requires Loggable(w0.lastSequence, d.recent.batches[..k])
    requires Recovered(w0, w1, HistoryOf(rank, w0.lastSequence, d.recent.batches[..k]))
    requires w1.lastSequence <= last < MAX_SEQUENCE
    ensures Inv(w) && w == State(w1.mem, None, w1.version, [], last, w1.nextFile, w.history)
    ensures SameWrites(w.history, Survivors(rank, d, j, k))
    ensures forall u :: ReadsAs(All(w), u, last, ReadStore(w.history, last, u))
  {
    hide Inv, FileSays, HistoryOf, Loggable, EndOf, InsertAll, ReadsAs, SameWrites, Survivors;
    var late := HistoryOf(rank, w0.lastSequence, d.recent.batches[..k]);
    RecoveredPadded(w0, w1, late, last);
    w := w0.(mem := w1.mem, version := w1.version, nextFile := w1.nextFile, lastSequence := last,
             history := w0.history + (late + Gap(last - w1.lastSequence)));
    RecoveredSurvivors(rank, d, j, k, last - w1.lastSequence);
    assert w.history == d.st.history[..d.base] + HistoryOf(rank, d.base, d.former.batches[..j]) + late + Gap(last - w1.lastSequence);
    forall u ensures ReadsAs(All(w), u, last, ReadStore(w.history, last, u)) {
      LastReads(w, u);
    }
  }

  lemma LastReads(w: State, u: UserKey)
    requires Inv(w) && w.snapshots == []
    ensures w.lastSequence == |w.history|
    ensures ReadsAs(All(w), u, w.lastSequence, ReadStore(w.history, w.lastSequence, u))
  {
    assert ReadsAs(All(w), u, w.lastSequence, ReadStore(w.history, w.lastSequence, u));
  }

  /** What replaying the complete batches of both logs makes are the survivors. */
  lemma RecoveredSurvivors(rank: Ranking, d: Durable, j: nat, k: nat, pad: nat)
    requires Logs(rank, d) && Intact(d) && j <= |d.former.batches| && k <= |d.recent.batches|
    ensures Loggable(d.base, d.former.batches[..j])
    ensures var e := EndOf(d.base, d.former.batches[..j]);
            && e >= 0 && Loggable(e, d.recent.batches[..k])
            && SameWrites(d.st.history[..d.base] + HistoryOf(rank, d.base, d.former.batches[..j])
                            + HistoryOf(rank, e, d.recent.batches[..k]) + Gap(pad),
                          Survivors(rank, d, j, k))
  {
    hide InsertAll, Loggable, EndOf, HistoryOf, FileSays, SameWrites;
    LogsLoggable(rank, d);
    EndsInside(rank, d, j, k);
    var former, recent := d.former.batches, d.recent.batches;
    HistoryPrefix(rank, d.base, former, j);
    HistoryPrefix(rank, d.mid, recent, k);
    var e := EndOf(d.base, former[..j]);
    LogsBehindEarlier(e, d.mid, recent[..k]);
    var early, late := d.st.history[..d.base] + HistoryOf(rank, d.base, former[..j]), HistoryOf(rank, d.mid, recent[..k]);
    AttemptedParts(rank, d, j, k);
    if k == 0 {
      NoBatches(rank, e, d.mid, recent);
      NoBatches(rank, d.mid, d.mid, recent);
      GapEnds(early, pad, d.mid - e);
      assert early + [] + Gap(pad) == early + Gap(pad);
      assert early + Gap(d.mid - e) + [] == early + Gap(d.mid - e);
    } else {
      GapAhead(rank, e, d.mid, recent[..k]);
      var all := early + Gap(d.mid - e) + late;
      assert early + (Gap(d.mid - e) + late) == all;
      GapEnds(all, pad, 0);
      assert all + Gap(0) == all;
    }
  }

  lemma GapEnds(a: seq<Op>, m: nat, n: nat)
    ensures SameWrites(a + Gap(m), a + Gap(n))
  {
  }

  /** The survivors in terms of the complete batches. */
  lemma AttemptedParts(rank: Ranking, d: Durable, j: nat, k: nat)
    requires Logs(rank, d) && Intact(d) && j <= |d.former.batches| && k <= |d.recent.batches|
    ensures Loggable(d.base, d.former.batches[..j]) && Loggable(d.mid, d.recent.batches[..k])
    ensures EndOf(d.base, d.former.batches[..j]) <= d.mid
    ensures Survivors(rank, d, j, k) ==
            d.st.history[..d.base] + HistoryOf(rank, d.base, d.former.batches[..j])
              + Gap(d.mid - EndOf(d.base, d.former.batches[..j])) + HistoryOf(rank, d.mid, d.recent.batches[..k])
  {
    hide InsertAll, Loggable, EndOf, HistoryOf, LogSays, Gap;
    LogsLoggable(rank, d);
    EndsInside(rank, d, j, k);
    HistoryPrefix(rank, d.base, d.former.batches, j);
    HistoryPrefix(rank, d.mid, d.recent.batches, k);
    var all := Attempted(rank, d);
    var early, late := d.st.history[..d.base] + HistoryOf(rank, d.base, d.former.batches[..j]), HistoryOf(rank, d.mid, d.recent.batches[..k]);
    assert all[..|early|] == early;
    assert all[d.mid..d.mid + |late|] == late;
  }

  /** The whole of it: manifest, tables and logs as a crash left them at any point of a run, with the manifest's last record
      torn and both logs cut. The writes with complete batches are there under their numbers, the synced ones among them,
      and reads are their replay. They are a prefix of all the writes exactly when the older log lost no update, or the newer
      one kept none. */
  method OpenAfterCrash(v: VS.VersionSet, manifest: Slice, rank: Ranking, formerLog: Slice, recentLog: Slice,
                        full: nat -> bool, reuse: bool, tableSize: nat,
                        ghost torn: Slice, ghost f: VE.Fields, ghost d: Durable)
    returns (mem: seq<Entry>, next: Levels, nextNumber: nat, lastSequence: nat, ghost w: State)
    requires Linked(v, d) && DInv(rank, d) && Intact(d) && M.Encodes(torn, f)
    requires v.descriptorLog.dest <= manifest < v.descriptorLog.dest + LogWriter.Encoded(v.crc, |v.descriptorLog.dest|, torn, true)
    requires CrashImage(v.crc, d, formerLog, recentLog)
    ensures Inv(w) && w == State(mem, None, next, [], lastSequence, nextNumber, w.history)
    ensures SameWrites(w.history, Left(v.crc, rank, d, formerLog, recentLog)) && SyncedKept(d, w.history)
    ensures IsCut(w.history, Attempted(rank, d)) <==>
            || NoUpdates(d.former.batches[CompleteIn(v.crc, formerLog, d.base, d.former.batches)..])
            || NoUpdates(d.recent.batches[..CompleteIn(v.crc, recentLog, d.mid, d.recent.batches)])
    ensures forall u :: ReadsAs(All(w), u, lastSequence, ReadStore(w.history, lastSequence, u))
    ensures !reuse ==> DInv(rank, Durable(w, lastSequence, lastSequence, NO_LOG, NO_LOG, false))
  {
    hide DInv, LogWriter.Log, LogWriter.Encoded, EndOf, ReadsAs, M.Encodes, NumbersUnique, M.MatchesEdits, Inv, Survivors, CutOf, FilesSink;
    hide Attempted, IsCut, SameWrites, SyncedKept, NoUpdates, VS.Describes;
    var r := VS.Reopen(v, manifest, torn, f);
    mem, next, nextNumber, lastSequence, w :=
      Recover(v.crc, rank, formerLog, recentLog, full, reuse, tableSize, r.value.version, r.value.nextFile, r.value.lastSequence, d);
  }
}
