/** The skip list with one writer and any number of readers at once (db/skiplist.h): each load and store of a link is one
    step, and the steps of the writer and the readers interleave in any way. */
module SkipListReaders {
  import opened InternalKeys
  import opened SkipList

  /** The writer between the steps of an insertion: it links on `level` next, and `ready` tells that the new node's
      own link on that level is set. */
  datatype Writer = Idle | Inserting(key: Key, height: nat, prev: seq<Node>, level: nat, ready: bool)

  /** What a reader looks for: the first key from a given one on, the last one before it, or the last key of all. */
  datatype Query = FromKey(key: Key) | LessThan(key: Key) | LastKey

  /** The search goes on past this key. */
  predicate Passes(q: Query, k: Key) { q.LastKey? || k < q.key }

  function Answer(list: seq<Key>, q: Query): Option<Key> {
    match q
    case FromKey(key) => AtOrAfter(list, key)
    case LessThan(key) => Before(list, key)
    case LastKey => NodeAt(list, |list|)
  }

  /** A search in progress, or finished; `began` is the set of keys in the list when it started. */
  datatype Reader =
    | Searching(query: Query, node: Node, level: nat, began: set<Key>)
    | Finished(query: Query, result: Option<Key>, began: set<Key>)

  /** `lists` names the keys linked on each level. */
  datatype System = System(mem: Memory, lists: seq<seq<Key>>, writer: Writer, readers: seq<Reader>)

  datatype Step =
    | Begin(key: Key, height: nat)
    | Raise
    | Prepare
    | Publish
    | Start(query: Query)
    | Turn(reader: nat)

  function Predecessors(lists: seq<seq<Key>>, key: Key): (prev: seq<Node>)
    ensures |prev| == |lists| && forall i :: 0 <= i < |prev| ==> prev[i] == Before(lists[i], key)
  {
    seq(|lists|, i requires 0 <= i < |lists| => Before(lists[i], key))
  }

  ghost predicate Takes(s: System, step: Step, w: System) {
    match step
    // Find the predecessors; only the writer changes links, so they stay valid.
    case Begin(key, height) =>
      && s.writer.Idle? && |s.lists| == MAX_HEIGHT && key !in s.lists[0] && 1 <= height <= MAX_HEIGHT
      && w == s.(writer := Inserting(key, height, Predecessors(s.lists, key), 0, false))
    case Raise =>
      && s.writer.Inserting? && s.writer.height > s.mem.maxHeight
      && w == s.(mem := s.mem.(maxHeight := s.writer.height))
    case Prepare =>
      && s.writer.Inserting? && !s.writer.ready && s.writer.height <= s.mem.maxHeight
      && s.writer.level < |s.writer.prev|
      && (s.writer.prev[s.writer.level], s.writer.level) in s.mem.next
      && w == s.(mem := Prepared(s.mem, s.writer.key, s.writer.level, s.writer.prev[s.writer.level]),
                 writer := s.writer.(ready := true))
    case Publish =>
      && s.writer.Inserting? && s.writer.ready && s.writer.level < |s.writer.prev| && s.writer.level < |s.lists|
      && var i := s.writer.level;
         w == s.(mem := Published(s.mem, s.writer.key, i, s.writer.prev[i]),
                 lists := s.lists[i := WithKey(s.lists[i], s.writer.key)],
                 writer := if i + 1 == s.writer.height then Idle else s.writer.(level := i + 1, ready := false))
    // A reader loads the current height, which may be out of date later.
    case Start(query) =>
      && s.mem.maxHeight > 0 && s.lists != []
      && w == s.(readers := s.readers + [Searching(query, None, s.mem.maxHeight - 1, Elements(s.lists[0]))])
    case Turn(r) =>
      && r < |s.readers| && s.readers[r].Searching?
      && (s.readers[r].node, s.readers[r].level) in s.mem.next
      && w == s.(readers := s.readers[r := AfterLoad(s.readers[r], s.mem.next[(s.readers[r].node, s.readers[r].level)])])
  }

  /** What a search does with the link it has loaded. */
  function AfterLoad(r: Reader, next: Option<Key>): Reader
    requires r.Searching?
  {
    if next.Some? && Passes(r.query, next.value) then r.(node := next)
    else if r.level == 0 then Finished(r.query, if r.query.FromKey? then next else r.node, r.began)
    else r.(level := r.level - 1)
  }

  ghost predicate WriterGoes(s: System) {
    s.writer.Inserting? && |s.lists| == MAX_HEIGHT ==>
      var w := s.writer;
      && |w.prev| == MAX_HEIGHT && w.level < w.height <= MAX_HEIGHT
      && (w.level > 0 || w.ready ==> w.height <= s.mem.maxHeight)
      && (w.level > 0 ==> w.key in s.lists[w.level - 1])
      && (forall i :: w.level <= i < MAX_HEIGHT ==> w.key !in s.lists[i] && w.prev[i] == Before(s.lists[i], w.key))
      && (w.ready ==> (Some(w.key), w.level) in s.mem.next &&
                      s.mem.next[(Some(w.key), w.level)] == AtOrAfter(s.lists[w.level], w.key))
  }

  /** A result that misses no key which was there when the search began. */
  ghost predicate Lands(list: seq<Key>, q: Query, began: set<Key>, result: Option<Key>) {
    && (result.Some? ==> result.value in list && (Passes(q, result.value) <==> !q.FromKey?))
    && (forall k <- began :: q.FromKey? && !Passes(q, k) ==> result.Some? && result.value <= k)
    && (forall k <- began :: !q.FromKey? && Passes(q, k) ==> result.Some? && k <= result.value)
  }

  /** The head, or a node that the search has passed. */
  ghost predicate Stands(list: seq<Key>, node: Node, q: Query) {
    node.Some? ==> node.value in list && Passes(q, node.value)
  }

  ghost predicate ReaderGoes(lists: seq<seq<Key>>, r: Reader) {
    && |lists| == MAX_HEIGHT && r.began <= Elements(lists[0])
    && match r
       case Searching(query, node, level, _) => level < MAX_HEIGHT && Stands(lists[level], node, query)
       case Finished(query, result, began) => Lands(lists[0], query, began, result)
  }

  ghost predicate Inv(s: System) {
    && Shape(s.mem, s.lists)
    && WriterGoes(s)
    && forall r <- s.readers :: ReaderGoes(s.lists, r)
  }

  ghost predicate IsEmpty(s: System) {
    && Shape(s.mem, s.lists) && s.mem.maxHeight == 1 && s.lists[0] == []
    && s.writer.Idle? && s.readers == []
  }

  /** Growing a level does not disturb a search. */
  lemma ReaderSurvives(lists: seq<seq<Key>>, level: nat, key: Key, r: Reader)
    requires level < |lists| == MAX_HEIGHT && Ascending(lists[level]) && key !in lists[level] && ReaderGoes(lists, r)
    ensures ReaderGoes(lists[level := WithKey(lists[level], key)], r)
  {
    hide WithKey;
    var list, more := lists[level], WithKey(lists[level], key);
    WithKeyHolds(list, key);
    forall k | k in list ensures k in more {
      assert k in Elements(list);
    }
  }

  /** One turn of a search: it goes on to the next node to be passed, or it stands where the answer is. */
  lemma QueryTurn(mem: Memory, level: nat, list: seq<Key>, node: Node, q: Query)
    requires Chain(mem, level, list) && Stands(list, node, q)
    ensures (node, level) in mem.next
    ensures var next := mem.next[(node, level)];
            if next.Some? && Passes(q, next.value) then Stands(list, next, q)
            else Answer(list, q) == if q.FromKey? then next else node
  {
    if q.LastKey? {
      var j := IndexOf(list, node);
      assert mem.next[(NodeAt(list, j), level)] == KeyAt(list, j);
    } else {
      SearchTurn(mem, level, list, node, q.key);
    }
  }

  /** A turn of a search that ends returns the answer in the list as it is at that moment. */
  lemma TurnGoes(s: System, r: nat)
    requires Inv(s) && r < |s.readers| && s.readers[r].Searching?
    ensures var q := s.readers[r];
            && (q.node, q.level) in s.mem.next
            && var after := AfterLoad(q, s.mem.next[(q.node, q.level)]);
               && ReaderGoes(s.lists, after)
               && (after.Finished? ==> after.result == Answer(s.lists[0], q.query))
  {
    var q := s.readers[r];
    assert q in s.readers;
    assert ReaderGoes(s.lists, q);
    QueryTurn(s.mem, q.level, s.lists[q.level], q.node, q.query);
    var next := s.mem.next[(q.node, q.level)];
    if !(next.Some? && Passes(q.query, next.value)) {
      if q.level == 0 {
        AnswerLands(s.lists[0], q.query, q.began);
      } else {
        assert q.node.Some? ==> q.node.value in Elements(s.lists[q.level]);
      }
    }
  }

  lemma AnswerLands(list: seq<Key>, q: Query, began: set<Key>)
    requires Ascending(list) && began <= Elements(list)
    ensures Lands(list, q, began, Answer(list, q))
  {
    var p := if q.LastKey? then |list| else Position(list, q.key);
    forall k | k in began ensures if Passes(q, k) then p > 0 && k <= list[p - 1] else p < |list| && list[p] <= k {
      assert k in Elements(list);
      var j :| 0 <= j < |list| && list[j] == k;
      if !q.LastKey? {
        PositionSplits(list, q.key, j);
      }
      assert p < j ==> list[p] < list[j];
      assert j < p - 1 ==> list[j] < list[p - 1];
    }
  }

  lemma StartGoes(s: System, query: Query)
    requires Inv(s)
    ensures ReaderGoes(s.lists, Searching(query, None, s.mem.maxHeight - 1, Elements(s.lists[0])))
  {
  }

  /** Every step of the writer or of a reader keeps the invariant. */
  lemma StepKeepsInv(s: System, step: Step, w: System)
    requires Inv(s) && Takes(s, step, w)
    ensures Inv(w)
  {
    match step
    case Begin(key, height) => NotAbove(s.lists, key, 0);
    case Raise =>
      ShapeSorted(s.mem, s.lists);
    case Prepare =>
      PrepareKeepsShape(s.mem, s.lists, s.writer.key, s.writer.level);
    case Publish => PublishKeepsInv(s, w);
    case Start(query) => StartGoes(s, query);
    case Turn(r) => TurnGoes(s, r);
  }

  lemma PublishKeepsInv(s: System, w: System)
    requires Inv(s) && Takes(s, Publish, w)
    ensures Inv(w)
  {
    hide WithKey;
    var i, key := s.writer.level, s.writer.key;
    PublishKeepsShape(s.mem, s.lists, key, i);
    ShapeSorted(s.mem, s.lists);
    WithKeyHolds(s.lists[i], key);
    assert key in Elements(w.lists[i]);
    forall r | r in s.readers ensures ReaderGoes(w.lists, r) {
      ReaderSurvives(s.lists, i, key, r);
    }
  }

  ghost predicate IsRun(trace: seq<System>, steps: seq<Step>) {
    && |trace| == |steps| + 1
    && IsEmpty(trace[0])
    && forall i :: 0 <= i < |steps| ==> Takes(trace[i], steps[i], trace[i + 1])
  }

  lemma {:induction false} RunKeepsInv(trace: seq<System>, steps: seq<Step>, n: nat)
    requires IsRun(trace, steps) && n <= |steps|
    ensures Inv(trace[n])
  {
    if n > 0 {
      RunKeepsInv(trace, steps, n - 1);
      StepKeepsInv(trace[n - 1], steps[n - 1], trace[n]);
    }
  }

  /** At every point of every run each level is one sorted list and a part of the level below. */
  lemma LevelsAreSublists(trace: seq<System>, steps: seq<Step>, n: nat, i: nat)
    requires IsRun(trace, steps) && n <= |steps| && i < MAX_HEIGHT
    ensures |trace[n].lists| == MAX_HEIGHT && Chain(trace[n].mem, i, trace[n].lists[i])
    ensures i + 1 < MAX_HEIGHT ==> Elements(trace[n].lists[i + 1]) <= Elements(trace[n].lists[i])
  {
    RunKeepsInv(trace, steps, n);
  }

  /** A key that is in a level stays there. */
  lemma {:induction false} KeysStay(trace: seq<System>, steps: seq<Step>, m: nat, n: nat, i: nat)
    requires IsRun(trace, steps) && m <= n <= |steps| && i < MAX_HEIGHT
    ensures |trace[m].lists| == MAX_HEIGHT && |trace[n].lists| == MAX_HEIGHT
    ensures Elements(trace[m].lists[i]) <= Elements(trace[n].lists[i])
  {
    RunKeepsInv(trace, steps, n);
    if m < n {
      KeysStay(trace, steps, m, n - 1, i);
      RunKeepsInv(trace, steps, n - 1);
      KeysStayOnce(trace[n - 1], steps[n - 1], trace[n]);
    }
  }

  lemma KeysStayOnce(s: System, step: Step, w: System)
    requires Inv(s) && Takes(s, step, w)
    ensures |w.lists| == MAX_HEIGHT && forall i :: 0 <= i < MAX_HEIGHT ==> Elements(s.lists[i]) <= Elements(w.lists[i])
  {
    hide WithKey;
    if step.Publish? {
      ShapeSorted(s.mem, s.lists);
      WithKeyHolds(s.lists[s.writer.level], s.writer.key);
    }
  }

  // ---------------------------------------------------------------- what an insertion does

  /** The insertion that found the levels as `was` is under way: it has linked the key into the levels below its own. */
  ghost predicate Underway(s: System, was: seq<seq<Key>>, key: Key, height: nat) {
    s.writer.Inserting? && s.writer.key == key && s.writer.height == height && Linking(was, s.lists, key, s.writer.level)
  }

  lemma BeginGoes(s: System, key: Key, height: nat, w: System)
    requires Inv(s) && Takes(s, Begin(key, height), w)
    ensures Underway(w, s.lists, key, height)
  {
    NotAbove(s.lists, key, 0);
    ShapeSorted(s.mem, s.lists);
  }

  lemma InsertionGoes(s: System, step: Step, w: System, was: seq<seq<Key>>, key: Key, height: nat)
    requires Inv(s) && Takes(s, step, w) && Underway(s, was, key, height)
    ensures if w.writer.Idle? then Linking(was, w.lists, key, height) else Underway(w, was, key, height)
  {
    hide WithKey, Shape;
    if step.Publish? {
      LinkOne(was, s.lists, key, s.writer.level);
    }
  }

  lemma {:induction false} UnderwayUntil(trace: seq<System>, steps: seq<Step>, m: nat, n: nat)
    requires IsRun(trace, steps) && m < n <= |steps| && steps[m].Begin? && forall k :: m < k <= n ==> trace[k].writer.Inserting?
    ensures Underway(trace[n], trace[m].lists, steps[m].key, steps[m].height)
    decreases n
  {
    hide Takes, Underway, Inv;
    RunKeepsInv(trace, steps, n - 1);
    assert Takes(trace[n - 1], steps[n - 1], trace[n]);
    if n == m + 1 {
      BeginGoes(trace[m], steps[m].key, steps[m].height, trace[n]);
    } else {
      UnderwayUntil(trace, steps, m, n - 1);
      InsertionGoes(trace[n - 1], steps[n - 1], trace[n], trace[m].lists, steps[m].key, steps[m].height);
    }
  }

  /** An insertion, with whatever readers do meanwhile, puts its key in its place on each level below its height, and
      changes nothing else. */
  lemma InsertionInserts(trace: seq<System>, steps: seq<Step>, m: nat, n: nat)
    requires IsRun(trace, steps) && m < n <= |steps| && steps[m].Begin?
    requires trace[n].writer.Idle? && forall k :: m < k < n ==> trace[k].writer.Inserting?
    ensures |trace[m].lists| == |trace[n].lists| == MAX_HEIGHT
    ensures forall i :: 0 <= i < MAX_HEIGHT ==>
              trace[n].lists[i] == if i < steps[m].height then WithKey(trace[m].lists[i], steps[m].key) else trace[m].lists[i]
  {
    hide Takes, Underway, WithKey, Inv;
    RunKeepsInv(trace, steps, n - 1);
    assert Takes(trace[n - 1], steps[n - 1], trace[n]);
    assert Takes(trace[m], steps[m], trace[m + 1]);
    BeginInserts(trace[m], steps[m].key, steps[m].height, trace[m + 1]);
    UnderwayUntil(trace, steps, m, n - 1);
    InsertionGoes(trace[n - 1], steps[n - 1], trace[n], trace[m].lists, steps[m].key, steps[m].height);
  }

  lemma BeginInserts(s: System, key: Key, height: nat, w: System)
    requires Takes(s, Begin(key, height), w)
    ensures w.writer.Inserting? && 1 <= height <= MAX_HEIGHT
  {
  }

  /** The key is in the levels below the height and in no other, and nothing is going to change that. */
  ghost predicate Stored(s: System, key: Key, height: nat) {
    && |s.lists| == MAX_HEIGHT && 1 <= height <= MAX_HEIGHT && (s.writer.Inserting? ==> s.writer.key != key)
    && forall i :: 0 <= i < MAX_HEIGHT ==> (key in s.lists[i] <==> i < height)
  }

  lemma LinkedIsStored(s: System, was: seq<seq<Key>>, key: Key, height: nat)
    requires s.writer.Idle? && 1 <= height <= MAX_HEIGHT && Linking(was, s.lists, key, height)
    ensures Stored(s, key, height)
  {
    hide WithKey;
    forall i | 0 <= i < MAX_HEIGHT ensures key in s.lists[i] <==> i < height {
      if i < height {
        WithKeyHolds(was[i], key);
        assert key in Elements(s.lists[i]);
      }
    }
  }

  lemma StoredStays(s: System, step: Step, w: System, key: Key, height: nat)
    requires Inv(s) && Takes(s, step, w) && Stored(s, key, height)
    ensures Stored(w, key, height)
  {
    hide WithKey;
    if step.Publish? {
      ShapeSorted(s.mem, s.lists);
      WithKeyHolds(s.lists[s.writer.level], s.writer.key);
      assert key in Elements(w.lists[s.writer.level]) <==> key in Elements(s.lists[s.writer.level]);
    }
  }

  lemma {:induction false} StoredAfter(trace: seq<System>, steps: seq<Step>, m: nat, n: nat)
    requires IsRun(trace, steps) && m < n <= |steps| && steps[m].Begin?
    ensures Stored(trace[n], steps[m].key, steps[m].height) || Underway(trace[n], trace[m].lists, steps[m].key, steps[m].height)
    decreases n
  {
    hide Takes, Underway, Inv, Stored, Linking;
    var key, height := steps[m].key, steps[m].height;
    RunKeepsInv(trace, steps, n - 1);
    assert Takes(trace[n - 1], steps[n - 1], trace[n]);
    if n == m + 1 {
      BeginGoes(trace[m], key, height, trace[n]);
    } else {
      StoredAfter(trace, steps, m, n - 1);
      if Stored(trace[n - 1], key, height) {
        StoredStays(trace[n - 1], steps[n - 1], trace[n], key, height);
      } else {
        assert Takes(trace[m], steps[m], trace[m + 1]);
        BeginInserts(trace[m], key, height, trace[m + 1]);
        InsertionGoes(trace[n - 1], steps[n - 1], trace[n], trace[m].lists, key, height);
        if trace[n].writer.Idle? {
          LinkedIsStored(trace[n], trace[m].lists, key, height);
        }
      }
    }
  }

  /** Once the writer is idle again, the key is in the levels below its height, and in no other, ever after. */
  lemma {:induction false} InsertedForGood(trace: seq<System>, steps: seq<Step>, m: nat, n: nat, p: nat)
    requires IsRun(trace, steps) && m < n <= p <= |steps| && steps[m].Begin? && trace[n].writer.Idle?
    ensures |trace[p].lists| == MAX_HEIGHT
    ensures forall i :: 0 <= i < MAX_HEIGHT ==> (steps[m].key in trace[p].lists[i] <==> i < steps[m].height)
    ensures Stored(trace[p], steps[m].key, steps[m].height)
    decreases p
  {
    hide Takes, Inv;
    if n == p {
      StoredAfter(trace, steps, m, n);
    } else {
      InsertedForGood(trace, steps, m, n, p - 1);
      RunKeepsInv(trace, steps, p - 1);
      assert Takes(trace[p - 1], steps[p - 1], trace[p]);
      StoredStays(trace[p - 1], steps[p - 1], trace[p], steps[m].key, steps[m].height);
    }
  }

  lemma {:induction false} ReaderKept(trace: seq<System>, steps: seq<Step>, a: nat, b: nat, r: nat)
    requires IsRun(trace, steps) && a <= b <= |steps| && r < |trace[a].readers|
    ensures r < |trace[b].readers| && trace[b].readers[r].query == trace[a].readers[r].query
    ensures trace[b].readers[r].began == trace[a].readers[r].began
    decreases b
  {
    if a < b {
      ReaderKept(trace, steps, a, b - 1, r);
      assert Takes(trace[b - 1], steps[b - 1], trace[b]);
    }
  }

  /** A search for an inserted key that starts when its insertion is done finds it. */
  lemma InsertedIsFound(trace: seq<System>, steps: seq<Step>, m: nat, n: nat, q: nat, p: nat, r: nat)
    requires IsRun(trace, steps) && m < n <= q < p <= |steps| && steps[m].Begin? && trace[n].writer.Idle?
    requires steps[q] == Start(FromKey(steps[m].key)) && r == |trace[q].readers|
    ensures r < |trace[p].readers| && (trace[p].readers[r].Finished? ==> trace[p].readers[r].result == Some(steps[m].key))
  {
    hide Inv;
    var key := steps[m].key;
    InsertedForGood(trace, steps, m, n, q);
    assert Takes(trace[q], steps[q], trace[q + 1]);
    assert key in trace[q].lists[0];
    ReaderKept(trace, steps, q + 1, p, r);
    if trace[p].readers[r].Finished? {
      SearchMissesNothing(trace, steps, p, r);
      assert key in trace[p].readers[r].began;
    }
  }

  // ---------------------------------------------------------------- progress

  /** How far a search still has to go on its level. */
  ghost function ToGo(s: System, r: Reader): nat
    requires r.Searching? && ReaderGoes(s.lists, r)
  {
    |s.lists[r.level]| - IndexOf(s.lists[r.level], r.node)
  }

  /** Every turn brings a search nearer to its end: it finishes, goes down a level, or has less to go on its own. */
  lemma TurnProgresses(s: System, r: nat)
    requires Inv(s) && r < |s.readers| && s.readers[r].Searching?
    ensures var q := s.readers[r];
            && ReaderGoes(s.lists, q) && (q.node, q.level) in s.mem.next
            && var after := AfterLoad(q, s.mem.next[(q.node, q.level)]);
               && ReaderGoes(s.lists, after)
               && (after.Searching? ==> after.level < q.level || (after.level == q.level && ToGo(s, after) < ToGo(s, q)))
  {
    TurnGoes(s, r);
    var q := s.readers[r];
    assert q in s.readers;
    var list, j := s.lists[q.level], IndexOf(s.lists[q.level], q.node);
    assert Chain(s.mem, q.level, list);
    assert s.mem.next[(NodeAt(list, j), q.level)] == KeyAt(list, j);
    var next := s.mem.next[(q.node, q.level)];
    if next.Some? && Passes(q.query, next.value) {
      OneIndex(list, j + 1, IndexOf(list, next));
    }
  }

  /** Some number of turns of one reader, and of no one else. */
  ghost predicate TurnsLead(s: System, r: nat, turns: nat, w: System)
    decreases turns
  {
    if turns == 0 then w == s else exists next :: Takes(s, Turn(r), next) && TurnsLead(next, r, turns - 1, w)
  }

  /** A reader needs nobody else to finish its search. */
  lemma {:induction false} SearchEnds(s: System, r: nat) returns (turns: nat, w: System)
    requires Inv(s) && r < |s.readers| && s.readers[r].Searching? && ReaderGoes(s.lists, s.readers[r])
    ensures TurnsLead(s, r, turns, w) && r < |w.readers| && w.readers[r].Finished?
    decreases s.readers[r].level, ToGo(s, s.readers[r])
  {
    TurnProgresses(s, r);
    var q := s.readers[r];
    var next := s.(readers := s.readers[r := AfterLoad(q, s.mem.next[(q.node, q.level)])]);
    assert Takes(s, Turn(r), next);
    StepKeepsInv(s, Turn(r), next);
    if next.readers[r].Finished? {
      turns, w := 1, next;
      assert TurnsLead(next, r, 0, w);
    } else {
      turns, w := SearchEnds(next, r);
      turns := turns + 1;
    }
  }

  /** The steps an insertion still needs, without the one that may raise the height. */
  function StepsLeft(w: Writer): int {
    if w.Idle? then 0 else 2 * (w.height - w.level) - if w.ready then 1 else 0
  }

  /** A writer in the middle of an insertion can always go on, and has fewer steps left then, or has just raised the height. */
  lemma WriterCanStep(s: System) returns (step: Step, w: System)
    requires Inv(s) && s.writer.Inserting?
    ensures Takes(s, step, w) && (step.Raise? || step.Prepare? || step.Publish?)
    ensures if step.Raise? then s.mem.maxHeight < w.mem.maxHeight == s.writer.height && w.writer == s.writer
            else 0 <= StepsLeft(w.writer) < StepsLeft(s.writer)
  {
    var i := s.writer.level;
    if s.writer.ready {
      step := Publish;
      w := s.(mem := Published(s.mem, s.writer.key, i, s.writer.prev[i]), lists := s.lists[i := WithKey(s.lists[i], s.writer.key)],
              writer := if i + 1 == s.writer.height then Idle else s.writer.(level := i + 1, ready := false));
    } else if s.writer.height > s.mem.maxHeight {
      step, w := Raise, s.(mem := s.mem.(maxHeight := s.writer.height));
    } else {
      PrepareKeepsShape(s.mem, s.lists, s.writer.key, i);
      step := Prepare;
      w := s.(mem := Prepared(s.mem, s.writer.key, i, s.writer.prev[i]), writer := s.writer.(ready := true));
    }
  }

  /** A finished search has found a key on the side it looked for, and no key that was there when it began is nearer. */
  lemma SearchMissesNothing(trace: seq<System>, steps: seq<Step>, n: nat, r: nat)
    requires IsRun(trace, steps) && n <= |steps| && r < |trace[n].readers| && trace[n].readers[r].Finished?
    ensures |trace[n].lists| == MAX_HEIGHT
    ensures var q := trace[n].readers[r];
            Lands(trace[n].lists[0], q.query, q.began, q.result)
  {
    RunKeepsInv(trace, steps, n);
    assert trace[n].readers[r] in trace[n].readers;
  }

  /** A search takes effect at its last load: its result is the answer to its query in the list as it is then, whatever was
      inserted while the search was under way. */
  lemma SearchIsAtomic(trace: seq<System>, steps: seq<Step>, n: nat, r: nat)
    requires IsRun(trace, steps) && n < |steps| && r < |trace[n].readers|
    requires trace[n].readers[r].Searching? && steps[n] == Turn(r) && trace[n + 1].readers[r].Finished?
    ensures |trace[n].lists| == MAX_HEIGHT
    ensures trace[n + 1].readers[r].result == Answer(trace[n].lists[0], trace[n].readers[r].query)
  {
    RunKeepsInv(trace, steps, n);
    assert Takes(trace[n], steps[n], trace[n + 1]);
    TurnGoes(trace[n], r);
  }
}
