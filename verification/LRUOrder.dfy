/** Least recently used first (util/cache.cc): over whole sequences of calls, unused entries stand in the order of their
    releases, and what Insert evicts was released before everything unused that stays. */
module LRUOrder {
  import opened InternalKeys
  import opened HT = HandleTable
  import opened LRUCache

  datatype Call =
    | Lookup(key: Key)
    | Release(id: nat)
    | Insert(key: Key, value: nat, charge: nat, capacity: nat)
    | Erase(key: Key)
    | Prune

  ghost predicate Does(c: Cache, call: Call, w: Cache) {
    && Sound(c, None, None)
    && match call
       case Lookup(key) =>
         if key in c.table then c.table[key].id in c.handles && w == Referred(c, c.table[key].id) else w == c
       case Release(id) => id in c.held && id in c.handles && c.handles[id].refs > 0 && w == Dropped(Returned(c, id), id)
       case Insert(key, value, charge, capacity) => w == Inserted(c, key, value, charge, capacity)
       case Erase(key) => w == Erased(c, key)
       case Prune => w == Pruned(c)
  }

  ghost predicate IsHistory(trace: seq<Cache>, calls: seq<Call>) {
    && |trace| == |calls| + 1
    && trace[0] == EMPTY
    && forall i :: 0 <= i < |calls| ==> Does(trace[i], calls[i], trace[i + 1])
  }

  /** That a cache is sound is no restriction: calls keep it so. */
  lemma CallKeepsSound(c: Cache, call: Call, w: Cache)
    requires Does(c, call, w)
    ensures Sound(w, None, None)
  {
    hide Sound, Referred, Dropped;
    match call
    case Lookup(key) =>
      if key in c.table {
        ReferredSound(c, c.table[key].id);
      }
    case Release(id) =>
      ReturnedSound(c, id);
      DroppedSound(Returned(c, id), id);
    case _ =>
  }

  // ---------------------------------------------------------------- what a call does to the order

  ghost predicate Earlier(list: seq<nat>, x: nat, y: nat) {
    exists i, j :: 0 <= i < j < |list| && list[i] == x && list[j] == y
  }

  lemma {:induction false} WithoutKeepsOrder(list: seq<nat>, id: nat, x: nat, y: nat)
    requires Earlier(Without(list, id), x, y)
    ensures Earlier(list, x, y)
  {
    var r := Without(list, id);
    var i, j :| 0 <= i < j < |r| && r[i] == x && r[j] == y;
    var rest := list[1..];
    if list[0] == id {
      WithoutKeepsOrder(rest, id, x, y);
      LaterKeepsOrder(list, 1, x, y);
    } else if i == 0 {
      assert y in Without(rest, id) by {
        assert Without(rest, id)[j - 1] == y;
      }
      var k :| 0 <= k < |rest| && rest[k] == y;
      assert list[0] == x && list[k + 1] == y;
    } else {
      assert Without(rest, id)[i - 1] == x && Without(rest, id)[j - 1] == y;
      WithoutKeepsOrder(rest, id, x, y);
      LaterKeepsOrder(list, 1, x, y);
    }
  }

  lemma LaterKeepsOrder(list: seq<nat>, n: nat, x: nat, y: nat)
    requires n <= |list| && Earlier(list[n..], x, y)
    ensures Earlier(list, x, y)
  {
    var i, j :| 0 <= i < j < |list[n..]| && list[n..][i] == x && list[n..][j] == y;
    assert list[n + i] == x && list[n + j] == y;
  }

  lemma EntersAtEnd(list: seq<nat>, id: nat, x: nat, y: nat)
    requires Earlier(list + [id], x, y)
    ensures Earlier(list, x, y) || (x in list && y == id)
  {
    var all := list + [id];
    var i, j :| 0 <= i < j < |all| && all[i] == x && all[j] == y;
    assert all[i] == list[i];
  }

  /** Of two unused entries, a call leaves the earlier one earlier; an entry that has just been released comes last. */
  lemma CallKeepsOrder(c: Cache, call: Call, w: Cache, x: nat, y: nat)
    requires Does(c, call, w) && Earlier(w.lru, x, y)
    ensures Earlier(c.lru, x, y) || (call == Release(y) && y !in c.lru && x in c.lru)
  {
    hide Sound, Earlier, Erased, Entered, Inserted, Evicted, Pruned;
    match call
    case Lookup(key) => LookupKeepsOrder(c, key, w, x, y);
    case Release(id) =>
      HeldIsAlive(c, id);
      if w.lru != c.lru {
        EntersAtEnd(c.lru, id, x, y);
      }
    case Insert(key, value, charge, capacity) =>
      var n := InsertedEntries(c, key, value, charge, capacity);
      var entered := Entered(c, key, value, charge, capacity > 0);
      LaterKeepsOrder(entered.lru, n, x, y);
      if capacity > 0 && key in c.table {
        WithoutKeepsOrder(c.lru, c.table[key].id, x, y);
      }
    case Erase(key) =>
      ErasedList(c, key);
      if key in c.table {
        WithoutKeepsOrder(c.lru, c.table[key].id, x, y);
      }
    case Prune => PrunedList(c, x, y);
  }

  lemma LookupKeepsOrder(c: Cache, key: Key, w: Cache, x: nat, y: nat)
    requires Does(c, Lookup(key), w) && Earlier(w.lru, x, y)
    ensures Earlier(c.lru, x, y)
  {
    hide Sound, Earlier;
    if w.lru != c.lru {
      WithoutKeepsOrder(c.lru, c.table[key].id, x, y);
    }
  }

  lemma ErasedList(c: Cache, key: Key)
    requires Sound(c, None, None)
    ensures Erased(c, key).lru == if key in c.table then Without(c.lru, c.table[key].id) else c.lru
  {
  }

  lemma PrunedList(c: Cache, x: nat, y: nat)
    requires Sound(c, None, None)
    ensures !Earlier(Pruned(c).lru, x, y)
  {
    hide Sound;
  }

  // ---------------------------------------------------------------- whole sequences of calls

  /** The entry has been unused since its release by call `t`. */
  ghost predicate UnusedSince(trace: seq<Cache>, calls: seq<Call>, n: nat, id: nat, t: nat)
    requires n < |trace| && n <= |calls|
  {
    && t < n && calls[t] == Release(id) && id !in trace[t].lru
    && forall k :: t < k <= n ==> id in trace[k].lru
  }

  /** An entry gets among the unused ones by its release and in no other way. */
  lemma {:induction false} UnusedWasReleased(trace: seq<Cache>, calls: seq<Call>, n: nat, id: nat) returns (t: nat)
    requires IsHistory(trace, calls) && n <= |calls| && id in trace[n].lru
    ensures UnusedSince(trace, calls, n, id, t)
  {
    hide Does;
    assert n > 0;
    CallEnters(trace[n - 1], calls[n - 1], trace[n], id);
    if id in trace[n - 1].lru {
      t := UnusedWasReleased(trace, calls, n - 1, id);
    } else {
      t := n - 1;
    }
  }

  lemma CallEnters(c: Cache, call: Call, w: Cache, id: nat)
    requires Does(c, call, w) && id in w.lru
    ensures id in c.lru || call == Release(id)
  {
    hide Sound, Erased, Entered, Inserted, Evicted, Pruned;
    match call
    case Lookup(key) =>
    case Release(_) =>
    case Insert(key, value, charge, capacity) =>
      var n := InsertedEntries(c, key, value, charge, capacity);
      assert w.lru == Entered(c, key, value, charge, capacity > 0).lru[n..];
    case Erase(key) => ErasedList(c, key);
    case Prune =>
  }

  /** Of two unused entries the one that stands earlier was released earlier. */
  lemma {:induction false} UnusedInOrder(trace: seq<Cache>, calls: seq<Call>, n: nat, x: nat, y: nat) returns (s: nat, t: nat)
    requires IsHistory(trace, calls) && n <= |calls| && Earlier(trace[n].lru, x, y)
    ensures s < t && UnusedSince(trace, calls, n, x, s) && UnusedSince(trace, calls, n, y, t)
  {
    hide Does, Earlier;
    assert n > 0 by {
      assert !Earlier(EMPTY.lru, x, y) by {
        NothingUnused(x, y);
      }
    }
    EarlierAreIn(trace[n].lru, x, y);
    CallKeepsOrder(trace[n - 1], calls[n - 1], trace[n], x, y);
    if Earlier(trace[n - 1].lru, x, y) {
      EarlierAreIn(trace[n - 1].lru, x, y);
      s, t := UnusedInOrder(trace, calls, n - 1, x, y);
    } else {
      s := UnusedWasReleased(trace, calls, n - 1, x);
      t := n - 1;
    }
  }

  lemma NothingUnused(x: nat, y: nat)
    ensures !Earlier([], x, y)
  {
  }

  lemma EarlierAreIn(list: seq<nat>, x: nat, y: nat)
    requires Earlier(list, x, y)
    ensures x in list && y in list
  {
  }

  /** What Insert evicts was released before every unused entry that stays. */
  lemma EvictedWasReleasedEarlier(trace: seq<Cache>, calls: seq<Call>, n: nat, x: nat, y: nat) returns (s: nat, t: nat)
    requires IsHistory(trace, calls) && n < |calls| && calls[n].Insert?
    requires x in trace[n].lru && x !in trace[n + 1].lru && y in trace[n + 1].lru
    requires calls[n].key in trace[n].table ==> trace[n].table[calls[n].key].id != x
    ensures s < t && UnusedSince(trace, calls, n, x, s) && UnusedSince(trace, calls, n, y, t)
  {
    hide Sound, Earlier, Inserted;
    var c, call := trace[n], calls[n];
    assert Does(c, call, trace[n + 1]);
    var m := InsertedEntries(c, call.key, call.value, call.charge, call.capacity);
    var entered := Entered(c, call.key, call.value, call.charge, call.capacity > 0);
    assert trace[n + 1].lru == entered.lru[m..];
    FrontIsEarlier(entered.lru, m, x, y);
    if call.capacity > 0 && call.key in c.table {
      WithoutKeepsOrder(c.lru, c.table[call.key].id, x, y);
    }
    s, t := UnusedInOrder(trace, calls, n, x, y);
  }

  lemma FrontIsEarlier(list: seq<nat>, m: nat, x: nat, y: nat)
    requires m <= |list| && x in list && x !in list[m..] && y in list[m..]
    ensures Earlier(list, x, y)
  {
    var i :| 0 <= i < |list| && list[i] == x;
    var j :| 0 <= j < |list[m..]| && list[m..][j] == y;
    assert forall k :: m <= k < |list| ==> list[k] == list[m..][k - m];
    assert list[m + j] == y;
  }

  // ---------------------------------------------------------------- what Lookup answers

  /** Key, value and charge of an entry never change. */
  predicate SameEntries(c: Cache, w: Cache) {
    forall id <- c.handles :: id in w.handles ==> SameEntry(c.handles[id], w.handles[id])
  }

  predicate SameEntry(h: Handle, g: Handle) {
    h.key == g.key && h.value == g.value && h.charge == g.charge
  }

  lemma FinishedEntries(c: Cache, id: nat)
    requires Sound(c, None, Some(id))
    ensures SameEntries(c, FinishErased(c, id)) && FinishErased(c, id).handles.Keys <= c.handles.Keys
    ensures FinishErased(c, id).table == c.table
    ensures forall k :: k in c.handles && k != id ==> k in FinishErased(c, id).handles
  {
  }

  lemma ErasedEntries(c: Cache, key: Key)
    requires Sound(c, None, None)
    ensures SameEntries(c, Erased(c, key)) && Erased(c, key).handles.Keys <= c.handles.Keys
    ensures Erased(c, key).table == c.table - {key}
  {
    hide Sound, FinishErased;
    if key in c.table {
      SoundKey(c, key);
      FinishedEntries(c.(table := c.table - {key}), c.table[key].id);
    }
  }

  lemma {:induction false} EvictedEntries(c: Cache, capacity: nat)
    requires Sound(c, None, None)
    ensures SameEntries(c, Evicted(c, capacity)) && Evicted(c, capacity).handles.Keys <= c.handles.Keys
    decreases |c.lru|
  {
    hide Sound, Erased, Evicted;
    EvictedStep(c, capacity);
    if c.usage > capacity && c.lru != [] {
      ErasedOldest(c);
      ErasedEntries(c, c.handles[c.lru[0]].key);
      EvictedEntries(Erased(c, c.handles[c.lru[0]].key), capacity);
    }
  }

  /** Pruning takes out of the table just what is unused. */
  lemma {:induction false} PrunedEntries(c: Cache)
    requires Sound(c, None, None)
    ensures SameEntries(c, Pruned(c)) && Pruned(c).handles.Keys <= c.handles.Keys
    ensures forall k :: k in Pruned(c).table <==> k in c.table && c.table[k].id !in c.lru
    ensures forall k <- Pruned(c).table :: Pruned(c).table[k] == c.table[k]
    decreases |c.lru|
  {
    hide Sound, Erased;
    if c.lru != [] {
      ErasedOldest(c);
      var next := Erased(c, c.handles[c.lru[0]].key);
      ErasedEntries(c, c.handles[c.lru[0]].key);
      PrunedEntries(next);
      assert forall id :: id in c.lru <==> id == c.lru[0] || id in next.lru;
    }
  }

  /** The entry that Insert makes. */
  lemma InsertStores(c: Cache, key: Key, value: nat, charge: nat, capacity: nat)
    requires Sound(c, None, None)
    ensures var w := Inserted(c, key, value, charge, capacity);
            && SameEntries(c, w) && c.nextId in w.handles && SameEntry(w.handles[c.nextId], Handle(key, value, charge, true, 2))
            && (capacity > 0 ==> key in w.table && w.table[key].id == c.nextId)
            && (forall k :: k in w.table && !(capacity > 0 && k == key) ==> k in c.table && w.table[k] == c.table[k])
            && (forall k :: k in c.table && !(capacity > 0 && k == key) && c.table[k].id in c.held ==> k in w.table)
  {
    hide Sound, Entered, Evicted, Added, FinishErased;
    var cached := capacity > 0;
    var added, entered, w := Added(c, key, value, charge, cached), Entered(c, key, value, charge, cached), Inserted(c, key, value, charge, capacity);
    AddedSound(c, key, value, charge, cached);
    AddedEntries(c, key, value, charge, cached);
    EnteredIs(c, key, value, charge, cached);
    var replaced := Replaced(c, key, cached);
    if replaced.Some? {
      FinishedEntries(added, replaced.value);
    }
    var n := InsertedEntries(c, key, value, charge, capacity);
    EvictedEntries(entered, capacity);
    assert c.nextId in w.held;
    HeldIsAlive(w, c.nextId);
    HeldAreNotUnused(c, entered);
    forall k | k in c.table && !(cached && k == key) && c.table[k].id in c.held ensures k in w.table {
      assert c.table[k].id !in c.lru;
    }
    HeldIsAlive(entered, c.nextId);
  }

  lemma HeldAreNotUnused(c: Cache, entered: Cache)
    requires Sound(c, None, None)
    ensures forall id :: id in c.held ==> id !in c.lru
  {
  }

  lemma EnteredIs(c: Cache, key: Key, value: nat, charge: nat, cached: bool)
    requires Sound(c, None, None)
    ensures var added, replaced := Added(c, key, value, charge, cached), Replaced(c, key, cached);
            && Sound(added, None, replaced)
            && Entered(c, key, value, charge, cached) == if replaced.Some? then FinishErased(added, replaced.value) else added
  {
    hide Sound;
    AddedSound(c, key, value, charge, cached);
  }

  lemma AddedEntries(c: Cache, key: Key, value: nat, charge: nat, cached: bool)
    requires Sound(c, None, None)
    ensures var w := Added(c, key, value, charge, cached);
            && SameEntries(c, w) && c.nextId in w.handles && SameEntry(w.handles[c.nextId], Handle(key, value, charge, true, 2))
            && (Replaced(c, key, cached).Some? ==> Replaced(c, key, cached).value != c.nextId)
            && c.nextId !in c.handles
  {
  }

  /** The call stores something under the key, or takes away what is there. */
  predicate Changes(call: Call, key: Key) {
    (call.Insert? && call.key == key && call.capacity > 0) || (call.Erase? && call.key == key)
  }

  lemma CallOnTable(c: Cache, call: Call, w: Cache, key: Key)
    requires Does(c, call, w)
    ensures SameEntries(c, w)
    ensures !Changes(call, key) && key in w.table ==> key in c.table && w.table[key] == c.table[key]
    ensures !Changes(call, key) && key in c.table && c.table[key].id in c.held ==> key in w.table
    ensures call.Erase? && call.key == key ==> key !in w.table
  {
    hide Sound, Erased, Pruned, Inserted;
    match call
    case Lookup(_) =>
    case Release(id) =>
    case Insert(k, value, charge, capacity) => InsertStores(c, k, value, charge, capacity);
    case Erase(k) => ErasedEntries(c, k);
    case Prune =>
      PrunedEntries(c);
      HeldAreNotUnused(c, c);
  }

  lemma TabledAlive(c: Cache, key: Key)
    requires Sound(c, None, None) && key in c.table
    ensures c.table[key].id in c.handles
  {
  }

  lemma {:induction false} HistorySound(trace: seq<Cache>, calls: seq<Call>, n: nat)
    requires IsHistory(trace, calls) && n <= |calls|
    ensures Sound(trace[n], None, None)
  {
    hide Sound, Does;
    if n == 0 {
      EmptySound();
    } else {
      CallKeepsSound(trace[n - 1], calls[n - 1], trace[n]);
    }
  }

  /** What is found under a key is what was last inserted there; nothing has replaced or erased it since. */
  lemma {:induction false} AnswersLastInsert(trace: seq<Cache>, calls: seq<Call>, n: nat, key: Key) returns (t: nat)
    requires IsHistory(trace, calls) && n <= |calls| && key in trace[n].table
    ensures trace[n].table[key].id in trace[n].handles
    ensures t < n && calls[t].Insert? && calls[t].key == key && calls[t].capacity > 0
    ensures var h := trace[n].handles[trace[n].table[key].id];
            h.key == key && h.value == calls[t].value && h.charge == calls[t].charge
    ensures trace[n].table[key].id == trace[t].nextId
    ensures forall k :: t < k < n ==> !Changes(calls[k], key)
  {
    hide Sound, Does;
    HistorySound(trace, calls, n);
    TabledAlive(trace[n], key);
    assert n > 0;
    var c, call, w := trace[n - 1], calls[n - 1], trace[n];
    assert Does(c, call, w);
    CallOnTable(c, call, w, key);
    if Changes(call, key) {
      t := n - 1;
      InsertIsDone(c, call, w);
    } else {
      t := AnswersLastInsert(trace, calls, n - 1, key);
    }
  }

  lemma InsertIsDone(c: Cache, call: Call, w: Cache)
    requires Does(c, call, w) && call.Insert?
    ensures c.nextId in w.handles && SameEntry(w.handles[c.nextId], Handle(call.key, call.value, call.charge, true, 2))
    ensures call.capacity > 0 ==> call.key in w.table && w.table[call.key].id == c.nextId
    ensures w.held == c.held + multiset{c.nextId}
  {
    hide Sound, Inserted;
    InsertStores(c, call.key, call.value, call.charge, call.capacity);
    var n := InsertedEntries(c, call.key, call.value, call.charge, call.capacity);
  }

  /** As long as a client holds what it inserted, and nothing replaces or erases it, Lookup finds it. */
  lemma {:induction false} HeldIsFound(trace: seq<Cache>, calls: seq<Call>, t: nat, n: nat)
    requires IsHistory(trace, calls) && t < n <= |calls| && calls[t].Insert? && calls[t].capacity > 0
    requires forall k :: t < k < n ==> !Changes(calls[k], calls[t].key) && trace[t].nextId in trace[k].held
    ensures calls[t].key in trace[n].table && trace[n].table[calls[t].key].id == trace[t].nextId
    decreases n
  {
    hide Sound, Does;
    assert Does(trace[n - 1], calls[n - 1], trace[n]);
    if t == n - 1 {
      InsertIsDone(trace[t], calls[t], trace[n]);
    } else {
      HeldIsFound(trace, calls, t, n - 1);
      CallOnTable(trace[n - 1], calls[n - 1], trace[n], calls[t].key);
      assert calls[t].key in trace[n].table;
    }
  }
}
