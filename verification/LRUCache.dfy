/** The LRU cache (util/cache.cc, LRUCache): reference counts, the two lists and the usage, over the hash table. */
module LRUCache {
  import opened InternalKeys
  import opened HT = HandleTable

  datatype Handle = Handle(key: Key, value: nat, charge: nat, inCache: bool, refs: nat)

  /** The state of a cache. Handles are named by numbers, given out in order. `lru` has the oldest entry first. `held` are
      the handles that clients have and must release; `deleted` lists the calls of deleters. */
  datatype Cache = Cache(handles: map<nat, Handle>, lru: seq<nat>, inUse: seq<nat>, table: map<Key, Item>, usage: nat,
                         nextId: nat, held: multiset<nat>, deleted: seq<nat>)

  const EMPTY: Cache := Cache(map[], [], [], map[], 0, 0, multiset{}, [])

  // ---------------------------------------------------------------- lists

  ghost predicate Distinct(list: seq<nat>) {
    forall i, j :: 0 <= i < j < |list| ==> list[i] != list[j]
  }

  /** LRU_Remove. */
  function Without(list: seq<nat>, id: nat): (r: seq<nat>)
    ensures forall x :: x in r <==> x in list && x != id
    ensures id !in list ==> r == list
  {
    if list == [] then []
    else if list[0] == id then Without(list[1..], id)
    else [list[0]] + Without(list[1..], id)
  }

  lemma {:induction false} WithoutDistinct(list: seq<nat>, id: nat)
    requires Distinct(list)
    ensures Distinct(Without(list, id))
  {
    if list != [] {
      var rest := list[1..];
      WithoutDistinct(rest, id);
      assert list[0] !in rest;
      var r := Without(rest, id);
      assert list[0] !in r;
    }
  }

  function Charges(handles: map<nat, Handle>, list: seq<nat>): nat
    requires forall id <- list :: id in handles
  {
    if list == [] then 0 else handles[list[0]].charge + Charges(handles, list[1..])
  }

  lemma {:induction false} ChargesAppend(handles: map<nat, Handle>, list: seq<nat>, id: nat)
    requires id in handles && forall x <- list :: x in handles
    ensures Charges(handles, list + [id]) == Charges(handles, list) + handles[id].charge
  {
    if list == [] {
      assert [id][1..] == [];
    } else {
      ChargesAppend(handles, list[1..], id);
      assert (list + [id])[1..] == list[1..] + [id];
    }
  }

  lemma {:induction false} ChargesWithout(handles: map<nat, Handle>, list: seq<nat>, id: nat)
    requires forall x <- list :: x in handles
    requires Distinct(list) && id in list
    ensures Charges(handles, Without(list, id)) == Charges(handles, list) - handles[id].charge
  {
    assert forall x :: x in list[1..] ==> x != list[0];
    if list[0] != id {
      ChargesWithout(handles, list[1..], id);
      assert Without(list, id)[1..] == Without(list[1..], id);
    }
  }

  lemma {:induction false} SameCharges(handles: map<nat, Handle>, others: map<nat, Handle>, list: seq<nat>)
    requires forall x <- list :: x in handles && x in others && handles[x].charge == others[x].charge
    ensures Charges(handles, list) == Charges(others, list)
  {
    if list != [] {
      SameCharges(handles, others, list[1..]);
    }
  }

  // ---------------------------------------------------------------- the invariant

  function Bit(b: bool): nat { if b then 1 else 0 }

  /** References are the handles out with clients, the one of the cache, and one that is about to be dropped. */
  ghost predicate Counted(c: Cache, pending: Option<nat>) {
    && (forall id <- c.handles ::
          && c.handles[id].refs > 0
          && c.handles[id].refs == c.held[id] + Bit(c.handles[id].inCache) + Bit(pending == Some(id)))
    && (forall id :: id in c.held ==> id in c.handles)
  }

  /** Every handle given out is either alive, or its deleter has run once. */
  ghost predicate DeletedOnce(c: Cache) {
    && Distinct(c.deleted)
    && (forall id :: id in c.handles || id in c.deleted <==> 0 <= id < c.nextId)
    && (forall id <- c.deleted :: id !in c.handles)
  }

  /** The table holds exactly the entries in the cache, without `out`, one that has left the table but not yet the cache. */
  ghost predicate Tabled(c: Cache, out: Option<nat>) {
    && (forall k <- c.table :: c.table[k].key == k && c.table[k].id in c.handles && out != Some(c.table[k].id)
                               && c.handles[c.table[k].id].inCache && c.handles[c.table[k].id].key == k)
    && (forall id <- c.handles :: c.handles[id].inCache && out != Some(id) ==>
          c.handles[id].key in c.table && c.table[c.handles[id].key].id == id)
  }

  /** Each entry in the cache is on the one list that its reference count dictates. */
  ghost predicate Listed(c: Cache) {
    && Distinct(c.lru) && Distinct(c.inUse)
    && (forall id :: id in c.lru <==> id in c.handles && c.handles[id].inCache && c.handles[id].refs == 1)
    && (forall id :: id in c.inUse <==> id in c.handles && c.handles[id].inCache && c.handles[id].refs != 1)
  }

  ghost predicate Charged(c: Cache)
    requires Listed(c)
  {
    c.usage == Charges(c.handles, c.lru) + Charges(c.handles, c.inUse)
  }

  ghost predicate Sound(c: Cache, pending: Option<nat>, out: Option<nat>) {
    && Counted(c, pending) && DeletedOnce(c) && Tabled(c, out) && Listed(c) && Charged(c)
    && (pending.Some? ==> pending.value in c.handles)
    && (out.Some? ==> out.value in c.handles && c.handles[out.value].inCache)
  }

  // ---------------------------------------------------------------- reference counts

  /** Ref, for a handle that is returned to a client. */
  function Referred(c: Cache, id: nat): Cache
    requires id in c.handles
  {
    var h := c.handles[id];
    var moved := if h.refs == 1 && h.inCache then c.(lru := Without(c.lru, id), inUse := c.inUse + [id]) else c;
    moved.(handles := c.handles[id := h.(refs := h.refs + 1)], held := c.held + multiset{id})
  }

  /** Unref. */
  function Dropped(c: Cache, id: nat): Cache
    requires id in c.handles && c.handles[id].refs > 0
  {
    var h := c.handles[id].(refs := c.handles[id].refs - 1);
    if h.refs == 0 then c.(handles := c.handles - {id}, deleted := c.deleted + [id])
    else if h.inCache && h.refs == 1 then
      c.(handles := c.handles[id := h], inUse := Without(c.inUse, id), lru := c.lru + [id])
    else c.(handles := c.handles[id := h])
  }

  /** Only keys and the cached flag matter to the table. */
  lemma SameTabled(c: Cache, w: Cache)
    requires Tabled(c, None) && w.table == c.table
    requires forall id :: id in c.handles && c.handles[id].inCache ==>
               id in w.handles && w.handles[id].inCache && w.handles[id].key == c.handles[id].key
    requires forall id :: id in w.handles && w.handles[id].inCache ==> id in c.handles && c.handles[id].inCache
    ensures Tabled(w, None)
  {
    forall id | id in w.handles && w.handles[id].inCache
      ensures w.handles[id].key in w.table && w.table[w.handles[id].key].id == id
    {
      assert c.handles[id].inCache;
    }
  }

  lemma ReferredCounted(c: Cache, id: nat)
    requires Counted(c, None) && DeletedOnce(c) && id in c.handles
    ensures Counted(Referred(c, id), None) && DeletedOnce(Referred(c, id))
  {
  }

  lemma ReferredListed(c: Cache, id: nat)
    requires Listed(c) && Charged(c) && id in c.handles && c.handles[id].refs > 0
    ensures Listed(Referred(c, id)) && Charged(Referred(c, id))
  {
    var w := Referred(c, id);
    var h := c.handles[id];
    if h.refs == 1 && h.inCache {
      MoveToEnd(c.handles, c.lru, c.inUse, id);
    }
    SameCharges(c.handles, w.handles, w.lru);
    SameCharges(c.handles, w.handles, w.inUse);
  }

  /** Moving an entry from one list to the end of the other keeps both free of repetitions, and the sum of charges. */
  lemma MoveToEnd(handles: map<nat, Handle>, from: seq<nat>, to: seq<nat>, id: nat)
    requires Distinct(from) && Distinct(to) && id in from && id !in to
    requires (forall x <- from :: x in handles) && (forall x <- to :: x in handles)
    ensures Distinct(Without(from, id)) && Distinct(to + [id])
    ensures Charges(handles, Without(from, id)) + Charges(handles, to + [id]) == Charges(handles, from) + Charges(handles, to)
  {
    WithoutDistinct(from, id);
    ChargesWithout(handles, from, id);
    ChargesAppend(handles, to, id);
  }

  lemma ReferredSound(c: Cache, id: nat)
    requires Sound(c, None, None) && id in c.handles
    ensures Sound(Referred(c, id), None, None)
  {
    ReferredCounted(c, id);
    ReferredListed(c, id);
    SameTabled(c, Referred(c, id));
  }

  lemma DroppedCounted(c: Cache, id: nat)
    requires Counted(c, Some(id)) && DeletedOnce(c) && id in c.handles
    ensures Counted(Dropped(c, id), None)
    ensures c.handles[id].refs == 1 ==> !c.handles[id].inCache
  {
  }

  lemma DroppedDeletes(c: Cache, id: nat)
    requires DeletedOnce(c) && id in c.handles && c.handles[id].refs > 0
    ensures DeletedOnce(Dropped(c, id))
  {
  }

  lemma DroppedListed(c: Cache, id: nat)
    requires Listed(c) && Charged(c) && id in c.handles && c.handles[id].refs > 0
    requires c.handles[id].refs == 1 ==> !c.handles[id].inCache
    ensures Listed(Dropped(c, id)) && Charged(Dropped(c, id))
  {
    var w := Dropped(c, id);
    var h := c.handles[id];
    if h.refs == 2 && h.inCache {
      MoveToEnd(c.handles, c.inUse, c.lru, id);
    }
    SameCharges(c.handles, w.handles, w.lru);
    SameCharges(c.handles, w.handles, w.inUse);
  }

  lemma DroppedSound(c: Cache, id: nat)
    requires Sound(c, Some(id), None)
    ensures Sound(Dropped(c, id), None, None)
  {
    DroppedCounted(c, id);
    DroppedDeletes(c, id);
    DroppedListed(c, id);
    SameTabled(c, Dropped(c, id));
  }

  // ---------------------------------------------------------------- leaving the cache

  /** FinishErase up to Unref: the entry is taken off its list and loses the reference of the cache. */
  function Uncached(c: Cache, id: nat): Cache
    requires id in c.handles
  {
    var h := c.handles[id];
    c.(handles := c.handles[id := h.(inCache := false)], lru := Without(c.lru, id), inUse := Without(c.inUse, id),
       usage := if c.usage >= h.charge then c.usage - h.charge else 0)
  }

  lemma UncachedListed(c: Cache, id: nat)
    requires Listed(c) && Charged(c) && id in c.handles && c.handles[id].inCache
    ensures Listed(Uncached(c, id)) && Charged(Uncached(c, id)) && c.usage >= c.handles[id].charge
  {
    var w := Uncached(c, id);
    WithoutDistinct(c.lru, id);
    WithoutDistinct(c.inUse, id);
    if c.handles[id].refs == 1 {
      ChargesWithout(c.handles, c.lru, id);
    } else {
      ChargesWithout(c.handles, c.inUse, id);
    }
    SameCharges(c.handles, w.handles, w.lru);
    SameCharges(c.handles, w.handles, w.inUse);
  }

  lemma UncachedSound(c: Cache, id: nat)
    requires Sound(c, None, Some(id))
    ensures Sound(Uncached(c, id), Some(id), None)
  {
    hide Listed, Charged, Counted, Tabled, DeletedOnce;
    UncachedListed(c, id);
    UncachedCounted(c, id);
    UncachedTabled(c, id);
  }

  lemma UncachedCounted(c: Cache, id: nat)
    requires Counted(c, None) && DeletedOnce(c) && id in c.handles && c.handles[id].inCache
    ensures Counted(Uncached(c, id), Some(id)) && DeletedOnce(Uncached(c, id))
  {
  }

  lemma UncachedTabled(c: Cache, id: nat)
    requires Tabled(c, Some(id)) && id in c.handles
    ensures Tabled(Uncached(c, id), None)
  {
  }

  ghost function FinishErased(c: Cache, id: nat): (w: Cache)
    requires Sound(c, None, Some(id))
    ensures Sound(w, None, None)
  {
    UncachedSound(c, id);
    DroppedSound(Uncached(c, id), id);
    Dropped(Uncached(c, id), id)
  }

  /** Erase: the entry under a key leaves the table and the cache. */
  ghost function Erased(c: Cache, key: Key): (w: Cache)
    requires Sound(c, None, None)
    ensures Sound(w, None, None)
  {
    if key in c.table then FinishErased(c.(table := c.table - {key}), c.table[key].id) else c
  }

  /** The entry on the old end of the LRU list is given up: nobody else has it, so its deleter runs. */
  lemma ErasedOldest(c: Cache)
    requires Sound(c, None, None) && c.lru != []
    ensures var id := c.lru[0];
            && id in c.handles && c.handles[id].key in c.table
            && (var w := Erased(c, c.handles[id].key);
               && w == c.(handles := c.handles - {id}, lru := c.lru[1..], table := c.table - {c.handles[id].key},
                          usage := w.usage, deleted := c.deleted + [id])
               && w.usage + c.handles[id].charge == c.usage)
            && (forall k <- c.table :: c.table[k].id == id <==> k == c.handles[id].key)
  {
    var id := c.lru[0];
    assert id in c.lru;
    UncachedListed(c.(table := c.table - {c.handles[id].key}), id);
    assert id !in c.lru[1..];
    assert Without(c.lru, id) == Without(c.lru[1..], id) == c.lru[1..];
    assert c.handles[id := c.handles[id].(inCache := false)] - {id} == c.handles - {id};
  }

  /** The loop at the end of Insert: evict old entries while the cache is too full. */
  ghost function Evicted(c: Cache, capacity: nat): (w: Cache)
    requires Sound(c, None, None)
    ensures Sound(w, None, None)
    decreases |c.lru|
  {
    if c.usage <= capacity || c.lru == [] then c
    else
      ErasedOldest(c);
      Evicted(Erased(c, c.handles[c.lru[0]].key), capacity)
  }

  lemma EvictedStep(c: Cache, capacity: nat)
    requires Sound(c, None, None)
    ensures c.usage <= capacity || c.lru == [] ==> Evicted(c, capacity) == c
    ensures c.usage > capacity && c.lru != [] ==>
              c.lru[0] in c.handles && Evicted(c, capacity) == Evicted(Erased(c, c.handles[c.lru[0]].key), capacity)
  {
    hide Sound;
    if c.lru != [] {
      ErasedOldest(c);
    }
  }

  /** From `c` to `w` the `n` oldest unused entries were given up, and no more of them than needed. */
  ghost predicate GaveUp(c: Cache, w: Cache, n: nat, capacity: nat) {
    && n <= |c.lru|
    && w.lru == c.lru[n..] && w.deleted == c.deleted + c.lru[..n]
    && w.inUse == c.inUse && w.held == c.held && w.nextId == c.nextId
    && (n == 0 ==> w == c)
    && (n > 0 ==> c.lru[n - 1] in c.handles && w.usage + c.handles[c.lru[n - 1]].charge > capacity)
    && (forall k :: k in w.table <==> k in c.table && c.table[k].id !in c.lru[..n])
    && (forall k <- w.table :: w.table[k] == c.table[k])
  }

  lemma GaveUpOneMore(c: Cache, next: Cache, w: Cache, m: nat, capacity: nat)
    requires c.lru != [] && c.lru[0] in c.handles && c.usage > capacity
    requires var id := c.lru[0];
             && next == c.(handles := c.handles - {id}, lru := c.lru[1..], table := c.table - {c.handles[id].key},
                           usage := next.usage, deleted := c.deleted + [id])
             && next.usage + c.handles[id].charge == c.usage
             && forall k <- c.table :: c.table[k].id == id <==> k == c.handles[id].key
    requires GaveUp(next, w, m, capacity)
    ensures GaveUp(c, w, m + 1, capacity)
  {
    var id := c.lru[0];
    assert c.lru[..m + 1] == [id] + next.lru[..m];
    assert next.deleted + next.lru[..m] == c.deleted + c.lru[..m + 1];
    assert m > 0 ==> next.lru[m - 1] == c.lru[m];
    forall k ensures k in w.table <==> k in c.table && c.table[k].id !in c.lru[..m + 1] {
      assert k in w.table <==> k in next.table && next.table[k].id !in next.lru[..m];
    }
  }

  /** What eviction does: the oldest unused entries go, as few of them as make the cache fit, or all of them. */
  lemma {:induction false} EvictedOldest(c: Cache, capacity: nat) returns (n: nat)
    requires Sound(c, None, None)
    ensures GaveUp(c, Evicted(c, capacity), n, capacity)
    ensures Evicted(c, capacity).usage <= capacity || Evicted(c, capacity).lru == []
    decreases |c.lru|
  {
    hide Sound, Erased, Evicted, GaveUp;
    EvictedStep(c, capacity);
    if c.usage <= capacity || c.lru == [] {
      n := 0;
      NothingGivenUp(c, capacity);
    } else {
      ErasedOldest(c);
      var next := Erased(c, c.handles[c.lru[0]].key);
      var m := EvictedOldest(next, capacity);
      n := m + 1;
      GaveUpOneMore(c, next, Evicted(next, capacity), m, capacity);
    }
  }

  lemma NothingGivenUp(c: Cache, capacity: nat)
    ensures GaveUp(c, c, 0, capacity)
  {
    assert c.deleted + c.lru[..0] == c.deleted;
  }

  // ---------------------------------------------------------------- entering the cache

  /** Insert up to the point where a replaced entry is given up: the new handle, in the cache unless the capacity is 0. */
  function Added(c: Cache, key: Key, value: nat, charge: nat, cached: bool): Cache {
    var id := c.nextId;
    var h := Handle(key, value, charge, cached, if cached then 2 else 1);
    var w := c.(handles := c.handles[id := h], nextId := id + 1, held := c.held + multiset{id});
    if cached then w.(inUse := w.inUse + [id], usage := w.usage + charge, table := w.table[key := Item(key, id)]) else w
  }

  lemma AddedListed(c: Cache, key: Key, value: nat, charge: nat, cached: bool)
    requires Listed(c) && Charged(c) && c.nextId !in c.handles
    ensures Listed(Added(c, key, value, charge, cached)) && Charged(Added(c, key, value, charge, cached))
  {
    var w := Added(c, key, value, charge, cached);
    SameCharges(c.handles, w.handles, c.lru);
    SameCharges(c.handles, w.handles, c.inUse);
    if cached {
      ChargesAppend(w.handles, c.inUse, c.nextId);
    }
  }

  lemma AddedCounted(c: Cache, key: Key, value: nat, charge: nat, cached: bool)
    requires Counted(c, None) && DeletedOnce(c)
    ensures Counted(Added(c, key, value, charge, cached), None) && DeletedOnce(Added(c, key, value, charge, cached))
    ensures c.nextId !in c.handles
  {
    assert c.nextId !in c.handles;
    assert c.nextId !in c.held;
  }

  ghost function Replaced(c: Cache, key: Key, cached: bool): Option<nat> {
    if cached && key in c.table then Some(c.table[key].id) else None
  }

  lemma AddedSound(c: Cache, key: Key, value: nat, charge: nat, cached: bool)
    requires Sound(c, None, None)
    ensures Sound(Added(c, key, value, charge, cached), None, Replaced(c, key, cached))
  {
    hide Counted, DeletedOnce, Listed, Charged;
    AddedCounted(c, key, value, charge, cached);
    AddedListed(c, key, value, charge, cached);
    AddedTabled(c, key, value, charge, cached);
  }

  lemma AddedTabled(c: Cache, key: Key, value: nat, charge: nat, cached: bool)
    requires Tabled(c, None) && c.nextId !in c.handles
    ensures Tabled(Added(c, key, value, charge, cached), Replaced(c, key, cached))
  {
  }

  /** Insert before anything is evicted. */
  ghost function Entered(c: Cache, key: Key, value: nat, charge: nat, cached: bool): (w: Cache)
    requires Sound(c, None, None)
    ensures Sound(w, None, None)
  {
    AddedSound(c, key, value, charge, cached);
    var added := Added(c, key, value, charge, cached);
    var replaced := Replaced(c, key, cached);
    if replaced.Some? then FinishErased(added, replaced.value) else added
  }

  ghost function Inserted(c: Cache, key: Key, value: nat, charge: nat, capacity: nat): (w: Cache)
    requires Sound(c, None, None)
    ensures Sound(w, None, None)
  {
    Evicted(Entered(c, key, value, charge, capacity > 0), capacity)
  }

  /** Prune: all entries that no client uses go. */
  ghost function Pruned(c: Cache): (w: Cache)
    requires Sound(c, None, None)
    ensures Sound(w, None, None) && w.lru == []
    decreases |c.lru|
  {
    if c.lru == [] then c
    else
      ErasedOldest(c);
      Pruned(Erased(c, c.handles[c.lru[0]].key))
  }

  /** Release, up to Unref: the client gives its handle back. */
  function Returned(c: Cache, id: nat): Cache { c.(held := c.held - multiset{id}) }

  lemma ReturnedSound(c: Cache, id: nat)
    requires Sound(c, None, None) && id in c.held
    ensures Sound(Returned(c, id), Some(id), None)
  {
    assert Counted(Returned(c, id), Some(id));
  }

  // ---------------------------------------------------------------- what clients can rely on

  /** An entry that a client holds stays alive, with its value, whatever else happens to the cache. */
  lemma HeldIsAlive(c: Cache, id: nat)
    requires Sound(c, None, None) && id in c.held
    ensures id in c.handles && id !in c.deleted && id !in c.lru
  {
  }

  /** When no client holds a handle, giving up the entries of the LRU list makes every deleter run, each exactly once. */
  lemma DestroyDeletesOnce(c: Cache)
    requires Sound(c, None, None) && c.held == multiset{}
    ensures c.inUse == []
    ensures Distinct(c.deleted + c.lru)
    ensures forall id :: id in c.deleted + c.lru <==> 0 <= id < c.nextId
  {
    assert forall id :: id !in c.inUse;
    var all := c.deleted + c.lru;
    forall i, j | 0 <= i < j < |all| ensures all[i] != all[j] {
      if i < |c.deleted| <= j {
        assert all[i] in c.deleted && all[j] in c.lru;
      }
    }
    forall id ensures id in all <==> 0 <= id < c.nextId {
      assert id in c.handles ==> c.handles[id].inCache;
      assert id in c.handles || id in c.deleted <==> 0 <= id < c.nextId;
    }
  }

  /** What a client sees of Insert: its entry replaces the one under the key, and only unused entries are evicted, oldest
      first and no more than needed. A capacity of 0 turns the cache off. */
  lemma InsertedEntries(c: Cache, key: Key, value: nat, charge: nat, capacity: nat) returns (n: nat)
    requires Sound(c, None, None)
    ensures var w, entered := Inserted(c, key, value, charge, capacity), Entered(c, key, value, charge, capacity > 0);
            && entered.table == (if capacity > 0 then c.table[key := Item(key, c.nextId)] else c.table)
            && entered.lru == (if capacity > 0 && key in c.table then Without(c.lru, c.table[key].id) else c.lru)
            && GaveUp(entered, w, n, capacity)
            && w.held == c.held + multiset{c.nextId}
            && (w.usage <= capacity || w.lru == [])
  {
    AddedSound(c, key, value, charge, capacity > 0);
    var added := Added(c, key, value, charge, capacity > 0);
    var replaced := Replaced(c, key, capacity > 0);
    if replaced.Some? {
      ReplacedLists(c, added, replaced.value);
    }
    n := EvictedOldest(Entered(c, key, value, charge, capacity > 0), capacity);
  }

  lemma ReplacedLists(c: Cache, added: Cache, id: nat)
    requires Sound(c, None, None) && id in c.handles && c.handles[id].inCache
    requires added.lru == c.lru && id in added.handles && added.handles[id] == c.handles[id]
    ensures var w := Dropped(Uncached(added, id), id);
            w.lru == Without(c.lru, id) && w.table == added.table && w.held == added.held
  {
  }

  // ---------------------------------------------------------------- the cache

  lemma EmptySound()
    ensures Sound(EMPTY, None, None)
  {
  }

  lemma SoundHandle(c: Cache, pending: Option<nat>, out: Option<nat>, id: nat)
    requires Sound(c, pending, out) && id in c.handles
    ensures c.handles[id].refs > 0
    ensures c.handles[id].inCache ==> Listed(c) && Charged(c)
  {
  }

  lemma HeldHandle(c: Cache, id: nat)
    requires Sound(c, None, None) && id in c.held
    ensures id in c.handles && c.handles[id].refs > 0
  {
  }

  lemma InCacheOut(c: Cache, id: nat)
    requires Sound(c, None, Some(id))
    ensures id in c.handles && c.handles[id].inCache && Listed(c) && Charged(c)
  {
  }

  lemma SoundKey(c: Cache, key: Key)
    requires Sound(c, None, None) && key in c.table
    ensures var item := c.table[key];
            item.key == key && item.id in c.handles && c.handles[item.id].inCache && c.handles[item.id].key == key
    ensures Sound(c.(table := c.table - {key}), None, Some(c.table[key].id))
  {
  }

  /** Every entry of the LRU list is in the cache, which has the only reference to it. */
  lemma OnLru(c: Cache)
    requires Sound(c, None, None)
    ensures forall i :: 0 <= i < |c.lru| ==> c.lru[i] in c.handles && c.handles[c.lru[i]].refs == 1
    ensures forall i, j :: 0 <= i < j < |c.lru| ==> c.lru[i] != c.lru[j]
  {
    assert forall i :: 0 <= i < |c.lru| ==> c.lru[i] in c.lru;
  }

  class LRUCache {
    var capacity: nat
    var usage: nat
    var lru: seq<nat>
    var inUse: seq<nat>
    const table: HandleTable
    var handles: map<nat, Handle>
    var nextId: nat
    ghost var held: multiset<nat>
    ghost var deleted: seq<nat>

    ghost function Now(): Cache
      reads this, table
    {
      Cache(handles, lru, inUse, table.contents, usage, nextId, held, deleted)
    }

    ghost predicate Valid()
      reads this, table, table.list
    {
      table.Valid() && Sound(Now(), None, None)
    }

    constructor ()
      ensures Valid() && Now() == EMPTY && capacity == 0
    {
      hide Sound;
      capacity, usage, lru, inUse, handles, nextId := 0, 0, [], [], map[], 0;
      held, deleted := multiset{}, [];
      table := new HandleTable();
      new;
      EmptySound();
      assert Now() == EMPTY;
    }

    method SetCapacity(capacity: nat)
      modifies this`capacity
      ensures this.capacity == capacity
    {
      this.capacity := capacity;
    }

    method Ref(id: nat)
      requires id in handles
      modifies this
      ensures Now() == Referred(old(Now()), id) && capacity == old(capacity)
    {
      var h := handles[id];
      if h.refs == 1 && h.inCache {
        lru := Without(lru, id);
        inUse := inUse + [id];
      }
      handles := handles[id := h.(refs := h.refs + 1)];
      held := held + multiset{id};
    }

    method Unref(id: nat)
      requires id in handles && handles[id].refs > 0
      modifies this
      ensures Now() == Dropped(old(Now()), id) && capacity == old(capacity)
    {
      var h := handles[id].(refs := handles[id].refs - 1);
      if h.refs == 0 {
        deleted := deleted + [id];
        handles := handles - {id};
      } else {
        handles := handles[id := h];
        if h.inCache && h.refs == 1 {
          inUse := Without(inUse, id);
          lru := lru + [id];
        }
      }
    }

    method FinishErase(id: nat)
      requires Sound(Now(), None, Some(id))
      modifies this
      ensures Now() == FinishErased(old(Now()), id) && Sound(Now(), None, None) && capacity == old(capacity)
    {
      hide Sound, Listed, Charged, Dropped;
      ghost var c := Now();
      InCacheOut(c, id);
      UncachedSound(c, id);
      UncachedListed(c, id);
      SoundHandle(Uncached(c, id), Some(id), None, id);
      var h := handles[id];
      lru, inUse := Without(lru, id), Without(inUse, id);
      handles := handles[id := h.(inCache := false)];
      usage := usage - h.charge;
      assert Now() == Uncached(c, id);
      Unref(id);
    }

    method Lookup(key: Key) returns (e: Option<nat>)
      requires Valid()
      modifies this
      ensures Valid() && capacity == old(capacity)
      ensures e == if key in table.contents then Some(table.contents[key].id) else None
      ensures Now() == if e.Some? then Referred(old(Now()), e.value) else old(Now())
    {
      hide Sound, Referred;
      var r := table.Lookup(key);
      e := if r.Some? then Some(r.value.id) else None;
      if e.Some? {
        SoundKey(Now(), key);
        ReferredSound(Now(), e.value);
        Ref(e.value);
      }
    }

    method Release(id: nat)
      requires Valid() && id in held
      modifies this
      ensures Valid() && capacity == old(capacity)
      ensures id in old(handles) && Now() == Dropped(Returned(old(Now()), id), id)
    {
      hide Sound, Dropped;
      HeldHandle(Now(), id);
      ReturnedSound(Now(), id);
      DroppedSound(Returned(Now(), id), id);
      held := held - multiset{id};
      Unref(id);
    }

    method Erase(key: Key)
      requires Valid()
      modifies this, table, table.list
      ensures Valid() && table.list == old(table.list) && capacity == old(capacity)
      ensures Now() == Erased(old(Now()), key)
    {
      hide Sound, FinishErased, Holds, PowerOfTwo;
      ghost var c := Now();
      if key in c.table {
        SoundKey(c, key);
      }
      var r := table.Remove(key);
      if r.Some? {
        FinishErase(r.value.id);
      } else {
        assert table.contents == c.table;
      }
    }

    /** Give up the oldest entry that no client uses. */
    method EraseOldest()
      requires Valid() && lru != []
      modifies this, table, table.list
      ensures Valid() && table.list == old(table.list) && capacity == old(capacity)
      ensures old(lru[0]) in old(handles) && Now() == Erased(old(Now()), old(handles[lru[0]].key))
      ensures lru == old(lru[1..])
    {
      hide Sound, Erased;
      ErasedOldest(Now());
      Erase(handles[lru[0]].key);
    }

    /** The first part of Insert: a new handle, which replaces the entry under its key when the cache is on. */
    method Add(key: Key, value: nat, charge: nat) returns (id: nat)
      requires Valid()
      modifies this, table, table.list
      ensures Valid() && (table.list == old(table.list) || fresh(table.list)) && capacity == old(capacity)
      ensures id == old(nextId) && Now() == Entered(old(Now()), key, value, charge, capacity > 0)
    {
      hide Sound, FinishErased, Holds, PowerOfTwo;
      ghost var c := Now();
      AddedSound(c, key, value, charge, capacity > 0);
      id := nextId;
      var h := Handle(key, value, charge, capacity > 0, if capacity > 0 then 2 else 1);
      handles, nextId := handles[id := h], nextId + 1;
      held := held + multiset{id};
      if capacity > 0 {
        inUse, usage := inUse + [id], usage + charge;
        var replaced := table.Insert(Item(key, id));
        assert Now() == Added(c, key, value, charge, true);
        if replaced.Some? {
          FinishErase(replaced.value.id);
        }
      } else {
        assert Now() == Added(c, key, value, charge, false);
      }
    }

    method Insert(key: Key, value: nat, charge: nat) returns (id: nat)
      requires Valid()
      modifies this, table, table.list
      ensures Valid() && (table.list == old(table.list) || fresh(table.list)) && capacity == old(capacity)
      ensures id == old(nextId) && Now() == Inserted(old(Now()), key, value, charge, capacity)
      ensures usage <= capacity || lru == []
    {
      hide Sound, Erased, Evicted, Entered;
      id := Add(key, value, charge);
      ghost var before := Now();
      while usage > capacity && lru != []
        invariant Valid() && (table.list == old(table.list) || fresh(table.list)) && capacity == old(capacity)
        invariant Evicted(Now(), capacity) == Evicted(before, capacity)
        decreases |lru|
      {
        EvictedStep(Now(), capacity);
        EraseOldest();
      }
      EvictedStep(Now(), capacity);
    }

    method Prune()
      requires Valid()
      modifies this, table, table.list
      ensures Valid() && table.list == old(table.list) && capacity == old(capacity)
      ensures Now() == Pruned(old(Now()))
    {
      hide Sound, Erased;
      while lru != []
        invariant Valid() && table.list == old(table.list) && capacity == old(capacity)
        invariant Pruned(Now()) == Pruned(old(Now()))
        decreases |lru|
      {
        EraseOldest();
      }
    }

    /** The destructor: no client may hold a handle any more. Afterwards every deleter has run exactly once. */
    method Destroy()
      requires Valid() && held == multiset{}
      modifies this
      ensures Distinct(deleted) && forall id :: id in deleted <==> 0 <= id < old(nextId)
    {
      hide Sound, Distinct, Holds, PowerOfTwo, DeletedOnce;
      ghost var c := Now();
      DestroyDeletesOnce(c);
      OnLru(c);
      for i := 0 to |lru|
        invariant lru == c.lru && nextId == c.nextId && deleted == c.deleted + c.lru[..i]
        invariant forall j :: i <= j < |c.lru| ==> c.lru[j] in handles && handles[c.lru[j]] == c.handles[c.lru[j]]
      {
        var e := lru[i];
        handles := handles[e := handles[e].(inCache := false)];
        Unref(e);
        assert c.lru[..i + 1] == c.lru[..i] + [e];
      }
      assert c.lru[..|c.lru|] == c.lru;
    }
  }
}
