/** The hash table of the cache (util/cache.cc, HandleTable): buckets that are chains of handles. A handle is named by a
    number; its key and hash never change. */
module HandleTable {
  import opened InternalKeys
  import opened Coding

  datatype Key = Key(hash: uint32, bytes: Slice)
  datatype Item = Item(key: Key, id: nat)

  predicate PowerOfTwo(n: nat) {
    n == 1 || (n > 1 && n % 2 == 0 && PowerOfTwo(n / 2))
  }

  /** `hash & (length - 1)`, for a length that is a power of two. */
  function Bucket(key: Key, length: nat): (i: nat)
    requires length > 0
    ensures i < length
  {
    key.hash % length
  }

  /** Where FindPointer stops in a chain: at the item with this key, or at the end. */
  function Find(chain: seq<Item>, key: Key): (i: nat)
    ensures i <= |chain|
    ensures i < |chain| ==> chain[i].key == key
    ensures forall j :: 0 <= j < i ==> chain[j].key != key
  {
    if chain == [] || chain[0].key == key then 0 else 1 + Find(chain[1..], key)
  }

  /** The buckets hold exactly `contents`, every item in the bucket of its hash. */
  ghost predicate Holds(list: seq<seq<Item>>, contents: map<Key, Item>) {
    && list != []
    && (forall i, a :: 0 <= i < |list| && 0 <= a < |list[i]| ==> Placed(list, contents, i, a))
    && (forall k <- contents :: contents[k].key == k && contents[k] in list[Bucket(k, |list|)])
    && (forall i :: 0 <= i < |list| ==> KeysDiffer(list[i]))
  }

  ghost predicate Placed(list: seq<seq<Item>>, contents: map<Key, Item>, i: nat, a: nat)
    requires i < |list| && a < |list[i]|
  {
    var item := list[i][a];
    Bucket(item.key, |list|) == i && item.key in contents && contents[item.key] == item
  }

  ghost predicate KeysDiffer(chain: seq<Item>) {
    forall a, b :: 0 <= a < b < |chain| ==> chain[a].key != chain[b].key
  }

  lemma FindsContents(list: seq<seq<Item>>, contents: map<Key, Item>, key: Key)
    requires Holds(list, contents)
    ensures var chain := list[Bucket(key, |list|)];
            var i := Find(chain, key);
            && KeysDiffer(chain)
            && if key in contents then i < |chain| && chain[i] == contents[key] else i == |chain|
  {
    var b := Bucket(key, |list|);
    var i := Find(list[b], key);
    if i < |list[b]| {
      assert Placed(list, contents, b, i);
    }
  }

  /** A bucket changes; the items of the others stay where they are. */
  lemma BucketChanged(list: seq<seq<Item>>, contents: map<Key, Item>, key: Key, chain: seq<Item>, item: Option<Item>)
    requires Holds(list, contents) && KeysDiffer(chain)
    requires item.Some? ==> item.value.key == key && item.value in chain
    requires var was := list[Bucket(key, |list|)];
             && (forall x <- chain :: (x in was && x.key != key) || Some(x) == item)
             && (forall x <- was :: x.key != key ==> x in chain)
    ensures Holds(list[Bucket(key, |list|) := chain], if item.Some? then contents[key := item.value] else contents - {key})
  {
    var b := Bucket(key, |list|);
    var next, after := list[b := chain], if item.Some? then contents[key := item.value] else contents - {key};
    forall i, a | 0 <= i < |next| && 0 <= a < |next[i]| ensures Placed(next, after, i, a) {
      if i == b {
        var x := chain[a];
        if Some(x) != item {
          var c :| 0 <= c < |list[b]| && list[b][c] == x;
          assert Placed(list, contents, b, c);
        }
      } else {
        assert Placed(list, contents, i, a);
      }
    }
  }

  lemma InsertedChain(chain: seq<Item>, item: Item)
    requires KeysDiffer(chain)
    ensures var i := Find(chain, item.key);
            var next := if i < |chain| then chain[i := item] else chain + [item];
            && KeysDiffer(next) && item in next
            && (forall x <- next :: (x in chain && x.key != item.key) || x == item)
            && (forall x <- chain :: x.key != item.key ==> x in next)
  {
    var i := Find(chain, item.key);
    var next := if i < |chain| then chain[i := item] else chain + [item];
    assert next[i] == item;
    forall x | x in next ensures (x in chain && x.key != item.key) || x == item {
      var j :| 0 <= j < |next| && next[j] == x;
      if j != i {
        assert chain[j] == x;
      }
    }
    forall x | x in chain && x.key != item.key ensures x in next {
      var j :| 0 <= j < |chain| && chain[j] == x;
      assert next[j] == x;
    }
  }

  /** Where the item at `j` stood before the one at `i` was taken out. */
  function Skip(i: nat, j: nat): nat { if j < i then j else j + 1 }

  lemma SkippedKeys(chain: seq<Item>, i: nat)
    requires KeysDiffer(chain) && i < |chain|
    ensures var next := chain[..i] + chain[i + 1..];
            && KeysDiffer(next)
            && forall j :: 0 <= j < |next| ==> next[j] == chain[Skip(i, j)] && next[j].key != chain[i].key
  {
    var next := chain[..i] + chain[i + 1..];
    forall j | 0 <= j < |next| ensures next[j] == chain[Skip(i, j)] && next[j].key != chain[i].key {
      assert j < i ==> next[j] == chain[j];
      assert j >= i ==> next[j] == chain[j + 1];
    }
    forall a, b | 0 <= a < b < |next| ensures next[a].key != next[b].key {
      assert Skip(i, a) < Skip(i, b);
    }
  }

  lemma RemovedChain(chain: seq<Item>, key: Key)
    requires KeysDiffer(chain) && Find(chain, key) < |chain|
    ensures var i := Find(chain, key);
            var next := chain[..i] + chain[i + 1..];
            && KeysDiffer(next)
            && (forall x <- next :: x in chain && x.key != key)
            && (forall x <- chain :: x.key != key ==> x in next)
  {
    var i := Find(chain, key);
    var next := chain[..i] + chain[i + 1..];
    SkippedKeys(chain, i);
    hide KeysDiffer, Find;
    forall x | x in chain && x.key != key ensures x in next {
      var j :| 0 <= j < |chain| && chain[j] == x;
      assert x in if j < i then chain[..i] else chain[i + 1..];
    }
  }

  lemma FrontChain(list: seq<seq<Item>>, contents: map<Key, Item>, item: Item)
    requires Holds(list, contents) && item.key !in contents
    ensures var chain := list[Bucket(item.key, |list|)];
            KeysDiffer([item] + chain) && forall x <- chain :: x.key != item.key
  {
    var b := Bucket(item.key, |list|);
    forall x | x in list[b] ensures x.key != item.key {
      var a :| 0 <= a < |list[b]| && list[b][a] == x;
      assert Placed(list, contents, b, a);
    }
  }

  // ---------------------------------------------------------------- what a resize has moved so far

  predicate Passed(list: seq<seq<Item>>, key: Key, i: nat, a: nat)
    requires list != []
  {
    var b := Bucket(key, |list|);
    b < i || (b == i && Find(list[b], key) < a)
  }

  ghost predicate MovedUpTo(list: seq<seq<Item>>, contents: map<Key, Item>, moved: map<Key, Item>, i: nat, a: nat)
    requires list != []
  {
    && (forall k <- moved :: k in contents && moved[k] == contents[k])
    && (forall k <- contents :: k in moved <==> Passed(list, k, i, a))
  }

  lemma NothingMoved(list: seq<seq<Item>>, contents: map<Key, Item>, empty: seq<seq<Item>>)
    requires Holds(list, contents)
    requires empty != [] && forall i :: 0 <= i < |empty| ==> empty[i] == []
    ensures list != [] && Holds(empty, map[]) && MovedUpTo(list, contents, map[], 0, 0)
  {
  }

  lemma FindAt(list: seq<seq<Item>>, contents: map<Key, Item>, i: nat, a: nat)
    requires Holds(list, contents) && i < |list| && a < |list[i]|
    ensures var key := list[i][a].key;
            key in contents && contents[key] == list[i][a] && Bucket(key, |list|) == i && Find(list[i], key) == a
  {
    assert Placed(list, contents, i, a);
    var key := list[i][a].key;
    var f := Find(list[i], key);
    if f != a {
      assert false;
    }
  }

  lemma NotYetMoved(list: seq<seq<Item>>, contents: map<Key, Item>, moved: map<Key, Item>, i: nat, a: nat)
    requires Holds(list, contents) && i < |list| && a < |list[i]| && MovedUpTo(list, contents, moved, i, a)
    ensures list[i][a].key !in moved
  {
    FindAt(list, contents, i, a);
  }

  lemma MovedOne(list: seq<seq<Item>>, contents: map<Key, Item>, moved: map<Key, Item>, i: nat, a: nat)
    requires Holds(list, contents) && i < |list| && a < |list[i]| && MovedUpTo(list, contents, moved, i, a)
    ensures MovedUpTo(list, contents, moved[list[i][a].key := list[i][a]], i, a + 1)
  {
    FindAt(list, contents, i, a);
    var item := list[i][a];
    forall k | k in contents && k != item.key ensures Passed(list, k, i, a + 1) <==> Passed(list, k, i, a) {
      FindsContents(list, contents, k);
    }
  }

  lemma ChainMoved(list: seq<seq<Item>>, contents: map<Key, Item>, moved: map<Key, Item>, i: nat)
    requires Holds(list, contents) && i < |list| && MovedUpTo(list, contents, moved, i, |list[i]|)
    ensures MovedUpTo(list, contents, moved, i + 1, 0)
  {
    forall k | k in contents ensures Passed(list, k, i + 1, 0) <==> Passed(list, k, i, |list[i]|) {
      FindsContents(list, contents, k);
    }
  }

  lemma AllMoved(list: seq<seq<Item>>, contents: map<Key, Item>, moved: map<Key, Item>)
    requires Holds(list, contents) && MovedUpTo(list, contents, moved, |list|, 0)
    ensures moved == contents
  {
    assert forall k <- contents :: Passed(list, k, |list|, 0);
  }

  /** The number of buckets for `elems` entries. */
  method NewLength(elems: nat) returns (length: nat)
    ensures length >= 4 && length >= elems && PowerOfTwo(length)
    ensures length > 4 ==> length / 2 < elems
  {
    length := 4;
    while length < elems
      invariant length >= 4 && PowerOfTwo(length)
      invariant length > 4 ==> length / 2 < elems
    {
      length := length * 2;
    }
  }

  /** Put an item with a new key at the front of its bucket. */
  method PushFront(list: array<seq<Item>>, item: Item, ghost contents: map<Key, Item>)
    requires Holds(list[..], contents) && item.key !in contents
    modifies list
    ensures Holds(list[..], contents[item.key := item])
  {
    ghost var before := list[..];
    var b := Bucket(item.key, list.Length);
    FrontChain(before, contents, item);
    list[b] := [item] + list[b];
    assert list[..] == before[b := list[b]];
    BucketChanged(before, contents, item.key, list[b], Some(item));
  }

  class HandleTable {
    var list: array<seq<Item>>
    var elems: nat
    ghost var contents: map<Key, Item>

    ghost predicate Stored()
      reads this, list
    {
      Holds(list[..], contents) && elems == |contents| && PowerOfTwo(list.Length)
    }

    /** Between calls there is at most one handle per bucket on average. */
    ghost predicate Valid()
      reads this, list
    {
      Stored() && elems <= list.Length
    }

    constructor ()
      ensures Valid() && contents == map[] && fresh(list)
    {
      list := new seq<Item>[4](_ => []);
      elems, contents := 0, map[];
    }

    method FindPointer(key: Key) returns (b: nat, i: nat)
      requires Stored()
      ensures b == Bucket(key, list.Length) && i == Find(list[b], key)
    {
      b := Bucket(key, list.Length);
      var chain := list[b];
      i := 0;
      assert chain[0..] == chain;
      while i < |chain| && chain[i].key != key
        invariant i <= |chain| && Find(chain, key) == i + Find(chain[i..], key)
      {
        assert chain[i..][1..] == chain[i + 1..];
        i := i + 1;
      }
    }

    method Lookup(key: Key) returns (r: Option<Item>)
      requires Valid()
      ensures r == if key in contents then Some(contents[key]) else None
    {
      var b, i := FindPointer(key);
      FindsContents(list[..], contents, key);
      r := if i < |list[b]| then Some(list[b][i]) else None;
    }

    /** Put a handle into the table; the handle it replaces, if any, is returned. */
    method Insert(item: Item) returns (replaced: Option<Item>)
      requires Valid()
      modifies this, list
      ensures Valid() && (list == old(list) || fresh(list))
      ensures contents == old(contents)[item.key := item]
      ensures replaced == if item.key in old(contents) then Some(old(contents)[item.key]) else None
    {
      hide Holds, KeysDiffer, PowerOfTwo;
      var b, i := FindPointer(item.key);
      FindsContents(list[..], contents, item.key);
      ghost var before, was := list[..], contents;
      var chain := list[b];
      replaced := if i < |chain| then Some(chain[i]) else None;
      InsertedChain(chain, item);
      list[b] := if i < |chain| then chain[i := item] else chain + [item];
      assert list[..] == before[b := list[b]];
      BucketChanged(before, was, item.key, list[b], Some(item));
      contents := contents[item.key := item];
      if replaced.None? {
        elems := elems + 1;
        if elems > list.Length {
          Resize();
        }
      }
    }

    method Remove(key: Key) returns (result: Option<Item>)
      requires Valid()
      modifies this, list
      ensures Valid() && list == old(list)
      ensures contents == old(contents) - {key}
      ensures result == if key in old(contents) then Some(old(contents)[key]) else None
    {
      hide Holds, KeysDiffer, PowerOfTwo;
      var b, i := FindPointer(key);
      FindsContents(list[..], contents, key);
      ghost var before, was := list[..], contents;
      var chain := list[b];
      result := if i < |chain| then Some(chain[i]) else None;
      if result.Some? {
        RemovedChain(chain, key);
        list[b] := chain[..i] + chain[i + 1..];
        assert list[..] == before[b := list[b]];
        BucketChanged(before, was, key, list[b], None);
        contents := contents - {key};
        elems := elems - 1;
      } else {
        assert contents - {key} == contents;
      }
    }

    /** Move every handle, chain by chain, to the front of its new bucket. */
    method Resize()
      requires Stored()
      modifies this
      ensures Valid() && fresh(list) && contents == old(contents) && elems == old(elems)
    {
      hide Holds, MovedUpTo;
      var newLength := NewLength(elems);
      var newList := new seq<Item>[newLength](_ => []);
      ghost var moved: map<Key, Item> := map[];
      NothingMoved(list[..], contents, newList[..]);
      var count := 0;
      for i := 0 to list.Length
        invariant Stored() && list == old(list) && contents == old(contents) && elems == old(elems)
        invariant newList.Length == newLength && fresh(newList) && newList != list
        invariant Holds(newList[..], moved) && count == |moved|
        invariant MovedUpTo(list[..], contents, moved, i, 0)
      {
        var chain := list[i];
        for a := 0 to |chain|
          invariant Stored() && list == old(list) && contents == old(contents) && elems == old(elems) && chain == list[i]
          invariant newList.Length == newLength && fresh(newList) && newList != list
          invariant Holds(newList[..], moved) && count == |moved|
          invariant MovedUpTo(list[..], contents, moved, i, a)
        {
          var item := chain[a];
          NotYetMoved(list[..], contents, moved, i, a);
          MovedOne(list[..], contents, moved, i, a);
          PushFront(newList, item, moved);
          moved := moved[item.key := item];
          count := count + 1;
        }
        ChainMoved(list[..], contents, moved, i);
      }
      AllMoved(list[..], contents, moved);
      assert count == elems;
      list := newList;
    }
  }
}
