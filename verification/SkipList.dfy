/** The skip list (db/skiplist.h): linked lists on several levels, changed by one writer while readers walk them without
    locks. Nodes are named by their keys, which are unique; None stands for the head, or for the end of a list. */
module SkipList {
  import opened InternalKeys

  /** A key by its rank in the comparator's order. */
  type Key = real
  type Node = Option<Key>

  const MAX_HEIGHT: nat := 12

  /** `next[(n, i)]` is the link of node `n` on level `i`. */
  datatype Memory = Memory(next: map<(Node, nat), Option<Key>>, maxHeight: nat)

  ghost predicate Ascending(list: seq<Key>) {
    forall i, j :: 0 <= i < j < |list| ==> list[i] < list[j]
  }

  /** The node with `j` nodes of the list up to it: the head for 0. */
  function NodeAt(list: seq<Key>, j: nat): Node
    requires j <= |list|
  {
    if j == 0 then None else Some(list[j - 1])
  }

  function KeyAt(list: seq<Key>, j: nat): Option<Key> {
    if j < |list| then Some(list[j]) else None
  }

  /** Following the links of a level from the head visits exactly `list`. */
  ghost predicate Chain(mem: Memory, level: nat, list: seq<Key>) {
    && Ascending(list)
    && forall j :: 0 <= j <= |list| ==>
         (NodeAt(list, j), level) in mem.next && mem.next[(NodeAt(list, j), level)] == KeyAt(list, j)
  }

  /** The memory holds one sorted list per level, each a part of the one below, empty from the current height on. */
  ghost predicate Shape(mem: Memory, lists: seq<seq<Key>>) {
    && |lists| == MAX_HEIGHT && 1 <= mem.maxHeight <= MAX_HEIGHT
    && (forall i :: 0 <= i < MAX_HEIGHT ==> Chain(mem, i, lists[i]))
    && (forall i :: 0 <= i < MAX_HEIGHT - 1 ==> Elements(lists[i + 1]) <= Elements(lists[i]))
    && (forall i :: mem.maxHeight <= i < MAX_HEIGHT ==> lists[i] == [])
  }

  /** How many keys of the list are smaller. */
  function Position(list: seq<Key>, key: Key): (p: nat)
    ensures p <= |list|
    ensures forall j :: 0 <= j < p ==> list[j] < key
    ensures p < |list| ==> list[p] >= key
  {
    if list == [] || list[0] >= key then 0 else 1 + Position(list[1..], key)
  }

  lemma PositionSplits(list: seq<Key>, key: Key, j: nat)
    requires Ascending(list) && j < |list|
    ensures j < Position(list, key) <==> list[j] < key
  {
  }

  function Before(list: seq<Key>, key: Key): Node { NodeAt(list, Position(list, key)) }

  function AtOrAfter(list: seq<Key>, key: Key): Option<Key> { KeyAt(list, Position(list, key)) }

  function WithKey(list: seq<Key>, key: Key): seq<Key> {
    var p := Position(list, key);
    list[..p] + [key] + list[p..]
  }

  // ---------------------------------------------------------------- linking a node into one level

  lemma WithKeyAt(list: seq<Key>, key: Key, i: nat)
    requires i <= |list|
    ensures var p := Position(list, key);
            WithKey(list, key)[i] == if i < p then list[i] else if i == p then key else list[i - 1]
  {
  }

  lemma PositionIsSharp(list: seq<Key>, key: Key, i: nat)
    requires Ascending(list) && key !in list && i < |list|
    ensures if i < Position(list, key) then list[i] < key else key < list[i]
  {
    PositionSplits(list, key, i);
    assert list[i] in list;
  }

  lemma WithKeyHolds(list: seq<Key>, key: Key)
    requires Ascending(list) && key !in list
    ensures Ascending(WithKey(list, key))
    ensures Elements(WithKey(list, key)) == Elements(list) + {key}
  {
    hide WithKey, Position;
    var p := Position(list, key);
    var more := WithKey(list, key);
    WithKeyLength(list, key);
    forall i, j | 0 <= i < j < |more| ensures more[i] < more[j] {
      WithKeyAt(list, key, i);
      WithKeyAt(list, key, j);
      if i < |list| {
        PositionIsSharp(list, key, i);
      }
      PositionIsSharp(list, key, j - 1);
    }
    forall k ensures k in more <==> k in list || k == key {
      WithKeyAt(list, key, p);
      if k in list {
        var j :| 0 <= j < |list| && list[j] == k;
        WithKeyAt(list, key, if j < p then j else j + 1);
      }
      if k in more {
        var j :| 0 <= j < |more| && more[j] == k;
        WithKeyAt(list, key, j);
      }
    }
  }

  lemma WithKeyLength(list: seq<Key>, key: Key)
    ensures |WithKey(list, key)| == |list| + 1
  {
  }

  /** Publishing a prepared node makes it part of its level. */
  lemma PublishLinks(mem: Memory, level: nat, list: seq<Key>, key: Key)
    requires Chain(mem, level, list) && key !in list
    requires (Some(key), level) in mem.next && mem.next[(Some(key), level)] == AtOrAfter(list, key)
    ensures Chain(mem.(next := mem.next[(Before(list, key), level) := Some(key)]), level, WithKey(list, key))
  {
    WithKeyHolds(list, key);
    var p := Position(list, key);
    var more := WithKey(list, key);
    var w := mem.(next := mem.next[(Before(list, key), level) := Some(key)]);
    forall j | 0 <= j <= |more|
      ensures (NodeAt(more, j), level) in w.next && w.next[(NodeAt(more, j), level)] == KeyAt(more, j)
    {
      if j < p {
        assert NodeAt(more, j) == NodeAt(list, j);
      } else if j == p {
        assert NodeAt(more, j) == NodeAt(list, p);
      } else if j == p + 1 {
        assert NodeAt(more, j) == Some(key);
      } else {
        assert NodeAt(more, j) == NodeAt(list, j - 1);
      }
    }
  }

  /** Links of other levels, and of nodes that are not in a list, do not matter to it. */
  lemma OtherLink(mem: Memory, level: nat, list: seq<Key>, node: Node, at: nat, value: Option<Key>)
    requires Chain(mem, level, list)
    requires at != level || (node.Some? && node.value !in list)
    ensures Chain(mem.(next := mem.next[(node, at) := value]), level, list)
  {
  }

  // ---------------------------------------------------------------- searching one level

  /** `node` is the head, or in the list with a key below `key`: where a search may stand. */
  ghost predicate Behind(list: seq<Key>, node: Node, key: Key) {
    node.Some? ==> node.value in list && node.value < key
  }

  ghost function IndexOf(list: seq<Key>, node: Node): (j: nat)
    requires node.Some? ==> node.value in list
    ensures j <= |list| && NodeAt(list, j) == node
  {
    if node.None? then 0
    else
      var i :| 0 <= i < |list| && list[i] == node.value;
      i + 1
  }

  /** One turn of a search: the link read from where it stands leads to the next node below the key, or shows that the
      search stands right before the key. */
  lemma SearchTurn(mem: Memory, level: nat, list: seq<Key>, node: Node, key: Key)
    requires Chain(mem, level, list) && Behind(list, node, key)
    ensures (node, level) in mem.next
    ensures var next := mem.next[(node, level)];
            if next.Some? && next.value < key then
              Behind(list, next, key) && IndexOf(list, next) == IndexOf(list, node) + 1
            else node == Before(list, key) && next == AtOrAfter(list, key)
  {
    var j := IndexOf(list, node);
    assert mem.next[(NodeAt(list, j), level)] == KeyAt(list, j);
    var p := Position(list, key);
    if j > 0 {
      PositionSplits(list, key, j - 1);
    }
    if j < |list| {
      PositionSplits(list, key, j);
      if list[j] < key {
        OneIndex(list, j + 1, IndexOf(list, Some(list[j])));
      }
    }
  }

  lemma OneIndex(list: seq<Key>, i: nat, j: nat)
    requires Ascending(list) && 0 < i <= |list| && 0 < j <= |list| && NodeAt(list, i) == NodeAt(list, j)
    ensures i == j
  {
  }

  lemma BehindBelow(upper: seq<Key>, lower: seq<Key>, node: Node, key: Key)
    requires Elements(upper) <= Elements(lower) && Behind(upper, node, key)
    ensures Behind(lower, node, key)
  {
    assert node.Some? ==> node.value in Elements(upper);
  }

  lemma BeforeIsBehind(list: seq<Key>, key: Key)
    ensures Behind(list, Before(list, key), key)
  {
  }

  // ---------------------------------------------------------------- the list as used by one thread

  class SkipList {
    var mem: Memory
    /** The keys on each level. */
    ghost var lists: seq<seq<Key>>

    ghost predicate Valid()
      reads this
    {
      Shape(mem, lists)
    }

    constructor ()
      ensures Valid() && lists == seq(MAX_HEIGHT, _ => [])
    {
      mem := Memory(map i: nat | i < MAX_HEIGHT :: (None, i) := None, 1);
      lists := seq(MAX_HEIGHT, _ => []);
    }

    /** The first node at or after the key, and on every level in use the last node before it. */
    method FindGreaterOrEqual(key: Key) returns (x: Option<Key>, prev: seq<Node>)
      requires Valid()
      ensures x == AtOrAfter(lists[0], key)
      ensures |prev| == mem.maxHeight && forall i :: 0 <= i < |prev| ==> prev[i] == Before(lists[i], key)
    {
      var node: Node := None;
      var level := mem.maxHeight - 1;
      prev := seq(mem.maxHeight, _ => None);
      while true
        invariant 0 <= level < mem.maxHeight == |prev|
        invariant Behind(lists[level], node, key)
        invariant forall i :: level < i < |prev| ==> prev[i] == Before(lists[i], key)
        decreases level, |lists[level]| - IndexOf(lists[level], node)
      {
        SearchTurn(mem, level, lists[level], node, key);
        var next := mem.next[(node, level)];
        if next.Some? && next.value < key {
          node := next;
        } else {
          prev := prev[level := node];
          if level == 0 {
            return next, prev;
          }
          BehindBelow(lists[level], lists[level - 1], node, key);
          level := level - 1;
        }
      }
    }

    /** The last node before the key; the head if there is none. */
    method FindLessThan(key: Key) returns (node: Node)
      requires Valid()
      ensures node == Before(lists[0], key)
    {
      node := None;
      var level := mem.maxHeight - 1;
      while true
        invariant 0 <= level < mem.maxHeight
        invariant Behind(lists[level], node, key)
        decreases level, |lists[level]| - IndexOf(lists[level], node)
      {
        SearchTurn(mem, level, lists[level], node, key);
        var next := mem.next[(node, level)];
        if next.None? || next.value >= key {
          if level == 0 {
            return;
          }
          BehindBelow(lists[level], lists[level - 1], node, key);
          level := level - 1;
        } else {
          node := next;
        }
      }
    }

    /** The last node; the head if the list is empty. */
    method FindLast() returns (node: Node)
      requires Valid()
      ensures node == NodeAt(lists[0], |lists[0]|)
    {
      node := None;
      var level := mem.maxHeight - 1;
      while true
        invariant 0 <= level < mem.maxHeight
        invariant node.Some? ==> node.value in lists[level]
        decreases level, |lists[level]| - IndexOf(lists[level], node)
      {
        ghost var list, j := lists[level], IndexOf(lists[level], node);
        assert mem.next[(NodeAt(list, j), level)] == KeyAt(list, j);
        var next := mem.next[(node, level)];
        if next.None? {
          if level == 0 {
            return;
          }
          assert node.Some? ==> node.value in Elements(lists[level]);
          level := level - 1;
        } else {
          OneIndex(list, j + 1, IndexOf(list, next));
          node := next;
        }
      }
    }

    method Contains(key: Key) returns (found: bool)
      requires Valid()
      ensures found <==> key in lists[0]
    {
      var x, _ := FindGreaterOrEqual(key);
      found := x == Some(key);
      if key in lists[0] {
        var j :| 0 <= j < |lists[0]| && lists[0][j] == key;
        PositionSplits(lists[0], key, j);
      }
    }

    /** Link a new node into the levels below `height`. */
    method Insert(key: Key, height: nat)
      requires Valid() && key !in lists[0] && 1 <= height <= MAX_HEIGHT
      modifies this
      ensures Valid() && |lists| == MAX_HEIGHT
      ensures forall i :: 0 <= i < MAX_HEIGHT ==>
                lists[i] == if i < height then WithKey(old(lists[i]), key) else old(lists[i])
    {
      hide Chain, WithKey, Before;
      var x, prev := FindGreaterOrEqual(key);
      ShapeSorted(mem, lists);
      if height > mem.maxHeight {
        prev := prev + seq(height - mem.maxHeight, _ => None);
        mem := mem.(maxHeight := height);
      }
      NotAbove(lists, key, 0);
      ghost var was := lists;
      for i := 0 to height
        invariant Shape(mem, lists) && height <= mem.maxHeight && |prev| >= height
        invariant Linking(was, lists, key, i)
        invariant forall j :: 0 <= j < height ==> prev[j] == Before(was[j], key)
      {
        LinkOne(was, lists, key, i);
        PrepareAndPublish(mem, lists, key, i);
        mem := mem.(next := mem.next[(Some(key), i) := mem.next[(prev[i], i)]]);
        mem := mem.(next := mem.next[(prev[i], i) := Some(key)]);
        lists := lists[i := WithKey(lists[i], key)];
      }
    }
  }

  lemma ShapeSorted(mem: Memory, lists: seq<seq<Key>>)
    requires Shape(mem, lists)
    ensures forall j :: 0 <= j < MAX_HEIGHT ==> Ascending(lists[j])
    ensures forall j :: mem.maxHeight <= j < MAX_HEIGHT ==> lists[j] == []
    ensures forall key :: Before([], key) == None
    ensures forall h: nat :: mem.maxHeight <= h <= MAX_HEIGHT ==> Shape(mem.(maxHeight := h), lists)
  {
    forall j | 0 <= j < MAX_HEIGHT ensures Ascending(lists[j]) {
      assert Chain(mem, j, lists[j]);
    }
    forall h: nat | mem.maxHeight <= h <= MAX_HEIGHT ensures Shape(mem.(maxHeight := h), lists) {
      forall i | 0 <= i < MAX_HEIGHT ensures Chain(mem.(maxHeight := h), i, lists[i]) {
        assert Chain(mem, i, lists[i]);
      }
    }
  }

  /** The key is linked into the levels below `i`. */
  ghost predicate Linking(was: seq<seq<Key>>, lists: seq<seq<Key>>, key: Key, i: nat) {
    && |lists| == |was| == MAX_HEIGHT
    && (forall j :: 0 <= j < MAX_HEIGHT ==> lists[j] == if j < i then WithKey(was[j], key) else was[j])
    && (forall j :: 0 <= j < MAX_HEIGHT ==> key !in was[j] && Ascending(was[j]))
  }

  lemma LinkOne(was: seq<seq<Key>>, lists: seq<seq<Key>>, key: Key, i: nat)
    requires Linking(was, lists, key, i) && i < MAX_HEIGHT
    ensures key !in lists[i] && lists[i] == was[i]
    ensures i > 0 ==> key in lists[i - 1]
    ensures Linking(was, lists[i := WithKey(lists[i], key)], key, i + 1)
  {
    hide WithKey;
    if i > 0 {
      WithKeyHolds(was[i - 1], key);
      assert key in Elements(lists[i - 1]);
    }
  }

  /** A cursor over the keys of a list; None is "not valid". */
  class Iterator {
    const list: SkipList
    var node: Option<Key>

    ghost predicate Valid()
      reads this, list
    {
      list.Valid() && (node.Some? ==> node.value in list.lists[0])
    }

    constructor (list: SkipList)
      requires list.Valid()
      ensures this.list == list && Valid() && node.None?
    {
      this.list, node := list, None;
    }

    method SeekToFirst()
      requires Valid()
      modifies this
      ensures Valid() && node == KeyAt(list.lists[0], 0)
    {
      assert list.mem.next[(NodeAt(list.lists[0], 0), 0)] == KeyAt(list.lists[0], 0);
      node := list.mem.next[(None, 0)];
    }

    method SeekToLast()
      requires Valid()
      modifies this
      ensures Valid() && node == NodeAt(list.lists[0], |list.lists[0]|)
    {
      node := list.FindLast();
    }

    method Seek(target: Key)
      requires Valid()
      modifies this
      ensures Valid() && node == AtOrAfter(list.lists[0], target)
    {
      var x, _ := list.FindGreaterOrEqual(target);
      node := x;
    }

    /** From the key at one position to the key at the next; past the last one to the end. */
    method Next(ghost j: nat)
      requires Valid() && j < |list.lists[0]| && node == Some(list.lists[0][j])
      modifies this
      ensures Valid() && node == KeyAt(list.lists[0], j + 1)
    {
      assert node == NodeAt(list.lists[0], j + 1);
      node := list.mem.next[(node, 0)];
    }

    /** From the key at one position to the key before; before the first one to the end. */
    method Prev(ghost j: nat)
      requires Valid() && j < |list.lists[0]| && node == Some(list.lists[0][j])
      modifies this
      ensures Valid() && node == NodeAt(list.lists[0], j)
    {
      AtPosition(list.lists[0], j);
      node := list.FindLessThan(node.value);
    }
  }

  lemma AtPosition(list: seq<Key>, j: nat)
    requires Ascending(list) && j < |list|
    ensures Position(list, list[j]) == j
  {
    PositionSplits(list, list[j], j);
    if j > 0 {
      PositionSplits(list, list[j], j - 1);
    }
  }

  /** A key missing on a level is missing on the levels above. */
  lemma {:induction false} NotAbove(lists: seq<seq<Key>>, key: Key, level: nat)
    requires |lists| == MAX_HEIGHT && level < MAX_HEIGHT && key !in lists[level]
    requires forall i :: 0 <= i < MAX_HEIGHT - 1 ==> Elements(lists[i + 1]) <= Elements(lists[i])
    ensures forall j :: level <= j < MAX_HEIGHT ==> key !in lists[j]
    decreases MAX_HEIGHT - level
  {
    if level + 1 < MAX_HEIGHT {
      assert key !in Elements(lists[level]);
      assert key !in Elements(lists[level + 1]);
      NotAbove(lists, key, level + 1);
    }
  }

  // ---------------------------------------------------------------- the two steps of linking

  /** The memory after the new node's own link on a level is set; the node is not reachable there yet. */
  function Prepared(mem: Memory, key: Key, level: nat, prev: Node): Memory
    requires (prev, level) in mem.next
  {
    mem.(next := mem.next[(Some(key), level) := mem.next[(prev, level)]])
  }

  function Published(mem: Memory, key: Key, level: nat, prev: Node): Memory {
    mem.(next := mem.next[(prev, level) := Some(key)])
  }

  lemma PrepareKeepsShape(mem: Memory, lists: seq<seq<Key>>, key: Key, level: nat)
    requires Shape(mem, lists) && level < MAX_HEIGHT && key !in lists[level]
    ensures var prev := Before(lists[level], key);
            && (prev, level) in mem.next
            && Shape(Prepared(mem, key, level, prev), lists)
            && Prepared(mem, key, level, prev).next[(Some(key), level)] == AtOrAfter(lists[level], key)
  {
    var prev := Before(lists[level], key);
    BeforeIsBehind(lists[level], key);
    SearchTurn(mem, level, lists[level], prev, key);
    assert NodeAt(lists[level], Position(lists[level], key)) == prev;
    assert mem.next[(prev, level)] == KeyAt(lists[level], Position(lists[level], key));
    forall i | 0 <= i < MAX_HEIGHT ensures Chain(Prepared(mem, key, level, prev), i, lists[i]) {
      OtherLink(mem, i, lists[i], Some(key), level, mem.next[(prev, level)]);
    }
  }

  lemma PublishKeepsShape(mem: Memory, lists: seq<seq<Key>>, key: Key, level: nat)
    requires Shape(mem, lists) && level < mem.maxHeight && key !in lists[level]
    requires level > 0 ==> key in lists[level - 1]
    requires (Some(key), level) in mem.next && mem.next[(Some(key), level)] == AtOrAfter(lists[level], key)
    ensures Shape(Published(mem, key, level, Before(lists[level], key)), lists[level := WithKey(lists[level], key)])
  {
    var prev := Before(lists[level], key);
    var more := lists[level := WithKey(lists[level], key)];
    PublishLinks(mem, level, lists[level], key);
    WithKeyHolds(lists[level], key);
    forall i | 0 <= i < MAX_HEIGHT ensures Chain(Published(mem, key, level, prev), i, more[i]) {
      if i != level {
        OtherLink(mem, i, lists[i], prev, level, Some(key));
      }
    }
    forall i | 0 <= i < MAX_HEIGHT - 1 ensures Elements(more[i + 1]) <= Elements(more[i]) {
      assert Elements(lists[i + 1]) <= Elements(lists[i]);
    }
  }

  lemma PrepareAndPublish(mem: Memory, lists: seq<seq<Key>>, key: Key, level: nat)
    requires Shape(mem, lists) && level < mem.maxHeight && key !in lists[level]
    requires level > 0 ==> key in lists[level - 1]
    ensures var prev := Before(lists[level], key);
            && (prev, level) in mem.next
            && Shape(Published(Prepared(mem, key, level, prev), key, level, prev), lists[level := WithKey(lists[level], key)])
  {
    PrepareKeepsShape(mem, lists, key, level);
    PublishKeepsShape(Prepared(mem, key, level, Before(lists[level], key)), lists, key, level);
  }
}
