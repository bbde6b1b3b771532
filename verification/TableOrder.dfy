/** The order of keys while a table is built (table/table_builder.cc): finished blocks, the block being filled, and the
    index entries with shortened keys, of which the one for the newest block is held back until the next key is known. */
module TableOrder {
  import opened InternalKeys
  import opened BlockBuilder
  import opened Block
  import opened TwoLevelIterator

  datatype Build = Build(blocks: seq<seq<KeyValue>>, data: seq<KeyValue>, index: seq<KeyValue>)

  /** All entries added so far. */
  function All(s: Build): seq<KeyValue> { Flat(s.blocks) + s.data }

  lemma AllCut(s: Build)
    ensures All(s.(blocks := s.blocks + [s.data], data := [])) == All(s)
  {
    assert (s.blocks + [s.data])[..|s.blocks|] == s.blocks;
  }

  lemma AllInBlocks(s: Build)
    ensures s.data == [] ==> All(s) == Flat(s.blocks)
  {
  }

  type Separator = (Slice, Slice) -> Slice
  type Successor = Slice -> Slice

  /** What the table needs of its comparator's shortening functions. */
  ghost predicate Shortens(rank: Ranking, separator: Separator, successor: Successor) {
    && (forall a, b :: rank(a) < rank(b) ==> rank(a) <= rank(separator(a, b)) < rank(b) && |separator(a, b)| <= |a|)
    && (forall a :: rank(a) <= rank(successor(a)) && |successor(a)| <= |a|)
  }

  ghost predicate Below(rank: Ranking, es: seq<KeyValue>, others: seq<KeyValue>) {
    forall i, j :: 0 <= i < |es| && 0 <= j < |others| ==> rank(es[i].key) < rank(others[j].key)
  }

  /** No key of the block is above the index key. */
  ghost predicate UpTo(rank: Ranking, es: seq<KeyValue>, key: Slice) {
    forall i :: 0 <= i < |es| ==> rank(es[i].key) <= rank(key)
  }

  ghost predicate Above(rank: Ranking, es: seq<KeyValue>, key: Slice) {
    forall i :: 0 <= i < |es| ==> rank(key) < rank(es[i].key)
  }

  ghost predicate Ordered(rank: Ranking, s: Build) {
    && |s.index| <= |s.blocks|
    && Ascending(rank, s.data)
    && (forall b :: 0 <= b < |s.blocks| ==> s.blocks[b] != [] && Ascending(rank, s.blocks[b]) && Below(rank, s.blocks[b], s.data))
    && (forall b, c :: 0 <= b < c < |s.blocks| ==> Below(rank, s.blocks[b], s.blocks[c]))
    && (forall b :: 0 <= b < |s.index| ==> UpTo(rank, s.blocks[b], s.index[b].key) && Above(rank, s.data, s.index[b].key))
    && (forall b, c :: 0 <= b < |s.index| && b < c < |s.blocks| ==> Above(rank, s.blocks[c], s.index[b].key))
  }

  /** Every key so far is at most this one. */
  ghost predicate Largest(rank: Ranking, s: Build, key: Slice) {
    UpTo(rank, s.data, key) && forall b :: 0 <= b < |s.blocks| ==> UpTo(rank, s.blocks[b], key)
  }

  ghost predicate IndexBelow(rank: Ranking, s: Build, key: Slice) {
    forall b :: 0 <= b < |s.index| ==> rank(s.index[b].key) < rank(key)
  }

  function FirstKey(es: seq<KeyValue>): Slice { if es == [] then [] else es[0].key }

  function LastKey(es: seq<KeyValue>): Slice { if es == [] then [] else es[|es| - 1].key }

  /** The key that follows finished block `b`. */
  function NextKey(s: Build, b: nat): Slice {
    FirstKey(if b + 1 < |s.blocks| then s.blocks[b + 1] else s.data)
  }

  /** The index key of a block that is followed by a key separates its last key from that one. */
  ghost predicate Parted(separator: Separator, s: Build) {
    forall b :: 0 <= b < |s.index| && b < |s.blocks| && (b + 1 < |s.blocks| || s.data != []) ==>
      s.index[b].key == separator(LastKey(s.blocks[b]), NextKey(s, b))
  }

  /** All index keys of a finished table: separators between blocks, and a successor behind the last one. */
  ghost predicate Shortened(separator: Separator, successor: Successor, index: seq<KeyValue>, blocks: seq<seq<KeyValue>>) {
    && |index| == |blocks|
    && Parted(separator, Build(blocks, [], index))
    && (blocks != [] ==> index[|index| - 1].key == successor(LastKey(blocks[|blocks| - 1])))
  }

  /** The key of a block that has just been finished is held back and waits for the next one. */
  lemma PartedMore(separator: Separator, s: Build, e: KeyValue)
    requires Parted(separator, s) && |s.index| == |s.blocks|
    requires s.data == [] && s.blocks != [] ==> s.index[|s.index| - 1].key == separator(LastKey(s.blocks[|s.blocks| - 1]), e.key)
    ensures Parted(separator, s.(data := s.data + [e]))
  {
  }

  lemma PartedIndex(separator: Separator, s: Build, entry: KeyValue)
    requires Parted(separator, s) && |s.index| + 1 == |s.blocks| && s.data == []
    ensures Parted(separator, s.(index := s.index + [entry]))
  {
  }

  lemma PartedCut(separator: Separator, s: Build)
    requires Parted(separator, s) && |s.index| == |s.blocks| && s.data != []
    ensures Parted(separator, s.(blocks := s.blocks + [s.data], data := []))
  {
  }

  lemma AddEntry(rank: Ranking, s: Build, last: Slice, e: KeyValue)
    requires Ordered(rank, s) && Largest(rank, s, last)
    requires (s.data != [] || s.blocks != []) ==> rank(last) < rank(e.key)
    requires IndexBelow(rank, s, e.key)
    ensures Ordered(rank, s.(data := s.data + [e])) && Largest(rank, s.(data := s.data + [e]), e.key)
  {
    var w := s.(data := s.data + [e]);
    forall b | 0 <= b < |s.blocks| ensures Below(rank, w.blocks[b], w.data) && UpTo(rank, w.blocks[b], e.key) {
      assert UpTo(rank, s.blocks[b], last);
    }
    forall b | 0 <= b < |s.index| ensures Above(rank, w.data, w.index[b].key) {
      assert Above(rank, s.data, s.index[b].key);
    }
  }

  /** Flush: the block being filled becomes a finished one. */
  lemma CutBlock(rank: Ranking, s: Build, last: Slice)
    requires Ordered(rank, s) && s.data != [] && Largest(rank, s, last)
    ensures Ordered(rank, s.(blocks := s.blocks + [s.data], data := []))
    ensures Largest(rank, s.(blocks := s.blocks + [s.data], data := []), last)
  {
    var w := s.(blocks := s.blocks + [s.data], data := []);
    forall b, c | 0 <= b < c < |w.blocks| ensures Below(rank, w.blocks[b], w.blocks[c]) {
      assert c < |s.blocks| ==> Below(rank, s.blocks[b], s.blocks[c]);
    }
    forall b, c | 0 <= b < |w.index| && b < c < |w.blocks| ensures Above(rank, w.blocks[c], w.index[b].key) {
      assert c < |s.blocks| ==> Above(rank, s.blocks[c], s.index[b].key);
    }
  }

  /** The held back index entry, with any key from the last key of its block on. */
  lemma AddIndexEntry(rank: Ranking, s: Build, last: Slice, entry: KeyValue)
    requires Ordered(rank, s) && |s.index| + 1 == |s.blocks| && s.data == []
    requires Largest(rank, s, last) && rank(last) <= rank(entry.key)
    ensures Ordered(rank, s.(index := s.index + [entry]))
  {
    var n := |s.index|;
    var w := s.(index := s.index + [entry]);
    assert UpTo(rank, s.blocks[n], last);
    forall b | 0 <= b < |w.index| ensures UpTo(rank, w.blocks[b], w.index[b].key) {
      assert b < n ==> UpTo(rank, s.blocks[b], s.index[b].key);
    }
    forall b, c | 0 <= b < |w.index| && b < c < |w.blocks| ensures Above(rank, w.blocks[c], w.index[b].key) {
      assert Above(rank, s.blocks[c], s.index[b].key);
    }
  }

  /** The keys of the index so far are below any key that is above all keys, except for the newest one. */
  lemma IndexIsBelow(rank: Ranking, s: Build, last: Slice, key: Slice)
    requires Ordered(rank, s) && Largest(rank, s, last) && rank(last) < rank(key)
    requires s.data != [] || |s.index| < |s.blocks|
    ensures IndexBelow(rank, s, key)
  {
    forall b | 0 <= b < |s.index| ensures rank(s.index[b].key) < rank(key) {
      if s.data != [] {
        assert Above(rank, s.data, s.index[b].key) && UpTo(rank, s.data, last);
        assert rank(s.data[0].key) <= rank(last);
      } else {
        var c := |s.blocks| - 1;
        assert Above(rank, s.blocks[c], s.index[b].key) && UpTo(rank, s.blocks[c], last);
        assert rank(s.blocks[c][0].key) <= rank(last);
      }
    }
  }

  /** A finished table: its index is in order and separates its blocks, which hold all entries in order. */
  lemma OrderedSeparates(rank: Ranking, s: Build)
    requires Ordered(rank, s) && |s.index| == |s.blocks|
    ensures Ascending(rank, s.index) && Separates(rank, s.index, s.blocks)
    ensures forall b :: 0 <= b < |s.blocks| ==> Ascending(rank, s.blocks[b])
  {
    forall b, c | 0 <= b < c < |s.index| ensures rank(s.index[b].key) < rank(s.index[c].key) {
      assert Above(rank, s.blocks[c], s.index[b].key) && UpTo(rank, s.blocks[c], s.index[c].key);
      assert rank(s.index[b].key) < rank(s.blocks[c][0].key) <= rank(s.index[c].key);
    }
    forall b, i | 0 <= b < |s.blocks| && 0 <= i < |s.blocks[b]| ensures rank(s.blocks[b][i].key) <= rank(s.index[b].key) {
      assert UpTo(rank, s.blocks[b], s.index[b].key);
    }
    forall b, c, i | 0 <= b < c < |s.blocks| && 0 <= i < |s.blocks[c]| ensures rank(s.index[b].key) < rank(s.blocks[c][i].key) {
      assert Above(rank, s.blocks[c], s.index[b].key);
    }
  }
}
