/** The two-level iterator (table/two_level_iterator.cc): an iterator over an index of blocks and one over the current
    block, which together are a cursor over all entries of a table. */
module TwoLevelIterator {
  import opened InternalKeys
  import opened BlockBuilder
  import opened TableFormat
  import opened Block

  // ---------------------------------------------------------------- blocks and their index

  function Flat(blocks: seq<seq<KeyValue>>): seq<KeyValue> {
    if blocks == [] then [] else Flat(blocks[..|blocks| - 1]) + blocks[|blocks| - 1]
  }

  /** How many entries stand before block `b`. */
  function Start(blocks: seq<seq<KeyValue>>, b: nat): nat
    requires b <= |blocks|
  {
    |Flat(blocks[..b])|
  }

  lemma StartNext(blocks: seq<seq<KeyValue>>, b: nat)
    requires b < |blocks|
    ensures Start(blocks, b + 1) == Start(blocks, b) + |blocks[b]|
  {
    assert blocks[..b + 1][..b] == blocks[..b];
  }

  lemma StartEnds(blocks: seq<seq<KeyValue>>)
    ensures blocks == [] ==> Flat(blocks) == []
    ensures Start(blocks, 0) == 0 && Start(blocks, |blocks|) == |Flat(blocks)|
  {
    assert blocks[..|blocks|] == blocks && blocks[..0] == [];
  }

  lemma {:induction false} FlatAt(blocks: seq<seq<KeyValue>>, b: nat, i: nat)
    requires b < |blocks| && i < |blocks[b]|
    ensures Start(blocks, b) + i < |Flat(blocks)| && Flat(blocks)[Start(blocks, b) + i] == blocks[b][i]
    decreases |blocks|
  {
    var n := |blocks| - 1;
    if b < n {
      FlatAt(blocks[..n], b, i);
      assert blocks[..n][..b] == blocks[..b];
    }
  }

  /** The value of an index entry leads to a block with these entries. */
  ghost predicate Readable(crc: Checksum, verify: bool, file: Slice, value: Slice, es: seq<KeyValue>, interval: nat) {
    && DecodeHandle(value).Some?
    && ReadBlock(crc, verify, file, DecodeHandle(value).value.0).Some?
    && IsBlock(ReadBlock(crc, verify, file, DecodeHandle(value).value.0).value, es, interval)
  }

  /** The keys of the index separate the blocks: none of a block is above its index key, all behind are. */
  ghost predicate Separates(rank: Ranking, index: seq<KeyValue>, blocks: seq<seq<KeyValue>>) {
    && |index| == |blocks|
    && (forall b, i :: 0 <= b < |blocks| && 0 <= i < |blocks[b]| ==> rank(blocks[b][i].key) <= rank(index[b].key))
    && (forall b, c, i :: 0 <= b < c < |blocks| && 0 <= i < |blocks[c]| ==> rank(index[b].key) < rank(blocks[c][i].key))
  }

  ghost predicate Leads(crc: Checksum, verify: bool, file: Slice, index: seq<KeyValue>, blocks: seq<seq<KeyValue>>, interval: nat) {
    && |index| == |blocks|
    && (forall b :: 0 <= b < |blocks| ==> Readable(crc, verify, file, index[b].value, blocks[b], interval))
    && (forall b, c :: 0 <= b < c < |blocks| ==> index[b].value != index[c].value)
  }

  /** The block and the place in it of entry `j` of all. */
  lemma {:induction false} BlockOf(blocks: seq<seq<KeyValue>>, j: nat) returns (c: nat, i: nat)
    requires j < |Flat(blocks)|
    ensures c < |blocks| && i < |blocks[c]| && j == Start(blocks, c) + i && Flat(blocks)[j] == blocks[c][i]
    decreases |blocks|
  {
    var n := |blocks| - 1;
    if j < |Flat(blocks[..n])| {
      c, i := BlockOf(blocks[..n], j);
      assert blocks[..n][..c] == blocks[..c];
    } else {
      c, i := n, j - |Flat(blocks[..n])|;
    }
  }

  lemma {:induction false} StartsRise(blocks: seq<seq<KeyValue>>, b: nat, c: nat)
    requires b <= c <= |blocks|
    ensures Start(blocks, b) <= Start(blocks, c)
    decreases c - b
  {
    if b < c {
      StartNext(blocks, c - 1);
      StartsRise(blocks, b, c - 1);
    }
  }

  lemma {:induction false} FirstIs(rank: Ranking, es: seq<KeyValue>, target: Slice, n: nat)
    requires n <= |es| && forall j :: 0 <= j < n ==> rank(es[j].key) < rank(target)
    requires n < |es| ==> rank(es[n].key) >= rank(target)
    ensures FirstFrom(rank, es, target) == n
  {
  }

  /** The first entry from the target on, over all blocks, is in the block whose index key is the first from it on, or
      else right behind that block. */
  lemma FirstInBlocks(rank: Ranking, index: seq<KeyValue>, blocks: seq<seq<KeyValue>>, target: Slice)
    requires Separates(rank, index, blocks)
    ensures var b := FirstFrom(rank, index, target);
            FirstFrom(rank, Flat(blocks), target) ==
            if b < |blocks| then Start(blocks, b) + FirstFrom(rank, blocks[b], target) else |Flat(blocks)|
  {
    hide Flat;
    var b := FirstFrom(rank, index, target);
    var all := Flat(blocks);
    var first := if b < |blocks| then Start(blocks, b) + FirstFrom(rank, blocks[b], target) else |all|;
    StartEnds(blocks);
    if b < |blocks| {
      StartNext(blocks, b);
      StartsRise(blocks, b + 1, |blocks|);
    }
    forall j | 0 <= j < |all| && j <= first ensures j < first <==> rank(all[j].key) < rank(target) {
      var c, i := BlockOf(blocks, j);
      EntryAgainstFirst(rank, index, blocks, target, c, i);
    }
    FirstIs(rank, all, target, first);
  }

  lemma EntryAgainstFirst(rank: Ranking, index: seq<KeyValue>, blocks: seq<seq<KeyValue>>, target: Slice, c: nat, i: nat)
    requires Separates(rank, index, blocks) && c < |blocks| && i < |blocks[c]|
    ensures var b := FirstFrom(rank, index, target);
            var first := if b < |blocks| then Start(blocks, b) + FirstFrom(rank, blocks[b], target) else |Flat(blocks)|;
            Start(blocks, c) + i <= first ==> (Start(blocks, c) + i < first <==> rank(blocks[c][i].key) < rank(target))
  {
    hide Flat;
    var b := FirstFrom(rank, index, target);
    StartNext(blocks, c);
    StartEnds(blocks);
    if c < b {
      StartsRise(blocks, c + 1, b);
    } else if c > b {
      StartNext(blocks, b);
      StartsRise(blocks, b + 1, c);
    }
  }

  // ---------------------------------------------------------------- the iterator

  /** Open the block that an index value leads to. */
  method BlockReader(crc: Checksum, verify: bool, file: Slice, rank: Ranking, value: Slice, ghost es: seq<KeyValue>, ghost interval: nat)
    returns (it: Iter)
    requires Readable(crc, verify, file, value, es, interval)
    ensures fresh(it) && it.Invariant() && it.es == es && it.rank == rank
  {
    hide IsBlock;
    var handle := DecodeHandle(value).value.0;
    var contents := ReadBlock(crc, verify, file, handle).value;
    it := NewIterator(rank, contents, es, interval);
  }

  class TwoLevelIterator {
    const crc: Checksum
    const verify: bool
    const file: Slice
    const rank: Ranking
    const indexIter: Iter
    var dataIter: Iter?
    var dataBlockHandle: Slice
    ghost const blocks: seq<seq<KeyValue>>
    ghost const interval: nat
    /** The block that `dataIter` is over. */
    ghost var dataBlock: nat

    ghost function Repr(): set<object>
      reads this
    {
      {this, indexIter} + if dataIter != null then {dataIter} else {}
    }

    /** The two iterators are in order, each over what it should be. */
    ghost predicate Linked()
      reads this, Repr()
    {
      && indexIter.Invariant() && indexIter.rank == rank && |indexIter.es| == |blocks|
      && Leads(crc, verify, file, indexIter.es, blocks, interval)
      && Separates(rank, indexIter.es, blocks)
      && Ascending(rank, indexIter.es) && (forall b :: 0 <= b < |blocks| ==> Ascending(rank, blocks[b]))
      && (dataIter != null ==>
            && dataIter != indexIter && dataIter.Invariant() && dataIter.rank == rank
            && dataBlock < |blocks| && dataIter.es == blocks[dataBlock]
            && dataBlockHandle == indexIter.es[dataBlock].value)
    }

    predicate Valid()
      reads this, if dataIter != null then {dataIter} else {}
    {
      dataIter != null && dataIter.Valid()
    }

    /** The position among all entries; their number stands for "not valid". */
    ghost function At(): nat
      reads this, if dataIter != null then {dataIter} else {}
    {
      if dataIter != null && dataBlock < |blocks| && dataIter.at < |dataIter.es| then Start(blocks, dataBlock) + dataIter.at
      else |Flat(blocks)|
    }

    ghost predicate Invariant()
      reads this, Repr()
    {
      && Linked()
      && (dataIter != null ==> dataBlock == indexIter.at && dataIter.at < |dataIter.es|)
    }

    constructor (crc: Checksum, verify: bool, file: Slice, rank: Ranking, indexIter: Iter,
                 ghost blocks: seq<seq<KeyValue>>, ghost interval: nat)
      requires indexIter.Invariant() && indexIter.rank == rank
      requires Leads(crc, verify, file, indexIter.es, blocks, interval) && Separates(rank, indexIter.es, blocks)
      requires Ascending(rank, indexIter.es) && forall b :: 0 <= b < |blocks| ==> Ascending(rank, blocks[b])
      ensures Invariant() && At() == |Flat(blocks)| && Repr() == {this, indexIter}
      ensures this.blocks == blocks && this.rank == rank
    {
      hide Iter.Invariant, Iter.Valid, Flat, Start, Separates, Ascending;
      this.crc, this.verify, this.file, this.rank, this.indexIter := crc, verify, file, rank, indexIter;
      dataIter, dataBlockHandle := null, [];
      this.blocks, this.interval, dataBlock := blocks, interval, 0;
    }

    /** The key and value at the current position. */
    method Current() returns (k: Slice, v: Slice)
      requires Invariant() && Valid()
      ensures At() < |Flat(blocks)| && Flat(blocks)[At()] == KeyValue(k, v)
    {
      hide Iter.Invariant, Iter.Valid, Flat, Start, Leads, Separates, Ascending;
      dataIter.ValidAt();
      k, v := dataIter.Current();
      FlatAt(blocks, dataBlock, dataIter.at);
    }

    /** Open the block of the current index entry, unless it is open already. */
    method InitDataBlock()
      requires Linked()
      modifies this
      ensures Linked() && fresh(Repr() - old(Repr()))
      ensures indexIter.at < |blocks| ==> dataIter != null && dataBlock == indexIter.at
      ensures indexIter.at == |blocks| ==> dataIter == null
    {
      hide Iter.Invariant, Iter.Valid, Flat, Start, Leads, Separates, Ascending, Readable;
      indexIter.ValidAt();
      if !indexIter.Valid() {
        dataIter := null;
      } else {
        var _, handle := indexIter.Current();
        if dataIter != null && handle == dataBlockHandle {
          SameHandle(crc, verify, file, indexIter.es, blocks, interval, dataBlock, indexIter.at);
        } else {
          LeadsTo(crc, verify, file, indexIter.es, blocks, interval, indexIter.at);
          var reader := BlockReader(crc, verify, file, rank, handle, blocks[indexIter.at], interval);
          SetDataIterator(reader, handle);
        }
      }
    }

    method SetDataIterator(it: Iter, handle: Slice)
      requires Linked() && it.Invariant() && it != indexIter && it.rank == rank
      requires indexIter.at < |blocks| && it.es == blocks[indexIter.at] && handle == indexIter.es[indexIter.at].value
      modifies this
      ensures Linked() && dataIter == it && dataBlock == indexIter.at
    {
      hide Iter.Invariant, Iter.Valid, Leads, Separates, Ascending;
      dataIter, dataBlockHandle := it, handle;
      dataBlock := indexIter.at;
    }

    method SkipEmptyDataBlocksForward(ghost position: nat)
      requires Linked()
      requires if dataIter == null then indexIter.at == |blocks| && position == |Flat(blocks)|
               else dataBlock == indexIter.at && position == Start(blocks, dataBlock) + dataIter.at
      modifies Repr()
      ensures Invariant() && At() == position && fresh(Repr() - old(Repr()))
    {
      hide Iter.Invariant, Iter.Valid, Flat, Start, Leads, Separates, Ascending;
      while dataIter == null || !dataIter.Valid()
        invariant Linked() && fresh(Repr() - old(Repr()))
        invariant if dataIter == null then indexIter.at == |blocks| && position == |Flat(blocks)|
                  else dataBlock == indexIter.at && position == Start(blocks, dataBlock) + dataIter.at
        decreases |blocks| - indexIter.at
      {
        indexIter.ValidAt();
        if dataIter != null {
          dataIter.ValidAt();
        }
        if !indexIter.Valid() {
          dataIter := null;
          return;
        }
        StartNext(blocks, dataBlock);
        StartEnds(blocks);
        indexIter.Next();
        InitDataBlock();
        if dataIter != null {
          dataIter.SeekToFirst();
        }
      }
      dataIter.ValidAt();
    }

    /** `position` is where the cursor belongs: before the current block if the data iterator ran off its front. */
    method SkipEmptyDataBlocksBackward(ghost position: nat)
      requires Linked()
      requires dataIter == null ==> indexIter.at == |blocks| && position == |Flat(blocks)|
      requires dataIter != null ==> dataBlock == indexIter.at
      requires dataIter != null && dataIter.at < |dataIter.es| ==> position == Start(blocks, dataBlock) + dataIter.at
      requires dataIter != null && dataIter.at == |dataIter.es| ==> position == Before(blocks, Start(blocks, dataBlock))
      modifies Repr()
      ensures Invariant() && At() == position && fresh(Repr() - old(Repr()))
    {
      hide Iter.Invariant, Iter.Valid, Flat, Start, Leads, Separates, Ascending;
      while dataIter == null || !dataIter.Valid()
        invariant Linked() && fresh(Repr() - old(Repr()))
        invariant dataIter == null ==> indexIter.at == |blocks| && position == |Flat(blocks)|
        invariant dataIter != null ==> dataBlock == indexIter.at
        invariant dataIter != null && dataIter.at < |dataIter.es| ==> position == Start(blocks, dataBlock) + dataIter.at
        invariant dataIter != null && dataIter.at == |dataIter.es| ==> position == Before(blocks, Start(blocks, dataBlock))
        decreases if dataIter == null then 0 else 1 + indexIter.at
      {
        indexIter.ValidAt();
        if dataIter != null {
          dataIter.ValidAt();
        }
        if !indexIter.Valid() {
          dataIter := null;
          return;
        }
        StartEnds(blocks);
        if dataBlock > 0 {
          StartNext(blocks, dataBlock - 1);
        }
        indexIter.Prev();
        InitDataBlock();
        if dataIter != null {
          dataIter.SeekToLast();
        }
      }
      dataIter.ValidAt();
    }

    method Seek(target: Slice)
      requires Invariant()
      modifies Repr()
      ensures Invariant() && At() == FirstFrom(rank, Flat(blocks), target) && fresh(Repr() - old(Repr()))
    {
      hide Iter.Invariant, Iter.Valid, Flat, Start, Leads, Separates, Ascending;
      indexIter.Seek(target);
      indexIter.ValidAt();
      FirstInBlocks(rank, indexIter.es, blocks, target);
      InitDataBlock();
      if dataIter != null {
        dataIter.Seek(target);
      }
      SkipEmptyDataBlocksForward(FirstFrom(rank, Flat(blocks), target));
    }

    method SeekToFirst()
      requires Invariant()
      modifies Repr()
      ensures Invariant() && At() == 0 && fresh(Repr() - old(Repr()))
    {
      hide Iter.Invariant, Iter.Valid, Flat, Start, Leads, Separates, Ascending;
      StartEnds(blocks);
      indexIter.SeekToFirst();
      indexIter.ValidAt();
      InitDataBlock();
      if dataIter != null {
        dataIter.SeekToFirst();
      }
      SkipEmptyDataBlocksForward(0);
    }

    method SeekToLast()
      requires Invariant()
      modifies Repr()
      ensures Invariant() && At() == Before(blocks, |Flat(blocks)|) && fresh(Repr() - old(Repr()))
    {
      hide Iter.Invariant, Iter.Valid, Flat, Start, Leads, Separates, Ascending;
      StartEnds(blocks);
      indexIter.SeekToLast();
      indexIter.ValidAt();
      InitDataBlock();
      if dataIter != null {
        dataIter.SeekToLast();
        StartNext(blocks, dataBlock);
      }
      SkipEmptyDataBlocksBackward(Before(blocks, |Flat(blocks)|));
    }

    method Next()
      requires Invariant() && Valid()
      modifies Repr()
      ensures Invariant() && At() == old(At()) + 1 && fresh(Repr() - old(Repr()))
    {
      hide Iter.Invariant, Iter.Valid, Flat, Start, Leads, Separates, Ascending;
      dataIter.ValidAt();
      ghost var position := At() + 1;
      dataIter.Next();
      SkipEmptyDataBlocksForward(position);
    }

    method Prev()
      requires Invariant() && Valid()
      modifies Repr()
      ensures Invariant() && At() == Before(blocks, old(At())) && fresh(Repr() - old(Repr()))
    {
      hide Iter.Invariant, Iter.Valid, Flat, Start, Leads, Separates, Ascending;
      dataIter.ValidAt();
      ghost var position := Before(blocks, At());
      dataIter.Prev();
      SkipEmptyDataBlocksBackward(position);
    }
  }

  /** The position before `n`; before the first entry comes "not valid". */
  function Before(blocks: seq<seq<KeyValue>>, n: nat): nat {
    if n == 0 then |Flat(blocks)| else n - 1
  }

  lemma SameHandle(crc: Checksum, verify: bool, file: Slice, index: seq<KeyValue>, blocks: seq<seq<KeyValue>>, interval: nat,
                   b: nat, c: nat)
    requires Leads(crc, verify, file, index, blocks, interval)
    requires b < |blocks| && c < |blocks| && index[b].value == index[c].value
    ensures b == c
  {
  }

  lemma LeadsTo(crc: Checksum, verify: bool, file: Slice, index: seq<KeyValue>, blocks: seq<seq<KeyValue>>, interval: nat, b: nat)
    requires Leads(crc, verify, file, index, blocks, interval) && b < |blocks|
    ensures Readable(crc, verify, file, index[b].value, blocks[b], interval)
  {
  }
}
