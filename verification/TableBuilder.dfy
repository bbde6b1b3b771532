/** Building a table file (table/table_builder.cc): data blocks, the filter block, the metaindex, the index with shortened
    keys, and the footer. */
module TableBuilder {
  import opened InternalKeys
  import opened Coding
  import opened BB = BlockBuilder
  import opened Block
  import opened TableFormat
  import opened TwoLevelIterator
  import opened TableOrder
  import FilterBlock
  import Bloom

  const MAX_OFFSET: nat := 0x8000_0000_0000_0000

  /** The block stands in the file where the handle says. */
  ghost predicate Wrote(crc: Checksum, file: Slice, h: BlockHandle, contents: Slice) {
    && h.size == |contents| && h.offset + h.size + BLOCK_TRAILER_SIZE <= |file|
    && file[h.offset..h.offset + h.size + BLOCK_TRAILER_SIZE] == RawBlock(crc, contents)
  }

  lemma WroteMore(crc: Checksum, file: Slice, h: BlockHandle, contents: Slice, more: Slice)
    requires Wrote(crc, file, h, contents)
    ensures Wrote(crc, file + more, h, contents)
  {
    var n := h.offset + h.size + BLOCK_TRAILER_SIZE;
    assert (file + more)[h.offset..n] == file[h.offset..n];
  }

  /** A block with these entries stands where the handle says. */
  ghost predicate Stands(crc: Checksum, file: Slice, h: BlockHandle, es: seq<KeyValue>, interval: nat) {
    exists contents :: Wrote(crc, file, h, contents) && IsBlock(contents, es, interval)
  }

  lemma StandsMore(crc: Checksum, file: Slice, h: BlockHandle, es: seq<KeyValue>, interval: nat, more: Slice)
    requires Stands(crc, file, h, es, interval)
    ensures Stands(crc, file + more, h, es, interval)
  {
    var contents :| Wrote(crc, file, h, contents) && IsBlock(contents, es, interval);
    WroteMore(crc, file, h, contents, more);
  }

  /** The finished blocks are in the file, one behind the other. */
  ghost predicate AllStand(crc: Checksum, file: Slice, handles: seq<BlockHandle>, blocks: seq<seq<KeyValue>>, interval: nat) {
    && |handles| == |blocks|
    && (forall b :: 0 <= b < |blocks| ==> Stands(crc, file, handles[b], blocks[b], interval) && handles[b].offset < |file|)
    && (forall b, c :: 0 <= b < c < |handles| ==> handles[b].offset < handles[c].offset)
  }

  lemma AllStandMore(crc: Checksum, file: Slice, handles: seq<BlockHandle>, blocks: seq<seq<KeyValue>>, interval: nat, more: Slice)
    requires AllStand(crc, file, handles, blocks, interval)
    ensures AllStand(crc, file + more, handles, blocks, interval)
  {
    forall b | 0 <= b < |blocks| ensures Stands(crc, file + more, handles[b], blocks[b], interval) {
      StandsMore(crc, file, handles[b], blocks[b], interval, more);
    }
  }

  lemma AllStandAppend(crc: Checksum, file: Slice, handles: seq<BlockHandle>, blocks: seq<seq<KeyValue>>, interval: nat,
                       h: BlockHandle, contents: Slice, es: seq<KeyValue>)
    requires AllStand(crc, file, handles, blocks, interval)
    requires h.offset == |file| && h.size == |contents| && IsBlock(contents, es, interval)
    ensures AllStand(crc, file + RawBlock(crc, contents), handles + [h], blocks + [es], interval)
  {
    hide IsBlock, RawBlock;
    var after := file + RawBlock(crc, contents);
    AllStandMore(crc, file, handles, blocks, interval, RawBlock(crc, contents));
    assert after[|file|..|after|] == RawBlock(crc, contents);
    assert Wrote(crc, after, h, contents);
    assert Stands(crc, after, h, es, interval);
  }

  ghost predicate Names(index: seq<KeyValue>, handles: seq<BlockHandle>) {
    |index| <= |handles| && forall b :: 0 <= b < |index| ==> index[b].value == EncodeHandle(handles[b])
  }

  /** What the filter tests of a key. */
  type Extractor = Slice -> Slice

  /** All keys were added to the filter, each under the offset of its block. */
  ghost predicate Filtered(added: set<(nat, Slice)>, extract: Extractor, handles: seq<BlockHandle>,
                           blocks: seq<seq<KeyValue>>, data: seq<KeyValue>, offset: nat)
  {
    && |handles| == |blocks|
    && (forall b, i :: 0 <= b < |blocks| && 0 <= i < |blocks[b]| ==> AddedAs(added, extract, handles[b].offset, blocks[b][i].key))
    && (forall i :: 0 <= i < |data| ==> AddedAs(added, extract, offset, data[i].key))
  }

  ghost predicate AddedAs(added: set<(nat, Slice)>, extract: Extractor, offset: nat, key: Slice) {
    (offset, extract(key)) in added
  }

  class TableBuilder {
    const crc: Checksum
    const rank: Ranking
    const separator: Separator
    const successor: Successor
    const extract: Extractor
    const interval: nat
    const blockSize: nat
    const filterName: Slice
    const dataBlock: BB.BlockBuilder
    const indexBlock: BB.BlockBuilder
    const filterBlock: FilterBlock.FilterBlockBuilder?
    var file: Slice
    var lastKey: Slice
    var numEntries: nat
    var closed: bool
    var pendingIndexEntry: bool
    var pendingHandle: BlockHandle
    ghost var blocks: seq<seq<KeyValue>>
    ghost var handles: seq<BlockHandle>

    ghost function Repr(): set<object>
    {
      {this, dataBlock, indexBlock} + if filterBlock != null then {filterBlock} else {}
    }

    ghost function Now(): Build
      reads this, dataBlock, indexBlock
    {
      Build(blocks, dataBlock.es, indexBlock.es)
    }

    /** What holds also while the block being filled waits to be flushed. */
    /** One block more than before. */
    static ghost predicate CutFrom(before: seq<seq<KeyValue>>, after: seq<seq<KeyValue>>) {
      after != [] && after[|after| - 1] != [] && before == after[..|after| - 1]
    }

    ghost predicate Core()
      reads Repr()
    {
      Body() && FilterGoes()
    }

    ghost predicate Body()
      reads Repr()
    {
      && Parts()
      && Ordered(rank, Now()) && Largest(rank, Now(), lastKey) && |lastKey| < TWO_32
      && AllStand(crc, file, handles, blocks, interval) && |handles| == |blocks|
      && Names(indexBlock.es, handles)
      && |indexBlock.es| + (if pendingIndexEntry then 1 else 0) == |blocks|
      && (pendingIndexEntry ==> dataBlock.es == [] && pendingHandle == handles[|handles| - 1])
      && (numEntries > 0 <==> blocks != [] || dataBlock.es != [])
      && Parted(separator, Now())
      && (dataBlock.es != [] ==> lastKey == LastKey(dataBlock.es))
      && (pendingIndexEntry ==> lastKey == LastKey(blocks[|blocks| - 1]))
    }

    ghost predicate Parts()
      reads Repr()
    {
      && interval >= 1 && |filterName| < 0x1_0000
      && Shortens(rank, separator, successor)
      && dataBlock != indexBlock
      && dataBlock.Valid() && !dataBlock.finished && dataBlock.interval == interval && dataBlock.Estimate() < TWO_32
      && indexBlock.Valid() && !indexBlock.finished && indexBlock.interval == 1
    }

    /** Between calls the block being filled is smaller than the block size. */
    ghost predicate Valid()
      reads Repr()
    {
      && Core() && (dataBlock.es == [] || dataBlock.Estimate() < blockSize)
      && (!pendingIndexEntry && blocks != [] ==> dataBlock.es != [])
    }

    /** There is room for another block, and for another index entry; the format cannot hold more. */
    predicate Room()
      reads this, indexBlock
    {
      |file| < MAX_OFFSET && indexBlock.Estimate() + |lastKey| + 40 < TWO_32
    }

    ghost predicate FilterGoes()
      reads Repr()
    {
      filterBlock != null ==>
        && filterBlock.Valid() && filterBlock.block == |file|
        && filterBlock.block / FilterBlock.FILTER_BASE == |filterBlock.groups|
        && Filtered(filterBlock.added, extract, handles, blocks, dataBlock.es, |file|)
    }

    constructor (crc: Checksum, rank: Ranking, separator: Separator, successor: Successor, extract: Extractor,
                 interval: nat, blockSize: nat, filterName: Slice, filter: Option<FilterBlock.FilterBlockBuilder>)
      requires Shortens(rank, separator, successor) && interval >= 1 && |filterName| < 0x1_0000
      requires filter.Some? ==>
                 filter.value.Valid() && filter.value.added == {} && filter.value.groups == [] && filter.value.block == 0
      ensures Valid() && fresh(Repr() - (if filter.Some? then {filter.value} else {}))
      ensures Now() == Build([], [], []) && file == []
      ensures this.rank == rank && this.crc == crc && this.interval == interval && this.blockSize == blockSize
      ensures this.extract == extract && filterBlock == if filter.Some? then filter.value else null
    {
      hide Shortens, BB.BlockBuilder.Valid, FilterBlock.FilterBlockBuilder.Valid, Ordered, Largest, AllStand, Names, Filtered;
      this.crc, this.rank, this.separator, this.successor, this.extract := crc, rank, separator, successor, extract;
      this.interval, this.blockSize, this.filterName := interval, blockSize, filterName;
      dataBlock := new BB.BlockBuilder(interval);
      indexBlock := new BB.BlockBuilder(1);
      filterBlock := if filter.Some? then filter.value else null;
      file, lastKey, numEntries, closed, pendingIndexEntry, pendingHandle := [], [], 0, false, false, BlockHandle(0, 0);
      blocks, handles := [], [];
      new;
      EmptyStart(crc, rank, extract, interval);
    }

    /** The newest index entry was made with this key in mind, which starts a block. */
    ghost predicate SettledFor(key: Slice)
      reads this, dataBlock, indexBlock
    {
      dataBlock.es == [] && blocks != [] ==>
        |indexBlock.es| == |blocks| && indexBlock.es[|blocks| - 1].key == separator(LastKey(blocks[|blocks| - 1]), key)
    }

    /** Write the index entry that was held back, under a key that is not below any of its block. */
    method AddPendingEntry(key: Slice)
      requires Body() && pendingIndexEntry && rank(lastKey) <= rank(key) && |key| <= |lastKey|
      requires indexBlock.Estimate() + |lastKey| + 40 < TWO_32
      modifies this, indexBlock
      ensures Body() && !pendingIndexEntry && lastKey == key && closed == old(closed)
      ensures old(FilterGoes()) ==> FilterGoes()
      ensures indexBlock.Estimate() <= old(indexBlock.Estimate()) + |key| + 39
      ensures file == old(file) && blocks == old(blocks) && handles == old(handles) && numEntries == old(numEntries)
      ensures indexBlock.es == old(indexBlock.es) + [KeyValue(key, EncodeHandle(old(pendingHandle)))]
    {
      hide Parted, Ordered, Largest, AllStand, Names, Filtered, Shortens, BB.BlockBuilder.Valid;
      ghost var s := Now();
      var value := EncodeHandle(pendingHandle);
      ghost var entry := KeyValue(key, value);
      HandleShort(pendingHandle);
      AddIndexEntry(rank, s, lastKey, entry);
      PartedIndex(separator, s, entry);
      LargerKey(rank, s, lastKey, key, entry);
      NamesMore(indexBlock.es, handles, entry);
      indexBlock.Add(key, value);
      lastKey := key;
      pendingIndexEntry := false;
      assert Now() == s.(index := s.index + [entry]);
    }

    method WriteRawBlock(contents: Slice) returns (h: BlockHandle)
      modifies this`file
      ensures h == BlockHandle(|old(file)| % TWO_64, |contents| % TWO_64) && file == old(file) + RawBlock(crc, contents)
    {
      h := BlockHandle(|file| % TWO_64, |contents| % TWO_64);
      file := file + contents;
      file := file + ([0] + Fixed32(Mask(crc(contents + [0]))));
    }

    method WriteDataBlock() returns (h: BlockHandle, ghost contents: Slice)
      requires Parts() && |file| < MAX_OFFSET && dataBlock.es != []
      modifies this`file, dataBlock
      ensures Parts() && dataBlock.es == [] && dataBlock.Estimate() == 8
      ensures h.offset == |old(file)| && |file| <= |old(file)| + TWO_32 + 5
      ensures h.size == |contents| == old(dataBlock.Estimate()) && IsBlock(contents, old(dataBlock.es), interval)
      ensures file == old(file) + RawBlock(crc, contents)
    {
      hide BB.BlockBuilder.Valid, FilterBlock.FilterBlockBuilder.Valid, IsBlock, RawBlock, Shortens, BB.BlockBuilder.Estimate;
      h, contents := WriteBlock(dataBlock);
    }

    /** Finish a block, write it, and reset its builder. */
    method WriteBlock(block: BB.BlockBuilder) returns (h: BlockHandle, ghost contents: Slice)
      requires block.Valid() && !block.finished && block.Estimate() < TWO_32
      modifies this`file, block
      ensures block.Valid() && !block.finished && block.es == [] && block.Estimate() == 8
      ensures |file| <= |old(file)| + TWO_32 + 5
      ensures IsBlock(contents, old(block.es), block.interval) && |contents| == old(block.Estimate()) < TWO_32
      ensures h == BlockHandle(|old(file)| % TWO_64, |contents|) && file == old(file) + RawBlock(crc, contents)
    {
      hide BB.BlockBuilder.Estimate, BB.BlockBuilder.Valid, IsBlock, RawBlock, BB.AllFit, BB.Restarts, BB.Contents, BB.Encodable;
      block.EstimateFits();
      BuilderBasics(block);
      ghost var es := block.es;
      var raw := block.Finish();
      BuiltIsBlock(raw, es, block.interval);
      contents := raw;
      h := WriteRawBlock(raw);
      block.Reset();
    }

    /** The part of Flush that does not concern the filter. */
    method CutDataBlock()
      requires Body() && |file| < MAX_OFFSET && dataBlock.es != [] && !pendingIndexEntry
      modifies this, dataBlock
      ensures Body() && dataBlock.es == [] && pendingIndexEntry
      ensures All(Now()) == old(All(Now())) && lastKey == old(lastKey)
      ensures |old(file)| <= |file| <= |old(file)| + TWO_32 + 5 && closed == old(closed) && numEntries == old(numEntries)
      ensures blocks == old(blocks) + [old(dataBlock.es)] && handles == old(handles) + [pendingHandle]
      ensures pendingHandle.offset == |old(file)| && pendingHandle.size == old(dataBlock.Estimate())
    {
      hide Parted, Ordered, Largest, AllStand, Names, Shortens, BB.BlockBuilder.Valid, IsBlock, RawBlock;
      hide FilterBlock.FilterBlockBuilder.Valid, All;
      ghost var s := Now();
      ghost var before := file;
      CutBlock(rank, s, lastKey);
      PartedCut(separator, s);
      AllCut(s);
      ghost var contents;
      pendingHandle, contents := WriteDataBlock();
      AllStandAppend(crc, before, handles, blocks, interval, pendingHandle, contents, s.data);
      NamesLonger(indexBlock.es, handles, pendingHandle);
      pendingIndexEntry := true;
      blocks, handles := blocks + [s.data], handles + [pendingHandle];
      assert Now() == s.(blocks := s.blocks + [s.data], data := []);
    }

    /** Flush: write the block being filled, and hold its index entry back. */
    method Flush()
      requires Core() && |file| < MAX_OFFSET
      requires if pendingIndexEntry then dataBlock.es == [] else blocks != [] ==> dataBlock.es != []
      modifies Repr()
      ensures Valid() && dataBlock.es == [] && (blocks != [] ==> pendingIndexEntry)
      ensures All(Now()) == old(All(Now())) && indexBlock.es == old(indexBlock.es) && lastKey == old(lastKey)
      ensures indexBlock.Estimate() == old(indexBlock.Estimate())
      ensures |file| <= old(|file|) + TWO_32 + 5 && closed == old(closed) && numEntries == old(numEntries)
      ensures old(dataBlock.es) == [] ==> blocks == old(blocks)
      ensures old(dataBlock.es) != [] ==>
                && blocks == old(blocks) + [old(dataBlock.es)] && |handles| == |blocks|
                && handles[|handles| - 1].size == old(dataBlock.Estimate())
    {
      hide Parted, Ordered, Largest, AllStand, Names, Filtered, Shortens, BB.BlockBuilder.Valid, All, BB.BlockBuilder.Estimate;
      hide FilterBlock.FilterBlockBuilder.Valid;
      var empty := dataBlock.Empty();
      if empty {
        return;
      }
      ghost var s, was := Now(), handles;
      CutDataBlock();
      if filterBlock != null {
        FilteredCut(filterBlock.added, extract, was, s, pendingHandle, |file|);
        FilterBlock.Base(filterBlock.block, |file|);
        filterBlock.StartBlock(|file|);
      }
    }

    /** Add one entry to the block being filled, once no index entry is held back any more. */
    method AddToBlock(key: Slice, value: Slice)
      requires Core() && !pendingIndexEntry && IndexBelow(rank, Now(), key) && SettledFor(key)
      requires numEntries > 0 ==> rank(lastKey) < rank(key)
      requires |key| < TWO_32 && |value| < TWO_32 && dataBlock.Estimate() + |key| + |value| + 19 < TWO_32
      modifies Repr()
      ensures Core() && !pendingIndexEntry && lastKey == key && dataBlock.es == old(dataBlock.es) + [KeyValue(key, value)]
      ensures file == old(file) && blocks == old(blocks) && closed == old(closed) && indexBlock.es == old(indexBlock.es)
    {
      hide Parted, Ordered, Largest, AllStand, Names, Filtered, Shortens, BB.BlockBuilder.Valid;
      hide FilterBlock.FilterBlockBuilder.Valid;
      ghost var s := Now();
      AddEntry(rank, s, lastKey, KeyValue(key, value));
      PartedMore(separator, s, KeyValue(key, value));
      if filterBlock != null {
        FilteredMore(filterBlock.added, extract, handles, s, KeyValue(key, value), |file|);
        filterBlock.AddKey(extract(key));
      }
      lastKey := key;
      numEntries := numEntries + 1;
      dataBlock.Add(key, value);
      assert Now() == s.(data := s.data + [KeyValue(key, value)]);
    }

    /** Before a key is added, the index entry that was held back for it is written. */
    method SettleIndex(key: Slice)
      requires Valid() && Room() && (numEntries > 0 ==> rank(lastKey) < rank(key))
      modifies this, indexBlock
      ensures Core() && !pendingIndexEntry && IndexBelow(rank, Now(), key) && SettledFor(key)
      ensures numEntries > 0 ==> rank(lastKey) < rank(key)
      ensures file == old(file) && blocks == old(blocks) && numEntries == old(numEntries) && closed == old(closed)
    {
      hide Parted, Ordered, Largest, AllStand, Names, Filtered, BB.BlockBuilder.Valid, IndexBelow, Shortens;
      hide FilterBlock.FilterBlockBuilder.Valid;
      ghost var s := Now();
      if pendingIndexEntry {
        IndexIsBelow(rank, s, lastKey, key);
        var shorter := separator(lastKey, key);
        SeparatorBetween(rank, separator, successor, lastKey, key);
        IndexMore(rank, s, KeyValue(shorter, EncodeHandle(pendingHandle)), key);
        AddPendingEntry(shorter);
      } else {
        IndexBelowNext(rank, s, lastKey, key);
      }
    }

    method Add(key: Slice, value: Slice)
      requires Valid() && !closed && Room()
      requires numEntries > 0 ==> rank(lastKey) < rank(key)
      requires |key| + |value| + blockSize + 40 < TWO_32
      modifies Repr()
      ensures Valid() && !closed && All(Now()) == old(All(Now())) + [KeyValue(key, value)] && lastKey == key
      ensures numEntries > 0
      ensures if dataBlock.es != [] then blocks == old(blocks)
              else CutFrom(old(blocks), blocks) && |handles| == |blocks| && handles[|handles| - 1].size >= blockSize
    {
      hide Parted, Ordered, Largest, AllStand, Names, Filtered, BB.BlockBuilder.Valid, IndexBelow, Shortens;
      hide FilterBlock.FilterBlockBuilder.Valid, BB.BlockBuilder.Estimate;
      ghost var s := Now();
      SettleIndex(key);
      if dataBlock.es == [] {
        dataBlock.EmptyEstimate();
      }
      AddToBlock(key, value);
      AllMore(s, KeyValue(key, value), Now());
      var estimate := dataBlock.CurrentSizeEstimate();
      if estimate >= blockSize {
        Flush();
      }
    }

    /** Write the filter block. What was written before stays where it is. */
    method WriteFilter() returns (h: BlockHandle, ghost part: FilterPart)
      requires Core() && filterBlock != null
      modifies this`file, filterBlock
      ensures Body() && old(file) <= file && pendingIndexEntry == old(pendingIndexEntry)
      ensures part.hash == filterBlock.hash && part.name == filterName && part.handle == h
      ensures |part.contents| < TWO_32 ==> FilterBlock.IsFilterBlock(part.hash, part.contents, part.groups)
      ensures |file| < TWO_64 ==> Wrote(crc, file, h, part.contents)
      ensures AllGrouped(extract, handles, blocks, part.groups)
    {
      hide Parted, Ordered, Largest, Names, Filtered, BB.BlockBuilder.Valid, BB.BlockBuilder.Estimate, Shortens, RawBlock, AllGrouped;
      ghost var s, was := Now(), file;
      var contents := filterBlock.Finish();
      AllKeysGrouped(filterBlock.added, extract, handles, s, |file|, filterBlock.groups);
      h := WriteRawBlock(contents);
      part := FilterPart(filterBlock.hash, filterName, h, contents, filterBlock.groups);
      AllStandMore(crc, was, handles, blocks, interval, RawBlock(crc, contents));
      JustWritten(crc, was, h, contents);
    }

    method MetaBlock(filterHandle: BlockHandle) returns (meta: BB.BlockBuilder)
      requires interval >= 1 && |filterName| < 0x1_0000
      ensures fresh(meta) && meta.Valid() && !meta.finished && meta.Estimate() < TWO_32 && meta.interval == interval
      ensures meta.es == if filterBlock != null then [KeyValue(filterName, EncodeHandle(filterHandle))] else []
    {
      hide BB.BlockBuilder.Valid, EncodeHandle;
      meta := new BB.BlockBuilder(interval);
      if filterBlock != null {
        HandleShort(filterHandle);
        meta.Add(filterName, EncodeHandle(filterHandle));
      }
    }

    /** The metaindex block, with the place of the filter if there is one. */
    method WriteMetaindex(filterHandle: BlockHandle) returns (h: BlockHandle, ghost contents: Slice)
      requires Body()
      modifies this`file
      ensures Body() && file == old(file) + RawBlock(crc, contents) && pendingIndexEntry == old(pendingIndexEntry)
      ensures |contents| < TWO_32 && h == BlockHandle(|old(file)| % TWO_64, |contents|)
      ensures IsBlock(contents, if filterBlock != null then [KeyValue(filterName, EncodeHandle(filterHandle))] else [], interval)
    {
      hide Parted, Ordered, Largest, Names, BB.BlockBuilder.Valid, Shortens, RawBlock, AllStand, IsBlock;
      hide BB.BlockBuilder.Estimate;
      ghost var was := file;
      var meta := MetaBlock(filterHandle);
      h, contents := WriteBlock(meta);
      AllStandMore(crc, was, handles, blocks, interval, RawBlock(crc, contents));
    }

    /** The index block, with the last entry under a shortened successor of the last key. */
    method WriteIndex() returns (h: BlockHandle, ghost contents: Slice, ghost index: seq<KeyValue>)
      requires Body() && dataBlock.es == [] && (blocks != [] ==> pendingIndexEntry)
      requires indexBlock.Estimate() + |lastKey| + 40 < TWO_32
      modifies this, indexBlock
      ensures file == old(file) + RawBlock(crc, contents) && handles == old(handles) && blocks == old(blocks)
      ensures |contents| < TWO_32 && h == BlockHandle(|old(file)| % TWO_64, |contents|) && IsBlock(contents, index, 1)
      ensures closed == old(closed)
      ensures AllStand(crc, old(file), handles, blocks, interval)
      ensures Names(index, handles) && |index| == |blocks| && Ordered(rank, Build(blocks, [], index))
      ensures Shortened(separator, successor, index, blocks)
    {
      hide Parted, Ordered, Largest, AllStand, Names, BB.BlockBuilder.Valid, Shortens, RawBlock, IsBlock;
      if pendingIndexEntry {
        SuccessorFollows(rank, separator, successor, lastKey);
        AddPendingEntry(successor(lastKey));
      }
      index := indexBlock.es;
      assert Now() == Build(blocks, [], index);
      h, contents := WriteBlock(indexBlock);
    }

    /** Metaindex, index and footer. */
    method WriteEnd(filterHandle: BlockHandle, ghost filter: Option<FilterPart>) returns (ghost l: Layout)
      requires Body() && dataBlock.es == [] && (blocks != [] ==> pendingIndexEntry)
      requires indexBlock.Estimate() + |lastKey| + 40 < TWO_32
      requires filter.Some? <==> filterBlock != null
      requires filter.Some? ==> filter.value.name == filterName && filter.value.handle == filterHandle
      modifies this, indexBlock
      ensures closed == old(closed) && old(file) <= file && l.filter == filter && l.blocks == old(blocks) && l.handles == old(handles)
      ensures Shortened(separator, successor, l.index, l.blocks)
      ensures |file| < MAX_OFFSET && FilterStands(crc, extract, old(file), l) ==> IsTableFile(crc, rank, extract, file, l)
    {
      hide Parted, Ordered, Largest, AllStand, Names, BB.BlockBuilder.Valid, BB.BlockBuilder.Estimate, Shortens, RawBlock, IsBlock;
      hide Wrote, AllGrouped, Shortened, LastKey, FilterStands, IsTableFile, EncodeFooter, EncodeHandle;
      ghost var f1 := file;
      ghost var metaContents, indexContents, index;
      var meta, indexHandle;
      meta, metaContents := WriteMetaindex(filterHandle);
      ghost var f2 := file;
      indexHandle, indexContents, index := WriteIndex();
      ghost var f3 := file;
      file := file + EncodeFooter(Footer(meta, indexHandle));
      l := Layout(blocks, index, handles, interval, meta, indexHandle, filter);
      if |file| < MAX_OFFSET && FilterStands(crc, extract, f1, l) {
        Assembled(crc, rank, extract, f1, f2, f3, metaContents, indexContents, file, l);
      }
    }

    /** Complete the file. If it stays within the format's offsets, it is a table with all entries that were added. */
    method Finish() returns (ghost l: Layout)
      requires Valid() && !closed && Room()
      modifies Repr()
      ensures closed
      ensures Flat(l.blocks) == old(All(Now()))
      ensures l.filter.Some? <==> filterBlock != null
      ensures l.filter.Some? ==> l.filter.value.hash == filterBlock.hash && l.filter.value.name == filterName
      ensures |file| < MAX_OFFSET && (l.filter.Some? ==> |l.filter.value.contents| < TWO_32) ==>
                IsTableFile(crc, rank, extract, file, l)
      ensures Shortened(separator, successor, l.index, l.blocks)
    {
      hide Parted, Ordered, Largest, AllStand, Names, BB.BlockBuilder.Valid, BB.BlockBuilder.Estimate, Shortens, RawBlock, IsBlock;
      hide FilterBlock.FilterBlockBuilder.Valid, Wrote, AllGrouped, All, Shortened, LastKey, IsTableFile;
      Flush();
      AllInBlocks(Now());
      closed := true;
      var filterHandle := BlockHandle(0, 0);
      ghost var filter: Option<FilterPart> := None;
      if filterBlock != null {
        ghost var part;
        filterHandle, part := WriteFilter();
        filter := Some(part);
      }
      l := WriteEnd(filterHandle, filter);
    }
  }

  /** A block written at the end of a file stands there. */
  lemma JustWritten(crc: Checksum, file: Slice, h: BlockHandle, contents: Slice)
    requires h == BlockHandle(|file| % TWO_64, |contents| % TWO_64)
    ensures |file + RawBlock(crc, contents)| < TWO_64 ==> Wrote(crc, file + RawBlock(crc, contents), h, contents)
  {
    var after := file + RawBlock(crc, contents);
    if |after| < TWO_64 {
      assert after[|file|..|after|] == RawBlock(crc, contents);
    }
  }

  // ---------------------------------------------------------------- the finished file

  /** The filter of a table: its name in the metaindex, where it stands, its bytes, and the keys of each group. */
  datatype FilterPart = FilterPart(hash: Bloom.Hash, name: Slice, handle: BlockHandle, contents: Slice, groups: seq<seq<Slice>>)

  datatype Layout = Layout(blocks: seq<seq<KeyValue>>, index: seq<KeyValue>, handles: seq<BlockHandle>, interval: nat,
                           meta: BlockHandle, indexHandle: BlockHandle, filter: Option<FilterPart>)

  function MetaEntries(l: Layout): seq<KeyValue> {
    if l.filter.Some? then [KeyValue(l.filter.value.name, EncodeHandle(l.filter.value.handle))] else []
  }

  /** The filter stands in the file, and every key of a block is in the group of its offset. */
  ghost predicate FilterStands(crc: Checksum, extract: Extractor, file: Slice, l: Layout) {
    l.filter.Some? ==>
      var f := l.filter.value;
      && Wrote(crc, file, f.handle, f.contents)
      && FilterBlock.IsFilterBlock(f.hash, f.contents, f.groups)
      && AllGrouped(extract, l.handles, l.blocks, f.groups)
  }

  ghost predicate AllGrouped(extract: Extractor, handles: seq<BlockHandle>, blocks: seq<seq<KeyValue>>, groups: seq<seq<Slice>>) {
    && |handles| == |blocks|
    && forall b, i :: 0 <= b < |blocks| && 0 <= i < |blocks[b]| ==>
         InGroup(groups, handles[b].offset / FilterBlock.FILTER_BASE, extract(blocks[b][i].key))
  }

  ghost predicate InGroup(groups: seq<seq<Slice>>, g: nat, key: Slice) {
    g < |groups| && key in groups[g]
  }

  /** The bytes of a table. */
  ghost predicate IsTableFile(crc: Checksum, rank: Ranking, extract: Extractor, file: Slice, l: Layout) {
    && |file| >= FOOTER_SIZE && file[|file| - FOOTER_SIZE..] == EncodeFooter(Footer(l.meta, l.indexHandle))
    && Stands(crc, file, l.meta, MetaEntries(l), l.interval)
    && Stands(crc, file, l.indexHandle, l.index, 1)
    && AllStand(crc, file, l.handles, l.blocks, l.interval)
    && Names(l.index, l.handles) && |l.index| == |l.blocks|
    && Ordered(rank, Build(l.blocks, [], l.index))
    && FilterStands(crc, extract, file, l)
  }

  lemma Written(crc: Checksum, before: Slice, after: Slice, file: Slice, h: BlockHandle, contents: Slice, es: seq<KeyValue>, interval: nat)
    requires after == before + RawBlock(crc, contents) && after <= file && |file| < MAX_OFFSET && |contents| < TWO_32
    requires h == BlockHandle(|before| % TWO_64, |contents|) && IsBlock(contents, es, interval)
    ensures Stands(crc, file, h, es, interval)
  {
    hide RawBlock, IsBlock;
    JustWritten(crc, before, h, contents);
    WroteMore(crc, after, h, contents, file[|after|..]);
    assert after + file[|after|..] == file;
  }

  /** The pieces of a finished file in the order in which they were written. */
  lemma Assembled(crc: Checksum, rank: Ranking, extract: Extractor, f1: Slice, f2: Slice, f3: Slice,
                  metaContents: Slice, indexContents: Slice, file: Slice, l: Layout)
    requires |metaContents| < TWO_32 && |indexContents| < TWO_32 && |file| < MAX_OFFSET
    requires f2 == f1 + RawBlock(crc, metaContents) && f3 == f2 + RawBlock(crc, indexContents)
    requires file == f3 + EncodeFooter(Footer(l.meta, l.indexHandle))
    requires l.meta == BlockHandle(|f1| % TWO_64, |metaContents|) && IsBlock(metaContents, MetaEntries(l), l.interval)
    requires l.indexHandle == BlockHandle(|f2| % TWO_64, |indexContents|) && IsBlock(indexContents, l.index, 1)
    requires AllStand(crc, f2, l.handles, l.blocks, l.interval)
    requires Names(l.index, l.handles) && |l.index| == |l.blocks| && Ordered(rank, Build(l.blocks, [], l.index))
    requires FilterStands(crc, extract, f1, l)
    ensures IsTableFile(crc, rank, extract, file, l)
  {
    hide IsBlock, RawBlock, AllStand, Names, Ordered, Wrote, AllGrouped, Stands, EncodeFooter;
    assert f2 <= file && f3 <= file && f1 <= file;
    Written(crc, f1, f2, file, l.meta, metaContents, MetaEntries(l), l.interval);
    Written(crc, f2, f3, file, l.indexHandle, indexContents, l.index, 1);
    AllStandMore(crc, f2, l.handles, l.blocks, l.interval, file[|f2|..]);
    assert f2 + file[|f2|..] == file && f1 + file[|f1|..] == file;
    if l.filter.Some? {
      WroteMore(crc, f1, l.filter.value.handle, l.filter.value.contents, file[|f1|..]);
    }
    assert file[|file| - FOOTER_SIZE..] == EncodeFooter(Footer(l.meta, l.indexHandle));
  }

  lemma AllKeysGrouped(added: set<(nat, Slice)>, extract: Extractor, handles: seq<BlockHandle>, s: Build, offset: nat,
                       groups: seq<seq<Slice>>)
    requires Filtered(added, extract, handles, s.blocks, s.data, offset)
    requires forall a <- added :: a.0 / FilterBlock.FILTER_BASE < |groups| && a.1 in groups[a.0 / FilterBlock.FILTER_BASE]
    ensures AllGrouped(extract, handles, s.blocks, groups)
  {
    forall b, i | 0 <= b < |s.blocks| && 0 <= i < |s.blocks[b]|
      ensures InGroup(groups, handles[b].offset / FilterBlock.FILTER_BASE, extract(s.blocks[b][i].key))
    {
      assert AddedAs(added, extract, handles[b].offset, s.blocks[b][i].key);
    }
  }

  lemma SeparatorBetween(rank: Ranking, separator: Separator, successor: Successor, a: Slice, b: Slice)
    requires Shortens(rank, separator, successor) && rank(a) < rank(b)
    ensures rank(a) <= rank(separator(a, b)) < rank(b) && |separator(a, b)| <= |a|
  {
  }

  lemma SuccessorFollows(rank: Ranking, separator: Separator, successor: Successor, a: Slice)
    requires Shortens(rank, separator, successor)
    ensures rank(a) <= rank(successor(a)) && |successor(a)| <= |a|
  {
  }

  lemma BuilderBasics(block: BB.BlockBuilder)
    requires block.Valid()
    ensures block.interval > 0 && BB.Encodable(block.es) && block.restarts == BB.Restarts(block.es, block.interval)
  {
  }

  lemma BuiltIsBlock(raw: Slice, es: seq<KeyValue>, interval: nat)
    requires interval > 0 && BB.Encodable(es) && |raw| < TWO_32
    requires BB.AllFit(BB.Restarts(es, interval)) && |BB.Restarts(es, interval)| < TWO_32 && raw == BB.Contents(es, interval)
    ensures IsBlock(raw, es, interval)
  {
  }

  lemma IndexBelowNext(rank: Ranking, s: Build, last: Slice, key: Slice)
    requires Ordered(rank, s) && Largest(rank, s, last)
    requires s.blocks != [] ==> s.data != []
    requires s.data != [] ==> rank(last) < rank(key)
    ensures IndexBelow(rank, s, key)
  {
    if s.data != [] {
      IndexIsBelow(rank, s, last, key);
    }
  }

  lemma IndexMore(rank: Ranking, s: Build, entry: KeyValue, key: Slice)
    requires IndexBelow(rank, s, key) && rank(entry.key) < rank(key)
    ensures IndexBelow(rank, s.(index := s.index + [entry]), key)
  {
  }

  lemma AllMore(s: Build, e: KeyValue, w: Build)
    requires w.blocks == s.blocks && w.data == s.data + [e]
    ensures All(w) == All(s) + [e]
  {
  }

  lemma FilteredMore(added: set<(nat, Slice)>, extract: Extractor, handles: seq<BlockHandle>, s: Build, e: KeyValue, offset: nat)
    requires Filtered(added, extract, handles, s.blocks, s.data, offset)
    ensures Filtered(added + {(offset, extract(e.key))}, extract, handles, s.blocks, s.data + [e], offset)
  {
    var more, w := added + {(offset, extract(e.key))}, s.(data := s.data + [e]);
    forall b, i | 0 <= b < |w.blocks| && 0 <= i < |w.blocks[b]| ensures AddedAs(more, extract, handles[b].offset, w.blocks[b][i].key) {
      assert AddedAs(added, extract, handles[b].offset, s.blocks[b][i].key);
    }
    forall i | 0 <= i < |w.data| ensures AddedAs(more, extract, offset, w.data[i].key) {
      assert i < |s.data| ==> AddedAs(added, extract, offset, s.data[i].key);
    }
  }

  lemma NamesLonger(index: seq<KeyValue>, handles: seq<BlockHandle>, h: BlockHandle)
    requires Names(index, handles)
    ensures Names(index, handles + [h])
  {
  }

  lemma FilteredCut(added: set<(nat, Slice)>, extract: Extractor, handles: seq<BlockHandle>, s: Build, h: BlockHandle, offset: nat)
    requires Filtered(added, extract, handles, s.blocks, s.data, h.offset)
    ensures Filtered(added, extract, handles + [h], s.blocks + [s.data], [], offset)
  {
    var w, hs := s.(blocks := s.blocks + [s.data], data := []), handles + [h];
    forall b, i | 0 <= b < |w.blocks| && 0 <= i < |w.blocks[b]| ensures AddedAs(added, extract, hs[b].offset, w.blocks[b][i].key) {
      if b < |s.blocks| {
        assert AddedAs(added, extract, handles[b].offset, s.blocks[b][i].key);
      } else {
        assert AddedAs(added, extract, h.offset, s.data[i].key);
      }
    }
  }

  lemma EmptyStart(crc: Checksum, rank: Ranking, extract: Extractor, interval: nat)
    ensures Ordered(rank, Build([], [], [])) && Largest(rank, Build([], [], []), [])
    ensures AllStand(crc, [], [], [], interval) && Names([], []) && Filtered({}, extract, [], [], [], 0)
  {
  }

  lemma LargerKey(rank: Ranking, s: Build, last: Slice, key: Slice, entry: KeyValue)
    requires Largest(rank, s, last) && rank(last) <= rank(key)
    ensures Largest(rank, s.(index := s.index + [entry]), key)
  {
    forall b | 0 <= b < |s.blocks| ensures UpTo(rank, s.blocks[b], key) {
      assert UpTo(rank, s.blocks[b], last);
    }
  }

  lemma NamesMore(index: seq<KeyValue>, handles: seq<BlockHandle>, entry: KeyValue)
    requires Names(index, handles) && |index| < |handles| && entry.value == EncodeHandle(handles[|index|])
    ensures Names(index + [entry], handles)
  {
  }
}
