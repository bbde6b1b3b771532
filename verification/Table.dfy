/** Reading a table file (table/table.cc): opening it, iterating over it, and looking up one key through the index, the
    filter and one data block. */
module Table {
  import opened InternalKeys
  import opened Coding
  import opened BlockBuilder
  import opened Block
  import opened TableFormat
  import opened TLI = TwoLevelIterator
  import opened TableOrder
  import opened TableBuilder
  import FB = FilterBlock
  import Bloom

  /** A filter policy: the hash function and the name under which the metaindex lists the filter. */
  datatype Policy = Policy(hash: Bloom.Hash, name: Slice)

  /** The filter in the file was built with the policy that goes by its name. */
  ghost predicate Agrees(policy: Option<Policy>, l: Layout) {
    policy.Some? && l.filter.Some? && l.filter.value.name == policy.value.name ==> l.filter.value.hash == policy.value.hash
  }

  /** Where a block stands it can be read, whether or not checksums are verified. */
  lemma StandingIsReadable(crc: Checksum, verify: bool, file: Slice, h: BlockHandle, es: seq<KeyValue>, interval: nat)
    requires Stands(crc, file, h, es, interval)
    ensures ReadBlock(crc, verify, file, h).Some? && IsBlock(ReadBlock(crc, verify, file, h).value, es, interval)
  {
    hide IsBlock, RawBlock, ReadBlock;
    var contents :| Wrote(crc, file, h, contents) && IsBlock(contents, es, interval);
    BlockRoundTrip(crc, verify, file, h, contents);
  }

  lemma IndexLeads(crc: Checksum, verify: bool, rank: Ranking, extract: Extractor, file: Slice, l: Layout)
    requires IsTableFile(crc, rank, extract, file, l)
    ensures Leads(crc, verify, file, l.index, l.blocks, l.interval)
  {
    hide IsBlock, ReadBlock, DecodeHandle, EncodeHandle, Ordered, EncodeFooter, FilterStands;
    forall b | 0 <= b < |l.blocks| ensures Readable(crc, verify, file, l.index[b].value, l.blocks[b], l.interval) {
      NamedReadable(crc, verify, file, l.index[b].value, l.handles[b], l.blocks[b], l.interval);
    }
    forall b, c | 0 <= b < c < |l.blocks| ensures l.index[b].value != l.index[c].value {
      HandlesDiffer(l.handles[b], l.handles[c]);
    }
  }

  lemma NamedReadable(crc: Checksum, verify: bool, file: Slice, value: Slice, h: BlockHandle, es: seq<KeyValue>, interval: nat)
    requires value == EncodeHandle(h) && Stands(crc, file, h, es, interval)
    ensures Readable(crc, verify, file, value, es, interval)
  {
    hide IsBlock, ReadBlock, DecodeHandle, EncodeHandle;
    HandleRoundTrip(h, []);
    assert value + [] == value;
    StandingIsReadable(crc, verify, file, h, es, interval);
  }

  lemma HandlesDiffer(a: BlockHandle, b: BlockHandle)
    requires a != b
    ensures EncodeHandle(a) != EncodeHandle(b)
  {
    hide EncodeHandle, DecodeHandle;
    HandleRoundTrip(a, []);
    HandleRoundTrip(b, []);
    if EncodeHandle(a) == EncodeHandle(b) {
      assert false;
    }
  }

  class Table {
    const crc: Checksum
    const verify: bool
    const rank: Ranking
    const extract: Extractor
    const file: Slice
    const indexContents: Slice
    const filter: FB.FilterBlockReader?
    ghost const l: Layout

    ghost predicate Valid() {
      && IsTableFile(crc, rank, extract, file, l)
      && IsBlock(indexContents, l.index, 1)
      && (filter != null ==> l.filter.Some? && FilterOpen(filter, l.filter.value))
    }

    constructor (crc: Checksum, verify: bool, rank: Ranking, extract: Extractor, file: Slice, indexContents: Slice,
                 filter: Option<FB.FilterBlockReader>, ghost l: Layout)
      requires IsTableFile(crc, rank, extract, file, l) && IsBlock(indexContents, l.index, 1)
      requires filter.Some? ==> l.filter.Some? && FilterOpen(filter.value, l.filter.value)
      ensures Valid() && this.l == l && this.rank == rank && this.extract == extract && this.crc == crc && this.file == file
      ensures (this.filter != null) <==> filter.Some?
    {
      this.crc, this.verify, this.rank, this.extract, this.file, this.indexContents := crc, verify, rank, extract, file, indexContents;
      this.filter := if filter.Some? then filter.value else null;
      this.l := l;
    }

    /** An iterator over all entries, not valid at first. */
    method NewIterator() returns (it: TLI.TwoLevelIterator)
      requires Valid()
      ensures fresh(it) && fresh(it.Repr()) && it.Invariant() && it.blocks == l.blocks && it.rank == rank
      ensures it.At() == |Flat(l.blocks)|
    {
      hide IsBlock, Leads, Separates, Ascending, Flat, IsTableFile, Ordered, FilterOpen, Iter.Invariant, TLI.TwoLevelIterator.Linked, Stands, Wrote, FilterStands, EncodeFooter;
      IndexLeads(crc, verify, rank, extract, file, l);
      TableOrdered(crc, rank, extract, file, l);
      OrderedSeparates(rank, Build(l.blocks, [], l.index));
      var index := Block.NewIterator(rank, indexContents, l.index, 1);
      it := new TLI.TwoLevelIterator(crc, verify, file, rank, index, l.blocks, l.interval);
    }

    /** The value of the first index entry from `k` on. */
    method SeekIndex(k: Slice) returns (value: Option<Slice>)
      requires Valid()
      ensures var b := FirstFrom(rank, l.index, k);
              value == if b < |l.index| then Some(l.index[b].value) else None
    {
      hide IsBlock, Separates, Ascending, IsTableFile, Ordered, FilterOpen, Iter.Invariant, FirstFrom, Iter.Valid, Stands;
      TableOrdered(crc, rank, extract, file, l);
      OrderedSeparates(rank, Build(l.blocks, [], l.index));
      var index := Block.NewIterator(rank, indexContents, l.index, 1);
      index.Seek(k);
      index.ValidAt();
      value := None;
      if index.Valid() {
        var _, v := index.Current();
        value := Some(v);
      }
    }

    /** The first entry from `k` on in the block that an index value leads to. */
    method SeekBlock(value: Slice, k: Slice, ghost b: nat) returns (r: Option<KeyValue>)
      requires Valid() && b < |l.blocks| && |l.index| == |l.blocks| && value == l.index[b].value
      ensures var i := FirstFrom(rank, l.blocks[b], k);
              r == if i < |l.blocks[b]| then Some(l.blocks[b][i]) else None
    {
      hide IsBlock, Separates, Ascending, IsTableFile, Ordered, FilterOpen, Iter.Invariant, FirstFrom, Iter.Valid, Leads, Stands, Readable;
      TableOrdered(crc, rank, extract, file, l);
      OrderedSeparates(rank, Build(l.blocks, [], l.index));
      IndexLeads(crc, verify, rank, extract, file, l);
      LeadsTo(crc, verify, file, l.index, l.blocks, l.interval, b);
      var block := BlockReader(crc, verify, file, rank, value, l.blocks[b], l.interval);
      block.Seek(k);
      block.ValidAt();
      r := None;
      if block.Valid() {
        var key, v := block.Current();
        r := Some(KeyValue(key, v));
      }
    }

    /** Look up the first entry from `k` on: in the block whose index key is the first from `k` on, and there only. */
    method InternalGet(k: Slice) returns (r: Option<KeyValue>)
      requires Valid()
      ensures Answers(rank, extract, l, k, filter != null, r)
    {
      hide IsBlock, Separates, IsTableFile, Ordered, FilterOpen, FirstFrom, Names, Answers, EncodeHandle, DecodeHandle, Stands, Ascending, Flat;
      hide FilterPasses;
      TableOrdered(crc, rank, extract, file, l);
      OrderedSeparates(rank, Build(l.blocks, [], l.index));
      var value := SeekIndex(k);
      ghost var b := FirstFrom(rank, l.index, k);
      if value.None? {
        NothingBehind(rank, extract, l, k, filter != null);
        return None;
      }
      NamedHandle(l.index, l.handles, b);
      var handle := DecodeHandle(value.value);
      if filter != null && handle.Some? {
        var may := FilterAnswers(handle.value.0, k);
        if !may {
          RuledOut(rank, extract, l, k, b);
          return None;
        }
      }
      r := SeekBlock(value.value, k, b);
      FoundInBlock(rank, extract, l, k, filter != null, b, r);
    }

    method FilterAnswers(h: BlockHandle, k: Slice) returns (may: bool)
      requires Valid() && filter != null
      ensures may == FilterPasses(l.filter.value, h.offset, extract(k))
    {
      hide IsTableFile, FB.FilterAnswer, FB.FilterIndex, DecodeFixed32;
      may := filter.KeyMayMatch(h.offset, extract(k));
    }
  }

  /** Open a table file: footer, index block, and the filter if the metaindex lists one under the policy's name. */
  method Open(crc: Checksum, paranoid: bool, verify: bool, rank: Ranking, extract: Extractor, policy: Option<Policy>,
              bytewise: Ranking, file: Slice, ghost l: Layout) returns (table: Option<Table>)
    requires IsTableFile(crc, rank, extract, file, l) && Agrees(policy, l)
    ensures table.Some? && fresh(table.value) && table.value.Valid() && table.value.l == l
    ensures table.value.rank == rank && table.value.extract == extract
    ensures (table.value.filter != null) <==> (policy.Some? && l.filter.Some? && l.filter.value.name == policy.value.name)
  {
    hide IsTableFile, Stands, IsBlock, Ordered, Names, FilterStands, ReadBlock, DecodeFooter, EncodeFooter, FilterOpen;
    TableOrdered(crc, rank, extract, file, l);
    if |file| < FOOTER_SIZE {
      return None;
    }
    FooterRoundTrip(Footer(l.meta, l.indexHandle));
    var footer := DecodeFooter(file[|file| - FOOTER_SIZE..]);
    if footer.None? {
      return None;
    }
    StandingIsReadable(crc, paranoid, file, l.indexHandle, l.index, 1);
    var index := ReadBlock(crc, paranoid, file, footer.value.index);
    if index.None? {
      return None;
    }
    var filter := None;
    if policy.Some? {
      filter := ReadMeta(crc, paranoid, rank, extract, policy.value, bytewise, file, footer.value.metaindex, l);
    }
    var t := new Table(crc, verify, rank, extract, file, index.value, filter, l);
    table := Some(t);
  }

  method ReadMeta(crc: Checksum, paranoid: bool, rank: Ranking, extract: Extractor, policy: Policy, bytewise: Ranking,
                  file: Slice, metaindex: BlockHandle, ghost l: Layout) returns (filter: Option<FB.FilterBlockReader>)
    requires IsTableFile(crc, rank, extract, file, l) && Agrees(Some(policy), l) && metaindex == l.meta
    ensures filter.Some? <==> l.filter.Some? && l.filter.value.name == policy.name
    ensures filter.Some? ==> FilterOpen(filter.value, l.filter.value)
  {
    hide IsTableFile, Stands, IsBlock, Ordered, Names, FilterStands, ReadBlock, FilterOpen, Iter.Invariant, Iter.Valid;
    TableOrdered(crc, rank, extract, file, l);
    StandingIsReadable(crc, paranoid, file, l.meta, MetaEntries(l), l.interval);
    var contents := ReadBlock(crc, paranoid, file, metaindex);
    filter := None;
    var iter := Block.NewIterator(bytewise, contents.value, MetaEntries(l), l.interval);
    iter.Seek(policy.name);
    iter.ValidAt();
    if iter.Valid() {
      var key, value := iter.Current();
      if key == policy.name {
        filter := ReadFilter(crc, paranoid, rank, extract, policy, file, value, l);
      }
    }
  }

  method ReadFilter(crc: Checksum, paranoid: bool, rank: Ranking, extract: Extractor, policy: Policy,
                    file: Slice, value: Slice, ghost l: Layout) returns (filter: Option<FB.FilterBlockReader>)
    requires IsTableFile(crc, rank, extract, file, l) && l.filter.Some? && l.filter.value.hash == policy.hash
    requires value == EncodeHandle(l.filter.value.handle)
    ensures filter.Some? && FilterOpen(filter.value, l.filter.value)
  {
    hide IsTableFile, Stands, IsBlock, Ordered, Names, EncodeHandle, DecodeHandle, ReadBlock, Wrote, RawBlock, FB.IsFilterBlock, AllGrouped;
    TableOrdered(crc, rank, extract, file, l);
    ghost var part := l.filter.value;
    FilterReadable(crc, paranoid, file, part);
    HandleRoundTrip(part.handle, []);
    assert value + [] == value;
    var handle := DecodeHandle(value);
    var block := ReadBlock(crc, paranoid, file, handle.value.0);
    var reader := new FB.FilterBlockReader(policy.hash, block.value);
    filter := Some(reader);
  }

  lemma FilterReadable(crc: Checksum, verify: bool, file: Slice, part: FilterPart)
    requires Wrote(crc, file, part.handle, part.contents)
    ensures ReadBlock(crc, verify, file, part.handle) == Some(part.contents)
  {
    hide RawBlock, ReadBlock;
    BlockRoundTrip(crc, verify, file, part.handle, part.contents);
  }

  /** A key that is in the table is found, whatever the filter: the filter never rules out an entry that is like it. */
  lemma PresentIsFound(crc: Checksum, rank: Ranking, extract: Extractor, file: Slice, l: Layout, k: Slice, filtered: bool,
                       r: Option<KeyValue>, c: nat, i: nat)
    requires IsTableFile(crc, rank, extract, file, l) && Answers(rank, extract, l, k, filtered, r)
    requires c < |l.blocks| && i < |l.blocks[c]|
    requires rank(l.blocks[c][i].key) == rank(k) && extract(l.blocks[c][i].key) == extract(k)
    ensures r == Some(l.blocks[c][i])
  {
    hide FirstFrom, FilterPasses, IsTableFile, Flat, Ordered, Stands, Names, FilterStands, EncodeFooter;
    TableOrdered(crc, rank, extract, file, l);
    OrderedSeparates(rank, Build(l.blocks, [], l.index));
    var b := FirstFrom(rank, l.index, k);
    IndexNames(rank, l.index, l.blocks, k, c, i);
    assert b == c;
    FromSplits(rank, l.blocks[c], k, i);
    var f := FirstFrom(rank, l.blocks[c], k);
    assert f <= i;
    RanksDiffer(rank, l.blocks[c], f, i);
    FirstInBlocks(rank, l.index, l.blocks, k);
    FlatAt(l.blocks, c, i);
    RanksDiffer(rank, l.blocks[c], i, |l.blocks[c]| - 1);
    if l.filter.Some? && !FilterPasses(l.filter.value, l.handles[c].offset, extract(k)) {
      FilterIsRight(crc, rank, extract, file, l, k, c);
    }
  }

  lemma IndexNames(rank: Ranking, index: seq<KeyValue>, blocks: seq<seq<KeyValue>>, k: Slice, c: nat, i: nat)
    requires Separates(rank, index, blocks) && c < |blocks| && i < |blocks[c]| && rank(blocks[c][i].key) == rank(k)
    ensures FirstFrom(rank, index, k) == c
  {
    hide FirstFrom;
    var b := FirstFrom(rank, index, k);
    assert forall j, n :: 0 <= j < c && 0 <= n < |blocks[c]| ==> rank(index[j].key) < rank(blocks[c][n].key);
  }

  lemma RanksDiffer(rank: Ranking, es: seq<KeyValue>, i: nat, j: nat)
    requires Ascending(rank, es) && i <= j < |es|
    ensures rank(es[i].key) <= rank(es[j].key)
    ensures i < j ==> rank(es[i].key) < rank(es[j].key)
  {
  }

  ghost predicate FilterOpen(reader: FB.FilterBlockReader, part: FilterPart) {
    && reader.Valid() && reader.hash == part.hash && reader.data == part.contents
    && (|part.contents| < 5 || DecodeFixed32(part.contents[|part.contents| - 5..]) > |part.contents| - 5 ==> reader.num == 0)
    && (|part.contents| >= 5 && DecodeFixed32(part.contents[|part.contents| - 5..]) <= |part.contents| - 5 ==>
          && reader.offset == DecodeFixed32(part.contents[|part.contents| - 5..])
          && reader.num == (|part.contents| - 5 - reader.offset) / 4
          && reader.baseLg == part.contents[|part.contents| - 1] as nat)
  }

  lemma TableOrdered(crc: Checksum, rank: Ranking, extract: Extractor, file: Slice, l: Layout)
    requires IsTableFile(crc, rank, extract, file, l)
    ensures Ordered(rank, Build(l.blocks, [], l.index)) && |l.index| == |l.blocks| == |l.handles|
    ensures Stands(crc, file, l.indexHandle, l.index, 1) && Stands(crc, file, l.meta, MetaEntries(l), l.interval)
    ensures |file| >= FOOTER_SIZE && file[|file| - FOOTER_SIZE..] == EncodeFooter(Footer(l.meta, l.indexHandle))
    ensures FilterStands(crc, extract, file, l) && Names(l.index, l.handles)
    ensures forall b :: 0 <= b < |l.blocks| ==> l.blocks[b] != []
  {
  }

  /** No entry of the block has the tested part of this key. */
  ghost predicate NoneLike(extract: Extractor, es: seq<KeyValue>, k: Slice) {
    forall i :: 0 <= i < |es| ==> extract(es[i].key) != extract(k)
  }

  /** What the filter's bytes say of a key in the block at an offset; bytes that are not a filter block say yes. */
  predicate FilterPasses(part: FilterPart, blockOffset: nat, key: Slice) {
    var n := |part.contents|;
    n >= 5 && DecodeFixed32(part.contents[n - 5..]) <= n - 5 ==>
      var at := DecodeFixed32(part.contents[n - 5..]);
      FB.MayMatch(part.hash, part.contents, at, (n - 5 - at) / 4, part.contents[n - 1] as nat, blockOffset, key)
  }

  /** The filter, if there is one in use, lets the lookup of `k` into block `b`. */
  ghost predicate Admits(extract: Extractor, l: Layout, k: Slice, filtered: bool, b: nat) {
    filtered && l.filter.Some? && b < |l.handles| ==> FilterPasses(l.filter.value, l.handles[b].offset, extract(k))
  }

  /** The answer to a lookup: the first of all entries from `k` on, exactly if `k` is not behind the last key of the block
      that the index names and the filter admits it; otherwise nothing. */
  ghost predicate Answers(rank: Ranking, extract: Extractor, l: Layout, k: Slice, filtered: bool, r: Option<KeyValue>) {
    var b := FirstFrom(rank, l.index, k);
    var n := FirstFrom(rank, Flat(l.blocks), k);
    && (r.Some? <==> b < |l.blocks| && rank(k) <= rank(LastKey(l.blocks[b])) && Admits(extract, l, k, filtered, b))
    && (r.Some? ==> n < |Flat(l.blocks)| && r.value == Flat(l.blocks)[n])
  }

  lemma NothingBehind(rank: Ranking, extract: Extractor, l: Layout, k: Slice, filtered: bool)
    requires |l.index| == |l.blocks| && FirstFrom(rank, l.index, k) == |l.index|
    ensures Answers(rank, extract, l, k, filtered, None)
  {
  }

  lemma RuledOut(rank: Ranking, extract: Extractor, l: Layout, k: Slice, b: nat)
    requires b == FirstFrom(rank, l.index, k) && b < |l.blocks| && |l.handles| == |l.blocks| && l.filter.Some?
    requires !FilterPasses(l.filter.value, l.handles[b].offset, extract(k))
    ensures Answers(rank, extract, l, k, true, None)
  {
  }

  lemma FoundInBlock(rank: Ranking, extract: Extractor, l: Layout, k: Slice, filtered: bool, b: nat, r: Option<KeyValue>)
    requires Separates(rank, l.index, l.blocks) && forall c :: 0 <= c < |l.blocks| ==> l.blocks[c] != [] && Ascending(rank, l.blocks[c])
    requires b == FirstFrom(rank, l.index, k) && b < |l.blocks| && Admits(extract, l, k, filtered, b)
    requires var i := FirstFrom(rank, l.blocks[b], k);
             r == if i < |l.blocks[b]| then Some(l.blocks[b][i]) else None
    ensures Answers(rank, extract, l, k, filtered, r)
  {
    hide FirstFrom, FilterPasses;
    FirstInBlocks(rank, l.index, l.blocks, k);
    FromSplits(rank, l.blocks[b], k, |l.blocks[b]| - 1);
    if r.Some? {
      FlatAt(l.blocks, b, FirstFrom(rank, l.blocks[b], k));
    }
  }

  lemma NamedHandle(index: seq<KeyValue>, handles: seq<BlockHandle>, b: nat)
    requires Names(index, handles) && b < |index|
    ensures b < |handles| && DecodeHandle(index[b].value) == Some((handles[b], []))
  {
    hide EncodeHandle, DecodeHandle;
    HandleRoundTrip(handles[b], []);
    assert EncodeHandle(handles[b]) + [] == EncodeHandle(handles[b]);
  }

  /** A filter rules a block out only if no entry in it is like `k`. */
  lemma FilterIsRight(crc: Checksum, rank: Ranking, extract: Extractor, file: Slice, l: Layout, k: Slice, b: nat)
    requires IsTableFile(crc, rank, extract, file, l) && b < |l.blocks| && |l.handles| == |l.blocks|
    requires l.filter.Some? && !FilterPasses(l.filter.value, l.handles[b].offset, extract(k))
    ensures NoneLike(extract, l.blocks[b], k)
  {
    hide FB.MayMatch, FB.IsFilterBlock, DecodeFixed32, AllStand, Ordered, Names, Stands, Wrote, EncodeFooter;
    var f := l.filter.value;
    FB.BuiltAnswers(f.hash, f.contents, f.groups, l.handles[b].offset, extract(k));
    forall i | 0 <= i < |l.blocks[b]| ensures extract(l.blocks[b][i].key) != extract(k) {
      assert InGroup(f.groups, l.handles[b].offset / FB.FILTER_BASE, extract(l.blocks[b][i].key));
    }
  }
}
