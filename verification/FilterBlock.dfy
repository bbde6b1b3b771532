/** The filter block of a table (table/filter_block.cc): one filter for the keys of all blocks that start in the same
    2 KB of the file, found again by the offset of the block. */
module FilterBlock {
  import opened InternalKeys
  import opened Coding
  import opened Bloom
  import BlockBuilder
  import Block

  const FILTER_BASE_LG: nat := 11
  const FILTER_BASE: nat := 2048

  /** Keys one after the other. */
  function Flat(keys: seq<Slice>): Slice {
    if keys == [] then [] else Flat(keys[..|keys| - 1]) + keys[|keys| - 1]
  }

  /** Where each of the keys starts in the flattened form. */
  function StartsOf(keys: seq<Slice>): (r: seq<nat>)
    ensures |r| == |keys|
  {
    if keys == [] then [] else StartsOf(keys[..|keys| - 1]) + [|Flat(keys[..|keys| - 1])|]
  }

  lemma {:induction false} StartAt(keys: seq<Slice>, i: nat)
    requires i < |keys|
    ensures StartsOf(keys)[i] == |Flat(keys[..i])|
    ensures |Flat(keys[..i])| + |keys[i]| <= |Flat(keys)|
    ensures Flat(keys)[|Flat(keys[..i])|..|Flat(keys[..i])| + |keys[i]|] == keys[i]
    ensures |Flat(keys[..i + 1])| == |Flat(keys[..i])| + |keys[i]|
  {
    var n := |keys| - 1;
    var front, last := Flat(keys[..n]), keys[n];
    assert Flat(keys) == front + last;
    if i < n {
      StartAt(keys[..n], i);
      assert keys[..n][..i] == keys[..i] && keys[..n][..i + 1] == keys[..i + 1];
      var a := |Flat(keys[..i])|;
      assert (front + last)[a..a + |keys[i]|] == front[a..a + |keys[i]|];
    } else {
      assert keys[..n + 1] == keys;
      assert (front + last)[|front|..|front| + |last|] == last;
    }
  }

  function EndOf(offsets: seq<nat>, length: nat, i: nat): nat
    requires i < |offsets|
  {
    if i + 1 < |offsets| then offsets[i + 1] else length
  }

  /** Filter `i` is the bytes from its offset to the next one, empty if it has no keys. */
  ghost predicate Filters(hash: Hash, result: Slice, offsets: seq<nat>, groups: seq<seq<Slice>>) {
    && |offsets| == |groups|
    && forall i :: 0 <= i < |groups| ==> FilterAt(hash, result, offsets, groups[i], i)
  }

  ghost predicate FilterAt(hash: Hash, result: Slice, offsets: seq<nat>, keys: seq<Slice>, i: nat)
    requires i < |offsets|
  {
    && offsets[i] <= EndOf(offsets, |result|, i) <= |result|
    && if keys == [] then offsets[i] == EndOf(offsets, |result|, i)
       else IsFilter(hash, keys, result[offsets[i]..EndOf(offsets, |result|, i)])
  }

  lemma FiltersMore(hash: Hash, result: Slice, offsets: seq<nat>, groups: seq<seq<Slice>>, keys: seq<Slice>, filter: Slice)
    requires Filters(hash, result, offsets, groups)
    requires if keys == [] then filter == [] else IsFilter(hash, keys, filter)
    ensures Filters(hash, result + filter, offsets + [|result|], groups + [keys])
  {
    var all, ends := result + filter, offsets + [|result|];
    forall i | 0 <= i < |groups| + 1 ensures FilterAt(hash, all, ends, (groups + [keys])[i], i) {
      if i < |groups| {
        assert FilterAt(hash, result, offsets, groups[i], i);
        assert EndOf(ends, |all|, i) == EndOf(offsets, |result|, i);
        assert all[offsets[i]..EndOf(offsets, |result|, i)] == result[offsets[i]..EndOf(offsets, |result|, i)];
      } else {
        assert EndOf(ends, |all|, i) == |all| && all[ends[i]..|all|] == filter;
      }
    }
  }

  /** The bytes of a filter block for groups of keys. */
  ghost predicate IsFilterBlock(hash: Hash, contents: Slice, groups: seq<seq<Slice>>) {
    exists result, offsets :: Assembled(hash, contents, groups, result, offsets)
  }

  ghost predicate Assembled(hash: Hash, contents: Slice, groups: seq<seq<Slice>>, result: Slice, offsets: seq<nat>) {
    && Filters(hash, result, offsets, groups) && |contents| < TWO_32
    && BlockBuilder.AllFit(offsets) && |result| < TWO_32
    && contents == result + BlockBuilder.EncodeAll(offsets) + Fixed32(|result|) + [FILTER_BASE_LG as byte]
  }

  /** Every key added for a block at some offset is in the group of that offset; the newest keys still wait for theirs. */
  ghost predicate Grouped(added: set<(nat, Slice)>, groups: seq<seq<Slice>>, pending: seq<Slice>) {
    forall a <- added ::
      if a.0 / FILTER_BASE < |groups| then a.1 in groups[a.0 / FILTER_BASE]
      else a.0 / FILTER_BASE == |groups| && a.1 in pending
  }

  lemma GroupedMore(added: set<(nat, Slice)>, groups: seq<seq<Slice>>, pending: seq<Slice>)
    requires Grouped(added, groups, pending)
    ensures Grouped(added, groups + [pending], [])
  {
  }

  lemma Base(a: nat, b: nat)
    requires a <= b
    ensures a / FILTER_BASE <= b / FILTER_BASE
  {
  }

  class FilterBlockBuilder {
    const hash: Hash
    const bitsPerKey: nat
    const k: nat
    var keys: Slice
    var start: seq<nat>
    var result: Slice
    var filterOffsets: seq<nat>
    ghost var pending: seq<Slice>
    ghost var groups: seq<seq<Slice>>
    /** The offset of the block whose keys are being added, and all keys added, each with the offset of its block. */
    ghost var block: nat
    ghost var added: set<(nat, Slice)>

    ghost predicate Valid()
      reads this
    {
      && 1 <= k <= 30
      && keys == Flat(pending) && start == StartsOf(pending)
      && Filters(hash, result, filterOffsets, groups)
      && Grouped(added, groups, pending)
    }

    constructor (hash: Hash, bitsPerKey: nat, k: nat)
      requires 1 <= k <= 30
      ensures Valid() && added == {} && block == 0 && groups == [] && pending == []
      ensures this.hash == hash
    {
      this.hash, this.bitsPerKey, this.k := hash, bitsPerKey, k;
      keys, start, result, filterOffsets := [], [], [], [];
      pending, groups, block, added := [], [], 0, {};
    }

    method StartBlock(blockOffset: nat)
      requires Valid() && blockOffset / FILTER_BASE >= |groups|
      modifies this
      ensures Valid() && added == old(added) && block == blockOffset && blockOffset / FILTER_BASE == |groups|
    {
      var index := blockOffset / FILTER_BASE;
      while index > |filterOffsets|
        invariant Valid() && added == old(added) && index >= |filterOffsets|
      {
        GenerateFilter();
      }
      block := blockOffset;
    }

    method AddKey(key: Slice)
      requires Valid() && block / FILTER_BASE == |groups|
      modifies this
      ensures Valid() && added == old(added) + {(block, key)} && block == old(block) && groups == old(groups)
    {
      start := start + [|keys|];
      keys := keys + key;
      pending := pending + [key];
      added := added + {(block, key)};
      assert pending[..|pending| - 1] == old(pending);
    }

    method GenerateFilter()
      requires Valid()
      modifies this
      ensures Valid() && added == old(added) && block == old(block)
      ensures groups == old(groups) + [old(pending)] && pending == []
    {
      hide Filters, Grouped, IsFilter, Flat, StartsOf;
      var numKeys := |start|;
      GroupedMore(added, groups, pending);
      NoStarts();
      if numKeys == 0 {
        FiltersMore(hash, result, filterOffsets, groups, [], []);
        assert result + [] == result;
        filterOffsets := filterOffsets + [|result|];
        groups, pending := groups + [pending], [];
        return;
      }
      var tmpKeys := SplitKeys();
      var filter := CreateFilter(hash, bitsPerKey, k, tmpKeys);
      FiltersMore(hash, result, filterOffsets, groups, pending, filter);
      filterOffsets := filterOffsets + [|result|];
      result := result + filter;
      groups, pending := groups + [pending], [];
      keys, start := [], [];
    }

    /** Make a list of keys from the flattened form. */
    method SplitKeys() returns (tmpKeys: seq<Slice>)
      requires Valid()
      ensures tmpKeys == pending
    {
      var ends := start + [|keys|];
      tmpKeys := [];
      for i := 0 to |start|
        invariant tmpKeys == pending[..i]
      {
        StartAt(pending, i);
        if i + 1 < |start| {
          StartAt(pending, i + 1);
        } else {
          assert pending[..i + 1] == pending;
        }
        tmpKeys := tmpKeys + [keys[ends[i]..ends[i + 1]]];
      }
    }

    method Finish() returns (contents: Slice)
      requires Valid()
      modifies this
      ensures |contents| < TWO_32 ==> IsFilterBlock(hash, contents, groups)
      ensures forall a <- added :: a.0 / FILTER_BASE < |groups| && a.1 in groups[a.0 / FILTER_BASE]
      ensures added == old(added)
    {
      if start != [] {
        GenerateFilter();
      }
      assert Grouped(added, groups, pending) && pending == [];
      ghost var data := result;
      ghost var offsets := filterOffsets;
      OffsetsInside(hash, result, filterOffsets, groups);
      var arrayOffset := |result|;
      contents := AppendArray(result, filterOffsets);
      contents := contents + [FILTER_BASE_LG as byte];
      result := contents;
      if |contents| < TWO_32 {
        assert Assembled(hash, contents, groups, data, offsets);
      }
    }
  }

  lemma NoStarts()
    ensures Flat([]) == [] && StartsOf([]) == []
  {
  }

  lemma OffsetsInside(hash: Hash, result: Slice, offsets: seq<nat>, groups: seq<seq<Slice>>)
    requires Filters(hash, result, offsets, groups)
    ensures forall i :: 0 <= i < |offsets| ==> offsets[i] <= |result|
  {
    forall i | 0 <= i < |offsets| ensures offsets[i] <= |result| {
      assert FilterAt(hash, result, offsets, groups[i], i);
    }
  }

  lemma NoOffsets(offsets: seq<nat>)
    ensures BlockBuilder.AllFit(offsets[..0]) && BlockBuilder.EncodeAll(offsets[..0]) == []
  {
  }

  /** The offsets and the place of the array they make, in 32 bits each. */
  method AppendArray(result: Slice, offsets: seq<nat>) returns (r: Slice)
    ensures |r| == |result| + 4 * |offsets| + 4
    ensures |result| < TWO_32 && BlockBuilder.AllFit(offsets) ==>
              r == result + BlockBuilder.EncodeAll(offsets) + Fixed32(|result|)
  {
    hide Fixed32, BlockBuilder.EncodeAll;
    NoOffsets(offsets);
    r := result;
    for i := 0 to |offsets|
      invariant |r| == |result| + 4 * i
      invariant BlockBuilder.AllFit(offsets) ==> BlockBuilder.AllFit(offsets[..i]) && r == result + BlockBuilder.EncodeAll(offsets[..i])
    {
      if BlockBuilder.AllFit(offsets) {
        BlockBuilder.EncodeOneMore(offsets, i);
        assert offsets[i] % TWO_32 == offsets[i];
      }
      r := r + Fixed32(offsets[i] % TWO_32);
    }
    assert offsets[..|offsets|] == offsets;
    r := r + Fixed32(|result| % TWO_32);
  }

  // ---------------------------------------------------------------- reading

  class FilterBlockReader {
    const hash: Hash
    const data: Slice
    /** Where the array of offsets starts, how long it is, and the encoding parameter; no filters in a bad block. */
    const offset: nat
    const num: nat
    const baseLg: nat

    predicate Valid() {
      num > 0 ==> offset + 4 * num + 5 <= |data|
    }

    constructor (hash: Hash, contents: Slice)
      ensures Valid() && this.hash == hash && data == contents
      ensures |contents| < 5 || DecodeFixed32(contents[|contents| - 5..]) > |contents| - 5 ==> num == 0
      ensures |contents| >= 5 && DecodeFixed32(contents[|contents| - 5..]) <= |contents| - 5 ==>
                && offset == DecodeFixed32(contents[|contents| - 5..])
                && num == (|contents| - 5 - offset) / 4
                && baseLg == contents[|contents| - 1] as nat
    {
      var n := |contents|;
      var at, count, lg := 0, 0, 0;
      if n >= 5 {
        lg := contents[n - 1] as nat;
        var lastWord := DecodeFixed32(contents[n - 5..]);
        if lastWord <= n - 5 {
          at := lastWord;
          count := (n - 5 - lastWord) / 4;
        }
      }
      this.hash, data, offset, num, baseLg := hash, contents, at, count, lg;
    }

    method KeyMayMatch(blockOffset: nat, key: Slice) returns (r: bool)
      requires Valid()
      ensures r == MayMatch(hash, data, offset, num, baseLg, blockOffset, key)
    {
      hide FilterIndex, DecodeFixed32, Matches;
      var index := FilterIndex(blockOffset, baseLg);
      if index < num {
        var start := DecodeFixed32(data[offset + 4 * index..]);
        var limit := DecodeFixed32(data[offset + 4 * index + 4..]);
        if start <= limit && limit <= offset {
          r := Bloom.KeyMayMatch(hash, key, data[start..limit]);
          return;
        } else if start == limit {
          return false;
        }
      }
      r := true;
    }
  }

  /** `block_offset >> base_lg`. */
  function FilterIndex(blockOffset: nat, baseLg: nat): nat
    decreases baseLg
  {
    if baseLg == 0 then blockOffset else FilterIndex(blockOffset / 2, baseLg - 1)
  }

  /** The answer for a key of the block at `blockOffset`: anything out of order counts as a potential match. */
  predicate MayMatch(hash: Hash, data: Slice, offset: nat, num: nat, baseLg: nat, blockOffset: nat, key: Slice)
    requires num > 0 ==> offset + 4 * num + 5 <= |data|
  {
    var index := FilterIndex(blockOffset, baseLg);
    index < num ==> FilterAnswer(hash, data, offset, index, key)
  }

  predicate FilterAnswer(hash: Hash, data: Slice, offset: nat, index: nat, key: Slice)
    requires offset + 4 * index + 8 <= |data|
  {
    var start, limit := DecodeFixed32(data[offset + 4 * index..]), DecodeFixed32(data[offset + 4 * index + 4..]);
    if start <= limit && limit <= offset then Matches(hash, key, data[start..limit]) else start != limit
  }

  /** The reader finds the array and the offsets as they were written. */
  lemma ArrayFound(hash: Hash, contents: Slice, groups: seq<seq<Slice>>, result: Slice, offsets: seq<nat>)
    requires Assembled(hash, contents, groups, result, offsets)
    ensures |contents| == |result| + 4 * |offsets| + 5
    ensures DecodeFixed32(contents[|contents| - 5..]) == |result|
    ensures contents[|contents| - 1] as nat == FILTER_BASE_LG
    ensures result <= contents
  {
    hide DecodeFixed32, Fixed32, Filters;
    var points := BlockBuilder.EncodeAll(offsets);
    var tail := Fixed32(|result|) + [FILTER_BASE_LG as byte];
    assert contents == (result + points) + tail;
    assert contents[|contents| - 5..] == tail;
    Fixed32RoundTrip(|result|, [FILTER_BASE_LG as byte]);
  }

  lemma OffsetFound(hash: Hash, contents: Slice, groups: seq<seq<Slice>>, result: Slice, offsets: seq<nat>, i: nat)
    requires Assembled(hash, contents, groups, result, offsets) && i < |offsets|
    ensures |result| + 4 * i + 8 <= |contents|
    ensures DecodeFixed32(contents[|result| + 4 * i..]) == offsets[i]
    ensures DecodeFixed32(contents[|result| + 4 * i + 4..]) == EndOf(offsets, |result|, i)
  {
    hide DecodeFixed32, Fixed32, Filters;
    var points := BlockBuilder.EncodeAll(offsets);
    var tail := Fixed32(|result|) + [FILTER_BASE_LG as byte];
    assert contents == result + (points + tail);
    Block.RestartBytes(offsets, i, tail);
    assert contents[|result| + 4 * i..] == (points + tail)[4 * i..];
    assert contents[|result| + 4 * i + 4..] == (points + tail)[4 * (i + 1)..];
    if i + 1 < |offsets| {
      Block.RestartBytes(offsets, i + 1, tail);
    } else {
      assert (points + tail)[4 * (i + 1)..] == tail;
      Fixed32RoundTrip(|result|, [FILTER_BASE_LG as byte]);
    }
  }

  /** The shift by the stored parameter is the division of the builder. */
  lemma ShiftIsDivision(blockOffset: nat)
    ensures FilterIndex(blockOffset, FILTER_BASE_LG) == blockOffset / FILTER_BASE
  {
    var a, b, c, d := blockOffset / 2 / 2 / 2, blockOffset / 64, blockOffset / 512, blockOffset / 2048;
    assert FilterIndex(d, 0) == d;
    assert FilterIndex(c, 2) == FilterIndex(c / 2 / 2, 0) && c / 2 / 2 == d;
    assert FilterIndex(b, 5) == FilterIndex(b / 2 / 2 / 2, 2) && b / 2 / 2 / 2 == c;
    assert FilterIndex(a, 8) == FilterIndex(a / 2 / 2 / 2, 5) && a / 2 / 2 / 2 == b;
    assert FilterIndex(blockOffset, 11) == FilterIndex(a, 8);
  }

  /** What a reader of a built filter block answers: it looks up the group of the block's offset, answers no for an empty
      group and yes beyond the last one, and otherwise asks the filter of exactly that group. */
  lemma BuiltAnswers(hash: Hash, contents: Slice, groups: seq<seq<Slice>>, blockOffset: nat, key: Slice)
    requires IsFilterBlock(hash, contents, groups)
    ensures |contents| >= 5 && DecodeFixed32(contents[|contents| - 5..]) <= |contents| - 5
    ensures contents[|contents| - 1] as nat == FILTER_BASE_LG
    ensures var offset := DecodeFixed32(contents[|contents| - 5..]);
            var num := (|contents| - 5 - offset) / 4;
            var r := MayMatch(hash, contents, offset, num, FILTER_BASE_LG, blockOffset, key);
            var i := blockOffset / FILTER_BASE;
            && num == |groups|
            && (i >= |groups| ==> r)
            && (i < |groups| && groups[i] == [] ==> !r)
            && (i < |groups| && key in groups[i] ==> r)
            && (i < |groups| && groups[i] != [] ==> exists f :: IsFilter(hash, groups[i], f) && (r <==> Matches(hash, key, f)))
  {
    hide DecodeFixed32, Assembled, IsFilter, Matches;
    var result, offsets :| Assembled(hash, contents, groups, result, offsets);
    ArrayFound(hash, contents, groups, result, offsets);
    ShiftIsDivision(blockOffset);
    var i := blockOffset / FILTER_BASE;
    GroupCount(hash, contents, groups, result, offsets);
    if i < |groups| {
      OffsetFound(hash, contents, groups, result, offsets, i);
      FilterStands(hash, contents, groups, result, offsets, i, key);
    }
  }

  lemma GroupCount(hash: Hash, contents: Slice, groups: seq<seq<Slice>>, result: Slice, offsets: seq<nat>)
    requires Assembled(hash, contents, groups, result, offsets)
    ensures |offsets| == |groups|
  {
  }

  lemma FilterStands(hash: Hash, contents: Slice, groups: seq<seq<Slice>>, result: Slice, offsets: seq<nat>, i: nat, key: Slice)
    requires Assembled(hash, contents, groups, result, offsets) && i < |groups| && result <= contents
    ensures |offsets| == |groups| && offsets[i] <= EndOf(offsets, |result|, i) <= |result|
    ensures var filter := contents[offsets[i]..EndOf(offsets, |result|, i)];
            && (groups[i] == [] ==> !Matches(hash, key, filter))
            && (groups[i] != [] ==> IsFilter(hash, groups[i], filter))
            && (key in groups[i] ==> Matches(hash, key, filter))
  {
    hide Matches, IsFilter;
    assert FilterAt(hash, result, offsets, groups[i], i);
    var filter := contents[offsets[i]..EndOf(offsets, |result|, i)];
    assert filter == result[offsets[i]..EndOf(offsets, |result|, i)];
    if groups[i] == [] {
      NothingMatches(hash, key);
    } else if key in groups[i] {
      NoFalseNegative(hash, groups[i], filter, key);
    }
  }

  lemma NothingMatches(hash: Hash, key: Slice)
    ensures !Matches(hash, key, [])
  {
  }
}
