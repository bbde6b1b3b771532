/** Reading blocks (table/block.cc): an iterator that decodes entries from the bytes of a block and behaves as a cursor
    over the entries that were put into it. */
module Block {
  import opened InternalKeys
  import opened Coding
  import opened BlockBuilder

  /** The order of the keys, as ranks. */
  type Ranking = Slice -> real

  ghost predicate Ascending(rank: Ranking, es: seq<KeyValue>) {
    forall i, j :: 0 <= i < j < |es| ==> rank(es[i].key) < rank(es[j].key)
  }

  /** The first entry at or after the target, or the end. */
  function FirstFrom(rank: Ranking, es: seq<KeyValue>, target: Slice): (i: nat)
    ensures i <= |es|
    ensures forall j :: 0 <= j < i ==> rank(es[j].key) < rank(target)
    ensures i < |es| ==> rank(es[i].key) >= rank(target)
  {
    if es == [] || rank(es[0].key) >= rank(target) then 0 else 1 + FirstFrom(rank, es[1..], target)
  }

  // ---------------------------------------------------------------- decoding

  /** Where the restart array starts and how many points it has; None when the block is too small to be one. */
  function RestartArray(block: Slice): Option<(nat, nat)> {
    if |block| < 4 then None
    else
      var count := DecodeFixed32(block[|block| - 4..]);
      if count > (|block| - 4) / 4 then None else Some((|block| - (1 + count) * 4, count))
  }

  /** The three lengths in front of an entry, and what follows them. */
  datatype Header = Header(shared: nat, nonShared: nat, valueLength: nat, rest: Slice)

  /** DecodeEntry: one byte each if they are all short, else three varints; None if the block ends before the entry. */
  function DecodeEntry(input: Slice): Option<Header> {
    if |input| < 3 then None
    else if input[0] < 0x80 && input[1] < 0x80 && input[2] < 0x80 then
      Fits(Header(input[0] as nat, input[1] as nat, input[2] as nat, input[3..]))
    else DecodeLengths(input)
  }

  function DecodeLengths(input: Slice): Option<Header> {
    match GetVarint32(input)
    case None => None
    case Some((shared, a)) =>
      match GetVarint32(a)
      case None => None
      case Some((nonShared, b)) =>
        match GetVarint32(b)
        case None => None
        case Some((valueLength, c)) => Fits(Header(shared, nonShared, valueLength, c))
  }

  function Fits(h: Header): Option<Header> {
    if |h.rest| < (h.nonShared + h.valueLength) % TWO_32 then None else Some(h)
  }

  lemma OneByteVarint(input: Slice)
    requires input != [] && input[0] < 0x80
    ensures GetVarint32(input) == Some((input[0] as nat, input[1..]))
  {
  }

  /** The fast path decodes what the general path does. */
  lemma FastPathAgrees(input: Slice)
    requires |input| >= 3
    ensures DecodeEntry(input) == DecodeLengths(input)
  {
    hide GetVarint32;
    if input[0] < 0x80 && input[1] < 0x80 && input[2] < 0x80 {
      OneByteVarint(input);
      OneByteVarint(input[1..]);
      OneByteVarint(input[1..][1..]);
      assert input[1..][1..][1..] == input[3..];
    }
  }

  /** Decoding reads back what the builder wrote. */
  lemma DecodeRecord(shared: nat, e: KeyValue, more: Slice)
    requires shared <= |e.key| < TWO_32 && |e.value| < TWO_32
    ensures DecodeEntry(Record(shared, e) + more) ==
            Some(Header(shared, |e.key| - shared, |e.value|, e.key[shared..] + e.value + more))
  {
    hide EncodeVarint32, DecodeEntry, DecodeLengths;
    var nonShared := |e.key| - shared;
    var k, v := e.key[shared..], e.value;
    var v1, v2, v3 := EncodeVarint32(shared), EncodeVarint32(nonShared), EncodeVarint32(|e.value|);
    FromTheRight(v1, v2, v3, k, v, more);
    FastPathAgrees(Record(shared, e) + more);
    ThreeVarints(shared, nonShared, |e.value|, k + v + more);
  }

  lemma FromTheRight(a: Slice, b: Slice, c: Slice, d: Slice, e: Slice, f: Slice)
    ensures a + b + c + d + e + f == a + (b + (c + (d + e + f)))
  {
  }

  lemma ThreeVarints(a: uint32, b: uint32, c: uint32, tail: Slice)
    requires |tail| >= b + c
    ensures DecodeLengths(EncodeVarint32(a) + (EncodeVarint32(b) + (EncodeVarint32(c) + tail))) == Some(Header(a, b, c, tail))
  {
    hide EncodeVarint32, GetVarint32;
    Varint32RoundTrip(a, EncodeVarint32(b) + (EncodeVarint32(c) + tail));
    Varint32RoundTrip(b, EncodeVarint32(c) + tail);
    Varint32RoundTrip(c, tail);
  }

  // ---------------------------------------------------------------- the layout of a block

  ghost predicate IsBlock(block: Slice, es: seq<KeyValue>, interval: nat) {
    && interval > 0 && Encodable(es) && |block| < TWO_32
    && AllFit(Restarts(es, interval)) && |Restarts(es, interval)| < TWO_32
    && block == Contents(es, interval)
  }

  lemma IsEncoded(block: Slice, es: seq<KeyValue>, interval: nat)
    requires IsBlock(block, es, interval)
    ensures interval > 0 && Encodable(es) && Data(es, interval, |es|) <= block
  {
  }

  lemma {:induction false} DataIsPrefix(es: seq<KeyValue>, interval: nat, i: nat, n: nat)
    requires interval > 0 && Encodable(es) && i <= n <= |es|
    ensures Data(es, interval, i) <= Data(es, interval, n)
    ensures i < n ==> Offset(es, interval, i) + 3 <= Offset(es, interval, n)
    decreases n - i
  {
    hide Record, Shared;
    if i < n {
      DataIsPrefix(es, interval, i, n - 1);
      assert Data(es, interval, n) == Data(es, interval, n - 1) + Record(Shared(es, interval, n - 1), es[n - 1]);
    }
  }

  lemma {:induction false} RestartBytes(restarts: seq<nat>, j: nat, rest: Slice)
    requires AllFit(restarts) && j < |restarts|
    ensures DecodeFixed32((EncodeAll(restarts) + rest)[4 * j..]) == restarts[j]
  {
    hide DecodeFixed32, Fixed32;
    var n := |restarts| - 1;
    var front := EncodeAll(restarts[..n]);
    assert EncodeAll(restarts) + rest == front + (Fixed32(restarts[n]) + rest);
    if j == n {
      assert (front + (Fixed32(restarts[n]) + rest))[4 * n..] == Fixed32(restarts[n]) + rest;
      Fixed32RoundTrip(restarts[n], rest);
    } else {
      RestartBytes(restarts[..n], j, Fixed32(restarts[n]) + rest);
    }
  }

  /** The restart array is found where it was written. */
  lemma OpenedBlock(block: Slice, es: seq<KeyValue>, interval: nat)
    requires IsBlock(block, es, interval)
    ensures RestartArray(block) == Some((Offset(es, interval, |es|), |Restarts(es, interval)|))
  {
    hide DecodeFixed32, Fixed32, Restarts, Data;
    var count := |Restarts(es, interval)|;
    var front := Data(es, interval, |es|) + EncodeAll(Restarts(es, interval));
    assert block == front + Fixed32(count);
    assert block[|block| - 4..] == Fixed32(count) + [];
    Fixed32RoundTrip(count, []);
  }

  lemma RestartPointAt(block: Slice, es: seq<KeyValue>, interval: nat, j: nat)
    requires IsBlock(block, es, interval) && j < |Restarts(es, interval)|
    ensures Offset(es, interval, |es|) + 4 * j + 4 <= |block|
    ensures DecodeFixed32(block[Offset(es, interval, |es|) + 4 * j..]) == Restarts(es, interval)[j]
  {
    hide DecodeFixed32, Fixed32, Restarts, Data, EncodeAll;
    var data, restarts := Data(es, interval, |es|), Restarts(es, interval);
    var points := EncodeAll(restarts) + Fixed32(|restarts|);
    RestartBytes(restarts, j, Fixed32(|restarts|));
    assert block == data + points;
    assert block[|data| + 4 * j..] == points[4 * j..];
  }

  /** The bytes from the start of an entry are its record and the entries behind it. */
  lemma EntryBytes(block: Slice, es: seq<KeyValue>, interval: nat, i: nat) returns (more: Slice)
    requires IsBlock(block, es, interval) && i < |es|
    ensures var p, q, limit := Offset(es, interval, i), Offset(es, interval, i + 1), Offset(es, interval, |es|);
            && p < q <= limit <= |block| && |more| == limit - q
            && block[p..limit] == Record(Shared(es, interval, i), es[i]) + more
  {
    hide Record, Shared, IsBlock;
    IsEncoded(block, es, interval);
    var p, q, limit := Offset(es, interval, i), Offset(es, interval, i + 1), Offset(es, interval, |es|);
    var data := Data(es, interval, |es|);
    DataIsPrefix(es, interval, i, i + 1);
    DataIsPrefix(es, interval, i + 1, |es|);
    more := data[q..];
    PrefixStands(block, data, Data(es, interval, i), Record(Shared(es, interval, i), es[i]));
  }

  lemma PrefixStands(block: Slice, data: Slice, front: Slice, piece: Slice)
    requires data <= block && front + piece <= data
    ensures block[|front|..|data|] == piece + data[|front| + |piece|..]
  {
    assert data == (front + piece) + data[|front| + |piece|..];
    assert block[..|data|] == data;
  }

  /** The entry that starts at its offset is decoded as it was added; its value ends where the next entry starts. */
  lemma EntryAt(block: Slice, es: seq<KeyValue>, interval: nat, i: nat) returns (more: Slice)
    requires IsBlock(block, es, interval) && i < |es|
    ensures var p, q, limit := Offset(es, interval, i), Offset(es, interval, i + 1), Offset(es, interval, |es|);
            var shared, e := Shared(es, interval, i), es[i];
            && p < q <= limit <= |block| && |more| == limit - q
            && DecodeEntry(block[p..limit]) == Some(Header(shared, |e.key| - shared, |e.value|, e.key[shared..] + e.value + more))
            && |e.value| <= q && block[q - |e.value|..q] == e.value
  {
    hide Record, DecodeEntry, Shared, Data;
    more := EntryBytes(block, es, interval, i);
    var p, limit := Offset(es, interval, i), Offset(es, interval, |es|);
    var shared, e := Shared(es, interval, i), es[i];
    DecodeRecord(shared, e, more);
    RecordEndsWithValue(shared, e);
    ValueStands(block, p, limit, Record(shared, e), more, e.value);
  }

  lemma ValueStands(block: Slice, p: nat, limit: nat, record: Slice, more: Slice, value: Slice)
    requires p <= limit <= |block| && block[p..limit] == record + more
    requires |value| <= |record| && record[|record| - |value|..] == value
    ensures block[p + |record| - |value|..p + |record|] == value
  {
    var q := p + |record|;
    assert block[p..limit][..|record|] == record;
    assert block[p..q] == block[p..limit][..|record|];
    assert block[q - |value|..q] == block[p..q][|record| - |value|..];
  }

  lemma RecordEndsWithValue(shared: nat, e: KeyValue)
    requires shared <= |e.key| < TWO_32 && |e.value| < TWO_32
    ensures |e.value| <= |Record(shared, e)|
    ensures Record(shared, e)[|Record(shared, e)| - |e.value|..] == e.value
  {
  }

  /** The prefix kept from the key before, and the key bytes of the entry, make up the key. */
  lemma RestoredKey(e: KeyValue, shared: nat, key: Slice, more: Slice)
    requires shared <= |e.key| && shared <= |key| && key[..shared] == e.key[..shared]
    ensures key[..shared] + (e.key[shared..] + e.value + more)[..|e.key| - shared] == e.key
  {
  }

  // ---------------------------------------------------------------- the iterator

  class Iter {
    const rank: Ranking
    const data: Slice
    const restarts: nat
    const numRestarts: nat
    var current: nat
    var restartIndex: nat
    var key: Slice
    var valueStart: nat
    var valueSize: nat
    ghost const es: seq<KeyValue>
    ghost const interval: nat
    /** The entry the iterator is at; the number of entries stands for "not valid". */
    ghost var at: nat

    ghost predicate Format() {
      && IsBlock(data, es, interval)
      && restarts == Offset(es, interval, |es|) && numRestarts == |Restarts(es, interval)|
    }

    ghost predicate Invariant()
      reads this
    {
      && Format() && at <= |es|
      && (at == |es| ==> current == restarts)
      && (at < |es| ==>
            && current == Offset(es, interval, at) < restarts && key == es[at].key
            && valueStart + valueSize == Offset(es, interval, at + 1) <= |data|
            && data[valueStart..valueStart + valueSize] == es[at].value
            && restartIndex < numRestarts && Starts(interval, |es|)[restartIndex] <= at)
    }

    /** The state in which ParseNextKey reads entry `i`. */
    ghost predicate Before(i: nat)
      requires Format()
      reads this
    {
      && i <= |es|
      && valueStart + valueSize == Offset(es, interval, i)
      && (i < |es| && !IsRestart(interval, i) ==> i > 0 && key == es[i - 1].key)
      && restartIndex < numRestarts && Starts(interval, |es|)[restartIndex] <= i
    }

    constructor (rank: Ranking, data: Slice, restarts: nat, numRestarts: nat, ghost es: seq<KeyValue>, ghost interval: nat)
      requires IsBlock(data, es, interval)
      requires restarts == Offset(es, interval, |es|) && numRestarts == |Restarts(es, interval)|
      ensures Invariant() && this.es == es && this.rank == rank && at == |es|
    {
      this.rank, this.data, this.restarts, this.numRestarts := rank, data, restarts, numRestarts;
      current, restartIndex, key, valueStart, valueSize := restarts, numRestarts, [], 0, 0;
      this.es, this.interval, at := es, interval, |es|;
    }

    predicate Valid()
      reads this
    {
      current < restarts
    }

    /** The iterator is valid exactly when it is at an entry, and then gives its key and value. */
    method Current() returns (k: Slice, v: Slice)
      requires Invariant() && Valid()
      ensures at < |es| && es[at] == KeyValue(k, v)
    {
      k, v := key, data[valueStart..valueStart + valueSize];
    }

    method GetRestartPoint(index: nat) returns (p: nat)
      requires Format() && index < numRestarts
      ensures p == Restarts(es, interval)[index] == Offset(es, interval, Starts(interval, |es|)[index])
    {
      RestartPointAt(data, es, interval, index);
      p := DecodeFixed32(data[restarts + 4 * index..]);
    }

    method SeekToRestartPoint(index: nat)
      requires Format() && index < numRestarts
      modifies this
      ensures Format() && Before(Starts(interval, |es|)[index]) && at == old(at)
    {
      hide IsBlock, Data, Starts, Restarts, IsRestart;
      key := [];
      restartIndex := index;
      var offset := GetRestartPoint(index);
      valueStart, valueSize := offset, 0;
    }

    method ParseNextKey(ghost i: nat) returns (found: bool)
      requires Format() && Before(i)
      modifies this
      ensures Invariant() && at == i && (found <==> i < |es|)
    {
      hide IsBlock, Data, Starts, Restarts, Record, IsRestart, DecodeEntry;
      IsEncoded(data, es, interval);
      DataIsPrefix(es, interval, i, |es|);
      at := i;
      current := valueStart + valueSize;
      if current >= restarts {
        current, restartIndex := restarts, numRestarts;
        return false;
      }
      ghost var more := EntryAt(data, es, interval, i);
      ghost var shared, e := Shared(es, interval, i), es[i];
      var r := DecodeEntry(data[current..restarts]);
      // A block that was built always has an entry here whose shared prefix the key before provides.
      assert r.Some? && r.value.shared <= |key|;
      var h := r.value;
      RestoredKey(e, shared, key, more);
      key := key[..h.shared] + h.rest[..h.nonShared];
      valueStart, valueSize := restarts - |h.rest| + h.nonShared, h.valueLength;
      AdvanceRestartIndex();
      return true;
    }

    /** Keep the restart index at or before the current entry. */
    method AdvanceRestartIndex()
      requires Invariant() && at < |es|
      modifies this`restartIndex
      ensures Invariant()
    {
      hide IsBlock, Data, Starts, Restarts, IsRestart;
      IsEncoded(data, es, interval);
      var done := false;
      while !done && restartIndex + 1 < numRestarts
        invariant Invariant()
        decreases numRestarts - restartIndex, !done
      {
        var p := GetRestartPoint(restartIndex + 1);
        if p < current {
          ghost var s := Starts(interval, |es|)[restartIndex + 1];
          if at < s {
            DataIsPrefix(es, interval, at, s);
          }
          restartIndex := restartIndex + 1;
        } else {
          done := true;
        }
      }
    }

    method Next()
      requires Invariant() && at < |es|
      modifies this
      ensures Invariant() && at == old(at) + 1
    {
      var _ := ParseNextKey(at + 1);
    }

    method Prev()
      requires Invariant() && at < |es|
      modifies this
      ensures Invariant() && at == if old(at) == 0 then |es| else old(at) - 1
    {
      hide IsBlock, Data, Starts, Restarts, IsRestart;
      IsEncoded(data, es, interval);
      ghost var was := at;
      var original := current;
      var p := GetRestartPoint(restartIndex);
      while p >= original
        invariant Invariant() && at == was && current == original && restartIndex < numRestarts
        invariant p == Offset(es, interval, Starts(interval, |es|)[restartIndex])
        decreases restartIndex
      {
        AtStart(was, Starts(interval, |es|)[restartIndex]);
        if restartIndex == 0 {
          current, restartIndex := restarts, numRestarts;
          at := |es|;
          return;
        }
        restartIndex := restartIndex - 1;
        p := GetRestartPoint(restartIndex);
      }
      ghost var i := Starts(interval, |es|)[restartIndex];
      StartBefore(was, i);
      SeekToRestartPoint(restartIndex);
      var more := ParseNextKey(i);
      while more && valueStart + valueSize < original
        invariant Invariant() && at == i < was && more
        decreases was - i
      {
        EndBefore(was, i);
        i := i + 1;
        more := ParseNextKey(i);
      }
      EndBefore(was, i);
    }

    method SeekToFirst()
      requires Invariant()
      modifies this
      ensures Invariant() && at == 0
    {
      SeekToRestartPoint(0);
      var _ := ParseNextKey(0);
    }

    method SeekToLast()
      requires Invariant()
      modifies this
      ensures Invariant() && at == if es == [] then 0 else |es| - 1
    {
      hide IsBlock, Data, Starts, Restarts, IsRestart;
      IsEncoded(data, es, interval);
      SeekToRestartPoint(numRestarts - 1);
      ghost var i := Starts(interval, |es|)[numRestarts - 1];
      var more := ParseNextKey(i);
      while more && valueStart + valueSize < restarts
        invariant Invariant() && at == i <= |es| && (more <==> i < |es|) && (i == |es| ==> es == [])
        decreases |es| - i
      {
        EndBefore(|es|, i);
        i := i + 1;
        more := ParseNextKey(i);
      }
      if more {
        EndBefore(|es|, i);
      }
    }

    /** Binary search among the restart points, then a linear one. */
    method Seek(target: Slice)
      requires Invariant() && Ascending(rank, es)
      modifies this
      ensures Invariant() && at == FirstFrom(rank, es, target)
    {
      hide IsBlock, Data, Starts, Restarts, IsRestart, Ascending, FirstFrom;
      IsEncoded(data, es, interval);
      var left, right := 0, numRestarts - 1;
      while left < right
        invariant 0 <= left <= right < numRestarts
        invariant left == 0 || Starts(interval, |es|)[left] < FirstFrom(rank, es, target)
        decreases right - left
      {
        var mid := (left + right + 1) / 2;
        var midKey := RestartKey(mid);
        FromSplits(rank, es, target, Starts(interval, |es|)[mid]);
        if rank(midKey) < rank(target) {
          left := mid;
        } else {
          right := mid - 1;
        }
      }
      SeekToRestartPoint(left);
      ghost var i := Starts(interval, |es|)[left];
      ghost var n := FirstFrom(rank, es, target);
      while true
        invariant Format() && Before(i) && i <= n <= |es|
        decreases n - i
      {
        var more := ParseNextKey(i);
        if i < |es| {
          FromSplits(rank, es, target, i);
        }
        if !more || rank(key) >= rank(target) {
          return;
        }
        i := i + 1;
      }
    }

    /** The key of the entry at a restart point, read from the block itself. */
    method RestartKey(index: nat) returns (k: Slice)
      requires Format() && 0 < index < numRestarts
      ensures Starts(interval, |es|)[index] < |es| && k == es[Starts(interval, |es|)[index]].key
    {
      hide IsBlock, Data, Starts, Restarts, DecodeEntry;
      IsEncoded(data, es, interval);
      var p := GetRestartPoint(index);
      ghost var i := Starts(interval, |es|)[index];
      ghost var more := EntryAt(data, es, interval, i);
      var r := DecodeEntry(data[p..restarts]);
      // The entry at a restart point shares nothing with the key before.
      assert r.Some? && r.value.shared == 0;
      k := r.value.rest[..r.value.nonShared];
      RestoredKey(es[i], 0, [], more);
    }

    /** An iterator is valid exactly when it is at an entry. */
    lemma ValidAt()
      requires Invariant()
      ensures at <= |es| && (Valid() <==> at < |es|)
    {
    }

    lemma AtStart(i: nat, s: nat)
      requires Format() && s <= i < |es| && Offset(es, interval, s) >= Offset(es, interval, i)
      ensures s == i
    {
      hide IsBlock, Data;
      IsEncoded(data, es, interval);
      DataIsPrefix(es, interval, s, i);
    }

    lemma StartBefore(i: nat, s: nat)
      requires Format() && s <= i < |es| && Offset(es, interval, s) < Offset(es, interval, i)
      ensures s < i
    {
    }

    lemma EndBefore(n: nat, i: nat)
      requires Format() && i < n <= |es|
      ensures Offset(es, interval, i + 1) < Offset(es, interval, n) <==> i + 1 < n
    {
      hide IsBlock, Data;
      IsEncoded(data, es, interval);
      DataIsPrefix(es, interval, i + 1, n);
    }
  }

  lemma FromSplits(rank: Ranking, es: seq<KeyValue>, target: Slice, i: nat)
    requires Ascending(rank, es) && i < |es|
    ensures i < FirstFrom(rank, es, target) <==> rank(es[i].key) < rank(target)
  {
    hide FirstFrom;
    var n := FirstFrom(rank, es, target);
    if n < i {
      assert rank(es[n].key) < rank(es[i].key);
    }
  }

  /** A block that was built from entries, opened: the iterator starts out not valid. */
  method NewIterator(rank: Ranking, block: Slice, ghost es: seq<KeyValue>, ghost interval: nat) returns (it: Iter)
    requires IsBlock(block, es, interval)
    ensures fresh(it) && it.Invariant() && it.es == es && it.rank == rank && it.at == |es|
  {
    hide IsBlock, Starts, Restarts;
    OpenedBlock(block, es, interval);
    var points := RestartArray(block);
    it := new Iter(rank, block, points.value.0, points.value.1, es, interval);
  }
}
