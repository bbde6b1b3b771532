/** Blocks of a table (table/block_builder.cc): entries whose keys leave out what they share with the key before, except
    at restart points, which are listed behind the entries. */
module BlockBuilder {
  import opened InternalKeys
  import opened Coding

  datatype KeyValue = KeyValue(key: Slice, value: Slice)

  /** The length of the longest common prefix. */
  function Common(a: Slice, b: Slice): (n: nat)
    ensures n <= |a| && n <= |b| && a[..n] == b[..n]
    ensures n < |a| && n < |b| ==> a[n] != b[n]
  {
    if a == [] || b == [] || a[0] != b[0] then 0
    else
      var n := 1 + Common(a[1..], b[1..]);
      assert a[..n] == [a[0]] + a[1..][..n - 1] && b[..n] == [b[0]] + b[1..][..n - 1];
      n
  }

  predicate Encodable(es: seq<KeyValue>) {
    forall i :: 0 <= i < |es| ==> |es[i].key| < TWO_32 && |es[i].value| < TWO_32
  }

  /** Entry `i` starts a new run of compressed keys. */
  predicate IsRestart(interval: nat, i: nat)
    requires interval > 0
  {
    i % interval == 0
  }

  function Shared(es: seq<KeyValue>, interval: nat, i: nat): (n: nat)
    requires interval > 0 && i < |es|
    ensures n <= |es[i].key|
    ensures i > 0 ==> n <= |es[i - 1].key| && es[i - 1].key[..n] == es[i].key[..n]
    ensures IsRestart(interval, i) ==> n == 0
  {
    if IsRestart(interval, i) then 0 else Common(es[i - 1].key, es[i].key)
  }

  /** Between restart points no byte is written that could be left out. */
  lemma SharesAll(es: seq<KeyValue>, interval: nat, i: nat)
    requires interval > 0 && i < |es| && !IsRestart(interval, i)
    ensures var (n, a, b) := (Shared(es, interval, i), es[i - 1].key, es[i].key);
            n == |a| || n == |b| || a[n] != b[n]
  {
  }

  /** The bytes of one entry. */
  function Record(shared: nat, e: KeyValue): (b: Slice)
    requires shared <= |e.key| < TWO_32 && |e.value| < TWO_32
    ensures 3 + |e.key| - shared + |e.value| <= |b| <= 15 + |e.key| - shared + |e.value|
  {
    EncodeVarint32(shared) + EncodeVarint32(|e.key| - shared) + EncodeVarint32(|e.value|) + e.key[shared..] + e.value
  }

  /** Byte by byte: how much of the key is shared, how much is not, the length of the value, and both. */
  lemma RecordExample()
    ensures Record(2, KeyValue([10, 20, 30, 40, 50], [7])) == [2, 3, 1, 30, 40, 50, 7]
  {
    assert [10, 20, 30, 40, 50][2..] == [30, 40, 50];
  }

  /** The bytes of the first `n` entries. */
  function Data(es: seq<KeyValue>, interval: nat, n: nat): Slice
    requires interval > 0 && Encodable(es) && n <= |es|
  {
    if n == 0 then [] else Data(es, interval, n - 1) + Record(Shared(es, interval, n - 1), es[n - 1])
  }

  /** Where entry `i` starts, or the data ends. */
  function Offset(es: seq<KeyValue>, interval: nat, i: nat): nat
    requires interval > 0 && Encodable(es) && i <= |es|
  {
    |Data(es, interval, i)|
  }

  /** The entries at restart points; an empty block has one all the same. */
  function Starts(interval: nat, n: nat): (r: seq<nat>)
    requires interval > 0
    ensures |r| >= 1 && r[0] == 0
    ensures forall j :: 0 <= j < |r| ==> IsRestart(interval, r[j]) && (r[j] == 0 || r[j] < n)
    ensures forall i, j :: 0 <= i < j < |r| ==> r[i] < r[j]
  {
    if n <= 1 then [0] else Starts(interval, n - 1) + if IsRestart(interval, n - 1) then [n - 1] else []
  }

  function Restarts(es: seq<KeyValue>, interval: nat): (r: seq<nat>)
    requires interval > 0 && Encodable(es)
    ensures |r| == |Starts(interval, |es|)|
    ensures forall j :: 0 <= j < |r| ==> r[j] == Offset(es, interval, Starts(interval, |es|)[j])
  {
    seq(|Starts(interval, |es|)|, j requires 0 <= j < |Starts(interval, |es|)| => Offset(es, interval, Starts(interval, |es|)[j]))
  }

  predicate AllFit(restarts: seq<nat>) {
    forall j :: 0 <= j < |restarts| ==> restarts[j] < TWO_32
  }

  function EncodeAll(restarts: seq<nat>): (b: Slice)
    requires AllFit(restarts)
    ensures |b| == 4 * |restarts|
  {
    if restarts == [] then [] else EncodeAll(restarts[..|restarts| - 1]) + Fixed32(restarts[|restarts| - 1])
  }

  /** The bytes of a whole block. */
  function Contents(es: seq<KeyValue>, interval: nat): Slice
    requires interval > 0 && Encodable(es) && AllFit(Restarts(es, interval)) && |Restarts(es, interval)| < TWO_32
  {
    Data(es, interval, |es|) + EncodeAll(Restarts(es, interval)) + Fixed32(|Restarts(es, interval)|)
  }

  // ---------------------------------------------------------------- adding an entry

  lemma {:induction false} DataPrefix(es: seq<KeyValue>, e: KeyValue, interval: nat, n: nat)
    requires interval > 0 && Encodable(es + [e]) && n <= |es|
    ensures Encodable(es)
    ensures Data(es + [e], interval, n) == Data(es, interval, n)
  {
    forall i | 0 <= i < |es| ensures |es[i].key| < TWO_32 && |es[i].value| < TWO_32 {
      assert (es + [e])[i] == es[i];
    }
    if n > 0 {
      DataPrefix(es, e, interval, n - 1);
    }
  }

  lemma {:induction false} Multiples(a: nat, b: nat, c: nat)
    requires a < b
    ensures a * c + c <= b * c
    decreases b
  {
    assert b * c == (b - 1) * c + c;
    if a < b - 1 {
      Multiples(a, b - 1, c);
    }
  }

  lemma NextRemainder(n: nat, interval: nat)
    requires interval > 0
    ensures (n + 1) % interval == if n % interval + 1 == interval then 0 else n % interval + 1
  {
    var q, r := n / interval, n % interval;
    var p, s := (n + 1) / interval, (n + 1) % interval;
    assert n == q * interval + r && n + 1 == p * interval + s;
    if p < q {
      Multiples(p, q, interval);
    } else if p > q + 1 {
      assert (q + 1) * interval == q * interval + interval;
      Multiples(q + 1, p, interval);
    } else if p == q + 1 {
      assert p * interval == q * interval + interval;
    }
  }

  /** Entries since the last restart point. */
  function Counter(interval: nat, n: nat): (c: nat)
    requires interval > 0
    ensures c <= interval
  {
    if n == 0 then 0 else (n - 1) % interval + 1
  }

  lemma CounterStep(interval: nat, n: nat)
    requires interval > 0
    ensures n == 0 ==> Counter(interval, n) == 0
    ensures n > 0 ==> (Counter(interval, n) == interval <==> IsRestart(interval, n))
    ensures Counter(interval, n + 1) == if Counter(interval, n) < interval then Counter(interval, n) + 1 else 1
  {
    if n > 0 {
      NextRemainder(n - 1, interval);
    }
  }

  lemma AddedRestarts(es: seq<KeyValue>, e: KeyValue, interval: nat)
    requires interval > 0 && Encodable(es + [e])
    ensures Encodable(es)
    ensures Restarts(es + [e], interval) ==
            if es != [] && IsRestart(interval, |es|) then Restarts(es, interval) + [Offset(es, interval, |es|)]
            else Restarts(es, interval)
  {
    DataPrefix(es, e, interval, 0);
    hide Data, IsRestart;
    var more := es + [e];
    var a, b := Starts(interval, |es|), Starts(interval, |more|);
    var r, w := Restarts(es, interval), Restarts(more, interval);
    forall j | 0 <= j < |b| ensures w[j] == Offset(es, interval, b[j]) {
      DataPrefix(es, e, interval, b[j]);
    }
    if es != [] && IsRestart(interval, |es|) {
      assert b == a + [|es|];
      assert w == r + [Offset(es, interval, |es|)];
    } else {
      assert b == a;
      assert w == r;
    }
  }

  lemma AddedData(es: seq<KeyValue>, e: KeyValue, interval: nat)
    requires interval > 0 && Encodable(es + [e])
    ensures Encodable(es) && |e.key| < TWO_32 && |e.value| < TWO_32
    ensures Data(es + [e], interval, |es| + 1) ==
            Data(es, interval, |es|) +
            Record(if IsRestart(interval, |es|) then 0 else Common(es[|es| - 1].key, e.key), e)
  {
    assert (es + [e])[|es|] == e;
    DataPrefix(es, e, interval, |es|);
    assert |es| > 0 ==> (es + [e])[|es| - 1] == es[|es| - 1];
  }

  lemma {:induction false} OffsetsRise(es: seq<KeyValue>, interval: nat, i: nat, n: nat)
    requires interval > 0 && Encodable(es) && i <= n <= |es|
    ensures Offset(es, interval, i) <= Offset(es, interval, n)
    decreases n - i
  {
    hide Record, Shared;
    if i < n {
      OffsetsRise(es, interval, i, n - 1);
      assert Data(es, interval, n) == Data(es, interval, n - 1) + Record(Shared(es, interval, n - 1), es[n - 1]);
    }
  }

  method SharedPrefix(a: Slice, b: Slice) returns (shared: nat)
    ensures shared == Common(a, b)
  {
    shared := 0;
    while shared < |a| && shared < |b| && a[shared] == b[shared]
      invariant shared <= |a| && shared <= |b| && a[..shared] == b[..shared]
    {
      shared := shared + 1;
    }
    CommonIs(a, b, shared);
  }

  lemma EncodeOneMore(restarts: seq<nat>, i: nat)
    requires AllFit(restarts) && i < |restarts|
    ensures AllFit(restarts[..i]) && AllFit(restarts[..i + 1])
    ensures EncodeAll(restarts[..i + 1]) == EncodeAll(restarts[..i]) + Fixed32(restarts[i])
  {
    assert restarts[..i + 1][..i] == restarts[..i];
  }

  lemma EncodableMore(es: seq<KeyValue>, e: KeyValue)
    requires Encodable(es) && |e.key| < TWO_32 && |e.value| < TWO_32
    ensures Encodable(es + [e])
  {
  }

  lemma AlwaysStarts(interval: nat, es: seq<KeyValue>, key: Slice)
    requires interval > 0
    ensures IsRestart(interval, 0) && Common([], key) == 0
  {
  }

  class BlockBuilder {
    const interval: nat
    var buffer: Slice
    var restarts: seq<nat>
    var counter: nat
    var finished: bool
    var lastKey: Slice
    /** The entries added so far. */
    ghost var es: seq<KeyValue>

    ghost predicate Valid()
      reads this
    {
      && interval > 0 && Encodable(es)
      && restarts == Restarts(es, interval)
      && counter == Counter(interval, |es|)
      && lastKey == (if es == [] then [] else es[|es| - 1].key)
      && (!finished ==> buffer == Data(es, interval, |es|))
    }

    constructor (interval: nat)
      requires interval >= 1
      ensures Valid() && !finished && es == [] && this.interval == interval && Estimate() == 8
    {
      this.interval := interval;
      buffer, restarts, counter, finished, lastKey := [], [0], 0, false, [];
      es := [];
      new;
      assert Restarts([], interval) == [0];
    }

    /** The size that Finish will give the block. */
    function Estimate(): nat
      reads this
    {
      |buffer| + 4 * |restarts| + 4
    }

    method CurrentSizeEstimate() returns (n: nat)
      ensures n == Estimate()
    {
      n := |buffer| + |restarts| * 4 + 4;
    }

    lemma EmptyEstimate()
      requires Valid() && !finished && es == []
      ensures Estimate() == 8
    {
    }

    method Empty() returns (r: bool)
      requires Valid() && !finished
      ensures r <==> es == []
    {
      r := buffer == [];
    }

    /** A block whose estimated size fits 32 bits can be finished, and has that size. */
    lemma EstimateFits()
      requires Valid() && !finished && Estimate() < TWO_32
      ensures AllFit(restarts) && |restarts| < TWO_32 && |Contents(es, interval)| == Estimate()
    {
      forall j | 0 <= j < |restarts| ensures restarts[j] <= |buffer| {
        OffsetsRise(es, interval, Starts(interval, |es|)[j], |es|);
      }
    }

    method Reset()
      requires Valid()
      modifies this
      ensures Valid() && !finished && es == [] && Estimate() == 8
    {
      buffer, restarts, counter, finished, lastKey := [], [0], 0, false, [];
      es := [];
      assert Restarts([], interval) == [0];
    }

    method Add(key: Slice, value: Slice)
      requires Valid() && !finished
      requires |key| < TWO_32 && |value| < TWO_32
      modifies this
      ensures Valid() && !finished && es == old(es) + [KeyValue(key, value)]
      ensures Estimate() <= old(Estimate()) + 19 + |key| + |value|
    {
      hide Data, Record, Restarts, IsRestart, Counter, Starts, Common, Encodable;
      ghost var e := KeyValue(key, value);
      EncodableMore(es, e);
      CounterStep(interval, |es|);
      AddedRestarts(es, e, interval);
      AddedData(es, e, interval);
      var shared := 0;
      if counter < interval {
        shared := SharedPrefix(lastKey, key);
        AlwaysStarts(interval, es, key);
      } else {
        restarts := restarts + [|buffer|];
        counter := 0;
      }
      AppendRecord(shared, key, value);
      lastKey := lastKey[..shared] + key[shared..];
      assert lastKey == key;
      counter := counter + 1;
      es := es + [e];
    }

    method AppendRecord(shared: nat, key: Slice, value: Slice)
      requires shared <= |key| < TWO_32 && |value| < TWO_32
      modifies this`buffer
      ensures buffer == old(buffer) + Record(shared, KeyValue(key, value))
    {
      var header := EncodeVarint32(shared) + EncodeVarint32(|key| - shared) + EncodeVarint32(|value|);
      var record := header + key[shared..] + value;
      buffer := buffer + record;
    }

    method Finish() returns (block: Slice)
      requires Valid() && !finished && AllFit(restarts) && |restarts| < TWO_32
      modifies this
      ensures Valid() && finished && es == old(es)
      ensures block == Contents(es, interval) && |block| == old(Estimate())
    {
      hide Data, Restarts, Fixed32;
      ghost var data := buffer;
      for i := 0 to |restarts|
        invariant restarts == old(restarts) && es == old(es) && AllFit(restarts[..i])
        invariant buffer == data + EncodeAll(restarts[..i])
        invariant finished == old(finished) && counter == old(counter) && lastKey == old(lastKey)
      {
        EncodeOneMore(restarts, i);
        buffer := buffer + Fixed32(restarts[i]);
      }
      assert restarts[..|restarts|] == restarts;
      buffer := buffer + Fixed32(|restarts|);
      finished := true;
      block := buffer;
    }
  }

  lemma {:induction false} CommonIs(a: Slice, b: Slice, n: nat)
    requires n <= |a| && n <= |b| && a[..n] == b[..n]
    requires n == |a| || n == |b| || a[n] != b[n]
    ensures Common(a, b) == n
  {
    if a != [] && b != [] && n > 0 {
      assert a[0] == a[..n][0] && b[0] == b[..n][0];
      assert a[1..][..n - 1] == a[..n][1..] && b[1..][..n - 1] == b[..n][1..];
      CommonIs(a[1..], b[1..], n - 1);
    }
  }
}
