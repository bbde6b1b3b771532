/** Bloom filters (util/bloom.cc), for any hash function: bits marked by double hashing, and the test for a key. */
module Bloom {
  import opened InternalKeys
  import opened Coding

  type Hash = Slice -> uint32

  // ---------------------------------------------------------------- bits of bytes

  /** Bit `i` of a number, counted from the lowest. */
  predicate HasBit(b: nat, i: nat) {
    if i == 0 then b % 2 == 1 else HasBit(b / 2, i - 1)
  }

  /** `b | (1 << i)`. */
  function WithBit(b: nat, i: nat): nat {
    if i == 0 then b / 2 * 2 + 1 else WithBit(b / 2, i - 1) * 2 + b % 2
  }

  lemma {:induction false} WithBitHas(b: nat, i: nat, j: nat)
    ensures HasBit(WithBit(b, i), j) <==> i == j || HasBit(b, j)
  {
    if i > 0 && j > 0 {
      WithBitHas(b / 2, i - 1, j - 1);
      assert WithBit(b, i) / 2 == WithBit(b / 2, i - 1);
    } else if i == 0 && j > 0 {
      assert WithBit(b, 0) / 2 == b / 2;
    }
  }

  function Power2(n: nat): (p: nat)
    ensures p > 0
  {
    if n == 0 then 1 else 2 * Power2(n - 1)
  }

  lemma {:induction false} WithBitFits(b: nat, i: nat, n: nat)
    requires b < Power2(n) && i < n
    ensures WithBit(b, i) < Power2(n)
  {
    if i > 0 {
      WithBitFits(b / 2, i - 1, n - 1);
    }
  }

  lemma ByteWithBit(b: byte, i: nat)
    requires i < 8
    ensures WithBit(b as nat, i) < 256
  {
    var p := Power2(4);
    assert p == 16 && Power2(8) == 16 * p;
    WithBitFits(b as nat, i, 8);
  }

  // ---------------------------------------------------------------- the probes of a key

  /** Rotate right by 17 bits. */
  function Delta(h: uint32): uint32 {
    h / 0x2_0000 + h % 0x2_0000 * 0x8000
  }

  /** The hash value of probe `j`, with 32-bit wrap-around. */
  function Probe(h: uint32, j: nat): uint32 {
    if j == 0 then h else (Probe(h, j - 1) + Delta(h)) % TWO_32
  }

  lemma {:induction false} ProbesAreEven(h: uint32, j: nat)
    ensures Probe(h, j) == (h + j * Delta(h)) % TWO_32
  {
    hide Delta;
    if j > 0 {
      var d: nat := Delta(h);
      ProbesAreEven(h, j - 1);
      OneMore(h, j, d);
    }
  }

  lemma OneMore(h: nat, j: nat, d: nat)
    requires j > 0
    ensures ((h + (j - 1) * d) % TWO_32 + d) % TWO_32 == (h + j * d) % TWO_32
  {
    var part: nat := (j - 1) * d;
    SumRemainder(h + part, d);
    assert part + d == j * d;
  }

  lemma SumRemainder(a: nat, b: nat)
    ensures (a % TWO_32 + b) % TWO_32 == (a + b) % TWO_32
  {
    var q := a / TWO_32;
    assert a + b == a % TWO_32 + b + q * TWO_32;
  }

  /** The step from probe to probe is the hash value, turned right by 17 bits. */
  lemma DeltaTurns(h: uint32, i: nat)
    requires i < 32
    ensures HasBit(Delta(h), i) <==> HasBit(h, (i + 17) % 32)
  {
    hide HasBit, Power2;
    SeventeenAndFifteen();
    var high, low := h / 0x2_0000, h % 0x2_0000;
    HighBits(low, high, 17, (i + 17) % 32);
    HighBits(high, low, 15, i);
  }

  lemma SeventeenAndFifteen()
    ensures Power2(15) == 0x8000 && Power2(17) == 0x2_0000
  {
    assert Power2(5) == 32 && Power2(10) == 1024;
  }

  /** A number made of `n` low bits and the rest above them. */
  lemma {:induction false} HighBits(low: nat, high: nat, n: nat, i: nat)
    requires low < Power2(n)
    ensures HasBit(low + high * Power2(n), i) <==> if i < n then HasBit(low, i) else HasBit(high, i - n)
    decreases n
  {
    if n > 0 {
      var rest := high * Power2(n - 1);
      assert high * Power2(n) == 2 * rest by {
        Twice(high, Power2(n - 1));
      }
      assert (low + 2 * rest) % 2 == low % 2 && (low + 2 * rest) / 2 == low / 2 + rest;
      if i > 0 {
        HighBits(low / 2, high, n - 1, i - 1);
      }
    } else {
      assert low == 0 && high * Power2(0) == high;
    }
  }

  lemma Twice(a: nat, p: nat)
    ensures a * (2 * p) == 2 * (a * p)
  {
  }

  function Position(h: uint32, j: nat, bits: nat): (p: nat)
    requires bits > 0
    ensures p < bits
  {
    Probe(h, j) % bits
  }

  predicate Marked(filter: Slice, p: nat)
    requires p < 8 * |filter|
  {
    HasBit(filter[p / 8] as nat, p % 8)
  }

  /** Position `p` is one of the first `k` probes of the key. */
  ghost predicate Probed(hash: Hash, key: Slice, k: nat, bits: nat, p: nat)
    requires bits > 0
  {
    exists j :: 0 <= j < k && Position(hash(key), j, bits) == p
  }

  /** The number of bits in front of the last byte. */
  function Bits(filter: Slice): nat
    requires |filter| >= 1
  {
    8 * (|filter| - 1)
  }

  function Probes(filter: Slice): nat
    requires |filter| >= 1
  {
    filter[|filter| - 1] as nat
  }

  /** A filter for the keys: a bit is set exactly when a key probes it, and the last byte is the number of probes. */
  ghost predicate IsFilter(hash: Hash, keys: seq<Slice>, filter: Slice) {
    && |filter| >= 9 && 1 <= Probes(filter) <= 30
    && forall p :: 0 <= p < Bits(filter) ==> (Marked(filter, p) <==> ProbedByAny(hash, keys, filter, p))
  }

  ghost predicate ProbedByAny(hash: Hash, keys: seq<Slice>, filter: Slice, p: nat)
    requires |filter| >= 2
  {
    exists key <- keys :: Probed(hash, key, Probes(filter), Bits(filter), p)
  }

  /** What the test for a key answers on any bytes. */
  predicate Matches(hash: Hash, key: Slice, filter: Slice) {
    if |filter| < 2 then false
    else if Probes(filter) > 30 then true
    else forall j :: 0 <= j < Probes(filter) ==> ProbeSet(hash, key, filter, j)
  }

  /** Probe `j` of the key finds its bit set. */
  predicate ProbeSet(hash: Hash, key: Slice, filter: Slice, j: nat)
    requires |filter| >= 2
  {
    Marked(filter, Position(hash(key), j, Bits(filter)))
  }

  /** No false negatives: a key that the filter was made for is never ruled out. */
  lemma NoFalseNegative(hash: Hash, keys: seq<Slice>, filter: Slice, key: Slice)
    requires IsFilter(hash, keys, filter) && key in keys
    ensures Matches(hash, key, filter)
  {
    var k, bits := Probes(filter), Bits(filter);
    forall j | 0 <= j < k ensures ProbeSet(hash, key, filter, j) {
      var p := Position(hash(key), j, bits);
      assert Probed(hash, key, k, bits, p);
      assert ProbedByAny(hash, keys, filter, p);
    }
  }

  /** A key is let through exactly when all its probes coincide with probes of keys of the filter. */
  lemma MatchesExactly(hash: Hash, keys: seq<Slice>, filter: Slice, key: Slice)
    requires IsFilter(hash, keys, filter)
    ensures Matches(hash, key, filter) <==>
            forall j :: 0 <= j < Probes(filter) ==> ProbedByAny(hash, keys, filter, Position(hash(key), j, Bits(filter)))
  {
    hide ProbedByAny, Marked;
    forall j | 0 <= j < Probes(filter)
      ensures ProbeSet(hash, key, filter, j) <==>
              ProbedByAny(hash, keys, filter, Position(hash(key), j, Bits(filter)))
    {
    }
  }

  // ---------------------------------------------------------------- the loops

  /** Exactly the probes counted so far are set: all of the first `n` keys, and the first `m` of the next one. */
  ghost predicate MarkedUpTo(hash: Hash, keys: seq<Slice>, k: nat, bits: nat, filter: Slice, n: nat, m: nat)
    requires n <= |keys| && bits > 0 && bits <= 8 * |filter|
  {
    forall p :: 0 <= p < bits ==>
      (Marked(filter, p) <==>
         (exists i :: 0 <= i < n && Probed(hash, keys[i], k, bits, p)) || (n < |keys| && Probed(hash, keys[n], m, bits, p)))
  }

  method CreateFilter(hash: Hash, bitsPerKey: nat, k: nat, keys: seq<Slice>) returns (filter: Slice)
    requires 1 <= k <= 30
    ensures IsFilter(hash, keys, filter) && Probes(filter) == k
    ensures var wanted := if |keys| * bitsPerKey < 64 then 64 else |keys| * bitsPerKey;
            wanted <= Bits(filter) < wanted + 8
  {
    var bits := |keys| * bitsPerKey;
    if bits < 64 {
      bits := 64;
    }
    var bytes := (bits + 7) / 8;
    bits := bytes * 8;
    var bitmap := new byte[bytes](_ => 0);
    NothingMarked(hash, keys, k, bits, bitmap[..]);
    for i := 0 to |keys|
      invariant MarkedUpTo(hash, keys, k, bits, bitmap[..], i, 0)
    {
      var h := hash(keys[i]);
      var delta := Delta(h);
      var probe := h;
      for j := 0 to k
        invariant probe == Probe(hash(keys[i]), j)
        invariant MarkedUpTo(hash, keys, k, bits, bitmap[..], i, j)
      {
        var p := probe % bits;
        ghost var before := bitmap[..];
        ByteWithBit(bitmap[p / 8], p % 8);
        bitmap[p / 8] := WithBit(bitmap[p / 8] as nat, p % 8) as byte;
        MarkOne(hash, keys, k, bits, before, bitmap[..], i, j);
        probe := (probe + delta) % TWO_32;
      }
      KeyMarked(hash, keys, k, bits, bitmap[..], i);
    }
    filter := bitmap[..] + [k as byte];
    FilterMarked(hash, keys, k, bits, bitmap[..]);
  }

  method KeyMayMatch(hash: Hash, key: Slice, filter: Slice) returns (r: bool)
    ensures r <==> Matches(hash, key, filter)
  {
    hide HasBit;
    if |filter| < 2 {
      return false;
    }
    var bits := (|filter| - 1) * 8;
    var k := filter[|filter| - 1] as nat;
    if k > 30 {
      return true;
    }
    var h := hash(key);
    var delta := Delta(h);
    var probe := h;
    for j := 0 to k
      invariant probe == Probe(hash(key), j)
      invariant forall i :: 0 <= i < j ==> ProbeSet(hash, key, filter, i)
    {
      var p := probe % bits;
      if !HasBit(filter[p / 8] as nat, p % 8) {
        assert !ProbeSet(hash, key, filter, j);
        return false;
      }
      probe := (probe + delta) % TWO_32;
    }
    r := true;
  }

  lemma NothingMarked(hash: Hash, keys: seq<Slice>, k: nat, bits: nat, bitmap: Slice)
    requires bits == 8 * |bitmap| && bits > 0 && forall i :: 0 <= i < |bitmap| ==> bitmap[i] == 0
    ensures MarkedUpTo(hash, keys, k, bits, bitmap, 0, 0)
  {
    forall p | 0 <= p < bits ensures !Marked(bitmap, p) {
      ZeroHasNoBit(p % 8);
    }
  }

  lemma {:induction false} ZeroHasNoBit(i: nat)
    ensures !HasBit(0, i)
  {
    if i > 0 {
      ZeroHasNoBit(i - 1);
    }
  }

  lemma MarkOne(hash: Hash, keys: seq<Slice>, k: nat, bits: nat, before: Slice, after: Slice, i: nat, j: nat)
    requires i < |keys| && bits == 8 * |before| && bits > 0 && MarkedUpTo(hash, keys, k, bits, before, i, j)
    requires var p := Position(hash(keys[i]), j, bits);
             WithBit(before[p / 8] as nat, p % 8) < 256 && after == before[p / 8 := WithBit(before[p / 8] as nat, p % 8) as byte]
    ensures MarkedUpTo(hash, keys, k, bits, after, i, j + 1)
  {
    var q := Position(hash(keys[i]), j, bits);
    forall p | 0 <= p < bits
      ensures Marked(after, p) <==> p == q || Marked(before, p)
      ensures Probed(hash, keys[i], j + 1, bits, p) <==> p == q || Probed(hash, keys[i], j, bits, p)
    {
      WithBitHas(before[q / 8] as nat, q % 8, p % 8);
    }
  }

  lemma KeyMarked(hash: Hash, keys: seq<Slice>, k: nat, bits: nat, bitmap: Slice, i: nat)
    requires i < |keys| && bits == 8 * |bitmap| && bits > 0 && MarkedUpTo(hash, keys, k, bits, bitmap, i, k)
    ensures MarkedUpTo(hash, keys, k, bits, bitmap, i + 1, 0)
  {
  }

  lemma FilterMarked(hash: Hash, keys: seq<Slice>, k: nat, bits: nat, bitmap: Slice)
    requires 1 <= k <= 30 && bits == 8 * |bitmap| && bits >= 64 && MarkedUpTo(hash, keys, k, bits, bitmap, |keys|, 0)
    ensures IsFilter(hash, keys, bitmap + [k as byte])
  {
    var filter := bitmap + [k as byte];
    forall p | 0 <= p < bits ensures Marked(filter, p) <==> ProbedByAny(hash, keys, filter, p) {
      assert filter[p / 8] == bitmap[p / 8];
      assert Bits(filter) == bits && Probes(filter) == k;
      if Marked(bitmap, p) {
        var i :| 0 <= i < |keys| && Probed(hash, keys[i], k, bits, p);
        assert keys[i] in keys;
      }
      if key :| key in keys && Probed(hash, key, k, bits, p) {
        var i :| 0 <= i < |keys| && keys[i] == key;
        assert Probed(hash, keys[i], k, bits, p);
      }
    }
  }
}
