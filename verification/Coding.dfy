/** Fixed-width and variable-width integers as bytes (util/coding.cc, util/coding.h), and the masked form in which
    checksums are stored (util/crc32c.h). Checksums themselves are an arbitrary function of the bytes. */
module Coding {
  import opened InternalKeys

  const TWO_32: nat := 0x1_0000_0000
  const TWO_64: nat := 0x1_0000_0000_0000_0000

  type uint32 = x: nat | x < 0x1_0000_0000
  type uint64 = x: nat | x < 0x1_0000_0000_0000_0000

  lemma Regroup<T>(a: seq<T>, b: seq<T>, c: seq<T>, d: seq<T>)
    ensures a + (b + c + d) == a + b + c + d
  {
  }

  // ---------------------------------------------------------------- fixed width, little-endian

  function Fixed32(v: uint32): (b: Slice)
    ensures |b| == 4
  {
    [(v % 0x100) as byte, (v / 0x100 % 0x100) as byte, (v / 0x1_0000 % 0x100) as byte, (v / 0x100_0000) as byte]
  }

  function DecodeFixed32(b: Slice): uint32
    requires |b| >= 4
  {
    b[0] as nat + 0x100 * b[1] as nat + 0x1_0000 * b[2] as nat + 0x100_0000 * b[3] as nat
  }

  lemma Fixed32RoundTrip(v: uint32, rest: Slice)
    ensures DecodeFixed32(Fixed32(v) + rest) == v
  {
    var a, b, c := v / 0x100, v / 0x1_0000, v / 0x100_0000;
    assert v == 0x100 * a + v % 0x100;
    assert a / 0x100 == b && b / 0x100 == c;
    assert a == 0x100 * b + a % 0x100 && b == 0x100 * c + b % 0x100;
    var x := Fixed32(v) + rest;
    assert x[0] == Fixed32(v)[0] && x[1] == Fixed32(v)[1] && x[2] == Fixed32(v)[2] && x[3] == Fixed32(v)[3];
  }

  function Fixed64(v: uint64): (b: Slice)
    ensures |b| == 8
  {
    Fixed32(v % TWO_32) + Fixed32(v / TWO_32)
  }

  function DecodeFixed64(b: Slice): uint64
    requires |b| >= 8
  {
    DecodeFixed32(b) + TWO_32 * DecodeFixed32(b[4..])
  }

  lemma Fixed64RoundTrip(v: uint64, rest: Slice)
    ensures DecodeFixed64(Fixed64(v) + rest) == v
  {
    var low, high := Fixed32(v % TWO_32), Fixed32(v / TWO_32);
    Fixed32RoundTrip(v % TWO_32, high + rest);
    Fixed32RoundTrip(v / TWO_32, rest);
    assert Fixed64(v) + rest == low + (high + rest);
    assert (Fixed64(v) + rest)[4..] == high + rest;
  }

  // ---------------------------------------------------------------- variable width

  /** EncodeVarint64: seven bits a byte, lowest first, the top bit set on all but the last. */
  function Varint(v: nat): (b: Slice)
    ensures 1 <= |b|
  {
    if v < 0x80 then [v as byte] else [(v % 0x80 + 0x80) as byte] + Varint(v / 0x80)
  }

  /** EncodeVarint32, which tells the five lengths apart. */
  function EncodeVarint32(v: uint32): Slice {
    var a, b, c, d := v / 0x80, v / 0x4000, v / 0x20_0000, v / 0x1000_0000;
    if v < 0x80 then [v as byte]
    else if v < 0x4000 then [More(v), a as byte]
    else if v < 0x20_0000 then [More(v), More(a), b as byte]
    else if v < 0x1000_0000 then [More(v), More(a), More(b), c as byte]
    else [More(v), More(a), More(b), More(c), d as byte]
  }

  function More(v: nat): byte { (v % 0x80 + 0x80) as byte }

  lemma Varint32Agrees(v: uint32)
    ensures EncodeVarint32(v) == Varint(v)
  {
    var a, b, c, d := v / 0x80, v / 0x4000, v / 0x20_0000, v / 0x1000_0000;
    assert b == a / 0x80 && c == b / 0x80 && d == c / 0x80;
    if v >= 0x80 {
      assert Varint(v) == [More(v)] + Varint(a);
    }
    if v >= 0x4000 {
      assert Varint(a) == [More(a)] + Varint(b);
    }
    if v >= 0x20_0000 {
      assert Varint(b) == [More(b)] + Varint(c);
    }
    if v >= 0x1000_0000 {
      assert Varint(c) == [More(c)] + Varint(d);
    }
  }

  /** Read at most `groups` bytes of seven bits; None when the input ends or goes on for longer. */
  function DecodeVarint(input: Slice, groups: nat): (r: Option<(nat, Slice)>)
    ensures r.Some? ==> |r.value.1| < |input| && r.value.1 == input[|input| - |r.value.1|..]
  {
    if groups == 0 || input == [] then None
    else if input[0] < 0x80 then Some((input[0] as nat, input[1..]))
    else
      match DecodeVarint(input[1..], groups - 1)
      case None => None
      case Some((v, rest)) => Some((input[0] as nat - 0x80 + 0x80 * v, rest))
  }

  function GetVarint32(input: Slice): (r: Option<(uint32, Slice)>)
    ensures r.Some? ==> |r.value.1| < |input| && r.value.1 == input[|input| - |r.value.1|..]
  {
    match DecodeVarint(input, 5)
    case None => None
    case Some((v, rest)) => Some((v % TWO_32, rest))
  }

  function GetVarint64(input: Slice): (r: Option<(uint64, Slice)>)
    ensures r.Some? ==> |r.value.1| < |input| && r.value.1 == input[|input| - |r.value.1|..]
  {
    match DecodeVarint(input, 10)
    case None => None
    case Some((v, rest)) => Some((v % TWO_64, rest))
  }

  function Power128(n: nat): nat {
    if n == 0 then 1 else 0x80 * Power128(n - 1)
  }

  lemma OneByte(v: nat, rest: Slice, groups: nat)
    requires v < 0x80 && groups > 0
    ensures DecodeVarint(Varint(v) + rest, groups) == Some((v, rest))
  {
    assert (Varint(v) + rest)[1..] == rest;
  }

  lemma DecodeMore(v: nat, tail: Slice, groups: nat)
    requires groups > 0
    ensures DecodeVarint([More(v)] + tail, groups) ==
            match DecodeVarint(tail, groups - 1) case None => None case Some((h, rest)) => Some((v % 0x80 + 0x80 * h, rest))
  {
    assert ([More(v)] + tail)[1..] == tail;
  }

  lemma VarintUnfold(v: nat, rest: Slice)
    requires v >= 0x80
    ensures Varint(v) + rest == [More(v)] + (Varint(v / 0x80) + rest)
    ensures v % 0x80 + 0x80 * (v / 0x80) == v
  {
    assert Varint(v) == [More(v)] + Varint(v / 0x80);
  }

  lemma FewerGroups(v: nat, groups: nat)
    requires 0x80 <= v < Power128(groups)
    ensures groups > 1 && v / 0x80 < Power128(groups - 1)
  {
  }

  lemma {:induction false} VarintRoundTrip(v: nat, groups: nat, rest: Slice)
    requires v < Power128(groups) && groups > 0
    ensures DecodeVarint(Varint(v) + rest, groups) == Some((v, rest))
  {
    hide Power128, DecodeVarint, Varint;
    if v < 0x80 {
      OneByte(v, rest, groups);
    } else {
      FewerGroups(v, groups);
      VarintRoundTrip(v / 0x80, groups - 1, rest);
      var tail := Varint(v / 0x80) + rest;
      VarintUnfold(v, rest);
      DecodeMore(v, tail, groups);
    }
  }

  lemma Powers()
    ensures Power128(5) == 0x8_0000_0000 && Power128(10) == 0x40_0000_0000_0000_0000
  {
    var p5 := Power128(5);
    var p6 := Power128(6);
    var p7 := Power128(7);
    var p8 := Power128(8);
    var p9 := Power128(9);
    assert p5 == 0x8_0000_0000;
    assert p6 == 0x80 * p5;
    assert p7 == 0x80 * p6;
    assert p8 == 0x80 * p7;
    assert p9 == 0x80 * p8;
  }

  lemma Varint32RoundTrip(v: uint32, rest: Slice)
    ensures GetVarint32(EncodeVarint32(v) + rest) == Some((v, rest))
  {
    Varint32Agrees(v);
    Powers();
    VarintRoundTrip(v, 5, rest);
  }

  lemma Varint64RoundTrip(v: uint64, rest: Slice)
    ensures GetVarint64(Varint(v) + rest) == Some((v, rest))
  {
    hide DecodeVarint, Varint, Power128;
    Powers();
    VarintRoundTrip(v, 10, rest);
  }

  /** PutLengthPrefixedSlice. */
  function LengthPrefixed(s: Slice): Slice
    requires |s| < TWO_32
  {
    EncodeVarint32(|s|) + s
  }

  function GetLengthPrefixed(input: Slice): (r: Option<(Slice, Slice)>)
    ensures r.Some? ==> |r.value.1| < |input| && r.value.1 == input[|input| - |r.value.1|..]
  {
    match GetVarint32(input)
    case Some((n, rest)) => if |rest| >= n then Some((rest[..n], rest[n..])) else None
    case None => None
  }

  lemma LengthPrefixedRoundTrip(s: Slice, rest: Slice)
    requires |s| < TWO_32
    ensures GetLengthPrefixed(LengthPrefixed(s) + rest) == Some((s, rest))
  {
    Varint32RoundTrip(|s|, s + rest);
    assert LengthPrefixed(s) + rest == EncodeVarint32(|s|) + (s + rest);
  }

  // ---------------------------------------------------------------- stored checksums

  const MASK_DELTA: nat := 0xa282ead8

  /** Rotate right by 15 bits and add a constant, modulo 2^32. */
  function Mask(crc: uint32): uint32 {
    (crc / 0x8000 + crc % 0x8000 * 0x2_0000 + MASK_DELTA) % TWO_32
  }

  function Unmask(masked: uint32): uint32 {
    var rot := (masked + TWO_32 - MASK_DELTA) % TWO_32;
    rot / 0x2_0000 + rot % 0x2_0000 * 0x8000
  }

  lemma MaskExample()
    ensures Mask(0) == 0xa282ead8 && Mask(0x8000) == 0xa282ead9 && Mask(1) == 0xa284ead8
  {
  }

  /** Only one number has these bytes. */
  lemma Fixed32Unique(b: Slice)
    requires |b| == 4
    ensures Fixed32(DecodeFixed32(b)) == b
  {
    var v := DecodeFixed32(b);
    assert v / 0x100 == b[1] as nat + 0x100 * b[2] as nat + 0x1_0000 * b[3] as nat;
    assert v / 0x1_0000 == b[2] as nat + 0x100 * b[3] as nat;
  }

  lemma UnmaskRoundTrip(masked: uint32)
    ensures Mask(Unmask(masked)) == masked
  {
    var rot := (masked + TWO_32 - MASK_DELTA) % TWO_32;
    var high, low := rot % 0x2_0000, rot / 0x2_0000;
    assert Unmask(masked) / 0x8000 == high && Unmask(masked) % 0x8000 == low;
  }

  lemma MaskRoundTrip(crc: uint32)
    ensures Unmask(Mask(crc)) == crc
  {
    var high, low := crc / 0x8000, crc % 0x8000;
    var rot := high + low * 0x2_0000;
    assert rot / 0x2_0000 == low && rot % 0x2_0000 == high;
    assert (Mask(crc) + TWO_32 - MASK_DELTA) % TWO_32 == rot;
  }
}
