/** Variable-width integers of nanopb (pb_encode.c, pb_decode.c), as in sections "Base 128 Varints" and "Signed Integers" of
    the Protocol Buffers encoding specification: the 64-bit and the stricter 32-bit decoder, and zigzag numbers. */
module PbVarint {
  import opened InternalKeys
  import opened Coding

  const TWO_63: int := 0x8000_0000_0000_0000

  type int64 = x: int | -0x8000_0000_0000_0000 <= x < 0x8000_0000_0000_0000

  // ---------------------------------------------------------------- encoding

  lemma {:induction false} PowerStep(n: nat)
    ensures Power128(n + 1) == 0x80 * Power128(n) && Power128(n) > 0
  {
    if n > 0 {
      PowerStep(n - 1);
    }
  }

  /** The bytes of a varint with the top bit set on all of them. */
  function Continued(v: nat): Slice {
    if v == 0 then [] else [More(v)] + Continued(v / 0x80)
  }

  lemma {:induction false} LastByteEnds(v: nat)
    requires v > 0
    ensures Continued(v) != []
    ensures var b := Continued(v);
            b[|b| - 1] >= 0x80 && Varint(v) == b[..|b| - 1] + [b[|b| - 1] - 0x80]
  {
    var b := Continued(v);
    if v / 0x80 == 0 {
      assert Continued(v) == [More(v)] + [];
    } else {
      LastByteEnds(v / 0x80);
      var c := Continued(v / 0x80);
      assert b == [More(v)] + c;
      assert b[..|b| - 1] == [More(v)] + c[..|c| - 1];
    }
  }

  lemma ContinuedUnfolds(v: nat)
    requires v > 0
    ensures Continued(v) == [More(v)] + Continued(v / 0x80)
  {
  }

  lemma NothingContinued()
    ensures Continued(0) == []
  {
  }

  /** Fill a buffer of ten bytes from the lowest seven bits on, then clear the top bit of the last one. */
  method EncodeVarint(value: uint64) returns (b: Slice)
    ensures b == Varint(value)
  {
    hide Power128, Continued, Varint;
    if value <= 0x7F {
      ShortVarint(value);
      return [value as byte];
    }
    NothingContinued();
    var buffer := new byte[10];
    var i: nat, v: nat := 0, value;
    Powers();
    while v != 0
      invariant i <= 10 && v < Power128(10 - i) && (i == 0 ==> v == value)
      invariant Continued(value) == buffer[..i] + Continued(v)
      decreases v
    {
      LessThanPower(v, 10 - i);
      ContinuedUnfolds(v);
      ghost var before := buffer[..i];
      buffer[i] := More(v);
      assert buffer[..i + 1] == before + [More(v)];
      v := v / 0x80;
      i := i + 1;
    }
    LastByteEnds(value);
    assert buffer[..i] == Continued(value);
    buffer[i - 1] := buffer[i - 1] - 0x80;
    b := buffer[..i];
  }

  lemma LessThanPower(v: nat, n: nat)
    requires 0 < v < Power128(n)
    ensures n > 0 && v / 0x80 < Power128(n - 1)
  {
    if n > 0 {
      PowerStep(n - 1);
    }
  }

  // ---------------------------------------------------------------- decoding 64 bits

  /** What is read from position `i` on adds to what was read before it. */
  ghost predicate Continues(input: Slice, i: nat, sum: nat)
    requires i <= 10 && i <= |input|
  {
    DecodeVarint(input, 10) ==
    match DecodeVarint(input[i..], 10 - i) case None => None case Some((v, rest)) => Some((sum + Scaled(i, v), rest))
  }

  /** `v << 7 * i`. */
  function Scaled(i: nat, v: nat): nat { Power128(i) * v }

  lemma DecodeUnfolds(input: Slice, i: nat, groups: nat)
    requires i < |input| && groups > 0
    ensures DecodeVarint(input[i..], groups) ==
            if input[i] < 0x80 then Some((input[i] as nat, input[i + 1..]))
            else match DecodeVarint(input[i + 1..], groups - 1)
                 case None => None
                 case Some((v, rest)) => Some((input[i] as nat - 0x80 + 0x80 * v, rest))
  {
    assert input[i..][1..] == input[i + 1..];
  }

  lemma ContinueMore(input: Slice, i: nat, sum: nat)
    requires i < 10 && i < |input| && input[i] >= 0x80 && Continues(input, i, sum)
    ensures Continues(input, i + 1, sum + Scaled(i, input[i] as nat - 0x80))
  {
    hide DecodeVarint, Power128, Scaled;
    DecodeUnfolds(input, i, 10 - i);
    var r := DecodeVarint(input[i + 1..], 9 - i);
    if r.Some? {
      Distribute(i, input[i] as nat - 0x80, r.value.0);
    }
  }

  lemma Distribute(i: nat, low: nat, v: nat)
    ensures Scaled(i, low + 0x80 * v) == Scaled(i, low) + Scaled(i + 1, v)
  {
    PowerStep(i);
    Products(Power128(i), low, v);
  }

  lemma Products(p: nat, low: nat, v: nat)
    ensures p * (low + 0x80 * v) == p * low + 0x80 * p * v
  {
  }

  lemma ContinueLast(input: Slice, i: nat, sum: nat)
    requires i < 10 && i < |input| && input[i] < 0x80 && Continues(input, i, sum)
    ensures DecodeVarint(input, 10) == Some((sum + Scaled(i, input[i] as nat), input[i + 1..]))
  {
    hide DecodeVarint, Power128, Continues, Scaled;
    DecodeUnfolds(input, i, 10 - i);
    WholeIs(input, i, sum, input[i] as nat, input[i + 1..]);
  }

  lemma WholeIs(input: Slice, i: nat, sum: nat, v: nat, rest: Slice)
    requires i <= 10 && i <= |input| && Continues(input, i, sum) && DecodeVarint(input[i..], 10 - i) == Some((v, rest))
    ensures DecodeVarint(input, 10) == Some((sum + Scaled(i, v), rest))
  {
    hide DecodeVarint, Power128, Scaled;
  }

  /** Read bytes until one has its top bit clear; more than ten are an overflow. The sum is kept in 64 bits. */
  method Decode64(input: Slice) returns (r: Option<(uint64, Slice)>)
    ensures r == GetVarint64(input)
  {
    hide DecodeVarint, Power128, Continues, Scaled;
    var i := 0;
    var result: nat := 0;
    ghost var sum: nat := 0;
    StartsWhole(input);
    while true
      invariant i <= 10 && i <= |input| && result == sum % TWO_64 && Continues(input, i, sum)
      decreases 10 - i
    {
      if i >= 10 || i == |input| {
        NothingMore(input, i, sum);
        return None;
      }
      var b := input[i];
      ghost var part := Scaled(i, Low(b));
      SumModulo(sum, part);
      result := (result + Shifted(b, i)) % TWO_64;
      if b < 0x80 {
        ContinueLast(input, i, sum);
        return Some((result, input[i + 1..]));
      }
      ContinueMore(input, i, sum);
      sum := sum + part;
      i := i + 1;
    }
  }

  /** `(byte & 0x7F) << bitpos` in 64 bits, for bitpos = 7 * i. */
  function Shifted(b: byte, i: nat): nat {
    Scaled(i, Low(b)) % TWO_64
  }

  function Low(b: byte): nat { if b >= 0x80 then b as nat - 0x80 else b as nat }

  lemma SumModulo(a: nat, b: nat)
    ensures (a % TWO_64 + b % TWO_64) % TWO_64 == (a + b) % TWO_64
  {
  }

  lemma StartsWhole(input: Slice)
    ensures Continues(input, 0, 0)
  {
    assert input[0..] == input;
    assert Power128(0) == 1;
  }

  lemma NothingMore(input: Slice, i: nat, sum: nat)
    requires i <= 10 && i <= |input| && (i == 10 || i == |input|) && Continues(input, i, sum)
    ensures DecodeVarint(input, 10) == None
  {
  }

  // ---------------------------------------------------------------- signed numbers

  /** pb_encode_svarint: small absolute values get small codes. */
  function ZigZag(v: int64): uint64 {
    if v < 0 then -2 * v - 1 else 2 * v
  }

  function UnZigZag(n: uint64): int64 {
    if n % 2 == 1 then -(n / 2) - 1 else n / 2
  }

  /** `~((uint64_t)value << 1)` and `(uint64_t)value << 1`, in 64-bit arithmetic. */
  function ZigZagBits(v: int64): uint64 {
    var u := if v < 0 then v + TWO_64 else v;
    var shifted := u * 2 % TWO_64;
    if v < 0 then TWO_64 - 1 - shifted else shifted
  }

  lemma ZigZagAgrees(v: int64)
    ensures ZigZagBits(v) == ZigZag(v)
  {
  }

  lemma ZigZagRoundTrip(v: int64)
    ensures UnZigZag(ZigZag(v)) == v
  {
  }

  lemma UnZigZagRoundTrip(n: uint64)
    ensures ZigZag(UnZigZag(n)) == n
  {
  }

  /** A signed number as it is stored in an unsigned one: two's complement. */
  function Unsigned(v: int64): uint64 { if v < 0 then v + TWO_64 else v }

  function Signed(n: uint64): int64 { if n >= TWO_63 then n - TWO_64 else n }

  // ---------------------------------------------------------------- decoding 32 bits

  function Pow2(n: nat): nat {
    if n == 0 then 1 else 2 * Pow2(n - 1)
  }

  /** Bitwise or. */
  function Or(a: nat, b: nat): nat {
    if a == 0 && b == 0 then 0 else 2 * Or(a / 2, b / 2) + if a % 2 == 1 || b % 2 == 1 then 1 else 0
  }

  /** `result | (uint32_t)low << shift`, in 32 bits. */
  function Merge(result: nat, low: nat, shift: nat): uint32
  {
    Or(result, low * Pow2(shift) % TWO_32) % TWO_32
  }

  /** The 32-bit decoder after the first byte: `shift`, which is 8 bits wide, counts the bits read. Beyond 32 bits only
      padding may follow: zeros, or the sign extension of a negative number. */
  function Decode32From(input: Slice, shift: nat, result: nat): (r: Option<(uint32, Slice)>)
    requires result < TWO_32
    ensures r.Some? ==> |r.value.1| < |input|
  {
    if input == [] then None
    else
      var b := input[0] as nat;
      var low := b % 0x80;
      var extension := if shift < 63 then 0xFF else 0x01;
      if shift >= 32 && low != 0 && (result / 0x8000_0000 == 0 || b != extension) then None
      else
        var next := if shift >= 32 then result else Merge(result, low, shift);
        if b >= 0x80 then Decode32From(input[1..], (shift + 7) % 0x100, next)
        else if (shift + 7) % 0x100 == 35 && b / 0x10 % 8 != 0 then None
        else Some((next, input[1..]))
  }

  function Decode32(input: Slice): (r: Option<(uint32, Slice)>)
    ensures r.Some? ==> |r.value.1| < |input|
  {
    if input == [] then None
    else if input[0] < 0x80 then Some((input[0] as nat, input[1..]))
    else Decode32From(input[1..], 7, input[0] as nat - 0x80)
  }

  /** The loop of pb_decode_varint32_eof. */
  method DecodeVarint32(input: Slice) returns (r: Option<(uint32, Slice)>)
    ensures r == Decode32(input)
  {
    if input == [] {
      return None;
    }
    if input[0] < 0x80 {
      return Some((input[0] as nat, input[1..]));
    }
    var left, shift: nat, result: nat := input[1..], 7, input[0] as nat - 0x80;
    while true
      invariant shift < 0x100 && result < TWO_32
      invariant Decode32(input) == Decode32From(left, shift, result)
      decreases |left|
    {
      if left == [] {
        return None;
      }
      var b := left[0] as nat;
      if shift >= 32 {
        var extension := if shift < 63 then 0xFF else 0x01;
        if b % 0x80 != 0 && (result / 0x8000_0000 == 0 || b != extension) {
          return None;
        }
      } else {
        result := Merge(result, b % 0x80, shift);
      }
      shift := (shift + 7) % 0x100;
      left := left[1..];
      if b < 0x80 {
        if shift == 35 && b / 0x10 % 8 != 0 {
          return None;
        }
        return Some((result, left));
      }
    }
  }

  // ---------------------------------------------------------------- what the 32-bit decoder makes of an encoding

  /** Bits that do not meet add up. */
  lemma {:induction false} OrAdds(a: nat, v: nat, n: nat)
    requires a < Pow2(n)
    ensures Or(a, v * Pow2(n)) == a + v * Pow2(n)
    decreases n
  {
    if n == 0 {
      OrZero(v);
    } else {
      var b := v * Pow2(n - 1);
      assert v * Pow2(n) == 2 * b by {
        Doubled(v, Pow2(n - 1));
      }
      OrAdds(a / 2, v, n - 1);
      OrUnfolds(a, 2 * b);
    }
  }

  lemma Doubled(v: nat, p: nat)
    ensures v * (2 * p) == 2 * (v * p)
  {
  }

  lemma OrUnfolds(a: nat, b: nat)
    ensures Or(a, b) == 2 * Or(a / 2, b / 2) + if a % 2 == 1 || b % 2 == 1 then 1 else 0
  {
  }

  lemma {:induction false} OrZero(v: nat)
    ensures Or(0, v) == v
  {
    if v > 0 {
      OrZero(v / 2);
    }
  }

  lemma {:induction false} SevenBits(i: nat)
    ensures Pow2(7 * i) == Power128(i)
  {
    if i > 0 {
      SevenBits(i - 1);
      var n := 7 * (i - 1);
      assert Pow2(n + 1) == 2 * Pow2(n) && Pow2(n + 2) == 2 * Pow2(n + 1) && Pow2(n + 3) == 2 * Pow2(n + 2);
      assert Pow2(n + 4) == 2 * Pow2(n + 3) && Pow2(n + 5) == 2 * Pow2(n + 4) && Pow2(n + 6) == 2 * Pow2(n + 5);
      assert Pow2(n + 7) == 2 * Pow2(n + 6) && n + 7 == 7 * i;
    }
  }

  /** Within the first five bytes the result so far is the sum of the groups, in 32 bits. */
  lemma MergeAdds(i: nat, sum: nat, low: nat)
    requires 1 <= i <= 4 && sum < Power128(i) && low < 0x80
    ensures sum < TWO_32 && Merge(sum, low, 7 * i) == (sum + Scaled(i, low)) % TWO_32
  {
    hide Or, Pow2, Power128;
    SmallPowers();
    SevenBits(i);
    var kept := if i == 4 then low % 0x10 else low;
    assert low * Power128(i) % TWO_32 == kept * Power128(i);
    OrAdds(sum, kept, 7 * i);
  }

  /** The rest of an encoding of `w`, after `i` bytes that hold `sum`. */
  ghost predicate Holds(input: Slice, i: nat, sum: nat, w: nat, rest: Slice) {
    && 1 <= i <= 9 && sum < Power128(i)
    && DecodeVarint(input, 10 - i).Some?
    && DecodeVarint(input, 10 - i).value.1 == rest && w == sum + Scaled(i, DecodeVarint(input, 10 - i).value.0)
  }

  lemma HoldsMore(input: Slice, i: nat, sum: nat, w: nat, rest: Slice)
    requires Holds(input, i, sum, w, rest)
    ensures 1 <= i <= 9 && sum < Power128(i)
    ensures input != [] && var low := Low(input[0]); low < 0x80 && sum + Scaled(i, low) < Power128(i + 1)
    ensures var next := sum + Scaled(i, Low(input[0]));
            && next <= w
            && if input[0] < 0x80 then w == next && rest == input[1..] else i < 9 && Holds(input[1..], i + 1, next, w, rest)
  {
    hide Power128, Scaled;
    BelowNext(i, sum, Low(input[0]));
    if input[0] >= 0x80 {
      assert 10 - i - 1 == 10 - (i + 1);
      Distribute(i, Low(input[0]), DecodeVarint(input[1..], 9 - i).value.0);
    }
  }

  /** From the sixth byte on only zeros follow in an encoding of a 32-bit number. */
  lemma HighGroupsZero(i: nat, sum: nat, v: nat)
    requires 5 <= i <= 9 && sum + Scaled(i, v) < TWO_32
    ensures v == 0
  {
    HighPowers();
    if v > 0 {
      ProductGrows(Power128(i), 1, v);
    }
  }

  lemma HighPowers()
    ensures Power128(5) == 0x8_0000_0000 && Power128(9) == TWO_63
    ensures forall i :: 5 <= i <= 9 ==> Power128(i) >= 0x8_0000_0000
  {
    SmallPowers();
    assert Power128(5) == 0x80 * Power128(4) && Power128(6) == 0x80 * Power128(5) && Power128(7) == 0x80 * Power128(6);
    assert Power128(8) == 0x80 * Power128(7) && Power128(9) == 0x80 * Power128(8);
    forall i | 5 <= i <= 9 ensures Power128(i) >= 0x8_0000_0000 {
      assert i == 5 || i == 6 || i == 7 || i == 8 || i == 9;
    }
  }

  /** An encoding of a 32-bit number, padded with zero groups or not, decodes to it. */
  lemma {:induction false} Decodes32(input: Slice, i: nat, sum: nat, w: nat, rest: Slice)
    requires Holds(input, i, sum, w, rest) && w < TWO_32
    ensures Decode32From(input, 7 * i, sum % TWO_32) == Some((w, rest))
    decreases |input|
  {
    hide Holds, Power128, Scaled, Merge, Low;
    HoldsMore(input, i, sum, w, rest);
    var low := Low(input[0]);
    GroupFits(i, sum, low);
    if i <= 4 {
      SumBelow(i, sum);
      MergeAdds(i, sum, low);
    }
    if input[0] >= 0x80 {
      Decodes32(input[1..], i + 1, sum + Scaled(i, low), w, rest);
    }
    assert 7 * i + 7 == 7 * (i + 1);
    LowIs(input[0]);
  }

  lemma GroupFits(i: nat, sum: nat, low: nat)
    requires 1 <= i <= 9 && sum + Scaled(i, low) < TWO_32
    ensures (i >= 5 ==> low == 0) && (i == 4 ==> low < 0x10)
    ensures Scaled(i, 0) == 0
  {
    if i >= 5 {
      HighGroupsZero(i, sum, low);
    }
    SmallPowers();
  }

  /** An encoding of more than 64 bits is refused, where the 64-bit decoder drops the upper ones. */
  lemma {:induction false} Refuses(input: Slice, i: nat, sum: nat, w: nat, rest: Slice, result: uint32)
    requires Holds(input, i, sum, w, rest) && w >= TWO_64
    ensures Decode32From(input, 7 * i, result) == None
    decreases |input|
  {
    hide Holds, Power128, Scaled, Merge, Low;
    HoldsMore(input, i, sum, w, rest);
    LowIs(input[0]);
    if input[0] >= 0x80 {
      var next := if 7 * i >= 32 then result else Merge(result, Low(input[0]), 7 * i);
      Refuses(input[1..], i + 1, sum + Scaled(i, Low(input[0])), w, rest, next);
      assert 7 * i + 7 == 7 * (i + 1);
    } else {
      LastGroup(i, sum, Low(input[0]));
    }
  }

  lemma LastGroup(i: nat, sum: nat, low: nat)
    requires 1 <= i <= 9 && sum < Power128(i) && low < 0x80 && sum + Scaled(i, low) >= TWO_64
    ensures i == 9 && low >= 2
  {
    SmallPowers();
    HighPowers();
    assert Power128(8) < TWO_63 && Power128(7) < TWO_63 && Power128(6) < TWO_63;
    if i < 9 {
      PowersBelow(i);
      ProductGrows(Power128(i), low, 0x7F);
    }
  }

  lemma PowersBelow(i: nat)
    requires i < 9
    ensures 0x80 * Power128(i) <= TWO_63
  {
    SmallPowers();
    HighPowers();
    assert i == 0 || i == 1 || i == 2 || i == 3 || i == 4 || i == 5 || i == 6 || i == 7 || i == 8;
    assert 0x80 * Power128(i) == Power128(i + 1);
  }

  // ---------------------------------------------------------------- what the 32-bit decoder accepts

  /** The position that byte `i` is read at, which is 8 bits wide. */
  function ShiftAt(i: nat): nat { 7 * i % 0x100 }

  /** The first byte with its top bit clear. */
  predicate EndsAt(input: Slice, n: nat) {
    n < |input| && input[n] < 0x80 && forall i :: 0 <= i < n ==> input[i] >= 0x80
  }

  /** Bit 31 of `low << shift`. */
  predicate SetsTop(b: byte, shift: nat) {
    shift < 32 && Low(b) * Pow2(shift) / 0x8000_0000 % 2 == 1
  }

  /** Some byte before `i` has set bit 31 of the result. */
  ghost predicate TopSet(input: Slice, i: nat)
    requires i <= |input|
  {
    exists j :: 0 <= j < i && SetsTop(input[j], ShiftAt(j))
  }

  /** Zeros, or the sign extension of a negative number. */
  predicate Padding(b: byte, top: bool, shift: nat) {
    b as nat % 0x80 == 0 || (top && b == if shift < 63 then 0xFF else 0x01)
  }

  /** From byte `i` to the last one, only padding is read at positions beyond 32 bits, and a last byte that straddles them
      has no higher bits. */
  ghost predicate PaddedFrom(input: Slice, i: nat, n: nat)
    requires n < |input|
  {
    && (forall j :: i <= j <= n && ShiftAt(j) >= 32 ==> Padding(input[j], TopSet(input, j), ShiftAt(j)))
    && (ShiftAt(n) == 28 ==> input[n] < 0x10)
  }

  /** Which inputs the 32-bit decoder accepts, of any length. */
  ghost predicate Accepted32(input: Slice) {
    exists n :: EndsAt(input, n) && PaddedFrom(input, 0, n)
  }

  lemma {:induction false} Decode32FromAccepts(input: Slice, i: nat, result: nat)
    requires 1 <= i <= |input| && (forall j :: 0 <= j < i ==> input[j] >= 0x80) && result < TWO_32
    requires result / 0x8000_0000 != 0 <==> TopSet(input, i)
    ensures Decode32From(input[i..], ShiftAt(i), result).Some? <==> exists n :: i <= n && EndsAt(input, n) && PaddedFrom(input, i, n)
    decreases |input| - i
  {
    hide Merge, SetsTop, PaddedFrom, TopSet, ShiftAt, Decode32From;
    FromUnfolds(input[i..], ShiftAt(i), result);
    if i < |input| {
      var b, shift := input[i], ShiftAt(i);
      assert input[i..][1..] == input[i + 1..];
      NextShift(i);
      var next := if shift >= 32 then result else Merge(result, b as nat % 0x80, shift);
      TopGrows(input, i, result);
      PaddedStep(input, i);
      if shift < 32 || Padding(b, TopSet(input, i), shift) {
        if b >= 0x80 {
          Decode32FromAccepts(input, i + 1, next);
        } else {
          assert EndsAt(input, i);
        }
      }
    }
  }

  lemma NextShift(i: nat)
    ensures ShiftAt(i + 1) == (ShiftAt(i) + 7) % 0x100 && ShiftAt(i) < 0x100
    ensures ShiftAt(i + 1) == 35 <==> ShiftAt(i) == 28
  {
  }

  lemma FromUnfolds(input: Slice, shift: nat, result: nat)
    requires result < TWO_32
    ensures input == [] ==> Decode32From(input, shift, result).None?
    ensures input != [] && shift >= 32 && !Padding(input[0], result / 0x8000_0000 != 0, shift) ==> Decode32From(input, shift, result).None?
    ensures input != [] && (shift >= 32 ==> Padding(input[0], result / 0x8000_0000 != 0, shift)) ==>
              var next := if shift >= 32 then result else Merge(result, input[0] as nat % 0x80, shift);
              if input[0] >= 0x80 then Decode32From(input, shift, result) == Decode32From(input[1..], (shift + 7) % 0x100, next)
              else Decode32From(input, shift, result).Some? <==> !((shift + 7) % 0x100 == 35 && input[0] >= 0x10)
  {
    hide Merge;
  }

  lemma PaddedStep(input: Slice, i: nat)
    requires i < |input|
    ensures PaddedFrom(input, i, i) <==>
              (ShiftAt(i) >= 32 ==> Padding(input[i], TopSet(input, i), ShiftAt(i))) && (ShiftAt(i) == 28 ==> input[i] < 0x10)
    ensures forall n :: i < n < |input| ==>
              (PaddedFrom(input, i, n) <==>
               (ShiftAt(i) >= 32 ==> Padding(input[i], TopSet(input, i), ShiftAt(i))) && PaddedFrom(input, i + 1, n))
  {
    hide Padding, ShiftAt, TopSet;
  }

  lemma TopGrows(input: Slice, i: nat, result: nat)
    requires i < |input| && result < TWO_32 && (result / 0x8000_0000 != 0 <==> TopSet(input, i))
    ensures var next := if ShiftAt(i) >= 32 then result else Merge(result, input[i] as nat % 0x80, ShiftAt(i));
            next / 0x8000_0000 != 0 <==> TopSet(input, i + 1)
  {
    hide Merge, ShiftAt, SetsTop;
    assert TopSet(input, i + 1) <==> TopSet(input, i) || SetsTop(input[i], ShiftAt(i)) by {
      if SetsTop(input[i], ShiftAt(i)) {
        assert TopSet(input, i + 1);
      }
    }
    LowIs(input[i]);
    if ShiftAt(i) < 32 {
      MergeTop(result, input[i], ShiftAt(i));
    } else {
      NothingSet(input[i], ShiftAt(i));
    }
  }

  lemma NothingSet(b: byte, shift: nat)
    requires shift >= 32
    ensures !SetsTop(b, shift)
  {
  }

  lemma MergeTop(result: nat, b: byte, shift: nat)
    requires result < TWO_32 && shift < 32
    ensures Merge(result, Low(b), shift) / 0x8000_0000 != 0 <==> result / 0x8000_0000 != 0 || SetsTop(b, shift)
  {
    hide Or, Pow2, Low;
    var all := Low(b) * Pow2(shift);
    Pow2Is31();
    TopBit(all);
    OrBelow(result, all % TWO_32, 31);
    OrBelow(result, all % TWO_32, 32);
  }

  lemma TopBit(v: nat)
    ensures v % TWO_32 >= 0x8000_0000 <==> v / 0x8000_0000 % 2 == 1
  {
  }

  lemma Pow2Is31()
    ensures Pow2(31) == 0x8000_0000 && Pow2(32) == TWO_32
  {
    assert Pow2(8) == 0x100;
    assert Pow2(16) == 0x1_0000;
    assert Pow2(24) == 0x100_0000;
  }

  lemma {:induction false} OrBelow(a: nat, b: nat, n: nat)
    ensures Or(a, b) < Pow2(n) <==> a < Pow2(n) && b < Pow2(n)
    decreases n
  {
    OrUnfolds(a, b);
    if n == 0 {
      OrPositive(a, b);
    } else {
      OrBelow(a / 2, b / 2, n - 1);
    }
  }

  lemma {:induction false} OrPositive(a: nat, b: nat)
    ensures Or(a, b) > 0 <==> a > 0 || b > 0
    decreases a + b
  {
    if a > 0 || b > 0 {
      OrUnfolds(a, b);
      OrPositive(a / 2, b / 2);
    }
  }

  /** The 32-bit decoder accepts just these inputs. */
  lemma Decode32Exact(input: Slice)
    ensures Decode32(input).Some? <==> Accepted32(input)
  {
    hide PaddedFrom, Merge;
    if input != [] {
      NoTop(input);
      PaddedStep(input, 0);
      if input[0] < 0x80 {
        assert EndsAt(input, 0);
      } else {
        Decode32FromAccepts(input, 1, input[0] as nat - 0x80);
      }
    }
  }

  lemma NoTop(input: Slice)
    requires input != []
    ensures !TopSet(input, 1)
  {
  }

  /** The two decoders agree on an encoding that the 64-bit one accepts exactly if it is of a 32-bit number, and on any other
      input exactly if it is not one of the longer paddings that only the 32-bit one accepts. */
  lemma Decode32Agrees(input: Slice)
    ensures Decode32(input) == GetVarint64(input) <==>
            if DecodeVarint(input, 10).Some? then DecodeVarint(input, 10).value.0 < TWO_32 else !Accepted32(input)
  {
    hide Decode32From, Decode32, DecodeVarint, Accepted32;
    if DecodeVarint(input, 10).Some? {
      ShortAgrees(input);
    } else {
      Decode32Exact(input);
    }
  }

  /** Eleven bytes of padding: 0 for the 32-bit decoder, an overflow for the other. */
  lemma LongPadding()
    ensures var input: Slice := [0x80, 0x80, 0x80, 0x80, 0x80, 0x80, 0x80, 0x80, 0x80, 0x80, 0x00];
            GetVarint64(input) == None && Accepted32(input)
  {
    var input: Slice := [0x80, 0x80, 0x80, 0x80, 0x80, 0x80, 0x80, 0x80, 0x80, 0x80, 0x00];
    assert EndsAt(input, 10);
    assert PaddedFrom(input, 0, 10);
    TooLong(input, 10);
  }

  lemma {:induction false} TooLong(input: Slice, groups: nat)
    requires groups <= |input| && forall i :: 0 <= i < groups ==> input[i] >= 0x80
    ensures DecodeVarint(input, groups) == None
  {
    if groups > 0 {
      TooLong(input[1..], groups - 1);
    }
  }

  lemma ShortAgrees(input: Slice)
    requires DecodeVarint(input, 10).Some?
    ensures Decode32(input) == GetVarint64(input) <==> DecodeVarint(input, 10).value.0 < TWO_32
  {
    hide Decode32From, Holds, DecodeVarint;
    var (w, rest) := DecodeVarint(input, 10).value;
    OneOrMore(input);
    if input[0] >= 0x80 {
      StartHolds(input);
      var low := input[0] as nat - 0x80;
      if w < TWO_32 {
        Decodes32(input[1..], 1, low, w, rest);
      } else if w >= TWO_64 {
        Refuses(input[1..], 1, low, w, rest, low);
      } else {
        var r := Decode32(input);
        var value: uint32 := if r.Some? then r.value.0 else 0;
        assert value < w && w % TWO_64 == w;
      }
    }
  }

  lemma OneOrMore(input: Slice)
    requires DecodeVarint(input, 10).Some?
    ensures input != [] && (input[0] < 0x80 ==> DecodeVarint(input, 10) == Some((input[0] as nat, input[1..])))
  {
  }

  lemma StartHolds(input: Slice)
    requires DecodeVarint(input, 10).Some? && input[0] >= 0x80
    ensures var (w, rest) := DecodeVarint(input, 10).value; Holds(input[1..], 1, input[0] as nat - 0x80, w, rest)
  {
    SmallPowers();
  }

  /** Where they do not agree, the number can be cut to 32 bits without an error: bits 32 to 34 of the fifth byte are only
      looked at when it is the last one. */
  lemma UnreportedOverflow()
    ensures var input: Slice := [0x80, 0x80, 0x80, 0x80, 0xF0, 0x00];
            GetVarint64(input) == Some((0x7_0000_0000, [])) && Decode32(input) == Some((0, []))
  {
    hide Or, Pow2, Merge, Decode32From, DecodeVarint;
    OverflowIn64();
    OverflowIn32();
    var input: Slice := [0x80, 0x80, 0x80, 0x80, 0xF0, 0x00];
    assert input[1..] == [0x80, 0x80, 0x80, 0xF0, 0x00];
  }

  lemma OverflowIn64()
    ensures DecodeVarint([0x80, 0x80, 0x80, 0x80, 0xF0, 0x00], 10) == Some((0x7_0000_0000, []))
  {
    var input: Slice := [0x80, 0x80, 0x80, 0x80, 0xF0, 0x00];
    assert input[1..] == [0x80, 0x80, 0x80, 0xF0, 0x00] && input[1..][1..] == [0x80, 0x80, 0xF0, 0x00];
    assert input[1..][1..][1..] == [0x80, 0xF0, 0x00] && input[1..][1..][1..][1..] == [0xF0, 0x00];
    assert input[1..][1..][1..][1..][1..] == [0x00];
    assert DecodeVarint([0x00], 5) == Some((0, []));
    assert DecodeVarint([0xF0, 0x00], 6) == Some((0x70, []));
    assert DecodeVarint([0x80, 0xF0, 0x00], 7) == Some((0x3800, []));
    assert DecodeVarint([0x80, 0x80, 0xF0, 0x00], 8) == Some((0x1C_0000, []));
    assert DecodeVarint([0x80, 0x80, 0x80, 0xF0, 0x00], 9) == Some((0xE00_0000, []));
  }

  lemma OverflowIn32()
    ensures Decode32From([0x80, 0x80, 0x80, 0xF0, 0x00], 7, 0) == Some((0, []))
  {
    hide Merge;
    NothingMerged();
    var input: Slice := [0x80, 0x80, 0x80, 0xF0, 0x00];
    assert input[1..] == [0x80, 0x80, 0xF0, 0x00] && input[1..][1..] == [0x80, 0xF0, 0x00];
    assert input[1..][1..][1..] == [0xF0, 0x00] && input[1..][1..][1..][1..] == [0x00];
    assert Decode32From([0x00], 35, 0) == Some((0, []));
    assert Decode32From([0xF0, 0x00], 28, 0) == Some((0, []));
    assert Decode32From([0x80, 0xF0, 0x00], 21, 0) == Some((0, []));
    assert Decode32From([0x80, 0x80, 0xF0, 0x00], 14, 0) == Some((0, []));
  }

  lemma NothingMerged()
    ensures Merge(0, 0x70, 28) == 0 && Merge(0, 0, 21) == 0 && Merge(0, 0, 14) == 0 && Merge(0, 0, 7) == 0
  {
    hide Pow2;
    assert Pow2(28) == 0x1000_0000 by {
      SevenBits(4);
      SmallPowers();
    }
    assert Or(0, 0) == 0;
    assert 0x70 * 0x1000_0000 % TWO_32 == 0;
  }

  lemma LowIs(b: byte)
    ensures Low(b) == b as nat % 0x80
  {
  }

  lemma SumBelow(i: nat, sum: nat)
    requires 1 <= i <= 4
    ensures Power128(i) < TWO_32
  {
    SmallPowers();
  }

  lemma BelowNext(i: nat, low: nat, b: nat)
    requires low < Power128(i) && b < 0x80
    ensures low + Scaled(i, b) < Power128(i + 1)
  {
    PowerStep(i);
    ProductGrows(Power128(i), b, 0x7F);
  }

  lemma ShortVarint(v: nat)
    requires v < 0x80
    ensures Varint(v) == [v as byte]
  {
  }

  lemma ProductGrows(p: nat, a: nat, b: nat)
    requires a <= b
    ensures p * a <= p * b && a * p <= b * p && p * a == a * p
  {
  }

  lemma SmallPowers()
    ensures Power128(0) == 1 && Power128(1) == 0x80 && Power128(2) == 0x4000 && Power128(3) == 0x20_0000 && Power128(4) == 0x1000_0000
  {
  }

  /** The 32-bit decoder reads back every 32-bit number. */
  lemma Decode32RoundTrip(v: uint32, rest: Slice)
    ensures Decode32(Varint(v) + rest) == Some((v, rest))
  {
    hide DecodeVarint, Varint, Decode32;
    Varint64RoundTrip(v, rest);
    VarintIsWhole(v, rest);
    Decode32Agrees(Varint(v) + rest);
  }

  lemma VarintIsWhole(v: uint32, rest: Slice)
    ensures DecodeVarint(Varint(v) + rest, 10) == Some((v, rest))
  {
    hide DecodeVarint, Varint, Power128;
    Powers();
    VarintRoundTrip(v, 10, rest);
  }
}
