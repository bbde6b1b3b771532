/** Messages of nanopb and their encoding (pb_encode.c): static fields, nested messages, packed arrays, and the two passes
    over a submessage, one for its size and one for its bytes. */
module PbMessage {
  import opened InternalKeys
  import opened Coding
  import opened PbVarint

  // ---------------------------------------------------------------- descriptors and values

  /** The width of an integer in the message's struct. */
  datatype Width = W8 | W16 | W32 | W64

  /** A string field is a char array of this size, terminated by a zero if there is room. */
  datatype LType = Bool | Int(width: Width) | UInt(width: Width) | SInt(width: Width) | Fixed32 | Fixed64
    | Bytes(size: nat) | String(size: nat) | FixedBytes(size: nat) | Sub(desc: Desc)

  /** A singular field has no presence of its own: it counts as absent when it is zero. */
  datatype HType = Required | Optional | Singular | Repeated(size: nat)
  datatype Field = Field(tag: nat, htype: HType, ltype: LType)
  datatype Desc = Desc(fields: seq<Field>)

  /** A message has a list of values per field: one for a required or singular field, at most one for an optional one. A
      string's bytes are what stands in its array up to trailing zeros. */
  datatype Value = Num(n: int) | Blob(bytes: Slice) | Msg(fields: seq<seq<Value>>)

  const WT_VARINT: nat := 0
  const WT_64BIT: nat := 1
  const WT_STRING: nat := 2
  const WT_32BIT: nat := 5

  function WireType(l: LType): (wt: nat)
    ensures wt < 8
  {
    match l
    case Bool | Int(_) | UInt(_) | SInt(_) => WT_VARINT
    case Fixed32 => WT_32BIT
    case Fixed64 => WT_64BIT
    case Bytes(_) | String(_) | FixedBytes(_) | Sub(_) => WT_STRING
  }

  predicate Packable(l: LType) {
    !l.Bytes? && !l.String? && !l.FixedBytes? && !l.Sub?
  }

  /** Half the number of values of a width. */
  function Half(w: Width): nat {
    match w case W8 => 0x80 case W16 => 0x8000 case W32 => 0x8000_0000 case W64 => TWO_63
  }

  predicate FitsSigned(w: Width, n: int) { -(Half(w) as int) <= n < Half(w) }

  predicate FitsUnsigned(w: Width, n: int) { 0 <= n < 2 * Half(w) }

  /** The value has the type of the field; sizes are checked when encoding. */
  predicate Typed(l: LType, v: Value)
    decreases l
  {
    match l
    case Bool => v.Num? && 0 <= v.n <= 1
    case Int(w) => v.Num? && FitsSigned(w, v.n)
    case SInt(w) => v.Num? && FitsSigned(w, v.n)
    case UInt(w) => v.Num? && FitsUnsigned(w, v.n)
    case Fixed64 => v.Num? && 0 <= v.n < TWO_64
    case Fixed32 => v.Num? && 0 <= v.n < TWO_32
    case Bytes(_) => v.Blob?
    case String(size) => v.Blob? && |v.bytes| <= size
    case FixedBytes(size) => v.Blob? && |v.bytes| == size
    case Sub(d) => v.Msg? && TypedMsg(d, v.fields)
  }

  predicate TypedMsg(d: Desc, m: seq<seq<Value>>)
    decreases d
  {
    |m| == |d.fields| && forall i :: 0 <= i < |m| ==> TypedField(d.fields[i], m[i])
  }

  predicate TypedField(f: Field, vs: seq<Value>)
    decreases f
  {
    && (match f.htype case Required | Singular => |vs| == 1 case Optional => |vs| <= 1 case Repeated(_) => true)
    && forall j :: 0 <= j < |vs| ==> Typed(f.ltype, vs[j])
  }

  /** Arrays and byte strings stay within the sizes that the fields declare. */
  predicate Within(l: LType, v: Value)
    requires Typed(l, v)
    decreases l, 0
  {
    match l
    case Bytes(size) => |v.bytes| <= size
    case Sub(d) => WithinMsg(d, v.fields, 0)
    case _ => true
  }

  predicate WithinMsg(d: Desc, m: seq<seq<Value>>, i: nat)
    requires TypedMsg(d, m) && i <= |m|
    decreases d, |m| - i
  {
    i == |m| || (WithinField(d.fields[i], m[i]) && WithinMsg(d, m, i + 1))
  }

  predicate WithinField(f: Field, vs: seq<Value>)
    requires TypedField(f, vs)
    decreases f
  {
    && (f.htype.Repeated? ==> |vs| <= f.htype.size)
    && WithinAll(f.ltype, vs)
  }

  predicate WithinAll(l: LType, vs: seq<Value>)
    requires forall j :: 0 <= j < |vs| ==> Typed(l, vs[j])
    decreases l, |vs|
  {
    vs == [] || (Within(l, vs[0]) && WithinAll(l, vs[1..]))
  }

  /** A string up to its first zero. */
  function CString(b: Slice): Slice {
    if b == [] || b[0] == 0 then [] else [b[0]] + CString(b[1..])
  }

  /** pb_check_proto3_default_value: a singular field that is zero all over, for a message in all its fields. */
  predicate IsZero(l: LType, v: Value)
    requires Typed(l, v)
    decreases l
  {
    match l
    case Bytes(_) => v.bytes == []
    case String(_) => v.bytes == [] || v.bytes[0] == 0
    case FixedBytes(size) => size == 0
    case Sub(d) => AllZero(d, v.fields)
    case _ => v.n == 0
  }

  predicate AllZero(d: Desc, m: seq<seq<Value>>)
    requires TypedMsg(d, m)
    decreases d
  {
    forall i :: 0 <= i < |m| ==> !Sent(d.fields[i], m[i])
  }

  /** The field has values that are encoded. */
  predicate Sent(f: Field, vs: seq<Value>)
    requires TypedField(f, vs)
    decreases f
  {
    vs != [] && (f.htype.Singular? ==> !IsZero(f.ltype, vs[0]))
  }

  // ---------------------------------------------------------------- the encoding

  function Tag(wt: nat, tag: nat): Slice { Varint(8 * tag + wt) }

  function EncodeValue(l: LType, v: Value): (b: Slice)
    requires Typed(l, v)
    decreases l, 0
  {
    match l
    case Bool | UInt(_) => Varint(v.n)
    case Int(_) => Varint(Unsigned(v.n))
    case SInt(_) => Varint(ZigZag(v.n))
    case Fixed32 => Coding.Fixed32(v.n)
    case Fixed64 => Coding.Fixed64(v.n)
    case Bytes(_) | FixedBytes(_) => Varint(|v.bytes|) + v.bytes
    case String(_) => Varint(|CString(v.bytes)|) + CString(v.bytes)
    case Sub(d) => var body := EncodeMsg(d, v.fields, 0); Varint(|body|) + body
  }

  function EncodeAll(l: LType, vs: seq<Value>): Slice
    requires forall j :: 0 <= j < |vs| ==> Typed(l, vs[j])
    decreases l, |vs|
  {
    if vs == [] then [] else EncodeValue(l, vs[0]) + EncodeAll(l, vs[1..])
  }

  /** One tagged value after the other. */
  function EncodeTagged(f: Field, vs: seq<Value>): Slice
    requires forall j :: 0 <= j < |vs| ==> Typed(f.ltype, vs[j])
    decreases f, |vs|
  {
    if vs == [] then [] else Tag(WireType(f.ltype), f.tag) + EncodeValue(f.ltype, vs[0]) + EncodeTagged(f, vs[1..])
  }

  function EncodeField(f: Field, vs: seq<Value>): Slice
    requires TypedField(f, vs)
    decreases f, |vs| + 1
  {
    if !Sent(f, vs) then []
    else if f.htype.Repeated? && Packable(f.ltype) then
      var body := EncodeAll(f.ltype, vs);
      Tag(WT_STRING, f.tag) + (Varint(|body|) + body)
    else EncodeTagged(f, vs)
  }

  /** The fields from number `i` on. */
  function EncodeMsg(d: Desc, m: seq<seq<Value>>, i: nat): Slice
    requires TypedMsg(d, m) && i <= |m|
    decreases d, |m| - i
  {
    if i == |m| then [] else EncodeField(d.fields[i], m[i]) + EncodeMsg(d, m, i + 1)
  }

  /** The wire format on examples, byte by byte: keys, wire types, varints and zigzag; then fixed words, strings and arrays. */
  lemma VarintExample()
    ensures EncodeField(Field(1, Required, Int(W32)), [Num(150)]) == [0x08, 0x96, 0x01]
    ensures EncodeField(Field(2, Optional, SInt(W32)), [Num(-2)]) == [0x10, 0x03]
    ensures EncodeField(Field(5, Singular, Bool), [Num(0)]) == []
  {
  }

  lemma FixedExample()
    ensures EncodeField(Field(3, Optional, Fixed32), [Num(0x01020304)]) == [0x1d, 0x04, 0x03, 0x02, 0x01]
    ensures EncodeField(Field(4, Singular, Fixed64), [Num(1)]) == [0x21, 1, 0, 0, 0, 0, 0, 0, 0]
  {
  }

  lemma StringExample()
    ensures EncodeField(Field(16, Optional, String(8)), [Blob([0x68, 0x69])]) == [0x82, 0x01, 0x02, 0x68, 0x69]
  {
  }

  lemma ArrayExample()
    ensures EncodeField(Field(4, Repeated(3), UInt(W32)), [Num(3), Num(270)]) == [0x22, 0x03, 0x03, 0x8e, 0x02]
    ensures EncodeField(Field(4, Repeated(3), Bytes(2)), [Blob([]), Blob([7])]) == [0x22, 0x00, 0x22, 0x01, 0x07]
  {
    var f, vs := Field(4, Repeated(3), UInt(W32)), [Num(3), Num(270)];
    assert EncodeAll(f.ltype, vs) == [0x03] + EncodeAll(f.ltype, vs[1..]);
    assert EncodeAll(f.ltype, vs[1..]) == [0x8e, 0x02];
  }

  // ---------------------------------------------------------------- output streams

  /** What a stream has taken so far. */
  datatype Output = Output(buf: Slice, count: nat)

  function After(o: Output, sizing: bool, bytes: Slice): Output {
    Output(if sizing then o.buf else o.buf + bytes, o.count + |bytes|)
  }

  lemma AfterBoth(o: Output, sizing: bool, a: Slice, b: Slice)
    ensures After(After(o, sizing, a), sizing, b) == After(o, sizing, a + b)
  {
    assert o.buf + a + b == o.buf + (a + b);
  }

  lemma AfterNothing(o: Output, sizing: bool)
    ensures After(o, sizing, []) == o
  {
    assert o.buf + [] == o.buf;
  }

  /** A stream that writes to a buffer of limited size, or only counts bytes. */
  class OStream {
    const sizing: bool
    const maxSize: nat
    var buf: Slice
    var bytesWritten: nat

    ghost predicate Valid()
      reads this
    {
      !sizing ==> bytesWritten <= maxSize && |buf| == bytesWritten
    }

    ghost function Now(): Output
      reads this
    {
      Output(buf, bytesWritten)
    }

    constructor (sizing: bool, maxSize: nat)
      ensures Valid() && this.sizing == sizing && this.maxSize == maxSize && Now() == Output([], 0)
    {
      this.sizing, this.maxSize, buf, bytesWritten := sizing, maxSize, [], 0;
    }

    /** There is room for this many more bytes; a sizing stream always has room. */
    predicate Room(n: nat)
      reads this
    {
      sizing || bytesWritten + n <= maxSize
    }

    /** pb_write. */
    method Write(bytes: Slice) returns (ok: bool)
      requires Valid()
      modifies this
      ensures Valid() && (ok <==> old(Room(|bytes|)))
      ensures ok ==> Now() == After(old(Now()), sizing, bytes)
    {
      if |bytes| > 0 && !sizing {
        if bytesWritten + |bytes| > maxSize {
          return false;
        }
        buf := buf + bytes;
      }
      bytesWritten := bytesWritten + |bytes|;
      ok := true;
      assert |bytes| == 0 ==> bytes == [];
      AfterNothing(old(Now()), sizing);
    }
  }

  // ---------------------------------------------------------------- the encoder

  method PutVarint(s: OStream, v: uint64) returns (ok: bool)
    requires s.Valid()
    modifies s
    ensures s.Valid() && (ok <==> old(s.Room(|Varint(v)|)))
    ensures ok ==> s.Now() == After(old(s.Now()), s.sizing, Varint(v))
  {
    var b := EncodeVarint(v);
    ok := s.Write(b);
  }

  /** pb_encode_string: a length and the bytes. */
  method PutString(s: OStream, b: Slice) returns (ok: bool)
    requires s.Valid() && |b| < TWO_64
    modifies s
    ensures s.Valid() && (ok <==> old(s.Room(|Varint(|b|) + b|)))
    ensures ok ==> s.Now() == After(old(s.Now()), s.sizing, Varint(|b|) + b)
  {
    ghost var o := s.Now();
    AfterBoth(o, s.sizing, Varint(|b|), b);
    ok := PutVarint(s, |b|);
    if ok {
      ok := s.Write(b);
    }
  }

  method PutTag(s: OStream, wt: nat, tag: nat) returns (ok: bool)
    requires s.Valid() && 8 * tag + wt < TWO_64
    modifies s
    ensures s.Valid() && (ok <==> old(s.Room(|Tag(wt, tag)|)))
    ensures ok ==> s.Now() == After(old(s.Now()), s.sizing, Tag(wt, tag))
  {
    ok := PutVarint(s, 8 * tag + wt);
  }

  /** The tags of a descriptor, at all depths, fit the 32-bit keys that decoding reads, and char arrays are not empty. */
  predicate Tagged(l: LType)
    decreases l
  {
    (l.Sub? ==> TaggedMsg(l.desc)) && (l.String? ==> l.size > 0)
  }

  predicate TaggedMsg(d: Desc)
    decreases d
  {
    forall i :: 0 <= i < |d.fields| ==> 0 < d.fields[i].tag < 0x2000_0000 && Tagged(d.fields[i].ltype)
  }

  /** strnlen over the array: what is not among `b` in it is zero. */
  method StringLength(b: Slice, size: nat) returns (n: nat)
    requires |b| <= size
    ensures n <= |b| && b[..n] == CString(b)
  {
    n := 0;
    while n < size && n < |b| && b[n] != 0
      invariant n <= |b| && CString(b) == b[..n] + CString(b[n..])
    {
      assert b[n..][1..] == b[n + 1..];
      assert b[..n + 1] == b[..n] + [b[n]];
      n := n + 1;
    }
  }

  /** The value of a field, as its type demands; a submessage in two passes. */
  method PutValue(s: OStream, l: LType, v: Value) returns (ok: bool)
    requires s.Valid() && Typed(l, v) && Tagged(l) && |EncodeValue(l, v)| < TWO_64
    modifies s
    ensures s.Valid() && (ok <==> Within(l, v) && old(s.Room(|EncodeValue(l, v)|)))
    ensures ok ==> s.Now() == After(old(s.Now()), s.sizing, EncodeValue(l, v))
    decreases l, 0
  {
    hide Varint, Coding.Fixed32, Coding.Fixed64;
    match l
    case Bool => ok := PutVarint(s, v.n);
    case UInt(_) => ok := PutVarint(s, v.n);
    case Int(_) => ok := PutVarint(s, Unsigned(v.n));
    case SInt(_) => ok := PutVarint(s, ZigZag(v.n));
    case Fixed32 => ok := s.Write(Coding.Fixed32(v.n));
    case Fixed64 => ok := s.Write(Coding.Fixed64(v.n));
    case Bytes(size) =>
      if |v.bytes| > size {
        return false;
      }
      ok := PutString(s, v.bytes);
    case FixedBytes(_) => ok := PutString(s, v.bytes);
    case String(size) =>
      var n := StringLength(v.bytes, size);
      ok := PutString(s, v.bytes[..n]);
    case Sub(d) =>
      ok := PutSubmessage(s, d, v.fields);
  }

  /** pb_encode_submessage: a sizing pass, the length, and a writing pass into exactly that much room. */
  method PutSubmessage(s: OStream, d: Desc, m: seq<seq<Value>>) returns (ok: bool)
    requires s.Valid() && TypedMsg(d, m) && TaggedMsg(d) && |EncodeMsg(d, m, 0)| < TWO_64
    modifies s
    ensures var body := EncodeMsg(d, m, 0);
            && s.Valid() && (ok <==> WithinMsg(d, m, 0) && old(s.Room(|Varint(|body|) + body|)))
            && (ok ==> s.Now() == After(old(s.Now()), s.sizing, Varint(|body|) + body))
    decreases d, |m| + 1
  {
    hide Varint, EncodeMsg, WithinMsg, TypedMsg, TaggedMsg;
    ghost var body := EncodeMsg(d, m, 0);
    AfterBoth(s.Now(), s.sizing, Varint(|body|), body);
    var counter := new OStream(true, 0);
    ok := PutMessage(counter, d, m);
    if !ok {
      return;
    }
    var size := counter.bytesWritten;
    ok := PutVarint(s, size);
    if !ok {
      return;
    }
    if s.sizing {
      s.bytesWritten := s.bytesWritten + size;
      return true;
    }
    if s.bytesWritten + size > s.maxSize {
      return false;
    }
    var sub := new OStream(false, size);
    ok := PutMessage(sub, d, m);
    // The second pass writes as many bytes as the first one counted, so "submsg size changed" is never reported.
    assert ok && sub.bytesWritten == size;
    s.buf, s.bytesWritten := s.buf + sub.buf, s.bytesWritten + sub.bytesWritten;
  }

  /** pb_encode: all fields in order. */
  method PutMessage(s: OStream, d: Desc, m: seq<seq<Value>>) returns (ok: bool)
    requires s.Valid() && TypedMsg(d, m) && TaggedMsg(d) && |EncodeMsg(d, m, 0)| < TWO_64
    modifies s
    ensures s.Valid() && (ok <==> WithinMsg(d, m, 0) && old(s.Room(|EncodeMsg(d, m, 0)|)))
    ensures ok ==> s.Now() == After(old(s.Now()), s.sizing, EncodeMsg(d, m, 0))
    decreases d, |m|
  {
    ghost var o, done := s.Now(), [];
    AfterNothing(o, s.sizing);
    ok := true;
    var i := 0;
    while i < |m|
      invariant i <= |m| && s.Valid() && ok
      invariant EncodeMsg(d, m, 0) == done + EncodeMsg(d, m, i)
      invariant WithinMsg(d, m, 0) <==> WithinMsg(d, m, i)
      invariant s.Now() == After(o, s.sizing, done)
    {
      AfterBoth(o, s.sizing, done, EncodeField(d.fields[i], m[i]));
      ok := PutField(s, d.fields[i], m[i]);
      if !ok {
        return;
      }
      done := done + EncodeField(d.fields[i], m[i]);
      i := i + 1;
    }
    assert EncodeMsg(d, m, 0) == done;
  }

  method PutField(s: OStream, f: Field, vs: seq<Value>) returns (ok: bool)
    requires s.Valid() && TypedField(f, vs) && 0 < f.tag < 0x2000_0000 && Tagged(f.ltype) && |EncodeField(f, vs)| < TWO_64
    modifies s
    ensures s.Valid() && (ok <==> WithinField(f, vs) && old(s.Room(|EncodeField(f, vs)|)))
    ensures ok ==> s.Now() == After(old(s.Now()), s.sizing, EncodeField(f, vs))
    decreases f, |vs| + 1
  {
    AfterNothing(s.Now(), s.sizing);
    if vs == [] {
      return true;
    }
    if f.htype.Singular? {
      // No presence of its own: left out when it is zero.
      var zero := CheckZero(f.ltype, vs[0]);
      if zero {
        ZeroIsWithin(f.ltype, vs[0]);
        assert vs[1..] == [] && WithinAll(f.ltype, vs[1..]);
        return true;
      }
    }
    if f.htype.Repeated? && |vs| > f.htype.size {
      return false;
    }
    if f.htype.Repeated? && Packable(f.ltype) {
      ok := PutPacked(s, f, vs);
    } else {
      ok := PutTagged(s, f, vs);
    }
  }

  /** pb_check_proto3_default_value. */
  method CheckZero(l: LType, v: Value) returns (zero: bool)
    requires Typed(l, v)
    ensures zero <==> IsZero(l, v)
    decreases l, 0
  {
    match l
    case Bytes(_) => zero := v.bytes == [];
    case String(_) => zero := v.bytes == [] || v.bytes[0] == 0;
    case FixedBytes(size) => zero := size == 0;
    case Sub(d) =>
      for i := 0 to |v.fields|
        invariant forall j :: 0 <= j < i ==> !Sent(d.fields[j], v.fields[j])
      {
        var f, vs := d.fields[i], v.fields[i];
        assert TypedField(f, vs);
        var absent := vs == [];
        if !absent && f.htype.Singular? {
          absent := CheckZero(f.ltype, vs[0]);
        }
        assert absent <==> !Sent(f, vs);
        if !absent {
          return false;
        }
      }
      zero := true;
    case _ => zero := v.n == 0;
  }

  /** What is zero exceeds no size. */
  lemma {:induction false} ZeroIsWithin(l: LType, v: Value)
    requires Typed(l, v) && IsZero(l, v)
    ensures Within(l, v)
    decreases l, 0
  {
    if l.Sub? {
      ZerosAreWithin(l.desc, v.fields, 0);
    }
  }

  lemma {:induction false} ZerosAreWithin(d: Desc, m: seq<seq<Value>>, i: nat)
    requires TypedMsg(d, m) && AllZero(d, m) && i <= |m|
    ensures WithinMsg(d, m, i)
    decreases d, |m| - i
  {
    if i < |m| {
      var f, vs := d.fields[i], m[i];
      assert TypedField(f, vs) && !Sent(f, vs);
      if vs != [] {
        ZeroIsWithin(f.ltype, vs[0]);
        assert vs[1..] == [] && WithinAll(f.ltype, vs[1..]);
      }
      assert WithinField(f, vs);
      ZerosAreWithin(d, m, i + 1);
    }
  }

  method PutPacked(s: OStream, f: Field, vs: seq<Value>) returns (ok: bool)
    requires s.Valid() && Packable(f.ltype) && forall j :: 0 <= j < |vs| ==> Typed(f.ltype, vs[j])
    requires 0 < f.tag < 0x2000_0000 && |EncodeAll(f.ltype, vs)| < TWO_64
    modifies s
    ensures var body := EncodeAll(f.ltype, vs);
            var bytes := Tag(WT_STRING, f.tag) + (Varint(|body|) + body);
            && s.Valid() && (ok <==> old(s.Room(|bytes|)))
            && (ok ==> s.Now() == After(old(s.Now()), s.sizing, bytes))
    ensures WithinAll(f.ltype, vs)
    decreases f, |vs|
  {
    hide Varint, EncodeValue, Typed, Tag;
    ghost var o, body := s.Now(), EncodeAll(f.ltype, vs);
    PackedIsWithin(f.ltype, vs);
    AfterBoth(o, s.sizing, Tag(WT_STRING, f.tag), Varint(|body|) + body);
    AfterBoth(After(o, s.sizing, Tag(WT_STRING, f.tag)), s.sizing, Varint(|body|), body);
    ok := PutTag(s, WT_STRING, f.tag);
    if !ok {
      return;
    }
    var size := PackedSize(f.ltype, vs);
    ok := PutVarint(s, size);
    if !ok {
      return;
    }
    if s.sizing {
      s.bytesWritten := s.bytesWritten + size;
    } else {
      ok := PutAll(s, f.ltype, vs);
    }
  }

  /** The number of bytes of a packed array: computed for numbers of fixed width, otherwise counted. */
  method PackedSize(l: LType, vs: seq<Value>) returns (size: nat)
    requires Packable(l) && forall j :: 0 <= j < |vs| ==> Typed(l, vs[j])
    requires |EncodeAll(l, vs)| < TWO_64
    ensures size == |EncodeAll(l, vs)|
    decreases l, |vs| + 1
  {
    if l == Fixed32 {
      FixedWidth(l, vs, 4);
      return 4 * |vs|;
    }
    if l == Fixed64 {
      FixedWidth(l, vs, 8);
      return 8 * |vs|;
    }
    PackedIsWithin(l, vs);
    var counter := new OStream(true, 0);
    var ok := PutAll(counter, l, vs);
    size := counter.bytesWritten;
  }

  /** The values of a packable type one after the other. */
  method PutAll(s: OStream, l: LType, vs: seq<Value>) returns (ok: bool)
    requires s.Valid() && Packable(l) && forall j :: 0 <= j < |vs| ==> Typed(l, vs[j])
    requires |EncodeAll(l, vs)| < TWO_64
    modifies s
    ensures s.Valid() && (ok <==> old(s.Room(|EncodeAll(l, vs)|)))
    ensures ok ==> s.Now() == After(old(s.Now()), s.sizing, EncodeAll(l, vs))
    decreases l, |vs|
  {
    hide EncodeValue, Typed, EncodeAll;
    ghost var o, done := s.Now(), [];
    AfterNothing(o, s.sizing);
    assert vs[0..] == vs;
    PackedIsWithin(l, vs);
    NothingPacked(l);
    ok := true;
    for i := 0 to |vs|
      invariant s.Valid() && ok
      invariant EncodeAll(l, vs) == done + EncodeAll(l, vs[i..])
      invariant s.Now() == After(o, s.sizing, done)
    {
      AllUnfolds(l, vs, i);
      AfterBoth(o, s.sizing, done, EncodeValue(l, vs[i]));
      PackedValueWithin(l, vs[i]);
      ok := PutValue(s, l, vs[i]);
      if !ok {
        return;
      }
      done := done + EncodeValue(l, vs[i]);
    }
    assert vs[|vs|..] == [];
    assert done + [] == done;
  }

  lemma AllUnfolds(l: LType, vs: seq<Value>, i: nat)
    requires i < |vs| && forall j :: 0 <= j < |vs| ==> Typed(l, vs[j])
    ensures EncodeAll(l, vs[i..]) == EncodeValue(l, vs[i]) + EncodeAll(l, vs[i + 1..])
  {
    assert vs[i..][1..] == vs[i + 1..];
  }

  lemma PackedValueWithin(l: LType, v: Value)
    requires Packable(l) && Typed(l, v)
    ensures Within(l, v) && Tagged(l)
  {
  }

  lemma {:induction false} PackedIsWithin(l: LType, vs: seq<Value>)
    requires Packable(l) && forall j :: 0 <= j < |vs| ==> Typed(l, vs[j])
    ensures WithinAll(l, vs)
    decreases |vs|
  {
    if vs != [] {
      PackedIsWithin(l, vs[1..]);
      PackedValueWithin(l, vs[0]);
    }
  }

  lemma {:induction false} FixedWidth(l: LType, vs: seq<Value>, width: nat)
    requires (l == Fixed32 && width == 4) || (l == Fixed64 && width == 8)
    requires forall j :: 0 <= j < |vs| ==> Typed(l, vs[j])
    ensures |EncodeAll(l, vs)| == width * |vs|
    decreases |vs|
  {
    if vs != [] {
      FixedWidth(l, vs[1..], width);
    }
  }

  method PutTagged(s: OStream, f: Field, vs: seq<Value>) returns (ok: bool)
    requires s.Valid() && (forall j :: 0 <= j < |vs| ==> Typed(f.ltype, vs[j]))
    requires 0 < f.tag < 0x2000_0000 && Tagged(f.ltype) && |EncodeTagged(f, vs)| < TWO_64
    modifies s
    ensures s.Valid() && (ok <==> WithinAll(f.ltype, vs) && old(s.Room(|EncodeTagged(f, vs)|)))
    ensures ok ==> s.Now() == After(old(s.Now()), s.sizing, EncodeTagged(f, vs))
    decreases f, |vs|
  {
    hide EncodeValue, Typed, Tag, Within, Tagged, EncodeTagged, WithinAll;
    ghost var o, done := s.Now(), [];
    AfterNothing(o, s.sizing);
    assert vs[0..] == vs;
    NothingTagged(f);
    ok := true;
    for i := 0 to |vs|
      invariant s.Valid() && ok
      invariant EncodeTagged(f, vs) == done + EncodeTagged(f, vs[i..])
      invariant WithinAll(f.ltype, vs) <==> WithinAll(f.ltype, vs[i..])
      invariant s.Now() == After(o, s.sizing, done)
    {
      TaggedUnfolds(f, vs, i);
      ghost var key, value := Tag(WireType(f.ltype), f.tag), EncodeValue(f.ltype, vs[i]);
      AfterBoth(o, s.sizing, done, key);
      AfterBoth(o, s.sizing, done + key, value);
      assert done + (key + value + EncodeTagged(f, vs[i + 1..])) == done + key + value + EncodeTagged(f, vs[i + 1..]);
      ok := PutTag(s, WireType(f.ltype), f.tag);
      if !ok {
        return;
      }
      ok := PutValue(s, f.ltype, vs[i]);
      if !ok {
        return;
      }
      done := done + key + value;
    }
    assert vs[|vs|..] == [];
    assert done + [] == done;
  }

  lemma NothingTagged(f: Field)
    ensures EncodeTagged(f, []) == [] && WithinAll(f.ltype, [])
  {
  }

  lemma NothingPacked(l: LType)
    ensures EncodeAll(l, []) == []
  {
  }

  lemma TaggedUnfolds(f: Field, vs: seq<Value>, i: nat)
    requires i < |vs| && forall j :: 0 <= j < |vs| ==> Typed(f.ltype, vs[j])
    ensures EncodeTagged(f, vs[i..]) ==
            Tag(WireType(f.ltype), f.tag) + EncodeValue(f.ltype, vs[i]) + EncodeTagged(f, vs[i + 1..])
    ensures WithinAll(f.ltype, vs[i..]) <==> Within(f.ltype, vs[i]) && WithinAll(f.ltype, vs[i + 1..])
  {
    assert vs[i..][1..] == vs[i + 1..];
  }
}
