/** Decoding of nanopb messages (pb_decode.c, pb_common.c): static fields with the checks of the decoder, skipping of
    unknown fields, packed arrays, nested messages; and the round trip with the encoder. */
module PbDecode {
  import opened InternalKeys
  import opened Coding
  import opened PbVarint
  import opened PbMessage

  const MAX_REQUIRED: nat := 64

  // ---------------------------------------------------------------- keys and unknown fields

  datatype Key = End | Bad | Key(wt: nat, tag: nat, rest: Slice)

  /** pb_decode_tag: a zero ends the message early. */
  function DecodeTag(input: Slice): (k: Key)
    ensures k.Key? ==> |k.rest| < |input|
  {
    match Decode32(input)
    case None => if input == [] then End else Bad
    case Some((v, rest)) => if v == 0 then End else Key(v % 8, v / 8, rest)
  }

  function SkipVarint(input: Slice): (r: Option<Slice>)
    ensures r.Some? ==> |r.value| < |input|
  {
    if input == [] then None else if input[0] < 0x80 then Some(input[1..]) else SkipVarint(input[1..])
  }

  function SkipBytes(input: Slice, n: nat): (r: Option<Slice>)
    ensures r.Some? ==> |r.value| <= |input|
  {
    if |input| < n then None else Some(input[n..])
  }

  /** A length and that many bytes. */
  function Delimited(input: Slice): (r: Option<(Slice, Slice)>)
    ensures r.Some? ==> |r.value.0| < |input| && |r.value.1| < |input|
  {
    match Decode32(input)
    case None => None
    case Some((n, rest)) => if |rest| < n then None else Some((rest[..n], rest[n..]))
  }

  /** pb_skip_field. */
  function SkipField(wt: nat, input: Slice): (r: Option<Slice>)
    ensures r.Some? ==> |r.value| <= |input|
  {
    if wt == WT_VARINT then SkipVarint(input)
    else if wt == WT_64BIT then SkipBytes(input, 8)
    else if wt == WT_STRING then match Delimited(input) case None => None case Some((_, rest)) => Some(rest)
    else if wt == WT_32BIT then SkipBytes(input, 4)
    else None
  }

  /** The field with this tag, counted from field `i`. */
  function Find(d: Desc, tag: nat, i: nat): (r: Option<nat>)
    requires i <= |d.fields|
    ensures r.Some? ==> i <= r.value < |d.fields| && d.fields[r.value].tag == tag
    ensures r.None? ==> forall j :: i <= j < |d.fields| ==> d.fields[j].tag != tag
    decreases |d.fields| - i
  {
    if i == |d.fields| then None else if d.fields[i].tag == tag then Some(i) else Find(d, tag, i + 1)
  }

  // ---------------------------------------------------------------- decoding

  function Defaults(d: Desc): (m: seq<seq<Value>>)
    ensures |m| == |d.fields|
    decreases d
  {
    seq(|d.fields|, i requires 0 <= i < |d.fields| => DefaultField(d.fields[i]))
  }

  function DefaultField(f: Field): seq<Value>
    decreases f
  {
    if f.htype.Required? || f.htype.Singular? then [DefaultValue(f.ltype)] else []
  }

  function Zeros(n: nat): (b: Slice)
    ensures |b| == n && forall i :: 0 <= i < n ==> b[i] == 0
  {
    seq(n, _ => 0)
  }

  function DefaultValue(l: LType): Value
    decreases l
  {
    match l
    case Bytes(_) | String(_) => Blob([])
    case FixedBytes(size) => Blob(Zeros(size))
    case Sub(d) => Msg(Defaults(d))
    case _ => Num(0)
  }

  /** pb_dec_varint: fields narrower than 64 bits take the lower 32 bits as a signed number, which must fit the field. */
  function NarrowSigned(w: Width, v: uint64): Option<int> {
    if w.W64? then Some(Signed(v))
    else
      var low := v % TWO_32;
      var n := if low >= 0x8000_0000 then low - TWO_32 else low;
      if FitsSigned(w, n) then Some(n) else None
  }

  /** pb_dec_uvarint. */
  function NarrowUnsigned(w: Width, v: uint64): Option<int> {
    if FitsUnsigned(w, v) then Some(v) else None
  }

  /** pb_dec_svarint. */
  function NarrowZigZag(w: Width, v: uint64): Option<int> {
    var n := UnZigZag(v);
    if FitsSigned(w, n) then Some(n) else None
  }

  function Number(n: Option<int>, rest: Slice): Option<(Value, Slice)> {
    if n.Some? then Some((Num(n.value), rest)) else None
  }

  /** Decode one value. A submessage goes on from what is there already. */
  function DecodeValue(l: LType, prior: Option<Value>, input: Slice): (r: Option<(Value, Slice)>)
    ensures r.Some? ==> |r.value.1| < |input|
    decreases l, |input|
  {
    match l
    case Bool =>
      (match Decode32(input) case None => None case Some((v, rest)) => Some((Num(if v != 0 then 1 else 0), rest)))
    case Int(w) =>
      (match GetVarint64(input) case None => None case Some((v, rest)) => Number(NarrowSigned(w, v), rest))
    case UInt(w) =>
      (match GetVarint64(input) case None => None case Some((v, rest)) => Number(NarrowUnsigned(w, v), rest))
    case SInt(w) =>
      (match GetVarint64(input) case None => None case Some((v, rest)) => Number(NarrowZigZag(w, v), rest))
    case Fixed32 => if |input| < 4 then None else Some((Num(DecodeFixed32(input)), input[4..]))
    case Fixed64 => if |input| < 8 then None else Some((Num(DecodeFixed64(input)), input[8..]))
    case Bytes(size) =>
      (match Delimited(input)
       case None => None
       case Some((bytes, rest)) => if |bytes| > size then None else Some((Blob(bytes), rest)))
    case String(size) =>
      // One more byte for the terminating zero.
      (match Delimited(input)
       case None => None
       case Some((bytes, rest)) => if |bytes| + 1 > size then None else Some((Blob(bytes), rest)))
    case FixedBytes(size) =>
      (match Delimited(input)
       case None => None
       case Some((bytes, rest)) =>
         if bytes == [] then Some((Blob(Zeros(size)), rest)) else if |bytes| != size then None else Some((Blob(bytes), rest)))
    case Sub(d) =>
      match Delimited(input)
      case None => None
      case Some((body, rest)) =>
        var start := if prior.Some? && prior.value.Msg? && |prior.value.fields| == |d.fields| then prior.value.fields else Defaults(d);
        match DecodeMsg(d, body, start)
        case None => None
        case Some(m) => Some((Msg(m), rest))
  }

  /** A packed array: values until the end, or until the array is full. */
  function DecodePacked(l: LType, size: nat, input: Slice, vs: seq<Value>): Option<seq<Value>>
    decreases l, |input| + 1
  {
    if input == [] then Some(vs)
    else if |vs| >= size then None
    else
      match DecodeValue(l, None, input)
      case None => None
      case Some((v, rest)) => DecodePacked(l, size, rest, vs + [v])
  }

  function DecodeField(f: Field, wt: nat, input: Slice, vs: seq<Value>): (r: Option<(seq<Value>, Slice)>)
    ensures r.Some? ==> |r.value.1| < |input|
    decreases f, |input|
  {
    if !f.htype.Repeated? then
      match DecodeValue(f.ltype, if vs != [] then Some(vs[0]) else None, input)
      case None => None
      case Some((v, rest)) => Some(([v], rest))
    else if wt == WT_STRING && Packable(f.ltype) then
      match Delimited(input)
      case None => None
      case Some((body, rest)) =>
        match DecodePacked(f.ltype, f.htype.size, body, vs)
        case None => None
        case Some(all) => Some((all, rest))
    else if |vs| >= f.htype.size then None
    else
      match DecodeValue(f.ltype, None, input)
      case None => None
      case Some((v, rest)) => Some((vs + [v], rest))
  }

  /** The fields of a message, and which of them were seen. */
  function DecodeFields(d: Desc, input: Slice, m: seq<seq<Value>>, seen: set<nat>): (r: Option<(seq<seq<Value>>, set<nat>)>)
    requires |m| == |d.fields|
    ensures r.Some? ==> |r.value.0| == |d.fields|
    decreases d, |input|
  {
    if input == [] then Some((m, seen))
    else
      match DecodeTag(input)
      case End => Some((m, seen))
      case Bad => None
      case Key(wt, tag, rest) =>
        match Find(d, tag, 0)
        case None => (match SkipField(wt, rest) case None => None case Some(after) => DecodeFields(d, after, m, seen))
        case Some(i) =>
          match DecodeField(d.fields[i], wt, rest, m[i])
          case None => None
          case Some((vs, after)) => DecodeFields(d, after, m[i := vs], seen + {i})
  }

  /** How many required fields stand before field `i`. */
  function RequiredBefore(d: Desc, i: nat): nat
    requires i <= |d.fields|
  {
    if i == 0 then 0 else RequiredBefore(d, i - 1) + if d.fields[i - 1].htype.Required? then 1 else 0
  }

  /** Every required field, of the first 64, was seen. */
  predicate AllSeen(d: Desc, seen: set<nat>) {
    forall i :: 0 <= i < |d.fields| && d.fields[i].htype.Required? && RequiredBefore(d, i) < MAX_REQUIRED ==> i in seen
  }

  /** pb_decode_noinit. */
  function DecodeMsg(d: Desc, input: Slice, start: seq<seq<Value>>): (r: Option<seq<seq<Value>>>)
    requires |start| == |d.fields|
    decreases d, |input| + 1
  {
    match DecodeFields(d, input, start, {})
    case None => None
    case Some((m, seen)) => if AllSeen(d, seen) then Some(m) else None
  }

  /** pb_decode. */
  function Decode(d: Desc, input: Slice): Option<seq<seq<Value>>> {
    DecodeMsg(d, input, Defaults(d))
  }

  // ---------------------------------------------------------------- round trip

  /** Within a message, at all depths, no tag is used twice. */
  predicate Distinct(l: LType)
    decreases l
  {
    l.Sub? ==> DistinctMsg(l.desc)
  }

  predicate DistinctMsg(d: Desc)
    decreases d
  {
    && (forall i, j :: 0 <= i < j < |d.fields| ==> d.fields[i].tag != d.fields[j].tag)
    && (forall i :: 0 <= i < |d.fields| ==> Distinct(d.fields[i].ltype))
  }

  /** Strings, at all depths, leave room for their terminating zero and have no zero inside. */
  predicate Terminated(l: LType, v: Value)
    requires Typed(l, v)
    decreases l
  {
    (l.String? ==> |v.bytes| < l.size && 0 !in v.bytes) && (l.Sub? ==> TerminatedMsg(l.desc, v.fields))
  }

  predicate TerminatedMsg(d: Desc, m: seq<seq<Value>>)
    requires TypedMsg(d, m)
    decreases d
  {
    forall i, j :: 0 <= i < |m| && 0 <= j < |m[i]| ==> TerminatedAt(d.fields[i], m[i], j)
  }

  predicate TerminatedAt(f: Field, vs: seq<Value>, j: nat)
    requires TypedField(f, vs) && j < |vs|
    decreases f
  {
    Terminated(f.ltype, vs[j])
  }

  lemma {:induction false} CStringIs(b: Slice)
    ensures CString(b) == b <==> 0 !in b
    ensures CString(b) <= b && 0 !in CString(b)
  {
    if b != [] && b[0] != 0 {
      CStringIs(b[1..]);
      assert b == [b[0]] + b[1..];
    }
  }

  /** What is zero is the default, so leaving it out loses nothing. */
  lemma {:induction false} ZeroIsDefault(l: LType, v: Value)
    requires Typed(l, v) && IsZero(l, v) && Terminated(l, v)
    ensures v == DefaultValue(l)
    decreases l
  {
    match l
    case Sub(d) =>
      forall i | 0 <= i < |v.fields| ensures v.fields[i] == DefaultField(d.fields[i]) {
        assert TypedField(d.fields[i], v.fields[i]) && !Sent(d.fields[i], v.fields[i]);
        UnsentIsDefault(d.fields[i], v.fields[i]);
      }
      assert v.fields == Defaults(d);
    case _ =>
  }

  lemma {:induction false} UnsentIsDefault(f: Field, vs: seq<Value>)
    requires TypedField(f, vs) && !Sent(f, vs) && forall j :: 0 <= j < |vs| ==> TerminatedAt(f, vs, j)
    ensures vs == DefaultField(f)
    decreases f
  {
    if vs != [] {
      assert TerminatedAt(f, vs, 0);
      ZeroIsDefault(f.ltype, vs[0]);
      assert vs == [vs[0]];
    }
  }

  lemma DelimitedRoundTrip(b: Slice, more: Slice)
    requires |b| < TWO_32
    ensures Delimited(Varint(|b|) + b + more) == Some((b, more))
  {
    hide Varint, Decode32;
    Decode32RoundTrip(|b|, b + more);
    assert Varint(|b|) + b + more == Varint(|b|) + (b + more);
  }

  lemma TagRoundTrip(wt: nat, tag: nat, more: Slice)
    requires wt < 8 && 0 < tag < 0x2000_0000
    ensures DecodeTag(Tag(wt, tag) + more) == Key(wt, tag, more) && Tag(wt, tag) + more != []
  {
    hide Varint, Decode32;
    Decode32RoundTrip(8 * tag + wt, more);
    assert |Varint(8 * tag + wt)| >= 1;
  }

  lemma {:induction false} FindField(d: Desc, i: nat, j: nat)
    requires DistinctMsg(d) && j <= i < |d.fields|
    ensures Find(d, d.fields[i].tag, j) == Some(i)
    decreases i - j
  {
    if j < i {
      FindField(d, i, j + 1);
    }
  }

  /** What fits the field's width survives the decoder's cast, also when a negative number of 32 bits was sent as 64. */
  lemma NarrowRoundTrip(w: Width, n: int)
    ensures FitsSigned(w, n) ==> NarrowSigned(w, Unsigned(n)) == Some(n) && NarrowZigZag(w, ZigZag(n)) == Some(n)
    ensures FitsUnsigned(w, n) ==> NarrowUnsigned(w, n) == Some(n)
  {
  }

  /** A number decodes as it was encoded. */
  lemma NumberRoundTrip(l: LType, v: Value, prior: Option<Value>, more: Slice)
    requires Packable(l) && Typed(l, v)
    ensures DecodeValue(l, prior, EncodeValue(l, v) + more) == Some((v, more))
  {
    hide Varint, GetVarint64, Decode32, Coding.Fixed32, Coding.Fixed64, DecodeFixed32, DecodeFixed64;
    hide NarrowSigned, NarrowUnsigned, NarrowZigZag, ZigZag, Unsigned;
    match l
    case Bool => Decode32RoundTrip(v.n, more);
    case Int(w) =>
      NarrowRoundTrip(w, v.n);
      Varint64RoundTrip(Unsigned(v.n), more);
    case UInt(w) =>
      NarrowRoundTrip(w, v.n);
      Varint64RoundTrip(v.n, more);
    case SInt(w) =>
      NarrowRoundTrip(w, v.n);
      Varint64RoundTrip(ZigZag(v.n), more);
    case Fixed32 =>
      Fixed32RoundTrip(v.n, more);
      assert (Coding.Fixed32(v.n) + more)[4..] == more;
    case Fixed64 =>
      Fixed64RoundTrip(v.n, more);
      assert (Coding.Fixed64(v.n) + more)[8..] == more;
  }

  lemma {:induction false} ValueRoundTrip(l: LType, v: Value, prior: Option<Value>, more: Slice)
    requires Typed(l, v) && Within(l, v) && Terminated(l, v) && Tagged(l) && Distinct(l) && |EncodeValue(l, v)| < TWO_32
    requires l.Sub? ==> prior.None? || prior == Some(Msg(Defaults(l.desc)))
    ensures DecodeValue(l, prior, EncodeValue(l, v) + more) == Some((v, more))
    decreases l, 0
  {
    match l
    case Bytes(size) => DelimitedRoundTrip(v.bytes, more);
    case String(size) =>
      CStringIs(v.bytes);
      DelimitedRoundTrip(v.bytes, more);
    case FixedBytes(size) =>
      DelimitedRoundTrip(v.bytes, more);
      assert v.bytes == [] ==> Zeros(size) == [];
    case Sub(d) =>
      var body := EncodeMsg(d, v.fields, 0);
      DelimitedRoundTrip(body, more);
      MessageRoundTrip(d, v.fields);
    case _ => NumberRoundTrip(l, v, prior, more);
  }

  lemma {:induction false} PackedRoundTrip(l: LType, size: nat, vs: seq<Value>, done: seq<Value>)
    requires Packable(l) && (forall j :: 0 <= j < |vs| ==> Typed(l, vs[j])) && |done| + |vs| <= size
    ensures DecodePacked(l, size, EncodeAll(l, vs), done) == Some(done + vs)
    decreases |vs|
  {
    hide EncodeValue, DecodeValue, Typed;
    if vs == [] {
      assert done + vs == done;
    } else {
      NumberRoundTrip(l, vs[0], None, EncodeAll(l, vs[1..]));
      ValueNotEmpty(l, vs[0]);
      PackedRoundTrip(l, size, vs[1..], done + [vs[0]]);
      assert done + [vs[0]] + vs[1..] == done + vs;
    }
  }

  lemma ValueNotEmpty(l: LType, v: Value)
    requires Packable(l) && Typed(l, v)
    ensures EncodeValue(l, v) != []
  {
  }

  /** The field that starts the input is decoded, and decoding goes on behind it. */
  lemma OneField(d: Desc, i: nat, wt: nat, body: Slice, more: Slice, m: seq<seq<Value>>, seen: set<nat>, vs: seq<Value>)
    requires |m| == |d.fields| && i < |d.fields| && DistinctMsg(d) && wt < 8 && 0 < d.fields[i].tag < 0x2000_0000
    requires DecodeField(d.fields[i], wt, body + more, m[i]) == Some((vs, more))
    ensures DecodeFields(d, Tag(wt, d.fields[i].tag) + body + more, m, seen) == DecodeFields(d, more, m[i := vs], seen + {i})
  {
    hide Tag, DecodeTag, DistinctMsg, DecodeField;
    TagRoundTrip(wt, d.fields[i].tag, body + more);
    FindField(d, i, 0);
    assert Tag(wt, d.fields[i].tag) + body + more == Tag(wt, d.fields[i].tag) + (body + more);
  }

  /** All values of a field, tagged one by one, are decoded in order. */
  lemma {:induction false} TaggedRoundTrip(d: Desc, i: nat, vs: seq<Value>, more: Slice, m: seq<seq<Value>>, seen: set<nat>)
    requires |m| == |d.fields| && i < |d.fields| && DistinctMsg(d) && TaggedMsg(d)
    requires forall j :: 0 <= j < |vs| ==> Typed(d.fields[i].ltype, vs[j]) && Terminated(d.fields[i].ltype, vs[j])
    requires WithinAll(d.fields[i].ltype, vs) && |EncodeTagged(d.fields[i], vs)| < TWO_32
    requires match d.fields[i].htype
             case Repeated(size) => |m[i]| + |vs| <= size
             case _ => |vs| <= 1 && m[i] == DefaultField(d.fields[i])
    ensures vs != [] ==>
              DecodeFields(d, EncodeTagged(d.fields[i], vs) + more, m, seen) ==
              DecodeFields(d, more, m[i := if d.fields[i].htype.Repeated? then m[i] + vs else vs], seen + {i})
    decreases d, 0, |vs|
  {
    hide EncodeValue, DecodeValue, Typed, Within, Terminated, DecodeFields, Tag, DistinctMsg, Tagged, Distinct;
    var f := d.fields[i];
    if vs != [] {
      var rest := EncodeTagged(f, vs[1..]) + more;
      var value := EncodeValue(f.ltype, vs[0]);
      NestedDistinct(d, i);
      ValueRoundTrip(f.ltype, vs[0], if f.htype.Repeated? then None else PriorOf(m[i]), rest);
      var next := if f.htype.Repeated? then m[i] + [vs[0]] else [vs[0]];
      OneField(d, i, WireType(f.ltype), value, rest, m, seen, next);
      assert EncodeTagged(f, vs) + more == Tag(WireType(f.ltype), f.tag) + value + rest;
      if |vs| == 1 {
        assert rest == more;
        assert vs == [vs[0]];
      } else {
        TaggedRoundTrip(d, i, vs[1..], more, m[i := next], seen + {i});
        assert m[i] + [vs[0]] + vs[1..] == m[i] + vs;
        assert m[i := next][i := m[i] + vs] == m[i := m[i] + vs];
        assert seen + {i} + {i} == seen + {i};
      }
    }
  }

  function PriorOf(vs: seq<Value>): Option<Value> {
    if vs != [] then Some(vs[0]) else None
  }

  lemma NestedDistinct(d: Desc, i: nat)
    requires DistinctMsg(d) && TaggedMsg(d) && i < |d.fields|
    ensures Distinct(d.fields[i].ltype) && Tagged(d.fields[i].ltype) && 0 < d.fields[i].tag < 0x2000_0000
  {
  }

  /** The values of one field are decoded in place of its default. */
  lemma {:induction false} FieldRoundTrip(d: Desc, i: nat, vs: seq<Value>, more: Slice, m: seq<seq<Value>>, seen: set<nat>)
    requires |m| == |d.fields| && i < |d.fields| && DistinctMsg(d) && TaggedMsg(d)
    requires TypedField(d.fields[i], vs) && WithinField(d.fields[i], vs) && |EncodeField(d.fields[i], vs)| < TWO_32
    requires m[i] == DefaultField(d.fields[i]) && forall j :: 0 <= j < |vs| ==> TerminatedAt(d.fields[i], vs, j)
    ensures DecodeFields(d, EncodeField(d.fields[i], vs) + more, m, seen) ==
            DecodeFields(d, more, m[i := vs], if Sent(d.fields[i], vs) then seen + {i} else seen)
    decreases d, 1, 0
  {
    hide DecodeFields, DistinctMsg, TaggedMsg, EncodeValue, Typed, Within, Tag, DecodeValue, Terminated, IsZero, DefaultValue;
    var f := d.fields[i];
    forall j | 0 <= j < |vs| ensures Terminated(f.ltype, vs[j]) {
      assert TerminatedAt(f, vs, j);
    }
    if !Sent(f, vs) {
      UnsentIsDefault(f, vs);
      assert EncodeField(f, vs) + more == more;
      assert m[i := vs] == m;
    } else if f.htype.Repeated? && Packable(f.ltype) {
      var body := EncodeAll(f.ltype, vs);
      NestedDistinct(d, i);
      DelimitedRoundTrip(body, more);
      PackedRoundTrip(f.ltype, f.htype.size, vs, []);
      assert [] + vs == vs;
      OneField(d, i, WT_STRING, Varint(|body|) + body, more, m, seen, vs);
    } else {
      TaggedRoundTrip(d, i, vs, more, m, seen);
      assert f.htype.Repeated? ==> m[i] + vs == vs;
    }
  }

  /** The fields from number `i` on that are encoded. */
  ghost function SentFrom(d: Desc, m: seq<seq<Value>>, i: nat): set<nat>
    requires TypedMsg(d, m)
  {
    set j | i <= j < |m| && Sent(d.fields[j], m[j])
  }

  lemma NothingBehind(d: Desc, m: seq<seq<Value>>)
    requires TypedMsg(d, m)
    ensures SentFrom(d, m, |m|) == {}
  {
  }

  /** The fields from number `i` on, when the ones before are decoded and the others have their defaults. */
  lemma {:induction false} FieldsRoundTrip(d: Desc, m: seq<seq<Value>>, i: nat, state: seq<seq<Value>>, seen: set<nat>)
    requires TypedMsg(d, m) && i <= |m| && WithinMsg(d, m, i) && TerminatedMsg(d, m) && TaggedMsg(d) && DistinctMsg(d)
    requires |EncodeMsg(d, m, i)| < TWO_32
    requires |state| == |m| && (forall j :: 0 <= j < i ==> state[j] == m[j]) && (forall j :: i <= j < |m| ==> state[j] == DefaultField(d.fields[j]))
    ensures DecodeFields(d, EncodeMsg(d, m, i), state, seen) ==
            Some((m, seen + SentFrom(d, m, i)))
    decreases d, 2, |m| - i
  {
    hide DistinctMsg, TaggedMsg, EncodeField, WithinField, TypedField, DefaultField, DecodeField, TerminatedAt, Sent;
    if i == |m| {
      assert state == m;
      NothingBehind(d, m);
      assert seen + SentFrom(d, m, i) == seen;
    } else {
      hide DecodeFields;
      var more := EncodeMsg(d, m, i + 1);
      var here := if Sent(d.fields[i], m[i]) then seen + {i} else seen;
      FieldRoundTrip(d, i, m[i], more, state, seen);
      FieldsRoundTrip(d, m, i + 1, state[i := m[i]], here);
      assert here + SentFrom(d, m, i + 1) == seen + SentFrom(d, m, i);
    }
  }

  /** A message within its sizes, with distinct tags and terminated strings, decodes from its encoding as it was. */
  lemma {:induction false} MessageRoundTrip(d: Desc, m: seq<seq<Value>>)
    requires TypedMsg(d, m) && WithinMsg(d, m, 0) && TerminatedMsg(d, m) && TaggedMsg(d) && DistinctMsg(d)
    requires |EncodeMsg(d, m, 0)| < TWO_32
    ensures Decode(d, EncodeMsg(d, m, 0)) == Some(m)
    decreases d, 3, 0
  {
    hide DistinctMsg, TaggedMsg, EncodeMsg, WithinMsg, DecodeFields, Typed, TerminatedMsg;
    FieldsRoundTrip(d, m, 0, Defaults(d), {});
    forall i | 0 <= i < |m| && d.fields[i].htype.Required? ensures Sent(d.fields[i], m[i]) {
      assert TypedField(d.fields[i], m[i]);
    }
  }

  // ---------------------------------------------------------------- the decoder's loops

  /** pb_field_iter_find: search on from the current position, around the end of the descriptor, back to where it began. */
  method FieldIterFind(d: Desc, pos: nat, tag: nat) returns (found: bool, next: nat)
    requires DistinctMsg(d)
    requires pos < |d.fields| || (pos == 0 && d.fields == [])
    ensures next < |d.fields| || (next == 0 && d.fields == [])
    ensures found ==> Find(d, tag, 0) == Some(next)
    ensures !found ==> Find(d, tag, 0) == None && next == pos
  {
    if d.fields == [] {
      return false, 0;
    }
    next := pos;
    var steps := 0;
    while true
      invariant steps < |d.fields| && next < |d.fields|
      invariant next == if pos + steps < |d.fields| then pos + steps else pos + steps - |d.fields|
      invariant forall j :: 0 <= j < |d.fields| && Passed(pos, steps, |d.fields|, j) ==> d.fields[j].tag != tag
      decreases |d.fields| - steps
    {
      if d.fields[next].tag == tag {
        FindField(d, next, 0);
        return true, next;
      }
      next := if next + 1 == |d.fields| then 0 else next + 1;
      steps := steps + 1;
      if next == pos {
        assert forall j :: 0 <= j < |d.fields| ==> Passed(pos, steps, |d.fields|, j);
        return false, next;
      }
    }
  }

  /** Position `j` was looked at in the first steps of a circular search. */
  predicate Passed(pos: nat, steps: nat, n: nat, j: nat) {
    if pos + steps <= n then pos <= j < pos + steps else pos <= j || j < pos + steps - n
  }

  method ReadValue(l: LType, prior: Option<Value>, input: Slice) returns (r: Option<(Value, Slice)>)
    requires Distinct(l)
    ensures r == DecodeValue(l, prior, input)
    decreases l, |input|
  {
    if l.Sub? {
      var part := Delimited(input);
      if part.None? {
        return None;
      }
      var start := if prior.Some? && prior.value.Msg? && |prior.value.fields| == |l.desc.fields| then prior.value.fields
                   else Defaults(l.desc);
      var m := DecodeNoinit(l.desc, part.value.0, start);
      r := if m.Some? then Some((Msg(m.value), part.value.1)) else None;
    } else {
      r := DecodeValue(l, prior, input);
    }
  }

  method ReadPacked(l: LType, size: nat, input: Slice, vs: seq<Value>) returns (r: Option<seq<Value>>)
    requires Packable(l)
    ensures r == DecodePacked(l, size, input, vs)
  {
    hide DecodeValue;
    var left, all := input, vs;
    while left != [] && |all| < size
      invariant DecodePacked(l, size, input, vs) == DecodePacked(l, size, left, all)
      decreases |left|
    {
      var v := DecodeValue(l, None, left);
      if v.None? {
        return None;
      }
      left, all := v.value.1, all + [v.value.0];
    }
    r := if left != [] then None else Some(all);
  }

  /** decode_static_field. */
  method ReadField(f: Field, wt: nat, input: Slice, vs: seq<Value>) returns (r: Option<(seq<Value>, Slice)>)
    requires Distinct(f.ltype)
    ensures r == DecodeField(f, wt, input, vs)
    decreases f, |input|
  {
    hide DecodeValue, DecodePacked, Delimited;
    if !f.htype.Repeated? {
      var v := ReadValue(f.ltype, if vs != [] then Some(vs[0]) else None, input);
      r := if v.Some? then Some(([v.value.0], v.value.1)) else None;
    } else if wt == WT_STRING && Packable(f.ltype) {
      var part := Delimited(input);
      if part.None? {
        return None;
      }
      var all := ReadPacked(f.ltype, f.htype.size, part.value.0, vs);
      r := if all.Some? then Some((all.value, part.value.1)) else None;
    } else {
      if |vs| >= f.htype.size {
        return None;
      }
      var v := ReadValue(f.ltype, None, input);
      r := if v.Some? then Some((vs + [v.value.0], v.value.1)) else None;
    }
  }

  /** pb_decode_noinit: fields until the input ends, unknown ones skipped; then the required ones must have been seen. */
  method DecodeNoinit(d: Desc, input: Slice, start: seq<seq<Value>>) returns (r: Option<seq<seq<Value>>>)
    requires |start| == |d.fields| && DistinctMsg(d)
    ensures r == DecodeMsg(d, input, start)
    decreases d, |input| + 1
  {
    hide DecodeTag, Find, SkipField, DecodeField, AllSeen, DistinctMsg;
    var left, m := input, start;
    var seen: set<nat> := {};
    var pos: nat := 0;
    while left != []
      invariant |m| == |d.fields| && (pos < |d.fields| || (pos == 0 && d.fields == []))
      invariant DecodeFields(d, input, start, {}) == DecodeFields(d, left, m, seen)
      decreases |left|
    {
      var key := DecodeTag(left);
      if key.End? {
        break;
      }
      if key.Bad? {
        return None;
      }
      var found;
      found, pos := FieldIterFind(d, pos, key.tag);
      if !found {
        var after := SkipField(key.wt, key.rest);
        if after.None? {
          return None;
        }
        left := after.value;
      } else {
        FieldDistinct(d, pos);
        var v := ReadField(d.fields[pos], key.wt, key.rest, m[pos]);
        if v.None? {
          return None;
        }
        m, left, seen := m[pos := v.value.0], v.value.1, seen + {pos};
      }
    }
    var complete := CheckRequired(d, seen);
    r := if complete then Some(m) else None;
  }

  lemma FieldDistinct(d: Desc, i: nat)
    requires DistinctMsg(d) && i < |d.fields|
    ensures Distinct(d.fields[i].ltype)
  {
  }

  /** The required fields, counted up to 64, are all among the seen ones. */
  method CheckRequired(d: Desc, seen: set<nat>) returns (complete: bool)
    ensures complete <==> AllSeen(d, seen)
  {
    var count := 0;
    for i := 0 to |d.fields|
      invariant count == RequiredBefore(d, i)
      invariant forall j :: 0 <= j < i && d.fields[j].htype.Required? && RequiredBefore(d, j) < MAX_REQUIRED ==> j in seen
    {
      if d.fields[i].htype.Required? {
        if count < MAX_REQUIRED && i !in seen {
          return false;
        }
        count := count + 1;
      }
    }
    complete := true;
  }
}
