/** Strings in nanopb messages: a char array is sent up to its first zero, and decoding needs room for a terminating one.
    Hence exactly which messages come back from their encoding. */
module PbStrings {
  import opened InternalKeys
  import opened Coding
  import opened PbMessage
  import opened PbDecode

  // ---------------------------------------------------------------- what is sent of strings

  /** The value with its strings, at all depths, cut at their first zero. */
  function CutValue(l: LType, v: Value): (r: Value)
    requires Typed(l, v)
    ensures Typed(l, r)
    decreases l
  {
    match l
    case String(_) => CStringIs(v.bytes); Blob(CString(v.bytes))
    case Sub(d) => Msg(CutMsg(d, v.fields))
    case _ => v
  }

  function CutMsg(d: Desc, m: seq<seq<Value>>): (r: seq<seq<Value>>)
    requires TypedMsg(d, m)
    ensures TypedMsg(d, r)
    decreases d
  {
    seq(|m|, i requires 0 <= i < |m| => assert TypedField(d.fields[i], m[i]); CutField(d.fields[i], m[i]))
  }

  function CutField(f: Field, vs: seq<Value>): (r: seq<Value>)
    requires TypedField(f, vs)
    ensures TypedField(f, r) && |r| == |vs|
    decreases f
  {
    seq(|vs|, j requires 0 <= j < |vs| => CutValue(f.ltype, vs[j]))
  }

  /** Cutting changes nothing of what the encoder does. */
  lemma {:induction false} CutEncodes(l: LType, v: Value)
    requires Typed(l, v)
    ensures EncodeValue(l, CutValue(l, v)) == EncodeValue(l, v)
    ensures Within(l, CutValue(l, v)) <==> Within(l, v)
    ensures IsZero(l, CutValue(l, v)) <==> IsZero(l, v)
    decreases l, 0
  {
    match l
    case String(_) =>
      CStringIs(v.bytes);
      CStringIs(CString(v.bytes));
    case Sub(d) =>
      CutMsgEncodes(d, v.fields, 0);
      forall i | 0 <= i < |v.fields|
        ensures Sent(d.fields[i], CutMsg(d, v.fields)[i]) <==> Sent(d.fields[i], v.fields[i])
      {
        CutFieldEncodes(d.fields[i], v.fields[i]);
      }
    case _ =>
  }

  lemma {:induction false} CutMsgEncodes(d: Desc, m: seq<seq<Value>>, i: nat)
    requires TypedMsg(d, m) && i <= |m|
    ensures EncodeMsg(d, CutMsg(d, m), i) == EncodeMsg(d, m, i)
    ensures WithinMsg(d, CutMsg(d, m), i) <==> WithinMsg(d, m, i)
    decreases d, |m| - i
  {
    hide EncodeField, WithinField, CutField, TypedField;
    if i < |m| {
      CutFieldEncodes(d.fields[i], m[i]);
      CutMsgEncodes(d, m, i + 1);
    }
  }

  lemma {:induction false} CutFieldEncodes(f: Field, vs: seq<Value>)
    requires TypedField(f, vs)
    ensures EncodeField(f, CutField(f, vs)) == EncodeField(f, vs)
    ensures WithinField(f, CutField(f, vs)) <==> WithinField(f, vs)
    ensures Sent(f, CutField(f, vs)) <==> Sent(f, vs)
    decreases f, |vs| + 1
  {
    hide EncodeValue, Within, IsZero, Typed;
    var cut := CutField(f, vs);
    CutAllEncode(f, vs, cut);
    if vs != [] {
      CutEncodes(f.ltype, vs[0]);
    }
    if Packable(f.ltype) {
      PackableUncut(f, vs);
    }
  }

  lemma PackableUncut(f: Field, vs: seq<Value>)
    requires TypedField(f, vs) && Packable(f.ltype)
    ensures CutField(f, vs) == vs
  {
  }

  lemma {:induction false} CutAllEncode(f: Field, vs: seq<Value>, cut: seq<Value>)
    requires |cut| == |vs| && forall j :: 0 <= j < |vs| ==>
               Typed(f.ltype, vs[j]) && Typed(f.ltype, cut[j]) && cut[j] == CutValue(f.ltype, vs[j])
    ensures EncodeTagged(f, cut) == EncodeTagged(f, vs)
    ensures WithinAll(f.ltype, cut) <==> WithinAll(f.ltype, vs)
    decreases f, |vs|
  {
    hide EncodeValue, Within, Typed, CutValue;
    if vs != [] {
      CutEncodes(f.ltype, vs[0]);
      CutAllEncode(f, vs[1..], cut[1..]);
    }
  }

  // ---------------------------------------------------------------- what comes out of the decoder

  /** Strings, at all depths, leave room for their terminating zero. */
  predicate Short(l: LType, v: Value)
    decreases l
  {
    && (l.String? && v.Blob? ==> |v.bytes| < l.size)
    && (l.Sub? && v.Msg? && |v.fields| == |l.desc.fields| ==> ShortMsg(l.desc, v.fields))
  }

  predicate ShortMsg(d: Desc, m: seq<seq<Value>>)
    requires |m| == |d.fields|
    decreases d
  {
    forall i :: 0 <= i < |m| ==> ShortField(d.fields[i], m[i])
  }

  predicate ShortField(f: Field, vs: seq<Value>)
    decreases f
  {
    forall j :: 0 <= j < |vs| ==> Short(f.ltype, vs[j])
  }

  lemma {:induction false} DefaultsShort(d: Desc)
    requires TaggedMsg(d)
    ensures ShortMsg(d, Defaults(d))
    decreases d, 1
  {
    forall i | 0 <= i < |d.fields| ensures ShortField(d.fields[i], Defaults(d)[i]) {
      DefaultShort(d.fields[i].ltype);
    }
  }

  lemma {:induction false} DefaultShort(l: LType)
    requires Tagged(l)
    ensures Short(l, DefaultValue(l))
    decreases l, 0
  {
    if l.Sub? {
      DefaultsShort(l.desc);
    }
  }

  lemma {:induction false} DecodedValueShort(l: LType, prior: Option<Value>, input: Slice)
    requires Tagged(l) && (prior.Some? ==> Short(l, prior.value))
    ensures var r := DecodeValue(l, prior, input); r.Some? ==> Short(l, r.value.0)
    decreases l, |input|, 0
  {
    if l.Sub? {
      var part := Delimited(input);
      if part.Some? {
        DefaultsShort(l.desc);
        var start := if prior.Some? && prior.value.Msg? && |prior.value.fields| == |l.desc.fields| then prior.value.fields
                     else Defaults(l.desc);
        DecodedFieldsShort(l.desc, part.value.0, start, {});
      }
    }
  }

  lemma {:induction false} DecodedFieldShort(f: Field, wt: nat, input: Slice, vs: seq<Value>)
    requires Tagged(f.ltype) && ShortField(f, vs)
    ensures var r := DecodeField(f, wt, input, vs); r.Some? ==> ShortField(f, r.value.0)
    decreases f, |input|, 0
  {
    hide DecodeValue, DecodePacked, Delimited, Tagged;
    if Packable(f.ltype) {
      forall v ensures Short(f.ltype, v) {
      }
    } else {
      DecodedValueShort(f.ltype, None, input);
      if vs != [] {
        DecodedValueShort(f.ltype, Some(vs[0]), input);
      }
    }
  }

  lemma {:induction false} DecodedFieldsShort(d: Desc, input: Slice, m: seq<seq<Value>>, seen: set<nat>)
    requires TaggedMsg(d) && |m| == |d.fields| && ShortMsg(d, m)
    ensures var r := DecodeFields(d, input, m, seen); r.Some? ==> ShortMsg(d, r.value.0)
    decreases d, |input|, 1
  {
    hide DecodeTag, Find, SkipField, DecodeField, ShortField;
    if input != [] {
      var key := DecodeTag(input);
      if key.Key? {
        var at := Find(d, key.tag, 0);
        if at.None? {
          var after := SkipField(key.wt, key.rest);
          if after.Some? {
            DecodedFieldsShort(d, after.value, m, seen);
          }
        } else {
          var i := at.value;
          DecodedFieldShort(d.fields[i], key.wt, key.rest, m[i]);
          var v := DecodeField(d.fields[i], key.wt, key.rest, m[i]);
          if v.Some? {
            DecodedFieldsShort(d, v.value.1, m[i := v.value.0], seen + {i});
          }
        }
      }
    }
  }

  // ---------------------------------------------------------------- the exact round trip

  lemma {:induction false} CutIsTerminated(l: LType, v: Value)
    requires Typed(l, v) && Short(l, v)
    ensures Terminated(l, CutValue(l, v))
    decreases l
  {
    match l
    case String(_) => CStringIs(v.bytes);
    case Sub(d) => CutMsgIsTerminated(d, v.fields);
    case _ =>
  }

  lemma {:induction false} CutMsgIsTerminated(d: Desc, m: seq<seq<Value>>)
    requires TypedMsg(d, m) && ShortMsg(d, m)
    ensures TerminatedMsg(d, CutMsg(d, m))
    decreases d
  {
    var c := CutMsg(d, m);
    forall i, j | 0 <= i < |c| && 0 <= j < |c[i]| ensures TerminatedAt(d.fields[i], c[i], j) {
      assert TypedField(d.fields[i], m[i]) && ShortField(d.fields[i], m[i]);
      assert c[i] == CutField(d.fields[i], m[i]) && c[i][j] == CutValue(d.fields[i].ltype, m[i][j]);
      CutIsTerminated(d.fields[i].ltype, m[i][j]);
    }
  }

  /** Exactly the messages whose strings have a terminating zero in their arrays, and none before it, come back. */
  lemma MessageRoundTripExact(d: Desc, m: seq<seq<Value>>)
    requires TypedMsg(d, m) && WithinMsg(d, m, 0) && TaggedMsg(d) && DistinctMsg(d)
    requires |EncodeMsg(d, m, 0)| < TWO_32
    ensures Decode(d, EncodeMsg(d, m, 0)) == Some(m) <==> TerminatedMsg(d, m)
  {
    hide DistinctMsg, TaggedMsg, EncodeMsg, WithinMsg, DecodeFields, TypedMsg, TerminatedMsg, CutMsg, ShortMsg;
    if TerminatedMsg(d, m) {
      MessageRoundTrip(d, m);
    } else if Decode(d, EncodeMsg(d, m, 0)) == Some(m) {
      DefaultsShort(d);
      DecodedFieldsShort(d, EncodeMsg(d, m, 0), Defaults(d), {});
      CutMsgIsTerminated(d, m);
      CutMsgEncodes(d, m, 0);
      MessageRoundTrip(d, CutMsg(d, m));
    }
  }

  /** A char array that is full is sent whole and refused by the decoder of the same array; any other is decoded. */
  lemma FullStringRefused(size: nat, bytes: Slice, prior: Option<Value>, more: Slice)
    requires |bytes| <= size < TWO_32
    ensures DecodeValue(String(size), prior, EncodeValue(String(size), Blob(bytes)) + more) == None <==> |CString(bytes)| == size
  {
    CStringIs(bytes);
    DelimitedRoundTrip(CString(bytes), more);
  }

  /** So a message of one such field comes back from its own encoding as an error. */
  lemma FullStringMessage(tag: nat, bytes: Slice)
    requires 0 < tag < 0x2000_0000 && bytes != [] && 0 !in bytes && |bytes| < TWO_32
    ensures var d, m := Desc([Field(tag, Required, String(|bytes|))]), [[Blob(bytes)]];
            TypedMsg(d, m) && WithinMsg(d, m, 0) && Decode(d, EncodeMsg(d, m, 0)) == None
  {
    hide Varint, DecodeValue, EncodeValue, DecodeTag;
    var f, v := Field(tag, Required, String(|bytes|)), Blob(bytes);
    var d, m := Desc([f]), [[v]];
    var value := EncodeValue(f.ltype, v);
    CStringIs(bytes);
    OneRequired(f, v);
    TagRoundTrip(WT_STRING, tag, value);
    FullStringRefused(|bytes|, bytes, Some(DefaultValue(f.ltype)), []);
    assert value + [] == value;
    assert Defaults(d)[0] == [DefaultValue(f.ltype)];
    assert DecodeField(f, WT_STRING, value, Defaults(d)[0]) == None;
    assert DecodeFields(d, Tag(WT_STRING, tag) + value, Defaults(d), {}) == None;
  }

  lemma OneRequired(f: Field, v: Value)
    requires f.htype.Required? && Typed(f.ltype, v)
    ensures TypedMsg(Desc([f]), [[v]])
    ensures EncodeMsg(Desc([f]), [[v]], 0) == Tag(WireType(f.ltype), f.tag) + EncodeValue(f.ltype, v)
    ensures WithinMsg(Desc([f]), [[v]], 0) <==> Within(f.ltype, v)
  {
    hide EncodeValue, Within, Typed, Tag;
    var d, m := Desc([f]), [[v]];
    assert [v][1..] == [];
    assert EncodeMsg(d, m, 1) == [] && WithinMsg(d, m, 1);
    assert EncodeTagged(f, [v][1..]) == [] && WithinAll(f.ltype, [v][1..]);
    assert WithinAll(f.ltype, m[0]) <==> Within(f.ltype, v);
    assert EncodeField(f, m[0]) == Tag(WireType(f.ltype), f.tag) + EncodeValue(f.ltype, v) + EncodeTagged(f, [v][1..]);
  }

  /** Encode into a buffer and decode again: a message that fits both comes back. */
  method EncodeAndDecode(d: Desc, m: seq<seq<Value>>, bufferSize: nat) returns (written: Option<Slice>, r: Option<seq<seq<Value>>>)
    requires TypedMsg(d, m) && TaggedMsg(d) && DistinctMsg(d) && |EncodeMsg(d, m, 0)| < TWO_32
    ensures written.Some? <==> WithinMsg(d, m, 0) && |EncodeMsg(d, m, 0)| <= bufferSize
    ensures written.Some? ==> (r == Some(m) <==> TerminatedMsg(d, m))
  {
    hide EncodeMsg, WithinMsg, TypedMsg, DistinctMsg, TaggedMsg, DecodeMsg, TerminatedMsg;
    var stream := new OStream(false, bufferSize);
    var ok := PutMessage(stream, d, m);
    written, r := None, None;
    if ok {
      written := Some(stream.buf);
      MessageRoundTripExact(d, m);
      assert [] + EncodeMsg(d, m, 0) == EncodeMsg(d, m, 0);
      r := DecodeNoinit(d, stream.buf, Defaults(d));
    }
  }
}
