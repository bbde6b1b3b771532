/** Messages between programs with different descriptors (pb_decode.c): fields that the receiver does not know are skipped,
    fields that the sender does not know get their defaults, arrays may come packed or not, and of two values of a field
    the last one counts. */
module PbEvolution {
  import opened InternalKeys
  import opened Coding
  import opened PbVarint
  import opened PbMessage
  import opened PbDecode

  // ---------------------------------------------------------------- unknown fields

  lemma MoreBytes(n: nat)
    requires n >= 0x80
    ensures Varint(n) == [Varint(n)[0]] + Varint(n / 0x80) && Varint(n)[0] >= 0x80
  {
  }

  lemma LastByte(n: nat)
    requires n < 0x80
    ensures |Varint(n)| == 1 && Varint(n)[0] < 0x80
  {
  }

  lemma {:induction false} SkipsVarint(n: nat, more: Slice)
    ensures SkipVarint(Varint(n) + more) == Some(more)
  {
    hide Varint;
    if n < 0x80 {
      LastByte(n);
      assert (Varint(n) + more)[1..] == more;
    } else {
      MoreBytes(n);
      SkipsVarint(n / 0x80, more);
      assert (Varint(n) + more)[1..] == Varint(n / 0x80) + more;
    }
  }

  /** The wire type of a value tells the decoder how far it reaches, whatever its type. */
  lemma SkipsValue(l: LType, v: Value, more: Slice)
    requires Typed(l, v) && |EncodeValue(l, v)| < TWO_32
    ensures SkipField(WireType(l), EncodeValue(l, v) + more) == Some(more)
  {
    hide Varint, SkipVarint, Delimited, EncodeMsg, CString;
    match l
    case Bool | UInt(_) => SkipsVarint(v.n, more);
    case Int(_) => SkipsVarint(Unsigned(v.n), more);
    case SInt(_) => SkipsVarint(ZigZag(v.n), more);
    case Fixed32 => assert (Coding.Fixed32(v.n) + more)[4..] == more;
    case Fixed64 => assert (Coding.Fixed64(v.n) + more)[8..] == more;
    case Bytes(_) | FixedBytes(_) => DelimitedRoundTrip(v.bytes, more);
    case String(_) => DelimitedRoundTrip(CString(v.bytes), more);
    case Sub(d) => DelimitedRoundTrip(EncodeMsg(d, v.fields, 0), more);
  }

  predicate Unknown(d: Desc, tag: nat) {
    forall i :: 0 <= i < |d.fields| ==> d.fields[i].tag != tag
  }

  lemma SkipsBody(d: Desc, wt: nat, tag: nat, body: Slice, more: Slice, m: seq<seq<Value>>, seen: set<nat>)
    requires |m| == |d.fields| && Unknown(d, tag) && wt < 8 && 0 < tag < 0x2000_0000
    requires SkipField(wt, body + more) == Some(more)
    ensures DecodeFields(d, Tag(wt, tag) + body + more, m, seen) == DecodeFields(d, more, m, seen)
  {
    hide Tag, DecodeTag, SkipField;
    TagRoundTrip(wt, tag, body + more);
    assert Tag(wt, tag) + body + more == Tag(wt, tag) + (body + more);
    assert Find(d, tag, 0) == None;
  }

  /** A value under a tag that the descriptor does not have is passed over, and nothing else changes. */
  lemma UnknownValue(d: Desc, tag: nat, l: LType, v: Value, more: Slice, m: seq<seq<Value>>, seen: set<nat>)
    requires |m| == |d.fields| && Unknown(d, tag) && 0 < tag < 0x2000_0000
    requires Typed(l, v) && |EncodeValue(l, v)| < TWO_32
    ensures DecodeFields(d, Tag(WireType(l), tag) + EncodeValue(l, v) + more, m, seen) == DecodeFields(d, more, m, seen)
  {
    hide EncodeValue, SkipField, DecodeFields, Tag;
    SkipsValue(l, v, more);
    SkipsBody(d, WireType(l), tag, EncodeValue(l, v), more, m, seen);
  }

  lemma UnknownPacked(d: Desc, tag: nat, body: Slice, more: Slice, m: seq<seq<Value>>, seen: set<nat>)
    requires |m| == |d.fields| && Unknown(d, tag) && 0 < tag < 0x2000_0000 && |body| < TWO_32
    ensures DecodeFields(d, Tag(WT_STRING, tag) + (Varint(|body|) + body) + more, m, seen) == DecodeFields(d, more, m, seen)
  {
    hide DecodeFields, Tag, Varint, Delimited;
    DelimitedRoundTrip(body, more);
    SkipsBody(d, WT_STRING, tag, Varint(|body|) + body, more, m, seen);
  }

  lemma {:induction false} UnknownTagged(d: Desc, f: Field, vs: seq<Value>, more: Slice, m: seq<seq<Value>>, seen: set<nat>)
    requires |m| == |d.fields| && Unknown(d, f.tag) && 0 < f.tag < 0x2000_0000
    requires (forall j :: 0 <= j < |vs| ==> Typed(f.ltype, vs[j])) && |EncodeTagged(f, vs)| < TWO_32
    ensures DecodeFields(d, EncodeTagged(f, vs) + more, m, seen) == DecodeFields(d, more, m, seen)
    decreases |vs|
  {
    hide DecodeFields, Tag, EncodeValue, Typed;
    if vs == [] {
      assert EncodeTagged(f, vs) + more == more;
    } else {
      var rest := EncodeTagged(f, vs[1..]) + more;
      UnknownTagged(d, f, vs[1..], more, m, seen);
      UnknownValue(d, f.tag, f.ltype, vs[0], rest, m, seen);
      assert EncodeTagged(f, vs) + more == Tag(WireType(f.ltype), f.tag) + EncodeValue(f.ltype, vs[0]) + rest;
    }
  }

  /** A field that the descriptor does not have, of any kind, packed or not, is passed over. */
  lemma UnknownField(d: Desc, f: Field, vs: seq<Value>, more: Slice, m: seq<seq<Value>>, seen: set<nat>)
    requires |m| == |d.fields| && Unknown(d, f.tag) && 0 < f.tag < 0x2000_0000
    requires TypedField(f, vs) && |EncodeField(f, vs)| < TWO_32
    ensures DecodeFields(d, EncodeField(f, vs) + more, m, seen) == DecodeFields(d, more, m, seen)
  {
    hide DecodeFields, Tag, EncodeValue, Typed, Varint, EncodeTagged, IsZero;
    if !Sent(f, vs) {
      assert EncodeField(f, vs) + more == more;
    } else if f.htype.Repeated? && Packable(f.ltype) {
      UnknownPacked(d, f.tag, EncodeAll(f.ltype, vs), more, m, seen);
    } else {
      UnknownTagged(d, f, vs, more, m, seen);
    }
  }

  /** A zero in place of a tag ends the message. */
  lemma ZeroEnds(d: Desc, more: Slice, m: seq<seq<Value>>, seen: set<nat>)
    requires |m| == |d.fields|
    ensures DecodeFields(d, [0] + more, m, seen) == Some((m, seen))
  {
    assert Decode32([0] + more) == Some((0, ([0] + more)[1..]));
  }

  /** An unknown field of a wire type that does not exist cannot be passed over. */
  lemma UnknownWireType(d: Desc, wt: nat, tag: nat, more: Slice, m: seq<seq<Value>>, seen: set<nat>)
    requires |m| == |d.fields| && Unknown(d, tag) && 0 < tag < 0x2000_0000 && wt in {3, 4, 6, 7}
    ensures DecodeFields(d, Tag(wt, tag) + more, m, seen) == None
  {
    hide Tag, DecodeTag;
    TagRoundTrip(wt, tag, more);
    assert Find(d, tag, 0) == None;
  }

  // ---------------------------------------------------------------- smaller and larger descriptors

  /** Field `j` of the smaller descriptor is field `at[j]` of the larger one. */
  predicate Embeds(small: Desc, large: Desc, at: seq<nat>) {
    && |at| == |small.fields|
    && (forall j :: 0 <= j < |at| ==> at[j] < |large.fields| && large.fields[at[j]] == small.fields[j])
    && (forall i, j :: 0 <= i < j < |at| ==> at[i] < at[j])
  }

  lemma EmbeddedDistinct(small: Desc, large: Desc, at: seq<nat>)
    requires Embeds(small, large, at) && DistinctMsg(large) && TaggedMsg(large)
    ensures DistinctMsg(small) && TaggedMsg(small)
    ensures forall k :: 0 <= k < |large.fields| && k !in at ==> Unknown(small, large.fields[k].tag)
  {
    forall k | 0 <= k < |large.fields| && k !in at ensures Unknown(small, large.fields[k].tag) {
      forall j | 0 <= j < |small.fields| ensures small.fields[j].tag != large.fields[k].tag {
        assert at[j] in at;
      }
    }
    forall i, j | 0 <= i < j < |small.fields| ensures small.fields[i].tag != small.fields[j].tag {
      assert at[i] < at[j];
    }
  }

  /** The fields of a larger message that the smaller descriptor has. */
  function Own(m: seq<seq<Value>>, at: seq<nat>): seq<seq<Value>>
    requires forall j :: 0 <= j < |at| ==> at[j] < |m|
  {
    seq(|at|, j requires 0 <= j < |at| => m[at[j]])
  }

  /** What the smaller side has decoded when the larger message is read up to field `i`. */
  ghost predicate ReadUpTo(small: Desc, at: seq<nat>, m: seq<seq<Value>>, i: nat, state: seq<seq<Value>>) {
    && |state| == |at| == |small.fields|
    && forall j :: 0 <= j < |at| ==> at[j] < |m| && state[j] == if at[j] < i then m[at[j]] else DefaultField(small.fields[j])
  }

  ghost function OwnSentFrom(small: Desc, at: seq<nat>, m: seq<seq<Value>>, i: nat): set<nat>
    requires |at| == |small.fields| && forall j :: 0 <= j < |at| ==> at[j] < |m| && TypedField(small.fields[j], m[at[j]])
  {
    set j | 0 <= j < |at| && at[j] >= i && Sent(small.fields[j], m[at[j]])
  }

  lemma OwnTyped(small: Desc, large: Desc, at: seq<nat>, m: seq<seq<Value>>)
    requires Embeds(small, large, at) && TypedMsg(large, m)
    ensures forall j :: 0 <= j < |at| ==> at[j] < |m| && TypedField(small.fields[j], m[at[j]])
  {
  }

  lemma {:induction false} ReadsOwnFields(small: Desc, large: Desc, at: seq<nat>, m: seq<seq<Value>>, i: nat,
                                         state: seq<seq<Value>>, seen: set<nat>)
    requires Embeds(small, large, at) && TypedMsg(large, m) && i <= |m| && WithinMsg(large, m, i) && TerminatedMsg(large, m)
    requires TaggedMsg(large) && DistinctMsg(large) && |EncodeMsg(large, m, i)| < TWO_32
    requires ReadUpTo(small, at, m, i, state)
    ensures forall j :: 0 <= j < |at| ==> at[j] < |m| && TypedField(small.fields[j], m[at[j]])
    ensures DecodeFields(small, EncodeMsg(large, m, i), state, seen) == Some((Own(m, at), seen + OwnSentFrom(small, at, m, i)))
    decreases |m| - i
  {
    hide DistinctMsg, TaggedMsg, EncodeField, WithinField, TypedField, DefaultField, DecodeField, TerminatedAt, Sent, Embeds;
    hide TypedMsg, TerminatedMsg, WithinMsg, OwnSentFrom, DecodeFields, ReadUpTo, EncodeMsg;
    OwnTyped(small, large, at, m);
    EmbeddedDistinct(small, large, at);
    SameCounts(small, large, at, m);
    if i == |m| {
      AllRead(small, large, at, m, state, seen);
    } else {
      var more := EncodeMsg(large, m, i + 1);
      FieldParts(large, m, i);
      if i in at {
        var j :| 0 <= j < |at| && at[j] == i;
        EmbeddedAt(small, large, at, j);
        OwnStep(small, at, m, i, j, state, seen);
        FieldRoundTrip(small, j, m[i], more, state, seen);
        ReadsOwnFields(small, large, at, m, i + 1, state[j := m[i]], if Sent(small.fields[j], m[i]) then seen + {j} else seen);
      } else {
        OtherStep(small, at, m, i, state);
        UnknownField(small, large.fields[i], m[i], more, state, seen);
        ReadsOwnFields(small, large, at, m, i + 1, state, seen);
      }
    }
  }

  lemma SameCounts(small: Desc, large: Desc, at: seq<nat>, m: seq<seq<Value>>)
    requires Embeds(small, large, at) && TypedMsg(large, m)
    ensures |at| == |small.fields| && |m| == |large.fields|
  {
  }

  lemma AllRead(small: Desc, large: Desc, at: seq<nat>, m: seq<seq<Value>>, state: seq<seq<Value>>, seen: set<nat>)
    requires Embeds(small, large, at) && TypedMsg(large, m) && ReadUpTo(small, at, m, |m|, state)
    requires forall j :: 0 <= j < |at| ==> at[j] < |m| && TypedField(small.fields[j], m[at[j]])
    ensures |state| == |small.fields|
    ensures DecodeFields(small, EncodeMsg(large, m, |m|), state, seen) == Some((Own(m, at), seen + OwnSentFrom(small, at, m, |m|)))
  {
    assert state == Own(m, at);
    assert seen + OwnSentFrom(small, at, m, |m|) == seen;
  }

  lemma OwnStep(small: Desc, at: seq<nat>, m: seq<seq<Value>>, i: nat, j: nat, state: seq<seq<Value>>, seen: set<nat>)
    requires ReadUpTo(small, at, m, i, state) && j < |at| && at[j] == i && forall k :: 0 <= k < |at| && k != j ==> at[k] != at[j]
    requires |at| == |small.fields| && forall k :: 0 <= k < |at| ==> at[k] < |m| && TypedField(small.fields[k], m[at[k]])
    ensures |state| == |small.fields| && state[j] == DefaultField(small.fields[j]) && ReadUpTo(small, at, m, i + 1, state[j := m[i]])
    ensures (if Sent(small.fields[j], m[i]) then seen + {j} else seen) + OwnSentFrom(small, at, m, i + 1) ==
            seen + OwnSentFrom(small, at, m, i)
  {
    hide Sent, DefaultField, TypedField;
  }

  lemma OtherStep(small: Desc, at: seq<nat>, m: seq<seq<Value>>, i: nat, state: seq<seq<Value>>)
    requires ReadUpTo(small, at, m, i, state) && i !in at
    requires |at| == |small.fields| && forall k :: 0 <= k < |at| ==> at[k] < |m| && TypedField(small.fields[k], m[at[k]])
    ensures |state| == |small.fields| && ReadUpTo(small, at, m, i + 1, state)
    ensures OwnSentFrom(small, at, m, i + 1) == OwnSentFrom(small, at, m, i)
  {
    hide Sent, DefaultField, TypedField;
    assert forall k :: 0 <= k < |at| ==> at[k] in at;
  }

  lemma EmbeddedAt(small: Desc, large: Desc, at: seq<nat>, j: nat)
    requires Embeds(small, large, at) && j < |at|
    ensures small.fields[j] == large.fields[at[j]] && forall k :: 0 <= k < |at| && k != j ==> at[k] != at[j]
  {
  }

  lemma FieldParts(d: Desc, m: seq<seq<Value>>, i: nat)
    requires TypedMsg(d, m) && i < |m| && WithinMsg(d, m, i) && TerminatedMsg(d, m) && TaggedMsg(d)
    requires |EncodeMsg(d, m, i)| < TWO_32
    ensures TypedField(d.fields[i], m[i]) && WithinField(d.fields[i], m[i]) && WithinMsg(d, m, i + 1)
    ensures forall j :: 0 <= j < |m[i]| ==> TerminatedAt(d.fields[i], m[i], j)
    ensures 0 < d.fields[i].tag < 0x2000_0000
    ensures EncodeMsg(d, m, i) == EncodeField(d.fields[i], m[i]) + EncodeMsg(d, m, i + 1)
    ensures |EncodeField(d.fields[i], m[i])| < TWO_32 && |EncodeMsg(d, m, i + 1)| < TWO_32
  {
    hide EncodeField, WithinField, TerminatedAt;
  }

  /** A receiver with fewer fields decodes its own ones from the sender's message, in full. */
  lemma OlderReceiver(small: Desc, large: Desc, at: seq<nat>, m: seq<seq<Value>>)
    requires Embeds(small, large, at) && TypedMsg(large, m) && WithinMsg(large, m, 0) && TerminatedMsg(large, m)
    requires TaggedMsg(large) && DistinctMsg(large) && |EncodeMsg(large, m, 0)| < TWO_32
    ensures forall j :: 0 <= j < |at| ==> at[j] < |m|
    ensures Decode(small, EncodeMsg(large, m, 0)) == Some(Own(m, at))
  {
    hide DistinctMsg, TaggedMsg, EncodeMsg, WithinMsg, DecodeFields, Typed, TerminatedMsg;
    ReadsOwnFields(small, large, at, m, 0, Defaults(small), {});
    forall j | 0 <= j < |at| && small.fields[j].htype.Required? ensures j in OwnSentFrom(small, at, m, 0) {
      assert TypedField(small.fields[j], m[at[j]]);
    }
  }

  /** What the larger side has when the first `i` fields of the smaller message are read: the other fields have defaults. */
  ghost predicate SpreadUpTo(large: Desc, at: seq<nat>, m: seq<seq<Value>>, i: nat, state: seq<seq<Value>>)
    requires |m| == |at|
  {
    && |state| == |large.fields|
    && (forall j :: 0 <= j < |at| ==> at[j] < |state| && state[at[j]] == if j < i then m[j] else DefaultField(large.fields[at[j]]))
    && (forall k :: 0 <= k < |state| && k !in at ==> state[k] == DefaultField(large.fields[k]))
  }

  ghost function SentAt(small: Desc, at: seq<nat>, m: seq<seq<Value>>, i: nat): set<nat>
    requires TypedMsg(small, m) && |at| == |small.fields|
  {
    set j | i <= j < |at| && Sent(small.fields[j], m[j]) :: at[j]
  }

  lemma SpreadStep(small: Desc, large: Desc, at: seq<nat>, m: seq<seq<Value>>, i: nat, state: seq<seq<Value>>, seen: set<nat>)
    requires Embeds(small, large, at) && TypedMsg(small, m) && i < |at| && SpreadUpTo(large, at, m, i, state)
    ensures state[at[i]] == DefaultField(large.fields[at[i]]) && SpreadUpTo(large, at, m, i + 1, state[at[i] := m[i]])
    ensures (if Sent(small.fields[i], m[i]) then seen + {at[i]} else seen) + SentAt(small, at, m, i + 1) == seen + SentAt(small, at, m, i)
  {
    hide Sent, DefaultField, TypedField;
    assert at[i] in at;
  }

  lemma {:induction false} SpreadsFields(small: Desc, large: Desc, at: seq<nat>, m: seq<seq<Value>>, i: nat,
                                         state: seq<seq<Value>>, seen: set<nat>) returns (final: seq<seq<Value>>)
    requires Embeds(small, large, at) && TypedMsg(small, m) && i <= |m| && WithinMsg(small, m, i) && TerminatedMsg(small, m)
    requires TaggedMsg(large) && DistinctMsg(large) && |EncodeMsg(small, m, i)| < TWO_32
    requires |m| == |at| && SpreadUpTo(large, at, m, i, state)
    ensures SpreadUpTo(large, at, m, |at|, final)
    ensures DecodeFields(large, EncodeMsg(small, m, i), state, seen) == Some((final, seen + SentAt(small, at, m, i)))
    decreases |m| - i
  {
    hide DistinctMsg, TaggedMsg, EncodeField, WithinField, TypedField, DefaultField, DecodeField, TerminatedAt, Sent;
    hide TypedMsg, TerminatedMsg, WithinMsg, SentAt, DecodeFields, SpreadUpTo, EncodeMsg;
    EmbeddedDistinct(small, large, at);
    if i == |m| {
      final := state;
      NothingMore(small, large, at, m, state, seen);
    } else {
      FieldParts(small, m, i);
      SpreadStep(small, large, at, m, i, state, seen);
      SpreadSize(large, at, m, i, state);
      FieldRoundTrip(large, at[i], m[i], EncodeMsg(small, m, i + 1), state, seen);
      final := SpreadsFields(small, large, at, m, i + 1, state[at[i] := m[i]], if Sent(small.fields[i], m[i]) then seen + {at[i]} else seen);
    }
  }

  lemma SpreadSize(large: Desc, at: seq<nat>, m: seq<seq<Value>>, i: nat, state: seq<seq<Value>>)
    requires |m| == |at| && SpreadUpTo(large, at, m, i, state)
    ensures |state| == |large.fields|
  {
  }

  lemma NothingMore(small: Desc, large: Desc, at: seq<nat>, m: seq<seq<Value>>, state: seq<seq<Value>>, seen: set<nat>)
    requires Embeds(small, large, at) && TypedMsg(small, m) && |m| == |at| && SpreadUpTo(large, at, m, |at|, state)
    ensures |state| == |large.fields|
    ensures DecodeFields(large, EncodeMsg(small, m, |m|), state, seen) == Some((state, seen + SentAt(small, at, m, |m|)))
  {
    assert seen + SentAt(small, at, m, |m|) == seen;
  }

  /** None of the fields that only the larger descriptor has is required, as far as the decoder counts required fields. */
  predicate NothingElseRequired(large: Desc, at: seq<nat>) {
    forall k :: 0 <= k < |large.fields| && k !in at && large.fields[k].htype.Required? ==> RequiredBefore(large, k) >= MAX_REQUIRED
  }

  /** A receiver with more fields decodes the sender's fields, with defaults for its other ones, exactly when none of those
      is among its first 64 required fields; otherwise it refuses the message. */
  lemma NewerReceiver(small: Desc, large: Desc, at: seq<nat>, m: seq<seq<Value>>)
    requires Embeds(small, large, at) && TypedMsg(small, m) && WithinMsg(small, m, 0) && TerminatedMsg(small, m)
    requires TaggedMsg(large) && DistinctMsg(large) && |EncodeMsg(small, m, 0)| < TWO_32
    ensures |m| == |at|
    ensures var r := Decode(large, EncodeMsg(small, m, 0));
            && (r.Some? <==> NothingElseRequired(large, at))
            && (r.Some? ==> SpreadUpTo(large, at, m, |at|, r.value))
  {
    hide DistinctMsg, TaggedMsg, EncodeMsg, WithinMsg, DecodeFields, TerminatedMsg;
    NothingSpread(small, large, at, m);
    var final := SpreadsFields(small, large, at, m, 0, Defaults(large), {});
    SeenExactly(small, large, at, m);
    assert {} + SentAt(small, at, m, 0) == SentAt(small, at, m, 0);
  }

  lemma NothingSpread(small: Desc, large: Desc, at: seq<nat>, m: seq<seq<Value>>)
    requires Embeds(small, large, at) && TypedMsg(small, m)
    ensures |m| == |at| && SpreadUpTo(large, at, m, 0, Defaults(large))
  {
  }

  lemma SeenExactly(small: Desc, large: Desc, at: seq<nat>, m: seq<seq<Value>>)
    requires Embeds(small, large, at) && TypedMsg(small, m)
    ensures AllSeen(large, SentAt(small, at, m, 0)) <==> NothingElseRequired(large, at)
  {
    hide RequiredBefore;
    var seen := SentAt(small, at, m, 0);
    forall k | k in seen ensures k in at {
    }
    forall k | 0 <= k < |large.fields| && k in at && large.fields[k].htype.Required? ensures k in seen {
      var j :| 0 <= j < |at| && at[j] == k;
      assert TypedField(small.fields[j], m[j]);
    }
  }

  // ---------------------------------------------------------------- messages that are cut off

  predicate NoEnd(b: Slice) {
    forall i :: 0 <= i < |b| ==> b[i] >= 0x80
  }

  lemma {:induction false} CutVarint(n: nat, k: nat)
    requires k < |Varint(n)|
    ensures NoEnd(Varint(n)[..k])
  {
    hide Varint;
    if n < 0x80 {
      LastByte(n);
    } else if k > 0 {
      MoreBytes(n);
      CutVarint(n / 0x80, k - 1);
      assert Varint(n)[..k] == [Varint(n)[0]] + Varint(n / 0x80)[..k - 1];
    }
  }

  lemma {:induction false} NoNumber(b: Slice, groups: nat)
    requires NoEnd(b)
    ensures DecodeVarint(b, groups) == None && SkipVarint(b) == None
  {
    if b != [] && groups > 0 {
      NoNumber(b[1..], groups - 1);
    } else if b != [] {
      NoNumber(b[1..], 0);
    }
  }

  lemma {:induction false} NoNumber32From(b: Slice, shift: nat, result: nat)
    requires NoEnd(b) && result < TWO_32
    ensures Decode32From(b, shift, result) == None
    decreases |b|
  {
    hide Merge;
    if b != [] {
      var low := b[0] as nat % 0x80;
      NoNumber32From(b[1..], (shift + 7) % 0x100, if shift >= 32 then result else Merge(result, low, shift));
    }
  }

  lemma NoNumber32(b: Slice)
    requires NoEnd(b)
    ensures Decode32(b) == None
  {
    hide Decode32From;
    if b != [] {
      NoNumber32From(b[1..], 7, b[0] as nat - 0x80);
    }
  }

  lemma CutDelimited(bytes: Slice, k: nat)
    requires |bytes| < TWO_32 && k < |Varint(|bytes|) + bytes|
    ensures Delimited((Varint(|bytes|) + bytes)[..k]) == None
  {
    hide Decode32, Varint;
    var length := Varint(|bytes|);
    if k < |length| {
      CutVarint(|bytes|, k);
      assert (length + bytes)[..k] == length[..k];
      NoNumber32(length[..k]);
    } else {
      assert (length + bytes)[..k] == length + bytes[..k - |length|];
      Decode32RoundTrip(|bytes|, bytes[..k - |length|]);
    }
  }

  /** Of a value that is cut off nothing is decoded, and it is not passed over either. */
  lemma CutValue(l: LType, v: Value, prior: Option<Value>, k: nat)
    requires Typed(l, v) && |EncodeValue(l, v)| < TWO_32 && k < |EncodeValue(l, v)|
    ensures DecodeValue(l, prior, EncodeValue(l, v)[..k]) == None
    ensures SkipField(WireType(l), EncodeValue(l, v)[..k]) == None
  {
    hide Varint, Decode32, DecodeVarint, SkipVarint, Delimited, EncodeMsg, CString, DecodeMsg;
    match l
    case Bool | UInt(_) => CutNumber(v.n, k);
    case Int(_) => CutNumber(Unsigned(v.n), k);
    case SInt(_) => CutNumber(ZigZag(v.n), k);
    case Bytes(_) | FixedBytes(_) => CutDelimited(v.bytes, k);
    case String(_) => CutDelimited(CString(v.bytes), k);
    case Sub(d) => CutDelimited(EncodeMsg(d, v.fields, 0), k);
    case _ =>
  }

  lemma CutNumber(n: nat, k: nat)
    requires k < |Varint(n)|
    ensures GetVarint64(Varint(n)[..k]) == None && Decode32(Varint(n)[..k]) == None && SkipVarint(Varint(n)[..k]) == None
  {
    hide Varint, DecodeVarint, Decode32, SkipVarint;
    CutVarint(n, k);
    NoNumber(Varint(n)[..k], 10);
    NoNumber32(Varint(n)[..k]);
  }

  /** A message that ends within a field, its key or its value, is refused, whether the field is known or not. */
  lemma CutField(d: Desc, tag: nat, l: LType, v: Value, k: nat, m: seq<seq<Value>>, seen: set<nat>)
    requires |m| == |d.fields| && 0 < tag < 0x2000_0000 && Typed(l, v) && |EncodeValue(l, v)| < TWO_32
    requires forall i :: 0 <= i < |d.fields| && d.fields[i].tag == tag ==> d.fields[i].ltype == l
    requires 0 < k < |Tag(WireType(l), tag) + EncodeValue(l, v)|
    ensures DecodeFields(d, (Tag(WireType(l), tag) + EncodeValue(l, v))[..k], m, seen) == None
  {
    hide EncodeValue, DecodeValue, SkipField, Typed, Varint, Decode32;
    var key, bytes := Tag(WireType(l), tag), EncodeValue(l, v);
    if k < |key| {
      CutNumber(8 * tag + WireType(l), k);
      assert (key + bytes)[..k] == key[..k];
    } else {
      var cut := bytes[..k - |key|];
      assert (key + bytes)[..k] == key + cut;
      TagRoundTrip(WireType(l), tag, cut);
      var i := Find(d, tag, 0);
      var prior := if i.Some? && m[i.value] != [] then Some(m[i.value][0]) else None;
      CutValue(l, v, prior, k - |key|);
      CutValue(l, v, None, k - |key|);
      NumbersUnpacked(l);
    }
  }

  lemma NumbersUnpacked(l: LType)
    ensures Packable(l) ==> WireType(l) != WT_STRING
  {
  }

  // ---------------------------------------------------------------- arrays and repeated values

  /** An array is decoded alike whether its values come packed or one by one. */
  lemma PackedOrNot(d: Desc, i: nat, vs: seq<Value>, more: Slice, m: seq<seq<Value>>, seen: set<nat>)
    requires |m| == |d.fields| && i < |d.fields| && DistinctMsg(d) && TaggedMsg(d) && vs != []
    requires var f := d.fields[i];
             && f.htype.Repeated? && Packable(f.ltype) && (forall j :: 0 <= j < |vs| ==> Typed(f.ltype, vs[j]))
             && |m[i]| + |vs| <= f.htype.size && |EncodeTagged(f, vs)| < TWO_32 && |EncodeAll(f.ltype, vs)| < TWO_32
    ensures var f, body := d.fields[i], EncodeAll(d.fields[i].ltype, vs);
            && DecodeFields(d, EncodeTagged(f, vs) + more, m, seen) == DecodeFields(d, more, m[i := m[i] + vs], seen + {i})
            && DecodeFields(d, Tag(WT_STRING, f.tag) + (Varint(|body|) + body) + more, m, seen) ==
               DecodeFields(d, more, m[i := m[i] + vs], seen + {i})
  {
    hide DecodeFields, Tag, EncodeValue, Typed, Varint, EncodeTagged, EncodeAll, Delimited, DistinctMsg, TaggedMsg;
    var f, body := d.fields[i], EncodeAll(d.fields[i].ltype, vs);
    NestedDistinct(d, i);
    NumbersAreWithin(f.ltype, vs);
    TaggedRoundTrip(d, i, vs, more, m, seen);
    PackedRoundTrip(f.ltype, f.htype.size, vs, m[i]);
    DelimitedRoundTrip(body, more);
    OneField(d, i, WT_STRING, Varint(|body|) + body, more, m, seen, m[i] + vs);
  }

  lemma {:induction false} NumbersAreWithin(l: LType, vs: seq<Value>)
    requires Packable(l) && forall j :: 0 <= j < |vs| ==> Typed(l, vs[j])
    ensures WithinAll(l, vs) && forall j :: 0 <= j < |vs| ==> Terminated(l, vs[j])
  {
    if vs != [] {
      NumbersAreWithin(l, vs[1..]);
    }
  }

  /** An array that is full takes no more values: the message is refused. */
  lemma FullArrayRefuses(d: Desc, i: nat, v: Value, more: Slice, m: seq<seq<Value>>, seen: set<nat>)
    requires |m| == |d.fields| && i < |d.fields| && DistinctMsg(d) && TaggedMsg(d)
    requires d.fields[i].htype.Repeated? && Typed(d.fields[i].ltype, v) && |m[i]| >= d.fields[i].htype.size
    ensures DecodeFields(d, Tag(WireType(d.fields[i].ltype), d.fields[i].tag) + EncodeValue(d.fields[i].ltype, v) + more, m, seen) == None
  {
    hide Tag, EncodeValue, DecodeTag, Typed, DecodeValue, DistinctMsg, TaggedMsg;
    var f := d.fields[i];
    var rest := EncodeValue(f.ltype, v) + more;
    NestedDistinct(d, i);
    TagRoundTrip(WireType(f.ltype), f.tag, rest);
    FindField(d, i, 0);
    assert Tag(WireType(f.ltype), f.tag) + EncodeValue(f.ltype, v) + more == Tag(WireType(f.ltype), f.tag) + rest;
  }

  /** Of two values for a field that holds one, the last one counts, whatever was there. */
  lemma LastOneCounts(d: Desc, i: nat, v: Value, more: Slice, m: seq<seq<Value>>, seen: set<nat>)
    requires |m| == |d.fields| && i < |d.fields| && DistinctMsg(d) && TaggedMsg(d)
    requires var f := d.fields[i];
             && !f.htype.Repeated? && !f.ltype.Sub? && Typed(f.ltype, v) && Within(f.ltype, v) && Terminated(f.ltype, v)
             && |EncodeValue(f.ltype, v)| < TWO_32
    ensures DecodeFields(d, Tag(WireType(d.fields[i].ltype), d.fields[i].tag) + EncodeValue(d.fields[i].ltype, v) + more, m, seen) ==
            DecodeFields(d, more, m[i := [v]], seen + {i})
  {
    hide DecodeFields, Tag, EncodeValue, Typed, Within, Terminated, DecodeValue, DistinctMsg, TaggedMsg;
    var f := d.fields[i];
    NestedDistinct(d, i);
    ValueRoundTrip(f.ltype, v, if m[i] != [] then Some(m[i][0]) else None, more);
    OneField(d, i, WireType(f.ltype), EncodeValue(f.ltype, v), more, m, seen, [v]);
  }

  // ---------------------------------------------------------------- what is refused

  /** Any number that can be sent, for any field of integers: it is decoded exactly if it is in the field's range. A signed
      field of up to 32 bits takes the number by its lowest 32 bits. */
  lemma RangeChecked(w: Width, v: uint64, prior: Option<Value>, more: Slice)
    ensures DecodeValue(UInt(w), prior, Varint(v) + more) == if FitsUnsigned(w, v) then Some((Num(v), more)) else None
    ensures DecodeValue(SInt(w), prior, Varint(v) + more) ==
            if FitsSigned(w, UnZigZag(v)) then Some((Num(UnZigZag(v)), more)) else None
    ensures forall n: int :: DecodeValue(Int(w), prior, Varint(v) + more) == Some((Num(n), more)) <==>
              FitsSigned(w, n) && if w.W64? then Unsigned(n) == v else n % TWO_32 == v % TWO_32
  {
    hide Varint, GetVarint64;
    Varint64RoundTrip(v, more);
    if w.W64? {
    } else {
      HalvesFit(w);
    }
  }

  lemma HalvesFit(w: Width)
    requires !w.W64?
    ensures forall n: int :: FitsSigned(w, n) ==> -0x8000_0000 <= n < 0x8000_0000
  {
  }

  /** Every number but zero is true. */
  lemma AnyNumberIsTrue(v: uint32, prior: Option<Value>, more: Slice)
    ensures DecodeValue(Bool, prior, Varint(v) + more) == Some((Num(if v == 0 then 0 else 1), more))
  {
    hide Varint, Decode32;
    Decode32RoundTrip(v, more);
  }

  /** A byte string is decoded exactly if it is no longer than its array, or just as long where the size is fixed; there an
      empty one stands for zeros. */
  lemma SizesChecked(size: nat, bytes: Slice, prior: Option<Value>, more: Slice)
    requires |bytes| < TWO_32
    ensures DecodeValue(Bytes(size), prior, Varint(|bytes|) + bytes + more) == if |bytes| <= size then Some((Blob(bytes), more)) else None
    ensures DecodeValue(FixedBytes(size), prior, Varint(|bytes|) + bytes + more) ==
            if bytes == [] then Some((Blob(Zeros(size)), more)) else if |bytes| == size then Some((Blob(bytes), more)) else None
  {
    hide Varint, Delimited;
    DelimitedRoundTrip(bytes, more);
  }
}
