/** Write batches as bytes (db/write_batch.cc): a header of sequence number and count, then the updates one by one. */
module WriteBatch {
  import opened InternalKeys
  import opened Coding

  const HEADER: nat := 12

  datatype Update = Put(key: Slice, value: Slice) | Delete(key: Slice)

  predicate Fits(u: Update) {
    |u.key| < TWO_32 && (u.Put? ==> |u.value| < TWO_32)
  }

  predicate AllFit(us: seq<Update>) {
    forall i :: 0 <= i < |us| ==> Fits(us[i])
  }

  function Encode(u: Update): (b: Slice)
    requires Fits(u)
  {
    match u
    case Put(key, value) => [1] + LengthPrefixed(key) + LengthPrefixed(value)
    case Delete(key) => [0] + LengthPrefixed(key)
  }

  function EncodeAll(us: seq<Update>): Slice
    requires AllFit(us)
  {
    if us == [] then [] else Encode(us[0]) + EncodeAll(us[1..])
  }

  /** The contents of a batch. */
  function Contents(seqno: uint64, us: seq<Update>): (b: Slice)
    requires AllFit(us) && |us| < TWO_32
    ensures |b| >= HEADER
  {
    Fixed64(seqno) + Fixed32(|us|) + EncodeAll(us)
  }

  function Sequence(rep: Slice): uint64
    requires |rep| >= HEADER
  {
    DecodeFixed64(rep)
  }

  function Count(rep: Slice): uint32
    requires |rep| >= HEADER
  {
    DecodeFixed32(rep[8..])
  }

  /** Byte by byte: the sequence number, the count, a put and a deletion. */
  lemma BatchExample()
    ensures Contents(0x0102, [Put([10], [20, 30]), Delete([40])]) ==
            [2, 1, 0, 0, 0, 0, 0, 0] + [2, 0, 0, 0] + [1, 1, 10, 2, 20, 30] + [0, 1, 40]
  {
    var us := [Put([10], [20, 30]), Delete([40])];
    assert EncodeAll(us) == Encode(us[0]) + EncodeAll(us[1..]);
    assert Encode(us[0]) == [1, 1, 10, 2, 20, 30] && EncodeAll(us[1..]) == [0, 1, 40];
  }

  /** One update at the front of the input, and what follows it; None for an unknown tag or a string that runs over. */
  function DecodeOne(input: Slice): (r: Option<(Update, Slice)>)
    requires input != []
    ensures r.Some? ==> |r.value.1| < |input|
  {
    if input[0] == 1 then
      match GetLengthPrefixed(input[1..])
      case None => None
      case Some((key, rest)) =>
        match GetLengthPrefixed(rest)
        case None => None
        case Some((value, after)) => Some((Put(key, value), after))
    else if input[0] == 0 then
      match GetLengthPrefixed(input[1..])
      case None => None
      case Some((key, rest)) => Some((Delete(key), rest))
    else None
  }

  /** The updates handed to the handler, and whether the input was well-formed to its end. */
  function DecodeAll(input: Slice): (seq<Update>, bool)
    decreases |input|
  {
    if input == [] then ([], true)
    else
      match DecodeOne(input)
      case None => ([], false)
      case Some((u, rest)) =>
        var more := DecodeAll(rest);
        ([u] + more.0, more.1)
  }

  lemma EncodeOneRoundTrip(u: Update, rest: Slice)
    requires Fits(u)
    ensures Encode(u) + rest != [] && DecodeOne(Encode(u) + rest) == Some((u, rest))
  {
    hide LengthPrefixed, GetLengthPrefixed;
    match u
    case Put(key, value) =>
      var behind := LengthPrefixed(value) + rest;
      LengthPrefixedRoundTrip(key, behind);
      LengthPrefixedRoundTrip(value, rest);
      assert Encode(u) + rest == [1] + (LengthPrefixed(key) + behind);
      assert ([1] + (LengthPrefixed(key) + behind))[1..] == LengthPrefixed(key) + behind;
    case Delete(key) =>
      LengthPrefixedRoundTrip(key, rest);
      assert Encode(u) + rest == [0] + (LengthPrefixed(key) + rest);
      assert ([0] + (LengthPrefixed(key) + rest))[1..] == LengthPrefixed(key) + rest;
  }

  lemma {:induction false} UpdatesRoundTrip(us: seq<Update>)
    requires AllFit(us)
    ensures DecodeAll(EncodeAll(us)) == (us, true)
  {
    hide Encode, DecodeOne;
    if us != [] {
      EncodeOneRoundTrip(us[0], EncodeAll(us[1..]));
      UpdatesRoundTrip(us[1..]);
      assert [us[0]] + us[1..] == us;
    }
  }

  lemma {:induction false} EncodeAllAppend(a: seq<Update>, b: seq<Update>)
    requires AllFit(a) && AllFit(b)
    ensures AllFit(a + b) && EncodeAll(a + b) == EncodeAll(a) + EncodeAll(b)
  {
    hide Encode;
    if a == [] {
      assert a + b == b;
    } else {
      EncodeAllAppend(a[1..], b);
      assert (a + b)[1..] == a[1..] + b;
    }
  }

  lemma HeaderRoundTrip(seqno: uint64, us: seq<Update>)
    requires AllFit(us) && |us| < TWO_32
    ensures var rep := Contents(seqno, us);
            Sequence(rep) == seqno && Count(rep) == |us| && rep[HEADER..] == EncodeAll(us)
  {
    hide Fixed32, Fixed64, DecodeFixed32, DecodeFixed64, EncodeAll;
    var number, count, body := Fixed64(seqno), Fixed32(|us|), EncodeAll(us);
    HeaderParts(number, count, body);
    Fixed64RoundTrip(seqno, count + body);
    Fixed32RoundTrip(|us|, body);
  }

  lemma HeaderParts(number: Slice, count: Slice, body: Slice)
    requires |number| == 8 && |count| == 4
    ensures var rep := number + count + body;
            rep == number + (count + body) && rep[8..] == count + body && rep[HEADER..] == body
  {
  }

  /** A batch reads back as what was put into it. */
  lemma ContentsRoundTrip(seqno: uint64, us: seq<Update>)
    requires AllFit(us) && |us| < TWO_32
    ensures var rep := Contents(seqno, us);
            Sequence(rep) == seqno && Count(rep) == |us| && DecodeAll(rep[HEADER..]) == (us, true)
  {
    hide Contents, DecodeAll, EncodeAll;
    HeaderRoundTrip(seqno, us);
    UpdatesRoundTrip(us);
  }

  class WriteBatch {
    var rep: Slice
    /** What the batch holds. */
    ghost var seqno: uint64
    ghost var updates: seq<Update>

    ghost predicate Valid()
      reads this
    {
      AllFit(updates) && |updates| < TWO_32 && rep == Contents(seqno, updates)
    }

    constructor ()
      ensures Valid() && updates == [] && seqno == 0
    {
      rep := seq(HEADER, _ => 0);
      seqno, updates := 0, [];
      new;
      assert rep == Contents(0, []);
    }

    method SetCount(n: uint32)
      requires |rep| >= HEADER
      modifies this`rep
      ensures rep == old(rep[..8]) + Fixed32(n) + old(rep[HEADER..])
    {
      rep := rep[..8] + Fixed32(n) + rep[HEADER..];
    }

    method SetSequence(s: uint64)
      requires Valid()
      modifies this
      ensures Valid() && updates == old(updates) && seqno == s
    {
      hide Fixed32, Fixed64, EncodeAll;
      rep := Fixed64(s) + rep[8..];
      seqno := s;
      assert rep == Contents(s, updates);
    }

    method Put(key: Slice, value: Slice)
      requires Valid() && |updates| + 1 < TWO_32 && Fits(Update.Put(key, value))
      modifies this
      ensures Valid() && updates == old(updates) + [Update.Put(key, value)] && seqno == old(seqno)
    {
      hide Fixed32, Fixed64, DecodeFixed32, DecodeFixed64, EncodeAll, LengthPrefixed;
      HeaderRoundTrip(seqno, updates);
      SetCount(Count(rep) + 1);
      rep := rep + [1];
      rep := rep + LengthPrefixed(key);
      rep := rep + LengthPrefixed(value);
      updates := updates + [Update.Put(key, value)];
      PutOne(old(seqno), old(updates), Update.Put(key, value));
      assert rep == Contents(seqno, updates);
    }

    method Delete(key: Slice)
      requires Valid() && |updates| + 1 < TWO_32 && Fits(Update.Delete(key))
      modifies this
      ensures Valid() && updates == old(updates) + [Update.Delete(key)] && seqno == old(seqno)
    {
      hide Fixed32, Fixed64, DecodeFixed32, DecodeFixed64, EncodeAll, LengthPrefixed;
      HeaderRoundTrip(seqno, updates);
      SetCount(Count(rep) + 1);
      rep := rep + [0];
      rep := rep + LengthPrefixed(key);
      updates := updates + [Update.Delete(key)];
      PutOne(old(seqno), old(updates), Update.Delete(key));
      assert rep == Contents(seqno, updates);
    }

    /** Append the updates of another batch; the sequence number stays. */
    method Append(source: WriteBatch)
      requires Valid() && source.Valid() && source != this
      requires |updates| + |source.updates| < TWO_32
      modifies this
      ensures Valid() && updates == old(updates) + source.updates && seqno == old(seqno)
    {
      hide Fixed32, Fixed64, DecodeFixed32, DecodeFixed64, EncodeAll, LengthPrefixed;
      HeaderRoundTrip(seqno, updates);
      HeaderRoundTrip(source.seqno, source.updates);
      SetCount(Count(rep) + Count(source.rep));
      rep := rep + source.rep[HEADER..];
      EncodeAllAppend(updates, source.updates);
      updates := updates + source.updates;
      assert rep == Contents(seqno, updates);
    }

  }

  lemma PutOne(seqno: uint64, us: seq<Update>, u: Update)
    requires AllFit(us) && Fits(u) && |us| + 1 < TWO_32
    ensures EncodeAll(us + [u]) == EncodeAll(us) + Encode(u)
  {
    hide Encode;
    EncodeAllAppend(us, [u]);
    assert [u][1..] == [];
    assert EncodeAll([u]) == Encode(u) + EncodeAll([]);
  }

  lemma DecodeAllStep(input: Slice, handled: seq<Update>)
    requires input != []
    ensures var all := DecodeAll(input);
            match DecodeOne(input)
            case None => handled + all.0 == handled && !all.1
            case Some((u, rest)) => handled + all.0 == handled + [u] + DecodeAll(rest).0 && all.1 == DecodeAll(rest).1
  {
    hide DecodeOne;
  }

  lemma NothingLeft(handled: seq<Update>)
    ensures handled + DecodeAll([]).0 == handled && DecodeAll([]).1
  {
  }

  /** A byte that is the type of no update is an error, and ends the updates. */
  lemma UnknownType(kind: byte, rest: Slice)
    requires kind > 1
    ensures DecodeAll([kind] + rest) == ([], false)
  {
  }

  /** Iterate: hand the updates to the handler in order, and check their number; false stands for a corrupted batch. */
  method Iterate(rep: Slice) returns (handled: seq<Update>, ok: bool)
    ensures |rep| < HEADER ==> handled == [] && !ok
    ensures |rep| >= HEADER ==>
              var all := DecodeAll(rep[HEADER..]);
              handled == all.0 && (ok <==> all.1 && |all.0| == Count(rep))
  {
    hide DecodeOne, DecodeFixed32, DecodeAll;
    handled := [];
    if |rep| < HEADER {
      return [], false;
    }
    var input := rep[HEADER..];
    var found := 0;
    while input != []
      invariant found == |handled|
      invariant var all, rest := DecodeAll(rep[HEADER..]), DecodeAll(input);
                all.0 == handled + rest.0 && all.1 == rest.1
      decreases |input|
    {
      found := found + 1;
      DecodeAllStep(input, handled);
      var r := DecodeOne(input);
      if r.None? {
        return handled, false;
      }
      handled, input := handled + [r.value.0], r.value.1;
    }
    NothingLeft(handled);
    ok := found == Count(rep);
  }
}
