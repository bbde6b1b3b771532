/** Internal keys, entries and sorted runs of entries (db/dbformat.h, db/dbformat.cc).

    A user key is modelled by its rank in the user comparator's order. A comparator orders a countable
    set of byte strings, and every countable strict total order embeds in the reals, so `UserKey = real`
    stands for an arbitrary comparator: no member uses anything of the reals but `<` and `==`. */
module InternalKeys {

  type UserKey = real
  newtype byte = x: int | 0 <= x < 256
  type Slice = seq<byte>

  datatype Option<+T> = None | Some(value: T)

  const MAX_SEQUENCE: nat := 0xFF_FFFF_FFFF_FFFF

  datatype ValueType = TypeDeletion | TypeValue

  datatype IKey = IKey(user: UserKey, seqno: nat, kind: ValueType)

  datatype Entry = Entry(k: IKey, v: Slice)

  /** The 64-bit tag stored behind the user key: the sequence number in the upper 56 bits, the type below. */
  function Pack(seqno: nat, kind: ValueType): nat {
    seqno * 256 + if kind.TypeValue? then 1 else 0
  }

  /** What ParseInternalKey reads back from a tag; None when the type byte is not a known one. */
  function Unpack(tag: nat): Option<(nat, ValueType)> {
    if tag % 256 == 0 then Some((tag / 256, TypeDeletion))
    else if tag % 256 == 1 then Some((tag / 256, TypeValue))
    else None
  }

  /** The internal key order: user key ascending, then tag descending. */
  predicate Less(a: IKey, b: IKey) {
    a.user < b.user || (a.user == b.user && Pack(a.seqno, a.kind) > Pack(b.seqno, b.kind))
  }

  /** The key that a read of `u` at sequence number `s` seeks to. */
  function SeekKey(u: UserKey, s: nat): IKey { IKey(u, s, TypeValue) }

  lemma PackRoundTrip(seqno: nat, kind: ValueType)
    requires seqno <= MAX_SEQUENCE
    ensures Pack(seqno, kind) < 0x1_0000_0000_0000_0000
    ensures Unpack(Pack(seqno, kind)) == Some((seqno, kind))
  {
    var bit := if kind.TypeValue? then 1 else 0;
    assert (seqno * 256 + bit) % 256 == bit && (seqno * 256 + bit) / 256 == seqno;
  }

  /** The seek key sorts before exactly the entries a read at `s` may see, and after the too new ones. */
  lemma SeekKeySplits(u: UserKey, s: nat, k: IKey)
    ensures k.user == u ==> (Less(k, SeekKey(u, s)) <==> k.seqno > s)
  {
  }

  ghost predicate Sorted(es: seq<Entry>) {
    forall i, j :: 0 <= i < j < |es| ==> Less(es[i].k, es[j].k)
  }

  predicate Visible(e: Entry, u: UserKey, s: nat) {
    e.k.user == u && e.k.seqno <= s
  }

  /** `r` is the newest entry of `es` for `u` with sequence number at most `s`, or None if there is none. */
  ghost predicate Newest(es: set<Entry>, u: UserKey, s: nat, r: Option<Entry>) {
    match r
    case None => forall e <- es :: !Visible(e, u, s)
    case Some(x) => x in es && Visible(x, u, s) && forall e <- es :: Visible(e, u, s) ==> e.k.seqno <= x.k.seqno
  }

  /** Every entry of `a` is newer than every entry of `b` for the same user key. */
  ghost predicate Newer(a: set<Entry>, b: set<Entry>) {
    forall x, y :: x in a && y in b && x.k.user == y.k.user ==> x.k.seqno > y.k.seqno
  }

  /** A sequence number is given to one entry only. */
  ghost predicate Unambiguous(es: set<Entry>) {
    forall x, y :: x in es && y in es && x.k.user == y.k.user && x.k.seqno == y.k.seqno ==> x == y
  }

  ghost function Elements<T>(s: seq<T>): set<T> { set x | x in s }

  /** The first position in `es` at or after the target: what Seek on a table or memtable finds. */
  function SeekIndex(es: seq<Entry>, target: IKey): (i: nat)
    ensures i <= |es|
    ensures forall j :: 0 <= j < i ==> Less(es[j].k, target)
    ensures i < |es| ==> !Less(es[i].k, target)
  {
    if es == [] || !Less(es[0].k, target) then 0 else 1 + SeekIndex(es[1..], target)
  }

  /** MemTable::Get and the SaveValue callback of Version::Get: seek, then compare the user key. */
  function RunGet(es: seq<Entry>, u: UserKey, s: nat): Option<Entry> {
    var i := SeekIndex(es, SeekKey(u, s));
    if i < |es| && es[i].k.user == u then Some(es[i]) else None
  }

  lemma RunGetFindsNewest(es: seq<Entry>, u: UserKey, s: nat)
    requires Sorted(es)
    ensures Newest(Elements(es), u, s, RunGet(es, u, s))
  {
    var i := SeekIndex(es, SeekKey(u, s));
    forall e | e in Elements(es) && Visible(e, u, s)
      ensures i < |es| && es[i].k.user == u && e.k.seqno <= es[i].k.seqno
    {
      var j :| 0 <= j < |es| && es[j] == e;
      SeekKeySplits(u, s, e.k);
      assert i <= j;
    }
  }

  /** A newer layer over an older one: the answer of the newer layer wins, otherwise the older answers. */
  lemma NewestOfLayers(a: set<Entry>, b: set<Entry>, u: UserKey, s: nat, ra: Option<Entry>, rb: Option<Entry>)
    requires Newer(a, b) && Newest(a, u, s, ra) && Newest(b, u, s, rb)
    ensures Newest(a + b, u, s, if ra.Some? then ra else rb)
  {
  }
}
