/** Tables under the internal key comparator: its shortened keys are fit for the index, for the bytewise user comparator in
    particular, and a lookup in a built table followed by a comparison of user keys is a read of the sorted run of its
    entries (db/dbformat.cc, table/table.cc, db/version_set.cc SaveValue). */
module TableLookups {
  import opened InternalKeys
  import opened Coding
  import opened BlockBuilder
  import opened Block
  import opened TLI = TwoLevelIterator
  import opened TableOrder
  import opened TableBuilder
  import opened Table
  import C = Comparator

  // ---------------------------------------------------------------- the order of internal keys as ranks

  /** The ranks order internal keys as InternalKeyComparator does over the user keys' ranks. */
  ghost predicate Embeds(ikeys: Ranking, users: Ranking) {
    forall a, b :: |a| >= 8 && |b| >= 8 ==> (ikeys(a) < ikeys(b) <==> C.InternalLess(users, a, b))
  }

  /** The shortening functions of the internal key comparator; what is no internal key they leave alone. */
  function KeySeparator(users: Ranking, separator: Separator): Separator {
    (a: Slice, b: Slice) => if |a| >= 8 && |b| >= 8 then C.InternalSeparator(users, separator, a, b) else a
  }

  function KeySuccessor(users: Ranking, successor: Successor): Successor {
    (a: Slice) => if |a| >= 8 then C.InternalSuccessor(users, successor, a) else a
  }

  lemma SeparatorNotBelow(users: Ranking, separator: Separator, a: Slice, b: Slice)
    requires |a| >= 8 && |b| >= 8
    ensures var r := C.InternalSeparator(users, separator, a, b);
            |r| <= |a| && !C.InternalLess(users, r, a) && (r == a || C.Tag(r) == C.SEEK_TAG)
  {
    C.SeekTagReads(separator(C.UserPart(a), C.UserPart(b)));
  }

  lemma SuccessorNotBelow(users: Ranking, successor: Successor, a: Slice)
    requires |a| >= 8
    ensures var r := C.InternalSuccessor(users, successor, a);
            |r| <= |a| && !C.InternalLess(users, r, a) && (r == a || C.Tag(r) == C.SEEK_TAG)
  {
    C.SeekTagReads(successor(C.UserPart(a)));
  }

  /** Tables can be built with the internal key comparator exactly when shortened keys stay below their limits, hence
      exactly when the user comparator's results that are taken up do. */
  lemma ShortensExactly(ikeys: Ranking, users: Ranking, separator: Separator, successor: Successor)
    requires Embeds(ikeys, users)
    ensures Shortens(ikeys, KeySeparator(users, separator), KeySuccessor(users, successor)) <==> C.StaysBelow(users, separator)
  {
    hide C.InternalSeparator, C.InternalSuccessor, C.InternalLess, C.StaysBelow;
    C.SeparatorExact(users, separator);
    var sep, succ := KeySeparator(users, separator), KeySuccessor(users, successor);
    if C.KeepsBelow(users, separator) {
      forall a, b | ikeys(a) < ikeys(b) ensures ikeys(a) <= ikeys(sep(a, b)) < ikeys(b) && |sep(a, b)| <= |a| {
        if |a| >= 8 && |b| >= 8 {
          SeparatorNotBelow(users, separator, a, b);
        }
      }
      forall a ensures ikeys(a) <= ikeys(succ(a)) && |succ(a)| <= |a| {
        if |a| >= 8 {
          SuccessorNotBelow(users, successor, a);
        }
      }
    }
    if Shortens(ikeys, sep, succ) {
      forall a, b | |a| >= 8 && |b| >= 8 && C.InternalLess(users, a, b)
        ensures C.InternalLess(users, C.InternalSeparator(users, separator, a, b), b)
      {
        assert sep(a, b) == C.InternalSeparator(users, separator, a, b);
      }
    }
  }

  // ---------------------------------------------------------------- the default comparator

  /** A user key and a tag as one number: the bytes as digits 1 to 256 to the base 257, then the digit 0 and the tag's
      complement. */
  function UserTagRank(user: Slice, tag: uint64): (r: real)
    ensures 0.0 <= r < 1.0
  {
    if user == [] then ((TWO_64 - 1 - tag) as real / TWO_64 as real) / 257.0
    else (user[0] as real + 1.0 + UserTagRank(user[1..], tag)) / 257.0
  }

  function BytewiseKeyRank(key: Slice): real {
    if |key| >= 8 then UserTagRank(C.UserPart(key), C.Tag(key)) else 0.0
  }

  lemma Scaled(a: int, b: int)
    ensures a < b <==> (a as real / TWO_64 as real) / 257.0 < (b as real / TWO_64 as real) / 257.0
  {
  }

  lemma {:induction false} UserTagOrder(a: Slice, s: uint64, b: Slice, t: uint64)
    ensures UserTagRank(a, s) < UserTagRank(b, t) <==> C.BytesLess(a, b) || (a == b && s > t)
  {
    if a == [] && b == [] {
      Scaled(TWO_64 - 1 - s, TWO_64 - 1 - t);
    } else if a == [] {
      assert (TWO_64 - 1 - s) as real / TWO_64 as real < 1.0;
    } else if b == [] {
      assert (TWO_64 - 1 - t) as real / TWO_64 as real < 1.0;
    } else {
      UserTagOrder(a[1..], s, b[1..], t);
      assert a == [a[0]] + a[1..] && b == [b[0]] + b[1..];
      if a[0] < b[0] {
        assert a[0] as real + 1.0 <= b[0] as real;
      } else if b[0] < a[0] {
        assert b[0] as real + 1.0 <= a[0] as real;
      }
    }
  }

  lemma BytewiseEmbeds()
    ensures Embeds(BytewiseKeyRank, C.ByteRank)
  {
    hide UserTagRank, C.ByteRank;
    forall a, b | |a| >= 8 && |b| >= 8
      ensures BytewiseKeyRank(a) < BytewiseKeyRank(b) <==> C.InternalLess(C.ByteRank, a, b)
    {
      UserTagOrder(C.UserPart(a), C.Tag(a), C.UserPart(b), C.Tag(b));
      C.ByteRankIsOrder(C.UserPart(a), C.UserPart(b));
    }
  }

  /** With the bytewise comparator, the default one, tables can be built: nothing is left to assume of it. */
  lemma BytewiseShortens()
    ensures Embeds(BytewiseKeyRank, C.ByteRank)
    ensures Shortens(BytewiseKeyRank, KeySeparator(C.ByteRank, C.BytewiseSeparator), KeySuccessor(C.ByteRank, C.BytewiseSuccessor))
  {
    hide Shortens, Embeds, KeySeparator, KeySuccessor;
    BytewiseEmbeds();
    C.BytewiseStaysBelow();
    ShortensExactly(BytewiseKeyRank, C.ByteRank, C.BytewiseSeparator, C.BytewiseSuccessor);
  }

  // ---------------------------------------------------------------- reads

  predicate Parses(key: Slice) {
    |key| >= 8 && C.Tag(key) % 256 <= 1
  }

  function EntryOf(users: Ranking, e: KeyValue): Entry
    requires Parses(e.key)
  {
    var tag := C.Tag(e.key);
    Entry(IKey(users(C.UserPart(e.key)), tag / 256, if tag % 256 == 1 then TypeValue else TypeDeletion), e.value)
  }

  /** The key of an entry, its user key followed by the packed number and type, stands for the entry. */
  lemma EntryStands(users: Ranking, user: Slice, seqno: nat, kind: ValueType, value: Slice)
    requires seqno <= MAX_SEQUENCE
    ensures Pack(seqno, kind) < TWO_64
    ensures var e := KeyValue(C.Tagged(user, Pack(seqno, kind)), value);
            Parses(e.key) && EntryOf(users, e) == Entry(IKey(users(user), seqno, kind), value)
  {
    hide Fixed64, Pack, C.Tagged, C.UserPart, C.Tag;
    PackParts(seqno, kind);
    C.TagReads(user, Pack(seqno, kind));
  }

  lemma PackParts(seqno: nat, kind: ValueType)
    requires seqno <= MAX_SEQUENCE
    ensures var tag := Pack(seqno, kind);
            tag < TWO_64 && tag / 256 == seqno && tag % 256 == if kind.TypeValue? then 1 else 0
  {
  }

  /** The entries of a table as a run. */
  function RunOf(users: Ranking, es: seq<KeyValue>): seq<Entry>
    requires forall i :: 0 <= i < |es| ==> Parses(es[i].key)
  {
    seq(|es|, i requires 0 <= i < |es| => EntryOf(users, es[i]))
  }

  function LookupKey(user: Slice, s: nat): Slice
    requires s <= MAX_SEQUENCE
  {
    C.Tagged(user, Pack(s, TypeValue))
  }

  /** The bytes of two keys compare as what they are parsed to. */
  lemma ParsedOrder(users: Ranking, user: Slice, s: nat, e: KeyValue)
    requires s <= MAX_SEQUENCE && Parses(e.key)
    ensures C.InternalLess(users, e.key, LookupKey(user, s)) <==> Less(EntryOf(users, e).k, SeekKey(users(user), s))
  {
    hide C.Tag;
    C.TagReads(user, Pack(s, TypeValue));
    var tag := C.Tag(e.key);
    assert Pack(tag / 256, if tag % 256 == 1 then TypeValue else TypeDeletion) == tag;
  }

  /** Seeking among the bytes and seeking in the run stop at the same place. */
  lemma {:induction false} SameSeek(ikeys: Ranking, users: Ranking, es: seq<KeyValue>, user: Slice, s: nat)
    requires Embeds(ikeys, users) && s <= MAX_SEQUENCE && forall i :: 0 <= i < |es| ==> Parses(es[i].key)
    ensures InternalKeys.SeekIndex(RunOf(users, es), SeekKey(users(user), s)) == FirstFrom(ikeys, es, LookupKey(user, s))
  {
    hide C.Tag, Less, C.InternalLess;
    if es != [] {
      var k := LookupKey(user, s);
      ParsedOrder(users, user, s, es[0]);
      assert ikeys(es[0].key) < ikeys(k) <==> C.InternalLess(users, es[0].key, k);
      SameSeek(ikeys, users, es[1..], user, s);
      assert RunOf(users, es)[1..] == RunOf(users, es[1..]);
    }
  }

  /** The first entry from the lookup key on, if it has the user key. */
  function UserHit(users: Ranking, user: Slice, r: Option<KeyValue>): Option<Entry> {
    if r.Some? && Parses(r.value.key) && users(C.UserPart(r.value.key)) == users(user) then Some(EntryOf(users, r.value)) else None
  }

  /** Filters work on user keys, and keys that compare equal look the same to them. */
  ghost predicate FiltersUserKeys(users: Ranking, extract: Extractor, es: seq<KeyValue>, user: Slice) {
    && (forall k: Slice :: |k| >= 8 ==> extract(k) == C.UserPart(k))
    && forall i :: 0 <= i < |es| && Parses(es[i].key) && users(C.UserPart(es[i].key)) == users(user) ==> C.UserPart(es[i].key) == user
  }

  lemma IndexTag(users: Ranking, separator: Separator, successor: Successor, index: seq<KeyValue>, blocks: seq<seq<KeyValue>>, b: nat)
    requires Shortened(KeySeparator(users, separator), KeySuccessor(users, successor), index, blocks)
    requires b < |blocks| && |LastKey(blocks[b])| >= 8
    ensures |index[b].key| >= 8 && (index[b].key == LastKey(blocks[b]) || C.Tag(index[b].key) == C.SEEK_TAG)
  {
    hide C.InternalSeparator, C.InternalSuccessor, C.Tag, LastKey;
    var last := LastKey(blocks[b]);
    if b + 1 < |blocks| {
      var next := NextKey(Build(blocks, [], index), b);
      if |next| >= 8 {
        SeparatorNotBelow(users, separator, last, next);
      }
    } else {
      SuccessorNotBelow(users, successor, last);
    }
  }

  /** In the gap between a block's last key and its index key no lookup of a possible sequence number loses anything: the
      entry behind the gap is not one of its user key. */
  lemma GapIsHarmless(ikeys: Ranking, users: Ranking, separator: Separator, successor: Successor,
                      index: seq<KeyValue>, blocks: seq<seq<KeyValue>>, user: Slice, s: nat, b: nat, next: KeyValue)
    requires Embeds(ikeys, users) && s < MAX_SEQUENCE
    requires Shortened(KeySeparator(users, separator), KeySuccessor(users, successor), index, blocks)
    requires b < |blocks| && |LastKey(blocks[b])| >= 8 && Parses(next.key)
    requires ikeys(LastKey(blocks[b])) < ikeys(LookupKey(user, s)) <= ikeys(index[b].key) < ikeys(next.key)
    ensures users(C.UserPart(next.key)) != users(user)
  {
    hide C.Tag, Parted, C.InternalLess, LastKey;
    IndexTag(users, separator, successor, index, blocks, b);
    C.TagReads(user, Pack(s, TypeValue));
    var k := LookupKey(user, s);
    C.SeekTagIsPacked();
    assert C.InternalLess(users, LastKey(blocks[b]), k) && !C.InternalLess(users, index[b].key, k);
    assert C.InternalLess(users, index[b].key, next.key);
    if users(C.UserPart(next.key)) == users(user) {
      C.GapNeedsLargestTag(users, LastKey(blocks[b]), index[b].key, next.key, k);
    }
  }

  /** The main result on lookups: in a built table, with or without a filter, InternalGet and a comparison of user keys
      give the read of the table's entries at the sequence number, for every number that a snapshot can have. */
  lemma LookupIsRead(crc: TableFormat.Checksum, ikeys: Ranking, users: Ranking, separator: Separator, successor: Successor,
                     extract: Extractor, file: Slice, l: Layout, user: Slice, s: nat, filtered: bool, r: Option<KeyValue>)
    requires IsTableFile(crc, ikeys, extract, file, l) && Embeds(ikeys, users) && s < MAX_SEQUENCE
    requires Shortened(KeySeparator(users, separator), KeySuccessor(users, successor), l.index, l.blocks)
    requires forall i :: 0 <= i < |Flat(l.blocks)| ==> Parses(Flat(l.blocks)[i].key)
    requires filtered ==> FiltersUserKeys(users, extract, Flat(l.blocks), user)
    requires Answers(ikeys, extract, l, LookupKey(user, s), filtered, r)
    ensures UserHit(users, user, r) == RunGet(RunOf(users, Flat(l.blocks)), users(user), s)
  {
    hide IsTableFile, Flat, FirstFrom, Shortened, FiltersUserKeys, Embeds;
    var es, k := Flat(l.blocks), LookupKey(user, s);
    SameSeek(ikeys, users, es, user, s);
    var n := FirstFrom(ikeys, es, k);
    if r.None? && n < |es| {
      TableWellBuilt(crc, ikeys, extract, file, l, k, filtered);
      MissIsAnother(ikeys, users, separator, successor, extract, l, user, s, filtered, n);
    }
  }

  /** A key behind the last one of the block that the index names is in the gap, and the next entry is behind it. */
  lemma BehindBlock(rank: Ranking, index: seq<KeyValue>, blocks: seq<seq<KeyValue>>, k: Slice, b: nat)
    requires Separates(rank, index, blocks) && forall c :: 0 <= c < |blocks| ==> blocks[c] != [] && Ascending(rank, blocks[c])
    requires b == FirstFrom(rank, index, k) && b < |blocks| && rank(LastKey(blocks[b])) < rank(k)
    requires FirstFrom(rank, Flat(blocks), k) < |Flat(blocks)|
    ensures rank(k) <= rank(index[b].key) < rank(Flat(blocks)[FirstFrom(rank, Flat(blocks), k)].key)
  {
    hide Flat, FirstFrom;
    FirstInBlocks(rank, index, blocks, k);
    FromSplits(rank, blocks[b], k, |blocks[b]| - 1);
    StartNext(blocks, b);
    StartEnds(blocks);
    if b + 1 < |blocks| {
      FlatAt(blocks, b + 1, 0);
    }
  }

  /** A block in which no entry is like the lookup key to the filter has none of its user key. */
  lemma RuledOutIsAnother(users: Ranking, extract: Extractor, es: seq<KeyValue>, block: seq<KeyValue>, user: Slice, s: nat, n: nat, i: nat)
    requires s < MAX_SEQUENCE && FiltersUserKeys(users, extract, es, user) && NoneLike(extract, block, LookupKey(user, s))
    requires n < |es| && i < |block| && es[n] == block[i] && Parses(es[n].key)
    ensures users(C.UserPart(es[n].key)) != users(user)
  {
    hide C.Tag;
    var k := LookupKey(user, s);
    assert extract(k) == C.UserPart(k) && extract(es[n].key) == C.UserPart(es[n].key);
  }

  /** The first entry from a key on that is not behind the last key of the block that the index names is in this block. */
  lemma InNamedBlock(rank: Ranking, index: seq<KeyValue>, blocks: seq<seq<KeyValue>>, k: Slice, b: nat) returns (i: nat)
    requires Separates(rank, index, blocks) && forall c :: 0 <= c < |blocks| ==> blocks[c] != [] && Ascending(rank, blocks[c])
    requires b == FirstFrom(rank, index, k) && b < |blocks| && rank(k) <= rank(LastKey(blocks[b]))
    ensures var n := FirstFrom(rank, Flat(blocks), k);
            i < |blocks[b]| && n < |Flat(blocks)| && Flat(blocks)[n] == blocks[b][i]
  {
    hide Flat, FirstFrom;
    FirstInBlocks(rank, index, blocks, k);
    FromSplits(rank, blocks[b], k, |blocks[b]| - 1);
    i := FirstFrom(rank, blocks[b], k);
    FlatAt(blocks, b, i);
  }

  lemma LastParses(blocks: seq<seq<KeyValue>>, b: nat)
    requires b < |blocks| && blocks[b] != [] && forall i :: 0 <= i < |Flat(blocks)| ==> Parses(Flat(blocks)[i].key)
    ensures Parses(LastKey(blocks[b]))
  {
    hide Flat, Parses;
    FlatAt(blocks, b, |blocks[b]| - 1);
  }

  /** The blocks of a table are apart, in order, and only without a like entry ruled out by the filter. */
  ghost predicate WellBuilt(rank: Ranking, extract: Extractor, l: Layout, k: Slice, filtered: bool) {
    && Separates(rank, l.index, l.blocks)
    && (forall b :: 0 <= b < |l.blocks| ==> l.blocks[b] != [] && Ascending(rank, l.blocks[b]))
    && (forall b :: 0 <= b < |l.blocks| && !Admits(extract, l, k, filtered, b) ==> NoneLike(extract, l.blocks[b], k))
  }

  lemma TableWellBuilt(crc: TableFormat.Checksum, rank: Ranking, extract: Extractor, file: Slice, l: Layout, k: Slice, filtered: bool)
    requires IsTableFile(crc, rank, extract, file, l)
    ensures WellBuilt(rank, extract, l, k, filtered)
  {
    hide IsTableFile, Ordered, Separates, Ascending, FilterPasses, NoneLike, Stands, Names, FilterStands, TableFormat.EncodeFooter;
    TableOrdered(crc, rank, extract, file, l);
    OrderedSeparates(rank, Build(l.blocks, [], l.index));
    forall b | 0 <= b < |l.blocks| && !Admits(extract, l, k, filtered, b) ensures NoneLike(extract, l.blocks[b], k) {
      FilterIsRight(crc, rank, extract, file, l, k, b);
    }
  }

  /** Where the lookup finds nothing, the first entry from the key on has another user key. */
  lemma MissIsAnother(ikeys: Ranking, users: Ranking, separator: Separator, successor: Successor,
                      extract: Extractor, l: Layout, user: Slice, s: nat, filtered: bool, n: nat)
    requires Embeds(ikeys, users) && s < MAX_SEQUENCE && WellBuilt(ikeys, extract, l, LookupKey(user, s), filtered)
    requires Shortened(KeySeparator(users, separator), KeySuccessor(users, successor), l.index, l.blocks)
    requires forall i :: 0 <= i < |Flat(l.blocks)| ==> Parses(Flat(l.blocks)[i].key)
    requires filtered ==> FiltersUserKeys(users, extract, Flat(l.blocks), user)
    requires Answers(ikeys, extract, l, LookupKey(user, s), filtered, None)
    requires n == FirstFrom(ikeys, Flat(l.blocks), LookupKey(user, s)) && n < |Flat(l.blocks)|
    ensures Parses(Flat(l.blocks)[n].key) && users(C.UserPart(Flat(l.blocks)[n].key)) != users(user)
  {
    hide Flat, FirstFrom, Shortened, FiltersUserKeys, Embeds, Separates, Ascending, FilterPasses, LastKey, NoneLike, LookupKey;
    hide C.Tag;
    var es, k := Flat(l.blocks), LookupKey(user, s);
    FirstInBlocks(ikeys, l.index, l.blocks, k);
    var b := FirstFrom(ikeys, l.index, k);
    if ikeys(k) <= ikeys(LastKey(l.blocks[b])) {
      var i := InNamedBlock(ikeys, l.index, l.blocks, k, b);
      RuledOutIsAnother(users, extract, es, l.blocks[b], user, s, n, i);
    } else {
      BehindBlock(ikeys, l.index, l.blocks, k, b);
      LastParses(l.blocks, b);
      GapIsHarmless(ikeys, users, separator, successor, l.index, l.blocks, user, s, b, es[n]);
    }
  }

  /** TableCache::Get with SaveValue: look the key up and compare user keys. */
  method Get(table: Table, users: Ranking, ghost separator: Separator, ghost successor: Successor, user: Slice, s: nat)
    returns (hit: Option<Entry>)
    requires table.Valid() && Embeds(table.rank, users) && s < MAX_SEQUENCE
    requires Shortened(KeySeparator(users, separator), KeySuccessor(users, successor), table.l.index, table.l.blocks)
    requires forall i :: 0 <= i < |Flat(table.l.blocks)| ==> Parses(Flat(table.l.blocks)[i].key)
    requires table.filter != null ==> FiltersUserKeys(users, table.extract, Flat(table.l.blocks), user)
    ensures hit == RunGet(RunOf(users, Flat(table.l.blocks)), users(user), s)
  {
    hide IsTableFile, Flat, Shortened, FiltersUserKeys, Embeds, Answers, FilterOpen, RunGet;
    var r := table.InternalGet(LookupKey(user, s));
    LookupIsRead(table.crc, table.rank, users, separator, successor, table.extract, table.file, table.l, user, s, table.filter != null, r);
    hit := UserHit(users, user, r);
  }
}
