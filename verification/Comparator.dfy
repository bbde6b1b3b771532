/** Shortened keys for the index of a table: the bytewise comparator (util/comparator.cc), and the internal key comparator
    over any user comparator (db/dbformat.cc). */
module Comparator {
  import opened InternalKeys
  import opened Coding
  import BB = BlockBuilder

  // ---------------------------------------------------------------- bytewise order

  /** Lexicographic order of bytes: a proper prefix comes first. */
  predicate BytesLess(a: Slice, b: Slice) {
    b != [] && (a == [] || a[0] < b[0] || (a[0] == b[0] && BytesLess(a[1..], b[1..])))
  }

  lemma {:induction false} BytesTotal(a: Slice, b: Slice)
    ensures BytesLess(a, b) || a == b || BytesLess(b, a)
    ensures !(BytesLess(a, b) && BytesLess(b, a)) && !BytesLess(a, a)
  {
    if a != [] && b != [] {
      BytesTotal(a[1..], b[1..]);
      assert a == [a[0]] + a[1..] && b == [b[0]] + b[1..];
    }
    if a != [] {
      BytesTotal(a[1..], a[1..]);
    }
  }

  lemma {:induction false} BytesTransitive(a: Slice, b: Slice, c: Slice)
    requires BytesLess(a, b) && BytesLess(b, c)
    ensures BytesLess(a, c)
  {
    if a != [] && a[0] == b[0] && b[0] == c[0] {
      BytesTransitive(a[1..], b[1..], c[1..]);
    }
  }

  /** The order is decided at the first difference. */
  lemma {:induction false} FirstDifference(a: Slice, b: Slice, i: nat)
    requires i < |a| && i < |b| && a[..i] == b[..i] && a[i] != b[i]
    ensures BytesLess(a, b) <==> a[i] < b[i]
  {
    if i > 0 {
      assert a[0] == a[..i][0] == b[..i][0] == b[0];
      assert a[1..][..i - 1] == a[..i][1..] && b[1..][..i - 1] == b[..i][1..];
      FirstDifference(a[1..], b[1..], i - 1);
    }
  }

  /** The start up to the first difference with the limit, with the byte there raised by one, if that is below the limit. */
  function BytewiseSeparator(start: Slice, limit: Slice): Slice {
    var n := BB.Common(start, limit);
    if n < |start| && n < |limit| && start[n] < 0xff && start[n] + 1 < limit[n] then start[..n] + [start[n] + 1] else start
  }

  /** The key up to its first byte that can be raised, with that byte raised. */
  function BytewiseSuccessor(key: Slice): Slice {
    if key == [] then [] else if key[0] != 0xff then [key[0] + 1] else [key[0]] + BytewiseSuccessor(key[1..])
  }

  lemma SeparatorBetween(start: Slice, limit: Slice)
    ensures var r := BytewiseSeparator(start, limit);
            |r| <= |start| && (r == start || (BytesLess(start, r) && BytesLess(r, limit)))
  {
    var n, r := BB.Common(start, limit), BytewiseSeparator(start, limit);
    if r != start {
      assert r[..n] == start[..n] && r[n] == start[n] + 1;
      FirstDifference(start, r, n);
      FirstDifference(r, limit, n);
    }
  }

  /** The first difference is at `n`, and there is a byte between. */
  predicate RoomAt(start: Slice, limit: Slice, n: nat) {
    n < |start| && n < |limit| && start[..n] == limit[..n] && start[n] as nat + 1 < limit[n] as nat
  }

  /** When the separator differs from the start: exactly if the first different bytes leave room between them. Then it ends
      right there, and no string between start and limit is shorter. */
  lemma SeparatorShortest(start: Slice, limit: Slice)
    ensures BytewiseSeparator(start, limit) != start <==> exists n: nat :: RoomAt(start, limit, n)
    ensures forall n: nat :: RoomAt(start, limit, n) ==> |BytewiseSeparator(start, limit)| == n + 1
    ensures BytewiseSeparator(start, limit) != start ==>
              forall s :: BytesLess(start, s) && BytesLess(s, limit) ==> |s| >= |BytewiseSeparator(start, limit)|
  {
    var n, r := BB.Common(start, limit), BytewiseSeparator(start, limit);
    forall m: nat | RoomAt(start, limit, m) ensures m == n {
      OneDifference(start, limit, m, n);
    }
    if r != start {
      assert RoomAt(start, limit, n);
      assert r[n] == start[n] + 1;
      forall s | BytesLess(start, s) && BytesLess(s, limit) ensures |s| >= |r| {
        BetweenIsLonger(start, s, limit, n);
      }
    }
  }

  lemma OneDifference(a: Slice, b: Slice, m: nat, n: nat)
    requires m < |a| && m < |b| && a[..m] == b[..m] && a[m] != b[m]
    requires n <= |a| && n <= |b| && a[..n] == b[..n] && (n < |a| && n < |b| ==> a[n] != b[n])
    ensures m == n
  {
    assert forall i :: 0 <= i < m ==> a[..m][i] == a[i] && b[..m][i] == b[i];
    assert forall i :: 0 <= i < n ==> a[..n][i] == a[i] && b[..n][i] == b[i];
  }

  /** Strings between two others begin with what these have in common, and go on. */
  lemma {:induction false} BetweenIsLonger(a: Slice, s: Slice, b: Slice, n: nat)
    requires n < |a| && n < |b| && a[..n] == b[..n] && BytesLess(a, s) && BytesLess(s, b)
    ensures |s| > n
  {
    if n > 0 {
      assert a[0] == a[..n][0] == b[..n][0] == b[0];
      assert a[1..][..n - 1] == a[..n][1..] && b[1..][..n - 1] == b[..n][1..];
      BetweenIsLonger(a[1..], s[1..], b[1..], n - 1);
    }
  }

  lemma {:induction false} SuccessorFollows(key: Slice)
    ensures var r := BytewiseSuccessor(key);
            |r| <= |key| && (r == key || BytesLess(key, r))
    ensures BytewiseSuccessor(key) == key <==> forall i :: 0 <= i < |key| ==> key[i] == 0xff
  {
    if key != [] && key[0] == 0xff {
      SuccessorFollows(key[1..]);
      assert key == [key[0]] + key[1..];
      assert BytewiseSuccessor(key)[1..] == BytewiseSuccessor(key[1..]);
      if forall i :: 0 <= i < |key[1..]| ==> key[1..][i] == 0xff {
        forall i | 0 <= i < |key| ensures key[i] == 0xff {
          assert i > 0 ==> key[i] == key[1..][i - 1];
        }
      } else {
        var i :| 0 <= i < |key[1..]| && key[1..][i] != 0xff;
        assert key[i + 1] != 0xff;
      }
    }
  }

  /** A short string from `start` on, below `limit` if `start` is. */
  method FindShortestSeparator(start: Slice, limit: Slice) returns (r: Slice)
    ensures r == BytewiseSeparator(start, limit)
    ensures |r| <= |start|
    ensures r == start || (BytesLess(start, r) && BytesLess(r, limit))
  {
    var minLength := if |start| < |limit| then |start| else |limit|;
    var diff := 0;
    while diff < minLength && start[diff] == limit[diff]
      invariant diff <= minLength && start[..diff] == limit[..diff]
    {
      diff := diff + 1;
    }
    BB.CommonIs(start, limit, diff);
    SeparatorBetween(start, limit);
    r := start;
    if diff < minLength && start[diff] < 0xff && start[diff] + 1 < limit[diff] {
      r := start[..diff] + [start[diff] + 1];
    }
  }

  lemma {:induction false} RaisedAt(key: Slice, i: nat)
    requires i <= |key| && forall j :: 0 <= j < i ==> key[j] == 0xff
    ensures BytewiseSuccessor(key) == key[..i] + BytewiseSuccessor(key[i..])
  {
    if i > 0 {
      RaisedAt(key[1..], i - 1);
      assert key[..i] == [key[0]] + key[1..][..i - 1] && key[1..][i - 1..] == key[i..];
    } else {
      assert key[0..] == key && key[..0] == [];
    }
  }

  /** A short string not below the key. */
  method FindShortSuccessor(key: Slice) returns (r: Slice)
    ensures r == BytewiseSuccessor(key)
    ensures |r| <= |key|
    ensures r == key || BytesLess(key, r)
    ensures r == key <==> forall i :: 0 <= i < |key| ==> key[i] == 0xff
  {
    SuccessorFollows(key);
    for i := 0 to |key|
      invariant forall j :: 0 <= j < i ==> key[j] == 0xff
    {
      if key[i] != 0xff {
        RaisedAt(key, i);
        r := key[..i] + [key[i] + 1];
        return;
      }
    }
    r := key;
  }

  // ---------------------------------------------------------------- ranks of byte strings

  /** The bytewise order as real numbers: the string read as digits 1 to 256 behind the point, to the base 257. */
  function ByteRank(s: Slice): (r: real)
    ensures 0.0 <= r < 1.0
  {
    if s == [] then 0.0 else (s[0] as real + 1.0 + ByteRank(s[1..])) / 257.0
  }

  lemma {:induction false} ByteRankIsOrder(a: Slice, b: Slice)
    ensures ByteRank(a) < ByteRank(b) <==> BytesLess(a, b)
    ensures ByteRank(a) == ByteRank(b) <==> a == b
  {
    if a != [] && b != [] {
      ByteRankIsOrder(a[1..], b[1..]);
      assert a == [a[0]] + a[1..] && b == [b[0]] + b[1..];
      if a[0] < b[0] {
        assert a[0] as real + 1.0 <= b[0] as real;
      } else if b[0] < a[0] {
        assert b[0] as real + 1.0 <= a[0] as real;
      }
    }
  }

  // ---------------------------------------------------------------- internal keys

  /** A user comparator: the order as ranks, and its two shortening functions. */
  type Ranking = Slice -> real
  type Shortener = Slice -> Slice
  type Separator = (Slice, Slice) -> Slice

  /** What the documentation promises of a separator: for a smaller start the result lies between. */
  ghost predicate DocumentedLaw(rank: Ranking, separator: Separator) {
    forall a, b :: rank(a) < rank(b) ==> rank(a) <= rank(separator(a, b)) < rank(b)
  }

  /** The internal comparator takes up the separator's result. */
  predicate TakenUp(rank: Ranking, separator: Separator, a: Slice, b: Slice) {
    |separator(a, b)| < |a| && rank(a) < rank(separator(a, b))
  }

  /** Results that are taken up stay below the limit, also when start and limit are the same user key. */
  ghost predicate StaysBelow(rank: Ranking, separator: Separator) {
    forall a, b :: rank(a) <= rank(b) && TakenUp(rank, separator, a, b) ==> rank(separator(a, b)) < rank(b)
  }

  function UserPart(ikey: Slice): Slice
    requires |ikey| >= 8
  {
    ikey[..|ikey| - 8]
  }

  function Tag(ikey: Slice): uint64
    requires |ikey| >= 8
  {
    DecodeFixed64(ikey[|ikey| - 8..])
  }

  /** InternalKeyComparator::Compare < 0. */
  predicate InternalLess(rank: Ranking, a: Slice, b: Slice)
    requires |a| >= 8 && |b| >= 8
  {
    rank(UserPart(a)) < rank(UserPart(b)) || (rank(UserPart(a)) == rank(UserPart(b)) && Tag(a) > Tag(b))
  }

  const SEEK_TAG: uint64 := 0xFFFF_FFFF_FFFF_FF01

  lemma SeekTagIsPacked()
    ensures SEEK_TAG == Pack(MAX_SEQUENCE, TypeValue)
  {
  }

  /** A user key followed by the earliest possible tag. */
  function WithSeekTag(user: Slice): (r: Slice)
    ensures |r| == |user| + 8 && UserPart(r) == user
  {
    user + Fixed64(SEEK_TAG)
  }

  function InternalSeparator(rank: Ranking, separator: Separator, start: Slice, limit: Slice): (r: Slice)
    requires |start| >= 8 && |limit| >= 8
    ensures |r| >= 8
  {
    if TakenUp(rank, separator, UserPart(start), UserPart(limit)) then WithSeekTag(separator(UserPart(start), UserPart(limit)))
    else start
  }

  function InternalSuccessor(rank: Ranking, successor: Shortener, key: Slice): (r: Slice)
    requires |key| >= 8
    ensures |r| >= 8
  {
    var tmp := successor(UserPart(key));
    if |tmp| < |UserPart(key)| && rank(UserPart(key)) < rank(tmp) then WithSeekTag(tmp) else key
  }

  method FindInternalSeparator(rank: Ranking, separator: Separator, start: Slice, limit: Slice) returns (r: Slice)
    requires |start| >= 8 && |limit| >= 8
    ensures r == InternalSeparator(rank, separator, start, limit)
    ensures |r| >= 8 && |r| <= |start|
    ensures r == start || (InternalLess(rank, start, r) && Tag(r) == SEEK_TAG)
    ensures StaysBelow(rank, separator) && InternalLess(rank, start, limit) ==> InternalLess(rank, r, limit)
  {
    r := start;
    var tmp := separator(UserPart(start), UserPart(limit));
    if |tmp| < |UserPart(start)| && rank(UserPart(start)) < rank(tmp) {
      r := WithSeekTag(tmp);
      SeekTagReads(tmp);
    }
  }

  ghost predicate KeepsBelow(rank: Ranking, separator: Separator) {
    forall start, limit :: |start| >= 8 && |limit| >= 8 && InternalLess(rank, start, limit) ==>
      InternalLess(rank, InternalSeparator(rank, separator, start, limit), limit)
  }

  function Tagged(user: Slice, tag: uint64): (r: Slice)
    ensures |r| == |user| + 8 && UserPart(r) == user
  {
    user + Fixed64(tag)
  }

  lemma TagReads(user: Slice, tag: uint64)
    ensures Tag(Tagged(user, tag)) == tag
  {
    Fixed64RoundTrip(tag, []);
    assert Tagged(user, tag)[|user|..] == Fixed64(tag) + [];
  }

  /** The exact law: shortened internal keys stay below their limits, for all keys, if and only if every result of the user
      comparator's separator that is taken up stays below its limit. */
  lemma SeparatorExact(rank: Ranking, separator: Separator)
    ensures KeepsBelow(rank, separator) <==> StaysBelow(rank, separator)
  {
    if KeepsBelow(rank, separator) {
      forall a, b | rank(a) <= rank(b) && TakenUp(rank, separator, a, b) ensures rank(separator(a, b)) < rank(b) {
        var start, limit := Tagged(a, TWO_64 - 1), Tagged(b, SEEK_TAG);
        if rank(a) == rank(b) {
          limit := Tagged(b, 0);
          TagReads(b, 0);
        } else {
          TagReads(b, SEEK_TAG);
        }
        TagReads(a, TWO_64 - 1);
        SeekTagReads(separator(a, b));
        assert InternalLess(rank, start, limit);
      }
    }
  }

  /** The documented law is enough for separators that never shorten a key to a larger one when start and limit are the
      same user key; with it, that is also necessary. */
  lemma WhenDocumentedLawSuffices(rank: Ranking, separator: Separator)
    requires DocumentedLaw(rank, separator)
    ensures KeepsBelow(rank, separator) <==> forall a, b :: rank(a) == rank(b) ==> !TakenUp(rank, separator, a, b)
  {
    SeparatorExact(rank, separator);
  }

  lemma SeekTagReads(user: Slice)
    ensures Tag(WithSeekTag(user)) == SEEK_TAG
  {
    Fixed64RoundTrip(SEEK_TAG, []);
    assert WithSeekTag(user)[|user|..] == Fixed64(SEEK_TAG) + [];
  }

  method FindInternalSuccessor(rank: Ranking, successor: Shortener, key: Slice) returns (r: Slice)
    requires |key| >= 8
    ensures r == InternalSuccessor(rank, successor, key)
    ensures |r| >= 8 && |r| <= |key|
    ensures r == key || (InternalLess(rank, key, r) && Tag(r) == SEEK_TAG)
  {
    r := key;
    var tmp := successor(UserPart(key));
    if |tmp| < |UserPart(key)| && rank(UserPart(key)) < rank(tmp) {
      r := WithSeekTag(tmp);
      SeekTagReads(tmp);
    }
  }

  lemma BytewiseBetween(a: Slice, b: Slice)
    ensures var r := BytewiseSeparator(a, b);
            r == a || ByteRank(a) < ByteRank(r) < ByteRank(b)
  {
    var r := BytewiseSeparator(a, b);
    SeparatorBetween(a, b);
    ByteRankIsOrder(a, r);
    ByteRankIsOrder(r, b);
  }

  /** The bytewise comparator keeps the documented law and more: nothing is taken up for equal keys. */
  lemma BytewiseStaysBelow()
    ensures DocumentedLaw(ByteRank, BytewiseSeparator) && StaysBelow(ByteRank, BytewiseSeparator)
    ensures KeepsBelow(ByteRank, BytewiseSeparator)
  {
    forall a, b ensures ByteRank(a) < ByteRank(b) ==> ByteRank(a) <= ByteRank(BytewiseSeparator(a, b)) < ByteRank(b) {
      BytewiseBetween(a, b);
    }
    forall a, b | ByteRank(a) <= ByteRank(b) && TakenUp(ByteRank, BytewiseSeparator, a, b)
      ensures ByteRank(BytewiseSeparator(a, b)) < ByteRank(b)
    {
      BytewiseBetween(a, b);
    }
    SeparatorExact(ByteRank, BytewiseSeparator);
  }

  /** A lookup key can fall between the last key of a block and its index key, where the lookup stops. If the next entry
      has the user key that is looked for, that takes the largest possible tag, which no snapshot has: below it, the
      lookup never misses an entry of its user key because of a shortened index key. */
  lemma GapNeedsLargestTag(rank: Ranking, last: Slice, indexKey: Slice, next: Slice, k: Slice)
    requires |last| >= 8 && |indexKey| >= 8 && |next| >= 8 && |k| >= 8
    requires indexKey == last || Tag(indexKey) == SEEK_TAG
    requires InternalLess(rank, last, k) && !InternalLess(rank, indexKey, k) && InternalLess(rank, indexKey, next)
    requires rank(UserPart(next)) == rank(UserPart(k))
    ensures Tag(k) >= SEEK_TAG
  {
  }

  /** Without the second part of the law the result can miss its limit: a separator may do as documented for different
      keys, shorten a key to a larger one for equal keys, and then two entries of one user key are not separated. */
  lemma DocumentedLawIsTooWeak()
    ensures exists rank: Ranking, separator: Separator, start, limit ::
              && DocumentedLaw(rank, separator)
              && |start| >= 8 && |limit| >= 8 && InternalLess(rank, start, limit)
              && !InternalLess(rank, InternalSeparator(rank, separator, start, limit), limit)
  {
    // Longer strings first; of equal keys the separator gives the empty string, which comes last.
    var rank: Ranking := (s: Slice) => -(|s| as real);
    var separator: Separator := (a: Slice, b: Slice) => if |a| == |b| then [] else a;
    var start, limit := [7] + Fixed64(SEEK_TAG), [7] + Fixed64(0);
    Fixed64RoundTrip(SEEK_TAG, []);
    Fixed64RoundTrip(0, []);
    assert start[|start| - 8..] == Fixed64(SEEK_TAG) + [] && limit[|limit| - 8..] == Fixed64(0) + [];
    assert UserPart(start) == [7] && UserPart(limit) == [7];
    assert InternalLess(rank, start, limit);
    assert separator(UserPart(start), UserPart(limit)) == [];
    assert rank([7]) == -1.0 && rank([]) == 0.0;
    assert TakenUp(rank, separator, UserPart(start), UserPart(limit));
    assert !InternalLess(rank, WithSeekTag([]), limit);
    assert DocumentedLaw(rank, separator);
    assert !InternalLess(rank, InternalSeparator(rank, separator, start, limit), limit);
  }
}
