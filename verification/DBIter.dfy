/** The user-level iterator (db/db_iter.cc): over internal entries sorted by user key and falling sequence number it
    behaves as a cursor over the user keys that have a value at one sequence number. */
module DBIter {
  import opened InternalKeys
  import opened SortedRuns
  import M = MergingIterator

  /** Entry `i` is what a reader at `s` sees for its user key: visible, a value, and no visible entry of the key before it. */
  ghost predicate Live(es: seq<Entry>, s: nat, i: nat)
    requires i < |es|
  {
    && es[i].k.seqno <= s
    && es[i].k.kind.TypeValue?
    && forall j :: 0 <= j < i && es[j].k.user == es[i].k.user ==> es[j].k.seqno > s
  }

  /** The live entries among the first `n`: for n = |es|, the snapshot view. */
  ghost function LiveUpTo(es: seq<Entry>, s: nat, n: nat): seq<Entry>
    requires n <= |es|
  {
    if n == 0 then [] else LiveUpTo(es, s, n - 1) + if Live(es, s, n - 1) then [es[n - 1]] else []
  }

  ghost function View(es: seq<Entry>, s: nat): seq<Entry> {
    LiveUpTo(es, s, |es|)
  }

  lemma {:induction false} RankMonotone(es: seq<Entry>, s: nat, m: nat, n: nat)
    requires m <= n <= |es|
    ensures LiveUpTo(es, s, m) <= LiveUpTo(es, s, n)
    decreases n - m
  {
    if m < n {
      RankMonotone(es, s, m, n - 1);
    }
  }

  /** The live entry at `i` stands in the view at the number of live entries before it. */
  lemma LiveInView(es: seq<Entry>, s: nat, i: nat)
    requires i < |es| && Live(es, s, i)
    ensures |LiveUpTo(es, s, i)| < |View(es, s)| && View(es, s)[|LiveUpTo(es, s, i)|] == es[i]
  {
    RankMonotone(es, s, i + 1, |es|);
  }

  ghost predicate NoneLive(es: seq<Entry>, s: nat, lo: nat, hi: nat)
    requires hi <= |es|
  {
    forall i :: lo <= i < hi ==> !Live(es, s, i)
  }

  lemma {:induction false} NoneLiveSameRank(es: seq<Entry>, s: nat, lo: nat, hi: nat)
    requires lo <= hi <= |es| && NoneLive(es, s, lo, hi)
    ensures LiveUpTo(es, s, lo) == LiveUpTo(es, s, hi)
    decreases hi - lo
  {
    if lo < hi {
      NoneLiveSameRank(es, s, lo, hi - 1);
    }
  }

  /** All entries strictly between `p` and `c` are too new to see, and `p`, if there is one, belongs to a smaller user
      key: where the inner iterator stands while the outer one moves backwards. */
  ghost predicate Behind(es: seq<Entry>, s: nat, p: nat, c: nat)
    requires c < |es| && p <= |es|
  {
    if p == |es| then forall j :: 0 <= j < c ==> es[j].k.seqno > s
    else p < c && es[p].k.user < es[c].k.user && forall j :: p < j < c ==> es[j].k.seqno > s
  }

  /** What FindNextUserEntry may assume at inner position `i` when it is to find the first live entry from `lo` on. */
  ghost predicate SkipReady(es: seq<Entry>, s: nat, i: nat, lo: nat, skip: Option<UserKey>) {
    forall j :: i <= j < |es| && es[j].k.seqno <= s ==>
      if skip.Some? then
        && es[j].k.user >= skip.value
        && (es[j].k.user == skip.value && lo <= j ==> !Live(es, s, j))
        && (es[j].k.user > skip.value ==> lo <= j && Unseen(es, s, i, es[j].k.user))
      else lo <= j && Unseen(es, s, i, es[j].k.user)
  }

  /** No visible entry before `i` has this user key. */
  ghost predicate Unseen(es: seq<Entry>, s: nat, i: nat, u: UserKey)
    requires i <= |es|
  {
    forall m :: 0 <= m < i && es[m].k.seqno <= s ==> es[m].k.user != u
  }

  lemma SkipStep(es: seq<Entry>, s: nat, i: nat, lo: nat, skip: Option<UserKey>, skip': Option<UserKey>)
    requires Sorted(es) && i < |es| && SkipReady(es, s, i, lo, skip) && NoneLive(es, s, lo, i)
    requires if es[i].k.seqno > s then skip' == skip
             else if es[i].k.kind.TypeDeletion? then skip' == Some(es[i].k.user)
             else skip.Some? && es[i].k.user <= skip.value && skip' == skip
    ensures SkipReady(es, s, i + 1, lo, skip')
    ensures NoneLive(es, s, lo, i + 1)
  {
    forall j | i + 1 <= j < |es| && es[j].k.seqno <= s
      ensures es[i].k.user <= es[j].k.user
      ensures es[i].k.seqno <= s && es[j].k.user == es[i].k.user ==> !Live(es, s, j)
      ensures es[i].k.seqno <= s && es[j].k.user > es[i].k.user ==> Unseen(es, s, i + 1, es[j].k.user)
    {
      assert Less(es[i].k, es[j].k);
      forall m | 0 <= m < i + 1 && es[j].k.user > es[i].k.user ensures es[m].k.user != es[j].k.user {
        assert m < i ==> Less(es[m].k, es[i].k);
      }
    }
  }

  lemma SkipStop(es: seq<Entry>, s: nat, i: nat, lo: nat, skip: Option<UserKey>)
    requires i < |es| && SkipReady(es, s, i, lo, skip)
    requires es[i].k.seqno <= s && es[i].k.kind.TypeValue? && (skip.Some? ==> es[i].k.user > skip.value)
    ensures lo <= i && Live(es, s, i)
  {
  }

  // ---------------------------------------------------------------- moving backwards

  /** After scanning inner positions (p, b) backwards: what the saved entry, if any, stands for. */
  ghost predicate Scanned(es: seq<Entry>, s: nat, low: nat, b: nat, found: Option<nat>)
    requires low <= b <= |es|
  {
    match found
    case None => NoneLive(es, s, low, b)
    case Some(c) =>
      && low <= c < b && es[c].k.seqno <= s && es[c].k.kind.TypeValue?
      && (forall j :: low <= j < c ==> es[j].k.seqno > s)
      && NoneLive(es, s, c + 1, b)
  }

  lemma ScanStart(es: seq<Entry>, s: nat, b: nat)
    requires b <= |es|
    ensures Scanned(es, s, b, b, None)
  {
  }

  lemma ScanStep(es: seq<Entry>, s: nat, low: nat, b: nat, found: Option<nat>)
    requires Sorted(es) && 0 < low <= b <= |es| && Scanned(es, s, low, b, found)
    requires found.Some? && es[low - 1].k.seqno <= s ==> !(es[low - 1].k.user < es[found.value].k.user)
    ensures Scanned(es, s, low - 1, b,
                    if es[low - 1].k.seqno > s then found else if es[low - 1].k.kind.TypeValue? then Some(low - 1) else None)
  {
    if found.Some? {
      assert Less(es[low - 1].k, es[found.value].k);
    }
  }

  lemma ScanStop(es: seq<Entry>, s: nat, low: nat, b: nat, c: nat)
    requires Sorted(es) && low <= b <= |es| && Scanned(es, s, low, b, Some(c))
    requires low == 0 || (es[low - 1].k.seqno <= s && es[low - 1].k.user < es[c].k.user)
    ensures Live(es, s, c) && Behind(es, s, if low == 0 then |es| else low - 1, c)
  {
    forall j | 0 <= j < c && es[j].k.user == es[c].k.user ensures es[j].k.seqno > s {
      if j < low && j < low - 1 {
        assert false;
      }
    }
  }

  // ---------------------------------------------------------------- positions in the view

  lemma CurrentRank(es: seq<Entry>, s: nat, c: nat)
    requires c < |es| && Live(es, s, c)
    ensures |LiveUpTo(es, s, c)| < |View(es, s)|
    ensures |LiveUpTo(es, s, c + 1)| == |LiveUpTo(es, s, c)| + 1
  {
    RankMonotone(es, s, c + 1, |es|);
  }

  lemma NextRank(es: seq<Entry>, s: nat, c: nat, valid: bool, cur: nat)
    requires c < |es| && Live(es, s, c)
    requires valid ==> c + 1 <= cur < |es| && NoneLive(es, s, c + 1, cur)
    requires !valid ==> NoneLive(es, s, c + 1, |es|)
    ensures |LiveUpTo(es, s, if valid then cur else |es|)| == |LiveUpTo(es, s, c)| + 1
  {
    CurrentRank(es, s, c);
    NoneLiveSameRank(es, s, c + 1, if valid then cur else |es|);
  }

  lemma PrevRank(es: seq<Entry>, s: nat, b: nat, c: nat, valid: bool, cur: nat)
    requires b <= c < |es| && NoneLive(es, s, b, c)
    requires valid ==> cur < b && Live(es, s, cur) && NoneLive(es, s, cur + 1, b)
    requires !valid ==> NoneLive(es, s, 0, b)
    ensures |LiveUpTo(es, s, c)| == if valid then |LiveUpTo(es, s, cur)| + 1 else 0
  {
    NoneLiveSameRank(es, s, b, c);
    if valid {
      CurrentRank(es, s, cur);
      NoneLiveSameRank(es, s, cur + 1, b);
    } else {
      NoneLiveSameRank(es, s, 0, b);
    }
  }

  lemma SkipCurrent(es: seq<Entry>, s: nat, p: nat, c: nat)
    requires Sorted(es) && p <= c < |es| && Live(es, s, c)
    requires forall j :: p <= j < c ==> es[j].k.seqno > s
    ensures SkipReady(es, s, p, c + 1, Some(es[c].k.user))
  {
    forall j | p <= j < |es| && es[j].k.seqno <= s
      ensures es[j].k.user >= es[c].k.user
      ensures es[j].k.user == es[c].k.user && c + 1 <= j ==> !Live(es, s, j)
      ensures es[j].k.user > es[c].k.user ==> c + 1 <= j && Unseen(es, s, p, es[j].k.user)
    {
      assert c < j ==> Less(es[c].k, es[j].k);
      forall m | 0 <= m < p && es[j].k.user > es[c].k.user ensures es[m].k.user != es[j].k.user {
        assert m < c ==> Less(es[m].k, es[c].k);
      }
    }
  }

  lemma SortedUsers(es: seq<Entry>, i: nat, c: nat)
    requires Sorted(es) && i <= c < |es|
    ensures es[i].k.user <= es[c].k.user
  {
  }

  lemma SameKeyNotLive(es: seq<Entry>, s: nat, b: nat, c: nat)
    requires c < |es| && Live(es, s, c)
    requires forall j :: b <= j < c ==> es[j].k.user == es[c].k.user
    ensures NoneLive(es, s, b, c)
  {
  }

  lemma BehindNotLive(es: seq<Entry>, s: nat, p: nat, c: nat)
    requires c < |es| && p <= |es| && Behind(es, s, p, c)
    ensures NoneLive(es, s, if p == |es| then 0 else p + 1, c)
  {
  }

  // ---------------------------------------------------------------- the iterator

  class DBIter {
    const iter: M.MergingIterator
    const sequence: nat
    var savedKey: Option<UserKey>
    var savedValue: Slice
    var direction: M.Direction
    var valid: bool
    /** The inner position of the current entry. */
    ghost var cur: nat

    ghost function Es(): seq<Entry> { iter.union }

    /** The position in the snapshot view; its length stands for "not valid". */
    ghost function At(): nat
      reads this
    {
      if valid && cur < |Es()| then |LiveUpTo(Es(), sequence, cur)| else |View(Es(), sequence)|
    }

    ghost predicate Invariant()
      reads this, iter
    {
      && iter.Invariant()
      && (valid ==>
            && cur < |Es()| && Live(Es(), sequence, cur)
            && if direction.Forward? then iter.at == cur
               else savedKey == Some(Es()[cur].k.user) && savedValue == Es()[cur].v && Behind(Es(), sequence, iter.at, cur))
    }

    constructor (iter: M.MergingIterator, sequence: nat)
      requires iter.Invariant()
      ensures this.iter == iter && this.sequence == sequence
      ensures Invariant() && !valid
    {
      this.iter := iter;
      this.sequence := sequence;
      savedKey, savedValue, direction, valid := None, [], M.Forward, false;
    }

    /** key() and value(): from the inner iterator when moving forward, saved copies when moving backward. */
    method Current() returns (key: UserKey, value: Slice)
      requires Invariant() && valid
      ensures At() < |View(Es(), sequence)|
      ensures View(Es(), sequence)[At()].k.user == key && View(Es(), sequence)[At()].v == value
    {
      LiveInView(Es(), sequence, cur);
      if direction.Forward? {
        var e := iter.Current();
        key, value := e.k.user, e.v;
      } else {
        key, value := savedKey.value, savedValue;
      }
    }

    /** Stop at the first live entry from `lo` on; entries of the user key `skip` and smaller are hidden. */
    method FindNextUserEntry(skip: Option<UserKey>, ghost lo: nat)
      requires iter.Invariant() && iter.Valid() && direction.Forward?
      requires lo <= |Es()| && SkipReady(Es(), sequence, iter.at, lo, skip) && NoneLive(Es(), sequence, lo, iter.at)
      modifies this, iter
      ensures Invariant() && direction.Forward?
      ensures valid ==> lo <= cur && NoneLive(Es(), sequence, lo, cur)
      ensures !valid ==> NoneLive(Es(), sequence, lo, |Es()|)
    {
      hide SkipReady, NoneLive, Live, Sorted;
      var skipping := skip;
      while iter.Valid()
        invariant iter.Invariant() && direction.Forward?
        invariant SkipReady(Es(), sequence, iter.at, lo, skipping) && NoneLive(Es(), sequence, lo, iter.at)
        decreases |Es()| - iter.at
      {
        var ikey := iter.Current().k;
        ghost var i, was := iter.at, skipping;
        if ikey.seqno <= sequence {
          if ikey.kind.TypeDeletion? {
            skipping := Some(ikey.user);
          } else if skipping.Some? && ikey.user <= skipping.value {
          } else {
            SkipStop(Es(), sequence, i, lo, skipping);
            valid, cur := true, iter.at;
            savedKey := None;
            return;
          }
        }
        SkipStep(Es(), sequence, i, lo, was, skipping);
        iter.Next();
      }
      savedKey, valid := None, false;
    }

    /** Stop at the last live entry before inner position `b`, which is one past the inner iterator. */
    method FindPrevUserEntry(ghost b: nat)
      requires iter.Invariant() && direction.Reverse?
      requires b == if iter.Valid() then iter.at + 1 else 0
      modifies this, iter
      ensures Invariant()
      ensures valid ==> cur < b && NoneLive(Es(), sequence, cur + 1, b)
      ensures !valid ==> NoneLive(Es(), sequence, 0, b) && direction.Forward?
    {
      hide Live, NoneLive, Sorted, Behind, M.ForwardCut, M.BackwardCut, DistinctKeys, RunEntries, View, LiveUpTo, Less;
      var valueType := TypeDeletion;
      ghost var found: Option<nat> := None;
      ghost var low := b;
      ScanStart(Es(), sequence, b);
      while iter.Valid()
        invariant iter.Invariant() && direction.Reverse?
        invariant low == if iter.Valid() then iter.at + 1 else 0
        invariant low <= b <= |Es()| && Scanned(Es(), sequence, low, b, found)
        invariant valueType.TypeValue? <==> found.Some?
        invariant found.Some? ==> savedKey == Some(Es()[found.value].k.user) && savedValue == Es()[found.value].v
        decreases low
      {
        var e := iter.Current();
        if e.k.seqno <= sequence {
          if valueType.TypeValue? && e.k.user < savedKey.value {
            break;
          }
          valueType := e.k.kind;
          if valueType.TypeDeletion? {
            savedKey, savedValue := None, [];
          } else {
            savedKey, savedValue := Some(e.k.user), e.v;
          }
        }
        ScanStep(Es(), sequence, low, b, found);
        found := if e.k.seqno > sequence then found else if e.k.kind.TypeValue? then Some(iter.at) else None;
        low := low - 1;
        iter.Prev();
      }
      if valueType.TypeDeletion? {
        valid := false;
        savedKey, savedValue := None, [];
        direction := M.Forward;
      } else {
        ScanStop(Es(), sequence, low, b, found.value);
        valid, cur := true, found.value;
      }
    }

    method Next()
      requires Invariant() && valid
      modifies this, iter
      ensures Invariant() && At() == old(At()) + 1
    {
      ghost var c := cur;
      CurrentRank(Es(), sequence, c);
      if direction.Reverse? {
        direction := M.Forward;
        // The inner iterator stands before the entries of the current key, so this reaches an entry.
        if !iter.Valid() {
          iter.SeekToFirst();
        } else {
          iter.Next();
        }
      } else {
        savedKey := Some(iter.Current().k.user);
      }
      SkipCurrent(Es(), sequence, iter.at, c);
      FindNextUserEntry(savedKey, c + 1);
      NextRank(Es(), sequence, c, valid, cur);
    }

    method Prev()
      requires Invariant() && valid
      modifies this, iter
      ensures Invariant() && At() == if old(At()) == 0 then |View(Es(), sequence)| else old(At()) - 1
    {
      hide Live, NoneLive, Sorted, M.ForwardCut, M.BackwardCut, DistinctKeys, RunEntries;
      ghost var c := cur;
      CurrentRank(Es(), sequence, c);
      if direction.Forward? {
        savedKey := Some(iter.Current().k.user);
        iter.Prev();
        while iter.Valid() && !(iter.Current().k.user < savedKey.value)
          invariant iter.Invariant() && savedKey == Some(Es()[c].k.user)
          invariant iter.Valid() ==> iter.at < c
          invariant forall j :: (if iter.Valid() then iter.at + 1 else 0) <= j < c ==> Es()[j].k.user == Es()[c].k.user
          decreases if iter.Valid() then iter.at + 1 else 0
        {
          SortedUsers(Es(), iter.at, c);
          iter.Prev();
        }
        SameKeyNotLive(Es(), sequence, if iter.Valid() then iter.at + 1 else 0, c);
        if !iter.Valid() {
          valid := false;
          savedKey, savedValue := None, [];
          PrevRank(Es(), sequence, 0, c, false, 0);
          return;
        }
        direction := M.Reverse;
      } else {
        BehindNotLive(Es(), sequence, iter.at, c);
      }
      ghost var b := if iter.Valid() then iter.at + 1 else 0;
      FindPrevUserEntry(b);
      PrevRank(Es(), sequence, b, c, valid, cur);
    }

    /** Go to the first key of the view at or after the target. */
    method Seek(target: UserKey)
      requires Invariant()
      modifies this, iter
      ensures Invariant()
      ensures At() <= |View(Es(), sequence)|
      ensures forall k :: 0 <= k < At() ==> View(Es(), sequence)[k].k.user < target
      ensures forall k :: At() <= k < |View(Es(), sequence)| ==> View(Es(), sequence)[k].k.user >= target
    {
      direction := M.Forward;
      savedValue, savedKey := [], None;
      iter.Seek(SeekKey(target, sequence));
      ghost var lo := iter.at;
      SeekReady(Es(), sequence, target);
      if iter.Valid() {
        FindNextUserEntry(None, lo);
      } else {
        valid := false;
      }
      RankSplits(Es(), sequence, lo, target);
      FirstRank(Es(), sequence, lo, valid, cur);
    }

    method SeekToFirst()
      requires Invariant()
      modifies this, iter
      ensures Invariant() && At() == 0
    {
      direction := M.Forward;
      savedValue := [];
      iter.SeekToFirst();
      StartReady(Es(), sequence);
      if iter.Valid() {
        FindNextUserEntry(None, 0);
      } else {
        valid := false;
      }
      FirstRank(Es(), sequence, 0, valid, cur);
    }

    method SeekToLast()
      requires Invariant()
      modifies this, iter
      ensures Invariant() && At() == if View(Es(), sequence) == [] then 0 else |View(Es(), sequence)| - 1
    {
      direction := M.Reverse;
      savedValue := [];
      iter.SeekToLast();
      FindPrevUserEntry(|Es()|);
      LastRank(Es(), sequence, valid, cur);
    }
  }

  lemma FirstRank(es: seq<Entry>, s: nat, lo: nat, valid: bool, cur: nat)
    requires lo <= |es|
    requires valid ==> lo <= cur < |es| && NoneLive(es, s, lo, cur)
    requires !valid ==> NoneLive(es, s, lo, |es|)
    ensures |LiveUpTo(es, s, if valid then cur else |es|)| == |LiveUpTo(es, s, lo)|
  {
    NoneLiveSameRank(es, s, lo, if valid then cur else |es|);
  }

  lemma LastRank(es: seq<Entry>, s: nat, valid: bool, cur: nat)
    requires valid ==> cur < |es| && Live(es, s, cur) && NoneLive(es, s, cur + 1, |es|)
    requires !valid ==> NoneLive(es, s, 0, |es|)
    ensures |View(es, s)| == if valid then |LiveUpTo(es, s, cur)| + 1 else 0
  {
    if valid {
      CurrentRank(es, s, cur);
      NoneLiveSameRank(es, s, cur + 1, |es|);
    } else {
      NoneLiveSameRank(es, s, 0, |es|);
    }
  }

  lemma StartReady(es: seq<Entry>, s: nat)
    ensures SkipReady(es, s, 0, 0, None) && NoneLive(es, s, 0, 0)
  {
  }

  lemma SeekReady(es: seq<Entry>, s: nat, target: UserKey)
    requires Sorted(es)
    ensures var lo := SeekIndex(es, SeekKey(target, s));
            SkipReady(es, s, lo, lo, None) && NoneLive(es, s, lo, lo)
  {
    var lo := SeekIndex(es, SeekKey(target, s));
    forall j | lo <= j < |es| && es[j].k.seqno <= s ensures Unseen(es, s, lo, es[j].k.user) {
      assert lo < j ==> Less(es[lo].k, es[j].k);
      assert es[j].k.user >= target;
    }
  }

  /** The view positions before the rank of a seek position hold smaller user keys, the others do not. */
  lemma RankSplits(es: seq<Entry>, s: nat, lo: nat, target: UserKey)
    requires Sorted(es) && lo == SeekIndex(es, SeekKey(target, s))
    ensures var r := |LiveUpTo(es, s, lo)|;
            && r <= |View(es, s)|
            && (forall k :: 0 <= k < r ==> View(es, s)[k].k.user < target)
            && (forall k :: r <= k < |View(es, s)| ==> View(es, s)[k].k.user >= target)
  {
    RankMonotone(es, s, lo, |es|);
    var r := |LiveUpTo(es, s, lo)|;
    forall k | 0 <= k < |View(es, s)| ensures k < r <==> View(es, s)[k].k.user < target {
      var i := ViewOrigin(es, s, |es|, k);
      if i < lo {
        RankMonotone(es, s, i + 1, lo);
        assert Less(es[i].k, SeekKey(target, s));
      } else {
        RankMonotone(es, s, lo, i);
        assert lo < i ==> Less(es[lo].k, es[i].k);
      }
    }
  }

  /** The inner position that view position `k` comes from. */
  lemma {:induction false} ViewOrigin(es: seq<Entry>, s: nat, n: nat, k: nat) returns (i: nat)
    requires n <= |es| && k < |LiveUpTo(es, s, n)|
    ensures i < n && Live(es, s, i) && |LiveUpTo(es, s, i)| == k && LiveUpTo(es, s, n)[k] == es[i]
  {
    if k < |LiveUpTo(es, s, n - 1)| {
      i := ViewOrigin(es, s, n - 1, k);
    } else {
      i := n - 1;
    }
  }

  /** The view has each user key once, in order. */
  lemma ViewAscends(es: seq<Entry>, s: nat, a: nat, b: nat)
    requires Sorted(es) && a < b < |View(es, s)|
    ensures View(es, s)[a].k.user < View(es, s)[b].k.user
  {
    var i := ViewOrigin(es, s, |es|, a);
    var j := ViewOrigin(es, s, |es|, b);
    if j <= i {
      RankMonotone(es, s, j, i);
      assert false;
    }
    assert Less(es[i].k, es[j].k);
  }

  /** A user key is in the view with a value exactly when the newest entry that the reader sees is that value. */
  lemma ViewHoldsNewest(es: seq<Entry>, s: nat, u: UserKey, v: Slice, r: Option<Entry>)
    requires Sorted(es) && Unambiguous(Elements(es)) && Newest(Elements(es), u, s, r)
    ensures (exists k :: 0 <= k < |View(es, s)| && View(es, s)[k].k.user == u && View(es, s)[k].v == v) <==>
            (r.Some? && r.value.k.kind.TypeValue? && r.value.v == v)
  {
    if k :| 0 <= k < |View(es, s)| && View(es, s)[k].k.user == u && View(es, s)[k].v == v {
      var i := ViewOrigin(es, s, |es|, k);
      LiveIsNewest(es, s, i, r);
    }
    if r.Some? && r.value.k.kind.TypeValue? && r.value.v == v {
      var i := NewestIsLive(es, s, u, r.value);
      LiveInView(es, s, i);
    }
  }

  lemma LiveIsNewest(es: seq<Entry>, s: nat, i: nat, r: Option<Entry>)
    requires Sorted(es) && Unambiguous(Elements(es)) && i < |es| && Live(es, s, i)
    requires Newest(Elements(es), es[i].k.user, s, r)
    ensures r == Some(es[i])
  {
    assert es[i] in Elements(es) && Visible(es[i], es[i].k.user, s);
    var j :| 0 <= j < |es| && es[j] == r.value;
    assert es[j] in Elements(es);
  }

  lemma NewestIsLive(es: seq<Entry>, s: nat, u: UserKey, e: Entry) returns (i: nat)
    requires Sorted(es) && Newest(Elements(es), u, s, Some(e)) && e.k.kind.TypeValue?
    ensures i < |es| && es[i] == e && Live(es, s, i)
  {
    i :| 0 <= i < |es| && es[i] == e;
    forall j | 0 <= j < i && es[j].k.user == u ensures es[j].k.seqno > s {
      assert Less(es[j].k, es[i].k);
      assert es[j] in Elements(es);
    }
  }
}
