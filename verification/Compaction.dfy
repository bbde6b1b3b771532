/** The compaction loop: which entries of the merged inputs survive and into which outputs they go (db/db_impl.cc,
    DoCompactionWork), and the two tests with cursors that only move forward (db/version_set.cc, IsBaseLevelForKey and
    ShouldStopBefore). */
module Compaction {
  import opened InternalKeys
  import opened Version
  import opened OutputCuts

  /** No file below the output level has `u` in its user-key range: a full scan of levels level+2 and deeper. */
  ghost predicate BaseLevel(v: Levels, level: nat, u: UserKey) {
    forall l, f :: level + 2 <= l < |v| && f in v[l] ==> !(f.smallest.user <= u <= f.largest.user)
  }

  /** An entry of the inputs is hidden when a newer one for its user key is already old enough for every reader. */
  ghost predicate Hidden(inputs: set<Entry>, snapshot: nat, e: Entry) {
    exists x <- inputs :: x.k.user == e.k.user && Less(x.k, e.k) && x.k.seqno <= snapshot
  }

  /** A tombstone is obsolete when every reader sees it and no deeper level can hold data for its user key. */
  ghost predicate Obsolete(v: Levels, level: nat, snapshot: nat, e: Entry) {
    e.k.kind.TypeDeletion? && e.k.seqno <= snapshot && BaseLevel(v, level, e.k.user)
  }

  ghost predicate Dropped(v: Levels, level: nat, snapshot: nat, inputs: set<Entry>, e: Entry) {
    Hidden(inputs, snapshot, e) || Obsolete(v, level, snapshot, e)
  }

  /** The first `n` merged entries without the dropped ones, in order. */
  ghost function Kept(v: Levels, level: nat, snapshot: nat, input: seq<Entry>, n: nat): seq<Entry>
    requires n <= |input|
  {
    if n == 0 then []
    else
      Kept(v, level, snapshot, input, n - 1) +
      if Dropped(v, level, snapshot, Elements(input), input[n - 1]) then [] else [input[n - 1]]
  }

  function Flatten<T>(parts: seq<seq<T>>): seq<T> {
    if parts == [] then [] else Flatten(parts[..|parts| - 1]) + parts[|parts| - 1]
  }

  /** In a sorted run, an entry is hidden exactly when its predecessor has the same user key and a low sequence number. */
  lemma HiddenByPredecessor(input: seq<Entry>, i: nat, snapshot: nat)
    requires Sorted(input) && i < |input|
    ensures Hidden(Elements(input), snapshot, input[i]) <==>
            i > 0 && input[i - 1].k.user == input[i].k.user && input[i - 1].k.seqno <= snapshot
  {
    if Hidden(Elements(input), snapshot, input[i]) {
      var x :| x in Elements(input) && x.k.user == input[i].k.user && Less(x.k, input[i].k) && x.k.seqno <= snapshot;
      var j :| 0 <= j < |input| && input[j] == x;
      assert j < i;
      assert !Less(input[i - 1].k, input[j].k) && !Less(input[i].k, input[i - 1].k);
    }
    if i > 0 {
      assert input[i - 1] in Elements(input);
    }
  }

  class Compaction {
    const level: nat
    const inputVersion: Levels
    const levelPtrs: array<nat>
    const grandparents: seq<File>
    const limit: nat
    var grandparentIndex: nat
    var seenKey: bool
    var overlappedBytes: nat

    ghost predicate Valid()
      reads levelPtrs
    {
      && ValidVersion(inputVersion)
      && level + 1 < NUM_LEVELS
      && levelPtrs.Length == NUM_LEVELS
      && forall l :: level + 2 <= l < NUM_LEVELS ==> levelPtrs[l] <= |inputVersion[l]|
    }

    /** Every file a cursor has passed ends before `u`. */
    ghost predicate CursorsBefore(u: UserKey)
      requires Valid()
      reads levelPtrs
    {
      forall l, i :: level + 2 <= l < NUM_LEVELS && 0 <= i < levelPtrs[l] ==> inputVersion[l][i].largest.user < u
    }

    ghost predicate CursorsAtStart()
      reads levelPtrs
    {
      forall l :: 0 <= l < levelPtrs.Length ==> levelPtrs[l] == 0
    }

    /** What the search for overlap remembers of entries `[..i]`. */
    ghost predicate LookedAt(input: seq<Entry>, i: nat)
      requires i <= |input|
      reads this
    {
      && grandparentIndex == (if i == 0 then 0 else Passed(grandparents, input[i - 1].k))
      && (seenKey <==> i > 0)
      && overlappedBytes == Overlapped(grandparents, limit, input, i)
    }

    constructor (version: Levels, level: nat, grandparents: seq<File>, limit: nat)
      requires ValidVersion(version) && level + 1 < NUM_LEVELS
      ensures this.level == level && inputVersion == version && this.grandparents == grandparents && this.limit == limit
      ensures Valid() && CursorsAtStart() && fresh(levelPtrs)
      ensures grandparentIndex == 0 && !seenKey && overlappedBytes == 0
    {
      this.level := level;
      inputVersion := version;
      this.grandparents, this.limit := grandparents, limit;
      grandparentIndex, seenKey, overlappedBytes := 0, false, 0;
      levelPtrs := new nat[NUM_LEVELS](_ => 0);
    }

    method IsBaseLevelForKey(u: UserKey) returns (base: bool)
      requires Valid() && CursorsBefore(u)
      modifies levelPtrs
      ensures Valid() && CursorsBefore(u)
      ensures base <==> BaseLevel(inputVersion, level, u)
    {
      var l := level + 2;
      while l < NUM_LEVELS
        invariant level + 2 <= l
        invariant Valid() && CursorsBefore(u)
        invariant forall m, f :: level + 2 <= m < l && m < NUM_LEVELS && f in inputVersion[m] ==>
                    !(f.smallest.user <= u <= f.largest.user)
      {
        var files := inputVersion[l];
        while levelPtrs[l] < |files|
          invariant Valid() && CursorsBefore(u)
          invariant forall i :: 0 <= i < levelPtrs[l] ==> files[i].largest.user < u
          decreases |files| - levelPtrs[l]
        {
          var f := files[levelPtrs[l]];
          if u <= f.largest.user {
            if f.smallest.user <= u {
              return false;
            }
            break;
          }
          levelPtrs[l] := levelPtrs[l] + 1;
        }
        CursorSettles(files, levelPtrs[l], u);
        l := l + 1;
      }
      return true;
    }

    /** The two drop rules for entry `i`, given the sequence number last seen for its user key. */
    method ShouldDrop(input: seq<Entry>, i: nat, snapshot: nat, lastSequenceForKey: nat) returns (drop: bool)
      requires Valid() && Sorted(input) && i < |input| && CursorsBefore(input[i].k.user)
      requires snapshot < MAX_SEQUENCE
      requires lastSequenceForKey ==
               if i > 0 && input[i - 1].k.user == input[i].k.user then input[i - 1].k.seqno else MAX_SEQUENCE
      modifies levelPtrs
      ensures Valid() && CursorsBefore(input[i].k.user)
      ensures drop <==> Dropped(inputVersion, level, snapshot, Elements(input), input[i])
    {
      HiddenByPredecessor(input, i, snapshot);
      var ikey := input[i].k;
      drop := false;
      if lastSequenceForKey <= snapshot {
        drop := true;
      } else if ikey.kind.TypeDeletion? && ikey.seqno <= snapshot {
        drop := IsBaseLevelForKey(ikey.user);
      }
    }

    /** The grandparents that `key` is behind are counted, but for those before the first key; too many bytes of them end the
        output. */
    method ShouldStopBefore(key: IKey, ghost input: seq<Entry>, ghost i: nat) returns (stop: bool)
      requires Sorted(input) && i < |input| && input[i].k == key && LookedAt(input, i)
      modifies this
      ensures LookedAt(input, i + 1) && (stop <==> StopsBefore(grandparents, limit, input, i))
    {
      hide Overlapped, StopsBefore, Less, TotalFileSize;
      ghost var first := grandparentIndex;
      InOrder(input, i);
      if i > 0 {
        PassedGrows(grandparents, input[i - 1].k, key);
      }
      NothingSized(grandparents, first);
      while grandparentIndex < |grandparents| && Less(grandparents[grandparentIndex].largest, key)
        invariant first <= grandparentIndex <= Passed(grandparents, key) && (seenKey <==> i > 0)
        invariant overlappedBytes ==
                  Overlapped(grandparents, limit, input, i) + if seenKey then TotalFileSize(grandparents[first..grandparentIndex]) else 0
      {
        if seenKey {
          overlappedBytes := overlappedBytes + grandparents[grandparentIndex].size;
        }
        OneMoreSize(grandparents, first, grandparentIndex);
        grandparentIndex := grandparentIndex + 1;
      }
      assert grandparentIndex == Passed(grandparents, key);
      CountedBefore(grandparents, limit, input, i);
      seenKey := true;
      stop := overlappedBytes > limit;
      if stop {
        overlappedBytes := 0;
      }
    }

    ghost function WorkOn(input: seq<Entry>, snapshot: nat, full: seq<bool>): Work {
      Work(inputVersion, level, snapshot, input, grandparents, limit, full)
    }

    /** One pass over the merged inputs. `full[i]` tells that the output's file has reached its size with entry `i`. */
    method DoCompactionWork(input: seq<Entry>, snapshot: nat, full: seq<bool>) returns (outputs: seq<seq<Entry>>)
      requires Valid() && CursorsAtStart() && LookedAt(input, 0)
      requires Sorted(input)
      requires snapshot < MAX_SEQUENCE
      requires |full| == |input|
      modifies this, levelPtrs
      ensures Flatten(outputs) == Kept(inputVersion, level, snapshot, input, |input|)
      ensures forall o <- outputs :: WithinReach(grandparents, limit, o)
      ensures CutAsTold(WorkOn(input, snapshot, full), outputs)
    {
      hide Dropped, ValidVersion, Kept, Flatten, Sorted, KeptSoFar, Divided, DividedBefore, Near, StopsBefore, Overlapped, CutAsTold;
      hide Between, WithinReach;
      ghost var work := WorkOn(input, snapshot, full);
      outputs := [];
      var builder: Option<seq<Entry>> := None;
      var currentUserKey: Option<UserKey> := None;
      var lastSequenceForKey := MAX_SEQUENCE;
      NothingKept(inputVersion, level, snapshot, input);
      NothingDivided(work);
      for i := 0 to |input|
        invariant Valid() && LookedAt(input, i)
        invariant i < |input| ==> CursorsBefore(input[i].k.user)
        invariant i == 0 ==> currentUserKey.None?
        invariant i > 0 ==> currentUserKey == Some(input[i - 1].k.user) && lastSequenceForKey == input[i - 1].k.seqno
        invariant forall o <- outputs :: WithinReach(grandparents, limit, o)
        invariant KeptSoFar(outputs, builder, Kept(inputVersion, level, snapshot, input, i))
        invariant Divided(work, outputs, builder, i) && Near(work, builder, i)
      {
        var stop := ShouldStopBefore(input[i].k, input, i);
        StopStep(work, outputs, builder, i);
        if stop && builder.Some? {
          CloseOutput(outputs, builder.value, Kept(inputVersion, level, snapshot, input, i));
          outputs, builder := outputs + [builder.value], None;
        }
        var ikey := input[i].k;
        if currentUserKey.None? || currentUserKey.value != ikey.user {
          currentUserKey, lastSequenceForKey := Some(ikey.user), MAX_SEQUENCE;
        }
        var drop := ShouldDrop(input, i, snapshot, lastSequenceForKey);
        lastSequenceForKey := ikey.seqno;
        KeptStep(inputVersion, level, snapshot, input, i, outputs, builder);
        KeepStep(work, outputs, builder, i);
        if !drop {
          builder := Some(With(builder, input[i]));
          if full[i] {
            CloseOutput(outputs, builder.value, Kept(inputVersion, level, snapshot, input, i + 1));
            outputs, builder := outputs + [builder.value], None;
          }
        }
        UsersAscend(input, i);
      }
      LastStep(work, outputs, builder);
      if builder.Some? {
        CloseOutput(outputs, builder.value, Kept(inputVersion, level, snapshot, input, |input|));
        outputs, builder := outputs + [builder.value], None;
      }
      AllClosed(outputs, Kept(inputVersion, level, snapshot, input, |input|));
    }
  }

  lemma InOrder(input: seq<Entry>, i: nat)
    requires Sorted(input) && i < |input|
    ensures i > 0 ==> !Less(input[i].k, input[i - 1].k)
  {
  }

  lemma CountedBefore(grandparents: seq<File>, limit: nat, input: seq<Entry>, i: nat)
    requires i < |input|
    ensures i == 0 ==> Overlapped(grandparents, limit, input, i) == 0 && !StopsBefore(grandparents, limit, input, i)
    ensures i > 0 ==>
              (StopsBefore(grandparents, limit, input, i) <==>
               Overlapped(grandparents, limit, input, i) + Between(grandparents, input[i - 1].k, input[i].k) > limit)
    ensures Overlapped(grandparents, limit, input, i + 1) ==
            if i == 0 || StopsBefore(grandparents, limit, input, i) then 0
            else Overlapped(grandparents, limit, input, i) + Between(grandparents, input[i - 1].k, input[i].k)
  {
    hide Between;
  }

  lemma NothingSized(files: seq<File>, i: nat)
    requires i <= |files|
    ensures TotalFileSize(files[i..i]) == 0
  {
  }

  lemma OneMoreSize(files: seq<File>, i: nat, j: nat)
    requires i <= j < |files|
    ensures TotalFileSize(files[i..j + 1]) == TotalFileSize(files[i..j]) + files[j].size
  {
    assert files[i..j + 1][..j - i] == files[i..j];
  }

  // ---------------------------------------------------------------- where outputs end

  /** What a compaction works on. */
  datatype Work = Work(version: Levels, level: nat, snapshot: nat, input: seq<Entry>, grandparents: seq<File>, limit: nat,
                       full: seq<bool>)
  {
    ghost predicate Keeps(i: nat)
      requires i < |input|
    {
      !Dropped(version, level, snapshot, Elements(input), input[i])
    }

    /** How many entries are kept before entry `i`. */
    ghost function Place(i: nat): nat
      requires i <= |input|
    {
      |Kept(version, level, snapshot, input, i)|
    }

    /** Entry `i` is the last one kept before entry `j`. */
    ghost predicate LastBefore(i: nat, j: nat) {
      i < j <= |input| && Keeps(i) && forall k :: i < k < j ==> !Keeps(k)
    }

    /** There is a reason to end an output behind entry `i` or before one of the entries up to `j`. */
    predicate Ends(i: nat, j: nat)
      requires i <= j < |input| == |full|
    {
      full[i] || exists k :: i < k <= j && StopsBefore(grandparents, limit, input, k)
    }
  }

  /** The outputs are cut at place `n` of all that they hold. */
  ghost predicate CutAt(outputs: seq<seq<Entry>>, n: nat) {
    exists m :: 0 <= m <= |outputs| && |Flatten(outputs[..m])| == n
  }

  /** The output holds something, and the grandparents that end within its range have no more bytes than the limit. */
  predicate WithinReach(grandparents: seq<File>, limit: nat, output: seq<Entry>) {
    output != [] && Between(grandparents, output[0].k, output[|output| - 1].k) <= limit
  }

  /** Two kept entries with none between them go to different outputs exactly if there is a reason. */
  ghost predicate CutAsTold(w: Work, outputs: seq<seq<Entry>>)
    requires |w.full| == |w.input|
  {
    CutsUpTo(w, outputs, |w.input|)
  }

  ghost predicate CutsUpTo(w: Work, outputs: seq<seq<Entry>>, n: nat)
    requires n <= |w.input| == |w.full|
  {
    forall i: nat, j: nat :: j < n && w.LastBefore(i, j) && w.Keeps(j) ==> (CutAt(outputs, w.Place(j)) <==> w.Ends(i, j))
  }

  /** Entries `[..n]` are dealt with. */
  ghost predicate Divided(w: Work, outputs: seq<seq<Entry>>, builder: Option<seq<Entry>>, n: nat)
    requires n <= |w.input| == |w.full|
  {
    CutsUpTo(w, outputs, n) && forall i: nat :: w.LastBefore(i, n) ==> (builder.None? <==> w.Ends(i, n - 1))
  }

  /** Entry `n` is looked at, and an output before it is ended if need be. */
  ghost predicate DividedBefore(w: Work, outputs: seq<seq<Entry>>, builder: Option<seq<Entry>>, n: nat)
    requires n < |w.input| == |w.full|
  {
    CutsUpTo(w, outputs, n) && forall i: nat :: w.LastBefore(i, n) ==> (builder.None? <==> w.Ends(i, n))
  }

  /** The output that is being built does not reach over too much, up to the last entry looked at. */
  ghost predicate Near(w: Work, builder: Option<seq<Entry>>, n: nat)
    requires n <= |w.input|
  {
    builder.Some? ==>
      && n > 0 && builder.value != []
      && !Less(w.input[n - 1].k, builder.value[|builder.value| - 1].k)
      && !Less(builder.value[|builder.value| - 1].k, builder.value[0].k)
      && Between(w.grandparents, builder.value[0].k, w.input[n - 1].k) <= Overlapped(w.grandparents, w.limit, w.input, n)
  }

  lemma NothingDivided(w: Work)
    requires |w.full| == |w.input|
    ensures Divided(w, [], None, 0) && Near(w, None, 0)
  {
  }

  lemma {:induction false} PlacesGrow(w: Work, i: nat, j: nat)
    requires i < j <= |w.input|
    ensures w.Place(i) <= w.Place(j) && (w.Keeps(i) ==> w.Place(i) < w.Place(j))
    decreases j
  {
    if i + 1 < j {
      PlacesGrow(w, i, j - 1);
    }
  }

  lemma {:induction false} FrontIsShorter<T>(parts: seq<seq<T>>, m: nat)
    requires m <= |parts|
    ensures |Flatten(parts[..m])| <= |Flatten(parts)|
    decreases |parts|
  {
    if m == |parts| {
      assert parts[..m] == parts;
    } else {
      var n := |parts| - 1;
      FrontIsShorter(parts[..n], m);
      assert parts[..n][..m] == parts[..m];
    }
  }

  /** Closing an output cuts nowhere before its end but where it begins, which is a cut already. */
  lemma CutsStay(outputs: seq<seq<Entry>>, last: seq<Entry>, n: nat)
    requires n < |Flatten(outputs)| + |last|
    ensures CutAt(outputs + [last], n) <==> CutAt(outputs, n)
  {
    var more := outputs + [last];
    FlattenSnoc(outputs, last);
    assert more[..|more|] == more;
    assert forall m :: 0 <= m <= |outputs| ==> more[..m] == outputs[..m];
  }

  lemma CutsUpToStay(w: Work, outputs: seq<seq<Entry>>, last: seq<Entry>, n: nat)
    requires n <= |w.input| == |w.full| && CutsUpTo(w, outputs, n)
    requires |Flatten(outputs)| + |last| == w.Place(n)
    ensures CutsUpTo(w, outputs + [last], n)
  {
    hide CutAt, Flatten;
    forall i: nat, j: nat | j < n && w.LastBefore(i, j) && w.Keeps(j)
      ensures CutAt(outputs + [last], w.Place(j)) <==> w.Ends(i, j)
    {
      PlacesGrow(w, j, n);
      CutsStay(outputs, last, w.Place(j));
    }
  }

  lemma CutHere(w: Work, outputs: seq<seq<Entry>>, builder: Option<seq<Entry>>, n: nat)
    requires n <= |w.input|
    requires KeptSoFar(outputs, builder, Kept(w.version, w.level, w.snapshot, w.input, n)) && (builder.Some? ==> builder.value != [])
    ensures CutAt(outputs, w.Place(n)) <==> builder.None?
  {
    assert outputs[..|outputs|] == outputs;
    forall m: nat | m <= |outputs| ensures |Flatten(outputs[..m])| <= |Flatten(outputs)| {
      FrontIsShorter(outputs, m);
    }
  }

  lemma HeldSoFar(w: Work, outputs: seq<seq<Entry>>, last: seq<Entry>, n: nat)
    requires n <= |w.input|
    requires KeptSoFar(outputs, Some(last), Kept(w.version, w.level, w.snapshot, w.input, n))
    ensures |Flatten(outputs)| + |last| == w.Place(n)
  {
  }

  /** After the look at entry `n`. */
  lemma StopStep(w: Work, outputs: seq<seq<Entry>>, builder: Option<seq<Entry>>, n: nat)
    requires n < |w.input| == |w.full| && Sorted(w.input) && Divided(w, outputs, builder, n) && Near(w, builder, n)
    requires KeptSoFar(outputs, builder, Kept(w.version, w.level, w.snapshot, w.input, n))
    ensures var stop := StopsBefore(w.grandparents, w.limit, w.input, n);
            && (stop && builder.Some? ==>
                  && DividedBefore(w, outputs + [builder.value], None, n) && Near(w, None, n + 1)
                  && WithinReach(w.grandparents, w.limit, builder.value))
            && (!stop || builder.None? ==> DividedBefore(w, outputs, builder, n) && Near(w, builder, n + 1))
  {
    hide KeptSoFar, CutsUpTo, Between, Dropped, Kept, StopsBefore, Overlapped;
    EndsLater(w, n);
    if builder.Some? {
      var b := builder.value;
      HeldSoFar(w, outputs, b, n);
      CutsUpToStay(w, outputs, b, n);
      BetweenAdds(w.grandparents, b[0].k, b[|b| - 1].k, w.input[n - 1].k);
      BetweenAdds(w.grandparents, b[0].k, w.input[n - 1].k, w.input[n].k);
      CountedOn(w, n);
    }
  }

  lemma EndsLater(w: Work, n: nat)
    requires n < |w.input| == |w.full|
    ensures forall i: nat :: i < n ==> (w.Ends(i, n) <==> w.Ends(i, n - 1) || StopsBefore(w.grandparents, w.limit, w.input, n))
  {
    hide StopsBefore;
  }

  lemma CountedOn(w: Work, n: nat)
    requires 0 < n < |w.input|
    ensures !StopsBefore(w.grandparents, w.limit, w.input, n) ==>
              Overlapped(w.grandparents, w.limit, w.input, n + 1) ==
              Overlapped(w.grandparents, w.limit, w.input, n) + Between(w.grandparents, w.input[n - 1].k, w.input[n].k)
  {
    hide Between;
  }

  function With(builder: Option<seq<Entry>>, e: Entry): (b: seq<Entry>)
    ensures b != []
  {
    if builder.Some? then builder.value + [e] else [e]
  }

  /** After entry `n` is dropped or kept. */
  lemma KeepStep(w: Work, outputs: seq<seq<Entry>>, builder: Option<seq<Entry>>, n: nat)
    requires n < |w.input| == |w.full| && DividedBefore(w, outputs, builder, n) && Near(w, builder, n + 1)
    requires KeptSoFar(outputs, builder, Kept(w.version, w.level, w.snapshot, w.input, n))
    ensures !w.Keeps(n) ==> Divided(w, outputs, builder, n + 1) && Near(w, builder, n + 1)
    ensures w.Keeps(n) ==>
              var b := With(builder, w.input[n]);
              && WithinReach(w.grandparents, w.limit, b)
              && (if w.full[n] then Divided(w, outputs + [b], None, n + 1) && Near(w, None, n + 1)
                  else Divided(w, outputs, Some(b), n + 1) && Near(w, Some(b), n + 1))
  {
    hide Between, Dropped, Kept, StopsBefore, Overlapped, CutAt, KeptSoFar, CutsUpTo, Divided, DividedBefore;
    if w.Keeps(n) {
      CutHere(w, outputs, builder, n);
      KeptOneMore(w, outputs, builder, n);
      AddedReaches(w, builder, n);
      var b := With(builder, w.input[n]);
      KeptStep(w.version, w.level, w.snapshot, w.input, n, outputs, builder);
      HeldSoFar(w, outputs, b, n + 1);
      CutsUpToStay(w, outputs, b, n + 1);
      OpenAfter(w, if w.full[n] then outputs + [b] else outputs, if w.full[n] then None else Some(b), n);
    } else {
      DroppedOneMore(w, outputs, builder, n);
    }
  }

  lemma AddedReaches(w: Work, builder: Option<seq<Entry>>, n: nat)
    requires n < |w.input| && Near(w, builder, n + 1)
    ensures var b := With(builder, w.input[n]);
            Near(w, Some(b), n + 1) && WithinReach(w.grandparents, w.limit, b)
  {
    hide Between, Overlapped;
    NothingBetween(w.grandparents, w.input[n].k);
  }

  lemma KeptOneMore(w: Work, outputs: seq<seq<Entry>>, builder: Option<seq<Entry>>, n: nat)
    requires n < |w.input| == |w.full| && DividedBefore(w, outputs, builder, n) && w.Keeps(n)
    requires CutAt(outputs, w.Place(n)) <==> builder.None?
    ensures CutsUpTo(w, outputs, n + 1)
  {
    hide Dropped, Kept, StopsBefore, CutAt;
  }

  lemma DroppedOneMore(w: Work, outputs: seq<seq<Entry>>, builder: Option<seq<Entry>>, n: nat)
    requires n < |w.input| == |w.full| && DividedBefore(w, outputs, builder, n) && !w.Keeps(n)
    ensures Divided(w, outputs, builder, n + 1)
  {
    hide Dropped, Kept, StopsBefore, CutAt;
    LastStays(w, n, n + 1);
  }

  lemma LastStays(w: Work, n: nat, m: nat)
    requires m == n + 1 <= |w.input| && !w.Keeps(n)
    ensures forall i: nat :: w.LastBefore(i, m) ==> w.LastBefore(i, n)
  {
    hide Dropped;
  }

  lemma OpenAfter(w: Work, after: seq<seq<Entry>>, open: Option<seq<Entry>>, n: nat)
    requires n < |w.input| == |w.full| && w.Keeps(n) && CutsUpTo(w, after, n + 1) && (open.None? <==> w.full[n])
    ensures Divided(w, after, open, n + 1)
  {
    hide Dropped, Kept, StopsBefore, CutAt, CutsUpTo;
    OnlyLast(w, n, n + 1);
  }

  lemma OnlyLast(w: Work, n: nat, m: nat)
    requires m == n + 1 <= |w.input| && w.Keeps(n)
    ensures forall i: nat :: w.LastBefore(i, m) ==> i == n
  {
    hide Dropped;
  }

  /** After the last entry. */
  lemma LastStep(w: Work, outputs: seq<seq<Entry>>, builder: Option<seq<Entry>>)
    requires |w.input| == |w.full| && Divided(w, outputs, builder, |w.input|) && Near(w, builder, |w.input|)
    requires KeptSoFar(outputs, builder, Kept(w.version, w.level, w.snapshot, w.input, |w.input|))
    ensures builder.None? ==> CutAsTold(w, outputs)
    ensures builder.Some? ==>
              CutAsTold(w, outputs + [builder.value]) && WithinReach(w.grandparents, w.limit, builder.value)
  {
    hide KeptSoFar, CutsUpTo, Between, Dropped, Kept, Overlapped;
    if builder.Some? {
      var b, n := builder.value, |w.input|;
      HeldSoFar(w, outputs, b, n);
      CutsUpToStay(w, outputs, b, n);
      BetweenAdds(w.grandparents, b[0].k, b[|b| - 1].k, w.input[n - 1].k);
    }
  }

  /** The closed outputs and the one being built hold `kept`. */
  ghost predicate KeptSoFar(outputs: seq<seq<Entry>>, builder: Option<seq<Entry>>, kept: seq<Entry>) {
    Flatten(outputs) + (if builder.Some? then builder.value else []) == kept
  }

  lemma NothingKept(v: Levels, level: nat, snapshot: nat, input: seq<Entry>)
    ensures KeptSoFar([], None, Kept(v, level, snapshot, input, 0))
  {
  }

  lemma CloseOutput(outputs: seq<seq<Entry>>, last: seq<Entry>, kept: seq<Entry>)
    requires KeptSoFar(outputs, Some(last), kept)
    ensures KeptSoFar(outputs + [last], None, kept)
  {
    FlattenSnoc(outputs, last);
  }

  lemma AllClosed(outputs: seq<seq<Entry>>, kept: seq<Entry>)
    requires KeptSoFar(outputs, None, kept)
    ensures Flatten(outputs) == kept
  {
  }

  lemma KeptStep(v: Levels, level: nat, snapshot: nat, input: seq<Entry>, i: nat,
                 outputs: seq<seq<Entry>>, builder: Option<seq<Entry>>)
    requires i < |input| && KeptSoFar(outputs, builder, Kept(v, level, snapshot, input, i))
    ensures KeptSoFar(outputs,
                      if Dropped(v, level, snapshot, Elements(input), input[i]) then builder
                      else Some(With(builder, input[i])),
                      Kept(v, level, snapshot, input, i + 1))
  {
    hide Dropped, Flatten;
  }

  lemma UsersAscend(input: seq<Entry>, i: nat)
    requires Sorted(input) && i < |input|
    ensures i + 1 < |input| ==> input[i].k.user <= input[i + 1].k.user
  {
  }

  /** In a sorted, disjoint level no file holds `u` once the cursor's file starts after `u`, or the cursor is at the end. */
  lemma CursorSettles(files: seq<File>, cursor: nat, u: UserKey)
    requires forall f <- files :: ValidFile(f)
    requires Disjoint(files)
    requires cursor <= |files|
    requires forall i :: 0 <= i < cursor ==> files[i].largest.user < u
    requires cursor < |files| ==> u < files[cursor].smallest.user
    ensures forall f <- files :: !(f.smallest.user <= u <= f.largest.user)
  {
    forall f <- files ensures !(f.smallest.user <= u <= f.largest.user) {
      var i :| 0 <= i < |files| && files[i] == f;
      if i > cursor {
        FileBounds(files[cursor]);
        assert Less(files[cursor].largest, f.smallest);
      }
    }
  }

  lemma FlattenSnoc<T>(parts: seq<seq<T>>, last: seq<T>)
    ensures Flatten(parts + [last]) == Flatten(parts) + last
  {
    assert (parts + [last])[..|parts|] == parts;
  }

  /** The kept entries are in order, and are exactly the input entries that are not dropped. */
  lemma {:induction false} KeptEntries(v: Levels, level: nat, snapshot: nat, input: seq<Entry>, n: nat)
    requires Sorted(input) && n <= |input|
    ensures Sorted(Kept(v, level, snapshot, input, n))
    ensures forall e :: e in Kept(v, level, snapshot, input, n) <==>
              e in input[..n] && !Dropped(v, level, snapshot, Elements(input), e)
  {
    if n > 0 {
      KeptEntries(v, level, snapshot, input, n - 1);
      var front := Kept(v, level, snapshot, input, n - 1);
      assert input[..n] == input[..n - 1] + [input[n - 1]];
      forall i | 0 <= i < |front| ensures Less(front[i].k, input[n - 1].k) {
        assert front[i] in front && front[i] in input[..n - 1];
      }
    }
  }

  /** Nothing superfluous is kept: of the entries of a user key at or below the snapshot only the newest one stays, and it is
      no tombstone if no deeper level can have the key. */
  lemma OneVersionLeft(v: Levels, level: nat, snapshot: nat, input: seq<Entry>, x: Entry, y: Entry)
    requires Sorted(input)
    requires x in Kept(v, level, snapshot, input, |input|) && y in Kept(v, level, snapshot, input, |input|)
    requires x.k.user == y.k.user && x.k.seqno <= snapshot && y.k.seqno <= snapshot
    ensures x.k == y.k
    ensures BaseLevel(v, level, x.k.user) ==> x.k.kind.TypeValue?
  {
    hide BaseLevel;
    KeptEntries(v, level, snapshot, input, |input|);
    assert x in Elements(input) && y in Elements(input);
  }

  lemma {:induction false} PartsOfSorted(parts: seq<seq<Entry>>, i: nat)
    requires Sorted(Flatten(parts)) && i < |parts|
    ensures Sorted(parts[i])
    ensures forall e <- parts[i] :: e in Flatten(parts)
    ensures forall j, x, y :: 0 <= j < i && x in parts[j] && y in parts[i] ==> Less(x.k, y.k)
    decreases |parts|
  {
    var n := |parts| - 1;
    var init, last := parts[..n], parts[n];
    assert Flatten(parts) == Flatten(init) + last;
    SortedPieces(Flatten(init), last);
    if i < n {
      PartsOfSorted(init, i);
    } else {
      forall j | 0 <= j < n ensures forall x <- parts[j] :: x in Flatten(init) {
        PartsOfSorted(init, j);
      }
    }
  }

  lemma SortedPieces(a: seq<Entry>, b: seq<Entry>)
    requires Sorted(a + b)
    ensures Sorted(a) && Sorted(b)
    ensures forall x, y :: x in a && y in b ==> Less(x.k, y.k)
  {
    forall i, j | 0 <= i < j < |a| ensures Less(a[i].k, a[j].k) {
      assert (a + b)[i] == a[i] && (a + b)[j] == a[j];
    }
    forall i, j | 0 <= i < j < |b| ensures Less(b[i].k, b[j].k) {
      assert (a + b)[|a| + i] == b[i] && (a + b)[|a| + j] == b[j];
    }
    forall x, y | x in a && y in b ensures Less(x.k, y.k) {
      var i :| 0 <= i < |a| && a[i] == x;
      var j :| 0 <= j < |b| && b[j] == y;
      assert (a + b)[i] == x && (a + b)[|a| + j] == y;
    }
  }

  lemma {:induction false} FlattenMembers<T>(parts: seq<seq<T>>)
    ensures forall x :: x in Flatten(parts) <==> exists p <- parts :: x in p
  {
    if parts != [] {
      var n := |parts| - 1;
      FlattenMembers(parts[..n]);
      assert parts == parts[..n] + [parts[n]];
    }
  }
}
