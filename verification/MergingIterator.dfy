/** The merging iterator (table/merger.cc): a bidirectional cursor over several sorted children that behaves like one
    cursor over their sorted union. A child that is not valid has its position at the end of its run. */
module MergingIterator {
  import opened InternalKeys
  import opened SortedRuns

  datatype Direction = Forward | Reverse

  /** A missing key stands for the end: every key is before it, and no key is at or before "nothing". */
  predicate Before(k: IKey, key: Option<IKey>) {
    key.None? || Less(k, key.value)
  }

  predicate NotAfter(k: IKey, key: Option<IKey>) {
    key.Some? && !Less(key.value, k)
  }

  /** Entry `j` is not after position `p` of a run; a position at the end means the child is not valid. */
  predicate UpTo(j: nat, p: nat, length: nat) {
    p < length && j <= p
  }

  /** Every child stands at its first entry at or after union position `n` (or at the end). */
  ghost predicate ForwardCut(runs: seq<seq<Entry>>, pos: seq<nat>, key: Option<IKey>)
    requires |pos| == |runs|
  {
    forall k, j :: 0 <= k < |runs| && 0 <= j < |runs[k]| ==>
      (j < pos[k] <==> Before(runs[k][j].k, key))
  }

  /** Every child stands at its last entry at or before `key`, or is invalid if it has none. */
  ghost predicate BackwardCut(runs: seq<seq<Entry>>, pos: seq<nat>, key: Option<IKey>)
    requires |pos| == |runs|
  {
    forall k, j :: 0 <= k < |runs| && 0 <= j < |runs[k]| ==>
      (UpTo(j, pos[k], |runs[k]|) <==> NotAfter(runs[k][j].k, key))
  }

  class MergingIterator {
    const runs: seq<seq<Entry>>
    var pos: seq<nat>
    var current: Option<nat>
    var direction: Direction
    /** The position in the sorted union; its length stands for "not valid". */
    ghost var at: nat
    ghost const union: seq<Entry>

    ghost predicate Invariant()
      reads this
    {
      && |pos| == |runs|
      && (forall k :: 0 <= k < |runs| ==> Sorted(runs[k]) && pos[k] <= |runs[k]|)
      && DistinctKeys(runs)
      && Sorted(union) && Elements(union) == RunEntries(runs)
      && at <= |union|
      && (current.None? <==> at == |union|)
      && (current.Some? ==>
            && current.value < |runs| && pos[current.value] < |runs[current.value]|
            && runs[current.value][pos[current.value]] == union[at]
            && if direction.Forward? then ForwardCut(runs, pos, Some(union[at].k)) else BackwardCut(runs, pos, Some(union[at].k)))
    }

    predicate Valid()
      reads this
    {
      current.Some?
    }

    function Current(): (e: Entry)
      requires Invariant() && Valid()
      reads this
      ensures at < |union| && e == union[at]
    {
      runs[current.value][pos[current.value]]
    }

    constructor (children: seq<seq<Entry>>)
      requires forall k :: 0 <= k < |children| ==> Sorted(children[k])
      requires DistinctKeys(children)
      ensures Invariant() && runs == children && !Valid()
    {
      runs := children;
      pos := seq(|children|, i requires 0 <= i < |children| => |children[i]|);
      current := None;
      direction := Forward;
      union := SortAll(RunEntries(children));
      at := |SortAll(RunEntries(children))|;
    }

    /** Make the child with the smallest key current. */
    method FindSmallest(ghost n: nat)
      requires Positioned() && n <= |union| && ForwardCut(runs, pos, KeyAt(union, n))
      modifies this`current, this`at, this`direction
      ensures Invariant() && at == n && direction == Forward
    {
      var smallest: Option<nat> := None;
      for i := 0 to |runs|
        invariant smallest.Some? ==> smallest.value < i && ValidChild(runs, pos, smallest.value)
        invariant forall k :: 0 <= k < i && ValidChild(runs, pos, k) ==>
          smallest.Some? && !Less(ChildKey(runs, pos, k), ChildKey(runs, pos, smallest.value))
      {
        if pos[i] < |runs[i]| {
          if smallest.None? {
            smallest := Some(i);
          } else if Less(runs[i][pos[i]].k, runs[smallest.value][pos[smallest.value]].k) {
            smallest := Some(i);
          }
        }
      }
      current := smallest;
      direction := Forward;
      at := n;
      SmallestIsNext(runs, pos, union, n, smallest);
    }

    /** Make the child with the largest key current. `n` is the union position it must have, or |union| for none. */
    method FindLargest(ghost n: nat)
      requires Positioned() && n <= |union| && BackwardCut(runs, pos, KeyAt(union, n))
      modifies this`current, this`at, this`direction
      ensures Invariant() && at == n && direction == Reverse
    {
      var largest: Option<nat> := None;
      var i := |runs|;
      while i > 0
        invariant 0 <= i <= |runs|
        invariant largest.Some? ==> i <= largest.value < |runs| && ValidChild(runs, pos, largest.value)
        invariant forall k :: i <= k < |runs| && ValidChild(runs, pos, k) ==>
          largest.Some? && !Less(ChildKey(runs, pos, largest.value), ChildKey(runs, pos, k))
      {
        i := i - 1;
        if pos[i] < |runs[i]| {
          if largest.None? {
            largest := Some(i);
          } else if Less(runs[largest.value][pos[largest.value]].k, runs[i][pos[i]].k) {
            largest := Some(i);
          }
        }
      }
      current := largest;
      direction := Reverse;
      at := n;
      LargestIsPrevious(runs, pos, union, n, largest);
    }

    /** The part of the invariant that holds while children are being moved. */
    ghost predicate Positioned()
      reads this
    {
      && |pos| == |runs|
      && (forall k :: 0 <= k < |runs| ==> Sorted(runs[k]) && pos[k] <= |runs[k]|)
      && DistinctKeys(runs)
      && Sorted(union) && Elements(union) == RunEntries(runs)
    }

    method SeekToFirst()
      requires Invariant()
      modifies this
      ensures Invariant() && at == 0
    {
      pos := seq(|runs|, _ => 0);
      FirstCut(runs, pos, union);
      FindSmallest(0);
    }

    method SeekToLast()
      requires Invariant()
      modifies this
      ensures Invariant() && at == if union == [] then 0 else |union| - 1
    {
      pos := seq(|runs|, k requires 0 <= k < |runs| => LastPosition(runs[k]));
      LastCut(runs, pos, union);
      FindLargest(if union == [] then 0 else |union| - 1);
    }

    method Seek(target: IKey)
      requires Invariant()
      modifies this
      ensures Invariant() && at == SeekIndex(union, target)
    {
      pos := seq(|runs|, k requires 0 <= k < |runs| => SeekIndex(runs[k], target));
      SeekCut(runs, pos, union, target);
      FindSmallest(SeekIndex(union, target));
    }

    /** Turning round to go forward: every other child seeks the current key and steps past an equal one. */
    method PlaceOthersAfter()
      requires Invariant() && Valid()
      modifies this`pos, this`direction
      ensures Invariant() && direction == Forward && pos[current.value] == old(pos)[current.value]
    {
      var c, key, own := current.value, Current().k, pos[current.value];
      pos := seq(|runs|, k requires 0 <= k < |runs| => if k == c then own else AfterKey(runs[k], key));
      SwitchedForward(runs, pos, union, at, c);
      direction := Forward;
    }

    /** Turning round to go backward: every other child seeks the current key and steps back, or goes to its end. */
    method PlaceOthersBefore()
      requires Invariant() && Valid()
      modifies this`pos, this`direction
      ensures Invariant() && direction == Reverse && pos[current.value] == old(pos)[current.value]
    {
      var c, key, own := current.value, Current().k, pos[current.value];
      pos := seq(|runs|, k requires 0 <= k < |runs| => if k == c then own else BeforeKey(runs[k], key));
      SwitchedBackward(runs, pos, union, at, c);
      direction := Reverse;
    }

    method Next()
      requires Invariant() && Valid()
      modifies this
      ensures Invariant() && at == old(at) + 1
    {
      var c := current.value;
      if direction.Reverse? {
        PlaceOthersAfter();
      }
      StepForward(runs, pos, union, at, c);
      pos := pos[c := pos[c] + 1];
      FindSmallest(at + 1);
    }

    method Prev()
      requires Invariant() && Valid()
      modifies this
      ensures Invariant() && at == if old(at) == 0 then |union| else old(at) - 1
    {
      var c := current.value;
      if direction.Forward? {
        PlaceOthersBefore();
      }
      StepBackward(runs, pos, union, at, c);
      pos := pos[c := if pos[c] == 0 then |runs[c]| else pos[c] - 1];
      FindLargest(if at == 0 then |union| else at - 1);
    }
  }

  /** A full forward walk: SeekToFirst, then Next while the iterator is valid, yields the sorted union. */
  method WalkForward(runs: seq<seq<Entry>>) returns (es: seq<Entry>)
    requires forall k :: 0 <= k < |runs| ==> Sorted(runs[k])
    requires DistinctKeys(runs)
    ensures Sorted(es) && Elements(es) == RunEntries(runs)
  {
    var input := new MergingIterator(runs);
    input.SeekToFirst();
    es := [];
    while input.Valid()
      invariant input.Invariant()
      invariant es == input.union[..input.at]
      decreases |input.union| - input.at
    {
      var e := input.Current();
      input.Next();
      es := es + [e];
    }
    assert es == input.union;
  }

  ghost function KeyAt(union: seq<Entry>, n: nat): Option<IKey>
    requires n <= |union|
  {
    if n < |union| then Some(union[n].k) else None
  }

  function AfterKey(run: seq<Entry>, key: IKey): (p: nat)
    ensures p <= |run|
  {
    var j := SeekIndex(run, key);
    if j < |run| && run[j].k == key then j + 1 else j
  }

  function BeforeKey(run: seq<Entry>, key: IKey): (p: nat)
    ensures p <= |run|
  {
    var j := SeekIndex(run, key);
    if j == |run| then LastPosition(run) else if j == 0 then |run| else j - 1
  }

  function LastPosition(run: seq<Entry>): nat {
    if run == [] then 0 else |run| - 1
  }

  predicate ValidChild(runs: seq<seq<Entry>>, pos: seq<nat>, k: nat)
    requires |pos| == |runs|
  {
    k < |runs| && pos[k] < |runs[k]|
  }

  function ChildKey(runs: seq<seq<Entry>>, pos: seq<nat>, k: nat): IKey
    requires |pos| == |runs| && ValidChild(runs, pos, k)
  {
    runs[k][pos[k]].k
  }

  ghost predicate Union(runs: seq<seq<Entry>>, union: seq<Entry>) {
    && (forall k :: 0 <= k < |runs| ==> Sorted(runs[k]))
    && DistinctKeys(runs)
    && Sorted(union) && Elements(union) == RunEntries(runs)
  }

  lemma WhereInRuns(runs: seq<seq<Entry>>, union: seq<Entry>, n: nat) returns (k: nat, j: nat)
    requires Union(runs, union) && n < |union|
    ensures k < |runs| && j < |runs[k]| && runs[k][j] == union[n]
  {
    assert union[n] in Elements(union);
    k, j :| k < |runs| && j < |runs[k]| && runs[k][j] == union[n];
  }

  lemma WhereInUnion(runs: seq<seq<Entry>>, union: seq<Entry>, k: nat, j: nat) returns (n: nat)
    requires Union(runs, union) && k < |runs| && j < |runs[k]|
    ensures n < |union| && union[n] == runs[k][j]
  {
    assert runs[k][j] in RunEntries(runs);
    assert runs[k][j] in Elements(union);
    n :| n < |union| && union[n] == runs[k][j];
  }

  lemma SameRank(a: IKey, b: IKey)
    requires !Less(a, b) && !Less(b, a)
    ensures a == b
  {
  }

  /** With every child at its first entry from position `n` on, the smallest child key is that of position `n`. */
  lemma SmallestIsNext(runs: seq<seq<Entry>>, pos: seq<nat>, union: seq<Entry>, n: nat, smallest: Option<nat>)
    requires Union(runs, union) && |pos| == |runs| && n <= |union|
    requires ForwardCut(runs, pos, KeyAt(union, n))
    requires smallest.Some? ==> ValidChild(runs, pos, smallest.value)
    requires forall k :: 0 <= k < |runs| && ValidChild(runs, pos, k) ==>
      smallest.Some? && !Less(ChildKey(runs, pos, k), ChildKey(runs, pos, smallest.value))
    ensures smallest.None? <==> n == |union|
    ensures smallest.Some? ==> runs[smallest.value][pos[smallest.value]] == union[n]
  {
    if n < |union| {
      var k, j := WhereInRuns(runs, union, n);
      assert pos[k] <= j;
      assert ValidChild(runs, pos, k);
      var c := smallest.value;
      var m := WhereInUnion(runs, union, c, pos[c]);
      assert !Less(ChildKey(runs, pos, c), union[n].k);
      SameRank(ChildKey(runs, pos, c), union[n].k);
    }
  }

  lemma LargestIsPrevious(runs: seq<seq<Entry>>, pos: seq<nat>, union: seq<Entry>, n: nat, largest: Option<nat>)
    requires Union(runs, union) && |pos| == |runs| && n <= |union|
    requires BackwardCut(runs, pos, KeyAt(union, n))
    requires largest.Some? ==> ValidChild(runs, pos, largest.value)
    requires forall k :: 0 <= k < |runs| && ValidChild(runs, pos, k) ==>
      largest.Some? && !Less(ChildKey(runs, pos, largest.value), ChildKey(runs, pos, k))
    ensures largest.None? <==> n == |union|
    ensures largest.Some? ==> runs[largest.value][pos[largest.value]] == union[n]
  {
    if n < |union| {
      var k, j := WhereInRuns(runs, union, n);
      assert pos[k] < |runs[k]| && j <= pos[k];
      assert ValidChild(runs, pos, k);
      var c := largest.value;
      assert !Less(union[n].k, ChildKey(runs, pos, c));
      SameRank(ChildKey(runs, pos, c), union[n].k);
    }
  }

  lemma FirstCut(runs: seq<seq<Entry>>, pos: seq<nat>, union: seq<Entry>)
    requires Union(runs, union) && |pos| == |runs|
    requires forall k :: 0 <= k < |runs| ==> pos[k] == 0
    ensures ForwardCut(runs, pos, KeyAt(union, 0))
  {
    var key := KeyAt(union, 0);
    forall k, j | 0 <= k < |runs| && 0 <= j < |runs[k]|
      ensures j < pos[k] <==> Before(runs[k][j].k, key)
    {
      var m := WhereInUnion(runs, union, k, j);
    }
    assert ForwardCut(runs, pos, key);
  }

  lemma LastCut(runs: seq<seq<Entry>>, pos: seq<nat>, union: seq<Entry>)
    requires Union(runs, union) && |pos| == |runs|
    requires forall k :: 0 <= k < |runs| ==> pos[k] == LastPosition(runs[k])
    ensures BackwardCut(runs, pos, KeyAt(union, if union == [] then 0 else |union| - 1))
  {
    var key := KeyAt(union, if union == [] then 0 else |union| - 1);
    forall k, j | 0 <= k < |runs| && 0 <= j < |runs[k]|
      ensures UpTo(j, pos[k], |runs[k]|) <==> NotAfter(runs[k][j].k, key)
    {
      var m := WhereInUnion(runs, union, k, j);
      assert m < |union| - 1 ==> Less(union[m].k, union[|union| - 1].k);
    }
    assert BackwardCut(runs, pos, key);
  }

  lemma SeekCut(runs: seq<seq<Entry>>, pos: seq<nat>, union: seq<Entry>, target: IKey)
    requires Union(runs, union) && |pos| == |runs|
    requires forall k :: 0 <= k < |runs| ==> pos[k] == SeekIndex(runs[k], target)
    ensures ForwardCut(runs, pos, KeyAt(union, SeekIndex(union, target)))
  {
    hide Sorted, SeekIndex, Before, Less, KeyAt;
    UnionSorted(runs, union);
    var n := SeekIndex(union, target);
    var key := KeyAt(union, n);
    forall k, j | 0 <= k < |runs| && 0 <= j < |runs[k]|
      ensures j < pos[k] <==> Before(runs[k][j].k, key)
    {
      SeekIndexSplits(runs[k], target, j);
      var m := WhereInUnion(runs, union, k, j);
      SeekIndexSplits(union, target, m);
      BeforeInUnion(union, m, n);
    }
  }

  lemma UnionSorted(runs: seq<seq<Entry>>, union: seq<Entry>)
    requires Union(runs, union)
    ensures Sorted(union) && forall k :: 0 <= k < |runs| ==> Sorted(runs[k])
  {
  }

  lemma BeforeInUnion(union: seq<Entry>, m: nat, n: nat)
    requires Sorted(union) && m < |union| && n <= |union|
    ensures m < n <==> Before(union[m].k, KeyAt(union, n))
  {
    assert n < m ==> Less(union[n].k, union[m].k);
  }

  lemma SeekIndexSplits(es: seq<Entry>, target: IKey, j: nat)
    requires Sorted(es) && j < |es|
    ensures j < SeekIndex(es, target) <==> Less(es[j].k, target)
  {
    var i := SeekIndex(es, target);
    if i < j {
      assert Less(es[i].k, es[j].k);
    }
  }

  lemma SwitchedForward(runs: seq<seq<Entry>>, pos: seq<nat>, union: seq<Entry>, n: nat, c: nat)
    requires Union(runs, union) && |pos| == |runs| && n < |union|
    requires c < |runs| && pos[c] < |runs[c]| && runs[c][pos[c]] == union[n]
    requires forall k :: 0 <= k < |runs| && k != c ==>
      pos[k] == AfterKey(runs[k], union[n].k)
    ensures ForwardCut(runs, pos, Some(union[n].k))
  {
    forall k, j | 0 <= k < |runs| && 0 <= j < |runs[k]| ensures j < pos[k] <==> Less(runs[k][j].k, union[n].k) {
      if k == c {
        assert j < pos[c] ==> Less(runs[c][j].k, runs[c][pos[c]].k);
        assert j > pos[c] ==> Less(runs[c][pos[c]].k, runs[c][j].k);
      } else {
        SeekIndexSplits(runs[k], union[n].k, j);
      }
    }
  }

  lemma StepForward(runs: seq<seq<Entry>>, pos: seq<nat>, union: seq<Entry>, n: nat, c: nat)
    requires Union(runs, union) && |pos| == |runs| && n < |union|
    requires c < |runs| && pos[c] < |runs[c]| && runs[c][pos[c]] == union[n]
    requires ForwardCut(runs, pos, Some(union[n].k))
    ensures ForwardCut(runs, pos[c := pos[c] + 1], KeyAt(union, n + 1))
  {
    var next := pos[c := pos[c] + 1];
    var key := KeyAt(union, n + 1);
    forall k, j | 0 <= k < |runs| && 0 <= j < |runs[k]|
      ensures j < next[k] <==> Before(runs[k][j].k, key)
    {
      var m := WhereInUnion(runs, union, k, j);
      assert j < pos[k] <==> Less(runs[k][j].k, union[n].k);
      assert m <= n <==> n + 1 == |union| || Less(union[m].k, union[n + 1].k);
      assert m < n <==> Less(union[m].k, union[n].k);
      assert m == n ==> k == c && j == pos[c];
    }
    assert ForwardCut(runs, next, key);
  }

  lemma SwitchedBackward(runs: seq<seq<Entry>>, pos: seq<nat>, union: seq<Entry>, n: nat, c: nat)
    requires Union(runs, union) && |pos| == |runs| && n < |union|
    requires c < |runs| && pos[c] < |runs[c]| && runs[c][pos[c]] == union[n]
    requires forall k :: 0 <= k < |runs| && k != c ==>
      pos[k] == BeforeKey(runs[k], union[n].k)
    ensures BackwardCut(runs, pos, Some(union[n].k))
  {
    forall k, j | 0 <= k < |runs| && 0 <= j < |runs[k]|
      ensures UpTo(j, pos[k], |runs[k]|) <==> NotAfter(runs[k][j].k, Some(union[n].k))
    {
      if k == c {
        assert j < pos[c] ==> Less(runs[c][j].k, runs[c][pos[c]].k);
        assert j > pos[c] ==> Less(runs[c][pos[c]].k, runs[c][j].k);
      } else {
        SeekIndexSplits(runs[k], union[n].k, j);
        assert runs[k][j].k != union[n].k;
        if !Less(union[n].k, runs[k][j].k) && !Less(runs[k][j].k, union[n].k) {
          SameRank(union[n].k, runs[k][j].k);
        }
      }
    }
  }

  lemma StepBackward(runs: seq<seq<Entry>>, pos: seq<nat>, union: seq<Entry>, n: nat, c: nat)
    requires Union(runs, union) && |pos| == |runs| && n < |union|
    requires c < |runs| && pos[c] < |runs[c]| && runs[c][pos[c]] == union[n]
    requires BackwardCut(runs, pos, Some(union[n].k))
    ensures BackwardCut(runs, pos[c := if pos[c] == 0 then |runs[c]| else pos[c] - 1],
                        KeyAt(union, if n == 0 then |union| else n - 1))
  {
    var next := pos[c := if pos[c] == 0 then |runs[c]| else pos[c] - 1];
    var key := KeyAt(union, if n == 0 then |union| else n - 1);
    forall k, j | 0 <= k < |runs| && 0 <= j < |runs[k]|
      ensures UpTo(j, next[k], |runs[k]|) <==> NotAfter(runs[k][j].k, key)
    {
      StepBackwardAt(runs, pos, union, n, c, k, j);
    }
    assert BackwardCut(runs, next, key);
  }

  lemma StepBackwardAt(runs: seq<seq<Entry>>, pos: seq<nat>, union: seq<Entry>, n: nat, c: nat, k: nat, j: nat)
    requires Union(runs, union) && |pos| == |runs| && n < |union|
    requires c < |runs| && pos[c] < |runs[c]| && runs[c][pos[c]] == union[n]
    requires BackwardCut(runs, pos, Some(union[n].k))
    requires k < |runs| && j < |runs[k]|
    ensures var p := if k != c then pos[k] else if pos[c] == 0 then |runs[c]| else pos[c] - 1;
            p < |runs[k]| && j <= p <==> n > 0 && !Less(union[n - 1].k, runs[k][j].k)
  {
    var m := WhereInUnion(runs, union, k, j);
    assert pos[k] < |runs[k]| && j <= pos[k] <==> !Less(union[n].k, runs[k][j].k);
    assert m <= n <==> !Less(union[n].k, union[m].k);
    assert n > 0 ==> (m <= n - 1 <==> !Less(union[n - 1].k, union[m].k));
    assert m == n ==> k == c && j == pos[c];
  }
}
