/** Where a compaction ends its output files for the sake of later compactions: no output shall overlap too much of the level
    below the output level, the grandparents (db/version_set.cc, Compaction::ShouldStopBefore). */
module OutputCuts {
  import opened InternalKeys
  import opened Version

  /** How many of the grandparents, from the first one on, end before the key. */
  function Passed(grandparents: seq<File>, k: IKey): (n: nat)
    ensures n <= |grandparents|
    ensures forall i :: 0 <= i < n ==> Less(grandparents[i].largest, k)
    ensures n < |grandparents| ==> !Less(grandparents[n].largest, k)
  {
    if grandparents == [] || !Less(grandparents[0].largest, k) then 0 else 1 + Passed(grandparents[1..], k)
  }

  /** The bytes of the grandparents that end between two keys. */
  function Between(grandparents: seq<File>, a: IKey, b: IKey): nat {
    var i, j := Passed(grandparents, a), Passed(grandparents, b);
    if i <= j then TotalFileSize(grandparents[i..j]) else 0
  }

  /** The bytes counted when entries `[..i]` have been looked at: what was passed behind the first of them or behind the last
      stop. */
  function Overlapped(grandparents: seq<File>, limit: nat, input: seq<Entry>, i: nat): (bytes: nat)
    requires i <= |input|
    ensures bytes <= limit
    decreases i, 0
  {
    if i <= 1 || StopsBefore(grandparents, limit, input, i - 1) then 0
    else Overlapped(grandparents, limit, input, i - 1) + Between(grandparents, input[i - 2].k, input[i - 1].k)
  }

  /** An output that is being built ends before entry `i`. */
  predicate StopsBefore(grandparents: seq<File>, limit: nat, input: seq<Entry>, i: nat)
    requires i < |input|
    decreases i, 1
  {
    i > 0 && Overlapped(grandparents, limit, input, i) + Between(grandparents, input[i - 1].k, input[i].k) > limit
  }

  lemma PassedGrows(grandparents: seq<File>, a: IKey, b: IKey)
    requires !Less(b, a)
    ensures Passed(grandparents, a) <= Passed(grandparents, b)
  {
    assert forall i :: 0 <= i < Passed(grandparents, a) ==> Less(grandparents[i].largest, b);
  }

  lemma {:induction false} SizesAdd(a: seq<File>, b: seq<File>)
    ensures TotalFileSize(a + b) == TotalFileSize(a) + TotalFileSize(b)
  {
    if b == [] {
      assert a + b == a;
    } else {
      var n := |b| - 1;
      SizesAdd(a, b[..n]);
      assert (a + b)[..|a| + n] == a + b[..n];
    }
  }

  lemma BetweenAdds(grandparents: seq<File>, a: IKey, b: IKey, c: IKey)
    requires !Less(b, a) && !Less(c, b)
    ensures Between(grandparents, a, c) == Between(grandparents, a, b) + Between(grandparents, b, c)
  {
    PassedGrows(grandparents, a, b);
    PassedGrows(grandparents, b, c);
    var i, j, k := Passed(grandparents, a), Passed(grandparents, b), Passed(grandparents, c);
    SizesAdd(grandparents[i..j], grandparents[j..k]);
    assert grandparents[i..j] + grandparents[j..k] == grandparents[i..k];
  }

  lemma NothingBetween(grandparents: seq<File>, a: IKey)
    ensures Between(grandparents, a, a) == 0
  {
  }

  /** In a sorted level these are the files that end at or behind the one key and before the other. */
  lemma BetweenMeans(grandparents: seq<File>, a: IKey, b: IKey, g: File)
    requires (forall f <- grandparents :: ValidFile(f)) && Disjoint(grandparents) && !Less(b, a)
    ensures Passed(grandparents, a) <= Passed(grandparents, b)
    ensures g in grandparents[Passed(grandparents, a)..Passed(grandparents, b)] <==>
            g in grandparents && !Less(g.largest, a) && Less(g.largest, b)
  {
    PassedGrows(grandparents, a, b);
    if g in grandparents {
      var n :| 0 <= n < |grandparents| && grandparents[n] == g;
      var i, j := Passed(grandparents, a), Passed(grandparents, b);
      if n > i {
        EndsAscend(grandparents, i, n);
      }
      if n > j {
        EndsAscend(grandparents, j, n);
      }
      if i <= n < j {
        assert grandparents[i..j][n - i] == g;
      }
    }
  }

  lemma EndsAscend(files: seq<File>, i: nat, j: nat)
    requires (forall f <- files :: ValidFile(f)) && Disjoint(files) && i < j < |files|
    ensures Less(files[i].largest, files[j].largest)
  {
    FileBounds(files[j]);
  }
}
