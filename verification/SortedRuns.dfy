/** Inserting into sorted runs (db/memtable.cc, Add over an ordered table) and the sorted union of several runs. */
module SortedRuns {
  import opened InternalKeys

  /** MemTable::Add: insert at the entry's place in the order. */
  function Insert(es: seq<Entry>, e: Entry): seq<Entry> {
    var i := SeekIndex(es, e.k);
    es[..i] + [e] + es[i..]
  }

  lemma ElementsWith<T>(a: seq<T>, i: nat, x: T)
    requires i <= |a|
    ensures Elements(a[..i] + [x] + a[i..]) == Elements(a) + {x}
  {
    var r := a[..i] + [x] + a[i..];
    forall y | y in a ensures y in r {
      var j :| 0 <= j < |a| && a[j] == y;
      assert r[if j < i then j else j + 1] == y;
    }
    assert r[i] == x;
  }

  lemma InsertSorts(es: seq<Entry>, e: Entry)
    requires Sorted(es) && forall x <- es :: x.k != e.k
    ensures Sorted(Insert(es, e))
    ensures Elements(Insert(es, e)) == Elements(es) + {e}
  {
    var i := SeekIndex(es, e.k);
    var r := Insert(es, e);
    ElementsWith(es, i, e);
    if i < |es| {
      assert es[i] in es;
      assert Less(e.k, es[i].k);
    }
    forall j, k | 0 <= j < k < |r| ensures Less(r[j].k, r[k].k) {
      if k == i {
        assert r[j] == es[j];
      } else if j == i {
        assert r[k] == es[k - 1];
        assert i < k - 1 ==> Less(es[i].k, es[k - 1].k);
      } else {
        var j', k' := if j < i then j else j - 1, if k < i then k else k - 1;
        assert r[j] == es[j'] && r[k] == es[k'];
      }
    }
  }

  ghost function RunEntries(runs: seq<seq<Entry>>): set<Entry> {
    set i, j | 0 <= i < |runs| && 0 <= j < |runs[i]| :: runs[i][j]
  }

  /** No two entries of the runs, at whatever places, have the same key. */
  ghost predicate DistinctKeys(runs: seq<seq<Entry>>) {
    forall a, b, i, j :: 0 <= a < |runs| && 0 <= b < |runs| && 0 <= i < |runs[a]| && 0 <= j < |runs[b]| && runs[a][i].k == runs[b][j].k ==>
      a == b && i == j
  }

  lemma InsertNew(rest: seq<Entry>, e: Entry, others: set<Entry>)
    requires Sorted(rest) && Elements(rest) == others && e !in others
    requires forall x <- others :: x.k != e.k
    ensures Sorted(Insert(rest, e)) && Elements(Insert(rest, e)) == others + {e}
  {
    assert forall x <- rest :: x in Elements(rest);
    InsertSorts(rest, e);
  }

  /** The sorted union of sets of entries with distinct keys. */
  ghost function SortAll(es: set<Entry>): (r: seq<Entry>)
    requires forall x, y :: x in es && y in es && x.k == y.k ==> x == y
    ensures Sorted(r) && Elements(r) == es
  {
    if es == {} then []
    else
      var e :| e in es;
      var rest := SortAll(es - {e});
      InsertNew(rest, e, es - {e});
      Insert(rest, e)
  }
}
