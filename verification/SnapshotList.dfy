/** The list of live snapshots (db/snapshot.h): a circular doubly linked list around a dummy head, oldest first. */
module SnapshotList {

  class Snapshot {
    const sequenceNumber: nat
    var prev: Snapshot?
    var next: Snapshot?

    constructor (sequenceNumber: nat)
      ensures this.sequenceNumber == sequenceNumber
    {
      this.sequenceNumber, prev, next := sequenceNumber, null, null;
    }
  }

  /** The place after `i` in a ring of `n`. */
  function Succ(i: nat, n: nat): nat { if i + 1 >= n then 0 else i + 1 }

  /** Each node is linked with the one behind it, and the last one with the head. */
  ghost predicate Linked(ring: seq<Snapshot>)
    reads ring
  {
    forall i :: 0 <= i < |ring| ==> LinkedAt(ring, i)
  }

  ghost predicate LinkedAt(ring: seq<Snapshot>, i: nat)
    requires i < |ring|
    reads ring
  {
    ring[i].next == ring[Succ(i, |ring|)] && ring[Succ(i, |ring|)].prev == ring[i]
  }

  ghost predicate Distinct(ring: seq<Snapshot>) {
    forall i, j :: 0 <= i < j < |ring| ==> ring[i] != ring[j]
  }

  /** The sequence numbers of the snapshots behind the head. */
  ghost function NumbersOf(ring: seq<Snapshot>): seq<nat> {
    if ring == [] then [] else seq(|ring| - 1, i requires 0 <= i < |ring| - 1 => ring[i + 1].sequenceNumber)
  }

  ghost predicate Ordered(ring: seq<Snapshot>) {
    forall i, j :: 0 < i < j < |ring| ==> ring[i].sequenceNumber <= ring[j].sequenceNumber
  }

  function Without(ring: seq<Snapshot>, i: nat): seq<Snapshot>
    requires i < |ring|
  {
    ring[..i] + ring[i + 1..]
  }

  lemma WithoutOne(ring: seq<Snapshot>, i: nat)
    requires 0 < i < |ring| && Distinct(ring) && Ordered(ring)
    ensures Distinct(Without(ring, i)) && Ordered(Without(ring, i))
    ensures |Without(ring, i)| == |ring| - 1 && Without(ring, i)[0] == ring[0]
    ensures forall j :: 0 <= j < |ring| - 1 ==> Without(ring, i)[j] == ring[if j < i then j else j + 1]
    ensures NumbersOf(Without(ring, i)) == NumbersOf(ring)[..i - 1] + NumbersOf(ring)[i..]
  {
  }

  lemma WithNewest(ring: seq<Snapshot>, s: Snapshot)
    requires ring != [] && Distinct(ring) && Ordered(ring) && s !in ring
    requires |ring| > 1 ==> ring[|ring| - 1].sequenceNumber <= s.sequenceNumber
    ensures Distinct(ring + [s]) && Ordered(ring + [s])
    ensures NumbersOf(ring + [s]) == NumbersOf(ring) + [s.sequenceNumber]
  {
    forall i, j | 0 <= i < j < |ring + [s]| ensures (ring + [s])[i] != (ring + [s])[j] {
      assert ring[i] in ring;
    }
  }

  /** A ring that is linked but for its ends, which are linked with a node behind it. */
  lemma LinkedWith(ring: seq<Snapshot>, s: Snapshot)
    requires ring != [] && forall i :: 0 <= i < |ring| - 1 ==> ring[i].next == ring[i + 1] && ring[i + 1].prev == ring[i]
    requires ring[|ring| - 1].next == s && s.prev == ring[|ring| - 1] && s.next == ring[0] && ring[0].prev == s
    ensures Linked(ring + [s])
  {
  }

  class SnapshotList {
    const head: Snapshot
    /** The head, and behind it the snapshots in the list. */
    ghost var ring: seq<Snapshot>

    ghost function Numbers(): seq<nat>
      reads this
    {
      NumbersOf(ring)
    }

    ghost predicate Valid()
      reads this, ring
    {
      && ring != [] && ring[0] == head
      && Distinct(ring) && Ordered(ring) && Linked(ring)
    }

    constructor ()
      ensures Valid() && fresh(ring) && Numbers() == []
    {
      var h := new Snapshot(0);
      h.prev, h.next := h, h;
      head, ring := h, [h];
    }

    method Empty() returns (empty: bool)
      requires Valid()
      ensures empty <==> Numbers() == []
    {
      assert LinkedAt(ring, 0);
      empty := head.next == head;
      assert |ring| > 1 ==> ring[0] != ring[1];
    }

    /** The snapshot with the smallest sequence number. */
    method Oldest() returns (s: Snapshot)
      requires Valid() && Numbers() != []
      ensures s == ring[1] && s.sequenceNumber == Numbers()[0]
      ensures forall i :: 0 <= i < |Numbers()| ==> s.sequenceNumber <= Numbers()[i]
    {
      assert LinkedAt(ring, 0);
      s := head.next;
    }

    /** Append a snapshot, which must not be older than the newest one. */
    method New(sequenceNumber: nat) returns (s: Snapshot)
      requires Valid() && (Numbers() != [] ==> Numbers()[|Numbers()| - 1] <= sequenceNumber)
      modifies this, ring
      ensures Valid() && fresh(s) && s.sequenceNumber == sequenceNumber && ring == old(ring) + [s]
      ensures Numbers() == old(Numbers()) + [sequenceNumber]
    {
      s := new Snapshot(sequenceNumber);
      assert |ring| > 1 ==> Numbers()[|ring| - 2] == ring[|ring| - 1].sequenceNumber;
      Append(s);
    }

    /** Link a snapshot in before the head. */
    method Append(s: Snapshot)
      requires Valid() && s !in ring && (|ring| > 1 ==> ring[|ring| - 1].sequenceNumber <= s.sequenceNumber)
      modifies this, ring, s
      ensures Valid() && ring == old(ring) + [s] && Numbers() == old(Numbers()) + [s.sequenceNumber]
    {
      hide NumbersOf, Ordered;
      ghost var n, before := |ring|, ring;
      assert LinkedAt(ring, n - 1);
      WithNewest(before, s);
      s.next := head;
      s.prev := head.prev;
      s.prev.next := s;
      s.next.prev := s;
      forall i | 0 <= i < n - 1 ensures before[i].next == before[i + 1] && before[i + 1].prev == before[i] {
        assert old(LinkedAt(before, i));
      }
      LinkedWith(before, s);
      ring := ring + [s];
    }

    /** Take out the snapshot at position `i`; the other ones stay in order. */
    method Delete(s: Snapshot, ghost i: nat)
      requires Valid() && 0 < i < |ring| && ring[i] == s
      modifies ring, this
      ensures Valid() && ring == Without(old(ring), i)
      ensures Numbers() == old(Numbers()[..i - 1] + Numbers()[i..])
    {
      hide NumbersOf, Ordered, Without;
      ghost var was := ring;
      WithoutOne(was, i);
      assert LinkedAt(was, i - 1) && LinkedAt(was, i);
      s.prev.next := s.next;
      s.next.prev := s.prev;
      ring := Without(was, i);
      forall j | 0 <= j < |ring| ensures LinkedAt(ring, j) {
        ghost var k := if j < i then j else j + 1;
        assert old(LinkedAt(was, k));
        assert ring[j] == was[k];
        assert j != i - 1 ==> ring[Succ(j, |ring|)] == was[Succ(k, |was|)];
      }
    }
  }

  /** DoCompactionWork: the lowest sequence number that a compaction must preserve. */
  method SmallestSnapshot(snapshots: SnapshotList, lastSequence: nat) returns (s: nat)
    requires snapshots.Valid()
    ensures s == if snapshots.Numbers() == [] then lastSequence else snapshots.Numbers()[0]
    ensures forall n <- snapshots.Numbers() :: s <= n
  {
    var empty := snapshots.Empty();
    if empty {
      s := lastSequence;
    } else {
      var oldest := snapshots.Oldest();
      s := oldest.sequenceNumber;
    }
  }
}
