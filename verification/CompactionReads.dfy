/** What a compaction does to reads: the two drop rules preserve every read at or above the smallest snapshot,
    except where the selection of the next level's files left the continuation of a user key behind. */
module CompactionReads {
  import opened InternalKeys
  import opened Version
  import opened Compaction

  /** What a reader gets for an answer: a value, or nothing for a tombstone as for a missing entry. */
  function ValueOf(r: Option<Entry>): Option<Slice> {
    if r.Some? && r.value.k.kind.TypeValue? then Some(r.value.v) else None
  }

  ghost function KeptSet(v: Levels, level: nat, snapshot: nat, inputs: set<Entry>): set<Entry> {
    set e | e in inputs && !Dropped(v, level, snapshot, inputs, e)
  }

  /** The four parts of a store around a compaction: data above and left behind in the input level, the inputs,
      files of the output level that stay, and everything deeper. */
  datatype Parts = Parts(upper: set<Entry>, inputs: set<Entry>, stays: set<Entry>, deeper: set<Entry>) {
    ghost function All(): set<Entry> { upper + inputs + stays + deeper }
  }

  /** The read of `u` at the snapshot finds a tombstone that the compaction drops as obsolete, while a file of the
      output level that is not an input still holds a value for `u`. */
  ghost predicate Resurrects(v: Levels, level: nat, snapshot: nat, p: Parts, u: UserKey) {
    exists t, x ::
      && t in p.inputs && Newest(p.All(), u, snapshot, Some(t)) && Obsolete(v, level, snapshot, t)
      && Newest(p.stays, u, snapshot, Some(x)) && x.k.kind.TypeValue?
  }

  ghost predicate Separated(v: Levels, level: nat, p: Parts) {
    && Newer(p.upper, p.inputs)
    && Unambiguous(p.All())
    && forall e <- p.deeper :: !BaseLevel(v, level, e.k.user)
  }

  ghost function After(v: Levels, level: nat, snapshot: nat, p: Parts): set<Entry> {
    p.(inputs := KeptSet(v, level, snapshot, p.inputs)).All()
  }

  /** If the newest visible entry survives, it is still the newest. */
  lemma SurvivingAnswer(v: Levels, level: nat, snapshot: nat, p: Parts, u: UserKey, s: nat, r: Option<Entry>, r': Option<Entry>)
    requires Unambiguous(p.All())
    requires Newest(p.All(), u, s, r) && Newest(After(v, level, snapshot, p), u, s, r')
    requires r.Some? ==> r.value in After(v, level, snapshot, p)
    ensures r == r'
  {
  }

  /** A dropped newest entry is an obsolete tombstone, and what shows up instead can only come from a file that stays. */
  lemma DroppedAnswer(v: Levels, level: nat, snapshot: nat, p: Parts, u: UserKey, s: nat, t: Entry, x: Entry)
    requires Separated(v, level, p) && snapshot <= s
    requires Newest(p.All(), u, s, Some(t)) && t !in After(v, level, snapshot, p)
    requires x in After(v, level, snapshot, p) && Visible(x, u, s)
    ensures t in p.inputs && Obsolete(v, level, snapshot, t) && Newest(p.All(), u, snapshot, Some(t))
    ensures x in p.stays
  {
    assert Obsolete(v, level, snapshot, t);
    assert x != t && x.k.seqno < t.k.seqno;
    if x in KeptSet(v, level, snapshot, p.inputs) {
      assert Less(t.k, x.k);
      assert false;
    }
  }

  /** Reads at or above the smallest snapshot do not change for a user key that the compaction does not resurrect. */
  lemma ReadsKept(v: Levels, level: nat, snapshot: nat, p: Parts, u: UserKey, s: nat, r: Option<Entry>, r': Option<Entry>)
    requires Separated(v, level, p) && snapshot <= s
    requires !Resurrects(v, level, snapshot, p, u)
    requires Newest(p.All(), u, s, r) && Newest(After(v, level, snapshot, p), u, s, r')
    ensures ValueOf(r) == ValueOf(r')
  {
    if r.Some? && r.value !in After(v, level, snapshot, p) {
      var t := r.value;
      assert Dropped(v, level, snapshot, p.inputs, t);
      assert !Hidden(p.inputs, snapshot, t);
      if r'.Some? {
        DroppedAnswer(v, level, snapshot, p, u, s, t, r'.value);
        StayingAnswer(v, level, snapshot, p, u, s, t, r'.value);
      }
    } else {
      SurvivingAnswer(v, level, snapshot, p, u, s, r, r');
    }
  }

  lemma StayingAnswer(v: Levels, level: nat, snapshot: nat, p: Parts, u: UserKey, s: nat, t: Entry, x: Entry)
    requires Separated(v, level, p) && snapshot <= s
    requires Newest(p.All(), u, s, Some(t)) && t !in After(v, level, snapshot, p)
    requires Obsolete(v, level, snapshot, t)
    requires Newest(After(v, level, snapshot, p), u, s, Some(x)) && x in p.stays
    ensures Newest(p.stays, u, snapshot, Some(x))
  {
    forall e | e in p.stays && Visible(e, u, snapshot) ensures e.k.seqno <= x.k.seqno {
      assert e in After(v, level, snapshot, p);
    }
  }

  /** The other direction: a resurrected key reads differently at the snapshot. */
  lemma ResurrectedReadChanges(v: Levels, level: nat, snapshot: nat, p: Parts, u: UserKey, r: Option<Entry>, r': Option<Entry>)
    requires Separated(v, level, p)
    requires Resurrects(v, level, snapshot, p, u)
    requires Newest(p.All(), u, snapshot, r) && Newest(After(v, level, snapshot, p), u, snapshot, r')
    ensures ValueOf(r) == None && ValueOf(r').Some?
  {
    var t, x :|
      && t in p.inputs && Newest(p.All(), u, snapshot, Some(t)) && Obsolete(v, level, snapshot, t)
      && Newest(p.stays, u, snapshot, Some(x)) && x.k.kind.TypeValue?;
    assert r == Some(t);
    assert x in After(v, level, snapshot, p);
    assert t != x;
    assert t !in After(v, level, snapshot, p) by {
      assert t !in p.upper && t !in p.deeper;
      assert t !in p.stays;
      assert Dropped(v, level, snapshot, p.inputs, t);
    }
    DroppedAnswer(v, level, snapshot, p, u, snapshot, t, r'.value);
  }

  lemma {:induction false} NewestExists(es: set<Entry>, u: UserKey, s: nat) returns (r: Option<Entry>)
    ensures Newest(es, u, s, r)
  {
    if es == {} {
      r := None;
    } else {
      var e :| e in es;
      r := NewestExists(es - {e}, u, s);
      if Visible(e, u, s) && (r.None? || r.value.k.seqno < e.k.seqno) {
        r := Some(e);
      }
    }
  }

  ghost predicate SameRead(a: set<Entry>, b: set<Entry>, u: UserKey, s: nat) {
    forall r, r' :: Newest(a, u, s, r) && Newest(b, u, s, r') ==> ValueOf(r) == ValueOf(r')
  }

  /** Exactly when the drop rules are right: all reads at or above the smallest snapshot are preserved
      if and only if no user key is resurrected. */
  lemma DropRulesExact(v: Levels, level: nat, snapshot: nat, p: Parts)
    requires Separated(v, level, p)
    ensures (forall u, s: nat :: snapshot <= s ==> SameRead(p.All(), After(v, level, snapshot, p), u, s)) <==>
            (forall u :: !Resurrects(v, level, snapshot, p, u))
  {
    var all, after := p.All(), After(v, level, snapshot, p);
    if forall u :: !Resurrects(v, level, snapshot, p, u) {
      forall u, s: nat, r, r' | snapshot <= s && Newest(all, u, s, r) && Newest(after, u, s, r') ensures ValueOf(r) == ValueOf(r') {
        ReadsKept(v, level, snapshot, p, u, s, r, r');
      }
    } else {
      var u :| Resurrects(v, level, snapshot, p, u);
      var r := NewestExists(all, u, snapshot);
      var r' := NewestExists(after, u, snapshot);
      ResurrectedReadChanges(v, level, snapshot, p, u, r, r');
      assert !SameRead(all, after, u, snapshot);
    }
  }
}
