/**
 Re-resolving with facts that are already known: the store a finished pass
 leaves behind is a fixpoint of the pass, which answers the same again.
 */
module Idempotence {
  import opened Contacts
  import opened ContactStore
  import opened Ordering
  import opened Traversal
  import opened Selection
  import opened Assembly
  import opened Service
  import opened ServiceProperties

  /** Primaries carry no link: the shape every pass creates and keeps. */
  predicate Consistent(cs: seq<Contact>) {
    forall c :: c in cs && c.IsPrimary() ==> c.linkedId == None
  }

  lemma RelabelConsistent(cs: seq<Contact>, ids: set<int>, p: int)
    requires Consistent(cs)
    ensures Consistent(Relabel(cs, ids, p))
  {
    RelabelMembers(cs, ids, p);
  }

  /** A pass keeps primaries link-free. */
  lemma PassPreservesConsistent(st: Store, input: Input, now: int)
    requires WellFormed(st) && Consistent(st.contacts)
    ensures !Pass(st, input, now).Failed? && Consistent(Pass(st, input, now).store.contacts)
  {
    PassNeverFails(st, input, now);
    if |Seeds(st, input)| > 0 {
      var p := Chosen(st, input);
      RelabelConsistent(st.contacts, DemotedSet(st, input), p);
      assert Consistent(Merged(st, input).contacts);
      InsertOnNewFact(st, input, now);
    }
  }

  /** The demoted ids of a pass, as a set. */
  function DemotedSet(st: Store, input: Input): set<int>
    requires |Snapshot(st, input)| > 0
  {
    set x | x in DemotionIds(Snapshot(st, input), Chosen(st, input))
  }

  /** What the demotion batch of a pass touches: link-free primaries of the
      component other than the chosen row. */
  lemma DemotedRows(st: Store, input: Input)
    requires WellFormed(st) && Consistent(st.contacts)
    requires |Snapshot(st, input)| > 0
    ensures Merged(st, input).contacts == Relabel(st.contacts, DemotedSet(st, input), Chosen(st, input))
    ensures Chosen(st, input) !in DemotedSet(st, input)
    ensures forall c :: c in st.contacts && c.id in DemotedSet(st, input) ==>
      c.id in Component(st, input) && c.IsPrimary() && c.linkedId == None
  {
    var snap := Snapshot(st, input);
    var p := Chosen(st, input);
    forall c | c in st.contacts && c.id in DemotedSet(st, input)
      ensures c.id in Component(st, input) && c.IsPrimary() && c.linkedId == None
    {
      var d :| d in snap && d.id == c.id && d.id != p && d.IsPrimary();
      RowById(st, c, d);
    }
  }

  /** Demoting rows of a closed set to secondaries of a member keeps it closed. */
  lemma ClosedAfterDemotion(cs: seq<Contact>, ids: set<int>, p: int, v: set<int>)
    requires Closed(cs, v) && p in v
    requires forall c :: c in cs && c.id in ids ==> c.id in v
    ensures Closed(Relabel(cs, ids, p), v)
  {
    RelabelMembers(cs, ids, p);
    forall c, x | c in Relabel(cs, ids, p) && x in v && c.Touches(x) ensures Neighbours(c) <= v {
      var d :| d in cs && c == Relabeled(d, ids, p);
    }
  }

  /** Undoing the demotion of link-free rows keeps a closed set closed. */
  lemma ClosedBeforeDemotion(cs: seq<Contact>, ids: set<int>, p: int, v: set<int>)
    requires Closed(Relabel(cs, ids, p), v)
    requires forall c :: c in cs && c.id in ids ==> c.linkedId == None
    ensures Closed(cs, v)
  {
    RelabelMembers(cs, ids, p);
    forall c, x | c in cs && x in v && c.Touches(x) ensures Neighbours(c) <= v {
      assert Relabeled(c, ids, p) in Relabel(cs, ids, p);
    }
  }

  /** The seed neighbours of the demoted seeds stay within a set that holds
      the original seed neighbours, the demoted ids and the target. */
  lemma DemotedSeedsWithin(seeds: seq<Contact>, ids: set<int>, p: int, v: set<int>)
    requires forall c :: c in seeds ==> Neighbours(c) <= v
    requires forall c :: c in seeds && c.id in ids ==> c.id in v
    requires p in v
    ensures forall c :: c in Relabel(seeds, ids, p) ==> Neighbours(c) <= v
  {
    RelabelMembers(seeds, ids, p);
    forall c | c in Relabel(seeds, ids, p) ensures Neighbours(c) <= v {
      var d :| d in seeds && c == Relabeled(d, ids, p);
    }
  }

  /** Conversely for link-free demoted seeds. */
  lemma SeedsWithin(seeds: seq<Contact>, ids: set<int>, p: int, v: set<int>)
    requires forall c :: c in Relabel(seeds, ids, p) ==> Neighbours(c) <= v
    requires forall c :: c in seeds && c.id in ids ==> c.linkedId == None
    ensures forall c :: c in seeds ==> Neighbours(c) <= v
  {
    RelabelMembers(seeds, ids, p);
    forall c | c in seeds ensures Neighbours(c) <= v {
      assert Relabeled(c, ids, p) in Relabel(seeds, ids, p);
    }
  }

  /** The seeds after the demotion batch are the demoted seeds. */
  lemma SeedsAfterMerge(st: Store, input: Input)
    requires |Snapshot(st, input)| > 0
    ensures Seeds(Merged(st, input), input) == Relabel(Seeds(st, input), DemotedSet(st, input), Chosen(st, input))
  {
    var ids := DemotedSet(st, input);
    var p := Chosen(st, input);
    var q := ByFacts(input.email, input.phoneNumber);
    assert Merged(st, input).contacts == Relabel(st.contacts, ids, p);
    FindManyRelabel(st.contacts, q, ids, p);
    SortRelabel(FindMany(st.contacts, q), ids, p);
  }

  /** The demotion batch adds nothing to the component the walk finds. */
  lemma ComponentNoLarger(st: Store, input: Input)
    requires WellFormed(st) && Consistent(st.contacts)
    requires |Snapshot(st, input)| > 0
    ensures Component(Merged(st, input), input) <= Component(st, input)
  {
    var ids := DemotedSet(st, input);
    var p := Chosen(st, input);
    var v0 := Component(st, input);
    var seeds0 := Seeds(st, input);
    assert Closed(Merged(st, input).contacts, v0) by {
      DemotedRows(st, input);
      ClosedAfterDemotion(st.contacts, ids, p, v0);
    }
    assert forall c :: c in Seeds(Merged(st, input), input) ==> Neighbours(c) <= v0 by {
      DemotedRows(st, input);
      SeedsAfterMerge(st, input);
      assert forall c :: c in seeds0 ==> c in st.contacts;
      DemotedSeedsWithin(seeds0, ids, p, v0);
    }
    ComponentIsLeastClosure(Merged(st, input), input, v0);
  }

  /** The demotion batch takes nothing from the component the walk finds. */
  lemma ComponentNoSmaller(st: Store, input: Input)
    requires WellFormed(st) && Consistent(st.contacts)
    requires |Snapshot(st, input)| > 0
    ensures Component(st, input) <= Component(Merged(st, input), input)
  {
    var ids := DemotedSet(st, input);
    var p := Chosen(st, input);
    var v1 := Component(Merged(st, input), input);
    var seeds0 := Seeds(st, input);
    assert Closed(st.contacts, v1) by {
      DemotedRows(st, input);
      ClosedBeforeDemotion(st.contacts, ids, p, v1);
    }
    assert forall c :: c in seeds0 ==> Neighbours(c) <= v1 by {
      DemotedRows(st, input);
      SeedsAfterMerge(st, input);
      assert forall c :: c in seeds0 ==> c in st.contacts;
      SeedsWithin(seeds0, ids, p, v1);
    }
    ComponentIsLeastClosure(st, input, v1);
  }

  /** The demotion batch neither grows nor shrinks the component the walk
      finds from the same input. */
  lemma ComponentAfterMerge(st: Store, input: Input)
    requires WellFormed(st) && Consistent(st.contacts)
    requires |Snapshot(st, input)| > 0
    ensures Component(Merged(st, input), input) == Component(st, input)
  {
    ComponentNoLarger(st, input);
    ComponentNoSmaller(st, input);
  }

  /** The snapshot after the demotion batch is the demoted snapshot. */
  lemma SnapshotAfterMerge(st: Store, input: Input)
    requires WellFormed(st) && Consistent(st.contacts)
    requires |Snapshot(st, input)| > 0
    ensures Snapshot(Merged(st, input), input) ==
      Relabel(Snapshot(st, input), DemotedSet(st, input), Chosen(st, input))
  {
    ComponentAfterMerge(st, input);
    var ids := DemotedSet(st, input);
    var p := Chosen(st, input);
    var q := ByIds(Component(st, input));
    assert Merged(st, input).contacts == Relabel(st.contacts, ids, p);
    FindManyRelabel(st.contacts, q, ids, p);
    SortRelabel(FindMany(st.contacts, q), ids, p);
  }

  /** Demoting rows other than the canonical one leaves it canonical. */
  lemma CanonicalAfterDemotion(snap: seq<Contact>, ids: set<int>, p: int, k: nat)
    requires IsCanonical(snap, k)
    requires snap[k].id !in ids
    ensures IsCanonical(Relabel(snap, ids, p), k)
  {
    RelabelAt(snap, ids, p);
  }

  /** After the batch, no primary other than `p` is left to demote. */
  lemma NothingLeftToDemote(snap: seq<Contact>, ids: set<int>, p: int)
    requires forall c :: c in snap && c.id != p && c.IsPrimary() ==> c.id in ids
    ensures DemotionIds(Relabel(snap, ids, p), p) == []
  {
    RelabelMembers(snap, ids, p);
    var r := DemotionIds(Relabel(snap, ids, p), p);
    assert forall x :: x !in r;
  }

  /** The fact check sees the same facts before and after a demotion. */
  lemma SameFacts(input: Input, snap: seq<Contact>, ids: set<int>, p: int)
    ensures NewFact(input, Relabel(snap, ids, p)) == NewFact(input, snap)
  {
    RelabelMembers(snap, ids, p);
  }

  /** The chosen row and the demotion of a re-run after a finished pass. */
  lemma RerunChoosesSame(st: Store, input: Input)
    requires WellFormed(st) && Consistent(st.contacts)
    requires |Snapshot(st, input)| > 0
    ensures |Snapshot(Merged(st, input), input)| > 0
    ensures Chosen(Merged(st, input), input) == Chosen(st, input)
    ensures Merged(Merged(st, input), input) == Merged(st, input)
    ensures NewFact(input, Snapshot(Merged(st, input), input)) == NewFact(input, Snapshot(st, input))
  {
    SnapshotAfterMerge(st, input);
    DemotedRows(st, input);
    var st1 := Merged(st, input);
    var snap0 := Snapshot(st, input);
    var snap1 := Snapshot(st1, input);
    var ids := DemotedSet(st, input);
    var p := Chosen(st, input);
    var k := Canonical(snap0);
    CanonicalAfterDemotion(snap0, ids, p, k);
    CanonicalUnique(snap1, k, Canonical(snap1));
    RelabelAt(snap0, ids, p);
    NothingLeftToDemote(snap0, ids, p);
    assert (set x | x in DemotionIds(snap1, p)) == {};
    RelabelAt(st1.contacts, {}, p);
    SameFacts(input, snap0, ids, p);
  }

  /** Re-running on the store a finished pass left behind: the same rows are
      reached, the same primary is chosen, nothing is demoted or inserted,
      and the response is the same. */
  lemma RepeatIsStable(st: Store, input: Input, now: int, later: int)
    requires WellFormed(st) && Consistent(st.contacts)
    requires Pass(st, input, now).Finished?
    ensures Pass(Pass(st, input, now).store, input, later) == Pass(st, input, now)
  {
    PassNeverFails(st, input, now);
    assert |Seeds(st, input)| > 0 && |Snapshot(st, input)| > 0;
    InsertOnNewFact(st, input, now);
    RerunChoosesSame(st, input);
    var st1 := Merged(st, input);
    assert |Seeds(st1, input)| > 0 by {
      SeedsAfterMerge(st, input);
    }
    InsertOnNewFact(st1, input, later);
  }
}
