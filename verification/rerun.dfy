/**
 What the single re-run after an insert answers: the component it walks is
 the old one plus the inserted row, its canonical primary is the one the
 first pass chose, and its response lists the inserted row and the facts it
 carries.
 */
module Rerun {
  import opened Contacts
  import opened ContactStore
  import opened Traversal
  import opened Selection
  import opened Assembly
  import opened Service
  import opened ServiceProperties
  import opened Idempotence

  /** The row the insert branch of a pass appends. */
  function InsertedRow(st: Store, input: Input, now: int): (n: Contact)
    requires |Snapshot(st, input)| > 0
    ensures !n.IsPrimary() && n.linkedId == Some(Chosen(st, input))
    ensures n.id == st.nextId && n.email == input.email && n.phoneNumber == input.phoneNumber
  {
    Contact(st.nextId, input.email, input.phoneNumber, Some(Chosen(st, input)), Secondary, now)
  }

  /** No row of a well-formed store mentions its next id. */
  lemma FreshIdUntouched(st: Store)
    requires WellFormed(st)
    ensures forall c :: c in st.contacts ==> !c.Touches(st.nextId)
  {
    forall c | c in st.contacts ensures !c.Touches(st.nextId) {
      var i :| 0 <= i < |st.contacts| && st.contacts[i] == c;
    }
  }

  /** Appending a row that mentions only itself and ids of a closed set,
      to rows that never mention it, keeps the set (with the new id) closed. */
  lemma ClosedWithNewRow(cs: seq<Contact>, v: set<int>, n: Contact)
    requires Closed(cs, v)
    requires forall c :: c in cs ==> !c.Touches(n.id)
    requires Neighbours(n) <= v + {n.id}
    ensures Closed(cs + [n], v + {n.id})
  {
    forall c, x | c in cs + [n] && x in v + {n.id} && c.Touches(x)
      ensures Neighbours(c) <= v + {n.id}
    {
      if c != n {
        assert c in cs && x in v;
      }
    }
  }

  /** The component of a pass is closed in the store after its demotions. */
  lemma MergedClosed(st: Store, input: Input)
    requires |Snapshot(st, input)| > 0
    ensures Closed(Merged(st, input).contacts, Component(st, input))
  {
    var v := Component(st, input);
    var ids := DemotedSet(st, input);
    forall c | c in st.contacts && c.id in ids ensures c.id in v {
      var d :| d in Snapshot(st, input) && d.id == c.id;
    }
    ClosedAfterDemotion(st.contacts, ids, Chosen(st, input), v);
  }

  /** Every seed of the demoted store mentions only ids of the component. */
  lemma MergedSeedsWithin(st: Store, input: Input)
    requires |Snapshot(st, input)| > 0
    ensures forall c :: c in Seeds(Merged(st, input), input) ==> Neighbours(c) <= Component(st, input)
  {
    var v := Component(st, input);
    var ids := DemotedSet(st, input);
    var seeds := Seeds(st, input);
    forall c | c in seeds && c.id in ids ensures c.id in v {
      var d :| d in Snapshot(st, input) && d.id == c.id;
    }
    SeedsAfterMerge(st, input);
    DemotedSeedsWithin(seeds, ids, Chosen(st, input), v);
  }

  /** The store an insert produces, stated once. */
  lemma InsertedStore(st: Store, input: Input, now: int)
    requires WellFormed(st)
    requires Pass(st, input, now).Inserted?
    ensures |Seeds(st, input)| > 0 && |Snapshot(st, input)| > 0
    ensures Pass(st, input, now).store ==
      Store(Merged(st, input).contacts + [InsertedRow(st, input, now)], st.nextId + 1)
    ensures WellFormed(Merged(st, input)) && WellFormed(Pass(st, input, now).store)
  {
    PassNeverFails(st, input, now);
    PassPreservesWellFormed(st, input, now);
    InsertOnNewFact(st, input, now);
    MergeEffect(st, input);
  }

  /** The re-run walks no further than the first pass's component and the
      inserted row. */
  lemma RerunComponentBound(st: Store, input: Input, now: int)
    requires WellFormed(st)
    requires Pass(st, input, now).Inserted?
    ensures Component(Pass(st, input, now).store, input) <= Component(st, input) + {st.nextId}
  {
    InsertedStore(st, input, now);
    var st1 := Merged(st, input);
    var st2 := Pass(st, input, now).store;
    var n := InsertedRow(st, input, now);
    var v := Component(st, input);
    MergedClosed(st, input);
    FreshIdUntouched(st1);
    ClosedWithNewRow(st1.contacts, v, n);
    MergedSeedsWithin(st, input);
    forall c | c in Seeds(st2, input) ensures Neighbours(c) <= v + {st.nextId} {
      if c != n {
        assert c in st1.contacts;
        assert c in Seeds(st1, input);
      }
    }
    ComponentIsLeastClosure(st2, input, v + {st.nextId});
  }

  /** A canonical row of a snapshot whose primaries all share one id has that id. */
  lemma CanonicalIsOnlyPrimary(snap: seq<Contact>, k: nat, pr: Contact)
    requires IsCanonical(snap, k)
    requires pr in snap && pr.IsPrimary()
    requires forall c :: c in snap && c.IsPrimary() ==> c.id == pr.id
    ensures snap[k].id == pr.id
  {
    assert snap[k] in snap;
  }

  /** After the demotions only the chosen id is a primary in the component,
      and the appended secondary adds none, so every primary the re-run
      sees carries the chosen id. */
  lemma PrimariesAfterInsert(m: seq<Contact>, n: Contact, v: set<int>, p: int,
                             snap2: seq<Contact>, v2: set<int>)
    requires forall c :: c in snap2 <==> c in m + [n] && c.id in v2
    requires v2 <= v + {n.id}
    requires forall c :: c in m && c.id in v && c.id != p ==> !c.IsPrimary()
    requires forall c :: c in m ==> c.id != n.id
    requires !n.IsPrimary()
    ensures forall c :: c in snap2 && c.IsPrimary() ==> c.id == p
  {
    forall c | c in snap2 && c.IsPrimary() ensures c.id == p {
      if c != n {
        assert c in m;
      }
    }
  }

  /** The chosen id is the id of a row, so it lies in `[1, nextId)`. */
  lemma ChosenInRange(st: Store, input: Input)
    requires WellFormed(st)
    requires |Snapshot(st, input)| > 0
    ensures 1 <= Chosen(st, input) < st.nextId
  {
    var q :| q in st.contacts && q.id == Chosen(st, input);
    var i :| 0 <= i < |st.contacts| && st.contacts[i] == q;
  }

  /** The re-run's component reaches the chosen id through the inserted
      row's link. */
  lemma RerunReachesChosen(st: Store, input: Input, now: int)
    requires WellFormed(st)
    requires Pass(st, input, now).Inserted?
    ensures Chosen(st, input) in Component(Pass(st, input, now).store, input)
  {
    InsertedStore(st, input, now);
    ChosenInRange(st, input);
    var st2 := Pass(st, input, now).store;
    var n := InsertedRow(st, input, now);
    assert n in st2.contacts;
    SeedLinks(st2, input, n);
  }

  /** A row carrying the provided input facts is a seed, so the component
      holds every id it mentions. */
  lemma SeedLinks(st2: Store, input: Input, n: Contact)
    requires n in st2.contacts
    requires n.email == input.email && n.phoneNumber == input.phoneNumber
    requires Provided(input.email) || Provided(input.phoneNumber)
    ensures |Seeds(st2, input)| > 0
    ensures Neighbours(n) <= Component(st2, input)
  {
    assert Matches(ByFacts(input.email, input.phoneNumber), n);
    assert n in Seeds(st2, input);
  }

  /** When the component held a primary, the re-run chooses the row the
      first pass chose. */
  lemma RerunKeepsChosen(st: Store, input: Input, now: int)
    requires WellFormed(st)
    requires Pass(st, input, now).Inserted?
    requires exists c :: c in st.contacts && c.id in Component(st, input) && c.IsPrimary()
    ensures |Snapshot(Pass(st, input, now).store, input)| > 0
    ensures Chosen(Pass(st, input, now).store, input) == Chosen(st, input)
  {
    InsertedStore(st, input, now);
    RerunComponentBound(st, input, now);
    RerunReachesChosen(st, input, now);
    MergeLeavesOnePrimary(st, input);
    var m := Merged(st, input).contacts;
    var st2 := Pass(st, input, now).store;
    var n := InsertedRow(st, input, now);
    var p := Chosen(st, input);
    var snap2 := Snapshot(st2, input);
    var pr :| pr in m && pr.id == p && pr.IsPrimary();
    assert pr in snap2;
    FreshIdUntouched(Merged(st, input));
    PrimariesAfterInsert(m, n, Component(st, input), p, snap2, Component(st2, input));
    CanonicalIsOnlyPrimary(snap2, Canonical(snap2), pr);
  }

  /** The response assembled around `p` lists a row linked to it, with its
      facts. */
  lemma AssembleListsLinked(cs: seq<Contact>, p: int, n: Contact)
    requires n in cs && n.linkedId == Some(p) && n.id != p
    ensures n.id in Assemble(cs, p).secondaryContactIds
    ensures n.email.Some? ==> n.email.value in Assemble(cs, p).emails
    ensures n.phoneNumber.Some? ==> n.phoneNumber.value in Assemble(cs, p).phoneNumbers
  {
    assert n.Touches(p);
  }

  /** The re-run finishes on the store the insert produced, and the
      inserted secondary survives its demotions unchanged. */
  lemma RerunAnswer(st: Store, input: Input, now: int)
    requires WellFormed(st)
    requires Pass(st, input, now).Inserted?
    ensures |Snapshot(Pass(st, input, now).store, input)| > 0
    ensures Identify(st, input, now, 1) ==
      Success((Merged(Pass(st, input, now).store, input),
               Assemble(Merged(Pass(st, input, now).store, input).contacts,
                        Chosen(Pass(st, input, now).store, input))))
    ensures InsertedRow(st, input, now) in Merged(Pass(st, input, now).store, input).contacts
  {
    InsertedStore(st, input, now);
    RerunFinishes(st, input, now);
    var st2 := Pass(st, input, now).store;
    var n := InsertedRow(st, input, now);
    SeedLinks(st2, input, n);
    InsertOnNewFact(st2, input, now);
    MergeEffect(st2, input);
    var last := |st2.contacts| - 1;
    assert st2.contacts[last] == n;
    assert Merged(st2, input).contacts[last] == n;
  }

  /** The re-run after an insert answers with the first pass's primary and
      lists the inserted row among the secondaries, together with every
      provided fact. */
  lemma RerunIncludesInserted(st: Store, input: Input, now: int)
    requires WellFormed(st)
    requires Pass(st, input, now).Inserted?
    requires exists c :: c in st.contacts && c.id in Component(st, input) && c.IsPrimary()
    ensures Identify(st, input, now, 1).Success?
    ensures Identify(st, input, now, 1).value.1.primaryContactId == Chosen(st, input)
    ensures st.nextId in Identify(st, input, now, 1).value.1.secondaryContactIds
    ensures Provided(input.email) ==> input.email.value in Identify(st, input, now, 1).value.1.emails
    ensures Provided(input.phoneNumber) ==>
      input.phoneNumber.value in Identify(st, input, now, 1).value.1.phoneNumbers
  {
    RerunAnswer(st, input, now);
    RerunKeepsChosen(st, input, now);
    ChosenInRange(st, input);
    var p := Chosen(st, input);
    var st2 := Pass(st, input, now).store;
    AssembleListsLinked(Merged(st2, input).contacts, p, InsertedRow(st, input, now));
  }
}
