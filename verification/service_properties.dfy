/**
 Properties of a resolution pass and of the re-run after an insert.
 */
module ServiceProperties {
  import opened Contacts
  import opened ContactStore
  import opened Ordering
  import opened Traversal
  import opened Selection
  import opened Assembly
  import opened Service

  /** Step 2: when no row carries a truthy input fact, the pass appends one
      fresh primary without a link and answers with it alone. */
  lemma NoMatchCreatesPrimary(st: Store, input: Input, now: int, fuel: nat)
    ensures Pass(st, input, now).Created? <==> |Seeds(st, input)| == 0
    ensures |Seeds(st, input)| == 0 <==>
      forall c :: c in st.contacts ==> !Matches(ByFacts(input.email, input.phoneNumber), c)
    ensures |Seeds(st, input)| == 0 ==>
      Identify(st, input, now, fuel) == Success((
        Store(st.contacts + [Contact(st.nextId, input.email, input.phoneNumber, None, Primary, now)], st.nextId + 1),
        Response(st.nextId, FactList(input.email), FactList(input.phoneNumber), [])))
  {
    var seeds := Seeds(st, input);
    if |seeds| > 0 {
      assert seeds[0] in seeds;
    }
  }

  /** Step 3 computes exactly the connected component: the least closed set
      of ids that holds every seed's truthy id and truthy link. */
  lemma ComponentIsLeastClosure(st: Store, input: Input, s: set<int>)
    requires Closed(st.contacts, s)
    requires forall c :: c in Seeds(st, input) ==> Neighbours(c) <= s
    ensures Component(st, input) <= s
  {
    var seeds := Seeds(st, input);
    var queue := SeedQueue(seeds);
    assert forall x :: x in queue && IdTruthy(x) ==> x in Refs(st.contacts) by {
      forall x | x in queue && IdTruthy(x) ensures x in Refs(st.contacts) {
        var c :| c in seeds && x in Neighbours(c);
        assert c in st.contacts;
      }
    }
    TraverseLeast(st.contacts, queue, s);
  }

  /** The demotion batch on a table with distinct ids, where `snap` holds
      exactly the rows whose id is in `v`. */
  lemma DemotionPointwise(cs: seq<Contact>, snap: seq<Contact>, v: set<int>, p: int)
    requires forall i, j :: 0 <= i < j < |cs| ==> cs[i].id != cs[j].id
    requires forall c :: c in snap <==> c in cs && c.id in v
    ensures forall i :: 0 <= i < |cs| ==>
      Relabel(cs, (set x | x in DemotionIds(snap, p)), p)[i] ==
        (if cs[i].id in v && cs[i].id != p && cs[i].IsPrimary() then Demoted(cs[i], p) else cs[i])
  {
    var ids := DemotionIds(snap, p);
    var d := set x | x in ids;
    RelabelAt(cs, d, p);
    forall i | 0 <= i < |cs|
      ensures cs[i].id in d <==> (cs[i].id in v && cs[i].id != p && cs[i].IsPrimary())
    {
      if cs[i].id in v && cs[i].id != p && cs[i].IsPrimary() {
        assert cs[i] in snap;
      }
      if cs[i].id in d {
        var c :| c in snap && c.id == cs[i].id && c.id != p && c.IsPrimary();
        var j :| 0 <= j < |cs| && cs[j] == c;
        assert i == j;
      }
    }
  }

  /** Step 6, row by row: a primary of the component other than the chosen
      one becomes a secondary linked to it; every other row, inside or
      outside the component, is untouched; no row is added or removed. */
  lemma MergeEffect(st: Store, input: Input)
    requires WellFormed(st)
    requires |Snapshot(st, input)| > 0
    ensures Merged(st, input).nextId == st.nextId
    ensures |Merged(st, input).contacts| == |st.contacts|
    ensures forall i :: 0 <= i < |st.contacts| ==>
      Merged(st, input).contacts[i] ==
        (if st.contacts[i].id in Component(st, input) && st.contacts[i].id != Chosen(st, input)
            && st.contacts[i].IsPrimary()
         then Demoted(st.contacts[i], Chosen(st, input))
         else st.contacts[i])
    ensures WellFormed(Merged(st, input))
  {
    var p := Chosen(st, input);
    DemotionPointwise(st.contacts, Snapshot(st, input), Component(st, input), p);
    var c :| c in st.contacts && c.id == p;
  }

  /** After step 6 the chosen row is the only primary left in the component,
      and it is a primary whenever the component held one. */
  lemma MergeLeavesOnePrimary(st: Store, input: Input)
    requires WellFormed(st)
    requires |Snapshot(st, input)| > 0
    ensures forall c :: (c in Merged(st, input).contacts && c.id in Component(st, input)
              && c.id != Chosen(st, input)) ==> !c.IsPrimary()
    ensures (exists c :: c in st.contacts && c.id in Component(st, input) && c.IsPrimary()) ==>
      exists c :: c in Merged(st, input).contacts && c.id == Chosen(st, input) && c.IsPrimary()
  {
    MergeEffect(st, input);
    var snap := Snapshot(st, input);
    var k := Canonical(snap);
    assert snap[k] in snap;
    OnePrimaryLeft(st.contacts, Merged(st, input).contacts, snap, Component(st, input), k);
  }

  lemma OnePrimaryLeft(cs: seq<Contact>, m: seq<Contact>, snap: seq<Contact>, v: set<int>, k: nat)
    requires IsCanonical(snap, k)
    requires forall c :: c in snap <==> c in cs && c.id in v
    requires |m| == |cs|
    requires forall i :: 0 <= i < |cs| ==>
      m[i] == (if cs[i].id in v && cs[i].id != snap[k].id && cs[i].IsPrimary()
               then Demoted(cs[i], snap[k].id) else cs[i])
    ensures forall c :: (c in m && c.id in v && c.id != snap[k].id) ==> !c.IsPrimary()
    ensures (exists c :: c in cs && c.id in v && c.IsPrimary()) ==>
      exists c :: c in m && c.id == snap[k].id && c.IsPrimary()
  {
    var p := snap[k].id;
    forall c | c in m && c.id in v && c.id != p ensures !c.IsPrimary() {
      var i :| 0 <= i < |m| && m[i] == c;
    }
    if exists c :: c in cs && c.id in v && c.IsPrimary() {
      var c :| c in cs && c.id in v && c.IsPrimary();
      assert c in snap;
      var j :| 0 <= j < |snap| && snap[j] == c;
      assert snap[k].IsPrimary();
      assert snap[k] in snap;
      var i :| 0 <= i < |cs| && cs[i] == snap[k];
      assert m[i] == snap[k];
    }
  }

  /** Step 7: the pass inserts exactly when a provided fact is missing from
      the pre-demotion snapshot. The new row carries the input facts as
      given, is a secondary and links to the chosen primary; otherwise no
      row is created and the pass assembles the final group. */
  lemma InsertOnNewFact(st: Store, input: Input, now: int)
    requires |Seeds(st, input)| > 0 && |Snapshot(st, input)| > 0
    ensures Pass(st, input, now).Inserted? <==> NewFact(input, Snapshot(st, input))
    ensures Pass(st, input, now).Inserted? ==>
      Pass(st, input, now).store == Store(
        Merged(st, input).contacts +
          [Contact(st.nextId, input.email, input.phoneNumber, Some(Chosen(st, input)), Secondary, now)],
        st.nextId + 1)
    ensures !Pass(st, input, now).Inserted? ==>
      Pass(st, input, now) == Finished(Merged(st, input), Assemble(Merged(st, input).contacts, Chosen(st, input)))
  {
    InsertCondition(input, Snapshot(st, input));
  }

  /** On a well-formed store every seed's own id is visited, so the
      snapshot holds every seed. */
  lemma SeedsInSnapshot(st: Store, input: Input)
    requires WellFormed(st)
    ensures forall c :: c in Seeds(st, input) ==> c in Snapshot(st, input)
  {
    var v := Component(st, input);
    forall c | c in Seeds(st, input) ensures c in Snapshot(st, input) {
      assert c.id in Neighbours(c);
    }
  }

  /** On a well-formed store the reduce always has a row to start from. */
  lemma PassNeverFails(st: Store, input: Input, now: int)
    requires WellFormed(st)
    ensures !Pass(st, input, now).Failed?
  {
    if |Seeds(st, input)| > 0 {
      SeedsInSnapshot(st, input);
      assert Seeds(st, input)[0] in Snapshot(st, input);
    }
  }

  /** A pass keeps the store well formed. */
  lemma PassPreservesWellFormed(st: Store, input: Input, now: int)
    requires WellFormed(st)
    ensures !Pass(st, input, now).Failed? && WellFormed(Pass(st, input, now).store)
  {
    PassNeverFails(st, input, now);
    if |Seeds(st, input)| > 0 {
      MergeEffect(st, input);
      var c :| c in st.contacts && c.id == Chosen(st, input);
    }
  }

  /** A row carrying a provided input fact is among the seeds, and on a
      well-formed store it is in the snapshot; if it carries every
      provided fact, nothing is missing. */
  lemma CarrierFound(st: Store, input: Input, n: Contact)
    requires WellFormed(st)
    requires n in st.contacts
    requires n.email == input.email && n.phoneNumber == input.phoneNumber
    requires Provided(input.email) || Provided(input.phoneNumber)
    ensures |Seeds(st, input)| > 0
    ensures n in Snapshot(st, input)
    ensures !NewFact(input, Snapshot(st, input))
  {
    var seeds := Seeds(st, input);
    assert Matches(ByFacts(input.email, input.phoneNumber), n);
    assert n in seeds;
    SeedsInSnapshot(st, input);
    CarrierNotNew(input, Snapshot(st, input), n);
  }

  lemma CarrierNotNew(input: Input, snap: seq<Contact>, n: Contact)
    requires n in snap
    requires n.email == input.email && n.phoneNumber == input.phoneNumber
    ensures !NewFact(input, snap)
  {
  }

  /** The promise behind "recurse once": on the store the insert produced,
      the re-run finds the inserted row among its seeds and in its
      component, so every provided fact is present and it inserts nothing. */
  lemma RerunFinishes(st: Store, input: Input, now: int)
    requires WellFormed(st)
    requires Pass(st, input, now).Inserted?
    ensures Pass(Pass(st, input, now).store, input, now).Finished?
    ensures Contact(st.nextId, input.email, input.phoneNumber, Some(Chosen(st, input)), Secondary, now)
              in Snapshot(Pass(st, input, now).store, input)
  {
    PassNeverFails(st, input, now);
    PassPreservesWellFormed(st, input, now);
    InsertOnNewFact(st, input, now);
    var st2 := Pass(st, input, now).store;
    var n := Contact(st.nextId, input.email, input.phoneNumber, Some(Chosen(st, input)), Secondary, now);
    assert n == st2.contacts[|st2.contacts| - 1];
    assert Provided(input.email) || Provided(input.phoneNumber);
    CarrierFound(st2, input, n);
    assert |Snapshot(st2, input)| > 0;
    InsertOnNewFact(st2, input, now);
  }

  /** `identifyContact` terminates after at most one re-run on a well-formed
      store: with any fuel from 1 up it succeeds, with the same answer. */
  lemma IdentifyNeedsOneRerun(st: Store, input: Input, now: int, fuel: nat)
    requires WellFormed(st)
    requires fuel >= 1
    ensures Identify(st, input, now, fuel).Success?
    ensures Identify(st, input, now, fuel) == Identify(st, input, now, 1)
  {
    PassNeverFails(st, input, now);
    if Pass(st, input, now).Inserted? {
      RerunFinishes(st, input, now);
    }
  }
}
