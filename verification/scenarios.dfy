/**
 A table on which a chain of secondaries forms: demotion re-points only the
 primaries it demotes, so a secondary of a demoted primary keeps its old
 link, and the final fetch, which follows only direct links to the chosen
 primary, leaves that secondary out of the response.
 */
module Scenarios {
  import opened Contacts
  import opened ContactStore
  import opened Traversal
  import opened Selection
  import opened Assembly
  import opened Service
  import opened ServiceProperties

  /** Three rows: an older primary `a` holding the requested email, a younger
      primary `b` holding the requested phone, and a secondary `c` of `b`
      with some other email. */
  ghost predicate ChainTable(st: Store, input: Input, a: Contact, b: Contact, c: Contact) {
    && Provided(input.email) && Provided(input.phoneNumber)
    && a == Contact(1, input.email, None, None, Primary, 1)
    && b == Contact(2, None, input.phoneNumber, None, Primary, 2)
    && c.id == 3 && c.email.Some? && c.email != input.email && c.phoneNumber == None
    && c.linkedId == Some(2) && !c.IsPrimary() && c.createdAt == 3
    && (forall d :: d in st.contacts <==> d == a || d == b || d == c)
  }

  /** The walk from the two seeds reaches all three rows. */
  lemma ChainComponent(st: Store, input: Input, a: Contact, b: Contact, c: Contact)
    requires ChainTable(st, input, a, b, c)
    ensures Component(st, input) == {1, 2, 3}
  {
    var cs := st.contacts;
    var s := {1, 2, 3};
    var v := Component(st, input);
    assert a in cs && b in cs && c in cs;
    assert a in Seeds(st, input) && b in Seeds(st, input);
    assert 1 in v && 2 in v;
    assert c.Touches(2);
    assert 3 in v;
    assert Closed(cs, s) by {
      forall d, x | d in cs && x in s && d.Touches(x) ensures Neighbours(d) <= s {
      }
    }
    forall d | d in Seeds(st, input) ensures Neighbours(d) <= s {
      assert d in cs;
    }
    ComponentIsLeastClosure(st, input, s);
  }

  lemma ChainSnapshot(st: Store, input: Input, a: Contact, b: Contact, c: Contact)
    requires ChainTable(st, input, a, b, c)
    ensures forall d :: d in Snapshot(st, input) <==> d == a || d == b || d == c
  {
    ChainComponent(st, input, a, b, c);
  }

  /** A primary strictly older than every other primary is the choice. */
  lemma OldestPrimaryChosen(snap: seq<Contact>, a: Contact)
    requires a in snap && a.IsPrimary()
    requires forall d :: d in snap && d.IsPrimary() && d != a ==> a.createdAt < d.createdAt
    ensures |snap| > 0 && snap[Canonical(snap)] == a
  {
    var k := Canonical(snap);
    var j :| 0 <= j < |snap| && snap[j] == a;
    assert snap[k] in snap;
  }

  /** The older primary `a` is chosen. */
  lemma ChainChosen(st: Store, input: Input, a: Contact, b: Contact, c: Contact)
    requires ChainTable(st, input, a, b, c)
    ensures |Snapshot(st, input)| > 0
    ensures Chosen(st, input) == 1
  {
    ChainOldest(st, input, a, b, c);
    OldestPrimaryChosen(Snapshot(st, input), a);
  }

  lemma ChainOldest(st: Store, input: Input, a: Contact, b: Contact, c: Contact)
    requires ChainTable(st, input, a, b, c)
    ensures a in Snapshot(st, input)
    ensures forall d :: d in Snapshot(st, input) && d.IsPrimary() && d != a ==> a.createdAt < d.createdAt
  {
    ChainSnapshot(st, input, a, b, c);
  }

  /** Of three rows of which `b` is the only other primary, only `b` is demoted. */
  lemma OnlyOtherPrimaryDemoted(snap: seq<Contact>, a: Contact, b: Contact, c: Contact)
    requires forall d :: d in snap <==> d == a || d == b || d == c
    requires b.IsPrimary() && b.id != a.id && !c.IsPrimary()
    ensures (set i | i in DemotionIds(snap, a.id)) == {b.id}
  {
    assert b in snap;
  }

  /** The younger primary `b`, and nothing else, is demoted under `a`. */
  lemma ChainMerged(st: Store, input: Input, a: Contact, b: Contact, c: Contact)
    requires ChainTable(st, input, a, b, c)
    ensures |Snapshot(st, input)| > 0
    ensures Merged(st, input).contacts == Relabel(st.contacts, {2}, 1)
  {
    ChainChosen(st, input, a, b, c);
    assert (set i | i in DemotionIds(Snapshot(st, input), 1)) == {2} by {
      ChainSnapshot(st, input, a, b, c);
      OnlyOtherPrimaryDemoted(Snapshot(st, input), a, b, c);
    }
  }

  /** The rows after demoting `b` under `a`. */
  lemma RowsAfterDemotion(cs: seq<Contact>, a: Contact, b: Contact, c: Contact)
    requires forall d :: d in cs <==> d == a || d == b || d == c
    requires a.id == 1 && b.id == 2 && c.id == 3
    ensures forall d :: d in Relabel(cs, {2}, 1) <==> d == a || d == Demoted(b, 1) || d == c
  {
    RelabelMembers(cs, {2}, 1);
    assert a in cs && b in cs && c in cs;
    assert Relabeled(a, {2}, 1) == a && Relabeled(c, {2}, 1) == c;
    assert Relabeled(b, {2}, 1) == Demoted(b, 1);
  }

  /** What the final fetch of `a`'s group reports from those rows. */
  lemma ChainResponse(m: seq<Contact>, a: Contact, b: Contact, c: Contact)
    requires forall d :: d in m <==> d == a || d == Demoted(b, 1) || d == c
    requires a.id == 1 && b.id == 2 && c.id == 3 && c.linkedId == Some(2)
    requires c.email.Some? && c.email != a.email && b.email == None
    ensures 2 in Assemble(m, 1).secondaryContactIds
    ensures 3 !in Assemble(m, 1).secondaryContactIds
    ensures c.email.value !in Assemble(m, 1).emails
  {
    var r := Assemble(m, 1);
    assert Demoted(b, 1) in m;
    assert forall d :: d in m && d.linkedId == Some(1) ==> d.id != 3;
    assert forall d :: d in m && d.Touches(1) ==> d.email != c.email;
  }

  /** The pass finishes without an insert. Afterwards `c` still links to row
      2, which is now a secondary, so the chain `c` → `b` → `a` exists; the
      response reports `b` but neither `c` nor its email. */
  lemma ChainFormsAndIsHidden(st: Store, input: Input, now: int, a: Contact, b: Contact, c: Contact)
    requires ChainTable(st, input, a, b, c)
    ensures Pass(st, input, now).Finished?
    ensures c in Pass(st, input, now).store.contacts && c.linkedId == Some(2)
    ensures Demoted(b, 1) in Pass(st, input, now).store.contacts && !Demoted(b, 1).IsPrimary()
    ensures Pass(st, input, now).response.primaryContactId == 1
    ensures 2 in Pass(st, input, now).response.secondaryContactIds
    ensures 3 !in Pass(st, input, now).response.secondaryContactIds
    ensures c.email.value !in Pass(st, input, now).response.emails
  {
    ChainMerged(st, input, a, b, c);
    ChainChosen(st, input, a, b, c);
    assert a in Seeds(st, input) by {
      assert a in st.contacts;
    }
    assert !NewFact(input, Snapshot(st, input)) by {
      ChainSnapshot(st, input, a, b, c);
      CarrierPresent(Snapshot(st, input), input, a, b);
    }
    InsertOnNewFact(st, input, now);
    var m := Merged(st, input).contacts;
    RowsAfterDemotion(st.contacts, a, b, c);
    ChainResponse(m, a, b, c);
  }

  /** The requested email sits on `a` and the requested phone on `b`. */
  lemma CarrierPresent(snap: seq<Contact>, input: Input, a: Contact, b: Contact)
    requires a in snap && b in snap
    requires a.email == input.email && b.phoneNumber == input.phoneNumber
    ensures !NewFact(input, snap)
  {
  }
}
