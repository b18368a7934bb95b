/**
 An in-memory stand-in for the contact table: the `where` clauses the
 service issues, `findMany` as an order-preserving filter, `create` with
 store-assigned ids, and `update` by id.
 */
module ContactStore {
  import opened Contacts

  /** The table itself; `nextId` is the autoincrement counter. */
  datatype Store = Store(contacts: seq<Contact>, nextId: int)

  /** Ids are positive, distinct and below the autoincrement counter, and
      no link points at an id the counter has not handed out yet. */
  predicate WellFormed(st: Store) {
    && 1 <= st.nextId
    && (forall i :: 0 <= i < |st.contacts| ==> 1 <= st.contacts[i].id < st.nextId)
    && (forall i, j :: 0 <= i < j < |st.contacts| ==> st.contacts[i].id != st.contacts[j].id)
    && (forall i :: 0 <= i < |st.contacts| && st.contacts[i].linkedId.Some? ==>
          st.contacts[i].linkedId.value < st.nextId)
  }

  /** The three `where` clauses the service uses. */
  datatype Query =
    | ByFacts(email: Option<string>, phoneNumber: Option<string>)  // OR of the truthy facts
    | ByIdOrLink(target: int)                                        // id = target OR linkedId = target
    | ByIds(ids: set<int>)                                           // id IN ids

  predicate Matches(q: Query, c: Contact) {
    match q
    case ByFacts(e, p) =>
      // Falsy facts are filtered out of the OR list; an empty OR matches nothing.
      (Provided(e) && c.email == e) || (Provided(p) && c.phoneNumber == p)
    case ByIdOrLink(t) => c.Touches(t)
    case ByIds(ids) => c.id in ids
  }

  /** `findMany` without ordering: the matching rows, in table order. */
  function FindMany(cs: seq<Contact>, q: Query): (r: seq<Contact>)
    ensures forall c :: c in r <==> c in cs && Matches(q, c)
    ensures |r| <= |cs|
  {
    if cs == [] then []
    else
      var rest := FindMany(cs[1..], q);
      if Matches(q, cs[0]) then [cs[0]] + rest else rest
  }

  /** `findMany` returns each matching row as often as the table holds it:
      the result is a sub-multiset of the table, so no row is repeated. */
  lemma {:induction false} FindManyOnce(cs: seq<Contact>, q: Query)
    ensures multiset(FindMany(cs, q)) <= multiset(cs)
    ensures forall c :: c in cs && Matches(q, c) ==> multiset(FindMany(cs, q))[c] == multiset(cs)[c]
    decreases |cs|
  {
    if cs != [] {
      assert cs == [cs[0]] + cs[1..];
      FindManyOnce(cs[1..], q);
    }
  }

  /** `create`: the row gets the next autoincrement id and the current time. */
  function Create(st: Store, email: Option<string>, phoneNumber: Option<string>,
                  prec: Precedence, linkedId: Option<int>, now: int): (r: (Store, Contact))
    ensures r.0.contacts == st.contacts + [r.1]
    ensures r.1.email == email && r.1.phoneNumber == phoneNumber
    ensures r.1.linkPrecedence == prec && r.1.linkedId == linkedId
    ensures WellFormed(st) && (linkedId.Some? ==> linkedId.value < st.nextId) ==> WellFormed(r.0)
    ensures WellFormed(st) ==> IdTruthy(r.1.id) && forall c :: c in st.contacts ==> c.id != r.1.id
  {
    var c := Contact(st.nextId, email, phoneNumber, linkedId, prec, now);
    (Store(st.contacts + [c], st.nextId + 1), c)
  }

  /** `t` holds every row of `cs` at its old position with the same id,
      facts and timestamp: only precedence and link may differ, and rows
      may have been appended. No row is deleted and no fact is lost. */
  predicate Keeps(cs: seq<Contact>, t: seq<Contact>) {
    && |cs| <= |t|
    && forall i :: 0 <= i < |cs| ==>
         && t[i].id == cs[i].id && t[i].email == cs[i].email
         && t[i].phoneNumber == cs[i].phoneNumber && t[i].createdAt == cs[i].createdAt
  }

  /** `c` after the demotion of the ids in `ids` to secondaries of `p`. */
  function Relabeled(c: Contact, ids: set<int>, p: int): Contact {
    if c.id in ids then Demoted(c, p) else c
  }

  /** Every row demoted at once: the reference meaning of the demotion batch. */
  function Relabel(cs: seq<Contact>, ids: set<int>, p: int): (r: seq<Contact>)
    ensures |r| == |cs|
  {
    if cs == [] then [] else [Relabeled(cs[0], ids, p)] + Relabel(cs[1..], ids, p)
  }

  lemma {:induction false} RelabelAt(cs: seq<Contact>, ids: set<int>, p: int)
    ensures forall i :: 0 <= i < |cs| ==> Relabel(cs, ids, p)[i] == Relabeled(cs[i], ids, p)
    decreases |cs|
  {
    if cs != [] {
      RelabelAt(cs[1..], ids, p);
    }
  }

  /** `update({ where: { id }, data: { linkPrecedence: 'secondary', linkedId: p } })`. */
  function Update(st: Store, id: int, p: int): (r: Store)
    ensures r.nextId == st.nextId
    ensures r.contacts == Relabel(st.contacts, {id}, p)
  {
    Store(Relabel(st.contacts, {id}, p), st.nextId)
  }

  /** The demotion updates issued one after another. Whatever their order,
      the result is the simultaneous demotion of every listed id, and the
      table keeps its length, its ids and its facts. */
  function Demote(st: Store, ids: seq<int>, p: int): (r: Store)
    ensures r.nextId == st.nextId
    ensures r.contacts == Relabel(st.contacts, (set i | i in ids), p)
    ensures WellFormed(st) && p < st.nextId ==> WellFormed(r)
    decreases |ids|
  {
    if ids == [] then
      assert (set i | i in ids) == {};
      RelabelAt(st.contacts, {}, p);
      st
    else
      var st1 := Update(st, ids[0], p);
      var r := Demote(st1, ids[1..], p);
      RelabelAt(st.contacts, {ids[0]}, p);
      RelabelTwice(st.contacts, ids[0], (set i | i in ids[1..]), p);
      assert (set i | i in ids) == {ids[0]} + (set i | i in ids[1..]);
      r
  }

  /** Demoting one id and then a set equals demoting their union at once. */
  lemma RelabelTwice(cs: seq<Contact>, a: int, rest: set<int>, p: int)
    ensures Relabel(Relabel(cs, {a}, p), rest, p) == Relabel(cs, {a} + rest, p)
  {
    var lhs := Relabel(Relabel(cs, {a}, p), rest, p);
    var rhs := Relabel(cs, {a} + rest, p);
    RelabelAt(cs, {a}, p);
    RelabelAt(Relabel(cs, {a}, p), rest, p);
    RelabelAt(cs, {a} + rest, p);
    assert |lhs| == |rhs|;
    forall i | 0 <= i < |cs| ensures lhs[i] == rhs[i] {}
  }

  /** Filtering by facts or by ids does not look at the fields a demotion
      changes, so it commutes with the demotion batch. */
  lemma {:induction false} FindManyRelabel(cs: seq<Contact>, q: Query, ids: set<int>, p: int)
    requires q.ByFacts? || q.ByIds?
    ensures FindMany(Relabel(cs, ids, p), q) == Relabel(FindMany(cs, q), ids, p)
    decreases |cs|
  {
    if cs != [] {
      var rc := Relabel(cs, ids, p);
      assert rc[1..] == Relabel(cs[1..], ids, p);
      FindManyRelabel(cs[1..], q, ids, p);
      assert Matches(q, rc[0]) == Matches(q, cs[0]);
    }
  }

  /** In a well-formed store a row is determined by its id. */
  lemma RowById(st: Store, c: Contact, d: Contact)
    requires WellFormed(st)
    requires c in st.contacts && d in st.contacts && c.id == d.id
    ensures c == d
  {
    var i :| 0 <= i < |st.contacts| && st.contacts[i] == c;
    var j :| 0 <= j < |st.contacts| && st.contacts[j] == d;
  }

  /** The rows of a demoted sequence are the demoted rows. */
  lemma RelabelMembers(s: seq<Contact>, ids: set<int>, p: int)
    ensures forall c :: c in s ==> Relabeled(c, ids, p) in Relabel(s, ids, p)
    ensures forall c :: c in Relabel(s, ids, p) ==> exists d :: d in s && c == Relabeled(d, ids, p)
  {
    var m := Relabel(s, ids, p);
    RelabelAt(s, ids, p);
    forall c | c in s ensures Relabeled(c, ids, p) in m {
      var j :| 0 <= j < |s| && s[j] == c;
      assert m[j] == Relabeled(c, ids, p);
    }
    forall c | c in m ensures exists d :: d in s && c == Relabeled(d, ids, p) {
      var j :| 0 <= j < |m| && m[j] == c;
      assert s[j] in s;
    }
  }

  /** A demotion batch keeps every row in place with its facts. */
  lemma KeepsRelabel(cs: seq<Contact>, ids: set<int>, p: int)
    ensures Keeps(cs, Relabel(cs, ids, p))
  {
    RelabelAt(cs, ids, p);
  }

  /** Appending a row keeps what was kept. */
  lemma KeepsAppend(cs: seq<Contact>, t: seq<Contact>, c: Contact)
    requires Keeps(cs, t)
    ensures Keeps(cs, t + [c])
  {
  }
}
