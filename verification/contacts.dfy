/**
 The contact record, the only entity of the identity-consolidation service,
 together with the JavaScript truthiness tests the service applies to its
 optional fields.
 */
module Contacts {

  datatype Option<T> = None | Some(value: T)

  datatype Precedence = Primary | Secondary

  /** One row of the contact table. `createdAt` is an abstract timestamp. */
  datatype Contact = Contact(
    id: int,
    email: Option<string>,
    phoneNumber: Option<string>,
    linkedId: Option<int>,
    linkPrecedence: Precedence,
    createdAt: int)
  {
    predicate IsPrimary() {
      linkPrecedence == Primary
    }

    /** The Prisma clause `OR: [{ id: v }, { linkedId: v }]`. */
    predicate Touches(v: int) {
      id == v || linkedId == Some(v)
    }
  }

  /** A number is falsy in JavaScript exactly when it is 0 (ids are never NaN). */
  predicate IdTruthy(x: int) {
    x != 0
  }

  /** `if (c.linkedId)`: null and 0 are falsy. */
  predicate LinkTruthy(o: Option<int>) {
    o.Some? && IdTruthy(o.value)
  }

  /** `email ? … : …`: undefined, null and the empty string are falsy. */
  predicate Provided(o: Option<string>) {
    o.Some? && o.value != ""
  }

  /** The ids the traversal may enqueue on behalf of `c`: its own id and its
      link target, each only when truthy. */
  function Neighbours(c: Contact): (r: set<int>)
    ensures forall x :: x in r ==> IdTruthy(x)
    ensures IdTruthy(c.id) ==> c.id in r
    ensures LinkTruthy(c.linkedId) ==> c.linkedId.value in r
  {
    (if IdTruthy(c.id) then {c.id} else {}) +
    (if LinkTruthy(c.linkedId) then {c.linkedId.value} else {})
  }

  /** The demotion update of the merge step. */
  function Demoted(c: Contact, p: int): (r: Contact)
    ensures r.id == c.id && r.email == c.email && r.phoneNumber == c.phoneNumber
    ensures r.createdAt == c.createdAt
    ensures !r.IsPrimary() && r.linkedId == Some(p)
  {
    c.(linkPrecedence := Secondary, linkedId := Some(p))
  }
}
