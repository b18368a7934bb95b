/**
 Steps 8 and 9 of the resolution: the final group fetch and the
 deduplicated response built from it.
 */
module Assembly {
  import opened Contacts
  import opened ContactStore

  /** The `contact` object of the response. */
  datatype Response = Response(
    primaryContactId: int,
    emails: seq<string>,
    phoneNumbers: seq<string>,
    secondaryContactIds: seq<int>)

  predicate NoDuplicates<T(==,!new)>(xs: seq<T>) {
    forall i, j :: 0 <= i < j < |xs| ==> xs[i] != xs[j]
  }

  /** Position of the first occurrence of `x` in `xs`. */
  function FirstIndex<T(==,!new)>(xs: seq<T>, x: T): (k: nat)
    requires x in xs
    ensures k < |xs| && xs[k] == x
    ensures forall i :: 0 <= i < k ==> xs[i] != x
  {
    if xs[0] == x then 0 else 1 + FirstIndex(xs[1..], x)
  }

  /** `Array.from(new Set(xs))`: the distinct elements of `xs`, each once,
      in the order of their first occurrence. */
  function Dedup<T(==,!new)>(xs: seq<T>): (r: seq<T>)
    ensures forall x :: x in r <==> x in xs
    ensures NoDuplicates(r)
    ensures forall i, j :: 0 <= i < j < |r| ==> FirstIndex(xs, r[i]) < FirstIndex(xs, r[j])
    decreases |xs|
  {
    if xs == [] then []
    else
      var n := |xs| - 1;
      var d := Dedup(xs[..n]);
      assert xs == xs[..n] + [xs[n]];
      FirstIndexPrefix(xs, n);
      if xs[n] in d then d
      else
        var r := d + [xs[n]];
        assert forall i :: 0 <= i < |d| ==> FirstIndex(xs, r[i]) < n;
        r
  }

  /** First occurrences inside a prefix are first occurrences in the whole. */
  lemma FirstIndexPrefix<T(!new)>(xs: seq<T>, n: nat)
    requires n < |xs|
    ensures forall x :: x in xs[..n] ==> FirstIndex(xs, x) == FirstIndex(xs[..n], x) < n
    ensures xs[n] !in xs[..n] ==> FirstIndex(xs, xs[n]) == n
  {
    forall x | x in xs[..n] ensures FirstIndex(xs, x) == FirstIndex(xs[..n], x) < n {
      var k := FirstIndex(xs[..n], x);
      var k' := FirstIndex(xs, x);
      assert xs[k] == x;
      assert k' <= k;
      assert xs[..n][k'] == x;
    }
    if xs[n] !in xs[..n] {
      var k := FirstIndex(xs, xs[n]);
      assert k <= n;
    }
  }

  /** `map(c => c.email).filter(e => e !== null && e !== undefined)`. */
  function EmailsOf(group: seq<Contact>): (r: seq<string>)
    ensures forall e :: e in r <==> exists c :: c in group && c.email == Some(e)
  {
    if group == [] then []
    else
      var rest := EmailsOf(group[1..]);
      assert forall c :: c in group <==> c == group[0] || c in group[1..];
      if group[0].email.Some? then [group[0].email.value] + rest else rest
  }

  /** The same for phone numbers. */
  function PhonesOf(group: seq<Contact>): (r: seq<string>)
    ensures forall e :: e in r <==> exists c :: c in group && c.phoneNumber == Some(e)
  {
    if group == [] then []
    else
      var rest := PhonesOf(group[1..]);
      assert forall c :: c in group <==> c == group[0] || c in group[1..];
      if group[0].phoneNumber.Some? then [group[0].phoneNumber.value] + rest else rest
  }

  /** `filter(c => c.id !== primary).map(c => c.id)`, in fetch order. */
  function SecondaryIds(group: seq<Contact>, p: int): (r: seq<int>)
    ensures p !in r
    ensures forall x :: x in r <==> exists c :: c in group && c.id == x && x != p
  {
    if group == [] then []
    else
      var rest := SecondaryIds(group[1..], p);
      assert forall c :: c in group <==> c == group[0] || c in group[1..];
      if group[0].id != p then [group[0].id] + rest else rest
  }

  /** The final fetch of the rows that are `p` or link directly to it, and
      the response built from them. */
  function Assemble(cs: seq<Contact>, p: int): (r: Response)
    ensures r.primaryContactId == p
    ensures NoDuplicates(r.emails) && NoDuplicates(r.phoneNumbers)
    ensures forall e :: e in r.emails <==> exists c :: c in cs && c.Touches(p) && c.email == Some(e)
    ensures forall e :: e in r.phoneNumbers <==>
      exists c :: c in cs && c.Touches(p) && c.phoneNumber == Some(e)
    ensures p !in r.secondaryContactIds
    ensures forall x :: x in r.secondaryContactIds <==>
      exists c :: c in cs && c.linkedId == Some(p) && c.id == x && x != p
  {
    var group := FindMany(cs, ByIdOrLink(p));
    Response(p, Dedup(EmailsOf(group)), Dedup(PhonesOf(group)), SecondaryIds(group, p))
  }

  /** Reference for the secondary ids: the ids of the rows linked directly
      to `p`, in table order, read straight off the table. */
  function LinkedIds(cs: seq<Contact>, p: int): seq<int> {
    if cs == [] then []
    else (if cs[0].linkedId == Some(p) && cs[0].id != p then [cs[0].id] else []) + LinkedIds(cs[1..], p)
  }

  /** Filtering the final fetch down to the non-primary ids keeps exactly
      the rows linked to `p`, in table order. */
  lemma {:induction false} SecondaryIdsOfGroup(cs: seq<Contact>, p: int)
    ensures SecondaryIds(FindMany(cs, ByIdOrLink(p)), p) == LinkedIds(cs, p)
    decreases |cs|
  {
    if cs != [] {
      SecondaryIdsOfGroup(cs[1..], p);
      var rest := FindMany(cs[1..], ByIdOrLink(p));
      if Matches(ByIdOrLink(p), cs[0]) {
        assert ([cs[0]] + rest)[1..] == rest;
      }
    }
  }

  /** `secondaryContactIds` lists the rows whose link is `p`, in the order
      the final fetch returns them. */
  lemma SecondaryIdsInStoreOrder(cs: seq<Contact>, p: int)
    ensures Assemble(cs, p).secondaryContactIds == LinkedIds(cs, p)
  {
    SecondaryIdsOfGroup(cs, p);
  }
}
