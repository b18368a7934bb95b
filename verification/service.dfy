/**
 `ContactService.identifyContact`: one resolution pass over the store, and
 the recursive re-run after a secondary insert.
 */
module Service {
  import opened Contacts
  import opened ContactStore
  import opened Ordering
  import opened Traversal
  import opened Selection
  import opened Assembly

  /** The request body: an optional email and an optional phone number. */
  datatype Input = Input(email: Option<string>, phoneNumber: Option<string>)

  datatype Error =
    | EmptyComponent   // `reduce` of an empty array without an initial value throws
    | RecursionLimit   // the modelling fuel ran out before a pass returned

  datatype Result<T> = Success(value: T) | Failure(error: Error)

  /** How one pass of the resolution ends. */
  datatype Outcome =
    | Created(store: Store, response: Response)    // no match: a fresh primary
    | Finished(store: Store, response: Response)   // the final group was assembled
    | Inserted(store: Store)                       // a secondary was inserted; re-run
    | Failed(error: Error)

  /** `email ? [email] : []`, the fresh-primary response lists. */
  function FactList(o: Option<string>): (r: seq<string>)
    ensures Provided(o) ==> r == [o.value]
    ensures !Provided(o) <==> r == []
  {
    if Provided(o) then [o.value] else []
  }

  /** Step 1: the rows carrying a truthy input fact, oldest first. */
  function Seeds(st: Store, input: Input): (r: seq<Contact>)
    ensures SortedByCreatedAt(r)
    ensures forall c :: c in r <==> c in st.contacts && Matches(ByFacts(input.email, input.phoneNumber), c)
  {
    SortByCreatedAt(FindMany(st.contacts, ByFacts(input.email, input.phoneNumber)))
  }

  /** The ids the seed loop enqueues: each seed's id, then its truthy link. */
  function SeedQueue(seeds: seq<Contact>): (r: seq<int>)
    ensures forall c :: c in seeds ==> forall x :: x in Neighbours(c) ==> x in r
    ensures forall x :: x in r && IdTruthy(x) ==> exists c :: c in seeds && x in Neighbours(c)
  {
    if seeds == [] then []
    else
      var c := seeds[0];
      var rest := SeedQueue(seeds[1..]);
      assert forall d :: d in seeds <==> d == c || d in seeds[1..];
      assert c in seeds;
      assert IdTruthy(c.id) ==> c.id in Neighbours(c);
      [c.id] + (if LinkTruthy(c.linkedId) then [c.linkedId.value] else []) + rest
  }

  /** Step 3: the ids the walk visits. */
  function Component(st: Store, input: Input): (r: set<int>)
    ensures r <= Refs(st.contacts)
    ensures Closed(st.contacts, r)
    ensures forall c :: c in Seeds(st, input) ==> Neighbours(c) <= r
  {
    var seeds := Seeds(st, input);
    var queue := SeedQueue(seeds);
    assert forall x :: x in queue && IdTruthy(x) ==> x in Refs(st.contacts) by {
      forall x | x in queue && IdTruthy(x) ensures x in Refs(st.contacts) {
        var c :| c in seeds && x in Neighbours(c);
        assert c in st.contacts;
      }
    }
    Traverse(st.contacts, queue)
  }

  /** Step 4: the rows of the component, oldest first (`allContacts`). */
  function Snapshot(st: Store, input: Input): (r: seq<Contact>)
    ensures SortedByCreatedAt(r)
    ensures forall c :: c in r <==> c in st.contacts && c.id in Component(st, input)
  {
    SortByCreatedAt(FindMany(st.contacts, ByIds(Component(st, input))))
  }

  /** Step 5: the id of the canonical primary. */
  function Chosen(st: Store, input: Input): (p: int)
    requires |Snapshot(st, input)| > 0
    ensures p in Component(st, input)
    ensures exists c :: c in st.contacts && c.id == p
  {
    var snap := Snapshot(st, input);
    var k := Canonical(snap);
    assert snap[k] in snap;
    snap[k].id
  }

  /** The ids step 6 updates: every other primary of the snapshot. */
  function DemotionIds(snap: seq<Contact>, p: int): (r: seq<int>)
    ensures forall x :: x in r <==> exists c :: c in snap && c.id == x && x != p && c.IsPrimary()
  {
    if snap == [] then []
    else
      var rest := DemotionIds(snap[1..], p);
      assert forall c :: c in snap <==> c == snap[0] || c in snap[1..];
      if snap[0].id != p && snap[0].IsPrimary() then [snap[0].id] + rest else rest
  }

  /** Step 6: the store after the demotion batch. */
  function Merged(st: Store, input: Input): (r: Store)
    requires |Snapshot(st, input)| > 0
    ensures r.nextId == st.nextId && |r.contacts| == |st.contacts|
    ensures Keeps(st.contacts, r.contacts)
  {
    var p := Chosen(st, input);
    var ids := DemotionIds(Snapshot(st, input), p);
    KeepsRelabel(st.contacts, (set i | i in ids), p);
    Demote(st, ids, p)
  }

  /** Step 7's `alreadyExists`, with JavaScript's truthiness: a falsy fact
      counts as present, so the test holds exactly when no provided fact is
      new to the snapshot. */
  predicate AlreadyExists(input: Input, snap: seq<Contact>): (exists_: bool)
    ensures exists_ <==> !NewFact(input, snap)
  {
    var emailExists := Provided(input.email) && exists c :: c in snap && c.email == input.email;
    var phoneExists := Provided(input.phoneNumber) && exists c :: c in snap && c.phoneNumber == input.phoneNumber;
    (if Provided(input.email) then emailExists else true) &&
    (if Provided(input.phoneNumber) then phoneExists else true)
  }

  /** A provided fact that no row of the snapshot carries. */
  predicate NewFact(input: Input, snap: seq<Contact>) {
    || (Provided(input.email) && forall c :: c in snap ==> c.email != input.email)
    || (Provided(input.phoneNumber) && forall c :: c in snap ==> c.phoneNumber != input.phoneNumber)
  }

  /** The insert of step 7 happens exactly when some provided fact is new. */
  lemma InsertCondition(input: Input, snap: seq<Contact>)
    ensures (!AlreadyExists(input, snap) && (Provided(input.email) || Provided(input.phoneNumber)))
            <==> NewFact(input, snap)
  {
  }

  /** One pass of `identifyContact`, up to the recursive call. It creates
      a row exactly when nothing matches or a provided fact is new, fails
      only on an empty snapshot, and never deletes a row or changes a fact. */
  function Pass(st: Store, input: Input, now: int): (o: Outcome)
    ensures o.Created? <==> |Seeds(st, input)| == 0
    ensures o.Failed? ==> o.error == EmptyComponent
    ensures !o.Failed? ==> Keeps(st.contacts, o.store.contacts) && o.store.nextId >= st.nextId
    ensures o.Created? || o.Inserted? ==> |o.store.contacts| == |st.contacts| + 1
    ensures o.Finished? ==> |o.store.contacts| == |st.contacts| && o.store.nextId == st.nextId
  {
    if |Seeds(st, input)| == 0 then
      var created := Create(st, input.email, input.phoneNumber, Primary, None, now);
      KeepsAppend(st.contacts, st.contacts, created.1);
      Created(created.0, Response(created.1.id, FactList(input.email), FactList(input.phoneNumber), []))
    else if |Snapshot(st, input)| == 0 then
      Failed(EmptyComponent)
    else
      var snap := Snapshot(st, input);
      var p := Chosen(st, input);
      var st1 := Merged(st, input);
      if !AlreadyExists(input, snap) && (Provided(input.email) || Provided(input.phoneNumber)) then
        KeepsAppend(st.contacts, st1.contacts,
          Contact(st1.nextId, input.email, input.phoneNumber, Some(p), Secondary, now));
        Inserted(Create(st1, input.email, input.phoneNumber, Secondary, Some(p), now).0)
      else
        Finished(st1, Assemble(st1.contacts, p))
  }

  /** `identifyContact` with `fuel` re-runs allowed after an insert. The
      source recurses without a bound; `IdentifyNeedsOneRerun` shows one
      re-run always suffices on a well-formed store. */
  function Identify(st: Store, input: Input, now: int, fuel: nat): (r: Result<(Store, Response)>)
    ensures r.Success? ==> Keeps(st.contacts, r.value.0.contacts) && r.value.0.nextId >= st.nextId
    decreases fuel
  {
    match Pass(st, input, now)
    case Created(s, r) => Success((s, r))
    case Finished(s, r) => Success((s, r))
    case Failed(e) => Failure(e)
    case Inserted(s) => if fuel == 0 then Failure(RecursionLimit) else Identify(s, input, now, fuel - 1)
  }
}
