/**
 `orderBy: { createdAt: 'asc' }`. The database leaves the order of rows with
 equal timestamps open; this model keeps them in table order (a stable
 insertion sort).
 */
module Ordering {
  import opened Contacts
  import opened ContactStore

  predicate SortedByCreatedAt(cs: seq<Contact>) {
    forall i, j :: 0 <= i < j < |cs| ==> cs[i].createdAt <= cs[j].createdAt
  }

  /** Places `x` after every row of `s` that is not later than it. */
  function Insert(x: Contact, s: seq<Contact>): (r: seq<Contact>)
    ensures |r| == |s| + 1
  {
    if s == [] then [x]
    else if x.createdAt < s[0].createdAt then [x] + s
    else [s[0]] + Insert(x, s[1..])
  }

  /** Insertion into a sorted sequence keeps it sorted. */
  lemma {:induction false} InsertSorted(x: Contact, s: seq<Contact>)
    requires SortedByCreatedAt(s)
    ensures SortedByCreatedAt(Insert(x, s))
    ensures Insert(x, s)[0] == if s == [] || x.createdAt < s[0].createdAt then x else s[0]
    decreases |s|
  {
    if s != [] && x.createdAt >= s[0].createdAt {
      InsertSorted(x, s[1..]);
      var r := Insert(x, s);
      var rest := Insert(x, s[1..]);
      assert r == [s[0]] + rest;
      assert s[0].createdAt <= rest[0].createdAt;
      forall i, j | 0 <= i < j < |r| ensures r[i].createdAt <= r[j].createdAt {
        if i > 0 {
          assert r[i] == rest[i - 1] && r[j] == rest[j - 1];
        } else {
          assert r[j] == rest[j - 1];
          assert rest[0].createdAt <= rest[j - 1].createdAt;
        }
      }
    }
  }

  /** Insertion adds exactly `x` to the rows. */
  lemma {:induction false} InsertPermutes(x: Contact, s: seq<Contact>)
    ensures multiset(Insert(x, s)) == multiset(s) + multiset{x}
    decreases |s|
  {
    if s != [] && x.createdAt >= s[0].createdAt {
      InsertPermutes(x, s[1..]);
      assert s == [s[0]] + s[1..];
    }
  }

  /** The rows of `cs` in ascending `createdAt`: a sorted permutation. */
  function SortByCreatedAt(cs: seq<Contact>): (r: seq<Contact>)
    ensures SortedByCreatedAt(r)
    ensures multiset(r) == multiset(cs)
    ensures |r| == |cs|
    ensures forall c :: c in r <==> c in cs
    decreases |cs|
  {
    if cs == [] then []
    else
      var n := |cs| - 1;
      var r := Insert(cs[n], SortByCreatedAt(cs[..n]));
      InsertPermutes(cs[n], SortByCreatedAt(cs[..n]));
      InsertSorted(cs[n], SortByCreatedAt(cs[..n]));
      assert cs == cs[..n] + [cs[n]];
      assert |r| == |multiset(r)|;
      assert forall c :: c in r <==> c in multiset(r);
      assert forall c :: c in cs <==> c in multiset(cs);
      r
  }

  lemma RelabelCons(c: Contact, t: seq<Contact>, ids: set<int>, p: int)
    ensures Relabel([c] + t, ids, p) == [Relabeled(c, ids, p)] + Relabel(t, ids, p)
  {
    assert ([c] + t)[1..] == t;
  }

  /** Inserting commutes with a demotion batch, which keeps every timestamp. */
  lemma {:induction false} InsertRelabel(x: Contact, s: seq<Contact>, ids: set<int>, p: int)
    ensures Insert(Relabeled(x, ids, p), Relabel(s, ids, p)) == Relabel(Insert(x, s), ids, p)
    decreases |s|
  {
    if s == [] {
      RelabelCons(x, [], ids, p);
    } else if x.createdAt < s[0].createdAt {
      InsertRelabelFront(x, s, ids, p);
    } else {
      InsertRelabel(x, s[1..], ids, p);
      InsertRelabelStep(x, s, ids, p);
    }
  }

  lemma InsertRelabelFront(x: Contact, s: seq<Contact>, ids: set<int>, p: int)
    requires s != [] && x.createdAt < s[0].createdAt
    ensures Insert(Relabeled(x, ids, p), Relabel(s, ids, p)) == Relabel(Insert(x, s), ids, p)
  {
    var rs := Relabel(s, ids, p);
    assert s == [s[0]] + s[1..];
    RelabelCons(s[0], s[1..], ids, p);
    assert Insert(Relabeled(x, ids, p), rs) == [Relabeled(x, ids, p)] + rs;
    RelabelCons(x, s, ids, p);
  }

  lemma InsertRelabelStep(x: Contact, s: seq<Contact>, ids: set<int>, p: int)
    requires s != [] && x.createdAt >= s[0].createdAt
    requires Insert(Relabeled(x, ids, p), Relabel(s[1..], ids, p)) == Relabel(Insert(x, s[1..]), ids, p)
    ensures Insert(Relabeled(x, ids, p), Relabel(s, ids, p)) == Relabel(Insert(x, s), ids, p)
  {
    RelabelHead(s, ids, p);
    InsertUnfold(Relabeled(x, ids, p), Relabel(s, ids, p));
    assert Insert(x, s) == [s[0]] + Insert(x, s[1..]);
    RelabelCons(s[0], Insert(x, s[1..]), ids, p);
  }

  /** One unfolding of `Relabel`, kept as a lemma so that the step above
      sees only this equation rather than the whole definition. */
  lemma RelabelHead(s: seq<Contact>, ids: set<int>, p: int)
    requires s != []
    ensures Relabel(s, ids, p) == [Relabeled(s[0], ids, p)] + Relabel(s[1..], ids, p)
  {
  }

  /** One unfolding of `Insert` past an older head, kept as a lemma for the
      same reason. */
  lemma InsertUnfold(x: Contact, s: seq<Contact>)
    requires s != [] && x.createdAt >= s[0].createdAt
    ensures Insert(x, s) == [s[0]] + Insert(x, s[1..])
  {
  }

  /** Sorting commutes with a demotion batch: demoting the rows of a sorted
      snapshot gives the snapshot of the demoted rows. */
  lemma {:induction false} SortRelabel(cs: seq<Contact>, ids: set<int>, p: int)
    ensures SortByCreatedAt(Relabel(cs, ids, p)) == Relabel(SortByCreatedAt(cs), ids, p)
    decreases |cs|
  {
    if cs != [] {
      var n := |cs| - 1;
      var rc := Relabel(cs, ids, p);
      assert rc[..n] == Relabel(cs[..n], ids, p) && rc[n] == Relabeled(cs[n], ids, p) by {
        RelabelAt(cs, ids, p);
        RelabelAt(cs[..n], ids, p);
      }
      SortRelabel(cs[..n], ids, p);
      InsertRelabel(cs[n], SortByCreatedAt(cs[..n]), ids, p);
    }
  }
}
