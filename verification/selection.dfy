/**
 Step 5 of the resolution: the `reduce` that picks the canonical primary of
 the component snapshot.
 */
module Selection {
  import opened Contacts

  /** Primaries rank before secondaries. */
  function Rank(c: Contact): int {
    if c.IsPrimary() then 0 else 1
  }

  /** The order the reduce prefers: by rank, then by age. */
  predicate Precedes(a: Contact, b: Contact) {
    Rank(a) < Rank(b) || (Rank(a) == Rank(b) && a.createdAt < b.createdAt)
  }

  /** The reducer: keep `prev` only when it is the sole primary of the two,
      or when both are alike and `prev` is strictly older. It keeps `prev`
      exactly when `prev` strictly precedes `curr` in (rank, age) order, so
      on a tie `curr`, the later row of the snapshot, wins. */
  predicate KeepPrev(prev: Contact, curr: Contact): (keep: bool)
    ensures keep <==> Precedes(prev, curr)
  {
    if prev.IsPrimary() && !curr.IsPrimary() then true
    else if curr.IsPrimary() && !prev.IsPrimary() then false
    else prev.createdAt < curr.createdAt
  }

  /** What the reduce's choice `k` satisfies: it is a primary whenever the
      snapshot holds one; among the rows of its own precedence it is the
      oldest; and every later row of that precedence is strictly younger. */
  ghost predicate IsCanonical(cs: seq<Contact>, k: nat) {
    && k < |cs|
    && ((exists j :: 0 <= j < |cs| && cs[j].IsPrimary()) ==> cs[k].IsPrimary())
    && (forall j :: 0 <= j < |cs| && cs[j].IsPrimary() == cs[k].IsPrimary() ==>
          cs[k].createdAt <= cs[j].createdAt)
    && (forall j :: k < j < |cs| && cs[j].IsPrimary() == cs[k].IsPrimary() ==>
          cs[k].createdAt < cs[j].createdAt)
  }

  /** `allContacts.reduce(…)` without an initial value, as the index of the
      row it returns. */
  function Canonical(cs: seq<Contact>): (k: nat)
    requires |cs| > 0
    ensures IsCanonical(cs, k)
    decreases |cs|
  {
    if |cs| == 1 then 0
    else
      var n := |cs| - 1;
      var j := Canonical(cs[..n]);
      assert forall i :: 0 <= i < n ==> cs[..n][i] == cs[i];
      if KeepPrev(cs[j], cs[n]) then j else n
  }

  /** The three clauses of `IsCanonical` pin the choice down uniquely. */
  lemma CanonicalUnique(cs: seq<Contact>, k: nat, k': nat)
    requires IsCanonical(cs, k) && IsCanonical(cs, k')
    ensures k == k'
  {
    assert cs[k].IsPrimary() == cs[k'].IsPrimary();
  }
}
