/**
 Step 3 of the resolution: the queue-plus-visited walk over the `id` /
 `linkedId` relation that collects the connected component of the seeds.
 */
module Traversal {
  import opened Contacts
  import opened ContactStore

  /** Every id the walk could ever enqueue and keep: the truthy ids and
      truthy link targets of the table. */
  function Refs(cs: seq<Contact>): (r: set<int>)
    ensures forall c :: c in cs ==> Neighbours(c) <= r
    ensures forall x :: x in r ==> IdTruthy(x)
  {
    set c, x | c in cs && x in Neighbours(c) :: x
  }

  /** A set of ids closed under the walk: every row touching a member has
      its own truthy id and link target in the set. */
  ghost predicate Closed(cs: seq<Contact>, s: set<int>) {
    forall c, v :: c in cs && v in s && c.Touches(v) ==> Neighbours(c) <= s
  }

  /** The walk's invariant: a row touching a visited id has its truthy ids
      visited or still waiting in the queue. */
  ghost predicate Pending(cs: seq<Contact>, queue: seq<int>, visited: set<int>) {
    forall c, v :: c in cs && v in visited && c.Touches(v) ==>
      forall x :: x in Neighbours(c) ==> x in visited || x in queue
  }

  /** What the inner `for (const link of links)` loop appends to the queue. */
  function Pushes(links: seq<Contact>, visited: set<int>): (r: seq<int>)
    ensures forall c :: c in links ==> forall x :: x in Neighbours(c) ==> x in visited || x in r
    ensures forall x :: x in r && IdTruthy(x) ==> x in Refs(links)
  {
    if links == [] then []
    else
      var c := links[0];
      var rest := Pushes(links[1..], visited);
      assert c in links && Neighbours(c) <= Refs(links);
      assert forall x :: x in rest && IdTruthy(x) ==> x in Refs(links) by {
        forall x | x in rest && IdTruthy(x) ensures x in Refs(links) {
          var d :| d in links[1..] && x in Neighbours(d);
          assert d in links;
        }
      }
      (if c.id !in visited then [c.id] else []) +
      (if LinkTruthy(c.linkedId) && c.linkedId.value !in visited then [c.linkedId.value] else []) +
      rest
  }

  /** The `while (queue.length > 0)` loop. It terminates because every id
      it adds to `visited` is a fresh member of the finite `Refs(cs)`. On
      exit, `visited` holds every truthy id ever queued, holds only truthy
      ids of the table, and is closed. */
  function Explore(cs: seq<Contact>, queue: seq<int>, visited: set<int>): (r: set<int>)
    requires visited <= Refs(cs)
    requires forall x :: x in queue && IdTruthy(x) ==> x in Refs(cs)
    requires Pending(cs, queue, visited)
    ensures visited <= r <= Refs(cs)
    ensures forall x :: x in queue && IdTruthy(x) ==> x in r
    ensures Closed(cs, r)
    decreases Refs(cs) - visited, |queue|
  {
    if queue == [] then visited
    else
      var id := queue[0];
      if !IdTruthy(id) || id in visited then
        Explore(cs, queue[1..], visited)
      else
        var visited' := visited + {id};
        var links := FindMany(cs, ByIdOrLink(id));
        var queue' := queue[1..] + Pushes(links, visited');
        assert Refs(links) <= Refs(cs);
        assert Pending(cs, queue', visited') by {
          forall c, v | c in cs && v in visited' && c.Touches(v)
            ensures forall x :: x in Neighbours(c) ==> x in visited' || x in queue'
          {
            if v == id {
              assert c in links;
            }
          }
        }
        Explore(cs, queue', visited')
  }

  /** The whole walk, started from the ids the seed loop enqueues. */
  function Traverse(cs: seq<Contact>, queue: seq<int>): (r: set<int>)
    requires forall x :: x in queue && IdTruthy(x) ==> x in Refs(cs)
    ensures r <= Refs(cs)
    ensures forall x :: x in queue && IdTruthy(x) ==> x in r
    ensures Closed(cs, r)
  {
    Explore(cs, queue, {})
  }

  /** The walk finds nothing beyond what it must: any closed set that holds
      the visited ids and the truthy queued ids holds the walk's result. */
  lemma {:induction false} ExploreLeast(cs: seq<Contact>, queue: seq<int>, visited: set<int>, s: set<int>)
    requires visited <= Refs(cs)
    requires forall x :: x in queue && IdTruthy(x) ==> x in Refs(cs)
    requires Pending(cs, queue, visited)
    requires Closed(cs, s) && visited <= s
    requires forall x :: x in queue && IdTruthy(x) ==> x in s
    ensures Explore(cs, queue, visited) <= s
    decreases Refs(cs) - visited, |queue|
  {
    if queue != [] {
      var id := queue[0];
      if !IdTruthy(id) || id in visited {
        ExploreLeast(cs, queue[1..], visited, s);
      } else {
        var visited' := visited + {id};
        var links := FindMany(cs, ByIdOrLink(id));
        var pushed := Pushes(links, visited');
        var queue' := queue[1..] + pushed;
        forall x | x in pushed && IdTruthy(x) ensures x in s {
          var c :| c in links && x in Neighbours(c);
          assert c in cs && c.Touches(id);
        }
        ExploreLeast(cs, queue', visited', s);
      }
    }
  }

  /** `Traverse` is the least closed set holding the truthy queued ids. */
  lemma TraverseLeast(cs: seq<Contact>, queue: seq<int>, s: set<int>)
    requires forall x :: x in queue && IdTruthy(x) ==> x in Refs(cs)
    requires Closed(cs, s)
    requires forall x :: x in queue && IdTruthy(x) ==> x in s
    ensures Traverse(cs, queue) <= s
  {
    ExploreLeast(cs, queue, {}, s);
  }
}
