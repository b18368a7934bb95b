# Identity consolidation: a Dafny model of `identifyContact`

This project models the identity-consolidation engine of a small contact
service. A request carries an optional email and an optional phone number.
The engine resolves it against a table of contact rows. Each row has an
`id`, an optional `email` and `phoneNumber`, an optional `linkedId`, a
`linkPrecedence` that is `primary` or `secondary`, and a `createdAt`
timestamp. One pass of the engine runs these steps:

1. It finds the rows carrying one of the request's facts, oldest first.
2. If there are none, it creates a fresh primary and answers with it alone.
3. It walks the `id`/`linkedId` relation from those rows with a queue and a
   visited set.
4. It loads the visited rows, oldest first.
5. It picks the canonical primary with a `reduce`.
6. It demotes every other primary of the component to a secondary of the
   chosen one.
7. If a provided fact is new to the component, it inserts a secondary row
   and runs the whole resolution again.
8. Otherwise it fetches the chosen primary and the rows linked directly to it.
9. It answers with the deduplicated emails, the phone numbers and the
   secondary ids.

The table is a pure value: `ContactStore.Store` is a sequence of rows plus
the autoincrement counter. The three `where` clauses the engine issues are
a `Query` datatype, and `findMany` is an order-preserving filter.
`orderBy: { createdAt: 'asc' }` is a stable insertion sort. The walk is a
recursive function whose termination measure is the set of ids not yet
visited. The recursive re-run is bounded by an explicit fuel argument. A
proof shows that one re-run always suffices on a well-formed table.

Modules:

- `Contacts`: the row, and JavaScript truthiness of its fields.
- `ContactStore`: the table, `findMany`, `create`, `update` and the batch of
  demotion updates.
- `Ordering`: `orderBy createdAt`.
- `Traversal`: the walk.
- `Selection`: the `reduce`.
- `Assembly`: the final fetch and the response.
- `Service`: one pass and the recursive driver.
- `ServiceProperties`: what a pass promises.
- `Idempotence`: repeating a request.
- `Rerun`: the re-run after an insert.
- `Scenarios`: a concrete table on which a chain of secondaries forms.

The model states what the code does, including these behaviours:

- The demotion step (src/services/contactService.ts:94-105) re-points only
  the primaries it demotes. A secondary of a demoted primary keeps its old
  link, so chains of secondaries form. The final fetch (127-134) follows
  only direct links to the chosen primary, so the response then omits such a
  secondary. `Scenarios.ChainFormsAndIsHidden` proves this on a three-row
  table.
- The `reduce` (87-91) breaks a `createdAt` tie between two rows of the
  same precedence towards `curr`, the later row of the snapshot (line 90).
  It does not pick the lowest id.
- The recursion at line 123 has no cap. The comment at line 122 says it
  recurses once. The model bounds the recursion with fuel, and
  `ServiceProperties.IdentifyNeedsOneRerun` proves that one re-run always
  suffices on a well-formed table, so the bound is never reached.
- Ids are skipped only when they are JavaScript-falsy (line 63). For a
  number that means exactly 0. Negative ids are truthy and would be visited.

## Model

| member | source | states |
|---|---|---|
| ContactStore.FindMany | src/services/contactService.ts:66-70 | The fetched rows are exactly the table rows that satisfy the `where` clause. Nothing else is fetched, and the result is no longer than the table. |
| ContactStore.FindManyOnce | src/services/contactService.ts:66-70 | The fetched rows form a sub-multiset of the table: each matching row comes back exactly as often as the table holds it, so no row is repeated. |
| ContactStore.Create | src/services/contactService.ts:34-40 | The new row is appended with exactly the given email, phone, precedence and link. On a well-formed table its id is truthy and differs from every existing id, and the table stays well-formed when the link is an id the counter has already handed out. |
| ContactStore.Demote | src/services/contactService.ts:94-105 | The updates issued one after another equal one simultaneous demotion of every listed id, so their order does not matter. The counter is kept, and a well-formed table stays well-formed. |
| Ordering.SortByCreatedAt | src/services/contactService.ts:29 | The result is ordered by `createdAt` and is a permutation of the input. Its length and its membership are those of the input. |
| Ordering.SortRelabel | src/services/contactService.ts:79-84 | Demotion changes no timestamp, so sorting the demoted rows gives the demoted sorted rows. |
| Service.Seeds | src/services/contactService.ts:22-30 | The seeds are ordered by `createdAt`. They are exactly the rows whose email equals a provided email or whose phone equals a provided phone. An empty `OR` list matches nothing. |
| Service.SeedQueue | src/services/contactService.ts:56-59 | Every seed's truthy id and truthy link is queued. Every truthy queued id is one of those. |
| Traversal.Pushes | src/services/contactService.ts:72-75 | For every fetched row, its truthy id and truthy link are either already visited or pushed. Every truthy pushed id is the id or link of a fetched row. |
| Traversal.Explore | src/services/contactService.ts:61-76 | The loop ends. The visited set only grows, and it stays within the truthy ids and links of the table. On exit it holds every truthy id ever queued and is closed: every row whose id or link is visited has its own truthy id and link visited. |
| Traversal.ExploreLeast | src/services/contactService.ts:61-76 | The loop visits nothing it need not: any closed set that holds the visited ids and the truthy queued ids holds the loop's result. |
| Service.Component | src/services/contactService.ts:53-76 | The visited set holds only truthy ids and truthy link targets of the table's rows (a link target need not be the id of a row), is closed, and holds every seed's truthy id and truthy link. |
| ServiceProperties.ComponentIsLeastClosure | src/services/contactService.ts:53-76 | The visited set is contained in every closed set that holds the seeds' truthy ids and links. With `Service.Component` this makes it the connected component of the seeds. |
| Service.Snapshot | src/services/contactService.ts:79-84 | `allContacts` is ordered by `createdAt` and holds exactly the table rows whose id was visited. |
| Selection.Canonical | src/services/contactService.ts:87-91 | The reduce returns a row of the snapshot. It is a primary whenever the snapshot holds one, and it is the oldest row of its precedence. Every later row of that precedence is strictly younger, so ties go to the later row. |
| Selection.CanonicalUnique | src/services/contactService.ts:87-91 | Those three conditions determine the reduce's choice uniquely. |
| Selection.KeepPrev | src/services/contactService.ts:87-91 | The reducer keeps `prev` exactly when `prev` strictly precedes `curr` in the order "primary before secondary, then older before younger". On a full tie it takes `curr`. |
| Service.Chosen | src/services/contactService.ts:87-91 | The chosen id was visited and belongs to a row of the table. |
| Service.DemotionIds | src/services/contactService.ts:94-95 | The ids to update are exactly the ids of the snapshot's primaries other than the chosen one. |
| ServiceProperties.MergeEffect | src/services/contactService.ts:94-105 | Row by row after step 6: each primary of the component other than the chosen one becomes a secondary linked to the chosen id. Every other row is unchanged. Nothing is added or deleted, and the table stays well-formed. |
| ServiceProperties.MergeLeavesOnePrimary | src/services/contactService.ts:94-105 | After step 6 no row of the component other than the chosen one is a primary. The chosen row is a primary whenever the component held one. |
| Service.Merged | src/services/contactService.ts:94-105 | After the demotion batch the table has the same rows and counter, and every row keeps its id, email, phone and timestamp. |
| Service.AlreadyExists | src/services/contactService.ts:108-110 | `alreadyExists` holds exactly when no provided fact is new to the snapshot. A falsy fact counts as present. |
| Service.InsertCondition | src/services/contactService.ts:108-112 | The insert guard, `alreadyExists` failing while some fact was given, holds exactly when some provided fact appears on no row of the pre-demotion snapshot. |
| ServiceProperties.InsertOnNewFact | src/services/contactService.ts:107-124 | A row is inserted if and only if a provided fact is new to the snapshot. The inserted row carries exactly the request's email and phone, is a secondary and links to the chosen id. Otherwise no row is created and the pass answers with the final group. |
| Service.Pass | src/services/contactService.ts:18-150 | One pass creates a fresh primary exactly when no row matches. It fails only with the empty-`reduce` error. It never deletes a row or changes an id, fact or timestamp: created rows are appended one at a time, and a finished pass keeps the table's length and counter. |
| Service.Identify | src/services/contactService.ts:18-151 | A successful resolution, re-runs included, keeps every existing row in place with its id, facts and timestamp, and never lowers the counter. |
| ServiceProperties.NoMatchCreatesPrimary | src/services/contactService.ts:32-49 | A fresh primary is created exactly when no row carries a provided fact. The table then gains exactly one row: a primary without a link. The answer names that row, lists just the provided values, and has no secondary ids. |
| ServiceProperties.PassNeverFails | src/services/contactService.ts:87-91 | On a well-formed table the snapshot is never empty when there are seeds, so the `reduce` without an initial value never throws. |
| ServiceProperties.PassPreservesWellFormed | src/services/contactService.ts:94-120 | A pass keeps ids positive, distinct and below the counter, and keeps links pointing at handed-out ids. |
| ServiceProperties.RerunFinishes | src/services/contactService.ts:112-123 | After an insert, the re-run's snapshot holds the inserted row, so it finds every provided fact present and inserts nothing more. |
| Rerun.RerunComponentBound | src/services/contactService.ts:53-70 | After an insert, the re-run walks no further than the first pass's component plus the inserted row. |
| Rerun.RerunKeepsChosen | src/services/contactService.ts:87-91 | When the first pass's component held a primary, the re-run chooses the same primary. |
| Rerun.RerunIncludesInserted | src/services/contactService.ts:112-150 | When the component held a primary, the answer after an insert names the primary the first pass chose. It lists the inserted row among the secondaries, and lists every provided email and phone number. |
| ServiceProperties.IdentifyNeedsOneRerun | src/services/contactService.ts:122-123 | With any fuel of at least one, the recursive resolution succeeds on a well-formed table and gives the same answer as with fuel one: the recursion depth is at most one. |
| Assembly.Dedup | src/services/contactService.ts:137-138 | `Array.from(new Set(xs))` keeps every element of `xs` once, drops nothing, and keeps the order of first occurrences. |
| Assembly.Assemble | src/services/contactService.ts:126-150 | The answer names the chosen primary. Its email and phone lists have no duplicates. They hold exactly the present values of the rows that are the primary or link directly to it. The secondary ids never include the primary and are exactly the ids of rows linked directly to it. |
| Assembly.SecondaryIdsOfGroup | src/services/contactService.ts:127-141 | The ids the response filters and maps out of the final fetch are the ids of the rows linked directly to the primary, read straight off the table in table order. |
| Idempotence.PassPreservesConsistent | src/services/contactService.ts:34-120 | Every pass keeps primaries link-free: created primaries carry no link, and demotion and insertion only add secondaries. |
| Idempotence.ComponentAfterMerge | src/services/contactService.ts:53-105 | On a well-formed table whose primaries carry no link, re-walking the table after step 6 from the same request visits the same component. |
| Idempotence.RepeatIsStable | src/services/contactService.ts:18-151 | On a consistent well-formed table, repeating a request that finished without an insert changes nothing and gives the same answer, at any later time. |
| Scenarios.ChainFormsAndIsHidden | src/services/contactService.ts:94-134 | Take an older primary carrying the email, a younger primary carrying the phone, and a secondary of the younger one. The pass finishes without an insert and demotes the younger primary. The secondary still links to the demoted row, forming a chain, and the answer lists neither that secondary nor its email. |

## Left out

- The HTTP layer is not modelled: src/controllers/contactController.ts, src/routes/contactRoutes.ts and src/app.ts. This covers the 400 answer when both facts are falsy and the 500 answer on an exception. The engine itself accepts such a request. Prisma's empty `OR` list matches no row, so the model creates a primary carrying neither fact.
- The Prisma client and database configuration (src/config/database.ts) are not part of this model. The table is the in-memory `Store`, and query results are pure functions of it.
- The demotion updates are awaited with `Promise.all`. They are modelled as a sequential fold, and `ContactStore.Demote` proves the order irrelevant.
- Concurrent callers, and races between a pass's reads and writes, are out of scope: the model is sequential.
- `createdAt` is an integer. The clock is the `now` parameter of a pass, and the re-run uses the same `now`.
- The database leaves the order of equal `createdAt` values unspecified. The model keeps table order for ties, and so does the unordered final fetch.
- An `update` of a missing id throws in Prisma. It cannot happen here, because the ids to demote come from rows just fetched. The model's update of an absent id changes nothing.
- Service.Identify: the unbounded recursion is replaced by a fuel bound, and `Failure(RecursionLimit)` when the fuel runs out. `ServiceProperties.IdentifyNeedsOneRerun` shows that a fuel of one is never exhausted on a well-formed table.
- Every store call is assumed to succeed. In the source a rejected `update` inside the `Promise.all` at line 105 throws after other demotions may already be committed, which leaves a half-merged table. The model has no failing store calls and so no partial merge.
- The seed lookup (22-30) compares emails and phone numbers in the database; the `alreadyExists` check (108-109) compares them with `===`. The model uses exact equality for both. Under a case-insensitive or otherwise normalising collation the seeds and the `alreadyExists` check could disagree, and that is not modelled.
- The response field's spelling `primaryContatctId` is not modelled; the field is called `primaryContactId`.
- Rerun.RerunIncludesInserted: stated for components that hold a primary. A component without one needs secondaries that link only to missing rows or to each other. The re-run would then choose among secondaries by `createdAt`, and the inserted row's `now` is not constrained against the others. The model does not prove that no sequence of passes builds such a table.
- Idempotence.RepeatIsStable: stated for tables whose primaries carry no link. Every pass keeps that shape (`Idempotence.PassPreservesConsistent`), but a table edited by hand may not have it.
- A fresh primary's answer builds its lists with `email ? [email] : []`, so an empty-string email is left out. A later pass lists the stored `""`, because the final filter drops only null and undefined. Both behaviours are modelled as written (`Service.FactList`, `Assembly.EmailsOf`). Neither is stated as a cross-pass property.
