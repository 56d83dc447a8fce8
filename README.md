# Lost and found: the item and claim lifecycle

This project models the API server of a campus lost-and-found board (`server.js`).
Users submit lost or found items. A moderator approves or rejects each item.
Users request to claim an approved item. The moderator approves or rejects each
claim, and an approved claim marks its item `claimed` by the claimant.

The two database tables, `items` and `claims`, are maps from id to row. Each
handler that writes is modelled twice:

- as a pure transition in module `Lifecycle`, which carries the contract: the
  error cases in the order the handler checks them, the answer and the new
  tables. Creating an item and setting its status state in their own contract
  that they keep the store invariant; for the two claim handlers this is proved
  by the lemmas `RequestClaimKeepsValid` and `ResolveClaimKeepsValid`;
- as a method of the class `Server.Store`, whose fields are the two tables and
  the clock. Each method updates those fields in the handler's order and is
  proved equal to its transition.

The read side is in module `Queries`:

- one item by id;
- the filtered listing, newest first;
- the moderator's queue of items awaiting approval, oldest first;
- the pending claims joined with their items, oldest first.

Each query is stated as a function with its ordering and completeness
properties. `ORDER BY created_at` is modelled by `Ordering.Ascending` and
`Ordering.Descending`. Each takes a set of ids, lists every id exactly once,
and sorts them by stamp. Rows with equal stamps may come in either order, as
they may from the database.

The dashboard counts (module `Stats`) keep the handler's imperative shape:

- a dictionary with all seven keys set to zero;
- a loop over the `GROUP BY` rows of the items;
- a loop over the `GROUP BY` rows of the claims.

Answers are `Ok`, `Invalid` (HTTP 400 for a malformed request), `NotFound`
(HTTP 404) or `Conflict`. `Conflict` is HTTP 400 for a request the current
state refuses: not available for claiming, already a pending claim, or already
processed. The code answers all of these with status 400: "not available for
claiming" (`server.js:194`), like the other refusals of the current state, gets
the same status as a malformed request. The model tells them apart by
constructor and keeps the handler's exact message text.

Modelling decisions:

- A JSON field left out of the body and one sent as `""` are both falsy in the
  handlers, so both are the empty string here.
- The fresh uuids are parameters, with the precondition that they are unused.
- `CURRENT_TIMESTAMP` is a natural-number logical clock. Each successful write
  stamps its row with the clock and then ticks the clock once. `new Date()` is
  a parameter `today`.

The store invariant (`Model.Valid`) is kept when requests are handled one at a
time. It says:

- every row is stored under its own id;
- stamps are older than the clock;
- a `claimed` item has a claimant recorded;
- every claim refers to an existing item;
- at most one claim per item is `pending`.

The code is looser than one might expect in three places, and the model follows it:

- `createItem` only checks that `type`, `title` and `description` are
  non-empty (`server.js:116`). It does not trim them and does not check that
  `type` is `lost` or `found`.
- Setting an item's status never clears `claimant_id` (`server.js:155`). So
  "a claimant is recorded exactly when the item is `claimed`" is not an
  invariant. Only one direction holds: a `claimed` item has a claimant.
  `Properties.ResetKeepsClaimant` shows an item that is no longer `claimed`
  but still has a claimant recorded.
- Approving a claim does not re-check the item's status (`server.js:287-290`).

## Model

The contracts below use three predicates for the handlers' lookups:

- `Queries.Matches` is the optional `WHERE status = ? AND type = ?` of the listing (`server.js:72-84`);
- `Lifecycle.ClaimFound` is the claim lookup joined with its item (`server.js:264-272`);
- `Model.HasPendingClaim` is the query for a pending claim on an item (`server.js:198`).

| member | source | states |
|---|---|---|
| Model.ParseModeratorStatus | server.js:151-153 | a status is accepted exactly when it is `pending_approval`, `approved` or `rejected`; the accepted status has that text and is never `claimed` |
| Model.ModeratorStatusRoundTrip | server.js:151 | every item status except `claimed` is accepted under its own text, and `claimed` is refused |
| Model.ItemStatusTextInjective | server.js:30 | distinct item statuses are stored as distinct texts |
| Model.ClaimStatusTextInjective | server.js:50 | distinct claim statuses are stored as distinct texts |
| Model.EmptyValid | server.js:22-55 | empty tables satisfy the store invariant |
| Model.ItemsWithStatusInsert | server.js:132-134 | inserting a new item adds its id to exactly the group of its status |
| Model.ClaimsWithStatusInsert | server.js:209-211 | inserting a new claim adds its id to exactly the group of its status |
| Model.ClaimsWithStatusUpdate | server.js:281-282 | overwriting a claim moves its id into the group of its new status and out of every other group |
| Lifecycle.CreateItemStep | server.js:113-144 | refused with the fixed message exactly when type, title or description is empty; otherwise one new `pending_approval` row with no claimant under the fresh id, location and contact as given, date as given or today, both timestamps at the clock, other items and all claims unchanged; the answer is that row's eight submitted fields, without claimant or timestamps; keeps the invariant |
| Lifecycle.SetItemStatusStep | server.js:147-176 | unknown status is Invalid before the lookup, unknown id is NotFound, success exactly when both are valid; only that item's status and updated_at change, from any status, never to `claimed`, claimant kept; keeps the invariant |
| Lifecycle.RequestClaimStep | server.js:179-225 | missing claimant fields, then item missing or not `approved`, then an existing pending claim, each with its message and no change; success exactly otherwise, adding one pending claim for that item and claimant under the fresh id and leaving the items unchanged |
| Lifecycle.ResolveClaimStep | server.js:255-305 | bad action is Invalid before any lookup, a claim not found through the join is NotFound, a non-pending claim is "already processed"; approve marks the claim approved and its item `claimed` by the claimant, reject marks only the claim; no other row changes |
| Lifecycle.RequestClaimKeepsValid | server.js:198-211 | with requests handled one at a time, a claim request keeps at most one pending claim per item, because the claim is only stored after the check |
| Lifecycle.ResolveClaimKeepsValid | server.js:274-302 | resolving a claim keeps the invariant: it only takes a claim out of `pending` |
| Server.Store.constructor | server.js:22-55 | a fresh store has empty tables and satisfies the invariant |
| Server.Store.CreateItem | server.js:113-144 | the in-place insert yields exactly the tables and answer of `CreateItemStep` and keeps the invariant |
| Server.Store.SetItemStatus | server.js:147-176 | the in-place update yields exactly the tables and answer of `SetItemStatusStep` and keeps the invariant |
| Server.Store.RequestClaim | server.js:179-225 | the checks and insert in place yield exactly the tables and answer of `RequestClaimStep` and keep the invariant |
| Server.Store.ResolveClaim | server.js:255-305 | the claim update, then the item update on approve, yield exactly the tables and answer of `ResolveClaimStep` and keep the invariant |
| Server.Store.ReadStats | server.js:308-351 | the dashboard of the current tables: all seven keys, each holding its count |
| Queries.GetItem | server.js:98-110 | the row stored under the id, or NotFound "Item not found" exactly when there is none |
| Queries.RowsAtCovers | server.js:87-93 | every row under a listed id is among the returned rows |
| Queries.OrderedRowsSpec | server.js:84-86 | rows under a set of ids sorted by created_at: as many as ids, each a stored row under one of them, every such row present, in created_at order |
| Queries.ListItems | server.js:68-95 | exactly the rows that pass both optional filters (an empty filter is not applied), each once, newest first |
| Queries.PendingItems | server.js:228-237 | exactly the `pending_approval` rows, each once, oldest first |
| Queries.PendingClaimQueue | server.js:240-245 | exactly the pending claims whose item exists, each once, oldest first |
| Queries.RowsInOrder | server.js:243-245 | rows of pending joined claims listed by stamp are pending, joined and in created_at order |
| Queries.PendingClaims | server.js:240-252 | one joined row per pending claim with an item, carrying that item's columns, in the queue's order |
| Queries.PendingClaimsListsEveryPendingClaim | server.js:242-243 | in a valid store the join drops no pending claim: one row per pending claim |
| Queries.PendingFilterIsAwaiting | server.js:74-76 | the listing filtered on `pending_approval` keeps exactly the items awaiting a decision |
| Queries.QueuedIsListed | server.js:229 | every row of the moderator's queue is in the listing filtered on `pending_approval` |
| Queries.ListedIsQueued | server.js:74-76 | every row of the listing filtered on `pending_approval` is in the moderator's queue |
| Queries.PendingItemsAgreeWithListing | server.js:68-95 | the moderator's queue and the listing filtered on `pending_approval` hold the same rows, the same number of them |
| Ordering.Oldest | server.js:229 | a key of a non-empty set whose stamp is no larger than any other's |
| Ordering.ListsCons | server.js:229 | a key in front of a list of the other keys lists the whole set once each |
| Ordering.ListsSnoc | server.js:86 | a key after a list of the other keys lists the whole set once each |
| Ordering.ConsAscending | server.js:229 | the oldest key in front of an oldest-first list keeps it oldest first |
| Ordering.SnocDescending | server.js:86 | the oldest key after a newest-first list keeps it newest first |
| Ordering.Ascending | server.js:229 | `ORDER BY created_at ASC`: every key of the set exactly once, stamps non-decreasing |
| Ordering.Descending | server.js:86 | `ORDER BY created_at DESC`: every key of the set exactly once, stamps non-increasing |
| Ordering.NewestComesFirst | server.js:86 | a key stamped later than all others is first in newest-first order |
| Ordering.NewestComesLast | server.js:229 | a key stamped later than all others is last in oldest-first order |
| Stats.StatKeysComplete | server.js:330-338 | every item status and every claim status has its key among the seven initial keys |
| Stats.KeyTexts | server.js:330-338 | the seven keys are reported under the seven JSON names and no two share a name |
| Stats.ItemGroups | server.js:309-313 | each `GROUP BY status` row of the items names a status with a non-empty group and its exact size |
| Stats.ClaimGroups | server.js:320-324 | each `GROUP BY status` row of the claims names a status with a non-empty group and its exact size |
| Stats.ItemGroupsCover | server.js:309-313 | every item status with at least one item has its row |
| Stats.ClaimGroupsCover | server.js:320-324 | every claim status with at least one claim has its row |
| Stats.ComputeStats | server.js:308-351 | exactly the seven keys; each item status's key holds the number of items with it, each `{status}_claims` key the number of claims with it, zero for an empty group |
| Stats.WriteItemGroups | server.js:340-342 | after overwriting one entry per item group, every item status's entry holds its count and the claim entries are unchanged |
| Stats.WriteClaimGroups | server.js:344-346 | after overwriting one entry per claim group, every claim status's entry holds its count and the item entries are unchanged |
| Stats.ItemCountsSum | server.js:330-334 | the four item counts add up to the number of items |
| Stats.ClaimCountsSum | server.js:335-337 | the three claim counts add up to the number of claims |
| Properties.ResolveTwiceFails | server.js:274-276 | after a successful resolution, resolving the same claim again changes nothing and is "already processed" (or Invalid for a bad action) |
| Properties.SecondRequestConflicts | server.js:198-205 | after a successful request, any further valid request for the same item is refused as already pending |
| Properties.RejectReopensItem | server.js:198-205 | in a valid store, rejecting an approved item's pending claim lets a new request for it succeed |
| Properties.ApprovalClosesItem | server.js:189-195 | after an approval the item is no longer claimable |
| Properties.ResetKeepsClaimant | server.js:154-155 | in a valid store a claimed item has a claimant, and after a reset to a moderator status it is not `claimed` but keeps that claimant, so a recorded claimant does not imply `claimed` |
| Properties.CreatedItemReadsBack | server.js:98-142 | a submitted item reads back with the eight fields the handler answered, no claimant and both timestamps at the submission; after a refused submission the id is not found |
| Properties.NewestListedFirst | server.js:68-95 | an item created after every other one heads the unfiltered listing |
| Properties.NewestQueuedLast | server.js:228-237 | an item awaiting approval, created after every other item, ends the moderator's queue |
| Properties.CreatedItemListedFirst | server.js:68-95 | in a valid store a newly submitted item's row is first in the unfiltered listing, and its fields are the answer |
| Properties.CreatedItemQueuedLast | server.js:228-237 | in a valid store a newly submitted item's row is last in the moderator's queue, and its fields are the answer |
| Properties.CreateCountsPending | server.js:113-144 | a submission adds one to the `pending_approval` count and leaves the other counts and the claims |
| Properties.ResolveMovesOneClaim | server.js:278-282 | a resolution moves exactly one claim out of `pending` into `approved` or `rejected` per the action |
| Properties.RequestCountsPending | server.js:209-211 | a successful claim request adds one to the `pending` claim count and leaves the other claim counts and every item count |
| Properties.ClaimScenario | server.js:113-305 | submit, approve, request, approve leaves the item `claimed` by the claimant; a request before approval is refused |

## Left out

- The React client (`client/src/**`), its search filter, its form checks and its hardcoded demo login are not part of this model.
- The table definitions, the `users` table and its seed row are not modelled; no handler reads `users`.
- The 500 answers for storage errors are left out, because the in-memory tables do not fail.
- Lifecycle.RequestClaimKeepsValid: requests are modelled one at a time. The handler checks for a pending claim (`server.js:198`) and inserts the new claim (`server.js:209`) in separate callbacks. Two concurrent requests for one item can both pass the check and store two pending claims, so the program does not guarantee the invariant under concurrency.
- Properties.ResolveTwiceFails: holds for resolutions handled one at a time. Two concurrent resolutions of one claim can both read it as `pending` (`server.js:264`) before either update (`server.js:281`), and then both succeed.
- The two UPDATEs of an approval are not atomic in the code. The model applies them in one step and does not model a failure between them.
- `uuidv4()` is not modelled. Fresh ids are parameters that must be unused, so an id collision is not modelled.
- `CURRENT_TIMESTAMP` is a logical clock, and `new Date()` is the parameter `today`. Wall-clock ties, and how the database orders them, are not modelled.
- `sendNotification`, a console log, is left out, and so is the `moderatorId` field, which no handler reads.
- Static file serving and `app.listen` are left out.
- Non-string JSON values are not modelled. Request fields are strings, and a missing field is the empty string.
- Lifecycle.RequestClaimStep: the answer carries the new claim id but not the fixed confirmation text sent beside it.
- Queries.ListItems, Queries.PendingItems, Queries.PendingClaims: these are ghost functions, because the sort order is chosen rather than computed.
