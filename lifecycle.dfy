/**
 The write side of the API as pure transitions of the store: each handler
 that inserts or updates rows is a function from the tables before the
 request to the tables after it and the handler's answer. The class
 Server.Store performs the same updates in place and is proved to agree.

 Fields a client leaves out of the JSON body and fields sent as the empty
 string are both falsy in the handlers; both are the empty string here.
 */
module Lifecycle {
  import opened Model

  const MissingItemFields := "Type, title, and description are required"
  const InvalidStatus := "Invalid status"
  const ItemNotFound := "Item not found"
  const MissingClaimant := "Claimant ID and name are required"
  const NotClaimable := "Item not found or not available for claiming"
  const AlreadyPending := "There is already a pending claim for this item"
  const InvalidAction := "Invalid action. Must be approve or reject"
  const ClaimNotFound := "Claim not found"
  const AlreadyProcessed := "Claim has already been processed"

  /** The empty string is JavaScript's only falsy string: `x || d` picks `d` for it. */
  function OrDefault(x: string, d: string): string
  {
    if x != "" then x else d
  }

  /**
   The object POST /api/items answers with: the submitted fields and the
   initial status, without the claimant and the two timestamps of the row.
   */
  datatype Submitted = Submitted(
    id: string,
    kind: string,
    title: string,
    description: string,
    location: string,
    date: string,
    contact: string,
    status: ItemStatus)

  /** The answer built from the stored row: its first eight columns. */
  function SubmittedFields(it: Item): Submitted
  {
    Submitted(it.id, it.kind, it.title, it.description, it.location, it.date, it.contact, it.status)
  }

  /**
   POST /api/items. Refuses the request unless `type`, `title` and
   `description` are all non-empty (nothing else is checked: no trimming, no
   check that the type is `lost` or `found`); otherwise stores the new item
   under the fresh id `id` as `pending_approval`, with no claimant, the
   location and contact given (or empty) and the date given or else `today`.
   */
  function CreateItemStep(t: Tables, id: string, kind: string, title: string, description: string,
                          location: string, date: string, contact: string, today: string)
    : (r: (Tables, Outcome<Submitted>))
    requires id !in t.items
    ensures r.1.Ok? || r.1 == Invalid(MissingItemFields)
    ensures r.1.Ok? <==> kind != "" && title != "" && description != ""
    ensures !r.1.Ok? ==> r.0 == t
    ensures r.1.Ok? ==>
              && id in r.0.items
              && var it := r.0.items[id];
              && r.1.value == SubmittedFields(it)
              && it.id == id && it.kind == kind && it.title == title && it.description == description
              && it.location == location && it.contact == contact
              && it.date == (if date == "" then today else date)
              && it.status == PendingApproval && it.claimantId == None
              && it.createdAt == it.updatedAt == t.clock
              && r.0 == Tables(t.items[id := it], t.claims, t.clock + 1)
    ensures Valid(t) ==> Valid(r.0)
  {
    if kind == "" || title == "" || description == "" then
      (t, Invalid(MissingItemFields))
    else
      var it := Item(id, kind, title, description, OrDefault(location, ""), OrDefault(date, today),
                     OrDefault(contact, ""), PendingApproval, None, t.clock, t.clock);
      (Tables(t.items[id := it], t.claims, t.clock + 1), Ok(SubmittedFields(it)))
  }

  /**
   PATCH /api/items/:id/status. The requested status must be one of
   `pending_approval`, `approved`, `rejected` (checked before the item is
   looked up); the item must exist. The current status is not consulted and
   the claimant column is left as it is.
   */
  function SetItemStatusStep(t: Tables, id: string, status: string): (r: (Tables, Outcome<string>))
    ensures status !in ModeratorStatuses ==> r == (t, Invalid(InvalidStatus))
    ensures status in ModeratorStatuses && id !in t.items ==> r == (t, NotFound(ItemNotFound))
    ensures r.1.Ok? <==> status in ModeratorStatuses && id in t.items
    ensures r.1.Ok? ==>
              && r.1.value == "Item status updated to " + status
              && id in r.0.items
              && ItemStatusText(r.0.items[id].status) == status
              && r.0.items[id].status != Claimed
              && r.0.items == t.items[id := t.items[id].(status := r.0.items[id].status, updatedAt := t.clock)]
              && r.0.claims == t.claims && r.0.clock == t.clock + 1
    ensures Valid(t) ==> Valid(r.0)
  {
    match ParseModeratorStatus(status)
    case None => (t, Invalid(InvalidStatus))
    case Some(s) =>
      if id !in t.items then (t, NotFound(ItemNotFound))
      else
        var it := t.items[id].(status := s, updatedAt := t.clock);
        (Tables(t.items[id := it], t.claims, t.clock + 1), Ok("Item status updated to " + status))
  }

  /**
   POST /api/items/:id/claim. In this order: claimant id and name must be
   non-empty; the item must exist with status `approved`; no claim on it may
   be pending. Then a pending claim is stored under the fresh id `claimId`
   and that id is the answer.
   */
  function RequestClaimStep(t: Tables, itemId: string, claimantId: string, claimantName: string,
                            claimId: string): (r: (Tables, Outcome<string>))
    requires claimId !in t.claims
    ensures claimantId == "" || claimantName == "" ==> r == (t, Invalid(MissingClaimant))
    ensures (claimantId != "" && claimantName != "" && (itemId !in t.items || t.items[itemId].status != Approved))
              ==> r == (t, Conflict(NotClaimable))
    ensures (claimantId != "" && claimantName != "" && itemId in t.items && t.items[itemId].status == Approved
             && HasPendingClaim(t.claims, itemId))
              ==> r == (t, Conflict(AlreadyPending))
    ensures r.1.Ok? <==>
              && claimantId != "" && claimantName != ""
              && itemId in t.items && t.items[itemId].status == Approved
              && !HasPendingClaim(t.claims, itemId)
    ensures r.1.Ok? ==>
              && r.1.value == claimId
              && r.0.items == t.items && r.0.clock == t.clock + 1
              && r.0.claims == t.claims[claimId :=
                   Claim(claimId, itemId, claimantName, claimantId, ClaimPending, t.clock, t.clock)]
  {
    if claimantId == "" || claimantName == "" then (t, Invalid(MissingClaimant))
    else if itemId !in t.items || t.items[itemId].status != Approved then (t, Conflict(NotClaimable))
    else if HasPendingClaim(t.claims, itemId) then (t, Conflict(AlreadyPending))
    else
      var c := Claim(claimId, itemId, claimantName, claimantId, ClaimPending, t.clock, t.clock);
      (Tables(t.items, t.claims[claimId := c], t.clock + 1), Ok(claimId))
  }

  /**
   The lookup of PATCH /api/moderator/claims/:claimId joins the claim with
   its item, so a claim whose item is missing is not found either.
   */
  predicate ClaimFound(t: Tables, claimId: string)
  {
    claimId in t.claims && t.claims[claimId].itemId in t.items
  }

  /**
   PATCH /api/moderator/claims/:claimId. The action must be `approve` or
   `reject` (checked before any lookup); the claim must be found and still
   pending. Approving marks the claim approved and the item `claimed` by the
   claim's claimant, whatever the item's status was; rejecting marks only
   the claim. Both updates of an approval happen in the same step.
   */
  function ResolveClaimStep(t: Tables, claimId: string, action: string): (r: (Tables, Outcome<string>))
    ensures action != "approve" && action != "reject" ==> r == (t, Invalid(InvalidAction))
    ensures ((action == "approve" || action == "reject") && !ClaimFound(t, claimId))
              ==> r == (t, NotFound(ClaimNotFound))
    ensures ((action == "approve" || action == "reject") && ClaimFound(t, claimId)
             && t.claims[claimId].status != ClaimPending)
              ==> r == (t, Conflict(AlreadyProcessed))
    ensures r.1.Ok? <==>
              (action == "approve" || action == "reject") && ClaimFound(t, claimId)
              && t.claims[claimId].status == ClaimPending
    ensures r.1.Ok? && action == "approve" ==>
              var c := t.claims[claimId];
              && r.1.value == "Claim approved successfully"
              && r.0.claims == t.claims[claimId := c.(status := ClaimApproved, updatedAt := t.clock)]
              && r.0.items == t.items[c.itemId := t.items[c.itemId].(
                   status := Claimed, claimantId := Some(c.claimantId), updatedAt := t.clock)]
              && r.0.clock == t.clock + 1
    ensures r.1.Ok? && action == "reject" ==>
              && r.1.value == "Claim rejected successfully"
              && r.0.claims == t.claims[claimId := t.claims[claimId].(status := ClaimRejected, updatedAt := t.clock)]
              && r.0.items == t.items
              && r.0.clock == t.clock + 1
  {
    if action != "approve" && action != "reject" then (t, Invalid(InvalidAction))
    else if !ClaimFound(t, claimId) then (t, NotFound(ClaimNotFound))
    else
      var c := t.claims[claimId];
      if c.status != ClaimPending then (t, Conflict(AlreadyProcessed))
      else if action == "approve" then
        var claims := t.claims[claimId := c.(status := ClaimApproved, updatedAt := t.clock)];
        var it := t.items[c.itemId].(status := Claimed, claimantId := Some(c.claimantId), updatedAt := t.clock);
        (Tables(t.items[c.itemId := it], claims, t.clock + 1), Ok("Claim approved successfully"))
      else
        var claims := t.claims[claimId := c.(status := ClaimRejected, updatedAt := t.clock)];
        (Tables(t.items, claims, t.clock + 1), Ok("Claim rejected successfully"))
  }

  /** Storing a pending claim keeps the invariant: the claim was checked to be the item's only pending one. */
  lemma RequestClaimKeepsValid(t: Tables, itemId: string, claimantId: string, claimantName: string,
                               claimId: string)
    requires Valid(t) && claimId !in t.claims
    ensures Valid(RequestClaimStep(t, itemId, claimantId, claimantName, claimId).0)
  {
    var r := RequestClaimStep(t, itemId, claimantId, claimantName, claimId);
    if r.1.Ok? {
      forall a, b, i | IsPendingClaimOn(r.0.claims, a, i) && IsPendingClaimOn(r.0.claims, b, i)
        ensures a == b
      {
        if a != claimId && b != claimId {
          assert IsPendingClaimOn(t.claims, a, i) && IsPendingClaimOn(t.claims, b, i);
        }
      }
    }
  }

  /** Resolving a claim keeps the invariant: it only takes a claim out of `pending`. */
  lemma ResolveClaimKeepsValid(t: Tables, claimId: string, action: string)
    requires Valid(t)
    ensures Valid(ResolveClaimStep(t, claimId, action).0)
  {
    var r := ResolveClaimStep(t, claimId, action);
    if r.1.Ok? {
      forall a, b, i | IsPendingClaimOn(r.0.claims, a, i) && IsPendingClaimOn(r.0.claims, b, i)
        ensures a == b
      {
        assert IsPendingClaimOn(t.claims, a, i) && IsPendingClaimOn(t.claims, b, i);
      }
    }
  }
}
