/**
 The data model of the Lost & Found API: the two tables (items and claims),
 their status columns, the handlers' outcomes and the invariant the
 handlers keep between them.
 */
module Model {

  datatype Option<T> = None | Some(value: T)

  /** What a handler answers: its payload, or one of its error responses. */
  datatype Outcome<T> =
    | Ok(value: T)
    | Invalid(message: string)   // HTTP 400: a required input is missing or malformed
    | NotFound(message: string)  // HTTP 404: the addressed row does not exist
    | Conflict(message: string)  // HTTP 400: the current state forbids the request

  /** The `status` column of `items`. */
  datatype ItemStatus = PendingApproval | Approved | Rejected | Claimed

  /** The `status` column of `claims`. */
  datatype ClaimStatus = ClaimPending | ClaimApproved | ClaimRejected

  /** The text stored in the `status` column of `items`. */
  function ItemStatusText(s: ItemStatus): string
  {
    match s
    case PendingApproval => "pending_approval"
    case Approved => "approved"
    case Rejected => "rejected"
    case Claimed => "claimed"
  }

  /** The text stored in the `status` column of `claims`. */
  function ClaimStatusText(s: ClaimStatus): string
  {
    match s
    case ClaimPending => "pending"
    case ClaimApproved => "approved"
    case ClaimRejected => "rejected"
  }

  /** The statuses a moderator may set directly; `claimed` is not among them. */
  const ModeratorStatuses: seq<string> := ["pending_approval", "approved", "rejected"]

  /** Reads a status a moderator asked for; anything outside ModeratorStatuses is refused. */
  function ParseModeratorStatus(s: string): (r: Option<ItemStatus>)
    ensures r.Some? <==> s in ModeratorStatuses
    ensures r.Some? ==> ItemStatusText(r.value) == s && r.value != Claimed
  {
    if s == "pending_approval" then Some(PendingApproval)
    else if s == "approved" then Some(Approved)
    else if s == "rejected" then Some(Rejected)
    else None
  }

  /** A row of `items`. `kind` is the `type` column; `claimantId` is NULL until a claim is approved. */
  datatype Item = Item(
    id: string,
    kind: string,
    title: string,
    description: string,
    location: string,
    date: string,
    contact: string,
    status: ItemStatus,
    claimantId: Option<string>,
    createdAt: nat,
    updatedAt: nat)

  /** A row of `claims`. */
  datatype Claim = Claim(
    id: string,
    itemId: string,
    claimantName: string,
    claimantId: string,
    status: ClaimStatus,
    createdAt: nat,
    updatedAt: nat)

  /**
   The store: both tables keyed by their `id` column, and the logical clock
   that stands for CURRENT_TIMESTAMP (the stamp the next write receives).
   */
  datatype Tables = Tables(items: map<string, Item>, claims: map<string, Claim>, clock: nat)

  const Empty: Tables := Tables(map[], map[], 0)

  /** The claim under key `c` is a pending claim on item `itemId`. */
  predicate IsPendingClaimOn(claims: map<string, Claim>, c: string, itemId: string)
  {
    c in claims && claims[c].itemId == itemId && claims[c].status == ClaimPending
  }

  /** Some pending claim on `itemId` exists (the query on claims by item_id and status 'pending'). */
  predicate HasPendingClaim(claims: map<string, Claim>, itemId: string)
  {
    exists c :: c in claims && IsPendingClaimOn(claims, c, itemId)
  }

  /** No item has two pending claims. */
  ghost predicate AtMostOnePendingPerItem(claims: map<string, Claim>)
  {
    forall a, b, itemId :: IsPendingClaimOn(claims, a, itemId) && IsPendingClaimOn(claims, b, itemId) ==> a == b
  }

  /**
   The invariant every handler keeps when requests are handled one at a
   time: each row sits under its own id, was written before the current
   clock, a `claimed` item has a claimant recorded, every claim refers to an
   existing item (claims.item_id is a foreign key to items.id), and at most
   one claim per item is pending.
   */
  ghost predicate Valid(t: Tables)
  {
    && (forall id :: id in t.items ==>
          && t.items[id].id == id && t.items[id].createdAt <= t.items[id].updatedAt < t.clock
          && (t.items[id].status == Claimed ==> t.items[id].claimantId.Some?))
    && (forall id :: id in t.claims ==>
          t.claims[id].id == id && t.claims[id].createdAt <= t.claims[id].updatedAt < t.clock
          && t.claims[id].itemId in t.items)
    && AtMostOnePendingPerItem(t.claims)
  }

  /** The ids of the items with status `s` (one group of GROUP BY status). */
  function ItemsWithStatus(items: map<string, Item>, s: ItemStatus): set<string>
  {
    set id | id in items && items[id].status == s
  }

  function CountItems(items: map<string, Item>, s: ItemStatus): nat
  {
    |ItemsWithStatus(items, s)|
  }

  /** The ids of the claims with status `s`. */
  function ClaimsWithStatus(claims: map<string, Claim>, s: ClaimStatus): set<string>
  {
    set id | id in claims && claims[id].status == s
  }

  function CountClaims(claims: map<string, Claim>, s: ClaimStatus): nat
  {
    |ClaimsWithStatus(claims, s)|
  }

  /** Storing a new row adds its id to its status group and to no other. */
  lemma ItemsWithStatusInsert(items: map<string, Item>, id: string, it: Item, s: ItemStatus)
    requires id !in items
    ensures ItemsWithStatus(items[id := it], s) ==
              if it.status == s then ItemsWithStatus(items, s) + {id} else ItemsWithStatus(items, s)
  {
  }

  /** Storing a new claim adds its id to its status group and to no other. */
  lemma ClaimsWithStatusInsert(claims: map<string, Claim>, id: string, c: Claim, s: ClaimStatus)
    requires id !in claims
    ensures ClaimsWithStatus(claims[id := c], s) ==
              if c.status == s then ClaimsWithStatus(claims, s) + {id} else ClaimsWithStatus(claims, s)
  {
  }

  /** Changing the status of a stored claim moves its id from its old status group to its new one. */
  lemma ClaimsWithStatusUpdate(claims: map<string, Claim>, id: string, c: Claim, s: ClaimStatus)
    requires id in claims
    ensures ClaimsWithStatus(claims[id := c], s) ==
              if c.status == s then ClaimsWithStatus(claims, s) + {id} else ClaimsWithStatus(claims, s) - {id}
  {
  }

  /** Status text round-trips through the moderator's parser for every status but `claimed`. */
  lemma ModeratorStatusRoundTrip(s: ItemStatus)
    ensures ParseModeratorStatus(ItemStatusText(s)) == if s == Claimed then None else Some(s)
  {
  }

  /** The status column's texts are distinct, so the text determines the status. */
  lemma ItemStatusTextInjective(s: ItemStatus, u: ItemStatus)
    ensures ItemStatusText(s) == ItemStatusText(u) <==> s == u
  {
  }

  lemma ClaimStatusTextInjective(s: ClaimStatus, u: ClaimStatus)
    ensures ClaimStatusText(s) == ClaimStatusText(u) <==> s == u
  {
  }

  /** The empty store satisfies the invariant. */
  lemma EmptyValid()
    ensures Valid(Empty)
  {
  }
}
