/**
 Properties of the item and claim lifecycle that relate several requests, or
 a request and what the read side then shows.
 */
module Properties {
  import opened Model
  import opened Ordering
  import opened Queries
  import opened Lifecycle

  /** Resolving a claim a second time always fails: the first resolution took it out of `pending`. */
  lemma ResolveTwiceFails(t: Tables, claimId: string, first: string, second: string)
    requires ResolveClaimStep(t, claimId, first).1.Ok?
    ensures var t1 := ResolveClaimStep(t, claimId, first).0;
            ResolveClaimStep(t1, claimId, second) ==
              (t1, if second == "approve" || second == "reject" then Conflict(AlreadyProcessed) else Invalid(InvalidAction))
  {
  }

  /** While a claim on an item is pending, a further request for that item is refused. */
  lemma SecondRequestConflicts(t: Tables, itemId: string, claimantId: string, claimantName: string, claimId: string,
                               otherId: string, otherName: string, otherClaim: string)
    requires claimId !in t.claims && otherClaim !in t.claims && otherClaim != claimId
    requires RequestClaimStep(t, itemId, claimantId, claimantName, claimId).1.Ok?
    requires otherId != "" && otherName != ""
    ensures var t1 := RequestClaimStep(t, itemId, claimantId, claimantName, claimId).0;
            RequestClaimStep(t1, itemId, otherId, otherName, otherClaim) == (t1, Conflict(AlreadyPending))
  {
    var t1 := RequestClaimStep(t, itemId, claimantId, claimantName, claimId).0;
    assert IsPendingClaimOn(t1.claims, claimId, itemId);
  }

  /**
   Rejecting the pending claim of an approved item opens the item to a new
   request: the rejected claim was its only pending one.
   */
  lemma RejectReopensItem(t: Tables, claimId: string, claimantId: string, claimantName: string, newClaim: string)
    requires Valid(t)
    requires claimId in t.claims && t.claims[claimId].status == ClaimPending
    requires t.items[t.claims[claimId].itemId].status == Approved
    requires newClaim !in t.claims && claimantId != "" && claimantName != ""
    ensures var t1 := ResolveClaimStep(t, claimId, "reject").0;
            RequestClaimStep(t1, t.claims[claimId].itemId, claimantId, claimantName, newClaim).1 == Ok(newClaim)
  {
    var itemId := t.claims[claimId].itemId;
    var t1 := ResolveClaimStep(t, claimId, "reject").0;
    if HasPendingClaim(t1.claims, itemId) {
      var c :| c in t1.claims && IsPendingClaimOn(t1.claims, c, itemId);
      assert IsPendingClaimOn(t.claims, c, itemId) && IsPendingClaimOn(t.claims, claimId, itemId);
      assert false;
    }
  }

  /** Approving a claim closes its item to every further request. */
  lemma ApprovalClosesItem(t: Tables, claimId: string, claimantId: string, claimantName: string, newClaim: string)
    requires ResolveClaimStep(t, claimId, "approve").1.Ok?
    requires newClaim !in t.claims && newClaim != claimId && claimantId != "" && claimantName != ""
    ensures var t1 := ResolveClaimStep(t, claimId, "approve").0;
            RequestClaimStep(t1, t.claims[claimId].itemId, claimantId, claimantName, newClaim) ==
              (t1, Conflict(NotClaimable))
  {
  }

  /**
   A moderator may move a claimed item back to any of the three statuses;
   in a valid store a claimed item has its claimant recorded, and the claimant
   stays recorded after the reset, so "a claimant is recorded exactly when the
   item is claimed" is not an invariant of the handlers.
   */
  lemma ResetKeepsClaimant(t: Tables, id: string, status: string)
    requires Valid(t)
    requires id in t.items && t.items[id].status == Claimed
    requires status in ModeratorStatuses
    ensures var t1 := SetItemStatusStep(t, id, status).0;
            && t1.items[id].status != Claimed
            && t1.items[id].claimantId.Some?
            && t1.items[id].claimantId == t.items[id].claimantId
  {
  }

  /**
   A submitted item reads back with the fields the handler answered, and
   with no claimant and both timestamps at the time of the submission; a
   refused submission stores nothing.
   */
  lemma CreatedItemReadsBack(t: Tables, id: string, kind: string, title: string, description: string,
                             location: string, date: string, contact: string, today: string)
    requires id !in t.items
    ensures var r := CreateItemStep(t, id, kind, title, description, location, date, contact, today);
            && (r.1.Ok? ==>
                  && GetItem(r.0, id).Ok?
                  && SubmittedFields(GetItem(r.0, id).value) == r.1.value
                  && GetItem(r.0, id).value.claimantId == None
                  && GetItem(r.0, id).value.createdAt == GetItem(r.0, id).value.updatedAt == t.clock)
            && (!r.1.Ok? ==> GetItem(r.0, id) == NotFound(ItemNotFound))
  {
  }

  /** An item created after every other one heads the unfiltered listing. */
  lemma NewestListedFirst(t: Tables, id: string)
    requires id in t.items
    requires forall j :: j in t.items && j != id ==> t.items[j].createdAt < t.items[id].createdAt
    ensures |ListItems(t, "", "")| > 0 && ListItems(t, "", "")[0] == t.items[id]
  {
    var all := MatchingIds(t.items, "", "");
    assert all == t.items.Keys;
    NewestComesFirst(ItemStamps(t.items), all, id);
  }

  /** An item awaiting approval, created after every other item, ends the moderator's queue. */
  lemma NewestQueuedLast(t: Tables, id: string)
    requires id in t.items && t.items[id].status == PendingApproval
    requires forall j :: j in t.items && j != id ==> t.items[j].createdAt < t.items[id].createdAt
    ensures |PendingItems(t)| > 0 && PendingItems(t)[|PendingItems(t)| - 1] == t.items[id]
  {
    var ids := Ascending(ItemStamps(t.items), AwaitingIds(t.items));
    assert |ids| > 0 && ids[|ids| - 1] == id by {
      assert id in AwaitingIds(t.items);
      NewestComesLast(ItemStamps(t.items), AwaitingIds(t.items), id);
    }
    assert PendingItems(t) == RowsAt(t.items, ids);
  }

  /** A submitted item comes first in the unfiltered listing, which is newest first. */
  lemma CreatedItemListedFirst(t: Tables, id: string, kind: string, title: string, description: string,
                               location: string, date: string, contact: string, today: string)
    requires Valid(t) && id !in t.items
    requires kind != "" && title != "" && description != ""
    ensures var r := CreateItemStep(t, id, kind, title, description, location, date, contact, today);
            && |ListItems(r.0, "", "")| > 0
            && id in r.0.items && ListItems(r.0, "", "")[0] == r.0.items[id]
            && SubmittedFields(ListItems(r.0, "", "")[0]) == r.1.value
  {
    var r := CreateItemStep(t, id, kind, title, description, location, date, contact, today);
    NewestListedFirst(r.0, id);
  }

  /** A submitted item joins the end of the moderator's queue, which is oldest first. */
  lemma CreatedItemQueuedLast(t: Tables, id: string, kind: string, title: string, description: string,
                              location: string, date: string, contact: string, today: string)
    requires Valid(t) && id !in t.items
    requires kind != "" && title != "" && description != ""
    ensures var r := CreateItemStep(t, id, kind, title, description, location, date, contact, today);
            && |PendingItems(r.0)| > 0
            && id in r.0.items && PendingItems(r.0)[|PendingItems(r.0)| - 1] == r.0.items[id]
            && SubmittedFields(PendingItems(r.0)[|PendingItems(r.0)| - 1]) == r.1.value
  {
    var r := CreateItemStep(t, id, kind, title, description, location, date, contact, today);
    NewestQueuedLast(r.0, id);
  }

  /** Submitting an item adds one to the `pending_approval` count and leaves the other counts. */
  lemma CreateCountsPending(t: Tables, id: string, kind: string, title: string, description: string,
                            location: string, date: string, contact: string, today: string)
    requires id !in t.items
    requires kind != "" && title != "" && description != ""
    ensures var t1 := CreateItemStep(t, id, kind, title, description, location, date, contact, today).0;
            && CountItems(t1.items, PendingApproval) == CountItems(t.items, PendingApproval) + 1
            && t1.claims == t.claims
            && (forall s :: s != PendingApproval ==> CountItems(t1.items, s) == CountItems(t.items, s))
  {
    var r := CreateItemStep(t, id, kind, title, description, location, date, contact, today);
    forall s ensures ItemsWithStatus(r.0.items, s) ==
                       if s == PendingApproval then ItemsWithStatus(t.items, s) + {id} else ItemsWithStatus(t.items, s)
    {
      ItemsWithStatusInsert(t.items, id, r.0.items[id], s);
    }
  }

  /**
   Resolving a claim moves exactly one claim out of `pending`, into
   `approved` or `rejected` according to the action.
   */
  lemma ResolveMovesOneClaim(t: Tables, claimId: string, action: string)
    requires ResolveClaimStep(t, claimId, action).1.Ok?
    ensures var t1 := ResolveClaimStep(t, claimId, action).0;
            var target := if action == "approve" then ClaimApproved else ClaimRejected;
            var other := if action == "approve" then ClaimRejected else ClaimApproved;
            && CountClaims(t1.claims, ClaimPending) + 1 == CountClaims(t.claims, ClaimPending)
            && CountClaims(t1.claims, target) == CountClaims(t.claims, target) + 1
            && CountClaims(t1.claims, other) == CountClaims(t.claims, other)
  {
    var t1 := ResolveClaimStep(t, claimId, action).0;
    var c := t1.claims[claimId];
    assert t1.claims == t.claims[claimId := c];
    forall s ensures ClaimsWithStatus(t1.claims, s) ==
                       if c.status == s then ClaimsWithStatus(t.claims, s) + {claimId}
                       else ClaimsWithStatus(t.claims, s) - {claimId}
    {
      ClaimsWithStatusUpdate(t.claims, claimId, c, s);
    }
  }

  /**
   A successful claim request adds one to the `pending` claim count and
   leaves the other claim counts and every item count as they were.
   */
  lemma RequestCountsPending(t: Tables, itemId: string, claimantId: string, claimantName: string, claimId: string)
    requires claimId !in t.claims
    requires RequestClaimStep(t, itemId, claimantId, claimantName, claimId).1.Ok?
    ensures var t1 := RequestClaimStep(t, itemId, claimantId, claimantName, claimId).0;
            && CountClaims(t1.claims, ClaimPending) == CountClaims(t.claims, ClaimPending) + 1
            && (forall s :: s != ClaimPending ==> CountClaims(t1.claims, s) == CountClaims(t.claims, s))
            && (forall s :: CountItems(t1.items, s) == CountItems(t.items, s))
  {
    var t1 := RequestClaimStep(t, itemId, claimantId, claimantName, claimId).0;
    var c := t1.claims[claimId];
    forall s ensures ClaimsWithStatus(t1.claims, s) ==
                       if s == ClaimPending then ClaimsWithStatus(t.claims, s) + {claimId} else ClaimsWithStatus(t.claims, s)
    {
      ClaimsWithStatusInsert(t.claims, claimId, c, s);
    }
  }

  /**
   The whole lifecycle on a new item: submit it, approve it, request it as
   claimant "u1", approve that claim; the item then reads back as claimed by
   "u1". A request made before the approval is refused.
   */
  lemma ClaimScenario(t: Tables, id: string, claimId: string, today: string)
    requires Valid(t) && id !in t.items && claimId !in t.claims
    ensures var (t1, r1) := CreateItemStep(t, id, "lost", "Wallet", "Black wallet", "", "", "", today);
            var (t2, r2) := SetItemStatusStep(t1, id, "approved");
            var (t3, r3) := RequestClaimStep(t2, id, "u1", "Alice", claimId);
            var (t4, r4) := ResolveClaimStep(t3, claimId, "approve");
            && r1.Ok? && r2.Ok? && r3 == Ok(claimId) && r4.Ok?
            && GetItem(t4, id).Ok?
            && GetItem(t4, id).value.status == Claimed
            && GetItem(t4, id).value.claimantId == Some("u1")
            && RequestClaimStep(t1, id, "u1", "Alice", claimId) == (t1, Conflict(NotClaimable))
  {
    var (t1, r1) := CreateItemStep(t, id, "lost", "Wallet", "Black wallet", "", "", "", today);
    var (t2, r2) := SetItemStatusStep(t1, id, "approved");
    assert !HasPendingClaim(t2.claims, id);
  }
}
