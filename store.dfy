/**
 The API server's store: the `items` and `claims` tables, updated in place by
 the handlers that write, and the logical clock standing for
 CURRENT_TIMESTAMP. Each handler's method performs the updates of its SQL
 statements in the order the handler runs them and is proved to agree with
 the transition of the same name in Lifecycle.
 */
module Server {
  import opened Model
  import opened Lifecycle
  import Stats

  class Store {
    var items: map<string, Item>
    var claims: map<string, Claim>
    var clock: nat

    /** The tables as a value. */
    function State(): Tables
      reads this
    {
      Tables(items, claims, clock)
    }

    ghost predicate Valid()
      reads this
    {
      Model.Valid(State())
    }

    /** A fresh database: both tables empty. */
    constructor ()
      ensures Valid() && State() == Empty
    {
      items, claims, clock := map[], map[], 0;
    }

    /** POST /api/items; `id` is the freshly generated id and `today` the current date. */
    method CreateItem(id: string, kind: string, title: string, description: string,
                      location: string, date: string, contact: string, today: string)
      returns (r: Outcome<Submitted>)
      requires Valid() && id !in items
      modifies this
      ensures Valid()
      ensures (State(), r) == CreateItemStep(old(State()), id, kind, title, description, location, date, contact, today)
    {
      if kind == "" || title == "" || description == "" {
        return Invalid(MissingItemFields);
      }
      var it := Item(id, kind, title, description, OrDefault(location, ""), OrDefault(date, today),
                     OrDefault(contact, ""), PendingApproval, None, clock, clock);
      items := items[id := it];
      clock := clock + 1;
      r := Ok(SubmittedFields(it));
    }

    /** PATCH /api/items/:id/status. */
    method SetItemStatus(id: string, status: string) returns (r: Outcome<string>)
      requires Valid()
      modifies this
      ensures Valid()
      ensures (State(), r) == SetItemStatusStep(old(State()), id, status)
    {
      var parsed := ParseModeratorStatus(status);
      if parsed.None? {
        return Invalid(InvalidStatus);
      }
      // The UPDATE changes no row when the id is unknown.
      if id !in items {
        return NotFound(ItemNotFound);
      }
      items := items[id := items[id].(status := parsed.value, updatedAt := clock)];
      clock := clock + 1;
      r := Ok("Item status updated to " + status);
    }

    /** POST /api/items/:id/claim; `claimId` is the freshly generated claim id. */
    method RequestClaim(itemId: string, claimantId: string, claimantName: string, claimId: string)
      returns (r: Outcome<string>)
      requires Valid() && claimId !in claims
      modifies this
      ensures Valid()
      ensures (State(), r) == RequestClaimStep(old(State()), itemId, claimantId, claimantName, claimId)
    {
      ghost var before := State();
      if claimantId == "" || claimantName == "" {
        return Invalid(MissingClaimant);
      }
      if itemId !in items || items[itemId].status != Approved {
        return Conflict(NotClaimable);
      }
      if HasPendingClaim(claims, itemId) {
        return Conflict(AlreadyPending);
      }
      claims := claims[claimId := Claim(claimId, itemId, claimantName, claimantId, ClaimPending, clock, clock)];
      clock := clock + 1;
      r := Ok(claimId);
      RequestClaimKeepsValid(before, itemId, claimantId, claimantName, claimId);
    }

    /**
     PATCH /api/moderator/claims/:claimId. The claim is updated first and,
     on approval, its item second; the two updates are one step here.
     */
    method ResolveClaim(claimId: string, action: string) returns (r: Outcome<string>)
      requires Valid()
      modifies this
      ensures Valid()
      ensures (State(), r) == ResolveClaimStep(old(State()), claimId, action)
    {
      ghost var before := State();
      if action != "approve" && action != "reject" {
        return Invalid(InvalidAction);
      }
      if claimId !in claims || claims[claimId].itemId !in items {
        return NotFound(ClaimNotFound);
      }
      var c := claims[claimId];
      if c.status != ClaimPending {
        return Conflict(AlreadyProcessed);
      }
      var newStatus := if action == "approve" then ClaimApproved else ClaimRejected;
      claims := claims[claimId := c.(status := newStatus, updatedAt := clock)];
      if action == "approve" {
        items := items[c.itemId := items[c.itemId].(status := Claimed, claimantId := Some(c.claimantId),
                                                    updatedAt := clock)];
        r := Ok("Claim approved successfully");
      } else {
        r := Ok("Claim rejected successfully");
      }
      clock := clock + 1;
      ResolveClaimKeepsValid(before, claimId, action);
    }

    /** GET /api/moderator/stats over the current tables. */
    method ReadStats() returns (stats: map<Stats.StatKey, nat>)
      ensures stats.Keys == Stats.StatKeys
      ensures forall s :: Stats.ItemKey(s) in stats && stats[Stats.ItemKey(s)] == CountItems(items, s)
      ensures forall s :: Stats.ClaimKey(s) in stats && stats[Stats.ClaimKey(s)] == CountClaims(claims, s)
    {
      stats := Stats.ComputeStats(State());
    }
  }
}
