/**
 The read side of the API: one item by id, the filtered listing (newest
 first), the moderator's queue of items awaiting approval (oldest first) and
 the moderator's pending claims joined with their items (oldest first).
 */
module Queries {
  import opened Model
  import opened Ordering

  /** GET /api/items/:id — the row, or 404. */
  function GetItem(t: Tables, id: string): (r: Outcome<Item>)
    ensures r.Ok? <==> id in t.items
    ensures r.Ok? ==> r.value == t.items[id]
    ensures !r.Ok? ==> r == NotFound("Item not found")
  {
    if id in t.items then Ok(t.items[id]) else NotFound("Item not found")
  }

  /**
   The optional equality filters of GET /api/items. A filter that is absent
   or empty (falsy) is not applied; `status` is compared with the text stored
   in the status column and `kind` with the `type` column.
   */
  predicate Matches(it: Item, status: string, kind: string)
  {
    && (status == "" || ItemStatusText(it.status) == status)
    && (kind == "" || it.kind == kind)
  }

  /** Each item's sort key: its created_at. */
  function ItemStamps(items: map<string, Item>): map<string, nat>
  {
    map id | id in items :: items[id].createdAt
  }

  /** Each claim's sort key: its created_at. */
  function ClaimStamps(claims: map<string, Claim>): map<string, nat>
  {
    map id | id in claims :: claims[id].createdAt
  }

  /** The ids of the items the listing returns. */
  function MatchingIds(items: map<string, Item>, status: string, kind: string): set<string>
  {
    set id | id in items && Matches(items[id], status, kind)
  }

  /** The rows stored under `ids`, in the order of `ids`. */
  function RowsAt<V>(m: map<string, V>, ids: seq<string>): seq<V>
    requires forall i :: 0 <= i < |ids| ==> ids[i] in m
  {
    seq(|ids|, i requires 0 <= i < |ids| => m[ids[i]])
  }

  /** Looking up every key of `ks`, listed in `ids`, yields every row stored under `ks`. */
  lemma RowsAtCovers<V>(m: map<string, V>, ids: seq<string>, ks: set<string>)
    requires forall i :: 0 <= i < |ids| ==> ids[i] in m
    requires forall k :: k in ks ==> k in ids
    ensures forall k :: k in ks ==> k in m && m[k] in RowsAt(m, ids)
  {
    forall k | k in ks ensures k in m && m[k] in RowsAt(m, ids) {
      var p :| 0 <= p < |ids| && ids[p] == k;
      assert RowsAt(m, ids)[p] == m[k];
    }
  }

  /**
   The rows stored under the ids `ks`, ordered by created_at: oldest first
   when `up`, newest first otherwise.
   */
  ghost function OrderedRows(items: map<string, Item>, ks: set<string>, up: bool): seq<Item>
    requires ks <= items.Keys
  {
    var stamp := ItemStamps(items);
    RowsAt(items, if up then Ascending(stamp, ks) else Descending(stamp, ks))
  }

  /**
   The ordered rows are the rows under `ks`, each once, in created_at order;
   a property `p` shared by every row under `ks` holds for every listed row.
   */
  lemma OrderedRowsSpec(items: map<string, Item>, ks: set<string>, up: bool, p: Item -> bool)
    requires ks <= items.Keys
    requires forall k :: k in ks ==> p(items[k])
    ensures |OrderedRows(items, ks, up)| == |ks|
    ensures forall i :: 0 <= i < |OrderedRows(items, ks, up)| ==>
              p(OrderedRows(items, ks, up)[i]) && OrderedRows(items, ks, up)[i] in items.Values
    ensures forall k :: k in ks ==> items[k] in OrderedRows(items, ks, up)
    ensures up ==> forall i, j :: 0 <= i < j < |OrderedRows(items, ks, up)| ==>
                     OrderedRows(items, ks, up)[i].createdAt <= OrderedRows(items, ks, up)[j].createdAt
    ensures !up ==> forall i, j :: 0 <= i < j < |OrderedRows(items, ks, up)| ==>
                      OrderedRows(items, ks, up)[i].createdAt >= OrderedRows(items, ks, up)[j].createdAt
  {
    var stamp := ItemStamps(items);
    var ids := if up then Ascending(stamp, ks) else Descending(stamp, ks);
    var r := RowsAt(items, ids);
    assert r == OrderedRows(items, ks, up);
    assert Lists(ids, ks);
    forall i | 0 <= i < |r| ensures p(r[i]) && r[i] in items.Values {
      assert ids[i] in ks && r[i] == items[ids[i]];
    }
    RowsAtCovers(items, ids, ks);
    if up {
      forall i, j | 0 <= i < j < |r| ensures r[i].createdAt <= r[j].createdAt {
        assert stamp[ids[i]] <= stamp[ids[j]];
      }
    } else {
      forall i, j | 0 <= i < j < |r| ensures r[i].createdAt >= r[j].createdAt {
        assert stamp[ids[i]] >= stamp[ids[j]];
      }
    }
  }

  /**
   GET /api/items?status=&type= — exactly the matching rows, each once,
   newest first.
   */
  ghost function ListItems(t: Tables, status: string, kind: string): (r: seq<Item>)
    ensures |r| == |MatchingIds(t.items, status, kind)|
    ensures forall i :: 0 <= i < |r| ==> Matches(r[i], status, kind) && r[i] in t.items.Values
    ensures forall id :: id in t.items && Matches(t.items[id], status, kind) ==> t.items[id] in r
    ensures forall i, j :: 0 <= i < j < |r| ==> r[i].createdAt >= r[j].createdAt
  {
    var ks := MatchingIds(t.items, status, kind);
    OrderedRowsSpec(t.items, ks, false, (it: Item) => Matches(it, status, kind));
    OrderedRows(t.items, ks, false)
  }

  /** The ids of the items awaiting a moderator's decision. */
  function AwaitingIds(items: map<string, Item>): set<string>
  {
    ItemsWithStatus(items, PendingApproval)
  }

  /**
   GET /api/moderator/pending — every item in `pending_approval`, each once,
   oldest first (a first-in first-out review queue).
   */
  ghost function PendingItems(t: Tables): (r: seq<Item>)
    ensures |r| == CountItems(t.items, PendingApproval)
    ensures forall i :: 0 <= i < |r| ==> r[i].status == PendingApproval && r[i] in t.items.Values
    ensures forall id :: id in t.items && t.items[id].status == PendingApproval ==> t.items[id] in r
    ensures forall i, j :: 0 <= i < j < |r| ==> r[i].createdAt <= r[j].createdAt
  {
    var ks := AwaitingIds(t.items);
    OrderedRowsSpec(t.items, ks, true, (it: Item) => it.status == PendingApproval);
    OrderedRows(t.items, ks, true)
  }

  /**
   A row of GET /api/moderator/claims: all columns of the claim and the
   item's title, description, type, location and date.
   */
  datatype ClaimRow = ClaimRow(
    claim: Claim,
    title: string,
    description: string,
    kind: string,
    location: string,
    date: string)

  /** The claim joined with the item it refers to. */
  function JoinRow(c: Claim, it: Item): ClaimRow
  {
    ClaimRow(c, it.title, it.description, it.kind, it.location, it.date)
  }

  /** The pending claims that the inner join keeps: those whose item exists. */
  function JoinedPendingIds(t: Tables): set<string>
  {
    set c | c in t.claims && t.claims[c].status == ClaimPending && t.claims[c].itemId in t.items
  }

  /** Each claim of `cs` joined with its item, in the order of `cs`. */
  function JoinRows(items: map<string, Item>, cs: seq<Claim>): seq<ClaimRow>
    requires forall i :: 0 <= i < |cs| ==> cs[i].itemId in items
  {
    seq(|cs|, i requires 0 <= i < |cs| => JoinRow(cs[i], items[cs[i].itemId]))
  }

  /**
   The claims that GET /api/moderator/claims lists: each pending claim whose
   item exists (the inner join drops the others), once, oldest first.
   */
  ghost function PendingClaimQueue(t: Tables): (cs: seq<Claim>)
    ensures |cs| == |JoinedPendingIds(t)|
    ensures forall i :: 0 <= i < |cs| ==>
              cs[i].status == ClaimPending && cs[i].itemId in t.items && cs[i] in t.claims.Values
    ensures forall c :: c in JoinedPendingIds(t) ==> t.claims[c] in cs
    ensures forall i, j :: 0 <= i < j < |cs| ==> cs[i].createdAt <= cs[j].createdAt
  {
    var ks := JoinedPendingIds(t);
    var stamp := ClaimStamps(t.claims);
    var ids := Ascending(stamp, ks);
    RowsAtCovers(t.claims, ids, ks);
    RowsInOrder(t, stamp, ids, ks);
    RowsAt(t.claims, ids)
  }

  /** The rows of pending, joined claim ids listed oldest first are pending, joined and oldest first. */
  lemma RowsInOrder(t: Tables, stamp: map<string, nat>, ids: seq<string>, ks: set<string>)
    requires forall i :: 0 <= i < |ids| ==> ids[i] in ks
    requires forall k :: k in ks ==> k in t.claims && t.claims[k].status == ClaimPending && t.claims[k].itemId in t.items
    requires forall k :: k in ks ==> k in stamp && stamp[k] == t.claims[k].createdAt
    requires forall i, j :: 0 <= i < j < |ids| ==> stamp[ids[i]] <= stamp[ids[j]]
    ensures forall i :: 0 <= i < |RowsAt(t.claims, ids)| ==>
              && RowsAt(t.claims, ids)[i].status == ClaimPending
              && RowsAt(t.claims, ids)[i].itemId in t.items
              && RowsAt(t.claims, ids)[i] in t.claims.Values
    ensures forall i, j :: 0 <= i < j < |RowsAt(t.claims, ids)| ==>
              RowsAt(t.claims, ids)[i].createdAt <= RowsAt(t.claims, ids)[j].createdAt
  {
  }

  /**
   GET /api/moderator/claims — the pending claims, oldest first, each joined
   with the title, description, type, location and date of its item.
   */
  ghost function PendingClaims(t: Tables): (r: seq<ClaimRow>)
    ensures |r| == |JoinedPendingIds(t)|
    ensures forall i :: 0 <= i < |r| ==>
              r[i].claim.itemId in t.items && r[i] == JoinRow(r[i].claim, t.items[r[i].claim.itemId])
    ensures forall i :: 0 <= i < |r| ==> r[i].claim == PendingClaimQueue(t)[i]
  {
    var cs := PendingClaimQueue(t);
    JoinRows(t.items, cs)
  }

  /**
   In a valid store the join loses nothing: every pending claim is listed,
   and the listing has one row per pending claim.
   */
  lemma PendingClaimsListsEveryPendingClaim(t: Tables)
    requires Valid(t)
    ensures JoinedPendingIds(t) == ClaimsWithStatus(t.claims, ClaimPending)
    ensures |PendingClaims(t)| == CountClaims(t.claims, ClaimPending)
  {
  }

  /** The listing filtered on `pending_approval` keeps exactly the items awaiting a decision. */
  lemma PendingFilterIsAwaiting(items: map<string, Item>)
    ensures MatchingIds(items, "pending_approval", "") == AwaitingIds(items)
  {
    forall id | id in items
      ensures Matches(items[id], "pending_approval", "") <==> items[id].status == PendingApproval
    {
      ItemStatusTextInjective(items[id].status, PendingApproval);
    }
  }

  /** Every row of the moderator's queue is in the listing filtered on `pending_approval`. */
  lemma QueuedIsListed(t: Tables, it: Item)
    requires it in PendingItems(t)
    ensures it in ListItems(t, "pending_approval", "")
  {
    var i :| 0 <= i < |PendingItems(t)| && PendingItems(t)[i] == it;
    var id :| id in t.items && t.items[id] == it;
    assert Matches(it, "pending_approval", "");
  }

  /** Every row of the listing filtered on `pending_approval` is in the moderator's queue. */
  lemma ListedIsQueued(t: Tables, it: Item)
    requires it in ListItems(t, "pending_approval", "")
    ensures it in PendingItems(t)
  {
    var i :| 0 <= i < |ListItems(t, "pending_approval", "")| && ListItems(t, "pending_approval", "")[i] == it;
    var id :| id in t.items && t.items[id] == it;
    ItemStatusTextInjective(it.status, PendingApproval);
  }

  /**
   The moderator's queue holds the same rows as the listing filtered on
   `pending_approval`, in the opposite order.
   */
  lemma PendingItemsAgreeWithListing(t: Tables)
    ensures |PendingItems(t)| == |ListItems(t, "pending_approval", "")|
    ensures forall it :: it in PendingItems(t) <==> it in ListItems(t, "pending_approval", "")
  {
    PendingFilterIsAwaiting(t.items);
    forall it ensures it in PendingItems(t) <==> it in ListItems(t, "pending_approval", "") {
      if it in PendingItems(t) {
        QueuedIsListed(t, it);
      }
      if it in ListItems(t, "pending_approval", "") {
        ListedIsQueued(t, it);
      }
    }
  }
}
