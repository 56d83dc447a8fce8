/**
 GET /api/moderator/stats. The database groups each table by status and
 counts the rows of each group; the handler starts from a dictionary with all
 seven keys at zero and overwrites one entry per group row.
 */
module Stats {
  import opened Model

  /**
   A key of the answer: an item status, reported under its own text, or a
   claim status, reported under its text followed by `_claims`.
   */
  datatype StatKey = ItemKey(item: ItemStatus) | ClaimKey(claim: ClaimStatus)

  /** The JSON key an entry is reported under. */
  function KeyText(k: StatKey): string
  {
    match k
    case ItemKey(s) => ItemStatusText(s)
    case ClaimKey(s) => ClaimStatusText(s) + "_claims"
  }

  /** The seven keys of the answer. */
  const StatKeys: set<StatKey> := {
    ItemKey(PendingApproval), ItemKey(Approved), ItemKey(Claimed), ItemKey(Rejected),
    ClaimKey(ClaimPending), ClaimKey(ClaimApproved), ClaimKey(ClaimRejected)
  }

  /** Every item status and every claim status has its key among the seven. */
  lemma StatKeysComplete(k: StatKey)
    ensures k in StatKeys
  {
    match k
    case ItemKey(s) => assert s == PendingApproval || s == Approved || s == Claimed || s == Rejected;
    case ClaimKey(s) => assert s == ClaimPending || s == ClaimApproved || s == ClaimRejected;
  }

  /** The seven keys are reported under seven different texts: the answer's JSON keys. */
  lemma KeyTexts()
    ensures (set k | k in StatKeys :: KeyText(k)) == {
      "pending_approval", "approved", "claimed", "rejected",
      "pending_claims", "approved_claims", "rejected_claims"}
    ensures forall k, l :: KeyText(k) == KeyText(l) ==> k == l
  {
    assert "pending" + "_claims" == "pending_claims";
    assert "approved" + "_claims" == "approved_claims";
    assert "rejected" + "_claims" == "rejected_claims";
  }

  /**
   The result rows of a GROUP BY status over `items`, taking the statuses in
   `order`: one row per non-empty group, holding the status and the group's size.
   */
  function ItemGroups(items: map<string, Item>, order: seq<ItemStatus>): (rows: seq<(ItemStatus, nat)>)
    ensures forall i :: 0 <= i < |rows| ==>
              rows[i].0 in order && rows[i].1 == CountItems(items, rows[i].0) > 0
  {
    if order == [] then []
    else
      var n := CountItems(items, order[0]);
      (if n > 0 then [(order[0], n)] else []) + ItemGroups(items, order[1..])
  }

  /** The result rows of a GROUP BY status over `claims`, taking the statuses in `order`. */
  function ClaimGroups(claims: map<string, Claim>, order: seq<ClaimStatus>): (rows: seq<(ClaimStatus, nat)>)
    ensures forall i :: 0 <= i < |rows| ==>
              rows[i].0 in order && rows[i].1 == CountClaims(claims, rows[i].0) > 0
  {
    if order == [] then []
    else
      var n := CountClaims(claims, order[0]);
      (if n > 0 then [(order[0], n)] else []) + ClaimGroups(claims, order[1..])
  }

  /** Every non-empty group among `order` has its row. */
  lemma {:induction false} ItemGroupsCover(items: map<string, Item>, order: seq<ItemStatus>, s: ItemStatus)
    requires s in order && CountItems(items, s) > 0
    ensures exists k :: 0 <= k < |ItemGroups(items, order)| && ItemGroups(items, order)[k] == (s, CountItems(items, s))
  {
    var rows := ItemGroups(items, order);
    var head: seq<(ItemStatus, nat)> := if CountItems(items, order[0]) > 0 then [(order[0], CountItems(items, order[0]))] else [];
    assert rows == head + ItemGroups(items, order[1..]);
    if s == order[0] {
      assert rows[0] == (s, CountItems(items, s));
    } else {
      ItemGroupsCover(items, order[1..], s);
      var k :| 0 <= k < |ItemGroups(items, order[1..])| && ItemGroups(items, order[1..])[k] == (s, CountItems(items, s));
      assert rows[|head| + k] == (s, CountItems(items, s));
    }
  }

  /** Every non-empty group among `order` has its row. */
  lemma {:induction false} ClaimGroupsCover(claims: map<string, Claim>, order: seq<ClaimStatus>, s: ClaimStatus)
    requires s in order && CountClaims(claims, s) > 0
    ensures exists k :: 0 <= k < |ClaimGroups(claims, order)| && ClaimGroups(claims, order)[k] == (s, CountClaims(claims, s))
  {
    var rows := ClaimGroups(claims, order);
    var head: seq<(ClaimStatus, nat)> := if CountClaims(claims, order[0]) > 0 then [(order[0], CountClaims(claims, order[0]))] else [];
    assert rows == head + ClaimGroups(claims, order[1..]);
    if s == order[0] {
      assert rows[0] == (s, CountClaims(claims, s));
    } else {
      ClaimGroupsCover(claims, order[1..], s);
      var k :| 0 <= k < |ClaimGroups(claims, order[1..])| && ClaimGroups(claims, order[1..])[k] == (s, CountClaims(claims, s));
      assert rows[|head| + k] == (s, CountClaims(claims, s));
    }
  }

  const AllItemStatuses: seq<ItemStatus> := [PendingApproval, Approved, Claimed, Rejected]
  const AllClaimStatuses: seq<ClaimStatus> := [ClaimPending, ClaimApproved, ClaimRejected]

  /**
   The dashboard counts: exactly the seven keys; each item status's key holds
   the number of items with that status and each `{status}_claims` key the
   number of claims with that status, zero when there are none.
   */
  method ComputeStats(t: Tables) returns (stats: map<StatKey, nat>)
    ensures stats.Keys == StatKeys
    ensures forall s :: ItemKey(s) in stats && stats[ItemKey(s)] == CountItems(t.items, s)
    ensures forall s :: ClaimKey(s) in stats && stats[ClaimKey(s)] == CountClaims(t.claims, s)
  {
    forall k ensures k in StatKeys {
      StatKeysComplete(k);
    }
    stats := map k | k in StatKeys :: 0;
    stats := WriteItemGroups(stats, t.items);
    stats := WriteClaimGroups(stats, t.claims);
  }

  /**
   The first loop of the stats handler: one write per row of the grouping of
   `items`, over a dictionary whose item entries are still zero. Afterwards
   every item status's entry holds its count; the claim entries are untouched.
   */
  method WriteItemGroups(zeroed: map<StatKey, nat>, items: map<string, Item>) returns (stats: map<StatKey, nat>)
    requires zeroed.Keys == StatKeys
    requires forall s :: ItemKey(s) in zeroed && zeroed[ItemKey(s)] == 0
    ensures stats.Keys == StatKeys
    ensures forall s :: ItemKey(s) in stats && stats[ItemKey(s)] == CountItems(items, s)
    ensures forall s :: ClaimKey(s) in stats && stats[ClaimKey(s)] == zeroed[ClaimKey(s)]
  {
    forall k ensures k in StatKeys {
      StatKeysComplete(k);
    }
    var rows := ItemGroups(items, AllItemStatuses);
    stats := zeroed;
    for i := 0 to |rows|
      invariant stats.Keys == StatKeys
      invariant forall s :: stats[ItemKey(s)] == 0 || stats[ItemKey(s)] == CountItems(items, s)
      invariant forall k :: 0 <= k < i ==> stats[ItemKey(rows[k].0)] == rows[k].1
      invariant forall s :: stats[ClaimKey(s)] == zeroed[ClaimKey(s)]
    {
      var (status, count) := rows[i];
      stats := stats[ItemKey(status) := count];
    }
    forall s ensures stats[ItemKey(s)] == CountItems(items, s) {
      if CountItems(items, s) > 0 {
        assert s in AllItemStatuses;
        ItemGroupsCover(items, AllItemStatuses, s);
      }
    }
  }

  /**
   The second loop of the stats handler: one write per row of the grouping
   of `claims`, to the key `{status}_claims`. Afterwards every claim status's
   entry holds its count; the item entries are untouched.
   */
  method WriteClaimGroups(zeroed: map<StatKey, nat>, claims: map<string, Claim>) returns (stats: map<StatKey, nat>)
    requires zeroed.Keys == StatKeys
    requires forall s :: ClaimKey(s) in zeroed && zeroed[ClaimKey(s)] == 0
    ensures stats.Keys == StatKeys
    ensures forall s :: ClaimKey(s) in stats && stats[ClaimKey(s)] == CountClaims(claims, s)
    ensures forall s :: ItemKey(s) in stats && stats[ItemKey(s)] == zeroed[ItemKey(s)]
  {
    forall k ensures k in StatKeys {
      StatKeysComplete(k);
    }
    var rows := ClaimGroups(claims, AllClaimStatuses);
    stats := zeroed;
    for j := 0 to |rows|
      invariant stats.Keys == StatKeys
      invariant forall s :: stats[ClaimKey(s)] == 0 || stats[ClaimKey(s)] == CountClaims(claims, s)
      invariant forall k :: 0 <= k < j ==> stats[ClaimKey(rows[k].0)] == rows[k].1
      invariant forall s :: stats[ItemKey(s)] == zeroed[ItemKey(s)]
    {
      var (status, count) := rows[j];
      stats := stats[ClaimKey(status) := count];
    }
    forall s ensures stats[ClaimKey(s)] == CountClaims(claims, s) {
      if CountClaims(claims, s) > 0 {
        assert s in AllClaimStatuses;
        ClaimGroupsCover(claims, AllClaimStatuses, s);
      }
    }
  }

  /** The four item counts add up to the number of items. */
  lemma ItemCountsSum(items: map<string, Item>)
    ensures CountItems(items, PendingApproval) + CountItems(items, Approved)
            + CountItems(items, Claimed) + CountItems(items, Rejected) == |items|
  {
    var p, a, c, r := ItemsWithStatus(items, PendingApproval), ItemsWithStatus(items, Approved),
                      ItemsWithStatus(items, Claimed), ItemsWithStatus(items, Rejected);
    assert items.Keys == p + a + c + r;
    assert |p + a| == |p| + |a| by { assert p * a == {}; }
    assert |p + a + c| == |p + a| + |c| by { assert (p + a) * c == {}; }
    assert |p + a + c + r| == |p + a + c| + |r| by { assert (p + a + c) * r == {}; }
  }

  /** The three claim counts add up to the number of claims. */
  lemma ClaimCountsSum(claims: map<string, Claim>)
    ensures CountClaims(claims, ClaimPending) + CountClaims(claims, ClaimApproved)
            + CountClaims(claims, ClaimRejected) == |claims|
  {
    var p, a, r := ClaimsWithStatus(claims, ClaimPending), ClaimsWithStatus(claims, ClaimApproved),
                   ClaimsWithStatus(claims, ClaimRejected);
    assert claims.Keys == p + a + r;
    assert |p + a| == |p| + |a| by { assert p * a == {}; }
    assert |p + a + r| == |p + a| + |r| by { assert (p + a) * r == {}; }
  }
}
