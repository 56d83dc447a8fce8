/**
 ORDER BY created_at over a table keyed by id. A table is unordered, so the
 queries pick an order: `stamp` gives each key its created_at value and the
 functions below list a set of keys oldest first or newest first. Rows with
 equal stamps may come in either order, as they may from the database.
 */
module Ordering {

  /** A key of `ks` whose stamp is no larger than any other in `ks`. */
  ghost function Oldest(stamp: map<string, nat>, ks: set<string>): (k: string)
    requires ks != {} && ks <= stamp.Keys
    ensures k in ks
    ensures forall j :: j in ks ==> stamp[k] <= stamp[j]
    decreases ks
  {
    var i :| i in ks;
    if ks == {i} then i
    else
      var o := Oldest(stamp, ks - {i});
      if stamp[i] <= stamp[o] then i else o
  }

  /** `r` lists every key of `ks` exactly once. */
  ghost predicate Lists(r: seq<string>, ks: set<string>)
  {
    && |r| == |ks|
    && (forall i :: 0 <= i < |r| ==> r[i] in ks)
    && (forall k :: k in ks ==> k in r)
    && (forall i, j :: 0 <= i < j < |r| ==> r[i] != r[j])
  }

  /** Putting a key in front of a list of the other keys lists them all. */
  lemma ListsCons(k: string, rest: seq<string>, ks: set<string>)
    requires k in ks && Lists(rest, ks - {k})
    ensures Lists([k] + rest, ks)
  {
    var r := [k] + rest;
    assert forall i :: 1 <= i < |r| ==> r[i] == rest[i - 1];
    forall x | x in ks ensures x in r {
      if x != k {
        assert x in rest;
      }
    }
  }

  /** Putting a key after a list of the other keys lists them all. */
  lemma ListsSnoc(rest: seq<string>, k: string, ks: set<string>)
    requires k in ks && Lists(rest, ks - {k})
    ensures Lists(rest + [k], ks)
  {
    var r := rest + [k];
    assert forall i :: 0 <= i < |rest| ==> r[i] == rest[i];
    forall x | x in ks ensures x in r {
      if x != k {
        assert x in rest;
      }
    }
  }

  /** A key stamped no later than every key of a sorted list may go in front of it. */
  lemma ConsAscending(stamp: map<string, nat>, k: string, rest: seq<string>)
    requires k in stamp && forall i :: 0 <= i < |rest| ==> rest[i] in stamp && stamp[k] <= stamp[rest[i]]
    requires forall i, j :: 0 <= i < j < |rest| ==> stamp[rest[i]] <= stamp[rest[j]]
    ensures forall i, j :: 0 <= i < j < |[k] + rest| ==> stamp[([k] + rest)[i]] <= stamp[([k] + rest)[j]]
  {
    var r := [k] + rest;
    forall i, j | 0 <= i < j < |r| ensures stamp[r[i]] <= stamp[r[j]] {
      assert r[j] == rest[j - 1];
      if i > 0 {
        assert r[i] == rest[i - 1];
      }
    }
  }

  /** A key stamped no later than every key of a newest-first list may go after it. */
  lemma SnocDescending(stamp: map<string, nat>, rest: seq<string>, k: string)
    requires k in stamp && forall i :: 0 <= i < |rest| ==> rest[i] in stamp && stamp[k] <= stamp[rest[i]]
    requires forall i, j :: 0 <= i < j < |rest| ==> stamp[rest[i]] >= stamp[rest[j]]
    ensures forall i, j :: 0 <= i < j < |rest + [k]| ==> stamp[(rest + [k])[i]] >= stamp[(rest + [k])[j]]
  {
    var r := rest + [k];
    forall i, j | 0 <= i < j < |r| ensures stamp[r[i]] >= stamp[r[j]] {
      assert r[i] == rest[i];
      if j < |rest| {
        assert r[j] == rest[j];
      }
    }
  }

  /** The keys of `ks`, each once, in ascending stamp order (ORDER BY created_at ASC). */
  ghost function Ascending(stamp: map<string, nat>, ks: set<string>): (r: seq<string>)
    requires ks <= stamp.Keys
    ensures Lists(r, ks)
    ensures forall i, j :: 0 <= i < j < |r| ==> stamp[r[i]] <= stamp[r[j]]
    decreases ks
  {
    if ks == {} then []
    else
      var k := Oldest(stamp, ks);
      var rest := Ascending(stamp, ks - {k});
      ListsCons(k, rest, ks);
      ConsAscending(stamp, k, rest);
      [k] + rest
  }

  /** The keys of `ks`, each once, in descending stamp order (ORDER BY created_at DESC). */
  ghost function Descending(stamp: map<string, nat>, ks: set<string>): (r: seq<string>)
    requires ks <= stamp.Keys
    ensures Lists(r, ks)
    ensures forall i, j :: 0 <= i < j < |r| ==> stamp[r[i]] >= stamp[r[j]]
    decreases ks
  {
    if ks == {} then []
    else
      var k := Oldest(stamp, ks);
      var rest := Descending(stamp, ks - {k});
      ListsSnoc(rest, k, ks);
      SnocDescending(stamp, rest, k);
      rest + [k]
  }

  /** A key stamped later than every other key comes first in the newest-first order. */
  lemma NewestComesFirst(stamp: map<string, nat>, ks: set<string>, n: string)
    requires ks <= stamp.Keys && n in ks
    requires forall j :: j in ks && j != n ==> stamp[j] < stamp[n]
    ensures Descending(stamp, ks)[0] == n
  {
    var r := Descending(stamp, ks);
    var p :| 0 <= p < |r| && r[p] == n;
  }

  /** A key stamped later than every other key comes last in the oldest-first order. */
  lemma NewestComesLast(stamp: map<string, nat>, ks: set<string>, n: string)
    requires ks <= stamp.Keys && n in ks
    requires forall j :: j in ks && j != n ==> stamp[j] < stamp[n]
    ensures Ascending(stamp, ks)[|ks| - 1] == n
  {
    var r := Ascending(stamp, ks);
    var p :| 0 <= p < |r| && r[p] == n;
  }
}
