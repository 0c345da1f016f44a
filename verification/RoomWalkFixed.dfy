/**
 Cursor walks over a table that does not change: when the pages put together are the whole sorted list, and how many
 calls that takes.
 */
module RoomWalkFixed {
  import opened Outcomes
  import opened RoomTable
  import opened RoomsRepo
  import opened RoomWalk
  import Rfc3339

  function FullListing(sql: Sql, f: Filter, t: Table): seq<Key>
    requires Sound(sql)
  {
    Listing(sql, Matching(sql, f, t))
  }

  function KeyIds(keys: seq<Key>): seq<string> {
    seq(|keys|, i requires 0 <= i < |keys| => keys[i].roomId)
  }

  /**
   A page may end after the first `b` rows of the list: the last of them has a readable cursor, and the row after it
   lies below that row's whole second.
   */
  predicate SafeEnd(sql: Sql, full: seq<Key>, b: nat)
    requires 1 <= b <= |full|
  {
    && Truncated(full[b - 1]).Some?
    && (b < |full| ==> Below(sql, full[b], Truncated(full[b - 1]).value))
  }

  predicate SafeFrom(sql: Sql, full: seq<Key>, j: nat, limit: nat)
    requires j <= |full| && 0 < limit
    decreases |full| - j
  {
    if j + limit > |full| then true else SafeEnd(sql, full, j + limit) && SafeFrom(sql, full, j + limit, limit)
  }

  function Flatten(pages: seq<seq<Key>>): seq<Key> {
    if pages == [] then [] else pages[0] + Flatten(pages[1..])
  }

  lemma {:induction false} InFlatten(pages: seq<seq<Key>>, k: Key)
    requires k in Flatten(pages)
    ensures exists i :: 0 <= i < |pages| && k in pages[i]
  {
    if k in pages[0] {
    } else {
      assert k in Flatten(pages[1..]);
      InFlatten(pages[1..], k);
      var i :| 0 <= i < |pages[1..]| && k in pages[1..][i];
      assert k in pages[i + 1];
    }
  }

  /** Enough calls for `n` rows: every full page and one short one. */
  function CallsNeeded(n: nat, limit: nat): nat
    requires 0 < limit
    decreases n
  {
    if n < limit then 1 else 1 + CallsNeeded(n - limit, limit)
  }

  lemma {:induction false} CallsNeededClosed(n: nat, limit: nat)
    requires 0 < limit
    ensures CallsNeeded(n, limit) == n / limit + 1
    decreases n
  {
    if n >= limit {
      CallsNeededClosed(n - limit, limit);
      DivideStep(n - limit, limit);
    } else {
      DivideSmall(n, limit);
    }
  }

  lemma DivideSmall(n: nat, d: nat)
    requires n < d
    ensures n / d == 0
  {
  }

  lemma AtLeastOnce(d: nat, k: int)
    requires k >= 1
    ensures d * k >= d
  {
  }

  lemma QuotientUnique(x: nat, d: nat, q: int, r: nat)
    requires r < d && x == d * q + r
    ensures x / d == q
  {
    var p := x / d;
    assert x == d * p + x % d;
    assert d * (p - q) == r - x % d && d * (q - p) == x % d - r;
    if p > q {
      AtLeastOnce(d, p - q);
    } else if p < q {
      AtLeastOnce(d, q - p);
    }
  }

  lemma DivideStep(n: nat, d: nat)
    requires 0 < d
    ensures (n + d) / d == n / d + 1
  {
    QuotientUnique(n + d, d, n / d + 1, n % d);
  }

  lemma {:induction false} FixedKeyWalk(sql: Sql, f: Filter, limit: int, t: Table, tables: seq<Table>,
                                        after: Option<Key>, j: nat)
    requires Sound(sql) && ValidRequest(f, limit)
    requires j <= |FullListing(sql, f, t)|
    requires Listing(sql, Restrict(sql, Matching(sql, f, t), after)) == FullListing(sql, f, t)[j..]
    requires |tables| >= CallsNeeded(|FullListing(sql, f, t)| - j, limit)
    requires forall i :: 0 <= i < |tables| ==> tables[i] == t
    ensures var full, w := FullListing(sql, f, t), Walk(sql, f, limit, tables, after);
            && (w.finished && Flatten(w.pages) == full[j..] <==> SafeFrom(sql, full, j, limit))
            && (SafeFrom(sql, full, j, limit) ==> |w.pages| == CallsNeeded(|full| - j, limit))
    decreases |tables|
  {
    hide Matching, Listing, Restrict, Truncated, Walk, PageKeys, SafeEnd, Flatten, Ordered, Last;
    var full, w := FullListing(sql, f, t), Walk(sql, f, limit, tables, after);
    FixedPage(sql, f, limit, t, after, full, j);
    WalkUnfolds(sql, f, limit, tables, after);
    if j + limit > |full| {
      OnePage(full[j..]);
    } else {
      var b := j + limit;
      var position := Truncated(full[b - 1]);
      if position.Some? {
        var rest := Walk(sql, f, limit, tables[1..], position);
        WalkDescends(sql, f, limit, tables[1..], position);
        assert Flatten(w.pages) == full[j..] <==> Flatten(rest.pages) == full[b..] by {
          FlattenStep(full[j..b], rest.pages);
          assert full[j..] == full[j..b] + full[b..];
          SameAfterPage(full[j..b], Flatten(rest.pages), full[b..]);
        }
        if SafeEnd(sql, full, b) {
          PositionBelow(sql, Matching(sql, f, t), b);
          FixedKeyWalk(sql, f, limit, t, tables[1..], position, b);
        } else {
          MissesNext(sql, full, rest.pages, limit, b);
        }
      } else {
        NoPosition(sql, full, b);
      }
    }
  }

  lemma NoPosition(sql: Sql, full: seq<Key>, b: nat)
    requires 1 <= b <= |full| && Truncated(full[b - 1]).None?
    ensures !SafeEnd(sql, full, b)
  {
    hide Truncated;
  }

  lemma FixedPage(sql: Sql, f: Filter, limit: int, t: Table, after: Option<Key>, full: seq<Key>, j: nat)
    requires Sound(sql) && ValidRequest(f, limit) && j <= |full|
    requires Listing(sql, Restrict(sql, Matching(sql, f, t), after)) == full[j..]
    ensures PageKeys(sql, t, f, after, limit) == if j + limit > |full| then full[j..] else full[j..j + limit]
    ensures j + limit <= |full| ==> Last(full[j..j + limit]) == full[j + limit - 1]
  {
    hide Matching, Restrict, Listing;
    var rest := full[j..];
    if j + limit <= |full| {
      assert rest[..limit] == full[j..j + limit];
    }
  }

  lemma WalkUnfolds(sql: Sql, f: Filter, limit: int, tables: seq<Table>, after: Option<Key>)
    requires Sound(sql) && ValidRequest(f, limit) && tables != []
    ensures var page, w := PageKeys(sql, tables[0], f, after, limit), Walk(sql, f, limit, tables, after);
            && (|page| < limit ==> w == KeyWalk([page], true))
            && (|page| == limit && Truncated(Last(page)).None? ==> w == KeyWalk([page], false))
            && (|page| == limit && Truncated(Last(page)).Some? ==>
                  var rest := Walk(sql, f, limit, tables[1..], Truncated(Last(page)));
                  w == KeyWalk([page] + rest.pages, rest.finished))
  {
    hide PageKeys, Truncated;
  }

  lemma OnePage(page: seq<Key>)
    ensures Flatten([page]) == page
  {
    assert Flatten([page]) == page + Flatten([]);
  }

  lemma FlattenStep(page: seq<Key>, rest: seq<seq<Key>>)
    ensures Flatten([page] + rest) == page + Flatten(rest)
  {
    assert ([page] + rest)[1..] == rest;
  }

  lemma SameAfterPage(page: seq<Key>, x: seq<Key>, y: seq<Key>)
    ensures page + x == page + y <==> x == y
  {
    assert (page + x)[|page|..] == x && (page + y)[|page|..] == y;
  }

  /** From a safe end the rows below the position are the rest of the list. */
  lemma PositionBelow(sql: Sql, keys: set<Key>, b: nat)
    requires Sound(sql) && 1 <= b <= |keys| && SafeEnd(sql, Listing(sql, keys), b)
    ensures var full := Listing(sql, keys);
            Listing(sql, Restrict(sql, keys, Truncated(full[b - 1]))) == full[b..]
  {
    hide Rfc3339.Representable;
    var full := Listing(sql, keys);
    ListingDescends(sql, keys);
    ListingBelow(sql, keys, Truncated(full[b - 1]).value, b);
  }

  /** From an unsafe end the very next row is never returned. */
  lemma MissesNext(sql: Sql, full: seq<Key>, pages: seq<seq<Key>>, limit: int, b: nat)
    requires 1 <= b <= |full| && !SafeEnd(sql, full, b) && Truncated(full[b - 1]).Some?
    requires Ordered(sql, pages, Truncated(full[b - 1]), limit)
    ensures Flatten(pages) != full[b..]
  {
    hide Truncated;
    var position := Truncated(full[b - 1]);
    forall k | k in Flatten(pages) ensures Below(sql, k, position.value) {
      InFlatten(pages, k);
      var i :| 0 <= i < |pages| && k in pages[i];
      assert AllBelow(sql, pages[i], position);
    }
    assert full[b..][0] == full[b];
    assert full[b] in full[b..];
  }

  // ---- the same in terms of responses ----

  lemma {:induction false} ReturnedIds(sql: Sql, f: Filter, tables: seq<Table>, rs: seq<Response>, pages: seq<seq<Key>>)
    requires |pages| == |rs| <= |tables|
    requires forall i :: 0 <= i < |pages| ==> Shows(rs[i], tables[i], f, sql, pages[i])
    ensures Returned(rs) == KeyIds(Flatten(pages))
    decreases |rs|
  {
    hide Shows, KeyIds, Ids;
    if rs != [] {
      var later := pages[1..];
      forall i | 0 <= i < |later| ensures Shows(rs[1..][i], tables[1..][i], f, sql, later[i]) {
        assert Shows(rs[i + 1], tables[i + 1], f, sql, pages[i + 1]);
      }
      ReturnedIds(sql, f, tables[1..], rs[1..], later);
      ShownIds(rs[0], tables[0], f, sql, pages[0]);
      KeyIdsAppend(pages[0], Flatten(later));
    } else {
      KeyIdsOfNone();
    }
  }

  lemma ShownIds(r: Response, t: Table, f: Filter, sql: Sql, page: seq<Key>)
    requires Shows(r, t, f, sql, page)
    ensures r.Ok? && Ids(r.value.rooms) == KeyIds(page)
  {
    hide Matches;
  }

  lemma KeyIdsAppend(a: seq<Key>, b: seq<Key>)
    ensures KeyIds(a + b) == KeyIds(a) + KeyIds(b)
  {
  }

  lemma KeyIdsOfNone()
    ensures KeyIds([]) == []
  {
  }

  /** Rows of one table with the same ids are the same rows. */
  lemma IdsDecide(t: Table, a: seq<Key>, b: seq<Key>)
    requires Standing(t, a) && Standing(t, b)
    ensures KeyIds(a) == KeyIds(b) <==> a == b
  {
    if KeyIds(a) == KeyIds(b) {
      assert |a| == |b|;
      forall i | 0 <= i < |a| ensures a[i] == b[i] {
        assert KeyIds(a)[i] == KeyIds(b)[i];
        assert a[i] in a && b[i] in b;
      }
    }
  }

  /** The walk ends by itself having returned the whole sorted list. */
  predicate Complete(sql: Sql, f: Filter, t: Table, rs: seq<Response>)
    requires Sound(sql)
  {
    Finished(rs) && Returned(rs) == KeyIds(FullListing(sql, f, t))
  }

  function Repeat(t: Table, n: nat): seq<Table> {
    seq(n, _ => t)
  }

  /** A walk over a fixed table, given at least as many calls as floor(n / limit) + 1. */
  function FixedWalk(sql: Sql, f: Filter, limit: int, t: Table, spare: nat): seq<Response>
    requires Sound(sql) && ValidRequest(f, limit)
  {
    Responses(sql, f, limit, Repeat(t, CallsNeeded(|FullListing(sql, f, t)|, limit) + spare), "")
  }

  /**
   The concatenated pages are the sorted list of all n matching rooms exactly if every page end is safe; the walk then
   makes floor(n / limit) + 1 calls, and each of them reports the total n.
   */
  lemma FixedTableWalk(sql: Sql, f: Filter, limit: int, t: Table, spare: nat)
    requires Sound(sql) && ValidRequest(f, limit)
    ensures var full, rs := FullListing(sql, f, t), FixedWalk(sql, f, limit, t, spare);
            && (Complete(sql, f, t, rs) <==> SafeFrom(sql, full, 0, limit))
            && (Complete(sql, f, t, rs) ==>
                  |rs| == |full| / limit + 1 && forall i :: 0 <= i < |rs| ==> rs[i].Ok? && rs[i].value.total == |full|)
  {
    hide Responses, Walk, Matching, SafeFrom, CallsNeeded, Listing, Follow, Complete;
    var full := FullListing(sql, f, t);
    var tables := Repeat(t, CallsNeeded(|full|, limit) + spare);
    assert Restrict(sql, Matching(sql, f, t), None) == Matching(sql, f, t);
    assert full[0..] == full;
    ResponsesFollow(sql, f, limit, tables, "", None);
    FixedKeyWalk(sql, f, limit, t, tables, None, 0);
    CallsNeededClosed(|full|, limit);
    FixedResponses(sql, f, t, tables, Responses(sql, f, limit, tables, ""), Walk(sql, f, limit, tables, None));
  }

  /** What the responses tell of a walk over one table: whether it was complete, how long it was, and the totals. */
  lemma FixedResponses(sql: Sql, f: Filter, t: Table, tables: seq<Table>, rs: seq<Response>, w: KeyWalk)
    requires Sound(sql) && Follow(sql, f, tables, rs, w) && forall i :: 0 <= i < |tables| ==> tables[i] == t
    ensures w.finished ==> |rs| == |w.pages|
    ensures Complete(sql, f, t, rs) <==> w.finished && Flatten(w.pages) == FullListing(sql, f, t)
    ensures w.finished ==>
              forall i :: 0 <= i < |rs| ==> rs[i].Ok? && rs[i].value.total == |FullListing(sql, f, t)|
  {
    hide Shows, FullListing, Matches;
    if w.finished {
      ReturnedIds(sql, f, tables, rs, w.pages);
      FlattenStands(sql, f, t, tables, rs, w.pages);
      FullStands(sql, f, t);
      IdsDecide(t, Flatten(w.pages), FullListing(sql, f, t));
      forall i | 0 <= i < |rs| ensures rs[i].Ok? && rs[i].value.total == |FullListing(sql, f, t)| {
        TotalShown(rs[i], tables[i], f, sql, w.pages[i]);
      }
    }
  }

  lemma TotalShown(r: Response, t: Table, f: Filter, sql: Sql, page: seq<Key>)
    requires Sound(sql) && Shows(r, t, f, sql, page)
    ensures r.Ok? && r.value.total == |FullListing(sql, f, t)|
  {
  }

  lemma FullStands(sql: Sql, f: Filter, t: Table)
    requires Sound(sql)
    ensures Standing(t, FullListing(sql, f, t))
  {
  }

  lemma FlattenStands(sql: Sql, f: Filter, t: Table, tables: seq<Table>, rs: seq<Response>, pages: seq<seq<Key>>)
    requires |pages| <= |rs| <= |tables| && forall i :: 0 <= i < |tables| ==> tables[i] == t
    requires forall i :: 0 <= i < |pages| ==> Shows(rs[i], tables[i], f, sql, pages[i])
    ensures Standing(t, Flatten(pages))
  {
    hide Matches;
    forall k | k in Flatten(pages) ensures k.roomId in t && t[k.roomId].createdAt == k.createdAt {
      InFlatten(pages, k);
      var i :| 0 <= i < |pages| && k in pages[i];
      assert Shows(rs[i], tables[i], f, sql, pages[i]);
    }
  }

  // ---- every page size ----

  /** The list survives every page size exactly if a page may end after any of its rows. */
  lemma EveryPageSize(sql: Sql, f: Filter, t: Table, spare: nat)
    requires Sound(sql) && ValidRequest(f, 1)
    ensures var full := FullListing(sql, f, t);
            (forall limit :: 1 <= limit <= 100 ==> Complete(sql, f, t, FixedWalk(sql, f, limit, t, spare)))
            <==> (forall b :: 1 <= b <= |full| ==> SafeEnd(sql, full, b))
  {
    hide FixedWalk, Complete, FullListing, SafeEnd;
    var full := FullListing(sql, f, t);
    forall limit | 1 <= limit <= 100
      ensures Complete(sql, f, t, FixedWalk(sql, f, limit, t, spare)) <==> SafeFrom(sql, full, 0, limit)
    {
      FixedTableWalk(sql, f, limit, t, spare);
    }
    if forall b :: 1 <= b <= |full| ==> SafeEnd(sql, full, b) {
      forall limit | 1 <= limit <= 100 ensures SafeFrom(sql, full, 0, limit) {
        SafeEverywhere(sql, full, 0, limit);
      }
    }
    if forall limit :: 1 <= limit <= 100 ==> Complete(sql, f, t, FixedWalk(sql, f, limit, t, spare)) {
      assert Complete(sql, f, t, FixedWalk(sql, f, 1, t, spare));
      SafeByOnes(sql, full, 0);
    }
  }

  lemma {:induction false} SafeEverywhere(sql: Sql, full: seq<Key>, j: nat, limit: nat)
    requires j <= |full| && 0 < limit && forall b :: 1 <= b <= |full| ==> SafeEnd(sql, full, b)
    ensures SafeFrom(sql, full, j, limit)
    decreases |full| - j
  {
    hide SafeEnd;
    if j + limit <= |full| {
      SafeEverywhere(sql, full, j + limit, limit);
    }
  }

  lemma {:induction false} SafeByOnes(sql: Sql, full: seq<Key>, j: nat)
    requires j <= |full| && SafeFrom(sql, full, j, 1)
    ensures forall b :: j < b <= |full| ==> SafeEnd(sql, full, b)
    decreases |full| - j
  {
    hide SafeEnd;
    if j + 1 <= |full| {
      SafeByOnes(sql, full, j + 1);
    }
  }

  /** Rooms created on whole seconds, with ids that are not empty, are listed completely at every page size. */
  lemma WholeSecondsAreComplete(sql: Sql, f: Filter, limit: int, t: Table, spare: nat)
    requires Sound(sql) && ValidRequest(f, limit)
    requires forall id :: id in t && Matches(sql, f, t[id]) ==> id != "" && WholeSecond(t[id].createdAt)
    ensures Complete(sql, f, t, FixedWalk(sql, f, limit, t, spare))
  {
    hide FixedWalk, Complete, Matches, Rfc3339.Representable;
    var full := FullListing(sql, f, t);
    ListingDescends(sql, Matching(sql, f, t));
    forall b | 1 <= b <= |full| ensures SafeEnd(sql, full, b) {
      assert full[b - 1] in Matching(sql, f, t);
      assert Truncated(full[b - 1]) == Some(full[b - 1]);
    }
    SafeEverywhere(sql, full, 0, limit);
    FixedTableWalk(sql, f, limit, t, spare);
  }

  /**
   Any two rooms, the upper one listed first, on pages of one: the list is complete exactly if both cursors can be read
   back and the lower room lies below the upper one's whole second.
   */
  lemma TwoRoomsExactly(sql: Sql, f: Filter, upper: Key, lower: Key, t: Table, spare: nat)
    requires Sound(sql) && ValidRequest(f, 1) && Below(sql, lower, upper) && Matching(sql, f, t) == {upper, lower}
    ensures FullListing(sql, f, t) == [upper, lower]
    ensures Complete(sql, f, t, FixedWalk(sql, f, 1, t, spare))
            <==> Truncated(upper).Some? && Truncated(lower).Some? && !PassedOver(sql, lower, upper)
  {
    TwoListed(sql, f, upper, lower, t);
    hide FixedWalk, Complete, FullListing, Rfc3339.Representable;
    var full := [upper, lower];
    FixedTableWalk(sql, f, 1, t, spare);
    assert SafeFrom(sql, full, 0, 1) <==> SafeEnd(sql, full, 1) && SafeFrom(sql, full, 1, 1);
    assert SafeFrom(sql, full, 1, 1) <==> SafeEnd(sql, full, 2);
  }

  lemma TwoListed(sql: Sql, f: Filter, upper: Key, lower: Key, t: Table)
    requires Sound(sql) && Below(sql, lower, upper) && Matching(sql, f, t) == {upper, lower}
    ensures FullListing(sql, f, t) == [upper, lower]
  {
    ListingDescends(sql, {upper, lower});
    assert Descending(sql, [upper, lower]);
    DescendingUnique(sql, Listing(sql, {upper, lower}), [upper, lower]);
  }
}
