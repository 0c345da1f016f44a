/**
 Cursor walks in terms of the rooms that stand in the tables they meet, given by each room's time of creation: how many
 calls a walk takes, and for which rooms every walk is free of losses.
 */
module RoomWalkRooms {
  import opened Outcomes
  import opened RoomTable
  import opened RoomsRepo
  import opened RoomWalk
  import Rfc3339

  /** created_at by room_id. */
  type Created = map<string, int>

  ghost predicate OnlyRooms(tables: seq<Table>, created: Created) {
    forall j, id :: 0 <= j < |tables| && id in tables[j] ==> id in created && tables[j][id].createdAt == created[id]
  }

  function KeyOf(created: Created, id: string): Key
    requires id in created
  {
    Key(created[id], id)
  }

  lemma CreatedOnce(tables: seq<Table>, created: Created)
    requires OnlyRooms(tables, created)
    ensures SameCreation(tables)
  {
    forall i, j, id | 0 <= i < |tables| && 0 <= j < |tables| && id in tables[i] && id in tables[j]
      ensures tables[i][id].createdAt == tables[j][id].createdAt
    {
      assert tables[i][id].createdAt == created[id] && tables[j][id].createdAt == created[id];
    }
  }

  // ---- how long a walk is ----

  predicate HasNext(r: Response) {
    r.Ok? && r.value.nextCursor != ""
  }

  predicate FullPage(r: Response, limit: int) {
    r.Ok? && |r.value.rooms| == limit
  }

  lemma NextMeansFull(sql: Sql, t: Table, f: Filter, limit: int, cursor: string)
    requires Sound(sql) && ValidRequest(f, limit)
    ensures var r := HandleList(sql, t, Request(f, limit, cursor)); HasNext(r) ==> FullPage(r, limit)
  {
    hide HandleList, Resolve, PageKeys, CursorOf;
    ResponseTo(sql, t, f, limit, cursor);
  }

  /** Every response but the last hands on a cursor and is a full page; without a next cursor the walk is over. */
  lemma {:induction false} FullUntilLast(sql: Sql, f: Filter, limit: int, tables: seq<Table>, cursor: string)
    requires Sound(sql) && ValidRequest(f, limit)
    ensures var rs := Responses(sql, f, limit, tables, cursor);
            && (forall i :: 0 <= i < |rs| - 1 ==> FullPage(rs[i], limit))
            && (rs != [] && HasNext(rs[|rs| - 1]) ==> |rs| == |tables| && FullPage(rs[|rs| - 1], limit))
            && (tables != [] ==> rs != [])
    decreases |tables|
  {
    hide HandleList, FullPage;
    if tables != [] {
      var r := HandleList(sql, tables[0], Request(f, limit, cursor));
      NextMeansFull(sql, tables[0], f, limit, cursor);
      if HasNext(r) {
        FullUntilLast(sql, f, limit, tables[1..], r.value.nextCursor);
      }
    }
  }

  function IdSet(rooms: seq<AdminRoom>): set<string> {
    set r | r in rooms :: r.roomId
  }

  lemma {:induction false} IdSetCount(rooms: seq<AdminRoom>)
    requires forall a, b :: 0 <= a < b < |rooms| ==> rooms[a].roomId != rooms[b].roomId
    ensures |IdSet(rooms)| == |rooms|
  {
    if rooms != [] {
      var n := |rooms| - 1;
      IdSetCount(rooms[..n]);
      assert rooms == rooms[..n] + [rooms[n]];
      assert IdSet(rooms) == IdSet(rooms[..n]) + {rooms[n].roomId};
    }
  }

  /** The rooms of the first m responses. */
  function SeenBy(rs: seq<Response>, m: nat): set<string>
    requires m <= |rs|
  {
    if m == 0 then {} else SeenBy(rs, m - 1) + if rs[m - 1].Ok? then IdSet(rs[m - 1].value.rooms) else {}
  }

  lemma {:induction false} SeenIsReturned(rs: seq<Response>, m: nat, id: string)
    requires m <= |rs| && id in SeenBy(rs, m)
    ensures exists i, a :: i < m && ReturnedAt(rs, i, a, id)
  {
    if id in SeenBy(rs, m - 1) {
      SeenIsReturned(rs, m - 1, id);
    } else {
      var r :| r in rs[m - 1].value.rooms && r.roomId == id;
      var a :| 0 <= a < |rs[m - 1].value.rooms| && rs[m - 1].value.rooms[a] == r;
      assert ReturnedAt(rs, m - 1, a, id);
    }
  }

  ghost predicate NeverTwice(rs: seq<Response>) {
    forall i, a, j, b, id :: ReturnedAt(rs, i, a, id) && ReturnedAt(rs, j, b, id) ==> i == j && a == b
  }

  lemma {:induction false} SeenCount(rs: seq<Response>, m: nat, limit: nat)
    requires m <= |rs| && NeverTwice(rs) && forall i :: 0 <= i < m ==> FullPage(rs[i], limit)
    ensures |SeenBy(rs, m)| == m * limit
  {
    if m > 0 {
      SeenCount(rs, m - 1, limit);
      var sooner, here := SeenBy(rs, m - 1), rs[m - 1].value.rooms;
      assert FullPage(rs[m - 1], limit);
      forall a, b | 0 <= a < b < |here| ensures here[a].roomId != here[b].roomId {
        assert ReturnedAt(rs, m - 1, a, here[a].roomId) && ReturnedAt(rs, m - 1, b, here[b].roomId);
      }
      IdSetCount(here);
      forall id | id in sooner ensures id !in IdSet(here) {
        SeenIsReturned(rs, m - 1, id);
        if r :| r in here && r.roomId == id {
          var a :| 0 <= a < |here| && here[a] == r;
          assert ReturnedAt(rs, m - 1, a, id);
        }
      }
      assert |sooner + IdSet(here)| == |sooner| + |IdSet(here)|;
      assert m * limit == (m - 1) * limit + limit;
    }
  }

  lemma Subset(a: set<string>, b: set<string>)
    requires a <= b
    ensures |a| <= |b|
  {
    assert b == a + (b - a);
  }

  lemma ReturnedStands(sql: Sql, f: Filter, limit: int, tables: seq<Table>, created: Created, i: int, a: int,
                       id: string)
    requires Sound(sql) && ValidRequest(f, limit) && OnlyRooms(tables, created)
    ensures ReturnedAt(Responses(sql, f, limit, tables, ""), i, a, id) ==> id in created
  {
    hide Responses, Walk, Shows;
    var rs, w := Responses(sql, f, limit, tables, ""), Walk(sql, f, limit, tables, None);
    if ReturnedAt(rs, i, a, id) {
      ResponsesFollow(sql, f, limit, tables, "", None);
      assert Shows(rs[i], tables[i], f, sql, w.pages[i]);
      RoomShown(sql, f, rs[i], tables[i], w.pages[i], a);
    }
  }

  lemma RoomShown(sql: Sql, f: Filter, r: Response, t: Table, page: seq<Key>, a: int)
    requires Shows(r, t, f, sql, page)
    ensures r.Ok? && |r.value.rooms| == |page|
    ensures 0 <= a < |page| ==> r.value.rooms[a].roomId in t
  {
    hide Matches, Matching, Rows;
    assert forall k :: k in page ==> k.roomId in t;
    RowIds(t, page);
    if 0 <= a < |page| {
      assert page[a] in page;
    }
  }

  lemma SeenWithin(sql: Sql, f: Filter, limit: int, tables: seq<Table>, created: Created, m: nat)
    requires Sound(sql) && ValidRequest(f, limit) && OnlyRooms(tables, created)
    ensures var rs := Responses(sql, f, limit, tables, "");
            NeverTwice(rs) && (m <= |rs| ==> |SeenBy(rs, m)| <= |created|)
  {
    CreatedOnce(tables, created);
    hide Responses, SeenBy, SameCreation, OnlyRooms;
    var rs := Responses(sql, f, limit, tables, "");
    forall i, a, j, b, id | ReturnedAt(rs, i, a, id) && ReturnedAt(rs, j, b, id) ensures i == j && a == b {
      NoRoomTwice(sql, f, limit, tables, i, a, j, b, id);
    }
    if m <= |rs| {
      forall id | id in SeenBy(rs, m) ensures id in created.Keys {
        SeenIsReturned(rs, m, id);
        var i, a :| i < m && ReturnedAt(rs, i, a, id);
        ReturnedStands(sql, f, limit, tables, created, i, a, id);
      }
      Subset(SeenBy(rs, m), created.Keys);
    }
  }

  lemma AtMostQuotient(m: nat, limit: nat, n: nat)
    requires 0 < limit && m * limit <= n
    ensures m <= n / limit
  {
    var q := n / limit;
    assert n < q * limit + limit == (q + 1) * limit;
    if q < m {
      ProductGrows(q + 1, m, limit);
    }
  }

  lemma ProductGrows(a: nat, b: nat, c: nat)
    requires a <= b
    ensures a * c <= b * c
  {
  }

  lemma PositiveLimit(f: Filter, limit: int)
    requires ValidRequest(f, limit)
    ensures 0 < limit
  {
  }

  /** A walk over tables of n rooms takes at most floor(n / limit) + 1 calls, and given that many it ends by itself. */
  lemma CallsBounded(sql: Sql, f: Filter, limit: int, tables: seq<Table>, created: Created)
    requires Sound(sql) && ValidRequest(f, limit) && OnlyRooms(tables, created)
    ensures var rs := Responses(sql, f, limit, tables, "");
            && |rs| <= |created| / limit + 1
            && (|tables| > |created| / limit ==> rs != [] && !HasNext(rs[|rs| - 1]))
  {
    hide Responses, SeenBy, FullPage, HasNext, OnlyRooms, NeverTwice, ValidRequest;
    var rs := Responses(sql, f, limit, tables, "");
    assert 0 < limit by { PositiveLimit(f, limit); }
    FullUntilLast(sql, f, limit, tables, "");
    if rs != [] {
      SeenWithin(sql, f, limit, tables, created, |rs| - 1);
      SeenCount(rs, |rs| - 1, limit);
      AtMostQuotient(|rs| - 1, limit, |created|);
      if HasNext(rs[|rs| - 1]) {
        SeenWithin(sql, f, limit, tables, created, |rs|);
        SeenCount(rs, |rs|, limit);
        AtMostQuotient(|rs|, limit, |created|);
      }
    }
  }

  // ---- which rooms can be lost ----

  /** The cursor of a room of this age can be read back. */
  predicate Readable(created: Created, id: string)
    requires id in created
  {
    Truncated(KeyOf(created, id)).Some?
  }

  /** A page that ends with b passes a over. */
  predicate Hides(sql: Sql, created: Created, b: string, a: string) {
    && a in created && b in created && Readable(created, b)
    && PassedOver(sql, KeyOf(created, a), KeyOf(created, b))
  }

  ghost predicate NoneHidden(sql: Sql, created: Created) {
    forall a, b :: !Hides(sql, created, b, a)
  }

  /** If the walk finishes, it returns this room if it matched throughout. */
  ghost predicate Returns(sql: Sql, f: Filter, limit: int, tables: seq<Table>, k: Key)
    requires Sound(sql)
  {
    var rs := Responses(sql, f, limit, tables, "");
    Finished(rs) && MatchesThroughout(sql, f, tables, |rs|, k) ==> IsReturned(rs, k.roomId)
  }

  /** No walk over tables of these rooms, with whatever filter and page size, loses one. */
  ghost predicate Lossless(sql: Sql, created: Created)
    requires Sound(sql)
  {
    forall f, limit, tables, k :: ValidRequest(f, limit) && OnlyRooms(tables, created) ==>
        Returns(sql, f, limit, tables, k)
  }

  /** The walk went on from every page but the last: its cursor was readable. */
  lemma {:induction false} WentOn(sql: Sql, f: Filter, limit: int, tables: seq<Table>, after: Option<Key>, i: nat)
    requires Sound(sql) && ValidRequest(f, limit) && i < |Walk(sql, f, limit, tables, after).pages| - 1
    ensures var page := Walk(sql, f, limit, tables, after).pages[i]; page != [] && Truncated(Last(page)).Some?
    decreases |tables|
  {
    hide PageKeys, Rfc3339.Representable;
    var page := PageKeys(sql, tables[0], f, after, limit);
    if i > 0 {
      WentOn(sql, f, limit, tables[1..], Truncated(Last(page)), i - 1);
    }
  }

  lemma NothingHidden(sql: Sql, f: Filter, limit: int, tables: seq<Table>, created: Created, k: Key)
    requires Sound(sql) && ValidRequest(f, limit) && OnlyRooms(tables, created) && NoneHidden(sql, created)
    ensures Returns(sql, f, limit, tables, k)
  {
    hide Responses, Walk, Shows, IsReturned, Matches, Matching, Truncated, PassedOver;
    var rs, w := Responses(sql, f, limit, tables, ""), Walk(sql, f, limit, tables, None);
    if Finished(rs) && MatchesThroughout(sql, f, tables, |rs|, k) {
      ReturnedExactly(sql, f, limit, tables, k);
      ResponsesFollow(sql, f, limit, tables, "", None);
      WalkDescends(sql, f, limit, tables, None);
      PassedOverIsSkipped(sql, f, tables, rs, w.pages, limit, k);
      assert k in Matching(sql, f, tables[0]);
      Stands(sql, f, tables[0], k);
      forall i | 0 <= i < |w.pages| - 1 ensures w.pages[i] != [] && !PassedOver(sql, k, Last(w.pages[i])) {
        WentOn(sql, f, limit, tables, None, i);
        StandingLast(sql, f, rs[i], tables[i], w.pages[i]);
        assert !Hides(sql, created, Last(w.pages[i]).roomId, k.roomId);
      }
      assert NeverPassedOver(sql, w.pages, k);
    }
  }

  // ---- a walk over two rooms that loses one ----

  function PlainRoom(createdAt: int): Room {
    Room(None, "", "public", "active", createdAt, None, 0, None, None)
  }

  const ALL := Filter("", "")

  function TwoRooms(created: Created, a: string, b: string): Table
    requires a in created && b in created
  {
    map[a := PlainRoom(created[a]), b := PlainRoom(created[b])]
  }

  lemma TwoRoomPages(sql: Sql, created: Created, a: string, b: string)
    requires Sound(sql) && Hides(sql, created, b, a)
    ensures var t := TwoRooms(created, a, b);
            && a != b && Matching(sql, ALL, t) == {KeyOf(created, a), KeyOf(created, b)}
            && PageKeys(sql, t, ALL, None, 1) == [KeyOf(created, b)]
            && PageKeys(sql, t, ALL, Truncated(KeyOf(created, b)), 1) == []
  {
    hide Listing, Rfc3339.Representable;
    var t := TwoRooms(created, a, b);
    var x, y := KeyOf(created, a), KeyOf(created, b);
    var keys := Matching(sql, ALL, t);
    assert a in t && b in t;
    assert keys == {x, y};
    assert Restrict(sql, keys, None) == keys;
    ListingDescends(sql, keys);
    assert Descending(sql, [y, x]);
    DescendingUnique(sql, Listing(sql, keys), [y, x]);
    assert Restrict(sql, keys, Truncated(y)) == {};
  }

  lemma TwoRoomWalk(sql: Sql, created: Created, a: string, b: string)
    requires Sound(sql) && Hides(sql, created, b, a)
    ensures var t := TwoRooms(created, a, b);
            Walk(sql, ALL, 1, [t, t], None) == KeyWalk([[KeyOf(created, b)], []], true)
  {
    var t := TwoRooms(created, a, b);
    TwoRoomPages(sql, created, a, b);
    hide PageKeys, Truncated, TwoRooms;
    assert [t, t][1..] == [t] && [t][1..] == [];
    assert Walk(sql, ALL, 1, [t], Truncated(KeyOf(created, b))) == KeyWalk([[]], true);
  }

  /** The first page ends with b, the second starts below b's second: a is never returned. */
  lemma HiddenIsLost(sql: Sql, created: Created, a: string, b: string)
    requires Sound(sql) && Hides(sql, created, b, a)
    ensures var t := TwoRooms(created, a, b);
            && OnlyRooms([t, t], created)
            && !Returns(sql, ALL, 1, [t, t], KeyOf(created, a))
  {
    hide Responses, Walk, Matches, Truncated, PassedOver, Shows;
    var t := TwoRooms(created, a, b);
    var tables, k := [t, t], KeyOf(created, a);
    var rs, w := Responses(sql, ALL, 1, tables, ""), Walk(sql, ALL, 1, tables, None);
    TwoRoomPages(sql, created, a, b);
    TwoRoomWalk(sql, created, a, b);
    ResponsesFollow(sql, ALL, 1, tables, "", None);
    WalkDescends(sql, ALL, 1, tables, None);
    ReturnedExactly(sql, ALL, 1, tables, k);
    PassedOverIsSkipped(sql, ALL, tables, rs, w.pages, 1, k);
    assert w.pages[0] == [KeyOf(created, b)] && Last(w.pages[0]) == KeyOf(created, b);
    assert !NeverPassedOver(sql, w.pages, k);
    assert MatchesThroughout(sql, ALL, tables, |rs|, k);
  }

  /**
   Every finished walk over tables of these rooms returns everything that matched throughout if and only if there are no
   two rooms of which one lies below the other without lying below the other's whole second.
   */
  lemma LosslessExactly(sql: Sql, created: Created)
    requires Sound(sql)
    ensures Lossless(sql, created) <==> NoneHidden(sql, created)
  {
    hide Returns, Hides, TwoRooms;
    if NoneHidden(sql, created) {
      forall f, limit, tables, k | ValidRequest(f, limit) && OnlyRooms(tables, created)
        ensures Returns(sql, f, limit, tables, k)
      {
        NothingHidden(sql, f, limit, tables, created, k);
      }
    } else {
      var a, b :| Hides(sql, created, b, a);
      InTable(sql, created, a, b);
      HiddenIsLost(sql, created, a, b);
      assert ValidRequest(ALL, 1);
    }
  }

  lemma InTable(sql: Sql, created: Created, a: string, b: string)
    requires Hides(sql, created, b, a)
    ensures a in created && b in created
  {
  }

  // ---- walks that finish ----

  lemma {:induction false} NoErrors(sql: Sql, f: Filter, limit: int, tables: seq<Table>, created: Created,
                                    after: Option<Key>)
    requires Sound(sql) && ValidRequest(f, limit) && OnlyRooms(tables, created)
    requires forall id :: id in created ==> Readable(created, id)
    ensures var w := Walk(sql, f, limit, tables, after); w.finished || |w.pages| == |tables|
    decreases |tables|
  {
    hide PageKeys, Truncated, Matches;
    if tables != [] {
      var page := PageKeys(sql, tables[0], f, after, limit);
      if |page| == limit {
        var last := Last(page);
        assert last in page;
        Stands(sql, f, tables[0], last);
        assert Readable(created, last.roomId);
        NoErrors(sql, f, limit, tables[1..], created, Truncated(last));
      }
    }
  }

  /**
   With readable cursors and enough calls a walk finishes; if no room hides another it has returned every room that
   matched throughout.
   */
  lemma WalkFinishes(sql: Sql, f: Filter, limit: int, tables: seq<Table>, created: Created, k: Key)
    requires Sound(sql) && ValidRequest(f, limit) && OnlyRooms(tables, created)
    requires forall id :: id in created ==> Readable(created, id)
    requires |tables| > |created| / limit
    ensures var rs := Responses(sql, f, limit, tables, "");
            && Finished(rs) && |rs| <= |created| / limit + 1
            && (NoneHidden(sql, created) && MatchesThroughout(sql, f, tables, |rs|, k) ==> IsReturned(rs, k.roomId))
  {
    hide Responses, Walk, Readable, IsReturned, Hides;
    CallsBounded(sql, f, limit, tables, created);
    NoErrors(sql, f, limit, tables, created, None);
    ResponsesFollow(sql, f, limit, tables, "", None);
    if NoneHidden(sql, created) {
      NothingHidden(sql, f, limit, tables, created, k);
    }
  }
}
