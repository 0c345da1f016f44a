/**
 What one request for a list of rooms is answered, stated on the rooms table and the request themselves: which requests
 are refused, which rooms an answer lists and in what order, and what each entry says.
 */
module RoomListing {
  import opened Outcomes
  import opened RoomTable
  import opened RoomQuery
  import opened RoomsRepo
  import Pagination
  import Rfc3339

  /** Every refusal and its cause; nothing else is refused. */
  lemma RefusedExactly(sql: Sql, t: Table, p: ListParams)
    requires Sound(sql)
    ensures var r := HandleList(sql, t, p);
            var limit := if p.limit.Some? then p.limit.value else 20;
            var limited := 1 <= limit <= 100;
            var decoded := Pagination.DecodeCursor(if p.cursor.Some? then p.cursor.value else "");
            var first := p.cursor.None? || p.cursor.value == "";
            var known := p.status.None? || p.status.value in {"", "active", "archived"};
            && (r == Err(LimitOutOfRange) <==> !limited)
            && (r == Err(InvalidCursor) <==> limited && !first && decoded.Err?)
            && (r == Err(InvalidStatus) <==> limited && (first || decoded.Ok?) && !known)
            && (r == Err(InvalidAfterCreatedAt)
                <==> limited && known && !first && decoded.Ok? && Rfc3339.Parse(decoded.value.1).None?)
            && r != Err(QueryFailed)
  {
    hide Rfc3339.Parse;
    if p.cursor.Some? {
      Pagination.DecodedNotEmpty(p.cursor.value);
    }
    hide Pagination.DecodeCursor, PageAfter;
  }

  /** An answered request by its parts. */
  lemma Answered(sql: Sql, t: Table, p: ListParams) returns (f: Filter, after: Option<Key>, limit: nat)
    requires Sound(sql)
    ensures HandleList(sql, t, p).Ok? ==>
              && f.search == (if p.search.Some? then p.search.value else "")
              && f.status == (if p.status.Some? then p.status.value else "")
              && limit == (if p.limit.Some? then p.limit.value else 20) && 1 <= limit <= 100
              && (if p.cursor.None? || p.cursor.value == "" then after == None
                  else
                    && Pagination.DecodeCursor(p.cursor.value).Ok?
                    && var (id, createdAt) := Pagination.DecodeCursor(p.cursor.value).value;
                       && Rfc3339.Parse(createdAt).Some? && after == Some(Key(Rfc3339.Parse(createdAt).value, id)))
              && HandleList(sql, t, p).value == PageAfter(sql, t, f, after, limit)
  {
    hide Rfc3339.Parse;
    if p.cursor.Some? {
      Pagination.DecodedNotEmpty(p.cursor.value);
    }
    hide Pagination.DecodeCursor, PageAfter;
    f := Filter(if p.search.Some? then p.search.value else "", if p.status.Some? then p.status.value else "");
    limit := if p.limit.Some? && p.limit.value >= 0 then p.limit.value else 20;
    var position := Resolve(if p.cursor.Some? then p.cursor.value else "");
    after := if position.Ok? then position.value else None;
  }

  /** Each entry says what is stored under its id. */
  lemma EntriesAreStored(sql: Sql, t: Table, p: ListParams, e: AdminRoom)
    requires Sound(sql)
    ensures HandleList(sql, t, p).Ok? && e in HandleList(sql, t, p).value.rooms ==>
              && e.roomId in t
              && var r := t[e.roomId];
                 && e.name == (if r.name.Some? then r.name.value else "")
                 && e.creatorUserId == (if r.creatorUserId.Some? then r.creatorUserId.value else "")
                 && e.topic == r.topic && e.visibility == r.visibility && e.status == r.status
                 && Rfc3339.Parse(e.createdAt)
                    == if 0 < r.createdAt && r.createdAt / 1000 < 253402300800
                       then Some(r.createdAt - r.createdAt % 1000) else None
  {
    hide Rfc3339.Parse, HandleList, PageAfter;
    if HandleList(sql, t, p).Ok? && e in HandleList(sql, t, p).value.rooms {
      var f, after, limit := Answered(sql, t, p);
      PageEntries(sql, t, f, after, limit);
    }
  }

  lemma PageEntries(sql: Sql, t: Table, f: Filter, after: Option<Key>, limit: nat)
    requires Sound(sql)
    ensures var rooms := PageAfter(sql, t, f, after, limit).rooms;
            forall i :: 0 <= i < |rooms| ==> IsEntry(t, rooms[i])
  {
    PageIs(sql, t, f, after, limit);
    hide IsEntry, Row, PageKeys, Restrict, Matching, Listing, Take;
    RowsAreEntries(t, PageKeys(sql, t, f, after, limit));
  }

  /**
   A room is listed if and only if it matches the search and the status, lies below the cursor's position, and is not
   below every entry of a full page.
   */
  lemma ListedExactly(sql: Sql, t: Table, p: ListParams, id: string)
    requires Sound(sql) && HandleList(sql, t, p).Ok? && id in t
    ensures var rooms, r := HandleList(sql, t, p).value.rooms, t[id];
            (exists i :: 0 <= i < |rooms| && rooms[i].roomId == id)
            <==> && (p.search.Some? && p.search.value != "" ==> r.name.Some? && sql.ilike(r.name.value, p.search.value))
                 && (p.status.Some? && p.status.value != "" ==> r.status == p.status.value)
                 && (p.cursor.Some? && p.cursor.value != "" ==>
                       && Pagination.DecodeCursor(p.cursor.value).Ok?
                       && var (afterId, createdAt) := Pagination.DecodeCursor(p.cursor.value).value;
                          && Rfc3339.Parse(createdAt).Some?
                          && var ms := Rfc3339.Parse(createdAt).value;
                             || r.createdAt < ms
                             || (r.createdAt == ms && sql.collate(id) < sql.collate(afterId)))
                 && !(&& |rooms| == (if p.limit.Some? then p.limit.value else 20)
                      && forall i :: 0 <= i < |rooms| ==>
                           && rooms[i].roomId in t
                           && var above := t[rooms[i].roomId];
                              || r.createdAt < above.createdAt
                              || (r.createdAt == above.createdAt && sql.collate(id) < sql.collate(rooms[i].roomId)))
  {
    hide Rfc3339.Parse, Pagination.DecodeCursor, HandleList, PageAfter;
    var f, after, limit := Answered(sql, t, p);
    ListedOnPage(sql, t, f, after, limit, id);
  }

  lemma ListedOnPage(sql: Sql, t: Table, f: Filter, after: Option<Key>, limit: nat, id: string)
    requires Sound(sql) && id in t && limit > 0
    ensures var rooms, r := PageAfter(sql, t, f, after, limit).rooms, t[id];
            (exists i :: 0 <= i < |rooms| && rooms[i].roomId == id)
            <==> && Matches(sql, f, r) && (after.Some? ==> Below(sql, Key(r.createdAt, id), after.value))
                 && !(&& |rooms| == limit
                      && forall i :: 0 <= i < |rooms| ==>
                           && rooms[i].roomId in t
                           && Below(sql, Key(r.createdAt, id), Key(t[rooms[i].roomId].createdAt, rooms[i].roomId)))
  {
    hide PageAfter, PageKeys, Matches, Below;
    var all, keys := Restrict(sql, Matching(sql, f, t), after), PageKeys(sql, t, f, after, limit);
    var rooms, key := PageAfter(sql, t, f, after, limit).rooms, Key(t[id].createdAt, id);
    PageIs(sql, t, f, after, limit);
    MatchingIs(sql, f, t, id);
    ListedAmong(sql, all, limit, key);
    hide Matching, Restrict, Listing, Take;
    PageRows(sql, t, f, after, limit);
    Holding(t, rooms, keys, id);
  }

  lemma Holding(t: Table, rooms: seq<AdminRoom>, keys: seq<Key>, id: string)
    requires id in t && |rooms| == |keys|
    requires forall i :: 0 <= i < |rooms| ==> rooms[i].roomId in t && keys[i] == KeyOf(t, rooms[i].roomId)
    ensures (exists i :: 0 <= i < |rooms| && rooms[i].roomId == id) <==> KeyOf(t, id) in keys
  {
    if KeyOf(t, id) in keys {
      var i :| 0 <= i < |keys| && keys[i] == KeyOf(t, id);
      assert rooms[i].roomId == id;
    }
    if i :| 0 <= i < |rooms| && rooms[i].roomId == id {
      assert keys[i] == KeyOf(t, id);
    }
  }

  function KeyOf(t: Table, id: string): Key
    requires id in t
  {
    Key(t[id].createdAt, id)
  }

  lemma PageRows(sql: Sql, t: Table, f: Filter, after: Option<Key>, limit: nat)
    requires Sound(sql)
    ensures var rooms, keys := PageAfter(sql, t, f, after, limit).rooms, PageKeys(sql, t, f, after, limit);
            && |rooms| == |keys|
            && forall i :: 0 <= i < |rooms| ==> rooms[i].roomId in t && keys[i] == KeyOf(t, rooms[i].roomId)
  {
    PageIs(sql, t, f, after, limit);
    hide PageKeys, Listing, Matching, Take;
    RowOf(t, PageKeys(sql, t, f, after, limit));
  }

  lemma RowOf(t: Table, keys: seq<Key>)
    requires forall k :: k in keys ==> k.roomId in t && k.createdAt == t[k.roomId].createdAt
    ensures |Rows(t, keys)| == |keys|
    ensures forall i :: 0 <= i < |keys| ==> Rows(t, keys)[i].roomId == keys[i].roomId
    ensures forall i :: 0 <= i < |keys| ==> keys[i].roomId in t && keys[i].createdAt == t[keys[i].roomId].createdAt
  {
    forall i | 0 <= i < |keys| ensures keys[i].roomId in t && keys[i].createdAt == t[keys[i].roomId].createdAt {
      assert keys[i] in keys;
    }
  }

  lemma PageIs(sql: Sql, t: Table, f: Filter, after: Option<Key>, limit: nat)
    requires Sound(sql)
    ensures var all, keys := Restrict(sql, Matching(sql, f, t), after), PageKeys(sql, t, f, after, limit);
            && keys == Take(Listing(sql, all), limit)
            && (forall k :: k in keys ==> k in all)
            && (forall k :: k in all ==> k.roomId in t && k.createdAt == t[k.roomId].createdAt)
  {
  }

  lemma MatchingIs(sql: Sql, f: Filter, t: Table, id: string)
    requires id in t
    ensures Key(t[id].createdAt, id) in Matching(sql, f, t) <==> Matches(sql, f, t[id])
  {
  }

  /** Among the rows in descending order, one is on the page unless the page is full of rows above it. */
  lemma ListedAmong(sql: Sql, all: set<Key>, limit: nat, key: Key)
    requires Sound(sql) && limit > 0
    ensures var keys := Take(Listing(sql, all), limit);
            key in keys
            <==> key in all && !(|keys| == limit && forall i :: 0 <= i < |keys| ==> Below(sql, key, keys[i]))
  {
    var s := Listing(sql, all);
    var keys := Take(s, limit);
    ListingDescends(sql, all);
    if key in s {
      var j :| 0 <= j < |s| && s[j] == key;
      if j < |keys| {
        assert keys[j] == key;
      } else {
        assert forall i :: 0 <= i < |keys| ==> keys[i] == s[i] && Below(sql, s[j], s[i]);
      }
    }
  }

  /**
   An answer is in descending order and keeps the limit, and it carries a cursor, that of its last entry, exactly if it
   is full.
   */
  lemma AnswerIs(sql: Sql, t: Table, p: ListParams)
    requires Sound(sql)
    ensures HandleList(sql, t, p).Ok? ==>
              var page := HandleList(sql, t, p).value;
              var limit := if p.limit.Some? then p.limit.value else 20;
              && 1 <= limit && |page.rooms| <= limit
              && (forall i :: 0 <= i < |page.rooms| ==> page.rooms[i].roomId in t)
              && (forall i, j :: 0 <= i < j < |page.rooms| ==>
                    var above, below := page.rooms[i].roomId, page.rooms[j].roomId;
                    || t[below].createdAt < t[above].createdAt
                    || (t[below].createdAt == t[above].createdAt && sql.collate(below) < sql.collate(above)))
              && page.nextCursor
                 == if |page.rooms| < limit then "" else
                      var last := page.rooms[limit - 1]; Pagination.EncodeCursor(last.roomId, last.createdAt)
  {
    hide Rfc3339.Parse, Pagination.DecodeCursor, HandleList, PageAfter, Pagination.EncodeCursor;
    if HandleList(sql, t, p).Ok? {
      var f, after, limit := Answered(sql, t, p);
      PageInOrder(sql, t, f, after, limit);
      PageCursor(sql, t, f, after, limit);
    }
  }

  /** The total counts what matches the search and the status, whatever the position. */
  lemma TotalIs(sql: Sql, t: Table, p: ListParams)
    requires Sound(sql)
    ensures HandleList(sql, t, p).Ok? ==>
              HandleList(sql, t, p).value.total
              == |set id | && id in t
                           && (p.search.Some? && p.search.value != "" ==>
                                 t[id].name.Some? && sql.ilike(t[id].name.value, p.search.value))
                           && (p.status.Some? && p.status.value != "" ==> t[id].status == p.status.value)|
  {
    hide Rfc3339.Parse, Pagination.DecodeCursor, HandleList, PageAfter, Matches;
    if HandleList(sql, t, p).Err? {
      return;
    }
    var f, after, limit := Answered(sql, t, p);
    PageCursor(sql, t, f, after, limit);
    Counted(sql, t, f);
    forall id | id in t
      ensures Matches(sql, f, t[id])
              <==> && (p.search.Some? && p.search.value != "" ==>
                         t[id].name.Some? && sql.ilike(t[id].name.value, p.search.value))
                   && (p.status.Some? && p.status.value != "" ==> t[id].status == p.status.value)
    {
      MatchesIs(sql, f, t[id]);
    }
    assert (set id | id in t && Matches(sql, f, t[id]))
        == set id | && id in t
                    && (p.search.Some? && p.search.value != "" ==>
                          t[id].name.Some? && sql.ilike(t[id].name.value, p.search.value))
                    && (p.status.Some? && p.status.value != "" ==> t[id].status == p.status.value);
  }

  lemma MatchesIs(sql: Sql, f: Filter, r: Room)
    ensures Matches(sql, f, r)
            <==> && (f.search != "" ==> r.name.Some? && sql.ilike(r.name.value, f.search))
                 && (f.status != "" ==> r.status == f.status)
  {
  }

  lemma PageInOrder(sql: Sql, t: Table, f: Filter, after: Option<Key>, limit: nat)
    requires Sound(sql)
    ensures var rooms := PageAfter(sql, t, f, after, limit).rooms;
            && |rooms| <= limit
            && (forall i :: 0 <= i < |rooms| ==> rooms[i].roomId in t)
            && (forall i, j :: 0 <= i < j < |rooms| ==>
                  Below(sql, KeyOf(t, rooms[j].roomId), KeyOf(t, rooms[i].roomId)))
  {
    hide PageAfter, Below;
    PageRows(sql, t, f, after, limit);
    PageIs(sql, t, f, after, limit);
    var all, keys := Restrict(sql, Matching(sql, f, t), after), PageKeys(sql, t, f, after, limit);
    ListingDescends(sql, all);
    hide Restrict, Matching, PageKeys, Listing, KeyOf;
    assert forall i :: 0 <= i < |keys| ==> keys[i] == Listing(sql, all)[i];
  }

  lemma PageCursor(sql: Sql, t: Table, f: Filter, after: Option<Key>, limit: nat)
    requires Sound(sql) && limit > 0
    ensures var page := PageAfter(sql, t, f, after, limit);
            page.nextCursor
            == if |page.rooms| < limit then ""
               else Pagination.EncodeCursor(page.rooms[limit - 1].roomId, page.rooms[limit - 1].createdAt)
    ensures PageAfter(sql, t, f, after, limit).total == |Matching(sql, f, t)|
  {
    hide PageKeys, Listing, Matching, Rfc3339.Format, Pagination.EncodeCursor;
    PageRows(sql, t, f, after, limit);
  }

  lemma Counted(sql: Sql, t: Table, f: Filter)
    ensures |Matching(sql, f, t)| == |set id | id in t && Matches(sql, f, t[id])|
  {
    hide Matches;
    var ids := set id | id in t && Matches(sql, f, t[id]);
    KeyPerId(ids, t);
    assert Matching(sql, f, t) == set id | id in ids :: Key(t[id].createdAt, id);
  }
}
