/**
 Whole cursor walks over ListAdminRooms: a client that asks for the first page and then follows next_cursor, each call
 meeting the rooms table as it is at that moment.

 The cursor carries created_at as a whole-second text, so the next page starts below the last row's second and not
 below its millisecond. No room is ever returned twice, but rows between the two positions are passed over; the
 theorems say exactly which rooms a walk returns and when it returns them all.
 */
module RoomWalk {
  import opened Outcomes
  import opened RoomTable
  import opened RoomsRepo
  import Pagination
  import Rfc3339

  predicate ValidRequest(f: Filter, limit: int) {
    1 <= limit <= 100 && (f.status == "" || f.status == "active" || f.status == "archived")
  }

  function Request(f: Filter, limit: int, cursor: string): ListParams {
    ListParams(Some(limit), Some(cursor), Some(f.search), Some(f.status))
  }

  type Response = Result<Page, ListError>

  /** One call per table; the walk stops at an error or at a page without a next cursor. */
  function Responses(sql: Sql, f: Filter, limit: int, tables: seq<Table>, cursor: string): (rs: seq<Response>)
    requires Sound(sql)
    ensures |rs| <= |tables|
    decreases |tables|
  {
    if tables == [] then []
    else
      var r := HandleList(sql, tables[0], Request(f, limit, cursor));
      if r.Ok? && r.value.nextCursor != "" then [r] + Responses(sql, f, limit, tables[1..], r.value.nextCursor) else [r]
  }

  predicate Finished(rs: seq<Response>) {
    rs != [] && rs[|rs| - 1].Ok? && rs[|rs| - 1].value.nextCursor == ""
  }

  function Ids(rooms: seq<AdminRoom>): seq<string> {
    seq(|rooms|, i requires 0 <= i < |rooms| => rooms[i].roomId)
  }

  /** All returned room ids, page after page. */
  function Returned(rs: seq<Response>): seq<string> {
    if rs == [] then []
    else (if rs[0].Ok? then Ids(rs[0].value.rooms) else []) + Returned(rs[1..])
  }

  // ---- the walk in terms of row positions ----

  /** The position a row's cursor stands for: its whole second and its id, if the cursor can be read back at all. */
  function Truncated(k: Key): Option<Key> {
    if k.roomId != "" && Rfc3339.Representable(k.createdAt) then Some(Key(k.createdAt - k.createdAt % 1000, k.roomId))
    else None
  }

  lemma CursorMeaning(k: Key)
    ensures CursorOf(k) != ""
    ensures match Truncated(k)
            case Some(c) => Resolve(CursorOf(k)) == Ok(Some(c))
            case None => Resolve(CursorOf(k)).Err?
  {
    hide Rfc3339.Format, Rfc3339.Parse, Pagination.EncodeCursor, Pagination.DecodeCursor;
    var stamp := Rfc3339.Format(k.createdAt);
    Pagination.EncodedCursorNotEmpty(k.roomId, stamp);
    Pagination.CursorRoundTrip(k.roomId, stamp);
    Rfc3339.TextKeepsWholeSeconds(k.createdAt);
  }

  lemma ResponseTo(sql: Sql, t: Table, f: Filter, limit: int, cursor: string)
    requires Sound(sql) && ValidRequest(f, limit)
    ensures HandleList(sql, t, Request(f, limit, cursor)) ==
            match Resolve(cursor)
            case Ok(after) => Ok(PageAfter(sql, t, f, after, limit))
            case Err(e) => Err(e)
  {
  }

  function Last(page: seq<Key>): Key
    requires page != []
  {
    page[|page| - 1]
  }

  /** The pages as row positions, and whether the last of them was short. */
  datatype KeyWalk = KeyWalk(pages: seq<seq<Key>>, finished: bool)

  function Walk(sql: Sql, f: Filter, limit: int, tables: seq<Table>, after: Option<Key>): (w: KeyWalk)
    requires Sound(sql) && ValidRequest(f, limit)
    ensures |w.pages| <= |tables|
    decreases |tables|
  {
    if tables == [] then KeyWalk([], false)
    else
      var page := PageKeys(sql, tables[0], f, after, limit);
      if |page| < limit then KeyWalk([page], true)
      else
        match Truncated(Last(page))
        case None => KeyWalk([page], false)
        case Some(position) =>
          var rest := Walk(sql, f, limit, tables[1..], Some(position));
          KeyWalk([page] + rest.pages, rest.finished)
  }

  /** The keys of rows that stand in the table. */
  predicate Standing(t: Table, page: seq<Key>) {
    forall k :: k in page ==> k.roomId in t && t[k.roomId].createdAt == k.createdAt
  }

  /** The page a response shows. */
  predicate Shows(r: Response, t: Table, f: Filter, sql: Sql, page: seq<Key>) {
    && r.Ok?
    && Standing(t, page)
    && (forall k :: k in page ==> Matches(sql, f, t[k.roomId]))
    && r.value.rooms == Rows(t, page)
    && r.value.total == |Matching(sql, f, t)|
  }

  /** Responses follow the row walk: its pages one by one, then possibly one error. */
  ghost predicate Follow(sql: Sql, f: Filter, tables: seq<Table>, rs: seq<Response>, w: KeyWalk) {
    && |w.pages| <= |rs| <= |w.pages| + 1 && |rs| <= |tables|
    && (forall i :: 0 <= i < |w.pages| ==> Shows(rs[i], tables[i], f, sql, w.pages[i]))
    && (|rs| == |w.pages| + 1 ==> rs[|w.pages|].Err?)
    && (Finished(rs) <==> w.finished)
  }

  lemma {:induction false} ResponsesFollow(sql: Sql, f: Filter, limit: int, tables: seq<Table>, cursor: string,
                                           after: Option<Key>)
    requires Sound(sql) && ValidRequest(f, limit)
    ensures Resolve(cursor) == Ok(after) ==>
              Follow(sql, f, tables, Responses(sql, f, limit, tables, cursor), Walk(sql, f, limit, tables, after))
    decreases |tables|
  {
    hide CursorOf, Resolve, HandleList, PageKeys, Truncated, Follow, Shows;
    if tables == [] {
      NobodyFollows(sql, f);
    } else if Resolve(cursor) == Ok(after) {
      var page := PageKeys(sql, tables[0], f, after, limit);
      var r := HandleList(sql, tables[0], Request(f, limit, cursor));
      FirstResponse(sql, f, limit, tables[0], cursor, after);
      if |page| == limit {
        var last := Last(page);
        var next := r.value.nextCursor;
        CursorMeaning(last);
        if Truncated(last).Some? {
          ResponsesFollow(sql, f, limit, tables[1..], next, Truncated(last));
          FollowStep(sql, f, tables, r, page, Responses(sql, f, limit, tables[1..], next),
                     Walk(sql, f, limit, tables[1..], Truncated(last)));
        } else if |tables| > 1 {
          ResponseTo(sql, tables[1], f, limit, next);
          var refused := HandleList(sql, tables[1], Request(f, limit, next));
          assert Responses(sql, f, limit, tables[1..], next) == [refused];
          FollowError(sql, f, tables, r, page, refused);
        } else {
          assert [r] + Responses(sql, f, limit, tables[1..], next) == [r];
          FollowOne(sql, f, tables, r, page);
        }
      } else {
        FollowOne(sql, f, tables, r, page);
      }
    }
  }

  lemma FirstResponse(sql: Sql, f: Filter, limit: int, t: Table, cursor: string, after: Option<Key>)
    requires Sound(sql) && ValidRequest(f, limit)
    ensures var page, r := PageKeys(sql, t, f, after, limit), HandleList(sql, t, Request(f, limit, cursor));
            Resolve(cursor) == Ok(after) ==>
              && r.Ok? && Shows(r, t, f, sql, page)
              && r.value.nextCursor == if |page| == limit then CursorOf(Last(page)) else ""
  {
    hide CursorOf, Resolve, HandleList, PageKeys;
    ResponseTo(sql, t, f, limit, cursor);
  }

  lemma NobodyFollows(sql: Sql, f: Filter)
    ensures Follow(sql, f, [], [], KeyWalk([], false))
  {
  }

  lemma FollowOne(sql: Sql, f: Filter, tables: seq<Table>, r: Response, page: seq<Key>)
    requires tables != [] && Shows(r, tables[0], f, sql, page)
    ensures Follow(sql, f, tables, [r], KeyWalk([page], r.value.nextCursor == ""))
  {
  }

  lemma FollowError(sql: Sql, f: Filter, tables: seq<Table>, r: Response, page: seq<Key>, refused: Response)
    requires |tables| > 1 && Shows(r, tables[0], f, sql, page) && refused.Err?
    ensures Follow(sql, f, tables, [r] + [refused], KeyWalk([page], false))
  {
    hide Shows;
  }

  lemma FollowStep(sql: Sql, f: Filter, tables: seq<Table>, r: Response, page: seq<Key>, more: seq<Response>,
                   rest: KeyWalk)
    requires tables != [] && Shows(r, tables[0], f, sql, page) && r.Ok? && r.value.nextCursor != ""
    requires Follow(sql, f, tables[1..], more, rest)
    ensures Follow(sql, f, tables, [r] + more, KeyWalk([page] + rest.pages, rest.finished))
  {
    hide Shows;
    var pages, rs := [page] + rest.pages, [r] + more;
    forall i | 0 <= i < |pages| ensures Shows(rs[i], tables[i], f, sql, pages[i]) {
      if i > 0 {
        assert Shows(more[i - 1], tables[1..][i - 1], f, sql, rest.pages[i - 1]);
      }
    }
  }

  // ---- order along a walk ----

  lemma BelowTransitive(sql: Sql, a: Key, b: Key, c: Key)
    requires Below(sql, a, b) && (Below(sql, b, c) || b == c)
    ensures Below(sql, a, c)
  {
  }

  ghost predicate AllBelow(sql: Sql, page: seq<Key>, after: Option<Key>) {
    after.Some? ==> forall k :: k in page ==> Below(sql, k, after.value)
  }

  lemma PageDescends(sql: Sql, t: Table, f: Filter, after: Option<Key>, limit: nat)
    requires Sound(sql)
    ensures Descending(sql, PageKeys(sql, t, f, after, limit))
    ensures AllBelow(sql, PageKeys(sql, t, f, after, limit), after)
  {
    ListingDescends(sql, Restrict(sql, Matching(sql, f, t), after));
  }

  ghost predicate EachBelow(sql: Sql, later: seq<Key>, earlier: seq<Key>) {
    forall a, b :: a in earlier && b in later ==> Below(sql, b, a)
  }

  ghost predicate Ordered(sql: Sql, pages: seq<seq<Key>>, after: Option<Key>, limit: int) {
    && (forall i :: 0 <= i < |pages| ==> Descending(sql, pages[i]) && AllBelow(sql, pages[i], after))
    && (forall i, j :: 0 <= i < j < |pages| ==> EachBelow(sql, pages[j], pages[i]))
    && (forall i :: 0 <= i < |pages| - 1 ==> |pages[i]| == limit)
  }

  /** Positions only go down: everything on a later page lies below everything on an earlier one. */
  lemma {:induction false} WalkDescends(sql: Sql, f: Filter, limit: int, tables: seq<Table>, after: Option<Key>)
    requires Sound(sql) && ValidRequest(f, limit)
    ensures Ordered(sql, Walk(sql, f, limit, tables, after).pages, after, limit)
    decreases |tables|
  {
    hide PageKeys, Rfc3339.Representable, Descending, AllBelow, Ordered;
    if tables != [] {
      var page := PageKeys(sql, tables[0], f, after, limit);
      PageDescends(sql, tables[0], f, after, limit);
      if |page| == limit && Truncated(Last(page)).Some? {
        var rest := Walk(sql, f, limit, tables[1..], Truncated(Last(page)));
        WalkDescends(sql, f, limit, tables[1..], Truncated(Last(page)));
        OrderedStep(sql, page, rest.pages, after, limit);
      } else {
        OneOrdered(sql, page, after, limit);
      }
    } else {
      NoneOrdered(sql, after, limit);
    }
  }

  lemma NoneOrdered(sql: Sql, after: Option<Key>, limit: int)
    ensures Ordered(sql, [], after, limit)
  {
  }

  lemma OneOrdered(sql: Sql, page: seq<Key>, after: Option<Key>, limit: int)
    requires Descending(sql, page) && AllBelow(sql, page, after)
    ensures Ordered(sql, [page], after, limit)
  {
  }

  lemma OrderedStep(sql: Sql, page: seq<Key>, rest: seq<seq<Key>>, after: Option<Key>, limit: int)
    requires page != [] && |page| == limit && Descending(sql, page) && AllBelow(sql, page, after)
    requires Truncated(Last(page)).Some? && Ordered(sql, rest, Truncated(Last(page)), limit)
    ensures Ordered(sql, [page] + rest, after, limit)
  {
    hide Truncated, Descending, AllBelow, EachBelow;
    var pages := [page] + rest;
    forall i | 0 <= i < |rest| ensures EachBelow(sql, rest[i], page) && AllBelow(sql, rest[i], after) {
      LaterPageBelow(sql, page, rest[i], after);
    }
    forall i, j | 0 <= i < j < |pages| ensures EachBelow(sql, pages[j], pages[i]) {
      assert pages[j] == rest[j - 1] && (i > 0 ==> pages[i] == rest[i - 1]);
    }
    forall i | 0 <= i < |pages| ensures Descending(sql, pages[i]) && AllBelow(sql, pages[i], after) {
      assert i > 0 ==> pages[i] == rest[i - 1];
    }
    forall i | 0 <= i < |pages| - 1 ensures |pages[i]| == limit {
      assert i > 0 ==> pages[i] == rest[i - 1];
    }
  }

  lemma LaterPageBelow(sql: Sql, page: seq<Key>, later: seq<Key>, after: Option<Key>)
    requires page != [] && Descending(sql, page) && AllBelow(sql, page, after)
    requires Truncated(Last(page)).Some? && AllBelow(sql, later, Truncated(Last(page)))
    ensures EachBelow(sql, later, page) && AllBelow(sql, later, after)
  {
    hide Rfc3339.Representable;
    var last := Last(page);
    forall a, b | a in page && b in later ensures Below(sql, b, a) {
      assert a == last || Below(sql, last, a);
    }
    assert last in page;
  }

  // ---- no room twice ----

  /** created_at does not change: wherever a room stands in two of the tables it has the same timestamp. */
  ghost predicate SameCreation(tables: seq<Table>) {
    forall i, j, id :: 0 <= i < |tables| && 0 <= j < |tables| && id in tables[i] && id in tables[j] ==>
      tables[i][id].createdAt == tables[j][id].createdAt
  }

  /** The a-th room of the i-th response is this one. */
  predicate ReturnedAt(rs: seq<Response>, i: int, a: int, id: string) {
    0 <= i < |rs| && rs[i].Ok? && 0 <= a < |rs[i].value.rooms| && rs[i].value.rooms[a].roomId == id
  }

  /** Whatever is inserted, removed, archived, unarchived or renamed between the calls, no room is returned twice. */
  lemma NoRoomTwice(sql: Sql, f: Filter, limit: int, tables: seq<Table>, i: int, a: int, j: int, b: int, id: string)
    requires Sound(sql) && ValidRequest(f, limit) && SameCreation(tables)
    ensures var rs := Responses(sql, f, limit, tables, "");
            ReturnedAt(rs, i, a, id) && ReturnedAt(rs, j, b, id) ==> i == j && a == b
  {
    hide Responses, Walk, HandleList, Matching;
    var rs, w := Responses(sql, f, limit, tables, ""), Walk(sql, f, limit, tables, None);
    if ReturnedAt(rs, i, a, id) && ReturnedAt(rs, j, b, id) {
      ResponsesFollow(sql, f, limit, tables, "", None);
      WalkDescends(sql, f, limit, tables, None);
      assert Shows(rs[i], tables[i], f, sql, w.pages[i]) && Shows(rs[j], tables[j], f, sql, w.pages[j]);
      DistinctRooms(sql, tables, w.pages, limit, i, a, j, b);
    }
  }

  lemma DistinctRooms(sql: Sql, tables: seq<Table>, pages: seq<seq<Key>>, limit: int, i: nat, a: nat, j: nat, b: nat)
    requires Ordered(sql, pages, None, limit) && SameCreation(tables) && |pages| <= |tables|
    requires i < |pages| && a < |pages[i]| && j < |pages| && b < |pages[j]|
    requires pages[i][a].roomId == pages[j][b].roomId
    requires Standing(tables[i], pages[i]) && Standing(tables[j], pages[j])
    ensures i == j && a == b
  {
    var ka, kb := pages[i][a], pages[j][b];
    assert ka in pages[i] && kb in pages[j];
    assert ka == kb;
  }

  // ---- which rooms are returned ----

  /** The rows that lie below a page's last row but not below its whole second. */
  predicate PassedOver(sql: Sql, k: Key, last: Key) {
    Below(sql, k, last) && !Below(sql, k, Key(last.createdAt - last.createdAt % 1000, last.roomId))
  }

  ghost predicate Found(pages: seq<seq<Key>>, k: Key) {
    exists i :: 0 <= i < |pages| && k in pages[i]
  }

  /** No page but the last one passes the row over when it hands on its cursor. */
  ghost predicate NeverPassedOver(sql: Sql, pages: seq<seq<Key>>, k: Key) {
    forall i :: 0 <= i < |pages| - 1 ==> pages[i] != [] && !PassedOver(sql, k, Last(pages[i]))
  }

  lemma {:induction false} Coverage(sql: Sql, f: Filter, limit: int, tables: seq<Table>, after: Option<Key>, k: Key)
    requires Sound(sql) && ValidRequest(f, limit) && Walk(sql, f, limit, tables, after).finished
    requires after.Some? ==> Below(sql, k, after.value)
    requires forall i :: 0 <= i < |Walk(sql, f, limit, tables, after).pages| ==> k in Matching(sql, f, tables[i])
    ensures var w := Walk(sql, f, limit, tables, after);
            Found(w.pages, k) <==> NeverPassedOver(sql, w.pages, k)
    decreases |tables|
  {
    hide PageKeys, Rfc3339.Representable, Found, NeverPassedOver, PassedOver;
    var w := Walk(sql, f, limit, tables, after);
    var page := PageKeys(sql, tables[0], f, after, limit);
    assert w.pages[0] == page && k in Matching(sql, f, tables[0]);
    InPage(sql, tables[0], f, after, limit, k);
    if |page| < limit {
      SinglePage(sql, page, k);
    } else {
      var position := Truncated(Last(page));
      var rest := Walk(sql, f, limit, tables[1..], position);
      assert w.pages == [page] + rest.pages;
      if Below(sql, k, position.value) {
        BelowTransitive(sql, k, position.value, Last(page));
        forall i | 0 <= i < |rest.pages| ensures k in Matching(sql, f, tables[1..][i]) {
          assert k in Matching(sql, f, tables[i + 1]);
        }
        Coverage(sql, f, limit, tables[1..], position, k);
        CoverageLater(sql, page, rest.pages, k);
      } else {
        WalkDescends(sql, f, limit, tables[1..], position);
        CoverageHere(sql, page, rest.pages, k);
      }
    }
  }

  lemma SinglePage(sql: Sql, page: seq<Key>, k: Key)
    ensures NeverPassedOver(sql, [page], k)
    ensures k in page ==> Found([page], k)
  {
    assert [page][0] == page;
  }

  /** The row lies below the next position: it is up to the later pages. */
  lemma CoverageLater(sql: Sql, page: seq<Key>, rest: seq<seq<Key>>, k: Key)
    requires page != [] && rest != [] && k !in page && Truncated(Last(page)).Some?
    requires Below(sql, k, Truncated(Last(page)).value)
    ensures Found([page] + rest, k) <==> Found(rest, k)
    ensures NeverPassedOver(sql, [page] + rest, k) <==> NeverPassedOver(sql, rest, k)
  {
    hide Rfc3339.Representable;
    var pages := [page] + rest;
    assert forall i :: 0 <= i < |rest| ==> pages[i + 1] == rest[i];
    assert !PassedOver(sql, k, Last(page));
    if NeverPassedOver(sql, rest, k) {
      forall i | 0 <= i < |pages| - 1 ensures pages[i] != [] && !PassedOver(sql, k, Last(pages[i])) {
        assert i > 0 ==> pages[i] == rest[i - 1];
      }
    }
    if NeverPassedOver(sql, pages, k) {
      forall i | 0 <= i < |rest| - 1 ensures rest[i] != [] && !PassedOver(sql, k, Last(rest[i])) {
        assert pages[i + 1] == rest[i];
      }
    }
    if Found(pages, k) {
      var i :| 0 <= i < |pages| && k in pages[i];
      assert pages[i] == rest[i - 1];
    }
  }

  /** The row does not lie below the next position: it is on this page, or it is passed over for good. */
  lemma CoverageHere(sql: Sql, page: seq<Key>, rest: seq<seq<Key>>, k: Key)
    requires page != [] && rest != [] && Truncated(Last(page)).Some?
    requires k in page <==> !Below(sql, k, Last(page))
    requires !Below(sql, k, Truncated(Last(page)).value)
    requires Ordered(sql, rest, Truncated(Last(page)), |page|)
    ensures Found([page] + rest, k) <==> NeverPassedOver(sql, [page] + rest, k)
  {
    hide Rfc3339.Representable;
    var pages := [page] + rest;
    var position := Truncated(Last(page));
    assert pages[0] == page;
    if Below(sql, k, Last(page)) {
      assert PassedOver(sql, k, Last(pages[0]));
      forall i | 0 <= i < |pages| ensures k !in pages[i] {
        if i > 0 {
          assert AllBelow(sql, rest[i - 1], position);
        }
      }
    } else {
      forall i | 0 <= i < |pages| - 1 ensures pages[i] != [] && !PassedOver(sql, k, Last(pages[i])) {
        if i > 0 {
          assert pages[i] == rest[i - 1] && AllBelow(sql, rest[i - 1], position);
          assert Last(rest[i - 1]) in rest[i - 1];
          if Below(sql, k, Last(rest[i - 1])) {
            BelowTransitive(sql, k, Last(rest[i - 1]), position.value);
            assert false;
          }
        }
      }
    }
  }

  /**
   A row below the position is on the page exactly if the page is short or the row does not lie below its last row.
   */
  lemma InPage(sql: Sql, t: Table, f: Filter, after: Option<Key>, limit: nat, k: Key)
    requires Sound(sql) && limit > 0 && k in Restrict(sql, Matching(sql, f, t), after)
    ensures var page := PageKeys(sql, t, f, after, limit);
            && (|page| < limit ==> k in page)
            && (|page| == limit ==> (k in page <==> !Below(sql, k, Last(page))))
  {
    var all := Listing(sql, Restrict(sql, Matching(sql, f, t), after));
    var page := PageKeys(sql, t, f, after, limit);
    ListingDescends(sql, Restrict(sql, Matching(sql, f, t), after));
    assert k in all;
    var i :| 0 <= i < |all| && all[i] == k;
    if i < |page| {
      assert page[i] == k;
    } else {
      forall x | x in page ensures x != k {
        var j :| 0 <= j < |page| && page[j] == x;
        assert Below(sql, all[i], all[j]);
      }
    }
  }

  /** The row a response ends with, as it stands in the table that the call met. */
  function LastRow(r: Response, t: Table): Key
    requires r.Ok? && r.value.rooms != []
    requires r.value.rooms[|r.value.rooms| - 1].roomId in t
  {
    var id := r.value.rooms[|r.value.rooms| - 1].roomId;
    Key(t[id].createdAt, id)
  }

  /** The room is not among the rows some response leaves between its last row and its cursor. */
  ghost predicate NeverSkipped(sql: Sql, rs: seq<Response>, tables: seq<Table>, k: Key)
    requires |rs| <= |tables|
  {
    forall i :: 0 <= i < |rs| - 1 ==>
      && rs[i].Ok? && rs[i].value.rooms != []
      && rs[i].value.rooms[|rs[i].value.rooms| - 1].roomId in tables[i]
      && !PassedOver(sql, k, LastRow(rs[i], tables[i]))
  }

  ghost predicate IsReturned(rs: seq<Response>, id: string) {
    exists i, a :: ReturnedAt(rs, i, a, id)
  }

  /** At each of the first n calls the room stands in the table and matches the filter. */
  ghost predicate MatchesThroughout(sql: Sql, f: Filter, tables: seq<Table>, n: int, k: Key) {
    n <= |tables| && forall i :: 0 <= i < n ==> k in Matching(sql, f, tables[i])
  }

  /**
   A room that matches the filter at every call of a finished walk is returned exactly if no page passed it over: if
   at no page boundary it lies below the last row without lying below that row's whole second.
   */
  lemma ReturnedExactly(sql: Sql, f: Filter, limit: int, tables: seq<Table>, k: Key)
    requires Sound(sql) && ValidRequest(f, limit)
    ensures var rs := Responses(sql, f, limit, tables, "");
            Finished(rs) && MatchesThroughout(sql, f, tables, |rs|, k) ==>
              (IsReturned(rs, k.roomId) <==> NeverSkipped(sql, rs, tables, k))
  {
    hide Responses, Walk, HandleList, Shows, Found, NeverPassedOver, IsReturned, NeverSkipped, Matching;
    var rs, w := Responses(sql, f, limit, tables, ""), Walk(sql, f, limit, tables, None);
    if Finished(rs) && MatchesThroughout(sql, f, tables, |rs|, k) {
      ResponsesFollow(sql, f, limit, tables, "", None);
      WalkDescends(sql, f, limit, tables, None);
      assert |rs| == |w.pages|;
      Coverage(sql, f, limit, tables, None, k);
      forall i | 0 <= i < |rs| ensures k.roomId in tables[i] && tables[i][k.roomId].createdAt == k.createdAt {
        Stands(sql, f, tables[i], k);
      }
      FoundIsReturned(sql, f, tables, rs, w.pages, k);
      PassedOverIsSkipped(sql, f, tables, rs, w.pages, limit, k);
    }
  }

  lemma Stands(sql: Sql, f: Filter, t: Table, k: Key)
    requires k in Matching(sql, f, t)
    ensures k.roomId in t && t[k.roomId].createdAt == k.createdAt
  {
  }

  lemma FoundIsReturned(sql: Sql, f: Filter, tables: seq<Table>, rs: seq<Response>, pages: seq<seq<Key>>, k: Key)
    requires |pages| == |rs| <= |tables|
    requires forall i :: 0 <= i < |pages| ==> Shows(rs[i], tables[i], f, sql, pages[i])
    requires forall i :: 0 <= i < |rs| ==> k.roomId in tables[i] && tables[i][k.roomId].createdAt == k.createdAt
    ensures Found(pages, k) <==> IsReturned(rs, k.roomId)
  {
    hide Matches;
    if Found(pages, k) {
      var i :| 0 <= i < |pages| && k in pages[i];
      var a :| 0 <= a < |pages[i]| && pages[i][a] == k;
      assert Shows(rs[i], tables[i], f, sql, pages[i]);
      assert ReturnedAt(rs, i, a, k.roomId);
    }
    if IsReturned(rs, k.roomId) {
      var i, a :| ReturnedAt(rs, i, a, k.roomId);
      assert Shows(rs[i], tables[i], f, sql, pages[i]);
      assert pages[i][a] in pages[i];
      assert pages[i][a] == k;
    }
  }

  lemma LastShown(sql: Sql, f: Filter, r: Response, t: Table, page: seq<Key>)
    requires Shows(r, t, f, sql, page) && page != []
    ensures r.Ok? && r.value.rooms != [] && r.value.rooms[|r.value.rooms| - 1].roomId in t
    ensures LastRow(r, t) == Last(page)
  {
    hide Matches, Matching, Rows;
    assert Last(page) in page;
    RowIds(t, page);
  }

  lemma RowIds(t: Table, page: seq<Key>)
    requires forall k :: k in page ==> k.roomId in t
    ensures |Rows(t, page)| == |page| && forall i :: 0 <= i < |page| ==> Rows(t, page)[i].roomId == page[i].roomId
  {
    hide Coalesce, Rfc3339.Format;
  }

  lemma PassedOverIsSkipped(sql: Sql, f: Filter, tables: seq<Table>, rs: seq<Response>, pages: seq<seq<Key>>,
                            limit: int, k: Key)
    requires |pages| == |rs| <= |tables| && Ordered(sql, pages, None, limit) && 0 < limit
    requires forall i :: 0 <= i < |pages| ==> Shows(rs[i], tables[i], f, sql, pages[i])
    ensures NeverPassedOver(sql, pages, k) <==> NeverSkipped(sql, rs, tables, k)
  {
    hide Shows, PassedOver, LastRow, Descending, AllBelow, EachBelow;
    forall i | 0 <= i < |rs| - 1
      ensures pages[i] != [] && rs[i].Ok? && rs[i].value.rooms != []
      ensures rs[i].value.rooms[|rs[i].value.rooms| - 1].roomId in tables[i]
      ensures LastRow(rs[i], tables[i]) == Last(pages[i])
    {
      assert |pages[i]| == limit;
      LastShown(sql, f, rs[i], tables[i], pages[i]);
    }
  }

  /** A millisecond timestamp that survives the cursor text. */
  predicate WholeSecond(createdAt: int) {
    Rfc3339.Representable(createdAt) && createdAt % 1000 == 0
  }

  ghost predicate OnWholeSeconds(tables: seq<Table>) {
    forall j, id :: 0 <= j < |tables| && id in tables[j] ==> WholeSecond(tables[j][id].createdAt)
  }

  /** Where every room is created on a whole second, a finished walk returns every room that matched throughout. */
  lemma WholeSecondsLoseNothing(sql: Sql, f: Filter, limit: int, tables: seq<Table>, k: Key)
    requires Sound(sql) && ValidRequest(f, limit) && OnWholeSeconds(tables)
    ensures var rs := Responses(sql, f, limit, tables, "");
            Finished(rs) && MatchesThroughout(sql, f, tables, |rs|, k) ==> IsReturned(rs, k.roomId)
  {
    hide Responses, Walk, HandleList, Shows, IsReturned, Rfc3339.Representable, Matches, MatchesThroughout;
    var rs, w := Responses(sql, f, limit, tables, ""), Walk(sql, f, limit, tables, None);
    if Finished(rs) && MatchesThroughout(sql, f, tables, |rs|, k) {
      ReturnedExactly(sql, f, limit, tables, k);
      ResponsesFollow(sql, f, limit, tables, "", None);
      WalkDescends(sql, f, limit, tables, None);
      PassedOverIsSkipped(sql, f, tables, rs, w.pages, limit, k);
      forall i | 0 <= i < |w.pages| - 1 ensures w.pages[i] != [] && !PassedOver(sql, k, Last(w.pages[i])) {
        StandingLast(sql, f, rs[i], tables[i], w.pages[i]);
      }
      assert NeverPassedOver(sql, w.pages, k);
    }
  }

  lemma StandingLast(sql: Sql, f: Filter, r: Response, t: Table, page: seq<Key>)
    requires Shows(r, t, f, sql, page) && page != []
    ensures Last(page).roomId in t && t[Last(page).roomId].createdAt == Last(page).createdAt
  {
    assert Last(page) in page;
  }
}
