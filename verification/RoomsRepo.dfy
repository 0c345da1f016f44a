/**
 gateway/internal/api/rooms_repo.go over an in-memory rooms table, and the ListAdminRooms handler of
 gateway/internal/api/server.go that calls it.
 */
module RoomsRepo {
  import opened Outcomes
  import opened RoomTable
  import opened RoomQuery
  import Pagination
  import Rfc3339

  datatype AdminRoom = AdminRoom(
    roomId: string,
    name: string,
    topic: string,
    visibility: string,
    status: string,
    createdAt: string,
    creatorUserId: string)

  function Coalesce(s: Option<string>): string {
    if s.Some? then s.value else ""
  }

  function Row(id: string, r: Room): AdminRoom {
    AdminRoom(id, Coalesce(r.name), r.topic, r.visibility, r.status, Rfc3339.Format(r.createdAt),
              Coalesce(r.creatorUserId))
  }

  datatype Page = Page(rooms: seq<AdminRoom>, total: nat, nextCursor: string)

  datatype ListError =
    | LimitOutOfRange
    | InvalidCursor
    | InvalidStatus
    | InvalidAfterCreatedAt
    | QueryFailed

  // ---- ListRooms ----

  function Rows(t: Table, keys: seq<Key>): seq<AdminRoom>
    requires forall k :: k in keys ==> k.roomId in t
  {
    seq(|keys|, i requires 0 <= i < |keys| => Row(keys[i].roomId, t[keys[i].roomId]))
  }

  /** An entry shows the row stored under its id, with nothing for NULL and the whole second of its timestamp. */
  ghost predicate IsEntry(t: Table, e: AdminRoom) {
    && e.roomId in t
    && var r := t[e.roomId];
       && e.name == (if r.name.Some? then r.name.value else "")
       && e.creatorUserId == (if r.creatorUserId.Some? then r.creatorUserId.value else "")
       && e.topic == r.topic && e.visibility == r.visibility && e.status == r.status
       && Rfc3339.Parse(e.createdAt)
          == if 0 < r.createdAt && r.createdAt / 1000 < 253402300800 then Some(r.createdAt - r.createdAt % 1000)
             else None
  }

  lemma RowsAreEntries(t: Table, keys: seq<Key>)
    requires forall k :: k in keys ==> k.roomId in t
    ensures forall e :: e in Rows(t, keys) ==> IsEntry(t, e)
    ensures forall i :: 0 <= i < |keys| ==> Rows(t, keys)[i].roomId == keys[i].roomId
  {
    hide Rfc3339.Parse, Rfc3339.Format;
    forall e | e in Rows(t, keys) ensures IsEntry(t, e) {
      var i :| 0 <= i < |keys| && Rows(t, keys)[i] == e;
      assert keys[i] in keys;
      Rfc3339.TextKeepsWholeSeconds(t[keys[i].roomId].createdAt);
    }
  }

  /** The matching rows below a position, newest first, at most `limit` of them. */
  function PageKeys(sql: Sql, t: Table, f: Filter, after: Option<Key>, limit: nat): (keys: seq<Key>)
    requires Sound(sql)
    ensures |keys| <= limit
    ensures forall k :: k in keys ==> k in Restrict(sql, Matching(sql, f, t), after)
  {
    Take(Listing(sql, Restrict(sql, Matching(sql, f, t), after)), limit)
  }

  function CursorOf(k: Key): string {
    Pagination.EncodeCursor(k.roomId, Rfc3339.Format(k.createdAt))
  }

  /** The cursor of a page's last row; only a full page has one. */
  function NextCursor(keys: seq<Key>, limit: nat): string {
    if |keys| == limit && keys != [] then CursorOf(keys[|keys| - 1]) else ""
  }

  function PageAfter(sql: Sql, t: Table, f: Filter, after: Option<Key>, limit: nat): Page
    requires Sound(sql)
  {
    var keys := PageKeys(sql, t, f, after, limit);
    Page(Rows(t, keys), |Matching(sql, f, t)|, NextCursor(keys, limit))
  }

  /** No position unless both parts are given; then the timestamp has to be readable. */
  function Position(afterId: string, afterCreatedAt: string): Result<Option<Key>, ListError> {
    if afterId == "" || afterCreatedAt == "" then Ok(None)
    else
      match Rfc3339.Parse(afterCreatedAt)
      case Some(ms) => Ok(Some(Key(ms, afterId)))
      case None => Err(InvalidAfterCreatedAt)
  }

  function ListPage(sql: Sql, t: Table, afterId: string, afterCreatedAt: string, limit: int, f: Filter)
    : Result<Page, ListError>
    requires Sound(sql)
  {
    match Position(afterId, afterCreatedAt)
    case Err(e) => Err(e)
    case Ok(after) => if limit < 0 then Err(QueryFailed) else Ok(PageAfter(sql, t, f, after, limit))
  }

  /** ListAdminRooms: parameters are absent or given. */
  datatype ListParams = ListParams(limit: Option<int>, cursor: Option<string>, search: Option<string>,
                                   status: Option<string>)

  function HandleList(sql: Sql, t: Table, p: ListParams): Result<Page, ListError>
    requires Sound(sql)
  {
    var limit := if p.limit.Some? then p.limit.value else 20;
    var f := Filter(Coalesce(p.search), Coalesce(p.status));
    if limit < 1 || limit > 100 then Err(LimitOutOfRange)
    else
      match CursorFields(Coalesce(p.cursor))
      case Err(e) => Err(e)
      case Ok((afterId, afterCreatedAt)) =>
        if f.status != "" && f.status != "active" && f.status != "archived" then Err(InvalidStatus)
        else ListPage(sql, t, afterId, afterCreatedAt, limit, f)
  }

  /** An empty cursor is no cursor. */
  function CursorFields(cursor: string): Result<(string, string), ListError> {
    if cursor == "" then Ok(("", ""))
    else
      match Pagination.DecodeCursor(cursor)
      case Ok(fields) => Ok(fields)
      case Err(_) => Err(InvalidCursor)
  }

  /** The position a cursor asks for. */
  function Resolve(cursor: string): Result<Option<Key>, ListError> {
    match CursorFields(cursor)
    case Err(e) => Err(e)
    case Ok((afterId, afterCreatedAt)) => Position(afterId, afterCreatedAt)
  }

  // ---- ArchiveRoom, UnarchiveRoom ----

  datatype StatusError = RoomNotFound | RoomWrongStatus

  /** UPDATE rooms SET status = 'archived', ... WHERE room_id = $1 AND status = 'active' */
  function ArchiveUpdate(t: Table, id: string, now: int, reason: string): Option<Table> {
    if id in t && t[id].status == "active" then
      Some(t[id := t[id].(status := "archived", archivedAt := Some(now), archiveReason := Some(reason))])
    else None
  }

  /** UPDATE rooms SET status = 'active', archived_at = NULL WHERE room_id = $1 AND status = 'archived' */
  function UnarchiveUpdate(t: Table, id: string): Option<Table> {
    if id in t && t[id].status == "archived" then
      Some(t[id := t[id].(status := "active", archivedAt := None)])
    else None
  }

  /** The column checks hold of every stored row. */
  ghost predicate ChecksHold(t: Table) {
    forall id :: id in t ==> RowAllowed(t[id])
  }

  class RoomRepo {
    var rooms: Table
    const sql: Sql

    constructor (sql: Sql, rooms: Table)
      ensures this.sql == sql && this.rooms == rooms
    {
      this.sql := sql;
      this.rooms := rooms;
    }

    /** The clauses and arguments, numbered as they are added; `n` is the next free placeholder. */
    static method BuildListQuery(afterId: string, afterCreatedAt: string, search: string, status: string)
      returns (where: seq<Clause>, countArgs: seq<Arg>, cursorClause: seq<Clause>, args: seq<Arg>, n: nat,
               after: Result<Option<Key>, ListError>)
      ensures after == Position(afterId, afterCreatedAt)
      ensures after.Ok? ==>
                var f := Filter(search, status);
                && where == FilterClauses(f) && countArgs == FilterArgs(f)
                && cursorClause == CursorClauses(f, after.value) && args == FilterArgs(f) + CursorArgs(after.value)
                && n == |args| + 1
    {
      hide Rfc3339.Parse;
      where, cursorClause, args, n := [], [], [], 1;
      if search != "" {
        where := where + [NameILike(n)];
        args := args + [TextArg(search)];
        n := n + 1;
      }
      if status != "" {
        where := where + [StatusEquals(n)];
        args := args + [TextArg(status)];
        n := n + 1;
      }
      countArgs := args;
      after := Ok(None);
      if afterId != "" && afterCreatedAt != "" {
        var parsed := Rfc3339.Parse(afterCreatedAt);
        if parsed.None? {
          after := Err(InvalidAfterCreatedAt);
          return;
        }
        after := Ok(Some(Key(parsed.value, afterId)));
        cursorClause := [RowBelow(n, n + 1)];
        args := args + [IntArg(parsed.value), TextArg(afterId)];
        n := n + 2;
      }
    }

    method ListRooms(afterId: string, afterCreatedAt: string, limit: int, search: string, status: string)
      returns (r: Result<Page, ListError>)
      requires Sound(sql)
      ensures r == ListPage(sql, rooms, afterId, afterCreatedAt, limit, Filter(search, status))
      ensures r.Ok? ==> forall e :: e in r.value.rooms ==> IsEntry(rooms, e)
    {
      hide Rfc3339.Parse, IsEntry;
      var where, countArgs, cursorClause, args, n, after := BuildListQuery(afterId, afterCreatedAt, search, status);
      if after.Err? {
        return Err(after.error);
      }
      ghost var f := Filter(search, status);
      var counted := QueryCount(where, countArgs, f);
      if counted.Err? {
        return Err(QueryFailed);
      }
      var selected := QueryPage(where + cursorClause, n, args + [IntArg(limit)], f, after.value, limit);
      if selected.Err? {
        return Err(QueryFailed);
      }
      var keys := selected.value;
      var page, lastCreatedAt, lastRoomId := ScanRows(keys);
      var nextCursor := "";
      if |page| == limit && |page| > 0 {
        nextCursor := Pagination.EncodeCursor(lastRoomId, Rfc3339.Format(lastCreatedAt));
      }
      return Ok(Page(page, counted.value, nextCursor));
    }

    /** The count query, run on the filter's clauses. */
    method QueryCount(where: seq<Clause>, args: seq<Arg>, ghost f: Filter) returns (total: Result<nat, QueryError>)
      requires where == FilterClauses(f) && args == FilterArgs(f)
      ensures total == Ok(|Matching(sql, f, rooms)|)
    {
      CountDenotes(sql, rooms, f);
      total := Count(sql, rooms, where, args);
    }

    /** The page query, run on all clauses with the limit bound last. */
    method QueryPage(where: seq<Clause>, pLimit: nat, args: seq<Arg>, ghost f: Filter, ghost after: Option<Key>,
                     limit: int)
      returns (keys: Result<seq<Key>, QueryError>)
      requires Sound(sql)
      requires where == FilterClauses(f) + CursorClauses(f, after)
      requires args == FilterArgs(f) + CursorArgs(after) + [IntArg(limit)] && pLimit == |args|
      ensures keys == if limit < 0 then Err(QueryError) else Ok(PageKeys(sql, rooms, f, after, limit))
    {
      SelectDenotes(sql, rooms, f, after, limit);
      keys := Select(sql, rooms, where, pLimit, args);
    }

    /** The row loop: one list entry per row, and the last row's timestamp and id. */
    method ScanRows(keys: seq<Key>) returns (page: seq<AdminRoom>, lastCreatedAt: int, lastRoomId: string)
      requires forall k :: k in keys ==> k.roomId in rooms
      ensures page == Rows(rooms, keys)
      ensures |page| == |keys| && forall i :: 0 <= i < |keys| ==> page[i].roomId == keys[i].roomId
      ensures forall e :: e in page ==> IsEntry(rooms, e)
      ensures keys != [] ==> keys[|keys| - 1] == Key(lastCreatedAt, lastRoomId)
    {
      hide IsEntry, Row;
      page := [];
      lastCreatedAt := 0;
      lastRoomId := "";
      for i := 0 to |keys|
        invariant page == Rows(rooms, keys[..i])
        invariant i > 0 ==> keys[i - 1] == Key(lastCreatedAt, lastRoomId)
      {
        assert keys[i] in keys && i < |keys|;
        page := page + [Row(keys[i].roomId, rooms[keys[i].roomId])];
        lastCreatedAt := keys[i].createdAt;
        lastRoomId := keys[i].roomId;
        assert keys[..i + 1] == keys[..i] + [keys[i]];
      }
      assert keys[..|keys|] == keys;
      RowsAreEntries(rooms, keys);
    }

    method ListAdminRooms(p: ListParams) returns (r: Result<Page, ListError>)
      requires Sound(sql)
      ensures r == HandleList(sql, rooms, p)
      ensures r.Ok? ==> forall e :: e in r.value.rooms ==> IsEntry(rooms, e)
    {
      hide IsEntry, ListPage;
      var limit := 20;
      if p.limit.Some? {
        limit := p.limit.value;
      }
      if limit < 1 || limit > 100 {
        return Err(LimitOutOfRange);
      }
      var afterId, afterCreatedAt := "", "";
      if p.cursor.Some? && p.cursor.value != "" {
        var decoded := Pagination.DecodeCursor(p.cursor.value);
        if decoded.Err? {
          return Err(InvalidCursor);
        }
        afterId, afterCreatedAt := decoded.value.0, decoded.value.1;
      }
      var search, status := "", "";
      if p.search.Some? {
        search := p.search.value;
      }
      if p.status.Some? {
        status := p.status.value;
      }
      if status != "" && status != "active" && status != "archived" {
        return Err(InvalidStatus);
      }
      r := ListRooms(afterId, afterCreatedAt, limit, search, status);
    }

    /** The error says whether the room was missing or in the wrong status; the table changes on success alone. */
    method ArchiveRoom(id: string, reason: string, now: int) returns (r: Result<string, StatusError>)
      modifies this`rooms
      ensures r.Ok? <==> id in old(rooms) && old(rooms)[id].status == "active"
      ensures r.Ok? ==>
                && r.value == "archived"
                && rooms == old(rooms)[id := old(rooms)[id].(status := "archived", archivedAt := Some(now),
                                                             archiveReason := Some(reason))]
      ensures r.Err? ==> rooms == old(rooms) && (r.error == RoomNotFound <==> id !in rooms)
    {
      var updated := ArchiveUpdate(rooms, id, now, reason);
      if updated.None? {
        return Err(if id in rooms then RoomWrongStatus else RoomNotFound);
      }
      rooms := updated.value;
      return Ok(rooms[id].status);
    }

    /** The archive reason stays in the row. */
    method UnarchiveRoom(id: string) returns (r: Result<string, StatusError>)
      modifies this`rooms
      ensures r.Ok? <==> id in old(rooms) && old(rooms)[id].status == "archived"
      ensures r.Ok? ==>
                && r.value == "active"
                && rooms == old(rooms)[id := old(rooms)[id].(status := "active", archivedAt := None)]
      ensures r.Err? ==> rooms == old(rooms) && (r.error == RoomNotFound <==> id !in rooms)
    {
      var updated := UnarchiveUpdate(rooms, id);
      if updated.None? {
        return Err(if id in rooms then RoomWrongStatus else RoomNotFound);
      }
      rooms := updated.value;
      return Ok(rooms[id].status);
    }

    /** One assignment per given field, each with the next placeholder; $1 is the room. */
    static method BuildSet(id: string, patch: RoomPatch, ghost room: Room)
      returns (assignments: seq<Assignment>, args: seq<Arg>)
      ensures AssignAll(room, assignments, args) == Some(FieldWise(room, patch))
      ensures var r := AssignAll(room, assignments, args).value;
              && r.name == (if patch.name.Some? then patch.name else room.name)
              && r.topic == (if patch.topic.Some? then patch.topic.value else room.topic)
              && r.visibility == (if patch.visibility.Some? then patch.visibility.value else room.visibility)
              && r.maxMembers == (if patch.maxMembers.Some? then patch.maxMembers.value else room.maxMembers)
      ensures assignments == [] <==> patch == RoomPatch(None, None, None, None)
    {
      assignments, args := [], [TextArg(id)];
      var n := 2;
      ghost var done := RoomPatch(None, None, None, None);
      if patch.maxMembers.Some? {
        BuiltExtend(room, done, assignments, args, MaxMembers, IntArg(patch.maxMembers.value));
        assignments := assignments + [Assignment(MaxMembers, n)];
        args := args + [IntArg(patch.maxMembers.value)];
        n := n + 1;
      }
      done := done.(maxMembers := patch.maxMembers);
      if patch.visibility.Some? {
        BuiltExtend(room, done, assignments, args, Visibility, TextArg(patch.visibility.value));
        assignments := assignments + [Assignment(Visibility, n)];
        args := args + [TextArg(patch.visibility.value)];
        n := n + 1;
      }
      done := done.(visibility := patch.visibility);
      if patch.name.Some? {
        BuiltExtend(room, done, assignments, args, Name, TextArg(patch.name.value));
        assignments := assignments + [Assignment(Name, n)];
        args := args + [TextArg(patch.name.value)];
        n := n + 1;
      }
      done := done.(name := patch.name);
      if patch.topic.Some? {
        BuiltExtend(room, done, assignments, args, Topic, TextArg(patch.topic.value));
        assignments := assignments + [Assignment(Topic, n)];
        args := args + [TextArg(patch.topic.value)];
        n := n + 1;
      }
    }

    /**
     A given field reaches its own column and no other, in the room's row alone; what a check or a type refuses changes
     nothing.
     */
    method UpdateRoom(id: string, patch: RoomPatch) returns (r: Result<Option<Room>, QueryError>)
      requires ChecksHold(rooms)
      modifies this`rooms
      ensures ChecksHold(rooms)
      ensures r == Err(QueryError)
              <==> || (patch.maxMembers.Some? && !(-0x8000_0000 <= patch.maxMembers.value < 0x8000_0000))
                   || (id in old(rooms) && patch.visibility.Some?
                       && patch.visibility.value != "public" && patch.visibility.value != "private")
      ensures r.Err? || id !in old(rooms) ==> rooms == old(rooms)
      ensures r.Ok? && id !in old(rooms) ==> r.value == None
      ensures r.Ok? && id in old(rooms) ==>
                && id in rooms && r.value == Some(rooms[id])
                && var was, now := old(rooms)[id], rooms[id];
                   && rooms == old(rooms)[id := now]
                   && now.name == (if patch.name.Some? then patch.name else was.name)
                   && now.topic == (if patch.topic.Some? then patch.topic.value else was.topic)
                   && now.visibility == (if patch.visibility.Some? then patch.visibility.value else was.visibility)
                   && now.maxMembers == (if patch.maxMembers.Some? then patch.maxMembers.value else was.maxMembers)
                   && now.status == was.status && now.createdAt == was.createdAt
                   && now.creatorUserId == was.creatorUserId
                   && now.archivedAt == was.archivedAt && now.archiveReason == was.archiveReason
    {
      ghost var room := if id in rooms then rooms[id] else Room(None, "", "public", "active", 0, None, 0, None, None);
      var assignments, args := BuildSet(id, patch, room);
      if |assignments| > 0 {
        // an argument that does not fit its column's type is refused before any row is looked for
        if patch.maxMembers.Some? && !FitsInteger(patch.maxMembers.value) {
          return Err(QueryError);
        }
        if id !in rooms {
          return Ok(None);
        }
        var updated := AssignAll(rooms[id], assignments, args);
        if updated.None? || !RowAllowed(updated.value) {
          return Err(QueryError);
        }
        rooms := rooms[id := updated.value];
      }
      return Ok(if id in rooms then Some(rooms[id]) else None);
    }
  }

  /** One more assignment whose placeholder is the next free one. */
  lemma BuiltExtend(r: Room, done: RoomPatch, assignments: seq<Assignment>, args: seq<Arg>, column: Column, arg: Arg)
    requires AssignAll(r, assignments, args) == Some(FieldWise(r, done))
    ensures var p := |args| + 1;
            AssignAll(r, assignments + [Assignment(column, p)], args + [arg])
            == Assign(FieldWise(r, done), Assignment(column, p), args + [arg])
  {
    AssignAllExtend(r, assignments, args, column, arg);
  }

  lemma {:induction false} AssignAllExtend(r: Room, assignments: seq<Assignment>, args: seq<Arg>, column: Column,
                                           arg: Arg)
    requires AssignAll(r, assignments, args).Some?
    ensures var p := |args| + 1;
            AssignAll(r, assignments + [Assignment(column, p)], args + [arg])
            == Assign(AssignAll(r, assignments, args).value, Assignment(column, p), args + [arg])
    decreases |assignments|
  {
    var more := assignments + [Assignment(column, |args| + 1)];
    if assignments != [] {
      AssignAllExtend(Assign(r, assignments[0], args).value, assignments[1..], args, column, arg);
      assert more[1..] == assignments[1..] + [Assignment(column, |args| + 1)];
      assert Assign(r, assignments[0], args + [arg]) == Assign(r, assignments[0], args);
    } else {
      assert more[1..] == [];
    }
  }
}
