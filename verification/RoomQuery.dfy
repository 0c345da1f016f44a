/**
 The parameterised SQL that ListRooms and UpdateRoom assemble: clauses whose placeholders $1, $2, ... index an
 argument list that grows alongside. The text of a clause is represented by its constructor; its placeholders are kept.
 */
module RoomQuery {
  import opened Outcomes
  import opened RoomTable

  datatype Arg = TextArg(text: string) | IntArg(number: int)

  /** Conjuncts of the WHERE clause after WHERE 1=1. */
  datatype Clause =
    | NameILike(p: nat)
    | StatusEquals(p: nat)
    | RowBelow(pCreatedAt: nat, pRoomId: nat)

  function Text(args: seq<Arg>, p: nat): Option<string> {
    if 1 <= p <= |args| && args[p - 1].TextArg? then Some(args[p - 1].text) else None
  }

  function Number(args: seq<Arg>, p: nat): Option<int> {
    if 1 <= p <= |args| && args[p - 1].IntArg? then Some(args[p - 1].number) else None
  }

  /** What a clause says of a row; None is the database refusing an unbound or ill-typed placeholder. */
  function Holds(sql: Sql, c: Clause, args: seq<Arg>, id: string, r: Room): Option<bool> {
    match c
    case NameILike(p) => (
      match Text(args, p)
      case Some(search) => Some(r.name.Some? && sql.ilike(r.name.value, search))
      case None => None
    )
    case StatusEquals(p) => (
      match Text(args, p)
      case Some(status) => Some(r.status == status)
      case None => None
    )
    case RowBelow(p, q) =>
      match (Number(args, p), Text(args, q))
      case (Some(createdAt), Some(roomId)) => Some(Below(sql, Key(r.createdAt, id), Key(createdAt, roomId)))
      case _ => None
  }

  function AllHold(sql: Sql, where: seq<Clause>, args: seq<Arg>, id: string, r: Room): Option<bool> {
    if where == [] then Some(true)
    else
      match (Holds(sql, where[0], args, id, r), AllHold(sql, where[1..], args, id, r))
      case (Some(a), Some(b)) => Some(a && b)
      case _ => None
  }

  function PlaceholdersOf(c: Clause): seq<nat> {
    if c.RowBelow? then [c.pCreatedAt, c.pRoomId] else [c.p]
  }

  function Placeholders(where: seq<Clause>): seq<nat> {
    if where == [] then [] else PlaceholdersOf(where[0]) + Placeholders(where[1..])
  }

  function UpTo(n: nat): seq<nat> {
    seq(n, i => i + 1)
  }

  datatype QueryError = QueryError

  /** SELECT COUNT(*) ... WHERE: refused unless the placeholders are exactly $1 .. $k for the k arguments. */
  function Count(sql: Sql, t: Table, where: seq<Clause>, args: seq<Arg>): Result<nat, QueryError> {
    if Placeholders(where) != UpTo(|args|) then Err(QueryError)
    else if exists id :: id in t && AllHold(sql, where, args, id, t[id]).None? then Err(QueryError)
    else Ok(|set id | id in t && AllHold(sql, where, args, id, t[id]) == Some(true)|)
  }

  function Take<T>(s: seq<T>, n: nat): seq<T> {
    if n < |s| then s[..n] else s
  }

  /** SELECT ... WHERE ... ORDER BY created_at DESC, room_id DESC LIMIT $pLimit. */
  function Select(sql: Sql, t: Table, where: seq<Clause>, pLimit: nat, args: seq<Arg>): Result<seq<Key>, QueryError>
    requires Sound(sql)
  {
    if Placeholders(where) + [pLimit] != UpTo(|args|) then Err(QueryError)
    else if exists id :: id in t && AllHold(sql, where, args, id, t[id]).None? then Err(QueryError)
    else
      match Number(args, pLimit)
      case Some(limit) =>
        if limit < 0 then Err(QueryError)
        else
          var keys := set id | id in t && AllHold(sql, where, args, id, t[id]) == Some(true)
                          :: Key(t[id].createdAt, id);
          Ok(Take(Listing(sql, keys), limit))
      case None => Err(QueryError)
  }

  // ---- what ListRooms builds ----

  /** The clauses for a filter, and then a position, numbered from $1 in the order search, status, cursor. */
  function FilterClauses(f: Filter): seq<Clause> {
    (if f.search != "" then [NameILike(1)] else [])
    + (if f.status != "" then [StatusEquals(if f.search != "" then 2 else 1)] else [])
  }

  function FilterArgs(f: Filter): seq<Arg> {
    (if f.search != "" then [TextArg(f.search)] else []) + (if f.status != "" then [TextArg(f.status)] else [])
  }

  function CursorClauses(f: Filter, after: Option<Key>): seq<Clause> {
    if after.Some? then [RowBelow(|FilterArgs(f)| + 1, |FilterArgs(f)| + 2)] else []
  }

  function CursorArgs(after: Option<Key>): seq<Arg> {
    if after.Some? then [IntArg(after.value.createdAt), TextArg(after.value.roomId)] else []
  }

  predicate Wanted(sql: Sql, f: Filter, after: Option<Key>, id: string, r: Room) {
    Matches(sql, f, r) && (after.Some? ==> Below(sql, Key(r.createdAt, id), after.value))
  }

  /**
   Every combination of search, status and cursor denotes the intended rows, whatever is bound after its own
   arguments.
   */
  lemma WhereDenotes(sql: Sql, f: Filter, after: Option<Key>, more: seq<Arg>, id: string, r: Room)
    ensures AllHold(sql, FilterClauses(f) + CursorClauses(f, after), FilterArgs(f) + CursorArgs(after) + more, id, r)
            == Some(Wanted(sql, f, after, id, r))
  {
    var args := FilterArgs(f) + CursorArgs(after) + more;
    FilterHolds(sql, f, args, id, r);
    if after.Some? {
      assert args[|FilterArgs(f)|] == IntArg(after.value.createdAt);
      assert args[|FilterArgs(f)| + 1] == TextArg(after.value.roomId);
      assert CursorClauses(f, after)[1..] == [];
    }
    AllHoldAppend(sql, FilterClauses(f), CursorClauses(f, after), args, id, r);
  }

  lemma FilterHolds(sql: Sql, f: Filter, args: seq<Arg>, id: string, r: Room)
    requires FilterArgs(f) <= args
    ensures AllHold(sql, FilterClauses(f), args, id, r) == Some(Matches(sql, f, r))
  {
    assert forall i :: 0 <= i < |FilterArgs(f)| ==> args[i] == FilterArgs(f)[i];
    var filtering := FilterClauses(f);
    if f.search != "" && f.status != "" {
      assert filtering == [NameILike(1)] + [StatusEquals(2)];
      AllHoldAppend(sql, [NameILike(1)], [StatusEquals(2)], args, id, r);
    } else if f.search != "" {
      assert filtering == [NameILike(1)];
    } else if f.status != "" {
      assert filtering == [StatusEquals(1)];
    }
  }

  lemma {:induction false} AllHoldAppend(sql: Sql, a: seq<Clause>, b: seq<Clause>, args: seq<Arg>, id: string, r: Room)
    requires AllHold(sql, a, args, id, r).Some? && AllHold(sql, b, args, id, r).Some?
    ensures AllHold(sql, a + b, args, id, r)
            == Some(AllHold(sql, a, args, id, r).value && AllHold(sql, b, args, id, r).value)
  {
    if a == [] {
      assert a + b == b;
    } else {
      AllHoldAppend(sql, a[1..], b, args, id, r);
      assert (a + b)[1..] == a[1..] + b;
    }
  }

  lemma FilterPlaceholders(f: Filter)
    ensures Placeholders(FilterClauses(f)) == UpTo(|FilterArgs(f)|)
  {
    var filtering := FilterClauses(f);
    if f.search != "" && f.status != "" {
      assert filtering == [NameILike(1)] + [StatusEquals(2)];
      PlaceholdersAppend([NameILike(1)], [StatusEquals(2)]);
      OneClause(NameILike(1));
      OneClause(StatusEquals(2));
    } else if f.search != "" {
      assert filtering == [NameILike(1)];
      OneClause(NameILike(1));
    } else if f.status != "" {
      assert filtering == [StatusEquals(1)];
      OneClause(StatusEquals(1));
    }
  }

  lemma OneClause(c: Clause)
    ensures Placeholders([c]) == PlaceholdersOf(c)
  {
    assert [c][1..] == [];
  }

  /** The placeholders of the count query and of the page query number their arguments one by one. */
  lemma PlaceholdersMatch(f: Filter, after: Option<Key>, limit: int)
    ensures Placeholders(FilterClauses(f)) == UpTo(|FilterArgs(f)|)
    ensures var args := FilterArgs(f) + CursorArgs(after) + [IntArg(limit)];
            Placeholders(FilterClauses(f) + CursorClauses(f, after)) + [|args|] == UpTo(|args|)
  {
    FilterPlaceholders(f);
    PlaceholdersAppend(FilterClauses(f), CursorClauses(f, after));
    if after.Some? {
      OneClause(CursorClauses(f, after)[0]);
    }
    hide Placeholders, FilterClauses, FilterArgs;
    var n := |FilterArgs(f)|;
    assert Placeholders(CursorClauses(f, after)) == if after.Some? then [n + 1, n + 2] else [] by { NoClause(); }
  }

  lemma NoClause()
    ensures Placeholders([]) == []
  {
  }

  lemma {:induction false} PlaceholdersAppend(a: seq<Clause>, b: seq<Clause>)
    ensures Placeholders(a + b) == Placeholders(a) + Placeholders(b)
  {
    hide PlaceholdersOf;
    if a == [] {
      assert a + b == b;
    } else {
      PlaceholdersAppend(a[1..], b);
      assert (a + b)[1..] == a[1..] + b && (a + b)[0] == a[0];
      Associate(PlaceholdersOf(a[0]), Placeholders(a[1..]), Placeholders(b));
    }
  }

  lemma Associate(x: seq<nat>, y: seq<nat>, z: seq<nat>)
    ensures x + (y + z) == (x + y) + z
  {
  }

  /** The count query counts what matches the filter and does not look at the position. */
  lemma CountDenotes(sql: Sql, t: Table, f: Filter)
    ensures Count(sql, t, FilterClauses(f), FilterArgs(f)) == Ok(|Matching(sql, f, t)|)
  {
    PlaceholdersMatch(f, None, 0);
    forall id | id in t
      ensures AllHold(sql, FilterClauses(f), FilterArgs(f), id, t[id]) == Some(Matches(sql, f, t[id]))
    {
      WhereDenotes(sql, f, None, [], id, t[id]);
      assert FilterClauses(f) + CursorClauses(f, None) == FilterClauses(f);
      assert FilterArgs(f) + CursorArgs(None) + [] == FilterArgs(f);
    }
    var ids := set id | id in t && Matches(sql, f, t[id]);
    assert ids == set id | id in t && AllHold(sql, FilterClauses(f), FilterArgs(f), id, t[id]) == Some(true);
    KeyPerId(ids, t);
    assert Matching(sql, f, t) == set id | id in ids :: Key(t[id].createdAt, id);
  }

  lemma {:induction false} KeyPerId(ids: set<string>, t: Table)
    requires ids <= t.Keys
    ensures |set id | id in ids :: Key(t[id].createdAt, id)| == |ids|
    decreases |ids|
  {
    var keys := set id | id in ids :: Key(t[id].createdAt, id);
    if ids == {} {
      assert keys == {};
    } else {
      var id :| id in ids;
      var rest := ids - {id};
      KeyPerId(rest, t);
      var fewer := set i | i in rest :: Key(t[i].createdAt, i);
      assert keys == fewer + {Key(t[id].createdAt, id)};
    }
  }

  /** The page query returns the first rows, in order, of what matches the filter below the position. */
  lemma SelectDenotes(sql: Sql, t: Table, f: Filter, after: Option<Key>, limit: int)
    requires Sound(sql)
    ensures var args := FilterArgs(f) + CursorArgs(after) + [IntArg(limit)];
            Select(sql, t, FilterClauses(f) + CursorClauses(f, after), |args|, args)
            == if limit < 0 then Err(QueryError)
               else Ok(Take(Listing(sql, Restrict(sql, Matching(sql, f, t), after)), limit))
  {
    var where, args := FilterClauses(f) + CursorClauses(f, after), FilterArgs(f) + CursorArgs(after) + [IntArg(limit)];
    PlaceholdersMatch(f, after, limit);
    forall id | id in t ensures AllHold(sql, where, args, id, t[id]) == Some(Wanted(sql, f, after, id, t[id])) {
      WhereDenotes(sql, f, after, [IntArg(limit)], id, t[id]);
    }
    assert Number(args, |args|) == Some(limit);
    assert Restrict(sql, Matching(sql, f, t), after)
        == set id | id in t && AllHold(sql, where, args, id, t[id]) == Some(true) :: Key(t[id].createdAt, id);
  }

  // ---- what UpdateRoom builds ----

  /** The optional fields of PATCH /admin/rooms/{roomId}. */
  datatype RoomPatch = RoomPatch(
    maxMembers: Option<int>,
    visibility: Option<string>,
    name: Option<string>,
    topic: Option<string>)

  datatype Column = MaxMembers | Visibility | Name | Topic

  /** column = $p */
  datatype Assignment = Assignment(column: Column, p: nat)

  /** What fits an INTEGER column. */
  predicate FitsInteger(n: int) {
    -0x8000_0000 <= n < 0x8000_0000
  }

  /** The columns' checks and types: visibility is 'public' or 'private', and max_members an INTEGER. */
  predicate RowAllowed(r: Room) {
    (r.visibility == "public" || r.visibility == "private") && FitsInteger(r.maxMembers)
  }

  function Assign(r: Room, a: Assignment, args: seq<Arg>): Option<Room> {
    match a.column
    case MaxMembers => (
      match Number(args, a.p)
      case Some(n) => Some(r.(maxMembers := n))
      case None => None
    )
    case _ =>
      match Text(args, a.p)
      case None => None
      case Some(text) =>
        match a.column
        case Visibility => Some(r.(visibility := text))
        case Name => Some(r.(name := Some(text)))
        case _ => Some(r.(topic := text))
  }

  function AssignAll(r: Room, assignments: seq<Assignment>, args: seq<Arg>): Option<Room>
    decreases |assignments|
  {
    if assignments == [] then Some(r)
    else
      match Assign(r, assignments[0], args)
      case Some(next) => AssignAll(next, assignments[1..], args)
      case None => None
  }

  function FieldWise(r: Room, patch: RoomPatch): Room {
    r.(maxMembers := if patch.maxMembers.Some? then patch.maxMembers.value else r.maxMembers,
       visibility := if patch.visibility.Some? then patch.visibility.value else r.visibility,
       name := if patch.name.Some? then patch.name else r.name,
       topic := if patch.topic.Some? then patch.topic.value else r.topic)
  }
}
