/**
 The rooms table and what PostgreSQL does with it: filtering, the row order (created_at DESC, room_id DESC),
 and the row-value comparison that keyset pagination rests on.
 */
module RoomTable {
  import opened Outcomes

  datatype Room = Room(
    name: Option<string>,
    topic: string,
    visibility: string,
    status: string,
    createdAt: int,
    creatorUserId: Option<string>,
    maxMembers: int,
    archivedAt: Option<int>,
    archiveReason: Option<string>)

  /** room_id is the primary key. */
  type Table = map<string, Room>

  /**
   The database's own conventions. A collation is a strict total order on texts; since texts are countable, every
   such order is that of an injective map into the reals. `ilike(name, search)` is name ILIKE '%' || search || '%'.
   */
  datatype Sql = Sql(collate: string -> real, ilike: (string, string) -> bool)

  ghost predicate Sound(sql: Sql) {
    forall a, b :: sql.collate(a) == sql.collate(b) ==> a == b
  }

  datatype Key = Key(createdAt: int, roomId: string)

  /** The row-value comparison a < b. */
  predicate Below(sql: Sql, a: Key, b: Key) {
    a.createdAt < b.createdAt || (a.createdAt == b.createdAt && sql.collate(a.roomId) < sql.collate(b.roomId))
  }

  /** Search text and status to keep; empty means any. */
  datatype Filter = Filter(search: string, status: string)

  /** A NULL name matches no search. */
  predicate Matches(sql: Sql, f: Filter, r: Room) {
    && (f.search == "" || (r.name.Some? && sql.ilike(r.name.value, f.search)))
    && (f.status == "" || r.status == f.status)
  }

  function Matching(sql: Sql, f: Filter, t: Table): set<Key> {
    set id | id in t && Matches(sql, f, t[id]) :: Key(t[id].createdAt, id)
  }

  function Restrict(sql: Sql, keys: set<Key>, after: Option<Key>): set<Key> {
    set k | k in keys && (after.Some? ==> Below(sql, k, after.value))
  }

  // ---- ORDER BY created_at DESC, room_id DESC ----

  predicate IsTop(sql: Sql, m: Key, keys: set<Key>) {
    m in keys && forall k :: k in keys && k != m ==> Below(sql, k, m)
  }

  lemma Total(sql: Sql, a: Key, b: Key)
    requires Sound(sql) && a != b
    ensures Below(sql, a, b) <==> !Below(sql, b, a)
  {
    assert sql.collate(a.roomId) == sql.collate(b.roomId) ==> a.roomId == b.roomId;
  }

  lemma {:induction false} TopExists(sql: Sql, keys: set<Key>)
    requires Sound(sql) && keys != {}
    ensures exists m :: IsTop(sql, m, keys)
    decreases |keys|
  {
    var k :| k in keys;
    var rest := keys - {k};
    if rest == {} {
      assert keys == {k};
      assert IsTop(sql, k, keys);
    } else {
      TopExists(sql, rest);
      var m :| IsTop(sql, m, rest);
      Total(sql, k, m);
      var top := if Below(sql, k, m) then m else k;
      forall x | x in keys && x != top ensures Below(sql, x, top) {
        assert x == k || x == m || (x in rest && Below(sql, x, m));
      }
      assert IsTop(sql, top, keys);
    }
  }

  function Listing(sql: Sql, keys: set<Key>): (s: seq<Key>)
    requires Sound(sql)
    ensures |s| == |keys|
    ensures forall k :: k in s <==> k in keys
    decreases |keys|
  {
    if keys == {} then []
    else
      TopExists(sql, keys);
      var m :| IsTop(sql, m, keys);
      [m] + Listing(sql, keys - {m})
  }

  ghost predicate Descending(sql: Sql, s: seq<Key>) {
    forall i, j :: 0 <= i < j < |s| ==> Below(sql, s[j], s[i])
  }

  lemma TopThenRest(sql: Sql, m: Key, rest: seq<Key>)
    requires Descending(sql, rest) && forall k :: k in rest ==> Below(sql, k, m)
    ensures Descending(sql, [m] + rest)
  {
    var s := [m] + rest;
    forall i, j | 0 <= i < j < |s| ensures Below(sql, s[j], s[i]) {
      assert s[j] == rest[j - 1];
    }
  }

  lemma {:induction false} ListingDescends(sql: Sql, keys: set<Key>)
    requires Sound(sql)
    ensures Descending(sql, Listing(sql, keys))
    decreases |keys|
  {
    if keys != {} {
      TopExists(sql, keys);
      var m :| IsTop(sql, m, keys);
      var rest := Listing(sql, keys - {m});
      ListingDescends(sql, keys - {m});
      assert Listing(sql, keys) == [m] + rest;
      TopThenRest(sql, m, rest);
    }
  }

  /** The order leaves no choice: rows in descending order are determined by their set. */
  lemma {:induction false} DescendingUnique(sql: Sql, s: seq<Key>, t: seq<Key>)
    requires Descending(sql, s) && Descending(sql, t)
    requires forall k :: k in s <==> k in t
    ensures s == t
    decreases |s|
  {
    assert t == [] || t[0] in t;
    if s != [] {
      assert s[0] in s;
      assert t[0] in s;
      var i :| 0 <= i < |t| && t[i] == s[0];
      var j :| 0 <= j < |s| && s[j] == t[0];
      assert i == 0 && j == 0;
      forall k ensures k in s[1..] <==> k in t[1..] {
        RestOf(sql, s, k);
        RestOf(sql, t, k);
      }
      DescendingUnique(sql, s[1..], t[1..]);
      assert s == [s[0]] + s[1..] && t == [t[0]] + t[1..];
    }
  }

  lemma RestOf(sql: Sql, s: seq<Key>, k: Key)
    requires s != [] && Descending(sql, s)
    ensures k in s[1..] <==> k in s && k != s[0]
  {
    if k in s[1..] {
      var i :| 0 <= i < |s[1..]| && s[1..][i] == k;
      assert Below(sql, s[i + 1], s[0]);
    }
  }

  /** What lies below a position is the end of the listing, from the first row below it. */
  lemma ListingBelow(sql: Sql, keys: set<Key>, after: Key, j: nat)
    requires Sound(sql)
    requires j <= |keys|
    requires forall i :: 0 <= i < j ==> !Below(sql, Listing(sql, keys)[i], after)
    requires j < |keys| ==> Below(sql, Listing(sql, keys)[j], after)
    ensures Listing(sql, Restrict(sql, keys, Some(after))) == Listing(sql, keys)[j..]
  {
    var s := Listing(sql, keys);
    var r := Restrict(sql, keys, Some(after));
    ListingDescends(sql, keys);
    ListingDescends(sql, r);
    Suffix(sql, s, after, j);
    assert Descending(sql, s[j..]);
    DescendingUnique(sql, Listing(sql, r), s[j..]);
  }

  lemma Suffix(sql: Sql, s: seq<Key>, after: Key, j: nat)
    requires Descending(sql, s) && j <= |s|
    requires forall i :: 0 <= i < j ==> !Below(sql, s[i], after)
    requires j < |s| ==> Below(sql, s[j], after)
    ensures forall k :: k in s[j..] <==> k in s && Below(sql, k, after)
  {
    forall i | j <= i < |s| ensures s[i] in s[j..] && Below(sql, s[i], after) {
      assert s[j..][i - j] == s[i];
    }
    forall k | k in s[j..] ensures k in s && Below(sql, k, after) {
      var i :| 0 <= i < |s[j..]| && s[j..][i] == k;
      assert s[j + i] == k;
    }
  }
}
