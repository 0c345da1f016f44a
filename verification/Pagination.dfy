/** gateway/internal/api/pagination.go: the opaque cursor is base64url over a two-field JSON object. */
module Pagination {
  import opened Outcomes
  import opened Json
  import Base64Url
  import Utf8

  const AFTER_ID := "after_id"
  const AFTER_CREATED_AT := "after_created_at"

  function CursorText(afterId: string, afterCreatedAt: string): string {
    TwoMembers(AFTER_ID, afterId, AFTER_CREATED_AT, afterCreatedAt)
  }

  function EncodeCursor(afterId: string, afterCreatedAt: string): string {
    Base64Url.Encode(Utf8.Encode(CursorText(afterId, afterCreatedAt)))
  }

  function LowerCase(s: string): string {
    seq(|s|, i requires 0 <= i < |s| => if 'A' <= s[i] <= 'Z' then s[i] + 32 as char else s[i])
  }

  /**
   json.Unmarshal into cursorPayload: keys match without regard to case, the last of a repeated key wins, null leaves
   a field as it is, other keys are passed over, and any other value under a known key is a type error.
   */
  function Bind(members: seq<(string, Json)>, id: string, createdAt: string): Option<(string, string)> {
    if members == [] then Some((id, createdAt))
    else
      var (key, value) := members[0];
      if LowerCase(key) == AFTER_ID then
        if value.JString? then Bind(members[1..], value.text, createdAt)
        else if value.JNull? then Bind(members[1..], id, createdAt)
        else None
      else if LowerCase(key) == AFTER_CREATED_AT then
        if value.JString? then Bind(members[1..], id, value.text)
        else if value.JNull? then Bind(members[1..], id, createdAt)
        else None
      else Bind(members[1..], id, createdAt)
  }

  datatype CursorError = InvalidCursor

  function DecodeCursor(cursor: string): Result<(string, string), CursorError> {
    if cursor == "" then Err(InvalidCursor)
    else
      match Base64Url.Decode(cursor)
      case None => Err(InvalidCursor)
      case Some(raw) =>
        match ReadDocument(Utf8.Decode(raw))
        case Some(JObject(members)) => (
          match Bind(members, "", "")
          case None => Err(InvalidCursor)
          case Some((id, createdAt)) =>
            if id == "" || createdAt == "" then Err(InvalidCursor) else Ok((id, createdAt))
        )
        case _ => Err(InvalidCursor)
  }

  lemma PlainKey(key: string)
    requires forall i :: 0 <= i < |key| ==> !('A' <= key[i] <= 'Z')
    ensures LowerCase(key) == key
  {
  }

  lemma BindBoth(id: string, createdAt: string)
    ensures Bind([(AFTER_ID, JString(id)), (AFTER_CREATED_AT, JString(createdAt))], "", "") == Some((id, createdAt))
  {
    var first, second := (AFTER_ID, JString(id)), (AFTER_CREATED_AT, JString(createdAt));
    PlainKey(AFTER_ID);
    PlainKey(AFTER_CREATED_AT);
    assert |AFTER_ID| != |AFTER_CREATED_AT|;
    assert [first, second][1..] == [second];
    assert [second][1..] == [];
    assert Bind([second], id, "") == Bind([], id, createdAt);
  }

  /**
   Decoding an encoded cursor gives both fields back for all texts, and an error exactly when one of them is empty.
   */
  lemma CursorRoundTrip(id: string, createdAt: string)
    ensures DecodeCursor(EncodeCursor(id, createdAt))
            == if id == "" || createdAt == "" then Err(InvalidCursor) else Ok((id, createdAt))
  {
    hide Utf8.Encode, Utf8.Decode, Base64Url.Encode, Base64Url.Decode, ReadDocument, TwoMembers, Bind;
    var text := CursorText(id, createdAt);
    var raw := Utf8.Encode(text);
    Utf8.RoundTrip(text);
    Base64Url.RoundTrip(raw);
    EncodedCursorNotEmpty(id, createdAt);
    TwoMembersRead(AFTER_ID, id, AFTER_CREATED_AT, createdAt);
    BindBoth(id, createdAt);
  }

  /** What is decoded has both parts. */
  lemma DecodedNotEmpty(cursor: string)
    ensures DecodeCursor(cursor).Ok? ==>
              cursor != "" && DecodeCursor(cursor).value.0 != "" && DecodeCursor(cursor).value.1 != ""
  {
  }

  /** The same name but for capital letters. */
  ghost predicate SameName(key: string, field: string) {
    |key| == |field| && forall i :: 0 <= i < |key| ==>
      key[i] == field[i] || ('a' <= field[i] <= 'z' && key[i] as int == field[i] as int - 32)
  }

  lemma LowerCaseIs(key: string, field: string)
    requires forall i :: 0 <= i < |field| ==> !('A' <= field[i] <= 'Z')
    ensures LowerCase(key) == field <==> SameName(key, field)
  {
    if SameName(key, field) {
      assert forall i :: 0 <= i < |key| ==> LowerCase(key)[i] == field[i];
    }
    if LowerCase(key) == field {
      forall i | 0 <= i < |key|
        ensures key[i] == field[i] || ('a' <= field[i] <= 'z' && key[i] as int == field[i] as int - 32)
      {
        assert LowerCase(key)[i] == field[i];
      }
    }
  }

  /** The member decides the field: the last one under its name, in any case, that is not null. */
  ghost predicate Decides(members: seq<(string, Json)>, field: string, i: int, text: string) {
    && 0 <= i < |members| && SameName(members[i].0, field) && members[i].1 == JString(text)
    && forall j :: i < j < |members| ==> !SameName(members[j].0, field) || members[j].1 == JNull
  }

  /** Texts and nulls alone stand under the two names. */
  ghost predicate WellTyped(members: seq<(string, Json)>) {
    forall i :: 0 <= i < |members|
                && (SameName(members[i].0, "after_id") || SameName(members[i].0, "after_created_at")) ==>
      members[i].1.JString? || members[i].1.JNull?
  }

  lemma {:induction false} BindExactly(members: seq<(string, Json)>, id: string, createdAt: string)
    ensures Bind(members, id, createdAt).Some? <==> WellTyped(members)
    ensures Bind(members, id, createdAt).Some? ==>
              && FieldIs(members, "after_id", id, Bind(members, id, createdAt).value.0)
              && FieldIs(members, "after_created_at", createdAt, Bind(members, id, createdAt).value.1)
    decreases |members|
  {
    hide LowerCase, SameName;
    if members != [] {
      var (key, value) := members[0];
      LowerCaseIs(key, "after_id");
      LowerCaseIs(key, "after_created_at");
      var rest := members[1..];
      var known := value.JString?;
      assert members == [members[0]] + rest;
      WellTypedRest(members);
      BindExactly(rest, if LowerCase(key) == AFTER_ID && known then value.text else id,
                  if LowerCase(key) == AFTER_CREATED_AT && known then value.text else createdAt);
      assert AFTER_ID[6] != AFTER_CREATED_AT[6];
      hide WellTyped;
      if Bind(members, id, createdAt).Some? {
        var r := Bind(members, id, createdAt).value;
        FieldOfRest(members, "after_id", id, r.0);
        FieldOfRest(members, "after_created_at", createdAt, r.1);
      }
    }
  }

  /** Either a member decides the field, or it keeps what it was. */
  ghost predicate FieldIs(members: seq<(string, Json)>, field: string, was: string, now: string) {
    || (exists i :: Decides(members, field, i, now))
    || (now == was && forall i :: 0 <= i < |members| && SameName(members[i].0, field) ==> members[i].1 == JNull)
  }

  lemma WellTypedRest(members: seq<(string, Json)>)
    requires members != []
    ensures WellTyped(members)
            <==> && WellTyped(members[1..])
                 && (SameName(members[0].0, "after_id") || SameName(members[0].0, "after_created_at") ==>
                       members[0].1.JString? || members[0].1.JNull?)
  {
    hide SameName;
    var rest := members[1..];
    assert forall i :: 0 < i < |members| ==> members[i] == rest[i - 1];
  }

  lemma FieldOfRest(members: seq<(string, Json)>, field: string, was: string, now: string)
    requires members != []
    requires SameName(members[0].0, field) ==> members[0].1.JString? || members[0].1.JNull?
    requires FieldIs(members[1..], field,
                     if SameName(members[0].0, field) && members[0].1.JString? then members[0].1.text else was, now)
    ensures FieldIs(members, field, was, now)
  {
    hide SameName;
    var rest := members[1..];
    assert forall i :: 0 < i < |members| ==> members[i] == rest[i - 1];
    if i :| Decides(rest, field, i, now) {
      assert Decides(members, field, i + 1, now);
    } else if SameName(members[0].0, field) && members[0].1.JString? {
      assert Decides(members, field, 0, now);
    }
  }

  lemma OneDecides(members: seq<(string, Json)>, field: string)
    ensures forall i, j, a, b :: Decides(members, field, i, a) && Decides(members, field, j, b) ==> a == b
  {
    hide SameName;
  }

  lemma FieldNotEmpty(members: seq<(string, Json)>, field: string, now: string)
    requires FieldIs(members, field, "", now)
    ensures now != "" ==> exists i :: Decides(members, field, i, now)
    ensures now == "" ==> forall i, a :: Decides(members, field, i, a) ==> a == ""
  {
    hide SameName;
    if i :| Decides(members, field, i, now) {
      OneDecides(members, field);
    }
  }

  /** What a cursor decodes to, and that every other cursor is refused. */
  lemma DecodedExactly(cursor: string, id: string, createdAt: string)
    ensures DecodeCursor(cursor) == Ok((id, createdAt))
            <==> && cursor != "" && id != "" && createdAt != "" && Base64Url.Decode(cursor).Some?
                 && var document := ReadDocument(Utf8.Decode(Base64Url.Decode(cursor).value));
                    && document.Some? && document.value.JObject? && WellTyped(document.value.members)
                    && (exists i :: Decides(document.value.members, "after_id", i, id))
                    && (exists i :: Decides(document.value.members, "after_created_at", i, createdAt))
    ensures DecodeCursor(cursor).Err? ==> DecodeCursor(cursor) == Err(InvalidCursor)
  {
    hide Base64Url.Decode, ReadDocument, Utf8.Decode, Bind, LowerCase, SameName;
    if Base64Url.Decode(cursor).Some? {
      var document := ReadDocument(Utf8.Decode(Base64Url.Decode(cursor).value));
      if document.Some? && document.value.JObject? {
        var members := document.value.members;
        BindExactly(members, "", "");
        OneDecides(members, "after_id");
        OneDecides(members, "after_created_at");
        hide WellTyped;
        if Bind(members, "", "").Some? {
          var r := Bind(members, "", "").value;
          FieldNotEmpty(members, "after_id", r.0);
          FieldNotEmpty(members, "after_created_at", r.1);
          hide Decides, FieldIs;
        }
      }
    }
  }

  lemma EncodedCursorNotEmpty(id: string, createdAt: string)
    ensures EncodeCursor(id, createdAt) != ""
  {
    var text := CursorText(id, createdAt);
    assert text[0] == '{';
    Utf8.NotEmpty(text);
    Base64Url.NotEmpty(Utf8.Encode(text));
  }

  /** A text without quotes, backslashes, control characters and the characters that HTML and JavaScript mind. */
  predicate Plain(s: string) {
    forall i :: 0 <= i < |s| ==> s[i] >= ' ' && s[i] !in "\"\\<>&\U{2028}\U{2029}"
  }

  lemma {:induction false} PlainStays(s: string)
    requires Plain(s)
    ensures EscapeAll(s) == s
  {
    if s != [] {
      assert forall i :: 0 < i < |s| ==> s[1..][i - 1] == s[i];
      PlainStays(s[1..]);
      assert s == [s[0]] + s[1..];
    }
  }

  lemma PlainMember(key: string, text: string, tail: string)
    requires Plain(key) && Plain(text)
    ensures Member(key, text, tail) == "\"" + key + "\":\"" + text + "\"" + tail
  {
    PlainStays(key);
    PlainStays(text);
    assert "\":\"" == "\"" + (":" + "\"");
    Regroup("\"", key, "\"", ":" + "\"", text, "\"", tail);
    assert ":" + ("\"" + (text + "\"" + tail)) == (":" + "\"") + (text + ("\"" + tail));
  }

  lemma Regroup(a: string, b: string, c: string, d: string, e: string, f: string, g: string)
    ensures a + (b + c + (d + (e + (f + g)))) == a + b + (c + d) + e + f + g
  {
  }

  /** What stands in a cursor of plain texts. */
  lemma CursorReads(id: string, createdAt: string)
    requires Plain(id) && Plain(createdAt)
    ensures var second := "\"" + "after_created_at" + "\":\"" + createdAt + "\"" + "}";
            CursorText(id, createdAt) == "{" + ("\"" + "after_id" + "\":\"" + id + "\"" + ("," + second))
  {
    assert Plain("after_id") && Plain("after_created_at");
    hide Plain, Member;
    PlainMember("after_created_at", createdAt, "}");
    PlainMember("after_id", id, "," + Member("after_created_at", createdAt, "}"));
  }
}
