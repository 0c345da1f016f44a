/**
 The part of Go's encoding/json that cursors pass through: json.Marshal of a string, and json.Unmarshal's
 reading of a whole document (RFC 8259), of which an object's members and its strings are kept.
 */
module Json {
  import opened Hex
  import opened Outcomes

  // ---- writing ----

  function UnicodeEscape(n: int): string
    requires 0 <= n < 0x10000
  {
    ['\\', 'u', Nibble(n / 4096), Nibble(n / 256 % 16), Nibble(n / 16 % 16), Nibble(n % 16)]
  }

  /** Quotes, backslashes and control characters are escaped, and so are the characters HTML and JavaScript mind. */
  function Escape(c: char): string {
    if c == '"' || c == '\\' then ['\\', c]
    else if c == '\U{0008}' then "\\b"
    else if c == '\U{000C}' then "\\f"
    else if c == '\n' then "\\n"
    else if c == '\r' then "\\r"
    else if c == '\t' then "\\t"
    else if c < ' ' || c == '<' || c == '>' || c == '&' || c == '\U{2028}' || c == '\U{2029}' then
      UnicodeEscape(c as int)
    else [c]
  }

  function EscapeAll(s: string): string {
    if s == [] then [] else Escape(s[0]) + EscapeAll(s[1..])
  }

  // ---- reading ----

  datatype Json =
    | JString(text: string)
    | JObject(members: seq<(string, Json)>)
    | JNull
    | JOther

  /** Nesting beyond this depth is refused. */
  const MAX_DEPTH := 10000

  function SkipSpace(s: string): (rest: string)
    ensures |rest| <= |s|
  {
    if s != [] && (s[0] == ' ' || s[0] == '\t' || s[0] == '\r' || s[0] == '\n') then SkipSpace(s[1..]) else s
  }

  function Hex4(s: string): (v: Option<int>)
    requires |s| == 4
    ensures v.Some? ==> 0 <= v.value < 0x10000
  {
    match (NibbleValue(s[0]), NibbleValue(s[1]))
    case (Some(a), Some(b)) => (
      match (NibbleValue(s[2]), NibbleValue(s[3]))
      case (Some(c), Some(d)) => Some(a * 4096 + b * 256 + c * 16 + d)
      case _ => None
    )
    case _ => None
  }

  /** The code unit of an escape "\uXXXX" at the start of the text. */
  function CodeUnit(s: string): (v: Option<int>)
    ensures v.Some? ==> |s| >= 6 && 0 <= v.value < 0x10000
  {
    if |s| >= 6 && s[0] == '\\' && s[1] == 'u' then Hex4(s[2..6]) else None
  }

  /** A surrogate pair spells one character; a surrogate on its own spells U+FFFD. */
  function ReadCodeUnits(s: string): (r: Option<(char, string)>)
    ensures r.Some? ==> |r.value.1| < |s|
  {
    match CodeUnit(s)
    case None => None
    case Some(u) =>
      if !(0xD800 <= u < 0xE000) then Some((u as char, s[6..]))
      else (
        match CodeUnit(s[6..])
        case Some(low) =>
          if u < 0xDC00 && 0xDC00 <= low < 0xE000 then
            Some(((0x10000 + (u - 0xD800) * 1024 + (low - 0xDC00)) as char, s[12..]))
          else Some(('\U{FFFD}', s[6..]))
        case None => Some(('\U{FFFD}', s[6..]))
      )
  }

  function Unescape(c: char): Option<char> {
    if c == '"' || c == '\\' || c == '/' then Some(c)
    else if c == 'b' then Some('\U{0008}')
    else if c == 'f' then Some('\U{000C}')
    else if c == 'n' then Some('\n')
    else if c == 'r' then Some('\r')
    else if c == 't' then Some('\t')
    else None
  }

  /** One character of a string body that is neither its end nor broken. */
  function ReadChar(s: string): (r: Option<(char, string)>)
    ensures r.Some? ==> |r.value.1| < |s|
  {
    if s == [] || s[0] < ' ' then None
    else if s[0] != '\\' then Some((s[0], s[1..]))
    else if |s| < 2 then None
    else if s[1] == 'u' then ReadCodeUnits(s)
    else
      match Unescape(s[1])
      case Some(c) => Some((c, s[2..]))
      case None => None
  }

  /** The rest of a string after its opening quote, and the text after its closing one. */
  function ReadString(s: string): (r: Option<(string, string)>)
    ensures r.Some? ==> |r.value.1| < |s|
    decreases |s|
  {
    if s != [] && s[0] == '"' then Some(([], s[1..]))
    else
      match ReadChar(s)
      case None => None
      case Some((c, rest)) =>
        match ReadString(rest)
        case None => None
        case Some((text, after)) => Some(([c] + text, after))
  }

  predicate IsDigit(c: char) {
    '0' <= c <= '9'
  }

  function SkipDigits(s: string): (rest: string)
    ensures |rest| <= |s|
  {
    if s != [] && IsDigit(s[0]) then SkipDigits(s[1..]) else s
  }

  function SkipInteger(s: string): (r: Option<string>)
    ensures r.Some? ==> |r.value| < |s|
  {
    var t := if s != [] && s[0] == '-' then s[1..] else s;
    if t == [] || !IsDigit(t[0]) then None
    else if t[0] == '0' then Some(t[1..])
    else Some(SkipDigits(t[1..]))
  }

  function SkipFraction(s: string): (r: Option<string>)
    ensures r.Some? ==> |r.value| <= |s|
  {
    if s == [] || s[0] != '.' then Some(s)
    else if |s| < 2 || !IsDigit(s[1]) then None
    else Some(SkipDigits(s[2..]))
  }

  function SkipExponent(s: string): (r: Option<string>)
    ensures r.Some? ==> |r.value| <= |s|
  {
    if s == [] || (s[0] != 'e' && s[0] != 'E') then Some(s)
    else
      var t := if |s| >= 2 && (s[1] == '+' || s[1] == '-') then s[2..] else s[1..];
      if t == [] || !IsDigit(t[0]) then None else Some(SkipDigits(t[1..]))
  }

  function SkipNumber(s: string): (r: Option<string>)
    ensures r.Some? ==> |r.value| < |s|
  {
    match SkipInteger(s)
    case None => None
    case Some(s1) =>
      match SkipFraction(s1)
      case None => None
      case Some(s2) => SkipExponent(s2)
  }

  function ReadValue(s0: string, depth: nat): (r: Option<(Json, string)>)
    ensures r.Some? ==> |r.value.1| < |s0|
    decreases |s0|, 1
  {
    var s := SkipSpace(s0);
    if s == [] then None
    else if s[0] == '"' then (
      match ReadString(s[1..])
      case Some((text, rest)) => Some((JString(text), rest))
      case None => None
    )
    else if s[0] == '{' then (
      var inner := SkipSpace(s[1..]);
      if depth >= MAX_DEPTH then None
      else if inner != [] && inner[0] == '}' then Some((JObject([]), inner[1..]))
      else
        match ReadMembers(s[1..], depth + 1)
        case Some((members, rest)) => Some((JObject(members), rest))
        case None => None
    )
    else if s[0] == '[' then (
      var inner := SkipSpace(s[1..]);
      if depth >= MAX_DEPTH then None
      else if inner != [] && inner[0] == ']' then Some((JOther, inner[1..]))
      else
        match SkipElements(s[1..], depth + 1)
        case Some(rest) => Some((JOther, rest))
        case None => None
    )
    else if |s| >= 4 && s[..4] == "null" then Some((JNull, s[4..]))
    else if |s| >= 4 && s[..4] == "true" then Some((JOther, s[4..]))
    else if |s| >= 5 && s[..5] == "false" then Some((JOther, s[5..]))
    else
      match SkipNumber(s)
      case Some(rest) => Some((JOther, rest))
      case None => None
  }

  /** One or more members up to and with the closing brace. */
  function ReadMembers(s0: string, depth: nat): (r: Option<(seq<(string, Json)>, string)>)
    ensures r.Some? ==> |r.value.1| < |s0|
    decreases |s0|, 0
  {
    var s := SkipSpace(s0);
    if s == [] || s[0] != '"' then None
    else
      match ReadString(s[1..])
      case None => None
      case Some((key, afterKey)) =>
        var colon := SkipSpace(afterKey);
        if colon == [] || colon[0] != ':' then None
        else
          match ReadValue(colon[1..], depth)
          case None => None
          case Some((value, afterValue)) =>
            var end := SkipSpace(afterValue);
            if end == [] then None
            else if end[0] == '}' then Some(([(key, value)], end[1..]))
            else if end[0] != ',' then None
            else
              match ReadMembers(end[1..], depth)
              case None => None
              case Some((more, rest)) => Some(([(key, value)] + more, rest))
  }

  function SkipElements(s0: string, depth: nat): (r: Option<string>)
    ensures r.Some? ==> |r.value| < |s0|
    decreases |s0|, 2
  {
    match ReadValue(s0, depth)
    case None => None
    case Some((_, afterValue)) =>
      var end := SkipSpace(afterValue);
      if end == [] then None
      else if end[0] == ']' then Some(end[1..])
      else if end[0] != ',' then None
      else SkipElements(end[1..], depth)
  }

  /** A whole document: one value with nothing but white space after it. */
  function ReadDocument(s: string): Option<Json> {
    match ReadValue(s, 0)
    case Some((value, rest)) => if SkipSpace(rest) == [] then Some(value) else None
    case None => None
  }

  // ---- a written string is read back ----

  lemma Hex4RoundTrip(n: int)
    requires 0 <= n < 0x10000
    ensures Hex4([Nibble(n / 4096), Nibble(n / 256 % 16), Nibble(n / 16 % 16), Nibble(n % 16)]) == Some(n)
  {
    var a, b, c, d := n / 4096, n / 256 % 16, n / 16 % 16, n % 16;
    FourHexDigits(a, b, c, d);
    assert n == n / 16 * 16 + d && n / 16 == n / 256 * 16 + c && n / 256 == n / 4096 * 16 + b;
  }

  lemma FourHexDigits(a: int, b: int, c: int, d: int)
    requires 0 <= a < 16 && 0 <= b < 16 && 0 <= c < 16 && 0 <= d < 16
    ensures Hex4([Nibble(a), Nibble(b), Nibble(c), Nibble(d)]) == Some(a * 4096 + b * 256 + c * 16 + d)
  {
    NibbleRoundTrip(a);
    NibbleRoundTrip(b);
    NibbleRoundTrip(c);
    NibbleRoundTrip(d);
  }

  lemma CodeUnitRead(hex: string, n: int, tail: string)
    requires |hex| == 4 && Hex4(hex) == Some(n) && !(0xD800 <= n < 0xE000)
    ensures ReadChar("\\u" + hex + tail) == Some((n as char, tail))
  {
    var s := "\\u" + hex + tail;
    assert s[2..6] == hex;
    assert s[6..] == tail;
  }

  lemma UnicodeEscapeRead(n: int, tail: string)
    requires 0 <= n < 0x10000 && !(0xD800 <= n < 0xE000)
    ensures ReadChar(UnicodeEscape(n) + tail) == Some((n as char, tail))
  {
    var hex := [Nibble(n / 4096), Nibble(n / 256 % 16), Nibble(n / 16 % 16), Nibble(n % 16)];
    Hex4RoundTrip(n);
    CodeUnitRead(hex, n, tail);
    assert UnicodeEscape(n) == "\\u" + hex;
  }

  lemma EscapeRead(c: char, tail: string)
    ensures var s := Escape(c) + tail;
            s != [] && s[0] != '"' && ReadChar(s) == Some((c, tail))
  {
    var s := Escape(c) + tail;
    assert s[0] == Escape(c)[0];
    if c < ' ' || c == '<' || c == '>' || c == '&' || c == '\U{2028}' || c == '\U{2029}' {
      UnicodeEscapeRead(c as int, tail);
    }
    if |Escape(c)| == 2 {
      assert s[1] == Escape(c)[1] && s[2..] == tail;
    } else if |Escape(c)| == 1 {
      assert s[1..] == tail;
    }
  }

  lemma {:induction false} StringRead(text: string, tail: string)
    ensures ReadString(EscapeAll(text) + "\"" + tail) == Some((text, tail))
  {
    var s := EscapeAll(text) + "\"" + tail;
    if text == [] {
      assert s[0] == '"' && s[1..] == tail;
    } else {
      var inner := EscapeAll(text[1..]) + "\"" + tail;
      assert s == Escape(text[0]) + inner;
      EscapeRead(text[0], inner);
      StringRead(text[1..], tail);
      assert text == [text[0]] + text[1..];
    }
  }

  /** An object with two string members, as json.Marshal writes a struct with two string fields. */
  function TwoMembers(key1: string, text1: string, key2: string, text2: string): string {
    "{" + Member(key1, text1, "," + Member(key2, text2, "}"))
  }

  /** A member with a string value, standing before the text `tail`. */
  function Member(key: string, text: string, tail: string): string {
    "\"" + (EscapeAll(key) + "\"" + (":" + ("\"" + (EscapeAll(text) + "\"" + tail))))
  }

  lemma TextRead(text: string, tail: string, depth: nat)
    ensures ReadValue("\"" + (EscapeAll(text) + "\"" + tail), depth) == Some((JString(text), tail))
  {
    var value := "\"" + (EscapeAll(text) + "\"" + tail);
    assert value[1..] == EscapeAll(text) + "\"" + tail;
    StringRead(text, tail);
  }

  lemma MemberRead(key: string, text: string, tail: string, depth: nat)
    requires tail != [] && (tail[0] == ',' || tail[0] == '}')
    ensures ReadMembers(Member(key, text, tail), depth) ==
            if tail[0] == '}' then Some(([(key, JString(text))], tail[1..]))
            else
              match ReadMembers(tail[1..], depth)
              case None => None
              case Some((more, rest)) => Some(([(key, JString(text))] + more, rest))
  {
    hide EscapeAll, ReadString, ReadValue;
    var value := "\"" + (EscapeAll(text) + "\"" + tail);
    var colon := ":" + value;
    var s := Member(key, text, tail);
    assert s[1..] == EscapeAll(key) + "\"" + colon;
    StringRead(key, colon);
    assert colon[1..] == value;
    TextRead(text, tail, depth);
  }

  lemma ObjectRead(first: string, members: seq<(string, Json)>)
    requires first != [] && first[0] == '"' && ReadMembers(first, 1) == Some((members, []))
    ensures ReadDocument("{" + first) == Some(JObject(members))
  {
    var s := "{" + first;
    assert s[1..] == first;
    assert SkipSpace(s) == s;
  }

  lemma TwoMembersRead(key1: string, text1: string, key2: string, text2: string)
    ensures ReadDocument(TwoMembers(key1, text1, key2, text2))
            == Some(JObject([(key1, JString(text1)), (key2, JString(text2))]))
  {
    var second := Member(key2, text2, "}");
    var first := Member(key1, text1, "," + second);
    var m1, m2 := (key1, JString(text1)), (key2, JString(text2));
    assert ("," + second)[1..] == second && "}"[1..] == [];
    assert ReadMembers(second, 1) == Some(([m2], [])) by {
      MemberRead(key2, text2, "}", 1);
    }
    assert ReadMembers(first, 1) == Some(([m1] + [m2], [])) by {
      MemberRead(key1, text1, "," + second, 1);
    }
    assert [m1] + [m2] == [m1, m2];
    ObjectRead(first, [m1, m2]);
  }
}
