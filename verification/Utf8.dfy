/** UTF-8 (RFC 3629) the way Go reads it: each byte that starts no valid sequence becomes U+FFFD. */
module Utf8 {
  import opened Base64Url
  import opened Outcomes

  const REPLACEMENT := '\U{FFFD}'

  function EncodeChar(c: char): (b: seq<Byte>)
    ensures 1 <= |b| <= 4
  {
    var n := c as int;
    if n < 0x80 then [n]
    else if n < 0x800 then [0xC0 + n / 64, 0x80 + n % 64]
    else if n < 0x10000 then [0xE0 + n / 4096, 0x80 + n / 64 % 64, 0x80 + n % 64]
    else [0xF0 + n / 262144, 0x80 + n / 4096 % 64, 0x80 + n / 64 % 64, 0x80 + n % 64]
  }

  function Encode(s: string): seq<Byte> {
    if s == [] then [] else EncodeChar(s[0]) + Encode(s[1..])
  }

  predicate Continues(b: seq<Byte>, i: nat) {
    i < |b| && 0x80 <= b[i] < 0xC0
  }

  /** The characters that two, three and four bytes spell, or U+FFFD where the spelling is refused. */
  function Pair(x: int, y: int): (c: char)
    requires 0xC2 <= x < 0xE0 && 0x80 <= y < 0xC0
  {
    ((x - 0xC0) * 64 + (y - 0x80)) as char
  }

  function Triple(x: int, y: int, z: int): Option<char>
    requires 0xE0 <= x < 0xF0 && 0x80 <= y < 0xC0 && 0x80 <= z < 0xC0
  {
    var n := (x - 0xE0) * 4096 + (y - 0x80) * 64 + (z - 0x80);
    if n < 0x800 || 0xD800 <= n < 0xE000 then None else Some(n as char)
  }

  function Quad(x: int, y: int, z: int, w: int): Option<char>
    requires 0xF0 <= x < 0xF5 && 0x80 <= y < 0xC0 && 0x80 <= z < 0xC0 && 0x80 <= w < 0xC0
  {
    var n := (x - 0xF0) * 262144 + (y - 0x80) * 4096 + (z - 0x80) * 64 + (w - 0x80);
    if n < 0x10000 || 0x110000 <= n then None else Some(n as char)
  }

  function OrReplacement(c: Option<char>, size: nat): (char, nat) {
    if c.Some? then (c.value, size) else (REPLACEMENT, 1)
  }

  /** First character of a non-empty byte string, and how many bytes it takes. */
  function DecodeChar(b: seq<Byte>): (r: (char, nat))
    requires b != []
    ensures 1 <= r.1 <= |b|
  {
    if b[0] < 0x80 then (b[0] as char, 1)
    else if 0xC2 <= b[0] < 0xE0 && Continues(b, 1) then (Pair(b[0], b[1]), 2)
    else if 0xE0 <= b[0] < 0xF0 && Continues(b, 1) && Continues(b, 2) then
      OrReplacement(Triple(b[0], b[1], b[2]), 3)
    else if 0xF0 <= b[0] < 0xF5 && Continues(b, 1) && Continues(b, 2) && Continues(b, 3) then
      OrReplacement(Quad(b[0], b[1], b[2], b[3]), 4)
    else (REPLACEMENT, 1)
  }

  function Decode(b: seq<Byte>): string {
    if b == [] then []
    else
      var (c, n) := DecodeChar(b);
      [c] + Decode(b[n..])
  }

  lemma TripleInverts(n: int)
    requires 0x800 <= n < 0x10000 && !(0xD800 <= n < 0xE000)
    ensures Triple(0xE0 + n / 4096, 0x80 + n / 64 % 64, 0x80 + n % 64) == Some(n as char)
  {
    assert n == n / 4096 * 4096 + n / 64 % 64 * 64 + n % 64;
  }

  lemma QuadInverts(n: int)
    requires 0x10000 <= n < 0x110000
    ensures Quad(0xF0 + n / 262144, 0x80 + n / 4096 % 64, 0x80 + n / 64 % 64, 0x80 + n % 64) == Some(n as char)
  {
    assert n == n / 262144 * 262144 + n / 4096 % 64 * 4096 + n / 64 % 64 * 64 + n % 64;
  }

  lemma CharRoundTrip(c: char, rest: seq<Byte>)
    ensures DecodeChar(EncodeChar(c) + rest) == (c, |EncodeChar(c)|)
  {
    var n := c as int;
    var e := EncodeChar(c);
    var b := e + rest;
    assert b[0] == e[0];
    if n < 0x80 {
    } else if n < 0x800 {
      assert b[1] == e[1];
    } else if n < 0x10000 {
      assert b[1] == e[1] && b[2] == e[2];
      TripleInverts(n);
    } else {
      assert b[1] == e[1] && b[2] == e[2] && b[3] == e[3];
      QuadInverts(n);
    }
  }

  lemma {:induction false} RoundTrip(s: string)
    ensures Decode(Encode(s)) == s
  {
    if s != [] {
      var head, rest := EncodeChar(s[0]), Encode(s[1..]);
      CharRoundTrip(s[0], rest);
      assert (head + rest)[|head|..] == rest;
      RoundTrip(s[1..]);
      assert s == [s[0]] + s[1..];
    }
  }

  /** Characters of the examples in section 7 of RFC 3629. */
  lemma Rfc3629Examples()
    ensures EncodeChar('A') == [0x41] && EncodeChar('\U{0391}') == [0xCE, 0x91]
    ensures EncodeChar('\U{2262}') == [0xE2, 0x89, 0xA2] && EncodeChar('\U{D55C}') == [0xED, 0x95, 0x9C]
    ensures EncodeChar('\U{8A9E}') == [0xE8, 0xAA, 0x9E] && EncodeChar('\U{FEFF}') == [0xEF, 0xBB, 0xBF]
    ensures EncodeChar('\U{233B4}') == [0xF0, 0xA3, 0x8E, 0xB4]
  {
  }

  /** A character takes one to four bytes by its size, all but the first of which are continuation bytes. */
  lemma {:induction false} EncodedLength(s: string)
    ensures s != "" ==>
              |Encode(s)| == |Encode(s[1..])| + if s[0] as int < 0x80 then 1 else if s[0] as int < 0x800 then 2
                                                else if s[0] as int < 0x10000 then 3 else 4
    ensures s != "" ==> forall i :: 0 <= i < |Encode(s)| - |Encode(s[1..])| ==>
                          (0x80 <= Encode(s)[i] < 0xC0 <==> i > 0)
  {
  }

  lemma NotEmpty(s: string)
    requires s != []
    ensures Encode(s) != []
  {
  }
}
