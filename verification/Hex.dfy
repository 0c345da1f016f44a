/** Go's encoding/hex: lower-case writing, reading in either case. */
module Hex {
  import opened Outcomes
  import opened Base64Url

  function Nibble(d: int): char
    requires 0 <= d < 16
  {
    if d < 10 then '0' + d as char else 'a' + (d - 10) as char
  }

  function NibbleValue(c: char): (v: Option<int>)
    ensures v.Some? ==> 0 <= v.value < 16
  {
    if '0' <= c <= '9' then Some(c as int - '0' as int)
    else if 'a' <= c <= 'f' then Some(c as int - 'a' as int + 10)
    else if 'A' <= c <= 'F' then Some(c as int - 'A' as int + 10)
    else None
  }

  function EncodeHex(b: seq<Byte>): string {
    if b == [] then [] else [Nibble(b[0] / 16), Nibble(b[0] % 16)] + EncodeHex(b[1..])
  }

  function DecodeHex(s: string): Option<seq<Byte>> {
    if s == [] then Some([])
    else if |s| == 1 then None
    else
      match (NibbleValue(s[0]), NibbleValue(s[1]))
      case (Some(high), Some(low)) => (
        match DecodeHex(s[2..])
        case Some(rest) => Some([high * 16 + low] + rest)
        case None => None
      )
      case _ => None
  }

  lemma NibbleRoundTrip(d: int)
    requires 0 <= d < 16
    ensures NibbleValue(Nibble(d)) == Some(d)
  {
  }

  lemma {:induction false} HexRoundTrip(b: seq<Byte>)
    ensures DecodeHex(EncodeHex(b)) == Some(b)
  {
    if b != [] {
      var s, rest := EncodeHex(b), EncodeHex(b[1..]);
      NibbleRoundTrip(b[0] / 16);
      NibbleRoundTrip(b[0] % 16);
      HexRoundTrip(b[1..]);
      assert s[2..] == rest;
      assert b == [b[0]] + b[1..];
    }
  }

  /** Each byte is written as two of the sixteen digits, the high one first. */
  lemma {:induction false} HexDigits(b: seq<Byte>, i: nat)
    requires i < |b|
    ensures |EncodeHex(b)| == 2 * |b|
    ensures var digits := "0123456789abcdef";
            EncodeHex(b)[2 * i] == digits[b[i] / 16] && EncodeHex(b)[2 * i + 1] == digits[b[i] % 16]
  {
    var digits := "0123456789abcdef";
    assert forall d :: 0 <= d < 16 ==> digits[d] == Nibble(d);
    if |b| > 1 {
      HexDigits(b[1..], if i == 0 then 0 else i - 1);
    }
  }

  predicate IsHexDigit(c: char) {
    '0' <= c <= '9' || 'a' <= c <= 'f' || 'A' <= c <= 'F'
  }

  /** What is read is any even number of digits, in either case. */
  lemma {:induction false} HexReadsExactly(s: string)
    ensures DecodeHex(s).Some? <==> |s| % 2 == 0 && forall i :: 0 <= i < |s| ==> IsHexDigit(s[i])
    decreases |s|
  {
    if |s| >= 2 {
      HexReadsExactly(s[2..]);
      DigitIsRead(s[0]);
      DigitIsRead(s[1]);
      hide NibbleValue, IsHexDigit, Nibble;
      assert forall i :: 2 <= i < |s| ==> s[i] == s[2..][i - 2];
    }
  }

  /** Writing what was read gives the same digits, in lower case. */
  lemma {:induction false} HexReadBack(s: string, i: nat)
    requires DecodeHex(s).Some? && i < |s|
    ensures var text := EncodeHex(DecodeHex(s).value);
            |text| == |s| && text[i] == if 'A' <= s[i] <= 'F' then s[i] - 'A' + 'a' else s[i]
    decreases |s|
  {
    DigitIsRead(s[0]);
    DigitIsRead(s[1]);
    hide NibbleValue, Nibble;
    var high, low, rest := NibbleValue(s[0]).value, NibbleValue(s[1]).value, DecodeHex(s[2..]).value;
    assert DecodeHex(s).value == [high * 16 + low] + rest;
    assert EncodeHex(DecodeHex(s).value) == [Nibble(high), Nibble(low)] + EncodeHex(rest);
    if |s| > 2 {
      HexReadBack(s[2..], if i < 2 then 0 else i - 2);
    }
  }

  lemma DigitIsRead(c: char)
    ensures NibbleValue(c).Some? <==> IsHexDigit(c)
    ensures NibbleValue(c).Some? ==> Nibble(NibbleValue(c).value) == if 'A' <= c <= 'F' then c - 'A' + 'a' else c
  {
  }
}
