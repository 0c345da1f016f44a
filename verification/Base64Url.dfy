/** Unpadded base64url (section 5 of RFC 4648), as Go's base64.RawURLEncoding does it. */
module Base64Url {
  import opened Outcomes

  type Byte = x: int | 0 <= x < 256

  function Digit(v: int): (c: char)
    requires 0 <= v < 64
  {
    if v < 26 then 'A' + v as char
    else if v < 52 then 'a' + (v - 26) as char
    else if v < 62 then '0' + (v - 52) as char
    else if v == 62 then '-' else '_'
  }

  function Value(c: char): (v: Option<int>)
    ensures v.Some? ==> 0 <= v.value < 64
  {
    if 'A' <= c <= 'Z' then Some(c as int - 'A' as int)
    else if 'a' <= c <= 'z' then Some(c as int - 'a' as int + 26)
    else if '0' <= c <= '9' then Some(c as int - '0' as int + 52)
    else if c == '-' then Some(62)
    else if c == '_' then Some(63)
    else None
  }

  function Encode(b: seq<Byte>): string {
    if |b| == 0 then []
    else if |b| == 1 then [Digit(b[0] / 4), Digit(b[0] % 4 * 16)]
    else if |b| == 2 then
      [Digit(b[0] / 4), Digit(b[0] % 4 * 16 + b[1] / 16), Digit(b[1] % 16 * 4)]
    else
      [Digit(b[0] / 4), Digit(b[0] % 4 * 16 + b[1] / 16), Digit(b[1] % 16 * 4 + b[2] / 64), Digit(b[2] % 64)]
      + Encode(b[3..])
  }

  /** The decoder passes over line breaks wherever they stand. */
  function StripLineBreaks(s: string): string {
    if s == [] then []
    else if s[0] == '\r' || s[0] == '\n' then StripLineBreaks(s[1..])
    else [s[0]] + StripLineBreaks(s[1..])
  }

  /** Left-over low bits of a short last group are not checked. */
  function DecodeGroups(s: string): Option<seq<Byte>> {
    if |s| == 0 then Some([])
    else if |s| == 1 then None
    else
      match (Value(s[0]), Value(s[1]))
      case (Some(v0), Some(v1)) =>
        if |s| == 2 then Some([v0 * 4 + v1 / 16])
        else (
          match Value(s[2])
          case None => None
          case Some(v2) =>
            if |s| == 3 then Some([v0 * 4 + v1 / 16, v1 % 16 * 16 + v2 / 4])
            else (
              match (Value(s[3]), DecodeGroups(s[4..]))
              case (Some(v3), Some(rest)) =>
                Some([v0 * 4 + v1 / 16, v1 % 16 * 16 + v2 / 4, v2 % 4 * 64 + v3] + rest)
              case _ => None
            )
        )
      case _ => None
  }

  function Decode(s: string): Option<seq<Byte>> {
    DecodeGroups(StripLineBreaks(s))
  }

  lemma DigitValue(v: int)
    requires 0 <= v < 64
    ensures Value(Digit(v)) == Some(v)
  {
  }

  lemma {:induction false} GroupsRoundTrip(b: seq<Byte>)
    ensures DecodeGroups(Encode(b)) == Some(b)
  {
    if |b| == 0 {
    } else if |b| == 1 {
      OneByte(b[0]);
      assert b == [b[0]];
    } else if |b| == 2 {
      TwoBytes(b[0], b[1]);
      assert b == [b[0], b[1]];
    } else {
      GroupsRoundTrip(b[3..]);
      ThreeBytes(b[0], b[1], b[2], Encode(b[3..]));
      assert b == [b[0], b[1], b[2]] + b[3..];
    }
  }

  lemma OneByte(x: Byte)
    ensures DecodeGroups([Digit(x / 4), Digit(x % 4 * 16)]) == Some([x])
  {
    DigitValue(x / 4);
    DigitValue(x % 4 * 16);
  }

  lemma TwoBytes(x: Byte, y: Byte)
    ensures DecodeGroups([Digit(x / 4), Digit(x % 4 * 16 + y / 16), Digit(y % 16 * 4)]) == Some([x, y])
  {
    DigitValue(x / 4);
    DigitValue(x % 4 * 16 + y / 16);
    DigitValue(y % 16 * 4);
  }

  lemma {:induction false} ThreeBytes(x: Byte, y: Byte, z: Byte, tail: string)
    requires DecodeGroups(tail).Some?
    ensures DecodeGroups([Digit(x / 4), Digit(x % 4 * 16 + y / 16), Digit(y % 16 * 4 + z / 64), Digit(z % 64)] + tail)
            == Some([x, y, z] + DecodeGroups(tail).value)
  {
    var v0, v1, v2, v3 := x / 4, x % 4 * 16 + y / 16, y % 16 * 4 + z / 64, z % 64;
    DigitValue(v0);
    DigitValue(v1);
    DigitValue(v2);
    DigitValue(v3);
    FourDigits(Digit(v0), Digit(v1), Digit(v2), Digit(v3), tail);
    assert v0 * 4 + v1 / 16 == x && v1 % 16 * 16 + v2 / 4 == y && v2 % 4 * 64 + v3 == z;
  }

  lemma {:induction false} FourDigits(c0: char, c1: char, c2: char, c3: char, tail: string)
    requires Value(c0).Some? && Value(c1).Some? && Value(c2).Some? && Value(c3).Some?
    requires DecodeGroups(tail).Some?
    ensures var v0, v1, v2, v3 := Value(c0).value, Value(c1).value, Value(c2).value, Value(c3).value;
            DecodeGroups([c0, c1, c2, c3] + tail)
            == Some([v0 * 4 + v1 / 16, v1 % 16 * 16 + v2 / 4, v2 % 4 * 64 + v3] + DecodeGroups(tail).value)
  {
    assert ([c0, c1, c2, c3] + tail)[4..] == tail;
  }

  predicate IsDigit(c: char) {
    Value(c).Some?
  }

  /** The text uses the 64 digits alone: no dot, no padding, no line break. */
  lemma {:induction false} EncodedDigits(b: seq<Byte>)
    ensures forall i :: 0 <= i < |Encode(b)| ==> IsDigit(Encode(b)[i])
  {
    if |b| >= 3 {
      EncodedDigits(b[3..]);
      var e, rest := Encode(b), Encode(b[3..]);
      forall i | 0 <= i < |e| ensures IsDigit(e[i]) {
        if i >= 4 {
          assert e[i] == rest[i - 4];
        }
      }
    }
  }

  lemma {:induction false} NothingToStrip(s: string)
    requires forall i :: 0 <= i < |s| ==> IsDigit(s[i])
    ensures StripLineBreaks(s) == s
  {
    if s != [] {
      assert IsDigit(s[0]);
      forall i | 0 <= i < |s[1..]| ensures IsDigit(s[1..][i]) {
        assert IsDigit(s[i + 1]);
      }
      NothingToStrip(s[1..]);
      assert s == [s[0]] + s[1..];
    }
  }

  lemma RoundTrip(b: seq<Byte>)
    ensures Decode(Encode(b)) == Some(b)
  {
    EncodedDigits(b);
    NothingToStrip(Encode(b));
    GroupsRoundTrip(b);
  }

  function ByteOrZero(b: seq<Byte>, i: nat): Byte {
    if i < |b| then b[i] else 0
  }

  /** The j-th six bits of the bytes, padded with zero bits. */
  function SixBits(b: seq<Byte>, j: nat): int {
    var g := 3 * (j / 4);
    var n := ByteOrZero(b, g) * 65536 + ByteOrZero(b, g + 1) * 256 + ByteOrZero(b, g + 2);
    if j % 4 == 0 then n / 262144
    else if j % 4 == 1 then n / 4096 % 64
    else if j % 4 == 2 then n / 64 % 64
    else n % 64
  }

  /** A to Z, a to z, 0 to 9, minus and underscore, in this order. */
  predicate IsDigitFor(c: char, v: int) {
    c as int == if v < 26 then 65 + v else if v < 52 then 71 + v else if v < 62 then v - 4
                else if v == 62 then 45 else 95
  }

  /** Digit j stands for the j-th six bits, and there are as many as it takes. */
  lemma {:induction false} DigitsStandForBits(b: seq<Byte>, j: nat)
    requires j < |Encode(b)|
    ensures |Encode(b)| == (4 * |b| + 2) / 3
    ensures IsDigitFor(Encode(b)[j], SixBits(b, j))
  {
    Length(b);
    hide Encode, SixBits, IsDigitFor;
    if j >= 4 {
      Length(b[3..]);
      NextGroup(b, j);
      DigitsStandForBits(b[3..], j - 4);
    } else {
      FirstGroup(b, j);
    }
  }

  lemma {:induction false} Length(b: seq<Byte>)
    ensures |Encode(b)| == (4 * |b| + 2) / 3
  {
    if |b| > 3 {
      Length(b[3..]);
    }
  }

  lemma NextGroup(b: seq<Byte>, j: nat)
    requires |b| > 3 && 4 <= j < |Encode(b)|
    ensures Encode(b)[j] == Encode(b[3..])[j - 4] && SixBits(b, j) == SixBits(b[3..], j - 4)
  {
    hide Digit;
    assert j / 4 == (j - 4) / 4 + 1 && j % 4 == (j - 4) % 4;
  }

  lemma SplitInFour(x: Byte, y: Byte, z: Byte)
    ensures var n := x * 65536 + y * 256 + z;
            && n / 262144 == x / 4 && n / 4096 % 64 == x % 4 * 16 + y / 16
            && n / 64 % 64 == y % 16 * 4 + z / 64 && n % 64 == z % 64
  {
    Sextets(x / 4, x % 4 * 16 + y / 16, y % 16 * 4 + z / 64, z % 64);
  }

  lemma Sextets(v0: int, v1: int, v2: int, v3: int)
    requires 0 <= v0 < 64 && 0 <= v1 < 64 && 0 <= v2 < 64 && 0 <= v3 < 64
    ensures var n := v0 * 262144 + v1 * 4096 + v2 * 64 + v3;
            n / 262144 == v0 && n / 4096 % 64 == v1 && n / 64 % 64 == v2 && n % 64 == v3
  {
    var n := v0 * 262144 + v1 * 4096 + v2 * 64 + v3;
    assert n / 64 == v0 * 4096 + v1 * 64 + v2;
    assert n / 4096 == v0 * 64 + v1;
  }

  lemma FirstGroup(b: seq<Byte>, j: nat)
    requires j < 4 && j < |Encode(b)|
    ensures IsDigitFor(Encode(b)[j], SixBits(b, j))
  {
    var x, y, z := ByteOrZero(b, 0), ByteOrZero(b, 1), ByteOrZero(b, 2);
    SplitInFour(x, y, z);
    FirstDigits(b, j);
    DigitsCode();
    hide Digit, IsDigitFor, Encode, ByteOrZero;
  }

  lemma DigitsCode()
    ensures forall v :: 0 <= v < 64 ==> IsDigitFor(Digit(v), v)
  {
  }

  lemma FirstDigits(b: seq<Byte>, j: nat)
    requires j < 4 && j < |Encode(b)|
    ensures var x, y, z := ByteOrZero(b, 0), ByteOrZero(b, 1), ByteOrZero(b, 2);
            Encode(b)[j] == Digit(if j == 0 then x / 4 else if j == 1 then x % 4 * 16 + y / 16
                                  else if j == 2 then y % 16 * 4 + z / 64 else z % 64)
  {
    hide Digit;
  }

  lemma NotEmpty(b: seq<Byte>)
    requires b != []
    ensures Encode(b) != []
  {
  }
}
