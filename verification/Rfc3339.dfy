/**
 The cursor's timestamp text: epochMsToISO8601 writes whole seconds (Go layout time.RFC3339, UTC),
 parseISO8601ToEpochMs reads RFC 3339 back to milliseconds. The calendar is the proleptic Gregorian one from year 0.
 */
module Rfc3339 {
  import opened Outcomes

  // ---- calendar ----

  predicate Leap(y: int) {
    y % 4 == 0 && (y % 100 != 0 || y % 400 == 0)
  }

  function DaysInYear(y: int): int {
    if Leap(y) then 366 else 365
  }

  function DaysInMonth(y: int, m: int): (d: int)
    ensures 28 <= d <= 31
    ensures 1 <= m <= 12 ==>
              d == if m == 2 && y % 4 == 0 && (y % 100 == 0 ==> y % 400 == 0) then 29
                   else [31, 28, 31, 30, 31, 30, 31, 31, 30, 31, 30, 31][m - 1]
  {
    if m == 2 then (if Leap(y) then 29 else 28)
    else if m == 4 || m == 6 || m == 9 || m == 11 then 30
    else 31
  }

  function DaysBeforeYear(y: int): int
    requires 0 <= y
    decreases y
  {
    if y == 0 then 0 else DaysBeforeYear(y - 1) + DaysInYear(y - 1)
  }

  function DaysBeforeMonth(y: int, m: int): int
    requires 1 <= m <= 13
    decreases m
  {
    if m == 1 then 0 else DaysBeforeMonth(y, m - 1) + DaysInMonth(y, m - 1)
  }

  /** The year that holds day `day`, counted from 1 January of year `y`. */
  function YearFrom(y: int, day: nat): (r: int)
    requires 0 <= y
    ensures y <= r && DaysBeforeYear(r) <= DaysBeforeYear(y) + day < DaysBeforeYear(r + 1)
    decreases day
  {
    if day < DaysInYear(y) then y else YearFrom(y + 1, day - DaysInYear(y))
  }

  lemma TwelveMonths(y: int)
    ensures DaysBeforeMonth(y, 13) == DaysInYear(y)
  {
    assert DaysBeforeMonth(y, 5) == 31 + DaysInMonth(y, 2) + 31 + 30;
    assert DaysBeforeMonth(y, 9) == DaysBeforeMonth(y, 5) + 31 + 30 + 31 + 31;
    assert DaysBeforeMonth(y, 13) == DaysBeforeMonth(y, 9) + 30 + 31 + 30 + 31;
  }

  function MonthFrom(y: int, m: int, day: nat): (r: int)
    requires 1 <= m <= 12
    requires DaysBeforeMonth(y, m) + day < DaysBeforeMonth(y, 13)
    ensures m <= r <= 12 && DaysBeforeMonth(y, r) <= DaysBeforeMonth(y, m) + day < DaysBeforeMonth(y, r + 1)
    decreases 12 - m
  {
    if day < DaysInMonth(y, m) then m else MonthFrom(y, m + 1, day - DaysInMonth(y, m))
  }

  datatype Civil = Civil(year: int, month: int, day: int)

  predicate ValidCivil(c: Civil) {
    0 <= c.year && 1 <= c.month <= 12 && 1 <= c.day <= DaysInMonth(c.year, c.month)
  }

  /** Days from 1 January of year 0 to 1 January 1970. */
  const EPOCH_DAY := 719528

  /** Days since 1 January 1970. */
  function DayNumber(c: Civil): int
    requires ValidCivil(c)
  {
    DaysBeforeYear(c.year) + DaysBeforeMonth(c.year, c.month) + c.day - 1 - EPOCH_DAY
  }

  function FromDayNumber(n: nat): (c: Civil)
    ensures ValidCivil(c) && DayNumber(c) == n
  {
    var y := YearFrom(0, n + EPOCH_DAY);
    var inYear := n + EPOCH_DAY - DaysBeforeYear(y);
    TwelveMonths(y);
    var m := MonthFrom(y, 1, inYear);
    Civil(y, m, inYear - DaysBeforeMonth(y, m) + 1)
  }

  lemma QuotientStep(p: int, d: int)
    requires d == 4 || d == 100 || d == 400
    ensures p / d == (p - 1) / d + (if p % d == 0 then 1 else 0)
  {
  }

  lemma LeapCount(p: int)
    ensures DaysInYear(p) == 365 + (p / 4 - (p - 1) / 4) - (p / 100 - (p - 1) / 100) + (p / 400 - (p - 1) / 400)
  {
    QuotientStep(p, 4);
    QuotientStep(p, 100);
    QuotientStep(p, 400);
  }

  lemma {:induction false} DaysBeforeYearClosed(y: int)
    requires 0 <= y
    ensures DaysBeforeYear(y) == 365 * y + (y - 1) / 4 - (y - 1) / 100 + (y - 1) / 400 + 1
    decreases y
  {
    if y > 0 {
      DaysBeforeYearClosed(y - 1);
      LeapCount(y - 1);
    }
  }

  lemma {:induction false} DaysBeforeYearMonotone(y: int, z: int)
    requires 0 <= y <= z
    ensures DaysBeforeYear(y) <= DaysBeforeYear(z)
    decreases z
  {
    if y < z {
      DaysBeforeYearMonotone(y, z - 1);
    }
  }

  /** Days are counted one by one over the ends of months and years, and 1 January 1970 is day 0. */
  lemma DaysAreCounted(c: Civil)
    requires ValidCivil(c)
    ensures var next := if c.day < DaysInMonth(c.year, c.month) then Civil(c.year, c.month, c.day + 1)
                        else if c.month < 12 then Civil(c.year, c.month + 1, 1)
                        else Civil(c.year + 1, 1, 1);
            ValidCivil(next) && DayNumber(next) == DayNumber(c) + 1
    ensures DayNumber(Civil(1970, 1, 1)) == 0
  {
    hide DaysInYear, Leap;
    DaysBeforeYearClosed(1970);
    TwelveMonths(c.year);
  }

  // ---- digits ----

  function DigitChar(d: int): char
    requires 0 <= d < 10
  {
    '0' + d as char
  }

  function DigitOf(c: char): Option<int> {
    if '0' <= c <= '9' then Some(c as int - '0' as int) else None
  }

  function Two(n: int): string
    requires 0 <= n < 100
  {
    [DigitChar(n / 10), DigitChar(n % 10)]
  }

  function ParseTwo(s: string): (r: Option<int>)
    requires |s| == 2
    ensures r.Some? ==> 0 <= r.value < 100
  {
    match (DigitOf(s[0]), DigitOf(s[1]))
    case (Some(a), Some(b)) => Some(a * 10 + b)
    case _ => None
  }

  lemma TwoRoundTrip(n: int)
    requires 0 <= n < 100
    ensures |Two(n)| == 2 && ParseTwo(Two(n)) == Some(n)
  {
  }

  function Decimal(n: nat): (s: string)
    ensures s != []
    ensures n >= 10 ==> |s| >= 2
    ensures forall i :: 0 <= i < |s| ==> DigitOf(s[i]).Some?
  {
    if n < 10 then [DigitChar(n)] else Decimal(n / 10) + [DigitChar(n % 10)]
  }

  /** Years are written with four digits, and with as many as they need from 10000 on. */
  function YearText(y: nat): string {
    if y < 10000 then Two(y / 100) + Two(y % 100) else Decimal(y)
  }

  lemma LongYear(y: nat)
    requires 10000 <= y
    ensures |YearText(y)| >= 5 && DigitOf(YearText(y)[4]).Some?
  {
    var a, b, c := y / 10, y / 100, y / 1000;
    assert Decimal(y) == Decimal(a) + [DigitChar(y % 10)];
    assert Decimal(a) == Decimal(a / 10) + [DigitChar(a % 10)] && a / 10 == b;
    assert Decimal(b) == Decimal(b / 10) + [DigitChar(b % 10)] && b / 10 == c;
    assert |Decimal(c)| >= 2 by {
      assert c >= 10;
    }
  }

  // ---- text ----

  /** epochMsToISO8601: "" for zero or below, otherwise the whole second that holds the millisecond. */
  function Format(ms: int): string {
    if ms <= 0 then "" else FormatSecond(ms / 1000)
  }

  function FormatSecond(sec: nat): string {
    FormatParts(FromDayNumber(sec / 86400), sec % 86400)
  }

  function FormatParts(c: Civil, t: int): string
    requires ValidCivil(c) && 0 <= t < 86400
  {
    YearText(c.year) + FormatRest(c, t)
  }

  function FormatRest(c: Civil, t: int): (s: string)
    requires ValidCivil(c) && 0 <= t < 86400
    ensures |s| == 16
  {
    "-" + Two(c.month) + "-" + Two(c.day) + "T" + Two(t / 3600) + ":" + Two(t / 60 % 60) + ":" + Two(t % 60) + "Z"
  }

  /** Milliseconds in a fraction that starts after the point or comma, and the text after its digits. */
  function ParseFraction(s: string, scale: int): (int, string)
    requires 0 <= scale
  {
    if s == [] || DigitOf(s[0]).None? then (0, s)
    else
      var (ms, rest) := ParseFraction(s[1..], scale / 10);
      (DigitOf(s[0]).value * scale + ms, rest)
  }

  /** The offset from UTC in seconds: "Z", or a sign with up to 24 hours and 60 minutes. */
  function ParseZone(s: string): Option<int> {
    if s == "Z" then Some(0)
    else if |s| == 6 && (s[0] == '+' || s[0] == '-') && s[3] == ':' then
      match (ParseTwo(s[1..3]), ParseTwo(s[4..6]))
      case (Some(h), Some(m)) =>
        if h > 24 || m > 60 then None
        else Some(if s[0] == '+' then h * 3600 + m * 60 else -(h * 3600 + m * 60))
      case _ => None
    else None
  }

  function ParseTail(s: string): Option<(int, int)> {
    if |s| >= 2 && (s[0] == '.' || s[0] == ',') && DigitOf(s[1]).Some? then
      var (ms, rest) := ParseFraction(s[1..], 100);
      match ParseZone(rest)
      case Some(offset) => Some((ms, offset))
      case None => None
    else
      match ParseZone(s)
      case Some(offset) => Some((0, offset))
      case None => None
  }

  /** An hour may be written with one digit. */
  function PadHour(s: string): (r: string)
    ensures |s| <= |r|
  {
    if |s| > 12 && s[12] == ':' then s[..11] + "0" + s[11..] else s
  }

  /** parseISO8601ToEpochMs. */
  function Parse(s: string): Option<int> {
    ParsePadded(PadHour(s))
  }

  function ParsePadded(s: string): Option<int> {
    if |s| < 20 || s[4] != '-' || s[7] != '-' || s[10] != 'T' || s[13] != ':' || s[16] != ':' then None
    else
      match (ParseTwo(s[0..2]), ParseTwo(s[2..4]), ParseTwo(s[5..7]), ParseTwo(s[8..10]))
      case (Some(century), Some(inCentury), Some(month), Some(day)) => (
        match (ParseTwo(s[11..13]), ParseTwo(s[14..16]), ParseTwo(s[17..19]), ParseTail(s[19..]))
        case (Some(h), Some(m), Some(sec), Some((ms, offset))) =>
          var c := Civil(century * 100 + inCentury, month, day);
          if !ValidCivil(c) || h >= 24 || m >= 60 || sec >= 60 then None
          else Some((DayNumber(c) * 86400 + h * 3600 + m * 60 + sec - offset) * 1000 + ms)
        case _ => None
      )
      case _ => None
  }

  // ---- what a round trip through the text keeps ----

  /** First second of the year 10000. */
  const YEAR_10000 := 253402300800

  lemma FourDigitYears(sec: nat)
    ensures FromDayNumber(sec / 86400).year < 10000 <==> sec < YEAR_10000
  {
    var y := FromDayNumber(sec / 86400).year;
    var n := sec / 86400;
    assert y == YearFrom(0, n + EPOCH_DAY);
    DaysBeforeYearClosed(10000);
    assert DaysBeforeYear(10000) - EPOCH_DAY == 2932897;
    assert 2932897 * 86400 == YEAR_10000;
    if y < 10000 {
      DaysBeforeYearMonotone(y + 1, 10000);
    } else {
      DaysBeforeYearMonotone(10000, y);
    }
  }

  /** Where the seven two-character fields stand in a written timestamp. */
  lemma Layout(y0: string, y1: string, mo: string, d: string, h: string, m: string, sec: string)
    requires |y0| == |y1| == |mo| == |d| == |h| == |m| == |sec| == 2
    ensures var s := y0 + y1 + ("-" + mo + "-" + d + "T" + h + ":" + m + ":" + sec + "Z");
            && |s| == 20
            && s[4] == '-' && s[7] == '-' && s[10] == 'T' && s[13] == ':' && s[16] == ':' && s[19..] == "Z"
            && s[0..2] == y0 && s[2..4] == y1 && s[5..7] == mo && s[8..10] == d
            && s[11..13] == h && s[14..16] == m && s[17..19] == sec
  {
    var date, time := "-" + mo + "-" + d + "T", h + ":" + m + ":" + sec + "Z";
    var s := y0 + y1 + ("-" + mo + "-" + d + "T" + h + ":" + m + ":" + sec + "Z");
    assert date[1..3] == mo && date[4..6] == d && |date| == 7 && date[0] == date[3] == '-' && date[6] == 'T';
    assert time[0..2] == h && time[3..5] == m && time[6..8] == sec && time[8..] == "Z";
    assert |time| == 9 && time[2] == time[5] == ':';
    assert s == y0 + y1 + (date + time);
    Shifted(y0, y1, date, time);
  }

  lemma Shifted(y0: string, y1: string, date: string, time: string)
    requires |y0| == |y1| == 2 && |date| == 7 && |time| == 9
    ensures var s := y0 + y1 + (date + time);
            && s[0..2] == y0 && s[2..4] == y1 && s[4..11] == date && s[11..20] == time
            && (forall i, j :: 0 <= i <= j <= 7 ==> s[4 + i..4 + j] == date[i..j])
            && (forall i, j :: 0 <= i <= j <= 9 ==> s[11 + i..11 + j] == time[i..j])
  {
  }

  /** A written timestamp is YYYY-MM-DDThh:mm:ssZ. */
  lemma WrittenAs(c: Civil, t: int)
    requires ValidCivil(c) && c.year < 10000 && 0 <= t < 86400
    ensures var s := FormatParts(c, t);
            && |s| == 20 && s[4] == '-' && s[7] == '-' && s[10] == 'T' && s[13] == ':' && s[16] == ':' && s[19] == 'Z'
            && (s[0] as int - 48) * 10 + (s[1] as int - 48) == c.year / 100
            && (s[2] as int - 48) * 10 + (s[3] as int - 48) == c.year % 100
            && (s[5] as int - 48) * 10 + (s[6] as int - 48) == c.month
            && (s[8] as int - 48) * 10 + (s[9] as int - 48) == c.day
            && (s[11] as int - 48) * 10 + (s[12] as int - 48) == t / 3600
            && (s[14] as int - 48) * 10 + (s[15] as int - 48) == t / 60 % 60
            && (s[17] as int - 48) * 10 + (s[18] as int - 48) == t % 60
  {
    hide Two, FormatParts, ValidCivil;
    PartsAre(c, t);
    NumbersAt(FormatParts(c, t), c.year / 100, c.year % 100, c.month, c.day, t / 3600, t / 60 % 60, t % 60);
  }

  lemma NumbersAt(s: string, century: int, inCentury: int, month: int, day: int, h: int, m: int, sec: int)
    requires 0 <= century < 100 && 0 <= inCentury < 100 && 0 <= month < 100 && 0 <= day < 100
    requires 0 <= h < 100 && 0 <= m < 100 && 0 <= sec < 100
    requires s == Two(century) + Two(inCentury)
                  + ("-" + Two(month) + "-" + Two(day) + "T" + Two(h) + ":" + Two(m) + ":" + Two(sec) + "Z")
    ensures && |s| == 20 && s[4] == '-' && s[7] == '-' && s[10] == 'T' && s[13] == ':' && s[16] == ':' && s[19] == 'Z'
            && (s[0] as int - 48) * 10 + (s[1] as int - 48) == century
            && (s[2] as int - 48) * 10 + (s[3] as int - 48) == inCentury
            && (s[5] as int - 48) * 10 + (s[6] as int - 48) == month
            && (s[8] as int - 48) * 10 + (s[9] as int - 48) == day
            && (s[11] as int - 48) * 10 + (s[12] as int - 48) == h
            && (s[14] as int - 48) * 10 + (s[15] as int - 48) == m
            && (s[17] as int - 48) * 10 + (s[18] as int - 48) == sec
  {
    TwoDigits(century);
    TwoDigits(inCentury);
    TwoDigits(month);
    TwoDigits(day);
    TwoDigits(h);
    TwoDigits(m);
    TwoDigits(sec);
    hide Two;
    Layout(Two(century), Two(inCentury), Two(month), Two(day), Two(h), Two(m), Two(sec));
    Pair(s, 0, Two(century));
    Pair(s, 2, Two(inCentury));
    Pair(s, 5, Two(month));
    Pair(s, 8, Two(day));
    Pair(s, 11, Two(h));
    Pair(s, 14, Two(m));
    Pair(s, 17, Two(sec));
    assert s[19] == s[19..][0];
  }

  lemma Pair(s: string, i: nat, two: string)
    requires i + 2 <= |s| && s[i..i + 2] == two && |two| == 2
    ensures s[i] == two[0] && s[i + 1] == two[1]
  {
    assert s[i..i + 2][0] == s[i] && s[i..i + 2][1] == s[i + 1];
  }

  lemma PartsAre(c: Civil, t: int)
    requires ValidCivil(c) && c.year < 10000 && 0 <= t < 86400
    ensures 0 <= c.year / 100 < 100 && 0 <= c.month < 100 && 0 <= c.day < 100 && t / 3600 < 24
    ensures FormatParts(c, t)
            == Two(c.year / 100) + Two(c.year % 100)
               + ("-" + Two(c.month) + "-" + Two(c.day) + "T" + Two(t / 3600) + ":" + Two(t / 60 % 60) + ":"
                  + Two(t % 60) + "Z")
  {
  }

  lemma TwoDigits(n: int)
    requires 0 <= n < 100
    ensures |Two(n)| == 2 && (Two(n)[0] as int - 48) * 10 + (Two(n)[1] as int - 48) == n
  {
  }

  /** An offset from UTC is read as its hours and minutes in seconds. */
  lemma OffsetIsRead(sign: char, h: int, m: int)
    requires sign == '+' || sign == '-'
    requires 0 <= h < 100 && 0 <= m < 100
    ensures ParseZone([sign] + Two(h) + ":" + Two(m))
            == if h > 24 || m > 60 then None else Some(if sign == '+' then h * 3600 + m * 60 else -h * 3600 - m * 60)
  {
    var s := [sign] + Two(h) + ":" + Two(m);
    assert s[1..3] == Two(h) && s[4..6] == Two(m);
    TwoRoundTrip(h);
    TwoRoundTrip(m);
  }

  /** A fraction counts in milliseconds: its first three digits, and nothing of what follows them. */
  lemma FractionIsRead(a: int, b: int, c: int, more: string, rest: string)
    requires 0 <= a < 10 && 0 <= b < 10 && 0 <= c < 10
    requires (forall d :: d in more ==> DigitOf(d).Some?) && (rest == "" || DigitOf(rest[0]).None?)
    ensures ParseFraction([DigitChar(a), DigitChar(b), DigitChar(c)] + more + rest, 100)
            == (100 * a + 10 * b + c, rest)
  {
    hide DigitOf;
    DigitIsRead(a);
    DigitIsRead(b);
    DigitIsRead(c);
    var third, second := [DigitChar(c)] + (more + rest), [DigitChar(b)] + ([DigitChar(c)] + (more + rest));
    var s := [DigitChar(a)] + second;
    assert [DigitChar(a), DigitChar(b), DigitChar(c)] + more + rest == s;
    FractionEnds(more, rest);
    assert third[1..] == more + rest && second[1..] == third && s[1..] == second;
    assert ParseFraction(third, 1) == (c, rest);
    assert ParseFraction(second, 10) == (10 * b + c, rest);
  }

  lemma DigitIsRead(d: int)
    requires 0 <= d < 10
    ensures DigitOf(DigitChar(d)) == Some(d)
  {
  }

  lemma {:induction false} FractionEnds(more: string, rest: string)
    requires (forall d :: d in more ==> DigitOf(d).Some?) && (rest == "" || DigitOf(rest[0]).None?)
    ensures ParseFraction(more + rest, 0) == (0, rest)
  {
    if more == "" {
      assert more + rest == rest;
    } else {
      FractionEnds(more[1..], rest);
      assert (more + rest)[1..] == more[1..] + rest;
    }
  }

  lemma FieldsRoundTrip(century: int, inCentury: int, month: int, day: int, h: int, m: int, sec: int)
    requires 0 <= century < 100 && 0 <= inCentury < 100 && 0 <= h < 24 && 0 <= m < 60 && 0 <= sec < 60
    requires ValidCivil(Civil(century * 100 + inCentury, month, day))
    ensures Parse(Two(century) + Two(inCentury)
                  + ("-" + Two(month) + "-" + Two(day) + "T" + Two(h) + ":" + Two(m) + ":" + Two(sec) + "Z"))
            == Some((DayNumber(Civil(century * 100 + inCentury, month, day)) * 86400 + h * 3600 + m * 60 + sec) * 1000)
  {
    var y0, y1, mo, d, h2, m2, s2 :=
      Two(century), Two(inCentury), Two(month), Two(day), Two(h), Two(m), Two(sec);
    TwoRoundTrip(century);
    TwoRoundTrip(inCentury);
    TwoRoundTrip(month);
    TwoRoundTrip(day);
    TwoRoundTrip(h);
    TwoRoundTrip(m);
    TwoRoundTrip(sec);
    Layout(y0, y1, mo, d, h2, m2, s2);
    var s := y0 + y1 + ("-" + mo + "-" + d + "T" + h2 + ":" + m2 + ":" + s2 + "Z");
    ParseFields(s, century, inCentury, month, day, h, m, sec);
  }

  lemma PartsRoundTrip(c: Civil, t: int)
    requires ValidCivil(c) && c.year < 10000 && 0 <= t < 86400
    ensures FormatParts(c, t) != ""
    ensures Parse(FormatParts(c, t)) == Some((DayNumber(c) * 86400 + t) * 1000)
  {
    hide Parse, DayNumber, Two, DaysInMonth, DaysBeforeMonth, DaysBeforeYear;
    var h, m, sec := t / 3600, t / 60 % 60, t % 60;
    assert 0 <= h < 24 && h * 3600 + m * 60 + sec == t;
    var y0, y1 := c.year / 100, c.year % 100;
    assert c == Civil(y0 * 100 + y1, c.month, c.day);
    assert FormatParts(c, t) == Two(y0) + Two(y1)
      + ("-" + Two(c.month) + "-" + Two(c.day) + "T" + Two(h) + ":" + Two(m) + ":" + Two(sec) + "Z");
    assert Parse(FormatParts(c, t))
           == Some((DayNumber(Civil(y0 * 100 + y1, c.month, c.day)) * 86400 + h * 3600 + m * 60 + sec) * 1000) by {
      FieldsRoundTrip(y0, y1, c.month, c.day, h, m, sec);
    }
  }

  /** A text in the shape "....-..-..T..:..:..Z" is read from its seven numbers. */
  lemma ParseFields(s: string, century: int, inCentury: int, month: int, day: int, h: int, m: int, sec: int)
    requires |s| == 20 && s[4] == '-' && s[7] == '-' && s[10] == 'T' && s[13] == ':' && s[16] == ':' && s[19..] == "Z"
    requires ParseTwo(s[0..2]) == Some(century) && ParseTwo(s[2..4]) == Some(inCentury)
    requires ParseTwo(s[5..7]) == Some(month) && ParseTwo(s[8..10]) == Some(day)
    requires ParseTwo(s[11..13]) == Some(h) && ParseTwo(s[14..16]) == Some(m) && ParseTwo(s[17..19]) == Some(sec)
    requires ValidCivil(Civil(century * 100 + inCentury, month, day)) && h < 24 && m < 60 && sec < 60
    ensures Parse(s)
            == Some((DayNumber(Civil(century * 100 + inCentury, month, day)) * 86400 + h * 3600 + m * 60 + sec) * 1000)
  {
    assert ParseTail("Z") == Some((0, 0));
  }

  lemma LongYearRefused(c: Civil, t: int)
    requires ValidCivil(c) && 10000 <= c.year && 0 <= t < 86400
    ensures Parse(FormatParts(c, t)) == None
  {
    hide FormatRest, ParseTwo, ParseTail, DayNumber, ValidCivil;
    LongYear(c.year);
    assert FormatParts(c, t)[4] == YearText(c.year)[4];
  }

  /** A one-digit hour is read like one with a zero before it. */
  lemma ShortHourIsRead(before: string, after: string)
    requires |before| == 11 && |after| >= 2 && after[1] == ':' && DigitOf(after[0]).Some?
    ensures Parse(before + after) == Parse(before + "0" + after)
  {
    var s, padded := before + after, before + "0" + after;
    assert s[12] == ':' && s[..11] == before && s[11..] == after;
    assert padded[12] == after[0];
  }

  lemma EmptyRefused()
    ensures Parse("") == None
  {
  }

  /** The timestamps whose text can be read back. */
  predicate Representable(ms: int) {
    0 < ms && ms / 1000 < YEAR_10000
  }

  /** Reading a written timestamp gives its whole second back, and nothing at all outside the representable range. */
  lemma TextKeepsWholeSeconds(ms: int)
    ensures Parse(Format(ms)) == if Representable(ms) then Some(ms - ms % 1000) else None
    ensures Representable(ms) ==> Format(ms) != ""
  {
    hide Parse, FormatParts, FromDayNumber, DayNumber;
    if ms <= 0 {
      EmptyRefused();
    } else {
      var sec := ms / 1000;
      var c, t := FromDayNumber(sec / 86400), sec % 86400;
      FourDigitYears(sec);
      assert Format(ms) == FormatParts(c, t);
      if c.year < 10000 {
        PartsRoundTrip(c, t);
        assert DayNumber(c) == sec / 86400;
        assert sec / 86400 * 86400 + t == sec;
        assert sec * 1000 == ms - ms % 1000;
      } else {
        LongYearRefused(c, t);
      }
    }
  }
}
