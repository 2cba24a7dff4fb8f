/** Python `datetime` values as records of integers, their chronological order, and the three
    `datetime.strptime` formats the backend uses: `%Y-%m-%d`, `%Y-%m-%d %H:%M:%S` and
    `%Y-%m-%d %H:%M:%S,%f`. Parsing is strict: every field has its full width of digits. */
module Timestamps {
  import opened Wrappers
  import opened Text

  /** A naive `datetime`: no time zone, microsecond resolution. */
  datatype Timestamp = Timestamp(year: int, month: int, day: int,
                                 hour: int, minute: int, second: int, micro: int)

  /** Chronological order: the fields compared one by one, the most significant first. */
  predicate NotAfter(a: Timestamp, b: Timestamp)
  {
    if a.year != b.year then a.year < b.year
    else if a.month != b.month then a.month < b.month
    else if a.day != b.day then a.day < b.day
    else if a.hour != b.hour then a.hour < b.hour
    else if a.minute != b.minute then a.minute < b.minute
    else if a.second != b.second then a.second < b.second
    else a.micro <= b.micro
  }

  /** `NotAfter` is a total order on timestamps. */
  lemma NotAfterTotalOrder(a: Timestamp, b: Timestamp, c: Timestamp)
    ensures NotAfter(a, a)
    ensures NotAfter(a, b) || NotAfter(b, a)
    ensures NotAfter(a, b) && NotAfter(b, a) ==> a == b
    ensures NotAfter(a, b) && NotAfter(b, c) ==> NotAfter(a, c)
  {
  }

  // ------------------------------------------------------------------ calendar

  predicate IsLeapYear(y: int)
  {
    y % 4 == 0 && (y % 100 != 0 || y % 400 == 0)
  }

  function DaysInMonth(y: int, m: int): int
    requires 1 <= m <= 12
  {
    if m == 2 then (if IsLeapYear(y) then 29 else 28)
    else if m == 4 || m == 6 || m == 9 || m == 11 then 30
    else 31
  }

  /** The ranges `datetime` enforces: years 1 to 9999, days that exist in the (proleptic
      Gregorian) calendar, a 24-hour clock without leap seconds, microseconds below a million. */
  predicate Valid(t: Timestamp)
  {
    && 1 <= t.year <= 9999
    && 1 <= t.month <= 12
    && 1 <= t.day <= DaysInMonth(t.year, t.month)
    && 0 <= t.hour <= 23
    && 0 <= t.minute <= 59
    && 0 <= t.second <= 59
    && 0 <= t.micro <= 999999
  }

  /** The fields of a valid timestamp lie within their calendar and clock ranges. */
  lemma ValidFields(t: Timestamp)
    requires Valid(t)
    ensures 1 <= t.month <= 12 && 1 <= t.day <= 31
    ensures 0 <= t.hour <= 23 && 0 <= t.minute <= 59 && 0 <= t.second <= 59
  {
  }

  predicate IsMidnight(t: Timestamp)
  {
    t.hour == 0 && t.minute == 0 && t.second == 0 && t.micro == 0
  }

  // ------------------------------------------------------------------ reading fields

  /** `w` decimal digits start at index `i` of `s`. */
  predicate DigitsAt(s: string, i: nat, w: nat)
  {
    i + w <= |s| && AllDigits(s[i..i + w])
  }

  function ValueAt(s: string, i: nat, w: nat): nat
    requires DigitsAt(s, i, w)
  {
    DigitsValue(s[i..i + w])
  }

  /** `s` starts with `DDDD-DD-DD` (the directives `%Y-%m-%d`). */
  predicate DateShape(s: string)
  {
    DigitsAt(s, 0, 4) && DigitsAt(s, 5, 2) && DigitsAt(s, 8, 2) && s[4] == '-' && s[7] == '-'
  }

  /** `s` starts with `DDDD-DD-DD DD:DD:DD` (the directives `%Y-%m-%d %H:%M:%S`). */
  predicate SecondsShape(s: string)
  {
    && DateShape(s)
    && DigitsAt(s, 11, 2) && DigitsAt(s, 14, 2) && DigitsAt(s, 17, 2)
    && s[10] == ' ' && s[13] == ':' && s[16] == ':'
  }

  function ReadDate(s: string): Timestamp
    requires DateShape(s)
  {
    Timestamp(ValueAt(s, 0, 4), ValueAt(s, 5, 2), ValueAt(s, 8, 2), 0, 0, 0, 0)
  }

  function ReadSeconds(s: string): Timestamp
    requires SecondsShape(s)
  {
    ReadDate(s).(hour := ValueAt(s, 11, 2), minute := ValueAt(s, 14, 2), second := ValueAt(s, 17, 2))
  }

  // ------------------------------------------------------------------ the three formats

  /** `datetime.strptime(s, '%Y-%m-%d')`: the midnight that starts the day, or None. */
  function ParseDate(s: string): Option<Timestamp>
  {
    if |s| == 10 && DateShape(s) && Valid(ReadDate(s)) then Some(ReadDate(s)) else None
  }

  /** `datetime.strptime(s, '%Y-%m-%d %H:%M:%S')`, or None. */
  function ParseSeconds(s: string): Option<Timestamp>
  {
    if |s| == 19 && SecondsShape(s) && Valid(ReadSeconds(s)) then Some(ReadSeconds(s)) else None
  }

  /** `datetime.strptime(s, '%Y-%m-%d %H:%M:%S,%f')`, or None: `%f` takes one to six digits,
      and the digits it lacks on the right count as zeros (",5" is half a second). */
  function ParseStamp(s: string): Option<Timestamp>
  {
    if 21 <= |s| <= 26 && SecondsShape(s) && s[19] == ',' && AllDigits(s[20..]) then
      var t := ReadSeconds(s).(micro := DigitsValue(s[20..]) * Pow10(26 - |s|));
      if Valid(t) then Some(t) else None
    else None
  }

  // ------------------------------------------------------------------ writing

  function RenderDate(t: Timestamp): string
    requires Valid(t)
  {
    FixedDigits(t.year, 4) + "-" + FixedDigits(t.month, 2) + "-" + FixedDigits(t.day, 2)
  }

  function RenderSeconds(t: Timestamp): string
    requires Valid(t)
  {
    RenderDate(t) + " " + FixedDigits(t.hour, 2) + ":" + FixedDigits(t.minute, 2) + ":" + FixedDigits(t.second, 2)
  }

  function RenderStamp(t: Timestamp): string
    requires Valid(t)
  {
    RenderSeconds(t) + "," + FixedDigits(t.micro, 6)
  }

  /** The text `y-mo-d h:mi:s` of six fields. */
  function Layout(y: string, mo: string, d: string, h: string, mi: string, se: string): string
  {
    y + "-" + mo + "-" + d + " " + h + ":" + mi + ":" + se
  }

  lemma LayoutAt(y: string, mo: string, d: string, h: string, mi: string, se: string)
    requires |y| == 4 && |mo| == 2 && |d| == 2 && |h| == 2 && |mi| == 2 && |se| == 2
    ensures var s := Layout(y, mo, d, h, mi, se);
            && |s| == 19
            && s[4] == '-' && s[7] == '-' && s[10] == ' ' && s[13] == ':' && s[16] == ':'
            && s[..4] == y && s[5..7] == mo && s[8..10] == d
            && s[11..13] == h && s[14..16] == mi && s[17..19] == se
  {
    var s := Layout(y, mo, d, h, mi, se);
    var p1 := y + "-";
    var p2 := p1 + mo + "-";
    var p3 := p2 + d + " ";
    var p4 := p3 + h + ":";
    var p5 := p4 + mi + ":";
    assert s == p5 + se;
    assert s[..4] == y by { assert s[..4] == p5[..4] == p4[..4] == p3[..4] == p2[..4] == p1[..4]; }
    assert s[5..7] == mo by { assert s[5..7] == p5[5..7] == p4[5..7] == p3[5..7] == p2[5..7]; }
    assert s[8..10] == d by { assert s[8..10] == p5[8..10] == p4[8..10] == p3[8..10]; }
    assert s[11..13] == h by { assert s[11..13] == p5[11..13] == p4[11..13]; }
    assert s[14..16] == mi by { assert s[14..16] == p5[14..16]; }
  }

  lemma RenderSecondsIsLayout(t: Timestamp)
    requires Valid(t)
    ensures RenderSeconds(t) == Layout(FixedDigits(t.year, 4), FixedDigits(t.month, 2), FixedDigits(t.day, 2),
                                       FixedDigits(t.hour, 2), FixedDigits(t.minute, 2), FixedDigits(t.second, 2))
  {
  }

  // ------------------------------------------------------------------ round trips

  lemma FieldOf(s: string, i: nat, w: nat, n: nat)
    requires i + w <= |s| && s[i..i + w] == FixedDigits(n, w) && n < Pow10(w)
    ensures DigitsAt(s, i, w) && ValueAt(s, i, w) == n
  {
    DigitsValueOfFixed(n, w);
  }

  /** The rendered seconds of a valid timestamp have the `%Y-%m-%d %H:%M:%S` shape and read back
      as the timestamp with its microseconds cleared. */
  lemma RenderSecondsReads(t: Timestamp)
    requires Valid(t)
    ensures |RenderSeconds(t)| == 19 && |RenderDate(t)| == 10
    ensures RenderSeconds(t)[..10] == RenderDate(t)
    ensures SecondsShape(RenderSeconds(t)) && ReadSeconds(RenderSeconds(t)) == t.(micro := 0)
    ensures DateShape(RenderDate(t)) && ReadDate(RenderDate(t)) == t.(hour := 0, minute := 0, second := 0, micro := 0)
  {
    var d := RenderDate(t);
    var s := RenderSeconds(t);
    assert d[0..4] == FixedDigits(t.year, 4);
    assert d[5..7] == FixedDigits(t.month, 2);
    assert d[8..10] == FixedDigits(t.day, 2);
    FieldOf(d, 0, 4, t.year);
    FieldOf(d, 5, 2, t.month);
    FieldOf(d, 8, 2, t.day);
    assert s[..10] == d;
    assert s[0..4] == d[0..4] && s[5..7] == d[5..7] && s[8..10] == d[8..10];
    assert s[11..13] == FixedDigits(t.hour, 2);
    assert s[14..16] == FixedDigits(t.minute, 2);
    assert s[17..19] == FixedDigits(t.second, 2);
    FieldOf(s, 0, 4, t.year);
    FieldOf(s, 5, 2, t.month);
    FieldOf(s, 8, 2, t.day);
    FieldOf(s, 11, 2, t.hour);
    FieldOf(s, 14, 2, t.minute);
    FieldOf(s, 17, 2, t.second);
  }

  /** Every valid midnight is written as a `%Y-%m-%d` string that parses back to it. */
  lemma ParseDateRoundTrip(t: Timestamp)
    requires Valid(t) && IsMidnight(t)
    ensures ParseDate(RenderDate(t)) == Some(t)
  {
    RenderSecondsReads(t);
  }

  /** Every valid timestamp without microseconds is written as a `%Y-%m-%d %H:%M:%S` string that
      parses back to it. */
  lemma ParseSecondsRoundTrip(t: Timestamp)
    requires Valid(t) && t.micro == 0
    ensures ParseSeconds(RenderSeconds(t)) == Some(t)
  {
    RenderSecondsReads(t);
  }

  /** Every valid timestamp is written as a `%Y-%m-%d %H:%M:%S,%f` string that parses back to it. */
  lemma ParseStampRoundTrip(t: Timestamp)
    requires Valid(t)
    ensures ParseStamp(RenderStamp(t)) == Some(t)
  {
    var s := RenderStamp(t);
    RenderSecondsReads(t);
    assert s[..19] == RenderSeconds(t);
    var f := FixedDigits(t.micro, 6);
    assert s[20..] == f;
    SecondsPrefixSame(s, RenderSeconds(t));
    DigitsValueOfFixed(t.micro, 6);
  }

  lemma SliceOfPrefix(s: string, n: nat, i: nat, w: nat)
    requires i + w <= n <= |s|
    ensures s[i..i + w] == s[..n][i..i + w]
  {
  }

  /** Only the first ten characters matter to `%Y-%m-%d`. */
  lemma DatePrefixSame(s: string, u: string)
    requires |s| >= 10 && |u| >= 10 && s[..10] == u[..10]
    ensures DateShape(s) == DateShape(u)
    ensures DateShape(s) ==> ReadDate(s) == ReadDate(u)
  {
    SliceOfPrefix(s, 10, 0, 4);
    SliceOfPrefix(u, 10, 0, 4);
    SliceOfPrefix(s, 10, 5, 2);
    SliceOfPrefix(u, 10, 5, 2);
    SliceOfPrefix(s, 10, 8, 2);
    SliceOfPrefix(u, 10, 8, 2);
    assert s[4] == s[..10][4] && u[4] == u[..10][4];
    assert s[7] == s[..10][7] && u[7] == u[..10][7];
  }

  /** Only the first nineteen characters matter to `%Y-%m-%d %H:%M:%S`. */
  lemma SecondsPrefixSame(s: string, u: string)
    requires |s| >= 19 && |u| >= 19 && s[..19] == u[..19]
    ensures SecondsShape(s) == SecondsShape(u)
    ensures SecondsShape(s) ==> ReadSeconds(s) == ReadSeconds(u)
  {
    assert s[..10] == s[..19][..10] && u[..10] == u[..19][..10];
    DatePrefixSame(s, u);
    SliceOfPrefix(s, 19, 11, 2);
    SliceOfPrefix(u, 19, 11, 2);
    SliceOfPrefix(s, 19, 14, 2);
    SliceOfPrefix(u, 19, 14, 2);
    SliceOfPrefix(s, 19, 17, 2);
    SliceOfPrefix(u, 19, 17, 2);
    assert s[10] == s[..19][10] && u[10] == u[..19][10];
    assert s[13] == s[..19][13] && u[13] == u[..19][13];
    assert s[16] == s[..19][16] && u[16] == u[..19][16];
  }

  /** A string of `w` digits is the rendering of its own value. */
  lemma FieldIs(s: string, i: nat, w: nat)
    requires DigitsAt(s, i, w)
    ensures s[i..i + w] == FixedDigits(ValueAt(s, i, w), w)
  {
    FixedOfDigitsValue(s[i..i + w]);
  }

  /** What `%Y-%m-%d` accepts is a valid midnight, and the accepted string is exactly how that
      day is written: the parse is one to one. */
  lemma ParseDateCanonical(s: string)
    requires ParseDate(s).Some?
    ensures Valid(ParseDate(s).value) && IsMidnight(ParseDate(s).value)
    ensures RenderDate(ParseDate(s).value) == s
  {
    FieldIs(s, 0, 4);
    FieldIs(s, 5, 2);
    FieldIs(s, 8, 2);
    assert s == s[0..4] + [s[4]] + s[5..7] + [s[7]] + s[8..10];
  }

  /** What `%Y-%m-%d %H:%M:%S` accepts is a valid timestamp without microseconds, written exactly
      as the accepted string. */
  lemma ParseSecondsCanonical(s: string)
    requires ParseSeconds(s).Some?
    ensures Valid(ParseSeconds(s).value) && ParseSeconds(s).value.micro == 0
    ensures RenderSeconds(ParseSeconds(s).value) == s
  {
    SecondsPrefix(s);
  }

  lemma SecondsPrefix(s: string)
    requires SecondsShape(s) && Valid(ReadSeconds(s))
    ensures RenderSeconds(ReadSeconds(s)) == s[..19]
  {
    var t := ReadSeconds(s);
    assert t.year == ValueAt(s, 0, 4) && t.month == ValueAt(s, 5, 2) && t.day == ValueAt(s, 8, 2);
    assert t.hour == ValueAt(s, 11, 2) && t.minute == ValueAt(s, 14, 2) && t.second == ValueAt(s, 17, 2);
    FieldIs(s, 0, 4);
    FieldIs(s, 5, 2);
    FieldIs(s, 8, 2);
    FieldIs(s, 11, 2);
    FieldIs(s, 14, 2);
    FieldIs(s, 17, 2);
    RenderSecondsIsLayout(t);
    LayoutOfShape(s);
    SameLayout(RenderSeconds(t), s[..19],
               FixedDigits(t.year, 4), FixedDigits(t.month, 2), FixedDigits(t.day, 2),
               FixedDigits(t.hour, 2), FixedDigits(t.minute, 2), FixedDigits(t.second, 2),
               s[0..4], s[5..7], s[8..10], s[11..13], s[14..16], s[17..19]);
  }

  lemma SameLayout(x: string, y: string, a1: string, a2: string, a3: string, a4: string, a5: string, a6: string,
                   b1: string, b2: string, b3: string, b4: string, b5: string, b6: string)
    requires x == Layout(a1, a2, a3, a4, a5, a6) && y == Layout(b1, b2, b3, b4, b5, b6)
    requires a1 == b1 && a2 == b2 && a3 == b3 && a4 == b4 && a5 == b5 && a6 == b6
    ensures x == y
  {
  }

  /** A string of the seconds shape starts with the layout of its six fields. */
  lemma LayoutOfShape(s: string)
    requires SecondsShape(s)
    ensures s[..19] == Layout(s[0..4], s[5..7], s[8..10], s[11..13], s[14..16], s[17..19])
  {
    Decompose19(s);
  }

  /** The first nineteen characters of a string, cut where the separators of the seconds format go. */
  lemma Decompose19(s: string)
    requires |s| >= 19
    ensures s[..19] == s[0..4] + [s[4]] + s[5..7] + [s[7]] + s[8..10] + [s[10]]
                       + s[11..13] + [s[13]] + s[14..16] + [s[16]] + s[17..19]
  {
    var p := s[..19];
    assert p == p[0..4] + [p[4]] + p[5..7] + [p[7]] + p[8..10] + [p[10]]
                + p[11..13] + [p[13]] + p[14..16] + [p[16]] + p[17..19];
    assert p[0..4] == s[0..4] && p[5..7] == s[5..7] && p[8..10] == s[8..10];
    assert p[11..13] == s[11..13] && p[14..16] == s[14..16] && p[17..19] == s[17..19];
  }

  /** What `%Y-%m-%d %H:%M:%S,%f` accepts is a valid timestamp whose seconds are written exactly
      as the string's first nineteen characters; with all six digits of `%f` present, the whole
      string is how the timestamp is written. */
  lemma ParseStampCanonical(s: string)
    requires ParseStamp(s).Some?
    ensures Valid(ParseStamp(s).value)
    ensures RenderSeconds(ParseStamp(s).value) == s[..19]
    ensures |s| == 26 ==> RenderStamp(ParseStamp(s).value) == s
  {
    var t := ParseStamp(s).value;
    SecondsPrefix(s);
    assert ReadSeconds(s) == t.(micro := 0);
    assert RenderSeconds(ReadSeconds(s)) == RenderSeconds(t);
    if |s| == 26 {
      assert t.micro == DigitsValue(s[20..]);
      FixedOfDigitsValue(s[20..]);
      assert s == s[..19] + [s[19]] + s[20..];
    }
  }

  /** Appending " 23:59:59" to a date and reading it with `%Y-%m-%d %H:%M:%S` succeeds exactly
      when the date alone reads with `%Y-%m-%d`, and then gives the last whole second of that day. */
  lemma EndOfDay(s: string)
    ensures ParseSeconds(s + " 23:59:59") ==
            if ParseDate(s).Some? then Some(ParseDate(s).value.(hour := 23, minute := 59, second := 59))
            else None
  {
    var u := s + " 23:59:59";
    if |s| == 10 {
      ClockSuffix(s, u);
      DatePrefixSame(u, s);
      assert SecondsShape(u) == DateShape(s);
      if DateShape(s) {
        assert ReadSeconds(u) == ReadDate(s).(hour := 23, minute := 59, second := 59);
      }
    }
  }

  /** The time ` 23:59:59` written after a ten-character date. */
  lemma ClockSuffix(s: string, u: string)
    requires |s| == 10 && u == s + " 23:59:59"
    ensures |u| == 19 && u[..10] == s[..10]
    ensures u[10] == ' ' && u[13] == ':' && u[16] == ':'
    ensures DigitsAt(u, 11, 2) && DigitsAt(u, 14, 2) && DigitsAt(u, 17, 2)
    ensures ValueAt(u, 11, 2) == 23 && ValueAt(u, 14, 2) == 59 && ValueAt(u, 17, 2) == 59
  {
    var clock := u[10..];
    assert clock == " 23:59:59";
    assert u[10] == clock[0] && u[13] == clock[3] && u[16] == clock[6];
    assert u[11..13] == clock[1..3] && u[14..16] == clock[4..6] && u[17..19] == clock[7..9];
    assert clock[1..3] == "23" && clock[4..6] == "59" && clock[7..9] == "59";
    TwoDigits("23", 2, 3);
    TwoDigits("59", 5, 9);
  }

  lemma TwoDigits(s: string, a: nat, b: nat)
    requires a < 10 && b < 10 && s == [DigitChar(a), DigitChar(b)]
    ensures AllDigits(s) && DigitsValue(s) == 10 * a + b
  {
    assert s[..1] == [DigitChar(a)] && s[..1][..0] == [];
  }
}
