/** The pure helpers of the log table: the date format, the colour of a level's chip, and the
    updates of the filter record. */
module LogViewer {
  import opened Wrappers
  import opened Text
  import opened Timestamps
  import opened ClientTypes

  // ------------------------------------------------------------------ dates

  /** The local-time fields a JavaScript `Date` reports; `month` counts from 0 as `getMonth()` does. */
  datatype DateParts = DateParts(fullYear: int, month: int, date: int, hours: int, minutes: int, seconds: int)

  /** `Number.prototype.toString()` for an integer. */
  function IntToString(n: int): string
  {
    if n < 0 then "-" + Decimal(-n) else Decimal(n)
  }

  /** `String.prototype.padStart`: fills on the left up to `width`; a longer string is kept whole. */
  function PadStart(s: string, width: nat, fill: char): (r: string)
    ensures |r| == if |s| >= width then |s| else width
    ensures r[|r| - |s|..] == s
    ensures forall k :: 0 <= k < |r| - |s| ==> r[k] == fill
  {
    if |s| >= width then s else seq(width - |s|, _ => fill) + s
  }

  /** `pad`: a number written in decimal with at least two characters. */
  function Pad(n: int): string
  {
    PadStart(IntToString(n), 2, '0')
  }

  /** `formatDate`: `YYYY-MM-DD HH:MM:SS` in local time, the month counted from 1. The year is
      written as it is, without padding. */
  function FormatDate(d: DateParts): string
  {
    IntToString(d.fullYear) + "-" + Pad(d.month + 1) + "-" + Pad(d.date) + " "
      + Pad(d.hours) + ":" + Pad(d.minutes) + ":" + Pad(d.seconds)
  }

  /** A one-digit number is written as `0` followed by its digit. */
  lemma PadSmall(n: int)
    requires 0 <= n <= 9
    ensures Pad(n) == ['0', DigitChar(n)]
  {
  }

  /** A number of two or more digits is written in full, never cut to two characters. */
  lemma PadLarge(n: int)
    requires n >= 10
    ensures Pad(n) == Decimal(n) && |Pad(n)| >= 2
    ensures DigitsValue(Pad(n)) == n
  {
    DigitsValueOfDecimal(n);
  }

  /** Every non-negative number is written with at least two digits that read back as the number. */
  lemma PadReadsBack(n: int)
    requires n >= 0
    ensures |Pad(n)| >= 2 && AllDigits(Pad(n)) && DigitsValue(Pad(n)) == n
  {
    if n <= 9 {
      PadSmall(n);
      assert DigitChar(0) == '0';
      TwoDigits(Pad(n), 0, n);
    } else {
      PadLarge(n);
    }
  }

  /** Below a hundred, `pad` writes exactly two digits, as `%02d` would. */
  lemma PadTwoDigits(n: int)
    requires 0 <= n < 100
    ensures Pad(n) == FixedDigits(n, 2)
  {
    if n >= 10 {
      DecimalIsFixed(n, 2);
    } else {
      PadSmall(n);
      assert FixedDigits(n, 2) == FixedDigits(0, 1) + [DigitChar(n)] by {
        assert n / 10 == 0 && n % 10 == n;
      }
      assert FixedDigits(0, 1) == [DigitChar(0)];
    }
  }

  /** With a four-digit year the format has 19 characters, separators at fixed places, and the
      month written one more than `getMonth()`. */
  lemma FormatDateLayout(d: DateParts)
    requires 1000 <= d.fullYear <= 9999
    requires 0 <= d.month <= 11 && 1 <= d.date <= 31
    requires 0 <= d.hours <= 23 && 0 <= d.minutes <= 59 && 0 <= d.seconds <= 59
    ensures var s := FormatDate(d);
            && |s| == 19
            && s[4] == '-' && s[7] == '-' && s[10] == ' ' && s[13] == ':' && s[16] == ':'
            && s[..4] == Decimal(d.fullYear)
            && s[5..7] == FixedDigits(d.month + 1, 2)
            && s[8..10] == FixedDigits(d.date, 2)
            && s[11..13] == FixedDigits(d.hours, 2)
            && s[14..16] == FixedDigits(d.minutes, 2)
            && s[17..19] == FixedDigits(d.seconds, 2)
  {
    DecimalIsFixed(d.fullYear, 4);
    PadTwoDigits(d.month + 1);
    PadTwoDigits(d.date);
    PadTwoDigits(d.hours);
    PadTwoDigits(d.minutes);
    PadTwoDigits(d.seconds);
    LayoutAt(Decimal(d.fullYear), Pad(d.month + 1), Pad(d.date), Pad(d.hours), Pad(d.minutes), Pad(d.seconds));
  }

  /** The fields a `Date` built from a stored timestamp reports in local time. */
  function PartsOf(t: Timestamp): DateParts
  {
    DateParts(t.year, t.month - 1, t.day, t.hour, t.minute, t.second)
  }

  /** For a timestamp with a four-digit year, the table shows what the backend's
      `%Y-%m-%d %H:%M:%S` format writes, and that text parses back to the timestamp without its
      fraction of a second. */
  lemma FormatDateOfTimestamp(t: Timestamp)
    requires Valid(t) && t.year >= 1000
    ensures FormatDate(PartsOf(t)) == RenderSeconds(t)
    ensures ParseSeconds(FormatDate(PartsOf(t))) == Some(t.(micro := 0))
  {
    var d := PartsOf(t);
    assert FormatDate(d) == Layout(IntToString(t.year), Pad(t.month), Pad(t.day), Pad(t.hour), Pad(t.minute), Pad(t.second));
    assert IntToString(t.year) == FixedDigits(t.year, 4) by { DecimalIsFixed(t.year, 4); }
    ValidFields(t);
    PadFields(t.month, t.day, t.hour, t.minute, t.second);
    RenderSecondsIsLayout(t);
    ParseSecondsRoundTrip(t.(micro := 0));
  }

  lemma PadFields(a: int, b: int, c: int, e: int, f: int)
    requires 0 <= a < 100 && 0 <= b < 100 && 0 <= c < 100 && 0 <= e < 100 && 0 <= f < 100
    ensures Pad(a) == FixedDigits(a, 2) && Pad(b) == FixedDigits(b, 2) && Pad(c) == FixedDigits(c, 2)
    ensures Pad(e) == FixedDigits(e, 2) && Pad(f) == FixedDigits(f, 2)
  {
    PadTwoDigits(a);
    PadTwoDigits(b);
    PadTwoDigits(c);
    PadTwoDigits(e);
    PadTwoDigits(f);
  }

  // ------------------------------------------------------------------ level colours

  /** The colours of Material UI's `Chip`. */
  datatype ChipColor = ErrorColor | WarningColor | InfoColor | DefaultColor | PrimaryColor

  /** `getLogLevelColor`: the chip colour of a level, chosen on its lower-cased spelling. */
  function LevelColor(level: string): ChipColor
  {
    var l := Lower(level);
    if l == "error" then ErrorColor
    else if l == "warn" || l == "warning" then WarningColor
    else if l == "info" then InfoColor
    else if l == "debug" then DefaultColor
    else PrimaryColor
  }

  /** The level names that have a colour of their own. */
  const ColorTable: seq<(string, ChipColor)> :=
    [("error", ErrorColor), ("warn", WarningColor), ("warning", WarningColor), ("info", InfoColor), ("debug", DefaultColor)]

  function Lookup(table: seq<(string, ChipColor)>, key: string): Option<ChipColor>
  {
    if table == [] then None
    else if table[0].0 == key then Some(table[0].1)
    else Lookup(table[1..], key)
  }

  /** Every level gets the colour the table gives its lower-cased spelling, and primary when the
      table has no entry for it. */
  lemma LevelColorTable(level: string)
    ensures LevelColor(level) == Lookup(ColorTable, Lower(level)).GetOr(PrimaryColor)
  {
    var l := Lower(level);
    var t := ColorTable;
    assert t[4..][1..] == [];
    assert Lookup(t[4..], l) == if l == "debug" then Some(DefaultColor) else None;
    assert t[3..][1..] == t[4..];
    assert Lookup(t[3..], l) == if l == "info" then Some(InfoColor) else Lookup(t[4..], l);
    assert t[2..][1..] == t[3..];
    assert Lookup(t[2..], l) == if l == "warning" then Some(WarningColor) else Lookup(t[3..], l);
    assert t[1..][1..] == t[2..];
    assert Lookup(t[1..], l) == if l == "warn" then Some(WarningColor) else Lookup(t[2..], l);
    assert Lookup(t, l) == if l == "error" then Some(ErrorColor) else Lookup(t[1..], l);
  }

  /** The colour depends on the level's spelling only up to case. */
  lemma LevelColorIgnoresCase(a: string, b: string)
    requires Lower(a) == Lower(b)
    ensures LevelColor(a) == LevelColor(b)
  {
  }

  /** Upper-casing a level, as queries do, keeps its colour. */
  lemma LevelColorOfUpper(level: string)
    ensures LevelColor(Upper(level)) == LevelColor(level)
  {
    LowerOfUpper(level);
  }

  /** A level in any case gets its colour; a level written with its brackets gets none. */
  lemma LevelColorExamples()
    ensures LevelColor("ERROR") == ErrorColor && LevelColor("Warn") == WarningColor
    ensures LevelColor("WARNING") == WarningColor && LevelColor("info") == InfoColor
    ensures LevelColor("DEBUG") == DefaultColor && LevelColor("[ERROR]") == PrimaryColor
  {
    assert Lower("ERROR") == "error";
    assert Lower("Warn") == "warn";
    assert Lower("WARNING") == "warning";
    assert Lower("info") == "info";
    assert Lower("DEBUG") == "debug";
    assert Lower("[ERROR]") == "[error]";
  }

  // ------------------------------------------------------------------ the filter record

  /** `handleFilterChange`: sets `field` to `value || undefined`, keeping every other property. */
  function ChangeFilter(prev: LogFilters, field: FilterField, value: Option<string>): LogFilters
  {
    prev[field := Given(value)]
  }

  /** `clearFilters`: the empty record. */
  function ClearFilters(): (r: LogFilters)
    ensures forall field :: Get(r, field).None?
    ensures |r.Keys| == 0
  {
    map[]
  }

  /** An update sets its field to the value when that is not empty and unsets it otherwise; every
      other property keeps its value and its presence; the field stays among the keys even when
      unset. */
  lemma ChangeFilterSpec(prev: LogFilters, field: FilterField, value: Option<string>)
    ensures var next := ChangeFilter(prev, field, value);
            && (Get(next, field).Some? <==> value.Some? && value.value != "")
            && (Get(next, field).Some? ==> Get(next, field) == value)
            && (forall g :: g != field ==> Get(next, g) == Get(prev, g) && (g in next <==> g in prev))
            && next.Keys == prev.Keys + {field}
  {
  }

  /** Repeating an update changes nothing more. */
  lemma ChangeFilterIdempotent(prev: LogFilters, field: FilterField, value: Option<string>)
    ensures ChangeFilter(ChangeFilter(prev, field, value), field, value) == ChangeFilter(prev, field, value)
  {
  }

  /** Updates of different fields can be made in either order. */
  lemma ChangeFilterCommutes(prev: LogFilters, f: FilterField, v: Option<string>, g: FilterField, w: Option<string>)
    requires f != g
    ensures ChangeFilter(ChangeFilter(prev, f, v), g, w) == ChangeFilter(ChangeFilter(prev, g, w), f, v)
  {
  }

  /** The button that clears the filters is enabled while the record has any key, so emptying a
      field's input keeps it enabled; clearing disables it. */
  lemma ClearButtonAfterEmptying(prev: LogFilters, field: FilterField)
    ensures |ChangeFilter(prev, field, Some("")).Keys| > 0
    ensures Get(ChangeFilter(prev, field, Some("")), field).None?
  {
    assert field in ChangeFilter(prev, field, Some("")).Keys;
  }
}
