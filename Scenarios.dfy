/** Worked examples: what the service does with a few concrete uploads and queries. */
module Scenarios {
  import opened Wrappers
  import opened Text
  import opened Timestamps
  import opened Ingest
  import opened Store
  import opened Query

  lemma NoSpaceIn(s: string)
    requires forall k :: 0 <= k < |s| ==> s[k] != ' '
    ensures ' ' !in s
  {
  }

  lemma StripUnchanged(s: string)
    requires s != [] && !IsBracket(s[0]) && !IsBracket(s[|s| - 1])
    ensures Strip(s, IsBracket) == s
  {
    StripPadded([], s, [], IsBracket);
    assert [] + s + [] == s;
  }

  /** The line whose four space-separated fields are `a`, `b`, `c` and `m`. */
  function Line(a: string, b: string, c: string, m: string): string
  {
    a + " " + b + " " + c + " " + m
  }

  /** A line cut into its four fields. */
  lemma LineOf(a: string, b: string, c: string, m: string, filename: string, now: Timestamp)
    requires |a| > 0 && !IsSpace(a[0])
    requires forall k :: 0 <= k < |a| ==> a[k] != ' '
    requires forall k :: 0 <= k < |b| ==> b[k] != ' '
    requires forall k :: 0 <= k < |c| ==> c[k] != ' '
    ensures ParseLine(Line(a, b, c, m), filename, now)
            == Some(NewEntry(ParseStamp(a + " " + b).GetOr(now), Strip(c, IsBracket), m, filename))
  {
    var line := Line(a, b, c, m);
    assert line[0] == a[0];
    NoSpaceIn(a);
    NoSpaceIn(b);
    NoSpaceIn(c);
    ParseLineFields(a, b, c, m, filename, now);
  }

  /** A line whose timestamp has no `,%f` part takes the upload time. */
  lemma LineWithoutFraction(date: string, time: string, level: string, message: string,
                            filename: string, now: Timestamp)
    requires |date| == 10 && |time| == 8 && !IsSpace(date[0])
    requires forall k :: 0 <= k < 10 ==> date[k] != ' '
    requires forall k :: 0 <= k < 8 ==> time[k] != ' '
    requires level != [] && !IsBracket(level[0]) && !IsBracket(level[|level| - 1])
    requires forall k :: 0 <= k < |level| ==> level[k] != ' '
    ensures ParseLine(Line(date, time, level, message), filename, now) == Some(NewEntry(now, level, message, filename))
  {
    assert |date + " " + time| == 19;
    StripUnchanged(level);
    LineOf(date, time, level, message, filename, now);
  }

  /** The two dated lines of the example: each takes the upload time and keeps its level and message. */
  lemma DatedLine(time: string, level: string, message: string, filename: string, now: Timestamp)
    requires (time, level, message) == ("10:00:00", "ERROR", "boom") || (time, level, message) == ("11:00:00", "INFO", "ok")
    ensures ParseLine(Line("2024-01-01", time, level, message), filename, now)
            == Some(NewEntry(now, level, message, filename))
  {
    if time == "10:00:00" {
      LineWithoutFraction("2024-01-01", "10:00:00", "ERROR", "boom", filename, now);
    } else {
      LineWithoutFraction("2024-01-01", "11:00:00", "INFO", "ok", filename, now);
    }
  }

  /** `not a log line` has three spaces: it becomes an entry of level `log`. */
  lemma ProseLine(filename: string, now: Timestamp)
    ensures ParseLine(Line("not", "a", "log", "line"), filename, now) == Some(NewEntry(now, "log", "line", filename))
  {
    var a, b := "not", "a";
    assert |a + " " + b| == 5;
    StripUnchanged("log");
    LineOf(a, b, "log", "line", filename, now);
  }

  /** The three lines of the example upload. */
  function Example(): seq<string>
  {
    [Line("2024-01-01", "10:00:00", "ERROR", "boom"), Line("not", "a", "log", "line"),
     Line("2024-01-01", "11:00:00", "INFO", "ok")]
  }

  /** In the example, the upload time stands for timestamps without the `,%f` part, and the line
      that is not in the log format is stored too. */
  lemma ThreeLines(filename: string, now: Timestamp)
    ensures ParseLines(Example(), filename, now)
            == [NewEntry(now, "ERROR", "boom", filename), NewEntry(now, "log", "line", filename),
                NewEntry(now, "INFO", "ok", filename)]
  {
    DatedLine("10:00:00", "ERROR", "boom", filename, now);
    ProseLine(filename, now);
    DatedLine("11:00:00", "INFO", "ok", filename, now);
    var e := Example();
    ThreeKept(e, e[0], e[1], e[2], NewEntry(now, "ERROR", "boom", filename), NewEntry(now, "log", "line", filename),
              NewEntry(now, "INFO", "ok", filename), filename, now);
  }

  /** Three lines that each yield an entry yield those entries in order. */
  lemma ThreeKept(lines: seq<string>, l1: string, l2: string, l3: string, e1: NewEntry, e2: NewEntry, e3: NewEntry,
                  filename: string, now: Timestamp)
    requires lines == [l1, l2, l3]
    requires ParseLine(l1, filename, now) == Some(e1)
    requires ParseLine(l2, filename, now) == Some(e2)
    requires ParseLine(l3, filename, now) == Some(e3)
    ensures ParseLines(lines, filename, now) == [e1, e2, e3]
  {
    var f := LineParser(filename, now);
    assert f(l1) == Some(e1) && f(l2) == Some(e2) && f(l3) == Some(e3);
    CollectThree(lines, l1, l2, l3, e1, e2, e3, f);
  }

  lemma CollectThree<T>(lines: seq<string>, l1: string, l2: string, l3: string, e1: T, e2: T, e3: T,
                        f: string -> Option<T>)
    requires lines == [l1, l2, l3]
    requires f(l1) == Some(e1) && f(l2) == Some(e2) && f(l3) == Some(e3)
    ensures Collect(lines, f) == [e1, e2, e3]
  {
    var two := lines[..2];
    var one := two[..1];
    assert two == [l1, l2] && one == [l1] && one[..0] == [];
    assert Collect(one, f) == Collect(one[..0], f) + Yield(f(l1)) == [e1];
    assert Collect(two, f) == Collect(one, f) + Yield(f(l2)) == [e1, e2];
    assert Collect(lines, f) == Collect(two, f) + Yield(f(l3));
  }

  /** An upload of the example's lines, one per line of the file, stores three entries. */
  lemma ThreeLineUpload(filename: string, now: Timestamp)
    ensures ParseContent(Join(Example(), '\n'), filename, now)
            == [NewEntry(now, "ERROR", "boom", filename), NewEntry(now, "log", "line", filename),
                NewEntry(now, "INFO", "ok", filename)]
  {
    var lines := Example();
    forall k | 0 <= k < |lines| ensures '\n' !in lines[k] {
    }
    ParseContentOfLines(lines, filename, now);
    ThreeLines(filename, now);
  }

  /** After that upload into an empty table, a query for level `info` returns the third entry
      only: the query value is upper-cased and the stored level `INFO` matches it. */
  lemma QueryAfterUpload(filename: string, now: Timestamp)
    ensures var rows := Persist(ParseContent(Join(Example(), '\n'), filename, now), 1, now);
            && rows == [LogEntry(1, now, "ERROR", "boom", filename, now), LogEntry(2, now, "log", "line", filename, now),
                        LogEntry(3, now, "INFO", "ok", filename, now)]
            && GetLogs(rows, NoArgs.(level := Some("info"))) == [rows[2]]
  {
    ThreeLineUpload(filename, now);
    var rows := Persist(ParseContent(Join(Example(), '\n'), filename, now), 1, now);
    PersistThree(ParseContent(Join(Example(), '\n'), filename, now), NewEntry(now, "ERROR", "boom", filename),
                 NewEntry(now, "log", "line", filename), NewEntry(now, "INFO", "ok", filename), now);
    InfoQuery(rows, "info", filename, now);
  }

  lemma PersistThree(batch: seq<NewEntry>, e1: NewEntry, e2: NewEntry, e3: NewEntry, now: Timestamp)
    requires batch == [e1, e2, e3]
    ensures Persist(batch, 1, now)
            == [LogEntry(1, e1.timestamp, e1.level, e1.message, e1.source, now),
                LogEntry(2, e2.timestamp, e2.level, e2.message, e2.source, now),
                LogEntry(3, e3.timestamp, e3.level, e3.message, e3.source, now)]
  {
  }

  lemma InfoQuery(rows: seq<LogEntry>, level: string, filename: string, now: Timestamp)
    requires level == "info"
    requires rows == [LogEntry(1, now, "ERROR", "boom", filename, now), LogEntry(2, now, "log", "line", filename, now),
                      LogEntry(3, now, "INFO", "ok", filename, now)]
    ensures GetLogs(rows, NoArgs.(level := Some(level))) == [rows[2]]
  {
    var args := NoArgs.(level := Some(level));
    assert Upper(level) == "INFO";
    assert !Matches(rows[0], args) && !Matches(rows[1], args) && Matches(rows[2], args);
    var r1, r2 := rows[1..], rows[1..][1..];
    assert r2 == [rows[2]] && r2[1..] == [];
    assert Filter(r2, args) == [rows[2]] + Filter(r2[1..], args);
    assert Filter(r1, args) == Filter(r2, args);
    assert Filter(rows, args) == Filter(r1, args);
    assert SortNewestFirst([rows[2]]) == Insert(rows[2], []) == [rows[2]];
  }

  lemma Fields2024()
    ensures FixedDigits(2024, 4) == "2024" && FixedDigits(1, 2) == "01"
    ensures FixedDigits(10, 2) == "10" && FixedDigits(0, 2) == "00"
  {
    assert FixedDigits(2, 1) == "2" && FixedDigits(20, 2) == "20" && FixedDigits(202, 3) == "202";
    assert FixedDigits(0, 1) == "0" && FixedDigits(1, 1) == "1";
  }

  /** Three digits of `%f` are milliseconds: they are padded on the right to microseconds. */
  lemma StampOf(stamp: string)
    requires stamp == "2024-01-01 10:00:00,123"
    ensures ParseStamp(stamp) == Some(Timestamp(2024, 1, 1, 10, 0, 0, 123000))
  {
    var t0 := Timestamp(2024, 1, 1, 10, 0, 0, 0);
    SecondsText(t0);
    assert stamp[..19] == RenderSeconds(t0);
    SecondsOf(stamp, t0);
    var f := stamp[20..];
    assert f == "123";
    Millis(f);
    assert Pow10(3) == 1000 by {
      assert Pow10(1) == 10 && Pow10(2) == 100;
    }
  }

  lemma SecondsText(t: Timestamp)
    requires t == Timestamp(2024, 1, 1, 10, 0, 0, 0)
    ensures Valid(t) && RenderSeconds(t) == "2024-01-01 10:00:00"
  {
    Fields2024();
  }

  /** A string that starts with how a timestamp's seconds are written reads back as that timestamp. */
  lemma SecondsOf(stamp: string, t: Timestamp)
    requires Valid(t) && |stamp| >= 19 && stamp[..19] == RenderSeconds(t)
    ensures SecondsShape(stamp) && ReadSeconds(stamp) == t.(micro := 0)
  {
    RenderSecondsReads(t);
    SecondsPrefixSame(stamp, RenderSeconds(t));
  }

  lemma Millis(f: string)
    requires f == "123"
    ensures AllDigits(f) && DigitsValue(f) == 123
  {
    var f2 := f[..2];
    var f1 := f2[..1];
    assert f1 == "1" && f1[..0] == [] && f2 == "12";
    assert DigitValue('1') == 1 && DigitValue('2') == 2 && DigitValue('3') == 3;
    assert DigitsValue(f1) == 1;
    assert DigitsValue(f2) == 12;
  }

  /** A line whose first two words match `%Y-%m-%d %H:%M:%S,%f` and whose level is bracketed keeps
      its fraction of a second and loses the brackets around its level. */
  lemma BracketedLine(filename: string, now: Timestamp)
    ensures ParseLine(Line("2024-01-01", "10:00:00,123", "[ERROR]", "disk full"), filename, now)
            == Some(NewEntry(Timestamp(2024, 1, 1, 10, 0, 0, 123000), "ERROR", "disk full", filename))
  {
    var a, b, c := "2024-01-01", "10:00:00,123", "[ERROR]";
    BracketedFields(a, b, c);
    StampOf(a + " " + b);
    BracketedLevel(c);
    LineFrom(a, b, c, "disk full", Timestamp(2024, 1, 1, 10, 0, 0, 123000), "ERROR", filename, now);
  }

  lemma BracketedFields(a: string, b: string, c: string)
    requires a == "2024-01-01" && b == "10:00:00,123" && c == "[ERROR]"
    ensures |a| > 0 && !IsSpace(a[0])
    ensures forall k :: 0 <= k < |a| ==> a[k] != ' '
    ensures forall k :: 0 <= k < |b| ==> b[k] != ' '
    ensures forall k :: 0 <= k < |c| ==> c[k] != ' '
  {
  }

  lemma BracketedLevel(c: string)
    requires c == "[ERROR]"
    ensures Strip(c, IsBracket) == "ERROR"
  {
    StripPadded("[", "ERROR", "]", IsBracket);
    assert "[" + "ERROR" + "]" == c;
  }

  lemma LineFrom(a: string, b: string, c: string, m: string, t: Timestamp, level: string, filename: string, now: Timestamp)
    requires |a| > 0 && !IsSpace(a[0])
    requires forall k :: 0 <= k < |a| ==> a[k] != ' '
    requires forall k :: 0 <= k < |b| ==> b[k] != ' '
    requires forall k :: 0 <= k < |c| ==> c[k] != ' '
    requires ParseStamp(a + " " + b) == Some(t) && Strip(c, IsBracket) == level
    ensures ParseLine(Line(a, b, c, m), filename, now) == Some(NewEntry(t, level, m, filename))
  {
    LineOf(a, b, c, m, filename, now);
  }
}
