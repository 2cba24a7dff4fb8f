/** Log entries and the line format of uploaded log files: which lines of an upload become
    entries, and what each entry holds. */
module Ingest {
  import opened Wrappers
  import opened Text
  import opened Timestamps

  /** A row of the `LogEntry` table. */
  datatype LogEntry = LogEntry(id: nat, timestamp: Timestamp, level: string, message: string,
                               source: string, createdAt: Timestamp)

  /** A row added to the session and not yet flushed: the database has not yet given it an id or
      a creation time. */
  datatype NewEntry = NewEntry(timestamp: Timestamp, level: string, message: string, source: string)

  predicate IsBracket(c: char)
  {
    c == '[' || c == ']'
  }

  /** The line is empty or made of whitespace only (`not line.strip()`). */
  predicate IsBlank(line: string)
  {
    Strip(line, IsSpace) == []
  }

  /** The entry one line of an upload yields, or None when the line is skipped: blank lines and
      lines that `split(' ', 3)` cuts into fewer than four parts are skipped. The first two parts
      are the timestamp, read with `%Y-%m-%d %H:%M:%S,%f` and replaced by `now` when that fails;
      the third is the level without the brackets around it; the rest is the message. */
  function ParseLine(line: string, filename: string, now: Timestamp): Option<NewEntry>
  {
    if IsBlank(line) then None
    else
      var parts := SplitN(line, ' ', 3);
      if |parts| >= 4 then
        Some(NewEntry(ParseStamp(parts[0] + " " + parts[1]).GetOr(now),
                      Strip(parts[2], IsBracket), parts[3], filename))
      else None
  }

  function LineParser(filename: string, now: Timestamp): string -> Option<NewEntry>
  {
    line => ParseLine(line, filename, now)
  }

  /** The entries a sequence of lines yields, in line order. */
  function ParseLines(lines: seq<string>, filename: string, now: Timestamp): seq<NewEntry>
  {
    Collect(lines, LineParser(filename, now))
  }

  /** What `f` yields for each line, in line order, skipping the lines it yields nothing for. */
  function Collect<T>(lines: seq<string>, f: string -> Option<T>): seq<T>
  {
    if lines == [] then []
    else Collect(lines[..|lines| - 1], f) + Yield(f(lines[|lines| - 1]))
  }

  function Yield<T>(o: Option<T>): seq<T>
  {
    match o
    case Some(e) => [e]
    case None => []
  }

  /** The entries an uploaded file's text yields: its lines are what `split('\n')` gives. */
  function ParseContent(content: string, filename: string, now: Timestamp): seq<NewEntry>
  {
    ParseLines(Split(content, '\n'), filename, now)
  }

  // ------------------------------------------------------------------ which lines are kept

  predicate AllSpace(line: string)
  {
    forall k :: 0 <= k < |line| ==> IsSpace(line[k])
  }

  /** A line that yields an entry: one that is not all whitespace and holds at least three spaces. */
  predicate Kept(line: string)
  {
    !AllSpace(line) && multiset(line)[' '] >= 3
  }

  /** Blank and whitespace-only lines never yield an entry. */
  lemma BlankLineSkipped(line: string, filename: string, now: Timestamp)
    requires AllSpace(line)
    ensures ParseLine(line, filename, now) == None
  {
  }

  /** A line yields an entry exactly when it is kept; shorter lines are skipped, not rejected. */
  lemma ParseLineKept(line: string, filename: string, now: Timestamp)
    ensures ParseLine(line, filename, now).Some? <==> Kept(line)
  {
    SplitNShape(line, ' ', 3);
  }

  lemma Join4(p: seq<string>)
    requires |p| == 4
    ensures Join(p, ' ') == p[0] + " " + p[1] + " " + p[2] + " " + p[3]
  {
    assert p[1..][1..] == p[2..] && p[2..][1..] == p[3..] && |p[3..]| == 1;
    assert Join(p[3..], ' ') == p[3];
    assert Join(p[2..], ' ') == p[2] + " " + p[3];
    assert Join(p[1..], ' ') == p[1] + " " + p[2] + " " + p[3];
  }

  /** A line of the form `a b c m`, where `a`, `b` and `c` hold no space, yields the entry whose
      timestamp is `a b` read as `%Y-%m-%d %H:%M:%S,%f` (or `now` when that fails), whose level
      is `c` with its brackets stripped, whose message is all of `m`, and whose source is the
      uploaded file's name. A bad timestamp never causes the line to be dropped. */
  lemma ParseLineFields(a: string, b: string, c: string, m: string, filename: string, now: Timestamp)
    requires ' ' !in a && ' ' !in b && ' ' !in c
    requires !AllSpace(a + " " + b + " " + c + " " + m)
    ensures ParseLine(a + " " + b + " " + c + " " + m, filename, now)
            == Some(NewEntry(ParseStamp(a + " " + b).GetOr(now), Strip(c, IsBracket), m, filename))
  {
    var line := a + " " + b + " " + c + " " + m;
    var parts := [a, b, c, m];
    Join4(parts);
    SplitNOfJoin(parts, ' ');
  }

  /** Conversely, every entry comes from a line of the form above. */
  lemma ParseLineFrom(line: string, filename: string, now: Timestamp)
    requires ParseLine(line, filename, now).Some?
    ensures var e := ParseLine(line, filename, now).value;
            var p := SplitN(line, ' ', 3);
            && |p| == 4 && ' ' !in p[0] && ' ' !in p[1] && ' ' !in p[2]
            && line == p[0] + " " + p[1] + " " + p[2] + " " + e.message
            && e.level == Strip(p[2], IsBracket)
            && e.timestamp == ParseStamp(p[0] + " " + p[1]).GetOr(now)
            && e.source == filename
  {
    var p := SplitN(line, ' ', 3);
    SplitNShape(line, ' ', 3);
    JoinSplitN(line, ' ', 3);
    Join4(p);
  }

  // ------------------------------------------------------------------ whole uploads

  /** Lines are handled one by one: what two runs of lines yield is what the first yields
      followed by what the second yields. */
  lemma {:induction false} CollectAppend<T>(a: seq<string>, b: seq<string>, f: string -> Option<T>)
    ensures Collect(a + b, f) == Collect(a, f) + Collect(b, f)
    decreases |b|
  {
    if b == [] {
      assert a + b == a;
    } else {
      var b' := b[..|b| - 1];
      assert (a + b)[..|a + b| - 1] == a + b';
      assert (a + b)[|a + b| - 1] == b[|b| - 1];
      CollectAppend(a, b', f);
    }
  }

  /** What line `i` yields sits right after what the lines before it yield. */
  lemma CollectPosition<T>(lines: seq<string>, i: nat, f: string -> Option<T>)
    requires i < |lines| && f(lines[i]).Some?
    ensures |Collect(lines[..i], f)| < |Collect(lines, f)|
    ensures Collect(lines, f)[|Collect(lines[..i], f)|] == f(lines[i]).value
  {
    var upto := lines[..i + 1];
    assert upto[..i] == lines[..i] && upto[i] == lines[i];
    assert Collect(upto, f) == Collect(lines[..i], f) + [f(lines[i]).value];
    assert lines == upto + lines[i + 1..];
    CollectAppend(upto, lines[i + 1..], f);
  }

  /** One value per line that yields one. */
  lemma {:induction false} CollectCount<T>(lines: seq<string>, f: string -> Option<T>)
    ensures |Collect(lines, f)| == |set i: nat | i < |lines| && f(lines[i]).Some?|
  {
    if lines != [] {
      var n := |lines| - 1;
      CollectCount(lines[..n], f);
      YieldingStep(lines, f);
    }
  }

  /** The lines that yield a value are those of all but the last line, and the last line if it does. */
  lemma YieldingStep<T>(lines: seq<string>, f: string -> Option<T>)
    requires lines != []
    ensures var n := |lines| - 1;
            |set i: nat | i < |lines| && f(lines[i]).Some?|
            == |set i: nat | i < n && f(lines[..n][i]).Some?| + |Yield(f(lines[n]))|
  {
    var n := |lines| - 1;
    var init := lines[..n];
    var before := set i: nat | i < n && f(init[i]).Some?;
    var all := set i: nat | i < |lines| && f(lines[i]).Some?;
    assert forall i :: 0 <= i < n ==> init[i] == lines[i];
    assert forall i :: i in all <==> i in before || (i == n && f(lines[n]).Some?);
    if f(lines[n]).Some? {
      assert all == before + {n};
    } else {
      assert all == before;
    }
  }

  /** One more line adds what that line yields. */
  lemma ParseLinesStep(lines: seq<string>, i: nat, filename: string, now: Timestamp)
    requires i < |lines|
    ensures ParseLines(lines[..i + 1], filename, now)
            == ParseLines(lines[..i], filename, now) + Yield(ParseLine(lines[i], filename, now))
  {
    assert lines[..i + 1][..i] == lines[..i] && lines[..i + 1][i] == lines[i];
  }

  /** Lines are handled one by one: the entries of two runs of lines are those of the first
      followed by those of the second. */
  lemma ParseLinesAppend(a: seq<string>, b: seq<string>, filename: string, now: Timestamp)
    ensures ParseLines(a + b, filename, now) == ParseLines(a, filename, now) + ParseLines(b, filename, now)
  {
    CollectAppend(a, b, LineParser(filename, now));
  }

  /** The entry of a kept line sits right after the entries of the lines before it, so entries
      keep the order of their lines. */
  lemma ParseLinesPosition(lines: seq<string>, i: nat, filename: string, now: Timestamp)
    requires i < |lines| && Kept(lines[i])
    ensures ParseLine(lines[i], filename, now).Some?
    ensures |ParseLines(lines[..i], filename, now)| < |ParseLines(lines, filename, now)|
    ensures ParseLines(lines, filename, now)[|ParseLines(lines[..i], filename, now)|]
            == ParseLine(lines[i], filename, now).value
  {
    ParseLineKept(lines[i], filename, now);
    CollectPosition(lines, i, LineParser(filename, now));
  }

  function KeptIndices(lines: seq<string>): set<nat>
  {
    set i: nat | i < |lines| && Kept(lines[i])
  }

  /** An upload yields exactly one entry per kept line. */
  lemma ParseLinesCount(lines: seq<string>, filename: string, now: Timestamp)
    ensures |ParseLines(lines, filename, now)| == |KeptIndices(lines)|
  {
    var f := LineParser(filename, now);
    CollectCount(lines, f);
    forall i | 0 <= i < |lines| ensures f(lines[i]).Some? <==> Kept(lines[i]) {
      ParseLineKept(lines[i], filename, now);
    }
    assert (set i: nat | i < |lines| && f(lines[i]).Some?) == KeptIndices(lines);
  }

  /** Every entry of an upload names the uploaded file as its source. */
  lemma {:induction false} ParseLinesSource(lines: seq<string>, filename: string, now: Timestamp)
    ensures forall k :: 0 <= k < |ParseLines(lines, filename, now)| ==> ParseLines(lines, filename, now)[k].source == filename
  {
    if lines != [] {
      var init := lines[..|lines| - 1];
      ParseLinesSource(init, filename, now);
      var y := Yield(ParseLine(lines[|lines| - 1], filename, now));
      assert ParseLines(lines, filename, now) == ParseLines(init, filename, now) + y;
      SourceOfAppend(ParseLines(init, filename, now), y, filename);
    }
  }

  lemma SourceOfAppend(a: seq<NewEntry>, y: seq<NewEntry>, filename: string)
    requires forall k :: 0 <= k < |a| ==> a[k].source == filename
    requires y == [] || (|y| == 1 && y[0].source == filename)
    ensures forall k :: 0 <= k < |a + y| ==> (a + y)[k].source == filename
  {
  }

  /** The text of an upload is cut into lines at every newline, and nothing else: for lines
      without newlines, the upload of their join yields the entries of the lines. */
  lemma ParseContentOfLines(lines: seq<string>, filename: string, now: Timestamp)
    requires |lines| >= 1
    requires forall k :: 0 <= k < |lines| ==> '\n' !in lines[k]
    ensures ParseContent(Join(lines, '\n'), filename, now) == ParseLines(lines, filename, now)
  {
    SplitOfJoin(lines, '\n');
  }
}
