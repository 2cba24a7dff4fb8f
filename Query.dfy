/** `GET /api/logs`: optional filters combined with AND, newest entries first, at most 1000 rows. */
module Query {
  import opened Wrappers
  import opened Text
  import opened Timestamps
  import opened Ingest

  /** The query parameters of `GET /api/logs`, None when absent. */
  datatype QueryArgs = QueryArgs(level: Option<string>, source: Option<string>,
                                 startDate: Option<string>, endDate: Option<string>)

  const NoArgs := QueryArgs(None, None, None, None)

  /** The most rows one query returns. */
  const Limit := 1000

  /** The lower bound `start_date` sets: midnight at the start of that day; none when the
      parameter is absent, empty or not a `%Y-%m-%d` date. */
  function StartBound(args: QueryArgs): Option<Timestamp>
  {
    match Given(args.startDate)
    case Some(s) => ParseDate(s)
    case None => None
  }

  /** The upper bound `end_date` sets: that day with the clock at 23:59:59; none when the
      parameter is absent, empty or not a date. */
  function EndBound(args: QueryArgs): Option<Timestamp>
  {
    match Given(args.endDate)
    case Some(s) => ParseSeconds(s + " 23:59:59")
    case None => None
  }

  /** The conjunction of the filters the parameters set: the stored level equals the upper-cased
      `level`, the source equals `source`, and the timestamp lies within the date bounds. */
  predicate Matches(e: LogEntry, args: QueryArgs)
  {
    && (Given(args.level).Some? ==> e.level == Upper(args.level.value))
    && (Given(args.source).Some? ==> e.source == args.source.value)
    && (StartBound(args).Some? ==> NotAfter(StartBound(args).value, e.timestamp))
    && (EndBound(args).Some? ==> NotAfter(e.timestamp, EndBound(args).value))
  }

  function Filter(xs: seq<LogEntry>, args: QueryArgs): seq<LogEntry>
  {
    if xs == [] then []
    else (if Matches(xs[0], args) then [xs[0]] else []) + Filter(xs[1..], args)
  }

  /** `ORDER BY timestamp DESC`: no entry is newer than one before it. */
  predicate NewestFirst(xs: seq<LogEntry>)
  {
    forall i, j :: 0 <= i < j < |xs| ==> NotAfter(xs[j].timestamp, xs[i].timestamp)
  }

  function Insert(e: LogEntry, xs: seq<LogEntry>): seq<LogEntry>
  {
    if xs == [] || NotAfter(xs[0].timestamp, e.timestamp) then [e] + xs
    else [xs[0]] + Insert(e, xs[1..])
  }

  /** One ordering by descending timestamp; the database may order entries with equal timestamps
      differently, so nothing below depends on how ties are broken. */
  function SortNewestFirst(xs: seq<LogEntry>): seq<LogEntry>
  {
    if xs == [] then [] else Insert(xs[0], SortNewestFirst(xs[1..]))
  }

  /** `GET /api/logs`: the stored entries that match, newest first, at most `Limit` of them. */
  function GetLogs(entries: seq<LogEntry>, args: QueryArgs): seq<LogEntry>
  {
    var sorted := SortNewestFirst(Filter(entries, args));
    sorted[..Min(|sorted|, Limit)]
  }

  // ------------------------------------------------------------------ filtering

  /** Filtering keeps every matching entry, as often as it is stored, and nothing else. */
  lemma {:induction false} FilterCounts(xs: seq<LogEntry>, args: QueryArgs)
    ensures forall e :: multiset(Filter(xs, args))[e] == if Matches(e, args) then multiset(xs)[e] else 0
  {
    if xs != [] {
      FilterCounts(xs[1..], args);
      assert xs == [xs[0]] + xs[1..];
    }
  }

  lemma FilterMembers(xs: seq<LogEntry>, args: QueryArgs)
    ensures forall e :: e in Filter(xs, args) <==> e in xs && Matches(e, args)
    ensures multiset(Filter(xs, args)) <= multiset(xs)
  {
    FilterCounts(xs, args);
  }

  /** Two queries whose filters accept the same entries select the same entries. */
  lemma {:induction false} FilterSame(xs: seq<LogEntry>, a1: QueryArgs, a2: QueryArgs)
    requires forall e :: Matches(e, a1) == Matches(e, a2)
    ensures Filter(xs, a1) == Filter(xs, a2)
  {
    if xs != [] {
      FilterSame(xs[1..], a1, a2);
    }
  }

  /** Without parameters every entry matches. */
  lemma {:induction false} FilterNoArgs(xs: seq<LogEntry>)
    ensures Filter(xs, NoArgs) == xs
  {
    if xs != [] {
      FilterNoArgs(xs[1..]);
      assert xs == [xs[0]] + xs[1..];
    }
  }

  // ------------------------------------------------------------------ ordering

  lemma {:induction false} InsertKeepsOrder(e: LogEntry, xs: seq<LogEntry>)
    requires NewestFirst(xs)
    ensures NewestFirst(Insert(e, xs))
    ensures multiset(Insert(e, xs)) == multiset(xs) + multiset{e}
  {
    if xs == [] || NotAfter(xs[0].timestamp, e.timestamp) {
      var r := [e] + xs;
      forall i, j | 0 <= i < j < |r| ensures NotAfter(r[j].timestamp, r[i].timestamp) {
        if i == 0 {
          NotAfterTotalOrder(r[j].timestamp, xs[0].timestamp, e.timestamp);
        }
      }
    } else {
      var rest := Insert(e, xs[1..]);
      InsertKeepsOrder(e, xs[1..]);
      assert multiset(xs) == multiset{xs[0]} + multiset(xs[1..]) by {
        assert xs == [xs[0]] + xs[1..];
      }
      NotAfterTotalOrder(e.timestamp, xs[0].timestamp, e.timestamp);
      HeadIsNewest(xs);
      ConsNewestFirst(xs[0], rest);
    }
  }

  /** In a newest-first sequence, nothing after the head is newer than it. */
  lemma HeadIsNewest(xs: seq<LogEntry>)
    requires NewestFirst(xs) && xs != []
    ensures forall x :: x in multiset(xs[1..]) ==> NotAfter(x.timestamp, xs[0].timestamp)
  {
    forall x | x in multiset(xs[1..]) ensures NotAfter(x.timestamp, xs[0].timestamp) {
      var k :| 0 <= k < |xs[1..]| && xs[1..][k] == x;
      assert xs[k + 1] == x;
    }
  }

  /** An entry no older than everything in a newest-first sequence can go before it. */
  lemma ConsNewestFirst(head: LogEntry, rest: seq<LogEntry>)
    requires NewestFirst(rest)
    requires forall x :: x in multiset(rest) ==> NotAfter(x.timestamp, head.timestamp)
    ensures NewestFirst([head] + rest)
  {
    var r := [head] + rest;
    forall j | 0 < j < |r| ensures NotAfter(r[j].timestamp, head.timestamp) {
      assert r[j] == rest[j - 1];
    }
  }

  /** The sort orders newest first and is a permutation of its input. */
  lemma {:induction false} SortSpec(xs: seq<LogEntry>)
    ensures NewestFirst(SortNewestFirst(xs))
    ensures multiset(SortNewestFirst(xs)) == multiset(xs)
  {
    if xs != [] {
      SortSpec(xs[1..]);
      InsertKeepsOrder(xs[0], SortNewestFirst(xs[1..]));
      assert xs == [xs[0]] + xs[1..];
    }
  }

  // ------------------------------------------------------------------ what a query returns

  /** A query returns at most `Limit` rows: all matching entries when there are no more than
      `Limit` of them, and `Limit` otherwise. */
  lemma GetLogsSize(entries: seq<LogEntry>, args: QueryArgs)
    ensures |GetLogs(entries, args)| == Min(|Filter(entries, args)|, Limit)
    ensures |GetLogs(entries, args)| <= Limit
  {
    var matching := Filter(entries, args);
    SortSpec(matching);
    assert |multiset(SortNewestFirst(matching))| == |SortNewestFirst(matching)|;
    assert |multiset(matching)| == |matching|;
  }

  /** Every row returned is a stored entry that satisfies every filter given, no entry is returned
      more often than it is stored, and the rows come newest first. */
  lemma GetLogsSound(entries: seq<LogEntry>, args: QueryArgs)
    ensures NewestFirst(GetLogs(entries, args))
    ensures multiset(GetLogs(entries, args)) <= multiset(Filter(entries, args))
    ensures multiset(GetLogs(entries, args)) <= multiset(entries)
    ensures forall k :: 0 <= k < |GetLogs(entries, args)| ==>
              GetLogs(entries, args)[k] in entries && Matches(GetLogs(entries, args)[k], args)
  {
    var matching := Filter(entries, args);
    var sorted := SortNewestFirst(matching);
    var r := GetLogs(entries, args);
    assert r == sorted[..|r|];
    SortSpec(matching);
    FilterMembers(entries, args);
    PrefixOf(sorted, |r|);
    forall k | 0 <= k < |r| ensures r[k] in entries && Matches(r[k], args) {
      assert r[k] in multiset(matching) by {
        assert r[k] == sorted[k];
      }
    }
  }

  /** A prefix of a newest-first sequence is newest first and holds no more than the sequence. */
  lemma PrefixOf(s: seq<LogEntry>, n: nat)
    requires NewestFirst(s) && n <= |s|
    ensures NewestFirst(s[..n]) && multiset(s[..n]) <= multiset(s)
  {
    assert s == s[..n] + s[n..];
  }

  /** When no more than `Limit` entries match, the query returns every one of them. */
  lemma GetLogsComplete(entries: seq<LogEntry>, args: QueryArgs)
    requires |Filter(entries, args)| <= Limit
    ensures multiset(GetLogs(entries, args)) == multiset(Filter(entries, args))
    ensures forall e :: e in entries && Matches(e, args) ==> e in GetLogs(entries, args)
  {
    var sorted := SortNewestFirst(Filter(entries, args));
    SortSpec(Filter(entries, args));
    FilterMembers(entries, args);
    assert GetLogs(entries, args) == sorted;
    forall e | e in entries && Matches(e, args) ensures e in GetLogs(entries, args) {
      assert e in multiset(sorted);
    }
  }

  /** The limit cuts off the oldest matches: a matching entry left out is no newer than any row
      returned. */
  lemma GetLogsNewest(entries: seq<LogEntry>, args: QueryArgs, e: LogEntry)
    requires e in entries && Matches(e, args) && e !in GetLogs(entries, args)
    ensures forall k :: 0 <= k < |GetLogs(entries, args)| ==> NotAfter(e.timestamp, GetLogs(entries, args)[k].timestamp)
  {
    var matching := Filter(entries, args);
    var sorted := SortNewestFirst(matching);
    SortSpec(matching);
    FilterMembers(entries, args);
    assert e in multiset(sorted);
    PrefixKeepsNewest(sorted, Min(|sorted|, Limit), e);
  }

  /** In a newest-first sequence, an element outside the first `n` is no newer than any of them. */
  lemma PrefixKeepsNewest(sorted: seq<LogEntry>, n: nat, e: LogEntry)
    requires NewestFirst(sorted) && n <= |sorted| && e in sorted && e !in sorted[..n]
    ensures forall k :: 0 <= k < n ==> NotAfter(e.timestamp, sorted[k].timestamp)
  {
    var rest := sorted[n..];
    assert sorted == sorted[..n] + rest;
    assert e in rest;
    var i :| 0 <= i < |rest| && rest[i] == e;
    assert sorted[n + i] == e;
  }

  /** With no parameters and at most `Limit` stored entries, every stored entry is returned. */
  lemma GetLogsAll(entries: seq<LogEntry>)
    requires |entries| <= Limit
    ensures multiset(GetLogs(entries, NoArgs)) == multiset(entries)
  {
    FilterNoArgs(entries);
    GetLogsComplete(entries, NoArgs);
  }

  // ------------------------------------------------------------------ the filters

  /** The level parameter is compared after upper-casing: two spellings that differ only in case
      select the same rows. */
  lemma LevelCaseInsensitive(entries: seq<LogEntry>, args: QueryArgs, a: string, b: string)
    requires Upper(a) == Upper(b)
    ensures GetLogs(entries, args.(level := Some(a))) == GetLogs(entries, args.(level := Some(b)))
  {
    FilterSame(entries, args.(level := Some(a)), args.(level := Some(b)));
  }

  /** Only the parameter is upper-cased, not the stored level: an entry whose level has a
      lower-case letter is never selected by a level filter. */
  lemma LowerCaseLevelNeverMatches(e: LogEntry, args: QueryArgs, k: nat)
    requires Given(args.level).Some?
    requires k < |e.level| && 'a' <= e.level[k] <= 'z'
    ensures !Matches(e, args)
  {
  }

  /** A `start_date` that is not a `%Y-%m-%d` date sets no bound: the query is the one without it. */
  lemma BadStartDateIgnored(entries: seq<LogEntry>, args: QueryArgs, s: string)
    requires ParseDate(s).None?
    ensures GetLogs(entries, args.(startDate := Some(s))) == GetLogs(entries, args.(startDate := None))
  {
    FilterSame(entries, args.(startDate := Some(s)), args.(startDate := None));
  }

  /** An `end_date` that is not a `%Y-%m-%d` date sets no bound either. */
  lemma BadEndDateIgnored(entries: seq<LogEntry>, args: QueryArgs, s: string)
    requires ParseDate(s).None?
    ensures GetLogs(entries, args.(endDate := Some(s))) == GetLogs(entries, args.(endDate := None))
  {
    EndOfDay(s);
    FilterSame(entries, args.(endDate := Some(s)), args.(endDate := None));
  }

  /** `end_date` is the last whole second of its day, 23:59:59.000000. */
  lemma EndBoundIsLastSecond(args: QueryArgs)
    requires Given(args.endDate).Some? && ParseDate(args.endDate.value).Some?
    ensures EndBound(args) == Some(ParseDate(args.endDate.value).value.(hour := 23, minute := 59, second := 59))
  {
    EndOfDay(args.endDate.value);
  }

  /** A query for one day (`start_date` and `end_date` equal) selects, among valid timestamps, the
      entries of that calendar day, except those in the fraction of a second after 23:59:59. */
  lemma OneDayRange(e: LogEntry, s: string)
    requires ParseDate(s).Some? && Valid(e.timestamp)
    ensures var d := ParseDate(s).value;
            var t := e.timestamp;
            Matches(e, QueryArgs(None, None, Some(s), Some(s))) <==>
              && t.year == d.year && t.month == d.month && t.day == d.day
              && !(t.hour == 23 && t.minute == 59 && t.second == 59 && t.micro > 0)
  {
    EndOfDay(s);
    ParseDateCanonical(s);
  }
}
