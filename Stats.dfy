/** `GET /api/stats`: how many stored entries there are per level and per source. */
module Stats {
  import opened Wrappers
  import opened Text
  import opened Ingest
  import opened Query

  /** One group of `GROUP BY`: a distinct value and the number of rows that hold it. */
  datatype NameCount = NameCount(name: string, count: nat)

  datatype LogStats = LogStats(levels: seq<NameCount>, sources: seq<NameCount>)

  function Levels(entries: seq<LogEntry>): seq<string>
  {
    seq(|entries|, k requires 0 <= k < |entries| => entries[k].level)
  }

  function Sources(entries: seq<LogEntry>): seq<string>
  {
    seq(|entries|, k requires 0 <= k < |entries| => entries[k].source)
  }

  /** Counts one more occurrence of `name`, opening a group for it when it has none. */
  function Bump(rows: seq<NameCount>, name: string): seq<NameCount>
  {
    if rows == [] then [NameCount(name, 1)]
    else if rows[0].name == name then [rows[0].(count := rows[0].count + 1)] + rows[1..]
    else [rows[0]] + Bump(rows[1..], name)
  }

  /** `SELECT name, COUNT(id) ... GROUP BY name` over a column. The database may list the groups
      in another order; nothing below depends on it. */
  function Tally(names: seq<string>): seq<NameCount>
  {
    if names == [] then [] else Bump(Tally(names[..|names| - 1]), names[|names| - 1])
  }

  /** `GET /api/stats`. */
  function GetStats(entries: seq<LogEntry>): LogStats
  {
    LogStats(Tally(Levels(entries)), Tally(Sources(entries)))
  }

  // ------------------------------------------------------------------ what a table of groups says

  /** Some group holds `name`. */
  predicate Has(rows: seq<NameCount>, name: string)
  {
    rows != [] && (rows[0].name == name || Has(rows[1..], name))
  }

  /** Each value has at most one group. */
  predicate Distinct(rows: seq<NameCount>)
  {
    rows == [] || (!Has(rows[1..], rows[0].name) && Distinct(rows[1..]))
  }

  /** No group is empty. */
  predicate Positive(rows: seq<NameCount>)
  {
    forall k :: 0 <= k < |rows| ==> rows[k].count > 0
  }

  /** The number of occurrences the groups record for `name`. */
  function CountIn(rows: seq<NameCount>, name: string): nat
  {
    if rows == [] then 0
    else (if rows[0].name == name then rows[0].count else 0) + CountIn(rows[1..], name)
  }

  function Total(rows: seq<NameCount>): nat
  {
    if rows == [] then 0 else rows[0].count + Total(rows[1..])
  }

  lemma {:induction false} CountInAbsent(rows: seq<NameCount>, name: string)
    requires !Has(rows, name)
    ensures CountIn(rows, name) == 0
  {
    if rows != [] {
      CountInAbsent(rows[1..], name);
    }
  }

  lemma {:induction false} HasAt(rows: seq<NameCount>, k: nat)
    requires k < |rows|
    ensures Has(rows, rows[k].name)
  {
    if k > 0 {
      HasAt(rows[1..], k - 1);
      assert rows[1..][k - 1] == rows[k];
    }
  }

  /** In groups with distinct values, the count recorded for a group's value is that group's count,
      and distinct positions hold distinct values. */
  lemma {:induction false} CountInAt(rows: seq<NameCount>, k: nat)
    requires Distinct(rows) && k < |rows|
    ensures CountIn(rows, rows[k].name) == rows[k].count
    ensures forall j :: 0 <= j < |rows| && j != k ==> rows[j].name != rows[k].name
  {
    var tail := rows[1..];
    if k == 0 {
      CountInAbsent(tail, rows[0].name);
      forall j | 0 < j < |rows| ensures rows[j].name != rows[0].name {
        HasAt(tail, j - 1);
      }
    } else {
      assert tail[k - 1] == rows[k];
      HasAt(tail, k - 1);
      CountInAt(tail, k - 1);
      forall j | 0 < j < |rows| && j != k ensures rows[j].name != rows[k].name {
        assert tail[j - 1] == rows[j];
      }
    }
  }

  lemma {:induction false} BumpSpec(rows: seq<NameCount>, name: string)
    requires Distinct(rows) && Positive(rows)
    ensures Distinct(Bump(rows, name)) && Positive(Bump(rows, name))
    ensures forall m :: CountIn(Bump(rows, name), m) == CountIn(rows, m) + (if m == name then 1 else 0)
    ensures forall m :: Has(Bump(rows, name), m) <==> Has(rows, m) || m == name
    ensures Total(Bump(rows, name)) == Total(rows) + 1
  {
    if rows != [] && rows[0].name != name {
      BumpSpec(rows[1..], name);
    }
  }

  /** The groups of a column: one per distinct value, none empty, each counting that value's
      occurrences; their counts add up to the number of values. */
  lemma {:induction false} TallySpec(names: seq<string>)
    ensures Distinct(Tally(names)) && Positive(Tally(names))
    ensures forall m :: CountIn(Tally(names), m) == multiset(names)[m]
    ensures forall m :: Has(Tally(names), m) <==> m in names
    ensures Total(Tally(names)) == |names|
  {
    if names != [] {
      var init := names[..|names| - 1];
      var last := names[|names| - 1];
      assert Tally(names) == Bump(Tally(init), last);
      TallySpec(init);
      BumpSpec(Tally(init), last);
      LastOf(names);
    }
  }

  /** A non-empty sequence is its initial part followed by its last element. */
  lemma LastOf(names: seq<string>)
    requires names != []
    ensures var init, last := names[..|names| - 1], names[|names| - 1];
            && multiset(names) == multiset(init) + multiset{last}
            && (forall m :: m in names <==> m in init || m == last)
            && |names| == |init| + 1
  {
    assert names == names[..|names| - 1] + [names[|names| - 1]];
  }

  /** A count reported for a value is the number of occurrences of that value. */
  lemma TallyRow(names: seq<string>, k: nat)
    requires k < |Tally(names)|
    ensures Tally(names)[k].count == multiset(names)[Tally(names)[k].name] > 0
  {
    TallySpec(names);
    CountInAt(Tally(names), k);
  }

  function Occurrences(names: seq<string>, name: string): nat
  {
    multiset(names)[name]
  }

  // ------------------------------------------------------------------ the statistics

  /** The level statistics: one group per distinct stored level, none empty, each counting the
      entries with that level, together counting every entry once. */
  lemma LevelStats(entries: seq<LogEntry>)
    ensures var rows := GetStats(entries).levels;
            && Distinct(rows)
            && (forall k :: 0 <= k < |rows| ==> rows[k].count == Occurrences(Levels(entries), rows[k].name) > 0)
            && (forall i :: 0 <= i < |entries| ==> Has(rows, entries[i].level))
            && Total(rows) == |entries|
  {
    var rows := GetStats(entries).levels;
    TallySpec(Levels(entries));
    forall k | 0 <= k < |rows| ensures rows[k].count == Occurrences(Levels(entries), rows[k].name) > 0 {
      TallyRow(Levels(entries), k);
    }
    forall i | 0 <= i < |entries| ensures Has(rows, entries[i].level) {
      assert Levels(entries)[i] == entries[i].level;
    }
  }

  /** The source statistics, in the same terms. */
  lemma SourceStats(entries: seq<LogEntry>)
    ensures var rows := GetStats(entries).sources;
            && Distinct(rows)
            && (forall k :: 0 <= k < |rows| ==> rows[k].count == Occurrences(Sources(entries), rows[k].name) > 0)
            && (forall i :: 0 <= i < |entries| ==> Has(rows, entries[i].source))
            && Total(rows) == |entries|
  {
    var rows := GetStats(entries).sources;
    TallySpec(Sources(entries));
    forall k | 0 <= k < |rows| ensures rows[k].count == Occurrences(Sources(entries), rows[k].name) > 0 {
      TallyRow(Sources(entries), k);
    }
    forall i | 0 <= i < |entries| ensures Has(rows, entries[i].source) {
      assert Sources(entries)[i] == entries[i].source;
    }
  }

  /** A query filtering by an upper-case level selects as many entries as the level statistics
      count for it (the limit aside). */
  lemma {:induction false} LevelCountMatchesQuery(entries: seq<LogEntry>, level: string)
    requires level != "" && Upper(level) == level
    ensures |Filter(entries, NoArgs.(level := Some(level)))| == Occurrences(Levels(entries), level)
  {
    if entries != [] {
      LevelCountMatchesQuery(entries[1..], level);
      assert Levels(entries) == [entries[0].level] + Levels(entries[1..]);
    }
  }
}
