/** The query string the web client sends with `GET /api/logs`, built from its filter record. */
module Api {
  import opened Wrappers
  import opened Text
  import opened Ingest
  import opened Query
  import opened ClientTypes

  /** A query string as an ordered list of key and value pairs. */
  type Params = seq<(string, string)>

  /** The filter fields sent to the backend, each with the name of its parameter, in the order the
      parameters are appended. `searchTerm` is not among them. */
  const ParamNames: seq<(FilterField, string)> :=
    [(Level, "level"), (Source, "source"), (StartDate, "start_date"), (EndDate, "end_date")]

  /** One parameter for each field of `table` whose value in `f` is present and not empty, under
      the field's name, in table order. */
  function ParamsFrom(table: seq<(FilterField, string)>, f: LogFilters): Params
  {
    if table == [] then [] else Entry(f, table[0].0, table[0].1) + ParamsFrom(table[1..], f)
  }

  /** The parameter one field contributes: none when its value is missing or empty. */
  function Entry(f: LogFilters, field: FilterField, key: string): Params
  {
    match Given(Get(f, field))
    case Some(v) => [(key, v)]
    case None => []
  }

  function QueryParams(f: LogFilters): Params
  {
    ParamsFrom(ParamNames, f)
  }

  /** The parameter-building part of `getLogs`: up to four successive conditional appends. */
  method BuildParams(filters: LogFilters) returns (params: Params)
    ensures params == QueryParams(filters)
  {
    params := [];
    if Given(Get(filters, Level)).Some? {
      params := params + [("level", Get(filters, Level).value)];
    }
    if Given(Get(filters, Source)).Some? {
      params := params + [("source", Get(filters, Source).value)];
    }
    if Given(Get(filters, StartDate)).Some? {
      params := params + [("start_date", Get(filters, StartDate).value)];
    }
    if Given(Get(filters, EndDate)).Some? {
      params := params + [("end_date", Get(filters, EndDate).value)];
    }
    QueryParamsParts(filters);
  }

  /** The value of the first parameter named `key`, as `request.args.get` reads it. */
  function Param(params: Params, key: string): Option<string>
  {
    if params == [] then None
    else if params[0].0 == key then Some(params[0].1)
    else Param(params[1..], key)
  }

  /** How the backend reads the query string. */
  function ArgsOf(params: Params): QueryArgs
  {
    QueryArgs(Param(params, "level"), Param(params, "source"), Param(params, "start_date"), Param(params, "end_date"))
  }

  /** The position of a parameter name among the four, or 4 for any other name. */
  function KeyRank(key: string): nat
  {
    if key == "level" then 0
    else if key == "source" then 1
    else if key == "start_date" then 2
    else if key == "end_date" then 3
    else 4
  }

  predicate NamesDistinct(table: seq<(FilterField, string)>)
  {
    forall i, j :: 0 <= i < j < |table| ==> table[i].1 != table[j].1
  }

  // ------------------------------------------------------------------ lemmas over a table

  /** The first parameter named `key` in two lists one after the other. */
  lemma {:induction false} ParamConcat(a: Params, b: Params, key: string)
    ensures Param(a + b, key) == if Param(a, key).Some? then Param(a, key) else Param(b, key)
  {
    if a != [] {
      assert (a + b)[1..] == a[1..] + b;
      ParamConcat(a[1..], b, key);
    } else {
      assert a + b == b;
    }
  }

  lemma {:induction false} ParamAbsent(table: seq<(FilterField, string)>, f: LogFilters, key: string)
    requires forall i :: 0 <= i < |table| ==> table[i].1 != key
    ensures Param(ParamsFrom(table, f), key) == None
  {
    if table != [] {
      ParamAbsent(table[1..], f, key);
      ParamConcat(Entry(f, table[0].0, table[0].1), ParamsFrom(table[1..], f), key);
    }
  }

  /** Looking a field's name up in the parameters gives the field's value when it is present and
      not empty, and nothing otherwise. */
  lemma {:induction false} ParamsFromLookup(table: seq<(FilterField, string)>, f: LogFilters, i: nat)
    requires NamesDistinct(table) && i < |table|
    ensures Param(ParamsFrom(table, f), table[i].1) == Given(Get(f, table[i].0))
  {
    var tail := table[1..];
    var head := Entry(f, table[0].0, table[0].1);
    ParamConcat(head, ParamsFrom(tail, f), table[i].1);
    if i == 0 {
      if Given(Get(f, table[0].0)).None? {
        forall k | 0 <= k < |tail| ensures tail[k].1 != table[0].1 {
          assert tail[k] == table[k + 1];
        }
        ParamAbsent(tail, f, table[0].1);
      }
    } else {
      assert tail[i - 1] == table[i];
      assert table[0].1 != table[i].1;
      assert NamesDistinct(tail) by {
        forall a, b | 0 <= a < b < |tail| ensures tail[a].1 != tail[b].1 {
          assert tail[a] == table[a + 1] && tail[b] == table[b + 1];
        }
      }
      ParamsFromLookup(tail, f, i - 1);
    }
  }

  /** The parameters, field by field in the fixed order. */
  lemma QueryParamsParts(f: LogFilters)
    ensures QueryParams(f) == Entry(f, Level, "level") + Entry(f, Source, "source")
                              + Entry(f, StartDate, "start_date") + Entry(f, EndDate, "end_date")
  {
    var t := ParamNames;
    assert t[1..][1..][1..][1..] == [];
    assert ParamsFrom(t[3..], f) == Entry(f, EndDate, "end_date") by {
      assert t[3..][1..] == [];
    }
    assert t[2..][1..] == t[3..] && t[1..][1..] == t[2..];
    assert ParamsFrom(t[2..], f) == Entry(f, StartDate, "start_date") + ParamsFrom(t[3..], f);
    assert ParamsFrom(t[1..], f) == Entry(f, Source, "source") + ParamsFrom(t[2..], f);
    assert ParamsFrom(t, f) == Entry(f, Level, "level") + ParamsFrom(t[1..], f);
  }

  // ------------------------------------------------------------------ the four parameters

  /** A parameter is sent for a field exactly when the field is present and not empty, under the
      field's parameter name, with the field's value unchanged. */
  lemma QueryParamsLookup(f: LogFilters)
    ensures forall i :: 0 <= i < |ParamNames| ==> Param(QueryParams(f), ParamNames[i].1) == Given(Get(f, ParamNames[i].0))
    ensures Param(QueryParams(f), "level") == Given(Get(f, Level))
    ensures Param(QueryParams(f), "source") == Given(Get(f, Source))
    ensures Param(QueryParams(f), "start_date") == Given(Get(f, StartDate))
    ensures Param(QueryParams(f), "end_date") == Given(Get(f, EndDate))
  {
    forall i | 0 <= i < |ParamNames| ensures Param(QueryParams(f), ParamNames[i].1) == Given(Get(f, ParamNames[i].0)) {
      ParamsFromLookup(ParamNames, f, i);
    }
    assert ParamNames[0] == (Level, "level") && ParamNames[1] == (Source, "source");
    assert ParamNames[2] == (StartDate, "start_date") && ParamNames[3] == (EndDate, "end_date");
  }

  /** Only the four names are sent, each at most once, always in the order level, source,
      start_date, end_date. */
  lemma QueryParamsOrder(f: LogFilters)
    ensures forall j :: 0 <= j < |QueryParams(f)| ==> KeyRank(QueryParams(f)[j].0) < 4
    ensures forall i, j :: 0 <= i < j < |QueryParams(f)| ==> KeyRank(QueryParams(f)[i].0) < KeyRank(QueryParams(f)[j].0)
  {
    QueryParamsParts(f);
  }

  /** The search term is never sent. */
  lemma SearchTermIgnored(f: LogFilters, v: Option<string>)
    ensures QueryParams(f[SearchTerm := v]) == QueryParams(f)
  {
    QueryParamsParts(f);
    QueryParamsParts(f[SearchTerm := v]);
  }

  /** No parameters are sent exactly when none of the four fields is present and not empty; in
      particular for the empty record. */
  lemma QueryParamsEmpty(f: LogFilters)
    ensures QueryParams(f) == [] <==>
              Given(Get(f, Level)).None? && Given(Get(f, Source)).None?
              && Given(Get(f, StartDate)).None? && Given(Get(f, EndDate)).None?
    ensures QueryParams(map[]) == []
  {
    QueryParamsParts(f);
    QueryParamsParts(map[]);
  }

  /** The backend reads back from the query string the four filter values, empty ones dropped, so a
      query from the client selects what the filter record asks for. */
  lemma ClientQuery(entries: seq<LogEntry>, f: LogFilters)
    ensures ArgsOf(QueryParams(f)) == QueryArgs(Given(Get(f, Level)), Given(Get(f, Source)),
                                                Given(Get(f, StartDate)), Given(Get(f, EndDate)))
    ensures GetLogs(entries, ArgsOf(QueryParams(f)))
            == GetLogs(entries, QueryArgs(Get(f, Level), Get(f, Source), Get(f, StartDate), Get(f, EndDate)))
  {
    QueryParamsLookup(f);
    FilterSame(entries, ArgsOf(QueryParams(f)),
               QueryArgs(Get(f, Level), Get(f, Source), Get(f, StartDate), Get(f, EndDate)));
  }
}
