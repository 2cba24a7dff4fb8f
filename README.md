# Log Analyzer core in Dafny

This project models the core of a small log-analysis service and proves properties of the model.
The backend (Flask and SQLAlchemy over SQLite) accepts uploaded log files and parses them line by
line into `LogEntry` rows committed together. It answers filtered queries, newest first, at most
1000 rows per query, and it reports per-level and per-source counts. The web client formats stored
timestamps, colours level chips, keeps a record of filter values, and turns that record into the
query string of `GET /api/logs`.

Modules, in dependency order:

- `Wrappers`: `Option`.
- `Text`: Python's `str.split(sep, maxsplit)`, `split(sep)` and `strip(chars)`, ASCII `upper()`
  and `toLowerCase()`, decimal digits, and Python/JavaScript truthiness of an optional string
  (`Given`).
- `Timestamps`: naive `datetime` values and their order. It also models the three strict
  `strptime` formats the backend uses (`%Y-%m-%d`, `%Y-%m-%d %H:%M:%S` and
  `%Y-%m-%d %H:%M:%S,%f`), with the calendar checks `datetime` performs, and the matching
  writers.
- `Ingest`: the `LogEntry` row, a pending row before flush (`NewEntry`), and the parsing of one
  line (`ParseLine`), of a sequence of lines and of an upload's text.
- `Store`: the upload endpoint. `ParseUpload` is the parse loop, written as a loop and proved
  equal to `ParseContent`. `LogStore` is a class holding the table as a sequence of rows, and its
  `Upload` method covers the request checks, the single commit and the error outcomes.
- `Query`: `GET /api/logs`. It covers the four optional filters combined with AND, the order by
  descending timestamp and the limit of 1000.
- `Stats`: `GET /api/stats`, the `GROUP BY` counts per level and per source.
- `ClientTypes`: the client's `LogFilters` record, a map from property to an optional value.
  Object spread keeps a property set to `undefined` among the keys, so the map does too.
- `LogViewer`: `formatDate` with `pad`, `getLogLevelColor`, `handleFilterChange` and
  `clearFilters`.
- `Api`: the parameter-building part of `getLogs`, and how the backend reads those parameters.
- `Scenarios`: concrete uploads and queries worked through the model.

The database's side of things is modelled as follows:

- SQLite numbers the rows of `log_entry` 1, 2, 3, … in insertion order, since nothing deletes
  from it. `LogStore.Valid` states this.
- A successful commit appends the pending rows in `session.add` order.
- A failed commit leaves the table as it was.
- The clock reading (`datetime.utcnow()`) and the commit's success are parameters of `Upload`.

## Behaviour worth knowing

- Only the query's `level` is upper-cased. Stored levels are kept verbatim, so a stored level with
  a lower-case letter never matches a level filter (`Query.LowerCaseLevelNeverMatches`).
- Results come newest first (`ORDER BY timestamp DESC`). The database orders entries with equal
  timestamps as it likes.
- `end_date` bounds the timestamp at 23:59:59.000000 of that day. An entry in the last fraction of
  a second of the end date is not returned (`Query.OneDayRange`).
- The backend reads four query parameters: `level`, `source`, `start_date` and `end_date`. The
  client's `searchTerm` is never sent (`Api.SearchTermIgnored`).
- A malformed `start_date` or `end_date` sets no bound (`Query.BadStartDateIgnored`,
  `Query.BadEndDateIgnored`).
- Which lines of an upload are stored:
  - A non-blank line is stored whenever `split(' ', 3)` gives four parts, whatever its timestamp
    and level look like.
  - An unparsable timestamp is replaced by the upload time. So `not a log line` is stored with
    level `log` (`Scenarios.ThreeLineUpload`).
  - A line with fewer than three spaces is dropped silently.
- A successful upload replies with a fixed message only.
- The statistics groups come in the order the database returns them.
- A file that does not decode as UTF-8 ends in status 500, as any other exception does.

## Model

| member | source | states |
|---|---|---|
| Store.LogStore.Upload | backend/app.py:28-71 | The outcomes are the replies at lines 31, 35, 68 and 71, whose status codes `UploadResponse.Status` gives. No `file` part gives 400 and an empty file name gives 400. An undecodable file or a failed commit gives 500. Otherwise 200, and the table grows by exactly the entries of the file's lines, in line order, numbered on from the last id, with the upload time as creation time. Every outcome but 200 leaves the table unchanged, and ids stay dense. |
| Store.LogStore.constructor | backend/app.py:24-26 | A new table is empty and its ids are (vacuously) dense. |
| Store.ParseUpload | backend/app.py:39-65 | The loop over `content.split('\n')` yields exactly the entries `ParseContent` assigns to the text. |
| Store.PersistKeepsIdsDense | backend/app.py:16-17 | Appending a committed batch with ids counted on from the table's size keeps ids equal to positions plus one, so they are unique and increasing. |
| Ingest.BlankLineSkipped | backend/app.py:43-44 | A line made only of whitespace never yields an entry. |
| Ingest.ParseLineKept | backend/app.py:43-49 | A line yields an entry exactly when it is not all whitespace and holds at least three spaces. |
| Ingest.ParseLineFields | backend/app.py:48-65 | For `a b c m` with no space in `a`, `b`, `c`, the entry has timestamp `a b` read with `%Y-%m-%d %H:%M:%S,%f` (the upload time when that fails), level `c` with its brackets stripped, message all of `m`, and the file name as source. |
| Ingest.ParseLineFrom | backend/app.py:48-63 | Conversely, every entry comes from a line cut into three space-free fields and the message, with its fields as above. |
| Ingest.ParseLinesAppend | backend/app.py:42-65 | Lines are handled independently: the entries of two runs of lines are those of the first followed by those of the second. |
| Ingest.ParseLinesPosition | backend/app.py:42-65 | The entry of a kept line comes right after the entries of the lines before it, so entries keep line order. |
| Ingest.ParseLinesCount | backend/app.py:42-65 | The number of entries is the number of kept lines. |
| Ingest.ParseLinesSource | backend/app.py:63 | Every entry of an upload has the uploaded file's name as its source. |
| Ingest.ParseContentOfLines | backend/app.py:40 | For lines without newlines, the text joined with `\n` yields the entries of those lines: the text is cut at every newline and nowhere else. |
| Text.JoinSplitN | backend/app.py:48-50 | `split(' ', maxsplit)` loses nothing: joining the parts with the separator gives back the line. |
| Text.SplitNShape | backend/app.py:48-49 | `split(sep, maxsplit)` gives `min(maxsplit, occurrences of sep) + 1` parts. No part but the last contains the separator, and the last has none when the separations are not capped. |
| Text.SplitNOfJoin | backend/app.py:48 | Splitting a join of parts, the cap being one less than their number, gives the parts back when no part but the last has the separator. |
| Text.SplitNSaturates | backend/app.py:40 | Once the cap is at least the number of separators, raising it changes nothing. |
| Text.SplitOfJoin | backend/app.py:40 | `split(sep)` of a join of separator-free parts gives the parts back. |
| Text.Split | backend/app.py:40 | No line `split('\n')` gives contains a newline. |
| Text.Strip | backend/app.py:43 | A stripped string is empty exactly when every character is stripped. Otherwise it starts and ends with a kept character, and it is never longer than the input. |
| Text.StripPadded | backend/app.py:51 | Stripping removes exactly the strippable characters around a core that starts and ends with a kept character. |
| Text.LowerOfUpper | frontend/src/components/LogViewer/LogViewer.tsx:75 | Lower-casing an upper-cased string is lower-casing it directly. |
| Text.DigitsValueOfFixed | backend/app.py:55 | A number below `10^w` written in `w` digits reads back as that number. |
| Text.FixedOfDigitsValue | backend/app.py:55 | A string of digits is how its value is written at its own width. |
| Text.DigitsValueOfDecimal | frontend/src/components/LogViewer/LogViewer.tsx:27 | `toString()` of a non-negative number reads back as the number. |
| Text.DecimalIsFixed | frontend/src/components/LogViewer/LogViewer.tsx:27-28 | A number with exactly `w` digits is written by `toString()` as its `w`-digit form. |
| Timestamps.NotAfterTotalOrder | backend/app.py:89 | The order used for comparing timestamps is reflexive, total, antisymmetric and transitive. |
| Timestamps.ParseDateRoundTrip | backend/app.py:88 | Every valid midnight is written as a `%Y-%m-%d` string that parses back to it. |
| Timestamps.ParseSecondsRoundTrip | backend/app.py:94 | Every valid timestamp without microseconds is written as a `%Y-%m-%d %H:%M:%S` string that parses back to it. |
| Timestamps.ParseStampRoundTrip | backend/app.py:55 | Every valid timestamp is written as a `%Y-%m-%d %H:%M:%S,%f` string that parses back to it. |
| Timestamps.ParseDateCanonical | backend/app.py:88 | What `%Y-%m-%d` accepts is a valid midnight whose written form is the input. |
| Timestamps.ParseSecondsCanonical | backend/app.py:94 | What `%Y-%m-%d %H:%M:%S` accepts is a valid timestamp without microseconds whose written form is the input. |
| Timestamps.ParseStampCanonical | backend/app.py:55 | What `%Y-%m-%d %H:%M:%S,%f` accepts is valid, and its first 19 characters are how its seconds are written. With six digits of `%f`, the whole input is how it is written. |
| Timestamps.EndOfDay | backend/app.py:92-97 | The date with ` 23:59:59` appended parses exactly when the date alone parses with `%Y-%m-%d`, and it then gives the last whole second of that day. |
| Query.FilterCounts | backend/app.py:80-97 | Filtering keeps each matching entry as often as it is stored, and nothing else. |
| Query.FilterNoArgs | backend/app.py:75-85 | Without parameters every stored entry matches. |
| Query.SortSpec | backend/app.py:99 | The sort puts entries newest first and is a permutation of its input. |
| Query.GetLogsSize | backend/app.py:99 | A query returns `min(matching, 1000)` rows, never more than 1000. |
| Query.GetLogsSound | backend/app.py:80-99 | Every row returned is stored and satisfies every filter given. No entry comes back more often than it is stored, and rows come newest first. |
| Query.GetLogsComplete | backend/app.py:80-99 | When at most 1000 entries match, every one of them is returned, as often as it is stored. |
| Query.GetLogsNewest | backend/app.py:99 | A matching entry cut off by the limit is no newer than any row returned. |
| Query.GetLogsAll | backend/app.py:75-99 | With no parameters and at most 1000 stored entries, every stored entry is returned. |
| Query.LevelCaseInsensitive | backend/app.py:82-83 | Two `level` spellings that differ only in case select the same rows. |
| Query.LowerCaseLevelNeverMatches | backend/app.py:82-83 | A stored level containing a lower-case letter never matches a level filter. |
| Query.BadStartDateIgnored | backend/app.py:86-91 | A `start_date` that is not a `%Y-%m-%d` date sets no bound: the result is the one without it. |
| Query.BadEndDateIgnored | backend/app.py:92-97 | An `end_date` that is not a `%Y-%m-%d` date sets no bound either. |
| Query.EndBoundIsLastSecond | backend/app.py:92-95 | A valid `end_date` bounds timestamps at 23:59:59 of that day, with zero microseconds. |
| Query.OneDayRange | backend/app.py:86-97 | Equal start and end dates select, among valid timestamps, exactly those of that day, except those after 23:59:59 by a fraction of a second. |
| Stats.TallySpec | backend/app.py:113-122 | The groups of a column have one row per distinct value and no empty row. Each row counts its value's occurrences, the rows exist exactly for the values present, and the counts add up to the number of rows in the table. |
| Stats.BumpSpec | backend/app.py:115 | Counting one more value raises that value's count by one, opening a group if needed, and keeps groups distinct and non-empty. |
| Stats.TallyRow | backend/app.py:113-127 | Each reported count is the positive number of occurrences of the reported name. |
| Stats.LevelStats | backend/app.py:113-116 | The level statistics have one positive, accurate group per distinct stored level, cover every entry's level, and add up to the number of entries. |
| Stats.SourceStats | backend/app.py:119-122 | The same for sources. |
| Stats.LevelCountMatchesQuery | backend/app.py:82-83 | For an upper-case level, the entries a level query selects (the limit aside) are as many as the level statistics count. |
| LogViewer.PadStart | frontend/src/components/LogViewer/LogViewer.tsx:27 | `padStart(width, fill)`: the length is the larger of the input length and the width, the input sits at the end, and the fill character is everything before it. |
| LogViewer.PadSmall | frontend/src/components/LogViewer/LogViewer.tsx:27 | A one-digit number is written as `0` followed by its digit. |
| LogViewer.PadReadsBack | frontend/src/components/LogViewer/LogViewer.tsx:27 | `pad` of a non-negative number has at least two digits that read back as the number. |
| LogViewer.PadLarge | frontend/src/components/LogViewer/LogViewer.tsx:27 | A number of two or more digits is written in full, never cut to two characters. |
| LogViewer.PadTwoDigits | frontend/src/components/LogViewer/LogViewer.tsx:27 | Below 100, `pad` writes exactly two digits. |
| LogViewer.FormatDateLayout | frontend/src/components/LogViewer/LogViewer.tsx:26-29 | With a four-digit year, the text has 19 characters and separators in fixed places. Each field is written in two digits, and the month is one more than `getMonth()`. |
| LogViewer.FormatDateOfTimestamp | frontend/src/components/LogViewer/LogViewer.tsx:26-29 | The table shows a stored timestamp (four-digit year) exactly as `%Y-%m-%d %H:%M:%S` writes it, and that text parses back to the timestamp without its microseconds. |
| LogViewer.LevelColorTable | frontend/src/components/LogViewer/LogViewer.tsx:74-88 | Each level gets the colour listed for its lower-cased spelling, and `primary` when none is listed. |
| LogViewer.LevelColorIgnoresCase | frontend/src/components/LogViewer/LogViewer.tsx:75 | Levels equal up to case get the same colour. |
| LogViewer.LevelColorOfUpper | frontend/src/components/LogViewer/LogViewer.tsx:75 | Upper-casing a level, as the query does, keeps its colour. |
| LogViewer.LevelColorExamples | frontend/src/components/LogViewer/LogViewer.tsx:74-88 | `ERROR`, `Warn`, `WARNING`, `info` and `DEBUG` get their colours. `[ERROR]` gets `primary`. |
| LogViewer.ChangeFilterSpec | frontend/src/components/LogViewer/LogViewer.tsx:63-68 | An update sets the field when the value is present and not empty, and unsets it otherwise. Every other property keeps its value and its presence, and the field joins the keys even when unset. |
| LogViewer.ChangeFilterIdempotent | frontend/src/components/LogViewer/LogViewer.tsx:63-68 | Repeating an update changes nothing more. |
| LogViewer.ChangeFilterCommutes | frontend/src/components/LogViewer/LogViewer.tsx:63-68 | Updates of different fields can be made in either order. |
| LogViewer.ClearFilters | frontend/src/components/LogViewer/LogViewer.tsx:70-72 | After clearing, the record has no keys and every field reads as unset. |
| LogViewer.ClearButtonAfterEmptying | frontend/src/components/LogViewer/LogViewer.tsx:158 | Emptying a field's input leaves it among the keys, so the clear button stays enabled while the field reads as unset. |
| Api.BuildParams | frontend/src/services/api.ts:21-26 | The four conditional appends build exactly `QueryParams` of the record. |
| Api.ParamsFromLookup | frontend/src/services/api.ts:23-26 | With distinct names, looking a field's name up among the parameters gives the field's value when it is truthy, and nothing otherwise. |
| Api.QueryParamsLookup | frontend/src/services/api.ts:23-26 | `level`, `source`, `start_date` and `end_date` are each sent exactly when the matching field is truthy, with its value unchanged. |
| Api.QueryParamsOrder | frontend/src/services/api.ts:21-26 | Only those four names are sent, each at most once, in that order. |
| Api.SearchTermIgnored | frontend/src/types/index.ts:20 | The `searchTerm` property never changes the parameters sent. |
| Api.QueryParamsEmpty | frontend/src/services/api.ts:20-26 | No parameter is sent exactly when none of the four fields is truthy, in particular for the default `{}`. |
| Api.ClientQuery | backend/app.py:75-78 | The backend reads back from the client's query string the four truthy filter values. The resulting query selects what the filter record asks for. |
| Scenarios.ThreeLineUpload | backend/app.py:40-65 | The three-line example upload stores three entries. The two timestamps without `,%f` take the upload time, and `not a log line` becomes level `log`, message `line`. |
| Scenarios.QueryAfterUpload | backend/app.py:82-99 | After that upload into an empty table, the rows get ids 1 to 3, and a query for level `info` returns the third row only. |
| Scenarios.BracketedLine | backend/app.py:48-57 | `2024-01-01 10:00:00,123 [ERROR] disk full` is stored at 10:00:00.123000 with level `ERROR` and message `disk full`. |
| Scenarios.LineWithoutFraction | backend/app.py:54-57 | A line whose timestamp has no `,%f` part takes the upload time and keeps its fields. |

## Left out

- HTTP, Flask routing, CORS, multipart parsing and JSON serialisation (`isoformat`, the response
  bodies at backend/app.py:101-108 and 124-127) are not modelled. The upload's request is an
  optional file of name and content, and its reply is a status.
- UTF-8 decoding is not modelled. An uploaded file's content is either its text or None when it
  does not decode.
- SQLAlchemy sessions and SQLite storage are left out. The table is a sequence of rows, ids are
  insertion positions, and the commit's outcome is a parameter.
- The column widths `String(20)` and `String(100)` are not modelled. SQLite does not enforce them.
- Store.LogStore.Upload: `datetime.utcnow()` is read once per unparsable timestamp, and the column
  default of `created_at` calls it once per inserted row; the model uses one clock reading `now`
  for all of them.
- The order of entries with equal timestamps and the order of statistics groups are not modelled.
  Both are left to the database, and no lemma depends on them.
- `strptime` leniencies beyond fixed-width ASCII fields are not modelled. These are one-digit
  fields, the whitespace `strptime` tolerates, and non-ASCII decimal digits. `%Y`, `%d`, `%H`,
  `%M` and `%S` are matched with `\d`, which also accepts digits such as `٢`, and `int()` converts
  them. Such timestamps parse in the source but fall back to `now` in `Ingest.ParseLine`, and such
  dates set no bound in `Query`. The model reads `%Y`, `%m`, `%d`, `%H`, `%M` and `%S` as ASCII
  digits at their full widths.
- Case mapping is ASCII only. Python's `upper()` and JavaScript's `toLowerCase()` also map
  non-ASCII letters. Whitespace for `strip()` is Python's full `str.isspace` set (`Text.IsSpace`).
- Time zones are not modelled. `LogViewer.PartsOf` takes the local fields of `new Date(timestamp)`
  to be the stored fields, which holds outside daylight-saving gaps for an ISO date-time string
  without an offset.
- LogViewer.FormatDateLayout: covers four-digit years only. `getFullYear()` of other years is
  written without padding, as `FormatDate` models, and no layout is claimed for them.
- `URLSearchParams` percent-encoding and the axios calls are not modelled. Parameters are an
  ordered list of name and value pairs.
- React state, effects, rendering, the Uploader, Stats and App components, and `fetchLogs` are
  not modelled.
