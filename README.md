# LUBW backfill: a Dafny model

This project models the core of a small backfill tool. The tool reads
air-quality readings of a monitoring station from the LUBW measurement API
and republishes them over MQTT, one hour at a time.

Two parts are modelled:

- **The fetcher** (`fetch_station_data`, module `LubwController`). It takes
  one station and one time range. It queries the API once per component of
  the station and follows each component's chain of `nextLink` pages. It
  merges every reading into an accumulator keyed by the reading's start
  instant, with one row per instant, where a later reading of the same
  component at the same instant overwrites an earlier one. It then turns the
  accumulator into a table sorted by `datetime` and renames the columns with
  the static column mapping. The HTTP server is an oracle
  `pages: string -> seq<Response>`: the chain of responses it gives, in
  order, to the requests for each component. `FetchSpec` is the
  specification of one call: its result and the requests it makes. The
  method `FetchStationData` runs the same loops step by step and is proved
  equal to it. The lemmas in `LubwProperties` characterise that
  specification independently:
  - which exception or `None` is returned;
  - that a table holds one row per distinct instant, in ascending order;
  - that each cell holds the last reading of that component at that
    instant, under its renamed column;
  - which requests are made, in which order.
- **The backfill driver** (`generate_time_ranges` and the `__main__` loop of
  `integrate_missing_lubw_data.py`, module `IntegrateMissing`).
  - It cuts a window into one-hour ranges.
  - It fetches each range.
  - It skips a range whose result is `None` or an empty table.
  - From any other table it builds the message `{node_id, timestamp, data}`:
    the timestamp is the first row's instant in whole seconds, and the data
    is the last row's record with `datetime_utc`.
  - It publishes that message.
  - It stops the publisher at the end.

  The fetcher is a parameter of the driver. So is the formatting of an
  instant as a UTC string. The MQTT controller is a `Publisher` object that
  records the events it receives. `Drive` specifies a whole run: the events
  at the publisher and how the run ends. `RunBackfill` and
  `PublishRanges` are the loops, and they are proved to produce exactly
  that.

Times inside tables are integer nanoseconds since the epoch, as in a pandas
`datetime64[ns]` column. Range bounds are integer seconds, and the hour is
3600 of them.

In three places the code does something other than what a caller might
expect, and the model follows the code:

- A caller might expect a range in which no component yields a single
  reading to count as "no data" and be skipped. The code builds a table with
  no column at all, and `df['datetime']` raises `KeyError`. That exception
  is not caught, so the run ends at that range and the publisher is never
  stopped (`Finish`, `FetchedTable`, `EmptyRangeEndsRun`).
- A request exception makes the call return `None` (lubw_controller.py
  lines 105-107). The driver skips `None` exactly as it skips an empty table
  (integrate_missing_lubw_data.py lines 33-35). A failed range therefore
  leaves no trace at the publisher (`SkipPublishesNothing`).
- Only request exceptions are caught. An entry without `startZeit` or `wert`
  raises `KeyError`. A body or an entry that cannot be indexed by key raises
  `TypeError`: a body that is `null`, a number or a boolean, a string or list
  body that contains `'messwerte'`, or an entry that is not an object. Either
  exception ends the call and the run (`Paginate`, `Drive`).

## Model

| member | source | states |
|---|---|---|
| LubwController.FetchStationData | lubw_controller/lubw_controller.py:36-119 | An unknown station raises ValueError before any request. Otherwise the result and the exact sequence of requests are those of the specification `FetchSpec`: the components in the station's order, each paginated in turn, the first early return (None or an exception) returned as is, else the sorted and renamed table of everything accumulated |
| LubwController.FetchComponent | lubw_controller/lubw_controller.py:60-107 | The `while True` loop of one component equals `Paginate`. The first request is the query with `komponente`, `von`, `bis` and `station`; every later one is the previous page's `nextLink`. A request exception makes the call return None; a body without a `messwerte` list ends only this component; a body that cannot be indexed by key raises TypeError; a page is merged entry by entry; an empty or absent `nextLink` ends the loop |
| LubwController.MergePage | lubw_controller/lubw_controller.py:86-96 | The entry loop over one page reports the exception of its first incomplete entry (`FirstFault`). When there is none, the accumulator becomes the old one merged with the page's readings, in page order |
| LubwController.FirstFaultAt | lubw_controller/lubw_controller.py:86-89 | The exception a page raises is that of its first incomplete entry: TypeError when the entry is not an object, else KeyError naming `startZeit` before `wert` |
| LubwController.ComponentsOf | lubw_controller/lubw_controller.py:43-47 | `station_components.get(station)`: the station's components, in their listed order. No contract of its own: `FetchStationData` raises ValueError when the station is not listed |
| LubwController.ReadingsOf | lubw_controller/lubw_controller.py:86-89 | A page whose entries are all complete yields one reading per entry, in page order, each filed under the component with the entry's `startZeit` and `wert` |
| LubwController.EntryError | lubw_controller/lubw_controller.py:88-89 | The exception an incomplete entry raises: TypeError exactly when it is not an object, KeyError('startZeit') exactly when it is an object without `startZeit` (that key is looked up before `wert`), and never the unknown-station ValueError |
| LubwController.FirstFault | lubw_controller/lubw_controller.py:86-89 | A page raises no exception exactly when every one of its entries is an object with both `startZeit` and `wert` |
| LubwController.Truthy | lubw_controller/lubw_controller.py:99-103 | Pagination goes on only for a `nextLink` that is present and not empty. No contract: the loop's behaviour on it is stated by `FetchComponent` and `PaginateRequests` |
| LubwController.Merge | lubw_controller/lubw_controller.py:91-96 | One reading: create the row `{datetime}` on first sight of the instant, then set the component's cell. No contract of its own: `MergeSetsOneCell` states it |
| LubwController.MergeAll | lubw_controller/lubw_controller.py:86-96 | The readings merged in order. No contract of its own: `MergeAllAppend` and `MergeAllLastWrite` state what it computes |
| LubwController.Paginate | lubw_controller/lubw_controller.py:60-107 | The specification of one component's loop: the accumulator, the requests and the early return. No contract of its own: `FetchComponent` runs it, and `PaginateAccumulates`, `PaginateHaltsOnError` and `PaginateRequests` characterise it |
| LubwController.Walk | lubw_controller/lubw_controller.py:52-107 | The components one after the other, from an empty accumulator. No contract of its own: `WalkAccumulates`, `WalkHaltsOnFirstError` and `WalkRequests` characterise it |
| LubwController.Then | lubw_controller/lubw_controller.py:52-107 | The next components run only when the previous one did not return early. No contract of its own: part of `Walk` |
| LubwController.FetchSpec | lubw_controller/lubw_controller.py:43-119 | The result and requests of one call. No contract of its own: `FetchStationData` runs it, and `FetchOutcome`, `FetchRequests` and `FetchedTable` characterise it |
| LubwController.Finish | lubw_controller/lubw_controller.py:109-119 | KeyError('datetime') for an empty accumulator, else the sorted and renamed table. No contract of its own: `ToTable` runs it and `FetchedTable` characterises it |
| LubwController.SortedFrame | lubw_controller/lubw_controller.py:110-114 | The table of the accumulator has one row per accumulated instant; `SortedFramePermutes` adds that they are those instants' rows, in ascending order |
| LubwController.RenameColumns | lubw_controller/lubw_controller.py:38-41 | `rename_columns`. No contract of its own: `RenamePreservesCells`, `RenameNothing` and `RenameIdempotent` state what it does |
| LubwController.RenameRow | lubw_controller/lubw_controller.py:40 | The renaming of one row. No contract of its own: `RenamePreservesCells` states it for every row |
| LubwController.Insert | lubw_controller/lubw_controller.py:114 | Inserting a new instant into a strictly ascending sequence keeps it strictly ascending and adds exactly that instant |
| LubwController.SortStamps | lubw_controller/lubw_controller.py:113-114 | The instants of the accumulator come out strictly ascending, each exactly once, and nothing else comes out |
| LubwController.Ascending | lubw_controller/lubw_controller.py:113-114 | The reference order of the rows: the elements of a finite set of instants, strictly ascending, with as many elements as the set |
| LubwController.AscendingUnique | lubw_controller/lubw_controller.py:113-114 | There is only one strictly ascending enumeration of a set, so the sort the code performs gives exactly the reference order |
| LubwController.ToTable | lubw_controller/lubw_controller.py:109-117 | With no accumulated row the call raises KeyError('datetime'). Otherwise it returns the rows sorted by instant, with the columns of the mapping renamed (`Finish`) |
| LubwController.ExistingColumns | lubw_controller/lubw_controller.py:39 | `existing_columns` holds exactly the mapping's entries whose source is a column of the table, with the same targets |
| LubwController.ColumnMappingSafe | lubw_controller/lubw_controller.py:115-116 | The column mapping is injective, and none of its targets is one of its sources |
| LubwProperties.MergeSetsOneCell | lubw_controller/lubw_controller.py:91-96 | Merging one reading adds its instant to the keys. A new instant gets the row `{datetime, component}`; an existing row keeps every other cell; the reading's cell holds its value; no other row changes |
| LubwProperties.MergeAllAppend | lubw_controller/lubw_controller.py:86-96 | Merging two batches one after the other is the same as merging their concatenation, so accumulating page by page is accumulating the whole chain |
| LubwProperties.MergeAllLastWrite | lubw_controller/lubw_controller.py:86-96 | After a batch of readings the accumulator has one row per distinct instant, and that row's `datetime` is the instant. A component has a cell at an instant exactly when some reading of it has that instant, and the cell holds the value of the last such reading |
| LubwProperties.PaginateAccumulates | lubw_controller/lubw_controller.py:61-103 | A component that does not return early has merged every reading of every page of its chain, in order |
| LubwProperties.PaginateHaltsOnError | lubw_controller/lubw_controller.py:64-107 | A component returns early exactly with the first failure of its chain: None for a request exception, TypeError for a body or entry that cannot be indexed by key, KeyError for an entry lacking a key. A body without `messwerte`, which ends the chain, is not an early return |
| LubwProperties.WalkAccumulates | lubw_controller/lubw_controller.py:52-103 | When no component returns early, the accumulator holds the merge of all readings of all components, in component order |
| LubwProperties.WalkHaltsOnFirstError | lubw_controller/lubw_controller.py:52-107 | The call returns early exactly with the first early return of the first component, in station order, that has one |
| LubwProperties.FetchOutcome | lubw_controller/lubw_controller.py:43-119 | The result of a call: ValueError for an unknown station; else the first early return of the components; else the finished table of all their readings |
| LubwProperties.PaginateRequests | lubw_controller/lubw_controller.py:63-103 | A component's requests are a prefix of "the query, then each `nextLink` of the chain in order". They are the whole of it when the component does not return early, when it returns None, and whenever no page holds an incomplete entry: a request exception or a body that cannot be indexed can only come from the chain's last response |
| LubwProperties.WalkRequests | lubw_controller/lubw_controller.py:52-69 | The requests of the components are a prefix of their chains' requests concatenated in station order, and all of them when none returns early |
| LubwProperties.FetchRequests | lubw_controller/lubw_controller.py:44-69 | An unknown station makes no request. A known one makes a prefix of all its components' chained requests, and all of them when no component returns early |
| LubwProperties.SortedFramePermutes | lubw_controller/lubw_controller.py:110-114 | The table of a consistent accumulator has one row per accumulated instant, that instant's row, and the rows are strictly ascending by `datetime` |
| LubwProperties.RenamedSetSize | lubw_controller/lubw_controller.py:38-41 | Renaming with an injective mapping whose targets are not columns merges no two columns: the number of columns is unchanged |
| LubwProperties.RenamePreservesCells | lubw_controller/lubw_controller.py:38-41 | `rename_columns` keeps the rows and the number of columns. Every cell moves to its column's new name with its value unchanged, and a column outside the mapping keeps its name |
| LubwProperties.RenameNothing | lubw_controller/lubw_controller.py:38-41 | Renaming with an empty mapping leaves the table unchanged |
| LubwProperties.RenameIdempotent | lubw_controller/lubw_controller.py:38-41 | Renaming a second time with a mapping whose targets are not sources changes nothing |
| LubwProperties.StationColumnsSafe | lubw_controller/lubw_controller.py:21-24 | No component of a known station is called `datetime` or is a target of the column mapping, and `datetime` is neither a source nor a target of the mapping |
| LubwProperties.ChainReadingsComponent | lubw_controller/lubw_controller.py:86-96 | Every reading of a component's chain is filed under that component |
| LubwProperties.AllReadingsComponents | lubw_controller/lubw_controller.py:52-96 | Every reading of a call is filed under one of the components requested |
| LubwProperties.RenameKeepsInstants | lubw_controller/lubw_controller.py:113-117 | Renaming after the sort keeps each row's `datetime` and hence the ascending order |
| LubwProperties.ReadingsTableRows | lubw_controller/lubw_controller.py:86-117 | The renamed sorted table of a batch of readings has exactly one row per distinct instant of the readings, in strictly ascending order |
| LubwProperties.ReadingsTableCells | lubw_controller/lubw_controller.py:86-117 | In that table, the cell of a component under its renamed name at an instant is the last reading of it at that instant, and is absent when there is none |
| LubwProperties.ReadingsTableColumns | lubw_controller/lubw_controller.py:86-117 | The table's columns are `datetime` and the renamed names of the components read; each row holds `datetime` and the renamed names of the components read at its instant, and nothing else |
| LubwProperties.FetchedTable | lubw_controller/lubw_controller.py:86-119 | For a known station whose components return no early result: the call raises KeyError('datetime') exactly when no reading was received. Otherwise it returns the table of all readings: one ascending row per instant, the last value in each cell, columns `datetime` plus the renamed components read, and in each row `datetime` plus the renamed components read at its instant |
| LubwProperties.FetchedTableSorted | lubw_controller/lubw_controller.py:110-114 | Every table the fetcher returns is non-empty, carries an instant in every row, and is strictly ascending by `datetime` |
| IntegrateMissing.Chunks | integrate_missing_lubw_data.py:14-17 | The ranges from `start`, one hour each, while the range starts before `end`. No contract of its own: `ChunkAt`, `ChunksCount`, `Contiguous` and `Covers` characterise it |
| IntegrateMissing.GenerateTimeRanges | integrate_missing_lubw_data.py:8-17 | The loop yields exactly the one-hour ranges `Chunks(start, end)` |
| IntegrateMissing.ChunkAt | integrate_missing_lubw_data.py:14-17 | Range `i` is `[start + i h, start + (i + 1) h)` |
| IntegrateMissing.ChunksCount | integrate_missing_lubw_data.py:8-17 | There are ceil((end - start) / 1 h) ranges and none when start >= end: the ranges reach `end`, and one fewer would not |
| IntegrateMissing.Contiguous | integrate_missing_lubw_data.py:14-17 | The ranges tile the window in order. The first starts at `start`; each starts where the previous ended; each lasts one hour and starts before `end`; the last ends at or after `end` |
| IntegrateMissing.Covers | integrate_missing_lubw_data.py:8-17 | Every instant of `[start, end)` lies in exactly one range: there are no gaps and no overlaps |
| IntegrateMissing.Empty | integrate_missing_lubw_data.py:33 | `DataFrame.empty`: a table with no rows or no columns. No contract of its own: `Step`, `HandleRange` and `SkipPublishesNothing` state that such a table is skipped |
| Frames.Record | integrate_missing_lubw_data.py:41 | `to_dict(orient='records')` for one row: one entry per column of the table, the row's value or NaN where it has none |
| IntegrateMissing.WithUtcColumn | integrate_missing_lubw_data.py:37 | Adding `datetime_utc` keeps every row and its instant, and adds to each row its instant formatted in UTC |
| IntegrateMissing.UnixSeconds | integrate_missing_lubw_data.py:38 | `// 10 ** 9` floors: the seconds times 10^9 are at most the nanoseconds, and one second more exceeds them |
| IntegrateMissing.WithUnixColumn | integrate_missing_lubw_data.py:38 | Adding `unix_time` keeps every row and adds to each its instant in whole seconds |
| IntegrateMissing.DropColumns | integrate_missing_lubw_data.py:41 | `drop` keeps every row and removes exactly the named columns from the table and from each row |
| IntegrateMissing.LatestRecord | integrate_missing_lubw_data.py:41-43 | With no row the data is `{}`. Otherwise it is the last row as a record: one entry per column, the row's value where it has one |
| IntegrateMissing.MessageOf | integrate_missing_lubw_data.py:37-48 | The message of a non-empty table. No contract of its own: `BuildMessage` builds it step by step, and `MessageEarliestLatest` characterises it |
| IntegrateMissing.BuildMessage | integrate_missing_lubw_data.py:37-48 | The steps `datetime_utc`, `unix_time`, timestamp, `drop` and last record build `MessageOf`. It is addressed to the station, its timestamp is the first row's instant floor-divided to seconds, and its data is the last row's record over the table's columns without `datetime` and `unix_time`, with that row's instant formatted in UTC under `datetime_utc` and NaN for missing cells |
| IntegrateMissing.MessageEarliestLatest | integrate_missing_lubw_data.py:37-48 | On a table sorted by time, the message's timestamp is the earliest row's second and its `datetime_utc` is the latest row's instant |
| IntegrateMissing.Publisher.constructor | integrate_missing_lubw_data.py:21 | A new publisher for the station has received nothing |
| IntegrateMissing.Publisher.PublishData | integrate_missing_lubw_data.py:49 | Publishing appends exactly that message to what the publisher has received |
| IntegrateMissing.Publisher.Stop | integrate_missing_lubw_data.py:50 | Stopping appends exactly one stop event |
| IntegrateMissing.Step | integrate_missing_lubw_data.py:29-49 | One range: the fetch's exception, a skip for None or an empty table, else the table's message. No contract of its own: `HandleRange` runs it |
| IntegrateMissing.Drive | integrate_missing_lubw_data.py:26-50 | The run over the ranges. No contract of its own: `PublishRanges` and `RunBackfill` run it, and `DriveShape`, `StopsOnce`, `SkipPublishesNothing` and `EmptyRangeEndsRun` characterise it |
| IntegrateMissing.HandleRange | integrate_missing_lubw_data.py:29-49 | One range: an exception from the fetch is handed back and nothing is published; None or an empty table publishes nothing; any other table publishes exactly its message |
| IntegrateMissing.PublishRanges | integrate_missing_lubw_data.py:26-50 | The loop over the ranges and the final stop leave at the publisher exactly the events of `Drive`, and end as `Drive` ends |
| IntegrateMissing.RunBackfill | integrate_missing_lubw_data.py:26-50 | A run over `[start, end)` creates a fresh publisher for the station, and its events and outcome are those of `Drive` over the hourly ranges |
| IntegrateMissing.IntegrateMissingLubwData | integrate_missing_lubw_data.py:19-50 | The script's run: station DEBW015, from 2024-11-27T03:00:00 to 12:00:00 |
| IntegrateMissing.ScriptRanges | integrate_missing_lubw_data.py:23-26 | The script's window is nine ranges, 03:00 to 12:00, hour by hour |
| IntegrateMissing.DriveShape | integrate_missing_lubw_data.py:26-50 | A run publishes the messages of the ranges before the first one whose fetch raises, in order. If none raises, it then stops the publisher and completes; otherwise it ends with that exception and never stops the publisher |
| IntegrateMissing.EmittedPublishes | integrate_missing_lubw_data.py:33-49 | Each range yields at most one event, and that event is a publication |
| IntegrateMissing.StopsOnce | integrate_missing_lubw_data.py:26-50 | A completed run stops the publisher exactly once, as its last event. A run that raises never stops it. Every other event is a publication, and there are at most one per range plus the stop |
| IntegrateMissing.EmittedAppend | integrate_missing_lubw_data.py:26-49 | The events of two lists of ranges handled in turn are those of the first followed by those of the second |
| IntegrateMissing.SkipPublishesNothing | integrate_missing_lubw_data.py:33-35 | A range whose fetch gives None or an empty table publishes nothing and does not end the run: the events are those of the ranges before it followed by those after it |
| IntegrateMissing.TwoHourWindow | integrate_missing_lubw_data.py:26-50 | The window 03:00 to 05:00 is two ranges. If the first gives no data and the second a non-empty table, exactly that table's message is published, then the publisher is stopped |
| IntegrateMissing.EmptyRangeEndsRun | integrate_missing_lubw_data.py:26-50 | With the LUBW fetcher, take any range `i` with no crash before it whose components answer without error but with no reading. The fetch raises KeyError('datetime'), and the run ends there: the events are exactly those of the ranges before `i`, and there is no stop |
| IntegrateMissing.LubwFetchWellFormed | integrate_missing_lubw_data.py:29-38 | Every table the LUBW fetcher hands the driver carries an instant in every row, so `datetime_utc` and `unix_time` are defined |

## Left out

- HTTP, JSON decoding and the `print` calls are not modelled. The server is an oracle of responses per component. A transport error, an HTTP error status and a body that is not JSON are all one `Failed` response, since `requests` raises a `RequestException` for each. For a body that is not JSON this holds from requests 2.27 on; older versions raise a plain `ValueError`, which the fetcher does not catch and which would end the run. That older behaviour is not modelled.
- `UTF8BasicAuth` and the `Authorization` header are not modelled. Credentials and the base URL (`login_credentials`) are not modelled either. Requests record only what distinguishes them: the query parameters, or the `nextLink` followed.
- `LUBW_controller.__init__` is not modelled. It only copies credentials, and the driver never uses the instance it builds.
- JSON bodies are classified rather than parsed. `Malformed` is a body without a `messwerte` list: an object that lacks the key or holds something else under it, or a string or array that does not contain `'messwerte'`. `Mistyped` is a body on which the `in` test or the lookup raises TypeError. Which JSON values fall in each class is stated in the doc comment of `Response`.
- A `nextLink` or a `startZeit` that is not a string is not modelled: links are strings and instants are integers.
- Parsing of `startZeit` strings is not modelled: instants are integers. Two distinct strings are assumed to denote distinct instants, so the accumulator's keys are the instants.
- Timezone handling is not modelled (`tz_convert('UTC')` on the `datetime` column). `formatUtc` assumes timezone-aware instants: on a column of naive instants `tz_convert` raises TypeError, which would end the run, and the model cannot produce that exception. Neither is the text form of `datetime.fromisoformat` and `strftime`: range bounds are integer seconds, and the UTC formatting of an instant is the parameter `formatUtc`.
- The order of keys in a JSON object or a dict is not modelled: rows and records are maps. The order of the accumulator's rows before sorting does not matter, because the sort makes the instants strictly ascending.
- pandas' duplicate column names are not modelled. `RenameColumns` requires an injective mapping, which the column mapping is (`ColumnMappingSafe`). The properties of renaming also assume that no target is already a column, which holds for every known station's table (`StationColumnsSafe`).
- DropColumns: `drop` raising KeyError for an absent column is not modelled, because the driver only drops `datetime` and `unix_time`, which every table it builds has.
- Pagination is modelled on finite chains of pages. A server that sends `nextLink`s forever, the case where the code would loop forever, is not modelled.
- GenerateTimeRanges computes the whole list of ranges up front, where `generate_time_ranges` is a lazy generator. The ranges and their order are the same.
- The MQTT controller is not modelled beyond the order of what it receives: the connection, the topic, JSON serialisation, the packet counter and the background loop are left out. `publish_data` as written reads `data["tele"]`, which the driver's message does not contain. That lookup, and the KeyError it would raise, lie outside the driver and are not modelled.
- Integer widths are not modelled: `astype(np.int64)` and `int(...)` are exact for the instants involved, so instants and seconds are unbounded integers.
