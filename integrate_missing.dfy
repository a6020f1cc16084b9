/**
 * The backfill driver of integrate_missing_lubw_data.py: it cuts a window
 * into one-hour ranges, fetches each range from the LUBW fetcher, turns the
 * table of each range into one message and hands it to the publisher, and
 * stops the publisher at the end.
 *
 * Times of the ranges are whole seconds; instants inside tables are
 * nanoseconds, as in the fetcher. The fetcher is a parameter `fetch` from a
 * range to what `fetch_station_data` returns for it, and the UTC
 * formatting of an instant is a parameter `formatUtc`.
 */
module IntegrateMissing {
  import opened Frames
  import opened LubwController
  import opened LubwProperties

  /** One hour, the step of the ranges, in seconds. */
  const Hour: int := 3600

  /** Nanoseconds per second, the divisor of `unix_time`. */
  const NanosPerSecond: int := 1_000_000_000

  // ---------------------------------------------------------------------
  // The ranges

  /** The ranges `generate_time_ranges` yields: from `start` on, one hour
      at a time, while the range's start is before `end`. */
  function Chunks(start: int, end: int): seq<(int, int)>
    decreases end - start
  {
    if start < end then [(start, start + Hour)] + Chunks(start + Hour, end) else []
  }

  /** `generate_time_ranges`: the loop that advances `start` by one hour. */
  method GenerateTimeRanges(startTime: int, endTime: int) returns (ranges: seq<(int, int)>)
    ensures ranges == Chunks(startTime, endTime)
  {
    var start := startTime;
    ranges := [];
    while start < endTime
      invariant ranges + Chunks(start, endTime) == Chunks(startTime, endTime)
      decreases endTime - start
    {
      var nextStart := start + Hour;
      assert Chunks(start, endTime) == [(start, nextStart)] + Chunks(nextStart, endTime);
      ranges := ranges + [(start, nextStart)];
      start := nextStart;
    }
    assert Chunks(start, endTime) == [];
  }

  /** Range `i` starts `i` hours after `start` and lasts exactly one hour. */
  lemma {:induction false} ChunkAt(start: int, end: int, i: nat)
    requires i < |Chunks(start, end)|
    ensures Chunks(start, end)[i] == (start + i * Hour, start + (i + 1) * Hour)
    decreases i
  {
    if i > 0 {
      ChunkAt(start + Hour, end, i - 1);
    }
  }

  /** There are ceil((end - start) / 1 h) ranges, none when `start >= end`:
      the ranges reach `end` and one range fewer would not. */
  lemma {:induction false} ChunksCount(start: int, end: int)
    ensures start >= end ==> Chunks(start, end) == []
    ensures start < end ==> |Chunks(start, end)| * Hour >= end - start > (|Chunks(start, end)| - 1) * Hour
    ensures |Chunks(start, end)| == if start < end then (end - start + Hour - 1) / Hour else 0
    decreases end - start
  {
    if start < end {
      ChunksCount(start + Hour, end);
    }
  }

  /** The ranges tile `[start, end)` in order: the first starts at `start`,
      each starts where the previous one ended, every start is before
      `end`, and the last one ends at or after `end`. */
  lemma Contiguous(start: int, end: int)
    ensures start < end ==> Chunks(start, end)[0].0 == start
    ensures forall i :: 0 < i < |Chunks(start, end)| ==> Chunks(start, end)[i].0 == Chunks(start, end)[i - 1].1
    ensures forall i :: 0 <= i < |Chunks(start, end)| ==>
              Chunks(start, end)[i].0 < end && Chunks(start, end)[i].1 == Chunks(start, end)[i].0 + Hour
    ensures start < end ==> Chunks(start, end)[|Chunks(start, end)| - 1].1 >= end
  {
    var cs := Chunks(start, end);
    ChunksCount(start, end);
    forall i | 0 <= i < |cs| ensures cs[i] == (start + i * Hour, start + (i + 1) * Hour) {
      ChunkAt(start, end, i);
    }
  }

  /** Every instant of `[start, end)` lies in exactly one range. */
  lemma Covers(start: int, end: int, t: int)
    requires start <= t < end
    ensures exists i :: 0 <= i < |Chunks(start, end)| && Chunks(start, end)[i].0 <= t < Chunks(start, end)[i].1
    ensures forall i, j ::
              0 <= i < |Chunks(start, end)| && 0 <= j < |Chunks(start, end)| &&
              Chunks(start, end)[i].0 <= t < Chunks(start, end)[i].1 &&
              Chunks(start, end)[j].0 <= t < Chunks(start, end)[j].1
              ==> i == j
  {
    var cs := Chunks(start, end);
    ChunksCount(start, end);
    var k := (t - start) / Hour;
    assert start + k * Hour <= t < start + (k + 1) * Hour;
    assert k < |cs|;
    ChunkAt(start, end, k);
    forall i, j | 0 <= i < |cs| && 0 <= j < |cs| && cs[i].0 <= t < cs[i].1 && cs[j].0 <= t < cs[j].1
      ensures i == j
    {
      ChunkAt(start, end, i);
      ChunkAt(start, end, j);
    }
  }

  // ---------------------------------------------------------------------
  // The message of one range

  /** What the publisher is handed: `{"node_id", "timestamp", "data"}`. */
  datatype Message = Message(nodeId: string, timestamp: int, data: map<string, Cell>)

  /** A fetched table the driver can work on: every row carries its instant. */
  predicate WellFormed(r: FetchResult)
  {
    r.Table? ==> TimeIndexed(r.frame)
  }

  /** What the fetcher hands the driver. */
  type Fetched = r: FetchResult | WellFormed(r) witness NoResult

  /** `DataFrame.empty`: no rows or no columns. */
  function Empty(f: Frame): bool
  {
    |f.rows| == 0 || f.columns == {}
  }

  /** `unix_time`: the instant's nanoseconds floor-divided by 10^9 (Python's
      `//`, which Dafny's `/` agrees with for a positive divisor). */
  function UnixSeconds(ns: int): (secs: int)
    ensures secs * NanosPerSecond <= ns < secs * NanosPerSecond + NanosPerSecond
  {
    ns / NanosPerSecond
  }

  /** Adds the column `datetime_utc`: each row's instant, formatted in UTC. */
  function WithUtcColumn(f: Frame, formatUtc: int -> string): (g: Frame)
    requires TimeIndexed(f)
    ensures TimeIndexed(g) && |g.rows| == |f.rows| && g.columns == f.columns + {"datetime_utc"}
    ensures forall i :: 0 <= i < |f.rows| ==>
              StampOf(g.rows[i]) == StampOf(f.rows[i]) &&
              g.rows[i] == f.rows[i]["datetime_utc" := Text(formatUtc(StampOf(f.rows[i])))]
  {
    Frame(f.columns + {"datetime_utc"},
          seq(|f.rows|, i requires 0 <= i < |f.rows| && HasInstant(f.rows[i]) =>
            f.rows[i]["datetime_utc" := Text(formatUtc(StampOf(f.rows[i])))]))
  }

  /** Adds the column `unix_time`: each row's instant in whole seconds. */
  function WithUnixColumn(f: Frame): (g: Frame)
    requires TimeIndexed(f)
    ensures |g.rows| == |f.rows| && g.columns == f.columns + {"unix_time"}
    ensures forall i :: 0 <= i < |f.rows| ==>
              g.rows[i] == f.rows[i]["unix_time" := Integer(UnixSeconds(StampOf(f.rows[i])))]
  {
    Frame(f.columns + {"unix_time"},
          seq(|f.rows|, i requires 0 <= i < |f.rows| && HasInstant(f.rows[i]) =>
            f.rows[i]["unix_time" := Integer(UnixSeconds(StampOf(f.rows[i])))]))
  }

  /** `drop(columns=names)`. */
  function DropColumns(f: Frame, names: set<string>): (g: Frame)
    ensures |g.rows| == |f.rows| && g.columns == f.columns - names
    ensures forall i :: 0 <= i < |f.rows| ==> g.rows[i] == f.rows[i] - names
  {
    Frame(f.columns - names, seq(|f.rows|, i requires 0 <= i < |f.rows| => f.rows[i] - names))
  }

  /** `station_data[-1] if station_data else {}` over `to_dict(orient='records')`. */
  function LatestRecord(f: Frame): (latest: map<string, Cell>)
    ensures |f.rows| == 0 ==> latest == map[]
    ensures |f.rows| > 0 ==> latest.Keys == f.columns
    ensures |f.rows| > 0 ==>
              forall c :: c in f.rows[|f.rows| - 1] && c in f.columns ==> latest[c] == f.rows[|f.rows| - 1][c]
  {
    if |f.rows| == 0 then map[] else Record(f, |f.rows| - 1)
  }

  /** The columns of the payload: those of the table without `datetime`
      and `unix_time`, and with `datetime_utc`. */
  function PayloadColumns(f: Frame): set<string>
  {
    f.columns - {"datetime", "unix_time"} + {"datetime_utc"}
  }

  /** The message of a non-empty table: addressed to the station, stamped
      with the first row's instant in whole seconds, and carrying the last
      row's values, its instant formatted in UTC as `datetime_utc`, and NaN
      for every column that row has no value for. */
  function MessageOf(station: string, f: Frame, formatUtc: int -> string): Message
    requires TimeIndexed(f) && |f.rows| > 0
  {
    var last := f.rows[|f.rows| - 1];
    Message(station, UnixSeconds(StampOf(f.rows[0])),
            map c | c in PayloadColumns(f) ::
              if c == "datetime_utc" then Text(formatUtc(StampOf(last)))
              else if c in last then last[c] else Missing)
  }

  /** Builds the message as the driver does: adds `datetime_utc` and
      `unix_time` to the table, reads the timestamp from the first row's
      `unix_time`, drops `datetime` and `unix_time`, and takes the last
      record. */
  method BuildMessage(station: string, table: Frame, formatUtc: int -> string) returns (message: Message)
    requires TimeIndexed(table) && |table.rows| > 0
    ensures message == MessageOf(station, table, formatUtc)
  {
    var df := WithUtcColumn(table, formatUtc);
    df := WithUnixColumn(df);
    var timestamp := df.rows[0]["unix_time"].n;
    var stationData := DropColumns(df, {"datetime", "unix_time"});
    var latestData := LatestRecord(stationData);
    message := Message(station, timestamp, latestData);
    var last := |table.rows| - 1;
    assert stationData.rows[last] ==
           table.rows[last]["datetime_utc" := Text(formatUtc(StampOf(table.rows[last])))]
                           ["unix_time" := Integer(UnixSeconds(StampOf(table.rows[last])))] - {"datetime", "unix_time"};
    assert latestData == MessageOf(station, table, formatUtc).data;
  }

  /** On a table sorted by time, as the fetcher returns it, the timestamp
      is that of the earliest row and the payload that of the latest. */
  lemma MessageEarliestLatest(station: string, f: Frame, formatUtc: int -> string)
    requires TimeIndexed(f) && StampsAscending(f) && |f.rows| > 0
    ensures forall i :: 0 <= i < |f.rows| ==>
              MessageOf(station, f, formatUtc).timestamp <= UnixSeconds(StampOf(f.rows[i])) &&
              StampOf(f.rows[i]) <= StampOf(f.rows[|f.rows| - 1])
    ensures MessageOf(station, f, formatUtc).data["datetime_utc"] == Text(formatUtc(StampOf(f.rows[|f.rows| - 1])))
  {
    forall i | 0 <= i < |f.rows|
      ensures UnixSeconds(StampOf(f.rows[0])) <= UnixSeconds(StampOf(f.rows[i]))
    {
      if i > 0 {
        DivMonotone(StampOf(f.rows[0]), StampOf(f.rows[i]));
      }
    }
  }

  lemma DivMonotone(a: int, b: int)
    requires a <= b
    ensures a / NanosPerSecond <= b / NanosPerSecond
  {
  }

  // ---------------------------------------------------------------------
  // The publisher

  /** What happened at the publisher, in order. */
  datatype Event = Published(message: Message) | Stopped

  /** The MQTT controller as the driver sees it: a sink that records what
      is published and when it is stopped. */
  class Publisher {
    const nodeId: string
    var events: seq<Event>

    constructor(nodeId: string)
      ensures this.nodeId == nodeId && events == []
    {
      this.nodeId := nodeId;
      events := [];
    }

    /** `publish_data`. */
    method PublishData(message: Message)
      modifies this
      ensures events == old(events) + [Published(message)]
    {
      events := events + [Published(message)];
    }

    /** `stop`. */
    method Stop()
      modifies this
      ensures events == old(events) + [Stopped]
    {
      events := events + [Stopped];
    }
  }

  // ---------------------------------------------------------------------
  // The run

  /** How the run ends: having stopped the publisher, or with the error
      that a fetch raised and that propagates out of the loop. */
  datatype Outcome = Completed | Crashed(error: Error)

  /** What the driver does with one range. */
  datatype ChunkStep = Skip | Publish(message: Message) | Crash(error: Error)

  function Step(station: string, chunk: (int, int), fetch: (int, int) -> Fetched,
                formatUtc: int -> string): ChunkStep
  {
    match fetch(chunk.0, chunk.1)
    case Raised(e) => Crash(e)
    case NoResult => Skip
    case Table(f) => if Empty(f) then Skip else Publish(MessageOf(station, f, formatUtc))
  }

  /** The events at the publisher and the outcome of a run. */
  datatype Trace = Trace(events: seq<Event>, outcome: Outcome)

  /** The run over the ranges `chunks`, range by range. */
  function Drive(station: string, chunks: seq<(int, int)>, fetch: (int, int) -> Fetched,
                 formatUtc: int -> string): Trace
    decreases |chunks|
  {
    if chunks == [] then Trace([Stopped], Completed)
    else
      match Step(station, chunks[0], fetch, formatUtc)
      case Crash(e) => Trace([], Crashed(e))
      case Skip => Drive(station, chunks[1..], fetch, formatUtc)
      case Publish(m) =>
        var rest := Drive(station, chunks[1..], fetch, formatUtc);
        Trace([Published(m)] + rest.events, rest.outcome)
  }

  /** One step of the run, seen from range `i` on: a range whose fetch
      raises ends the run there, any other adds its events in front of the
      rest of the run. */
  lemma DriveStep(station: string, chunks: seq<(int, int)>, i: nat, fetch: (int, int) -> Fetched,
                  formatUtc: int -> string)
    requires i < |chunks|
    ensures Step(station, chunks[i], fetch, formatUtc).Crash? ==>
              Drive(station, chunks[i..], fetch, formatUtc) == Trace([], Crashed(Step(station, chunks[i], fetch, formatUtc).error))
    ensures !Step(station, chunks[i], fetch, formatUtc).Crash? ==>
              Drive(station, chunks[i..], fetch, formatUtc).events ==
                StepEvents(Step(station, chunks[i], fetch, formatUtc)) + Drive(station, chunks[i + 1..], fetch, formatUtc).events &&
              Drive(station, chunks[i..], fetch, formatUtc).outcome == Drive(station, chunks[i + 1..], fetch, formatUtc).outcome
  {
    assert chunks[i..][0] == chunks[i];
    assert chunks[i..][1..] == chunks[i + 1..];
  }

  /** The `__main__` loop over the ranges of `[startTime, endTime)`. */
  method RunBackfill(station: string, startTime: int, endTime: int,
                     fetch: (int, int) -> Fetched, formatUtc: int -> string)
    returns (publisher: Publisher, outcome: Outcome)
    ensures fresh(publisher) && publisher.nodeId == station
    ensures publisher.events == Drive(station, Chunks(startTime, endTime), fetch, formatUtc).events
    ensures outcome == Drive(station, Chunks(startTime, endTime), fetch, formatUtc).outcome
  {
    publisher := new Publisher(station);
    var ranges := GenerateTimeRanges(startTime, endTime);
    outcome := PublishRanges(station, ranges, fetch, formatUtc, publisher);
  }

  /** What one range leaves at the publisher: its message, if it has one. */
  function StepEvents(step: ChunkStep): seq<Event>
  {
    if step.Publish? then [Published(step.message)] else []
  }

  /** The body of the loop for one range: fetch, skip or build and publish
      the message, or give back the error the fetch raised. */
  method HandleRange(station: string, range: (int, int), fetch: (int, int) -> Fetched,
                     formatUtc: int -> string, publisher: Publisher)
    returns (raised: Option<Error>)
    modifies publisher
    ensures publisher.events == old(publisher.events) + StepEvents(Step(station, range, fetch, formatUtc))
    ensures raised == if Step(station, range, fetch, formatUtc).Crash? then Some(Step(station, range, fetch, formatUtc).error) else None
  {
    raised := None;
    var (currentStart, currentEnd) := range;
    var getLubw := fetch(currentStart, currentEnd);
    match getLubw {
      case Raised(e) =>
        raised := Some(e);
      case NoResult =>
      case Table(df) =>
        if !Empty(df) {
          var message := BuildMessage(station, df, formatUtc);
          publisher.PublishData(message);
        }
    }
  }

  /** The loop over given ranges and the final `stop`. */
  method PublishRanges(station: string, ranges: seq<(int, int)>, fetch: (int, int) -> Fetched,
                       formatUtc: int -> string, publisher: Publisher)
    returns (outcome: Outcome)
    modifies publisher
    ensures publisher.events == old(publisher.events) + Drive(station, ranges, fetch, formatUtc).events
    ensures outcome == Drive(station, ranges, fetch, formatUtc).outcome
  {
    ghost var target := old(publisher.events) + Drive(station, ranges, fetch, formatUtc).events;
    var i := 0;
    while i < |ranges|
      invariant 0 <= i <= |ranges|
      invariant publisher.events + Drive(station, ranges[i..], fetch, formatUtc).events == target
      invariant Drive(station, ranges[i..], fetch, formatUtc).outcome == Drive(station, ranges, fetch, formatUtc).outcome
    {
      DriveStep(station, ranges, i, fetch, formatUtc);
      ghost var before := publisher.events;
      ghost var rest := Drive(station, ranges[i + 1..], fetch, formatUtc);
      var raised := HandleRange(station, ranges[i], fetch, formatUtc, publisher);
      if raised.Some? {
        assert publisher.events == before + [];
        outcome := Crashed(raised.value);
        return;
      }
      assert publisher.events + rest.events == before + (StepEvents(Step(station, ranges[i], fetch, formatUtc)) + rest.events);
      i := i + 1;
    }
    assert ranges[i..] == [];
    publisher.Stop();
    outcome := Completed;
  }

  /** The run the repository's script makes: station DEBW015 from
      2024-11-27T03:00:00 to 2024-11-27T12:00:00. */
  method IntegrateMissingLubwData(fetch: (int, int) -> Fetched, formatUtc: int -> string)
    returns (publisher: Publisher, outcome: Outcome)
    ensures fresh(publisher) && publisher.nodeId == "DEBW015"
    ensures publisher.events == Drive("DEBW015", Chunks(ScriptStart, ScriptEnd), fetch, formatUtc).events
    ensures outcome == Drive("DEBW015", Chunks(ScriptStart, ScriptEnd), fetch, formatUtc).outcome
  {
    publisher, outcome := RunBackfill("DEBW015", ScriptStart, ScriptEnd, fetch, formatUtc);
  }

  /** 2024-11-27T03:00:00 and 2024-11-27T12:00:00, read as seconds since the epoch. */
  const ScriptStart: int := 1732676400
  const ScriptEnd: int := 1732708800

  /** The script's window is nine ranges, 03:00 to 12:00 hour by hour. */
  lemma ScriptRanges()
    ensures |Chunks(ScriptStart, ScriptEnd)| == 9
    ensures forall i :: 0 <= i < 9 ==> Chunks(ScriptStart, ScriptEnd)[i] == (ScriptStart + i * Hour, ScriptStart + (i + 1) * Hour)
  {
    ChunksCount(ScriptStart, ScriptEnd);
    forall i | 0 <= i < 9 ensures Chunks(ScriptStart, ScriptEnd)[i] == (ScriptStart + i * Hour, ScriptStart + (i + 1) * Hour) {
      ChunkAt(ScriptStart, ScriptEnd, i);
    }
  }

  // ---------------------------------------------------------------------
  // What a run does

  /** The events of the ranges `chunks` taken one by one, in order, as if
      none raised. */
  function Emitted(station: string, chunks: seq<(int, int)>, fetch: (int, int) -> Fetched,
                   formatUtc: int -> string): seq<Event>
    decreases |chunks|
  {
    if chunks == [] then []
    else StepEvents(Step(station, chunks[0], fetch, formatUtc)) + Emitted(station, chunks[1..], fetch, formatUtc)
  }

  /** The index of the first range whose fetch raises, `|chunks|` if none does. */
  function FirstCrash(station: string, chunks: seq<(int, int)>, fetch: (int, int) -> Fetched,
                      formatUtc: int -> string): (k: nat)
    ensures k <= |chunks|
    ensures forall i :: 0 <= i < k ==> !Step(station, chunks[i], fetch, formatUtc).Crash?
    ensures k < |chunks| ==> Step(station, chunks[k], fetch, formatUtc).Crash?
    decreases |chunks|
  {
    if chunks == [] then 0
    else if Step(station, chunks[0], fetch, formatUtc).Crash? then 0
    else
      var k := FirstCrash(station, chunks[1..], fetch, formatUtc);
      assert forall i :: 1 <= i < k + 1 ==> chunks[i] == chunks[1..][i - 1];
      k + 1
  }

  /** A run publishes the messages of the ranges before the first one whose
      fetch raises, in range order; if no fetch raises it then stops the
      publisher and completes, otherwise it ends with that error and never
      stops the publisher. */
  lemma {:induction false} DriveShape(station: string, chunks: seq<(int, int)>, fetch: (int, int) -> Fetched,
                                      formatUtc: int -> string)
    ensures var k := FirstCrash(station, chunks, fetch, formatUtc);
            Drive(station, chunks, fetch, formatUtc).events ==
              Emitted(station, chunks[..k], fetch, formatUtc) + (if k == |chunks| then [Stopped] else [])
    ensures var k := FirstCrash(station, chunks, fetch, formatUtc);
            Drive(station, chunks, fetch, formatUtc).outcome ==
              if k == |chunks| then Completed else Crashed(Step(station, chunks[k], fetch, formatUtc).error)
    decreases |chunks|
  {
    if chunks != [] {
      var step := Step(station, chunks[0], fetch, formatUtc);
      var k := FirstCrash(station, chunks, fetch, formatUtc);
      if step.Crash? {
        assert chunks[..k] == [];
      } else {
        DriveShape(station, chunks[1..], fetch, formatUtc);
        assert chunks[..k][1..] == chunks[1..][..k - 1];
        assert chunks[..k][0] == chunks[0];
      }
    }
  }

  /** Each range gives at most one event, a publication. */
  lemma {:induction false} EmittedPublishes(station: string, chunks: seq<(int, int)>, fetch: (int, int) -> Fetched,
                                            formatUtc: int -> string)
    ensures |Emitted(station, chunks, fetch, formatUtc)| <= |chunks|
    ensures forall e :: e in Emitted(station, chunks, fetch, formatUtc) ==> e.Published?
    decreases |chunks|
  {
    if chunks != [] {
      EmittedPublishes(station, chunks[1..], fetch, formatUtc);
    }
  }

  /** The publisher is stopped exactly once, as the last event, when the
      run completes, and never when a fetch raises; there is at most one
      publication per range. */
  lemma StopsOnce(station: string, chunks: seq<(int, int)>, fetch: (int, int) -> Fetched,
                  formatUtc: int -> string)
    ensures var t := Drive(station, chunks, fetch, formatUtc);
            t.outcome == Completed ==>
              |t.events| > 0 && t.events[|t.events| - 1] == Stopped && Stopped !in t.events[..|t.events| - 1]
    ensures var t := Drive(station, chunks, fetch, formatUtc);
            t.outcome.Crashed? ==> Stopped !in t.events
    ensures var t := Drive(station, chunks, fetch, formatUtc);
            |t.events| <= |chunks| + 1 && forall i :: 0 <= i < |t.events| - 1 ==> t.events[i].Published?
  {
    var k := FirstCrash(station, chunks, fetch, formatUtc);
    var t := Drive(station, chunks, fetch, formatUtc);
    var published := Emitted(station, chunks[..k], fetch, formatUtc);
    DriveShape(station, chunks, fetch, formatUtc);
    EmittedPublishes(station, chunks[..k], fetch, formatUtc);
    if k == |chunks| {
      assert t.events[..|t.events| - 1] == published;
    }
    forall i | 0 <= i < |t.events| - 1 ensures t.events[i].Published? {
      assert t.events[i] in published;
    }
  }

  lemma SkipStep(station: string, chunk: (int, int), fetch: (int, int) -> Fetched, formatUtc: int -> string)
    requires var r := fetch(chunk.0, chunk.1); r.NoResult? || (r.Table? && Empty(r.frame))
    ensures Step(station, chunk, fetch, formatUtc) == Skip
  {
  }

  /** The events of a run over two lists of ranges, before any crash, are
      those of the first list followed by those of the second. */
  lemma {:induction false} EmittedAppend(station: string, a: seq<(int, int)>, b: seq<(int, int)>,
                                         fetch: (int, int) -> Fetched, formatUtc: int -> string)
    ensures Emitted(station, a + b, fetch, formatUtc) ==
              Emitted(station, a, fetch, formatUtc) + Emitted(station, b, fetch, formatUtc)
    decreases |a|
  {
    if a == [] {
      assert a + b == b;
    } else {
      EmittedAppend(station, a[1..], b, fetch, formatUtc);
      assert (a + b)[0] == a[0] && (a + b)[1..] == a[1..] + b;
      EmittedCons(station, a + b, fetch, formatUtc);
      EmittedCons(station, a, fetch, formatUtc);
      var first := StepEvents(Step(station, a[0], fetch, formatUtc));
      var restA := Emitted(station, a[1..], fetch, formatUtc);
      var restB := Emitted(station, b, fetch, formatUtc);
      assert first + (restA + restB) == (first + restA) + restB;
    }
  }

  lemma EmittedCons(station: string, chunks: seq<(int, int)>, fetch: (int, int) -> Fetched,
                    formatUtc: int -> string)
    requires chunks != []
    ensures Emitted(station, chunks, fetch, formatUtc) ==
              StepEvents(Step(station, chunks[0], fetch, formatUtc)) + Emitted(station, chunks[1..], fetch, formatUtc)
  {
  }

  /** A range whose fetch gives `None` or an empty table publishes nothing
      and does not end the run: the run's events are those of the ranges
      before it followed by those of the ranges after it. */
  lemma SkipPublishesNothing(station: string, chunks: seq<(int, int)>, i: nat,
                             fetch: (int, int) -> Fetched, formatUtc: int -> string)
    requires i < |chunks|
    requires var r := fetch(chunks[i].0, chunks[i].1); r.NoResult? || (r.Table? && Empty(r.frame))
    ensures Emitted(station, chunks, fetch, formatUtc) ==
              Emitted(station, chunks[..i], fetch, formatUtc) + Emitted(station, chunks[i + 1..], fetch, formatUtc)
    ensures FirstCrash(station, chunks, fetch, formatUtc) != i
  {
    SkipStep(station, chunks[i], fetch, formatUtc);
    assert chunks == chunks[..i] + ([chunks[i]] + chunks[i + 1..]);
    EmittedAppend(station, chunks[..i], [chunks[i]] + chunks[i + 1..], fetch, formatUtc);
    EmittedCons(station, [chunks[i]] + chunks[i + 1..], fetch, formatUtc);
    assert ([chunks[i]] + chunks[i + 1..])[1..] == chunks[i + 1..];
  }

  /** A window of two hours, 03:00 to 05:00, is fetched as two ranges; if
      the first gives no data and the second a table, exactly one message
      is published, that of the second range, and then the publisher is
      stopped. */
  lemma TwoHourWindow(station: string, fetch: (int, int) -> Fetched, formatUtc: int -> string, f: Frame)
    requires var r := fetch(ScriptStart, ScriptStart + Hour); r.NoResult? || (r.Table? && Empty(r.frame))
    requires fetch(ScriptStart + Hour, ScriptStart + 2 * Hour) == Table(f) && !Empty(f)
    ensures Chunks(ScriptStart, ScriptStart + 2 * Hour) ==
              [(ScriptStart, ScriptStart + Hour), (ScriptStart + Hour, ScriptStart + 2 * Hour)]
    ensures TimeIndexed(f) && |f.rows| > 0
    ensures Drive(station, Chunks(ScriptStart, ScriptStart + 2 * Hour), fetch, formatUtc) ==
              Trace([Published(MessageOf(station, f, formatUtc)), Stopped], Completed)
  {
    var chunks := Chunks(ScriptStart, ScriptStart + 2 * Hour);
    assert Chunks(ScriptStart + 2 * Hour, ScriptStart + 2 * Hour) == [];
    assert Chunks(ScriptStart + Hour, ScriptStart + 2 * Hour) == [(ScriptStart + Hour, ScriptStart + 2 * Hour)];
    assert chunks == [(ScriptStart, ScriptStart + Hour), (ScriptStart + Hour, ScriptStart + 2 * Hour)];
    assert WellFormed(fetch(ScriptStart + Hour, ScriptStart + 2 * Hour));
    assert chunks[1..] == [(ScriptStart + Hour, ScriptStart + 2 * Hour)];
    assert chunks[1..][1..] == [];
    var second := Drive(station, chunks[1..], fetch, formatUtc);
    assert Drive(station, chunks[1..][1..], fetch, formatUtc) == Trace([Stopped], Completed);
    assert Step(station, chunks[1], fetch, formatUtc) == Publish(MessageOf(station, f, formatUtc));
    assert second == Trace([Published(MessageOf(station, f, formatUtc)), Stopped], Completed);
    assert Step(station, chunks[0], fetch, formatUtc) == Skip;
  }

  /** With the LUBW fetcher: a range whose components all answer without
      error but without a single reading makes the fetch raise KeyError
      ('datetime'). If no earlier range raised, the run ends there: it has
      published the messages of the earlier ranges, handles no later range
      and never stops the publisher. */
  lemma EmptyRangeEndsRun(station: string, chunks: seq<(int, int)>, i: nat, fetch: (int, int) -> Fetched,
                          formatUtc: int -> string, pages: string -> seq<Response>)
    requires i < |chunks| && station in StationComponents && ChainsServed(station, pages)
    requires forall j :: 0 <= j < i ==> !Step(station, chunks[j], fetch, formatUtc).Crash?
    requires fetch(chunks[i].0, chunks[i].1) == FetchSpec(station, chunks[i].0, chunks[i].1, pages).0
    requires FirstError(pages, StationComponents[station]).None?
    requires AllReadings(pages, StationComponents[station]) == []
    ensures Drive(station, chunks, fetch, formatUtc) ==
              Trace(Emitted(station, chunks[..i], fetch, formatUtc), Crashed(MissingKey("datetime")))
  {
    FetchedTable(station, chunks[i].0, chunks[i].1, pages);
    assert Step(station, chunks[i], fetch, formatUtc) == Crash(MissingKey("datetime"));
    assert FirstCrash(station, chunks, fetch, formatUtc) == i;
    DriveShape(station, chunks, fetch, formatUtc);
  }

  /** Any fetch built from the LUBW fetcher's results hands the driver only
      tables it can work on. */
  lemma LubwFetchWellFormed(station: string, von: int, bis: int, pages: string -> seq<Response>)
    requires ChainsServed(station, pages)
    ensures WellFormed(FetchSpec(station, von, bis, pages).0)
  {
    FetchedTableSorted(station, von, bis, pages);
  }
}
