/**
 * The fetcher: for one station and one time range it queries the LUBW
 * measurement API once per component of the station, follows each
 * component's chain of `nextLink` pages, merges every reading into one
 * accumulator keyed by the reading's start instant, and turns the
 * accumulator into a table sorted by time with canonical column names.
 *
 * The HTTP server is an oracle: `pages(c)` is the chain of responses the
 * server gives, in order, to the requests made for component `c`.
 */
module LubwController {
  import opened Frames

  /** The fixed components each known station reports. */
  const StationComponents: map<string, seq<string>> := map[
    "DEBW015" := ["PM10", "PM2.5", "NO2", "O3", "TEMP", "RLF", "NSCH", "STRG", "WIV"],
    "DEBW152" := ["NO2", "CO"]
  ]

  /** The static rename table from API component names to canonical field names. */
  const ColumnMapping: map<string, string> := map[
    "PM10" := "pm10", "PM2.5" := "pm25", "TEMP" := "sht_temp", "RLF" := "sht_humid",
    "NSCH" := "sht_nsch", "STRG" := "sht_strg", "WIV" := "sht_wiv", "WIR" := "sht_wir"
  ]

  /** One element of `messwerte`: an object, where `None` stands for a key
      it lacks, or anything that is not an object (a string, a number,
      `null`, an array), which cannot be indexed by a key. */
  datatype Entry = Entry(startZeit: Option<int>, wert: Option<Cell>) | NonObject

  /** What one request yields: a request exception (transport failure,
      HTTP error status or an undecodable body); a body without a
      `messwerte` list (an object without that key or with a value that is
      not a list, or a string or array not containing `'messwerte'`); a body
      the `in` test or `data['messwerte']` cannot be applied to (`null`, a
      number, a boolean, or a string or array that contains `'messwerte'`);
      or a page of entries with its optional `nextLink`. */
  datatype Response = Failed | Malformed | Mistyped | Page(messwerte: seq<Entry>, nextLink: Option<string>)

  /** A request: the base URL with its query parameters, or a `nextLink` as given. */
  datatype Request =
    | Query(komponente: string, von: int, bis: int, station: string)
    | Follow(link: string)

  /** The exceptions the fetcher raises: `ValueError` for an unknown
      station, `KeyError` for a missing key, `TypeError` for a value that
      cannot be indexed by a key. */
  datatype Error = UnknownStation(station: string) | MissingKey(key: string) | TypeError

  /** What a call returns: an exception, `None`, or a table. */
  datatype FetchResult = Raised(error: Error) | NoResult | Table(frame: Frame)

  /** One reading: (start instant, component, value). */
  datatype Reading = Reading(stamp: int, component: string, value: Cell)

  /** `all_data`: start instant -> row of that instant. */
  type Accumulator = map<int, Row>

  function ComponentsOf(station: string): seq<string>
  {
    if station in StationComponents then StationComponents[station] else []
  }

  /** Python truthiness of a `nextLink` value: absent and "" are false. */
  function Truthy(link: Option<string>): bool
  {
    link.Some? && link.value != ""
  }

  /** A response after which pagination goes on. */
  predicate Continues(r: Response)
  {
    r.Page? && Truthy(r.nextLink)
  }

  /** A finite chain of responses: all but the last lead to a further page. */
  predicate Chained(ps: seq<Response>)
  {
    && |ps| > 0
    && (forall i :: 0 <= i < |ps| - 1 ==> Continues(ps[i]))
    && !Continues(ps[|ps| - 1])
  }

  /** The server answers every component of the station with a finite chain. */
  predicate ChainsServed(station: string, pages: string -> seq<Response>)
  {
    forall c :: c in ComponentsOf(station) ==> Chained(pages(c))
  }

  // ---------------------------------------------------------------------
  // Merging readings into the accumulator

  /** Records one reading: creates the row `{'datetime': t}` on first sight
      of `t`, then sets the component's cell (lemma `MergeSetsOneCell`). */
  function Merge(acc: Accumulator, r: Reading): Accumulator
  {
    var row := if r.stamp in acc then acc[r.stamp] else map["datetime" := Instant(r.stamp)];
    acc[r.stamp := row[r.component := r.value]]
  }

  /** Merges readings in order, the last one first applied last. */
  function MergeAll(acc: Accumulator, rs: seq<Reading>): Accumulator
    decreases |rs|
  {
    if rs == [] then acc else Merge(MergeAll(acc, rs[..|rs| - 1]), rs[|rs| - 1])
  }

  /** An entry that yields a reading: an object with both keys. */
  predicate Complete(e: Entry)
  {
    e.Entry? && e.startZeit.Some? && e.wert.Some?
  }

  /** What `entry['startZeit']`, then `entry['wert']`, raises on an entry
      that is not complete. */
  function EntryError(e: Entry): (err: Error)
    ensures !err.UnknownStation?
    ensures err == TypeError <==> e.NonObject?
    ensures err == MissingKey("startZeit") <==> e.Entry? && e.startZeit.None?
  {
    if e.NonObject? then TypeError
    else if e.startZeit.None? then MissingKey("startZeit")
    else MissingKey("wert")
  }

  /** The exception the first incomplete entry of a page raises, if any. */
  function FirstFault(es: seq<Entry>): (m: Option<Error>)
    ensures m.None? <==> forall i :: 0 <= i < |es| ==> Complete(es[i])
  {
    if es == [] then None
    else if !Complete(es[0]) then Some(EntryError(es[0]))
    else FirstFault(es[1..])
  }

  /** The readings of a page whose entries are all complete. */
  function ReadingsOf(c: string, es: seq<Entry>): (rs: seq<Reading>)
    requires forall i :: 0 <= i < |es| ==> Complete(es[i])
    ensures |rs| == |es|
  {
    seq(|es|, i requires 0 <= i < |es| && Complete(es[i]) => Reading(es[i].startZeit.value, c, es[i].wert.value))
  }

  // ---------------------------------------------------------------------
  // The specification of one call, step by step

  /** Where a walk over pages or components stands: the accumulator, the
      requests made so far, and the value returned early, if any. */
  datatype Progress = Progress(acc: Accumulator, requests: seq<Request>, halted: Option<FetchResult>)

  function Prepend(reqs: seq<Request>, p: Progress): Progress
  {
    Progress(p.acc, reqs + p.requests, p.halted)
  }

  /** Component `c`'s pagination from page `j`, which is requested by `req`. */
  function Paginate(acc: Accumulator, c: string, ps: seq<Response>, j: nat, req: Request): Progress
    requires Chained(ps) && j < |ps|
    decreases |ps| - j
  {
    match ps[j]
    case Failed => Progress(acc, [req], Some(NoResult))
    case Malformed => Progress(acc, [req], None)
    case Mistyped => Progress(acc, [req], Some(Raised(TypeError)))
    case Page(es, link) =>
      if FirstFault(es).Some? then Progress(acc, [req], Some(Raised(FirstFault(es).value)))
      else
        var merged := MergeAll(acc, ReadingsOf(c, es));
        if Truthy(link) then Prepend([req], Paginate(merged, c, ps, j + 1, Follow(link.value)))
        else Progress(merged, [req], None)
  }

  /** The components in `comps`, one after the other. */
  function Walk(station: string, von: int, bis: int, pages: string -> seq<Response>,
                comps: seq<string>, acc: Accumulator): Progress
    requires forall c :: c in comps ==> Chained(pages(c))
    decreases |comps|, 1
  {
    if comps == [] then Progress(acc, [], None)
    else Then(station, von, bis, pages,
              Paginate(acc, comps[0], pages(comps[0]), 0, Query(comps[0], von, bis, station)), comps[1..])
  }

  /** Goes on with the components `rest` unless `p` has returned early. */
  function Then(station: string, von: int, bis: int, pages: string -> seq<Response>,
                p: Progress, rest: seq<string>): Progress
    requires forall c :: c in rest ==> Chained(pages(c))
    decreases |rest| + 1, 0
  {
    if p.halted.Some? then p else Prepend(p.requests, Walk(station, von, bis, pages, rest, p.acc))
  }

  /** The least element of a finite set. */
  ghost function Least(keys: set<int>): (m: int)
    requires keys != {}
    ensures m in keys && forall t :: t in keys ==> m <= t
  {
    LeastExists(keys);
    var m :| m in keys && forall t :: t in keys ==> m <= t; m
  }

  lemma {:induction false} LeastExists(keys: set<int>)
    requires keys != {}
    ensures exists m :: m in keys && forall t :: t in keys ==> m <= t
    decreases keys
  {
    var y := Pick(keys);
    var rest := keys - {y};
    if rest != {} {
      LeastExists(rest);
      var m :| m in rest && forall t :: t in rest ==> m <= t;
      var least := if y < m then y else m;
      forall t | t in keys ensures least <= t {
        if t != y {
          assert t in rest;
        }
      }
      assert least in keys;
    } else {
      forall t | t in keys ensures y <= t {
        assert t !in rest;
      }
    }
  }

  /** Some element of a non-empty set. */
  lemma Pick<T>(s: set<T>) returns (x: T)
    requires s != {}
    ensures x in s
  {
    if forall y :: y !in s {
      assert false;
    }
    x :| x in s;
  }

  predicate StrictlyAscending(s: seq<int>)
  {
    forall i, j :: 0 <= i < j < |s| ==> s[i] < s[j]
  }

  /** The elements of a finite set of instants, in ascending order. */
  ghost function Ascending(keys: set<int>): (s: seq<int>)
    ensures StrictlyAscending(s) && |s| == |keys|
    ensures forall t :: t in s <==> t in keys
    ensures forall i :: 0 <= i < |s| ==> s[i] in keys
    decreases keys
  {
    if keys == {} then []
    else
      var m := Least(keys);
      var rest := Ascending(keys - {m});
      assert forall t :: t in rest ==> m < t;
      [m] + rest
  }

  /** The rows of the accumulator at the instants `ks`, in that order. */
  function RowsAt(acc: Accumulator, ks: seq<int>): (rows: seq<Row>)
    requires forall i :: 0 <= i < |ks| ==> ks[i] in acc
    ensures |rows| == |ks|
  {
    seq(|ks|, i requires 0 <= i < |ks| => acc[ks[i]])
  }

  /** Every column some row of the accumulator carries. */
  function ColumnsOf(acc: Accumulator): set<string>
  {
    set t, k | t in acc && k in acc[t] :: k
  }

  /** `pd.DataFrame(list(all_data.values()))` sorted by `datetime`. */
  ghost function SortedFrame(acc: Accumulator): (f: Frame)
    ensures |f.rows| == |acc|
  {
    Frame(ColumnsOf(acc), RowsAt(acc, Ascending(acc.Keys)))
  }

  /** What the call returns once every component is done. */
  ghost function Finish(acc: Accumulator): FetchResult
  {
    if acc == map[] then Raised(MissingKey("datetime"))
    else
      ColumnMappingSafe();
      Table(RenameColumns(SortedFrame(acc), ColumnMapping))
  }

  /** The result and the requests of one call to `fetch_station_data`. */
  ghost function FetchSpec(station: string, von: int, bis: int, pages: string -> seq<Response>): (FetchResult, seq<Request>)
    requires ChainsServed(station, pages)
  {
    if station !in StationComponents then (Raised(UnknownStation(station)), [])
    else
      var p := Walk(station, von, bis, pages, StationComponents[station], map[]);
      (if p.halted.Some? then p.halted.value else Finish(p.acc), p.requests)
  }

  // ---------------------------------------------------------------------
  // Renaming columns

  predicate Injective(mapping: map<string, string>)
  {
    forall a, b :: a in mapping && b in mapping && a != b ==> mapping[a] != mapping[b]
  }

  /** No two source names share a target, and no target is itself a source name. */
  predicate SafeMapping(mapping: map<string, string>)
  {
    Injective(mapping) && mapping.Keys !! mapping.Values
  }

  lemma ColumnMappingSafe()
    ensures SafeMapping(ColumnMapping)
  {
    var inverse := map[
      "pm10" := "PM10", "pm25" := "PM2.5", "sht_temp" := "TEMP", "sht_humid" := "RLF",
      "sht_nsch" := "NSCH", "sht_strg" := "STRG", "sht_wiv" := "WIV", "sht_wir" := "WIR"
    ];
    assert forall s :: s in ColumnMapping ==> ColumnMapping[s] in inverse && inverse[ColumnMapping[s]] == s;
    forall v | v in ColumnMapping.Values ensures v in inverse && v !in ColumnMapping {
      var s :| s in ColumnMapping && ColumnMapping[s] == v;
    }
  }

  /** `existing_columns`: the part of the mapping whose source names are columns. */
  function ExistingColumns(mapping: map<string, string>, columns: set<string>): (existing: map<string, string>)
    ensures existing.Keys == mapping.Keys * columns
    ensures forall s :: s in existing ==> existing[s] == mapping[s]
  {
    map s | s in mapping && s in columns :: mapping[s]
  }

  function Renamed(existing: map<string, string>, name: string): string
  {
    if name in existing then existing[name] else name
  }

  function RenameRow(existing: map<string, string>, row: Row): Row
    requires Injective(existing)
  {
    (map k | k in row && k !in existing :: row[k]) + (map k | k in row && k in existing :: existing[k] := row[k])
  }

  /** `rename_columns`: renames the columns present in the mapping. */
  function RenameColumns(f: Frame, mapping: map<string, string>): Frame
    requires Injective(mapping)
  {
    var existing := ExistingColumns(mapping, f.columns);
    Frame(set name | name in f.columns :: Renamed(existing, name),
          seq(|f.rows|, i requires 0 <= i < |f.rows| => RenameRow(existing, f.rows[i])))
  }

  // ---------------------------------------------------------------------
  // The implementation

  /** A strictly ascending sequence is its first element followed by
      larger ones, in strictly ascending order. */
  lemma Below(h: int, s: seq<int>)
    requires s != [] && h == s[0] && StrictlyAscending(s)
    ensures s == [h] + s[1..] && StrictlyAscending(s[1..])
    ensures forall y :: y in s[1..] ==> h < y
  {
    forall y | y in s[1..] ensures h < y {
      var i :| 0 <= i < |s[1..]| && s[1..][i] == y;
      assert s[i + 1] == y;
    }
  }

  /** Putting a smaller element in front keeps a sequence strictly ascending. */
  lemma Cons(h: int, s: seq<int>)
    requires StrictlyAscending(s) && forall y :: y in s ==> h < y
    ensures StrictlyAscending([h] + s)
    ensures forall y :: y in [h] + s <==> y == h || y in s
  {
    var r := [h] + s;
    forall i, j | 0 <= i < j < |r| ensures r[i] < r[j] {
      assert r[j] == s[j - 1];
      if i > 0 {
        assert r[i] == s[i - 1];
      } else {
        assert s[j - 1] in s;
      }
    }
  }

  /** Inserts `x` into a strictly ascending sequence. */
  function Insert(s: seq<int>, x: int): (r: seq<int>)
    requires StrictlyAscending(s) && x !in s
    ensures StrictlyAscending(r) && |r| == |s| + 1
    ensures forall y :: y in r <==> y in s || y == x
  {
    if s == [] then [x]
    else if x < s[0] then
      Below(s[0], s);
      Cons(x, s);
      [x] + s
    else
      Below(s[0], s);
      var tail := Insert(s[1..], x);
      Cons(s[0], tail);
      [s[0]] + tail
  }

  /** `sort_values(by='datetime')` on the distinct instants of the rows. */
  method SortStamps(keys: set<int>) returns (s: seq<int>)
    ensures StrictlyAscending(s) && |s| == |keys|
    ensures forall t :: t in s <==> t in keys
  {
    s := [];
    var rest := keys;
    while rest != {}
      invariant rest <= keys
      invariant StrictlyAscending(s) && |s| == |keys| - |rest|
      invariant forall t :: t in s <==> t in keys && t !in rest
      decreases rest
    {
      ghost var some := Pick(rest);
      var t :| t in rest;
      s := Insert(s, t);
      rest := rest - {t};
    }
  }

  /** The body of the `for entry in data['messwerte']` loop over one page:
      merges the entries in order, or stops at the first incomplete one
      with the exception it raises. */
  method MergePage(acc: Accumulator, component: string, entries: seq<Entry>)
    returns (allData: Accumulator, fault: Option<Error>)
    ensures fault == FirstFault(entries)
    ensures fault.None? ==> allData == MergeAll(acc, ReadingsOf(component, entries))
  {
    allData := acc;
    for k := 0 to |entries|
      invariant forall m :: 0 <= m < k ==> Complete(entries[m])
      invariant allData == MergeAll(acc, ReadingsOf(component, entries[..k]))
    {
      var entry := entries[k];
      if entry.NonObject? {
        FirstFaultAt(entries, k);
        return allData, Some(TypeError);
      }
      if entry.startZeit.None? {
        FirstFaultAt(entries, k);
        return allData, Some(MissingKey("startZeit"));
      }
      var dt := entry.startZeit.value;
      if entry.wert.None? {
        FirstFaultAt(entries, k);
        return allData, Some(MissingKey("wert"));
      }
      var value := entry.wert.value;
      assert ReadingsOf(component, entries[..k + 1]) ==
             ReadingsOf(component, entries[..k]) + [Reading(dt, component, value)];
      allData := Merge(allData, Reading(dt, component, value));
    }
    assert entries[..|entries|] == entries;
    fault := None;
  }

  /** The `while True` pagination loop for one component: the first request
      is `params`, every later one the previous page's `nextLink`. */
  method FetchComponent(acc: Accumulator, component: string, ps: seq<Response>, params: Request)
    returns (p: Progress)
    requires Chained(ps)
    ensures p == Paginate(acc, component, ps, 0, params)
  {
    ghost var target := Paginate(acc, component, ps, 0, params);
    var allData := acc;
    var requests: seq<Request> := [];
    var nextLink: Option<string> := None;
    var request := params;
    var j := 0;
    while true
      invariant 0 <= j < |ps|
      invariant request == if Truthy(nextLink) then Follow(nextLink.value) else params
      invariant target == Prepend(requests, Paginate(allData, component, ps, j, request))
      decreases |ps| - j
    {
      ghost var before := requests;
      requests := requests + [request];
      match ps[j]
      case Failed =>
        PrependTwice(before, [request], Progress(allData, [], Some(NoResult)));
        return Progress(allData, requests, Some(NoResult));
      case Malformed =>
        PrependTwice(before, [request], Progress(allData, [], None));
        return Progress(allData, requests, None);
      case Mistyped =>
        PrependTwice(before, [request], Progress(allData, [], Some(Raised(TypeError))));
        return Progress(allData, requests, Some(Raised(TypeError)));
      case Page(entries, link) =>
        var merged, fault := MergePage(allData, component, entries);
        if fault.Some? {
          PrependTwice(before, [request], Progress(allData, [], Some(Raised(fault.value))));
          return Progress(allData, requests, Some(Raised(fault.value)));
        }
        allData := merged;
        nextLink := link;
        if !Truthy(nextLink) {
          PrependTwice(before, [request], Progress(allData, [], None));
          return Progress(allData, requests, None);
        }
        PrependTwice(before, [request], Paginate(allData, component, ps, j + 1, Follow(nextLink.value)));
        request := Follow(nextLink.value);
        j := j + 1;
    }
  }

  /** `fetch_station_data(station, von, bis)` against the server `pages`. */
  method FetchStationData(station: string, von: int, bis: int, pages: string -> seq<Response>)
    returns (result: FetchResult, requests: seq<Request>)
    requires ChainsServed(station, pages)
    ensures station !in StationComponents ==> result == Raised(UnknownStation(station)) && requests == []
    ensures (result, requests) == FetchSpec(station, von, bis, pages)
  {
    if station !in StationComponents {
      return Raised(UnknownStation(station)), [];
    }
    var components := StationComponents[station];
    ghost var target := Walk(station, von, bis, pages, components, map[]);
    var allData: Accumulator := map[];
    requests := [];
    for i := 0 to |components|
      invariant target == Prepend(requests, Walk(station, von, bis, pages, components[i..], allData))
    {
      var component := components[i];
      var params := Query(component, von, bis, station);
      assert components[i..][0] == component && components[i..][1..] == components[i + 1..];
      var p := FetchComponent(allData, component, pages(component), params);
      if p.halted.Some? {
        assert p.requests + [] == p.requests;
        return p.halted.value, requests + p.requests;
      }
      PrependTwice(requests, p.requests, Walk(station, von, bis, pages, components[i + 1..], p.acc));
      requests := requests + p.requests;
      allData := p.acc;
    }
    assert target == Prepend(requests, Progress(allData, [], None));
    assert requests + [] == requests;
    result := ToTable(allData);
  }

  /** The end of `fetch_station_data`: the accumulator's rows as a table,
      sorted by `datetime`, with its columns renamed. With no row at all the
      table has no `datetime` column and `df['datetime']` raises KeyError. */
  method ToTable(allData: Accumulator) returns (result: FetchResult)
    ensures result == Finish(allData)
  {
    if allData == map[] {
      return Raised(MissingKey("datetime"));
    }
    var stamps := SortStamps(allData.Keys);
    AscendingUnique(stamps, allData.Keys);
    var df := Frame(ColumnsOf(allData), RowsAt(allData, stamps));
    ColumnMappingSafe();
    df := RenameColumns(df, ColumnMapping);
    result := Table(df);
  }

  // ---------------------------------------------------------------------
  // Proof helpers for the implementation

  lemma PrependTwice(a: seq<Request>, b: seq<Request>, p: Progress)
    ensures Prepend(a, Prepend(b, p)) == Prepend(a + b, p)
  {
    assert a + (b + p.requests) == (a + b) + p.requests;
  }

  /** The first incomplete entry decides which exception a page raises. */
  lemma {:induction false} FirstFaultAt(es: seq<Entry>, k: nat)
    requires k < |es| && !Complete(es[k])
    requires forall m :: 0 <= m < k ==> Complete(es[m])
    ensures FirstFault(es) == Some(EntryError(es[k]))
  {
    if k > 0 {
      FirstFaultAt(es[1..], k - 1);
    }
  }

  /** Dropping the least element of an ascending enumeration enumerates the rest. */
  lemma TailEnumerates(s: seq<int>, keys: set<int>)
    requires s != [] && StrictlyAscending(s)
    requires forall t :: t in s <==> t in keys
    ensures forall t :: t in s[1..] <==> t in keys - {s[0]}
  {
    forall t ensures t in s[1..] <==> t in keys - {s[0]} {
      if t in s[1..] {
        var i :| 1 <= i < |s| && s[i] == t;
      }
      if t in keys - {s[0]} {
        var i :| 0 <= i < |s| && s[i] == t;
        assert i != 0;
        assert s[1..][i - 1] == t;
      }
    }
  }

  /** A strictly ascending enumeration of a set is the one `Ascending` gives. */
  lemma {:induction false} AscendingUnique(s: seq<int>, keys: set<int>)
    requires StrictlyAscending(s)
    requires forall t :: t in s <==> t in keys
    ensures s == Ascending(keys)
    decreases |s|
  {
    if s == [] {
      assert forall t :: t !in keys;
    } else {
      assert s == [s[0]] + s[1..];
      assert s[0] in keys;
      var m := Least(keys);
      assert s[0] == m by {
        assert s[0] in s;
        assert forall j :: 0 <= j < |s| ==> s[0] <= s[j];
        assert m in s;
      }
      TailEnumerates(s, keys);
      AscendingUnique(s[1..], keys - {m});
      assert Ascending(keys) == [m] + Ascending(keys - {m});
    }
  }
}
