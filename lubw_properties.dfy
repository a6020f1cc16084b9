/**
 * What `fetch_station_data` promises, stated over the step-by-step
 * specification that `LubwController.FetchStationData` is proved to meet:
 * how readings merge, which requests are made, which error wins, and the
 * shape of the table returned.
 */
module LubwProperties {
  import opened Frames
  import opened LubwController

  // ---------------------------------------------------------------------
  // Merging

  /** Merging a reading sets exactly one cell, creating the instant's row
      `{'datetime': t}` first when the instant is new. */
  lemma MergeSetsOneCell(acc: Accumulator, r: Reading)
    ensures Merge(acc, r).Keys == acc.Keys + {r.stamp}
    ensures r.component in Merge(acc, r)[r.stamp] && Merge(acc, r)[r.stamp][r.component] == r.value
    ensures r.stamp !in acc ==> Merge(acc, r)[r.stamp].Keys == {"datetime", r.component}
    ensures r.stamp !in acc && r.component != "datetime" ==> Merge(acc, r)[r.stamp]["datetime"] == Instant(r.stamp)
    ensures r.stamp in acc ==> forall k :: k != r.component ==>
              (k in Merge(acc, r)[r.stamp] <==> k in acc[r.stamp]) &&
              (k in acc[r.stamp] ==> Merge(acc, r)[r.stamp][k] == acc[r.stamp][k])
    ensures forall t :: t in acc && t != r.stamp ==> Merge(acc, r)[t] == acc[t]
  {
  }

  /** Merging two batches one after the other is merging their concatenation. */
  lemma {:induction false} MergeAllAppend(acc: Accumulator, xs: seq<Reading>, ys: seq<Reading>)
    ensures MergeAll(MergeAll(acc, xs), ys) == MergeAll(acc, xs + ys)
    decreases |ys|
  {
    if ys != [] {
      var front := ys[..|ys| - 1];
      MergeAllAppend(acc, xs, front);
      assert (xs + ys)[..|xs + ys| - 1] == xs + front;
      assert (xs + ys)[|xs + ys| - 1] == ys[|ys| - 1];
    } else {
      assert xs + ys == xs;
    }
  }

  /** The instants of a batch of readings. */
  ghost function Stamps(rs: seq<Reading>): set<int>
  {
    set i | 0 <= i < |rs| :: rs[i].stamp
  }

  /** The components of a batch of readings. */
  ghost function Components(rs: seq<Reading>): set<string>
  {
    set i | 0 <= i < |rs| :: rs[i].component
  }

  /** The value of the last reading of component `c` at instant `t`, if any. */
  ghost function LastValue(rs: seq<Reading>, t: int, c: string): (v: Option<Cell>)
    ensures v.Some? ==> t in Stamps(rs) && c in Components(rs)
    decreases |rs|
  {
    if rs == [] then None
    else
      var r := rs[|rs| - 1];
      if r.stamp == t && r.component == c then Some(r.value)
      else
        var earlier := LastValue(rs[..|rs| - 1], t, c);
        assert earlier.Some? ==> t in Stamps(rs) && c in Components(rs) by {
          if earlier.Some? {
            var i :| 0 <= i < |rs| - 1 && rs[..|rs| - 1][i].stamp == t;
            assert rs[i].stamp == t;
            var j :| 0 <= j < |rs| - 1 && rs[..|rs| - 1][j].component == c;
            assert rs[j].component == c;
          }
        }
        earlier
  }

  /** No reading is filed under the reserved `datetime` column. */
  ghost predicate NoReservedComponent(rs: seq<Reading>)
  {
    forall i :: 0 <= i < |rs| ==> rs[i].component != "datetime"
  }

  lemma StampsSnoc(rs: seq<Reading>)
    requires rs != []
    ensures Stamps(rs) == Stamps(rs[..|rs| - 1]) + {rs[|rs| - 1].stamp}
  {
    var front := rs[..|rs| - 1];
    forall t | t in Stamps(rs) ensures t in Stamps(front) + {rs[|rs| - 1].stamp} {
      var i :| 0 <= i < |rs| && rs[i].stamp == t;
      if i < |rs| - 1 {
        assert front[i].stamp == t;
      }
    }
    forall t | t in Stamps(front) ensures t in Stamps(rs) {
      var i :| 0 <= i < |front| && front[i].stamp == t;
      assert rs[i].stamp == t;
    }
  }

  /** The induction step of MergeAllLastWrite for one cell. */
  lemma LastWriteAt(rs: seq<Reading>, t: int, c: string)
    requires rs != [] && c != "datetime"
    requires t in MergeAll(map[], rs)
    requires MergeAll(map[], rs[..|rs| - 1]).Keys == Stamps(rs[..|rs| - 1])
    requires var before := MergeAll(map[], rs[..|rs| - 1]);
             t in before ==>
               (c in before[t] <==> LastValue(rs[..|rs| - 1], t, c).Some?) &&
               (c in before[t] ==> before[t][c] == LastValue(rs[..|rs| - 1], t, c).value)
    ensures c in MergeAll(map[], rs)[t] <==> LastValue(rs, t, c).Some?
    ensures c in MergeAll(map[], rs)[t] ==> MergeAll(map[], rs)[t][c] == LastValue(rs, t, c).value
  {
    var front := rs[..|rs| - 1];
    var r := rs[|rs| - 1];
    var before := MergeAll(map[], front);
    assert MergeAll(map[], rs) == Merge(before, r);
    MergeSetsOneCell(before, r);
    if t == r.stamp && c == r.component {
    } else if t != r.stamp {
      assert LastValue(rs, t, c) == LastValue(front, t, c);
    } else {
      assert LastValue(rs, t, c) == LastValue(front, t, c);
      if t !in before {
        assert LastValue(front, t, c).None?;
      }
    }
  }

  /** The accumulator after a batch of readings: one row per distinct
      instant, whose `datetime` is that instant, holding for every
      component the value of the last reading of it at that instant. */
  lemma {:induction false} MergeAllLastWrite(rs: seq<Reading>)
    requires NoReservedComponent(rs)
    ensures MergeAll(map[], rs).Keys == Stamps(rs)
    ensures forall t :: t in MergeAll(map[], rs) ==>
              "datetime" in MergeAll(map[], rs)[t] && MergeAll(map[], rs)[t]["datetime"] == Instant(t)
    ensures forall t, c :: t in MergeAll(map[], rs) && c != "datetime" ==>
              (c in MergeAll(map[], rs)[t] <==> LastValue(rs, t, c).Some?)
    ensures forall t, c :: t in MergeAll(map[], rs) && c != "datetime" && c in MergeAll(map[], rs)[t] ==>
              MergeAll(map[], rs)[t][c] == LastValue(rs, t, c).value
    decreases |rs|
  {
    if rs == [] {
      assert Stamps(rs) == {};
    } else {
      var front := rs[..|rs| - 1];
      var r := rs[|rs| - 1];
      assert NoReservedComponent(front) by {
        forall i | 0 <= i < |front| ensures front[i].component != "datetime" {
          assert front[i] == rs[i];
        }
      }
      MergeAllLastWrite(front);
      var before := MergeAll(map[], front);
      var after := MergeAll(map[], rs);
      assert after == Merge(before, r);
      MergeSetsOneCell(before, r);
      StampsSnoc(rs);
      forall t, c | t in after && c != "datetime"
        ensures c in after[t] <==> LastValue(rs, t, c).Some?
        ensures c in after[t] ==> after[t][c] == LastValue(rs, t, c).value
      {
        LastWriteAt(rs, t, c);
      }
    }
  }

  // ---------------------------------------------------------------------
  // What a whole call reads

  /** The readings of one response: those of a page whose entries are all complete. */
  function PageReadings(c: string, r: Response): seq<Reading>
  {
    if r.Page? && FirstFault(r.messwerte).None? then ReadingsOf(c, r.messwerte) else []
  }

  /** The readings of component `c`'s chain from page `j` on. */
  function ChainReadings(c: string, ps: seq<Response>, j: nat): seq<Reading>
    decreases |ps| - j
  {
    if j >= |ps| then [] else PageReadings(c, ps[j]) + ChainReadings(c, ps, j + 1)
  }

  /** The readings of every component's chain, in component order. */
  function AllReadings(pages: string -> seq<Response>, comps: seq<string>): seq<Reading>
    decreases |comps|
  {
    if comps == [] then [] else ChainReadings(comps[0], pages(comps[0]), 0) + AllReadings(pages, comps[1..])
  }

  /** The error that stops component `c`'s chain from page `j` on, if any:
      a request exception (`None`), a body that cannot be indexed (TypeError)
      or an incomplete entry (KeyError or TypeError). */
  function ChainError(ps: seq<Response>, j: nat): (e: Option<FetchResult>)
    ensures e.Some? ==> !e.value.Table?
    decreases |ps| - j
  {
    if j >= |ps| then None
    else match ps[j]
      case Failed => Some(NoResult)
      case Malformed => ChainError(ps, j + 1)
      case Mistyped => Some(Raised(TypeError))
      case Page(es, _) =>
        if FirstFault(es).Some? then Some(Raised(FirstFault(es).value))
        else ChainError(ps, j + 1)
  }

  /** The error of the first component whose chain has one. */
  function FirstError(pages: string -> seq<Response>, comps: seq<string>): (e: Option<FetchResult>)
    ensures e.Some? ==> !e.value.Table?
    decreases |comps|
  {
    if comps == [] then None
    else if ChainError(pages(comps[0]), 0).Some? then ChainError(pages(comps[0]), 0)
    else FirstError(pages, comps[1..])
  }

  /** A chain ends at its first page that does not continue. */
  lemma LastOfChain(ps: seq<Response>, j: nat)
    requires Chained(ps) && j < |ps| && !Continues(ps[j])
    ensures j == |ps| - 1
  {
  }

  /** Pagination that is not cut short merges the readings of every page. */
  lemma {:induction false} PaginateAccumulates(acc: Accumulator, c: string, ps: seq<Response>, j: nat, req: Request)
    requires Chained(ps) && j < |ps|
    ensures Paginate(acc, c, ps, j, req).halted.None? ==>
              Paginate(acc, c, ps, j, req).acc == MergeAll(acc, ChainReadings(c, ps, j))
    decreases |ps| - j
  {
    if !Continues(ps[j]) {
      LastOfChain(ps, j);
      assert ChainReadings(c, ps, j + 1) == [];
      assert ChainReadings(c, ps, j) == PageReadings(c, ps[j]);
    } else {
      var es := ps[j].messwerte;
      if FirstFault(es).None? {
        var merged := MergeAll(acc, ReadingsOf(c, es));
        PaginateAccumulates(merged, c, ps, j + 1, Follow(ps[j].nextLink.value));
        MergeAllAppend(acc, ReadingsOf(c, es), ChainReadings(c, ps, j + 1));
      }
    }
  }

  /** Pagination is cut short exactly by the first error of the chain. */
  lemma {:induction false} PaginateHaltsOnError(acc: Accumulator, c: string, ps: seq<Response>, j: nat, req: Request)
    requires Chained(ps) && j < |ps|
    ensures Paginate(acc, c, ps, j, req).halted == ChainError(ps, j)
    decreases |ps| - j
  {
    if !Continues(ps[j]) {
      LastOfChain(ps, j);
      assert ChainError(ps, j + 1) == None;
    } else {
      var es := ps[j].messwerte;
      if FirstFault(es).None? {
        PaginateHaltsOnError(MergeAll(acc, ReadingsOf(c, es)), c, ps, j + 1, Follow(ps[j].nextLink.value));
      }
    }
  }

  /** The walk over the components merges every reading when no error occurs. */
  lemma {:induction false} WalkAccumulates(station: string, von: int, bis: int, pages: string -> seq<Response>,
                                           comps: seq<string>, acc: Accumulator)
    requires forall c :: c in comps ==> Chained(pages(c))
    ensures Walk(station, von, bis, pages, comps, acc).halted.None? ==>
              Walk(station, von, bis, pages, comps, acc).acc == MergeAll(acc, AllReadings(pages, comps))
    decreases |comps|
  {
    if comps != [] {
      var c := comps[0];
      var p := Paginate(acc, c, pages(c), 0, Query(c, von, bis, station));
      PaginateAccumulates(acc, c, pages(c), 0, Query(c, von, bis, station));
      if p.halted.None? {
        WalkAccumulates(station, von, bis, pages, comps[1..], p.acc);
        MergeAllAppend(acc, ChainReadings(c, pages(c), 0), AllReadings(pages, comps[1..]));
      }
    } else {
      assert AllReadings(pages, comps) == [];
    }
  }

  /** The walk returns early exactly with the first error in request order. */
  lemma {:induction false} WalkHaltsOnFirstError(station: string, von: int, bis: int, pages: string -> seq<Response>,
                                                 comps: seq<string>, acc: Accumulator)
    requires forall c :: c in comps ==> Chained(pages(c))
    ensures Walk(station, von, bis, pages, comps, acc).halted == FirstError(pages, comps)
    decreases |comps|
  {
    if comps != [] {
      var c := comps[0];
      var p := Paginate(acc, c, pages(c), 0, Query(c, von, bis, station));
      PaginateHaltsOnError(acc, c, pages(c), 0, Query(c, von, bis, station));
      if p.halted.None? {
        WalkHaltsOnFirstError(station, von, bis, pages, comps[1..], p.acc);
      }
    }
  }

  /** The outcome of a call: an unknown station raises ValueError; otherwise
      the first error in request order decides (a request exception gives
      `None`, a body or entry that cannot be indexed a TypeError, an entry
      lacking a key a KeyError, and everything merged so far
      is dropped); without error the result is the table of all readings. */
  lemma FetchOutcome(station: string, von: int, bis: int, pages: string -> seq<Response>)
    requires ChainsServed(station, pages)
    ensures station !in StationComponents ==> FetchSpec(station, von, bis, pages).0 == Raised(UnknownStation(station))
    ensures station in StationComponents ==>
              var comps := StationComponents[station];
              FetchSpec(station, von, bis, pages).0 ==
                if FirstError(pages, comps).Some? then FirstError(pages, comps).value
                else Finish(MergeAll(map[], AllReadings(pages, comps)))
  {
    if station in StationComponents {
      var comps := StationComponents[station];
      WalkHaltsOnFirstError(station, von, bis, pages, comps, map[]);
      WalkAccumulates(station, von, bis, pages, comps, map[]);
    }
  }

  // ---------------------------------------------------------------------
  // Which requests are made

  /** The requests that follow page `j` of a chain: each later page is
      requested by the previous page's `nextLink`, verbatim. */
  function FollowLinks(ps: seq<Response>, j: nat): (reqs: seq<Request>)
    requires Chained(ps) && j < |ps|
    ensures |reqs| == |ps| - 1 - j
  {
    seq(|ps| - 1 - j, i requires 0 <= i < |ps| - 1 - j => Follow(ps[j + i].nextLink.value))
  }

  /** The requests for a whole chain of component `c`: the base URL with
      the parameters `{komponente, von, bis, station}`, then one `nextLink`
      per page that has one. */
  function ChainRequests(c: string, von: int, bis: int, station: string, ps: seq<Response>): seq<Request>
    requires Chained(ps)
  {
    [Query(c, von, bis, station)] + FollowLinks(ps, 0)
  }

  /** The requests for every component's whole chain, in component order. */
  function AllRequests(station: string, von: int, bis: int, pages: string -> seq<Response>, comps: seq<string>): seq<Request>
    requires forall c :: c in comps ==> Chained(pages(c))
    decreases |comps|
  {
    if comps == [] then []
    else ChainRequests(comps[0], von, bis, station, pages(comps[0])) + AllRequests(station, von, bis, pages, comps[1..])
  }

  /** Pagination requests a prefix of the chain, all of it unless an
      incomplete entry raises first: a request exception or a body that
      cannot be indexed only comes from the chain's last response. */
  lemma {:induction false} PaginateRequests(acc: Accumulator, c: string, ps: seq<Response>, j: nat, req: Request)
    requires Chained(ps) && j < |ps|
    ensures Paginate(acc, c, ps, j, req).requests <= [req] + FollowLinks(ps, j)
    ensures Paginate(acc, c, ps, j, req).halted.None? || Paginate(acc, c, ps, j, req).halted == Some(NoResult) ==>
              Paginate(acc, c, ps, j, req).requests == [req] + FollowLinks(ps, j)
    ensures (forall k :: j <= k < |ps| && ps[k].Page? ==> FirstFault(ps[k].messwerte).None?) ==>
              Paginate(acc, c, ps, j, req).requests == [req] + FollowLinks(ps, j)
    decreases |ps| - j
  {
    if !Continues(ps[j]) {
      LastOfChain(ps, j);
      assert FollowLinks(ps, j) == [];
    } else {
      var es := ps[j].messwerte;
      var link := ps[j].nextLink.value;
      assert FollowLinks(ps, j) == [Follow(link)] + FollowLinks(ps, j + 1);
      if FirstFault(es).None? {
        PaginateRequests(MergeAll(acc, ReadingsOf(c, es)), c, ps, j + 1, Follow(link));
      }
    }
  }

  /** A prefix stays a prefix when both sides are extended. */
  lemma PrefixConcat<T>(a: seq<T>, b: seq<T>, x: seq<T>, y: seq<T>)
    requires x <= y
    ensures a + x <= a + y
    ensures a <= a + b
  {
    assert (a + y)[..|a + x|] == a + x;
    assert (a + b)[..|a|] == a;
  }

  lemma PrefixTransitive<T>(a: seq<T>, b: seq<T>, c: seq<T>)
    requires a <= b && b <= c
    ensures a <= c
  {
    assert c[..|a|] == b[..|a|];
  }

  /** The requests of a call are, in order, those of each component's chain
      (first its query, then its `nextLink`s); an error cuts them short. */
  lemma {:induction false} WalkRequests(station: string, von: int, bis: int, pages: string -> seq<Response>,
                                        comps: seq<string>, acc: Accumulator)
    requires forall c :: c in comps ==> Chained(pages(c))
    ensures Walk(station, von, bis, pages, comps, acc).requests <= AllRequests(station, von, bis, pages, comps)
    ensures Walk(station, von, bis, pages, comps, acc).halted.None? ==>
              Walk(station, von, bis, pages, comps, acc).requests == AllRequests(station, von, bis, pages, comps)
    decreases |comps|
  {
    if comps != [] {
      var c := comps[0];
      var q := Query(c, von, bis, station);
      var p := Paginate(acc, c, pages(c), 0, q);
      var chain := ChainRequests(c, von, bis, station, pages(c));
      var rest := AllRequests(station, von, bis, pages, comps[1..]);
      PaginateRequests(acc, c, pages(c), 0, q);
      if p.halted.Some? {
        PrefixConcat(chain, rest, [], []);
        PrefixTransitive(p.requests, chain, chain + rest);
      } else {
        WalkRequests(station, von, bis, pages, comps[1..], p.acc);
        PrefixConcat(chain, [], Walk(station, von, bis, pages, comps[1..], p.acc).requests, rest);
      }
    }
  }

  /** A call to a known station without error makes exactly the requests of
      every component's whole chain, in the station's component order. */
  lemma FetchRequests(station: string, von: int, bis: int, pages: string -> seq<Response>)
    requires ChainsServed(station, pages)
    ensures station !in StationComponents ==> FetchSpec(station, von, bis, pages).1 == []
    ensures station in StationComponents ==>
              FetchSpec(station, von, bis, pages).1 <= AllRequests(station, von, bis, pages, StationComponents[station])
    ensures station in StationComponents && FirstError(pages, StationComponents[station]).None? ==>
              FetchSpec(station, von, bis, pages).1 == AllRequests(station, von, bis, pages, StationComponents[station])
  {
    if station in StationComponents {
      var comps := StationComponents[station];
      WalkRequests(station, von, bis, pages, comps, map[]);
      WalkHaltsOnFirstError(station, von, bis, pages, comps, map[]);
    }
  }

  // ---------------------------------------------------------------------
  // The table returned

  /** Every row of the accumulator carries its own key as `datetime`. */
  ghost predicate Consistent(acc: Accumulator)
  {
    forall t :: t in acc ==> "datetime" in acc[t] && acc[t]["datetime"] == Instant(t)
  }

  /** Rows read at ascending instants carry those instants in ascending order. */
  lemma RowsAtAscending(acc: Accumulator, ks: seq<int>, columns: set<string>)
    requires Consistent(acc) && StrictlyAscending(ks)
    requires forall i :: 0 <= i < |ks| ==> ks[i] in acc
    ensures TimeIndexed(Frame(columns, RowsAt(acc, ks)))
    ensures forall i :: 0 <= i < |ks| ==> StampOf(RowsAt(acc, ks)[i]) == ks[i]
    ensures StampsAscending(Frame(columns, RowsAt(acc, ks)))
  {
    var rows := RowsAt(acc, ks);
    forall i | 0 <= i < |ks| ensures HasInstant(rows[i]) && StampOf(rows[i]) == ks[i] {
      assert rows[i] == acc[ks[i]];
      var t := ks[i];
      assert t in acc;
      assert "datetime" in acc[t] && acc[t]["datetime"] == Instant(t);
    }
  }

  /** The table built from the accumulator holds each of its rows exactly
      once, in strictly ascending order of `datetime`. */
  lemma SortedFramePermutes(acc: Accumulator)
    requires Consistent(acc)
    ensures TimeIndexed(SortedFrame(acc)) && StampsAscending(SortedFrame(acc))
    ensures |SortedFrame(acc).rows| == |acc|
    ensures forall i :: 0 <= i < |SortedFrame(acc).rows| ==>
              StampOf(SortedFrame(acc).rows[i]) in acc &&
              SortedFrame(acc).rows[i] == acc[StampOf(SortedFrame(acc).rows[i])]
    ensures forall t :: t in acc ==> exists i :: 0 <= i < |SortedFrame(acc).rows| && StampOf(SortedFrame(acc).rows[i]) == t
  {
    var ks := Ascending(acc.Keys);
    var rows := RowsAt(acc, ks);
    RowsAtAscending(acc, ks, ColumnsOf(acc));
    assert SortedFrame(acc) == Frame(ColumnsOf(acc), rows);
    forall i | 0 <= i < |rows| ensures StampOf(rows[i]) in acc && rows[i] == acc[StampOf(rows[i])] {
      assert rows[i] == acc[ks[i]];
    }
    forall t | t in acc ensures exists i :: 0 <= i < |rows| && StampOf(rows[i]) == t {
      assert t in ks;
      var i :| 0 <= i < |ks| && ks[i] == t;
      assert StampOf(rows[i]) == t;
    }
  }

  // ---------------------------------------------------------------------
  // Renaming

  /** The names of a set of columns after renaming. */
  ghost function RenamedSet(mapping: map<string, string>, names: set<string>): set<string>
  {
    set k | k in names :: Renamed(mapping, k)
  }

  /** Renaming cannot merge two names when no target is already a name. */
  lemma RenamedInjective(mapping: map<string, string>, a: string, b: string)
    requires Injective(mapping) && a !in mapping.Values && b !in mapping.Values
    requires Renamed(mapping, a) == Renamed(mapping, b)
    ensures a == b
  {
  }

  /** Renaming a set of names whose renamed forms do not collide keeps its size. */
  lemma {:induction false} RenamedSetSize(mapping: map<string, string>, names: set<string>)
    requires Injective(mapping) && mapping.Values !! names
    ensures |RenamedSet(mapping, names)| == |names|
    decreases names
  {
    if names != {} {
      var x := Pick(names);
      var rest := names - {x};
      RenamedSetSize(mapping, rest);
      assert RenamedSet(mapping, names) == RenamedSet(mapping, rest) + {Renamed(mapping, x)};
      if Renamed(mapping, x) in RenamedSet(mapping, rest) {
        var y :| y in rest && Renamed(mapping, y) == Renamed(mapping, x);
        RenamedInjective(mapping, x, y);
      }
    } else {
      assert RenamedSet(mapping, names) == {};
    }
  }

  /** Renaming one row moves the cell of column `k` to its renamed column. */
  lemma RenameRowAt(existing: map<string, string>, row: Row, k: string)
    requires Injective(existing) && existing.Values !! row.Keys && k in row
    ensures Renamed(existing, k) in RenameRow(existing, row) && RenameRow(existing, row)[Renamed(existing, k)] == row[k]
  {
    var moved := map j | j in row && j in existing :: existing[j] := row[j];
    if k in existing {
      assert existing[k] in moved && moved[existing[k]] == row[k];
    } else {
      KeptNotMoved(existing, row, k);
      assert k !in moved;
    }
  }

  /** Renaming one row moves every cell to its renamed column and keeps its value. */
  lemma RenameRowValues(existing: map<string, string>, row: Row)
    requires Injective(existing) && existing.Values !! row.Keys
    ensures forall k :: k in row ==>
              Renamed(existing, k) in RenameRow(existing, row) && RenameRow(existing, row)[Renamed(existing, k)] == row[k]
  {
    forall k | k in row
      ensures Renamed(existing, k) in RenameRow(existing, row) && RenameRow(existing, row)[Renamed(existing, k)] == row[k]
    {
      RenameRowAt(existing, row, k);
    }
  }

  /** The renamed row has exactly the renamed columns of the row, and each
      cell keeps its value. */
  lemma RenameRowCells(existing: map<string, string>, row: Row)
    requires Injective(existing) && existing.Values !! row.Keys
    ensures forall k :: k in row ==>
              Renamed(existing, k) in RenameRow(existing, row) && RenameRow(existing, row)[Renamed(existing, k)] == row[k]
    ensures RenameRow(existing, row).Keys == RenamedSet(existing, row.Keys)
  {
    RenameRowValues(existing, row);
    var renamed := RenameRow(existing, row);
    forall n | n in renamed ensures n in RenamedSet(existing, row.Keys) {
      if n in row && n !in existing {
        assert Renamed(existing, n) == n;
      } else {
        var j :| j in row && j in existing && existing[j] == n;
        assert Renamed(existing, j) == n;
      }
    }
  }

  /** A column the mapping leaves alone is not the target of a renamed one. */
  lemma KeptNotMoved(existing: map<string, string>, row: Row, k: string)
    requires existing.Values !! row.Keys && k in row
    ensures forall j :: j in row && j in existing ==> existing[j] != k
  {
    forall j | j in row && j in existing ensures existing[j] != k {
      assert existing[j] in existing.Values;
    }
  }

  /** `rename_columns` when no target name is already a column: each column
      `c` of the table becomes `mapping[c]` if the mapping has it and stays
      `c` otherwise, no two columns merge, and every cell keeps its value
      under its renamed column. */
  lemma RenamePreservesCells(f: Frame, mapping: map<string, string>)
    requires Injective(mapping) && mapping.Values !! f.columns
    requires forall i :: 0 <= i < |f.rows| ==> f.rows[i].Keys <= f.columns
    ensures RenameColumns(f, mapping).columns == RenamedSet(mapping, f.columns)
    ensures |RenameColumns(f, mapping).columns| == |f.columns|
    ensures |RenameColumns(f, mapping).rows| == |f.rows|
    ensures forall i :: 0 <= i < |f.rows| ==> RenameColumns(f, mapping).rows[i].Keys == RenamedSet(mapping, f.rows[i].Keys)
    ensures forall i, k :: 0 <= i < |f.rows| && k in f.rows[i] ==>
              Renamed(mapping, k) in RenameColumns(f, mapping).rows[i] &&
              RenameColumns(f, mapping).rows[i][Renamed(mapping, k)] == f.rows[i][k]
  {
    var existing := ExistingColumns(mapping, f.columns);
    var g := RenameColumns(f, mapping);
    assert forall k :: k in f.columns ==> Renamed(existing, k) == Renamed(mapping, k);
    assert g.columns == RenamedSet(mapping, f.columns);
    RenamedSetSize(mapping, f.columns);
    forall i | 0 <= i < |f.rows|
      ensures g.rows[i].Keys == RenamedSet(mapping, f.rows[i].Keys)
      ensures forall k :: k in f.rows[i] ==> Renamed(mapping, k) in g.rows[i] && g.rows[i][Renamed(mapping, k)] == f.rows[i][k]
    {
      var row := f.rows[i];
      assert g.rows[i] == RenameRow(existing, row);
      assert existing.Values !! row.Keys by {
        forall v | v in existing.Values ensures v !in row.Keys {
          var s :| s in existing && existing[s] == v;
          assert mapping[s] in mapping.Values;
        }
      }
      RenameRowCells(existing, row);
      assert forall k :: k in row ==> Renamed(existing, k) == Renamed(mapping, k);
    }
  }

  /** Renaming with an empty mapping changes nothing. */
  lemma RenameNothing(f: Frame)
    ensures RenameColumns(f, map[]) == f
  {
    var none: map<string, string> := map[];
    assert ExistingColumns(none, f.columns) == none;
    forall i | 0 <= i < |f.rows| ensures RenameRow(none, f.rows[i]) == f.rows[i] {
      assert (map k | k in f.rows[i] && k !in none :: f.rows[i][k]) == f.rows[i];
    }
    assert (set name | name in f.columns :: Renamed(none, name)) == f.columns;
  }

  /** Renaming with a mapping whose targets are never sources is idempotent:
      once renamed, no column is left that the mapping would rename again. */
  lemma RenameIdempotent(f: Frame, mapping: map<string, string>)
    requires SafeMapping(mapping)
    ensures RenameColumns(RenameColumns(f, mapping), mapping) == RenameColumns(f, mapping)
  {
    var g := RenameColumns(f, mapping);
    var existing := ExistingColumns(mapping, f.columns);
    forall k | k in g.columns ensures k !in mapping {
      var c :| c in f.columns && Renamed(existing, c) == k;
      if c in existing {
        assert mapping[c] in mapping.Values;
      }
    }
    var none: map<string, string> := map[];
    assert ExistingColumns(mapping, g.columns) == none;
    RenameNothing(g);
  }

  // ---------------------------------------------------------------------
  // The table of a whole call

  /** No component of a station is called `datetime` or is a target of
      the rename table, and `datetime` itself is never renamed. */
  lemma StationColumnsSafe()
    ensures forall s, c :: s in StationComponents && c in StationComponents[s] ==>
              c != "datetime" && c !in ColumnMapping.Values
    ensures "datetime" !in ColumnMapping && "datetime" !in ColumnMapping.Values
  {
    var targets := {"pm10", "pm25", "sht_temp", "sht_humid", "sht_nsch", "sht_strg", "sht_wiv", "sht_wir"};
    forall v | v in ColumnMapping.Values ensures v in targets {
      var s :| s in ColumnMapping && ColumnMapping[s] == v;
    }
  }

  /** Every reading of a chain is filed under the chain's component. */
  lemma {:induction false} ChainReadingsComponent(c: string, ps: seq<Response>, j: nat)
    ensures forall i :: 0 <= i < |ChainReadings(c, ps, j)| ==> ChainReadings(c, ps, j)[i].component == c
    decreases |ps| - j
  {
    if j < |ps| {
      ChainReadingsComponent(c, ps, j + 1);
      var page := PageReadings(c, ps[j]);
      assert forall i :: 0 <= i < |page| ==> page[i].component == c;
    }
  }

  /** Every reading of a call is filed under one of the components asked for. */
  lemma {:induction false} AllReadingsComponents(pages: string -> seq<Response>, comps: seq<string>)
    ensures forall i :: 0 <= i < |AllReadings(pages, comps)| ==> AllReadings(pages, comps)[i].component in comps
    decreases |comps|
  {
    if comps != [] {
      ChainReadingsComponent(comps[0], pages(comps[0]), 0);
      AllReadingsComponents(pages, comps[1..]);
      var first := ChainReadings(comps[0], pages(comps[0]), 0);
      var rest := AllReadings(pages, comps[1..]);
      var all: seq<Reading> := first + rest;
      assert AllReadings(pages, comps) == all;
      forall i | 0 <= i < |all| ensures all[i].component in comps {
        if i < |first| {
          assert all[i] == first[i];
        } else {
          assert all[i] == rest[i - |first|];
          var c := rest[i - |first|].component;
          assert c in comps[1..];
          assert c in comps;
        }
      }
    }
  }

  /** The columns of the accumulator's table: those of its rows, all
      among `names` and `datetime`. */
  lemma SortedFrameColumns(acc: Accumulator, names: set<string>)
    requires Consistent(acc)
    requires forall t :: t in acc ==> acc[t].Keys <= names + {"datetime"}
    ensures SortedFrame(acc).columns <= names + {"datetime"}
    ensures forall i :: 0 <= i < |SortedFrame(acc).rows| ==> SortedFrame(acc).rows[i].Keys <= SortedFrame(acc).columns
  {
    var sf := SortedFrame(acc);
    SortedFramePermutes(acc);
    forall k | k in sf.columns ensures k in names + {"datetime"} {
      var t :| t in acc && k in acc[t];
    }
    forall i | 0 <= i < |sf.rows| ensures sf.rows[i].Keys <= sf.columns {
      var t := StampOf(sf.rows[i]);
      assert sf.rows[i] == acc[t];
      forall k | k in acc[t] ensures k in ColumnsOf(acc) {
      }
    }
  }

  /** Renaming leaves `datetime` alone, so the renamed table carries the
      same instants in the same order. */
  lemma RenameKeepsInstants(f: Frame, mapping: map<string, string>)
    requires Injective(mapping) && mapping.Values !! f.columns && "datetime" !in mapping
    requires forall i :: 0 <= i < |f.rows| ==> f.rows[i].Keys <= f.columns
    requires TimeIndexed(f) && StampsAscending(f)
    ensures TimeIndexed(RenameColumns(f, mapping))
    ensures forall i :: 0 <= i < |f.rows| ==> StampOf(RenameColumns(f, mapping).rows[i]) == StampOf(f.rows[i])
    ensures StampsAscending(RenameColumns(f, mapping))
  {
    var g := RenameColumns(f, mapping);
    RenamePreservesCells(f, mapping);
    forall i | 0 <= i < |g.rows| ensures HasInstant(g.rows[i]) && StampOf(g.rows[i]) == StampOf(f.rows[i]) {
      assert "datetime" in f.rows[i];
      assert Renamed(mapping, "datetime") == "datetime";
    }
  }

  /** A rename table that renames neither `datetime` nor into it. */
  ghost predicate KeepsDatetime(mapping: map<string, string>)
  {
    Injective(mapping) && "datetime" !in mapping && "datetime" !in mapping.Values
  }

  /** The sorted table of a non-empty accumulator whose columns are
      `datetime` and names the mapping does not target, renamed: one row
      per instant, ascending, each holding its accumulator row with the
      columns renamed. */
  lemma RenamedTable(acc: Accumulator, names: set<string>, mapping: map<string, string>)
    requires Consistent(acc) && KeepsDatetime(mapping) && names !! mapping.Values
    requires forall t :: t in acc ==> acc[t].Keys <= names + {"datetime"}
    ensures var f := RenameColumns(SortedFrame(acc), mapping);
              TimeIndexed(f) && StampsAscending(f) && |f.rows| == |acc| &&
              (forall t :: t in acc ==> exists i :: 0 <= i < |f.rows| && StampOf(f.rows[i]) == t) &&
              (forall i :: 0 <= i < |f.rows| ==>
                 StampOf(f.rows[i]) in acc && f.rows[i].Keys == RenamedSet(mapping, acc[StampOf(f.rows[i])].Keys)) &&
              (forall i, k :: 0 <= i < |f.rows| && StampOf(f.rows[i]) in acc && k in acc[StampOf(f.rows[i])] ==>
                 Renamed(mapping, k) in f.rows[i] &&
                 f.rows[i][Renamed(mapping, k)] == acc[StampOf(f.rows[i])][k])
  {
    var sf := SortedFrame(acc);
    SortedFramePermutes(acc);
    SortedFrameColumns(acc, names);
    RenamePreservesCells(sf, mapping);
    RenameKeepsInstants(sf, mapping);
    var f := RenameColumns(sf, mapping);
    forall t | t in acc ensures exists i :: 0 <= i < |f.rows| && StampOf(f.rows[i]) == t {
      var i :| 0 <= i < |sf.rows| && StampOf(sf.rows[i]) == t;
      assert StampOf(f.rows[i]) == t;
    }
    forall i | 0 <= i < |f.rows|
      ensures StampOf(f.rows[i]) in acc && f.rows[i].Keys == RenamedSet(mapping, acc[StampOf(f.rows[i])].Keys)
    {
      assert sf.rows[i] == acc[StampOf(sf.rows[i])];
    }
    forall i, k | 0 <= i < |f.rows| && StampOf(f.rows[i]) in acc && k in acc[StampOf(f.rows[i])]
      ensures Renamed(mapping, k) in f.rows[i] && f.rows[i][Renamed(mapping, k)] == acc[StampOf(f.rows[i])][k]
    {
      assert sf.rows[i] == acc[StampOf(sf.rows[i])];
      assert k in sf.rows[i];
    }
  }

  /** `f` has one row per instant read, in ascending order. */
  ghost predicate RowPerInstant(f: Frame, rs: seq<Reading>)
  {
    TimeIndexed(f) && StampsAscending(f) && |f.rows| == |Stamps(rs)| &&
    (forall i :: 0 <= i < |f.rows| ==> StampOf(f.rows[i]) in Stamps(rs)) &&
    (forall t :: t in Stamps(rs) ==> exists i :: 0 <= i < |f.rows| && StampOf(f.rows[i]) == t)
  }

  /** In each row of `f`, the renamed column of each component holds its
      last reading at the row's instant, and is absent (NaN) when there is
      none. */
  ghost predicate CellsFromReadings(f: Frame, rs: seq<Reading>, comps: seq<string>, mapping: map<string, string>)
    requires TimeIndexed(f)
  {
    (forall i, c :: 0 <= i < |f.rows| && c in comps ==>
       (Renamed(mapping, c) in f.rows[i] <==> LastValue(rs, StampOf(f.rows[i]), c).Some?)) &&
    (forall i, c :: 0 <= i < |f.rows| && c in comps && LastValue(rs, StampOf(f.rows[i]), c).Some? ==>
       Renamed(mapping, c) in f.rows[i] && f.rows[i][Renamed(mapping, c)] == LastValue(rs, StampOf(f.rows[i]), c).value)
  }

  /** The components of `comps` read at some instant. */
  ghost function ReadAny(rs: seq<Reading>, comps: seq<string>): set<string>
  {
    set c | c in comps && c in Components(rs)
  }

  /** The components of `comps` read at instant `t`. */
  ghost function ReadAt(rs: seq<Reading>, comps: seq<string>, t: int): set<string>
  {
    set c | c in comps && LastValue(rs, t, c).Some?
  }

  /** The columns of `f` are `datetime` and the renamed names of the
      components read, and each row holds `datetime` and the renamed names
      of the components read at its instant, and nothing else. */
  ghost predicate ColumnsFromReadings(f: Frame, rs: seq<Reading>, comps: seq<string>, mapping: map<string, string>)
    requires TimeIndexed(f)
  {
    f.columns == {"datetime"} + RenamedSet(mapping, ReadAny(rs, comps)) &&
    forall i :: 0 <= i < |f.rows| ==>
      f.rows[i].Keys == {"datetime"} + RenamedSet(mapping, ReadAt(rs, comps, StampOf(f.rows[i])))
  }

  /** `f` is the table of the readings `rs` of components `comps`, renamed
      by the rename table. */
  ghost predicate TableOf(f: Frame, rs: seq<Reading>, comps: seq<string>)
  {
    RowPerInstant(f, rs) && CellsFromReadings(f, rs, comps, ColumnMapping) &&
    ColumnsFromReadings(f, rs, comps, ColumnMapping)
  }

  /** Components that may become columns of the table: neither `datetime`
      nor a target of the mapping. */
  ghost predicate PlainComponents(comps: seq<string>, mapping: map<string, string>)
  {
    forall c :: c in comps ==> c != "datetime" && c !in mapping.Values
  }

  /** The accumulator of readings of `comps` has only `datetime` and those
      components as columns. */
  lemma AccumulatorColumns(rs: seq<Reading>, comps: seq<string>)
    requires forall i :: 0 <= i < |rs| ==> rs[i].component in comps
    requires forall c :: c in comps ==> c != "datetime"
    ensures NoReservedComponent(rs)
    ensures Consistent(MergeAll(map[], rs))
    ensures forall t :: t in MergeAll(map[], rs) ==> MergeAll(map[], rs)[t].Keys <= (set c | c in comps) + {"datetime"}
  {
    var acc := MergeAll(map[], rs);
    assert NoReservedComponent(rs);
    MergeAllLastWrite(rs);
    forall t | t in acc ensures acc[t].Keys <= (set c | c in comps) + {"datetime"} {
      forall k | k in acc[t] && k != "datetime" ensures k in comps {
        assert LastValue(rs, t, k).Some?;
        var j :| 0 <= j < |rs| && rs[j].component == k;
      }
    }
  }

  /** A renamed column of a renamed row comes from that column of the
      original row. */
  lemma RenamedColumnFrom(row: Row, source: Row, names: set<string>, mapping: map<string, string>, c: string)
    requires KeepsDatetime(mapping) && names !! mapping.Values
    requires row.Keys == RenamedSet(mapping, source.Keys) && source.Keys <= names + {"datetime"}
    requires c !in mapping.Values && Renamed(mapping, c) in row
    ensures c in source
  {
    var k :| k in source && Renamed(mapping, k) == Renamed(mapping, c);
    RenamedInjective(mapping, k, c);
  }

  /** The renamed table of a non-empty batch of readings has one row per instant read. */
  lemma ReadingsTableRows(rs: seq<Reading>, comps: seq<string>, mapping: map<string, string>)
    requires forall i :: 0 <= i < |rs| ==> rs[i].component in comps
    requires KeepsDatetime(mapping) && PlainComponents(comps, mapping)
    ensures RowPerInstant(RenameColumns(SortedFrame(MergeAll(map[], rs)), mapping), rs)
  {
    AccumulatorColumns(rs, comps);
    MergeAllLastWrite(rs);
    RenamedTable(MergeAll(map[], rs), (set c | c in comps), mapping);
  }

  /** The renamed table of a batch of readings of `comps` holds, for every
      instant and component, the last reading of it. */
  lemma ReadingsTableCells(rs: seq<Reading>, comps: seq<string>, mapping: map<string, string>)
    requires forall i :: 0 <= i < |rs| ==> rs[i].component in comps
    requires KeepsDatetime(mapping) && PlainComponents(comps, mapping)
    ensures TimeIndexed(RenameColumns(SortedFrame(MergeAll(map[], rs)), mapping))
    ensures CellsFromReadings(RenameColumns(SortedFrame(MergeAll(map[], rs)), mapping), rs, comps, mapping)
  {
    var acc := MergeAll(map[], rs);
    var names := set c | c in comps;
    AccumulatorColumns(rs, comps);
    MergeAllLastWrite(rs);
    RenamedTable(acc, names, mapping);
    var f := RenameColumns(SortedFrame(acc), mapping);
    forall i, c | 0 <= i < |f.rows| && c in comps
      ensures Renamed(mapping, c) in f.rows[i] <==> LastValue(rs, StampOf(f.rows[i]), c).Some?
    {
      if Renamed(mapping, c) in f.rows[i] {
        RenamedColumnFrom(f.rows[i], acc[StampOf(f.rows[i])], names, mapping, c);
      }
    }
  }

  /** A reading of `c` at `t` gives `c` a last value at `t`. */
  lemma {:induction false} LastValueOf(rs: seq<Reading>, j: nat)
    requires j < |rs|
    ensures LastValue(rs, rs[j].stamp, rs[j].component).Some?
    decreases |rs|
  {
    var r := rs[|rs| - 1];
    if j < |rs| - 1 && !(r.stamp == rs[j].stamp && r.component == rs[j].component) {
      LastValueOf(rs[..|rs| - 1], j);
      assert rs[..|rs| - 1][j] == rs[j];
    }
  }

  /** Each row of the accumulator holds `datetime` and the components read
      at its instant, and nothing else. */
  lemma AccumulatorRowKeys(rs: seq<Reading>, comps: seq<string>)
    requires forall i :: 0 <= i < |rs| ==> rs[i].component in comps
    requires forall c :: c in comps ==> c != "datetime"
    ensures forall t :: t in MergeAll(map[], rs) ==> MergeAll(map[], rs)[t].Keys == {"datetime"} + ReadAt(rs, comps, t)
  {
    var acc := MergeAll(map[], rs);
    AccumulatorColumns(rs, comps);
    MergeAllLastWrite(rs);
    forall t | t in acc ensures acc[t].Keys == {"datetime"} + ReadAt(rs, comps, t) {
      forall k | k in acc[t] && k != "datetime" ensures k in ReadAt(rs, comps, t) {
        assert k in (set c | c in comps) + {"datetime"};
      }
    }
  }

  /** An accumulator whose rows each hold `datetime` and the components read
      at their instant has no column but those. */
  lemma ColumnsOfReadRowsWithin(acc: Accumulator, rs: seq<Reading>, comps: seq<string>)
    requires forall t :: t in acc ==> acc[t].Keys == {"datetime"} + ReadAt(rs, comps, t)
    ensures ColumnsOf(acc) <= {"datetime"} + ReadAny(rs, comps)
  {
    forall k | k in ColumnsOf(acc) ensures k in {"datetime"} + ReadAny(rs, comps) {
      var t :| t in acc && k in acc[t];
      assert k == "datetime" || k in ReadAt(rs, comps, t);
    }
  }

  /** An accumulator with a row per instant read, each holding `datetime`
      and the components read there, has as columns `datetime` and the
      components read. */
  lemma ColumnsOfReadRows(acc: Accumulator, rs: seq<Reading>, comps: seq<string>)
    requires rs != [] && acc.Keys == Stamps(rs)
    requires forall t :: t in acc ==> acc[t].Keys == {"datetime"} + ReadAt(rs, comps, t)
    ensures ColumnsOf(acc) == {"datetime"} + ReadAny(rs, comps)
  {
    ColumnsOfReadRowsWithin(acc, rs, comps);
    forall k | k in {"datetime"} + ReadAny(rs, comps) ensures k in ColumnsOf(acc) {
      if k == "datetime" {
        var t := rs[0].stamp;
        assert t in Stamps(rs);
        assert k in acc[t];
      } else {
        var j :| 0 <= j < |rs| && rs[j].component == k;
        LastValueOf(rs, j);
        assert rs[j].stamp in Stamps(rs);
        assert k in ReadAt(rs, comps, rs[j].stamp);
        assert k in acc[rs[j].stamp];
      }
    }
  }

  /** The columns of the accumulator of a non-empty batch of readings are
      `datetime` and the components read. */
  lemma AccumulatorColumnSet(rs: seq<Reading>, comps: seq<string>)
    requires rs != []
    requires forall i :: 0 <= i < |rs| ==> rs[i].component in comps
    requires forall c :: c in comps ==> c != "datetime"
    ensures ColumnsOf(MergeAll(map[], rs)) == {"datetime"} + ReadAny(rs, comps)
  {
    AccumulatorColumns(rs, comps);
    MergeAllLastWrite(rs);
    AccumulatorRowKeys(rs, comps);
    ColumnsOfReadRows(MergeAll(map[], rs), rs, comps);
  }

  /** Renaming `datetime` and other names keeps `datetime` and renames the
      rest. */
  lemma RenameWithDatetime(mapping: map<string, string>, names: set<string>)
    requires KeepsDatetime(mapping)
    ensures RenamedSet(mapping, {"datetime"} + names) == {"datetime"} + RenamedSet(mapping, names)
  {
  }

  /** The renamed table of an accumulator whose columns are `datetime` and
      the names `read` has as columns `datetime` and their renamed names. */
  lemma RenamedAccumulatorColumns(acc: Accumulator, names: set<string>, read: set<string>, mapping: map<string, string>)
    requires Consistent(acc) && KeepsDatetime(mapping) && names !! mapping.Values
    requires forall t :: t in acc ==> acc[t].Keys <= names + {"datetime"}
    requires ColumnsOf(acc) == {"datetime"} + read
    ensures RenameColumns(SortedFrame(acc), mapping).columns == {"datetime"} + RenamedSet(mapping, read)
  {
    var sf := SortedFrame(acc);
    SortedFrameColumns(acc, names);
    RenamePreservesCells(sf, mapping);
    RenameWithDatetime(mapping, read);
  }

  /** The renamed table of a non-empty batch of readings has as columns
      `datetime` and the renamed components read. */
  lemma ReadingsTableColumnSet(rs: seq<Reading>, comps: seq<string>, mapping: map<string, string>)
    requires rs != []
    requires forall i :: 0 <= i < |rs| ==> rs[i].component in comps
    requires KeepsDatetime(mapping) && PlainComponents(comps, mapping)
    ensures RenameColumns(SortedFrame(MergeAll(map[], rs)), mapping).columns ==
              {"datetime"} + RenamedSet(mapping, ReadAny(rs, comps))
  {
    AccumulatorColumns(rs, comps);
    AccumulatorColumnSet(rs, comps);
    RenamedAccumulatorColumns(MergeAll(map[], rs), (set c | c in comps), ReadAny(rs, comps), mapping);
  }

  /** A table whose rows are the renamed rows of an accumulator holding, at
      each instant, `datetime` and the components read there, holds in each
      row `datetime` and the renamed components read at its instant. */
  lemma RowKeysFromAccumulator(f: Frame, acc: Accumulator, rs: seq<Reading>, comps: seq<string>, mapping: map<string, string>)
    requires TimeIndexed(f) && KeepsDatetime(mapping)
    requires forall i :: 0 <= i < |f.rows| ==>
               StampOf(f.rows[i]) in acc && f.rows[i].Keys == RenamedSet(mapping, acc[StampOf(f.rows[i])].Keys)
    requires forall t :: t in acc ==> acc[t].Keys == {"datetime"} + ReadAt(rs, comps, t)
    ensures forall i :: 0 <= i < |f.rows| ==>
              f.rows[i].Keys == {"datetime"} + RenamedSet(mapping, ReadAt(rs, comps, StampOf(f.rows[i])))
  {
    forall i | 0 <= i < |f.rows|
      ensures f.rows[i].Keys == {"datetime"} + RenamedSet(mapping, ReadAt(rs, comps, StampOf(f.rows[i])))
    {
      RenameWithDatetime(mapping, ReadAt(rs, comps, StampOf(f.rows[i])));
    }
  }

  /** Each row of the renamed table of a batch of readings holds `datetime`
      and the renamed components read at its instant. */
  lemma ReadingsTableRowKeys(rs: seq<Reading>, comps: seq<string>, mapping: map<string, string>)
    requires forall i :: 0 <= i < |rs| ==> rs[i].component in comps
    requires KeepsDatetime(mapping) && PlainComponents(comps, mapping)
    ensures TimeIndexed(RenameColumns(SortedFrame(MergeAll(map[], rs)), mapping))
    ensures var f := RenameColumns(SortedFrame(MergeAll(map[], rs)), mapping);
              forall i :: 0 <= i < |f.rows| ==>
                f.rows[i].Keys == {"datetime"} + RenamedSet(mapping, ReadAt(rs, comps, StampOf(f.rows[i])))
  {
    var acc := MergeAll(map[], rs);
    AccumulatorColumns(rs, comps);
    AccumulatorRowKeys(rs, comps);
    RenamedTable(acc, (set c | c in comps), mapping);
    RowKeysFromAccumulator(RenameColumns(SortedFrame(acc), mapping), acc, rs, comps, mapping);
  }

  /** The renamed table of a non-empty batch of readings has as columns
      `datetime` and the renamed components read, and each row only those
      read at its instant. */
  lemma ReadingsTableColumns(rs: seq<Reading>, comps: seq<string>, mapping: map<string, string>)
    requires rs != []
    requires forall i :: 0 <= i < |rs| ==> rs[i].component in comps
    requires KeepsDatetime(mapping) && PlainComponents(comps, mapping)
    ensures TimeIndexed(RenameColumns(SortedFrame(MergeAll(map[], rs)), mapping))
    ensures ColumnsFromReadings(RenameColumns(SortedFrame(MergeAll(map[], rs)), mapping), rs, comps, mapping)
  {
    ReadingsTableColumnSet(rs, comps, mapping);
    ReadingsTableRowKeys(rs, comps, mapping);
  }

  /** A call to a known station that meets no error raises KeyError
      ('datetime') exactly when no reading came back, and otherwise returns
      the table of every reading of every component. */
  lemma FetchedTable(station: string, von: int, bis: int, pages: string -> seq<Response>)
    requires ChainsServed(station, pages) && station in StationComponents
    requires FirstError(pages, StationComponents[station]).None?
    ensures AllReadings(pages, StationComponents[station]) == [] <==>
              FetchSpec(station, von, bis, pages).0 == Raised(MissingKey("datetime"))
    ensures AllReadings(pages, StationComponents[station]) != [] ==>
              FetchSpec(station, von, bis, pages).0.Table? &&
              TableOf(FetchSpec(station, von, bis, pages).0.frame, AllReadings(pages, StationComponents[station]),
                      StationComponents[station])
  {
    var comps := StationComponents[station];
    var rs := AllReadings(pages, comps);
    FetchOutcome(station, von, bis, pages);
    ColumnMappingSafe();
    StationColumnsSafe();
    AllReadingsComponents(pages, comps);
    if rs != [] {
      MergeAllLastWrite(rs);
      assert rs[0].stamp in Stamps(rs);
      ReadingsTableRows(rs, comps, ColumnMapping);
      ReadingsTableCells(rs, comps, ColumnMapping);
      ReadingsTableColumns(rs, comps, ColumnMapping);
    }
  }

  /** Whatever a call returns, a table it returns has rows, each carrying
      its instant in `datetime`, in ascending order. */
  lemma FetchedTableSorted(station: string, von: int, bis: int, pages: string -> seq<Response>)
    requires ChainsServed(station, pages)
    ensures FetchSpec(station, von, bis, pages).0.Table? ==>
              var f := FetchSpec(station, von, bis, pages).0.frame;
              |f.rows| > 0 && TimeIndexed(f) && StampsAscending(f)
  {
    FetchOutcome(station, von, bis, pages);
    if station in StationComponents && FirstError(pages, StationComponents[station]).None? {
      var rs := AllReadings(pages, StationComponents[station]);
      FetchedTable(station, von, bis, pages);
      if rs != [] {
        assert rs[0].stamp in Stamps(rs);
      }
    }
  }
}
