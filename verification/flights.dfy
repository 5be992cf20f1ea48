/**
 Flight records and the table view of script.js: the filter
 (`getFilteredFlights`), the column sort (`getSortedFlights`, `handleSort`),
 the filter option lists (`updateFilterOptions`) and the route colour table
 (`getFlightPathColor`).

 A rendered row refers back to the store by `this.flights.indexOf(flight)`.
 Records are distinct objects, so that is the row's own position in the
 store; the model carries the position itself: a view is a sequence of store
 positions.
 */
module Flights {
  import opened Opt
  import opened Text
  import opened Indices
  import opened StableSort

  /** One logged flight. Dates are ISO `YYYY-MM-DD` strings, durations exact
      reals; `flightType` is the source's `type` field. */
  datatype Flight = Flight(
    id: string,
    date: string,
    duration: real,
    departure: string,
    arrival: string,
    aircraft: string,
    flightType: string,
    notes: string)

  /** The filter bar; an empty string means "no filter". */
  datatype Filters = Filters(month: string, aircraft: string, route: string)

  const NoFilters := Filters("", "", "")

  /** `new Date(date).toISOString().substr(0, 7)` for an ISO date: its year-month. */
  function MonthOf(date: string): string
  {
    if |date| >= 7 then date[..7] else date
  }

  function Route(f: Flight): string
  {
    f.departure + "-" + f.arrival
  }

  function ReverseRoute(f: Flight): string
  {
    f.arrival + "-" + f.departure
  }

  /** The three tests of `getFilteredFlights`, each skipped when its filter is empty. */
  predicate PassesMonth(f: Flight, filters: Filters)
  {
    filters.month == "" || MonthOf(f.date) == filters.month
  }

  predicate PassesAircraft(f: Flight, filters: Filters)
  {
    filters.aircraft == "" || f.aircraft == filters.aircraft
  }

  predicate PassesRoute(f: Flight, filters: Filters)
  {
    var wanted := ToUpper(filters.route);
    filters.route == "" || Contains(Route(f), wanted) || Contains(ReverseRoute(f), wanted)
  }

  predicate Passes(f: Flight, filters: Filters)
  {
    PassesMonth(f, filters) && PassesAircraft(f, filters) && PassesRoute(f, filters)
  }

  /** The three filters act independently: a record passes them together
      exactly when it passes each one set on its own. */
  lemma FiltersCompose(f: Flight, filters: Filters)
    ensures Passes(f, filters) <==>
      && Passes(f, Filters(filters.month, "", ""))
      && Passes(f, Filters("", filters.aircraft, ""))
      && Passes(f, Filters("", "", filters.route))
  {
  }

  /** `getFilteredFlights()` as store positions: the positions of the records
      passing all three tests, in store order, each once. */
  function FilteredPositions(flights: seq<Flight>, filters: Filters): (r: seq<nat>)
    ensures StrictlyIncreasing(r)
    ensures forall k :: 0 <= k < |r| ==> r[k] < |flights| && Passes(flights[r[k]], filters)
    ensures forall i :: 0 <= i < |flights| && Passes(flights[i], filters) ==> i in r
  {
    var p := (i: nat) => i < |flights| && Passes(flights[i], filters);
    var r := Where(|flights|, p);
    forall i | 0 <= i < |flights| && Passes(flights[i], filters)
      ensures i in r
    {
      assert p(i);
    }
    r
  }

  /** The records at a sequence of positions, in that order. */
  function At(flights: seq<Flight>, ps: seq<nat>): (r: seq<Flight>)
    requires forall k :: 0 <= k < |ps| ==> ps[k] < |flights|
    ensures |r| == |ps|
    ensures forall k :: 0 <= k < |ps| ==> r[k] == flights[ps[k]]
  {
    seq(|ps|, k requires 0 <= k < |ps| => flights[ps[k]])
  }

  /** Record ids are pairwise different. */
  predicate UniqueIds(flights: seq<Flight>)
  {
    forall i, j :: 0 <= i < j < |flights| ==> flights[i].id != flights[j].id
  }

  /** `this.flights.indexOf(flight)`: the first position holding the record,
      None when no position does. */
  function IndexOfFlight(flights: seq<Flight>, f: Flight): (r: Option<nat>)
    ensures r.Some? ==> r.value < |flights| && flights[r.value] == f
    ensures r.Some? ==> forall j :: 0 <= j < r.value ==> flights[j] != f
    ensures r.None? <==> f !in flights
  {
    if |flights| == 0 then None
    else if flights[0] == f then Some(0)
    else
      assert flights == [flights[0]] + flights[1..];
      match IndexOfFlight(flights[1..], f)
      case None => None
      case Some(i) => Some(i + 1)
  }

  /** The index `renderFlightTable` writes into row k (for its edit, delete and
      map buttons) is the store position of the record the row shows, as long
      as ids are pairwise different. */
  lemma RowIndexNamesRecord(flights: seq<Flight>, v: seq<nat>, k: nat)
    requires UniqueIds(flights)
    requires forall j :: 0 <= j < |v| ==> v[j] < |flights|
    requires k < |v|
    ensures IndexOfFlight(flights, At(flights, v)[k]) == Some(v[k])
  {
    assert At(flights, v)[k] == flights[v[k]];
    IndexOfUnique(flights, v[k]);
  }

  /** With pairwise-different ids, `indexOf` finds each record at its own position. */
  lemma IndexOfUnique(flights: seq<Flight>, i: nat)
    requires UniqueIds(flights) && i < |flights|
    ensures IndexOfFlight(flights, flights[i]) == Some(i)
  {
    var r := IndexOfFlight(flights, flights[i]);
    assert flights[i] in flights;
    assert r.Some? && flights[r.value].id == flights[i].id;
  }

  /** Every row of the table carries the position of its own record. */
  lemma TableRowIndices(flights: seq<Flight>, filters: Filters, config: SortConfig)
    requires UniqueIds(flights)
    ensures var v := TableView(flights, filters, config);
      forall k :: 0 <= k < |v| ==> IndexOfFlight(flights, At(flights, v)[k]) == Some(v[k])
  {
    var v := TableView(flights, filters, config);
    forall k | 0 <= k < |v|
      ensures IndexOfFlight(flights, At(flights, v)[k]) == Some(v[k])
    {
      RowIndexNamesRecord(flights, v, k);
    }
  }

  /** With every filter empty the whole store is shown, in order. */
  lemma NoFiltersShowAll(flights: seq<Flight>)
    ensures FilteredPositions(flights, NoFilters) == Range(|flights|)
    ensures At(flights, FilteredPositions(flights, NoFilters)) == flights
  {
    var p := (i: nat) => i < |flights| && Passes(flights[i], NoFilters);
    WhereAll(|flights|, p);
  }

  /** The route filter does not care about direction: a flight and its return
      leg pass or fail together. */
  lemma RouteFilterSymmetric(f: Flight, filters: Filters)
    ensures PassesRoute(f, filters) == PassesRoute(f.(departure := f.arrival, arrival := f.departure), filters)
  {
  }

  /** Filtering on an upper-case airport code finds a flight that departs from
      it and one that arrives at it. */
  lemma RouteFilterFindsEitherEnd(f: Flight, code: string)
    requires ToUpper(code) == code
    requires f.departure == code || f.arrival == code
    ensures PassesRoute(f, Filters("", "", code))
  {
    if f.departure == code {
      assert StartsWith(Route(f), code);
    } else {
      assert StartsWith(ReverseRoute(f), code);
    }
  }

  /** A flight that touches the code nowhere in its route text is filtered out. */
  lemma RouteFilterExcludesOthers(f: Flight, code: string)
    requires code != "" && ToUpper(code) == code
    requires !Contains(Route(f), code) && !Contains(ReverseRoute(f), code)
    ensures !PassesRoute(f, Filters("", "", code))
  {
  }

  /** The sort state of the table header. */
  datatype SortConfig = SortConfig(column: string, direction: Direction)

  /** The initial sort: newest first. */
  const InitialSort := SortConfig("date", Desc)

  /** `handleSort(column)`: the active column flips direction, a new column
      starts ascending. */
  function HandleSort(config: SortConfig, column: string): (r: SortConfig)
    ensures r.column == column
    ensures config.column == column ==> r.direction != config.direction
    ensures config.column != column ==> r.direction == Asc
  {
    if config.column == column then
      config.(direction := if config.direction == Asc then Desc else Asc)
    else SortConfig(column, Asc)
  }

  /** Clicking the same header twice restores the sort. */
  lemma HandleSortTwice(config: SortConfig)
    ensures HandleSort(HandleSort(config, config.column), config.column) == config
  {
  }

  /** The comparable projection of one record for a column of the table; an
      unknown column compares every pair as equal. */
  function ColumnKey(f: Flight, column: string): Key
  {
    match column
    case "date" => Str(f.date)
    case "route" => Str(Route(f))
    case "aircraft" => Str(ToLower(f.aircraft))
    case "type" => Str(ToLower(f.flightType))
    case "duration" => Num(f.duration)
    case "notes" => Str(ToLower(f.notes))
    case _ => NoKey
  }

  function KeyOf(flights: seq<Flight>, column: string): nat -> Key
  {
    (i: nat) => if i < |flights| then ColumnKey(flights[i], column) else NoKey
  }

  /** `getSortedFlights(view)`: the same positions, reordered by the column. */
  function SortedPositions(flights: seq<Flight>, view: seq<nat>, config: SortConfig): (r: seq<nat>)
    ensures multiset(r) == multiset(view)
  {
    SortBy(view, KeyOf(flights, config.column), config.direction)
  }

  /** The rows `renderFlightTable` shows, as store positions. */
  function TableView(flights: seq<Flight>, filters: Filters, config: SortConfig): (r: seq<nat>)
    ensures multiset(r) == multiset(FilteredPositions(flights, filters))
    ensures forall k :: 0 <= k < |r| ==> r[k] < |flights| && Passes(flights[r[k]], filters)
  {
    var f := FilteredPositions(flights, filters);
    var r := SortedPositions(flights, f, config);
    forall k | 0 <= k < |r|
      ensures r[k] < |flights| && Passes(flights[r[k]], filters)
    {
      assert r[k] in multiset(f);
    }
    r
  }

  /** A strictly increasing sequence holds each of its elements once. */
  lemma {:induction false} IncreasingCountsOnce(s: seq<nat>, x: nat)
    requires StrictlyIncreasing(s)
    ensures multiset(s)[x] == if x in s then 1 else 0
  {
    if |s| > 0 {
      var p := s[..|s| - 1];
      assert s == p + [s[|s| - 1]];
      IncreasingCountsOnce(p, x);
      if x == s[|s| - 1] {
        assert forall k :: 0 <= k < |p| ==> p[k] < x;
      }
    }
  }

  /** The table: every record passing the filters is shown exactly once and no
      other record is; the rows are ordered by the sort column in the sort
      direction; and rows with equal keys keep store order. */
  lemma TableViewSpec(flights: seq<Flight>, filters: Filters, config: SortConfig)
    ensures var v := TableView(flights, filters, config);
      forall i: nat :: i < |flights| ==> multiset(v)[i] == if Passes(flights[i], filters) then 1 else 0
    ensures Sorted(TableView(flights, filters, config), KeyOf(flights, config.column), config.direction)
    ensures Stable(TableView(flights, filters, config), KeyOf(flights, config.column))
  {
    var f := FilteredPositions(flights, filters);
    var v := TableView(flights, filters, config);
    forall i: nat | i < |flights|
      ensures multiset(TableView(flights, filters, config))[i] == if Passes(flights[i], filters) then 1 else 0
    {
      IncreasingCountsOnce(f, i);
    }
    SortBySorted(f, KeyOf(flights, config.column), config.direction);
    SortByStable(f, KeyOf(flights, config.column), config.direction);
  }

  /** Aircraft, type and notes sort without regard to case: two records get
      the same key exactly when the field is the same once lower-cased. */
  lemma TextColumnsIgnoreCase(f: Flight, g: Flight)
    ensures ColumnKey(f, "aircraft") == ColumnKey(g, "aircraft") <==> ToLower(f.aircraft) == ToLower(g.aircraft)
    ensures ColumnKey(f, "type") == ColumnKey(g, "type") <==> ToLower(f.flightType) == ToLower(g.flightType)
    ensures ColumnKey(f, "notes") == ColumnKey(g, "notes") <==> ToLower(f.notes) == ToLower(g.notes)
  {
    assert "aircraft" != "date" && "aircraft" != "route";
    assert "type" != "date" && "type" != "route" && "type" != "aircraft";
    assert "notes" != "date" && "notes" != "route" && "notes" != "aircraft" && "notes" != "type"
      && "notes" != "duration";
  }

  /** Sorting by aircraft, in either direction, keeps in store order the rows
      whose aircraft differ only in case. */
  lemma AircraftSortIgnoresCase(flights: seq<Flight>, filters: Filters, dir: Direction)
    ensures var v := TableView(flights, filters, SortConfig("aircraft", dir));
      forall p, q :: 0 <= p < q < |v| && ToLower(flights[v[p]].aircraft) == ToLower(flights[v[q]].aircraft) ==>
        v[p] < v[q]
  {
    var config := SortConfig("aircraft", dir);
    var v := TableView(flights, filters, config);
    TableViewSpec(flights, filters, config);
    forall p, q | 0 <= p < q < |v| && ToLower(flights[v[p]].aircraft) == ToLower(flights[v[q]].aircraft)
      ensures v[p] < v[q]
    {
      TextColumnsIgnoreCase(flights[v[p]], flights[v[q]]);
      assert KeyOf(flights, "aircraft")(v[p]) == KeyOf(flights, "aircraft")(v[q]);
    }
  }

  lemma DurationKey(f: Flight)
    ensures ColumnKey(f, "duration") == Num(f.duration)
  {
    assert "duration" != "date" && "duration" != "route" && "duration" != "aircraft" && "duration" != "type";
  }

  /** Sorting by duration ascending lists durations from shortest to longest. */
  lemma DurationSortAscending(flights: seq<Flight>, filters: Filters)
    ensures var v := TableView(flights, filters, SortConfig("duration", Asc));
      forall p, q :: 0 <= p < q < |v| ==> flights[v[p]].duration <= flights[v[q]].duration
  {
    var config := SortConfig("duration", Asc);
    var v := TableView(flights, filters, config);
    TableViewSpec(flights, filters, config);
    forall p, q | 0 <= p < q < |v|
      ensures flights[v[p]].duration <= flights[v[q]].duration
    {
      var key := KeyOf(flights, "duration");
      assert !Before(key(v[q]), key(v[p]), Asc);
      assert key(v[p]) == Num(flights[v[p]].duration) by {
        DurationKey(flights[v[p]]);
      }
      assert key(v[q]) == Num(flights[v[q]].duration) by {
        DurationKey(flights[v[q]]);
      }
    }
  }

  lemma DateKey(f: Flight)
    ensures ColumnKey(f, "date") == Str(f.date)
  {
  }

  /** The initial sort shows the newest date first. */
  lemma InitialSortNewestFirst(flights: seq<Flight>, filters: Filters)
    ensures var v := TableView(flights, filters, InitialSort);
      forall p, q :: 0 <= p < q < |v| ==> !StrLt(flights[v[p]].date, flights[v[q]].date)
  {
    var v := TableView(flights, filters, InitialSort);
    var key := KeyOf(flights, "date");
    assert Sorted(v, key, Desc) by {
      TableViewSpec(flights, filters, InitialSort);
    }
    forall p, q | 0 <= p < q < |v|
      ensures !StrLt(flights[v[p]].date, flights[v[q]].date)
    {
      assert !Before(key(v[q]), key(v[p]), Desc);
      assert key(v[p]) == Str(flights[v[p]].date) by {
        DateKey(flights[v[p]]);
      }
      assert key(v[q]) == Str(flights[v[q]].date) by {
        DateKey(flights[v[q]]);
      }
    }
  }

  predicate KnownColumn(column: string)
  {
    column in {"date", "route", "aircraft", "type", "duration", "notes"}
  }

  /** An unknown column leaves the filtered order unchanged. */
  lemma UnknownColumnKeepsOrder(flights: seq<Flight>, filters: Filters, config: SortConfig)
    requires !KnownColumn(config.column)
    ensures TableView(flights, filters, config) == FilteredPositions(flights, filters)
  {
    var f := FilteredPositions(flights, filters);
    var key := KeyOf(flights, config.column);
    forall i, j | 0 <= i < |f| && 0 <= j < |f|
      ensures !Before(key(f[i]), key(f[j]), config.direction)
    {
      assert key(f[i]) == NoKey && key(f[j]) == NoKey;
    }
    SortByUnordered(f, key, config.direction);
  }

  predicate StrictlySorted(r: seq<string>)
  {
    forall i, j :: 0 <= i < j < |r| ==> StrLt(r[i], r[j])
  }

  /** Adds x to a strictly sorted list unless it is already there. */
  function InsertDistinct(x: string, t: seq<string>): (r: seq<string>)
    requires StrictlySorted(t)
    ensures StrictlySorted(r)
    ensures forall y :: y in r <==> y == x || y in t
  {
    if |t| == 0 then [x]
    else if x == t[0] then t
    else if StrLt(x, t[0]) then
      assert forall j :: 0 <= j < |t| ==> StrLt(x, t[j]) by {
        forall j | 0 <= j < |t|
          ensures StrLt(x, t[j])
        {
          if j > 0 {
            StrLtTransitive(x, t[0], t[j]);
          }
        }
      }
      [x] + t
    else
      StrLtTotal(x, t[0]);
      var rest := InsertDistinct(x, t[1..]);
      assert t == [t[0]] + t[1..];
      assert forall y :: y in rest ==> StrLt(t[0], y);
      [t[0]] + rest
  }

  /** `[...new Set(xs)].sort()`: each distinct value once, in ascending order. */
  function DistinctSorted(xs: seq<string>): (r: seq<string>)
    ensures StrictlySorted(r)
    ensures forall y :: y in r <==> y in xs
  {
    if |xs| == 0 then []
    else
      assert xs == xs[..|xs| - 1] + [xs[|xs| - 1]];
      InsertDistinct(xs[|xs| - 1], DistinctSorted(xs[..|xs| - 1]))
  }

  /** A strictly sorted list never repeats a value. */
  lemma StrictlySortedDistinct(r: seq<string>)
    requires StrictlySorted(r)
    ensures forall i, j :: 0 <= i < j < |r| ==> r[i] != r[j]
  {
    forall i, j | 0 <= i < j < |r|
      ensures r[i] != r[j]
    {
      StrLtIrreflexive(r[i]);
    }
  }

  /** The month filter's options: every month that has a flight. */
  function MonthOptions(flights: seq<Flight>): (r: seq<string>)
    ensures StrictlySorted(r)
    ensures forall m :: m in r <==> exists i :: 0 <= i < |flights| && MonthOf(flights[i].date) == m
  {
    var months := seq(|flights|, i requires 0 <= i < |flights| => MonthOf(flights[i].date));
    var r := DistinctSorted(months);
    assert forall m :: m in months <==> exists i :: 0 <= i < |flights| && MonthOf(flights[i].date) == m by {
      forall m | m in months
        ensures exists i :: 0 <= i < |flights| && MonthOf(flights[i].date) == m
      {
        var i :| 0 <= i < |months| && months[i] == m;
      }
      forall m | exists i :: 0 <= i < |flights| && MonthOf(flights[i].date) == m
        ensures m in months
      {
        var i :| 0 <= i < |flights| && MonthOf(flights[i].date) == m;
        assert months[i] == m;
      }
    }
    r
  }

  /** The aircraft filter's options: every aircraft that has a flight. */
  function AircraftOptions(flights: seq<Flight>): (r: seq<string>)
    ensures StrictlySorted(r)
    ensures forall a :: a in r <==> exists i :: 0 <= i < |flights| && flights[i].aircraft == a
  {
    var names := seq(|flights|, i requires 0 <= i < |flights| => flights[i].aircraft);
    var r := DistinctSorted(names);
    assert forall a :: a in names <==> exists i :: 0 <= i < |flights| && flights[i].aircraft == a by {
      forall a | a in names
        ensures exists i :: 0 <= i < |flights| && flights[i].aircraft == a
      {
        var i :| 0 <= i < |names| && names[i] == a;
      }
      forall a | exists i :: 0 <= i < |flights| && flights[i].aircraft == a
        ensures a in names
      {
        var i :| 0 <= i < |flights| && flights[i].aircraft == a;
        assert names[i] == a;
      }
    }
    r
  }

  /** Picking any offered month keeps at least one flight in the table. */
  lemma MonthOptionNeverEmpty(flights: seq<Flight>, m: string)
    requires m in MonthOptions(flights) && m != ""
    ensures |FilteredPositions(flights, Filters(m, "", ""))| > 0
  {
    var i :| 0 <= i < |flights| && MonthOf(flights[i].date) == m;
    assert Passes(flights[i], Filters(m, "", ""));
  }

  const TrainingColour := "#f39c12"
  const CommercialColour := "#3498db"
  const PersonalColour := "#27ae60"
  const CrossCountryColour := "#e74c3c"
  const OtherColour := "#95a5a6"

  /** `getFlightPathColor(type)`: four known types have their own colour,
      anything else is grey. */
  function PathColour(flightType: string): (r: string)
    ensures flightType == "Training" <==> r == TrainingColour
    ensures flightType == "Commercial" <==> r == CommercialColour
    ensures flightType == "Personal" <==> r == PersonalColour
    ensures flightType == "Cross Country" <==> r == CrossCountryColour
    ensures flightType !in {"Training", "Commercial", "Personal", "Cross Country"} <==> r == OtherColour
  {
    match flightType
    case "Training" => TrainingColour
    case "Commercial" => CommercialColour
    case "Personal" => PersonalColour
    case "Cross Country" => CrossCountryColour
    case _ => OtherColour
  }
}
