/**
 The flight record store and the entry form's edit session of script.js:
 `validateForm`, `handleFlightSubmission`, `editFlight`, `cancelEdit`,
 `deleteFlight` (the confirmed branch) and `updateStatistics`.

 Every mutation is followed in the source by a save to localStorage and by
 re-rendering; neither changes the application state, so the model has no
 counterpart for them.
 */
module Store {
  import opened Opt
  import opened Text
  import opened Flights

  /** The form as `getFormData` reads it. `duration` is the value of
      parseFloat: None stands for NaN (an empty or unparsable field). */
  datatype FormData = FormData(
    date: string,
    duration: Option<real>,
    departure: string,
    arrival: string,
    aircraft: string,
    flightType: string,
    notes: string)

  /** `getFormData`: airport codes are upper-cased, so they read as typed up
      to case; every other field is taken as typed. */
  function ReadForm(date: string, duration: Option<real>, departure: string, arrival: string,
                    aircraft: string, flightType: string, notes: string): (r: FormData)
    ensures forall k :: 0 <= k < |r.departure| ==> !IsLower(r.departure[k])
    ensures forall k :: 0 <= k < |r.arrival| ==> !IsLower(r.arrival[k])
    ensures |r.departure| == |departure| && |r.arrival| == |arrival|
    ensures ToLower(r.departure) == ToLower(departure) && ToLower(r.arrival) == ToLower(arrival)
    ensures r.date == date && r.duration == duration && r.aircraft == aircraft
    ensures r.flightType == flightType && r.notes == notes
  {
    CaseRoundTrip(departure);
    CaseRoundTrip(arrival);
    FormData(date, duration, ToUpper(departure), ToUpper(arrival), aircraft, flightType, notes)
  }

  datatype FormError = MissingField | NonPositiveDuration

  /** `validateForm`. A duration of 0 (falsy) or NaN is reported as a missing
      field; only a negative duration reaches the second test. */
  function Validate(form: FormData): (r: Option<FormError>)
    ensures r == None <==>
      form.date != "" && form.departure != "" && form.arrival != "" && form.aircraft != ""
      && form.flightType != "" && form.duration.Some? && form.duration.value > 0.0
    ensures r == Some(NonPositiveDuration) <==>
      form.date != "" && form.departure != "" && form.arrival != "" && form.aircraft != ""
      && form.flightType != "" && form.duration.Some? && form.duration.value < 0.0
  {
    if form.date == "" || form.duration.None? || form.duration.value == 0.0 || form.departure == ""
       || form.arrival == "" || form.aircraft == "" || form.flightType == "" then
      Some(MissingField)
    else if form.duration.value <= 0.0 then
      Some(NonPositiveDuration)
    else
      None
  }

  /** The record holds exactly what the form holds. */
  predicate Holds(f: Flight, form: FormData)
  {
    && f.date == form.date && Some(f.duration) == form.duration
    && f.departure == form.departure && f.arrival == form.arrival
    && f.aircraft == form.aircraft && f.flightType == form.flightType && f.notes == form.notes
  }

  /** `{ ...formData, id }`. */
  function Record(form: FormData, id: string): (r: Flight)
    requires form.duration.Some?
    ensures Holds(r, form) && r.id == id
  {
    Flight(id, form.date, form.duration.value, form.departure, form.arrival,
           form.aircraft, form.flightType, form.notes)
  }

  /** The state of one FlightLogger: the store, the edit slot (-1 when no edit
      is in progress), the filter bar and the sort header. */
  datatype AppState = AppState(flights: seq<Flight>, editingIndex: int, filters: Filters, sort: SortConfig)

  /** The constructor's state over the records loaded from storage. */
  function Initial(stored: seq<Flight>): AppState
  {
    AppState(stored, -1, NoFilters, InitialSort)
  }

  /** What the form reports after a submission. `Failed` is the TypeError the
      source raises when the edit slot names no record (reading `.id` of
      undefined) before anything is assigned. */
  datatype Notice = Rejected(error: FormError) | Updated | Logged | Failed

  datatype Submission = Submission(state: AppState, notice: Notice)

  /** `handleFlightSubmission`, the fresh id (Date.now() in the source) given. */
  function Submit(st: AppState, form: FormData, freshId: string): (r: Submission)
    ensures r.state.filters == st.filters && r.state.sort == st.sort
    ensures Validate(form).Some? ==> r == Submission(st, Rejected(Validate(form).value))
    ensures Validate(form).None? && 0 <= st.editingIndex < |st.flights| ==>
      var e := st.editingIndex;
      && r.notice == Updated
      && |r.state.flights| == |st.flights|
      && Holds(r.state.flights[e], form) && r.state.flights[e].id == st.flights[e].id
      && (forall j :: 0 <= j < |st.flights| && j != e ==> r.state.flights[j] == st.flights[j])
      && r.state.editingIndex == -1
    ensures Validate(form).None? && st.editingIndex >= |st.flights| ==> r == Submission(st, Failed)
    ensures Validate(form).None? && st.editingIndex < 0 ==>
      && r.notice == Logged
      && |r.state.flights| == |st.flights| + 1
      && r.state.flights[..|st.flights|] == st.flights
      && Holds(r.state.flights[|st.flights|], form) && r.state.flights[|st.flights|].id == freshId
      && r.state.editingIndex == st.editingIndex
  {
    match Validate(form)
    case Some(error) => Submission(st, Rejected(error))
    case None =>
      if st.editingIndex >= 0 then
        if st.editingIndex < |st.flights| then
          var e := st.editingIndex;
          var updated := Record(form, st.flights[e].id);
          Submission(st.(flights := st.flights[e := updated], editingIndex := -1), Updated)
        else
          Submission(st, Failed)
      else
        Submission(st.(flights := st.flights + [Record(form, freshId)]), Logged)
  }

  /** `editFlight(index)`: the edit slot takes the row's index. */
  function BeginEdit(st: AppState, index: nat): (r: AppState)
    ensures r.editingIndex == index
    ensures r.flights == st.flights && r.filters == st.filters && r.sort == st.sort
  {
    st.(editingIndex := index)
  }

  /** `cancelEdit`: the slot is emptied, nothing else changes. */
  function CancelEdit(st: AppState): (r: AppState)
    ensures r.editingIndex == -1
    ensures r.flights == st.flights && r.filters == st.filters && r.sort == st.sort
  {
    st.(editingIndex := -1)
  }

  /** `deleteFlight(index)` once confirmed: `splice(index, 1)`. The edit slot is
      left as it was. */
  function Delete(st: AppState, index: nat): (r: AppState)
    ensures r.editingIndex == st.editingIndex && r.filters == st.filters && r.sort == st.sort
    ensures index < |st.flights| ==>
      && |r.flights| == |st.flights| - 1
      && (forall j :: 0 <= j < index ==> r.flights[j] == st.flights[j])
      && (forall j :: index <= j < |r.flights| ==> r.flights[j] == st.flights[j + 1])
      && multiset(r.flights) + multiset{st.flights[index]} == multiset(st.flights)
    ensures index >= |st.flights| ==> r == st
  {
    if index < |st.flights| then
      assert st.flights == st.flights[..index] + [st.flights[index]] + st.flights[index + 1..];
      st.(flights := st.flights[..index] + st.flights[index + 1..])
    else st
  }

  predicate HasId(flights: seq<Flight>, id: string)
  {
    exists i :: 0 <= i < |flights| && flights[i].id == id
  }

  /** Ids stay unique across a submission when the fresh id is new. */
  lemma SubmitKeepsIdsUnique(st: AppState, form: FormData, freshId: string)
    requires UniqueIds(st.flights)
    requires !HasId(st.flights, freshId)
    ensures UniqueIds(Submit(st, form, freshId).state.flights)
  {
    var r := Submit(st, form, freshId).state.flights;
    if Validate(form).None? && st.editingIndex < 0 {
      forall i, j | 0 <= i < j < |r|
        ensures r[i].id != r[j].id
      {
        if j == |st.flights| {
          assert r[i] == st.flights[i];
        }
      }
    }
  }

  /** Deleting a record removes its id from the store and keeps ids unique. */
  lemma DeleteRemovesId(st: AppState, index: nat)
    requires UniqueIds(st.flights) && index < |st.flights|
    ensures UniqueIds(Delete(st, index).flights)
    ensures !HasId(Delete(st, index).flights, st.flights[index].id)
  {
    var r := Delete(st, index).flights;
    forall i, j | 0 <= i < j < |r|
      ensures r[i].id != r[j].id
    {
      var i' := if i < index then i else i + 1;
      var j' := if j < index then j else j + 1;
      assert r[i] == st.flights[i'] && r[j] == st.flights[j'];
    }
    forall k | 0 <= k < |r|
      ensures r[k].id != st.flights[index].id
    {
      var k' := if k < index then k else k + 1;
      assert r[k] == st.flights[k'];
    }
  }

  /** The edit slot names a record of the store, or no edit is in progress. */
  predicate EditTargetValid(st: AppState)
  {
    st.editingIndex == -1 || 0 <= st.editingIndex < |st.flights|
  }

  /** The delete the edit session needs: deleting the record under edit ends
      the edit, deleting an earlier record moves the slot down with its record. */
  function DeleteAdjustingEdit(st: AppState, index: nat): (r: AppState)
    ensures r.flights == Delete(st, index).flights
    ensures EditTargetValid(st) ==> EditTargetValid(r)
    ensures index < |st.flights| && index == st.editingIndex ==> r.editingIndex == -1
    ensures 0 <= st.editingIndex < |st.flights| && index != st.editingIndex ==>
      0 <= r.editingIndex < |r.flights| && r.flights[r.editingIndex] == st.flights[st.editingIndex]
  {
    var d := Delete(st, index);
    if index >= |st.flights| then d
    else if index == st.editingIndex then d.(editingIndex := -1)
    else if index < st.editingIndex then d.(editingIndex := st.editingIndex - 1)
    else d
  }

  /** User actions that change the application state. Row actions carry the
      row's store index. */
  datatype Action =
    | SubmitForm(form: FormData, freshId: string)
    | EditRow(index: nat)
    | CancelEditing
    | DeleteRow(index: nat)
    | ApplyFilters(filters: Filters)
    | ClearFilters
    | ClickHeader(column: string)

  /** Row actions exist only for rows, so their index names a record. */
  predicate Offered(st: AppState, a: Action)
  {
    match a
    case EditRow(i) => i < |st.flights|
    case DeleteRow(i) => i < |st.flights|
    case _ => true
  }

  /** The event handlers of script.js, as written. */
  function Step(st: AppState, a: Action): AppState
  {
    match a
    case SubmitForm(form, id) => Submit(st, form, id).state
    case EditRow(i) => BeginEdit(st, i)
    case CancelEditing => CancelEdit(st)
    case DeleteRow(i) => Delete(st, i)
    case ApplyFilters(f) => st.(filters := f)
    case ClearFilters => st.(filters := NoFilters)
    case ClickHeader(c) => st.(sort := HandleSort(st.sort, c))
  }

  /** The same handlers with the delete that keeps the edit slot on its record. */
  function StepCorrected(st: AppState, a: Action): AppState
  {
    match a
    case DeleteRow(i) => DeleteAdjustingEdit(st, i)
    case _ => Step(st, a)
  }

  /** With the corrected delete, every offered action keeps the edit slot on a
      record of the store. */
  lemma CorrectedStepKeepsEditValid(st: AppState, a: Action)
    requires EditTargetValid(st) && Offered(st, a)
    ensures EditTargetValid(StepCorrected(st, a))
  {
    match a
    case SubmitForm(form, id) =>
    case EditRow(i) =>
    case CancelEditing =>
    case DeleteRow(i) =>
    case ApplyFilters(f) =>
    case ClearFilters =>
    case ClickHeader(c) =>
  }

  /** As written, deleting an earlier record while another is being edited makes
      the next submission overwrite the record after the edited one: editing
      the third of four records, deleting the first and submitting replaces
      the fourth (keeping its id) and leaves the edited one as it was. */
  lemma StaleEditOverwritesNeighbour(fa: Flight, fb: Flight, fc: Flight, fd: Flight, form: FormData, id: string)
    requires Validate(form).None?
    ensures var st := Step(Initial([fa, fb, fc, fd]), EditRow(2));
      var after := Step(Step(st, DeleteRow(0)), SubmitForm(form, id));
      after.flights == [fb, fc, Record(form, fd.id)]
  {
    var st := Step(Initial([fa, fb, fc, fd]), EditRow(2));
    assert st == AppState([fa, fb, fc, fd], 2, NoFilters, InitialSort) by {
      EditFromInitial([fa, fb, fc, fd], 2);
    }
    var st2 := Step(st, DeleteRow(0));
    assert st2 == AppState([fb, fc, fd], 2, NoFilters, InitialSort) by {
      DeleteFirstOfFour(fa, fb, fc, fd, 2);
    }
    var g := Record(form, fd.id);
    assert Step(st2, SubmitForm(form, id)).flights == [fb, fc, fd][2 := g] by {
      SubmitInEditSlot([fb, fc, fd], 2, form, id);
    }
    assert [fb, fc, fd][2 := g] == [fb, fc, g];
  }

  lemma EditFromInitial(flights: seq<Flight>, e: nat)
    ensures Step(Initial(flights), EditRow(e)) == AppState(flights, e, NoFilters, InitialSort)
    ensures StepCorrected(Initial(flights), EditRow(e)) == AppState(flights, e, NoFilters, InitialSort)
  {
  }

  lemma SubmitInEditSlot(flights: seq<Flight>, e: nat, form: FormData, id: string)
    requires Validate(form).None? && e < |flights|
    ensures var st := AppState(flights, e, NoFilters, InitialSort);
      && Step(st, SubmitForm(form, id)).flights == flights[e := Record(form, flights[e].id)]
      && StepCorrected(st, SubmitForm(form, id)).flights == flights[e := Record(form, flights[e].id)]
  {
  }

  lemma SubmitSecondOfThree(fb: Flight, fc: Flight, fd: Flight, form: FormData, id: string)
    requires Validate(form).None?
    ensures StepCorrected(AppState([fb, fc, fd], 1, NoFilters, InitialSort), SubmitForm(form, id)).flights
      == [fb, Record(form, fc.id), fd]
  {
    var g := Record(form, fc.id);
    SubmitInEditSlot([fb, fc, fd], 1, form, id);
    assert [fb, fc, fd][1 := g] == [fb, g, fd];
  }

  /** Deleting the first of four records, in both versions of the handler. */
  lemma DeleteFirstOfFour(fa: Flight, fb: Flight, fc: Flight, fd: Flight, e: int)
    ensures Step(AppState([fa, fb, fc, fd], e, NoFilters, InitialSort), DeleteRow(0))
      == AppState([fb, fc, fd], e, NoFilters, InitialSort)
    ensures e == 2 ==>
      StepCorrected(AppState([fa, fb, fc, fd], e, NoFilters, InitialSort), DeleteRow(0))
        == AppState([fb, fc, fd], 1, NoFilters, InitialSort)
  {
    assert [fa, fb, fc, fd][1..] == [fb, fc, fd];
  }

  /** With the corrected delete the same sequence updates the edited record. */
  lemma CorrectedEditUpdatesEditedRecord(fa: Flight, fb: Flight, fc: Flight, fd: Flight, form: FormData, id: string)
    requires Validate(form).None?
    ensures var st := StepCorrected(Initial([fa, fb, fc, fd]), EditRow(2));
      var after := StepCorrected(StepCorrected(st, DeleteRow(0)), SubmitForm(form, id));
      after.flights == [fb, Record(form, fc.id), fd]
  {
    var st := StepCorrected(Initial([fa, fb, fc, fd]), EditRow(2));
    assert st == AppState([fa, fb, fc, fd], 2, NoFilters, InitialSort) by {
      EditFromInitial([fa, fb, fc, fd], 2);
    }
    var st2 := StepCorrected(st, DeleteRow(0));
    assert st2 == AppState([fb, fc, fd], 1, NoFilters, InitialSort) by {
      DeleteFirstOfFour(fa, fb, fc, fd, 2);
    }
    assert StepCorrected(st2, SubmitForm(form, id)).flights == [fb, Record(form, fc.id), fd] by {
      SubmitSecondOfThree(fb, fc, fd, form, id);
    }
  }

  /** As written, deleting the record under edit leaves the slot on its old
      position. If that record was the last one, the slot now points past the
      store and the next submission fails; otherwise the slot names the record
      that moved into the gap, and the next submission overwrites it, keeping
      its id. */
  lemma StaleEditAfterDeletingEditedRecord(flights: seq<Flight>, e: nat, form: FormData, id: string)
    requires Validate(form).None? && e < |flights|
    ensures var st := Step(Step(Initial(flights), EditRow(e)), DeleteRow(e));
      var sub := Submit(st, form, id);
      && (e == |flights| - 1 ==> !EditTargetValid(st) && sub == Submission(st, Failed))
      && (e < |flights| - 1 ==>
            && sub.notice == Updated
            && sub.state.flights == flights[..e] + [Record(form, flights[e + 1].id)] + flights[e + 2..])
  {
    var rest := flights[..e] + flights[e + 1..];
    var st := Step(Step(Initial(flights), EditRow(e)), DeleteRow(e));
    assert st == AppState(rest, e, NoFilters, InitialSort) by {
      EditFromInitial(flights, e);
    }
    if e < |flights| - 1 {
      var g := Record(form, flights[e + 1].id);
      assert rest[e] == flights[e + 1];
      assert Submit(st, form, id).state.flights == rest[e := g] by {
        SubmitInEditSlot(rest, e, form, id);
      }
      assert rest[e := g] == flights[..e] + [g] + flights[e + 2..];
    }
  }

  /** `updateStatistics`. */
  datatype Stats = Stats(totalHours: real, totalFlights: nat, uniqueAirports: nat)

  /** The reduce over durations, first record first. */
  function TotalHours(flights: seq<Flight>): real
  {
    if |flights| == 0 then 0.0
    else TotalHours(flights[..|flights| - 1]) + flights[|flights| - 1].duration
  }

  /** Every departure and arrival code of the store. */
  function AirportCodes(flights: seq<Flight>): (r: set<string>)
    ensures |r| <= 2 * |flights|
    ensures |flights| > 0 ==> |r| >= 1
  {
    if |flights| == 0 then {}
    else
      var last := flights[|flights| - 1];
      var pair := {last.departure, last.arrival};
      var prev := AirportCodes(flights[..|flights| - 1]);
      assert |pair| <= 2;
      assert |prev + pair| <= |prev| + |pair|;
      assert last.departure in prev + pair;
      prev + pair
  }

  /** A code is counted exactly when some record departs from or arrives at it. */
  lemma {:induction false} AirportCodesMembers(flights: seq<Flight>, c: string)
    ensures c in AirportCodes(flights) <==>
      exists i :: 0 <= i < |flights| && (flights[i].departure == c || flights[i].arrival == c)
  {
    if |flights| > 0 {
      var p := flights[..|flights| - 1];
      AirportCodesMembers(p, c);
      if c in AirportCodes(p) {
        var i :| 0 <= i < |p| && (p[i].departure == c || p[i].arrival == c);
        assert flights[i] == p[i];
      }
      if exists i :: 0 <= i < |flights| && (flights[i].departure == c || flights[i].arrival == c) {
        var i :| 0 <= i < |flights| && (flights[i].departure == c || flights[i].arrival == c);
        if i < |p| {
          assert p[i] == flights[i];
        }
      }
    }
  }

  function Statistics(flights: seq<Flight>): (r: Stats)
    ensures r.totalFlights == |flights|
    ensures r.uniqueAirports <= 2 * |flights|
    ensures |flights| > 0 ==> r.uniqueAirports >= 1
    ensures |flights| == 0 ==> r == Stats(0.0, 0, 0)
  {
    Stats(TotalHours(flights), |flights|, |AirportCodes(flights)|)
  }

  /** Total hours add up over concatenation. */
  lemma {:induction false} TotalHoursAppend(a: seq<Flight>, b: seq<Flight>)
    ensures TotalHours(a + b) == TotalHours(a) + TotalHours(b)
    decreases |b|
  {
    if |b| > 0 {
      var b' := b[..|b| - 1];
      assert (a + b)[..|a + b| - 1] == a + b';
      assert (a + b)[|a + b| - 1] == b[|b| - 1];
      TotalHoursAppend(a, b');
    } else {
      assert a + b == a;
    }
  }

  /** Total hours of positive durations are positive for a non-empty store. */
  lemma {:induction false} TotalHoursPositive(flights: seq<Flight>)
    requires forall i :: 0 <= i < |flights| ==> flights[i].duration > 0.0
    ensures |flights| > 0 ==> TotalHours(flights) > 0.0
    ensures TotalHours(flights) >= 0.0
  {
    if |flights| > 0 {
      TotalHoursPositive(flights[..|flights| - 1]);
    }
  }

  /** Logging a flight adds one flight and its hours. */
  lemma StatisticsAfterLog(st: AppState, form: FormData, freshId: string)
    requires Validate(form).None? && st.editingIndex < 0
    ensures var s := Statistics(Submit(st, form, freshId).state.flights);
      s.totalFlights == |st.flights| + 1
      && s.totalHours == TotalHours(st.flights) + form.duration.value
      && s.uniqueAirports >= Statistics(st.flights).uniqueAirports
  {
    var r := Submit(st, form, freshId).state.flights;
    var f := Record(form, freshId);
    assert r == st.flights + [f];
    assert r[..|r| - 1] == st.flights;
    assert TotalHours(r) == TotalHours(st.flights) + f.duration;
    var a, b := AirportCodes(st.flights), {f.departure, f.arrival};
    assert AirportCodes(r) == a + b;
    assert a + b == (a - b) + (a * b) + (b - a);
    assert a == (a - b) + (a * b);
  }

  /** Deleting a flight takes its hours off the total. */
  lemma StatisticsAfterDelete(st: AppState, index: nat)
    requires index < |st.flights|
    ensures Statistics(Delete(st, index).flights).totalHours == TotalHours(st.flights) - st.flights[index].duration
    ensures Statistics(Delete(st, index).flights).totalFlights == |st.flights| - 1
  {
    var f := st.flights;
    assert f == f[..index] + ([f[index]] + f[index + 1..]);
    TotalHoursAppend(f[..index], [f[index]] + f[index + 1..]);
    TotalHoursAppend([f[index]], f[index + 1..]);
    TotalHoursAppend(f[..index], f[index + 1..]);
    assert TotalHours([f[index]]) == f[index].duration by {
      assert [f[index]][..0] == [];
    }
  }

  /** One flight JFK -> LAX of 5.5 hours: 5.5 hours, one flight, two airports. */
  lemma StatisticsOfOneFlight()
    ensures Statistics([Flight("1", "2024-03-02", 5.5, "JFK", "LAX", "B737", "Commercial", "")])
      == Stats(5.5, 1, 2)
  {
    var fl := [Flight("1", "2024-03-02", 5.5, "JFK", "LAX", "B737", "Commercial", "")];
    assert fl[..0] == [];
    assert AirportCodes(fl) == {"JFK", "LAX"};
  }
}
