/**
 The airport autocomplete attached to the departure and arrival inputs
 (script.js:560-670): typing or focusing refreshes a dropdown of search
 results with the first one highlighted; ArrowDown and ArrowUp move the
 highlight and stop at the ends; Enter copies the highlighted code into the
 input and closes; Escape closes; choosing an option with the mouse does
 the same as Enter on it. Keys reach the dropdown only while it is shown.

 The 150 ms debounce of typing and the 200 ms delay before a blur hides the
 dropdown are collapsed: each event takes effect at once.
 */
module Autocomplete {
  import opened Airports
  import opened Search

  /** What the page shows: whether the dropdown is displayed, the options it
      holds (kept while hidden), the highlighted option (-1: none) and the
      input's text. */
  datatype Dropdown = Dropdown(visible: bool, options: seq<Match>, highlighted: int, input: string)

  /** A shown dropdown holds between one and ten directory entries with one
      of them highlighted. */
  predicate WellFormed(dd: Dropdown, d: Directory)
  {
    && (dd.visible ==> 0 < |dd.options| <= MaxResults && 0 <= dd.highlighted < |dd.options|)
    && (forall k :: 0 <= k < |dd.options| ==> Entry(dd.options[k].code, dd.options[k].airport) in d)
  }

  /** `updateAirportDropdown(query)`: no result hides the dropdown (its old
      options stay behind); otherwise the results replace the options and the
      first is highlighted. */
  function Refresh(dd: Dropdown, d: Directory, query: string): (r: Dropdown)
    ensures r.input == dd.input
    ensures r.visible <==> SearchAirports(d, query) != []
    ensures r.visible ==> r.options == SearchAirports(d, query) && r.highlighted == 0
    ensures !r.visible ==> r == dd.(visible := false)
  {
    var results := SearchAirports(d, query);
    if results == [] then dd.(visible := false)
    else Dropdown(true, results, 0, dd.input)
  }

  /** `highlightAirportOption(options, index)`: exactly the option at `index`
      carries the highlight, none when the index names no option. */
  function Highlight(dd: Dropdown, index: int): (r: Dropdown)
    ensures r.visible == dd.visible && r.options == dd.options && r.input == dd.input
    ensures 0 <= index < |dd.options| ==> r.highlighted == index
    ensures !(0 <= index < |dd.options|) ==> r.highlighted == -1
  {
    dd.(highlighted := if 0 <= index < |dd.options| then index else -1)
  }

  datatype KeyPress = ArrowDown | ArrowUp | Enter | Escape | OtherKey

  function Min(a: int, b: int): int { if a <= b then a else b }

  function Max(a: int, b: int): int { if a >= b then a else b }

  /** `handleAirportDropdownNavigation`. */
  function Navigate(dd: Dropdown, key: KeyPress): (r: Dropdown)
    ensures !dd.visible ==> r == dd
    ensures r.options == dd.options
    ensures dd.visible && key == Enter && 0 <= dd.highlighted < |dd.options| ==>
      r.input == dd.options[dd.highlighted].code && !r.visible
    ensures dd.visible && key == Escape ==> !r.visible && r.input == dd.input
    ensures key == ArrowDown || key == ArrowUp || key == OtherKey ==> r.visible == dd.visible && r.input == dd.input
  {
    if !dd.visible then dd
    else
      var n := |dd.options|;
      match key
      case ArrowDown => Highlight(dd, Min(dd.highlighted + 1, n - 1))
      case ArrowUp => Highlight(dd, Max(dd.highlighted - 1, 0))
      case Enter =>
        if 0 <= dd.highlighted < n then
          dd.(input := dd.options[dd.highlighted].code, visible := false)
        else dd
      case Escape => dd.(visible := false)
      case OtherKey => dd
  }

  /** The events of one input field. */
  datatype Event =
    | Typed(text: string)
    | Focused
    | Blurred
    | Pressed(key: KeyPress)
    | Picked(index: nat)

  /** A mouse pick is possible only on a shown option. */
  predicate Possible(dd: Dropdown, e: Event)
  {
    e.Picked? ==> dd.visible && e.index < |dd.options|
  }

  function Handle(dd: Dropdown, d: Directory, e: Event): Dropdown
  {
    match e
    case Typed(text) => Refresh(dd.(input := text), d, text)
    case Focused => if |dd.input| > 0 then Refresh(dd, d, dd.input) else dd
    case Blurred => dd.(visible := false)
    case Pressed(key) => Navigate(dd, key)
    case Picked(i) =>
      if i < |dd.options| then dd.(input := dd.options[i].code, visible := false) else dd
  }

  /** Every search result is a directory entry. */
  lemma ResultsFromDirectory(d: Directory, query: string)
    ensures 0 <= |SearchAirports(d, query)| <= MaxResults
    ensures forall k :: 0 <= k < |SearchAirports(d, query)| ==>
      Entry(SearchAirports(d, query)[k].code, SearchAirports(d, query)[k].airport) in d
  {
    SearchRanking(d, query);
    var r := SearchAirports(d, query);
    forall k | 0 <= k < |r|
      ensures Entry(r[k].code, r[k].airport) in d
    {
      assert r[k] in r;
    }
  }

  /** Every event keeps the dropdown well formed: when shown, exactly one of
      at most ten directory entries is highlighted. */
  lemma HandleKeepsWellFormed(dd: Dropdown, d: Directory, e: Event)
    requires WellFormed(dd, d)
    ensures WellFormed(Handle(dd, d, e), d)
  {
    match e
    case Typed(text) => ResultsFromDirectory(d, text);
    case Focused => ResultsFromDirectory(d, dd.input);
    case Blurred =>
    case Pressed(key) =>
    case Picked(i) =>
  }

  /** Enter and a mouse pick copy a directory code into the input and close
      the dropdown. */
  lemma CommitsDirectoryCode(dd: Dropdown, d: Directory, e: Event)
    requires WellFormed(dd, d) && dd.visible && Possible(dd, e)
    requires e == Pressed(Enter) || e.Picked?
    ensures var r := Handle(dd, d, e);
      !r.visible && exists a :: Entry(r.input, a) in d
  {
    var k := if e.Picked? then e.index else dd.highlighted;
    assert Entry(dd.options[k].code, dd.options[k].airport) in d;
  }

  /** While the dropdown is hidden, keys change nothing. */
  lemma HiddenIgnoresKeys(dd: Dropdown, d: Directory, key: KeyPress)
    requires !dd.visible
    ensures Handle(dd, d, Pressed(key)) == dd
  {
  }

  /** ArrowDown moves the highlight one down and stays on the last option;
      ArrowUp moves it one up and stays on the first. */
  lemma ArrowsClamp(dd: Dropdown, d: Directory)
    requires WellFormed(dd, d) && dd.visible
    ensures var n, h := |dd.options|, dd.highlighted;
      && Navigate(dd, ArrowDown).highlighted == (if h < n - 1 then h + 1 else n - 1)
      && Navigate(dd, ArrowUp).highlighted == (if h > 0 then h - 1 else 0)
  {
  }

  /** ArrowDown pressed `times` times. */
  function Downs(dd: Dropdown, times: nat): Dropdown
  {
    if times == 0 then dd else Navigate(Downs(dd, times - 1), ArrowDown)
  }

  /** From highlight h, k presses of ArrowDown highlight option min(h + k, n - 1). */
  lemma {:induction false} DownsReachLast(dd: Dropdown, d: Directory, times: nat)
    requires WellFormed(dd, d) && dd.visible
    ensures var r := Downs(dd, times);
      && r.visible && r.options == dd.options && r.input == dd.input
      && r.highlighted == Min(dd.highlighted + times, |dd.options| - 1)
  {
    if times > 0 {
      DownsReachLast(dd, d, times - 1);
    }
  }

  /** ArrowUp undoes ArrowDown except on the last option. */
  lemma UpUndoesDown(dd: Dropdown, d: Directory)
    requires WellFormed(dd, d) && dd.visible && dd.highlighted < |dd.options| - 1
    ensures Navigate(Navigate(dd, ArrowDown), ArrowUp) == dd
  {
  }

  /** Typing a query with results shows them with the best one highlighted, so
      Enter right away takes the top-ranked code. */
  lemma TypeThenEnterTakesTopResult(dd: Dropdown, d: Directory, text: string)
    requires SearchAirports(d, text) != []
    ensures var r := Handle(Handle(dd, d, Typed(text)), d, Pressed(Enter));
      !r.visible && r.input == SearchAirports(d, text)[0].code
  {
  }

  /** Typing a query without results hides the dropdown and keeps the text. */
  lemma TypeWithoutResultsHides(dd: Dropdown, d: Directory, text: string)
    requires SearchAirports(d, text) == []
    ensures var r := Handle(dd, d, Typed(text));
      !r.visible && r.input == text && r.options == dd.options
  {
  }
}
