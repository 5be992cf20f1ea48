# FlightLogger core, modelled in Dafny

FlightLogger is a single-page pilot logbook (`script.js`, one `FlightLogger`
class). Pilots log flights, filter and sort them in a table, export them as
CSV, and pick airports from an autocomplete backed by a static airport
directory. This project models the pure core of that class and proves its
behaviour. The core is the part left once the DOM, the map and storage are
stripped away.

| file | module | what it models |
|---|---|---|
| `text.dfy` | `Text` | ASCII `toLowerCase`/`toUpperCase`, `startsWith`, `includes`, and JavaScript's `<` on strings |
| `indices.dfy` | `Indices` | filtering a range of positions (`Array.prototype.filter` on positions) |
| `stable_sort.dfy` | `StableSort` | the stable comparator sort both the search and the table rely on |
| `option.dfy` | `Opt` | `Option` |
| `airports.dfy` | `Airports` | the directory object literal (`getAirportDatabase`) and the directory lookup of `getAirportCoordinates` |
| `search.dfy` | `Search` | `calculateAirportSearchScore` and `searchAirports` |
| `flights.dfy` | `Flights` | flight records, `getFilteredFlights`, `getSortedFlights`, `handleSort`, the filter option lists, `getFlightPathColor` |
| `store.dfy` | `Store` | `getFormData`, `validateForm`, `handleFlightSubmission`, `editFlight`, `cancelEdit`, `deleteFlight`, `updateStatistics` |
| `csv.dfy` | `Csv` | the text `exportFlights` builds, plus a reader for it |
| `autocomplete.dfy` | `Autocomplete` | `updateAirportDropdown`, `handleAirportDropdownNavigation`, `highlightAirportOption` |

Modelling conventions:
- Durations are exact `real`s.
- Dates are ISO `YYYY-MM-DD` strings. Their month is the first seven characters, and chronological order is string order.
- Case mapping is ASCII.
- The id of a new flight (`Date.now()` in the source) is a parameter.
- The table and the search results are sequences of positions, into the store and the directory respectively. So "each row's index names the record shown" is a statement about positions.
- `this.flights.indexOf(flight)` compares objects by identity; records here are values, so `IndexOfFlight` finds the first equal record. The two agree whenever ids are pairwise different, which is the premise of `Flights.RowIndexNamesRecord`.
- Definitions that model source code without a contract of their own, each characterised by the lemmas about it:
  - `Flights.Passes` is the callback of `getFilteredFlights` (script.js:307-332). See `FilteredPositions`, `FiltersCompose` and the route-filter lemmas.
  - `Flights.ColumnKey` is the comparator's `switch` (script.js:705-731). `date` compares the ISO text, `route` compares `departure-arrival`, aircraft, type and notes compare lower-cased, duration compares the number, and any other column gives `NoKey`, so every pair compares equal. See `DateKey`, `DurationKey`, `TextColumnsIgnoreCase` and `UnknownColumnKeepsOrder`.
  - `Store.TotalHours` is the `reduce` at script.js:191. See `TotalHoursAppend` and `TotalHoursPositive`.
  - `Store.Step` dispatches the handlers bound at script.js:61-117 and the row buttons at script.js:241-245. See `CorrectedStepKeepsEditValid` and the scenario lemmas.
  - `Autocomplete.Handle` dispatches the input, focus, blur, keydown and option-click listeners at script.js:568-662. See `HandleKeepsWellFormed`, `CommitsDirectoryCode` and `HiddenIgnoresKeys`.
- The search ranking and the table sort are both instances of one stable insertion sort over positions, keyed by the score or by the column. The filter option lists (`[...new Set(xs)].sort()`) are modelled separately, as sorted insertion without duplicates (`Flights.DistinctSorted`).
- The directory is a sequence of entries in `Object.entries` order. `ObjectLiteral` builds it from the literal's writes with JavaScript's rules for keys that are neither array indices nor `__proto__`, as every key of this literal is: a key written twice keeps its first position and takes its last value. `DirMap` is the directory's key → airport map.

Deleting a record is evidently meant to end the edit of that record and to keep any other edit on its record. The code (`deleteFlight`, script.js:404-414) leaves `editingIndex` as it was. The model follows the code and adds the corrected delete alongside; see "Findings".

## Model

| member | source | states |
|---|---|---|
| Text.ToLower | script.js:512-536 | lower-casing keeps the length, turns each capital into the small letter whose capital it is, and keeps every other character |
| Text.ToUpper | script.js:155-156 | upper-casing keeps the length, turns each small letter into its capital, and keeps every other character |
| Text.CaseRoundTrip | script.js:155-156 | upper-casing then lower-casing gives the lower-cased text, and lower-casing then upper-casing gives the upper-cased text |
| Text.ToLowerIdempotent | script.js:512-536 | lower-casing the already lower-cased search term changes nothing |
| Text.StartsWithContains | script.js:540-546 | a prefix of the code is also contained in it, so a code-prefix hit also earns the contains bonus |
| Text.ContainsAt | script.js:545-554 | `includes` holds exactly when the term occurs at some offset, in both directions |
| Text.ContainsShorter | script.js:545-554 | a term longer than the text never occurs in it |
| Text.StrLtIrreflexive | script.js:733-734 | no string is below itself under `<` |
| Text.StrLtTransitive | script.js:733-734 | string `<` is transitive |
| Text.StrLtTotal | script.js:733-734 | two different strings are ordered one way or the other |
| Indices.Where | script.js:308-331 | the kept positions are in increasing order and below n, every kept position passes the test, and every passing position is kept |
| Indices.WhereAll | script.js:308-331 | when every position passes, the filter keeps 0..n-1 in order |
| StableSort.KeyLtIrreflexive | script.js:733-734 | no sort key is below itself |
| StableSort.KeyLtTransitive | script.js:733-734 | the key order is transitive |
| StableSort.KeyLtTotal | script.js:733-734 | two different keys are ordered one way or the other |
| StableSort.BeforeIrreflexive | script.js:733-736 | the comparator never puts an element before itself |
| StableSort.BeforeAsymmetric | script.js:733-736 | if a goes before b then b does not go before a, in either direction |
| StableSort.NotBeforeTransitive | script.js:733-736 | "not after" is transitive, so a sorted result is sorted pairwise |
| StableSort.Insert | script.js:702 | inserting adds exactly the element, as a multiset |
| StableSort.SortBy | script.js:702 | the sort returns a new sequence with the same elements (a permutation) |
| StableSort.InsertSorted | script.js:733-736 | inserting into a sorted sequence keeps it sorted |
| StableSort.SortBySorted | script.js:733-736 | the result is ordered by the key in the requested direction |
| StableSort.InsertStable | script.js:736 | inserting a smaller index keeps equal keys in index order |
| StableSort.SortByStable | script.js:733-736 | elements with equal keys keep their input order |
| StableSort.SortByUnordered | script.js:730-731 | when the comparator answers 0 for every pair, the result is the input unchanged |
| Airports.DirMapEntries | script.js:741-897 | with distinct codes, the map holds exactly the directory's codes, each with its entry's airport |
| Airports.IndexOf | script.js:772-795 | the position found holds the code; None means no entry has the code |
| Airports.Define | script.js:772-795 | a new key is appended; an existing key keeps its position and takes the new value; codes stay distinct |
| Airports.DefineMap | script.js:772-795 | defining a key updates the map view at that key and nowhere else |
| Airports.ReplaceMap | script.js:795 | replacing the value at a position updates the map at that position's code |
| Airports.ObjectLiteral | script.js:741-897 | the evaluated literal has distinct keys |
| Airports.ObjectLiteralLastWins | script.js:741-897 | the literal maps each written key to the value written last for it |
| Airports.RepeatedKeyAddsNothing | script.js:772-795 | writing a key a second time adds no entry |
| Airports.DirMapHasWritten | script.js:741-897 | every written key is a key of the map |
| Airports.FiveWritesOneRepeated | script.js:772-797 | five writes whose third repeats the first key evaluate to four entries: the repeat replaces the first entry's value in place |
| Airports.HoustonDirectory | script.js:772-797 | in the Houston excerpt, the second KIAH leaves one KIAH entry, at its first place |
| Airports.CleanCode | script.js:487 | cleaning keeps only A-Z and 0-9, is the identity on clean codes, and never lengthens |
| Airports.CleanCodeOne | script.js:487 | a single character is kept exactly when it is A-Z or 0-9 |
| Airports.CleanCodeAppend | script.js:487 | cleaning works character by character: the cleaned parts of a text, in order, make up the cleaned text, so every code character is kept in place |
| Airports.CleanCodeIdempotent | script.js:487 | cleaning twice is cleaning once |
| Airports.DirectoryCoords | script.js:487-491 | the lookup succeeds exactly when the cleaned code is a directory key, and then gives that entry's coordinates |
| Airports.ResolveCoords | script.js:485-506 | the directory answer wins, then a successful geocoding answer, then the fixed fallback (39.8283, -98.5795) |
| Airports.DirectoryCoordsIgnoresNoise | script.js:487-491 | a code and its cleaned form resolve alike |
| Search.Score | script.js:532-557 | the score lies in 0..1150; an exact case-insensitive code match scores 1000; otherwise a code prefix scores at least 700 and a city prefix at least 400; the score is 0 exactly when the term is in none of code, city and name |
| Search.NameOnlyScores50 | script.js:553-554 | a term found only in the name scores 50 |
| Search.ExactMatchCanBeOutranked | script.js:538-556 | an exact match scores 1000 while a non-exact entry can score 1150, so an exact match is not always ranked first |
| Search.HitsExactly | script.js:515-524 | the hits are the positions scoring above 0, each once, in directory order |
| Search.Ranked | script.js:526-527 | the ranked hits are a permutation of the hits, all in the directory and scoring above 0 |
| Search.RankedOrdered | script.js:526-527 | ranked hits are in non-increasing score order |
| Search.SearchPositions | script.js:509-528 | every result position names a directory entry |
| Search.SearchAirports | script.js:515-528 | at most ten results, each a directory entry reported with its own score for the lower-cased query, which is above 0 |
| Search.SearchRanking | script.js:509-529 | an empty query gives []; there are at most 10 results; each is a directory entry scoring above 0 with its score; scores do not increase; a left-out hit means 10 results were shown, none scoring below it |
| Search.SearchResultsDescend | script.js:526-527 | the results of a non-empty query are listed by non-increasing score |
| Search.SearchOmitsOnlyWeaker | script.js:526-528 | a hit left out of the results means ten results were shown and the last of them scores at least as much |
| Search.SearchTiesInDirectoryOrder | script.js:515-527 | results with equal scores keep directory order |
| Search.SearchOffersAllFewHits | script.js:526-528 | with at most 10 hits, every hit is offered |
| Search.SearchTopIsBest | script.js:526-528 | the first result scores at least as much as any entry of the directory |
| Flights.FilteredPositions | script.js:307-332 | the filter keeps records in store order, each once, and a record is kept exactly when the month, aircraft and route tests all pass |
| Flights.IndexOfFlight | script.js:222 | `indexOf` finds the first position holding the record, and None exactly when no position holds it |
| Flights.RowIndexNamesRecord | script.js:241-247 | with pairwise-different ids, the index written into row k of any view is the store position that row's record comes from |
| Flights.IndexOfUnique | script.js:241-244 | with pairwise-different ids, `indexOf` finds each record at its own store position |
| Flights.TableRowIndices | script.js:221-247 | every row of the rendered table carries the store position of the record it shows, so its edit, delete and map buttons act on that record |
| Flights.FiltersCompose | script.js:307-332 | a record passes the three filters together exactly when it passes each one set on its own |
| Flights.NoFiltersShowAll | script.js:307-332 | with every filter empty the whole store is shown, in order |
| Flights.RouteFilterSymmetric | script.js:321-327 | a flight and its return leg pass or fail the route filter together |
| Flights.RouteFilterFindsEitherEnd | script.js:321-327 | filtering on a code finds flights departing from it and flights arriving at it |
| Flights.RouteFilterExcludesOthers | script.js:321-327 | a flight whose route text in neither direction contains the filter is hidden |
| Flights.HandleSort | script.js:672-682 | clicking the active column flips its direction; another column becomes active, ascending |
| Flights.HandleSortTwice | script.js:673-674 | clicking the active column twice restores the sort |
| Flights.SortedPositions | script.js:701-738 | the sorted view is a permutation of its input |
| Flights.TableView | script.js:204-207 | the table rows are a permutation of the filtered positions, each naming a record that passes the filters |
| Flights.TableViewSpec | script.js:204-247 | every passing record is shown exactly once and no other record is; rows are sorted by the column and direction; equal keys keep store order |
| Flights.DurationSortAscending | script.js:719-736 | sorting by duration ascending lists durations shortest first |
| Flights.InitialSortNewestFirst | script.js:706-709 | the initial sort shows the newest date first |
| Flights.UnknownColumnKeepsOrder | script.js:730-731 | an unknown sort column leaves the filtered order unchanged |
| Flights.TextColumnsIgnoreCase | script.js:714-729 | aircraft, type and notes give two records the same sort key exactly when the field is the same once lower-cased |
| Flights.AircraftSortIgnoresCase | script.js:714-717 | sorting by aircraft in either direction keeps in store order the rows whose aircraft differ only in case |
| Flights.InsertDistinct | script.js:358-368 | adding a value to a strictly sorted option list keeps it strictly sorted, and the list then holds exactly the old values and the new one |
| Flights.DistinctSorted | script.js:358-368 | `[...new Set(xs)].sort()` is strictly ascending and holds exactly the values of xs |
| Flights.StrictlySortedDistinct | script.js:358-368 | an option list never repeats a value |
| Flights.MonthOptions | script.js:358 | the month options are every month that has a flight, each once, ascending |
| Flights.AircraftOptions | script.js:368 | the aircraft options are every aircraft that has a flight, each once, ascending |
| Flights.MonthOptionNeverEmpty | script.js:311-312 | choosing an offered month keeps at least one flight in the table |
| Flights.PathColour | script.js:977-985 | Training, Commercial, Personal and Cross Country each have their own colour, and any other type is grey, in both directions |
| Store.ReadForm | script.js:151-161 | departure and arrival hold no small letter, keep their length and equal the typed text up to case; every other field is taken as typed |
| Store.Validate | script.js:164-176 | the form is accepted exactly when every required field is filled and the duration is a number above 0; a filled form with a negative duration is reported as non-positive |
| Store.Record | script.js:131-137 | the new record holds the form's fields and the given id |
| Store.Submit | script.js:122-140 | a rejected form changes nothing; an edit replaces the edited record, keeping its id, length and other records, and ends the edit; an edit slot past the store fails and changes nothing; otherwise the record is appended with the fresh id and earlier records are kept |
| Store.BeginEdit | script.js:384-386 | editing sets the edit slot and changes nothing else |
| Store.CancelEdit | script.js:417-418 | cancelling empties the edit slot and changes nothing else |
| Store.Delete | script.js:404-406 | delete removes exactly the record at the index, keeps the others in order, and leaves the edit slot as it was; an index past the store changes nothing |
| Store.SubmitKeepsIdsUnique | script.js:131-137 | with a fresh id, ids stay pairwise different |
| Store.DeleteRemovesId | script.js:406 | after a delete, the deleted id is gone and ids stay pairwise different |
| Store.DeleteAdjustingEdit | script.js:404-406 | the corrected delete: deleting the edited record ends the edit, and otherwise the slot follows its record |
| Store.CorrectedStepKeepsEditValid | script.js:384-421 | with the corrected delete, every offered action keeps the edit slot on a record or empty |
| Store.StaleEditOverwritesNeighbour | script.js:384-406 | as written: edit the third of four records, delete the first, and submit; the fourth record is overwritten and the edited one is left unchanged |
| Store.CorrectedEditUpdatesEditedRecord | script.js:384-406 | with the corrected delete, the same sequence updates the edited record |
| Store.StaleEditAfterDeletingEditedRecord | script.js:384-406 | as written, deleting the record under edit keeps the slot on its position: for the last record the next submission fails; otherwise it overwrites the record that moved into the gap, keeping that record's id |
| Store.AirportCodes | script.js:193-196 | the set of codes has at most two per flight, and at least one when the store is not empty |
| Store.AirportCodesMembers | script.js:193-196 | a code is in the set exactly when some flight departs from or arrives at it |
| Store.Statistics | script.js:190-196 | the flight count is the store's length; unique airports are between 1 and 2·n for a non-empty store; an empty store gives 0, 0, 0 |
| Store.TotalHoursAppend | script.js:191 | total hours add up over concatenation |
| Store.TotalHoursPositive | script.js:190-191 | validated durations give a positive total for a non-empty store |
| Store.StatisticsAfterLog | script.js:190-196 | logging a flight adds one flight and its hours, and never lowers the airport count |
| Store.StatisticsAfterDelete | script.js:190-196 | deleting a flight removes one flight and its hours |
| Store.StatisticsOfOneFlight | script.js:190-196 | a single 5.5 h JFK→LAX flight gives 5.5 hours, 1 flight, 2 airports |
| Csv.Escape | script.js:469 | doubling quotes never shortens the text, and a leading quote becomes two |
| Csv.EscapeNoQuote | script.js:469 | text without quotes is written as it is |
| Csv.ReadBare | script.js:463-468 | a bare field is read up to the first comma or line break |
| Csv.ReadQuotedEscape | script.js:469 | undoubling the escaped text and stripping the quotes gives the notes back |
| Csv.ReadBarePlain | script.js:463-468 | a bare value without separators is read back as it is |
| Csv.ReadFieldBare | script.js:463-468 | a bare field without quotes or separators is read back |
| Csv.ReadFieldQuoted | script.js:469 | an escaped, quoted field is read back whatever it holds |
| Csv.ReadFieldCell | script.js:463-469 | every safe cell is read back as its value |
| Csv.ParseRecordCells | script.js:462-470 | a line of safe cells is read back as the cells' values |
| Csv.ParseTable | script.js:460-471 | lines of safe cells joined by line breaks are read back line for line |
| Csv.RowCells | script.js:462-470 | the row holds date, departure, arrival, aircraft, type, hours and notes, in that order |
| Csv.RowCellsEscaped | script.js:462-470 | the corrected row, with codes, aircraft and type escaped, holds the same seven values in the same order |
| Csv.Export | script.js:453-471 | there is no export exactly when the store is empty |
| Csv.ExportEscaped | script.js:453-471 | the corrected export exists exactly when the store is not empty |
| Csv.ExportRoundTrip | script.js:453-471 | read back, the export gives the header names, then each record's seven fields in store order, provided the bare fields hold no separator or quote and aircraft and type hold no quote |
| Csv.ExportEscapedRoundTrip | script.js:453-471 | the corrected export reads back field for field whatever codes, aircraft, type and notes hold, given that dates and printed hours hold no quote, comma or line break |
| Csv.UnescapedAircraftSplitsRow | script.js:466-467 | as written, the aircraft `A","B` reads back as eight fields, with aircraft "A" and "B" in the type column |
| Csv.BareCodeSplitsRow | script.js:464-465 | as written, the departure `A,B` reads back as eight fields, with departure "A" and "B" in the arrival column |
| Csv.CellSplits | script.js:462-470 | a cell whose text is two cells' texts joined by a comma writes the same line as those two cells |
| Csv.EscapedRowRoundTrip | script.js:462-470 | the corrected row reads back as the record's seven fields whatever the typed fields hold |
| Autocomplete.Refresh | script.js:597-617 | no result hides the dropdown and leaves its old options; otherwise the results are shown with the first highlighted |
| Autocomplete.Highlight | script.js:665-669 | the option at the index is highlighted; an index naming no option highlights none |
| Autocomplete.Navigate | script.js:630-662 | a hidden dropdown ignores keys; Enter copies the highlighted code and closes; Escape closes; the arrows keep the dropdown and the input |
| Autocomplete.ResultsFromDirectory | script.js:509-529 | the dropdown offers at most ten entries, each from the directory |
| Autocomplete.HandleKeepsWellFormed | script.js:569-662 | every event keeps a shown dropdown holding 1 to 10 directory entries, one of them highlighted |
| Autocomplete.CommitsDirectoryCode | script.js:620-656 | Enter and a mouse pick put a directory code into the input and close the dropdown |
| Autocomplete.HiddenIgnoresKeys | script.js:631 | keys change nothing while the dropdown is hidden |
| Autocomplete.ArrowsClamp | script.js:638-648 | ArrowDown moves one down and stops at the last option; ArrowUp moves one up and stops at the first |
| Autocomplete.DownsReachLast | script.js:638-642 | k presses of ArrowDown from h highlight option min(h + k, n - 1) |
| Autocomplete.UpUndoesDown | script.js:638-648 | ArrowUp undoes ArrowDown except on the last option |
| Autocomplete.TypeThenEnterTakesTopResult | script.js:570-656 | typing a query with results and pressing Enter takes the top-ranked code |
| Autocomplete.TypeWithoutResultsHides | script.js:598-603 | a query without results hides the dropdown and keeps the typed text |

## Left out

- The Leaflet map (script.js:47-56, 900-1005). It drives a foreign library. Only the colour choice, `PathColour`, is modelled.
- The Nominatim lookup in `getAirportCoordinates` (script.js:494-502). It is network I/O; its answer is the `geocoded` parameter of `ResolveCoords`.
- localStorage loading and saving (script.js:4, 184-187). `Initial` takes the stored records as given. Saving does not change the application state.
- DOM rendering, messages, the modal, scrolling, the cancel button and form resets (script.js:204-258, 423-450). These are presentation.
- `toFixed`, `toLocaleDateString`, `formatDate` and JavaScript's printing of numbers. These are float and locale formatting. The CSV hours text is the parameter `numberText`.
- `parseFloat` of the duration field. Its result is `Option<real>`, where None stands for NaN.
- `new Date(date)` parsing. Dates are taken to be ISO strings, whose month is their first seven characters. A date `new Date` rejects makes `toISOString` throw; the model does not cover that. The date column compares `Date` objects, which for ISO dates is the string order the model uses.
- `Date.now()` ids. The id is a parameter, and its freshness is a precondition of `Store.SubmitKeepsIdsUnique`.
- The `confirm()` dialog. Only the confirmed branch of `deleteFlight` is modelled; the other branch changes nothing.
- The Blob, object URL and download link of `exportFlights` (script.js:473-481).
- `(flight.notes || '')`. Notes are always strings in the model.
- The typing debounce, the blur delay and the mouse's refocus of the input (script.js:568-588, 624). Each event takes effect at once.
- The full airport list (script.js:741-897). Only the Houston excerpt is transcribed. The search and lookup lemmas hold for every directory.
- Non-ASCII case mapping and UTF-16 code units. Characters are Dafny `char`s and only A-Z and a-z change case.
- Flights.PathColour: does not model that `colors[type]` also finds members inherited from Object.prototype (a type named `constructor` would give a function, not grey), because the application only offers the four listed types.
- Search.Score: states the bounds, the exact-match value, the prefix floors and the zero case, not the exact total of each combination of bonuses.
- Store.Submit: an edit slot past the end of the store makes the source throw a TypeError; the model reports `Failed` with the state unchanged, which is what remains once the exception has unwound.

## Findings

| source | as written | input that shows it | evidently intended | confidence | as-written member | corrected member |
|---|---|---|---|---|---|---|
| script.js:404-406 | `deleteFlight` removes the record but leaves `editingIndex` as it was | edit the third of four records, delete the first, submit: the fourth record is overwritten (keeping its id) and the edited one is unchanged; deleting the last record while it is under edit leaves the slot past the end and the next submit throws; deleting any other record under edit makes the next submit overwrite the record after it | a delete ends the edit of the deleted record and moves the slot down with its record when an earlier one goes | medium, not executed | Store.StaleEditOverwritesNeighbour | Store.CorrectedStepKeepsEditValid |
| script.js:466-467 | aircraft and type are wrapped in quotes without doubling the quotes inside them, unlike the notes | the aircraft `A","B` reads back as eight fields: aircraft "A", type "B", every later column shifted | escape aircraft and type like the notes | medium, not executed | Csv.UnescapedAircraftSplitsRow | Csv.ExportEscapedRoundTrip |
| script.js:464-465 | departure and arrival are written bare, although they are free text that is only upper-cased | the departure `a,b` (stored as `A,B`) reads back as eight fields: departure "A", arrival "B", every later column shifted | quote and escape the codes like the notes | medium, not executed | Csv.BareCodeSplitsRow | Csv.ExportEscapedRoundTrip |

The as-written `Store.Delete` and `Store.Step` stay in the model, together with the scenario `Store.StaleEditAfterDeletingEditedRecord`. The corrected delete is `Store.DeleteAdjustingEdit`, and `Store.StepCorrected` uses it; `Store.CorrectedEditUpdatesEditedRecord` replays the first finding's scenario with it. For the export, `Csv.Export` is the text as written, and `Csv.ExportRoundTrip` states what it does guarantee. `Csv.ExportEscaped` is the corrected text: it quotes and escapes every typed field, so only the date (an ISO date) and the printed hours stay bare.
