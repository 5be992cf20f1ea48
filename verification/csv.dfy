/**
 The CSV text `exportFlights` builds (script.js:452-471): a header line and
 one line per record, fields joined by commas and lines by "\n". Notes are
 wrapped in quotes with every quote doubled; aircraft and type are wrapped
 in quotes as they are; the other fields are written bare.

 The partner of the writer is a reader for the same dialect (a quoted field
 ends at a lone quote and a doubled quote stands for one; a bare field ends
 at a comma or a line break). The round-trip lemmas say which records the
 written text gives back field for field.
 */
module Csv {
  import opened Opt
  import opened Flights

  /** `v.replace(/"/g, '""')`. */
  function Escape(v: string): (r: string)
    ensures |r| >= |v|
    ensures |v| > 0 && v[0] == '"' ==> |r| >= 2 && r[..2] == "\"\""
  {
    if |v| == 0 then ""
    else if v[0] == '"' then "\"\"" + Escape(v[1..])
    else [v[0]] + Escape(v[1..])
  }

  predicate NoQuote(v: string)
  {
    forall k :: 0 <= k < |v| ==> v[k] != '"'
  }

  predicate NoSeparator(v: string)
  {
    forall k :: 0 <= k < |v| ==> v[k] != ',' && v[k] != '\n'
  }

  /** Text without quotes needs no escaping. */
  lemma {:induction false} EscapeNoQuote(v: string)
    requires NoQuote(v)
    ensures Escape(v) == v
  {
    if |v| > 0 {
      EscapeNoQuote(v[1..]);
      assert v == [v[0]] + v[1..];
    }
  }

  /** How a field is written: bare, wrapped in quotes as it is, or wrapped in
      quotes with its quotes doubled. */
  datatype Cell = Plain(v: string) | Wrapped(v: string) | Quoted(v: string)

  function Render(c: Cell): string
  {
    match c
    case Plain(v) => v
    case Wrapped(v) => "\"" + v + "\""
    case Quoted(v) => "\"" + Escape(v) + "\""
  }

  /** A cell the reader gives back unchanged: a bare field holds no quote,
      comma or line break, a wrapped field no quote; an escaped field may hold
      anything. */
  predicate Safe(c: Cell)
  {
    match c
    case Plain(v) => NoQuote(v) && NoSeparator(v)
    case Wrapped(v) => NoQuote(v)
    case Quoted(_) => true
  }

  function Renders(cells: seq<Cell>): (r: seq<string>)
    ensures |r| == |cells|
  {
    if |cells| == 0 then [] else [Render(cells[0])] + Renders(cells[1..])
  }

  function Values(cells: seq<Cell>): (r: seq<string>)
    ensures |r| == |cells|
    ensures forall i :: 0 <= i < |cells| ==> r[i] == cells[i].v
  {
    if |cells| == 0 then [] else [cells[0].v] + Values(cells[1..])
  }

  /** `parts.join(sep)`. */
  function Join(parts: seq<string>, sep: char): (r: string)
    ensures |parts| == 1 ==> r == parts[0]
  {
    if |parts| == 0 then ""
    else if |parts| == 1 then parts[0]
    else parts[0] + [sep] + Join(parts[1..], sep)
  }

  function JoinCells(cells: seq<Cell>): string
  {
    Join(Renders(cells), ',')
  }

  lemma JoinCellsCons(c: Cell, cells: seq<Cell>)
    requires |cells| > 0
    ensures JoinCells([c] + cells) == Render(c) + "," + JoinCells(cells)
  {
    assert ([c] + cells)[1..] == cells;
  }

  /** One line per row of cells. */
  function Lines(rows: seq<seq<Cell>>): (r: seq<string>)
    ensures |r| == |rows|
  {
    if |rows| == 0 then [] else [JoinCells(rows[0])] + Lines(rows[1..])
  }

  function Table(rows: seq<seq<Cell>>): string
  {
    Join(Lines(rows), '\n')
  }

  /** The values a table of cells stands for. */
  function TableValues(rows: seq<seq<Cell>>): (r: seq<seq<string>>)
    ensures |r| == |rows|
    ensures forall i :: 0 <= i < |rows| ==> r[i] == Values(rows[i])
  {
    if |rows| == 0 then [] else [Values(rows[0])] + TableValues(rows[1..])
  }

  // ---------------------------------------------------------------- reader

  /** The body of a quoted field, after its opening quote: up to the first
      lone quote, a doubled quote standing for one. Gives the value and the
      text after the closing quote; None when the text ends inside the field. */
  function ReadQuoted(s: string): (r: Option<(string, string)>)
    ensures r.Some? ==> |r.value.1| < |s|
  {
    if |s| == 0 then None
    else if s[0] == '"' then
      if |s| >= 2 && s[1] == '"' then
        match ReadQuoted(s[2..])
        case None => None
        case Some((v, rest)) => Some(("\"" + v, rest))
      else Some(("", s[1..]))
    else
      match ReadQuoted(s[1..])
      case None => None
      case Some((v, rest)) => Some(([s[0]] + v, rest))
  }

  /** A bare field: up to the first comma or line break. */
  function ReadBare(s: string): (r: (string, string))
    ensures r.0 + r.1 == s
    ensures NoSeparator(r.0)
    ensures |r.1| == 0 || r.1[0] == ',' || r.1[0] == '\n'
  {
    if |s| == 0 || s[0] == ',' || s[0] == '\n' then ("", s)
    else
      var (v, rest) := ReadBare(s[1..]);
      assert ([s[0]] + v) + rest == [s[0]] + (v + rest) == s;
      ([s[0]] + v, rest)
  }

  function ReadField(s: string): (r: Option<(string, string)>)
    ensures r.Some? ==> |r.value.1| <= |s|
  {
    if |s| > 0 && s[0] == '"' then ReadQuoted(s[1..]) else Some(ReadBare(s))
  }

  /** One record: fields up to a line break or the end of the text. Gives the
      fields and the text after the line break. */
  function ParseRecord(s: string): (r: Option<(seq<string>, string)>)
    ensures r.Some? ==> |r.value.1| <= |s|
    ensures r.Some? && |s| > 0 ==> |r.value.1| < |s|
    ensures r.Some? ==> |r.value.0| > 0
    decreases |s|
  {
    match ReadField(s)
    case None => None
    case Some((v, rest)) =>
      if |rest| == 0 then Some(([v], ""))
      else if rest[0] == '\n' then Some(([v], rest[1..]))
      else if rest[0] == ',' then
        match ParseRecord(rest[1..])
        case None => None
        case Some((vs, after)) => Some(([v] + vs, after))
      else None
  }

  /** The whole text: records until the text is used up. */
  function ParseCsv(s: string): (r: Option<seq<seq<string>>>)
    decreases |s|
  {
    if |s| == 0 then Some([])
    else
      match ParseRecord(s)
      case None => None
      case Some((fields, rest)) =>
        match ParseCsv(rest)
        case None => None
        case Some(records) => Some([fields] + records)
  }

  // ----------------------------------------------------------- round trips

  /** Undoubling gives back what Escape doubled, and the closing quote is
      found where the writer put it. */
  lemma {:induction false} ReadQuotedEscape(v: string, rest: string)
    requires |rest| == 0 || rest[0] != '"'
    ensures ReadQuoted(Escape(v) + "\"" + rest) == Some((v, rest))
    decreases |v|
  {
    var s := Escape(v) + "\"" + rest;
    if |v| == 0 {
      assert s == "\"" + rest;
    } else if v[0] == '"' {
      ReadQuotedEscape(v[1..], rest);
      assert s == "\"\"" + (Escape(v[1..]) + "\"" + rest);
      assert s[2..] == Escape(v[1..]) + "\"" + rest;
      assert v == "\"" + v[1..];
    } else {
      ReadQuotedEscape(v[1..], rest);
      assert s == [v[0]] + (Escape(v[1..]) + "\"" + rest);
      assert s[1..] == Escape(v[1..]) + "\"" + rest;
      assert v == [v[0]] + v[1..];
    }
  }

  lemma {:induction false} ReadBarePlain(v: string, rest: string)
    requires NoSeparator(v)
    requires |rest| == 0 || rest[0] == ',' || rest[0] == '\n'
    ensures ReadBare(v + rest) == (v, rest)
    decreases |v|
  {
    if |v| > 0 {
      ReadBarePlain(v[1..], rest);
      assert (v + rest)[0] == v[0];
      assert (v + rest)[1..] == v[1..] + rest;
      assert v == [v[0]] + v[1..];
    } else {
      assert v + rest == rest;
    }
  }

  lemma ReadFieldBare(v: string, rest: string)
    requires NoQuote(v) && NoSeparator(v)
    requires |rest| == 0 || rest[0] == ',' || rest[0] == '\n'
    ensures ReadField(v + rest) == Some((v, rest))
  {
    ReadBarePlain(v, rest);
    if |v| > 0 {
      assert (v + rest)[0] == v[0];
    } else {
      assert v + rest == rest;
    }
  }

  lemma ReadFieldQuoted(v: string, rest: string)
    requires |rest| == 0 || rest[0] == ',' || rest[0] == '\n'
    ensures ReadField("\"" + Escape(v) + "\"" + rest) == Some((v, rest))
  {
    var t := Escape(v) + "\"" + rest;
    assert ReadQuoted(t) == Some((v, rest)) by {
      ReadQuotedEscape(v, rest);
    }
    var s := "\"" + t;
    assert s[0] == '"' && s[1..] == t;
    assert "\"" + Escape(v) + "\"" + rest == s;
  }

  /** A safe cell followed by a separator (or nothing) is read back as its value. */
  lemma ReadFieldCell(c: Cell, rest: string)
    requires Safe(c)
    requires |rest| == 0 || rest[0] == ',' || rest[0] == '\n'
    ensures ReadField(Render(c) + rest) == Some((c.v, rest))
  {
    match c
    case Plain(v) => ReadFieldBare(v, rest);
    case Wrapped(v) =>
      EscapeNoQuote(v);
      ReadFieldQuoted(v, rest);
    case Quoted(v) => ReadFieldQuoted(v, rest);
  }

  /** A line of safe cells, followed by a line break or nothing, is read back
      as the cells' values. */
  lemma {:induction false} ParseRecordCells(cells: seq<Cell>, tail: string)
    requires |cells| > 0
    requires forall i :: 0 <= i < |cells| ==> Safe(cells[i])
    requires |tail| == 0 || tail[0] == '\n'
    ensures ParseRecord(JoinCells(cells) + tail) == Some((Values(cells), if |tail| == 0 then "" else tail[1..]))
    decreases |cells|
  {
    var s := JoinCells(cells) + tail;
    if |cells| == 1 {
      assert Renders(cells) == [Render(cells[0])];
      assert JoinCells(cells) == Render(cells[0]);
      assert Values(cells) == [cells[0].v];
      ReadFieldCell(cells[0], tail);
    } else {
      var more := cells[1..];
      assert cells == [cells[0]] + more;
      JoinCellsCons(cells[0], more);
      var rest := "," + JoinCells(more) + tail;
      assert s == Render(cells[0]) + rest;
      ReadFieldCell(cells[0], rest);
      assert rest[1..] == JoinCells(more) + tail;
      ParseRecordCells(more, tail);
    }
  }

  /** Rows of safe cells, each line non-empty, are read back as their values. */
  lemma {:induction false} ParseTable(rows: seq<seq<Cell>>)
    requires forall i :: 0 <= i < |rows| ==> |rows[i]| > 0
    requires forall i, j :: 0 <= i < |rows| && 0 <= j < |rows[i]| ==> Safe(rows[i][j])
    requires forall i :: 0 <= i < |rows| ==> JoinCells(rows[i]) != ""
    ensures ParseCsv(Table(rows)) == Some(TableValues(rows))
    decreases |rows|
  {
    if |rows| == 1 {
      ParseRecordCells(rows[0], "");
      assert JoinCells(rows[0]) + "" == JoinCells(rows[0]);
    } else if |rows| > 1 {
      var more := rows[1..];
      ParseTable(more);
      var after := Table(more);
      assert Lines(rows)[1..] == Lines(more);
      assert Table(rows) == JoinCells(rows[0]) + ("\n" + after);
      ParseRecordCells(rows[0], "\n" + after);
      assert ("\n" + after)[1..] == after;
    }
  }

  // ------------------------------------------------------------- the export

  const HeaderNames: seq<string> := ["Date", "Departure", "Arrival", "Aircraft", "Type", "Hours", "Notes"]

  function Bare(names: seq<string>): (r: seq<Cell>)
    ensures |r| == |names|
    ensures forall i :: 0 <= i < |names| ==> r[i] == Plain(names[i])
  {
    seq(|names|, i requires 0 <= i < |names| => Plain(names[i]))
  }

  /** The seven fields of a record in export order; `hours` is the duration as
      JavaScript prints the number. */
  function Fields(f: Flight, hours: string): seq<string>
  {
    [f.date, f.departure, f.arrival, f.aircraft, f.flightType, hours, f.notes]
  }

  /** The row as script.js writes it: aircraft and type wrapped but not
      escaped, notes wrapped and escaped. */
  function RowCells(f: Flight, hours: string): (r: seq<Cell>)
    ensures Values(r) == Fields(f, hours)
  {
    [Plain(f.date), Plain(f.departure), Plain(f.arrival), Wrapped(f.aircraft),
     Wrapped(f.flightType), Plain(hours), Quoted(f.notes)]
  }

  /** The row with every typed field escaped: codes, aircraft, type and notes.
      Only the date and the printed hours stay bare. */
  function RowCellsEscaped(f: Flight, hours: string): (r: seq<Cell>)
    ensures Values(r) == Fields(f, hours)
  {
    [Plain(f.date), Quoted(f.departure), Quoted(f.arrival), Quoted(f.aircraft),
     Quoted(f.flightType), Plain(hours), Quoted(f.notes)]
  }

  /** The date and the printed hours hold no quote, comma or line break, as an
      ISO date and a printed number never do. */
  predicate PrintedFieldsSafe(f: Flight, hours: string)
  {
    && NoQuote(f.date) && NoSeparator(f.date)
    && NoQuote(hours) && NoSeparator(hours)
  }

  /** Every bare field of the row as written can be read back: the printed
      fields, and codes without quote, comma or line break. */
  predicate BareFieldsSafe(f: Flight, hours: string)
  {
    && PrintedFieldsSafe(f, hours)
    && NoQuote(f.departure) && NoSeparator(f.departure)
    && NoQuote(f.arrival) && NoSeparator(f.arrival)
  }

  function Row(f: Flight, hours: string, escaped: bool): seq<Cell>
  {
    if escaped then RowCellsEscaped(f, hours) else RowCells(f, hours)
  }

  /** A record's row can be read back when its bare fields are safe. */
  lemma RowSafe(f: Flight, hours: string, escaped: bool)
    requires PrintedFieldsSafe(f, hours)
    requires !escaped ==> BareFieldsSafe(f, hours) && NoQuote(f.aircraft) && NoQuote(f.flightType)
    ensures |Row(f, hours, escaped)| == 7
    ensures forall j :: 0 <= j < 7 ==> Safe(Row(f, hours, escaped)[j])
  {
  }

  function Document(flights: seq<Flight>, numberText: real -> string, escaped: bool): (r: seq<seq<Cell>>)
    ensures |r| == |flights| + 1
  {
    [Bare(HeaderNames)] + seq(|flights|, i requires 0 <= i < |flights| =>
      Row(flights[i], numberText(flights[i].duration), escaped))
  }

  /** `exportFlights`: nothing for an empty store (the source shows a warning
      instead), otherwise the header and one line per record. The printing of
      durations is a parameter. */
  function Export(flights: seq<Flight>, numberText: real -> string): (r: Option<string>)
    ensures r.None? <==> |flights| == 0
  {
    if |flights| == 0 then None else Some(Table(Document(flights, numberText, false)))
  }

  /** The export with codes, aircraft and type escaped like the notes. */
  function ExportEscaped(flights: seq<Flight>, numberText: real -> string): (r: Option<string>)
    ensures r.None? <==> |flights| == 0
  {
    if |flights| == 0 then None else Some(Table(Document(flights, numberText, true)))
  }

  lemma RowLineNonEmpty(cells: seq<Cell>)
    requires |cells| == 7
    ensures JoinCells(cells) != ""
  {
    assert cells == [cells[0]] + cells[1..];
    JoinCellsCons(cells[0], cells[1..]);
  }

  /** The header names are bare fields the reader gives back. */
  lemma HeaderSafe()
    ensures |Bare(HeaderNames)| == 7
    ensures forall j :: 0 <= j < 7 ==> Safe(Bare(HeaderNames)[j])
  {
  }

  lemma DocumentRow(flights: seq<Flight>, numberText: real -> string, escaped: bool, i: nat)
    requires i <= |flights|
    requires forall i :: 0 <= i < |flights| ==> PrintedFieldsSafe(flights[i], numberText(flights[i].duration))
    requires !escaped ==> forall i :: 0 <= i < |flights| ==>
      BareFieldsSafe(flights[i], numberText(flights[i].duration))
      && NoQuote(flights[i].aircraft) && NoQuote(flights[i].flightType)
    ensures var row := Document(flights, numberText, escaped)[i];
      |row| > 0 && JoinCells(row) != "" && forall j :: 0 <= j < |row| ==> Safe(row[j])
  {
    var row := Document(flights, numberText, escaped)[i];
    if i > 0 {
      var f := flights[i - 1];
      assert row == Row(f, numberText(f.duration), escaped);
      RowSafe(f, numberText(f.duration), escaped);
      RowLineNonEmpty(row);
    } else {
      assert row == Bare(HeaderNames);
      HeaderSafe();
      RowLineNonEmpty(row);
    }
  }

  lemma DocumentReadable(flights: seq<Flight>, numberText: real -> string, escaped: bool)
    requires forall i :: 0 <= i < |flights| ==> PrintedFieldsSafe(flights[i], numberText(flights[i].duration))
    requires !escaped ==> forall i :: 0 <= i < |flights| ==>
      BareFieldsSafe(flights[i], numberText(flights[i].duration))
      && NoQuote(flights[i].aircraft) && NoQuote(flights[i].flightType)
    ensures ParseCsv(Table(Document(flights, numberText, escaped))) == Some(TableValues(Document(flights, numberText, escaped)))
  {
    var rows := Document(flights, numberText, escaped);
    forall i | 0 <= i < |rows|
      ensures |rows[i]| > 0 && JoinCells(rows[i]) != ""
      ensures forall j :: 0 <= j < |rows[i]| ==> Safe(rows[i][j])
    {
      DocumentRow(flights, numberText, escaped, i);
    }
    ParseTable(rows);
  }

  /** As written, the export is read back field for field when the bare fields
      hold no separator or quote and aircraft and type hold no quote: the
      header names first, then each record's seven fields in store order. */
  lemma ExportRoundTrip(flights: seq<Flight>, numberText: real -> string)
    requires |flights| > 0
    requires forall i :: 0 <= i < |flights| ==> BareFieldsSafe(flights[i], numberText(flights[i].duration))
    requires forall i :: 0 <= i < |flights| ==> NoQuote(flights[i].aircraft) && NoQuote(flights[i].flightType)
    ensures var r := ParseCsv(Export(flights, numberText).value);
      && r.Some? && |r.value| == |flights| + 1
      && r.value[0] == HeaderNames
      && forall i :: 0 <= i < |flights| ==> r.value[i + 1] == Fields(flights[i], numberText(flights[i].duration))
  {
    DocumentReadable(flights, numberText, false);
  }

  /** Escaping codes, aircraft and type like the notes, every typed field is
      read back as written, whatever it holds. */
  lemma ExportEscapedRoundTrip(flights: seq<Flight>, numberText: real -> string)
    requires |flights| > 0
    requires forall i :: 0 <= i < |flights| ==> PrintedFieldsSafe(flights[i], numberText(flights[i].duration))
    ensures var r := ParseCsv(ExportEscaped(flights, numberText).value);
      && r.Some? && |r.value| == |flights| + 1
      && r.value[0] == HeaderNames
      && forall i :: 0 <= i < |flights| ==> r.value[i + 1] == Fields(flights[i], numberText(flights[i].duration))
  {
    DocumentReadable(flights, numberText, true);
  }

  /** As written, an aircraft holding a quote escapes its field: the aircraft
      `A","B` makes the row read back as eight fields, with "A" as the aircraft
      and "B" in the type column. */
  lemma UnescapedAircraftSplitsRow(f: Flight, hours: string)
    requires BareFieldsSafe(f, hours) && NoQuote(f.flightType)
    requires f.aircraft == "A\",\"B"
    ensures ParseRecord(JoinCells(RowCells(f, hours)))
      == Some(([f.date, f.departure, f.arrival, "A", "B", f.flightType, hours, f.notes], ""))
  {
    var prefix := [Plain(f.date), Plain(f.departure), Plain(f.arrival)];
    var tail := [Wrapped(f.flightType), Plain(hours), Quoted(f.notes)];
    var split := [Plain(f.date), Plain(f.departure), Plain(f.arrival), Wrapped("A"), Wrapped("B"),
                  Wrapped(f.flightType), Plain(hours), Quoted(f.notes)];
    assert JoinCells(RowCells(f, hours)) == JoinCells(split) by {
      assert f.aircraft == "A" + "\",\"" + "B";
      assert RowCells(f, hours) == prefix + [Wrapped("A" + "\",\"" + "B")] + tail;
      WrappedQuoteRender("A", "B");
      CellSplits(prefix, Wrapped("A" + "\",\"" + "B"), Wrapped("A"), Wrapped("B"), tail);
      assert prefix + [Wrapped("A"), Wrapped("B")] + tail == split;
    }
    assert ParseRecord(JoinCells(split)) == Some((Values(split), "")) by {
      assert NoQuote("A") && NoQuote("B");
      ParseSafeRow(split);
    }
    assert Values(split) == [f.date, f.departure, f.arrival, "A", "B", f.flightType, hours, f.notes];
  }

  /** As written, a code holding a comma splits its field: the departure
      `A,B` makes the row read back as eight fields, "A" as the departure and
      "B" in the arrival column. */
  lemma BareCodeSplitsRow(f: Flight, hours: string)
    requires PrintedFieldsSafe(f, hours) && NoQuote(f.arrival) && NoSeparator(f.arrival)
    requires NoQuote(f.aircraft) && NoQuote(f.flightType)
    requires f.departure == "A,B"
    ensures ParseRecord(JoinCells(RowCells(f, hours)))
      == Some(([f.date, "A", "B", f.arrival, f.aircraft, f.flightType, hours, f.notes], ""))
  {
    var prefix := [Plain(f.date)];
    var tail := [Plain(f.arrival), Wrapped(f.aircraft), Wrapped(f.flightType), Plain(hours), Quoted(f.notes)];
    var split := [Plain(f.date), Plain("A"), Plain("B"), Plain(f.arrival), Wrapped(f.aircraft),
                  Wrapped(f.flightType), Plain(hours), Quoted(f.notes)];
    assert JoinCells(RowCells(f, hours)) == JoinCells(split) by {
      assert f.departure == "A" + "," + "B";
      assert RowCells(f, hours) == prefix + [Plain("A" + "," + "B")] + tail;
      assert Render(Plain("A" + "," + "B")) == Render(Plain("A")) + "," + Render(Plain("B"));
      CellSplits(prefix, Plain("A" + "," + "B"), Plain("A"), Plain("B"), tail);
      assert prefix + [Plain("A"), Plain("B")] + tail == split;
    }
    assert ParseRecord(JoinCells(split)) == Some((Values(split), "")) by {
      assert Safe(Plain("A")) && Safe(Plain("B"));
      ParseSafeRow(split);
    }
    assert Values(split) == [f.date, "A", "B", f.arrival, f.aircraft, f.flightType, hours, f.notes];
  }

  /** A row of safe cells on its own reads back as their values. */
  lemma ParseSafeRow(cells: seq<Cell>)
    requires |cells| > 0
    requires forall i :: 0 <= i < |cells| ==> Safe(cells[i])
    ensures ParseRecord(JoinCells(cells)) == Some((Values(cells), ""))
  {
    ParseRecordCells(cells, "");
    assert JoinCells(cells) + "" == JoinCells(cells);
  }

  /** A wrapped field holding `x","y` renders as the wrapped x, a comma and
      the wrapped y. */
  lemma WrappedQuoteRender(x: string, y: string)
    ensures Render(Wrapped(x + "\",\"" + y)) == Render(Wrapped(x)) + "," + Render(Wrapped(y))
  {
    var q := "\"";
    assert "\",\"" == q + "," + q;
    assert q + (x + (q + "," + q) + y) + q == (q + x + q) + "," + (q + y + q);
  }

  lemma CellSplitsHead(c: Cell, c1: Cell, c2: Cell, tail: seq<Cell>)
    requires |tail| > 0
    requires Render(c) == Render(c1) + "," + Render(c2)
    ensures JoinCells([c] + tail) == JoinCells([c1] + ([c2] + tail))
  {
    var r1, r2, j := Render(c1), Render(c2), JoinCells(tail);
    assert JoinCells([c] + tail) == (r1 + "," + r2) + "," + j by {
      JoinCellsCons(c, tail);
    }
    assert JoinCells([c2] + tail) == r2 + "," + j by {
      JoinCellsCons(c2, tail);
    }
    assert JoinCells([c1] + ([c2] + tail)) == r1 + "," + (r2 + "," + j) by {
      JoinCellsCons(c1, [c2] + tail);
    }
    assert (r1 + "," + r2) + "," + j == r1 + "," + (r2 + "," + j);
  }

  /** Joining two non-empty rows of cells puts one comma between them. */
  lemma {:induction false} JoinCellsAppend(a: seq<Cell>, b: seq<Cell>)
    requires |a| > 0 && |b| > 0
    ensures JoinCells(a + b) == JoinCells(a) + "," + JoinCells(b)
    decreases |a|
  {
    if |a| == 1 {
      assert a + b == [a[0]] + b;
      JoinCellsCons(a[0], b);
      assert Renders(a) == [Render(a[0])];
    } else {
      assert a + b == [a[0]] + (a[1..] + b);
      assert a == [a[0]] + a[1..];
      JoinCellsCons(a[0], a[1..] + b);
      JoinCellsCons(a[0], a[1..]);
      JoinCellsAppend(a[1..], b);
    }
  }

  /** A cell whose text is the texts of two cells joined by a comma writes the
      same row as those two cells. */
  lemma CellSplits(prefix: seq<Cell>, c: Cell, c1: Cell, c2: Cell, tail: seq<Cell>)
    requires |tail| > 0
    requires Render(c) == Render(c1) + "," + Render(c2)
    ensures JoinCells(prefix + [c] + tail) == JoinCells(prefix + [c1, c2] + tail)
  {
    var one, two := [c] + tail, [c1] + ([c2] + tail);
    assert JoinCells(one) == JoinCells(two) by {
      CellSplitsHead(c, c1, c2, tail);
    }
    assert prefix + [c] + tail == prefix + one;
    assert prefix + [c1, c2] + tail == prefix + two;
    if |prefix| > 0 {
      JoinCellsAppend(prefix, one);
      JoinCellsAppend(prefix, two);
    } else {
      assert prefix + one == one && prefix + two == two;
    }
  }

  /** The escaped row is read back as the record's seven fields whatever the
      codes, aircraft and type hold. */
  lemma EscapedRowRoundTrip(f: Flight, hours: string)
    requires PrintedFieldsSafe(f, hours)
    ensures ParseRecord(JoinCells(RowCellsEscaped(f, hours))) == Some((Fields(f, hours), ""))
  {
    ParseRecordCells(RowCellsEscaped(f, hours), "");
    assert JoinCells(RowCellsEscaped(f, hours)) + "" == JoinCells(RowCellsEscaped(f, hours));
  }
}
