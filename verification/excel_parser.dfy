/** The guest-list spreadsheet parser of src/utils/excelParser.js.

    The decoder turns the first sheet into rows of cells; the parser then
    folds over the rows with two pieces of state: whether the header row
    (first cell mentioning "guest") has been seen, and the current table
    label (the first cell of the latest "table" row without other data).
    A row after the header yields a guest only when some cell after the
    first is non-blank. */
module ExcelParser {
  import opened Wrappers
  import opened Text
  import opened Model

  /** A decoded cell: `undefined`/`null`, or a value already turned into text by `toString()`. */
  datatype Cell = Empty | Value(text: string)

  type Row = seq<Cell>

  /** The message of the error thrown when the buffer cannot be decoded. */
  const PARSE_FAILED: string := "Failed to parse Excel file"

  /** The trimmed text of every cell, "" for a missing one. */
  function CellTexts(row: Row): (cells: seq<string>)
    ensures |cells| == |row|
    ensures forall i | 0 <= i < |row| :: cells[i] == (if row[i].Empty? then "" else Trim(row[i].text))
  {
    seq(|row|, i requires 0 <= i < |row| => if row[i].Empty? then "" else Trim(row[i].text))
  }

  /** `hasMetadata`: some cell after the first is non-blank. */
  predicate HasMetadata(cells: seq<string>) {
    exists i | 1 <= i < |cells| :: Trim(cells[i]) != []
  }

  /** All the loop body looks at in a row, once its cells are trimmed: the
      first cell ("" for an empty row, which is as falsy) and whether some
      later cell is non-blank. */
  datatype RowView = RowView(primary: string, metadata: bool)

  function ViewOf(row: Row): (v: RowView)
    ensures v.primary != "" ==> !IsSpace(v.primary[0]) && !IsSpace(v.primary[|v.primary| - 1])
  {
    var cells := CellTexts(row);
    RowView(if |cells| == 0 then "" else cells[0], HasMetadata(cells))
  }

  function Views(rows: seq<Row>): (views: seq<RowView>)
    ensures |views| == |rows|
    ensures forall i | 0 <= i < |rows| :: views[i] == ViewOf(rows[i])
  {
    seq(|rows|, i requires 0 <= i < |rows| => ViewOf(rows[i]))
  }

  /** A row whose first cell mentions "guest", case-insensitively. */
  predicate IsHeaderRow(v: RowView) {
    ContainsIgnoreCase(v.primary, "guest")
  }

  /** A row whose first cell mentions "table" and that carries nothing else. */
  predicate IsMarkerRow(v: RowView) {
    v.primary != "" && ContainsIgnoreCase(v.primary, "table") && !v.metadata
  }

  /** A row with a first cell and some other non-blank cell. */
  predicate IsGuestRow(v: RowView) {
    v.primary != "" && v.metadata
  }

  /** `currentTable || 'Unassigned'`. */
  function TableLabel(current: string): string {
    if current == "" then UNASSIGNED else current
  }

  /** The two variables the row loop carries. */
  datatype ParserState = ParserState(headerSeen: bool, currentTable: string)

  const START: ParserState := ParserState(false, "")

  /** The effect of one row: the next state and the guest it emits, if any. */
  datatype Step = Step(next: ParserState, emitted: Option<Guest>)

  /** One iteration of the row loop. A row with a blank first cell changes
      nothing; the header flag only ever turns on; a guest is emitted exactly
      for a row with trailing data once the header has been seen; the table
      label changes exactly at a marker row after the header. */
  function StepRow(st: ParserState, v: RowView): (s: Step)
    ensures v.primary == "" ==> s == Step(st, None)
    ensures s.next.headerSeen <==> st.headerSeen || IsHeaderRow(v)
    ensures s.emitted.Some? <==> st.headerSeen && IsGuestRow(v)
    ensures s.emitted.Some? ==> s.emitted.value == Guest(v.primary, TableLabel(st.currentTable))
    ensures s.next.currentTable == if st.headerSeen && IsMarkerRow(v) then v.primary else st.currentTable
  {
    if v.primary == "" then Step(st, None)
    else if !st.headerSeen && ContainsIgnoreCase(v.primary, "guest") then Step(st.(headerSeen := true), None)
    else if !st.headerSeen then Step(st, None)
    else if ContainsIgnoreCase(v.primary, "table") && !v.metadata then Step(st.(currentTable := v.primary), None)
    else if !v.metadata then Step(st, None)
    else Step(st, Some(Guest(v.primary, TableLabel(st.currentTable))))
  }

  /** The row loop from state `st`: at most one guest per row, every name
      some row's non-empty first cell, every table either the sentinel, the
      starting label, or a marker's first cell. */
  function Run(st: ParserState, views: seq<RowView>): (guests: seq<Guest>)
    ensures |guests| <= |views|
    ensures forall g | g in guests ::
              && g.name != "" && (exists j | 0 <= j < |views| :: g.name == views[j].primary)
              && g.table != ""
              && (g.table == UNASSIGNED || g.table == st.currentTable || ContainsIgnoreCase(g.table, "table"))
    decreases |views|
  {
    if views == [] then []
    else
      var s := StepRow(st, views[0]);
      var out := if s.emitted.Some? then [s.emitted.value] else [];
      var rest := Run(s.next, views[1..]);
      assert forall g | g in rest :: exists j | 0 <= j < |views| :: g.name == views[j].primary by {
        forall g | g in rest ensures exists j | 0 <= j < |views| :: g.name == views[j].primary {
          var j :| 0 <= j < |views[1..]| && g.name == views[1..][j].primary;
          assert views[1..][j] == views[j + 1];
        }
      }
      out + rest
  }

  /** The row-processing part of `parseExcelFile`. */
  function ParseRows(rows: seq<Row>): (guests: seq<Guest>)
    ensures rows == [] ==> guests == []
    ensures |guests| <= |rows|
    ensures forall g | g in guests ::
              && g.name != "" && !IsSpace(g.name[0]) && !IsSpace(g.name[|g.name| - 1])
              && (g.table == UNASSIGNED || ContainsIgnoreCase(g.table, "table"))
  {
    if |rows| == 0 then [] else Run(START, Views(rows))
  }

  /** `parseExcelFile`: `decoded` is the decoder's rows, or `None` when the
      buffer is not a spreadsheet, which makes the parser throw. */
  function ParseWorkbook(decoded: Option<seq<Row>>): (r: Result<seq<Guest>, string>)
    ensures decoded.None? <==> r == Failure(PARSE_FAILED)
    ensures decoded.Some? ==> r == Success(ParseRows(decoded.value))
  {
    match decoded
    case None => Failure(PARSE_FAILED)
    case Some(rows) => Success(ParseRows(rows))
  }

  /** What a fetch of a bundled file produced: a failed or non-OK response,
      or the bytes, given as what the decoder makes of them. */
  datatype Fetch = FetchFailed | Fetched(decoded: Option<seq<Row>>)

  /** `loadGuestListFromFile`: every failure, fetching or parsing, reads as
      an empty list. */
  function LoadGuestListFromFile(fetch: Fetch): (guests: seq<Guest>)
    ensures guests != [] ==> fetch.Fetched? && fetch.decoded.Some? && guests == ParseRows(fetch.decoded.value)
    ensures fetch.Fetched? && fetch.decoded.Some? ==> guests == ParseRows(fetch.decoded.value)
  {
    match fetch
    case FetchFailed => []
    case Fetched(decoded) =>
      match ParseWorkbook(decoded)
      case Success(guests) => guests
      case Failure(_) => []
  }

  // ---------------------------------------------------------------------
  // A reference description of the parser's output, by row positions.
  // ---------------------------------------------------------------------

  /** The position of the first header row at or after `i`. */
  ghost function FirstHeaderFrom(views: seq<RowView>, i: nat): (h: Option<nat>)
    requires i <= |views|
    ensures h.Some? ==> i <= h.value < |views| && IsHeaderRow(views[h.value])
                        && forall j | i <= j < h.value :: !IsHeaderRow(views[j])
    ensures h.None? ==> forall j | i <= j < |views| :: !IsHeaderRow(views[j])
    decreases |views| - i
  {
    if i == |views| then None
    else if IsHeaderRow(views[i]) then Some(i)
    else FirstHeaderFrom(views, i + 1)
  }

  /** The label of the nearest marker row strictly between the header `h`
      and row `i`, or "" when there is none. It is never a row at or after `i`. */
  ghost function MarkerBefore(views: seq<RowView>, h: nat, i: nat): (marker: string)
    requires h < i <= |views|
    ensures marker == "" ==> forall j | h < j < i :: !IsMarkerRow(views[j])
    ensures marker != "" ==> exists j | h < j < i ::
              && IsMarkerRow(views[j]) && marker == views[j].primary
              && forall m | j < m < i :: !IsMarkerRow(views[m])
    decreases i
  {
    if i == h + 1 then ""
    else if IsMarkerRow(views[i - 1]) then views[i - 1].primary
    else MarkerBefore(views, h, i - 1)
  }

  /** The guests of rows `i..` after a header at `h`: one per guest row, in
      row order, each under the nearest preceding marker. */
  ghost function ExpectedFrom(views: seq<RowView>, h: nat, i: nat): seq<Guest>
    requires h < i <= |views|
    decreases |views| - i
  {
    if i == |views| then []
    else
      var here := if IsGuestRow(views[i]) then [Guest(views[i].primary, TableLabel(MarkerBefore(views, h, i)))] else [];
      here + ExpectedFrom(views, h, i + 1)
  }

  /** Nothing before or at the first header row; after it, every guest row. */
  ghost function Expected(views: seq<RowView>): seq<Guest> {
    match FirstHeaderFrom(views, 0)
    case None => []
    case Some(h) => ExpectedFrom(views, h, h + 1)
  }

  /** After the header the loop's table label is always the nearest preceding marker. */
  lemma {:induction false} RunAfterHeader(views: seq<RowView>, h: nat, i: nat)
    requires h < i <= |views|
    ensures Run(ParserState(true, MarkerBefore(views, h, i)), views[i..]) == ExpectedFrom(views, h, i)
    decreases |views| - i
  {
    if i < |views| {
      assert views[i..][0] == views[i];
      assert views[i..][1..] == views[i + 1..];
      RunAfterHeader(views, h, i + 1);
    }
  }

  /** Rows before the first header row, and the header row itself, emit
      nothing and leave the table label empty. */
  lemma {:induction false} RunBeforeHeader(views: seq<RowView>, k: nat, h: nat)
    requires k <= h < |views| && IsHeaderRow(views[h])
    requires forall j | k <= j < h :: !IsHeaderRow(views[j])
    ensures Run(START, views[k..]) == Run(ParserState(true, ""), views[h + 1..])
    decreases h - k
  {
    assert views[k..][0] == views[k];
    assert views[k..][1..] == views[k + 1..];
    if k < h {
      RunBeforeHeader(views, k + 1, h);
    }
  }

  /** Without a header row nothing is ever emitted. */
  lemma {:induction false} RunWithoutHeader(views: seq<RowView>, k: nat)
    requires k <= |views|
    requires forall j | k <= j < |views| :: !IsHeaderRow(views[j])
    ensures Run(START, views[k..]) == []
    decreases |views| - k
  {
    if k < |views| {
      assert views[k..][0] == views[k];
      assert views[k..][1..] == views[k + 1..];
      RunWithoutHeader(views, k + 1);
    }
  }

  /** The parser's left fold computes exactly the position-based description. */
  lemma ParseRowsMatchesReference(rows: seq<Row>)
    ensures ParseRows(rows) == Expected(Views(rows))
  {
    var views := Views(rows);
    if rows != [] {
      assert ParseRows(rows) == Run(START, views);
      assert views[0..] == views;
      match FirstHeaderFrom(views, 0)
      case None =>
        RunWithoutHeader(views, 0);
      case Some(h) =>
        RunBeforeHeader(views, 0, h);
        assert MarkerBefore(views, h, h + 1) == "";
        RunAfterHeader(views, h, h + 1);
        assert Expected(views) == ExpectedFrom(views, h, h + 1);
    }
  }

  /** A sheet in which no first cell mentions "guest" yields no guests. */
  lemma NoHeaderNoGuests(rows: seq<Row>)
    requires forall j | 0 <= j < |rows| :: !IsHeaderRow(ViewOf(rows[j]))
    ensures ParseRows(rows) == []
  {
    var views := Views(rows);
    if rows != [] {
      assert views[0..] == views;
      RunWithoutHeader(views, 0);
    }
  }

  /** Rows without trailing data never emit, whatever the state. */
  lemma {:induction false} RunWithoutMetadata(st: ParserState, views: seq<RowView>)
    requires forall j | 0 <= j < |views| :: !views[j].metadata
    ensures Run(st, views) == []
    decreases |views|
  {
    if views != [] {
      RunWithoutMetadata(StepRow(st, views[0]).next, views[1..]);
    }
  }

  /** A one-column sheet yields no guests: a name alone on its row is dropped. */
  lemma SingleColumnYieldsNothing(rows: seq<Row>)
    requires forall j | 0 <= j < |rows| :: |rows[j]| <= 1
    ensures ParseRows(rows) == []
  {
    if rows != [] {
      RunWithoutMetadata(START, Views(rows));
    }
  }
}
