/**
 * The spreadsheet export: one fixed header row, then one row per record in
 * store order. A sheet is the map from cell coordinates to cell values that
 * the cell writes build up.
 */
module Export {
  import opened Calendar
  import opened LogRecord

  const SheetName: string := "Logs"
  const ExportFileName: string := "todoplusplus_logs_export.xlsx"

  const Headers: seq<string> :=
    ["Date", "Platform", "Question ID", "Topic", "Difficulty", "Time Spent (mins)", "Notes"]

  datatype CellValue = Text(text: string) | Number(number: int)

  /** Column 1 is column A; row 1 is the header row. */
  datatype CellRef = CellRef(col: int, row: int)

  type Sheet = map<CellRef, CellValue>

  /** The values of columns A to G for one record. */
  function RowCells(l: Log, formatDate: Instant -> string): (cells: seq<CellValue>)
    ensures |cells| == |Headers|
  {
    [Text(formatDate(l.date)), Text(l.platform), Text(l.questionId), Text(l.topic),
     Text(l.difficulty), Number(l.timeSpent), Text(l.notes)]
  }

  /** The cells of a sheet with a header row and `n` record rows. */
  ghost predicate IsLayout(sheet: Sheet, n: nat)
  {
    forall c :: c in sheet <==> 1 <= c.col <= |Headers| && 1 <= c.row <= n + 1
  }

  /** What the export puts in cell `r`: a header name in row 1, a record's value below. */
  ghost function ExpectedCell(logs: seq<Log>, formatDate: Instant -> string, r: CellRef): CellValue
    requires 1 <= r.col <= |Headers| && 1 <= r.row <= |logs| + 1
  {
    if r.row == 1 then Text(Headers[r.col - 1]) else RowCells(logs[r.row - 2], formatDate)[r.col - 1]
  }

  /**
   * `sheet` is the export of `logs`: the header names across row 1, and the
   * record at position `i` of `logs` across row `i + 2`, and no other cell.
   */
  ghost predicate IsExportOf(sheet: Sheet, logs: seq<Log>, formatDate: Instant -> string)
  {
    && IsLayout(sheet, |logs|)
    && (forall c :: 1 <= c <= |Headers| ==> sheet[CellRef(c, 1)] == Text(Headers[c - 1]))
    && (forall row, c :: 2 <= row <= |logs| + 1 && 1 <= c <= |Headers| ==>
          sheet[CellRef(c, row)] == RowCells(logs[row - 2], formatDate)[c - 1])
  }

  /** Writes the header row and then record `i` into row `i + 2`, columns A to G. */
  method BuildSheet(logs: seq<Log>, formatDate: Instant -> string) returns (sheet: Sheet)
    ensures IsExportOf(sheet, logs, formatDate)
  {
    sheet := map[];
    for c := 1 to |Headers| + 1
      invariant forall r :: r in sheet <==> 1 <= r.col < c && r.row == 1
      invariant forall r :: r in sheet ==> sheet[r] == ExpectedCell(logs, formatDate, r)
    {
      sheet := sheet[CellRef(c, 1) := Text(Headers[c - 1])];
    }
    for i := 0 to |logs|
      invariant IsLayout(sheet, i)
      invariant forall r :: r in sheet ==> sheet[r] == ExpectedCell(logs, formatDate, r)
    {
      var next := WriteRow(sheet, i + 2, RowCells(logs[i], formatDate));
      RowStep(logs, formatDate, sheet, i, next);
      sheet := next;
    }
    LayoutCells(logs, formatDate, sheet);
  }

  lemma LayoutCells(logs: seq<Log>, formatDate: Instant -> string, sheet: Sheet)
    requires IsLayout(sheet, |logs|)
    requires forall r :: r in sheet ==> sheet[r] == ExpectedCell(logs, formatDate, r)
    ensures IsExportOf(sheet, logs, formatDate)
  {
    forall c | 1 <= c <= |Headers| ensures sheet[CellRef(c, 1)] == Text(Headers[c - 1]) {
      assert CellRef(c, 1) in sheet;
    }
    forall row, c | 2 <= row <= |logs| + 1 && 1 <= c <= |Headers|
      ensures sheet[CellRef(c, row)] == RowCells(logs[row - 2], formatDate)[c - 1]
    {
      assert CellRef(c, row) in sheet;
    }
  }

  /** Writing the row of record `i` extends a sheet laid out up to record `i - 1`. */
  lemma RowStep(logs: seq<Log>, formatDate: Instant -> string, sheet: Sheet, i: nat, next: Sheet)
    requires i < |logs|
    requires IsLayout(sheet, i)
    requires forall r :: r in sheet ==> sheet[r] == ExpectedCell(logs, formatDate, r)
    requires next == WriteRow(sheet, i + 2, RowCells(logs[i], formatDate))
    ensures IsLayout(next, i + 1)
    ensures forall r :: r in next ==> next[r] == ExpectedCell(logs, formatDate, r)
  {
  }

  /** The seven cell writes of one record row. */
  function WriteRow(sheet: Sheet, row: int, cells: seq<CellValue>): (s: Sheet)
    requires |cells| == |Headers|
    ensures forall r :: r in s <==> r in sheet || (r.row == row && 1 <= r.col <= |Headers|)
    ensures forall r :: r in s ==> s[r] == if r.row == row && 1 <= r.col <= |Headers| then cells[r.col - 1] else sheet[r]
  {
    sheet[CellRef(1, row) := cells[0]][CellRef(2, row) := cells[1]]
         [CellRef(3, row) := cells[2]][CellRef(4, row) := cells[3]]
         [CellRef(5, row) := cells[4]][CellRef(6, row) := cells[5]]
         [CellRef(7, row) := cells[6]]
  }
}
