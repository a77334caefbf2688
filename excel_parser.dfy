/** ExcelParser (Parser/Impl): the first sheet of the workbook, every row except the one
    numbered HEADERS_ROW_EXCEL, each checked for five present cells and converted from its
    DataFormatter text; the first failure abandons the list. */
module ExcelParser {
  import opened Wrappers
  import opened JavaText
  import opened Domain
  import opened FieldConversion
  import opened RowParsing
  import CsvParser
  import RecordParserUtils

  /** Row.getCell(i): null past the last cell of the row. */
  function GetCell(row: Row, i: nat): Option<string> {
    if i < |row.cells| then row.cells[i] else None
  }

  /** The first column in `from` .. 4 whose cell is null, or 5 when there is none. */
  function EmptyCellIndex(row: Row, from: nat): (k: nat)
    requires from <= ExpectedColumns
    ensures from <= k <= ExpectedColumns
    ensures forall j :: from <= j < k ==> GetCell(row, j).Some?
    ensures k < ExpectedColumns ==> GetCell(row, k).None?
    decreases ExpectedColumns - from
  {
    if from == ExpectedColumns || GetCell(row, from).None? then from
    else EmptyCellIndex(row, from + 1)
  }

  /** validateRow: the empty-cell error of the first null cell among columns 0 to 4, named by
      its index and the row's 1-based physical number. */
  function CheckRow(row: Row): Option<FileError> {
    var k := EmptyCellIndex(row, 0);
    if k < ExpectedColumns then Some(EmptyCell(k, row.rowNum + 1)) else None
  }

  /** validateRow, as the loop over the cell indices. */
  method ValidateRow(row: Row) returns (failure: Option<FileError>)
    ensures failure == CheckRow(row)
  {
    for i := 0 to ExpectedColumns
      invariant forall j :: 0 <= j < i ==> GetCell(row, j).Some?
    {
      if GetCell(row, i).None? {
        return Some(EmptyCell(i, row.rowNum + 1));
      }
    }
    return None;
  }

  /** DataFormatter.formatCellValue: the rendered text of a cell, "" for a null cell. */
  function FormatCell(cell: Option<string>): string {
    cell.GetOr("")
  }

  /** extractCells: the cells of the five columns, in column order. */
  method ExtractCells(row: Row) returns (cells: array<Option<string>>)
    ensures cells.Length == ExpectedColumns
    ensures forall i :: 0 <= i < ExpectedColumns ==> cells[i] == GetCell(row, i)
  {
    cells := new Option<string>[ExpectedColumns];
    cells[EmployeeExternalIdColumn] := GetCell(row, EmployeeExternalIdColumn);
    cells[EmployeeFullNameColumn] := GetCell(row, EmployeeFullNameColumn);
    cells[AwardExternalIdColumn] := GetCell(row, AwardExternalIdColumn);
    cells[AwardNameColumn] := GetCell(row, AwardNameColumn);
    cells[ReceivedDateColumn] := GetCell(row, ReceivedDateColumn);
  }

  /** formatCells: a new array holding the text of each cell. */
  method FormatCells(cells: array<Option<string>>) returns (values: array<string>)
    ensures values.Length == cells.Length
    ensures forall i :: 0 <= i < cells.Length ==> values[i] == FormatCell(cells[i])
  {
    values := new string[cells.Length];
    for i := 0 to cells.Length
      invariant forall j :: 0 <= j < i ==> values[j] == FormatCell(cells[j])
    {
      values[i] := FormatCell(cells[i]);
    }
  }

  /** The text of the five columns of a row. */
  function FormattedCells(row: Row): (values: seq<string>)
    ensures |values| == ExpectedColumns
  {
    seq(ExpectedColumns, i requires 0 <= i < ExpectedColumns => FormatCell(GetCell(row, i)))
  }

  /** The errorContext of createRecord: "строке " and the 1-based physical row number. */
  function ErrorContext(row: Row): string {
    "строке " + LongToString(row.rowNum + 1)
  }

  /** parseRow: createRecord of the formatted cells. */
  function RowRecord(row: Row): Result<AwardFileRecord, FileError> {
    ConvertFields(FormattedCells(row), ErrorContext(row))
  }

  /** parseRow, as extractCells, formatCells and createRecord. */
  method ParseRow(row: Row) returns (r: Result<AwardFileRecord, FileError>)
    ensures r == RowRecord(row)
  {
    var cells := ExtractCells(row);
    var values := FormatCells(cells);
    assert values[..] == FormattedCells(row);
    r := ConvertFields(values[..], ErrorContext(row));
  }

  /** One data row: validateRow, then parseRow. */
  function RowOutcome(row: Row): Result<AwardFileRecord, FileError> {
    match CheckRow(row)
    case Some(e) => Err(e)
    case None => RowRecord(row)
  }

  /** The rows the loop does not skip: those whose number is not HEADERS_ROW_EXCEL. */
  function DataRows(rows: seq<Row>): (data: seq<Row>)
    ensures |data| <= |rows|
  {
    if |rows| == 0 then []
    else DataRows(rows[..|rows| - 1])
         + (if rows[|rows| - 1].rowNum == HeadersRowExcel then [] else [rows[|rows| - 1]])
  }

  /** parse */
  function Parsed(workbook: Workbook): Result<seq<AwardFileRecord>, FileError> {
    match workbook
    case Unreadable(detail) => Err(ExcelReadFailed(detail))
    case Workbook(None) => Err(NoSheet)
    case Workbook(Some(rows)) => ParseEach(DataRows(rows), RowOutcome)
  }

  lemma {:induction false} DataRowsAppend(a: seq<Row>, b: seq<Row>)
    ensures DataRows(a + b) == DataRows(a) + DataRows(b)
    decreases |b|
  {
    if |b| == 0 {
      assert a + b == a;
    } else {
      assert (a + b)[..|a + b| - 1] == a + b[..|b| - 1];
      DataRowsAppend(a, b[..|b| - 1]);
    }
  }

  lemma DataRowsSnoc(rows: seq<Row>, i: nat)
    requires i < |rows|
    ensures DataRows(rows[..i + 1]) == DataRows(rows[..i]) + (if rows[i].rowNum == HeadersRowExcel then [] else [rows[i]])
  {
    assert rows[..i + 1][..i] == rows[..i];
  }

  lemma DataRowsSplit(rows: seq<Row>, i: nat)
    requires i <= |rows|
    ensures DataRows(rows) == DataRows(rows[..i]) + DataRows(rows[i..])
  {
    assert rows == rows[..i] + rows[i..];
    DataRowsAppend(rows[..i], rows[i..]);
  }

  /** A data row at position i of the sheet sits in the data rows right after the data rows
      of the sheet's first i rows. */
  lemma DataRowsAt(rows: seq<Row>, i: nat)
    requires i < |rows| && rows[i].rowNum != HeadersRowExcel
    ensures |DataRows(rows[..i])| < |DataRows(rows)|
    ensures DataRows(rows)[..|DataRows(rows[..i])|] == DataRows(rows[..i])
    ensures DataRows(rows)[|DataRows(rows[..i])|] == rows[i]
  {
    DataRowsSplit(rows, i + 1);
    DataRowsSnoc(rows, i);
  }

  /** One iteration of the for loop over the sheet, for any conversion of the data rows: the
      header row leaves the list as it is, */
  lemma StepHeader(rows: seq<Row>, i: nat, convert: Row -> Result<AwardFileRecord, FileError>)
    requires i < |rows| && rows[i].rowNum == HeadersRowExcel
    ensures ParseEach(DataRows(rows[..i + 1]), convert) == ParseEach(DataRows(rows[..i]), convert)
  {
    DataRowsSnoc(rows, i);
    assert DataRows(rows[..i]) + [] == DataRows(rows[..i]);
  }

  /** a data row that converts appends its record, */
  lemma StepRecord(rows: seq<Row>, i: nat, records: seq<AwardFileRecord>, convert: Row -> Result<AwardFileRecord, FileError>)
    requires i < |rows| && rows[i].rowNum != HeadersRowExcel && convert(rows[i]).Ok?
    requires ParseEach(DataRows(rows[..i]), convert) == Ok(records)
    ensures ParseEach(DataRows(rows[..i + 1]), convert) == Ok(records + [convert(rows[i]).value])
  {
    DataRowsSnoc(rows, i);
    var done := DataRows(rows[..i]);
    assert (done + [rows[i]])[..|done|] == done;
  }

  /** and a data row that fails decides the result of the whole sheet. */
  lemma StepFailure(rows: seq<Row>, i: nat, convert: Row -> Result<AwardFileRecord, FileError>)
    requires i < |rows| && rows[i].rowNum != HeadersRowExcel && convert(rows[i]).Err?
    requires ParseEach(DataRows(rows[..i]), convert).Ok?
    ensures ParseEach(DataRows(rows), convert) == Err(convert(rows[i]).error)
  {
    DataRowsAt(rows, i);
    ParseEachStopsAt(DataRows(rows), |DataRows(rows[..i])|, convert);
  }

  /** parse, as the for loop over the rows of the first sheet. */
  method Parse(workbook: Workbook) returns (r: Result<seq<AwardFileRecord>, FileError>)
    ensures r == Parsed(workbook)
  {
    if workbook.Unreadable? {
      return Err(ExcelReadFailed(workbook.detail));
    }
    if workbook.firstSheet.None? {
      return Err(NoSheet);
    }
    var rows := workbook.firstSheet.value;
    var records: seq<AwardFileRecord> := [];
    for i := 0 to |rows|
      invariant ParseEach(DataRows(rows[..i]), RowOutcome) == Ok(records)
    {
      if rows[i].rowNum == HeadersRowExcel {
        StepHeader(rows, i, RowOutcome);
        continue;
      }
      var invalid := ValidateRow(rows[i]);
      if invalid.Some? {
        StepFailure(rows, i, RowOutcome);
        return Err(invalid.value);
      }
      var record := ParseRow(rows[i]);
      if record.Err? {
        StepFailure(rows, i, RowOutcome);
        return Err(record.error);
      }
      StepRecord(rows, i, records, RowOutcome);
      records := records + [record.value];
    }
    assert rows[..|rows|] == rows;
    return Ok(records);
  }

  /** The skip goes by row number: in a sheet whose first row is numbered 0 exactly that row
      is dropped; in a sheet without a row 0 (an empty first line) no row is dropped, and the
      first row present is read as data. */
  lemma SkipsByRowNumber(rows: seq<Row>)
    requires WellFormedSheet(rows)
    ensures |rows| > 0 && rows[0].rowNum == HeadersRowExcel ==> DataRows(rows) == rows[1..]
    ensures (|rows| == 0 || rows[0].rowNum != HeadersRowExcel) ==> DataRows(rows) == rows
  {
    if |rows| > 0 {
      RestHasNoHeader(rows);
      OnlyFirstMayBeHeader(rows);
    }
  }

  /** When no row after the first is numbered 0, only the first row can be dropped. */
  lemma OnlyFirstMayBeHeader(rows: seq<Row>)
    requires |rows| > 0
    requires forall i :: 0 <= i < |rows[1..]| ==> rows[1..][i].rowNum != HeadersRowExcel
    ensures rows[0].rowNum == HeadersRowExcel ==> DataRows(rows) == rows[1..]
    ensures rows[0].rowNum != HeadersRowExcel ==> DataRows(rows) == rows
  {
    var rest := rows[1..];
    NoHeaderKeepsAll(rest);
    var first := [rows[0]];
    assert rows == first + rest;
    DataRowsAppend(first, rest);
    SingleRow(rows[0]);
    if rows[0].rowNum == HeadersRowExcel {
      assert [] + rest == rest;
    }
  }

  lemma SingleRow(row: Row)
    ensures DataRows([row]) == if row.rowNum == HeadersRowExcel then [] else [row]
  {
    assert [row][..0] == [];
  }

  lemma RestHasNoHeader(rows: seq<Row>)
    requires WellFormedSheet(rows) && |rows| > 0
    ensures forall i :: 0 <= i < |rows[1..]| ==> rows[1..][i].rowNum != HeadersRowExcel
  {
    forall i | 0 <= i < |rows[1..]|
      ensures rows[1..][i].rowNum != HeadersRowExcel
    {
      assert rows[1..][i] == rows[i + 1] && rows[0].rowNum < rows[i + 1].rowNum;
    }
  }

  lemma {:induction false} NoHeaderKeepsAll(rows: seq<Row>)
    requires forall i :: 0 <= i < |rows| ==> rows[i].rowNum != HeadersRowExcel
    ensures DataRows(rows) == rows
    decreases |rows|
  {
    if |rows| > 0 {
      NoHeaderKeepsAll(rows[..|rows| - 1]);
    }
  }

  /** A sheet holding its header row and nothing else, or no rows at all, parses to the
      empty list. */
  lemma HeaderOnlyIsEmpty(header: seq<Option<string>>)
    ensures Parsed(Workbook(Some([Row(HeadersRowExcel, header)]))) == Ok([])
    ensures Parsed(Workbook(Some([]))) == Ok([])
  {
    assert [Row(HeadersRowExcel, header)][..0] == [];
  }

  /** On success there is one record per row that is not the header, in sheet order. */
  lemma RecordPerDataRow(rows: seq<Row>)
    requires Parsed(Workbook(Some(rows))).Ok?
    ensures |Parsed(Workbook(Some(rows))).value| == |DataRows(rows)|
    ensures forall i :: 0 <= i < |DataRows(rows)| ==>
      CheckRow(DataRows(rows)[i]).None? && RowRecord(DataRows(rows)[i]) == Ok(Parsed(Workbook(Some(rows))).value[i])
  {
    var data := DataRows(rows);
    var parsed := ParseEach(data, RowOutcome);
    assert Parsed(Workbook(Some(rows))) == parsed;
    ParseEachOk(data, RowOutcome);
    forall i | 0 <= i < |data|
      ensures CheckRow(data[i]).None? && RowRecord(data[i]) == Ok(parsed.value[i])
    {
      RowOutcomeOk(data[i], parsed.value[i]);
    }
  }

  lemma RowOutcomeOk(row: Row, record: AwardFileRecord)
    requires RowOutcome(row) == Ok(record)
    ensures CheckRow(row).None? && RowRecord(row) == Ok(record)
  {
  }

  /** Both errors a row can raise name its physical row: the empty cell error its 1-based
      number, the conversion error "строке " and that same number; gaps in the sheet never
      renumber a row. */
  lemma ErrorsNamePhysicalRow(row: Row)
    requires RowOutcome(row).Err?
    ensures RowOutcome(row).error == EmptyCell(EmptyCellIndex(row, 0), row.rowNum + 1)
         || RowOutcome(row).error == MalformedValue("строке " + LongToString(row.rowNum + 1))
  {
  }

  /** A null cell among columns 0 to 4 always stops the row, before any conversion: the error
      names the first such column. */
  lemma FirstEmptyCellReported(row: Row, k: nat)
    requires k < ExpectedColumns && GetCell(row, k).None?
    requires forall j :: 0 <= j < k ==> GetCell(row, j).Some?
    ensures RowOutcome(row) == Err(EmptyCell(k, row.rowNum + 1))
  {
  }

  /** The first failing row that is not the header decides the error of the whole sheet. */
  lemma FirstBadRowAborts(rows: seq<Row>, k: nat)
    requires k < |rows| && rows[k].rowNum != HeadersRowExcel && RowOutcome(rows[k]).Err?
    requires forall j :: 0 <= j < k && rows[j].rowNum != HeadersRowExcel ==> RowOutcome(rows[j]).Ok?
    ensures Parsed(Workbook(Some(rows))) == Err(RowOutcome(rows[k]).error)
  {
    var done := DataRows(rows[..k]);
    DataRowsOk(rows[..k]);
    ParseEachOk(done, RowOutcome);
    StepFailure(rows, k, RowOutcome);
  }

  lemma {:induction false} DataRowsOk(rows: seq<Row>)
    requires forall j :: 0 <= j < |rows| && rows[j].rowNum != HeadersRowExcel ==> RowOutcome(rows[j]).Ok?
    ensures forall i :: 0 <= i < |DataRows(rows)| ==> RowOutcome(DataRows(rows)[i]).Ok?
    decreases |rows|
  {
    if |rows| > 0 {
      DataRowsOk(rows[..|rows| - 1]);
    }
  }

  /** A spreadsheet row whose five cells hold the texts of a five-cell CSV line converts to
      the same record as that line, and is refused exactly when the line is. */
  lemma SameRecordAsCsvLine(line: seq<string>, rowNum: nat)
    requires |line| == ExpectedColumns
    ensures var row := Row(rowNum, seq(ExpectedColumns, i requires 0 <= i < ExpectedColumns => Some(line[i])));
      RowOutcome(row).Ok? == CsvParser.ReadRow(line).Ok?
      && (RowOutcome(row).Ok? ==> RowOutcome(row).value == CsvParser.ReadRow(line).value)
  {
    var row := Row(rowNum, seq(ExpectedColumns, i requires 0 <= i < ExpectedColumns => Some(line[i])));
    FirstEmptyCellAbsent(row);
    assert FormattedCells(row) == line;
    RecordParserUtils.AgreesWithConvertFields(line, CsvParser.ErrorContext(line));
  }

  lemma FirstEmptyCellAbsent(row: Row)
    requires forall j :: 0 <= j < ExpectedColumns ==> GetCell(row, j).Some?
    ensures CheckRow(row).None?
  {
  }
}
