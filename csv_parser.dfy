/** The live CsvParser (parser/impl): opencsv skips one header line, then every row must
    have five cells and is converted by RecordParserUtils.createRecord; the first failure
    abandons the list, and a read failure of the reader is wrapped. */
module CsvParser {
  import opened Wrappers
  import opened JavaText
  import opened Domain
  import opened RecordParserUtils
  import opened RowParsing
  import opened FieldConversion

  /** validateLine: the column-count check, None when the row has five cells. */
  function ValidateLine(line: seq<string>): Option<FileError> {
    if |line| != ExpectedColumns then Some(ColumnCount(|line|)) else None
  }

  /** The errorContext parseLine passes: "строке: " and the row as Arrays.toString. */
  function ErrorContext(line: seq<string>): string {
    "строке: " + ArraysToString(line)
  }

  /** parseLine: createRecord with the row as its error context. */
  function ParseLine(line: seq<string>): Result<AwardFileRecord, FileError> {
    CreateRecord(line, ErrorContext(line))
  }

  /** One loop iteration: validateLine, then parseLine. */
  function ReadRow(line: seq<string>): Result<AwardFileRecord, FileError> {
    match ValidateLine(line)
    case Some(e) => Err(e)
    case None => ParseLine(line)
  }

  /** The number of leading lines withSkipLines(HEADERS_ROW_CSV) consumes. */
  function SkippedLines(rows: seq<seq<string>>): nat {
    if |rows| < HeadersRowCsv then |rows| else HeadersRowCsv
  }

  /** parse: the records of every row after the skipped header, then the reader's own
      failure (the IOException or CsvValidationException it throws instead of the next row)
      if it has one. */
  function Parsed(input: Stream<seq<string>>): Result<seq<AwardFileRecord>, FileError> {
    var records :- ParseEach(input.items[SkippedLines(input.items)..], ReadRow);
    match input.failure
    case Some(detail) => Err(CsvReadFailed(detail))
    case None => Ok(records)
  }

  /** parse, as the while (readNext() != null) loop appending to the list. */
  method Parse(input: Stream<seq<string>>) returns (r: Result<seq<AwardFileRecord>, FileError>)
    ensures r == Parsed(input)
  {
    var rows := input.items[SkippedLines(input.items)..];
    var records: seq<AwardFileRecord> := [];
    var i := 0;
    while i < |rows|
      invariant i <= |rows|
      invariant ParseEach(rows[..i], ReadRow) == Ok(records)
    {
      var line := rows[i];
      ParseEachStep(rows, i, ReadRow, records);
      var invalid := ValidateLine(line);
      if invalid.Some? {
        return Err(invalid.value);
      }
      var record := ParseLine(line);
      if record.Err? {
        return Err(record.error);
      }
      records := records + [record.value];
      i := i + 1;
    }
    assert rows[..i] == rows;
    if input.failure.Some? {
      return Err(CsvReadFailed(input.failure.value));
    }
    return Ok(records);
  }

  /** A file holding only its header line, or nothing at all, parses to the empty list. */
  lemma HeaderOnlyIsEmpty(header: seq<seq<string>>)
    requires |header| <= HeadersRowCsv
    ensures Parsed(Stream(header, None)) == Ok([])
  {
  }

  /** On success there is one record per line after the header, in file order, and each is
      createRecord of its line. */
  lemma RecordPerRow(input: Stream<seq<string>>)
    requires Parsed(input).Ok?
    ensures input.failure.None?
    ensures |input.items| >= HeadersRowCsv ==> |Parsed(input).value| == |input.items| - HeadersRowCsv
    ensures forall i :: HeadersRowCsv <= i < |input.items| ==>
      |input.items[i]| == ExpectedColumns
      && CreateRecord(input.items[i], ErrorContext(input.items[i])) == Ok(Parsed(input).value[i - HeadersRowCsv])
  {
    ParsedOk(input);
    forall i | HeadersRowCsv <= i < |input.items|
      ensures |input.items[i]| == ExpectedColumns
      ensures CreateRecord(input.items[i], ErrorContext(input.items[i])) == Ok(Parsed(input).value[i - HeadersRowCsv])
    {
      RowAt(input, i);
      ReadRowOk(input.items[i], Parsed(input).value[i - HeadersRowCsv]);
    }
  }

  /** The line at i after the header is read into the record at i - HeadersRowCsv. */
  lemma RowAt(input: Stream<seq<string>>, i: nat)
    requires Parsed(input).Ok? && HeadersRowCsv <= i < |input.items|
    ensures i - HeadersRowCsv < |Parsed(input).value|
    ensures ReadRow(input.items[i]) == Ok(Parsed(input).value[i - HeadersRowCsv])
  {
    var rows := input.items[HeadersRowCsv..];
    assert SkippedLines(input.items) == HeadersRowCsv;
    ParsedOk(input);
    ParseEachOk(rows, ReadRow);
    assert rows[i - HeadersRowCsv] == input.items[i];
  }

  lemma ParsedOk(input: Stream<seq<string>>)
    requires Parsed(input).Ok?
    ensures input.failure.None?
    ensures ParseEach(input.items[SkippedLines(input.items)..], ReadRow) == Ok(Parsed(input).value)
  {
  }

  lemma ReadRowOk(line: seq<string>, record: AwardFileRecord)
    requires ReadRow(line) == Ok(record)
    ensures |line| == ExpectedColumns && CreateRecord(line, ErrorContext(line)) == Ok(record)
  {
  }

  /** The first bad row after the header decides the error: for a row with a cell count other
      than five it is that count, otherwise createRecord's error; later rows and the reader's
      own failure are never reached. */
  lemma FirstBadRowAborts(input: Stream<seq<string>>, k: nat)
    requires HeadersRowCsv <= k < |input.items| && ReadRow(input.items[k]).Err?
    requires forall j :: HeadersRowCsv <= j < k ==> ReadRow(input.items[j]).Ok?
    ensures Parsed(input) == Err(
      if |input.items[k]| != ExpectedColumns then ColumnCount(|input.items[k]|)
      else CreateRecord(input.items[k], ErrorContext(input.items[k])).error)
  {
    var data := input.items[HeadersRowCsv..];
    var n := k - HeadersRowCsv;
    assert data[n] == input.items[k];
    assert forall j :: 0 <= j < n ==> data[..n][j] == input.items[j + HeadersRowCsv];
    ParseEachOk(data[..n], ReadRow);
    ParseEachStopsAt(data, n, ReadRow);
  }

  /** A data row of three cells stops the parse with the column-count error naming 3. */
  lemma ThreeColumnRowRefused(header: seq<string>)
    ensures Parsed(Stream([header, ["1247", "Мария Козлова", "891"]], None)) == Err(ColumnCount(3))
  {
    var rows: seq<seq<string>> := [header, ["1247", "Мария Козлова", "891"]];
    FirstBadRowAborts(Stream(rows, None), 1);
  }

  /** A five-cell row whose date is not yyyy-MM-dd stops the parse with the malformed-value
      error for that row. */
  lemma InvalidDateRefused(header: seq<string>)
    ensures var row := ["1247", "Мария Козлова", "891", "За выдающиеся результаты", "invalid-date"];
      Parsed(Stream([header, row], None)) == Err(MalformedValue(ErrorContext(row)))
  {
    var row: seq<string> := ["1247", "Мария Козлова", "891", "За выдающиеся результаты", "invalid-date"];
    assert ParseDate(row[ReceivedDateColumn]).None? by { assert row[ReceivedDateColumn][4] != '-'; }
    AgreesWithConvertFields(row, ErrorContext(row));
    FirstBadRowAborts(Stream([header, row], None), 1);
  }
}
