/** The capitalised CsvParser (Parser/Impl): the same loop and column-count check as the live
    parser, with the conversion written inline; every conversion failure is the one
    malformed-value error, reported "в строке: " and the row. */
module LegacyCsvParser {
  import opened Wrappers
  import opened JavaText
  import opened Domain
  import opened FieldConversion
  import opened RowParsing
  import CsvParser
  import RecordParserUtils

  /** parseLine, reached only by a row that passed validateLine. */
  function ParseLine(line: seq<string>): Result<AwardFileRecord, FileError>
    requires |line| == ExpectedColumns
  {
    ConvertFields(line, "строке: " + ArraysToString(line))
  }

  /** One loop iteration: validateLine, then parseLine. */
  function ParseRow(line: seq<string>): Result<AwardFileRecord, FileError> {
    match CsvParser.ValidateLine(line)
    case Some(e) => Err(e)
    case None => ParseLine(line)
  }

  function Parsed(input: Stream<seq<string>>): Result<seq<AwardFileRecord>, FileError> {
    var records :- ParseEach(input.items[CsvParser.SkippedLines(input.items)..], ParseRow);
    match input.failure
    case Some(detail) => Err(CsvReadFailed(detail))
    case None => Ok(records)
  }

  /** parse, as the while (readNext() != null) loop appending to the list. */
  method Parse(input: Stream<seq<string>>) returns (r: Result<seq<AwardFileRecord>, FileError>)
    ensures r == Parsed(input)
  {
    var rows := input.items[CsvParser.SkippedLines(input.items)..];
    var records: seq<AwardFileRecord> := [];
    var i := 0;
    while i < |rows|
      invariant i <= |rows|
      invariant ParseEach(rows[..i], ParseRow) == Ok(records)
    {
      var line := rows[i];
      ParseEachStep(rows, i, ParseRow, records);
      var invalid := CsvParser.ValidateLine(line);
      if invalid.Some? {
        return Err(invalid.value);
      }
      var record := ParseLine(line);
      if record.Err? {
        return Err(record.error);
      }
      records := records + [record.value];
      i := i + 1;
    }
    assert rows[..i] == rows;
    if input.failure.Some? {
      return Err(CsvReadFailed(input.failure.value));
    }
    return Ok(records);
  }

  /** Row by row, the older parser and the live one decide alike: the column-count check is
      the same, and on five cells RecordParserUtils.createRecord cannot report missing data,
      so its malformed-value error carries the same context. */
  lemma SameRowOutcome(line: seq<string>)
    ensures ParseRow(line) == CsvParser.ReadRow(line)
  {
    if |line| == ExpectedColumns {
      RecordParserUtils.AgreesWithConvertFields(line, CsvParser.ErrorContext(line));
    }
  }

  lemma {:induction false} SameRows(rows: seq<seq<string>>)
    ensures ParseEach(rows, ParseRow) == ParseEach(rows, CsvParser.ReadRow)
    decreases |rows|
  {
    if |rows| > 0 {
      SameRows(rows[..|rows| - 1]);
      SameRowOutcome(rows[|rows| - 1]);
    }
  }

  /** The two CSV parsers give the same result, records or error, on every input. */
  lemma SameAsLiveParser(input: Stream<seq<string>>)
    ensures Parsed(input) == CsvParser.Parsed(input)
  {
    SameRows(input.items[CsvParser.SkippedLines(input.items)..]);
  }
}
