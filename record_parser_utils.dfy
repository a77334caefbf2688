/** RecordParserUtils.createRecord: the record constructor of the lower-case CsvParser. The
    five cells are read in column order 0 to 4; the first cell whose reading throws decides
    the error: an index past the end of the array is missing data, an identifier that
    Long.parseLong refuses or a date that LocalDate.parse refuses is a malformed value. */
module RecordParserUtils {
  import opened Wrappers
  import opened JavaText
  import opened Domain
  import opened FieldConversion

  /** The two ways reading a cell can fail. */
  datatype FieldFault = Missing | Malformed

  /** What reading column `column` of `values` throws, if anything: ArrayIndexOutOfBounds
      past the end of the array, NumberFormatException for an identifier column,
      DateTimeException for the date column. Name columns never fail. */
  function ColumnFault(values: seq<string>, column: nat): Option<FieldFault> {
    if column >= |values| then Some(Missing)
    else if (column == EmployeeExternalIdColumn || column == AwardExternalIdColumn)
            && ParseLong(values[column]).None? then Some(Malformed)
    else if column == ReceivedDateColumn && ParseDate(values[column]).None? then Some(Malformed)
    else None
  }

  /** The fault of the first failing column among `from` .. 4: the reference reading of the
      constructor call, one argument after another. */
  function FirstFault(values: seq<string>, from: nat): Option<FieldFault>
    decreases ExpectedColumns - from
  {
    if from >= ExpectedColumns then None
    else if ColumnFault(values, from).Some? then ColumnFault(values, from)
    else FirstFault(values, from + 1)
  }

  /** The FileParseException a fault is reported as. */
  function FaultError(fault: FieldFault, errorContext: string): FileError {
    match fault
    case Missing => MissingData(errorContext)
    case Malformed => MalformedValue(errorContext)
  }

  /** createRecord(values, errorContext), in the order Java evaluates the constructor's
      arguments. */
  function CreateRecord(values: seq<string>, errorContext: string): (r: Result<AwardFileRecord, FileError>)
    ensures r.Err? ==> r.error == MissingData(errorContext) || r.error == MalformedValue(errorContext)
    ensures r.Ok? ==> |values| >= ExpectedColumns && ParseLong(values[EmployeeExternalIdColumn]).Some?
                      && ParseLong(values[AwardExternalIdColumn]).Some? && ParseDate(values[ReceivedDateColumn]).Some?
    ensures r.Ok? ==> r.value == AwardFileRecord(
      ParseLong(values[EmployeeExternalIdColumn]).value, values[EmployeeFullNameColumn],
      ParseLong(values[AwardExternalIdColumn]).value, values[AwardNameColumn],
      ParseDate(values[ReceivedDateColumn]).value)
  {
    if |values| <= EmployeeExternalIdColumn then Err(MissingData(errorContext))
    else match ParseLong(values[EmployeeExternalIdColumn])
    case None => Err(MalformedValue(errorContext))
    case Some(employeeExternalId) =>
      if |values| <= AwardExternalIdColumn then Err(MissingData(errorContext))
      else match ParseLong(values[AwardExternalIdColumn])
      case None => Err(MalformedValue(errorContext))
      case Some(awardExternalId) =>
        if |values| <= ReceivedDateColumn then Err(MissingData(errorContext))
        else match ParseDate(values[ReceivedDateColumn])
        case None => Err(MalformedValue(errorContext))
        case Some(receivedDate) =>
          Ok(AwardFileRecord(employeeExternalId, values[EmployeeFullNameColumn],
                             awardExternalId, values[AwardNameColumn], receivedDate))
  }

  /** createRecord follows column order: it succeeds exactly when no column faults, and
      otherwise reports the fault of the first column that does. */
  lemma FollowsColumnOrder(values: seq<string>, errorContext: string)
    ensures CreateRecord(values, errorContext).Ok? <==> FirstFault(values, 0).None?
    ensures CreateRecord(values, errorContext).Err? ==>
      CreateRecord(values, errorContext).error == FaultError(FirstFault(values, 0).value, errorContext)
  {
  }

  lemma {:induction false} FirstFaultAt(values: seq<string>, from: nat, column: nat)
    requires from <= column < ExpectedColumns && ColumnFault(values, column).Some?
    requires forall c :: from <= c < column ==> ColumnFault(values, c).None?
    ensures FirstFault(values, from) == ColumnFault(values, column)
    decreases column - from
  {
    if from < column {
      FirstFaultAt(values, from + 1, column);
    }
  }

  /** The error comes from the first failing column: whichever column that is, its kind of
      fault is the one reported. */
  lemma FirstFailingColumnDecides(values: seq<string>, errorContext: string, column: nat)
    requires column < ExpectedColumns && ColumnFault(values, column).Some?
    requires forall c :: 0 <= c < column ==> ColumnFault(values, c).None?
    ensures CreateRecord(values, errorContext) == Err(FaultError(ColumnFault(values, column).value, errorContext))
  {
    FirstFaultAt(values, 0, column);
    FollowsColumnOrder(values, errorContext);
  }

  lemma {:induction false} FirstFaultNone(values: seq<string>, from: nat)
    requires from <= ExpectedColumns
    ensures FirstFault(values, from).None? <==> forall c :: from <= c < ExpectedColumns ==> ColumnFault(values, c).None?
    decreases ExpectedColumns - from
  {
    if from < ExpectedColumns {
      FirstFaultNone(values, from + 1);
    }
  }

  /** Missing data is reported exactly when the array is shorter than five cells and every
      cell it does hold is well formed; a bad identifier before the end of a short array is
      reported as malformed instead. */
  lemma MissingDataIff(values: seq<string>, errorContext: string)
    ensures CreateRecord(values, errorContext) == Err(MissingData(errorContext))
        <==> |values| < ExpectedColumns && forall c :: 0 <= c < |values| ==> ColumnFault(values, c).None?
  {
    FollowsColumnOrder(values, errorContext);
    if |values| < ExpectedColumns && forall c :: 0 <= c < |values| ==> ColumnFault(values, c).None? {
      FirstFailingColumnDecides(values, errorContext, |values|);
    } else if |values| >= ExpectedColumns {
      FirstFaultNone(values, 0);
      if FirstFault(values, 0).Some? {
        var c :| 0 <= c < ExpectedColumns && ColumnFault(values, c).Some?;
        FirstFaultIsMalformed(values, 0);
      }
    }
  }

  lemma {:induction false} FirstFaultIsMalformed(values: seq<string>, from: nat)
    requires |values| >= ExpectedColumns
    ensures FirstFault(values, from).Some? ==> FirstFault(values, from) == Some(Malformed)
    decreases ExpectedColumns - from
  {
    if from < ExpectedColumns {
      FirstFaultIsMalformed(values, from + 1);
    }
  }

  /** On the five cells of a row that passed the column-count check, createRecord and the
      all-malformed conversion of the capitalised parsers agree exactly. */
  lemma AgreesWithConvertFields(values: seq<string>, errorContext: string)
    requires |values| == ExpectedColumns
    ensures CreateRecord(values, errorContext) == ConvertFields(values, errorContext)
  {
    FirstFaultIsMalformed(values, 0);
    FollowsColumnOrder(values, errorContext);
  }

  /** The cells a record is written as: identifiers as Long.toString, names verbatim and the
      date as LocalDate.toString. */
  function RecordCells(record: AwardFileRecord): (cells: seq<string>)
    requires 0 <= record.receivedDate.year <= 9999 && ValidDate(record.receivedDate)
    ensures |cells| == ExpectedColumns
  {
    [LongToString(record.employeeExternalId), record.employeeFullName,
     LongToString(record.awardExternalId), record.awardName, FormatDate(record.receivedDate)]
  }

  /** Every record (with a four-digit year) is read back from its cells, whatever its names:
      names are never checked, so an empty or blank name passes through unchanged. */
  lemma CreateRecordRoundTrip(record: AwardFileRecord, errorContext: string)
    requires 0 <= record.receivedDate.year <= 9999 && ValidDate(record.receivedDate)
    ensures CreateRecord(RecordCells(record), errorContext) == Ok(record)
  {
    ParseLongRoundTrip(record.employeeExternalId);
    ParseLongRoundTrip(record.awardExternalId);
    ParseFormatDate(record.receivedDate);
  }
}
