/** FileProcessingService: validate the upload, choose its parser, parse it, then reconcile the
    records one by one against the store. A record whose employee is unknown is skipped with a
    message and the loop goes on; any other record is an upsert of its award, keyed by the
    award's external identifier. */
module FileProcessingService {
  import opened Wrappers
  import opened JavaText
  import opened Domain
  import opened AwardStore
  import FileValidator
  import FileFactory
  import CsvParser
  import ExcelParser

  /** What processRecord does with one record: Ok(created), or the message of the
      RuntimeException it throws. */
  type RecordOutcome = Result<bool, string>

  /** The IllegalArgumentException message for an unknown employee. */
  function EmployeeNotFound(employeeExternalId: Int64): string {
    "Сотрудник не найден: " + LongToString(employeeExternalId)
  }

  const ErrorPrefix: string := "Ошибка при обработке записи (employeeId="
  const AwardIdLabel: string := ", awardId="
  const MessageSeparator: string := "): "

  /** formatError: the record's two identifiers (%d of a long) and the exception message. */
  function FormatError(record: AwardFileRecord, message: string): string {
    ErrorPrefix + LongToString(record.employeeExternalId) + AwardIdLabel
      + LongToString(record.awardExternalId) + MessageSeparator + message
  }

  /** mapRecordToAward: every field but the store key comes from the record and the employee;
      the key is the one the award already had (None for a new Award()). */
  function MapRecordToAward(awardId: Option<nat>, employee: Employee, record: AwardFileRecord): Award {
    Award(awardId, record.awardName, record.receivedDate, record.awardExternalId, employee)
  }

  /** processRecord, on the store's contents: the new contents and the outcome. */
  function Reconcile(s: StoreState, record: AwardFileRecord): (StoreState, RecordOutcome)
  {
    match Lookup(s.employees, record.employeeExternalId)
    case None => (s, Err(EmployeeNotFound(record.employeeExternalId)))
    case Some(employee) =>
      var existing := Lookup(s.awards, record.awardExternalId);
      var awardId := if existing.Some? then existing.value.awardId else None;
      (SaveAward(s, MapRecordToAward(awardId, employee, record)), Ok(existing.None?))
  }

  /** processRecord's effect: an unknown employee fails the record with its message and
      leaves the store alone; otherwise the award under the record's external identifier now
      holds the record's name and date and the employee, keeps the key it had, counts as created
      exactly when it was not stored before, and no other row changes. */
  lemma ReconcileEffect(s: StoreState, record: AwardFileRecord)
    ensures var r := Reconcile(s, record);
      && (r.1.Err? <==> record.employeeExternalId !in s.employees)
      && (r.1.Err? ==> r.0 == s && r.1.error == EmployeeNotFound(record.employeeExternalId))
      && (r.1.Ok? ==> (r.1.value <==> record.awardExternalId !in s.awards))
      && (r.1.Ok? ==> (record.awardExternalId in r.0.awards
           && r.0.awards[record.awardExternalId].awardName == record.awardName
           && r.0.awards[record.awardExternalId].receivedDate == record.receivedDate
           && r.0.awards[record.awardExternalId].awardExternalId == record.awardExternalId
           && r.0.awards[record.awardExternalId].employee == s.employees[record.employeeExternalId]))
      && (r.1.Ok? && record.awardExternalId in s.awards && s.awards[record.awardExternalId].awardId.Some? ==>
           r.0.awards[record.awardExternalId].awardId == s.awards[record.awardExternalId].awardId)
      && r.0.employees == s.employees
      && r.0.awards.Keys == s.awards.Keys + (if r.1.Ok? then {record.awardExternalId} else {})
      && (forall k :: k in s.awards && k != record.awardExternalId ==> r.0.awards[k] == s.awards[k])
  {
  }

  /** The records reconciled in list order: the final contents and one outcome per record. */
  function ReconcileAll(s: StoreState, records: seq<AwardFileRecord>): (r: (StoreState, seq<RecordOutcome>))
    ensures |r.1| == |records|
    decreases |records|
  {
    if records == [] then (s, [])
    else
      var before := ReconcileAll(s, records[..|records| - 1]);
      var step := Reconcile(before.0, records[|records| - 1]);
      (step.0, before.1 + [step.1])
  }

  /** processRecord returned true: a new award was saved. */
  predicate IsCreated(outcome: RecordOutcome) {
    outcome.Ok? && outcome.value
  }

  /** processRecord returned false: a stored award was overwritten. */
  predicate IsUpdated(outcome: RecordOutcome) {
    outcome.Ok? && !outcome.value
  }

  function CountProcessed(outcomes: seq<RecordOutcome>): nat {
    if outcomes == [] then 0
    else CountProcessed(outcomes[..|outcomes| - 1]) + (if outcomes[|outcomes| - 1].Ok? then 1 else 0)
  }

  function CountSkipped(outcomes: seq<RecordOutcome>): nat {
    if outcomes == [] then 0
    else CountSkipped(outcomes[..|outcomes| - 1]) + (if outcomes[|outcomes| - 1].Err? then 1 else 0)
  }

  function CountCreated(outcomes: seq<RecordOutcome>): nat {
    if outcomes == [] then 0
    else CountCreated(outcomes[..|outcomes| - 1]) + (if IsCreated(outcomes[|outcomes| - 1]) then 1 else 0)
  }

  function CountUpdated(outcomes: seq<RecordOutcome>): nat {
    if outcomes == [] then 0
    else CountUpdated(outcomes[..|outcomes| - 1]) + (if IsUpdated(outcomes[|outcomes| - 1]) then 1 else 0)
  }

  /** handleRecordError, for every skipped record in order. */
  function Errors(records: seq<AwardFileRecord>, outcomes: seq<RecordOutcome>): seq<string>
    requires |records| == |outcomes|
  {
    if records == [] then []
    else
      var n := |records| - 1;
      Errors(records[..n], outcomes[..n])
        + (if outcomes[n].Err? then [FormatError(records[n], outcomes[n].error)] else [])
  }

  /** The UploadResult processRecords builds from the outcomes. */
  function Summary(records: seq<AwardFileRecord>, outcomes: seq<RecordOutcome>): UploadResult
    requires |records| == |outcomes|
  {
    UploadResult(|records|, CountProcessed(outcomes), CountSkipped(outcomes),
                 CountUpdated(outcomes), CountCreated(outcomes), Errors(records, outcomes))
  }

  /** processRecords on the store's contents. */
  function ProcessedRecords(s: StoreState, records: seq<AwardFileRecord>): (StoreState, UploadResult) {
    var done := ReconcileAll(s, records);
    (done.0, Summary(records, done.1))
  }

  /** processRecord: look the employee up, fail when absent, otherwise reuse or create the
      award, overwrite its fields and save it. */
  method ProcessRecord(store: Store, record: AwardFileRecord) returns (outcome: RecordOutcome)
    modifies store
    ensures (store.State(), outcome) == Reconcile(old(store.State()), record)
    ensures StoreInvariant(old(store.State())) ==> StoreInvariant(store.State())
  {
    ghost var initial := store.State();
    if StoreInvariant(initial) {
      ReconcilePreservesInvariant(initial, record);
    }
    var employeeOpt := store.FindEmployee(record.employeeExternalId);
    if employeeOpt.None? {
      return Err(EmployeeNotFound(record.employeeExternalId));
    }
    var employee := employeeOpt.value;
    var awardOpt := store.FindAward(record.awardExternalId);
    var awardId := if awardOpt.Some? then awardOpt.value.awardId else None;
    var created := awardOpt.None?;
    var award := MapRecordToAward(awardId, employee, record);
    var _ := store.Save(award);
    return Ok(created);
  }

  lemma ReconcileAllStep(s: StoreState, records: seq<AwardFileRecord>, i: nat)
    requires i < |records|
    ensures ReconcileAll(s, records[..i + 1])
         == (Reconcile(ReconcileAll(s, records[..i]).0, records[i]).0,
             ReconcileAll(s, records[..i]).1 + [Reconcile(ReconcileAll(s, records[..i]).0, records[i]).1])
  {
    assert records[..i + 1][..i] == records[..i];
  }

  lemma TallyStep(records: seq<AwardFileRecord>, outcomes: seq<RecordOutcome>, record: AwardFileRecord, outcome: RecordOutcome)
    requires |records| == |outcomes|
    ensures CountProcessed(outcomes + [outcome]) == CountProcessed(outcomes) + (if outcome.Ok? then 1 else 0)
    ensures CountSkipped(outcomes + [outcome]) == CountSkipped(outcomes) + (if outcome.Err? then 1 else 0)
    ensures CountCreated(outcomes + [outcome]) == CountCreated(outcomes) + (if IsCreated(outcome) then 1 else 0)
    ensures CountUpdated(outcomes + [outcome]) == CountUpdated(outcomes) + (if IsUpdated(outcome) then 1 else 0)
    ensures Errors(records + [record], outcomes + [outcome])
         == Errors(records, outcomes) + (if outcome.Err? then [FormatError(record, outcome.error)] else [])
  {
    assert (outcomes + [outcome])[..|outcomes|] == outcomes;
    assert (records + [record])[..|records|] == records;
  }

  lemma ProcessStep(initial: StoreState, records: seq<AwardFileRecord>, i: nat,
                    before: StoreState, after: StoreState, outcome: RecordOutcome)
    requires i < |records| && before == ReconcileAll(initial, records[..i]).0
    requires (after, outcome) == Reconcile(before, records[i])
    ensures after == ReconcileAll(initial, records[..i + 1]).0
    ensures ReconcileAll(initial, records[..i]).1 + [outcome] == ReconcileAll(initial, records[..i + 1]).1
    ensures records[..i + 1] == records[..i] + [records[i]]
  {
    ReconcileAllStep(initial, records, i);
  }

  /** processRecords: the for loop with its four counters and the error list. */
  method ProcessRecords(store: Store, records: seq<AwardFileRecord>) returns (result: UploadResult)
    modifies store
    ensures (store.State(), result) == ProcessedRecords(old(store.State()), records)
    ensures StoreInvariant(old(store.State())) ==> StoreInvariant(store.State())
  {
    ghost var initial := store.State();
    if StoreInvariant(initial) {
      InvariantPreserved(initial, records);
    }
    ghost var outcomes: seq<RecordOutcome> := [];
    var processedRecords: nat := 0;
    var createdRecords: nat := 0;
    var updatedRecords: nat := 0;
    var skippedRecords: nat := 0;
    var errors: seq<string> := [];
    for i := 0 to |records|
      invariant store.State() == ReconcileAll(initial, records[..i]).0
      invariant outcomes == ReconcileAll(initial, records[..i]).1
      invariant processedRecords == CountProcessed(outcomes)
      invariant skippedRecords == CountSkipped(outcomes)
      invariant createdRecords == CountCreated(outcomes)
      invariant updatedRecords == CountUpdated(outcomes)
      invariant errors == Errors(records[..i], outcomes)
    {
      ghost var before := store.State();
      var outcome := ProcessRecord(store, records[i]);
      ProcessStep(initial, records, i, before, store.State(), outcome);
      TallyStep(records[..i], outcomes, records[i], outcome);
      outcomes := outcomes + [outcome];
      if outcome.Ok? {
        processedRecords := processedRecords + 1;
        if outcome.value {
          createdRecords := createdRecords + 1;
        } else {
          updatedRecords := updatedRecords + 1;
        }
      } else {
        errors := errors + [FormatError(records[i], outcome.error)];
        skippedRecords := skippedRecords + 1;
      }
    }
    assert records[..|records|] == records;
    result := UploadResult(|records|, processedRecords, skippedRecords, updatedRecords, createdRecords, errors);
  }

  /** parseFile: validate, choose the parser by name, open the input stream (an IOException
      here becomes the read failure of processFile), parse. */
  function ParsedFile(upload: Upload): Result<seq<AwardFileRecord>, FileError> {
    match FileValidator.Validation(upload)
    case Some(e) => Err(e)
    case None =>
      var parser :- FileFactory.GetParser(upload.originalFilename);
      match upload.inputStreamFailure
      case Some(detail) => Err(ReadFailed(detail))
      case None =>
        match parser
        case CsvParserKind => CsvParser.Parsed(upload.csvRows)
        case ExcelParserKind => ExcelParser.Parsed(upload.workbook)
  }

  method ParseFile(upload: Upload) returns (r: Result<seq<AwardFileRecord>, FileError>)
    ensures r == ParsedFile(upload)
  {
    var invalid := FileValidator.Validate(upload);
    if invalid.Some? {
      return Err(invalid.value);
    }
    var parser := FileFactory.GetParser(upload.originalFilename);
    if parser.Err? {
      return Err(parser.error);
    }
    if upload.inputStreamFailure.Some? {
      return Err(ReadFailed(upload.inputStreamFailure.value));
    }
    match parser.value {
      case CsvParserKind => r := CsvParser.Parse(upload.csvRows);
      case ExcelParserKind => r := ExcelParser.Parse(upload.workbook);
    }
  }

  /** processFile on the store's contents: a file that fails before reconciliation fails as a
      whole, otherwise every parsed record is reconciled. */
  function Ingested(s: StoreState, upload: Upload): Result<(StoreState, UploadResult), FileError> {
    var records :- ParsedFile(upload);
    Ok(ProcessedRecords(s, records))
  }

  /** processFile: a validation, selection or parse failure propagates before any record is
      reconciled, so the store is untouched. */
  method ProcessFile(store: Store, upload: Upload) returns (r: Result<UploadResult, FileError>)
    modifies store
    ensures r.Err? ==> store.State() == old(store.State())
    ensures Ingested(old(store.State()), upload)
         == (if r.Err? then Err(r.error) else Ok((store.State(), r.value)))
    ensures StoreInvariant(old(store.State())) ==> StoreInvariant(store.State())
  {
    var records := ParseFile(upload);
    if records.Err? {
      return Err(records.error);
    }
    var result := ProcessRecords(store, records.value);
    return Ok(result);
  }

  /** Every record is counted once, as processed or skipped, and every processed record once,
      as created or updated. */
  lemma {:induction false} CountsAddUp(outcomes: seq<RecordOutcome>)
    ensures CountProcessed(outcomes) + CountSkipped(outcomes) == |outcomes|
    ensures CountCreated(outcomes) + CountUpdated(outcomes) == CountProcessed(outcomes)
    decreases |outcomes|
  {
    if outcomes != [] {
      CountsAddUp(outcomes[..|outcomes| - 1]);
    }
  }

  lemma {:induction false} OneErrorPerSkip(records: seq<AwardFileRecord>, outcomes: seq<RecordOutcome>)
    requires |records| == |outcomes|
    ensures |Errors(records, outcomes)| == CountSkipped(outcomes)
    decreases |records|
  {
    if records != [] {
      var n := |records| - 1;
      OneErrorPerSkip(records[..n], outcomes[..n]);
    }
  }

  /** The counters of the result: the total is the number of parsed records, processed and
      skipped add up to it, created and updated add up to processed, and there is one error
      message per skipped record. */
  lemma SummaryCounts(s: StoreState, records: seq<AwardFileRecord>)
    ensures var result := ProcessedRecords(s, records).1;
      && result.totalRecords == |records|
      && result.processedRecords + result.skippedRecords == result.totalRecords
      && result.createdRecords + result.updatedRecords == result.processedRecords
      && |result.errors| == result.skippedRecords
  {
    CountsAddUp(ReconcileAll(s, records).1);
    OneErrorPerSkip(records, ReconcileAll(s, records).1);
  }

  /** Employees are only ever read. */
  lemma {:induction false} EmployeesUnchanged(s: StoreState, records: seq<AwardFileRecord>)
    ensures ReconcileAll(s, records).0.employees == s.employees
    decreases |records|
  {
    if records != [] {
      var n := |records| - 1;
      EmployeesUnchanged(s, records[..n]);
      ReconcileEffect(ReconcileAll(s, records[..n]).0, records[n]);
    }
  }

  lemma {:induction false} OutcomesPrefix(s: StoreState, records: seq<AwardFileRecord>, i: nat)
    requires i <= |records|
    ensures ReconcileAll(s, records[..i]).1 == ReconcileAll(s, records).1[..i]
    decreases |records|
  {
    if i < |records| {
      var n := |records| - 1;
      var all := ReconcileAll(s, records).1;
      OutcomesPrefix(s, records[..n], i);
      assert records[..n][..i] == records[..i];
      assert all[..n] == ReconcileAll(s, records[..n]).1;
      assert all[..n][..i] == all[..i];
    } else {
      assert records[..i] == records;
    }
  }

  /** The outcome of a record is processRecord on the contents the records before it left. */
  lemma OutcomeAt(s: StoreState, records: seq<AwardFileRecord>, i: nat)
    requires i < |records|
    ensures ReconcileAll(s, records).1[i] == Reconcile(ReconcileAll(s, records[..i]).0, records[i]).1
  {
    var all := ReconcileAll(s, records).1;
    var upTo := ReconcileAll(s, records[..i + 1]).1;
    var before := ReconcileAll(s, records[..i]);
    OutcomesPrefix(s, records, i + 1);
    ReconcileAllStep(s, records, i);
    assert upTo == before.1 + [Reconcile(before.0, records[i]).1];
    assert |before.1| == i;
    assert all[i] == all[..i + 1][i] == upTo[i];
  }

  /** A record is skipped exactly when its employee is not in the store, with the not-found
      message; earlier records cannot change that, since employees are only read. */
  lemma SkippedIffEmployeeUnknown(s: StoreState, records: seq<AwardFileRecord>, i: nat)
    requires i < |records|
    ensures ReconcileAll(s, records).1[i].Err? <==> records[i].employeeExternalId !in s.employees
    ensures ReconcileAll(s, records).1[i].Err? ==>
      ReconcileAll(s, records).1[i].error == EmployeeNotFound(records[i].employeeExternalId)
  {
    OutcomeAt(s, records, i);
    EmployeesUnchanged(s, records[..i]);
    ReconcileEffect(ReconcileAll(s, records[..i]).0, records[i]);
  }

  /** Reference reading of the error list: one formatted not-found message for each record
      whose employee is unknown, in record order. */
  function UnknownEmployeeErrors(records: seq<AwardFileRecord>, employees: map<Int64, Employee>): seq<string> {
    if records == [] then []
    else
      var n := |records| - 1;
      UnknownEmployeeErrors(records[..n], employees)
        + (if records[n].employeeExternalId in employees then []
           else [FormatError(records[n], EmployeeNotFound(records[n].employeeExternalId))])
  }

  /** The errors of the result are exactly the unknown-employee messages, in record order. */
  lemma {:induction false} ErrorsAreUnknownEmployees(s: StoreState, records: seq<AwardFileRecord>)
    ensures ProcessedRecords(s, records).1.errors == UnknownEmployeeErrors(records, s.employees)
    decreases |records|
  {
    if records != [] {
      var n := |records| - 1;
      ErrorsAreUnknownEmployees(s, records[..n]);
      assert ReconcileAll(s, records).1[..n] == ReconcileAll(s, records[..n]).1;
      EmployeesUnchanged(s, records[..n]);
      ReconcileEffect(ReconcileAll(s, records[..n]).0, records[n]);
    }
  }

  /** Some record among `records` with a known employee carries award external id `key`. */
  predicate Reached(records: seq<AwardFileRecord>, employees: map<Int64, Employee>, key: Int64) {
    exists j :: 0 <= j < |records| && records[j].awardExternalId == key && records[j].employeeExternalId in employees
  }

  lemma ReachedSnoc(records: seq<AwardFileRecord>, employees: map<Int64, Employee>, key: Int64)
    requires records != []
    ensures Reached(records, employees, key) <==>
      Reached(records[..|records| - 1], employees, key)
      || (records[|records| - 1].awardExternalId == key && records[|records| - 1].employeeExternalId in employees)
  {
    var n := |records| - 1;
    if Reached(records, employees, key) {
      var j :| 0 <= j < |records| && records[j].awardExternalId == key && records[j].employeeExternalId in employees;
      if j < n {
        assert records[..n][j] == records[j];
      }
    }
    if Reached(records[..n], employees, key) {
      var j :| 0 <= j < n && records[..n][j].awardExternalId == key && records[..n][j].employeeExternalId in employees;
      assert records[j] == records[..n][j];
    }
  }

  /** After reconciliation the stored awards are those stored before and one for every
      award external id a processed record carried. */
  lemma {:induction false} AwardKeys(s: StoreState, records: seq<AwardFileRecord>, key: Int64)
    ensures key in ReconcileAll(s, records).0.awards <==> key in s.awards || Reached(records, s.employees, key)
    decreases |records|
  {
    if records != [] {
      var n := |records| - 1;
      AwardKeys(s, records[..n], key);
      EmployeesUnchanged(s, records[..n]);
      ReconcileEffect(ReconcileAll(s, records[..n]).0, records[n]);
      ReachedSnoc(records, s.employees, key);
    }
  }

  /** A processed record counts as created exactly when it is the first sighting of its award:
      not stored before the upload and not carried by an earlier processed record. */
  lemma CreatedIffFirstSighting(s: StoreState, records: seq<AwardFileRecord>, i: nat)
    requires i < |records|
    ensures IsCreated(ReconcileAll(s, records).1[i])
        <==> records[i].employeeExternalId in s.employees && records[i].awardExternalId !in s.awards
             && !Reached(records[..i], s.employees, records[i].awardExternalId)
    ensures IsUpdated(ReconcileAll(s, records).1[i])
        <==> records[i].employeeExternalId in s.employees
             && (records[i].awardExternalId in s.awards || Reached(records[..i], s.employees, records[i].awardExternalId))
  {
    OutcomeAt(s, records, i);
    EmployeesUnchanged(s, records[..i]);
    AwardKeys(s, records[..i], records[i].awardExternalId);
    ReconcileEffect(ReconcileAll(s, records[..i]).0, records[i]);
  }

  /** The award `a` holds the fields processRecord copies from `record`, linked to `employee`. */
  predicate HoldsRecord(a: Award, record: AwardFileRecord, employee: Employee) {
    a.awardName == record.awardName && a.receivedDate == record.receivedDate
    && a.awardExternalId == record.awardExternalId && a.employee == employee
  }

  /** Records are reconciled in list order, so the last processed record carrying an award
      external id decides what is finally stored under it. */
  lemma {:induction false} LastWriteWins(s: StoreState, records: seq<AwardFileRecord>, j: nat)
    requires j < |records| && records[j].employeeExternalId in s.employees
    requires forall l :: j < l < |records| && records[l].awardExternalId == records[j].awardExternalId
               ==> records[l].employeeExternalId !in s.employees
    ensures records[j].awardExternalId in ReconcileAll(s, records).0.awards
    ensures HoldsRecord(ReconcileAll(s, records).0.awards[records[j].awardExternalId], records[j],
                        s.employees[records[j].employeeExternalId])
    decreases |records|
  {
    var n := |records| - 1;
    EmployeesUnchanged(s, records[..n]);
    ReconcileEffect(ReconcileAll(s, records[..n]).0, records[n]);
    if j < n {
      assert records[..n][j] == records[j];
      forall l | j < l < n && records[..n][l].awardExternalId == records[..n][j].awardExternalId
        ensures records[..n][l].employeeExternalId !in s.employees
      {
        assert records[..n][l] == records[l];
      }
      LastWriteWins(s, records[..n], j);
    }
  }

  /** A stored award keeps its store key (awardId) however often it is updated. */
  lemma {:induction false} AwardIdsKept(s: StoreState, records: seq<AwardFileRecord>, key: Int64)
    requires key in s.awards && s.awards[key].awardId.Some?
    ensures key in ReconcileAll(s, records).0.awards
    ensures ReconcileAll(s, records).0.awards[key].awardId == s.awards[key].awardId
    decreases |records|
  {
    if records != [] {
      var n := |records| - 1;
      AwardIdsKept(s, records[..n], key);
      ReconcileEffect(ReconcileAll(s, records[..n]).0, records[n]);
    }
  }

  /** A skipped record never reaches save, so the store is exactly as before it. */
  lemma SkippedRecordSavesNothing(s: StoreState, records: seq<AwardFileRecord>, i: nat)
    requires i < |records| && records[i].employeeExternalId !in s.employees
    ensures ReconcileAll(s, records[..i + 1]).0 == ReconcileAll(s, records[..i]).0
  {
    ReconcileAllStep(s, records, i);
    EmployeesUnchanged(s, records[..i]);
    ReconcileEffect(ReconcileAll(s, records[..i]).0, records[i]);
  }

  /** processRecord keeps the store consistent. */
  lemma ReconcilePreservesInvariant(s: StoreState, record: AwardFileRecord)
    requires StoreInvariant(s)
    ensures StoreInvariant(Reconcile(s, record).0)
  {
    if record.employeeExternalId in s.employees {
      var existing := Lookup(s.awards, record.awardExternalId);
      var awardId := if existing.Some? then existing.value.awardId else None;
      SavePreservesInvariant(s, MapRecordToAward(awardId, s.employees[record.employeeExternalId], record));
    }
  }

  /** So does processRecords, whatever the records. */
  lemma {:induction false} InvariantPreserved(s: StoreState, records: seq<AwardFileRecord>)
    requires StoreInvariant(s)
    ensures StoreInvariant(ReconcileAll(s, records).0)
    decreases |records|
  {
    if records != [] {
      var n := |records| - 1;
      InvariantPreserved(s, records[..n]);
      ReconcilePreservesInvariant(ReconcileAll(s, records[..n]).0, records[n]);
    }
  }

  /** The record's employee name is never consulted: employees are matched by external id
      only. */
  lemma EmployeeMatchedById(s: StoreState, record: AwardFileRecord, name: string)
    ensures Reconcile(s, record.(employeeFullName := name)).0 == Reconcile(s, record).0
  {
  }

  /** An upload that passes validation always gets a parser, except one whose whole name is a
      supported extension (".csv" in any letter case): the validator accepts it by its suffix,
      while the factory finds no character before the dot and refuses it. */
  lemma ValidatedUploadGetsParser(upload: Upload)
    requires FileValidator.Validation(upload).None?
    ensures upload.originalFilename.Some?
    ensures FileFactory.GetParser(upload.originalFilename).Err?
        <==> ToLower(upload.originalFilename.value) in FileFactory.ParserSuppliers
    ensures FileFactory.GetParser(upload.originalFilename).Err? ==>
      FileFactory.GetParser(upload.originalFilename).error == NoExtension(ToLower(upload.originalFilename.value))
  {
    var name := upload.originalFilename.value;
    var key := match FileValidator.FormatOf(name)
               case Some(CsvFormat) => FileFactory.ExtensionCsv
               case Some(XlsFormat) => FileFactory.ExtensionXls
               case _ => FileFactory.ExtensionXlsx;
    FileFactory.ExtensionOnlyName(name, key);
  }

  /** A file refused by validation fails as a whole with the validator's error, and no record
      is reconciled. */
  lemma ValidationFailureAborts(s: StoreState, upload: Upload)
    requires FileValidator.Validation(upload).Some?
    ensures Ingested(s, upload) == Err(FileValidator.Validation(upload).value)
  {
  }

  /** One record of a known employee and one of an unknown one, against a store that holds
      only the first employee and no awards: one award is created under the next key, the
      other record is skipped with its message, and the totals say so. */
  lemma MixedRecordsProcessPartially()
    ensures var employee := Employee(1, "Мария Козлова", 1247);
      var valid := AwardFileRecord(1247, "Мария Козлова", 891, "Награда", Date(2025, 3, 22));
      var invalid := AwardFileRecord(9999, "Несуществующий", 500, "Награда", Date(2025, 1, 1));
      var done := ProcessedRecords(StoreState(map[1247 := employee], map[], 7), [valid, invalid]);
      && done.1 == UploadResult(2, 1, 1, 0, 1, [FormatError(invalid, EmployeeNotFound(9999))])
      && done.0.awards == map[891 := Award(Some(7), "Награда", Date(2025, 3, 22), 891, employee)]
      && done.0.nextAwardId == 8
  {
    var employee := Employee(1, "Мария Козлова", 1247);
    var valid := AwardFileRecord(1247, "Мария Козлова", 891, "Награда", Date(2025, 3, 22));
    var invalid := AwardFileRecord(9999, "Несуществующий", 500, "Награда", Date(2025, 1, 1));
    var s := StoreState(map[1247 := employee], map[], 7);
    var records := [valid, invalid];
    assert records[..0] == [];
    assert ReconcileAll(s, records[..0]) == (s, []);
    ReconcileAllStep(s, records, 0);
    assert Lookup(s.employees, 1247) == Some(employee);
    assert Lookup(s.awards, 891) == None;
    var s1 := SaveAward(s, MapRecordToAward(None, employee, valid));
    assert Reconcile(s, valid) == (s1, Ok(true));
    assert ReconcileAll(s, records[..1]).0 == s1;
    assert ReconcileAll(s, records[..1]).1 == [] + [Ok(true)];
    assert ReconcileAll(s, records[..1]).1 == [Ok(true)];
    ReconcileAllStep(s, records, 1);
    assert Lookup(s1.employees, 9999) == None;
    assert Reconcile(s1, invalid) == (s1, Err(EmployeeNotFound(9999)));
    assert records[..2] == records;
    var outcomes: seq<RecordOutcome> := [Ok(true), Err(EmployeeNotFound(9999))];
    assert ReconcileAll(s, records).0 == s1;
    assert ReconcileAll(s, records).1 == [Ok(true)] + [Err(EmployeeNotFound(9999))];
    assert ReconcileAll(s, records).1 == outcomes;
    assert outcomes[..1] == [Ok(true)] && outcomes[..1][..0] == [];
    assert records[..1][..0] == [];
    assert CountCreated(outcomes) == 1 && CountUpdated(outcomes) == 0;
    assert Errors(records[..1], outcomes[..1]) == [];
    assert Errors(records, outcomes) == [FormatError(invalid, EmployeeNotFound(9999))];
    assert CountProcessed(outcomes) == 1 && CountSkipped(outcomes) == 1;
    assert ProcessedRecords(s, records).1 == UploadResult(2, 1, 1, 0, 1, [FormatError(invalid, EmployeeNotFound(9999))]);
    assert s1.awards == map[891 := Award(Some(7), "Награда", Date(2025, 3, 22), 891, employee)];
  }
}
