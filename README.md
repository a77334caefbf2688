# Employee-award file ingestion, modelled in Dafny

This project models the ingestion pipeline of the employee-awards service. The pipeline runs in this order:

1. `FileValidator` checks an uploaded file against its claimed extension.
2. `FileFactory` picks a parser from the file name.
3. The CSV or Excel parser turns the rows into `AwardFileRecord`s. It fails fast on the first bad row.
4. `FileProcessingService` reconciles each record against the employee and award stores. It counts processed, skipped, created and updated records and collects one error message per skipped record.

The repository holds two package trees: the live lower-case tree (`service`, `parser/impl`, `factory`, `validator`) and an older capitalised tree (`Parser/Impl`, `Factory`, `Validator`). Both are modelled where they differ:

- `CsvParser` is the live CSV parser and `LegacyCsvParser` is the older one. `LegacyCsvParser.SameAsLiveParser` proves the two give the same result on every input.
- `ExcelParser` is the capitalised spreadsheet parser. Its lower-case counterpart is not part of this model.
- `FileFactory` stands for both copies of the factory, which differ only in their imports.
- `FileValidator` is the live validator and `LegacyFileValidator` is the older one. The older one checks the ZIP signature and refuses CSV files.

Modules, leaves first:

- `Wrappers`: `Option` stands for a Java reference that may be null; `Result` for a call that returns or throws.
- `JavaText`: the `String` operations the code uses (ASCII `toLowerCase`, `isBlank`, `trim`, `lastIndexOf`, `Long.toString`, `Arrays.toString`).
- `Domain`: records, entities, the six-field `UploadResult`, the column layout and header constants, every `FileParseException` message as a `FileError`, and the library views of an upload.
- `FieldConversion`: `Long.parseLong` and strict `LocalDate.parse`. A date is the "full-date" of section 5.6 of RFC 3339, with the month lengths and leap-year rule of its section 5.7.
- `RecordParserUtils`: `createRecord`.
- `RowParsing`: the shared fail-fast loop shape.
- The parser modules `CsvParser`, `LegacyCsvParser` and `ExcelParser`.
- `FileFactory`, `FileValidator` and `LegacyFileValidator`.
- `AwardStore`: the two repositories, as the `Store` class.
- `FileProcessingService` and `RecordErrors`.

Each imperative source routine becomes a Dafny method whose `ensures` ties its result, or the new store state, to a specification function. Lemmas then prove what the source promises about those functions:

- the counter identities;
- the create-versus-update rule;
- last-write-wins ordering;
- store keys that survive updates;
- fail-fast parsing;
- case-insensitive, last-extension parser selection;
- agreement between the two trees.

Where the code and the system's specification differ, the model follows the code:

- The live validator does not check the ZIP signature; only the older validator does.
- CSV validation looks at the first line only, not at "at least one non-blank line".
- Names are never checked for emptiness.
- The older CSV parser and the Excel parser have no separate missing-data error.
- `processRecords` passes six values positionally, which matches the six-field `DTO/UploadResult.java` and not the four-field `dto/UploadResult.java` the service imports. The six-field shape is used.

## Model

| member | source | states |
|---|---|---|
| `FileProcessingService.ProcessFile` | src/main/java/ru/t2/employeeawards/service/FileProcessingService.java:42-54 | A validation, selection, read or parse failure is returned as the whole call's error and leaves the store unchanged; otherwise the result and new store are those of reconciling every parsed record; a store satisfying `AwardStore.StoreInvariant` still satisfies it afterwards |
| `FileProcessingService.ParseFile` | src/main/java/ru/t2/employeeawards/service/FileProcessingService.java:56-62 | Validation runs first, then parser selection by name, then the input-stream IOException wrapped as a read failure, then the chosen parser |
| `FileProcessingService.ProcessRecords` | src/main/java/ru/t2/employeeawards/service/FileProcessingService.java:64-97 | The loop's four counters, error list and final store equal the fold of processRecord over the records in list order; a store satisfying `AwardStore.StoreInvariant` still satisfies it afterwards |
| `FileProcessingService.ProcessRecord` | src/main/java/ru/t2/employeeawards/service/FileProcessingService.java:114-133 | The store update and outcome are those of the reconciliation function for one record; a store satisfying `AwardStore.StoreInvariant` still satisfies it afterwards |
| `FileProcessingService.ReconcileEffect` | src/main/java/ru/t2/employeeawards/service/FileProcessingService.java:114-140 | A record fails iff its employee is unknown, with "Сотрудник не найден: id" and no store change; otherwise the award under its awardExternalId holds its name, date and employee, keeps its key, counts as created iff it was absent, and no other award or employee changes |
| `FileProcessingService.SummaryCounts` | src/main/java/ru/t2/employeeawards/service/FileProcessingService.java:71-96 | totalRecords is the number of records; processed + skipped = total; created + updated = processed; one error per skipped record |
| `FileProcessingService.CountsAddUp` | src/main/java/ru/t2/employeeawards/service/FileProcessingService.java:72-83 | Every outcome increments exactly one of processed/skipped, and every success exactly one of created/updated |
| `FileProcessingService.OneErrorPerSkip` | src/main/java/ru/t2/employeeawards/service/FileProcessingService.java:80-83 | The error list has exactly as many entries as skipped records |
| `FileProcessingService.SkippedIffEmployeeUnknown` | src/main/java/ru/t2/employeeawards/service/FileProcessingService.java:116-121 | The i-th record is skipped iff its employee is absent from the initial store, and then its outcome is the not-found message |
| `FileProcessingService.ErrorsAreUnknownEmployees` | src/main/java/ru/t2/employeeawards/service/FileProcessingService.java:99-112 | The error list is exactly one formatted not-found message per record with an unknown employee, in record order |
| `RecordErrors.ErrorNamesRecord` | src/main/java/ru/t2/employeeawards/service/FileProcessingService.java:109-112 | An error message consists of the prefix, the employee id, ", awardId=", the award id, "): " and the exception message; both ids parse back with Long.parseLong |
| `FileProcessingService.CreatedIffFirstSighting` | src/main/java/ru/t2/employeeawards/service/FileProcessingService.java:124-127 | A record counts as created iff its employee is known, its award was not stored before the upload, and no earlier processed record carried the same awardExternalId; it counts as updated iff its employee is known and one of those two holds |
| `FileProcessingService.LastWriteWins` | src/main/java/ru/t2/employeeawards/service/FileProcessingService.java:124-140 | The last processed record carrying an awardExternalId determines the stored award's name, date and employee |
| `FileProcessingService.AwardIdsKept` | src/main/java/ru/t2/employeeawards/service/FileProcessingService.java:124-130 | A stored award keeps its store key awardId through any number of updates |
| `FileProcessingService.AwardKeys` | src/main/java/ru/t2/employeeawards/service/FileProcessingService.java:124-130 | After reconciliation an award id is stored iff it was stored before or a processed record carried it |
| `FileProcessingService.SkippedRecordSavesNothing` | src/main/java/ru/t2/employeeawards/service/FileProcessingService.java:118-121 | A record with an unknown employee leaves the store exactly as it was |
| `FileProcessingService.EmployeesUnchanged` | src/main/java/ru/t2/employeeawards/service/FileProcessingService.java:116-123 | Reconciliation never changes the employee table |
| `FileProcessingService.InvariantPreserved` | src/main/java/ru/t2/employeeawards/service/FileProcessingService.java:126-130 | Rows stay filed under their own external ids and award keys stay unique and below the next identity value |
| `FileProcessingService.EmployeeMatchedById` | src/main/java/ru/t2/employeeawards/service/FileProcessingService.java:116 | The record's employee name plays no part in reconciliation |
| `FileProcessingService.ValidatedUploadGetsParser` | src/main/java/ru/t2/employeeawards/service/FileProcessingService.java:57-58 | After validation passes, selecting a parser fails only for a name that is nothing but a supported extension, with the no-extension error |
| `FileProcessingService.ValidationFailureAborts` | src/main/java/ru/t2/employeeawards/service/FileProcessingService.java:57 | A validation failure is the ingestion's error and no record is reconciled |
| `FileProcessingService.MixedRecordsProcessPartially` | src/test/java/ru/t2/employeeawards/service/FileProcessingServiceTest.java:114-127 | A known-employee record and an unknown-employee record give total 2, processed 1, skipped 1, created 1, one error, and exactly one award saved |
| `AwardStore.Store.FindEmployee` | src/main/java/ru/t2/employeeawards/service/FileProcessingService.java:116 | Returns the employee stored under the id, or None iff there is none |
| `AwardStore.Store.FindAward` | src/main/java/ru/t2/employeeawards/service/FileProcessingService.java:124 | Returns the award stored under the id, or None iff there is none |
| `AwardStore.Store.Save` | src/main/java/ru/t2/employeeawards/service/FileProcessingService.java:130 | A keyless award is inserted with the next identity key; a keyed award replaces the stored row |
| `AwardStore.SavePreservesInvariant` | src/main/java/ru/t2/employeeawards/service/FileProcessingService.java:126-130 | Saving a new award under an unused id, or a stored award with its own key, keeps the store consistent |
| `CsvParser.Parse` | src/main/java/ru/t2/employeeawards/parser/impl/CsvParser.java:27-44 | The readNext loop returns the fail-fast fold over rows after the single header line, then the reader's failure wrapped as a CSV read error |
| `CsvParser.HeaderOnlyIsEmpty` | src/main/java/ru/t2/employeeawards/parser/impl/CsvParser.java:28-35 | A header-only or empty file parses to the empty list |
| `CsvParser.RecordPerRow` | src/main/java/ru/t2/employeeawards/parser/impl/CsvParser.java:35-55 | On success there is one record per data row, in file order, and each row has 5 cells and is createRecord of that row with context "строке: [row]" |
| `CsvParser.FirstBadRowAborts` | src/main/java/ru/t2/employeeawards/parser/impl/CsvParser.java:35-50 | The first bad data row decides the error: its cell count when that is not 5, otherwise createRecord's error |
| `CsvParser.ThreeColumnRowRefused` | src/test/java/ru/t2/employeeawards/parser/CsvParserTest.java:49-55 | A three-cell data row fails with the column-count error carrying 3 |
| `CsvParser.InvalidDateRefused` | src/test/java/ru/t2/employeeawards/parser/CsvParserTest.java:57-62 | A row whose date is "invalid-date" fails with the malformed-value error for that row |
| `LegacyCsvParser.Parse` | src/main/java/ru/t2/employeeawards/Parser/Impl/CsvParser.java:30-47 | The older readNext loop returns the fail-fast fold of the column check and inline conversion over rows after the header |
| `LegacyCsvParser.SameRowOutcome` | src/main/java/ru/t2/employeeawards/Parser/Impl/CsvParser.java:49-67 | Per row, the inline conversion and the live parser's createRecord give the same record or the same error |
| `LegacyCsvParser.SameAsLiveParser` | src/main/java/ru/t2/employeeawards/Parser/Impl/CsvParser.java:30-67 | The two CSV parsers agree on every input |
| `FieldConversion.ConvertFields` | src/main/java/ru/t2/employeeawards/Parser/Impl/CsvParser.java:55-67 | Succeeds iff columns 0 and 2 parse as longs and column 4 as a date, with names verbatim; every failure is the single malformed-value error |
| `FieldConversion.ParseLongRoundTrip` | src/main/java/ru/t2/employeeawards/Parser/utils/RecordParserUtils.java:26-28 | Long.parseLong reads back every long's decimal text |
| `FieldConversion.ParseLongRejectsOutOfRange` | src/main/java/ru/t2/employeeawards/Parser/utils/RecordParserUtils.java:26-28 | Digit strings beyond the signed 64-bit range are refused, with or without a sign |
| `FieldConversion.ParseLongRejectsNonDigit` | src/main/java/ru/t2/employeeawards/Parser/utils/RecordParserUtils.java:26-28 | A non-digit after the first character is refused |
| `FieldConversion.ParseFormatDate` | src/main/java/ru/t2/employeeawards/Parser/utils/RecordParserUtils.java:30 | Every valid date of years 0-9999 written as yyyy-MM-dd parses back to itself |
| `FieldConversion.FormatParseDate` | src/main/java/ru/t2/employeeawards/Parser/utils/RecordParserUtils.java:30 | Every accepted date text is the canonical yyyy-MM-dd spelling of its date, with month and day in range |
| `RecordParserUtils.CreateRecord` | src/main/java/ru/t2/employeeawards/Parser/utils/RecordParserUtils.java:23-43 | On success the record holds parseLong(col 0), col 1, parseLong(col 2), col 3 and the date of col 4; any failure is missing data or a malformed value with the given context |
| `RecordParserUtils.FollowsColumnOrder` | src/main/java/ru/t2/employeeawards/Parser/utils/RecordParserUtils.java:25-31 | Succeeds iff no column faults, and otherwise reports the fault kind of the first faulting column |
| `RecordParserUtils.FirstFailingColumnDecides` | src/main/java/ru/t2/employeeawards/Parser/utils/RecordParserUtils.java:25-42 | The kind of the first faulting column is the error reported |
| `RecordParserUtils.MissingDataIff` | src/main/java/ru/t2/employeeawards/Parser/utils/RecordParserUtils.java:37-42 | Missing data is reported iff the array is shorter than 5 and every cell it has is well formed |
| `RecordParserUtils.AgreesWithConvertFields` | src/main/java/ru/t2/employeeawards/Parser/utils/RecordParserUtils.java:23-43 | On exactly 5 cells createRecord equals the older all-malformed conversion |
| `RecordParserUtils.CreateRecordRoundTrip` | src/main/java/ru/t2/employeeawards/Parser/utils/RecordParserUtils.java:25-31 | Every record with a four-digit year is read back from its cells, whatever its names, including empty ones |
| `RowParsing.ParseEachOk` | src/main/java/ru/t2/employeeawards/parser/impl/CsvParser.java:35-38 | The loop succeeds iff every row converts, and then holds each row's record at that row's position |
| `RowParsing.ParseEachErr` | src/main/java/ru/t2/employeeawards/parser/impl/CsvParser.java:35-38 | A failing loop carries the error of a row preceded only by rows that convert |
| `RowParsing.ParseEachStopsAt` | src/main/java/ru/t2/employeeawards/Parser/Impl/ExcelParser.java:34-40 | Once a row fails after a successful prefix, later rows are never consulted |
| `ExcelParser.Parse` | src/main/java/ru/t2/employeeawards/Parser/Impl/ExcelParser.java:25-46 | An unreadable workbook gives the Excel read error and a missing first sheet "no sheet"; otherwise the result is the fail-fast fold over the non-header rows |
| `ExcelParser.ValidateRow` | src/main/java/ru/t2/employeeawards/Parser/Impl/ExcelParser.java:48-61 | Reports the first null cell among indices 0-4 with the 1-based physical row number, or nothing |
| `ExcelParser.ExtractCells` | src/main/java/ru/t2/employeeawards/Parser/Impl/ExcelParser.java:69-77 | Returns an array of the five column cells in column order |
| `ExcelParser.FormatCells` | src/main/java/ru/t2/employeeawards/Parser/Impl/ExcelParser.java:79-85 | Returns a same-length array of each cell's formatted text |
| `ExcelParser.ParseRow` | src/main/java/ru/t2/employeeawards/Parser/Impl/ExcelParser.java:63-67 | Converts the formatted five cells with context "строке N" |
| `ExcelParser.SkipsByRowNumber` | src/main/java/ru/t2/employeeawards/Parser/Impl/ExcelParser.java:34-37 | In a sheet with strictly increasing row numbers exactly the row numbered 0 is skipped, so a sheet without row 0 keeps all its rows |
| `ExcelParser.HeaderOnlyIsEmpty` | src/test/java/ru/t2/employeeawards/parser/ExcelParserTest.java:47-54 | A sheet holding only its header row, or no rows, parses to the empty list |
| `ExcelParser.RecordPerDataRow` | src/main/java/ru/t2/employeeawards/Parser/Impl/ExcelParser.java:32-42 | On success there is one record per non-header row, in sheet order |
| `ExcelParser.ErrorsNamePhysicalRow` | src/main/java/ru/t2/employeeawards/Parser/Impl/ExcelParser.java:56-98 | Every row error is the empty-cell error or the malformed-value error, and both name the row's rowNum + 1 |
| `ExcelParser.FirstEmptyCellReported` | src/main/java/ru/t2/employeeawards/Parser/Impl/ExcelParser.java:53-60 | The first null cell among 0-4 stops the row before any conversion |
| `ExcelParser.FirstBadRowAborts` | src/main/java/ru/t2/employeeawards/Parser/Impl/ExcelParser.java:34-40 | The first failing non-header row decides the error of the whole sheet |
| `ExcelParser.SameRecordAsCsvLine` | src/main/java/ru/t2/employeeawards/Parser/Impl/ExcelParser.java:87-101 | A spreadsheet row holding the texts of a five-cell CSV line converts to the same record, and fails exactly when that line does |
| `FileFactory.ExtractExtension` | src/main/java/ru/t2/employeeawards/factory/FileFactory.java:57-63 | Fails with the no-extension error iff there is no dot after index 0 or the name ends in a dot; otherwise returns the dot-led suffix after the last dot |
| `FileFactory.SelectsCsv` | src/main/java/ru/t2/employeeawards/factory/FileFactory.java:21-25 | The CSV parser is chosen iff the name is longer than ".csv" and ends with it in any letter case |
| `FileFactory.SelectsExcel` | src/main/java/ru/t2/employeeawards/factory/FileFactory.java:21-24 | The Excel parser is chosen iff the name is longer than ".xls"/".xlsx" and ends with one of them in any letter case |
| `FileFactory.SupplierOf` | src/main/java/ru/t2/employeeawards/factory/FileFactory.java:19-26 | The table maps ".csv" to the CSV parser and exactly ".xls" and ".xlsx" to the Excel parser |
| `FileFactory.SuffixSelects` | src/main/java/ru/t2/employeeawards/Factory/FileFactory.java:40-48 | A name longer than a table key that ends with it, in any case, gets that key's parser (the capitalised copy is textually the same) |
| `FileFactory.ExtensionOnlyName` | src/main/java/ru/t2/employeeawards/factory/FileFactory.java:57-61 | A name ending in a table key fails iff it is only that key, with the no-extension error |
| `FileFactory.CaseInsensitive` | src/main/java/ru/t2/employeeawards/factory/FileFactory.java:40 | The name and its lower-cased form give the same outcome, except that the unsupported-type message repeats the name as given |
| `FileFactory.LastExtensionWins` | src/main/java/ru/t2/employeeawards/factory/FileFactory.java:58-62 | "a.txt.csv" selects the CSV parser |
| `FileFactory.EarlierExtensionIgnored` | src/main/java/ru/t2/employeeawards/factory/FileFactory.java:43-46 | "a.csv.txt" is refused as unsupported, naming itself |
| `FileFactory.UpperCaseExtension` | src/main/java/ru/t2/employeeawards/factory/FileFactory.java:40-41 | "Report.XLSX" selects the Excel parser |
| `FileFactory.LeadingDotIsNoExtension` | src/main/java/ru/t2/employeeawards/factory/FileFactory.java:59-60 | ".csv" has no extension |
| `FileFactory.TrailingDotIsNoExtension` | src/main/java/ru/t2/employeeawards/factory/FileFactory.java:59-60 | "awards." has no extension |
| `FileFactory.NoDotIsNoExtension` | src/main/java/ru/t2/employeeawards/factory/FileFactory.java:58-60 | "awards" has no extension |
| `FileFactory.BlankNameRefused` | src/main/java/ru/t2/employeeawards/factory/FileFactory.java:36-38 | Every blank name, and a null one, fails with "Имя файла не указано" |
| `FileFactory.UnsupportedNameRefused` | src/main/java/ru/t2/employeeawards/factory/FileFactory.java:40-46 | Every non-blank name with an extension that ends in none of ".csv", ".xls", ".xlsx" in any letter case fails as an unsupported type, naming itself as given |
| `FileValidator.Validate` | src/main/java/ru/t2/employeeawards/validator/FileValidator.java:25-41 | Null or blank names are refused; then dispatch on the lower-cased suffix to the CSV, XLS or XLSX check, and anything else is unsupported |
| `FileValidator.ValidateCsvFile` | src/main/java/ru/t2/employeeawards/validator/FileValidator.java:43-53 | Passes iff a first line exists and is not empty after trim; a present but blank first line, or a clean end of input before any line, fails with "CSV файл не содержит данных"; a read failure before the first line is wrapped as "Ошибка при проверке CSV файла" |
| `FileValidator.ValidateXlsxFile` | src/main/java/ru/t2/employeeawards/validator/FileValidator.java:64-85 | The entry loop passes iff some entry starts with "xl/"; otherwise it gives the stream's IOException wrapped, or the missing-xl/ error |
| `FileValidator.SuffixesExclusive` | src/main/java/ru/t2/employeeawards/validator/FileValidator.java:32-37 | No name ends with two of ".csv", ".xls" and ".xlsx", so at most one branch applies |
| `FileValidator.FirstXlEntryDecides` | src/main/java/ru/t2/employeeawards/validator/FileValidator.java:72-77 | Entries after the first "xl/" entry, and any later stream failure, do not matter |
| `FileValidator.XlsxOutcome` | src/main/java/ru/t2/employeeawards/validator/FileValidator.java:64-81 | An upload named .xlsx in any case passes iff some zip entry starts with "xl/" |
| `FileValidator.DispatchAgreesWithFactory` | src/main/java/ru/t2/employeeawards/validator/FileValidator.java:31-40 | The validator's suffix dispatch and the factory's parser choice agree, except on names that are only the extension |
| `LegacyFileValidator.ReadInto` | src/main/java/ru/t2/employeeawards/Validator/FileValidator.java:78-79 | InputStream.read throws the stream's IOException iff the stream fails before its first byte; otherwise it fills the buffer's front with as many bytes as fit, or returns -1 at end of stream |
| `LegacyFileValidator.IsZipFile` | src/main/java/ru/t2/employeeawards/Validator/FileValidator.java:77-92 | Throws iff the signature read throws; otherwise true iff the content starts with the 4 bytes 50 4B 03 04, so shorter content is never a ZIP |
| `LegacyFileValidator.Validate` | src/main/java/ru/t2/employeeawards/Validator/FileValidator.java:23-37 | Null or blank names are refused; .xls must open; .xlsx must carry the signature before its entries are scanned; all else is unsupported |
| `LegacyFileValidator.RefusesCsv` | src/main/java/ru/t2/employeeawards/Validator/FileValidator.java:29-36 | A .csv name is refused as unsupported whatever the content |
| `LegacyFileValidator.AgreesOnSpreadsheets` | src/main/java/ru/t2/employeeawards/Validator/FileValidator.java:49-75 | On spreadsheet names it agrees with the live validator, except that an .xlsx without the signature fails before any entry is scanned: "not a ZIP", or the xlsx check error when the signature read throws |
| `LegacyFileValidator.SignatureExamples` | src/main/java/ru/t2/employeeawards/Validator/FileValidator.java:14-15 | Three bytes, or an OLE2 header, are not a ZIP; "PK\x03\x04..." is |
| `JavaText.LastIndexOf` | src/main/java/ru/t2/employeeawards/factory/FileFactory.java:58 | Returns -1 or an index of the character, with no occurrence after it |
| `JavaText.Trim` | src/main/java/ru/t2/employeeawards/validator/FileValidator.java:47 | The trimmed text is empty iff every character is at most U+0020, and otherwise begins and ends with a character above U+0020 |

## Left out

- HTTP layer: the controller's empty-upload rejection (`controller/FileUploadController.java:32-35`) and the exception-to-status mapping are not part of this model.
- Persistence: the JPA repositories become two maps in `AwardStore.Store`. Spring `@Transactional` proxying and rollback are not modelled; the model applies a record's store changes only when the record succeeds.
- Library internals are model inputs. These are opencsv tokenisation and quoting, Apache POI workbook opening and `DataFormatter` rendering, `java.util.zip` entry decoding, and charset decoding of readers. Each is given as the sequence it yields, plus an optional IOException at its end.
- The lower-case `parser/impl/ExcelParser.java` is not part of this model; the capitalised `Parser/Impl/ExcelParser.java` stands in for it.
- JavaText.ToLower: only ASCII A-Z are lowered, because `String.toLowerCase` depends on the locale.
- FieldConversion.ParseLong: accepts ASCII digits only; Java also accepts other Unicode decimal digits.
- FieldConversion.ParseDate: accepts unsigned four-digit years 0000-9999 only. `LocalDate.parse` also accepts a '-'-signed year of four or more digits, and a '+'-signed year of five or more digits.
- The exception text `e.getMessage()` that the parse and validation errors embed is not carried; each `FileError` keeps only the context the code adds.
- FileProcessingService.ProcessRecord: the only failure modelled is the unknown employee. A store failure or other `RuntimeException` from the repositories cannot happen in the model's total store.
- FileProcessingService.ProcessRecords: the Java `int` counters are unbounded `nat`s, so overflow past 2^31 - 1 records is not modelled.
- RecordParserUtils.CreateRecord: cells are non-null strings, as opencsv and `DataFormatter` always supply. Java's null-cell behaviour is not modelled: a null id is malformed, a null name passes through, and a null date is missing data.
- LegacyFileValidator.ReadInto: assumes a read returns every available byte up to the buffer size. A short read from a stream that has more data is not modelled. A stream failure after the first byte ends the read, as the default `InputStream.read(byte[], int, int)` does; a stream that throws there instead is not modelled.
- ExcelParser.ValidateRow: the `row == null` branch is not modelled, since sheet iteration never yields a null row. `getSheetAt` is taken to return null for a missing sheet, as the code's check assumes.
- The `getInputStream` IOException of the validation step is not modelled separately from the stream's own failure. The parse step's is modelled as the read failure.
- The null-to-empty normalisation of `errors` in `DTO/UploadResult.java` has no counterpart, since a Dafny sequence cannot be null.
- Bean-validation annotations (`@NotBlank`, `@NotNull`) are never enforced by the code shown, and so not modelled.
- Logging has no behaviour and is not modelled.
