/** The data of the ingestion pipeline: the parsed record, the stored entities, the upload
    summary, the column layout, the failures a file can be rejected with, and the views the
    libraries (opencsv, Apache POI, java.util.zip, java.io readers) give of an uploaded file. */
module Domain {
  import opened Wrappers

  /** Java's long. */
  type Int64 = x: int | -0x8000_0000_0000_0000 <= x <= 0x7FFF_FFFF_FFFF_FFFF

  const MinLong: int := -0x8000_0000_0000_0000
  const MaxLong: int := 0x7FFF_FFFF_FFFF_FFFF

  /** java.time.LocalDate, as year, month (1-12) and day of month. */
  datatype Date = Date(year: int, month: int, day: int)

  /** The Gregorian leap-year rule of section 5.7 of RFC 3339 (proleptic, as java.time). */
  predicate IsLeapYear(year: int) {
    year % 4 == 0 && (year % 100 != 0 || year % 400 == 0)
  }

  function DaysInMonth(year: int, month: int): int
    requires 1 <= month <= 12
  {
    if month == 2 then (if IsLeapYear(year) then 29 else 28)
    else if month == 4 || month == 6 || month == 9 || month == 11 then 30
    else 31
  }

  predicate ValidDate(d: Date) {
    1 <= d.month <= 12 && 1 <= d.day <= DaysInMonth(d.year, d.month)
  }

  /** AwardFileRecord: one parsed row. */
  datatype AwardFileRecord = AwardFileRecord(
    employeeExternalId: Int64,
    employeeFullName: string,
    awardExternalId: Int64,
    awardName: string,
    receivedDate: Date)

  /** Employee as the store holds it; the core only reads employees. */
  datatype Employee = Employee(employeeId: nat, fullName: string, employeeExternalId: Int64)

  /** Award as the store holds it. awardId is the store-assigned key: None until the award
      is first saved. */
  datatype Award = Award(
    awardId: Option<nat>,
    awardName: string,
    receivedDate: Date,
    awardExternalId: Int64,
    employee: Employee)

  /** UploadResult, in its six-field form and field order. */
  datatype UploadResult = UploadResult(
    totalRecords: nat,
    processedRecords: nat,
    skippedRecords: nat,
    updatedRecords: nat,
    createdRecords: nat,
    errors: seq<string>)

  /** AwardFileColumn: the column of each record field. */
  const EmployeeExternalIdColumn: nat := 0
  const EmployeeFullNameColumn: nat := 1
  const AwardExternalIdColumn: nat := 2
  const AwardNameColumn: nat := 3
  const ReceivedDateColumn: nat := 4

  /** FileStructure */
  const HeadersRowExcel: nat := 0
  const HeadersRowCsv: nat := 1
  const ExpectedColumns: nat := 5

  /** Every FileParseException the pipeline raises. Each constructor notes its message;
      "<detail>" is the text of the library exception being wrapped, which is not modelled
      except where a constructor carries it. */
  datatype FileError =
    /** "Имя файла не указано" */
    | NoFileName
    /** "Неподдерживаемый тип файла: " + the original file name */
    | UnsupportedType(fileName: string)
    /** "Файл не имеет расширения: " + the lower-cased file name */
    | NoExtension(normalizedName: string)
    /** "CSV файл не содержит данных" */
    | CsvEmpty
    /** "Ошибка при проверке CSV файла: " + detail */
    | CsvCheckFailed(detail: string)
    /** "Невалидный xls файл: " + detail */
    | InvalidXls(detail: string)
    /** "Файл не является валидным ZIP архивом (xlsx должен быть ZIP)" */
    | NotZip
    /** "Файл не является валидным Excel файлом: отсутствует структура xl/" */
    | MissingXlFolder
    /** "Ошибка при проверке xlsx файла: " + detail */
    | XlsxCheckFailed(detail: string)
    /** "Строка содержит неверное количество колонок: " + count */
    | ColumnCount(count: nat)
    /** "Ошибка при парсинге данных: <detail> в " + context */
    | MalformedValue(context: string)
    /** "Отсутствуют обязательные данные в " + context */
    | MissingData(context: string)
    /** "Ячейка " + index + " пустая в строке " + rowNumber */
    | EmptyCell(index: nat, rowNumber: nat)
    /** "Не удалось получить лист из файла" */
    | NoSheet
    /** "Ошибка при чтении CSV файла: " + detail */
    | CsvReadFailed(detail: string)
    /** "Ошибка при чтении Excel файла: " + detail */
    | ExcelReadFailed(detail: string)
    /** "Ошибка при чтении файла: " + detail */
    | ReadFailed(detail: string)

  /** What a library reader yields in order: its items, then either the end of input
      (failure == None) or the IOException it throws instead of the next item. */
  datatype Stream<T> = Stream(items: seq<T>, failure: Option<string>)

  /** A sheet row as Apache POI iterates it: its 0-based physical row number and its cells,
      each either absent (null) or rendered to text by DataFormatter. */
  datatype Row = Row(rowNum: nat, cells: seq<Option<string>>)

  /** POI iterates the rows of a sheet in strictly increasing row number. */
  predicate WellFormedSheet(rows: seq<Row>) {
    forall i, j :: 0 <= i < j < |rows| ==> rows[i].rowNum < rows[j].rowNum
  }

  /** WorkbookFactory.create on the upload: either an IOException, or a workbook whose
      first sheet may be missing. */
  datatype Workbook = Unreadable(detail: string) | Workbook(firstSheet: Option<seq<Row>>)

  /** One uploaded file (MultipartFile): its original name and each library's view of its
      bytes. The views are inputs: the libraries that compute them are not modelled. */
  datatype Upload = Upload(
    /** getOriginalFilename(), which may be null */
    originalFilename: Option<string>,
    /** the raw bytes InputStream.read yields, then its end or the IOException it throws */
    bytes: Stream<bv8>,
    /** the lines BufferedReader.readLine returns */
    textLines: Stream<string>,
    /** the entry names ZipInputStream.getNextEntry returns */
    zipEntries: Stream<string>,
    /** None when WorkbookFactory.create succeeds, else the message of what it threw */
    workbookOpenFailure: Option<string>,
    /** the rows opencsv's CSVReader.readNext returns, header line included */
    csvRows: Stream<seq<string>>,
    /** the workbook the spreadsheet parser opens */
    workbook: Workbook,
    /** Some(message) when getInputStream throws an IOException for the parse step */
    inputStreamFailure: Option<string>)
}
