/** The live FileValidator (validator/): a content check chosen by the suffix of the
    lower-cased file name. A CSV file must have a first line that is not blank after trim, an
    .xls file must open as a workbook, and an .xlsx archive must hold an entry under "xl/". */
module FileValidator {
  import opened Wrappers
  import opened JavaText
  import opened Domain
  import FileFactory

  /** The three content checks, in the order validate tries the suffixes. */
  datatype Format = CsvFormat | XlsFormat | XlsxFormat

  const XlFolderPrefix: string := "xl/"

  /** The check validate dispatches to for a present, non-blank name, by the suffix of the
      lower-cased name; None is the unsupported type. */
  function FormatOf(fileName: string): Option<Format> {
    var normalized := ToLower(fileName);
    if EndsWith(normalized, FileFactory.ExtensionCsv) then Some(CsvFormat)
    else if EndsWith(normalized, FileFactory.ExtensionXls) then Some(XlsFormat)
    else if EndsWith(normalized, FileFactory.ExtensionXlsx) then Some(XlsxFormat)
    else None
  }

  /** validateCsvFile: the first line readLine returns must exist and not be blank after trim;
      an IOException in its place is wrapped. */
  function ValidateCsvFile(lines: Stream<string>): (r: Option<FileError>)
    ensures r.None? <==> |lines.items| > 0 && Trim(lines.items[0]) != []
    ensures r.Some? && |lines.items| > 0 ==> r == Some(CsvEmpty)
    ensures |lines.items| == 0 ==> r == (if lines.failure.Some? then Some(CsvCheckFailed(lines.failure.value))
                                         else Some(CsvEmpty))
  {
    if |lines.items| > 0 then
      if Trim(lines.items[0]) == [] then Some(CsvEmpty) else None
    else match lines.failure
      case Some(detail) => Some(CsvCheckFailed(detail))
      case None => Some(CsvEmpty)
  }

  /** validateXlsFile: whatever WorkbookFactory.create throws is wrapped. */
  function ValidateXlsFile(workbookOpenFailure: Option<string>): Option<FileError> {
    match workbookOpenFailure
    case Some(detail) => Some(InvalidXls(detail))
    case None => None
  }

  /** The reference reading of the xl/ scan: the archive passes when some entry the stream
      yields starts with "xl/"; otherwise the stream's own failure, if it has one, is
      wrapped, and a clean end of archive means the folder is missing. */
  function XlsxCheck(entries: Stream<string>): Option<FileError> {
    if exists i :: 0 <= i < |entries.items| && StartsWith(entries.items[i], XlFolderPrefix) then None
    else match entries.failure
      case Some(detail) => Some(XlsxCheckFailed(detail))
      case None => Some(MissingXlFolder)
  }

  /** validateXlsxFile: the getNextEntry loop, which stops at the first entry under xl/. */
  method ValidateXlsxFile(entries: Stream<string>) returns (r: Option<FileError>)
    ensures r == XlsxCheck(entries)
  {
    var hasXlFolder := false;
    var i := 0;
    while i < |entries.items|
      invariant i <= |entries.items|
      invariant !hasXlFolder
      invariant forall j :: 0 <= j < i ==> !StartsWith(entries.items[j], XlFolderPrefix)
    {
      if StartsWith(entries.items[i], XlFolderPrefix) {
        hasXlFolder := true;
        break;
      }
      i := i + 1;
    }
    if !hasXlFolder {
      if entries.failure.Some? {
        return Some(XlsxCheckFailed(entries.failure.value));
      }
      return Some(MissingXlFolder);
    }
    return None;
  }

  /** validate(file): None when the upload passes. */
  function Validation(upload: Upload): Option<FileError> {
    if upload.originalFilename.None? || IsBlank(upload.originalFilename.value) then Some(NoFileName)
    else match FormatOf(upload.originalFilename.value)
      case Some(CsvFormat) => ValidateCsvFile(upload.textLines)
      case Some(XlsFormat) => ValidateXlsFile(upload.workbookOpenFailure)
      case Some(XlsxFormat) => XlsxCheck(upload.zipEntries)
      case None => Some(UnsupportedType(upload.originalFilename.value))
  }

  /** validate, running the xl/ scan loop for an .xlsx name. */
  method Validate(upload: Upload) returns (r: Option<FileError>)
    ensures r == Validation(upload)
  {
    var fileName := upload.originalFilename;
    if fileName.None? || IsBlank(fileName.value) {
      return Some(NoFileName);
    }
    var format := FormatOf(fileName.value);
    match format {
      case Some(CsvFormat) => r := ValidateCsvFile(upload.textLines);
      case Some(XlsFormat) => r := ValidateXlsFile(upload.workbookOpenFailure);
      case Some(XlsxFormat) => r := ValidateXlsxFile(upload.zipEntries);
      case None => r := Some(UnsupportedType(fileName.value));
    }
  }

  /** The three suffixes exclude each other (their last letters differ), so the order in which
      validate tries them does not matter. */
  lemma SuffixesExclusive(s: string)
    ensures !(EndsWith(s, FileFactory.ExtensionCsv) && EndsWith(s, FileFactory.ExtensionXls))
    ensures !(EndsWith(s, FileFactory.ExtensionCsv) && EndsWith(s, FileFactory.ExtensionXlsx))
    ensures !(EndsWith(s, FileFactory.ExtensionXls) && EndsWith(s, FileFactory.ExtensionXlsx))
  {
    if |s| > 0 {
      var last := s[|s| - 1];
      if EndsWith(s, FileFactory.ExtensionCsv) { assert last == 'v'; }
      if EndsWith(s, FileFactory.ExtensionXls) { assert last == 's'; }
      if EndsWith(s, FileFactory.ExtensionXlsx) { assert last == 'x'; }
    }
  }

  /** Entries after the first one under xl/, and a failure the stream would only have thrown
      later, are never looked at. */
  lemma FirstXlEntryDecides(entries: seq<string>, k: nat, rest: Stream<string>)
    requires k < |entries| && StartsWith(entries[k], XlFolderPrefix)
    ensures XlsxCheck(Stream(entries[..k + 1] + rest.items, rest.failure)) == None
  {
    assert (entries[..k + 1] + rest.items)[k] == entries[k];
  }

  /** A file name passes the dispatch exactly when the spreadsheet or CSV parser would be
      chosen for it, except for a name that is nothing but the extension: validate accepts
      ".csv", while FileFactory finds no extension in it. */
  lemma DispatchAgreesWithFactory(fileName: string)
    requires !IsBlank(fileName)
    ensures FileFactory.GetParser(Some(fileName)) == Ok(FileFactory.CsvParserKind)
        <==> FormatOf(fileName) == Some(CsvFormat) && |fileName| > |FileFactory.ExtensionCsv|
    ensures FileFactory.GetParser(Some(fileName)) == Ok(FileFactory.ExcelParserKind)
        <==> (FormatOf(fileName) == Some(XlsFormat) && |fileName| > |FileFactory.ExtensionXls|)
             || (FormatOf(fileName) == Some(XlsxFormat) && |fileName| > |FileFactory.ExtensionXlsx|)
  {
    FileFactory.SelectsCsv(fileName);
    FileFactory.SelectsExcel(fileName);
    SuffixesExclusive(ToLower(fileName));
  }

  /** An .xlsx archive whose entries include one under xl/ passes, however the name's letters
      are cased; one with no such entry fails with the missing folder or the stream's error. */
  lemma XlsxOutcome(upload: Upload)
    requires upload.originalFilename.Some?
    requires EndsWith(ToLower(upload.originalFilename.value), FileFactory.ExtensionXlsx)
    ensures Validation(upload).None?
        <==> exists i :: 0 <= i < |upload.zipEntries.items| && StartsWith(upload.zipEntries.items[i], XlFolderPrefix)
  {
    var name := upload.originalFilename.value;
    SuffixesExclusive(ToLower(name));
    var at := |name| - |FileFactory.ExtensionXlsx|;
    assert ToLower(name)[at] == '.';
    FileFactory.LowerDot(name, at);
  }
}
