/** The capitalised FileValidator (Validator/): spreadsheets only. An .xls file must open as a
    workbook; an .xlsx file must begin with the four-byte local-file-header signature of the
    ZIP format before its entries are scanned for the xl/ folder. CSV files are refused. */
module LegacyFileValidator {
  import opened Wrappers
  import opened JavaText
  import opened Domain
  import FileFactory
  import FileValidator

  /** ZIP_SIGNATURE_LENGTH and ZIP_SIGNATURE: "PK\x03\x04". */
  const ZipSignatureLength: nat := 4
  const ZipSignature: seq<bv8> := [0x50, 0x4B, 0x03, 0x04]

  /** The reference reading of isZipFile: the content starts with the signature. */
  predicate HasZipSignature(content: seq<bv8>) {
    |content| >= ZipSignatureLength && content[..ZipSignatureLength] == ZipSignature
  }

  /** The signature read throws: the stream fails before yielding a single byte. */
  predicate SignatureReadFails(content: Stream<bv8>) {
    |content.items| == 0 && content.failure.Some?
  }

  /** InputStream.read(buffer): -1 at the end of the stream, the IOException when the stream
      fails before its first byte, otherwise the bytes copied into the front of the buffer,
      as many as fit. A failure after the first byte only ends the read, as in
      InputStream.read(byte[], int, int), which returns the bytes read so far. */
  method ReadInto(content: Stream<bv8>, buffer: array<bv8>) returns (bytesRead: int, failure: Option<string>)
    requires buffer.Length > 0
    modifies buffer
    ensures failure.Some? <==> SignatureReadFails(content)
    ensures failure.Some? ==> failure == content.failure && buffer[..] == old(buffer[..])
    ensures failure.None? ==> bytesRead == (if |content.items| == 0 then -1
                                            else if |content.items| < buffer.Length then |content.items|
                                            else buffer.Length)
    ensures failure.None? && bytesRead > 0 ==> buffer[..bytesRead] == content.items[..bytesRead]
    ensures failure.None? && bytesRead > 0 ==> buffer[bytesRead..] == old(buffer[bytesRead..])
  {
    if |content.items| == 0 {
      return -1, content.failure;
    }
    failure := None;
    bytesRead := if |content.items| < buffer.Length then |content.items| else buffer.Length;
    for i := 0 to bytesRead
      invariant buffer[..i] == content.items[..i]
      invariant buffer[bytesRead..] == old(buffer[bytesRead..])
    {
      buffer[i] := content.items[i];
    }
  }

  /** isZipFile: reads up to four bytes into a fresh buffer and compares them with the
      signature byte by byte; the read's IOException propagates. */
  method IsZipFile(content: Stream<bv8>) returns (r: Result<bool, string>)
    ensures r.Err? <==> SignatureReadFails(content)
    ensures r.Err? ==> r.error == content.failure.value
    ensures r.Ok? ==> r.value == HasZipSignature(content.items)
  {
    var signature := new bv8[ZipSignatureLength](_ => 0);
    var bytesRead, failure := ReadInto(content, signature);
    if failure.Some? {
      return Err(failure.value);
    }
    if bytesRead != ZipSignatureLength {
      return Ok(false);
    }
    for i := 0 to ZipSignatureLength
      invariant forall j :: 0 <= j < i ==> signature[j] == ZipSignature[j]
    {
      if signature[i] != ZipSignature[i] {
        assert content.items[i] != ZipSignature[i];
        return Ok(false);
      }
    }
    assert signature[..] == ZipSignature;
    return Ok(true);
  }

  /** validateXlsxFile: the signature first, then the xl/ scan over a second stream; an
      IOException of either is wrapped. */
  function XlsxCheck(content: Stream<bv8>, entries: Stream<string>): Option<FileError> {
    if SignatureReadFails(content) then Some(XlsxCheckFailed(content.failure.value))
    else if !HasZipSignature(content.items) then Some(NotZip)
    else FileValidator.XlsxCheck(entries)
  }

  /** validate(file): None when the upload passes. */
  function Validation(upload: Upload): Option<FileError> {
    if upload.originalFilename.None? || IsBlank(upload.originalFilename.value) then Some(NoFileName)
    else
      var normalized := ToLower(upload.originalFilename.value);
      if EndsWith(normalized, FileFactory.ExtensionXls) then FileValidator.ValidateXlsFile(upload.workbookOpenFailure)
      else if EndsWith(normalized, FileFactory.ExtensionXlsx) then XlsxCheck(upload.bytes, upload.zipEntries)
      else Some(UnsupportedType(upload.originalFilename.value))
  }

  /** validate, running the signature comparison and the xl/ scan loop for an .xlsx name. */
  method Validate(upload: Upload) returns (r: Option<FileError>)
    ensures r == Validation(upload)
  {
    var fileName := upload.originalFilename;
    if fileName.None? || IsBlank(fileName.value) {
      return Some(NoFileName);
    }
    var normalized := ToLower(fileName.value);
    if EndsWith(normalized, FileFactory.ExtensionXls) {
      r := FileValidator.ValidateXlsFile(upload.workbookOpenFailure);
    } else if EndsWith(normalized, FileFactory.ExtensionXlsx) {
      var isZip := IsZipFile(upload.bytes);
      if isZip.Err? {
        return Some(XlsxCheckFailed(isZip.error));
      }
      if !isZip.value {
        return Some(NotZip);
      }
      r := FileValidator.ValidateXlsxFile(upload.zipEntries);
    } else {
      r := Some(UnsupportedType(fileName.value));
    }
  }

  /** CSV files are not supported here: a name ending in ".csv" is refused with its own name,
      whatever the content. */
  lemma RefusesCsv(upload: Upload)
    requires upload.originalFilename.Some?
    requires EndsWith(ToLower(upload.originalFilename.value), FileFactory.ExtensionCsv)
    ensures Validation(upload) == Some(UnsupportedType(upload.originalFilename.value))
  {
    var name := upload.originalFilename.value;
    FileValidator.SuffixesExclusive(ToLower(name));
    var at := |name| - |FileFactory.ExtensionCsv|;
    assert ToLower(name)[at] == '.';
    FileFactory.LowerDot(name, at);
  }

  /** On spreadsheets the two validators agree, except that this one refuses an .xlsx upload
      without the ZIP signature before looking at its entries, and wraps a failure of that
      signature read. */
  lemma AgreesOnSpreadsheets(upload: Upload)
    requires upload.originalFilename.Some?
    requires FileValidator.FormatOf(upload.originalFilename.value) != Some(FileValidator.CsvFormat)
    ensures FileValidator.FormatOf(upload.originalFilename.value) == Some(FileValidator.XlsxFormat)
              && !HasZipSignature(upload.bytes.items)
            ==> Validation(upload) == Some(if SignatureReadFails(upload.bytes)
                                           then XlsxCheckFailed(upload.bytes.failure.value) else NotZip)
    ensures !(FileValidator.FormatOf(upload.originalFilename.value) == Some(FileValidator.XlsxFormat)
              && !HasZipSignature(upload.bytes.items))
            ==> Validation(upload) == FileValidator.Validation(upload)
  {
    var name := upload.originalFilename.value;
    var lower := ToLower(name);
    if EndsWith(lower, FileFactory.ExtensionXls) {
      assert FileValidator.FormatOf(name) == Some(FileValidator.XlsFormat);
    } else if EndsWith(lower, FileFactory.ExtensionXlsx) {
      assert FileValidator.FormatOf(name) == Some(FileValidator.XlsxFormat);
    } else {
      assert FileValidator.FormatOf(name) == None;
    }
  }

  /** A file that is too short or starts with other bytes is refused, and one that starts
      with the signature reaches the entry scan. */
  lemma SignatureExamples()
    ensures !HasZipSignature([0x50, 0x4B, 0x03])
    ensures !HasZipSignature([0xD0, 0xCF, 0x11, 0xE0, 0xA1, 0xB1, 0x1A, 0xE1])
    ensures HasZipSignature([0x50, 0x4B, 0x03, 0x04, 0x14, 0x00])
  {
    assert [0xD0, 0xCF, 0x11, 0xE0, 0xA1, 0xB1, 0x1A, 0xE1][..ZipSignatureLength][0] == 0xD0 as bv8;
    assert [0x50, 0x4B, 0x03, 0x04, 0x14, 0x00][..ZipSignatureLength] == ZipSignature;
  }
}
