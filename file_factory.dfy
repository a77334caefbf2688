/** FileFactory: the parser for an upload is chosen by the extension of its lower-cased file
    name, the suffix from the last '.', looked up in a three-entry table. The factory exists
    twice, in factory/ and Factory/, as byte-identical copies apart from their imports; this
    one model stands for both. */
module FileFactory {
  import opened Wrappers
  import opened JavaText
  import opened Domain

  /** The two parsers the table supplies. */
  datatype ParserKind = CsvParserKind | ExcelParserKind

  const ExtensionXlsx: string := ".xlsx"
  const ExtensionXls: string := ".xls"
  const ExtensionCsv: string := ".csv"

  /** PARSER_SUPPLIERS */
  const ParserSuppliers: map<string, ParserKind> :=
    map[ExtensionXlsx := ExcelParserKind, ExtensionXls := ExcelParserKind, ExtensionCsv := CsvParserKind]

  /** extractExtension: the suffix from the last '.', which must be neither the first nor the
      last character. */
  function ExtractExtension(fileName: string): (r: Result<string, FileError>)
    ensures r.Err? <==> (forall j :: 0 < j < |fileName| ==> fileName[j] != '.')
                        || (|fileName| > 0 && fileName[|fileName| - 1] == '.')
    ensures r.Err? ==> r.error == NoExtension(fileName)
    ensures r.Ok? ==> 2 <= |r.value| < |fileName| && EndsWith(fileName, r.value) && r.value[0] == '.'
    ensures r.Ok? ==> forall j :: 0 < j < |r.value| ==> r.value[j] != '.'
  {
    var lastDot := LastIndexOf(fileName, '.');
    if lastDot <= 0 || lastDot == |fileName| - 1 then Err(NoExtension(fileName))
    else Ok(fileName[lastDot..])
  }

  /** getParser(fileName); None stands for a null name. */
  function GetParser(fileName: Option<string>): Result<ParserKind, FileError> {
    if fileName.None? || IsBlank(fileName.value) then Err(NoFileName)
    else
      var extension :- ExtractExtension(ToLower(fileName.value));
      match Lookup(ParserSuppliers, extension)
      case None => Err(UnsupportedType(fileName.value))
      case Some(kind) => Ok(kind)
  }

  /** A name that ends with a dotted suffix without further dots, and is longer than it, has
      that suffix as its extension. */
  lemma ExtensionOfSuffix(s: string, e: string)
    requires 2 <= |e| < |s| && e[0] == '.' && (forall j :: 0 < j < |e| ==> e[j] != '.')
    requires EndsWith(s, e)
    ensures ExtractExtension(s) == Ok(e)
  {
    var at := |s| - |e|;
    assert s[at] == e[0];
    forall j | at < j < |s| ensures s[j] != '.' {
      assert s[j] == e[j - at];
    }
    assert LastIndexOf(s, '.') == at;
  }

  lemma LowerDot(s: string, i: nat)
    requires i < |s| && ToLower(s)[i] == '.'
    ensures s[i] == '.' && !IsBlank(s)
  {
  }

  /** GetParser on a present name: blank names fail first, then the extension, then the
      table lookup. */
  lemma GetParserSome(name: string)
    ensures GetParser(Some(name)).Ok? <==> (!IsBlank(name) && ExtractExtension(ToLower(name)).Ok?
                                          && ExtractExtension(ToLower(name)).value in ParserSuppliers)
    ensures GetParser(Some(name)).Ok? ==> GetParser(Some(name)).value == ParserSuppliers[ExtractExtension(ToLower(name)).value]
  {
  }

  /** Every table key is a dot followed by at least one character that is not a dot. */
  lemma KeyShape(key: string)
    requires key in ParserSuppliers
    ensures 2 <= |key| && key[0] == '.' && forall j :: 0 < j < |key| ==> key[j] != '.'
  {
  }

  /** A name longer than a table key that ends with it, in any letter case, gets that key's
      parser. */
  lemma SuffixSelects(name: string, key: string)
    requires key in ParserSuppliers
    requires |name| > |key| && EndsWith(ToLower(name), key)
    ensures GetParser(Some(name)) == Ok(ParserSuppliers[key])
  {
    var lower := ToLower(name);
    KeyShape(key);
    ExtensionOfSuffix(lower, key);
    assert lower[|lower| - |key|] == key[0];
    LowerDot(name, |lower| - |key|);
    GetParserSome(name);
  }

  /** A name that ends with a table key in any letter case fails exactly when it is nothing but
      that key: then the dot is the first character and there is no extension. */
  lemma ExtensionOnlyName(name: string, key: string)
    requires key in ParserSuppliers && EndsWith(ToLower(name), key)
    ensures GetParser(Some(name)).Err? <==> ToLower(name) in ParserSuppliers
    ensures GetParser(Some(name)).Err? ==> GetParser(Some(name)) == Err(NoExtension(ToLower(name)))
  {
    if |name| > |key| {
      SuffixSelects(name, key);
      LongerNameIsNoKey(ToLower(name), key);
    } else {
      KeyOnlyName(name, key);
    }
  }

  /** A text longer than a table key that ends with it has a dot after its first character,
      so it is no key itself. */
  lemma LongerNameIsNoKey(lower: string, key: string)
    requires key in ParserSuppliers && |lower| > |key| && EndsWith(lower, key)
    ensures lower !in ParserSuppliers
  {
    KeyShape(key);
    assert lower[|lower| - |key|] == key[0];
    if lower in ParserSuppliers {
      KeyShape(lower);
    }
  }

  lemma KeyOnlyName(name: string, key: string)
    requires key in ParserSuppliers && EndsWith(ToLower(name), key) && |name| <= |key|
    ensures ToLower(name) == key
    ensures GetParser(Some(name)) == Err(NoExtension(key))
  {
    var lower := ToLower(name);
    assert lower == key;
    KeyShape(key);
    LowerDot(name, 0);
    assert LastIndexOf(lower, '.') == 0;
  }

  /** The table maps ".csv" to the CSV parser and both spreadsheet extensions to the
      spreadsheet parser. */
  lemma SupplierOf(e: string)
    requires e in ParserSuppliers
    ensures ParserSuppliers[e] == CsvParserKind <==> e == ExtensionCsv
    ensures ParserSuppliers[e] == ExcelParserKind <==> e == ExtensionXls || e == ExtensionXlsx
  {
  }

  /** The CSV parser is chosen exactly for names longer than ".csv" that end with it in any
      letter case. */
  lemma SelectsCsv(name: string)
    ensures GetParser(Some(name)) == Ok(CsvParserKind) <==> |name| > |ExtensionCsv| && EndsWith(ToLower(name), ExtensionCsv)
  {
    GetParserSome(name);
    if |name| > |ExtensionCsv| && EndsWith(ToLower(name), ExtensionCsv) {
      SuffixSelects(name, ExtensionCsv);
    }
    if GetParser(Some(name)) == Ok(CsvParserKind) {
      SupplierOf(ExtractExtension(ToLower(name)).value);
    }
  }

  /** The spreadsheet parser is chosen exactly for names longer than ".xls" or ".xlsx" that end
      with one of them in any letter case. */
  lemma SelectsExcel(name: string)
    ensures GetParser(Some(name)) == Ok(ExcelParserKind)
        <==> (|name| > |ExtensionXls| && EndsWith(ToLower(name), ExtensionXls))
             || (|name| > |ExtensionXlsx| && EndsWith(ToLower(name), ExtensionXlsx))
  {
    GetParserSome(name);
    if |name| > |ExtensionXls| && EndsWith(ToLower(name), ExtensionXls) {
      SuffixSelects(name, ExtensionXls);
    }
    if |name| > |ExtensionXlsx| && EndsWith(ToLower(name), ExtensionXlsx) {
      SuffixSelects(name, ExtensionXlsx);
    }
    if GetParser(Some(name)) == Ok(ExcelParserKind) {
      SupplierOf(ExtractExtension(ToLower(name)).value);
    }
  }

  /** Letter case does not matter: the lower-cased name selects the same parser or fails the
      same way; only the unsupported-type message repeats the name as given. */
  lemma CaseInsensitive(name: string)
    ensures GetParser(Some(ToLower(name)))
         == match GetParser(Some(name))
            case Err(UnsupportedType(_)) => Err(UnsupportedType(ToLower(name)))
            case other => other
  {
    ToLowerIdempotent(name);
    LowerPreservesBlank(name);
  }

  /** Only the last extension counts: "a.txt.csv" is a CSV file, "a.csv.txt" is not. */
  lemma LastExtensionWins()
    ensures GetParser(Some("a.txt.csv")) == Ok(CsvParserKind)
  {
    NoUpperIsLower("a.txt.csv");
    SelectsCsv("a.txt.csv");
  }

  lemma EarlierExtensionIgnored()
    ensures GetParser(Some("a.csv.txt")) == Err(UnsupportedType("a.csv.txt"))
  {
    var name := "a.csv.txt";
    NoUpperIsLower(name);
    assert !IsBlank(name) by { assert !IsWhitespace(name[0]); }
    ExtensionOfSuffix(name, ".txt");
    GetParserSome(name);
    assert ".txt" !in ParserSuppliers;
  }

  /** The extension is matched in any letter case. */
  lemma UpperCaseExtension()
    ensures GetParser(Some("Report.XLSX")) == Ok(ExcelParserKind)
  {
    assert ToLower("Report.XLSX") == "report.xlsx";
    SelectsExcel("Report.XLSX");
  }

  /** A dot must have something on both sides. */
  lemma LeadingDotIsNoExtension()
    ensures GetParser(Some(".csv")) == Err(NoExtension(".csv"))
  {
    NoUpperIsLower(ExtensionCsv);
    KeyOnlyName(ExtensionCsv, ExtensionCsv);
  }

  lemma TrailingDotIsNoExtension()
    ensures GetParser(Some("awards.")) == Err(NoExtension("awards."))
  {
    NoUpperIsLower("awards.");
    assert !IsBlank("awards.") by { assert !IsWhitespace("awards."[0]); }
  }

  lemma NoDotIsNoExtension()
    ensures GetParser(Some("awards")) == Err(NoExtension("awards"))
  {
    NoUpperIsLower("awards");
    assert !IsBlank("awards") by { assert !IsWhitespace("awards"[0]); }
    assert forall j :: 0 < j < |"awards"| ==> "awards"[j] != '.';
  }

  /** A missing or blank name is refused before its extension is looked at. */
  lemma BlankNameRefused(name: string)
    requires IsBlank(name)
    ensures GetParser(Some(name)) == Err(NoFileName)
    ensures GetParser(None) == Err(NoFileName)
  {
  }

  /** A name that is not blank and has an extension, but ends in none of ".csv", ".xls" and
      ".xlsx" in any letter case, is refused as unsupported, naming itself as given. */
  lemma UnsupportedNameRefused(name: string)
    requires !IsBlank(name) && ExtractExtension(ToLower(name)).Ok?
    requires !EndsWith(ToLower(name), ExtensionCsv) && !EndsWith(ToLower(name), ExtensionXls)
             && !EndsWith(ToLower(name), ExtensionXlsx)
    ensures GetParser(Some(name)) == Err(UnsupportedType(name))
  {
    var extension := ExtractExtension(ToLower(name)).value;
    assert EndsWith(ToLower(name), extension);
    assert extension != ExtensionCsv && extension != ExtensionXls && extension != ExtensionXlsx;
    GetParserSome(name);
  }
}
