/** Field conversion shared by every parser: Long.parseLong for the two identifier columns,
    LocalDate.parse (ISO_LOCAL_DATE, strict) for the date column, and the five-cell
    conversion of the capitalised CsvParser and ExcelParser, which reports every failure as
    a malformed value. */
module FieldConversion {
  import opened Wrappers
  import opened JavaText
  import opened Domain

  /** Long.parseLong(s, 10): an optional '+' or '-', at least one decimal digit, and a
      value inside the signed 64-bit range; anything else is a NumberFormatException. */
  function ParseLong(s: string): (r: Option<Int64>)
    ensures r.Some? ==> |s| > 0 && (IsDigit(s[0]) || ((s[0] == '-' || s[0] == '+') && |s| > 1))
    ensures r.Some? ==> AllDigits(s[1..])
    ensures r.Some? ==> (r.value < 0 ==> s[0] == '-')
  {
    if |s| == 0 then None
    else
      var signed := s[0] == '-' || s[0] == '+';
      var digits := if signed then s[1..] else s;
      if |digits| == 0 || !AllDigits(digits) then None
      else
        var magnitude: int := DigitsValue(digits);
        var v := if s[0] == '-' then -magnitude else magnitude;
        if MinLong <= v <= MaxLong then Some(v) else None
  }

  /** Long.toString is a right inverse of Long.parseLong on the whole long range. */
  lemma ParseLongRoundTrip(n: Int64)
    ensures ParseLong(LongToString(n)) == Some(n)
  {
    var s := LongToString(n);
    if n < 0 {
      var m: nat := -(n as int);
      var digits := NatToString(m);
      NatToStringValue(m);
      assert s == "-" + digits;
      assert s[0] == '-' && s[1..] == digits;
      assert DigitsValue(s[1..]) == m;
    } else {
      NatToStringValue(n);
      assert IsDigit(s[0]);
      assert DigitsValue(s) == n;
    }
  }

  /** Digit strings whose value lies outside the long range are rejected, with or without
      a sign. */
  lemma ParseLongRejectsOutOfRange(n: nat, sign: string)
    requires sign == "" || sign == "+" || sign == "-"
    requires if sign == "-" then n > -MinLong else n > MaxLong
    ensures ParseLong(sign + NatToString(n)) == None
  {
    NatToStringValue(n);
    var digits := NatToString(n);
    var s := sign + digits;
    if sign == "" {
      assert s == digits && s[0] != '-' && s[0] != '+';
    } else {
      assert s[0] == sign[0] && s[1..] == digits;
    }
  }

  /** Any character other than a leading sign and decimal digits is rejected. */
  lemma ParseLongRejectsNonDigit(s: string, i: nat)
    requires 0 < i < |s| && !IsDigit(s[i])
    ensures ParseLong(s) == None
  {
  }

  /** The digits of s[from..from + width]. */
  predicate DigitsAt(s: string, from: nat, width: nat) {
    from + width <= |s| && AllDigits(s[from..from + width])
  }

  /** LocalDate.parse(s): exactly yyyy-MM-dd, the "full-date" of section 5.6 of RFC 3339,
      naming an existing day: month 01-12 and a day within that month of that year. */
  function ParseDate(s: string): (r: Option<Date>)
    ensures r.Some? ==> ValidDate(r.value) && 0 <= r.value.year <= 9999
    ensures r.Some? ==> |s| == 10 && s[4] == '-' && s[7] == '-'
  {
    if |s| == 10 && s[4] == '-' && s[7] == '-'
       && DigitsAt(s, 0, 4) && DigitsAt(s, 5, 2) && DigitsAt(s, 8, 2)
    then
      var d := Date(DigitsValue(s[0..4]), DigitsValue(s[5..7]), DigitsValue(s[8..10]));
      FourDigitsBound(s[0..4]);
      if ValidDate(d) then Some(d) else None
    else None
  }

  lemma FourDigitsBound(s: string)
    requires |s| == 4 && AllDigits(s)
    ensures DigitsValue(s) <= 9999
  {
    DigitsValuePad(s);
    assert Power10(4) == 10000;
  }

  /** n as exactly `width` decimal digits, with leading zeros. */
  function PadDigits(n: nat, width: nat): (s: string)
    ensures |s| == width && AllDigits(s)
  {
    if width == 0 then [] else PadDigits(n / 10, width - 1) + [DigitChar(n % 10)]
  }

  function Power10(k: nat): (p: nat)
    ensures p >= 1
  {
    if k == 0 then 1 else 10 * Power10(k - 1)
  }

  lemma {:induction false} PadDigitsValue(n: nat, width: nat)
    requires n < Power10(width)
    ensures DigitsValue(PadDigits(n, width)) == n
  {
    if width > 0 {
      var s := PadDigits(n, width);
      assert s[..width - 1] == PadDigits(n / 10, width - 1);
      PadDigitsValue(n / 10, width - 1);
    }
  }

  lemma {:induction false} DigitsValuePad(s: string)
    requires AllDigits(s)
    ensures DigitsValue(s) < Power10(|s|)
    ensures PadDigits(DigitsValue(s), |s|) == s
  {
    if |s| > 0 {
      var init := s[..|s| - 1];
      DigitsValuePad(init);
      var v := DigitsValue(s);
      assert v / 10 == DigitsValue(init) && v % 10 == DigitValue(s[|s| - 1]);
      assert DigitChar(v % 10) == s[|s| - 1];
      assert s == init + [s[|s| - 1]];
    }
  }

  /** LocalDate.toString for years 0 to 9999: yyyy-MM-dd. */
  function FormatDate(d: Date): (s: string)
    requires 0 <= d.year <= 9999 && ValidDate(d)
    ensures |s| == 10
  {
    PadDigits(d.year, 4) + "-" + PadDigits(d.month, 2) + "-" + PadDigits(d.day, 2)
  }

  /** Formatting then parsing gives the date back. */
  lemma ParseFormatDate(d: Date)
    requires 0 <= d.year <= 9999 && ValidDate(d)
    ensures ParseDate(FormatDate(d)) == Some(d)
  {
    var s := FormatDate(d);
    assert s[0..4] == PadDigits(d.year, 4);
    assert s[5..7] == PadDigits(d.month, 2);
    assert s[8..10] == PadDigits(d.day, 2);
    PadDigitsValue(d.year, 4);
    PadDigitsValue(d.month, 2);
    PadDigitsValue(d.day, 2);
  }

  /** Every accepted text is the canonical spelling of the date it denotes: the accepted
      texts and the dates of years 0-9999 are in one-to-one correspondence. */
  lemma FormatParseDate(s: string)
    requires ParseDate(s).Some?
    ensures FormatDate(ParseDate(s).value) == s
  {
    var d := ParseDate(s).value;
    assert d == Date(DigitsValue(s[0..4]), DigitsValue(s[5..7]), DigitsValue(s[8..10]));
    DigitsValuePad(s[0..4]);
    DigitsValuePad(s[5..7]);
    DigitsValuePad(s[8..10]);
    DateShape(s);
  }

  lemma DateShape(s: string)
    requires |s| == 10 && s[4] == '-' && s[7] == '-'
    ensures s == s[0..4] + "-" + s[5..7] + "-" + s[8..10]
  {
  }

  /** The record constructor of the capitalised CsvParser.parseLine and of
      ExcelParser.createRecord: columns 0 and 2 through Long.parseLong, 1 and 3 verbatim,
      4 through LocalDate.parse; any failure is the single malformed-value error. */
  function ConvertFields(values: seq<string>, context: string): (r: Result<AwardFileRecord, FileError>)
    requires |values| == ExpectedColumns
    ensures r.Ok? <==> ParseLong(values[0]).Some? && ParseLong(values[2]).Some? && ParseDate(values[4]).Some?
    ensures r.Ok? ==> r.value == AwardFileRecord(
      ParseLong(values[EmployeeExternalIdColumn]).value, values[EmployeeFullNameColumn],
      ParseLong(values[AwardExternalIdColumn]).value, values[AwardNameColumn],
      ParseDate(values[ReceivedDateColumn]).value)
    ensures r.Err? ==> r.error == MalformedValue(context)
  {
    match (ParseLong(values[EmployeeExternalIdColumn]), ParseLong(values[AwardExternalIdColumn]),
           ParseDate(values[ReceivedDateColumn]))
    case (Some(employeeId), Some(awardId), Some(date)) =>
      Ok(AwardFileRecord(employeeId, values[EmployeeFullNameColumn], awardId, values[AwardNameColumn], date))
    case _ => Err(MalformedValue(context))
  }
}
