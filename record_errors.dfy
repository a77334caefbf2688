/** The messages handleRecordError collects name the record they are about: its two external
    identifiers can be read back from the text formatError builds. */
module RecordErrors {
  import opened Wrappers
  import opened JavaText
  import opened Domain
  import opened FieldConversion
  import opened FileProcessingService

  /** e starts with the text p. */
  predicate StartsWithText(e: string, p: string) {
    |p| <= |e| && e[..|p|] == p
  }

  /** e starts with the decimal text of x, which Long.parseLong reads back as x. */
  predicate StartsWithLong(e: string, x: Int64) {
    var n := |LongToString(x)|;
    n <= |e| && ParseLong(e[..n]) == Some(x)
  }

  /** e is p, the decimal text of x, q, the decimal text of y, r and then m, and
      Long.parseLong reads x and y back from their places. */
  predicate NamesIds(e: string, p: string, x: Int64, q: string, y: Int64, r: string, m: string) {
    StartsWithText(e, p) && FromFirstId(e[|p|..], x, q, y, r, m)
  }

  /** What follows the prefix: the decimal text of x, then q, y, r and m. */
  predicate FromFirstId(e: string, x: Int64, q: string, y: Int64, r: string, m: string) {
    StartsWithLong(e, x) && FromLabel(e[|LongToString(x)|..], q, y, r, m)
  }

  /** What follows the first identifier: q, then the decimal text of y, r and m. */
  predicate FromLabel(e: string, q: string, y: Int64, r: string, m: string) {
    StartsWithText(e, q) && FromSecondId(e[|q|..], y, r, m)
  }

  /** What follows the label: the decimal text of y, then r and m. */
  predicate FromSecondId(e: string, y: Int64, r: string, m: string) {
    StartsWithLong(e, y) && FromSeparator(e[|LongToString(y)|..], r, m)
  }

  /** What follows the second identifier: r and then exactly m. */
  predicate FromSeparator(e: string, r: string, m: string) {
    StartsWithText(e, r) && e[|r|..] == m
  }

  /** An error message names its record: the employee and award identifiers read back with
      Long.parseLong from their places in the message, and the exception message closes it
      unchanged. */
  lemma ErrorNamesRecord(record: AwardFileRecord, message: string)
    ensures NamesIds(FormatError(record, message), ErrorPrefix, record.employeeExternalId, AwardIdLabel,
                     record.awardExternalId, MessageSeparator, message)
  {
    var x := record.employeeExternalId;
    var y := record.awardExternalId;
    Reassociate(ErrorPrefix, LongToString(x), AwardIdLabel, LongToString(y), MessageSeparator, message);
    FieldsReadBack(FormatError(record, message), ErrorPrefix, x, AwardIdLabel, y, MessageSeparator, message);
  }

  lemma Reassociate(a: string, b: string, c: string, d: string, f: string, g: string)
    ensures a + b + c + d + f + g == a + (b + (c + (d + (f + g))))
  {
  }

  /** Whatever the surrounding texts, the two numbers read back from their places. */
  lemma FieldsReadBack(e: string, p: string, x: Int64, q: string, y: Int64, r: string, m: string)
    requires e == p + (LongToString(x) + (q + (LongToString(y) + (r + m))))
    ensures NamesIds(e, p, x, q, y, r, m)
  {
    var e4 := r + m;
    var e3 := LongToString(y) + e4;
    var e2 := q + e3;
    var e1 := LongToString(x) + e2;
    SeparatorStep(e4, r, m);
    SecondIdStep(e3, y, e4, r, m);
    LabelStep(e2, q, e3, y, r, m);
    FirstIdStep(e1, x, e2, q, y, r, m);
    TextThenRest(e, p, e1);
  }

  lemma SeparatorStep(e: string, r: string, m: string)
    requires e == r + m
    ensures FromSeparator(e, r, m)
  {
    TextThenRest(e, r, m);
  }

  lemma SecondIdStep(e: string, y: Int64, rest: string, r: string, m: string)
    requires e == LongToString(y) + rest && FromSeparator(rest, r, m)
    ensures FromSecondId(e, y, r, m)
  {
    LongThenRest(e, y, rest);
  }

  lemma LabelStep(e: string, q: string, rest: string, y: Int64, r: string, m: string)
    requires e == q + rest && FromSecondId(rest, y, r, m)
    ensures FromLabel(e, q, y, r, m)
  {
    TextThenRest(e, q, rest);
  }

  lemma FirstIdStep(e: string, x: Int64, rest: string, q: string, y: Int64, r: string, m: string)
    requires e == LongToString(x) + rest && FromLabel(rest, q, y, r, m)
    ensures FromFirstId(e, x, q, y, r, m)
  {
    LongThenRest(e, x, rest);
  }

  lemma TextThenRest(e: string, p: string, rest: string)
    requires e == p + rest
    ensures StartsWithText(e, p) && e[|p|..] == rest
  {
  }

  lemma LongThenRest(e: string, x: Int64, rest: string)
    requires e == LongToString(x) + rest
    ensures StartsWithLong(e, x) && e[|LongToString(x)|..] == rest
  {
    assert e[..|LongToString(x)|] == LongToString(x);
    ParseLongRoundTrip(x);
  }
}
