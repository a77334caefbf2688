/** The shape every parser loop shares: convert the data rows one after another, append each
    record to the list, and abandon the whole list at the first row whose conversion throws. */
module RowParsing {
  import opened Wrappers
  import opened Domain

  /** The records of `items`, in order, or the error of the first item that fails. Defined on
      prefixes, as the parser loops build the list. */
  function ParseEach<T>(items: seq<T>, convert: T -> Result<AwardFileRecord, FileError>): (r: Result<seq<AwardFileRecord>, FileError>)
    ensures r.Ok? ==> |r.value| == |items|
    decreases |items|
  {
    if |items| == 0 then Ok([])
    else
      var init := items[..|items| - 1];
      match ParseEach(init, convert)
      case Err(e) => Err(e)
      case Ok(records) =>
        match convert(items[|items| - 1])
        case Err(e) => Err(e)
        case Ok(record) => Ok(records + [record])
  }

  /** The list succeeds exactly when every item converts, and then holds each item's record
      at that item's position. */
  lemma {:induction false} ParseEachOk<T>(items: seq<T>, convert: T -> Result<AwardFileRecord, FileError>)
    ensures ParseEach(items, convert).Ok? <==> forall i :: 0 <= i < |items| ==> convert(items[i]).Ok?
    ensures ParseEach(items, convert).Ok? ==>
      forall i :: 0 <= i < |items| ==> convert(items[i]) == Ok(ParseEach(items, convert).value[i])
    decreases |items|
  {
    if |items| > 0 {
      var init := items[..|items| - 1];
      ParseEachOk(init, convert);
      assert forall i :: 0 <= i < |init| ==> init[i] == items[i];
    }
  }

  /** A failing list carries the error of the first item that fails. */
  lemma {:induction false} ParseEachErr<T>(items: seq<T>, convert: T -> Result<AwardFileRecord, FileError>)
    requires ParseEach(items, convert).Err?
    ensures exists k :: 0 <= k < |items| && convert(items[k]) == Err(ParseEach(items, convert).error)
                        && forall j :: 0 <= j < k ==> convert(items[j]).Ok?
    decreases |items|
  {
    var init := items[..|items| - 1];
    var last := |items| - 1;
    if ParseEach(init, convert).Err? {
      ParseEachErr(init, convert);
      var k :| 0 <= k < |init| && convert(init[k]) == Err(ParseEach(init, convert).error)
               && forall j :: 0 <= j < k ==> convert(init[j]).Ok?;
      assert items[k] == init[k] && forall j :: 0 <= j < k ==> items[j] == init[j];
    } else {
      ParseEachOk(init, convert);
      assert forall j :: 0 <= j < last ==> items[j] == init[j];
      assert convert(items[last]) == Err(ParseEach(items, convert).error);
    }
  }

  /** One iteration of a parser loop: after a successful prefix, the next item either extends
      the list by its record or decides the result of the whole sequence. */
  lemma ParseEachStep<T>(items: seq<T>, i: nat, convert: T -> Result<AwardFileRecord, FileError>, records: seq<AwardFileRecord>)
    requires i < |items| && ParseEach(items[..i], convert) == Ok(records)
    ensures convert(items[i]).Ok? ==> ParseEach(items[..i + 1], convert) == Ok(records + [convert(items[i]).value])
    ensures convert(items[i]).Err? ==> ParseEach(items, convert) == Err(convert(items[i]).error)
  {
    assert items[..i + 1][..i] == items[..i];
    if convert(items[i]).Err? {
      ParseEachStopsAt(items, i, convert);
    }
  }

  /** Once some item fails after a successful prefix, the whole sequence fails with its error,
      whatever follows. */
  lemma {:induction false} ParseEachStopsAt<T>(items: seq<T>, k: nat, convert: T -> Result<AwardFileRecord, FileError>)
    requires k < |items| && ParseEach(items[..k], convert).Ok? && convert(items[k]).Err?
    ensures ParseEach(items, convert) == Err(convert(items[k]).error)
    decreases |items|
  {
    if |items| == k + 1 {
      assert items[..k] == items[..|items| - 1];
    } else {
      var init := items[..|items| - 1];
      assert init[..k] == items[..k];
      ParseEachStopsAt(init, k, convert);
    }
  }

  /** The list of a whole sequence is the list of its first part followed by the list of the
      rest, when both succeed. */
  lemma {:induction false} ParseEachAppend<T>(a: seq<T>, b: seq<T>, convert: T -> Result<AwardFileRecord, FileError>)
    requires ParseEach(a, convert).Ok? && ParseEach(b, convert).Ok?
    ensures ParseEach(a + b, convert) == Ok(ParseEach(a, convert).value + ParseEach(b, convert).value)
    decreases |b|
  {
    if |b| == 0 {
      assert a + b == a && ParseEach(b, convert) == Ok([]);
      assert ParseEach(a, convert).value + [] == ParseEach(a, convert).value;
    } else {
      var init := b[..|b| - 1];
      var last := b[|b| - 1];
      assert (a + b)[..|a + b| - 1] == a + init && (a + b)[|a + b| - 1] == last;
      assert ParseEach(init, convert).Ok? && convert(last).Ok?;
      ParseEachAppend(a, init, convert);
      var ra, ri, x := ParseEach(a, convert).value, ParseEach(init, convert).value, convert(last).value;
      assert ParseEach(b, convert).value == ri + [x];
      assert ParseEach(a + b, convert) == Ok((ra + ri) + [x]);
      assert (ra + ri) + [x] == ra + (ri + [x]);
    }
  }
}
