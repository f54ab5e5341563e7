/**
 * The upload date of a record: `DateTime.ParseExact(upload_date, "yyyyMMdd", InvariantCulture)`,
 * with 1970-01-01 when parsing throws, and `date.ToString("yyyyMMdd")` for the sort name.
 */
module Dates {
  import opened Wrappers
  import opened Text

  /** A calendar date of the proleptic Gregorian calendar. */
  datatype Date = Date(year: int, month: int, day: int)

  /** `new DateTime(1970, 1, 1)`, the date used when the upload date cannot be read. */
  const Epoch := Date(1970, 1, 1)

  predicate IsLeapYear(y: int) {
    (y % 4 == 0 && y % 100 != 0) || y % 400 == 0
  }

  function DaysInMonth(y: int, m: int): (n: int)
    requires 1 <= m <= 12
    ensures 28 <= n <= 31
  {
    if m == 2 then (if IsLeapYear(y) then 29 else 28)
    else if m == 4 || m == 6 || m == 9 || m == 11 then 30
    else 31
  }

  /** A date `DateTime` can represent: years 1 to 9999. */
  predicate IsValidDate(d: Date) {
    1 <= d.year <= 9999 && 1 <= d.month <= 12 && 1 <= d.day <= DaysInMonth(d.year, d.month)
  }

  /** `d.ToString("yyyyMMdd")` with the invariant calendar. */
  function FormatDate(d: Date): (r: string)
    requires IsValidDate(d)
    ensures |r| == 8 && AllDigits(r)
  {
    FormatNumber(d.year, 4) + FormatNumber(d.month, 2) + FormatNumber(d.day, 2)
  }

  /** The three digit fields of an eight-digit text are digits. */
  lemma DigitFields(t: string)
    requires |t| == 8 && AllDigits(t)
    ensures AllDigits(t[..4]) && AllDigits(t[4..6]) && AllDigits(t[6..])
  {
    forall i | 0 <= i < 4 ensures IsDigit(t[..4][i]) { assert t[..4][i] == t[i]; }
    forall i | 0 <= i < 2 ensures IsDigit(t[4..6][i]) { assert t[4..6][i] == t[4 + i]; }
    forall i | 0 <= i < 2 ensures IsDigit(t[6..][i]) { assert t[6..][i] == t[6 + i]; }
  }

  /** The date an eight-digit text spells, valid or not. */
  function DateOfDigits(t: string): (d: Date)
    requires |t| == 8 && AllDigits(t)
  {
    DigitFields(t);
    Date(DigitsValue(t[..4]), DigitsValue(t[4..6]), DigitsValue(t[6..]))
  }

  /** Writing back the fields of an eight-digit text gives the text. */
  lemma FormatOfDigitFields(t: string)
    requires |t| == 8 && AllDigits(t) && IsValidDate(DateOfDigits(t))
    ensures FormatDate(DateOfDigits(t)) == t
  {
    DigitFields(t);
    FormatOfDigitsValue(t[..4]);
    FormatOfDigitsValue(t[4..6]);
    FormatOfDigitsValue(t[6..]);
    assert t == t[..4] + t[4..6] + t[6..];
  }

  /**
   * `ParseExact(s, "yyyyMMdd")`: exactly four, two and two ASCII digits and nothing else,
   * forming a valid date; `None` wherever the call throws (null, wrong shape, no such date).
   */
  function ParseExactDate(s: NString): (r: Option<Date>)
    ensures r.Some? ==> IsValidDate(r.value) && s == Some(FormatDate(r.value))
  {
    if s.None? || |s.value| != 8 || !AllDigits(s.value) then None
    else if IsValidDate(DateOfDigits(s.value)) then
      FormatOfDigitFields(s.value);
      Some(DateOfDigits(s.value))
    else None
  }

  /** Every valid date survives formatting and parsing back. */
  lemma ParseFormatRoundTrip(d: Date)
    requires IsValidDate(d)
    ensures ParseExactDate(Some(FormatDate(d))) == Some(d)
  {
    var t := FormatDate(d);
    DigitsValueOfFormat(d.year, 4);
    DigitsValueOfFormat(d.month, 2);
    DigitsValueOfFormat(d.day, 2);
    assert t[..4] == FormatNumber(d.year, 4);
    assert t[4..6] == FormatNumber(d.month, 2);
    assert t[6..] == FormatNumber(d.day, 2);
  }

  /** Parsing succeeds with `d` exactly when the text is the format of the valid date `d`. */
  lemma ParseExactDateIff(s: NString, d: Date)
    ensures ParseExactDate(s) == Some(d) <==> IsValidDate(d) && s == Some(FormatDate(d))
  {
    if IsValidDate(d) && s == Some(FormatDate(d)) {
      ParseFormatRoundTrip(d);
    }
  }

  /** The date the mappers store: the parsed upload date, or the epoch when parsing throws. */
  function UploadDate(s: NString): (d: Date)
    ensures IsValidDate(d)
    ensures ParseExactDate(s).None? ==> d == Epoch
    ensures ParseExactDate(s).Some? ==> s == Some(FormatDate(d))
  {
    match ParseExactDate(s)
    case Some(d) => d
    case None => Epoch
  }

  /** A leap day is read as itself. */
  lemma LeapDayExample()
    ensures UploadDate(Some("20240229")) == Date(2024, 2, 29)
  {
    var leap := Date(2024, 2, 29);
    assert FormatNumber(2024, 4) == "2024";
    assert FormatNumber(2, 2) == "02";
    assert FormatNumber(29, 2) == "29";
    assert FormatDate(leap) == "20240229";
    ParseFormatRoundTrip(leap);
  }

  /** How ParseExactDate reads eight digits. */
  lemma ParseExactDateOfDigits(t: string)
    requires |t| == 8 && AllDigits(t)
    ensures AllDigits(t[..4]) && AllDigits(t[4..6]) && AllDigits(t[6..])
    ensures var d := Date(DigitsValue(t[..4]), DigitsValue(t[4..6]), DigitsValue(t[6..]));
      ParseExactDate(Some(t)) == if IsValidDate(d) then Some(d) else None
  {
    DigitFields(t);
  }

  /** "2023", "02" and "29" read as 2023, 2 and 29. */
  lemma MissingDayFields(y: string, m: string, d: string)
    requires y == "2023" && m == "02" && d == "29"
    ensures AllDigits(y) && AllDigits(m) && AllDigits(d)
    ensures DigitsValue(y) == 2023 && DigitsValue(m) == 2 && DigitsValue(d) == 29
  {
    assert y[..3] == "202" && "202"[..2] == "20" && "20"[..1] == "2" && "2"[..0] == "";
    assert m[..1] == "0" && "0"[..0] == "";
    assert d[..1] == "2";
  }

  /** Eight digits naming a day that does not exist fall back to the epoch. */
  lemma MissingDayExample(s: string)
    requires s == "20230229"
    ensures UploadDate(Some(s)) == Epoch
  {
    assert s[..4] == "2023" && s[4..6] == "02" && s[6..] == "29";
    MissingDayFields(s[..4], s[4..6], s[6..]);
    assert AllDigits(s) by {
      assert s == s[..4] + s[4..6] + s[6..];
    }
    ParseExactDateOfDigits(s);
    assert !IsValidDate(Date(2023, 2, 29));
  }
}
