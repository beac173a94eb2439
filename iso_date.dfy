/**
  Calendar dates as Python's `datetime.date` holds them, and `date.isoformat()`,
  which renders one as "YYYY-MM-DD" with a four-digit year and two-digit month
  and day, zero-padded. `ParseIsoDate` reads such a string back; the two are
  proved inverse to each other.
*/
module IsoDate {
  import opened Wrappers
  import opened Decimal

  datatype Date = Date(year: int, month: int, day: int)

  /** `datetime.MINYEAR` and `datetime.MAXYEAR`. */
  const MinYear := 1
  const MaxYear := 9999

  predicate IsLeapYear(y: int)
  {
    y % 4 == 0 && (y % 100 != 0 || y % 400 == 0)
  }

  function DaysInMonth(y: int, m: int): (n: int)
    requires 1 <= m <= 12
    ensures 28 <= n <= 31
    ensures n == 29 <==> m == 2 && IsLeapYear(y)
  {
    if m == 2 then (if IsLeapYear(y) then 29 else 28)
    else if m == 4 || m == 6 || m == 9 || m == 11 then 30
    else 31
  }

  /** The dates a `datetime.date` can hold (its constructor rejects every other). */
  predicate ValidDate(d: Date)
  {
    MinYear <= d.year <= MaxYear && 1 <= d.month <= 12 && 1 <= d.day <= DaysInMonth(d.year, d.month)
  }

  type CalendarDate = d: Date | ValidDate(d) witness Date(1, 1, 1)

  /** `date.isoformat()` */
  function IsoFormat(d: CalendarDate): (s: string)
    ensures |s| == 10 && s[4] == '-' && s[7] == '-'
    ensures AllDigits(s[..4]) && AllDigits(s[5..7]) && AllDigits(s[8..])
  {
    var s := PadDecimal(d.year, 4) + "-" + PadDecimal(d.month, 2) + "-" + PadDecimal(d.day, 2);
    assert s[..4] == PadDecimal(d.year, 4) && s[5..7] == PadDecimal(d.month, 2) && s[8..] == PadDecimal(d.day, 2);
    s
  }

  /** `date.fromisoformat` restricted to the "YYYY-MM-DD" form that `isoformat` produces. */
  function ParseIsoDate(s: string): (r: Option<CalendarDate>)
  {
    if |s| == 10 && s[4] == '-' && s[7] == '-'
       && AllDigits(s[..4]) && AllDigits(s[5..7]) && AllDigits(s[8..])
    then
      var d := Date(DecimalValue(s[..4]), DecimalValue(s[5..7]), DecimalValue(s[8..]));
      if ValidDate(d) then Some(d) else None
    else None
  }

  /** Every date's ISO form reads back as that date. */
  lemma IsoFormatRoundTrip(d: CalendarDate)
    ensures ParseIsoDate(IsoFormat(d)) == Some(d)
  {
    var s := IsoFormat(d);
    assert s[..4] == PadDecimal(d.year, 4) && s[5..7] == PadDecimal(d.month, 2) && s[8..] == PadDecimal(d.day, 2);
    DecimalOfPad(d.year, 4);
    DecimalOfPad(d.month, 2);
    DecimalOfPad(d.day, 2);
  }

  /** Every string that reads as a date is that date's ISO form. */
  lemma ParseIsoDateInverse(s: string)
    requires ParseIsoDate(s).Some?
    ensures IsoFormat(ParseIsoDate(s).value) == s
  {
    PadOfDecimal(s[..4]);
    PadOfDecimal(s[5..7]);
    PadOfDecimal(s[8..]);
    assert s == s[..4] + "-" + s[5..7] + "-" + s[8..];
  }

  /** Distinct dates have distinct ISO forms. */
  lemma IsoFormatInjective(d1: CalendarDate, d2: CalendarDate)
    requires IsoFormat(d1) == IsoFormat(d2)
    ensures d1 == d2
  {
    IsoFormatRoundTrip(d1);
    IsoFormatRoundTrip(d2);
  }
}
