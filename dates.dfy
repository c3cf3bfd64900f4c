/**
 * Calendar dates as Python's `datetime.date` holds them, with the two text
 * forms the ledger uses: `isoformat()` ("YYYY-MM-DD") and `strftime('%Y-%m')`,
 * and the parser `datetime.strptime(t, '%Y-%m-%d')`.
 */
module Dates {
  import opened Wrappers
  import opened Numbers

  datatype Date = Date(year: int, month: int, day: int)

  predicate IsLeapYear(y: int)
  {
    y % 4 == 0 && (y % 100 != 0 || y % 400 == 0)
  }

  function DaysInMonth(y: int, m: int): (n: int)
    requires 1 <= m <= 12
    ensures 28 <= n <= 31
  {
    if m == 2 then (if IsLeapYear(y) then 29 else 28)
    else if m == 4 || m == 6 || m == 9 || m == 11 then 30
    else 31
  }

  /** The dates `datetime.date` can represent: years 1 to 9999 and real days of real months. */
  predicate IsValid(d: Date)
  {
    1 <= d.year <= 9999 && 1 <= d.month <= 12 && 1 <= d.day <= DaysInMonth(d.year, d.month)
  }

  type CalendarDate = d: Date | IsValid(d) witness Date(1970, 1, 1)

  /** `d.isoformat()`. */
  function IsoFormat(d: CalendarDate): (s: string)
    ensures |s| == 10
  {
    ZeroPad(d.year, 4) + "-" + ZeroPad(d.month, 2) + "-" + ZeroPad(d.day, 2)
  }

  /** `d.strftime('%Y-%m')`, the month key of a date. */
  function YearMonth(d: CalendarDate): (s: string)
    ensures |s| == 7
  {
    ZeroPad(d.year, 4) + "-" + ZeroPad(d.month, 2)
  }

  /** The month key is where the ISO form of the date begins. */
  lemma YearMonthStartsIsoFormat(d: CalendarDate)
    ensures IsoFormat(d)[..7] == YearMonth(d)
  {
  }

  /** The `%d` field: one or two digits, or a space and one digit. */
  function ParseDay(s: string): (r: Option<nat>)
  {
    if 1 <= |s| <= 2 && AllDigits(s) then Some(DigitsValue(s))
    else if |s| == 2 && s[0] == ' ' && IsDigit(s[1]) then Some(DigitValue(s[1]))
    else None
  }

  /**
   * `datetime.strptime(t, '%Y-%m-%d').date()`: four digits of year, `-`, one
   * or two digits of month, `-`, the day; the whole text must be consumed and
   * the date must exist, otherwise the parse fails (`ValueError`).
   */
  function ParseDate(t: string): (r: Option<CalendarDate>)
    ensures r.Some? ==> 8 <= |t| <= 10
  {
    if !(8 <= |t| <= 10) || !AllDigits(t[..4]) || t[4] != '-' then None
    else
      var rest := t[5..];
      var monthLength := if IsDigit(rest[1]) then 2 else 1;
      if !AllDigits(rest[..monthLength]) || rest[monthLength] != '-' then None
      else
        match ParseDay(rest[monthLength + 1..])
        case None => None
        case Some(day) =>
          var d := Date(DigitsValue(t[..4]), DigitsValue(rest[..monthLength]), day);
          if IsValid(d) then Some(d) else None
  }

  /** A text of four year digits, `-`, two month digits, `-` and two day digits parses to those three numbers when they form a real date. */
  lemma ParseFixedWidth(y: string, m: string, dd: string)
    requires |y| == 4 && |m| == 2 && |dd| == 2
    requires AllDigits(y) && AllDigits(m) && AllDigits(dd)
    ensures var d := Date(DigitsValue(y), DigitsValue(m), DigitsValue(dd));
            ParseDate(y + "-" + m + "-" + dd) == if IsValid(d) then Some(d) else None
  {
    var t := y + "-" + m + "-" + dd;
    assert t[..4] == y;
    assert t[4] == '-';
    var rest := t[5..];
    assert rest == m + "-" + dd;
    assert IsDigit(rest[1]) && rest[2] == '-';
    assert rest[..2] == m;
    assert rest[3..] == dd;
    assert ParseDay(dd) == Some(DigitsValue(dd));
  }

  /** `strptime(d.isoformat(), '%Y-%m-%d') == d`: a written date is read back unchanged. */
  lemma ParseIsoFormat(d: CalendarDate)
    ensures ParseDate(IsoFormat(d)) == Some(d)
  {
    ParseFixedWidth(ZeroPad(d.year, 4), ZeroPad(d.month, 2), ZeroPad(d.day, 2));
    ZeroPadValue(d.year, 4);
    ZeroPadValue(d.month, 2);
    ZeroPadValue(d.day, 2);
  }
}
