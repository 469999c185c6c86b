/**
 * Cell and field values of a metric record, and the calendar checks that
 * Python's `datetime(year, month, day, hour, minute, second)` constructor
 * performs before it accepts a date.
 */
module Values {

  /** The six components `xlrd.xldate_as_tuple` returns, before any check. */
  datatype DateParts = DateParts(year: int, month: int, day: int, hour: int, minute: int, second: int)

  /**
   * A field value. Spreadsheet cells read as text (an empty cell reads as
   * the empty text) or as a number (booleans and error codes are numbers
   * too); `Null` is Python's `None`; `Stamp` is a `datetime`.
   */
  datatype Value = Null | Text(text: string) | Number(number: real) | Stamp(when: DateParts)

  predicate IsLeapYear(year: int) {
    year % 4 == 0 && (year % 100 != 0 || year % 400 == 0)
  }

  function DaysInMonth(year: int, month: int): (n: int)
    requires 1 <= month <= 12
    ensures 28 <= n <= 31
    ensures n == 28 <==> month == 2 && !IsLeapYear(year)
    ensures n == 29 <==> month == 2 && IsLeapYear(year)
    ensures n == 30 <==> month in {4, 6, 9, 11}
  {
    if month == 2 then (if IsLeapYear(year) then 29 else 28)
    else if month == 4 || month == 6 || month == 9 || month == 11 then 30
    else 31
  }

  /** The range checks of `datetime(...)`: a tuple that fails them raises ValueError. */
  predicate IsValidDateTime(p: DateParts)
    ensures IsValidDateTime(p) ==> 1 <= p.day <= 31
    ensures IsValidDateTime(p) && p.day == 31 ==> p.month in {1, 3, 5, 7, 8, 10, 12}
    ensures IsValidDateTime(p) && p.month == 2 && p.day == 29 ==> IsLeapYear(p.year)
    ensures && 1 <= p.year <= 9999 && 1 <= p.month <= 12 && 1 <= p.day <= 28
            && 0 <= p.hour < 24 && 0 <= p.minute < 60 && 0 <= p.second < 60
            ==> IsValidDateTime(p)
  {
    && 1 <= p.year <= 9999
    && 1 <= p.month <= 12
    && 1 <= p.day <= DaysInMonth(p.year, p.month)
    && 0 <= p.hour < 24
    && 0 <= p.minute < 60
    && 0 <= p.second < 60
  }
}
