/** Proleptic-Gregorian calendar dates, as Python's `datetime` represents them:
    years 1 to 9999, months 1 to 12, and days within the month's length. */
module Calendar {

  /** A (year, month, day) triple; `IsValid` says whether it names a real day. */
  datatype Date = Date(year: int, month: int, day: int)

  /** Python's `datetime.MINYEAR` and `datetime.MAXYEAR`. */
  const MinYear := 1
  const MaxYear := 9999

  /** The last representable day, which has no successor. */
  const LastDate := Date(MaxYear, 12, 31)

  /** Gregorian rule: every fourth year, except centuries not divisible by 400. */
  predicate IsLeapYear(y: int) {
    y % 4 == 0 && (y % 100 != 0 || y % 400 == 0)
  }

  function DaysInMonth(y: int, m: int): (n: int)
    requires 1 <= m <= 12
    ensures 28 <= n <= 31
    ensures m == 2 ==> (n == 29 <==> IsLeapYear(y))
    ensures m != 2 ==> n >= 30
  {
    if m == 2 then (if IsLeapYear(y) then 29 else 28)
    else if m == 4 || m == 6 || m == 9 || m == 11 then 30
    else 31
  }

  /** The triple denotes a day that exists. */
  predicate IsValid(d: Date) {
    MinYear <= d.year <= MaxYear && 1 <= d.month <= 12 && 1 <= d.day <= DaysInMonth(d.year, d.month)
  }

  /** Python's `(month, day) < (month', day')`: tuples compared lexicographically. */
  predicate MonthDayBefore(a: Date, b: Date) {
    a.month < b.month || (a.month == b.month && a.day < b.day)
  }

  /** Chronological order of dates: lexicographic on (year, month, day). */
  predicate Precedes(a: Date, b: Date) {
    a.year < b.year || (a.year == b.year && MonthDayBefore(a, b))
  }

  predicate OnOrBefore(a: Date, b: Date) {
    a == b || Precedes(a, b)
  }

  /** The calendar day after `d`. */
  function NextDay(d: Date): (r: Date)
    requires IsValid(d) && d != LastDate
    ensures IsValid(r) && Precedes(d, r)
  {
    if d.day < DaysInMonth(d.year, d.month) then Date(d.year, d.month, d.day + 1)
    else if d.month < 12 then Date(d.year, d.month + 1, 1)
    else Date(d.year + 1, 1, 1)
  }

  /** `NextDay` skips no real day: every valid date after `d` is on or after `NextDay(d)`. */
  lemma NextDayIsSuccessor(d: Date, e: Date)
    requires IsValid(d) && d != LastDate && IsValid(e) && Precedes(d, e)
    ensures OnOrBefore(NextDay(d), e)
  {
    if d.day == DaysInMonth(d.year, d.month) && d.month == 12 {
      assert e.year > d.year;
    }
  }

  /** Feb 29 exists exactly in leap years, and then Mar 1 follows it; in other years
      Mar 1 follows Feb 28. */
  lemma LeapDay(y: int)
    requires MinYear <= y <= MaxYear
    ensures IsValid(Date(y, 2, 29)) <==> IsLeapYear(y)
    ensures IsLeapYear(y) ==> NextDay(Date(y, 2, 28)) == Date(y, 2, 29) && NextDay(Date(y, 2, 29)) == Date(y, 3, 1)
    ensures !IsLeapYear(y) ==> NextDay(Date(y, 2, 28)) == Date(y, 3, 1)
  {
  }
}
