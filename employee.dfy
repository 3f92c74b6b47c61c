/** The `Employee` record: a name, a parsed birth date and a gender, and the age derived
    from the birth date. The current date (`datetime.today()`) is a parameter. */
module EmployeeRecord {
  import opened Outcomes
  import opened Calendar
  import opened DateText

  /** An employee whose birth date has been parsed; `gender` is free text. */
  datatype Employee = Employee(fullName: string, birthDate: Date, gender: string)

  /** `Employee(full_name, birth_date, gender)`: the constructor parses `birth_date` and
      raises (here: `ParseError`) when it is not a real day in the accepted format. */
  function NewEmployee(fullName: string, birthDateText: string, gender: string): (r: Result<Employee>)
    ensures r.Ok? <==> Parse(birthDateText).Some?
    ensures r.Ok? ==> Parse(birthDateText) == Some(r.value.birthDate) && IsValid(r.value.birthDate)
    ensures r.Ok? ==> r.value.fullName == fullName && r.value.gender == gender
    ensures r.Err? ==> r.error == ParseError
  {
    match Parse(birthDateText)
    case None => Err(ParseError)
    case Some(d) => Ok(Employee(fullName, d, gender))
  }

  /** On canonical text the constructor succeeds exactly for real calendar days: month 1-12,
      the day within the month's length, Feb 29 only in leap years, year 1-9999. */
  lemma ConstructionValidatesDate(fullName: string, birthDateText: string, gender: string)
    requires IsCanonical(birthDateText)
    ensures NewEmployee(fullName, birthDateText, gender).Ok? <==> IsValid(Fields(birthDateText))
    ensures NewEmployee(fullName, birthDateText, gender).Ok? ==>
              NewEmployee(fullName, birthDateText, gender).value.birthDate == Fields(birthDateText)
  {
    ParseCanonical(birthDateText);
  }

  /** `Employee.age()`: whole years since the birth date, one less while this year's
      birthday (compared as a (month, day) tuple) is still ahead. */
  function Age(e: Employee, today: Date): (a: int)
    ensures a == today.year - e.birthDate.year || a == today.year - e.birthDate.year - 1
  {
    today.year - e.birthDate.year - (if MonthDayBefore(today, e.birthDate) then 1 else 0)
  }

  /** The anniversary of the birth date in the birth year plus `n` (as a triple; it need
      not exist when the birth date is Feb 29). */
  function Anniversary(e: Employee, n: int): Date {
    Date(e.birthDate.year + n, e.birthDate.month, e.birthDate.day)
  }

  /** Reference definition of age: the number of anniversaries passed. The `Age`-th
      anniversary is on or before today and the next one is after today. */
  lemma AgeCountsAnniversaries(e: Employee, today: Date)
    ensures OnOrBefore(Anniversary(e, Age(e, today)), today)
    ensures Precedes(today, Anniversary(e, Age(e, today) + 1))
  {
  }

  /** On the birthday itself the age is the full year difference. */
  lemma AgeOnBirthday(e: Employee, y: int)
    ensures Age(e, Date(y, e.birthDate.month, e.birthDate.day)) == y - e.birthDate.year
  {
  }

  /** On the day before a birthday (in year `y`) the age is one less than the full year
      difference, including across New Year for a Jan 1 birthday. */
  lemma {:induction false} AgeDayBeforeBirthday(e: Employee, today: Date, y: int)
    requires IsValid(today) && today != LastDate
    requires NextDay(today) == Date(y, e.birthDate.month, e.birthDate.day)
    ensures Age(e, today) == y - e.birthDate.year - 1
  {
    var n := NextDay(today);
    if today.year == y {
      assert MonthDayBefore(today, n);
    }
  }

  /** Age never decreases as the reference date advances. */
  lemma AgeMonotone(e: Employee, t1: Date, t2: Date)
    requires OnOrBefore(t1, t2)
    ensures Age(e, t1) <= Age(e, t2)
  {
  }

  /** From the birth date on, the age is never negative. */
  lemma AgeNonNegative(e: Employee, today: Date)
    requires OnOrBefore(e.birthDate, today)
    ensures Age(e, today) >= 0
  {
  }

  /** From one day to the next the age grows by one exactly when the new day is the
      birthday, provided the birthday exists in that year. */
  lemma {:induction false} AgeStepsOnBirthday(e: Employee, today: Date)
    requires IsValid(e.birthDate) && IsValid(today) && today != LastDate
    requires IsValid(Date(NextDay(today).year, e.birthDate.month, e.birthDate.day))
    ensures Age(e, NextDay(today)) == Age(e, today) || Age(e, NextDay(today)) == Age(e, today) + 1
    ensures Age(e, NextDay(today)) == Age(e, today) + 1 <==>
              NextDay(today).month == e.birthDate.month && NextDay(today).day == e.birthDate.day
  {
    var n := NextDay(today);
    var b := e.birthDate;
    if today.day < DaysInMonth(today.year, today.month) {
      assert n == Date(today.year, today.month, today.day + 1);
    } else if today.month < 12 {
      assert n == Date(today.year, today.month + 1, 1);
      assert b.month == today.month ==> b.day <= today.day;
    } else {
      assert n == Date(today.year + 1, 1, 1);
      assert !MonthDayBefore(today, b);
    }
  }

  /** A Feb 29 birthday: in a common year the age is counted from Mar 1 (Feb 28 still
      shows the lower age); in a leap year from Feb 29. */
  lemma {:induction false} LeapDayBirthday(e: Employee, y: int)
    requires e.birthDate.month == 2 && e.birthDate.day == 29
    requires MinYear <= y <= MaxYear
    ensures Age(e, Date(y, 2, 28)) == y - e.birthDate.year - 1
    ensures !IsLeapYear(y) ==> NextDay(Date(y, 2, 28)) == Date(y, 3, 1) && Age(e, Date(y, 3, 1)) == y - e.birthDate.year
    ensures IsLeapYear(y) ==> NextDay(Date(y, 2, 28)) == Date(y, 2, 29) && Age(e, Date(y, 2, 29)) == y - e.birthDate.year
  {
    LeapDay(y);
  }

  /** Jane Doe, born "1990-06-15": 33 on 2024-06-14, 34 on 2024-06-15. */
  lemma JaneDoeAge()
    ensures NewEmployee("Jane Doe", "1990-06-15", "Female").Ok?
    ensures Age(NewEmployee("Jane Doe", "1990-06-15", "Female").value, Date(2024, 6, 14)) == 33
    ensures Age(NewEmployee("Jane Doe", "1990-06-15", "Female").value, Date(2024, 6, 15)) == 34
  {
    ParseCanonical("1990-06-15");
    assert Fields("1990-06-15") == Date(1990, 6, 15);
  }
}
