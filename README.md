# Employee roster: date rules, age, synthetic fill and the employees table

This project models the core of `myApp.py`, a command-line tool that keeps an employee roster in
one SQLite table `employees(id, full_name, birth_date, gender)`. The SQL plumbing is replaced by an
in-memory table. What remains is stated and proved in Dafny:

- **Birth dates** (`DateText`, `Calendar`). `Employee(...)` parses `birth_date` with
  `datetime.strptime(s, "%Y-%m-%d")`. The model follows the patterns CPython's `_strptime` uses for
  these directives. `%Y` is four digits. `%m` is `1[0-2]`, `0[1-9]` or a single `[1-9]`. `%d` is
  `3[01]`, `[12]` and a digit, `0[1-9]`, a single `[1-9]`, or a space and `[1-9]`. The whole text
  must be used, and the fields must name a real proleptic-Gregorian day in years 1 to 9999. So the
  parser accepts "2024-1-5" and "2024-01- 5", and rejects "2024-0-5", "2024-01- 0", "2021-02-30",
  "0000-01-01" and any canonical date followed by more characters. The formatter is
  `strftime("%Y-%m-%d")`. Formatting then parsing gives back the date. Parsing then formatting gives
  back any canonical `DDDD-DD-DD` text that parses.
- **Age** (`EmployeeRecord`). `Employee.age()` is `today.year - birth.year`, minus one while
  `(today.month, today.day) < (birth.month, birth.day)`. Here `today` is a parameter. The lemmas
  cover:
  - the reference definition, which counts the anniversaries that have passed;
  - the birthday boundary and the day before it;
  - monotonicity in `today`, and a non-negative age from the birth date on;
  - the day-by-day step;
  - a Feb 29 birthday.
- **Synthetic fill** (`Generation`). The random draws of `fill_employees` are inputs with range
  preconditions. The fill yields 999,900 unmarked records and 100 marked ones. Unmarked names are
  three six-letter upper-case tokens joined by single spaces, 20 characters in all. Marked names
  are the same shape prefixed with `F`, 21 characters, and their gender is "Male". Every date is
  in 1950–2010 with a day of at most 28, so it always parses.
- **The table** (`Table`, `NameOrder`, `Manager`). `EmployeeManager` is a class with the fields
  `tableExists`, `indexed`, `rows` and `nextId`. Its invariant says:
  - the rows carry ids 1, 2, ... in insertion order, and the next id follows the last;
  - every stored date parses;
  - there are no rows and no index without the table.

  The operations behave as follows:
  - `create_table` and `optimize` are idempotent and never touch `rows`.
  - `add_employee` validates the date before it inserts.
  - `batch_insert` appends rows in list order with consecutive fresh ids.
  - `list_employees` returns every row once, in non-decreasing `full_name` order (SQLite's BINARY
    collation). Each row carries the age of its re-parsed stored date.
  - `find_male_f` returns exactly the rows with gender "Male" whose name matches `LIKE 'F%'`. The
    match is case-insensitive for ASCII, so 'F' and 'f' both match. The result does not depend on
    the index.
  - A missing table gives `StorageError` and leaves the state unchanged. A bad date gives
    `ParseError` first.

The code and its design description disagree in a few places. The model follows the code:

- **Query count after a fill.** The design says `find_male_f` returns exactly 100 rows after a
  fill. The code only guarantees at least 100: an unmarked random name can start with `F` and be
  "Male". `Table.FilledTableMatches` proves the bound. `Table.UnmarkedRecordCanMatch` shows a
  101st match.
- **Accepted date formats.** The design accepts only zero-padded `YYYY-MM-DD`. `strptime` also
  accepts one-digit months and days and a space-padded day. The stored form is always re-formatted
  to the canonical text.
- **Rollback and handle release.** The design promises a rollback on a mid-batch failure and a
  release of the handle on every exit path. The code has neither an explicit rollback nor a
  guaranteed `close()`.

## Model

| member | source | states |
|---|---|---|
| `Calendar.DaysInMonth` | myApp.py:105 | a month has 28 to 31 days; February has 29 exactly in Gregorian leap years, and every other month has at least 30 |
| `Calendar.IsLeapYear` | myApp.py:105 | the Gregorian leap-year rule `datetime` applies (helper, no contract) |
| `Calendar.IsValid` | myApp.py:105 | `datetime`'s date check: year 1..9999, month 1..12, day within the month (helper, no contract) |
| `Calendar.MonthDayBefore` | myApp.py:111 | the tuple comparison `(today.month, today.day) < (birth.month, birth.day)` (helper, no contract) |
| `Calendar.NextDay` | myApp.py:110-111 | helper for the age lemmas: the day after a valid date is a valid, strictly later date |
| `Calendar.NextDayIsSuccessor` | myApp.py:110-111 | helper for the age lemmas: no valid date lies strictly between a date and its next day |
| `Calendar.LeapDay` | myApp.py:105 | Feb 29 exists iff the year is a leap year; Mar 1 follows Feb 28 in common years and Feb 29 in leap years |
| `DateText.DigitChar` | myApp.py:31 | the digit written for a value reads back as that value |
| `DateText.YearField` | myApp.py:105 | `%Y` accepts four ASCII digits and yields a year in 0..9999 |
| `DateText.MonthField` | myApp.py:105 | `%m` yields only months 1..12 |
| `DateText.DayField` | myApp.py:105 | `%d` yields only days 1..31 |
| `DateText.MonthLength` | myApp.py:105 | the month field is 1 or 2 characters that `%m` accepts, followed by '-'; it is found whenever either shape is there |
| `DateText.Parse` | myApp.py:105 | `strptime(s, "%Y-%m-%d")` succeeds only with a real calendar date |
| `DateText.Pad2` | myApp.py:56 | `:02` formatting gives two digits that read back as the number |
| `DateText.Pad4` | myApp.py:31 | a four-digit year that `%Y` reads back as the same year |
| `DateText.Format` | myApp.py:31 | `strftime("%Y-%m-%d")` writes canonical `DDDD-DD-DD` text whose fields are the date |
| `DateText.ParseFormat` | myApp.py:44 | every date the program stores (written by `strftime`) parses back to itself when `list_employees` re-reads it |
| `DateText.ParseCanonical` | myApp.py:105 | on canonical text, parsing succeeds iff the spelled year, month and day form a real date, and then yields them |
| `DateText.FormatParse` | myApp.py:31 | a canonical text that parses is reproduced exactly by formatting its date |
| `DateText.NormalisedTextReparses` | myApp.py:28-31 | whatever lenient text `add_employee` accepted, the stored text is canonical and parses to the same date |
| `DateText.OneDigitFieldsAccepted` | myApp.py:105 | every real date with one-digit month and day is accepted written with single digits |
| `DateText.SpacePaddedDayAccepted` | myApp.py:105 | every real date with a one-digit day is accepted with the day written as a space and a digit |
| `DateText.TrailingDataRejected` | myApp.py:105 | a canonical date followed by any further characters is rejected |
| `DateText.ZeroFieldsRejected` | myApp.py:105 | "2024-0-5" and "2024-01- 0" do not parse: a zero is no one-digit month or space-padded day |
| `DateText.LenientForms` | myApp.py:105 | the three examples: "2024-1-5" and "2024-01- 5" parse to 2024-01-05, "2024-01-05x" does not parse |
| `DateText.Feb30Rejected` | myApp.py:105 | "2021-02-30" does not parse |
| `DateText.Feb29RejectedInCommonYear` | myApp.py:105 | "2023-02-29" does not parse |
| `DateText.Feb29AcceptedInLeapYear` | myApp.py:105 | "2024-02-29" parses to Feb 29 2024 |
| `DateText.YearZeroRejected` | myApp.py:105 | "0000-01-01" does not parse (year 0 is out of range) |
| `EmployeeRecord.NewEmployee` | myApp.py:103-106 | construction succeeds iff the date parses; the employee keeps the parsed date, name and gender; otherwise `ParseError` |
| `EmployeeRecord.ConstructionValidatesDate` | myApp.py:105 | for canonical text, construction succeeds iff month, day and year form a real date (Feb 29 only in leap years) |
| `EmployeeRecord.Age` | myApp.py:108-112 | `Employee.age()` for a given `today`: the year difference or one less (its partner is `AgeCountsAnniversaries`) |
| `EmployeeRecord.AgeCountsAnniversaries` | myApp.py:108-112 | age is the number of anniversaries passed: the age-th anniversary is on or before today, the next one after |
| `EmployeeRecord.AgeOnBirthday` | myApp.py:110-111 | on the birthday the age is the full year difference |
| `EmployeeRecord.AgeDayBeforeBirthday` | myApp.py:110-111 | on the day before the birthday the age is one less than the year difference |
| `EmployeeRecord.AgeMonotone` | myApp.py:108-112 | age does not decrease as the reference date advances |
| `EmployeeRecord.AgeNonNegative` | myApp.py:108-112 | from the birth date on, age is at least 0 |
| `EmployeeRecord.AgeStepsOnBirthday` | myApp.py:110-111 | from one day to the next, age grows by 0 or 1, and by 1 exactly when the new day is the birthday |
| `EmployeeRecord.LeapDayBirthday` | myApp.py:110-111 | a Feb 29 birthday counts from Mar 1 in common years and from Feb 29 in leap years |
| `EmployeeRecord.JaneDoeAge` | myApp.py:108-112 | born "1990-06-15": age 33 on 2024-06-14 and 34 on 2024-06-15 |
| `Generation.IsToken` | myApp.py:50-51 | a `random_name()`: six upper-case ASCII letters (helper, no contract) |
| `Generation.FullName` | myApp.py:55 | three tokens joined by single spaces (helper, no contract) |
| `Generation.IsUnmarkedDraw` | myApp.py:55-57 | the ranges of an unmarked record's draws, gender included (helper, no contract) |
| `Generation.IsMarkedDraw` | myApp.py:64-65 | the ranges of a marked record's draws, which include no gender (helper, no contract) |
| `Generation.Decimal` | myApp.py:56 | `str(year)` in the f-string: decimal digits only |
| `Generation.FourDigitDecimal` | myApp.py:56 | a year of four digits is written by the f-string as `%Y` writes it |
| `Generation.BirthDateText` | myApp.py:56 | the f-string text of a drawn date is exactly what `strftime("%Y-%m-%d")` writes for it |
| `Generation.UnmarkedEmployee` | myApp.py:53-60 | an unmarked record has a three-token name, gender "Male" or "Female", and the drawn date, which is a real date |
| `Generation.MarkedEmployee` | myApp.py:62-69 | a marked record has name `F` + three tokens, gender "Male", and the drawn date, which is a real date |
| `Generation.UnmarkedConstructs` | myApp.py:53-60 | constructing an unmarked record from its formatted date text succeeds and gives that record |
| `Generation.MarkedConstructs` | myApp.py:62-69 | constructing a marked record from its formatted date text succeeds and gives that record |
| `Generation.NameShape` | myApp.py:50-55 | three six-letter upper-case tokens joined by spaces form a 20-character name of that shape |
| `Generation.GeneratedDateParses` | myApp.py:56 | every generated date text parses to the drawn year, month and day |
| `Generation.PopulationAt` | myApp.py:53-69 | the list holds the unmarked records first, then the marked ones, in draw order |
| `Generation.PopulationShape` | myApp.py:47-69 | a fill has 1,000,000 records, the first 999,900 unmarked-shaped and the last 100 marked-shaped |
| `Generation.PopulationDatesValid` | myApp.py:53-71 | every record of a fill has a real birth date |
| `Generation.BuildUnmarked` | myApp.py:53-60 | the first list comprehension builds exactly the unmarked records, each construction succeeding |
| `Generation.BuildMarked` | myApp.py:62-69 | the second list comprehension builds exactly the marked records |
| `NameOrder.NameLe` | myApp.py:39 | the BINARY collation behind `ORDER BY full_name`: code-point order, a proper prefix first (helper, no contract) |
| `NameOrder.NameLeReflexive` | myApp.py:39 | every name sorts on or before itself |
| `NameOrder.NameLeTotal` | myApp.py:39 | any two names are comparable under `ORDER BY full_name` |
| `NameOrder.NameLeTransitive` | myApp.py:39 | the name order is transitive |
| `NameOrder.NameLeAntisymmetric` | myApp.py:39 | names that sort on or before each other are equal |
| `Table.ToRow` | myApp.py:31 | the INSERT tuple `(full_name, strftime date, gender)` with its id (helper, no contract) |
| `Table.StoredDateParses` | myApp.py:29-31 | the date text an INSERT stores parses back to the employee's date |
| `Table.RowsFor` | myApp.py:75-77 | a batch adds one row per employee, with consecutive ids from the next free one |
| `Table.EntryDateParses` | myApp.py:41-44 | every fetched row of a table whose dates parse re-parses |
| `Table.StartsWithF` | myApp.py:85 | `full_name LIKE 'F%'`: the name starts with 'F' or 'f' (helper, no contract) |
| `Table.MatchesMaleF` | myApp.py:85 | the WHERE clause: gender exactly "Male" and the LIKE test (helper, no contract) |
| `Table.MaleF` | myApp.py:83-86 | the query keeps only rows with gender "Male" whose name starts with 'F' or 'f' |
| `Table.MaleFCount` | myApp.py:85 | the query keeps every matching row as often as it is stored, and no other row |
| `Table.MaleFAppend` | myApp.py:85 | filtering distributes over concatenation of row lists |
| `Table.MaleFSuffix` | myApp.py:85 | if every row from a position on matches, at least that many rows are found |
| `Table.AddedEntryAt` | myApp.py:74-79 | after a batch, the row past the earlier ones at each position is the one built from the employee at the same position of the list |
| `Table.FilledEntryAt` | myApp.py:53-79 | in a filled table, each row from the unmarked part has its draw's name and gender, and each row from the marked part matches the query |
| `Table.FilledTableMatches` | myApp.py:62-69 | after a fill, the query finds at least as many rows as there are marked records |
| `Table.UnmarkedRecordCanMatch` | myApp.py:55-57 | an unmarked "Male" record whose name starts with 'F' is found too, so the count can exceed 100 |
| `Table.InsertPermutes` | myApp.py:39 | inserting into the ordered list adds exactly that entry |
| `Table.InsertKeepsOrder` | myApp.py:39 | inserting into a name-ordered list keeps it ordered |
| `Table.SortByName` | myApp.py:37-41 | `ORDER BY full_name` yields a name-ordered permutation of the rows |
| `Manager.EmployeeManager.constructor` | myApp.py:11-13 | a new database has no table, no index, no rows, and next id 1 |
| `Manager.EmployeeManager.CreateTable` | myApp.py:15-24 | afterwards the table exists; rows, index and next id are unchanged, so a second call is a no-op |
| `Manager.EmployeeManager.InsertRow` | myApp.py:29-33 | one INSERT appends the row with the next id and the `strftime` date and keeps the invariant |
| `Manager.EmployeeManager.AddEmployee` | myApp.py:27-34 | a bad date gives `ParseError`, a missing table `StorageError`, both with the table unchanged; otherwise exactly one row with a fresh id is appended |
| `Manager.EmployeeManager.BatchInsert` | myApp.py:74-79 | with the table, the rows are appended in list order with consecutive fresh ids; without it `StorageError` and no row |
| `Manager.EmployeeManager.FillEmployees` | myApp.py:47-72 | all records are built and validated before the single batch insert, which appends the whole population |
| `Manager.EmployeeManager.ListEmployees` | myApp.py:36-45 | every stored row is listed once, in non-decreasing name order, with the age its re-parsed date gives on `today`; `StorageError` without the table |
| `Manager.SelectMaleF` | myApp.py:83-87 | the scan keeps the rows satisfying the WHERE clause, in table order |
| `Manager.EmployeeManager.FindMaleF` | myApp.py:81-92 | the result holds exactly the matching rows with their multiplicities, independent of the index; `StorageError` without the table |
| `Manager.EmployeeManager.Optimize` | myApp.py:94-97 | sets the index flag once the table exists and changes no row; a second call is a no-op; `StorageError` without the table |
| `Manager.WithAges` | myApp.py:42-45 | each fetched row is listed with its columns and the age of its re-parsed date |
| `Manager.SeedAndQuery` | myApp.py:122-134 | create table, fill, then query: at least 100 rows are found |
| `Manager.OptimizeKeepsQueryResults` | myApp.py:94-97 | the query returns the same rows before and after building the index |
| `Manager.RejectImpossibleDate` | myApp.py:27-34 | adding a "2021-02-30" birth date fails with `ParseError` and inserts nothing |

## Left out

- The sqlite3 connection, cursor, commit and `close()`, and the database file. The table is an object in memory. Persistence across invocations is the object's state living on between calls.
- The timing in `find_male_f` and the floating-point elapsed-seconds print: wall-clock time and floats.
- What the index does to query plans and speed. Only the flag is modelled, and the fact that results do not depend on it.
- The distribution of the `random` module. The draws are inputs with range preconditions.
- `datetime.today()`: the reference date is a parameter.
- Manager.EmployeeManager.ListEmployees: one `today` serves the whole listing. The code calls `datetime.today()` again for every row, inside `age()`, so a listing that runs across midnight can compute the ages of later rows on the next day. The model does not capture that.
- `main`: argv dispatch, `int()` conversion, usage messages and every `print`. `close()` is skipped on the early return and on exceptions, so there is no resource-release property to model.
- DateText.Parse: only ASCII digits are modelled. CPython's `\d` also matches other Unicode decimal digits, and `int()` converts them.
- DateText.Format: writes the year with four digits. On some platforms (glibc) `strftime("%Y")` writes a year below 1000 without leading zeros. On such a platform the stored text of a year 1–999 date would not re-parse in `list_employees`.
- Manager.EmployeeManager.InsertRow: ids are unbounded integers. SQLite's AUTOINCREMENT refuses to go past 2^63-1 (SQLITE_FULL), and that case is not modelled.
- Manager.EmployeeManager.BatchInsert: a storage failure part way through `executemany` (I/O error, full disk) is not modelled. The code has no explicit rollback. Only the missing table, which fails before any row, is modelled.
- Manager.EmployeeManager.ListEmployees: the order of rows with equal names is left open, as SQL leaves it. Rows written into the file by other programs are not modelled, so every stored date parses.
- Manager.EmployeeManager.FindMaleF: the order of the result is left open (with the index SQLite returns index order). The contract is stated on multisets.
- Strings are sequences of code points. BINARY collation compares UTF-8 bytes, which gives the same order. Texts that cannot be encoded as UTF-8 (lone surrogates) are not modelled.
