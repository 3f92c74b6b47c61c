/** The synthetic records `fill_employees` builds. Each random draw of the source
    (`random.choices` for a six-letter token, `random.randint` for year, month and day,
    `random.choice` for the gender) is an input whose range is a precondition. */
module Generation {
  import opened Outcomes
  import opened Calendar
  import opened DateText
  import opened EmployeeRecord

  /** How many records of each population one fill produces. */
  const UnmarkedCount := 999900
  const MarkedCount := 100

  /** The character prefixed to the names of the marked population. */
  const Marker := 'F'

  /** `"".join(random.choices(string.ascii_uppercase, k=6))`. */
  predicate IsToken(t: string) {
    |t| == 6 && forall i :: 0 <= i < |t| ==> 'A' <= t[i] <= 'Z'
  }

  /** The draws behind one record: three name tokens, year, month, day and a gender. */
  datatype Draw = Draw(first: string, second: string, third: string,
                       year: int, month: int, day: int, gender: string)

  /** The ranges the random calls of a marked record produce: three tokens, years
      1950-2010, months 1-12, days 1-28. That comprehension draws no gender, so the
      `gender` field of a marked draw is unconstrained and unused. */
  predicate IsMarkedDraw(d: Draw) {
    IsToken(d.first) && IsToken(d.second) && IsToken(d.third) &&
    1950 <= d.year <= 2010 && 1 <= d.month <= 12 && 1 <= d.day <= 28
  }

  /** An unmarked record also draws its gender from `["Male", "Female"]`. */
  predicate IsUnmarkedDraw(d: Draw) {
    IsMarkedDraw(d) && (d.gender == "Male" || d.gender == "Female")
  }

  /** `f"{random_name()} {random_name()} {random_name()}"`. */
  function FullName(d: Draw): string {
    d.first + " " + d.second + " " + d.third
  }

  /** The shape of an unmarked name: three tokens separated by single spaces. */
  predicate IsGeneratedName(n: string) {
    |n| == 20 && IsToken(n[..6]) && n[6] == ' ' && IsToken(n[7..13]) && n[13] == ' ' && IsToken(n[14..])
  }

  /** The shape of a marked name: the marker, then an unmarked name. */
  predicate IsMarkedName(n: string) {
    |n| == 21 && n[0] == Marker && IsGeneratedName(n[1..])
  }

  /** `str(n)` for a non-negative integer: its decimal digits, without leading zeros. */
  function Decimal(n: nat): (t: string)
    ensures |t| >= 1 && forall i :: 0 <= i < |t| ==> IsDigit(t[i])
  {
    if n < 10 then [DigitChar(n)] else Decimal(n / 10) + [DigitChar(n % 10)]
  }

  /** A year of four decimal digits is written as `%Y` writes it. */
  lemma {:induction false} FourDigitDecimal(n: nat)
    requires 1000 <= n <= 9999
    ensures Decimal(n) == Pad4(n)
  {
    var q1, q2, q3 := n / 10, n / 100, n / 1000;
    assert q1 / 10 == q2 && q2 / 10 == q3 && q3 < 10;
    assert Decimal(q2) == [DigitChar(q3)] + [DigitChar(q2 % 10)];
    assert Decimal(n) == [DigitChar(q3), DigitChar(q2 % 10), DigitChar(q1 % 10), DigitChar(n % 10)];
    assert (n % 100) / 10 == q1 % 10 && (n % 100) % 10 == n % 10;
  }

  /** `f"{year}-{month:02}-{day:02}"`. Every drawn year has four digits, so the text is the
      one `strftime("%Y-%m-%d")` writes for the drawn date. */
  function BirthDateText(d: Draw): (s: string)
    requires IsMarkedDraw(d)
    ensures s == Format(Date(d.year, d.month, d.day))
  {
    FourDigitDecimal(d.year);
    Decimal(d.year) + "-" + Pad2(d.month) + "-" + Pad2(d.day)
  }

  /** An unmarked record: the drawn name, gender and date. */
  function UnmarkedEmployee(d: Draw): (e: Employee)
    requires IsUnmarkedDraw(d)
    ensures IsGeneratedName(e.fullName) && (e.gender == "Male" || e.gender == "Female")
    ensures e.birthDate == Date(d.year, d.month, d.day) && IsValid(e.birthDate)
  {
    NameShape(d);
    Employee(FullName(d), Date(d.year, d.month, d.day), d.gender)
  }

  /** A marked record: the marker before the name and the gender fixed to "Male". */
  function MarkedEmployee(d: Draw): (e: Employee)
    requires IsMarkedDraw(d)
    ensures IsMarkedName(e.fullName) && e.gender == "Male"
    ensures e.birthDate == Date(d.year, d.month, d.day) && IsValid(e.birthDate)
  {
    NameShape(d);
    assert ([Marker] + FullName(d))[1..] == FullName(d);
    Employee([Marker] + FullName(d), Date(d.year, d.month, d.day), "Male")
  }

  /** Constructing an unmarked record from its formatted date text never fails. */
  lemma UnmarkedConstructs(d: Draw)
    requires IsUnmarkedDraw(d)
    ensures NewEmployee(FullName(d), BirthDateText(d), d.gender) == Ok(UnmarkedEmployee(d))
  {
    ParseFormat(Date(d.year, d.month, d.day));
  }

  /** Constructing a marked record from its formatted date text never fails. */
  lemma MarkedConstructs(d: Draw)
    requires IsMarkedDraw(d)
    ensures NewEmployee([Marker] + FullName(d), BirthDateText(d), "Male") == Ok(MarkedEmployee(d))
  {
    ParseFormat(Date(d.year, d.month, d.day));
  }

  /** Three tokens joined by spaces have the generated shape. */
  lemma NameShape(d: Draw)
    requires IsToken(d.first) && IsToken(d.second) && IsToken(d.third)
    ensures IsGeneratedName(FullName(d))
  {
    var n := FullName(d);
    assert n[..6] == d.first;
    assert n[7..13] == d.second;
    assert n[14..] == d.third;
  }

  /** Every generated date parses, to the drawn triple. */
  lemma GeneratedDateParses(d: Draw)
    requires IsMarkedDraw(d)
    ensures Parse(BirthDateText(d)) == Some(Date(d.year, d.month, d.day))
  {
    ParseFormat(Date(d.year, d.month, d.day));
  }

  predicate AllUnmarkedDraws(ds: seq<Draw>) {
    forall k :: 0 <= k < |ds| ==> IsUnmarkedDraw(ds[k])
  }

  predicate AllMarkedDraws(ds: seq<Draw>) {
    forall k :: 0 <= k < |ds| ==> IsMarkedDraw(ds[k])
  }

  /** The first list comprehension, over `range(len(ds))`. */
  function UnmarkedPopulation(ds: seq<Draw>): (es: seq<Employee>)
    requires AllUnmarkedDraws(ds)
  {
    seq(|ds|, k requires 0 <= k < |ds| => UnmarkedEmployee(ds[k]))
  }

  /** The second list comprehension. */
  function MarkedPopulation(ds: seq<Draw>): (es: seq<Employee>)
    requires AllMarkedDraws(ds)
  {
    seq(|ds|, k requires 0 <= k < |ds| => MarkedEmployee(ds[k]))
  }

  /** `employees` after `employees += [...]`: the unmarked records, then the marked ones. */
  function Population(unmarked: seq<Draw>, marked: seq<Draw>): seq<Employee>
    requires AllUnmarkedDraws(unmarked) && AllMarkedDraws(marked)
  {
    UnmarkedPopulation(unmarked) + MarkedPopulation(marked)
  }

  /** Every record has a real birth date. */
  predicate AllDatesValid(es: seq<Employee>) {
    forall k :: 0 <= k < |es| ==> IsValid(es[k].birthDate)
  }

  /** A record of the unmarked population: three-token name, gender "Male" or "Female",
      birth year 1950-2010, day at most 28, a real date. */
  predicate IsUnmarkedRecord(e: Employee) {
    IsGeneratedName(e.fullName) && (e.gender == "Male" || e.gender == "Female") &&
    IsValid(e.birthDate) && 1950 <= e.birthDate.year <= 2010 && e.birthDate.day <= 28
  }

  /** A record of the marked population: marker and three-token name, gender "Male",
      the same date ranges. */
  predicate IsMarkedRecord(e: Employee) {
    IsMarkedName(e.fullName) && e.gender == "Male" &&
    IsValid(e.birthDate) && 1950 <= e.birthDate.year <= 2010 && e.birthDate.day <= 28
  }

  /** Position `k` of the population holds the record built from the matching draw. */
  lemma PopulationAt(unmarked: seq<Draw>, marked: seq<Draw>, k: int)
    requires AllUnmarkedDraws(unmarked) && AllMarkedDraws(marked) && 0 <= k < |unmarked| + |marked|
    ensures |Population(unmarked, marked)| == |unmarked| + |marked|
    ensures k < |unmarked| ==> Population(unmarked, marked)[k] == UnmarkedEmployee(unmarked[k])
    ensures k >= |unmarked| ==> Population(unmarked, marked)[k] == MarkedEmployee(marked[k - |unmarked|])
  {
    var u := UnmarkedPopulation(unmarked);
    var m := MarkedPopulation(marked);
    assert |u| == |unmarked| && |m| == |marked|;
    if k < |unmarked| {
      assert (u + m)[k] == u[k];
    } else {
      assert (u + m)[k] == m[k - |unmarked|];
    }
  }

  /** The fixed shape of a full fill: 1,000,000 records, the first 999,900 unmarked and
      the last 100 marked. */
  lemma {:induction false} PopulationShape(unmarked: seq<Draw>, marked: seq<Draw>)
    requires AllUnmarkedDraws(unmarked) && AllMarkedDraws(marked)
    requires |unmarked| == UnmarkedCount && |marked| == MarkedCount
    ensures |Population(unmarked, marked)| == 1000000
    ensures forall k :: 0 <= k < UnmarkedCount ==> IsUnmarkedRecord(Population(unmarked, marked)[k])
    ensures forall k :: UnmarkedCount <= k < 1000000 ==> IsMarkedRecord(Population(unmarked, marked)[k])
  {
    var p := Population(unmarked, marked);
    forall k | 0 <= k < 1000000
      ensures k < UnmarkedCount ==> IsUnmarkedRecord(p[k])
      ensures k >= UnmarkedCount ==> IsMarkedRecord(p[k])
    {
      PopulationAt(unmarked, marked, k);
    }
  }

  /** Every record of a fill has a real birth date, so every construction succeeds. */
  lemma {:induction false} PopulationDatesValid(unmarked: seq<Draw>, marked: seq<Draw>)
    requires AllUnmarkedDraws(unmarked) && AllMarkedDraws(marked)
    ensures AllDatesValid(Population(unmarked, marked))
  {
    var p := Population(unmarked, marked);
    forall k | 0 <= k < |p| ensures IsValid(p[k].birthDate) {
      PopulationAt(unmarked, marked, k);
    }
  }

  /** The first list comprehension of `fill_employees`, as the loop it runs: each record
      is constructed, which parses its date. */
  method BuildUnmarked(ds: seq<Draw>) returns (es: seq<Employee>)
    requires AllUnmarkedDraws(ds)
    ensures es == UnmarkedPopulation(ds)
  {
    es := [];
    var i := 0;
    while i < |ds|
      invariant 0 <= i <= |ds| && |es| == i
      invariant forall k :: 0 <= k < i ==> es[k] == UnmarkedEmployee(ds[k])
    {
      var d := ds[i];
      var e := NewEmployee(FullName(d), BirthDateText(d), d.gender);
      UnmarkedConstructs(d);
      es := es + [e.value];
      i := i + 1;
    }
  }

  /** The second list comprehension: the marker before the name, gender "Male". */
  method BuildMarked(ds: seq<Draw>) returns (es: seq<Employee>)
    requires AllMarkedDraws(ds)
    ensures es == MarkedPopulation(ds)
  {
    es := [];
    var i := 0;
    while i < |ds|
      invariant 0 <= i <= |ds| && |es| == i
      invariant forall k :: 0 <= k < i ==> es[k] == MarkedEmployee(ds[k])
    {
      var d := ds[i];
      var e := NewEmployee([Marker] + FullName(d), BirthDateText(d), "Male");
      MarkedConstructs(d);
      es := es + [e.value];
      i := i + 1;
    }
  }
}
