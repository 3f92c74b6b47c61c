/** The text form of a birth date: `datetime.strptime(s, "%Y-%m-%d")` as a parser and
    `date.strftime("%Y-%m-%d")` as a formatter.

    The parser follows the patterns CPython's `_strptime` compiles for the three
    directives: `%Y` is exactly four digits, `%m` is `1[0-2]`, `0[1-9]` or a single
    `[1-9]`, and `%d` is `3[01]`, `[12]` followed by a digit, `0[1-9]`, a single `[1-9]`,
    or a space followed by `[1-9]`. The whole text must be consumed ("unconverted data
    remains" otherwise), and the three numbers must then name a real day (`datetime`
    rejects year 0, month 13, Feb 30, ...). So "2024-1-5" and "2024-01- 5" are accepted,
    while "2024-0-5", "2024-01-05x" and "2021-02-30" are not. */
module DateText {
  import opened Outcomes
  import opened Calendar

  predicate IsDigit(c: char) {
    '0' <= c <= '9'
  }

  function DigitValue(c: char): (v: int)
    requires IsDigit(c)
    ensures 0 <= v <= 9
  {
    c as int - '0' as int
  }

  function DigitChar(v: int): (c: char)
    requires 0 <= v <= 9
    ensures IsDigit(c) && DigitValue(c) == v
  {
    ('0' as int + v) as char
  }

  /** The value of two decimal digits. */
  function Number2(a: char, b: char): (n: int)
    requires IsDigit(a) && IsDigit(b)
    ensures 0 <= n <= 99
  {
    10 * DigitValue(a) + DigitValue(b)
  }

  /** `%Y`: exactly four decimal digits. */
  function YearField(t: string): (r: Option<int>)
    requires |t| == 4
    ensures r.Some? ==> 0 <= r.value <= 9999
  {
    if IsDigit(t[0]) && IsDigit(t[1]) && IsDigit(t[2]) && IsDigit(t[3])
    then Some(100 * Number2(t[0], t[1]) + Number2(t[2], t[3]))
    else None
  }

  /** `%m`: `1[0-2]`, `0[1-9]` or a single `[1-9]`. */
  function MonthField(t: string): (r: Option<int>)
    ensures r.Some? ==> 1 <= r.value <= 12
  {
    if |t| == 2 && ((t[0] == '1' && '0' <= t[1] <= '2') || (t[0] == '0' && '1' <= t[1] <= '9'))
    then Some(Number2(t[0], t[1]))
    else if |t| == 1 && '1' <= t[0] <= '9' then Some(DigitValue(t[0]))
    else None
  }

  /** `%d`: `3[01]`, `[12]` and a digit, `0[1-9]`, a single `[1-9]`, or a space and `[1-9]`. */
  function DayField(t: string): (r: Option<int>)
    ensures r.Some? ==> 1 <= r.value <= 31
  {
    if |t| == 2 && ((t[0] == '3' && '0' <= t[1] <= '1') || ('1' <= t[0] <= '2' && IsDigit(t[1]))
                    || (t[0] == '0' && '1' <= t[1] <= '9'))
    then Some(Number2(t[0], t[1]))
    else if |t| == 2 && t[0] == ' ' && '1' <= t[1] <= '9' then Some(DigitValue(t[1]))
    else if |t| == 1 && '1' <= t[0] <= '9' then Some(DigitValue(t[0]))
    else None
  }

  /** Where the month field ends in `rest` (the text after "YYYY-"): 2 or 1 characters,
      followed by '-'; 0 when neither shape fits. A two-character month has a digit as its
      second character, so at most one of the two shapes is followed by '-'. */
  function MonthLength(rest: string): (k: nat)
    ensures k <= 2 && (k > 0 ==> |rest| > k && rest[k] == '-' && MonthField(rest[..k]).Some?)
    ensures k == 0 ==> !(|rest| >= 3 && rest[2] == '-' && MonthField(rest[..2]).Some?) &&
                       !(|rest| >= 2 && rest[1] == '-' && MonthField(rest[..1]).Some?)
  {
    if |rest| >= 3 && rest[2] == '-' && MonthField(rest[..2]).Some? then 2
    else if |rest| >= 2 && rest[1] == '-' && MonthField(rest[..1]).Some? then 1
    else 0
  }

  /** `datetime.strptime(s, "%Y-%m-%d")`: the date, or `None` where Python raises `ValueError`. */
  function Parse(s: string): (r: Option<Date>)
    ensures r.Some? ==> IsValid(r.value)
  {
    if |s| < 5 || s[4] != '-' || YearField(s[..4]).None? then None
    else
      var rest := s[5..];
      var k := MonthLength(rest);
      if k == 0 then None
      else
        var day := DayField(rest[k + 1..]);
        if day.None? then None
        else
          var d := Date(YearField(s[..4]).value, MonthField(rest[..k]).value, day.value);
          if IsValid(d) then Some(d) else None
  }

  /** `%02d`-style: two digits, zero-padded. */
  function Pad2(n: int): (t: string)
    requires 0 <= n <= 99
    ensures |t| == 2 && IsDigit(t[0]) && IsDigit(t[1]) && Number2(t[0], t[1]) == n
  {
    [DigitChar(n / 10), DigitChar(n % 10)]
  }

  /** A four-digit, zero-padded year. */
  function Pad4(n: int): (t: string)
    requires 0 <= n <= 9999
    ensures |t| == 4 && YearField(t) == Some(n)
  {
    Pad2(n / 100) + Pad2(n % 100)
  }

  /** The canonical shape "DDDD-DD-DD" that `strftime("%Y-%m-%d")` writes. */
  predicate IsCanonical(s: string) {
    |s| == 10 && s[4] == '-' && s[7] == '-' &&
    IsDigit(s[0]) && IsDigit(s[1]) && IsDigit(s[2]) && IsDigit(s[3]) &&
    IsDigit(s[5]) && IsDigit(s[6]) && IsDigit(s[8]) && IsDigit(s[9])
  }

  /** The (year, month, day) a canonical text spells, whether or not that day exists. */
  function Fields(s: string): Date
    requires IsCanonical(s)
  {
    Date(100 * Number2(s[0], s[1]) + Number2(s[2], s[3]), Number2(s[5], s[6]), Number2(s[8], s[9]))
  }

  /** `date.strftime("%Y-%m-%d")`. */
  function Format(d: Date): (s: string)
    requires IsValid(d)
    ensures IsCanonical(s) && Fields(s) == d
  {
    Pad4(d.year) + "-" + Pad2(d.month) + "-" + Pad2(d.day)
  }

  /** `%m` reads a zero-padded month back. */
  lemma MonthFieldPad2(m: int)
    requires 1 <= m <= 12
    ensures MonthField(Pad2(m)) == Some(m)
  {
  }

  /** `%d` reads a zero-padded day back. */
  lemma DayFieldPad2(d: int)
    requires 1 <= d <= 31
    ensures DayField(Pad2(d)) == Some(d)
  {
  }

  /** A formatted date parses back to itself: every date the program stores re-parses. */
  lemma ParseFormat(d: Date)
    requires IsValid(d)
    ensures Parse(Format(d)) == Some(d)
  {
    var s := Format(d);
    assert s == Pad4(d.year) + "-" + Pad2(d.month) + "-" + Pad2(d.day);
    assert s[..4] == Pad4(d.year);
    var rest := s[5..];
    assert rest == Pad2(d.month) + "-" + Pad2(d.day);
    assert rest[..2] == Pad2(d.month);
    MonthFieldPad2(d.month);
    assert MonthLength(rest) == 2;
    assert rest[3..] == Pad2(d.day);
    DayFieldPad2(d.day);
  }

  /** On canonical text, `Parse` succeeds exactly when the spelled fields name a real day,
      and then yields those fields. */
  lemma ParseCanonical(s: string)
    requires IsCanonical(s)
    ensures Parse(s).Some? <==> IsValid(Fields(s))
    ensures Parse(s).Some? ==> Parse(s).value == Fields(s)
  {
    var rest := s[5..];
    assert s[..4] == [s[0], s[1], s[2], s[3]];
    assert rest[..2] == [s[5], s[6]];
    assert rest[..1] == [s[5]];
    assert rest[3..] == [s[8], s[9]];
    if IsValid(Fields(s)) {
      assert MonthLength(rest) == 2;
    }
  }

  /** Two digits are determined by their value. */
  lemma Number2Injective(a: char, b: char, c: char, d: char)
    requires IsDigit(a) && IsDigit(b) && IsDigit(c) && IsDigit(d)
    requires Number2(a, b) == Number2(c, d)
    ensures a == c && b == d
  {
  }

  /** A canonical text is determined by the fields it spells. */
  lemma FieldsDetermineText(s: string, t: string)
    requires IsCanonical(s) && IsCanonical(t) && Fields(s) == Fields(t)
    ensures s == t
  {
    Number2Injective(s[0], s[1], t[0], t[1]);
    Number2Injective(s[2], s[3], t[2], t[3]);
    Number2Injective(s[5], s[6], t[5], t[6]);
    Number2Injective(s[8], s[9], t[8], t[9]);
    assert forall i :: 0 <= i < 10 ==> s[i] == t[i];
  }

  /** Formatting a parsed canonical text gives back the same text. */
  lemma FormatParse(s: string)
    requires IsCanonical(s) && Parse(s).Some?
    ensures Format(Parse(s).value) == s
  {
    ParseCanonical(s);
    FieldsDetermineText(Format(Parse(s).value), s);
  }

  /** Storing normalises: whatever lenient text was accepted, its formatted form is
      canonical and parses to the same date. */
  lemma NormalisedTextReparses(s: string)
    requires Parse(s).Some?
    ensures IsCanonical(Format(Parse(s).value)) && Parse(Format(Parse(s).value)) == Parse(s)
  {
    ParseFormat(Parse(s).value);
  }

  /** A one-digit month and a one-digit day are accepted, for every date that has them. */
  lemma OneDigitFieldsAccepted(d: Date)
    requires IsValid(d) && d.month <= 9 && d.day <= 9
    ensures Parse(Pad4(d.year) + "-" + [DigitChar(d.month)] + "-" + [DigitChar(d.day)]) == Some(d)
  {
    var s := Pad4(d.year) + "-" + [DigitChar(d.month)] + "-" + [DigitChar(d.day)];
    assert s[..4] == Pad4(d.year) && s[4] == '-';
    var rest := s[5..];
    assert rest == [DigitChar(d.month), '-', DigitChar(d.day)];
    assert rest[..1] == [DigitChar(d.month)] && rest[2..] == [DigitChar(d.day)];
  }

  /** A day written as a space and one digit is accepted, for every date whose day has one digit. */
  lemma SpacePaddedDayAccepted(d: Date)
    requires IsValid(d) && d.day <= 9
    ensures Parse(Pad4(d.year) + "-" + Pad2(d.month) + "-" + [' ', DigitChar(d.day)]) == Some(d)
  {
    var s := Pad4(d.year) + "-" + Pad2(d.month) + "-" + [' ', DigitChar(d.day)];
    assert s[..4] == Pad4(d.year) && s[4] == '-';
    var rest := s[5..];
    assert rest == Pad2(d.month) + "-" + [' ', DigitChar(d.day)];
    assert rest[..2] == Pad2(d.month);
    MonthFieldPad2(d.month);
    assert rest[3..] == [' ', DigitChar(d.day)];
  }

  /** Characters after a complete canonical date are "unconverted data": the text is rejected. */
  lemma TrailingDataRejected(d: Date, t: string)
    requires IsValid(d) && t != []
    ensures Parse(Format(d) + t) == None
  {
    var s := Format(d) + t;
    assert s[..4] == Pad4(d.year) && s[4] == '-';
    var rest := s[5..];
    assert rest == Pad2(d.month) + "-" + Pad2(d.day) + t;
    assert rest[..2] == Pad2(d.month);
    MonthFieldPad2(d.month);
    assert MonthLength(rest) == 2;
    assert |rest[3..]| > 2;
  }

  /** A zero is no one-digit month, and no space-padded day. */
  lemma ZeroFieldsRejected()
    ensures Parse("2024-0-5") == None
    ensures Parse("2024-01- 0") == None
  {
    assert "2024-0-5"[5..] == "0-5";
    assert "0-5"[..1] == "0";
    assert "2024-01- 0"[5..] == "01- 0";
    assert "01- 0"[..2] == "01" && "01- 0"[3..] == " 0";
  }

  /** Three concrete texts: a one-digit month and day, a space-padded day, a trailing character. */
  lemma LenientForms()
    ensures Parse("2024-1-5") == Some(Date(2024, 1, 5))
    ensures Parse("2024-01- 5") == Some(Date(2024, 1, 5))
    ensures Parse("2024-01-05x") == None
  {
    assert "2024-1-5"[5..] == "1-5";
    assert "1-5"[..1] == "1" && "1-5"[2..] == "5";
    assert "2024-01- 5"[5..] == "01- 5";
    assert "01- 5"[..2] == "01" && "01- 5"[3..] == " 5";
    assert "2024-01-05x"[5..] == "01-05x";
    assert "01-05x"[..2] == "01" && "01-05x"[3..] == "05x";
  }

  /** A birth date of Feb 30 is rejected. */
  lemma Feb30Rejected()
    ensures Parse("2021-02-30") == None
  {
    ParseCanonical("2021-02-30");
    assert Fields("2021-02-30") == Date(2021, 2, 30);
  }

  /** Feb 29 does not parse in a common year... */
  lemma Feb29RejectedInCommonYear()
    ensures Parse("2023-02-29") == None
  {
    ParseCanonical("2023-02-29");
    assert Fields("2023-02-29") == Date(2023, 2, 29);
  }

  /** ...and does in a leap year. */
  lemma Feb29AcceptedInLeapYear()
    ensures Parse("2024-02-29") == Some(Date(2024, 2, 29))
  {
    ParseCanonical("2024-02-29");
    assert Fields("2024-02-29") == Date(2024, 2, 29);
  }

  /** Four digits are not enough: year 0 is outside `datetime`'s range. */
  lemma YearZeroRejected()
    ensures Parse("0000-01-01") == None
  {
    ParseCanonical("0000-01-01");
    assert Fields("0000-01-01") == Date(0, 1, 1);
  }
}
