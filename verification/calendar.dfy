/** The weekday computation behind `day_of_week` (vb-signups.py:55-57):
    `datetime.strptime(d, "%Y-%m-%d")` followed by `strftime("%A").lower()`,
    restated over an explicit proleptic Gregorian calendar. */
module Calendar {
  import opened Wrappers

  /** A calendar date, as Python's `datetime.date` holds it. */
  datatype Date = Date(year: int, month: int, day: int)

  /** The year range of Python's `datetime` (MINYEAR and MAXYEAR). */
  const MinYear := 1
  const MaxYear := 9999

  /** The last date `datetime` can represent; it has no successor. */
  const LastDate := Date(MaxYear, 12, 31)

  /** The names `strftime("%A").lower()` produces, Monday first, as
      `date.weekday()` numbers them. */
  const WeekdayNames: seq<string> :=
    ["monday", "tuesday", "wednesday", "thursday", "friday", "saturday", "sunday"]

  predicate IsLeapYear(y: int)
  {
    y % 4 == 0 && (y % 100 != 0 || y % 400 == 0)
  }

  function DaysInMonth(y: int, m: int): (n: int)
    requires 1 <= m <= 12
    ensures 28 <= n <= 31
  {
    if m == 2 then (if IsLeapYear(y) then 29 else 28)
    else if m == 4 || m == 6 || m == 9 || m == 11 then 30
    else 31
  }

  function DaysInYear(y: int): int
  {
    if IsLeapYear(y) then 366 else 365
  }

  /** A date `datetime` accepts: its constructor raises ValueError otherwise. */
  predicate ValidDate(d: Date)
  {
    && MinYear <= d.year <= MaxYear
    && 1 <= d.month <= 12
    && 1 <= d.day <= DaysInMonth(d.year, d.month)
  }

  // ---------------------------------------------------------------------------
  // Decimal digits

  predicate IsDigit(c: char)
  {
    '0' <= c <= '9'
  }

  predicate AllDigits(s: string)
  {
    forall i :: 0 <= i < |s| ==> IsDigit(s[i])
  }

  function DigitValue(c: char): (v: nat)
    requires IsDigit(c)
    ensures v < 10
  {
    c as int - '0' as int
  }

  function DigitChar(v: nat): (c: char)
    requires v < 10
    ensures IsDigit(c) && DigitValue(c) == v
  {
    ('0' as int + v) as char
  }

  function Pow10(k: nat): (p: nat)
    ensures p >= 1
  {
    if k == 0 then 1 else 10 * Pow10(k - 1)
  }

  /** The value of a string of decimal digits, most significant first. */
  function NumberOf(s: string): (n: nat)
    requires AllDigits(s)
    ensures n < Pow10(|s|)
  {
    if |s| == 0 then 0 else NumberOf(s[..|s| - 1]) * 10 + DigitValue(s[|s| - 1])
  }

  lemma NumberOfTwoDigits(s: string)
    requires |s| == 2 && AllDigits(s)
    ensures NumberOf(s) == 10 * DigitValue(s[0]) + DigitValue(s[1])
  {
    assert s[..1][..0] == [];
  }

  lemma NumberOfFourDigits(s: string)
    requires |s| == 4 && AllDigits(s)
    ensures NumberOf(s) == 1000 * DigitValue(s[0]) + 100 * DigitValue(s[1]) + 10 * DigitValue(s[2]) + DigitValue(s[3])
  {
    assert s[..3][..2] == s[..2];
    NumberOfTwoDigits(s[..2]);
  }

  /** The `w` low decimal digits of `n`, zero-padded, as `%0*d` prints them. */
  function PadDigits(n: nat, w: nat): (s: string)
    ensures |s| == w && AllDigits(s)
  {
    if w == 0 then [] else PadDigits(n / 10, w - 1) + [DigitChar(n % 10)]
  }

  /** Reading back a zero-padded number that fits its width gives the number. */
  lemma {:induction false} NumberOfPadDigits(n: nat, w: nat)
    requires n < Pow10(w)
    ensures NumberOf(PadDigits(n, w)) == n
  {
    if w > 0 {
      var s := PadDigits(n, w);
      assert s[..w - 1] == PadDigits(n / 10, w - 1);
      NumberOfPadDigits(n / 10, w - 1);
    }
  }

  /** Printing a digit string's value at the string's width gives the string back. */
  lemma {:induction false} PadDigitsNumberOf(s: string)
    requires AllDigits(s)
    ensures PadDigits(NumberOf(s), |s|) == s
  {
    if |s| > 0 {
      var p := s[..|s| - 1];
      var n := NumberOf(s);
      assert n / 10 == NumberOf(p);
      assert n % 10 == DigitValue(s[|s| - 1]);
      PadDigitsNumberOf(p);
      assert DigitChar(DigitValue(s[|s| - 1])) == s[|s| - 1];
      assert s == p + [s[|s| - 1]];
    }
  }

  // ---------------------------------------------------------------------------
  // Parsing and printing `%Y-%m-%d`

  /** What the parser reads from a string of the right shape, digit by digit. */
  lemma ParseDateDigits(s: string)
    requires |s| == 10 && s[4] == '-' && s[7] == '-'
    requires IsDigit(s[0]) && IsDigit(s[1]) && IsDigit(s[2]) && IsDigit(s[3])
    requires IsDigit(s[5]) && IsDigit(s[6]) && IsDigit(s[8]) && IsDigit(s[9])
    ensures var d := Date(1000 * DigitValue(s[0]) + 100 * DigitValue(s[1]) + 10 * DigitValue(s[2]) + DigitValue(s[3]),
                          10 * DigitValue(s[5]) + DigitValue(s[6]),
                          10 * DigitValue(s[8]) + DigitValue(s[9]));
            ParseDate(s) == if ValidDate(d) then Some(d) else None
  {
    NumberOfFourDigits(s[..4]);
    NumberOfTwoDigits(s[5..7]);
    NumberOfTwoDigits(s[8..]);
  }

  /** The canonical `%Y-%m-%d` text of a date. */
  function FormatDate(d: Date): (s: string)
    requires ValidDate(d)
    ensures |s| == 10
  {
    PadDigits(d.year, 4) + "-" + PadDigits(d.month, 2) + "-" + PadDigits(d.day, 2)
  }

  /** What `datetime.strptime(s, "%Y-%m-%d")` yields for a zero-padded
      string: the date, or None where it raises ValueError (trailing text,
      month 00 or 13, a day past the month's end, year 0000). A string with
      a one-digit month or day, a space-padded day or non-ASCII digits is
      None here although `strptime` accepts it. */
  function ParseDate(s: string): (r: Option<Date>)
    ensures r.Some? ==> ValidDate(r.value)
  {
    if |s| == 10 && s[4] == '-' && s[7] == '-'
       && AllDigits(s[..4]) && AllDigits(s[5..7]) && AllDigits(s[8..])
    then
      var d := Date(NumberOf(s[..4]), NumberOf(s[5..7]), NumberOf(s[8..]));
      if ValidDate(d) then Some(d) else None
    else
      None
  }

  /** Every valid date survives printing and parsing. */
  lemma ParseFormatDate(d: Date)
    requires ValidDate(d)
    ensures ParseDate(FormatDate(d)) == Some(d)
  {
    var y, m, dd := PadDigits(d.year, 4), PadDigits(d.month, 2), PadDigits(d.day, 2);
    var s := FormatDate(d);
    assert s[..4] == y && s[5..7] == m && s[8..] == dd;
    NumberOfPadDigits(d.year, 4);
    NumberOfPadDigits(d.month, 2);
    NumberOfPadDigits(d.day, 2);
  }

  /** A string that parses is exactly the canonical text of what it parses to. */
  lemma FormatParseDate(s: string)
    requires ParseDate(s).Some?
    ensures FormatDate(ParseDate(s).value) == s
  {
    PadDigitsNumberOf(s[..4]);
    PadDigitsNumberOf(s[5..7]);
    PadDigitsNumberOf(s[8..]);
    assert s == s[..4] + "-" + s[5..7] + "-" + s[8..];
  }

  /** The parser accepts exactly the canonical texts of valid dates. */
  lemma ParseDateAcceptsExactly(s: string)
    ensures ParseDate(s).Some? <==> exists d :: ValidDate(d) && FormatDate(d) == s
  {
    if ParseDate(s).Some? {
      FormatParseDate(s);
    } else if d :| ValidDate(d) && FormatDate(d) == s {
      ParseFormatDate(d);
      assert false;
    }
  }

  // ---------------------------------------------------------------------------
  // Day numbers and weekdays

  /** Leap years among 1..`p`. */
  function LeapYearsThrough(p: int): int
  {
    p / 4 - p / 100 + p / 400
  }

  /** Days in the years before `y`, counting from 0001-01-01. */
  function DaysBeforeYear(y: int): int
    requires y >= 1
  {
    (y - 1) * 365 + LeapYearsThrough(y - 1)
  }

  /** Days in the months of year `y` before month `m`. */
  function DaysBeforeMonth(y: int, m: int): int
    requires 1 <= m <= 13
  {
    if m == 1 then 0 else DaysBeforeMonth(y, m - 1) + DaysInMonth(y, m - 1)
  }

  /** The day number `date.toordinal()` gives: 0001-01-01 is day 1. */
  function Ordinal(d: Date): int
    requires ValidDate(d)
  {
    DaysBeforeYear(d.year) + DaysBeforeMonth(d.year, d.month) + d.day
  }

  /** `date.weekday()`: 0 is Monday, 6 is Sunday. */
  function Weekday(d: Date): (w: nat)
    requires ValidDate(d)
    ensures w < 7
  {
    (Ordinal(d) + 6) % 7
  }

  /** The calendar day after `d`. */
  function NextDate(d: Date): Date
    requires ValidDate(d) && d != LastDate
  {
    if d.day < DaysInMonth(d.year, d.month) then Date(d.year, d.month, d.day + 1)
    else if d.month < 12 then Date(d.year, d.month + 1, 1)
    else Date(d.year + 1, 1, 1)
  }

  /** How the leap-day correction terms step from one year to the next:
      each grows by one exactly at multiples of its divisor. */
  lemma DivStep(y: int)
    requires y >= 1
    ensures y / 4 - (y - 1) / 4 == if y % 4 == 0 then 1 else 0
    ensures y / 100 - (y - 1) / 100 == if y % 100 == 0 then 1 else 0
    ensures y / 400 - (y - 1) / 400 == if y % 400 == 0 then 1 else 0
  {
    assert y - 1 == 4 * ((y - 1) / 4) + (y - 1) % 4;
    assert y - 1 == 100 * ((y - 1) / 100) + (y - 1) % 100;
    assert y - 1 == 400 * ((y - 1) / 400) + (y - 1) % 400;
  }

  /** A multiple of 400 is a multiple of 100, and a multiple of 100 is a multiple of 4. */
  lemma CenturyDivisibility(y: int)
    ensures y % 400 == 0 ==> y % 100 == 0
    ensures y % 100 == 0 ==> y % 4 == 0
  {
    if y % 400 == 0 {
      var q := y / 400;
      assert y == 400 * q;
      assert y == 100 * (4 * q) + 0;
    }
    if y % 100 == 0 {
      var q := y / 100;
      assert y == 100 * q;
      assert y == 4 * (25 * q) + 0;
    }
  }

  /** The count of leap years grows by one exactly at a leap year. */
  lemma LeapYearsStep(y: int)
    requires y >= 1
    ensures LeapYearsThrough(y) == LeapYearsThrough(y - 1) + if IsLeapYear(y) then 1 else 0
  {
    DivStep(y);
    CenturyDivisibility(y);
  }

  /** A year holds exactly the days of its twelve months. */
  lemma DaysBeforeMonthFullYear(y: int)
    ensures DaysBeforeMonth(y, 13) == DaysInYear(y)
  {
    assert DaysBeforeMonth(y, 2) == 31;
    assert DaysBeforeMonth(y, 3) == 31 + DaysInMonth(y, 2);
    assert DaysBeforeMonth(y, 4) == DaysBeforeMonth(y, 3) + 31;
    assert DaysBeforeMonth(y, 5) == DaysBeforeMonth(y, 4) + 30;
    assert DaysBeforeMonth(y, 6) == DaysBeforeMonth(y, 5) + 31;
    assert DaysBeforeMonth(y, 7) == DaysBeforeMonth(y, 6) + 30;
    assert DaysBeforeMonth(y, 8) == DaysBeforeMonth(y, 7) + 31;
    assert DaysBeforeMonth(y, 9) == DaysBeforeMonth(y, 8) + 31;
    assert DaysBeforeMonth(y, 10) == DaysBeforeMonth(y, 9) + 30;
    assert DaysBeforeMonth(y, 11) == DaysBeforeMonth(y, 10) + 31;
    assert DaysBeforeMonth(y, 12) == DaysBeforeMonth(y, 11) + 30;
  }

  /** The day count grows by the length of each year. */
  lemma DaysBeforeNextYear(y: int)
    requires y >= 1
    ensures DaysBeforeYear(y + 1) == DaysBeforeYear(y) + DaysInYear(y)
  {
    LeapYearsStep(y);
  }

  /** The day after a valid date is a valid date whose day number is one more. */
  lemma NextDateOrdinal(d: Date)
    requires ValidDate(d) && d != LastDate
    ensures ValidDate(NextDate(d))
    ensures Ordinal(NextDate(d)) == Ordinal(d) + 1
  {
    if d.day == DaysInMonth(d.year, d.month) && d.month == 12 {
      DaysBeforeMonthFullYear(d.year);
      DaysBeforeNextYear(d.year);
    }
  }

  lemma WeekdayStep(o: int)
    ensures (o + 1 + 6) % 7 == ((o + 6) % 7 + 1) % 7
  {
  }

  /** Consecutive dates fall on consecutive weekdays, Sunday wrapping to Monday. */
  lemma NextDateWeekday(d: Date)
    requires ValidDate(d) && d != LastDate
    ensures ValidDate(NextDate(d))
    ensures Weekday(NextDate(d)) == (Weekday(d) + 1) % 7
  {
    NextDateOrdinal(d);
    WeekdayStep(Ordinal(d));
  }

  // ---------------------------------------------------------------------------
  // day_of_week

  /** `day_of_week(s)`: the lower-case English weekday name of the date `s`
      denotes, or None where `strptime` raises. */
  function DayOfWeek(s: string): (r: Option<string>)
    ensures r.Some? <==> ParseDate(s).Some?
    ensures r.Some? ==> r.value in WeekdayNames
    ensures r.Some? ==> forall i :: 0 <= i < |r.value| ==> 'a' <= r.value[i] <= 'z'
  {
    match ParseDate(s)
    case None => None
    case Some(d) => Some(WeekdayNames[Weekday(d)])
  }

  /** The text of a valid date names its weekday, and the text of the
      next date names the next weekday, Sunday wrapping to Monday. */
  lemma DayOfWeekConsecutive(d: Date)
    requires ValidDate(d) && d != LastDate
    ensures ValidDate(NextDate(d))
    ensures DayOfWeek(FormatDate(d)) == Some(WeekdayNames[Weekday(d)])
    ensures DayOfWeek(FormatDate(NextDate(d))) == Some(WeekdayNames[(Weekday(d) + 1) % 7])
  {
    ParseFormatDate(d);
    NextDateWeekday(d);
    ParseFormatDate(NextDate(d));
  }

  /** Month 13 is rejected. */
  lemma MonthThirteenRejected()
    ensures DayOfWeek("2023-13-01") == None
  {
    ParseDateDigits("2023-13-01");
    assert !ValidDate(Date(2023, 13, 1));
  }

  /** 29 February does not exist in a common year. */
  lemma LeapDayRejectedInCommonYear()
    ensures DayOfWeek("2023-02-29") == None
  {
    ParseDateDigits("2023-02-29");
    assert !IsLeapYear(2023);
    assert !ValidDate(Date(2023, 2, 29));
  }

  /** 29 February exists in a leap year. */
  lemma LeapDayAcceptedInLeapYear()
    ensures DayOfWeek("2024-02-29").Some?
  {
    ParseDateDigits("2024-02-29");
    assert IsLeapYear(2024);
    assert ValidDate(Date(2024, 2, 29));
  }

  /** 1 January 2024 was a Monday. */
  lemma NewYear2024IsMonday()
    ensures DayOfWeek("2024-01-01") == Some("monday")
  {
    var s := "2024-01-01";
    ParseDateDigits(s);
    var d := Date(2024, 1, 1);
    assert ParseDate(s) == Some(d);
    assert DaysBeforeYear(2024) == 738885;
    assert Ordinal(d) == 738886;
    assert Weekday(d) == 0;
  }
}
