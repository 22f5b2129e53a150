/** The time-value arithmetic of ECMA-262 section 21.4.1, the abstract
    operations of Date objects, on whole milliseconds since 1970-01-01T00:00:00Z: the day
    number of a time value, and the proleptic Gregorian year, month and date
    of a day number. */
module EcmaTime {

  const MsPerDay: int := 86400000

  /** Day(t) = floor(t / msPerDay). */
  function Day(t: int): (d: int)
    ensures MsPerDay * d <= t < MsPerDay * (d + 1)
  {
    t / MsPerDay
  }

  /** DaysInYear(y): 366 in a Gregorian leap year, 365 otherwise. */
  function DaysInYear(y: int): (n: int)
    ensures n == 365 || n == 366
    ensures n == 366 <==> (y % 4 == 0 && y % 100 != 0) || y % 400 == 0
  {
    if y % 4 != 0 then 365
    else if y % 100 != 0 then 366
    else if y % 400 != 0 then 365
    else 366
  }

  /** DayFromYear(y): the day number of the first day of year `y`. */
  function DayFromYear(y: int): int {
    365 * (y - 1970) + (y - 1969) / 4 - (y - 1901) / 100 + (y - 1601) / 400
  }

  /** The floor terms of DayFromYear each grow by one from year `y` to year
      `y + 1` exactly when `y` is a multiple of the divisor. */
  lemma FloorStep4(y: int)
    ensures (y - 1968) / 4 == (y - 1969) / 4 + (if y % 4 == 0 then 1 else 0)
  {
  }

  lemma FloorStep100(y: int)
    ensures (y - 1900) / 100 == (y - 1901) / 100 + (if y % 100 == 0 then 1 else 0)
  {
  }

  lemma FloorStep400(y: int)
    ensures (y - 1600) / 400 == (y - 1601) / 400 + (if y % 400 == 0 then 1 else 0)
  {
  }

  /** Consecutive years are `DaysInYear` days apart. */
  lemma DayFromNextYear(y: int)
    ensures DayFromYear(y + 1) == DayFromYear(y) + DaysInYear(y)
  {
    FloorStep4(y);
    FloorStep100(y);
    FloorStep400(y);
  }

  /** Years start in increasing order. */
  lemma {:induction false} DayFromYearMonotone(y1: int, y2: int)
    requires y1 < y2
    ensures DayFromYear(y1) < DayFromYear(y2)
    decreases y2 - y1
  {
    DayFromNextYear(y1);
    if y1 + 1 < y2 {
      DayFromYearMonotone(y1 + 1, y2);
    }
  }

  /** Walks from day `r` of year `y` (where `r` may lie outside that year) to
      the year that holds the same day, and the day's index within it. */
  function YearSplit(y: int, r: int): (res: (int, int))
    ensures DayFromYear(res.0) + res.1 == DayFromYear(y) + r
    ensures 0 <= res.1 < DaysInYear(res.0)
    decreases (if r < 0 then 1 else 0), (if r < 0 then -r else r)
  {
    if r < 0 then
      DayFromNextYear(y - 1);
      YearSplit(y - 1, r + DaysInYear(y - 1))
    else if r >= DaysInYear(y) then
      DayFromNextYear(y);
      YearSplit(y + 1, r - DaysInYear(y))
    else
      (y, r)
  }

  /** The year that day `d` falls in. */
  function YearFromDay(d: int): (y: int)
    ensures DayFromYear(y) <= d < DayFromYear(y + 1)
  {
    assert DayFromYear(1970) == 0;
    var res := YearSplit(1970, d);
    DayFromNextYear(res.0);
    res.0
  }

  /** YearFromTime(t): the year whose first millisecond,
      TimeFromYear(y) = msPerDay * DayFromYear(y), is at or before `t`, and
      whose successor's is after `t`. */
  function YearFromTime(t: int): (y: int)
    ensures MsPerDay * DayFromYear(y) <= t < MsPerDay * DayFromYear(y + 1)
  {
    var d := Day(t);
    var y := YearFromDay(d);
    assert MsPerDay * DayFromYear(y) <= MsPerDay * d;
    assert MsPerDay * (d + 1) <= MsPerDay * DayFromYear(y + 1);
    y
  }

  /** `YearFromDay(d)` is the largest `y` with `DayFromYear(y) <= d`, as the
      standard defines YearFromTime. */
  lemma YearFromDayIsLargest(d: int, y: int)
    ensures DayFromYear(y) <= d <==> y <= YearFromDay(d)
  {
    var x := YearFromDay(d);
    if y < x {
      DayFromYearMonotone(y, x);
    } else if y > x {
      if y > x + 1 {
        DayFromYearMonotone(x + 1, y);
      }
    }
  }

  /** A day that lies in year `y` has year `y`. */
  lemma YearFromDayUnique(d: int, y: int)
    requires DayFromYear(y) <= d < DayFromYear(y + 1)
    ensures YearFromDay(d) == y
  {
    YearFromDayIsLargest(d, y);
    YearFromDayIsLargest(d, y + 1);
  }

  /** In time values: the year of `t` is the largest `y` whose first
      millisecond, TimeFromYear(y) = msPerDay * DayFromYear(y), is at or
      before `t`. */
  lemma YearFromTimeIsLargest(t: int, y: int)
    ensures MsPerDay * DayFromYear(y) <= t <==> y <= YearFromTime(t)
  {
    var d := Day(t);
    YearFromDayIsLargest(d, y);
    if DayFromYear(y) <= d {
      assert MsPerDay * DayFromYear(y) <= MsPerDay * d;
    } else {
      assert d + 1 <= DayFromYear(y);
      assert MsPerDay * (d + 1) <= MsPerDay * DayFromYear(y);
    }
  }

  /** DayWithinYear: the index of day `d` in its year. */
  function DayWithinYear(d: int): (w: int)
    ensures 0 <= w < DaysInYear(YearFromDay(d))
  {
    DayFromNextYear(YearFromDay(d));
    d - DayFromYear(YearFromDay(d))
  }

  /** InLeapYear: 1 when the year of day `d` has 366 days, else 0. */
  function InLeapYear(d: int): (l: int)
    ensures l == DaysInYear(YearFromDay(d)) - 365
  {
    if DaysInYear(YearFromDay(d)) == 366 then 1 else 0
  }

  /** MonthFromTime's table: the month (0 = January) that holds day `w` of
      a year whose leap flag is `l`. */
  function MonthOfYearDay(w: int, l: int): int {
    if w < 31 then 0
    else if w < 59 + l then 1
    else if w < 90 + l then 2
    else if w < 120 + l then 3
    else if w < 151 + l then 4
    else if w < 181 + l then 5
    else if w < 212 + l then 6
    else if w < 243 + l then 7
    else if w < 273 + l then 8
    else if w < 304 + l then 9
    else if w < 334 + l then 10
    else 11
  }

  /** DateFromTime's table: the day of the month, from 1, of day `w` of a year
      whose leap flag is `l`. */
  function DateOfYearDay(w: int, l: int): int {
    match MonthOfYearDay(w, l)
    case 0 => w + 1
    case 1 => w - 30
    case 2 => w - 58 - l
    case 3 => w - 89 - l
    case 4 => w - 119 - l
    case 5 => w - 150 - l
    case 6 => w - 180 - l
    case 7 => w - 211 - l
    case 8 => w - 242 - l
    case 9 => w - 272 - l
    case 10 => w - 303 - l
    case _ => w - 333 - l
  }

  /** MonthFromTime, on day numbers. */
  function MonthFromDay(d: int): int {
    MonthOfYearDay(DayWithinYear(d), InLeapYear(d))
  }

  /** DateFromTime, on day numbers. */
  function DateFromDay(d: int): int {
    DateOfYearDay(DayWithinYear(d), InLeapYear(d))
  }

  /** MonthFromTime(t): a month number, 0 for January to 11 for December. */
  function MonthFromTime(t: int): (m: int)
    ensures 0 <= m <= 11
  {
    CivilOfDay(Day(t));
    MonthFromDay(Day(t))
  }

  /** DateFromTime(t): a day of the month that exists in the month of `t`. */
  function DateFromTime(t: int): (dt: int)
    ensures 1 <= dt <= DaysInMonth(MonthFromTime(t), InLeapYear(Day(t)))
  {
    CivilOfDay(Day(t));
    DateFromDay(Day(t))
  }

  /** The Gregorian calendar, stated independently of the tables above: the
      length of month `m` (0-based) in a year whose leap flag is `l`. */
  function DaysInMonth(m: int, l: int): int
    requires 0 <= m <= 11
  {
    if m == 1 then 28 + l
    else if m == 3 || m == 5 || m == 8 || m == 10 then 30
    else 31
  }

  /** The index within the year of the first day of month `m`. */
  function MonthStart(m: int, l: int): int
    requires 0 <= m <= 11
  {
    if m == 0 then 0
    else if m == 1 then 31
    else if m == 2 then 59 + l
    else if m == 3 then 90 + l
    else if m == 4 then 120 + l
    else if m == 5 then 151 + l
    else if m == 6 then 181 + l
    else if m == 7 then 212 + l
    else if m == 8 then 243 + l
    else if m == 9 then 273 + l
    else if m == 10 then 304 + l
    else 334 + l
  }

  /** Each month starts where the previous one ends, and the last one ends
      with the year: the starts add up the month lengths. */
  lemma MonthStartsAddUp(m: int, l: int)
    requires 0 <= m <= 11
    ensures m == 0 ==> MonthStart(m, l) == 0
    ensures 0 < m ==> MonthStart(m, l) == MonthStart(m - 1, l) + DaysInMonth(m - 1, l)
    ensures m == 11 ==> MonthStart(m, l) + DaysInMonth(m, l) == 365 + l
  {
  }

  /** MakeDay for a year, a 0-based month within 0..11 and a date from 1:
      the day number of that calendar date. */
  function MakeDay(y: int, m: int, date: int): int
    requires 0 <= m <= 11
  {
    DayFromYear(y) + MonthStart(m, DaysInYear(y) - 365) + date - 1
  }

  /** The month and date tables agree with the calendar: a day of the year
      falls in a month 0..11, on a date within that month's length, and the
      month's start plus the date gives the day back. */
  lemma YearDayCivil(w: int, l: int)
    requires 0 <= l <= 1 && 0 <= w < 365 + l
    ensures 0 <= MonthOfYearDay(w, l) <= 11
    ensures 1 <= DateOfYearDay(w, l) <= DaysInMonth(MonthOfYearDay(w, l), l)
    ensures MonthStart(MonthOfYearDay(w, l), l) + DateOfYearDay(w, l) - 1 == w
  {
  }

  /** And back: a date within its month's length is found by the tables. */
  lemma CivilYearDay(m: int, date: int, l: int)
    requires 0 <= l <= 1 && 0 <= m <= 11 && 1 <= date <= DaysInMonth(m, l)
    ensures 0 <= MonthStart(m, l) + date - 1 < 365 + l
    ensures MonthOfYearDay(MonthStart(m, l) + date - 1, l) == m
    ensures DateOfYearDay(MonthStart(m, l) + date - 1, l) == date
  {
  }

  /** Month and date of day `d` lie in their ranges, the date fits its
      month, and MakeDay takes the three components back to `d`. */
  lemma CivilOfDay(d: int)
    ensures 0 <= MonthFromDay(d) <= 11
    ensures 1 <= DateFromDay(d) <= DaysInMonth(MonthFromDay(d), InLeapYear(d))
    ensures MakeDay(YearFromDay(d), MonthFromDay(d), DateFromDay(d)) == d
  {
    YearDayCivil(DayWithinYear(d), InLeapYear(d));
  }

  /** The other direction: a calendar date that exists gives back its own
      year, month and date. */
  lemma DayOfCivil(y: int, m: int, date: int)
    requires 0 <= m <= 11 && 1 <= date <= DaysInMonth(m, DaysInYear(y) - 365)
    ensures YearFromDay(MakeDay(y, m, date)) == y
    ensures MonthFromDay(MakeDay(y, m, date)) == m
    ensures DateFromDay(MakeDay(y, m, date)) == date
  {
    var l := DaysInYear(y) - 365;
    CivilYearDay(m, date, l);
    DayFromNextYear(y);
    YearFromDayUnique(MakeDay(y, m, date), y);
  }
}
