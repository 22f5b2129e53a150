/** `getDate(timestamp)`: epoch seconds to a `YYYY-MM-DD` string in UTC,
    through `new Date(timestamp * 1000)`, `getUTCFullYear`, `getUTCMonth`,
    `getUTCDate`, the `('0' + n).slice(-2)` padding and a template string. */
module DateStamp {
  import opened EcmaTime

  /** The values a JavaScript Number takes here: an integer or NaN. */
  datatype Number = NaN | Num(v: int)

  /** The largest magnitude of a time value (ECMA-262 section 21.4.1.1). */
  const MaxTimeValue: int := 8640000000000000

  /** TimeClip, on integers: out-of-range time values become NaN. */
  function TimeClip(t: int): (n: Number)
    ensures n.Num? <==> -MaxTimeValue <= t <= MaxTimeValue
    ensures n.Num? ==> n.v == t
  {
    if -MaxTimeValue <= t <= MaxTimeValue then Num(t) else NaN
  }

  /** `new Date(timestamp * 1000)`: a date exactly for the valid timestamps. */
  function NewDate(timestamp: int): (date: Number)
    ensures date.Num? <==> ValidSeconds(timestamp)
    ensures date.Num? ==> date.v == timestamp * 1000
  {
    TimeClip(timestamp * 1000)
  }

  /** The timestamps, in seconds, whose dates are valid. */
  predicate ValidSeconds(timestamp: int) {
    -MaxTimeValue <= timestamp * 1000 <= MaxTimeValue
  }

  /** `getUTCFullYear()`: NaN for an invalid date, otherwise the year that
      holds the time value. */
  function GetUTCFullYear(date: Number): (year: Number)
    ensures year.Num? <==> date.Num?
    ensures date.Num? ==> MsPerDay * DayFromYear(year.v) <= date.v < MsPerDay * DayFromYear(year.v + 1)
  {
    match date
    case NaN => NaN
    case Num(t) => Num(YearFromTime(t))
  }

  /** `getUTCMonth()`: NaN for an invalid date, otherwise 0..11. */
  function GetUTCMonth(date: Number): (month: Number)
    ensures month.Num? <==> date.Num?
    ensures month.Num? ==> 0 <= month.v <= 11
  {
    match date
    case NaN => NaN
    case Num(t) => Num(MonthFromTime(t))
  }

  /** `getUTCDate()`: NaN for an invalid date, otherwise a day that exists
      in the date's month. */
  function GetUTCDate(date: Number): (day: Number)
    ensures day.Num? <==> date.Num?
    ensures date.Num? ==> 1 <= day.v <= DaysInMonth(MonthFromTime(date.v), InLeapYear(Day(date.v)))
  {
    match date
    case NaN => NaN
    case Num(t) => Num(DateFromTime(t))
  }

  /** `n + 1` on a Number. */
  function Succ(n: Number): Number {
    match n
    case NaN => NaN
    case Num(v) => Num(v + 1)
  }

  predicate IsDigit(c: char) {
    '0' <= c <= '9'
  }

  function DigitChar(d: int): (c: char)
    requires 0 <= d <= 9
    ensures IsDigit(c)
  {
    ('0' as int + d) as char
  }

  function DigitValue(c: char): int
    requires IsDigit(c)
  {
    c as int - '0' as int
  }

  /** The decimal digits of `n`, most significant first, with no leading zero. */
  function Digits(n: nat): (s: string)
    ensures |s| >= 1
    decreases n
  {
    if n < 10 then [DigitChar(n)] else Digits(n / 10) + [DigitChar(n % 10)]
  }

  /** The value of a string of decimal digits: the inverse of `Digits`. */
  function DigitsValue(s: string): int
    requires forall i :: 0 <= i < |s| ==> IsDigit(s[i])
  {
    if s == [] then 0 else 10 * DigitsValue(s[..|s| - 1]) + DigitValue(s[|s| - 1])
  }

  /** `Digits(n)` is all digits, has no leading zero unless it is "0", and
      reads back as `n`. */
  lemma {:induction false} DigitsRoundTrip(n: nat)
    ensures forall i :: 0 <= i < |Digits(n)| ==> IsDigit(Digits(n)[i])
    ensures Digits(n)[0] == '0' ==> n == 0
    ensures DigitsValue(Digits(n)) == n
    decreases n
  {
    if n >= 10 {
      DigitsRoundTrip(n / 10);
      var s := Digits(n);
      assert s[..|s| - 1] == Digits(n / 10);
    }
  }

  /** Number::toString for an integer of magnitude at most 2^53 (every year,
      month and date `getDate` formats is one): optional "-", then the
      digits; NaN is "NaN". Larger integers, which JavaScript rounds or
      writes in exponent form, are never formatted here. */
  function NumberToString(n: Number): string {
    match n
    case NaN => "NaN"
    case Num(v) => if v < 0 then "-" + Digits(-v) else Digits(v)
  }

  /** The decimal form reads back: NaN is "NaN", a non-negative integer is
      its digits, and a negative one is "-" followed by the digits of its
      magnitude. */
  lemma NumberToStringRoundTrip(v: int)
    ensures NumberToString(NaN) == "NaN"
    ensures 0 <= v ==> (forall i :: 0 <= i < |NumberToString(Num(v))| ==> IsDigit(NumberToString(Num(v))[i]))
                       && DigitsValue(NumberToString(Num(v))) == v
    ensures v < 0 ==> NumberToString(Num(v))[0] == '-'
                      && (forall i :: 1 <= i < |NumberToString(Num(v))| ==> IsDigit(NumberToString(Num(v))[i]))
                      && DigitsValue(NumberToString(Num(v))[1..]) == -v
  {
    if v < 0 {
      DigitsRoundTrip(-v);
      assert NumberToString(Num(v))[1..] == Digits(-v);
    } else {
      DigitsRoundTrip(v);
    }
  }

  /** `s.slice(-k)`: the last `k` characters, or all of `s` when it is shorter. */
  function SliceLast(s: string, k: nat): (r: string)
    ensures |r| == if |s| < k then |s| else k
    ensures forall i :: 0 <= i < |r| ==> r[i] == s[|s| - |r| + i]
  {
    var m := if |s| < k then |s| else k;
    seq(m, i requires 0 <= i < m => s[|s| - m + i])
  }

  /** `('0' + n).slice(-2)`. */
  function Pad2(n: Number): string {
    SliceLast("0" + NumberToString(n), 2)
  }

  /** `getDate(timestamp)`. */
  function GetDate(timestamp: int): string {
    var date := NewDate(timestamp);
    var year := GetUTCFullYear(date);
    var month := Pad2(Succ(GetUTCMonth(date)));
    var day := Pad2(GetUTCDate(date));
    NumberToString(year) + "-" + month + "-" + day
  }

  /** Two decimal digits for 0..99, written independently of the padding. */
  function TwoDigits(n: int): (s: string)
    requires 0 <= n <= 99
    ensures |s| == 2 && IsDigit(s[0]) && IsDigit(s[1])
    ensures 10 * DigitValue(s[0]) + DigitValue(s[1]) == n
  {
    [DigitChar(n / 10), DigitChar(n % 10)]
  }

  /** Numbers below 100 have one or two digits. */
  lemma SmallDigits(n: nat)
    requires n <= 99
    ensures n < 10 ==> Digits(n) == [DigitChar(n)]
    ensures 10 <= n ==> Digits(n) == [DigitChar(n / 10), DigitChar(n % 10)]
  {
    if 10 <= n {
      assert Digits(n / 10) == [DigitChar(n / 10)];
    }
  }

  /** Below 10 the padding puts a "0" before the digit. */
  lemma Pad2BelowTen(n: int)
    requires 0 <= n <= 9
    ensures Pad2(Num(n)) == ['0', DigitChar(n)]
  {
    SmallDigits(n);
    assert NumberToString(Num(n)) == [DigitChar(n)];
    var s := "0" + NumberToString(Num(n));
    assert s == ['0', DigitChar(n)];
  }

  /** From 10 to 99 the padding keeps the plain decimal. */
  lemma Pad2FromTen(n: int)
    requires 10 <= n <= 99
    ensures Pad2(Num(n)) == Digits(n)
  {
    SmallDigits(n);
    assert NumberToString(Num(n)) == Digits(n);
    var s := "0" + NumberToString(Num(n));
    assert s[1..] == Digits(n);
  }

  /** The padding gives the two digits of any value in 0..99. */
  lemma Pad2Digits(n: int)
    requires 0 <= n <= 99
    ensures Pad2(Num(n)) == TwoDigits(n)
  {
    if n < 10 {
      Pad2BelowTen(n);
      assert ['0', DigitChar(n)] == TwoDigits(n);
    } else {
      Pad2FromTen(n);
      SmallDigits(n);
    }
  }

  /** The padding of NaN. */
  lemma Pad2NaN()
    ensures Pad2(NaN) == "aN"
  {
  }

  /** Seconds scale to milliseconds: the day of the date is floor(timestamp / 86400). */
  lemma DayOfSeconds(timestamp: int)
    ensures Day(timestamp * 1000) == timestamp / 86400
  {
    var q, r := timestamp / 86400, timestamp % 86400;
    assert timestamp * 1000 == MsPerDay * q + r * 1000;
  }

  /** A valid timestamp gives the year's decimal string, then a two-digit
      month in 1..12 and a two-digit date that exists in that month, joined
      by hyphens; and that calendar date is the day floor(timestamp / 86400). */
  lemma GetDateShape(timestamp: int) returns (year: int, month: int, day: int)
    requires ValidSeconds(timestamp)
    ensures 1 <= month <= 12 && 1 <= day <= DaysInMonth(month - 1, DaysInYear(year) - 365)
    ensures GetDate(timestamp) == NumberToString(Num(year)) + "-" + TwoDigits(month) + "-" + TwoDigits(day)
    ensures year == YearFromDay(timestamp / 86400)
    ensures MakeDay(year, month - 1, day) == timestamp / 86400
  {
    var d := Day(timestamp * 1000);
    DayOfSeconds(timestamp);
    CivilOfDay(d);
    assert d == timestamp / 86400;
    year, month, day := YearFromDay(d), MonthFromDay(d) + 1, DateFromDay(d);
    GetDateOfFields(timestamp, year, month - 1, day);
    Pad2Digits(month);
    Pad2Digits(day);
  }

  /** From the epoch on, the year is at least 1970. */
  lemma YearFromEpoch(timestamp: int)
    requires 0 <= timestamp
    ensures 1970 <= YearFromDay(timestamp / 86400)
  {
    YearFromDayIsLargest(timestamp / 86400, 1970);
  }

  /** In `y-aa-bb` with an all-digit `y`, the only hyphens are the two separators. */
  lemma SeparatorsOnly(x: string, y: string, a: string, b: string)
    requires x == y + "-" + a + "-" + b
    requires |a| == 2 && IsDigit(a[0]) && IsDigit(a[1]) && |b| == 2 && IsDigit(b[0]) && IsDigit(b[1])
    requires forall i :: 0 <= i < |y| ==> IsDigit(y[i])
    ensures |x| == |y| + 6
    ensures forall i :: 0 <= i < |x| ==> (x[i] == '-' <==> i == |x| - 6 || i == |x| - 3)
    ensures forall i :: 0 <= i < |x| - 6 ==> IsDigit(x[i])
  {
    forall i | 0 <= i < |x|
      ensures x[i] == '-' <==> i == |x| - 6 || i == |x| - 3
    {
      if i < |y| {
        assert x[i] == y[i];
      }
    }
    forall i | 0 <= i < |x| - 6
      ensures IsDigit(x[i])
    {
      assert x[i] == y[i];
    }
  }

  /** A year of 0 or later, a two-digit month and a two-digit date, joined
      by hyphens, hold exactly the two separating hyphens. */
  lemma DateHyphens(x: string, year: int, month: int, day: int)
    requires 0 <= year && 1 <= month <= 12 && 1 <= day <= 31
    requires x == NumberToString(Num(year)) + "-" + TwoDigits(month) + "-" + TwoDigits(day)
    ensures |x| >= 7
    ensures forall i :: 0 <= i < |x| ==> (x[i] == '-' <==> i == |x| - 6 || i == |x| - 3)
    ensures forall i :: 0 <= i < |x| - 6 ==> IsDigit(x[i])
  {
    DigitsRoundTrip(year);
    SeparatorsOnly(x, Digits(year), TwoDigits(month), TwoDigits(day));
  }

  /** For a date in year 0 or later, the string holds exactly two hyphens:
      the ones before the month and before the date; the year before them is
      all digits, at least one. (A year before 0 brings a hyphen of its own.) */
  lemma GetDateHyphens(timestamp: int)
    requires ValidSeconds(timestamp) && 0 <= YearFromDay(timestamp / 86400)
    ensures |GetDate(timestamp)| >= 7
    ensures forall i :: 0 <= i < |GetDate(timestamp)| ==>
              (GetDate(timestamp)[i] == '-' <==> i == |GetDate(timestamp)| - 6 || i == |GetDate(timestamp)| - 3)
    ensures forall i :: 0 <= i < |GetDate(timestamp)| - 6 ==> IsDigit(GetDate(timestamp)[i])
  {
    var year, month, day := GetDateShape(timestamp);
    DateHyphens(GetDate(timestamp), year, month, day);
  }

  /** An invalid timestamp gives "NaN-aN-aN". */
  lemma GetDateInvalid(timestamp: int)
    requires !ValidSeconds(timestamp)
    ensures GetDate(timestamp) == "NaN-aN-aN"
  {
    Pad2NaN();
  }

  /** Two timestamps on the same UTC day, both valid or both not, give the same string. */
  lemma GetDateSameDay(t1: int, t2: int)
    requires t1 / 86400 == t2 / 86400
    ensures ValidSeconds(t1) == ValidSeconds(t2) ==> GetDate(t1) == GetDate(t2)
  {
    DayOfSeconds(t1);
    DayOfSeconds(t2);
  }

  /** Day 0 is 1 January 1970. */
  lemma EpochDay()
    ensures YearFromDay(0) == 1970 && MonthFromDay(0) == 0 && DateFromDay(0) == 1
  {
    assert MakeDay(1970, 0, 1) == 0;
    DayOfCivil(1970, 0, 1);
  }

  /** The fields of a valid date are the calendar of the day floor(timestamp / 86400). */
  lemma DateFieldsOfDay(timestamp: int)
    requires ValidSeconds(timestamp)
    ensures GetUTCFullYear(NewDate(timestamp)) == Num(YearFromDay(timestamp / 86400))
    ensures GetUTCMonth(NewDate(timestamp)) == Num(MonthFromDay(timestamp / 86400))
    ensures GetUTCDate(NewDate(timestamp)) == Num(DateFromDay(timestamp / 86400))
  {
    DayOfSeconds(timestamp);
  }

  /** Every second of the first day falls on 1 January 1970. */
  lemma EpochFields(timestamp: int)
    requires 0 <= timestamp < 86400
    ensures GetUTCFullYear(NewDate(timestamp)) == Num(1970)
    ensures GetUTCMonth(NewDate(timestamp)) == Num(0)
    ensures GetUTCDate(NewDate(timestamp)) == Num(1)
  {
    DateFieldsOfDay(timestamp);
    assert timestamp / 86400 == 0;
    EpochDay();
  }

  lemma DecimalOf1970()
    ensures NumberToString(Num(1970)) == "1970"
  {
    assert Digits(19) == "19";
    assert Digits(197) == "197";
  }

  /** `getDate` assembles the string from the three fields of the date. */
  lemma GetDateOfFields(timestamp: int, year: int, month: int, day: int)
    requires GetUTCFullYear(NewDate(timestamp)) == Num(year)
    requires GetUTCMonth(NewDate(timestamp)) == Num(month)
    requires GetUTCDate(NewDate(timestamp)) == Num(day)
    ensures GetDate(timestamp) == NumberToString(Num(year)) + "-" + Pad2(Num(month + 1)) + "-" + Pad2(Num(day))
  {
  }

  /** The epoch, and every second of its day, is "1970-01-01". */
  lemma GetDateEpoch(timestamp: int)
    requires 0 <= timestamp < 86400
    ensures GetDate(timestamp) == "1970-01-01"
  {
    EpochFields(timestamp);
    GetDateOfFields(timestamp, 1970, 0, 1);
    DecimalOf1970();
    Pad2BelowTen(1);
  }

  /** Why the same-day property asks for both timestamps to be valid or both
      not: the last valid second and the one after it share a UTC day, yet
      the first gives a date and the second "NaN-aN-aN". */
  lemma SameDayAtRangeEnd(timestamp: int)
    requires ValidSeconds(timestamp) && !ValidSeconds(timestamp + 1)
    ensures timestamp == 8640000000000
    ensures timestamp / 86400 == (timestamp + 1) / 86400
    ensures GetDate(timestamp + 1) == "NaN-aN-aN"
    ensures GetDate(timestamp) != "NaN-aN-aN"
  {
    assert timestamp == 8640000000000;
    assert timestamp / 86400 == (timestamp + 1) / 86400;
    GetDateInvalid(timestamp + 1);
    YearFromEpoch(timestamp);
    GetDateHyphens(timestamp);
    assert GetDate(timestamp)[0] != "NaN-aN-aN"[0];
  }
}
