/** The proleptic Gregorian calendar behind JavaScript dates, counted in days from
    1 January 1970, as in sections 15.9.1.3 to 15.9.1.12 of ECMA-262 5th edition. A date
    here has no time of day and no daylight saving. */
module Calendar {
  // Months are numbered from 0, as in JavaScript.
  datatype Civil = Civil(year: int, month: int, day: int)
  {
    predicate Valid() {
      0 <= month < 12 && 1 <= day <= MonthLength(year, month)
    }
  }

  predicate Leap(y: int) {
    y % 4 == 0 && (y % 100 != 0 || y % 400 == 0)
  }

  function MonthLength(y: int, m: int): int {
    if m == 1 then (if Leap(y) then 29 else 28)
    else if m == 3 || m == 5 || m == 8 || m == 10 then 30
    else 31
  }

  function YearLength(y: int): int {
    if Leap(y) then 366 else 365
  }

  // DayFromYear of section 15.9.1.3, with the leap years counted from year 1: there are 477
  // of them before 1970.
  function YearStart(y: int): int {
    365 * (y - 1970) + (y - 1) / 4 - (y - 1) / 100 + (y - 1) / 400 - 477
  }

  // Days of the year before month m
  function MonthStart(y: int, m: int): int
    requires 0 <= m <= 12
  {
    [0, 31, 59, 90, 120, 151, 181, 212, 243, 273, 304, 334, 365][m] + if m > 1 && Leap(y) then 1 else 0
  }

  // MakeDay of section 15.9.1.12: months and days outside their range carry over.
  function MakeDay(y: int, m: int, d: int): int {
    YearStart(y + m / 12) + MonthStart(y + m / 12, m % 12) + d - 1
  }

  // The Date constructor puts the years 0 to 99 into the twentieth century.
  function NewDate(y: int, m: int, d: int): int {
    MakeDay(if 0 <= y <= 99 then 1900 + y else y, m, d)
  }

  function WeekDay(n: int): int {
    (n + 4) % 7
  }

  lemma Quotient(n: int, k: int, q: int, r: int)
    requires n == k * q + r && 0 <= r < k
    ensures n / k == q && n % k == r
  {
    var a, b := n / k, n % k;
    assert n == k * a + b && 0 <= b < k;
    OnlyZero(k, a - q, r - b);
  }

  lemma OnlyZero(k: int, d: int, e: int)
    requires k * d == e && -k < e < k
    ensures d == 0
  {
    assert d >= 1 ==> k * d >= k;
    assert d <= -1 ==> k * d <= -k;
  }

  // How a quotient moves on when the dividend does
  lemma QuotientStep(n: int, k: int)
    requires k > 0
    ensures (n + 1) / k == n / k + if (n + 1) % k == 0 then 1 else 0
  {
    var q, r := n / k, n % k;
    if r + 1 < k {
      Quotient(n + 1, k, q, r + 1);
    } else {
      Quotient(n + 1, k, q + 1, 0);
    }
  }

  lemma CenturiesAreFourths(y: int)
    ensures y % 100 == 0 ==> y % 4 == 0
    ensures y % 400 == 0 ==> y % 100 == 0
  {
    if y % 100 == 0 {
      Quotient(y, 4, 25 * (y / 100), 0);
    }
    if y % 400 == 0 {
      Quotient(y, 100, 4 * (y / 400), 0);
    }
  }

  lemma YearStep(y: int)
    ensures YearStart(y + 1) == YearStart(y) + YearLength(y)
  {
    QuotientStep(y - 1, 4);
    QuotientStep(y - 1, 100);
    QuotientStep(y - 1, 400);
    CenturiesAreFourths(y);
  }

  lemma {:induction false} YearsGrow(y: int, z: int)
    requires y < z
    ensures YearStart(y) + YearLength(y) <= YearStart(z)
    decreases z - y
  {
    YearStep(y);
    if y + 1 < z {
      YearsGrow(y + 1, z);
    }
  }

  // ---------- From a day number back to a date ----------

  function YearOf(n: int): (y: int)
    ensures YearStart(y) <= n < YearStart(y + 1)
  {
    Seek(n, 1970 + n / 366)
  }

  function Seek(n: int, y: int): (r: int)
    ensures YearStart(r) <= n < YearStart(r + 1)
    decreases YearStart(y) > n, if YearStart(y) > n then YearStart(y) - n else n - YearStart(y)
  {
    YearStep(y - 1);
    YearStep(y);
    if YearStart(y) > n then Seek(n, y - 1)
    else if YearStart(y + 1) <= n then Seek(n, y + 1)
    else y
  }

  lemma YearOfIsUnique(n: int, y: int)
    requires YearStart(y) <= n < YearStart(y) + YearLength(y)
    ensures YearOf(n) == y
  {
    var r := YearOf(n);
    YearStep(r);
    if r < y { YearsGrow(r, y); }
    if y < r { YearsGrow(y, r); }
  }

  function MonthFrom(y: int, k: int, m: int): (r: int)
    requires 0 <= m < 12 && MonthStart(y, m) <= k < YearLength(y)
    ensures m <= r < 12 && MonthStart(y, r) <= k < MonthStart(y, r) + MonthLength(y, r)
    decreases 12 - m
  {
    MonthStep(y, m);
    if m == 11 || k < MonthStart(y, m + 1) then m else MonthFrom(y, k, m + 1)
  }

  lemma MonthStep(y: int, m: int)
    requires 0 <= m < 12
    ensures MonthStart(y, m + 1) == MonthStart(y, m) + MonthLength(y, m)
    ensures MonthStart(y, 0) == 0 && MonthStart(y, 12) == YearLength(y)
  {
  }

  lemma {:induction false} MonthsGrow(y: int, m: int, k: int)
    requires 0 <= m < k <= 12
    ensures MonthStart(y, m) + MonthLength(y, m) <= MonthStart(y, k)
    decreases k - m
  {
    MonthStep(y, m);
    if m + 1 < k {
      MonthsGrow(y, m + 1, k);
    }
  }

  // getFullYear, getMonth and getDate
  function CivilOf(n: int): (c: Civil)
    ensures c.Valid()
  {
    var y := YearOf(n);
    YearStep(y);
    var m := MonthFrom(y, n - YearStart(y), 0);
    Civil(y, m, n - YearStart(y) - MonthStart(y, m) + 1)
  }

  function DayNumber(c: Civil): int {
    MakeDay(c.year, c.month, c.day)
  }

  // The ordinal of a date in its year, from 1
  function Ordinal(c: Civil): int
    requires 0 <= c.month < 12
  {
    MonthStart(c.year, c.month) + c.day
  }

  lemma OrdinalBounds(c: Civil)
    requires c.Valid()
    ensures 1 <= Ordinal(c) <= YearLength(c.year)
    ensures DayNumber(c) == YearStart(c.year) + Ordinal(c) - 1
  {
    MonthsGrow(c.year, c.month, 12);
  }

  lemma MakeDayInYear(y: int, m: int, d: int)
    requires 0 <= m < 12
    ensures MakeDay(y, m, d) == YearStart(y) + MonthStart(y, m) + d - 1
  {
    hide YearStart, MonthStart;
    assert m / 12 == 0 && m % 12 == m;
  }

  /** Day numbers and valid dates correspond one to one. */
  lemma DayNumberRoundTrip(n: int)
    ensures CivilOf(n).Valid() && DayNumber(CivilOf(n)) == n
  {
    hide YearStart, MonthStart, MonthFrom, MakeDay, YearOf;
    var c := CivilOf(n);
    MakeDayInYear(c.year, c.month, c.day);
  }

  lemma CivilRoundTrip(c: Civil)
    requires c.Valid()
    ensures CivilOf(DayNumber(c)) == c
  {
    hide YearStart, MonthStart, MakeDay, YearOf;
    var n := DayNumber(c);
    OrdinalBounds(c);
    YearOfIsUnique(n, c.year);
    MonthStep(c.year, 0);
    var m := MonthFrom(c.year, n - YearStart(c.year), 0);
    if m < c.month { MonthsGrow(c.year, m, c.month); }
    if c.month < m { MonthsGrow(c.year, c.month, m); }
  }

  // ---------- The count is tied to the real calendar ----------

  // The day after a date
  function Tomorrow(c: Civil): Civil {
    if c.day < MonthLength(c.year, c.month) then Civil(c.year, c.month, c.day + 1)
    else if c.month < 11 then Civil(c.year, c.month + 1, 1)
    else Civil(c.year + 1, 0, 1)
  }

  /** Day 0 is 1 January 1970, a Thursday, and each date has the number after the one of
      the day before: no other count of the days does both. */
  lemma CountsFromTheEpoch(c: Civil)
    requires c.Valid()
    ensures DayNumber(Civil(1970, 0, 1)) == 0 && WeekDay(0) == 4
    ensures Tomorrow(c).Valid() && DayNumber(Tomorrow(c)) == DayNumber(c) + 1
  {
    hide YearStart, MonthStart, MakeDay;
    Epoch();
    NextDay(c);
  }

  lemma Epoch()
    ensures DayNumber(Civil(1970, 0, 1)) == 0
  {
    MakeDayInYear(1970, 0, 1);
  }

  lemma NextDay(c: Civil)
    requires c.Valid()
    ensures Tomorrow(c).Valid() && DayNumber(Tomorrow(c)) == DayNumber(c) + 1
  {
    hide YearStart, MonthStart, MakeDay;
    OrdinalBounds(c);
    assert Tomorrow(c).Valid();
    OrdinalBounds(Tomorrow(c));
    MonthStep(c.year, c.month);
    MonthStep(c.year + 1, 0);
    YearStep(c.year);
  }

  // The day of the week of a date, from Sunday as 0, by the rule of the perpetual calendar:
  // a year moves it by one, a leap day in a year up to this one by one more.
  function DayOfWeek(c: Civil): int
    requires 0 <= c.month < 12
  {
    DayOfWeekSum(c) % 7
  }

  function DayOfWeekSum(c: Civil): int
    requires 0 <= c.month < 12
  {
    var y := if c.month < 2 then c.year - 1 else c.year;
    y + y / 4 - y / 100 + y / 400 + MonthShift(c.month) + c.day
  }

  function MonthShift(m: int): int
    requires 0 <= m < 12
  {
    [0, 3, 2, 5, 0, 3, 5, 1, 4, 6, 2, 4][m]
  }

  lemma LeapDays(y: int)
    ensures y / 4 - y / 100 + y / 400
         == (y - 1) / 4 - (y - 1) / 100 + (y - 1) / 400 + if Leap(y) then 1 else 0
  {
    QuotientStep(y - 1, 4);
    QuotientStep(y - 1, 100);
    QuotientStep(y - 1, 400);
    CenturiesAreFourths(y);
  }

  /** Counting days modulo seven from the epoch gives the weekday that the perpetual
      calendar gives. */
  lemma WeekDayIsDayOfWeek(c: Civil)
    requires c.Valid()
    ensures WeekDay(DayNumber(c)) == DayOfWeek(c)
  {
    hide MonthStart, MakeDay;
    OrdinalBounds(c);
    LeapDays(c.year);
    MonthTable(c.year, c.month);
    SevenAtATime(DayNumber(c) + 4, DayOfWeekSum(c), 52 * c.year + MonthWeeks(c.month));
  }

  function MonthWeeks(m: int): int
    requires 0 <= m < 12
  {
    [-102789, -102785, -102781, -102777, -102772, -102768, -102764, -102759, -102755, -102751, -102746, -102742][m]
  }

  lemma MonthTable(y: int, m: int)
    requires 0 <= m < 12
    ensures MonthStart(y, m) - MonthShift(m)
         == 7 * MonthWeeks(m) + 719524 + (if m < 2 then -1 else if Leap(y) then 1 else 0)
  {
    hide Leap;
  }

  lemma SevenAtATime(a: int, b: int, k: int)
    requires a == b + 7 * k
    ensures a % 7 == b % 7
  {
    Quotient(a, 7, b / 7 + k, b % 7);
  }

  // ---------- datepicker._getDaysInMonth ----------

  function GetDaysInMonth(y: int, m: int): int {
    32 - CivilOf(NewDate(y, m, 32)).day
  }

  /** Thirty-two minus the day that day 32 turns into is the length of the month, in every
      year but the year 0: its February is taken for that of 1900. */
  lemma DaysInMonthIsMonthLength(y: int, m: int)
    requires 0 <= m < 12
    ensures GetDaysInMonth(y, m) == MonthLength(y, m) <==> !(y == 0 && m == 1)
  {
    hide CivilOf, MakeDay, Leap;
    var year := if 0 <= y <= 99 then 1900 + y else y;
    ThirtyTwo(year, m);
    assert GetDaysInMonth(y, m) == MonthLength(year, m);
    if 0 < y <= 99 {
      CenturyShift(y);
    }
    YearZero();
  }

  lemma ThirtyTwo(year: int, m: int)
    requires 0 <= m < 12
    ensures 32 - CivilOf(MakeDay(year, m, 32)).day == MonthLength(year, m)
  {
    hide CivilOf, MakeDay, MonthLength;
    var extra := 32 - MonthLength(year, m);
    if m == 11 {
      NextMonth(year, 11, Civil(year + 1, 0, extra));
    } else {
      NextMonth(year, m, Civil(year, m + 1, extra));
    }
  }

  lemma YearZero()
    ensures Leap(0) && !Leap(1900)
  {
  }

  lemma CenturyShift(y: int)
    requires 0 < y <= 99
    ensures Leap(1900 + y) == Leap(y)
  {
  }

  lemma NextMonth(y: int, m: int, c: Civil)
    requires 0 <= m < 12 && c == if m == 11 then Civil(y + 1, 0, c.day) else Civil(y, m + 1, c.day)
    requires c.day == 32 - MonthLength(y, m)
    ensures CivilOf(MakeDay(y, m, 32)) == c
  {
    hide YearStart, MonthStart, MakeDay, CivilOf;
    MakeDayInYear(y, m, 32);
    MonthStep(c.year, 0);
    MonthStep(y, m);
    YearStep(y);
    assert c.Valid();
    assert DayNumber(c) == MakeDay(y, m, 32) by {
      OrdinalBounds(c);
    }
    CivilRoundTrip(c);
  }
}
