/** The week number the date picker computes, against section 2.2.10 of ISO 8601:2004. */
module IsoWeek {
  import opened Calendar

  // Week 1 of a year is the week, from Monday to Sunday, that holds its first Thursday.
  function FirstThursday(y: int): int {
    YearStart(y) + (4 - WeekDay(YearStart(y))) % 7
  }

  function WeekOne(y: int): int {
    FirstThursday(y) - 3
  }

  function Monday(n: int): int {
    n - (WeekDay(n) + 6) % 7
  }

  // Day n lies in week w of the ISO year y.
  predicate InWeek(n: int, y: int, w: int) {
    1 <= w && WeekOne(y) + 7 * (w - 1) <= n < WeekOne(y) + 7 * w && n < WeekOne(y + 1)
  }

  // Day 0 was a Thursday, so Thursdays are the multiples of 7.
  lemma NextThursday(start: int)
    ensures start + (4 - WeekDay(start)) % 7 == 7 * ((start + 6) / 7)
  {
    var q, r := (start + 6) / 7, (start + 6) % 7;
    assert start + 4 == 7 * q + (r - 2);
    assert (start + 4) % 7 == (r - 2) % 7;
  }

  lemma MondayForm(n: int)
    ensures Monday(n) == 7 * ((n + 3) / 7) - 3
  {
    var q, r := (n + 3) / 7, (n + 3) % 7;
    assert n + 4 == 7 * q + (r + 1);
    assert (n + 4) % 7 == (r + 1) % 7;
  }

  lemma WeekOneForm(y: int)
    ensures WeekOne(y) == 7 * ((YearStart(y) + 6) / 7) - 3
  {
    NextThursday(YearStart(y));
  }

  /** The first Thursday is a Thursday and lies in the first seven days of the year. */
  lemma FirstThursdayIsFirst(y: int)
    ensures YearStart(y) <= FirstThursday(y) < YearStart(y) + 7
    ensures WeekDay(FirstThursday(y)) == 4
  {
    WeekOneForm(y);
    MultipleOfSeven((YearStart(y) + 6) / 7);
  }

  lemma MultipleOfSeven(k: int)
    ensures WeekDay(7 * k) == 4
  {
  }

  lemma NextWeekOne(start: int, end: int)
    requires end == start + 365 || end == start + 366
    ensures var k := (end + 6) / 7 - (start + 6) / 7; k == 52 || k == 53
  {
  }

  lemma WeekOneStep(y: int)
    ensures WeekOne(y + 1) == WeekOne(y) + 364 || WeekOne(y + 1) == WeekOne(y) + 371
  {
    YearStep(y);
    WeekOneForm(y);
    WeekOneForm(y + 1);
    NextWeekOne(YearStart(y), YearStart(y + 1));
  }

  lemma {:induction false} WeekOnesGrow(y: int, z: int)
    requires y < z
    ensures WeekOne(y + 1) <= WeekOne(z)
    decreases z - y
  {
    if y + 1 < z {
      WeekOneStep(y + 1);
      WeekOnesGrow(y + 1, z);
    }
  }

  /** Every day lies in one week of one ISO year. */
  lemma WeekIsUnique(n: int, y: int, w: int, y': int, w': int)
    requires InWeek(n, y, w) && InWeek(n, y', w')
    ensures y == y' && w == w'
  {
    if y < y' { WeekOnesGrow(y, y'); }
    if y' < y { WeekOnesGrow(y', y); }
  }

  /** Weeks are numbered 1 to 53, and a week is numbered 53 only in a year with 53 Thursdays. */
  lemma WeekBounds(n: int, y: int, w: int)
    requires InWeek(n, y, w)
    ensures 1 <= w <= 53
    ensures w == 53 ==> FirstThursday(y) + 7 * 52 < YearStart(y + 1)
  {
    WeekOneStep(y);
    FirstThursdayIsFirst(y + 1);
  }

  /** The number is the same from Monday to Sunday, also across the end of a year, and
      differs from one week to the next. */
  lemma WeekRunsFromMonday(n: int, m: int, y: int, w: int)
    requires InWeek(n, y, w)
    ensures Monday(n) == Monday(m) <==> InWeek(m, y, w)
  {
    WeekOneForm(y);
    WeekOneForm(y + 1);
    MondayForm(n);
    MondayForm(m);
    WeekShape(n, m, (YearStart(y) + 6) / 7, (YearStart(y + 1) + 6) / 7, w);
  }

  lemma WeekShape(n: int, m: int, a: int, b: int, w: int)
    requires 7 * (a + w - 1) <= n + 3 < 7 * (a + w) && n + 3 < 7 * b
    ensures (n + 3) / 7 == a + w - 1 < b
    ensures (m + 3) / 7 == a + w - 1 <==> 7 * (a + w - 1) <= m + 3 < 7 * (a + w) && m + 3 < 7 * b
  {
  }

  // The year of a week is the year of its Thursday.
  lemma ThursdayDecides(n: int)
    ensures var t := Monday(n) + 3; var y := YearOf(t);
            InWeek(n, y, (t - YearStart(y)) / 7 + 1)
  {
    hide YearStart, YearOf, WeekOne, Monday;
    var t := Monday(n) + 3;
    var y := YearOf(t);
    WeekOneForm(y);
    WeekOneForm(y + 1);
    MondayForm(n);
    ThursdayShape(n, YearStart(y), YearStart(y + 1), (n + 3) / 7);
  }

  lemma ThursdayShape(n: int, start: int, end: int, q: int)
    requires q == (n + 3) / 7 && start <= 7 * q < end
    ensures var a, w := (start + 6) / 7, (7 * q - start) / 7 + 1;
            1 <= w && 7 * (a + w - 1) <= n + 3 < 7 * (a + w) && n + 3 < 7 * ((end + 6) / 7)
  {
    var a := (start + 6) / 7;
    assert (7 * q - start) / 7 == q - a;
  }

  // Date.setDate and Date.setMonth
  function SetDate(n: int, d: int): int {
    var c := CivilOf(n);
    MakeDay(c.year, c.month, d)
  }

  function SetMonth(n: int, m: int): int {
    var c := CivilOf(n);
    MakeDay(c.year, m, c.day)
  }

  lemma SetDateShifts(n: int, k: int)
    ensures SetDate(n, CivilOf(n).day + k) == n + k
  {
    hide YearStart, MonthStart, MakeDay, CivilOf;
    var c := CivilOf(n);
    DayNumberRoundTrip(n);
    MakeDayInYear(c.year, c.month, c.day);
    MakeDayInYear(c.year, c.month, c.day + k);
  }

  lemma BackToNewYear(n: int)
    ensures SetDate(SetMonth(n, 0), 1) == YearStart(YearOf(n))
  {
    hide YearStart, MakeDay, YearOf, MonthFrom;
    var c := CivilOf(n);
    CivilRoundTrip(Civil(c.year, 0, c.day));
    MakeDayInYear(c.year, 0, 1);
  }

  lemma ThursdayOf(n: int)
    ensures n + 4 - (if WeekDay(n) == 0 then 7 else WeekDay(n)) == Monday(n) + 3
  {
  }

  lemma ThursdayIsSet(n: int)
    ensures SetDate(n, CivilOf(n).day + 4 - (if WeekDay(n) == 0 then 7 else WeekDay(n))) == Monday(n) + 3
  {
    SetDateShifts(n, 4 - (if WeekDay(n) == 0 then 7 else WeekDay(n)));
    ThursdayOf(n);
  }

  // ---------- The week over dates ----------

  // The Thursday t, at most three days away, gives a date its week: its year is the year of
  // the week, and the Thursdays of that year up to it give the number.
  predicate ThursdayCounts(c: Civil, t: Civil, y: int, w: int) {
    && t.Valid() && t.year == y && DayOfWeek(t) == 4
    && -3 <= DayNumber(c) - DayNumber(t) <= 3
    && 7 * (w - 1) < Ordinal(t) <= 7 * w
  }

  ghost predicate InCivilWeek(c: Civil, y: int, w: int) {
    exists t: Civil :: ThursdayCounts(c, t, y, w)
  }

  lemma ThursdaysAreSevens(t: int, y: int)
    requires WeekDay(t) == 4 && YearStart(y) <= t
    ensures var w := (t - YearStart(y)) / 7 + 1;
            t == WeekOne(y) + 7 * (w - 1) + 3 && 7 * (w - 1) < t - YearStart(y) + 1 <= 7 * w
  {
    hide YearStart, WeekOne;
    WeekOneForm(y);
    SevenShape(t, YearStart(y));
  }

  lemma SevenShape(t: int, start: int)
    requires (t + 4) % 7 == 4 && start <= t
    ensures var w := (t - start) / 7 + 1;
            t == 7 * ((start + 6) / 7) + 7 * (w - 1) && 7 * (w - 1) < t - start + 1 <= 7 * w
  {
    var q := t / 7;
    assert t == 7 * q;
  }

  lemma OneWeek(k: int, w: int, v: int)
    requires 7 * (w - 1) < k <= 7 * w && 7 * (v - 1) < k <= 7 * v
    ensures w == v
  {
  }

  lemma CivilWeekIsWeek(c: Civil, t: Civil, y: int, w: int)
    requires c.Valid() && ThursdayCounts(c, t, y, w)
    ensures InWeek(DayNumber(c), y, w)
  {
    hide YearStart, WeekOne, MakeDay, MonthStart;
    var n := DayNumber(t);
    OrdinalBounds(t);
    WeekDayIsDayOfWeek(t);
    ThursdaysAreSevens(n, y);
    OneWeek(Ordinal(t), w, (n - YearStart(y)) / 7 + 1);
    YearStep(y);
    FirstThursdayIsFirst(y + 1);
    LaterYear(n, y);
  }

  lemma LaterYear(n: int, y: int)
    requires WeekDay(n) == 4 && n < YearStart(y + 1)
    ensures n + 3 < WeekOne(y + 1)
  {
    hide YearStart, WeekOne;
    WeekOneForm(y + 1);
    LaterShape(n, YearStart(y + 1));
  }

  lemma LaterShape(n: int, start: int)
    requires (n + 4) % 7 == 4 && n < start
    ensures n + 7 <= 7 * ((start + 6) / 7)
  {
    assert n == 7 * (n / 7);
  }

  lemma WeekIsCivilWeek(c: Civil, y: int, w: int)
    requires c.Valid() && InWeek(DayNumber(c), y, w)
    ensures InCivilWeek(c, y, w)
  {
    hide YearStart, WeekOne, MakeDay, MonthStart, CivilOf, YearOf;
    var n := WeekOne(y) + 7 * (w - 1) + 3;
    ThursdayInYear(n, y, w);
    YearStep(y);
    YearOfIsUnique(n, y);
    var t := CivilOf(n);
    YearOfCivil(n);
    DayNumberRoundTrip(n);
    OrdinalBounds(t);
    WeekDayIsDayOfWeek(t);
    ThursdaysAreSevens(n, y);
    assert ThursdayCounts(c, t, y, w);
  }

  lemma YearOfCivil(n: int)
    ensures CivilOf(n).year == YearOf(n)
  {
    hide YearStart, YearOf, MonthFrom;
  }

  // A week of a year has its Thursday in that year.
  lemma ThursdayInYear(n: int, y: int, w: int)
    requires 1 <= w && n == WeekOne(y) + 7 * (w - 1) + 3 && n - 3 < WeekOne(y + 1)
    ensures WeekDay(n) == 4 && YearStart(y) <= n < YearStart(y + 1)
  {
    hide YearStart, WeekOne;
    WeekOneForm(y);
    WeekOneForm(y + 1);
    YearShape(n, YearStart(y), YearStart(y + 1), w);
  }

  lemma YearShape(n: int, start: int, end: int, w: int)
    requires 1 <= w && n == 7 * ((start + 6) / 7) + 7 * (w - 1) && n < 7 * ((end + 6) / 7)
    ensures (n + 4) % 7 == 4 && start <= n < end
  {
    assert n == 7 * ((start + 6) / 7 + w - 1);
  }

  /** The weeks of the count are the weeks of the calendar: each is the one of its Thursday. */
  lemma WeeksAreThoseOfThursdays(c: Civil, y: int, w: int)
    requires c.Valid()
    ensures InCivilWeek(c, y, w) <==> InWeek(DayNumber(c), y, w)
  {
    if InCivilWeek(c, y, w) {
      var t: Civil :| ThursdayCounts(c, t, y, w);
      CivilWeekIsWeek(c, t, y, w);
    }
    if InWeek(DayNumber(c), y, w) {
      WeekIsCivilWeek(c, y, w);
    }
  }

  /** Monday 3 January 2011 begins the first week of its year. */
  lemma FirstWeekOf2011()
    ensures DayOfWeek(Civil(2011, 0, 3)) == 1 && InCivilWeek(Civil(2011, 0, 3), 2011, 1)
  {
    hide YearStart, MonthStart, MakeDay;
    OrdinalBounds(Civil(2011, 0, 3));
    OrdinalBounds(Civil(2011, 0, 6));
    assert ThursdayCounts(Civil(2011, 0, 3), Civil(2011, 0, 6), 2011, 1) by {
      assert MonthStart(2011, 0) == 0 by {
        MonthStep(2011, 0);
      }
    }
  }

  lemma WeekIsFound(n: int, week: int)
    requires week == (Monday(n) + 3 - YearStart(YearOf(Monday(n) + 3))) / 7 + 1
    ensures 1 <= week <= 53 && exists y :: InWeek(n, y, week) && InCivilWeek(CivilOf(n), y, week)
  {
    hide InWeek, InCivilWeek, CivilOf, YearStart, YearOf, Monday;
    var y := YearOf(Monday(n) + 3);
    ThursdayDecides(n);
    WeekBounds(n, y, week);
    DayNumberRoundTrip(n);
    WeeksAreThoseOfThursdays(CivilOf(n), y, week);
  }

  // The number of the week that the date falls in, as the calendar names the date
  method Iso8601Week(date: int) returns (week: int)
    ensures 1 <= week <= 53
    ensures exists y :: InWeek(date, y, week) && InCivilWeek(CivilOf(date), y, week)
  {
    hide InWeek, InCivilWeek, CivilOf, YearStart, YearOf, Monday;
    var checkDate := date;
    // The Thursday of the week of the date
    ThursdayIsSet(date);
    checkDate := SetDate(checkDate, CivilOf(checkDate).day + 4 - (if WeekDay(checkDate) == 0 then 7 else WeekDay(checkDate)));
    var time := checkDate;
    BackToNewYear(time);
    checkDate := SetMonth(checkDate, 0);
    checkDate := SetDate(checkDate, 1);
    week := (time - checkDate) / 7 + 1;
    WeekIsFound(date, week);
  }
}
