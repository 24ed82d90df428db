/** When the parser gives back the date that the printer was given. */
module DateRoundTrip {
  import opened Wrappers
  import opened Calendar
  import opened DateFormat
  import Decimal

  // ---------- The value of a field of a date ----------

  function ValueOf(f: Field, date: Civil): nat
    requires date.Valid()
  {
    OrdinalBounds(date);
    match f
    case Year => if date.year < 0 then 0 else date.year
    case Month => date.month + 1
    case Day => date.day
    case Ordinal => Calendar.Ordinal(date)
  }

  predicate Covered(date: Civil) {
    date.Valid() && 100 <= date.year <= 9999
  }

  // Two-digit years, and tick counts, do not determine a date.
  predicate Faithful(t: Token) {
    !t.Stamp? && (t.Number? ==> t.letter in "dom" || (t.letter == 'y' && t.doubled))
  }

  predicate AllFaithful(tokens: seq<Token>) {
    forall i | 0 <= i < |tokens| :: Faithful(tokens[i])
  }

  // A two-digit year is printed without a sign from 1900 on, and in years that end a century.
  predicate Usable(t: Token, date: Civil) {
    Faithful(t) || (t == Number('y', false) && (date.year >= 1900 || date.year % 100 == 0))
  }

  predicate AllUsable(tokens: seq<Token>, date: Civil) {
    forall i | 0 <= i < |tokens| :: Usable(tokens[i], date)
  }

  // The number that a token prints
  function TokenValue(t: Token, date: Civil): nat
    requires date.Valid() && FieldOf(t).Some?
  {
    if t == Number('y', false) then date.year % 100 else ValueOf(FieldOf(t).value, date)
  }

  lemma PaddedReads(n: nat, doubled: bool, len: nat)
    requires 2 <= len <= 3 && 0 < n < if len == 2 then 100 else 1000
    ensures var s := Padded(n, doubled, len);
            s != "" && Decimal.AllDigits(s) && |s| <= len && Decimal.Read(s) == n
            && (doubled ==> |s| == len)
  {
    var num := Decimal.Print(n);
    Decimal.PrintWidth(n);
    Decimal.ReadPrint(n);
    if |num| < len {
      Decimal.ReadLeadingZeros(len - |num|, num);
    }
  }

  /** The count from the 0th of January is the ordinal, in every year but the years 0 to 99, which
      the Date constructor moves. */
  lemma CountsFromNewYear(date: Civil)
    requires date.Valid()
    ensures DayOfYear(date) == Calendar.Ordinal(date) <==> !(0 <= date.year <= 99)
  {
    hide YearStart, MonthStart, MakeDay;
    OrdinalBounds(date);
    var y := if 0 <= date.year <= 99 then 1900 + date.year else date.year;
    MakeDayInYear(y, 0, 0);
    MonthStep(y, 0);
    if 0 <= date.year <= 99 {
      YearsGrow(date.year, y);
      LongYear(date.year);
    }
  }

  lemma LongYear(y: int)
    ensures YearLength(y) >= 365
  {
  }

  lemma NumberText(t: Token, date: Civil, loc: Locale)
    requires Covered(date) && loc.Valid() && t.Number? && Faithful(t)
    ensures var s, size := Text(t, date, loc), Size(t.letter, t.doubled);
            && s != "" && Decimal.AllDigits(s) && |s| <= size
            && Decimal.Read(s) == ValueOf(FieldOf(t).value, date) > 0
            && (t.doubled && t.letter != 'y' ==> |s| == size)
  {
    hide CivilOf, MakeDay, YearStart, MonthStart, Decimal.Print, Decimal.Read, Padded;
    OrdinalBounds(date);
    match t.letter {
      case 'd' => PaddedReads(date.day, t.doubled, 2);
      case 'm' => PaddedReads(date.month + 1, t.doubled, 2);
      case 'o' => CountsFromNewYear(date); PaddedReads(Calendar.Ordinal(date), t.doubled, 3);
      case _ => Decimal.PrintWidth(date.year); Decimal.ReadPrint(date.year);
    }
  }

  lemma ShortYearText(date: Civil, loc: Locale)
    requires date.Valid() && loc.Valid() && (date.year >= 1900 || date.year % 100 == 0)
    ensures var s := Text(Number('y', false), date, loc);
            |s| == 2 && Decimal.AllDigits(s) && Decimal.Read(s) == date.year % 100
  {
    hide Decimal.Print, Decimal.Read;
    SinceNineteenHundred(date.year);
    var r := date.year % 100;
    Decimal.PrintWidth(r);
    Decimal.ReadPrint(r);
    if r < 10 {
      assert Text(Number('y', false), date, loc) == Decimal.Zeros(1) + Decimal.Print(r);
      Decimal.ReadLeadingZeros(1, Decimal.Print(r));
    } else {
      assert Text(Number('y', false), date, loc) == Decimal.Print(r);
    }
  }

  lemma SinceNineteenHundred(y: int)
    ensures y >= 1900 || y % 100 == 0 ==> Rem100(y - 1900) == y % 100
    ensures y < 1900 && y % 100 != 0 ==> Rem100(y - 1900) == y % 100 - 100
  {
    Quotient(y - 1900, 100, y / 100 - 19, y % 100);
    if y < 1900 {
      Quotient(1900 - y, 100, if y % 100 == 0 then 19 - y / 100 else 18 - y / 100, if y % 100 == 0 then 0 else 100 - y % 100);
    }
  }

  /** Before 1900 other two-digit years are printed with a minus sign, 1895 as `0-5`. */
  lemma ShortYearIsShortExactly(date: Civil, loc: Locale)
    requires date.Valid() && loc.Valid()
    ensures var s := Text(Number('y', false), date, loc);
            if date.year >= 1900 || date.year % 100 == 0
            then |s| == 2 && Decimal.AllDigits(s) && Decimal.Read(s) == date.year % 100
            else s == "0-" + Decimal.Print(100 - date.year % 100) && !Decimal.AllDigits(s)
  {
    if date.year >= 1900 || date.year % 100 == 0 {
      ShortYearText(date, loc);
    } else {
      hide Decimal.Print;
      SinceNineteenHundred(date.year);
      var s := Text(Number('y', false), date, loc);
      assert s == "0-" + Decimal.Print(100 - date.year % 100);
      assert s[1] == '-';
    }
  }

  // ---------- Names ----------

  // n is, up to the case of letters, the beginning of m
  predicate Begins(n: string, m: string) {
    |n| <= |m| && forall j | 0 <= j < |n| :: LowerCase(n[j]) == LowerCase(m[j])
  }

  predicate Distinct(names: seq<string>) {
    forall i, j | 0 <= i < |names| && 0 <= j < |names| && i != j :: !Begins(names[i], names[j])
  }

  predicate DistinctNames(loc: Locale) {
    Distinct(loc.dayShort) && Distinct(loc.dayLong) && Distinct(loc.monthShort) && Distinct(loc.monthLong)
  }

  lemma {:induction false} FindsItsName(names: seq<string>, k: nat, value: string, pos: nat, i: nat)
    requires i <= k < |names| && Distinct(names)
    requires pos + |names[k]| <= |value| && value[pos..pos + |names[k]|] == names[k]
    ensures FindName(names, value, pos, i) == Some(k)
    decreases k - i
  {
    assert forall j | 0 <= j < |names[k]| :: value[pos + j] == names[k][j];
    if i < k {
      assert !NameAt(names[i], value, pos);
      FindsItsName(names, k, value, pos, i + 1);
    }
  }

  predicate SameLetter(a: char, b: char) {
    a == b || ('A' <= a <= 'Z' && b as int == a as int + 32) || ('A' <= b <= 'Z' && a as int == b as int + 32)
  }

  /** A name is read whatever the case of its letters. */
  lemma NamesIgnoreCase(names: seq<string>, k: nat, value: string, pos: nat)
    requires k < |names| && Distinct(names) && pos + |names[k]| <= |value|
    requires forall j | 0 <= j < |names[k]| :: SameLetter(value[pos + j], names[k][j])
    ensures FindName(names, value, pos, 0) == Some(k)
  {
    FindsUpToCase(names, k, value, pos, 0);
  }

  lemma {:induction false} FindsUpToCase(names: seq<string>, k: nat, value: string, pos: nat, i: nat)
    requires i <= k < |names| && Distinct(names) && pos + |names[k]| <= |value|
    requires forall j | 0 <= j < |names[k]| :: SameLetter(value[pos + j], names[k][j])
    ensures FindName(names, value, pos, i) == Some(k)
    decreases k - i
  {
    assert NameAt(names[k], value, pos);
    if i < k {
      assert !NameAt(names[i], value, pos);
      FindsUpToCase(names, k, value, pos, i + 1);
    }
  }

  // ---------- What is accepted ----------

  // The name is what the text begins with, up to the case of letters.
  predicate Spelt(name: string, text: string) {
    |name| <= |text| && forall j | 0 <= j < |name| :: SameLetter(text[j], name[j])
  }

  // The first n characters of the text are what the token asks for: a number as long as there
  // are digits, up to its size, or the first name of the list that is there.
  predicate Fits(t: Token, text: string, n: nat, loc: Locale)
    requires loc.Valid()
  {
    n <= |text| &&
    match t
    case Literal(c) => n == 1 && text[0] == c
    case Number(letter, doubled) =>
      var size := if letter == 'o' then 3 else if letter == 'y' && doubled then 4 else 2;
      1 <= n <= size && Decimal.AllDigits(text[..n]) && (n < size && n < |text| ==> !Decimal.IsDigit(text[n]))
    case Name(letter, doubled) =>
      var names := loc.Names(letter, doubled);
      exists k | 0 <= k < |names| ::
        |names[k]| == n && Spelt(names[k], text) && forall j | 0 <= j < k :: !Spelt(names[j], text)
    case Stamp(_) => false
  }

  lemma {:induction false} RunIsMaximal(s: string, size: nat, n: nat)
    ensures Run(s, size) == n <==>
            n <= size && n <= |s| && Decimal.AllDigits(s[..n]) && (n < size && n < |s| ==> !Decimal.IsDigit(s[n]))
    decreases size
  {
    if 0 < n <= |s| && size > 0 {
      DigitsFromHead(s, n);
      RunIsMaximal(s[1..], size - 1, n - 1);
    }
  }

  lemma DigitsFromHead(s: string, n: nat)
    requires 0 < n <= |s|
    ensures Decimal.AllDigits(s[..n]) <==> Decimal.IsDigit(s[0]) && Decimal.AllDigits(s[1..][..n - 1])
  {
    assert s[..n] == [s[0]] + s[1..][..n - 1];
    assert Decimal.AllDigits(s[..n]) ==> Decimal.IsDigit(s[..n][0]);
    assert s[1..][..n - 1] == s[..n][1..];
  }

  lemma {:induction false} FirstNameIsFound(names: seq<string>, value: string, pos: nat, i: nat)
    requires i <= |names| && pos <= |value|
    ensures var r := FindName(names, value, pos, i);
            if r.Some? then i <= r.value < |names| && Spelt(names[r.value], value[pos..])
                            && forall j | i <= j < r.value :: !Spelt(names[j], value[pos..])
            else forall j | i <= j < |names| :: !Spelt(names[j], value[pos..])
    decreases |names| - i
  {
    if i < |names| {
      assert NameAt(names[i], value, pos) <==> Spelt(names[i], value[pos..]);
      if !NameAt(names[i], value, pos) {
        FirstNameIsFound(names, value, pos, i + 1);
      }
    }
  }

  /** A token is read exactly from text that fits it, all of which is taken; an error names
      the place where the text stops fitting. */
  lemma ReadsExactlyWhatFits(t: Token, value: string, p: Progress, n: nat, loc: Locale)
    requires loc.Valid() && !t.Stamp? && p.pos <= |value|
    ensures var r := ReadToken(t, value, p, loc);
            && (r.Ok? && r.value.pos == p.pos + n <==> Fits(t, value[p.pos..], n, loc))
            && (r.Err? ==> !r.error.InvalidDate? && r.error.pos == p.pos)
  {
    hide SameLetter, LowerCase;
    var text := value[p.pos..];
    match t {
      case Number(letter, doubled) => RunIsMaximal(text, Size(letter, doubled), n);
      case Name(letter, doubled) => FirstNameIsFound(loc.Names(letter, doubled), value, p.pos, 0);
      case Literal(c) => assert p.pos < |value| ==> value[p.pos] == text[0];
    }
  }

  // ---------- What each letter prints ----------

  /** A day name is the one of the date's weekday in the perpetual calendar, a number reads as
      the part of the date that its letter stands for, two or three digits wide if doubled. */
  lemma TextShows(t: Token, date: Civil, loc: Locale)
    requires Covered(date) && loc.Valid() && Usable(t, date)
    ensures var s := Text(t, date, loc);
            match t
            case Literal(c) => s == [c]
            case Name(letter, doubled) =>
              if letter == 'D' then s == (if doubled then loc.dayLong else loc.dayShort)[DayOfWeek(date)]
              else s == (if doubled then loc.monthLong else loc.monthShort)[date.month]
            case Number(letter, doubled) =>
              && Decimal.AllDigits(s) && |s| >= 1
              && (letter == 'd' ==> Decimal.Read(s) == date.day && (doubled ==> |s| == 2))
              && (letter == 'm' ==> Decimal.Read(s) == date.month + 1 && (doubled ==> |s| == 2))
              && (letter == 'o' ==> YearStart(date.year) + Decimal.Read(s) == DayNumber(date) + 1
                                    && (doubled ==> |s| == 3))
              && (letter == 'y' && doubled ==> Decimal.Read(s) == date.year)
              && (letter == 'y' && !doubled ==> Decimal.Read(s) == date.year % 100 && |s| == 2)
            case Stamp(_) => true
  {
    hide Text, MakeDay, YearStart, MonthStart, MonthLength;
    if t.Number? {
      if Faithful(t) {
        NumberText(t, date, loc);
        OrdinalBounds(date);
      } else {
        ShortYearText(date, loc);
      }
    } else if t.Name? {
      NameText(t, date, loc);
    } else {
      LiteralIsPrinted(t, date, loc);
    }
  }

  lemma NameText(t: Token, date: Civil, loc: Locale)
    requires date.Valid() && loc.Valid() && t.Name?
    ensures Text(t, date, loc) == loc.Names(t.letter, t.doubled)[if t.letter == 'D' then DayOfWeek(date) else date.month]
  {
    hide DayNumber, DayOfWeek;
    WeekDayIsDayOfWeek(date);
  }

  lemma LiteralIsPrinted(t: Token, date: Civil, loc: Locale)
    requires date.Valid() && loc.Valid() && t.Literal?
    ensures Text(t, date, loc) == [t.c]
  {
  }

  // ---------- Reading a printed number ----------

  predicate StartsWithDigit(s: string) {
    s != "" && Decimal.IsDigit(s[0])
  }

  lemma {:induction false} RunOfDigits(s: string, rest: string, size: nat)
    requires Decimal.AllDigits(s) && |s| <= size
    ensures Run(s + rest, size) >= |s|
    ensures Run(s + rest, size) == |s| <==> |s| == size || !StartsWithDigit(rest)
    decreases |s|
  {
    if s == "" {
      assert s + rest == rest;
    } else {
      assert (s + rest)[1..] == s[1..] + rest;
      RunOfDigits(s[1..], rest, size - 1);
    }
  }

  // The printed number is as wide as the parser reads, or no digit follows it.
  predicate Bounded(t: Token, text: string, rest: string) {
    t.Number? ==> |text| == Size(t.letter, t.doubled) || !StartsWithDigit(rest)
  }

  predicate Readable(tokens: seq<Token>, date: Civil, loc: Locale)
    requires date.Valid() && loc.Valid() && Supported(tokens)
  {
    tokens == [] ||
    (Bounded(tokens[0], Text(tokens[0], date, loc), Write(tokens[1..], date, loc)) &&
     Readable(tokens[1..], date, loc))
  }

  function After(t: Token, date: Civil, s: State): State
    requires date.Valid()
  {
    match FieldOf(t)
    case None => s
    case Some(f) => s.Set(f, TokenValue(t, date))
  }

  function AfterAll(tokens: seq<Token>, date: Civil, s: State): State
    requires date.Valid()
  {
    if tokens == [] then s else AfterAll(tokens[1..], date, After(tokens[0], date, s))
  }

  lemma ReadsNumber(t: Token, date: Civil, loc: Locale, value: string, p: Progress, rest: string)
    requires Covered(date) && loc.Valid() && Usable(t, date) && t.Number?
    requires p.pos <= |value| && value[p.pos..] == Text(t, date, loc) + rest
    requires Bounded(t, Text(t, date, loc), rest)
    ensures ReadToken(t, value, p, loc) == Ok(Progress(p.pos + |Text(t, date, loc)|, After(t, date, p.state)))
  {
    hide Text, ValueOf;
    var s := Text(t, date, loc);
    if Faithful(t) {
      NumberText(t, date, loc);
    } else {
      ShortYearText(date, loc);
    }
    RunOfDigits(s, rest, Size(t.letter, t.doubled));
    assert value[p.pos..][..|s|] == s;
  }

  lemma ReadsName(t: Token, date: Civil, loc: Locale, value: string, p: Progress, rest: string)
    requires date.Valid() && loc.Valid() && DistinctNames(loc) && t.Name?
    requires p.pos <= |value| && value[p.pos..] == Text(t, date, loc) + rest
    ensures ReadToken(t, value, p, loc) == Ok(Progress(p.pos + |Text(t, date, loc)|, After(t, date, p.state)))
  {
    hide DayNumber, FindName, Distinct;
    var s := Text(t, date, loc);
    var k := if t.letter == 'D' then WeekDay(DayNumber(date)) else date.month;
    SliceOf(value, p.pos, s, rest);
    NamesAreDistinct(loc, t.letter, t.doubled);
    FindsItsName(loc.Names(t.letter, t.doubled), k, value, p.pos, 0);
  }

  lemma SliceOf(value: string, pos: nat, s: string, rest: string)
    requires pos <= |value| && value[pos..] == s + rest
    ensures pos + |s| <= |value| && value[pos..pos + |s|] == s
  {
    assert value[pos..pos + |s|] == value[pos..][..|s|];
  }

  lemma NamesAreDistinct(loc: Locale, letter: char, doubled: bool)
    requires DistinctNames(loc)
    ensures Distinct(loc.Names(letter, doubled))
  {
  }

  lemma ReadsToken(t: Token, date: Civil, loc: Locale, value: string, p: Progress, rest: string)
    requires Covered(date) && loc.Valid() && DistinctNames(loc) && Usable(t, date)
    requires p.pos <= |value| && value[p.pos..] == Text(t, date, loc) + rest
    requires Bounded(t, Text(t, date, loc), rest)
    ensures ReadToken(t, value, p, loc) == Ok(Progress(p.pos + |Text(t, date, loc)|, After(t, date, p.state)))
  {
    match t {
      case Number(_, _) => ReadsNumber(t, date, loc, value, p, rest);
      case Name(_, _) => ReadsName(t, date, loc, value, p, rest);
      case Literal(c) => assert value[p.pos] == value[p.pos..][0];
    }
  }

  lemma {:induction false} ReadsBack(tokens: seq<Token>, date: Civil, loc: Locale, value: string, p: Progress)
    requires Covered(date) && loc.Valid() && DistinctNames(loc) && AllUsable(tokens, date)
    requires p.pos <= |value| && Supported(tokens)
    requires value[p.pos..] == Write(tokens, date, loc) && Readable(tokens, date, loc)
    ensures ReadAll(tokens, value, p, loc) == Ok(Progress(|value|, AfterAll(tokens, date, p.state)))
    decreases |tokens|
  {
    hide Text, ReadToken, After, DistinctNames;
    if tokens != [] {
      var s, rest := Text(tokens[0], date, loc), Write(tokens[1..], date, loc);
      ReadsToken(tokens[0], date, loc, value, p, rest);
      assert value[p.pos + |s|..] == rest;
      ReadsBack(tokens[1..], date, loc, value, Progress(p.pos + |s|, After(tokens[0], date, p.state)));
    }
  }

  // ---------- From the fields back to the date ----------

  predicate Sets(tokens: seq<Token>, f: Field) {
    exists i | 0 <= i < |tokens| :: FieldOf(tokens[i]) == Some(f)
  }

  // The format names the year and either the ordinal or both month and day.
  predicate Complete(tokens: seq<Token>) {
    Sets(tokens, Year) && (Sets(tokens, Field.Ordinal) || (Sets(tokens, Month) && Sets(tokens, Day)))
  }

  // The years of the format are all doubled, or none is.
  predicate YearsAre(tokens: seq<Token>, doubled: bool) {
    forall i | 0 <= i < |tokens| :: FieldOf(tokens[i]) == Some(Year) ==> tokens[i] == Number('y', doubled)
  }

  function FieldValue(f: Field, date: Civil, doubled: bool): nat
    requires date.Valid()
  {
    if f == Year && !doubled then date.year % 100 else ValueOf(f, date)
  }

  lemma {:induction false} AfterAllFields(tokens: seq<Token>, date: Civil, s: State, doubled: bool, f: Field)
    requires date.Valid() && YearsAre(tokens, doubled)
    ensures AfterAll(tokens, date, s).Get(f) == if Sets(tokens, f) then FieldValue(f, date, doubled) else s.Get(f)
    decreases |tokens|
  {
    hide ValueOf;
    if tokens != [] {
      AfterAllFields(tokens[1..], date, After(tokens[0], date, s), doubled, f);
      assert Sets(tokens, f) <==> FieldOf(tokens[0]) == Some(f) || Sets(tokens[1..], f);
    }
  }

  lemma SpreadOnce(year: int, month: int, day: int)
    requires !(0 <= year <= 99) && 1 <= month <= 12
    ensures SpreadOrdinal(year, month, day) ==
            if day <= MonthLength(year, month - 1) then MonthDay(month, day)
            else SpreadOrdinal(year, month + 1, day - MonthLength(year, month - 1))
  {
    DaysInMonthIsMonthLength(year, month - 1);
  }

  // The loop over the months finds the month of an ordinal, or runs past December.
  ghost predicate Found(year: int, ordinal: int, md: MonthDay) {
    && 1 <= md.month <= 12 && 1 <= md.day <= MonthLength(year, md.month - 1)
    && MonthStart(year, md.month - 1) + md.day == ordinal
  }

  // The same loop on true month lengths, stopped after December
  function Fill(year: int, month: int, day: int): MonthDay
    requires 1 <= month <= 13
    decreases 13 - month
  {
    if month == 13 || day <= MonthLength(year, month - 1) then MonthDay(month, day)
    else Fill(year, month + 1, day - MonthLength(year, month - 1))
  }

  lemma {:induction false} FillFinds(year: int, month: int, day: int)
    requires 1 <= month <= 13 && 1 <= day
    ensures var md, ordinal := Fill(year, month, day), MonthStart(year, month - 1) + day;
            if ordinal <= YearLength(year) then Found(year, ordinal, md) else md.month == 13
    decreases 13 - month
  {
    if month <= 12 {
      MonthStep(year, month - 1);
      if day > MonthLength(year, month - 1) {
        FillFinds(year, month + 1, day - MonthLength(year, month - 1));
      } else if month < 12 {
        MonthsGrow(year, month, 12);
      }
    }
  }

  lemma {:induction false} SpreadFollowsFill(year: int, month: int, day: int)
    requires !(0 <= year <= 99) && 1 <= month <= 13
    ensures var md := Fill(year, month, day);
            SpreadOrdinal(year, month, day) == SpreadOrdinal(year, md.month, md.day)
    decreases 13 - month
  {
    hide GetDaysInMonth, MonthLength;
    if month <= 12 {
      SpreadOnce(year, month, day);
      if day > MonthLength(year, month - 1) {
        SpreadFollowsFill(year, month + 1, day - MonthLength(year, month - 1));
      }
    }
  }

  lemma SpreadOrdinalFinds(year: int, ordinal: int)
    requires !(0 <= year <= 99) && 1 <= ordinal
    ensures ordinal <= YearLength(year) ==> Found(year, ordinal, SpreadOrdinal(year, 1, ordinal))
    ensures ordinal > YearLength(year) ==> SpreadOrdinal(year, 1, ordinal).month > 12
  {
    hide GetDaysInMonth, MonthLength, MonthStart, SpreadOrdinal, Fill, YearLength;
    MonthStep(year, 0);
    FillFinds(year, 1, ordinal);
    SpreadFollowsFill(year, 1, ordinal);
    var md := Fill(year, 1, ordinal);
    if md.month <= 12 {
      SpreadOnce(year, md.month, md.day);
    } else {
      MonthNeverFalls(year, 13, md.day);
    }
  }

  lemma {:induction false} MonthNeverFalls(year: int, month: int, day: int)
    ensures SpreadOrdinal(year, month, day).month >= month
    decreases day
  {
    hide GetDaysInMonth;
    MonthIsLong(year, month - 1);
    var dim := GetDaysInMonth(year, month - 1);
    if day > dim {
      MonthNeverFalls(year, month + 1, day - dim);
    }
  }

  /** For every year from 100 the ordinals of the year are accepted, each as the one date
      that has it, and every other ordinal is rejected. */
  lemma OrdinalIsChecked(year: int, doy: nat)
    requires year >= 100
    ensures var r := Checked(year, SpreadOrdinal(year, 1, doy));
            if 1 <= doy <= YearLength(year)
            then r.Ok? && r.value.Valid() && r.value.year == year && Calendar.Ordinal(r.value) == doy
            else r == Err(InvalidDate)
  {
    hide CivilOf, MakeDay, YearStart, MonthStart, SpreadOrdinal;
    if doy >= 1 {
      SpreadOrdinalFinds(year, doy);
      var md := SpreadOrdinal(year, 1, doy);
      if doy <= YearLength(year) {
        CivilRoundTrip(Civil(year, md.month - 1, md.day));
      } else {
        assert CivilOf(NewDate(year, md.month - 1, md.day)).Valid();
      }
    } else {
      MonthIsLong(year, 0);
      DayZeroSpreads(year);
      assert CivilOf(NewDate(year, 0, 0)).Valid();
    }
  }

  lemma DayZeroSpreads(year: int)
    ensures SpreadOrdinal(year, 1, 0) == MonthDay(1, 0)
  {
    hide GetDaysInMonth;
    MonthIsLong(year, 0);
  }

  lemma OrdinalIsInjective(c: Civil, d: Civil)
    requires c.Valid() && d.Valid() && c.year == d.year && Calendar.Ordinal(c) == Calendar.Ordinal(d)
    ensures c == d
  {
    if c.month < d.month { MonthsGrow(c.year, c.month, d.month); }
    if d.month < c.month { MonthsGrow(c.year, d.month, c.month); }
  }

  /** From year 100 on, the fields make a date exactly when there is that date. */
  lemma ChecksExactly(year: int, md: MonthDay)
    requires year >= 100
    ensures Checked(year, md) == var date := Civil(year, md.month - 1, md.day);
                                 if date.Valid() then Ok(date) else Err(InvalidDate)
  {
    hide CivilOf, MakeDay, MonthLength;
    var date := Civil(year, md.month - 1, md.day);
    if date.Valid() {
      CivilRoundTrip(date);
    }
    assert CivilOf(NewDate(year, md.month - 1, md.day)).Valid();
  }

  // ---------- The year ----------

  // The cutoff that matters: all two-digit years lie above -1 and none above 99.
  function Cutoff(clock: Clock): int {
    if clock.shortYearCutoff < -1 then -1 else if clock.shortYearCutoff > 99 then 99 else clock.shortYearCutoff
  }

  // The hundred years that end at the cutoff in the present century
  predicate InWindow(y: int, clock: Clock) {
    var end := clock.thisYear - clock.thisYear % 100 + Cutoff(clock);
    end - 100 < y <= end
  }

  /** Two digits give the one year of the window that ends in them. */
  lemma ShortYearIsInWindow(n: int, clock: Clock, y: int)
    requires 0 <= n < 100
    ensures FullYear(n, clock) == y <==> InWindow(y, clock) && y % 100 == n
  {
    var c, k := clock.thisYear / 100, y / 100;
    assert clock.thisYear - clock.thisYear % 100 == 100 * c;
    if y % 100 == n {
      assert y == 100 * k + n;
    }
    if FullYear(n, clock) == y {
      Quotient(y, 100, if n <= clock.shortYearCutoff then c else c - 1, n);
    }
  }

  // The year in which a date printed by these tokens is read
  predicate TakenYear(y: int, tokens: seq<Token>, date: Civil, doubled: bool, clock: Clock) {
    if !Sets(tokens, Year) then y == clock.thisYear
    else if doubled then y == date.year
    else InWindow(y, clock) && y % 100 == date.year % 100
  }

  // The format names the ordinal or both month and day.
  predicate NamesDay(tokens: seq<Token>) {
    Sets(tokens, Field.Ordinal) || (Sets(tokens, Month) && Sets(tokens, Day))
  }

  // The outcome is the day of the year y that is called as `date` is in its own year, by its
  // ordinal or by month and day, or an error if y has no such day.
  predicate SameDayOf(r: Result<Civil, Error>, y: int, date: Civil, byOrdinal: bool)
    requires date.Valid()
  {
    if byOrdinal then
      if Calendar.Ordinal(date) <= YearLength(y)
      then r.Ok? && r.value.Valid() && r.value.year == y && Calendar.Ordinal(r.value) == Calendar.Ordinal(date)
      else r == Err(InvalidDate)
    else
      r == var day := Civil(y, date.month, date.day); if day.Valid() then Ok(day) else Err(InvalidDate)
  }

  lemma FinishesInYear(date: Civil, s: State, clock: Clock)
    requires date.Valid() && FullYear(s.year, clock) >= 100
    requires s.doy == Calendar.Ordinal(date) || (s.doy == -1 && s.month == date.month + 1 && s.day == date.day)
    ensures SameDayOf(Finish(s, clock), FullYear(s.year, clock), date, s.doy != -1)
  {
    hide Checked, SpreadOrdinal, MonthStart, MonthLength, FullYear, YearLength;
    var y := FullYear(s.year, clock);
    OrdinalBounds(date);
    if s.doy == -1 {
      ChecksExactly(y, MonthDay(s.month, s.day));
    } else {
      OrdinalIsChecked(y, s.doy);
    }
  }

  lemma TakesYear(tokens: seq<Token>, date: Civil, doubled: bool, clock: Clock, s: State, y: int)
    requires Covered(date) && TakenYear(y, tokens, date, doubled, clock)
    requires s.year == if Sets(tokens, Year) then FieldValue(Year, date, doubled) else -1
    ensures FullYear(s.year, clock) == y
  {
    if Sets(tokens, Year) && !doubled {
      ShortYearIsInWindow(s.year, clock, y);
    }
  }

  /** Reading what was printed, for every format that names a day and prints no number narrower
      than the parser would read right before a digit: the day comes back in the year of the
      clock if the format has no year, in the year of the window with the same last two digits
      if it has two of them, and in its own year if it has all. */
  lemma ParseInTakenYear(tokens: seq<Token>, date: Civil, loc: Locale, clock: Clock, doubled: bool, y: int)
    requires Covered(date) && loc.Valid() && DistinctNames(loc) && AllUsable(tokens, date) && Supported(tokens)
    requires YearsAre(tokens, doubled) && NamesDay(tokens) && Readable(tokens, date, loc)
    requires TakenYear(y, tokens, date, doubled, clock) && y >= 100
    ensures SameDayOf(Parse(tokens, Write(tokens, date, loc), loc, clock), y, date, Sets(tokens, Field.Ordinal))
  {
    hide Finish, Readable, Write, ReadAll, DistinctNames, AfterAll, FullYear, Sets, SameDayOf;
    hide TakenYear, YearsAre, AllUsable;
    var value := Write(tokens, date, loc);
    assert value[0..] == value;
    ReadsBack(tokens, date, loc, value, Progress(0, UNSET));
    var s := AfterAll(tokens, date, UNSET);
    AfterAllFields(tokens, date, UNSET, doubled, Year);
    AfterAllFields(tokens, date, UNSET, doubled, Month);
    AfterAllFields(tokens, date, UNSET, doubled, Day);
    AfterAllFields(tokens, date, UNSET, doubled, Field.Ordinal);
    TakesYear(tokens, date, doubled, clock, s, y);
    FinishesInYear(date, s, clock);
  }

  lemma SameDayOfOwnYear(r: Result<Civil, Error>, date: Civil, byOrdinal: bool)
    requires date.Valid() && SameDayOf(r, date.year, date, byOrdinal)
    ensures r == Ok(date)
  {
    OrdinalBounds(date);
    if byOrdinal {
      OrdinalIsInjective(r.value, date);
    }
  }

  lemma FaithfulIsUsable(tokens: seq<Token>, date: Civil)
    requires AllFaithful(tokens)
    ensures AllUsable(tokens, date) && YearsAre(tokens, true) && Supported(tokens)
  {
  }

  /** Reading what was printed gives the date back, for every format that names a whole date
      and prints no number narrower than the parser would read right before a digit. */
  lemma ParseOfWrite(tokens: seq<Token>, date: Civil, loc: Locale, clock: Clock)
    requires Covered(date) && loc.Valid() && DistinctNames(loc) && AllFaithful(tokens)
    requires Complete(tokens) && Readable(tokens, date, loc)
    ensures Parse(tokens, Write(tokens, date, loc), loc, clock) == Ok(date)
  {
    hide Parse, Readable, Write, DistinctNames, SameDayOf, AllFaithful, AllUsable, YearsAre, Supported;
    FaithfulIsUsable(tokens, date);
    ParseInTakenYear(tokens, date, loc, clock, true, date.year);
    SameDayOfOwnYear(Parse(tokens, Write(tokens, date, loc), loc, clock), date, Sets(tokens, Field.Ordinal));
  }

  /** With a two-digit year the date comes back exactly when its year lies in the window. */
  lemma ShortYearRoundTrip(tokens: seq<Token>, date: Civil, loc: Locale, clock: Clock)
    requires Covered(date) && clock.thisYear >= 200
    requires loc.Valid() && DistinctNames(loc) && AllUsable(tokens, date) && Supported(tokens)
    requires Complete(tokens) && YearsAre(tokens, false) && Readable(tokens, date, loc)
    ensures Parse(tokens, Write(tokens, date, loc), loc, clock) == Ok(date) <==> InWindow(date.year, clock)
  {
    hide Parse, Readable, Write, DistinctNames, FullYear, AllUsable, YearsAre, Supported, YearLength, InWindow;
    var y := FullYear(date.year % 100, clock);
    ShortYearIsInWindow(date.year % 100, clock, y);
    ShortYearIsInWindow(date.year % 100, clock, date.year);
    assert y >= 100 by {
      WindowIsLate(y, clock);
    }
    ParseInTakenYear(tokens, date, loc, clock, false, y);
    var r := Parse(tokens, Write(tokens, date, loc), loc, clock);
    if y == date.year {
      SameDayOfOwnYear(r, date, Sets(tokens, Field.Ordinal));
    }
  }

  lemma WindowIsLate(y: int, clock: Clock)
    requires InWindow(y, clock) && clock.thisYear >= 200
    ensures y >= 100
  {
  }

  // ---------- Formats that are readable for every date ----------

  // What follows can not begin with a digit.
  predicate NoDigitNext(tokens: seq<Token>, loc: Locale)
    requires loc.Valid()
  {
    tokens != [] ==>
      match tokens[0]
      case Literal(c) => !Decimal.IsDigit(c)
      case Name(letter, doubled) =>
        forall name <- loc.Names(letter, doubled) :: name != "" && !Decimal.IsDigit(name[0])
      case _ => false
  }

  predicate Separated(tokens: seq<Token>, loc: Locale)
    requires loc.Valid()
  {
    tokens == [] ||
    ((tokens[0].Number? ==>
        (tokens[0].doubled && tokens[0].letter != 'y') || NoDigitNext(tokens[1..], loc)) &&
     Separated(tokens[1..], loc))
  }

  lemma FirstOfText(t: Token, date: Civil, loc: Locale)
    requires date.Valid() && loc.Valid() && NoDigitNext([t], loc)
    ensures !t.Stamp? && Text(t, date, loc) != "" && !Decimal.IsDigit(Text(t, date, loc)[0])
  {
    if t.Name? {
      assert Text(t, date, loc) in loc.Names(t.letter, t.doubled);
    }
  }

  lemma {:induction false} SeparatedIsReadable(tokens: seq<Token>, date: Civil, loc: Locale)
    requires Covered(date) && loc.Valid() && AllFaithful(tokens) && Separated(tokens, loc)
    ensures Readable(tokens, date, loc)
    decreases |tokens|
  {
    if tokens != [] {
      SeparatedIsReadable(tokens[1..], date, loc);
      var t := tokens[0];
      if t.Number? {
        NumberText(t, date, loc);
        if NoDigitNext(tokens[1..], loc) && tokens[1..] != [] {
          FirstOfText(tokens[1], date, loc);
        }
      }
    }
  }

  /** For such a format the round trip holds for every date of the years 100 to 9999. */
  lemma SeparatedFormatsRoundTrip(format: string, date: Civil, loc: Locale, clock: Clock)
    requires Covered(date) && loc.Valid() && DistinctNames(loc)
    requires var tokens := Tokens(format, false);
             AllFaithful(tokens) && Complete(tokens) && Separated(tokens, loc)
    ensures var tokens := Tokens(format, false);
            Parse(tokens, Write(tokens, date, loc), loc, clock) == Ok(date)
  {
    var tokens := Tokens(format, false);
    SeparatedIsReadable(tokens, date, loc);
    ParseOfWrite(tokens, date, loc, clock);
  }

  const ATOM := [Number('y', true), Literal('-'), Number('m', true), Literal('-'), Number('d', true)]

  lemma AtomTokens()
    ensures Tokens("yy-mm-dd", false) == ATOM
  {
    var f := "yy-mm-dd";
    var f2, f3, f5, f6 := f[2..], f[3..], f[5..], f[6..];
    assert f2[1..] == f3 && f3[2..] == f5 && f5[1..] == f6 && f6[2..] == "";
    assert f[0] == 'y' && f[1] == 'y' && f2[0] == '-' && f3[0] == 'm' && f3[1] == 'm';
    assert f5[0] == '-' && f6[0] == 'd' && f6[1] == 'd';
    assert Tokens(f6, false) == [Number('d', true)] + Tokens("", false);
    assert Tokens(f5, false) == [Literal('-')] + Tokens(f6, false);
    assert Tokens(f3, false) == [Number('m', true)] + Tokens(f5, false);
    assert Tokens(f2, false) == [Literal('-')] + Tokens(f3, false);
    assert Tokens(f, false) == [Number('y', true)] + Tokens(f2, false);
  }

  /** So it does for the standard format of dates, in every language. */
  lemma AtomFormatRoundTrips(date: Civil, loc: Locale, clock: Clock)
    requires Covered(date) && loc.Valid() && DistinctNames(loc)
    ensures Tokens("yy-mm-dd", false) == ATOM && Parse(ATOM, Write(ATOM, date, loc), loc, clock) == Ok(date)
  {
    hide Tokens, Parse, Write, DistinctNames;
    AtomTokens();
    assert Complete(ATOM) by {
      assert FieldOf(ATOM[0]) == Some(Year) && FieldOf(ATOM[2]) == Some(Month) && FieldOf(ATOM[4]) == Some(Day);
    }
    var t4 := [Number('d', true)];
    var t3 := [Literal('-')] + t4;
    var t2 := [Number('m', true)] + t3;
    var t1 := [Literal('-')] + t2;
    assert t4[1..] == [] && t3[1..] == t4 && t2[1..] == t3 && t1[1..] == t2 && ATOM[1..] == t1;
    assert Separated(t3, loc) by { assert Separated(t4, loc); }
    assert Separated(t1, loc) by { assert Separated(t2, loc); }
    assert NoDigitNext(t1, loc) by { assert t1[0] == Literal('-'); }
    SeparatedFormatsRoundTrip("yy-mm-dd", date, loc, clock);
  }

  // ---------- The exact condition ----------

  // No field is set twice, and the ordinal is not mixed with month and day.
  predicate Once(tokens: seq<Token>) {
    forall i, j | 0 <= i < j < |tokens| && FieldOf(tokens[i]).Some? :: FieldOf(tokens[i]) != FieldOf(tokens[j])
  }

  predicate Plain(tokens: seq<Token>) {
    Complete(tokens) && Once(tokens) &&
    (Sets(tokens, Field.Ordinal) ==> !Sets(tokens, Month) && !Sets(tokens, Day))
  }

  lemma {:induction false} OtherFieldsStay(tokens: seq<Token>, value: string, p: Progress, loc: Locale, f: Field)
    requires loc.Valid() && Supported(tokens) && p.pos <= |value| && !Sets(tokens, f)
    ensures var r := ReadAll(tokens, value, p, loc); r.Ok? ==> r.value.state.Get(f) == p.state.Get(f)
    decreases |tokens|
  {
    if tokens != [] {
      assert FieldOf(tokens[0]) != Some(f);
      match ReadToken(tokens[0], value, p, loc)
      case Err(_) =>
      case Ok(q) => OtherFieldsStay(tokens[1..], value, q, loc, f);
    }
  }

  lemma SwallowsDigit(t: Token, date: Civil, loc: Locale, value: string, p: Progress, rest: string)
    requires Covered(date) && loc.Valid() && Faithful(t) && !Bounded(t, Text(t, date, loc), rest)
    requires p.pos <= |value| && value[p.pos..] == Text(t, date, loc) + rest
    ensures var r := ReadToken(t, value, p, loc); var f := FieldOf(t).value;
            r.Ok? && r.value.state.Get(f) > ValueOf(f, date)
  {
    var s, size := Text(t, date, loc), Size(t.letter, t.doubled);
    NumberText(t, date, loc);
    RunOfDigits(s, rest, size);
    var n := Run(value[p.pos..], size);
    assert value[p.pos..][..n] == s + rest[..n - |s|];
    Decimal.ReadGrows(s, rest[..n - |s|]);
  }

  lemma {:induction false} Misreads(tokens: seq<Token>, date: Civil, loc: Locale, value: string, p: Progress)
    returns (f: Field)
    requires Covered(date) && loc.Valid() && DistinctNames(loc) && AllFaithful(tokens) && Once(tokens)
    requires p.pos <= |value| && value[p.pos..] == Write(tokens, date, loc) && !Readable(tokens, date, loc)
    ensures Sets(tokens, f)
    ensures var r := ReadAll(tokens, value, p, loc); r.Ok? ==> r.value.state.Get(f) > ValueOf(f, date)
    decreases |tokens|
  {
    hide Text, ReadToken, After, DistinctNames;
    var t, more := tokens[0], tokens[1..];
    var s, rest := Text(t, date, loc), Write(more, date, loc);
    if Bounded(t, s, rest) {
      ReadsToken(t, date, loc, value, p, rest);
      assert value[p.pos + |s|..] == rest;
      OnceShrinks(tokens);
      f := Misreads(more, date, loc, value, Progress(p.pos + |s|, After(t, date, p.state)));
      assert Sets(tokens, f) by {
        var i :| 0 <= i < |more| && FieldOf(more[i]) == Some(f);
        assert FieldOf(tokens[i + 1]) == Some(f);
      }
    } else {
      f := FieldOf(t).value;
      SwallowsDigit(t, date, loc, value, p, rest);
      OnceShrinks(tokens);
      OtherFieldsStay(more, value, ReadToken(t, value, p, loc).value, loc, f);
    }
  }

  lemma OnceShrinks(tokens: seq<Token>)
    requires Once(tokens) && tokens != []
    ensures Once(tokens[1..]) && (FieldOf(tokens[0]).Some? ==> !Sets(tokens[1..], FieldOf(tokens[0]).value))
  {
    forall i, j | 0 <= i < j < |tokens[1..]| && FieldOf(tokens[1..][i]).Some?
      ensures FieldOf(tokens[1..][i]) != FieldOf(tokens[1..][j])
    {
      assert FieldOf(tokens[i + 1]) != FieldOf(tokens[j + 1]);
    }
  }

  lemma WrongFieldIsNotDate(date: Civil, s: State, clock: Clock, f: Field)
    requires Covered(date) && s.Get(f) > ValueOf(f, date)
    requires f == Month || f == Day ==> s.doy == -1
    ensures Finish(s, clock) != Ok(date)
  {
    if f == Field.Ordinal && FullYear(s.year, clock) == date.year {
      OrdinalIsChecked(date.year, s.doy);
    }
  }

  /** For a format that sets each field of the date once, the round trip holds exactly when no
      number is printed narrower than the parser would read right before a digit. */
  lemma RoundTripExactlyWhenReadable(tokens: seq<Token>, date: Civil, loc: Locale, clock: Clock)
    requires Covered(date) && loc.Valid() && DistinctNames(loc) && AllFaithful(tokens) && Plain(tokens)
    ensures Parse(tokens, Write(tokens, date, loc), loc, clock) == Ok(date) <==> Readable(tokens, date, loc)
  {
    hide Finish, Readable, Write, ReadAll, DistinctNames;
    if Readable(tokens, date, loc) {
      ParseOfWrite(tokens, date, loc, clock);
    } else {
      var value := Write(tokens, date, loc);
      assert value[0..] == value;
      var f := Misreads(tokens, date, loc, value, Progress(0, UNSET));
      match ReadAll(tokens, value, Progress(0, UNSET), loc)
      case Err(_) =>
      case Ok(p) =>
        if f == Month || f == Day {
          OtherFieldsStay(tokens, value, Progress(0, UNSET), loc, Field.Ordinal);
        }
        WrongFieldIsNotDate(date, p.state, clock, f);
    }
  }

  /** The condition can fail: printed without padding, 5 February 2011 is `5201102`, and the
      day is read back as 52. */
  lemma UnpaddedDayIsMisread(loc: Locale, clock: Clock)
    requires loc.Valid() && DistinctNames(loc)
    ensures var tokens := [Number('d', false), Number('y', true), Number('m', true)];
            var date := Civil(2011, 1, 5);
            Complete(tokens) && Parse(tokens, Write(tokens, date, loc), loc, clock) != Ok(date)
  {
    var tokens := [Number('d', false), Number('y', true), Number('m', true)];
    var date := Civil(2011, 1, 5);
    assert FieldOf(tokens[0]) == Some(Day) && FieldOf(tokens[1]) == Some(Year) && FieldOf(tokens[2]) == Some(Month);
    var rest := Write(tokens[1..], date, loc);
    NumberText(tokens[1], date, loc);
    assert rest[0] == Text(tokens[1], date, loc)[0];
    Decimal.PrintWidth(5);
    assert !Readable(tokens, date, loc);
    RoundTripExactlyWhenReadable(tokens, date, loc, clock);
  }
}
