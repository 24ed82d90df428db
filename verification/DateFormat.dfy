/** What the date picker's printer and parser compute, token by token. */
module DateFormat {
  import opened Wrappers
  import opened Calendar
  import Decimal

  // `Stamp` stands for the two tick counts, which need a time of day and are not modelled.
  datatype Token =
    | Number(letter: char, doubled: bool)
    | Name(letter: char, doubled: bool)
    | Literal(c: char)
    | Stamp(letter: char)

  datatype Locale = Locale(dayShort: seq<string>, dayLong: seq<string>,
                           monthShort: seq<string>, monthLong: seq<string>)
  {
    predicate Valid() {
      |dayShort| == |dayLong| == 7 && |monthShort| == |monthLong| == 12
    }

    function Names(letter: char, doubled: bool): seq<string> {
      if letter == 'D' then (if doubled then dayLong else dayShort)
      else (if doubled then monthLong else monthShort)
    }
  }

  // ---------- Splitting a format ----------

  // Is the format character at the head doubled?
  predicate LookAhead(format: string, c: char) {
    |format| > 1 && format[1] == c
  }

  function Tokens(format: string, literal: bool): seq<Token> {
    if format == "" then [] else
      var c := format[0];
      var doubled := LookAhead(format, c);
      var rest := if doubled then format[2..] else format[1..];
      if c == '\'' then
        if doubled then [Literal(c)] + Tokens(rest, literal) else Tokens(rest, !literal)
      else if literal then [Literal(c)] + Tokens(format[1..], true)
      else if c in "domy" then [Number(c, doubled)] + Tokens(rest, false)
      else if c in "DM" then [Name(c, doubled)] + Tokens(rest, false)
      else if c in "@!" then [Stamp(c)] + Tokens(format[1..], false)
      else [Literal(c)] + Tokens(format[1..], false)
  }

  function Literals(s: string): (tokens: seq<Token>)
    ensures |tokens| == |s|
  {
    seq(|s|, i requires 0 <= i < |s| => Literal(s[i]))
  }

  /** Text between quotes stands for itself, and two quotes for one, in either mode. */
  lemma QuotedTextIsLiteral(s: string, rest: string, literal: bool)
    requires s != "" && '\'' !in s && (rest != "" ==> rest[0] != '\'')
    ensures Tokens("'" + s + "'" + rest, false) == Literals(s) + Tokens(rest, false)
    ensures Tokens("''" + rest, literal) == [Literal('\'')] + Tokens(rest, literal)
  {
    hide Literals;
    var inside := s + "'" + rest;
    var format := "'" + s + "'" + rest;
    assert format[1..] == inside && format[1] == s[0];
    InsideQuotes(s, rest);
    var quotes := "''" + rest;
    assert quotes[0] == quotes[1] == '\'' && quotes[2..] == rest;
  }

  lemma {:induction false} InsideQuotes(s: string, rest: string)
    requires '\'' !in s && (rest != "" ==> rest[0] != '\'')
    ensures Tokens(s + "'" + rest, true) == Literals(s) + Tokens(rest, false)
    decreases |s|
  {
    var format := s + "'" + rest;
    if s == "" {
      assert format[1..] == rest && format[0] == '\'';
    } else {
      assert format[1..] == s[1..] + "'" + rest && format[0] == s[0];
      InsideQuotes(s[1..], rest);
      assert Literals(s) == [Literal(s[0])] + Literals(s[1..]);
    }
  }

  predicate Supported(tokens: seq<Token>) {
    forall i | 0 <= i < |tokens| :: !tokens[i].Stamp?
  }

  // ---------- Printing ----------

  function Padded(n: int, doubled: bool, len: nat): string {
    var num := Decimal.PrintInt(n);
    if doubled && |num| < len then Decimal.Zeros(len - |num|) + num else num
  }

  // JavaScript's remainder takes the sign of its first operand.
  function Rem100(n: int): int {
    if n < 0 then -(-n % 100) else n % 100
  }

  function ShortYear(y: int): string {
    var r := Rem100(y - 1900);
    (if r < 10 then "0" else "") + Decimal.PrintInt(r)
  }

  // Days since the 0th of January of the year, as the Date constructor understands that year
  function DayOfYear(date: Civil): int {
    DayNumber(date) - NewDate(date.year, 0, 0)
  }

  function Text(t: Token, date: Civil, loc: Locale): string
    requires date.Valid() && loc.Valid() && !t.Stamp?
  {
    match t
    case Literal(c) => [c]
    case Name(letter, doubled) =>
      assert 0 <= date.month < 12;
      loc.Names(letter, doubled)[if letter == 'D' then WeekDay(DayNumber(date)) else date.month]
    case Number(letter, doubled) =>
      if letter == 'd' then Padded(date.day, doubled, 2)
      else if letter == 'o' then Padded(DayOfYear(date), doubled, 3)
      else if letter == 'm' then Padded(date.month + 1, doubled, 2)
      else if doubled then Decimal.PrintInt(date.year) else ShortYear(date.year)
  }

  function Write(tokens: seq<Token>, date: Civil, loc: Locale): string
    requires date.Valid() && loc.Valid() && Supported(tokens)
  {
    if tokens == [] then "" else Text(tokens[0], date, loc) + Write(tokens[1..], date, loc)
  }

  // ---------- Parsing ----------

  datatype Field = Year | Month | Day | Ordinal

  datatype State = State(year: int, month: int, day: int, doy: int)
  {
    function Get(f: Field): int {
      match f
      case Year => year
      case Month => month
      case Day => day
      case Ordinal => doy
    }

    function Set(f: Field, n: int): State {
      match f
      case Year => this.(year := n)
      case Month => this.(month := n)
      case Day => this.(day := n)
      case Ordinal => this.(doy := n)
    }
  }

  const UNSET := State(-1, -1, -1, -1)

  datatype Error =
    | MissingNumber(pos: nat)
    | UnknownName(pos: nat)
    | UnexpectedLiteral(pos: nat)
    | InvalidDate

  // The field a token sets; a day name is read and dropped
  function FieldOf(t: Token): Option<Field> {
    match t
    case Number(letter, _) =>
      Some(if letter == 'd' then Day else if letter == 'o' then Ordinal else if letter == 'm' then Month else Year)
    case Name(letter, _) => if letter == 'D' then None else Some(Month)
    case _ => None
  }

  function Size(letter: char, doubled: bool): nat {
    if letter == 'y' && doubled then 4 else if letter == 'o' then 3 else 2
  }

  // The length of the match of ^\d{1,size}, 0 when there is none
  function Run(s: string, size: nat): (n: nat)
    ensures n <= size && n <= |s| && Decimal.AllDigits(s[..n])
  {
    if size == 0 || s == "" || !Decimal.IsDigit(s[0]) then 0 else
      var n := 1 + Run(s[1..], size - 1);
      assert s[..n] == [s[0]] + s[1..][..n - 1];
      n
  }

  function LowerCase(c: char): char {
    if 'A' <= c <= 'Z' then ((c as int) + 32) as char else c
  }

  predicate NameAt(name: string, value: string, pos: nat) {
    pos + |name| <= |value| && forall j | 0 <= j < |name| :: LowerCase(value[pos + j]) == LowerCase(name[j])
  }

  // The first name of the list that the value continues with, from index i on
  function FindName(names: seq<string>, value: string, pos: nat, i: nat): (r: Option<nat>)
    requires i <= |names|
    ensures r.Some? ==> i <= r.value < |names| && NameAt(names[r.value], value, pos)
    decreases |names| - i
  {
    if i == |names| then None
    else if NameAt(names[i], value, pos) then Some(i)
    else FindName(names, value, pos, i + 1)
  }

  datatype Progress = Progress(pos: nat, state: State)

  function ReadToken(t: Token, value: string, p: Progress, loc: Locale): (r: Result<Progress, Error>)
    requires loc.Valid() && !t.Stamp? && p.pos <= |value|
    ensures r.Ok? ==> r.value.pos <= |value|
  {
    match t
    case Number(letter, doubled) =>
      var n := Run(value[p.pos..], Size(letter, doubled));
      if n == 0 then Err(MissingNumber(p.pos)) else
        Ok(Progress(p.pos + n, p.state.Set(FieldOf(t).value, Decimal.Read(value[p.pos..][..n]))))
    case Name(letter, doubled) =>
      var names := loc.Names(letter, doubled);
      (match FindName(names, value, p.pos, 0)
       case None => Err(UnknownName(p.pos))
       case Some(i) =>
         Ok(Progress(p.pos + |names[i]|, if letter == 'D' then p.state else p.state.Set(Month, i + 1))))
    case Literal(c) =>
      if p.pos < |value| && value[p.pos] == c then Ok(Progress(p.pos + 1, p.state)) else Err(UnexpectedLiteral(p.pos))
  }

  function ReadAll(tokens: seq<Token>, value: string, p: Progress, loc: Locale): (r: Result<Progress, Error>)
    requires loc.Valid() && Supported(tokens) && p.pos <= |value|
    ensures r.Ok? ==> r.value.pos <= |value|
  {
    if tokens == [] then Ok(p) else
      match ReadToken(tokens[0], value, p, loc)
      case Err(e) => Err(e)
      case Ok(q) => ReadAll(tokens[1..], value, q, loc)
  }

  // ---------- From the fields to a date ----------

  // The two settings the parser takes from its surroundings
  datatype Clock = Clock(thisYear: nat, shortYearCutoff: int)

  function FullYear(year: int, clock: Clock): int {
    if year == -1 then clock.thisYear
    else if year < 100 then
      year + clock.thisYear - clock.thisYear % 100 + if year <= clock.shortYearCutoff then 0 else -100
    else year
  }

  datatype MonthDay = MonthDay(month: int, day: int)

  // The loop that turns an ordinal into a month (from 1) and a day
  function SpreadOrdinal(year: int, month: int, day: int): MonthDay
    decreases day
  {
    var dim := GetDaysInMonth(year, month - 1);
    MonthIsLong(year, month - 1);
    if day <= dim then MonthDay(month, day) else SpreadOrdinal(year, month + 1, day - dim)
  }

  lemma MonthIsLong(y: int, m: int)
    ensures GetDaysInMonth(y, m) >= 1
  {
    var c := CivilOf(NewDate(y, m, 32));
    assert c.Valid();
  }

  // The date that the constructor makes of the fields, if it keeps all three
  function Checked(year: int, md: MonthDay): Result<Civil, Error> {
    var date := CivilOf(NewDate(year, md.month - 1, md.day));
    if date.year != year || date.month + 1 != md.month || date.day != md.day then Err(InvalidDate) else Ok(date)
  }

  function Finish(s: State, clock: Clock): Result<Civil, Error> {
    var year := FullYear(s.year, clock);
    Checked(year, if s.doy > -1 then SpreadOrdinal(year, 1, s.doy) else MonthDay(s.month, s.day))
  }

  function Parse(tokens: seq<Token>, value: string, loc: Locale, clock: Clock): Result<Civil, Error>
    requires loc.Valid() && Supported(tokens)
  {
    match ReadAll(tokens, value, Progress(0, UNSET), loc)
    case Err(e) => Err(e)
    case Ok(p) => Finish(p.state, clock)
  }
}
