/** The date picker's printer and parser as they run: two cursors, one over the format and
    one over the text, moved by small closures. Each is proved to compute the token-wise
    functions of DateFormat. */
module DatePicker {
  import opened Wrappers
  import opened Calendar
  import opened DateFormat
  import Decimal
  import DateRoundTrip

  // formatDate. Without a date the source returns an empty string before it gets here.
  class Printer {
    const format: string
    var iFormat: nat
    var output: string
    var literal: bool

    constructor (format: string)
      ensures this.format == format && iFormat == 0 && output == "" && !literal
    {
      this.format := format;
      iFormat, output, literal := 0, "", false;
    }

    // Is the character at the cursor followed by the same one? If so the cursor moves to it.
    method LookAheadAt(c: char) returns (matches: bool)
      requires iFormat < |format|
      modifies this`iFormat
      ensures matches == LookAhead(format[old(iFormat)..], c)
      ensures iFormat == old(iFormat) + if matches then 1 else 0
    {
      matches := iFormat + 1 < |format| && format[iFormat + 1] == c;
      if matches {
        iFormat := iFormat + 1;
      }
    }

    // A number, padded if its letter is doubled
    method FormatNumber(c: char, value: int, len: nat) returns (num: string)
      requires iFormat < |format|
      modifies this`iFormat
      ensures iFormat == old(iFormat) + if LookAhead(format[old(iFormat)..], c) then 1 else 0
      ensures num == Padded(value, LookAhead(format[old(iFormat)..], c), len)
    {
      num := Decimal.PrintInt(value);
      var doubled := LookAheadAt(c);
      if doubled {
        ghost var digits, k := num, 0;
        while |num| < len
          invariant num == Decimal.Zeros(k) + digits && (k == 0 || |num| <= len)
        {
          num := "0" + num;
          k := k + 1;
        }
      }
    }

    // The cases of the switch that print a part of the date
    method PrintField(date: Civil, loc: Locale)
      requires date.Valid() && loc.Valid() && iFormat < |format| && format[iFormat] in "domyDM"
      modifies this`iFormat, this`output
      ensures var c := format[old(iFormat)]; var doubled := LookAhead(format[old(iFormat)..], c);
              && iFormat == old(iFormat) + (if doubled then 1 else 0)
              && output == old(output) + Text(LetterToken(c, doubled), date, loc)
    {
      match format[iFormat] {
        case 'd' =>
          var num := FormatNumber('d', date.day, 2);
          output := output + num;
        case 'D' =>
          var doubled := LookAheadAt('D');
          output := output + (if doubled then loc.dayLong else loc.dayShort)[WeekDay(DayNumber(date))];
        case 'o' =>
          var num := FormatNumber('o', DayOfYear(date), 3);
          output := output + num;
        case 'm' =>
          var num := FormatNumber('m', date.month + 1, 2);
          output := output + num;
        case 'M' =>
          var doubled := LookAheadAt('M');
          output := output + (if doubled then loc.monthLong else loc.monthShort)[date.month];
        case 'y' =>
          var doubled := LookAheadAt('y');
          output := output + if doubled then Decimal.PrintInt(date.year) else ShortYear(date.year);
      }
    }

    // What is left of the format, in the current mode
    ghost function Left(): seq<Token>
      requires iFormat <= |format|
      reads this
    {
      Tokens(format[iFormat..], literal)
    }

    // A literal character, or a quote that switches the mode
    method PrintLiteral()
      requires iFormat < |format|
      modifies this`iFormat, this`output, this`literal
      ensures var c := format[old(iFormat)]; var doubled := LookAhead(format[old(iFormat)..], c);
              if c == '\'' && !doubled then
                iFormat == old(iFormat) && output == old(output) && literal == !old(literal)
              else
                && iFormat == old(iFormat) + (if c == '\'' then 1 else 0)
                && output == old(output) + [c] && literal == old(literal)
    {
      var c := format[iFormat];
      if c == '\'' {
        var doubled := LookAheadAt('\'');
        if doubled {
          output := output + ['\''];
        } else {
          literal := !literal;
        }
      } else {
        output := output + [c];
      }
    }

    // The body of the loop
    method PrintTurn(date: Civil, loc: Locale)
      requires date.Valid() && loc.Valid() && iFormat < |format|
      requires var token := FirstStep(format[iFormat..], literal).token; token.Some? ==> !token.value.Stamp?
      modifies this`iFormat, this`output, this`literal
      ensures var step := FirstStep(format[old(iFormat)..], old(literal));
              && iFormat == old(iFormat) + step.width && literal == step.literal
              && output == old(output) + if step.token.Some? then Text(step.token.value, date, loc) else ""
    {
      hide Text;
      ghost var step := FirstStep(format[iFormat..], literal);
      if !literal && format[iFormat] in "domyDM" {
        PrintField(date, loc);
      } else {
        ghost var c := format[iFormat];
        PrintLiteral();
        LiteralText(c, date, loc);
      }
      iFormat := iFormat + 1;
    }

    method FormatDate(date: Civil, loc: Locale) returns (text: string)
      requires iFormat == 0 && output == "" && !literal
      requires date.Valid() && loc.Valid() && Supported(Tokens(format, false))
      modifies this
      ensures text == Write(Tokens(format, false), date, loc)
    {
      hide FirstStep, Text;
      ghost var tokens := Tokens(format, false);
      assert format[0..] == format;
      while iFormat < |format|
        invariant iFormat <= |format| && Supported(Left())
        invariant output + Write(Left(), date, loc) == Write(tokens, date, loc)
        decreases |format| - iFormat
      {
        hide Tokens, Write, Supported;
        ghost var here, mode := format[iFormat..], literal;
        TokensStep(here, mode);
        ghost var step := FirstStep(here, mode);
        TurnIsSupported(step, Left());
        WriteStep(output, step, Tokens(here[step.width..], step.literal), date, loc);
        PrintTurn(date, loc);
        assert here[step.width..] == format[iFormat..];
      }
      text := output;
    }
  }

  // parseDate. A blank text gives no date before the parser gets here.
  class Reader {
    const format: string
    const value: string
    var iFormat: nat
    var iValue: nat
    var literal: bool
    var year: int
    var month: int
    var day: int
    var doy: int

    constructor (format: string, value: string)
      ensures this.format == format && this.value == value && Fresh()
    {
      this.format, this.value := format, value;
      iFormat, iValue, literal := 0, 0, false;
      year, month, day, doy := -1, -1, -1, -1;
    }

    ghost predicate Fresh()
      reads this
    {
      iFormat == 0 && iValue == 0 && !literal && Fields() == UNSET
    }

    ghost function Fields(): State
      reads this
    {
      State(year, month, day, doy)
    }

    ghost function Where(): Progress
      reads this
    {
      Progress(iValue, Fields())
    }

    ghost function Left(): seq<Token>
      requires iFormat <= |format|
      reads this
    {
      Tokens(format[iFormat..], literal)
    }

    method LookAheadAt(c: char) returns (matches: bool)
      requires iFormat < |format|
      modifies this`iFormat
      ensures matches == LookAhead(format[old(iFormat)..], c)
      ensures iFormat == old(iFormat) + if matches then 1 else 0
    {
      matches := iFormat + 1 < |format| && format[iFormat + 1] == c;
      if matches {
        iFormat := iFormat + 1;
      }
    }

    // Extract a number from the text; the outcome is the parsed number or an error
    method GetNumber(c: char) returns (r: Result<nat, Error>)
      requires iFormat < |format| && iValue <= |value|
      modifies this`iFormat, this`iValue
      ensures var doubled := LookAhead(format[old(iFormat)..], c);
              var n := Run(value[old(iValue)..], Size(c, doubled));
              && iFormat == old(iFormat) + (if doubled then 1 else 0)
              && iValue == old(iValue) + n <= |value|
              && r == if n == 0 then Err(MissingNumber(old(iValue)))
                      else Ok(Decimal.Read(value[old(iValue)..][..n]))
    {
      var doubled := LookAheadAt(c);
      var n := Run(value[iValue..], Size(c, doubled));
      if n == 0 {
        return Err(MissingNumber(iValue));
      }
      r := Ok(Decimal.Read(value[iValue..][..n]));
      iValue := iValue + n;
    }

    // Extract a name from the text and convert it to a number from 1
    method GetName(c: char, shortNames: seq<string>, longNames: seq<string>) returns (r: Result<nat, Error>)
      requires iFormat < |format| && iValue <= |value|
      modifies this`iFormat, this`iValue
      ensures var doubled := LookAhead(format[old(iFormat)..], c);
              var names := if doubled then longNames else shortNames;
              var found := FindName(names, value, old(iValue), 0);
              && iFormat == old(iFormat) + (if doubled then 1 else 0)
              && (found.None? ==> r == Err(UnknownName(old(iValue))) && iValue == old(iValue))
              && (found.Some? ==>
                    r == Ok(found.value + 1) && iValue == old(iValue) + |names[found.value]| <= |value|)
    {
      var doubled := LookAheadAt(c);
      var names := if doubled then longNames else shortNames;
      for i := 0 to |names|
        invariant iValue == old(iValue)
        invariant FindName(names, value, iValue, 0) == FindName(names, value, iValue, i)
      {
        if NameAt(names[i], value, iValue) {
          iValue := iValue + |names[i]|;
          return Ok(i + 1);
        }
      }
      r := Err(UnknownName(iValue));
    }

    // Confirm that a literal character matches the text
    method CheckLiteral() returns (r: Result<(), Error>)
      requires iFormat < |format| && iValue <= |value|
      modifies this`iValue
      ensures var good := old(iValue) < |value| && value[old(iValue)] == format[iFormat];
              && r == (if good then Ok(()) else Err(UnexpectedLiteral(old(iValue))))
              && iValue == old(iValue) + (if good then 1 else 0)
    {
      if iValue >= |value| || value[iValue] != format[iFormat] {
        return Err(UnexpectedLiteral(iValue));
      }
      iValue := iValue + 1;
      r := Ok(());
    }

    // The cases of the switch that read a part of a date
    method ReadField(loc: Locale) returns (failed: Option<Error>)
      requires loc.Valid() && iFormat < |format| && iValue <= |value| && format[iFormat] in "domyDM"
      modifies this
      ensures iValue <= |value| && literal == old(literal)
      ensures var c := format[old(iFormat)]; var doubled := LookAhead(format[old(iFormat)..], c);
              var after := ReadToken(LetterToken(c, doubled), value, old(Where()), loc);
              && iFormat == old(iFormat) + (if doubled then 1 else 0)
              && (after.Err? ==> failed == Some(after.error))
              && (after.Ok? ==> failed == None && Where() == after.value)
    {
      var c := format[iFormat];
      if c == 'D' {
        var r := GetName('D', loc.dayShort, loc.dayLong);
        return if r.Err? then Some(r.error) else None;
      }
      var r;
      if c == 'M' {
        r := GetName('M', loc.monthShort, loc.monthLong);
      } else {
        r := GetNumber(c);
      }
      if r.Err? {
        return Some(r.error);
      }
      match c {
        case 'd' => day := r.value;
        case 'o' => doy := r.value;
        case 'm' => month := r.value;
        case 'M' => month := r.value;
        case 'y' => year := r.value;
      }
      failed := None;
    }

    // do { ... } while (true), over the months of the year
    method SpreadDays(y: int)
      modifies this`month, this`day
      ensures MonthDay(month, day) == SpreadOrdinal(y, 1, doy)
    {
      hide GetDaysInMonth;
      month := 1;
      day := doy;
      while true
        invariant SpreadOrdinal(y, month, day) == SpreadOrdinal(y, 1, doy)
        decreases day
      {
        var dim := GetDaysInMonth(y, month - 1);
        MonthIsLong(y, month - 1);
        if day <= dim {
          break;
        }
        month := month + 1;
        day := day - dim;
      }
    }

    // A literal character, or a quote that switches the mode
    method ReadLiteral(ghost loc: Locale) returns (failed: Option<Error>)
      requires loc.Valid() && iFormat < |format| && iValue <= |value|
      modifies this`iFormat, this`iValue, this`literal
      ensures iValue <= |value|
      ensures var c := format[old(iFormat)]; var doubled := LookAhead(format[old(iFormat)..], c);
              if c == '\'' && !doubled then
                failed == None && iFormat == old(iFormat) && iValue == old(iValue) && literal == !old(literal)
              else
                var after := ReadToken(Literal(c), value, old(Where()), loc);
                && iFormat == old(iFormat) + (if c == '\'' then 1 else 0) && literal == old(literal)
                && (after.Err? ==> failed == Some(after.error))
                && (after.Ok? ==> failed == None && iValue == after.value.pos)
    {
      if format[iFormat] == '\'' {
        var doubled := LookAheadAt('\'');
        if !doubled {
          literal := !literal;
          return None;
        }
      }
      var r := CheckLiteral();
      failed := if r.Err? then Some(r.error) else None;
    }

    // The body of the loop
    method ReadTurn(loc: Locale) returns (failed: Option<Error>)
      requires loc.Valid() && iFormat < |format| && iValue <= |value|
      requires var token := FirstStep(format[iFormat..], literal).token; token.Some? ==> !token.value.Stamp?
      modifies this
      ensures iValue <= |value|
      ensures var step := FirstStep(format[old(iFormat)..], old(literal));
              var after := if step.token.None? then Ok(old(Where())) else ReadToken(step.token.value, value, old(Where()), loc);
              && (after.Err? ==> failed == Some(after.error))
              && (after.Ok? ==> failed == None && iFormat == old(iFormat) + step.width
                                && literal == step.literal && Where() == after.value)
    {
      hide ReadToken;
      if !literal && format[iFormat] in "domyDM" {
        failed := ReadField(loc);
      } else {
        LiteralKeepsState(format[iFormat], value, Where(), loc);
        failed := ReadLiteral(loc);
      }
      if failed.None? {
        iFormat := iFormat + 1;
      }
    }

    method ReadFields(loc: Locale) returns (failed: Option<Error>)
      requires Fresh() && loc.Valid() && Supported(Tokens(format, false))
      modifies this
      ensures iValue <= |value|
      ensures ReadAll(Tokens(format, false), value, Progress(0, UNSET), loc)
           == if failed.Some? then Err(failed.value) else Ok(Where())
    {
      ghost var tokens := Tokens(format, false);
      assert format[0..] == format;
      failed := None;
      while iFormat < |format|
        invariant iFormat <= |format| && iValue <= |value| && Supported(Left()) && failed == None
        invariant ReadAll(Left(), value, Where(), loc) == ReadAll(tokens, value, Progress(0, UNSET), loc)
        decreases |format| - iFormat
      {
        hide Tokens, ReadAll, Supported;
        ghost var here, mode, before := format[iFormat..], literal, Where();
        TokensStep(here, mode);
        ghost var step := FirstStep(here, mode);
        TurnIsSupported(step, Left());
        ReadStep(step, Tokens(here[step.width..], step.literal), value, before, loc);
        failed := ReadTurn(loc);
        if failed.Some? {
          return;
        }
        assert here[step.width..] == format[iFormat..];
      }
    }

    method ParseDate(loc: Locale, clock: Clock) returns (r: Result<Civil, Error>)
      requires Fresh() && loc.Valid() && Supported(Tokens(format, false))
      modifies this
      ensures r == Parse(Tokens(format, false), value, loc, clock)
    {
      hide Checked, SpreadOrdinal;
      var failed := ReadFields(loc);
      if failed.Some? {
        return Err(failed.value);
      }
      var y := FullYear(year, clock);
      if doy > -1 {
        SpreadDays(y);
      }
      r := Checked(y, MonthDay(month, day));
    }
  }

  function LetterToken(c: char, doubled: bool): Token {
    if c in "DM" then Name(c, doubled) else Number(c, doubled)
  }

  // One turn of either loop: how much of the format it takes, the token it handles if it is
  // not a quote that only switches the mode, and the mode it leaves
  datatype Turn = Turn(width: nat, token: Option<Token>, literal: bool)

  function FirstStep(format: string, literal: bool): (s: Turn)
    requires format != ""
    ensures 1 <= s.width <= |format|
  {
    var c := format[0];
    var doubled := LookAhead(format, c);
    var width := if doubled then 2 else 1;
    if c == '\'' then
      if doubled then Turn(2, Some(Literal(c)), literal) else Turn(1, None, !literal)
    else if literal then Turn(1, Some(Literal(c)), true)
    else if c in "domyDM" then Turn(width, Some(LetterToken(c, doubled)), false)
    else if c in "@!" then Turn(1, Some(Stamp(c)), false)
    else Turn(1, Some(Literal(c)), false)
  }

  function Emitted(s: Turn): seq<Token> {
    if s.token.Some? then [s.token.value] else []
  }

  lemma LiteralKeepsState(c: char, value: string, p: Progress, loc: Locale)
    requires loc.Valid() && p.pos <= |value|
    ensures var r := ReadToken(Literal(c), value, p, loc); r.Ok? ==> r.value.state == p.state
  {
  }

  lemma LiteralText(c: char, date: Civil, loc: Locale)
    requires date.Valid() && loc.Valid()
    ensures Text(Literal(c), date, loc) == [c]
  {
  }

  lemma TokensStep(format: string, literal: bool)
    requires format != ""
    ensures var s := FirstStep(format, literal);
            Tokens(format, literal) == Emitted(s) + Tokens(format[s.width..], s.literal)
  {
  }

  lemma TurnIsSupported(s: Turn, tokens: seq<Token>)
    requires Supported(tokens) && Emitted(s) <= tokens
    ensures s.token.Some? ==> !s.token.value.Stamp?
  {
    if s.token.Some? {
      assert tokens[0] == Emitted(s)[0];
    }
  }

  lemma WriteStep(before: string, s: Turn, rest: seq<Token>, date: Civil, loc: Locale)
    requires date.Valid() && loc.Valid() && Supported(Emitted(s) + rest)
    requires s.token.Some? ==> !s.token.value.Stamp?
    ensures Supported(rest)
    ensures before + Write(Emitted(s) + rest, date, loc)
         == before + (if s.token.Some? then Text(s.token.value, date, loc) else "") + Write(rest, date, loc)
  {
    var all := Emitted(s) + rest;
    assert forall i | 0 <= i < |rest| :: rest[i] == all[i + |Emitted(s)|];
    if s.token.Some? {
      assert all[0] == s.token.value && all[1..] == rest;
    } else {
      assert all == rest;
    }
  }

  function AfterTurn(s: Turn, rest: seq<Token>, value: string, p: Progress, loc: Locale): Result<Progress, Error>
    requires loc.Valid() && Supported(rest) && p.pos <= |value|
    requires s.token.Some? ==> !s.token.value.Stamp?
  {
    if s.token.None? then ReadAll(rest, value, p, loc) else
      match ReadToken(s.token.value, value, p, loc)
      case Err(e) => Err(e)
      case Ok(q) => ReadAll(rest, value, q, loc)
  }

  lemma ReadStep(s: Turn, rest: seq<Token>, value: string, p: Progress, loc: Locale)
    requires loc.Valid() && Supported(Emitted(s) + rest) && p.pos <= |value|
    requires s.token.Some? ==> !s.token.value.Stamp?
    ensures Supported(rest)
    ensures ReadAll(Emitted(s) + rest, value, p, loc) == AfterTurn(s, rest, value, p, loc)
  {
    var all := Emitted(s) + rest;
    assert forall i | 0 <= i < |rest| :: rest[i] == all[i + |Emitted(s)|];
    if s.token.Some? {
      assert all[0] == s.token.value && all[1..] == rest;
    } else {
      assert all == rest;
    }
  }

  /** Printing and then parsing, as the two methods run, for every date of the years 100 to 9999:
      the day comes back in the year that the format and the clock determine, so the date comes
      back if the format names the whole date and every number is printed as wide as it is read
      or no digit follows it, and only then if it sets each field once. */
  method PrintThenParse(format: string, date: Civil, loc: Locale, clock: Clock) returns (r: Result<Civil, Error>)
    requires DateRoundTrip.Covered(date) && loc.Valid() && DateRoundTrip.DistinctNames(loc)
    requires var tokens := Tokens(format, false); Supported(tokens) && DateRoundTrip.AllUsable(tokens, date)
    ensures ReadsAsPrinted(Tokens(format, false), date, loc, clock, r)
  {
    hide ReadsAsPrinted, Tokens, Parse, Write, Supported, DateRoundTrip.AllUsable, DateRoundTrip.DistinctNames;
    var printer := new Printer(format);
    var text := printer.FormatDate(date, loc);
    var reader := new Reader(format, text);
    r := reader.ParseDate(loc, clock);
    ParsedAsPrinted(Tokens(format, false), date, loc, clock);
  }

  ghost predicate ReadsAsPrinted(tokens: seq<Token>, date: Civil, loc: Locale, clock: Clock, r: Result<Civil, Error>)
    requires date.Valid() && loc.Valid() && Supported(tokens)
  {
    && (DateRoundTrip.Readable(tokens, date, loc) && DateRoundTrip.NamesDay(tokens) ==>
          forall doubled, y | DateRoundTrip.YearsAre(tokens, doubled) && y >= 100
                              && DateRoundTrip.TakenYear(y, tokens, date, doubled, clock) ::
            DateRoundTrip.SameDayOf(r, y, date, DateRoundTrip.Sets(tokens, Ordinal)))
    && (DateRoundTrip.AllFaithful(tokens) && DateRoundTrip.Complete(tokens) ==>
          (DateRoundTrip.Readable(tokens, date, loc) ==> r == Ok(date)))
    && (DateRoundTrip.AllFaithful(tokens) && DateRoundTrip.Plain(tokens) ==>
          (r == Ok(date) <==> DateRoundTrip.Readable(tokens, date, loc)))
  }

  lemma ParsedAsPrinted(tokens: seq<Token>, date: Civil, loc: Locale, clock: Clock)
    requires DateRoundTrip.Covered(date) && loc.Valid() && DateRoundTrip.DistinctNames(loc)
    requires Supported(tokens) && DateRoundTrip.AllUsable(tokens, date)
    ensures ReadsAsPrinted(tokens, date, loc, clock, Parse(tokens, Write(tokens, date, loc), loc, clock))
  {
    hide Parse, Write, Supported;
    hide DateRoundTrip.Readable, DateRoundTrip.DistinctNames, DateRoundTrip.AllFaithful, DateRoundTrip.AllUsable;
    hide DateRoundTrip.Sets, DateRoundTrip.SameDayOf, DateRoundTrip.TakenYear, DateRoundTrip.YearsAre;
    if DateRoundTrip.AllFaithful(tokens) && DateRoundTrip.Complete(tokens) && DateRoundTrip.Readable(tokens, date, loc) {
      DateRoundTrip.ParseOfWrite(tokens, date, loc, clock);
    }
    if DateRoundTrip.AllFaithful(tokens) && DateRoundTrip.Plain(tokens) {
      DateRoundTrip.RoundTripExactlyWhenReadable(tokens, date, loc, clock);
    }
    if DateRoundTrip.NamesDay(tokens) && DateRoundTrip.Readable(tokens, date, loc) {
      forall doubled, y | DateRoundTrip.YearsAre(tokens, doubled) && y >= 100
                          && DateRoundTrip.TakenYear(y, tokens, date, doubled, clock)
        ensures DateRoundTrip.SameDayOf(Parse(tokens, Write(tokens, date, loc), loc, clock), y, date,
                                        DateRoundTrip.Sets(tokens, Ordinal))
      {
        DateRoundTrip.ParseInTakenYear(tokens, date, loc, clock, doubled, y);
      }
    }
  }
}
