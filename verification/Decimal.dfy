/** Decimal numerals: printing a natural number and reading it back. */
module Decimal {
  const DIGITS: string := "0123456789"

  predicate IsDigit(c: char) {
    '0' <= c <= '9'
  }

  predicate AllDigits(s: string) {
    forall i | 0 <= i < |s| :: IsDigit(s[i])
  }

  function DigitValue(c: char): nat
    requires IsDigit(c)
  {
    (c as int) - ('0' as int)
  }

  function Print(n: nat): (s: string)
    ensures s != "" && AllDigits(s)
  {
    if n < 10 then [DIGITS[n]] else Print(n / 10) + [DIGITS[n % 10]]
  }

  function PrintInt(n: int): string {
    if n < 0 then "-" + Print(-n) else Print(n)
  }

  function Read(s: string): nat
    requires AllDigits(s)
    decreases |s|
  {
    if s == "" then 0 else 10 * Read(s[..|s| - 1]) + DigitValue(s[|s| - 1])
  }

  lemma DigitRoundTrip(n: nat)
    requires n < 10
    ensures IsDigit(DIGITS[n]) && DigitValue(DIGITS[n]) == n
  {
  }

  lemma {:induction false} ReadPrint(n: nat)
    ensures Read(Print(n)) == n
  {
    DigitRoundTrip(n % 10);
    if n >= 10 {
      ReadPrint(n / 10);
      assert Print(n)[..|Print(n)| - 1] == Print(n / 10);
    }
  }

  lemma PrintIsInjective(m: nat, n: nat)
    requires Print(m) == Print(n)
    ensures m == n
  {
    ReadPrint(m);
    ReadPrint(n);
  }

  lemma {:induction false} ReadLeadingZeros(k: nat, s: string)
    requires AllDigits(s)
    ensures AllDigits(Zeros(k) + s) && Read(Zeros(k) + s) == Read(s)
    decreases k + |s|
  {
    var z := Zeros(k) + s;
    if s != "" {
      ReadLeadingZeros(k, s[..|s| - 1]);
      assert z[..|z| - 1] == Zeros(k) + s[..|s| - 1];
    } else if k > 0 {
      ReadLeadingZeros(k - 1, s);
      assert z[..|z| - 1] == Zeros(k - 1) + s;
    }
  }

  function Zeros(k: nat): string {
    seq(k, _ => '0')
  }

  // A further digit at the end makes a positive number larger.
  lemma ReadGrows(s: string, t: string)
    requires AllDigits(s + t) && AllDigits(s) && t != "" && Read(s) > 0
    ensures Read(s + t) > Read(s)
    decreases |t|
  {
    var all := s + t;
    assert all[..|all| - 1] == s + t[..|t| - 1];
    assert AllDigits(s + t[..|t| - 1]);
    if |t| > 1 {
      ReadGrows(s, t[..|t| - 1]);
    } else {
      assert s + t[..0] == s;
    }
  }

  // The width of a numeral is the number of powers of ten it reaches.
  lemma PrintWidth(n: nat)
    ensures |Print(n)| == 1 <==> n < 10
    ensures |Print(n)| <= 2 <==> n < 100
    ensures |Print(n)| <= 3 <==> n < 1000
    ensures |Print(n)| <= 4 <==> n < 10000
  {
    assert |Print(n)| == if n < 10 then 1 else |Print(n / 10)| + 1;
    assert |Print(n / 10)| == if n / 10 < 10 then 1 else |Print(n / 10 / 10)| + 1;
    assert |Print(n / 10 / 10)| == if n / 10 / 10 < 10 then 1 else |Print(n / 10 / 10 / 10)| + 1;
    assert |Print(n / 10 / 10 / 10)| == if n / 10 / 10 / 10 < 10 then 1 else |Print(n / 10 / 10 / 10 / 10)| + 1;
  }

  // atoi: blanks, a sign and the digits up to the first character that is none
  function Atoi(s: string): int {
    if s == "" then 0
    else if s[0] == ' ' || 9 <= s[0] as int <= 13 then Atoi(s[1..])
    else if s[0] == '-' then 0 - Leading(s[1..])
    else Leading(if s[0] == '+' then s[1..] else s)
  }

  function Leading(s: string): nat {
    Read(s[..Digits(s)])
  }

  function Digits(s: string): (n: nat)
    ensures n <= |s| && AllDigits(s[..n]) && (n < |s| ==> !IsDigit(s[n]))
  {
    if s == "" || !IsDigit(s[0]) then 0 else
      assert forall i | 1 <= i < 1 + Digits(s[1..]) :: s[i] == s[1..][..Digits(s[1..])][i - 1];
      1 + Digits(s[1..])
  }

  lemma LeadingPrint(n: nat)
    ensures Leading(Print(n)) == n
  {
    ReadPrint(n);
    assert Print(n)[..|Print(n)|] == Print(n);
  }

  lemma LeadingStops(n: nat, rest: string)
    requires rest != "" ==> !IsDigit(rest[0])
    ensures Leading(Print(n) + rest) == n
  {
    var s := Print(n) + rest;
    var k := Digits(s);
    DigitsAre(Print(n), rest);
    assert s[..|Print(n)|] == Print(n);
    ReadPrint(n);
  }

  lemma {:induction false} DigitsAre(s: string, rest: string)
    requires AllDigits(s) && (rest != "" ==> !IsDigit(rest[0]))
    ensures Digits(s + rest) == |s|
    decreases |s|
  {
    if s == "" {
      assert s + rest == rest;
    } else {
      assert (s + rest)[1..] == s[1..] + rest;
      DigitsAre(s[1..], rest);
    }
  }

  predicate Space(c: char) {
    c == ' ' || '\t' <= c <= '\r'
  }

  lemma {:induction false} SpacesAreSkipped(blanks: string, s: string)
    requires forall i | 0 <= i < |blanks| :: Space(blanks[i])
    ensures Atoi(blanks + s) == Atoi(s)
    decreases |blanks|
  {
    if blanks == "" {
      assert blanks + s == s;
    } else {
      assert (blanks + s)[1..] == blanks[1..] + s && Space(blanks[0]);
      SpacesAreSkipped(blanks[1..], s);
    }
  }

  lemma NumberIsRead(n: int, rest: string)
    requires rest != "" ==> !IsDigit(rest[0])
    ensures Atoi(PrintInt(n) + rest) == n
  {
    hide Print, Leading, Read, Digits, Atoi;
    var digits := Print(if n < 0 then -n else n);
    LeadingStops(if n < 0 then -n else n, rest);
    AtoiOfDigits(digits, rest);
    if n < 0 {
      assert PrintInt(n) + rest == "-" + (digits + rest);
    }
  }

  lemma AtoiOfDigits(digits: string, rest: string)
    requires digits != "" && AllDigits(digits)
    ensures Atoi(digits + rest) == Leading(digits + rest) && Atoi("-" + (digits + rest)) == 0 - Leading(digits + rest)
  {
    hide Leading;
    var s := digits + rest;
    assert s[0] == digits[0] && IsDigit(digits[0]);
    assert ("-" + s)[1..] == s;
  }

  lemma NothingIsRead(rest: string)
    requires rest != "" ==> !IsDigit(rest[0]) && !Space(rest[0]) && rest[0] !in "+-"
    ensures Atoi(rest) == 0
  {
    NoDigitsAreZero(rest);
  }

  /** A number is read whatever white space stands before it and whatever follows it that is no
      digit; and without a number the outcome is 0. */
  lemma AtoiExactly(blanks: string, n: int, rest: string)
    requires (forall i | 0 <= i < |blanks| :: Space(blanks[i])) && (rest != "" ==> !IsDigit(rest[0]))
    ensures Atoi(blanks + (PrintInt(n) + rest)) == n
    ensures (rest != "" ==> !Space(rest[0]) && rest[0] !in "+-") ==> Atoi(blanks + rest) == 0
  {
    hide Atoi, PrintInt, Space;
    SpacesAreSkipped(blanks, PrintInt(n) + rest);
    SpacesAreSkipped(blanks, rest);
    NumberIsRead(n, rest);
    if rest != "" ==> !Space(rest[0]) && rest[0] !in "+-" {
      NothingIsRead(rest);
    }
  }

  lemma NoDigitsAreZero(s: string)
    requires s != "" ==> !IsDigit(s[0])
    ensures Leading(s) == 0
  {
  }

  lemma AtoiPrintInt(n: int)
    ensures PrintInt(n) != "" && Atoi(PrintInt(n)) == n
  {
    hide Print, Leading;
    if n < 0 {
      LeadingPrint(-n);
      assert PrintInt(n)[0] == '-' && PrintInt(n)[1..] == Print(-n);
    } else {
      LeadingPrint(n);
      assert IsDigit(Print(n)[0]);
    }
  }
}
