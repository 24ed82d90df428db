/** The order of strings by their characters, sorting by it, the place of a character, and
    the lines of a text. */
module Strings {
  predicate Less(a: string, b: string) {
    if b == "" then false
    else if a == "" then true
    else a[0] < b[0] || (a[0] == b[0] && Less(a[1..], b[1..]))
  }

  predicate LessOrEqual(a: string, b: string) {
    a == b || Less(a, b)
  }

  lemma {:induction false} LessIsTransitive(a: string, b: string, c: string)
    requires Less(a, b) && Less(b, c)
    ensures Less(a, c)
  {
    if a != "" && a[0] == b[0] == c[0] {
      LessIsTransitive(a[1..], b[1..], c[1..]);
    }
  }

  lemma {:induction false} LessIsTotal(a: string, b: string)
    ensures a == b || Less(a, b) || Less(b, a)
    ensures !(Less(a, b) && Less(b, a)) && !Less(a, a)
    decreases |a|
  {
    if a != "" {
      LessIsTotal(a[1..], a[1..]);
      if b != "" && a[0] == b[0] {
        LessIsTotal(a[1..], b[1..]);
        assert a[1..] == b[1..] ==> [a[0]] + a[1..] == [b[0]] + b[1..];
      }
    }
  }

  /** The order is that of a dictionary: a string comes before those that continue it, and before
      those with a greater character at the first place where they differ. */
  lemma {:induction false} LessIsLexicographic(a: string, b: string)
    ensures Less(a, b) <==> (a <= b && a != b) || exists k | 0 <= k < |a| && k < |b| :: a[..k] == b[..k] && a[k] < b[k]
    decreases |a|
  {
    if a != "" && b != "" {
      var s, t := a[1..], b[1..];
      LessIsLexicographic(s, t);
      assert a == [a[0]] + s && b == [b[0]] + t;
      if a[0] < b[0] {
        assert a[..0] == b[..0];
      } else if a[0] == b[0] {
        forall k | 0 <= k < |s| && k < |t| ensures s[..k] == t[..k] <==> a[..k + 1] == b[..k + 1] {
          assert a[..k + 1] == [a[0]] + s[..k] && b[..k + 1] == [b[0]] + t[..k];
          assert a[..k + 1][1..] == s[..k] && b[..k + 1][1..] == t[..k];
        }
        if k: nat :| k < |s| && k < |t| && s[..k] == t[..k] && s[k] < t[k] {
          assert a[..k + 1] == b[..k + 1] && a[k + 1] < b[k + 1];
        }
        if k: nat :| k < |a| && k < |b| && a[..k] == b[..k] && a[k] < b[k] {
          assert s[..k - 1] == t[..k - 1] && s[k - 1] < t[k - 1];
        }
      } else {
        forall k | 0 <= k < |a| && k < |b| ensures !(a[..k] == b[..k] && a[k] < b[k]) {
          if k > 0 {
            assert a[..k][0] == a[0] && b[..k][0] == b[0];
          }
        }
      }
    }
  }

  predicate Sorted(s: seq<string>) {
    forall i, j | 0 <= i < j < |s| :: LessOrEqual(s[i], s[j])
  }

  predicate StrictlySorted(s: seq<string>) {
    forall i, j | 0 <= i < j < |s| :: Less(s[i], s[j])
  }

  function Insert(x: string, s: seq<string>): seq<string> {
    if s == [] || LessOrEqual(x, s[0]) then [x] + s else [s[0]] + Insert(x, s[1..])
  }

  function Sort(s: seq<string>): seq<string> {
    if s == [] then [] else Insert(s[0], Sort(s[1..]))
  }

  lemma {:induction false} InsertKeeps(x: string, s: seq<string>)
    ensures multiset(Insert(x, s)) == multiset(s) + multiset{x}
  {
    hide Less;
    if s != [] && !LessOrEqual(x, s[0]) {
      InsertKeeps(x, s[1..]);
      assert s == [s[0]] + s[1..];
    }
  }

  lemma OneBefore(x: string, s: seq<string>)
    requires Sorted(s) && forall j | 0 <= j < |s| :: LessOrEqual(x, s[j])
    ensures Sorted([x] + s)
  {
    hide Less, LessOrEqual;
    var all := [x] + s;
    assert forall i | 0 <= i < |s| :: all[i + 1] == s[i];
  }

  lemma {:induction false} InsertIsSorted(x: string, s: seq<string>)
    requires Sorted(s)
    ensures Sorted(Insert(x, s)) && multiset(Insert(x, s)) == multiset(s) + multiset{x}
  {
    hide Less;
    InsertKeeps(x, s);
    if s != [] && LessOrEqual(x, s[0]) {
      forall j | 0 <= j < |s| ensures LessOrEqual(x, s[j]) {
        assert LessOrEqual(s[0], s[j]);
        if x != s[0] && s[0] != s[j] {
          LessIsTransitive(x, s[0], s[j]);
        }
      }
      OneBefore(x, s);
    } else if s != [] {
      LessIsTotal(x, s[0]);
      var rest := Insert(x, s[1..]);
      InsertIsSorted(x, s[1..]);
      forall j | 0 <= j < |rest| ensures LessOrEqual(s[0], rest[j]) {
        assert rest[j] in multiset(rest);
        if rest[j] != x {
          assert rest[j] in s[1..];
          var k :| 0 <= k < |s[1..]| && s[1..][k] == rest[j];
          assert LessOrEqual(s[0], s[k + 1]);
        }
      }
      OneBefore(s[0], rest);
    }
  }

  /** Sorting gives the same strings, as often, in order. */
  lemma {:induction false} SortIsSorted(s: seq<string>)
    ensures Sorted(Sort(s)) && multiset(Sort(s)) == multiset(s)
  {
    if s != [] {
      SortIsSorted(s[1..]);
      InsertIsSorted(s[0], Sort(s[1..]));
      assert s == [s[0]] + s[1..];
    }
  }

  // std::unique: drops every string equal to the one before it
  function Unique(s: seq<string>): (r: seq<string>)
    ensures s != [] ==> r != [] && r[0] == s[0]
  {
    if |s| <= 1 then s
    else if s[0] == s[1] then Unique(s[1..])
    else [s[0]] + Unique(s[1..])
  }

  lemma {:induction false} UniqueKeeps(s: seq<string>, x: string)
    ensures x in Unique(s) <==> x in s
  {
    if |s| > 1 {
      UniqueKeeps(s[1..], x);
      assert x in s <==> x == s[0] || x in s[1..];
    }
  }

  lemma {:induction false} UniqueIsStrict(s: seq<string>)
    requires Sorted(s)
    ensures StrictlySorted(Unique(s))
  {
    if |s| > 1 {
      UniqueIsStrict(s[1..]);
      var rest := Unique(s[1..]);
      if s[0] != s[1] {
        forall j | 0 <= j < |rest| ensures Less(s[0], rest[j]) {
          assert rest[0] == s[1] && LessOrEqual(s[0], s[1]);
          if j > 0 {
            assert Less(rest[0], rest[j]);
            LessIsTransitive(s[0], rest[0], rest[j]);
          }
        }
      }
    }
  }

  lemma {:induction false} StrictIsUnique(s: seq<string>)
    requires StrictlySorted(s)
    ensures Unique(s) == s
  {
    if |s| > 1 {
      LessIsTotal(s[0], s[1]);
      StrictIsUnique(s[1..]);
    }
  }

  lemma {:induction false} SortedIsFixed(s: seq<string>)
    requires Sorted(s)
    ensures Sort(s) == s
  {
    if s != [] {
      SortedIsFixed(s[1..]);
      if |s| > 1 {
        assert LessOrEqual(s[0], s[1]);
      }
    }
  }

  // Sort out any duplicates
  function SortUnique(s: seq<string>): seq<string> {
    Unique(Sort(s))
  }

  /** The result is strictly sorted, holds exactly the given strings, and is its own result. */
  lemma SortUniqueIsStrict(s: seq<string>)
    ensures StrictlySorted(SortUnique(s)) && (forall x :: x in SortUnique(s) <==> x in s)
    ensures SortUnique(SortUnique(s)) == SortUnique(s)
  {
    SortIsSorted(s);
    UniqueIsStrict(Sort(s));
    forall x ensures x in SortUnique(s) <==> x in s {
      UniqueKeeps(Sort(s), x);
      assert x in Sort(s) <==> x in multiset(s);
    }
    SortedIsFixed(SortUnique(s));
    StrictIsUnique(SortUnique(s));
  }

  // The first position of c, or the length
  function Position(s: string, c: char): (k: nat)
    ensures k <= |s| && (forall i | 0 <= i < k :: s[i] != c) && (k < |s| ==> s[k] == c)
  {
    if s == "" || s[0] == c then 0 else 1 + Position(s[1..], c)
  }

  lemma PositionIs(s: string, c: char, k: nat)
    requires k <= |s| && (forall i | 0 <= i < k :: s[i] != c) && (k < |s| ==> s[k] == c)
    ensures Position(s, c) == k
  {
  }

  // Lines of a file: what follows the last newline counts only if it is not empty.
  function Lines(text: string): seq<string>
    decreases |text|
  {
    if text == "" then [] else
      var k := Position(text, '\n');
      if k == |text| then [text] else [text[..k]] + Lines(text[k + 1..])
  }

  lemma FirstLine(line: string, rest: string)
    requires forall i | 0 <= i < |line| :: line[i] != '\n'
    ensures Lines(line + "\n" + rest) == [line] + Lines(rest)
  {
    var text := line + "\n" + rest;
    PositionIs(text, '\n', |line|);
    assert text[..|line|] == line && text[|line| + 1..] == rest;
  }

  lemma FirstLineOfNothing()
    ensures Lines("") == []
  {
  }

  lemma {:induction false} LinesHoldNoNewline(text: string)
    ensures forall l <- Lines(text) :: Position(l, '\n') == |l|
    decreases |text|
  {
    if text != "" {
      var k := Position(text, '\n');
      PositionIs(text[..k], '\n', k);
      if k == |text| {
        assert text[..k] == text;
      } else {
        LinesHoldNoNewline(text[k + 1..]);
      }
    }
  }
}
