/** The hosts file: a list of lines of words, searched and rewritten by host name, and read
    from and written to text. */
module Hosts {
  import opened Strings

  type Entry = seq<string>

  // ---------- What the operations mean ----------

  function Matching(es: seq<Entry>, term: string): (r: seq<Entry>)
    ensures NonEmpty(r)
  {
    if es == [] then [] else (if term in es[0] then [es[0]] else []) + Matching(es[1..], term)
  }

  function Unmatched(es: seq<Entry>, term: string): seq<Entry> {
    if es == [] then [] else (if term in es[0] then [] else [es[0]]) + Unmatched(es[1..], term)
  }

  // The line of the real loopback, which keeps its address
  predicate Loopback(e: Entry) {
    e != [] && (if |e[0]| < 3 then e[0] else e[0][..3]) == "127" && "localhost" in e[1..]
  }

  function WithIP(e: Entry, ip: string): Entry
    requires e != []
  {
    if Loopback(e) then e else e[0 := ip]
  }

  predicate NonEmpty(es: seq<Entry>) {
    forall i | 0 <= i < |es| :: es[i] != []
  }

  function AllWithIP(es: seq<Entry>, ip: string): (r: seq<Entry>)
    requires NonEmpty(es)
    ensures |r| == |es| && NonEmpty(r)
  {
    if es == [] then [] else [WithIP(es[0], ip)] + AllWithIP(es[1..], ip)
  }

  function NewHost(ip: string, name: string): seq<Entry> {
    if ip == "" then [] else [[ip, name + ".localdomain", name]]
  }

  function Updated(es: seq<Entry>, ip: string, name: string): seq<Entry>
    requires NonEmpty(es)
  {
    if es == [] then NewHost(ip, name) else AllWithIP(es, ip)
  }

  lemma {:induction false} MatchingHolds(es: seq<Entry>, term: string)
    ensures forall e <- Matching(es, term) :: term in e && e in es
    ensures forall e <- es | term in e :: e in Matching(es, term)
    ensures forall e <- Unmatched(es, term) :: term !in e && e in es
    ensures |Matching(es, term)| + |Unmatched(es, term)| == |es|
  {
    if es != [] {
      MatchingHolds(es[1..], term);
    }
  }

  lemma {:induction false} MatchingDistributes(a: seq<Entry>, b: seq<Entry>, term: string)
    ensures Matching(a + b, term) == Matching(a, term) + Matching(b, term)
  {
    if a == [] {
      assert a + b == b;
    } else {
      assert (a + b)[1..] == a[1..] + b && (a + b)[0] == a[0];
      MatchingDistributes(a[1..], b, term);
      var head := if term in a[0] then [a[0]] else [];
      assert (head + Matching(a[1..], term)) + Matching(b, term) == head + (Matching(a[1..], term) + Matching(b, term));
    }
  }

  lemma {:induction false} UnmatchedDistributes(a: seq<Entry>, b: seq<Entry>, term: string)
    ensures Unmatched(a + b, term) == Unmatched(a, term) + Unmatched(b, term)
  {
    if a == [] {
      assert a + b == b;
    } else {
      assert (a + b)[1..] == a[1..] + b && (a + b)[0] == a[0];
      UnmatchedDistributes(a[1..], b, term);
      var head := if term in a[0] then [] else [a[0]];
      assert (head + Unmatched(a[1..], term)) + Unmatched(b, term) == head + (Unmatched(a[1..], term) + Unmatched(b, term));
    }
  }

  lemma {:induction false} FilterFixed(es: seq<Entry>, term: string)
    ensures (forall e <- es :: term in e) ==> Matching(es, term) == es && Unmatched(es, term) == []
    ensures (forall e <- es :: term !in e) ==> Matching(es, term) == [] && Unmatched(es, term) == es
  {
    if es != [] {
      assert es == [es[0]] + es[1..];
      FilterFixed(es[1..], term);
    }
  }

  // ---------- The rewrite of the LAN address ----------

  // Find, UpdateIP, Delete and Add in a row
  function Rewrite(es: seq<Entry>, ip: string, name: string): seq<Entry> {
    Unmatched(es, name) + Updated(Matching(es, name), ip, name)
  }

  // The name is on the line besides the address, which is about to change.
  predicate Named(e: Entry, ip: string, name: string) {
    e != [] && (Loopback(e) || name in e[1..] || name == ip)
  }

  lemma {:induction false} AllWithIPAt(es: seq<Entry>, ip: string, i: nat)
    requires NonEmpty(es) && i < |es|
    ensures AllWithIP(es, ip)[i] == WithIP(es[i], ip)
  {
    if i > 0 {
      AllWithIPAt(es[1..], ip, i - 1);
    }
  }

  lemma NamedStays(e: Entry, ip: string, name: string)
    requires e != [] && name in e
    ensures name in WithIP(e, ip) <==> Named(e, ip, name)
  {
    var w := WithIP(e, ip);
    assert w == [w[0]] + e[1..];
  }

  // The line before and after: only its first word has changed, and nothing on the line of the
  // host itself, whose address begins with 127 and one of whose names is localhost.
  predicate Rewritten(was: Entry, now: Entry, ip: string) {
    was != [] &&
    if "127" <= was[0] && exists i | 1 <= i < |was| :: was[i] == "localhost" then now == was
    else now == [ip] + was[1..]
  }

  lemma WithIPRewrites(e: Entry, ip: string)
    requires e != []
    ensures Rewritten(e, WithIP(e, ip), ip)
  {
    assert "localhost" in e[1..] <==> exists i | 1 <= i < |e| :: e[i] == "localhost" by {
      assert forall i | 1 <= i < |e| :: e[i] == e[1..][i - 1];
    }
    assert "127" <= e[0] <==> (if |e[0]| < 3 then e[0] else e[0][..3]) == "127";
  }

  /** The rewrite keeps every unmatched line, in order, and puts after them one line for each
      matched line, with the new address unless it is the real loopback; with no matched line
      it makes one, if there is an address. */
  lemma RewriteKeepsLines(es: seq<Entry>, ip: string, name: string)
    ensures var r, kept, n := Rewrite(es, ip, name), Unmatched(es, name), |Matching(es, name)|;
            && kept <= r && |r| == |kept| + (if n > 0 then n else if ip == "" then 0 else 1)
            && (forall i | 0 <= i < n :: Rewritten(Matching(es, name)[i], r[|kept| + i], ip))
            && (n == 0 && ip != "" ==> r[|kept|] == [ip, name + ".localdomain", name])
  {
    MatchingHolds(es, name);
    var m := Matching(es, name);
    forall i | 0 <= i < |m| ensures Rewritten(m[i], AllWithIP(m, ip)[i], ip) {
      AllWithIPAt(m, ip, i);
      WithIPRewrites(m[i], ip);
    }
  }

  /** The lines just written are the lines found next time exactly when the name is not just
      the first word of a matched line. */
  lemma UpdatedIsFound(es: seq<Entry>, ip: string, name: string)
    requires ip != ""
    ensures var m := Matching(es, name);
            (forall e <- m :: Named(e, ip, name))
            <==> Matching(Rewrite(es, ip, name), name) == Updated(m, ip, name)
  {
    hide Matching, Unmatched, WithIP;
    var m, kept := Matching(es, name), Unmatched(es, name);
    MatchingHolds(es, name);
    var u := Updated(m, ip, name);
    MatchingDistributes(kept, u, name);
    UnmatchedDistributes(kept, u, name);
    FilterFixed(kept, name);
    FilterFixed(u, name);
    MatchingHolds(u, name);
    if forall e <- m :: Named(e, ip, name) {
      forall e <- u ensures name in e {
        if m != [] {
          var i :| 0 <= i < |u| && u[i] == e;
          AllWithIPAt(m, ip, i);
          NamedStays(m[i], ip, name);
        }
      }
    } else {
      var e :| e in m && !Named(e, ip, name);
      var i :| 0 <= i < |m| && m[i] == e;
      AllWithIPAt(m, ip, i);
      NamedStays(m[i], ip, name);
      assert u[i] in u;
    }
  }

  // The lines that still name the host come last among the rewritten ones, and there is one.
  predicate NamedLast(m: seq<Entry>, ip: string, name: string)
    requires NonEmpty(m)
  {
    m == [] || (Named(m[|m| - 1], ip, name) &&
                forall i, j | 0 <= i < j < |m| && Named(m[i], ip, name) :: Named(m[j], ip, name))
  }

  predicate MatchesLast(es: seq<Entry>, term: string) {
    forall i, j | 0 <= i < j < |es| && term in es[i] :: term in es[j]
  }

  lemma SplitKeepsOrder(es: seq<Entry>, term: string)
    ensures Unmatched(es, term) + Matching(es, term) == es <==> MatchesLast(es, term)
  {
    hide Matching, Unmatched;
    var u, m := Unmatched(es, term), Matching(es, term);
    MatchingHolds(es, term);
    if u + m == es {
      assert forall k | 0 <= k < |u| :: es[k] == u[k] && u[k] in u;
      forall i, j | 0 <= i < j < |es| && term in es[i] ensures term in es[j] {
        assert es[j] == m[j - |u|] && m[j - |u|] in m;
      }
    }
    if MatchesLast(es, term) {
      LastStayLast(es, term);
    }
  }

  lemma {:induction false} LastStayLast(es: seq<Entry>, term: string)
    requires MatchesLast(es, term)
    ensures Unmatched(es, term) + Matching(es, term) == es
  {
    if es != [] {
      var rest := es[1..];
      assert forall i | 0 <= i < |rest| :: rest[i] == es[i + 1];
      LastStayLast(rest, term);
      if term in es[0] {
        assert forall e <- rest :: term in e;
        FilterFixed(rest, term);
      }
      assert es == [es[0]] + rest;
    }
  }

  lemma {:induction false} FixedStay(es: seq<Entry>, ip: string)
    requires NonEmpty(es) && forall e <- es :: WithIP(e, ip) == e
    ensures AllWithIP(es, ip) == es
  {
    if es != [] {
      FixedStay(es[1..], ip);
    }
  }

  lemma UpdatedAt(m: seq<Entry>, ip: string, name: string, i: nat)
    requires ip != "" && NonEmpty(m) && (forall e <- m :: name in e) && i < |Updated(m, ip, name)|
    ensures NonEmpty(Updated(m, ip, name))
    ensures var e := Updated(m, ip, name)[i];
            && WithIP(e, ip) == e
            && if m == [] then name in e else i < |m| && (name in e <==> Named(m[i], ip, name))
  {
    if m != [] {
      AllWithIPAt(m, ip, i);
      NamedStays(m[i], ip, name);
      var w := WithIP(m[i], ip);
      assert w == [w[0]] + m[i][1..];
    }
  }

  // Doing the rewrite again appends what is still found, and if that is nothing a new line.
  lemma RewriteTwice(es: seq<Entry>, ip: string, name: string)
    requires ip != ""
    ensures var u := Updated(Matching(es, name), ip, name);
            var still := Matching(u, name);
            Rewrite(Rewrite(es, ip, name), ip, name)
            == Unmatched(es, name) + (Unmatched(u, name) + if still == [] then NewHost(ip, name) else still)
  {
    hide Matching, Unmatched, WithIP, AllWithIP, Named;
    var m, kept := Matching(es, name), Unmatched(es, name);
    var u := Updated(m, ip, name);
    MatchingHolds(es, name);
    MatchingDistributes(kept, u, name);
    UnmatchedDistributes(kept, u, name);
    FilterFixed(kept, name);
    MatchingHolds(u, name);
    forall e <- Matching(u, name) ensures WithIP(e, ip) == e {
      var i :| 0 <= i < |u| && u[i] == e;
      UpdatedAt(m, ip, name, i);
    }
    FixedStay(Matching(u, name), ip);
    var again, still := Unmatched(u, name), Matching(u, name);
    assert Matching(kept + u, name) == still && Unmatched(kept + u, name) == kept + again;
    var last := if still == [] then NewHost(ip, name) else still;
    assert (kept + again) + last == kept + (again + last);
  }

  /** Doing the rewrite again changes nothing exactly when no line matched, or the lines that
      name the host besides the address come last among those that matched. */
  lemma IdempotentExactlyWhenNamedLast(es: seq<Entry>, ip: string, name: string)
    requires ip != ""
    ensures Rewrite(Rewrite(es, ip, name), ip, name) == Rewrite(es, ip, name)
            <==> NamedLast(Matching(es, name), ip, name)
  {
    hide Matching, Unmatched, WithIP, AllWithIP, Named;
    var m, kept := Matching(es, name), Unmatched(es, name);
    var u := Updated(m, ip, name);
    RewriteTwice(es, ip, name);
    MatchingHolds(es, name);
    NamedLastIsMatchedLast(m, ip, name);
    MatchingHolds(u, name);
    var again, still := Unmatched(u, name), Matching(u, name);
    if still == [] {
      assert |Rewrite(Rewrite(es, ip, name), ip, name)| == |Rewrite(es, ip, name)| + 1;
    } else {
      SplitKeepsOrder(u, name);
      assert (kept + (again + still))[|kept|..] == again + still && (kept + u)[|kept|..] == u;
    }
  }

  lemma NamedLastIsMatchedLast(m: seq<Entry>, ip: string, name: string)
    requires ip != "" && NonEmpty(m) && forall e <- m :: name in e
    ensures var u := Updated(m, ip, name);
            NamedLast(m, ip, name) <==> Matching(u, name) != [] && MatchesLast(u, name)
  {
    hide Matching, WithIP, AllWithIP, Named;
    var u := Updated(m, ip, name);
    forall i | 0 <= i < |u|
      ensures if m == [] then name in u[i] else i < |m| && (name in u[i] <==> Named(m[i], ip, name))
    {
      UpdatedAt(m, ip, name, i);
    }
    MatchingHolds(u, name);
    if Matching(u, name) != [] {
      SomeIsNamed(u, name);
    } else {
      assert forall i | 0 <= i < |u| :: u[i] in u;
    }
  }

  lemma SomeIsNamed(u: seq<Entry>, name: string)
    requires Matching(u, name) != []
    ensures exists i | 0 <= i < |u| :: name in u[i]
  {
    MatchingHolds(u, name);
    assert Matching(u, name)[0] in Matching(u, name);
  }

  /** A host named only in the first word of its line is lost. */
  lemma NameAsFirstWordIsLost()
    ensures var es := [["bubba", "files"]];
            Matching(Rewrite(es, "10.0.0.1", "bubba"), "bubba") == []
  {
    var e := ["bubba", "files"];
    assert e[0][0] == 'b' && e[1] != "bubba";
    assert Matching([e], "bubba") == [e] && Unmatched([e], "bubba") == [];
    assert AllWithIP([e], "10.0.0.1") == [WithIP(e, "10.0.0.1")];
    assert WithIP(e, "10.0.0.1") == ["10.0.0.1", "files"];
    assert "10.0.0.1"[0] == '1';
    FilterFixed([["10.0.0.1", "files"]], "bubba");
  }

  // ---------- The text of the file ----------

  predicate Blank(c: char) {
    c == ' ' || c == '\t'
  }

  // A word that comes back as it was written
  predicate Clean(w: string) {
    w != "" && w[0] != '#' && forall i | 0 <= i < |w| :: !Blank(w[i]) && w[i] != '\n'
  }

  predicate CleanEntry(e: Entry) {
    e != [] && forall i | 0 <= i < |e| :: Clean(e[i])
  }

  predicate CleanEntries(es: seq<Entry>) {
    forall i | 0 <= i < |es| :: CleanEntry(es[i])
  }

  function FindBlank(s: string): (k: nat)
    ensures k <= |s| && (forall i | 0 <= i < k :: !Blank(s[i])) && (k < |s| ==> Blank(s[k]))
  {
    if s == "" || Blank(s[0]) then 0 else 1 + FindBlank(s[1..])
  }

  // The words of a line: it is trimmed and split at runs of blanks.
  function Words(line: string): seq<string>
    decreases |line|
  {
    if line == "" then []
    else if Blank(line[0]) then Words(line[1..])
    else [line[..FindBlank(line)]] + Words(line[FindBlank(line)..])
  }

  // Spaces and tabs, in any mixture
  predicate Gap(s: string) {
    forall i | 0 <= i < |s| :: s[i] == ' ' || s[i] == '\t'
  }

  predicate Word(w: string) {
    w != "" && ' ' !in w && '\t' !in w
  }

  lemma {:induction false} GapIsSkipped(gap: string, rest: string)
    requires Gap(gap)
    ensures Words(gap + rest) == Words(rest)
    decreases |gap|
  {
    if gap == "" {
      assert gap + rest == rest;
    } else {
      assert (gap + rest)[1..] == gap[1..] + rest;
      GapIsSkipped(gap[1..], rest);
    }
  }

  /** The words of a line are what stands between its spaces and tabs: one word more in front of the
      rest is one more in front of its words. */
  lemma WordsExactly(gap: string, word: string, rest: string)
    requires Gap(gap) && Word(word) && (rest != "" ==> Gap(rest[..1]))
    ensures Words(gap) == [] && Words(gap + word + rest) == [word] + Words(rest)
  {
    GapIsSkipped(gap, "");
    assert gap + "" == gap;
    assert gap + word + rest == gap + (word + rest);
    GapIsSkipped(gap, word + rest);
    var line := word + rest;
    assert rest != "" ==> Blank(rest[0]) by {
      assert rest != "" ==> rest[..1][0] == rest[0];
    }
    assert forall i | 0 <= i < |word| :: line[i] == word[i] && word[i] in word;
    FindBlankIs(line, |word|);
    assert line[..|word|] == word && line[|word|..] == rest;
  }

  function BeforeComment(words: seq<string>): seq<string> {
    if words == [] || (words[0] != "" && words[0][0] == '#') then [] else [words[0]] + BeforeComment(words[1..])
  }

  function ParseLines(lines: seq<string>): seq<Entry> {
    if lines == [] then [] else
      var e := BeforeComment(Words(lines[0]));
      (if e == [] then [] else [e]) + ParseLines(lines[1..])
  }

  function Joined(e: Entry): string {
    if e == [] then "" else if |e| == 1 then e[0] else e[0] + "\t" + Joined(e[1..])
  }

  function Text(es: seq<Entry>): string {
    if es == [] then "" else Joined(es[0]) + "\n" + Text(es[1..])
  }

  lemma FindBlankIs(s: string, k: nat)
    requires k <= |s| && (forall i | 0 <= i < k :: !Blank(s[i])) && (k < |s| ==> Blank(s[k]))
    ensures FindBlank(s) == k
  {
  }

  lemma {:induction false} WordsOfJoined(e: Entry)
    requires CleanEntry(e)
    ensures Words(Joined(e)) == e
    ensures forall i | 0 <= i < |Joined(e)| :: Joined(e)[i] != '\n'
    decreases |e|
  {
    var w := e[0];
    if |e| == 1 {
      FindBlankIs(w, |w|);
      assert w[..|w|] == w && w[|w|..] == "";
    } else {
      var tail := e[1..];
      assert forall i | 0 <= i < |tail| :: tail[i] == e[i + 1];
      WordsOfJoined(tail);
      var line := Joined(e);
      FindBlankIs(line, |w|);
      assert line[..|w|] == w && line[|w|..] == "\t" + Joined(tail);
      assert line[|w|..][1..] == Joined(tail);
      assert line[0] == w[0];
      assert Words(line[|w|..]) == Words(Joined(tail));
    }
  }

  lemma {:induction false} NoCommentInClean(e: Entry)
    requires forall i | 0 <= i < |e| :: Clean(e[i])
    ensures BeforeComment(e) == e
  {
    if e != [] {
      assert Clean(e[0]);
      assert forall i | 0 <= i < |e[1..]| :: e[1..][i] == e[i + 1];
      NoCommentInClean(e[1..]);
    }
  }

  lemma {:induction false} CleanRoundTrip(es: seq<Entry>)
    requires CleanEntries(es)
    ensures ParseLines(Lines(Text(es))) == es
  {
    hide Words, Joined, Lines, BeforeComment, Clean;
    if es == [] {
      assert Text(es) == "";
      assert Lines("") == [] by { FirstLineOfNothing(); }
    } else {
      var line, rest := Joined(es[0]), Lines(Text(es[1..]));
      WordsOfJoined(es[0]);
      NoCommentInClean(es[0]);
      FirstLine(line, Text(es[1..]));
      assert ([line] + rest)[1..] == rest;
      CleanRoundTrip(es[1..]);
    }
  }

  // Whatever is in the file, only clean entries are read.
  lemma {:induction false} WordsAreWords(line: string)
    requires Position(line, '\n') == |line|
    ensures forall w <- Words(line) :: w != "" && forall i | 0 <= i < |w| :: !Blank(w[i]) && w[i] != '\n'
    decreases |line|
  {
    if line != "" {
      var k := if Blank(line[0]) then 1 else FindBlank(line);
      PositionIs(line[k..], '\n', |line[k..]|);
      WordsAreWords(line[k..]);
    }
  }

  lemma {:induction false} BeforeCommentIsClean(words: seq<string>)
    requires forall w <- words :: w != "" && forall i | 0 <= i < |w| :: !Blank(w[i]) && w[i] != '\n'
    ensures forall i | 0 <= i < |BeforeComment(words)| :: Clean(BeforeComment(words)[i])
  {
    if words != [] && words[0][0] != '#' {
      assert words[0] in words;
      BeforeCommentIsClean(words[1..]);
    }
  }

  lemma {:induction false} ParsedIsClean(lines: seq<string>)
    requires forall l <- lines :: Position(l, '\n') == |l|
    ensures CleanEntries(ParseLines(lines))
  {
    if lines != [] {
      assert lines[0] in lines;
      WordsAreWords(lines[0]);
      BeforeCommentIsClean(Words(lines[0]));
      ParsedIsClean(lines[1..]);
    }
  }

  lemma LinesReadAreClean(text: string)
    ensures CleanEntries(ParseLines(Lines(text)))
  {
    LinesHoldNoNewline(text);
    ParsedIsClean(Lines(text));
  }

  lemma {:induction false} UnmatchedIsClean(es: seq<Entry>, name: string)
    requires CleanEntries(es)
    ensures CleanEntries(Unmatched(es, name)) && CleanEntries(Matching(es, name))
  {
    hide CleanEntry;
    if es != [] {
      UnmatchedIsClean(es[1..], name);
    }
  }

  lemma {:induction false} AllWithIPIsClean(es: seq<Entry>, ip: string)
    requires CleanEntries(es) && NonEmpty(es) && Clean(ip)
    ensures CleanEntries(AllWithIP(es, ip))
  {
    hide Clean;
    if es != [] {
      AllWithIPIsClean(es[1..], ip);
      assert CleanEntry(es[0]);
    }
  }

  lemma LocalDomainIsClean(name: string)
    requires Clean(name)
    ensures Clean(name + ".localdomain")
  {
  }

  lemma RewriteIsClean(es: seq<Entry>, ip: string, name: string)
    requires CleanEntries(es) && Clean(ip) && Clean(name)
    ensures CleanEntries(Rewrite(es, ip, name))
  {
    hide Clean, Matching, Unmatched, AllWithIP;
    UnmatchedIsClean(es, name);
    AllWithIPIsClean(Matching(es, name), ip);
    LocalDomainIsClean(name);
  }

  /** Reading back what was written gives the same entries exactly when no line is empty and
      no word is empty, holds a blank or a newline, or starts with `#`. */
  lemma FileRoundTrip(es: seq<Entry>)
    ensures ParseLines(Lines(Text(es))) == es <==> CleanEntries(es)
  {
    if CleanEntries(es) {
      CleanRoundTrip(es);
    } else {
      LinesHoldNoNewline(Text(es));
      ParsedIsClean(Lines(Text(es)));
    }
  }

  // ---------- The class ----------

  class File {
    var entries: seq<Entry>

    // Hosts::init
    constructor (text: string)
      ensures entries == ParseLines(Lines(text))
    {
      new;
      hide BeforeComment, Words, Lines;
      entries := [];
      var fil := Lines(text);
      for f := 0 to |fil|
        invariant entries + ParseLines(fil[f..]) == ParseLines(fil)
      {
        ghost var before, tail := entries, ParseLines(fil[f + 1..]);
        assert fil[f..][1..] == fil[f + 1..];
        var e := ParseLine(fil[f]);
        if |e| > 0 {
          entries := entries + [e];
          assert before + ([e] + tail) == entries + tail;
        }
      }
    }

    method Search(e: Entry, term: string) returns (found: bool)
      ensures found <==> term in e
    {
      found := false;
      for w := 0 to |e|
        invariant found <==> term in e[..w]
      {
        if e[w] == term {
          found := true;
        }
      }
      assert e[..|e|] == e;
    }

    method Find(term: string) returns (e: seq<Entry>)
      ensures e == Matching(entries, term)
    {
      e := [];
      for i := 0 to |entries|
        invariant e + Matching(entries[i..], term) == Matching(entries, term)
      {
        var found := Search(entries[i], term);
        if found {
          e := e + [entries[i]];
        }
      }
    }

    // The list is circular past its end: stepping on from there comes back to the first line.
    method Delete(term: string)
      modifies this
      ensures entries == Unmatched(old(entries), term)
    {
      var i := 0;
      ghost var wrapped := false;
      while i != |entries|
        invariant 0 <= i <= |entries|
        invariant Unmatched(entries, term) == Unmatched(old(entries), term)
        invariant forall k | 0 <= k < i :: term !in entries[k]
        invariant wrapped ==> forall k | 0 <= k < |entries| :: term !in entries[k]
        decreases !wrapped, |entries| - i
      {
        ghost var start := entries;
        var found := Search(entries[i], term);
        while i != |entries| && found
          invariant 0 <= i <= |entries| <= |start| && (!found ==> i < |entries|)
          invariant Unmatched(entries, term) == Unmatched(old(entries), term)
          invariant forall k | 0 <= k < i :: term !in entries[k]
          invariant wrapped ==> entries == start
          invariant i < |entries| ==> (found <==> term in entries[i])
          decreases |entries|
        {
          EraseUnmatched(entries, i, term);
          entries := entries[..i] + entries[i + 1..];
          if i != |entries| {
            found := Search(entries[i], term);
          }
        }
        if i == |entries| {
          wrapped := true;
          i := if |entries| == 0 then |entries| else 0;
        } else {
          i := i + 1;
        }
      }
      FilterFixed(entries, term);
    }

    method Add(e: seq<Entry>)
      modifies this
      ensures entries == old(entries) + e
    {
      for i := 0 to |e|
        invariant entries == old(entries) + e[..i]
      {
        entries := entries + [e[i]];
      }
    }

    method WriteBack() returns (text: string)
      ensures text == Text(entries)
    {
      text := "";
      for i := 0 to |entries|
        invariant text + Text(entries[i..]) == Text(entries)
      {
        var l, first := "", true;
        var e := entries[i];
        for w := 0 to |e|
          invariant first <==> w == 0
          invariant l == Joined(e[..w])
        {
          if !first {
            l := l + "\t";
          } else {
            first := false;
          }
          JoinedGrows(e[..w], e[w]);
          assert e[..w + 1] == e[..w] + [e[w]];
          l := l + e[w];
        }
        assert e[..|e|] == e;
        l := l + "\n";
        text := text + l;
      }
    }

    // The four steps with which the interface controller moves the host to a new address
    method Move(ip: string, name: string)
      modifies this
      ensures entries == Rewrite(old(entries), ip, name)
    {
      var e := Find(name);
      e := UpdateIP(e, ip, name);
      Delete(name);
      Add(e);
    }
  }

  method ParseLine(line: string) returns (e: Entry)
    ensures e == BeforeComment(Words(line))
  {
    e := [];
    var words := Words(line);
    for w := 0 to |words|
      invariant e + BeforeComment(words[w..]) == BeforeComment(words)
    {
      if words[w] != "" && words[w][0] == '#' {
        assert e + [] == e;
        return;
      }
      assert words[w..][1..] == words[w + 1..];
      e := e + [words[w]];
    }
    assert e + [] == e;
  }

  method UpdateIP(found: seq<Entry>, ip: string, name: string) returns (e: seq<Entry>)
    requires NonEmpty(found)
    ensures e == Updated(found, ip, name)
  {
    e := found;
    if |e| == 0 {
      e := NewHost(ip, name);
    } else {
      for i := 0 to |e|
        invariant |e| == |found|
        invariant forall k | 0 <= k < |e| :: e[k] == if k < i then WithIP(found[k], ip) else found[k]
      {
        if !Loopback(e[i]) {
          e := e[i := e[i][0 := ip]];
        }
      }
      forall k | 0 <= k < |e| ensures e[k] == AllWithIP(found, ip)[k] {
        AllWithIPAt(found, ip, k);
      }
    }
  }

  lemma {:induction false} EraseUnmatched(es: seq<Entry>, i: nat, term: string)
    requires i < |es| && term in es[i]
    ensures Unmatched(es[..i] + es[i + 1..], term) == Unmatched(es, term)
  {
    assert es == es[..i] + ([es[i]] + es[i + 1..]);
    UnmatchedDistributes(es[..i], es[i + 1..], term);
    UnmatchedDistributes(es[..i], [es[i]] + es[i + 1..], term);
  }

  lemma {:induction false} JoinedGrows(e: Entry, w: string)
    ensures Joined(e + [w]) == if e == [] then w else Joined(e) + "\t" + w
  {
    if |e| > 0 {
      assert (e + [w])[1..] == e[1..] + [w];
      JoinedGrows(e[1..], w);
    }
  }
}
