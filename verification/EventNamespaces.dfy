/** Namespaced event handlers: which handlers the pattern built from the requested
    namespaces matches, and what binding and unbinding leave behind. */
module EventNamespaces {
  import opened Wrappers
  import opened Strings

  // A namespace that stands for itself in the pattern: the dot separates, the bar would be an
  // alternative, and the dot of a pattern does not match a line end.
  predicate Plain(n: string) {
    n != "" && forall i | 0 <= i < |n| :: n[i] != '.' && n[i] != '|' && n[i] !in "\n\r\U{2028}\U{2029}"
  }

  predicate AllPlain(ns: seq<string>) {
    forall i | 0 <= i < |ns| :: Plain(ns[i])
  }

  function Join(ns: seq<string>): string {
    if ns == [] then "" else if |ns| == 1 then ns[0] else ns[0] + "." + Join(ns[1..])
  }

  // ---------- The pattern ----------

  // What (^|\.) and \.(?:.*\.)? allow in front of a name: the start, or a dot
  predicate Boundary(s: string, j: nat) {
    j <= |s| && (j == 0 || s[j - 1] == '.')
  }

  // The pattern of the names, from the first letter of the first one
  predicate MatchesHere(names: seq<string>, s: string)
    requires names != []
    decreases |names|, 0
  {
    && names[0] <= s
    && var rest := s[|names[0]|..];
       if |names| == 1 then rest == "" || rest[0] == '.'
       else rest != "" && rest[0] == '.' && MatchesSomewhere(names[1..], rest[1..])
  }

  predicate MatchesSomewhere(names: seq<string>, s: string)
    requires names != []
    decreases |names|, 1
  {
    exists j | 0 <= j <= |s| :: Boundary(s, j) && MatchesHere(names, s[j..])
  }

  // The names requested, sorted, against the namespace text of a handler
  predicate Test(namespaces: seq<string>, text: string)
    requires namespaces != []
  {
    MatchesSomewhere(Sort(namespaces), text)
  }

  // ---------- Matching text is choosing segments ----------

  predicate Subsequence(a: seq<string>, b: seq<string>) {
    a == [] || (b != [] && ((a[0] == b[0] && Subsequence(a[1..], b[1..])) || Subsequence(a, b[1..])))
  }

  lemma JoinStarts(h: seq<string>)
    requires h != []
    ensures h[0] <= Join(h)
    ensures |h| == 1 ==> Join(h) == h[0]
    ensures |h| > 1 ==> |Join(h)| > |h[0]| && Join(h)[|h[0]|] == '.' && Join(h)[|h[0]| + 1..] == Join(h[1..])
  {
  }

  // A boundary in a joined text is the start of a segment.
  lemma {:induction false} BoundaryIsSegment(h: seq<string>, j: nat) returns (k: nat)
    requires h != [] && AllPlain(h) && Boundary(Join(h), j)
    ensures k < |h| && Join(h)[j..] == Join(h[k..])
    decreases |h|
  {
    JoinStarts(h);
    var s := Join(h);
    if j == 0 {
      k := 0;
      assert h[0..] == h && s[0..] == s;
    } else {
      assert Plain(h[0]);
      assert forall i | 0 <= i < |h[0]| :: s[i] == h[0][i];
      assert j > |h[0]|;
      var m := j - |h[0]| - 1;
      assert s[|h[0]| + 1..][m..] == s[j..];
      assert m > 0 ==> Join(h[1..])[m - 1] == s[j - 1];
      k := BoundaryIsSegment(h[1..], m);
      k := k + 1;
      assert h[1..][k - 1..] == h[k..];
    }
  }

  lemma {:induction false} SegmentHasBoundary(h: seq<string>, k: nat) returns (j: nat)
    requires k < |h|
    ensures Boundary(Join(h), j) && Join(h)[j..] == Join(h[k..])
    decreases k
  {
    JoinStarts(h);
    var s := Join(h);
    if k == 0 {
      j := 0;
      assert h[0..] == h && s[0..] == s;
    } else {
      var m := SegmentHasBoundary(h[1..], k - 1);
      j := m + |h[0]| + 1;
      assert s[|h[0]| + 1..][m..] == s[j..];
      assert m > 0 ==> s[j - 1] == Join(h[1..])[m - 1];
      assert h[1..][k - 1..] == h[k..];
    }
  }

  // A name matches only a whole segment.
  lemma HeadIsSegment(names: seq<string>, h: seq<string>)
    requires names != [] && h != [] && AllPlain(names) && AllPlain(h)
    ensures MatchesHere(names, Join(h)) <==>
            names[0] == h[0] && (|names| == 1 || (|h| > 1 && MatchesSomewhere(names[1..], Join(h[1..]))))
  {
    var n, s := names[0], Join(h);
    JoinStarts(h);
    assert Plain(n) && Plain(h[0]);
    if MatchesHere(names, s) {
      assert forall i | 0 <= i < |n| :: s[i] == n[i];
      assert forall i | 0 <= i < |h[0]| :: s[i] == h[0][i];
      assert |n| == |h[0]|;
      assert n == h[0];
    }
    if n == h[0] && |h| > 1 {
      assert s[|n|..][1..] == Join(h[1..]);
    }
  }

  lemma {:induction false} SubsequenceSkips(a: seq<string>, b: seq<string>, k: nat)
    requires k <= |b| && Subsequence(a, b[k..])
    ensures Subsequence(a, b)
    decreases k
  {
    if k == 0 {
      assert b[0..] == b;
    } else {
      assert b[1..][k - 1..] == b[k..];
      SubsequenceSkips(a, b[1..], k - 1);
    }
  }

  lemma {:induction false} SubsequenceStarts(a: seq<string>, b: seq<string>) returns (k: nat)
    requires a != [] && Subsequence(a, b)
    ensures k < |b| && a[0] == b[k] && Subsequence(a[1..], b[k + 1..])
    decreases |b|
  {
    if a[0] == b[0] && Subsequence(a[1..], b[1..]) {
      k := 0;
    } else {
      k := SubsequenceStarts(a, b[1..]);
      k := k + 1;
      assert b[1..][k..] == b[k + 1..];
    }
  }

  lemma EmptyTextMatchesNothing(names: seq<string>, j: nat)
    requires names != [] && AllPlain(names) && j <= |""|
    ensures !MatchesHere(names, ""[j..])
  {
    assert Plain(names[0]);
  }

  lemma {:induction false} MatchGivesSubsequence(names: seq<string>, h: seq<string>)
    requires names != [] && AllPlain(names) && AllPlain(h) && MatchesSomewhere(names, Join(h))
    ensures Subsequence(names, h)
    decreases |names|
  {
    hide MatchesHere, Plain;
    var s := Join(h);
    var j: nat :| j <= |s| && Boundary(s, j) && MatchesHere(names, s[j..]);
    if h == [] {
      EmptyTextMatchesNothing(names, j);
    } else {
      hide Join;
      var k := BoundaryIsSegment(h, j);
      HeadIsSegment(names, h[k..]);
      assert h[k..][1..] == h[k + 1..];
      if |names| > 1 {
        MatchGivesSubsequence(names[1..], h[k + 1..]);
      }
      assert Subsequence(names, h[k..]);
      SubsequenceSkips(names, h, k);
    }
  }

  lemma {:induction false} SubsequenceGivesMatch(names: seq<string>, h: seq<string>)
    requires names != [] && AllPlain(names) && AllPlain(h) && Subsequence(names, h)
    ensures MatchesSomewhere(names, Join(h))
    decreases |names|
  {
    hide MatchesHere, Plain, Join;
    var k := SubsequenceStarts(names, h);
    var j := SegmentHasBoundary(h, k);
    assert h[k..][1..] == h[k + 1..];
    if |names| > 1 {
      SubsequenceGivesMatch(names[1..], h[k + 1..]);
      assert h[k + 1..] != [];
    }
    HeadIsSegment(names, h[k..]);
    assert Boundary(Join(h), j) && MatchesHere(names, Join(h)[j..]);
  }

  // ---------- Sorted subsequences are sub-multisets ----------

  lemma {:induction false} SubsequenceIsContained(a: seq<string>, b: seq<string>)
    requires Subsequence(a, b)
    ensures multiset(a) <= multiset(b)
    decreases |b|
  {
    if a != [] {
      assert b == [b[0]] + b[1..];
      if a[0] == b[0] && Subsequence(a[1..], b[1..]) {
        assert a == [a[0]] + a[1..];
        SubsequenceIsContained(a[1..], b[1..]);
      } else {
        SubsequenceIsContained(a, b[1..]);
      }
    }
  }

  lemma {:induction false} ContainedIsSubsequence(a: seq<string>, b: seq<string>)
    requires Sorted(a) && Sorted(b) && multiset(a) <= multiset(b)
    ensures Subsequence(a, b)
    decreases |b|
  {
    if a != [] {
      assert a[0] in multiset(b);
      assert b == [b[0]] + b[1..] && a == [a[0]] + a[1..];
      if a[0] == b[0] {
        Cancel(a[0], multiset(a[1..]), multiset(b[1..]));
        ContainedIsSubsequence(a[1..], b[1..]);
      } else {
        SmallerIsAbsent(a, b);
        DropAbsent(b[0], multiset(a), multiset(b[1..]));
        ContainedIsSubsequence(a, b[1..]);
      }
    }
  }

  lemma Cancel(x: string, a: multiset<string>, b: multiset<string>)
    requires multiset{x} + a <= multiset{x} + b
    ensures a <= b
  {
    forall n ensures a[n] <= b[n] {
      assert (multiset{x} + a)[n] <= (multiset{x} + b)[n];
    }
  }

  lemma DropAbsent(x: string, a: multiset<string>, b: multiset<string>)
    requires a <= multiset{x} + b && x !in a
    ensures a <= b
  {
    forall n ensures a[n] <= b[n] {
      assert a[n] <= (multiset{x} + b)[n];
    }
  }

  lemma SmallerIsAbsent(a: seq<string>, b: seq<string>)
    requires a != [] && b != [] && Sorted(a) && Sorted(b) && a[0] != b[0] && a[0] in b
    ensures b[0] !in a
  {
    var k :| 0 <= k < |b| && b[k] == a[0];
    assert LessOrEqual(b[0], b[k]);
    if b[0] in a {
      var i :| 0 <= i < |a| && a[i] == b[0];
      assert LessOrEqual(a[0], a[i]);
      LessIsTotal(a[0], b[0]);
    }
  }

  lemma SortKeepsPlain(ns: seq<string>)
    requires AllPlain(ns)
    ensures AllPlain(Sort(ns))
  {
    SortIsSorted(ns);
    forall i | 0 <= i < |Sort(ns)| ensures Plain(Sort(ns)[i]) {
      assert Sort(ns)[i] in multiset(Sort(ns));
    }
  }

  lemma SortKeepsLength(ns: seq<string>)
    ensures |Sort(ns)| == |ns|
  {
    SortIsSorted(ns);
    assert |multiset(Sort(ns))| == |multiset(ns)|;
  }

  /** The pattern matches a handler exactly when it has every requested namespace at least as
      often as it is requested. */
  lemma PatternMeansContained(requested: seq<string>, own: seq<string>)
    requires requested != [] && AllPlain(requested) && AllPlain(own)
    ensures Test(requested, Join(Sort(own))) <==> multiset(requested) <= multiset(own)
  {
    SortIsSorted(requested);
    SortIsSorted(own);
    SortKeepsPlain(requested);
    SortKeepsPlain(own);
    SortKeepsLength(requested);
    hide Join, MatchesSomewhere, Plain, Sorted;
    if MatchesSomewhere(Sort(requested), Join(Sort(own))) {
      MatchGivesSubsequence(Sort(requested), Sort(own));
      SubsequenceIsContained(Sort(requested), Sort(own));
    }
    if multiset(requested) <= multiset(own) {
      ContainedIsSubsequence(Sort(requested), Sort(own));
      SubsequenceGivesMatch(Sort(requested), Sort(own));
    }
  }

  predicate NoDuplicates(ns: seq<string>) {
    forall i, j | 0 <= i < j < |ns| :: ns[i] != ns[j]
  }

  ghost predicate AllAmong(requested: seq<string>, own: seq<string>) {
    forall n <- requested :: n in own
  }

  lemma {:induction false} CountsOfDistinct(ns: seq<string>, n: string)
    requires NoDuplicates(ns)
    ensures multiset(ns)[n] <= 1
  {
    if ns != [] {
      assert ns == [ns[0]] + ns[1..];
      CountsOfDistinct(ns[1..], n);
    }
  }

  lemma TwiceCounts(ns: seq<string>, i: nat, j: nat)
    requires i < j < |ns| && ns[i] == ns[j]
    ensures multiset(ns)[ns[i]] >= 2
  {
    assert ns == ns[..j] + ns[j..];
    assert ns[..j][i] == ns[i] && ns[j..][0] == ns[j];
    assert ns[i] in multiset(ns[..j]) && ns[i] in multiset(ns[j..]);
  }

  /** That this is the same as having every requested namespace, whatever the handler, is so
      exactly for requests without duplicates. */
  lemma ContainedMeansAmong(requested: seq<string>)
    requires requested != [] && AllPlain(requested)
    ensures NoDuplicates(requested) <==>
            forall own | AllPlain(own) :: Test(requested, Join(Sort(own))) <==> AllAmong(requested, own)
  {
    if NoDuplicates(requested) {
      forall own | AllPlain(own) ensures Test(requested, Join(Sort(own))) <==> AllAmong(requested, own) {
        PatternMeansContained(requested, own);
        forall n ensures multiset(requested)[n] <= 1 {
          CountsOfDistinct(requested, n);
        }
        if multiset(requested) <= multiset(own) {
          forall n <- requested ensures n in own {
            assert n in multiset(own);
          }
        }
        if AllAmong(requested, own) {
          forall n <- multiset(requested) ensures multiset(requested)[n] <= multiset(own)[n] {
            assert n in requested;
            assert n in multiset(own);
          }
        }
      }
    } else {
      var i, j :| 0 <= i < j < |requested| && requested[i] == requested[j];
      TwiceCounts(requested, i, j);
      var own := WithoutDuplicates(requested);
      DistinctHolds(requested);
      PatternMeansContained(requested, own);
      CountsOfDistinct(own, requested[i]);
      assert AllAmong(requested, own) && !Test(requested, Join(Sort(own)));
    }
  }

  function WithoutDuplicates(ns: seq<string>): seq<string> {
    if ns == [] then [] else
      var rest := WithoutDuplicates(ns[1..]);
      if ns[0] in rest then rest else [ns[0]] + rest
  }

  lemma {:induction false} DistinctHolds(ns: seq<string>)
    requires AllPlain(ns)
    ensures NoDuplicates(WithoutDuplicates(ns)) && AllPlain(WithoutDuplicates(ns))
    ensures forall n :: n in WithoutDuplicates(ns) <==> n in ns
  {
    if ns != [] {
      DistinctHolds(ns[1..]);
      assert forall n :: n in ns <==> n == ns[0] || n in ns[1..];
    }
  }

  // ---------- Binding and unbinding ----------

  datatype HandleObj = HandleObj(guid: nat, namespace: string)

  // What unbinding takes away: with no namespaces, or no handler given, all of them
  predicate Doomed(h: HandleObj, namespaces: seq<string>, guid: Option<nat>) {
    (guid.None? || h.guid == guid.value) && (namespaces == [] || Test(namespaces, h.namespace))
  }

  function Kept(hs: seq<HandleObj>, namespaces: seq<string>, guid: Option<nat>): seq<HandleObj> {
    if hs == [] then [] else
      (if Doomed(hs[0], namespaces, guid) then [] else [hs[0]]) + Kept(hs[1..], namespaces, guid)
  }

  lemma {:induction false} KeptAppends(a: seq<HandleObj>, b: seq<HandleObj>, namespaces: seq<string>, guid: Option<nat>)
    ensures Kept(a + b, namespaces, guid) == Kept(a, namespaces, guid) + Kept(b, namespaces, guid)
  {
    hide Doomed;
    if a == [] {
      assert a + b == b;
    } else {
      assert (a + b)[1..] == a[1..] + b && (a + b)[0] == a[0];
      KeptAppends(a[1..], b, namespaces, guid);
    }
  }

  /** Unbinding takes away a handler bound with the namespaces `own` exactly when it is the
      handler asked for and has all the namespaces asked for. */
  lemma DoomedMeansContained(guid: nat, own: seq<string>, requested: seq<string>, wanted: Option<nat>)
    requires AllPlain(own) && AllPlain(requested)
    ensures Doomed(HandleObj(guid, Join(Sort(own))), requested, wanted) <==>
            (wanted.None? || guid == wanted.value) && multiset(requested) <= multiset(own)
  {
    if requested != [] {
      PatternMeansContained(requested, own);
    }
  }

  // ---------- The text of a request ----------

  // String.split
  function Split(s: string, c: char): (r: seq<string>)
    ensures r != []
    decreases |s|
  {
    var k := Position(s, c);
    if k == |s| then [s] else [s[..k]] + Split(s[k + 1..], c)
  }

  // The types up to the first empty one, at which both loops stop
  function Types(parts: seq<string>): seq<string> {
    if parts == [] || parts[0] == "" then [] else [parts[0]] + Types(parts[1..])
  }

  function KindOf(text: string): string {
    Split(text, '.')[0]
  }

  function NamespacesOf(text: string): seq<string> {
    Split(text, '.')[1..]
  }

  lemma {:induction false} SplitOfJoin(ns: seq<string>)
    requires ns != [] && forall i | 0 <= i < |ns| :: '.' !in ns[i]
    ensures Split(Join(ns), '.') == ns
  {
    JoinStarts(ns);
    PositionIs(Join(ns), '.', |ns[0]|);
    if |ns| > 1 {
      assert forall i | 0 <= i < |ns[1..]| :: ns[1..][i] == ns[i + 1];
      SplitOfJoin(ns[1..]);
      assert Join(ns)[..|ns[0]|] == ns[0];
    }
  }

  /** A type and its namespaces are read back from the text that joins them by dots. */
  lemma TypeTextIsRead(kind: string, ns: seq<string>)
    requires '.' !in kind && AllPlain(ns)
    ensures KindOf(Join([kind] + ns)) == kind && NamespacesOf(Join([kind] + ns)) == ns
  {
    var all := [kind] + ns;
    assert forall i | 0 <= i < |ns| :: Plain(ns[i]);
    SplitOfJoin(all);
  }

  // The parts with the character in between
  function Glue(parts: seq<string>, c: char): string {
    if parts == [] then "" else if |parts| == 1 then parts[0] else parts[0] + [c] + Glue(parts[1..], c)
  }

  lemma {:induction false} SplitGlues(s: string, c: char)
    ensures var parts := Split(s, c); (forall i | 0 <= i < |parts| :: c !in parts[i]) && Glue(parts, c) == s
    decreases |s|
  {
    PositionHolds(s, c);
    var k := Position(s, c);
    if k < |s| {
      SplitGlues(s[k + 1..], c);
      var rest := Split(s[k + 1..], c);
      assert ([s[..k]] + rest)[1..] == rest && s == s[..k] + [c] + s[k + 1..];
    } else {
      assert s[..k] == s;
    }
  }

  lemma SplitFirst(first: string, c: char, rest: string)
    requires c !in first
    ensures Split(first, c) == [first] && Split(first + [c] + rest, c) == [first] + Split(rest, c)
  {
    hide Position;
    var s := first + [c] + rest;
    PositionIs(first, c, |first|);
    PositionIs(s, c, |first|);
    assert s[|first| + 1..] == rest && s[..|first|] == first && first[..|first|] == first;
  }

  lemma {:induction false} GlueSplits(parts: seq<string>, c: char)
    requires parts != [] && forall i | 0 <= i < |parts| :: c !in parts[i]
    ensures Split(Glue(parts, c), c) == parts
    decreases |parts|
  {
    hide Split;
    var rest := parts[1..];
    SplitFirst(parts[0], c, Glue(rest, c));
    assert parts == [parts[0]] + rest;
    if rest != [] {
      assert forall i | 0 <= i < |rest| :: rest[i] == parts[i + 1];
      GlueSplits(rest, c);
    }
  }

  /** Splitting a text gives the one list of parts without the character that it is made of. */
  lemma SplitExactly(s: string, c: char, parts: seq<string>)
    ensures Split(s, c) == parts <==> parts != [] && (forall i | 0 <= i < |parts| :: c !in parts[i]) && Glue(parts, c) == s
  {
    SplitGlues(s, c);
    if parts != [] && forall i | 0 <= i < |parts| :: c !in parts[i] {
      GlueSplits(parts, c);
    }
  }

  lemma PositionHolds(s: string, c: char)
    ensures c !in s[..Position(s, c)] && (Position(s, c) < |s| ==> s[Position(s, c)] == c)
  {
  }

  /** The types of a text are its parts up to the first empty one. */
  lemma {:induction false} TypesStopAtEmpty(parts: seq<string>)
    ensures var types := Types(parts);
            && types <= parts && (forall i | 0 <= i < |types| :: types[i] != "")
            && (|types| < |parts| ==> parts[|types|] == "")
  {
    if parts != [] && parts[0] != "" {
      TypesStopAtEmpty(parts[1..]);
      assert parts == [parts[0]] + parts[1..];
    }
  }

  type Events = map<string, seq<HandleObj>>

  function Bound(events: Events, kind: string, namespaces: seq<string>, guid: nat): Events {
    events[kind := (if kind in events then events[kind] else []) + [HandleObj(guid, Join(Sort(namespaces)))]]
  }

  function Unbound(events: Events, kind: string, namespaces: seq<string>, guid: Option<nat>): Events {
    if kind !in events then events else
      var rest := Kept(events[kind], namespaces, guid);
      if rest == [] then events - {kind} else events[kind := rest]
  }

  function BoundAll(events: Events, types: seq<string>, guid: nat): Events
    decreases |types|
  {
    if types == [] then events
    else BoundAll(Bound(events, KindOf(types[0]), NamespacesOf(types[0]), guid), types[1..], guid)
  }

  function UnboundAll(events: Events, types: seq<string>, guid: Option<nat>): Events
    decreases |types|
  {
    if types == [] then events
    else UnboundAll(Unbound(events, KindOf(types[0]), NamespacesOf(types[0]), guid), types[1..], guid)
  }

  function HandlersOf(events: Events, kind: string): seq<HandleObj> {
    if kind in events then events[kind] else []
  }

  // One handler for each type of this kind, in the order of the text
  function Added(types: seq<string>, kind: string, guid: nat): seq<HandleObj> {
    if types == [] then [] else
      (if KindOf(types[0]) == kind then [HandleObj(guid, Join(Sort(NamespacesOf(types[0]))))] else []) +
      Added(types[1..], kind, guid)
  }

  /** Binding several types appends to the handlers of each kind those of its types, and to no
      other. */
  lemma {:induction false} BindsEachType(events: Events, types: seq<string>, guid: nat, kind: string)
    ensures HandlersOf(BoundAll(events, types, guid), kind) == HandlersOf(events, kind) + Added(types, kind, guid)
    decreases |types|
  {
    hide KindOf, NamespacesOf, Join, Sort;
    if types != [] {
      BindsEachType(Bound(events, KindOf(types[0]), NamespacesOf(types[0]), guid), types[1..], guid, kind);
    }
  }

  // None of the types asks for the handler.
  predicate Spared(h: HandleObj, types: seq<string>, kind: string, guid: Option<nat>) {
    forall i | 0 <= i < |types| :: KindOf(types[i]) == kind ==> !Doomed(h, NamespacesOf(types[i]), guid)
  }

  function AllSpared(hs: seq<HandleObj>, types: seq<string>, kind: string, guid: Option<nat>): seq<HandleObj> {
    if hs == [] then [] else (if Spared(hs[0], types, kind, guid) then [hs[0]] else []) + AllSpared(hs[1..], types, kind, guid)
  }

  lemma {:induction false} SparedByFirst(hs: seq<HandleObj>, types: seq<string>, kind: string, guid: Option<nat>)
    requires types != []
    ensures AllSpared(hs, types, kind, guid)
         == AllSpared(if KindOf(types[0]) == kind then Kept(hs, NamespacesOf(types[0]), guid) else hs, types[1..], kind, guid)
  {
    hide KindOf, NamespacesOf, Doomed;
    if hs != [] {
      SparedByFirst(hs[1..], types, kind, guid);
      var h, rest := hs[0], types[1..];
      var left := Kept(hs[1..], NamespacesOf(types[0]), guid);
      assert ([h] + left)[1..] == left && [] + left == left;
      assert forall i | 0 <= i < |rest| :: rest[i] == types[i + 1];
      assert forall i | 1 <= i < |types| :: types[i] == rest[i - 1];
      assert Spared(h, types, kind, guid) <==>
             (KindOf(types[0]) == kind ==> !Doomed(h, NamespacesOf(types[0]), guid)) && Spared(h, rest, kind, guid);
    }
  }

  lemma {:induction false} SparedByNone(hs: seq<HandleObj>, kind: string, guid: Option<nat>)
    ensures AllSpared(hs, [], kind, guid) == hs
  {
    if hs != [] {
      SparedByNone(hs[1..], kind, guid);
    }
  }

  /** Unbinding several types leaves of each kind, in order, the handlers that none of its types
      asks for. */
  lemma {:induction false} UnbindsEachType(events: Events, types: seq<string>, guid: Option<nat>, kind: string)
    ensures HandlersOf(UnboundAll(events, types, guid), kind) == AllSpared(HandlersOf(events, kind), types, kind, guid)
    decreases |types|
  {
    hide KindOf, NamespacesOf, Doomed;
    if types == [] {
      SparedByNone(HandlersOf(events, kind), kind, guid);
    } else {
      SparedByFirst(HandlersOf(events, kind), types, kind, guid);
      NothingKept(NamespacesOf(types[0]), guid);
      UnbindsEachType(Unbound(events, KindOf(types[0]), NamespacesOf(types[0]), guid), types[1..], guid, kind);
    }
  }

  // What unbinding the requested namespaces leaves of the type after a binding with its own
  function Remaining(before: seq<HandleObj>, own: seq<string>, requested: seq<string>, guid: nat): seq<HandleObj> {
    Kept(before, requested, Some(guid)) +
    if multiset(requested) <= multiset(own) then [] else [HandleObj(guid, Join(Sort(own)))]
  }

  lemma UnboundIsRemaining(events: Events, kind: string, own: seq<string>, requested: seq<string>, guid: nat)
    requires AllPlain(own) && AllPlain(requested)
    ensures var rest := Remaining(if kind in events then events[kind] else [], own, requested, guid);
            Unbound(Bound(events, kind, own, guid), kind, requested, Some(guid))
            == if rest == [] then events - {kind} else events[kind := rest]
  {
    hide Doomed, Join, Sort, AllPlain;
    var before := if kind in events then events[kind] else [];
    var h := HandleObj(guid, Join(Sort(own)));
    KeptAppends(before, [h], requested, Some(guid));
    DoomedMeansContained(guid, own, requested, Some(guid));
    KeptOfOne(h, requested, Some(guid));
    var bound := Bound(events, kind, own, guid);
    assert bound[kind] == before + [h] && bound - {kind} == events - {kind};
  }

  lemma KeptOfOne(h: HandleObj, namespaces: seq<string>, guid: Option<nat>)
    ensures Kept([h], namespaces, guid) == if Doomed(h, namespaces, guid) then [] else [h]
  {
    hide Doomed;
    assert [h][1..] == [];
  }

  lemma OneType(events: Events, text: string, guid: nat, wanted: Option<nat>)
    ensures BoundAll(events, [text], guid) == Bound(events, KindOf(text), NamespacesOf(text), guid)
    ensures UnboundAll(events, [text], wanted) == Unbound(events, KindOf(text), NamespacesOf(text), wanted)
  {
    hide KindOf, NamespacesOf, Bound, Unbound;
    assert [text][1..] == [];
  }

  lemma {:induction false} TypesOfOne(text: string)
    requires text != "" && ' ' !in text
    ensures Types(Split(text, ' ')) == [text]
  {
    PositionIs(text, ' ', |text|);
    assert [text][1..] == [];
  }

  lemma {:induction false} JoinHolds(ns: seq<string>, c: char)
    requires c != '.' && forall i | 0 <= i < |ns| :: c !in ns[i]
    ensures c !in Join(ns)
  {
    if |ns| > 1 {
      assert forall i | 0 <= i < |ns[1..]| :: ns[1..][i] == ns[i + 1];
      JoinHolds(ns[1..], c);
    }
  }

  // A type and namespaces without blanks make one word.
  predicate OneWord(kind: string, ns: seq<string>) {
    kind != "" && '.' !in kind && ' ' !in kind && AllPlain(ns) && forall i | 0 <= i < |ns| :: ' ' !in ns[i]
  }

  lemma OneWordIsOneType(kind: string, ns: seq<string>)
    requires OneWord(kind, ns)
    ensures Types(Split(Join([kind] + ns), ' ')) == [Join([kind] + ns)]
    ensures Join([kind] + ns) != "" && Join([kind] + ns)[0] != '.'
  {
    hide Split, Types, Plain;
    var all := [kind] + ns;
    assert forall i | 0 <= i < |all| :: ' ' !in all[i];
    JoinHolds(all, ' ');
    JoinStarts(all);
    assert kind <= Join(all) && kind[0] != '.';
    TypesOfOne(Join(all));
  }

  /** Binding a handler under a type with namespaces and unbinding it under the type with others, as
      texts: it is taken away exactly when it has all the namespaces asked for, and of those before
      it what has to go. */
  lemma UnboundAfterBound(events: Events, kind: string, own: seq<string>, requested: seq<string>, guid: nat)
    requires OneWord(kind, own) && OneWord(kind, requested)
    ensures var bound := BoundAll(events, Types(Split(Join([kind] + own), ' ')), guid);
            var rest := Remaining(if kind in events then events[kind] else [], own, requested, guid);
            UnboundAll(bound, Types(Split(Join([kind] + requested), ' ')), Some(guid))
            == if rest == [] then events - {kind} else events[kind := rest]
  {
    hide KindOf, NamespacesOf, Bound, Unbound, Remaining, Join, AllPlain, BoundAll, UnboundAll, Types, Split;
    OneWordIsOneType(kind, own);
    OneWordIsOneType(kind, requested);
    TypeTextIsRead(kind, own);
    TypeTextIsRead(kind, requested);
    OneType(events, Join([kind] + own), guid, None);
    OneType(Bound(events, kind, own, guid), Join([kind] + requested), guid, Some(guid));
    UnboundIsRemaining(events, kind, own, requested, guid);
  }

  // The handlers of one element, by event type; no list is empty
  class Bindings {
    var events: Events

    ghost predicate Valid()
      reads this
    {
      forall t <- events :: events[t] != []
    }

    constructor ()
      ensures Valid() && events == map[]
    {
      events := map[];
    }

    method Add(kind: string, namespaces: seq<string>, guid: nat)
      requires Valid()
      modifies this
      ensures Valid()
      ensures events == Bound(old(events), kind, namespaces, guid)
    {
      var handlers := if kind in events then events[kind] else [];
      events := events[kind := handlers + [HandleObj(guid, Join(Sort(namespaces)))]];
    }

    // The inner call of the loop without a handler: it only clears the type when the last
    // handler is about to go.
    method RemoveAt(kind: string, pos: nat)
      requires kind in events && pos < |events[kind]|
      modifies this
      ensures events == if |old(events)[kind]| == 1 then old(events) - {kind} else old(events)
    {
      if |events[kind]| == 1 {
        events := events - {kind};
      }
    }

    method Remove(kind: string, namespaces: seq<string>, guid: Option<nat>)
      requires Valid()
      modifies this
      ensures Valid()
      ensures events == Unbound(old(events), kind, namespaces, guid)
    {
      hide Doomed, Kept;
      if kind !in events {
        return;
      }
      var eventType := events[kind];
      var j := 0;
      assert old(events)[kind := eventType] == old(events);
      NothingKept(namespaces, guid);
      while j < |eventType|
        invariant 0 <= j <= |eventType|
        invariant Kept(eventType, namespaces, guid) == Kept(old(events)[kind], namespaces, guid)
        invariant Kept(eventType[..j], namespaces, guid) == eventType[..j]
        invariant events == if guid.None? && eventType == [] then old(events) - {kind}
                            else old(events)[kind := eventType]
        decreases |eventType| - j
      {
        Splice(eventType, j, namespaces, guid);
        if Doomed(eventType[j], namespaces, guid) {
          if guid.None? {
            RemoveAt(kind, j);
          }
          eventType := eventType[..j] + eventType[j + 1..];
          if kind in events {
            events := events[kind := eventType];
          }
        } else {
          j := j + 1;
        }
      }
      assert eventType[..j] == eventType;
      if guid.Some? && |eventType| == 0 {
        events := events - {kind};
      }
    }

    // jQuery.event.add, for all types of the text
    method Bind(types: string, guid: nat)
      requires Valid()
      modifies this
      ensures Valid() && events == BoundAll(old(events), Types(Split(types, ' ')), guid)
    {
      hide Bound, Split, Valid;
      var parts := Split(types, ' ');
      var i := 0;
      while i < |parts| && parts[i] != ""
        invariant 0 <= i <= |parts| && Valid()
        invariant BoundAll(events, Types(parts[i..]), guid) == BoundAll(old(events), Types(parts), guid)
      {
        Add(KindOf(parts[i]), NamespacesOf(parts[i]), guid);
        assert parts[i..][1..] == parts[i + 1..];
        i := i + 1;
      }
    }

    // jQuery.event.remove
    method Unbind(types: string, guid: Option<nat>)
      requires Valid() && types != "" && types[0] != '.'
      modifies this
      ensures Valid() && events == UnboundAll(old(events), Types(Split(types, ' ')), guid)
    {
      hide Unbound, Split, Valid;
      var parts := Split(types, ' ');
      var i := 0;
      while i < |parts| && parts[i] != ""
        invariant 0 <= i <= |parts| && Valid()
        invariant UnboundAll(events, Types(parts[i..]), guid) == UnboundAll(old(events), Types(parts), guid)
      {
        Remove(KindOf(parts[i]), NamespacesOf(parts[i]), guid);
        assert parts[i..][1..] == parts[i + 1..];
        i := i + 1;
      }
    }
  }

  /** The same as the two methods run. */
  method BindThenUnbind(b: Bindings, kind: string, own: seq<string>, requested: seq<string>, guid: nat)
    requires b.Valid() && OneWord(kind, own) && OneWord(kind, requested)
    modifies b
    ensures b.Valid()
    ensures var was := old(b.events);
            var rest := Remaining(if kind in was then was[kind] else [], own, requested, guid);
            b.events == if rest == [] then was - {kind} else was[kind := rest]
  {
    hide Join, Types, Split, Remaining, BoundAll, UnboundAll;
    UnboundAfterBound(b.events, kind, own, requested, guid);
    OneWordIsOneType(kind, requested);
    b.Bind(Join([kind] + own), guid);
    b.Unbind(Join([kind] + requested), Some(guid));
  }

  lemma NothingKept(namespaces: seq<string>, guid: Option<nat>)
    ensures Kept([], namespaces, guid) == []
  {
  }

  lemma Splice(hs: seq<HandleObj>, j: nat, namespaces: seq<string>, guid: Option<nat>)
    requires j < |hs| && Kept(hs[..j], namespaces, guid) == hs[..j]
    ensures Doomed(hs[j], namespaces, guid) ==>
              var less := hs[..j] + hs[j + 1..];
              Kept(less, namespaces, guid) == Kept(hs, namespaces, guid) && less[..j] == hs[..j]
    ensures !Doomed(hs[j], namespaces, guid) ==> Kept(hs[..j + 1], namespaces, guid) == hs[..j + 1]
  {
    hide Doomed;
    assert hs == (hs[..j] + [hs[j]]) + hs[j + 1..] && hs[..j + 1] == hs[..j] + [hs[j]];
    KeptAppends(hs[..j] + [hs[j]], hs[j + 1..], namespaces, guid);
    KeptAppends(hs[..j], [hs[j]], namespaces, guid);
    KeptAppends(hs[..j], hs[j + 1..], namespaces, guid);
  }
}
