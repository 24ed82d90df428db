/** The list of radio capabilities, kept as one bracketed string and read back by searching
    it for the known names. */
module HtCapabilities {
  import opened SimpleCfg
  import opened Strings

  const KNOWN: seq<string> := [
    "LDPC", "HT40-", "HT40+", "SMPS-STATIC", "SMPS-DYNAMIC", "GF", "SHORT-GI-20", "SHORT-GI-40",
    "TX-STBC", "RX-STBC1", "RX-STBC12", "RX-STBC123", "DELAYED-BA", "MAX-AMSDU-7935",
    "DSSS_CCK-40", "PSMP", "LSIG-TXOP-PROT"]

  predicate NoBrackets(n: string) {
    forall i | 0 <= i < |n| :: n[i] != '[' && n[i] != ']'
  }

  predicate AllNoBrackets(ns: seq<string>) {
    forall i | 0 <= i < |ns| :: NoBrackets(ns[i])
  }

  function Block(n: string): string {
    "[" + n + "]"
  }

  function Blocks(ns: seq<string>): string {
    if ns == [] then "" else Block(ns[0]) + Blocks(ns[1..])
  }

  predicate At(s: string, t: string, p: nat) {
    p + |t| <= |s| && s[p..p + |t|] == t
  }

  // string::find
  predicate Contains(s: string, t: string) {
    exists p | 0 <= p <= |s| :: At(s, t, p)
  }

  // The known names whose block the string holds, in the order of the table
  function Found(names: seq<string>, s: string): seq<string> {
    if names == [] then [] else (if Contains(s, Block(names[0])) then [names[0]] else []) + Found(names[1..], s)
  }

  function Among(names: seq<string>, ns: seq<string>): seq<string> {
    if names == [] then [] else (if names[0] in ns then [names[0]] else []) + Among(names[1..], ns)
  }

  lemma AtIs(s: string, t: string, p: nat, i: nat)
    requires At(s, t, p) && i < |t|
    ensures s[p + i] == t[i]
  {
    assert s[p..p + |t|][i] == s[p + i];
  }

  // In front of a closing bracket, or behind it
  lemma BlockEndsAtBracket(first: string, rest: string, n: string, p: nat)
    requires NoBrackets(n) && At(first + rest, Block(n), p) && first != "" && first[|first| - 1] == ']'
    ensures p + |Block(n)| <= |first| || p >= |first|
  {
    var s, t, m := first + rest, Block(n), |first|;
    assert s[m - 1] == ']' && forall j | 0 <= j < |t| - 1 :: t[j] != ']';
    if p < m < p + |t| {
      AtIs(s, t, p, m - 1 - p);
    }
  }

  lemma AtFirst(first: string, rest: string, t: string, p: nat)
    requires At(first + rest, t, p) && p + |t| <= |first|
    ensures Contains(first, t)
  {
    assert first[p..p + |t|] == (first + rest)[p..p + |t|];
    assert At(first, t, p);
  }

  lemma AtRest(first: string, rest: string, t: string, p: nat)
    requires At(first + rest, t, p) && p >= |first|
    ensures At(rest, t, p - |first|)
  {
    assert rest[p - |first|..p - |first| + |t|] == (first + rest)[p..p + |t|];
  }

  // The block of a name without brackets does not reach over the end of a written block.
  lemma {:induction false} BlockLiesInOne(ns: seq<string>, n: string, p: nat) returns (k: nat)
    requires NoBrackets(n) && At(Blocks(ns), Block(n), p)
    ensures k < |ns| && Contains(Block(ns[k]), Block(n))
    decreases |ns|
  {
    hide At, Contains, NoBrackets;
    NothingHasNoBlock(n, p);
    var first, rest := Block(ns[0]), Blocks(ns[1..]);
    assert first[|first| - 1] == ']';
    BlockEndsAtBracket(first, rest, n, p);
    if p + |Block(n)| <= |first| {
      AtFirst(first, rest, Block(n), p);
      k := 0;
    } else {
      AtRest(first, rest, Block(n), p);
      var j := BlockLiesInOne(ns[1..], n, p - |first|);
      k := j + 1;
    }
  }

  lemma NothingHasNoBlock(n: string, p: nat)
    ensures !At("", Block(n), p)
  {
  }

  // A name without brackets has only itself for its block.
  lemma PlainBlockHoldsItself(m: string, n: string)
    requires NoBrackets(m) && NoBrackets(n) && Contains(Block(m), Block(n))
    ensures m == n
  {
    var b, t := Block(m), Block(n);
    var p: nat :| p <= |b| && At(b, t, p);
    AtIs(b, t, p, 0);
    AtIs(b, t, p, |n| + 1);
    assert p == 0 && |t| == |b|;
    assert b[p..p + |t|] == b && m == b[1..|b| - 1] && n == t[1..|t| - 1];
  }

  lemma {:induction false} BlockIsThere(ns: seq<string>, k: nat) returns (p: nat)
    requires k < |ns|
    ensures At(Blocks(ns), Block(ns[k]), p)
    decreases k
  {
    var first, rest := Block(ns[0]), Blocks(ns[1..]);
    if k == 0 {
      p := 0;
    } else {
      p := BlockIsThere(ns[1..], k - 1);
      assert Blocks(ns)[|first|..] == rest;
      assert Blocks(ns)[p + |first|..p + |first| + |Block(ns[k])|] == rest[p..p + |Block(ns[k])|];
      p := p + |first|;
    }
  }

  lemma ContainsMovesOn(s: string, t: string, u: string, p: nat)
    requires At(s, t, p) && Contains(t, u)
    ensures Contains(s, u)
  {
    var q: nat :| q <= |t| && At(t, u, q);
    forall i | 0 <= i < |u| ensures s[p + q..p + q + |u|][i] == u[i] {
      AtIs(t, u, q, i);
      AtIs(s, t, p, q + i);
    }
    assert At(s, u, p + q);
  }

  // A block of the list holds the block of n.
  ghost predicate Shows(ns: seq<string>, n: string) {
    exists m <- ns :: Contains(Block(m), Block(n))
  }

  /** The string holds the block of a name without brackets exactly when one of the written
      blocks holds it. */
  lemma ContainsMeansShown(ns: seq<string>, n: string)
    requires NoBrackets(n)
    ensures Contains(Blocks(ns), Block(n)) <==> Shows(ns, n)
  {
    hide Block, Blocks;
    if Contains(Blocks(ns), Block(n)) {
      var p: nat :| p <= |Blocks(ns)| && At(Blocks(ns), Block(n), p);
      var k := BlockLiesInOne(ns, n, p);
      assert ns[k] in ns;
    }
    if Shows(ns, n) {
      var m :| m in ns && Contains(Block(m), Block(n));
      var k :| 0 <= k < |ns| && ns[k] == m;
      var p := BlockIsThere(ns, k);
      ContainsMovesOn(Blocks(ns), Block(m), Block(n), p);
    }
  }

  lemma MemberIsShown(ns: seq<string>, n: string)
    requires n in ns
    ensures Shows(ns, n)
  {
    assert At(Block(n), Block(n), 0);
  }

  // Among all names, just those on the list are shown by it.
  ghost predicate ShowsOnlyMembers(ns: seq<string>, names: seq<string>) {
    forall m, n | m in ns && n in names && Contains(Block(m), Block(n)) :: n in ns
  }

  lemma NoNamesToShow(ns: seq<string>)
    ensures ShowsOnlyMembers(ns, [])
  {
  }

  lemma OneNameMore(ns: seq<string>, names: seq<string>)
    requires names != []
    ensures ShowsOnlyMembers(ns, names) <==>
              (Shows(ns, names[0]) ==> names[0] in ns) && ShowsOnlyMembers(ns, names[1..])
  {
    hide Contains, Block;
    assert forall n :: n in names <==> n == names[0] || n in names[1..];
  }

  lemma PlainListShowsMembers(ns: seq<string>, names: seq<string>)
    requires AllNoBrackets(ns) && AllNoBrackets(names)
    ensures ShowsOnlyMembers(ns, names)
  {
    forall m, n | m in ns && n in names && Contains(Block(m), Block(n)) ensures n in ns {
      PlainBlockHoldsItself(m, n);
    }
  }

  lemma {:induction false} FoundIsMore(names: seq<string>, ns: seq<string>)
    requires AllNoBrackets(names)
    ensures |Among(names, ns)| <= |Found(names, Blocks(ns))|
  {
    hide Contains, Blocks, NoBrackets;
    if names != [] {
      assert NoBrackets(names[0]);
      ContainsMeansShown(ns, names[0]);
      if names[0] in ns {
        MemberIsShown(ns, names[0]);
      }
      assert forall i | 0 <= i < |names[1..]| :: names[1..][i] == names[i + 1];
      FoundIsMore(names[1..], ns);
    }
  }

  /** Searching for a table of names without brackets gives those on the list, in the order of
      the table, exactly when no name on the list holds the block of a further one. */
  lemma {:induction false} FoundIsAmongExactly(names: seq<string>, ns: seq<string>)
    requires AllNoBrackets(names)
    ensures Found(names, Blocks(ns)) == Among(names, ns) <==> ShowsOnlyMembers(ns, names)
  {
    hide Contains, Blocks, NoBrackets, Shows, ShowsOnlyMembers;
    if names != [] {
      var rest := names[1..];
      assert NoBrackets(names[0]);
      ContainsMeansShown(ns, names[0]);
      if names[0] in ns {
        MemberIsShown(ns, names[0]);
      }
      assert forall i | 0 <= i < |rest| :: rest[i] == names[i + 1];
      FoundIsAmongExactly(rest, ns);
      FoundIsMore(rest, ns);
      OneNameMore(ns, names);
      var f, a := Found(rest, Blocks(ns)), Among(rest, ns);
      if names[0] in ns {
        assert ([names[0]] + f)[1..] == f && ([names[0]] + a)[1..] == a;
      } else if Shows(ns, names[0]) {
        assert |Found(names, Blocks(ns))| == |f| + 1 && |Among(names, ns)| == |a|;
      } else {
        assert Found(names, Blocks(ns)) == f && Among(names, ns) == a;
      }
    } else {
      NoNamesToShow(ns);
    }
  }

  /** For names without brackets this is membership. */
  lemma ContainsMeansMember(ns: seq<string>, n: string)
    requires NoBrackets(n) && AllNoBrackets(ns)
    ensures Contains(Blocks(ns), Block(n)) <==> n in ns
  {
    hide Contains, Block, Blocks;
    ContainsMeansShown(ns, n);
    PlainListShowsMembers(ns, [n]);
    if n in ns {
      MemberIsShown(ns, n);
    }
  }

  lemma FoundIsAmong(names: seq<string>, ns: seq<string>)
    requires AllNoBrackets(names) && AllNoBrackets(ns)
    ensures Found(names, Blocks(ns)) == Among(names, ns)
  {
    PlainListShowsMembers(ns, names);
    FoundIsAmongExactly(names, ns);
  }

  lemma KnownHasNoBrackets()
    ensures AllNoBrackets(KNOWN)
  {
    assert NoBrackets("LDPC") && NoBrackets("HT40-") && NoBrackets("HT40+") && NoBrackets("GF") && NoBrackets("PSMP");
    assert NoBrackets("SMPS-STATIC") && NoBrackets("SMPS-DYNAMIC") && NoBrackets("LSIG-TXOP-PROT");
    assert NoBrackets("SHORT-GI-20") && NoBrackets("SHORT-GI-40") && NoBrackets("TX-STBC");
    assert NoBrackets("RX-STBC1") && NoBrackets("RX-STBC12") && NoBrackets("RX-STBC123");
    assert NoBrackets("DELAYED-BA") && NoBrackets("MAX-AMSDU-7935") && NoBrackets("DSSS_CCK-40");
    hide NoBrackets;
  }

  /** The condition can fail: here a capability comes back that was never listed. */
  lemma BracketsMislead()
    ensures var ns := ["A][GF"]; "GF" !in ns && "GF" in Found(KNOWN, Blocks(ns))
  {
    var ns := ["A][GF"];
    var s := Blocks(ns);
    assert ns[1..] == [];
    assert s == "[A][GF]";
    assert At(s, Block("GF"), 3);
    HoldsFound(KNOWN, s, 5);
  }

  lemma {:induction false} HoldsFound(names: seq<string>, s: string, k: nat)
    requires k < |names| && Contains(s, Block(names[k]))
    ensures names[k] in Found(names, s)
    decreases k
  {
    if k > 0 {
      HoldsFound(names[1..], s, k - 1);
    }
  }

  // ---------- On its way through the file ----------

  ghost predicate SomeHolds(ns: seq<string>, c: char) {
    exists n <- ns :: c in n
  }

  lemma {:induction false} BlocksHold(ns: seq<string>, c: char)
    requires c != '[' && c != ']'
    ensures c in Blocks(ns) <==> SomeHolds(ns, c)
  {
    if ns != [] {
      BlocksHold(ns[1..], c);
      assert c in Block(ns[0]) <==> c in ns[0];
      assert SomeHolds(ns, c) <==> c in ns[0] || SomeHolds(ns[1..], c) by {
        assert forall n :: n in ns <==> n == ns[0] || n in ns[1..];
      }
    }
  }

  lemma {:induction false} BlocksEnd(ns: seq<string>)
    ensures Blocks(ns) != "" ==> Blocks(ns)[0] == '[' && Blocks(ns)[|Blocks(ns)| - 1] == ']'
  {
    if ns != [] {
      BlocksEnd(ns[1..]);
    }
  }

  // What is read again of the written list: nothing, if a name holds `=`
  function Kept(ns: seq<string>): string {
    if '=' in Blocks(ns) then "" else Blocks(ns)
  }

  lemma KeptIsReread(ns: seq<string>)
    ensures Kept(ns) == if Reread(Blocks(ns)).Some? then Reread(Blocks(ns)).value else ""
  {
    BlocksEnd(ns);
    TrimIsTrimmed(Blocks(ns));
  }

  lemma {:induction false} FoundInNothing(names: seq<string>)
    ensures Found(names, "") == []
  {
    if names != [] {
      FoundInNothing(names[1..]);
    }
  }

  /** Reading what is kept gives the listed names of the table, in its order, exactly when no name
      holds `=` and none holds the block of a further name of the table; or when a name holds `=`
      and no name of the table is listed. */
  lemma KeptIsAmongExactly(names: seq<string>, ns: seq<string>)
    requires AllNoBrackets(names)
    ensures Found(names, Kept(ns)) == Among(names, ns) <==>
              if SomeHolds(ns, '=') then Among(names, ns) == [] else ShowsOnlyMembers(ns, names)
  {
    BlocksHold(ns, '=');
    FoundInNothing(names);
    FoundIsAmongExactly(names, ns);
  }

  function StoredText(values: map<string, string>): string {
    if "ht_capab" in values then values["ht_capab"] else ""
  }

  method BlocksOf(ns: seq<string>) returns (str: string)
    ensures str == Blocks(ns)
  {
    str := "";
    for i := 0 to |ns|
      invariant str + Blocks(ns[i..]) == Blocks(ns)
    {
      str := str + "[";
      str := str + ns[i];
      str := str + "]";
    }
  }

  // What is found is added to what is there.
  method Search(found: seq<string>, search: seq<string>, hw: string) returns (r: seq<string>)
    ensures r == found + Found(search, hw)
  {
    hide Contains;
    r := found;
    for i := 0 to |search|
      invariant r + Found(search[i..], hw) == found + Found(search, hw)
    {
      assert search[i..][0] == search[i] && search[i..][1..] == search[i + 1..];
      ghost var before, rest := r, Found(search[i + 1..], hw);
      if Contains(hw, Block(search[i])) {
        r := r + [search[i]];
        assert before + ([search[i]] + rest) == r + rest;
      }
    }
  }

  class Radio {
    const cfg: Cfg
    var htcapab: seq<string>

    constructor (lines: seq<string>)
      ensures fresh(cfg) && cfg.Valid() && cfg.Now() == FileOf(lines) && htcapab == []
      ensures NoKeyTwice(lines) ==> cfg.Tidy()
    {
      cfg := new Cfg(lines);
      htcapab := [];
    }

    method SyncHTCapab()
      requires cfg.Valid()
      modifies cfg
      ensures cfg.Valid() && cfg.Now() == Do(old(cfg.Now()), Put("ht_capab", Blocks(htcapab)))
      ensures old(cfg.Tidy()) ==> cfg.Tidy()
      ensures OneLiners(old(cfg.content)) && !SomeHolds(htcapab, '\n') ==> OneLiners(cfg.content)
    {
      hide Blocks, cfg.Tidy;
      var str := BlocksOf(htcapab);
      BlocksHold(htcapab, '\n');
      PutIsOneLine(cfg.Now(), "ht_capab", str);
      cfg.Update("ht_capab", str);
    }

    // The source searches for the KNOWN names.
    method GetHTCapab(search: seq<string>)
      modifies this`htcapab
      ensures htcapab == old(htcapab) + Found(search, StoredText(cfg.values))
    {
      var hw := cfg.ValueOrDefault("ht_capab", "");
      htcapab := Search(htcapab, search, hw);
    }
  }

  /** Writing any list of names without newlines and reading it from the file into an empty one
      gives the known names that are on it, in the order of the table, exactly when no name holds
      `=` and none holds the block of a known name that is not on the list, or when a name holds
      `=` and no known name is on the list. So it does when no name holds `=` or a bracket. */
  method WriteThenRead(lines: seq<string>, ns: seq<string>) returns (r: seq<string>)
    requires NoKeyTwice(lines) && OneLiners(lines)
    ensures !SomeHolds(ns, '\n') ==>
              (r == Among(KNOWN, ns) <==>
                 if SomeHolds(ns, '=') then Among(KNOWN, ns) == [] else ShowsOnlyMembers(ns, KNOWN))
    ensures !SomeHolds(ns, '\n') && !SomeHolds(ns, '=') && AllNoBrackets(ns) ==> r == Among(KNOWN, ns)
  {
    var writer := new Radio(lines);
    writer.htcapab := ns;
    writer.SyncHTCapab();
    var text := writer.cfg.WriteBack();
    var reader := new Radio(Lines(text));
    reader.GetHTCapab(KNOWN);
    r := reader.htcapab;
    hide Found, Among, AllNoBrackets, ShowsOnlyMembers, SomeHolds, Reread;
    KnownHasNoBrackets();
    KeptIsAmongExactly(KNOWN, ns);
    if !SomeHolds(ns, '\n') {
      FileRereads(writer.cfg.content, writer.cfg.values, writer.cfg.index);
      KeptIsReread(ns);
      if AllNoBrackets(ns) {
        PlainListShowsMembers(ns, KNOWN);
      }
    }
  }
}
