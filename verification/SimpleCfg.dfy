/** The key and value file behind the system and access point configuration: the lines of the
    file, a map of their values, and an index from keys to lines. */
module SimpleCfg {
  import opened Wrappers
  import opened Strings

  datatype Pair = Pair(key: string, value: string)

  // ---------- One line ----------

  function TrimLeft(s: string): string {
    if s != "" && s[0] == ' ' then TrimLeft(s[1..]) else s
  }

  function TrimRight(s: string): string {
    if s != "" && s[|s| - 1] == ' ' then TrimRight(s[..|s| - 1]) else s
  }

  function Trim(s: string): string {
    TrimRight(TrimLeft(s))
  }

  // The key and value of a line, unless it is blank, a comment, or has not exactly one `=`
  function ParseLine(line: string): Option<Pair> {
    var t := Trim(line);
    var k := Position(t, '=');
    if t == "" || t[0] == '#' || k == |t| || '=' in t[k + 1..] then None
    else Some(Pair(Trim(t[..k]), Trim(t[k + 1..])))
  }

  function Line(key: string, value: string): string {
    key + "=" + value
  }

  // The pair is read back from its own line.
  predicate Plain(key: string, value: string) {
    ParseLine(Line(key, value)) == Some(Pair(key, value))
  }

  predicate Trimmed(s: string) {
    s == "" || (s[0] != ' ' && s[|s| - 1] != ' ')
  }

  lemma {:induction false} TrimLeftIsShorter(s: string)
    ensures |TrimLeft(s)| <= |s| && TrimLeft(s) == s[|s| - |TrimLeft(s)|..]
    ensures TrimLeft(s) != "" ==> TrimLeft(s)[0] != ' '
  {
    if s != "" && s[0] == ' ' {
      TrimLeftIsShorter(s[1..]);
    }
  }

  lemma {:induction false} TrimRightIsPrefix(s: string)
    ensures TrimRight(s) <= s && (TrimRight(s) != "" ==> TrimRight(s)[|TrimRight(s)| - 1] != ' ')
    decreases |s|
  {
    if s != "" && s[|s| - 1] == ' ' {
      TrimRightIsPrefix(s[..|s| - 1]);
    }
  }

  lemma TrimIsTrimmed(s: string)
    ensures Trimmed(Trim(s)) && (Trimmed(s) ==> Trim(s) == s)
  {
    TrimLeftIsShorter(s);
    TrimRightIsPrefix(TrimLeft(s));
  }

  // Key and value without `=` and outer spaces, the key not looking like a comment
  predicate WellFormed(key: string, value: string) {
    '=' !in key && '=' !in value && Trimmed(key) && Trimmed(value) && (key == "" || key[0] != '#')
  }

  /** A pair is read back from its line exactly when neither part holds `=` or begins or ends
      with a space, and the key does not begin with `#`. */
  lemma PlainMeansWellFormed(key: string, value: string)
    ensures Plain(key, value) <==> WellFormed(key, value)
  {
    hide ParseLine, WellFormed;
    if WellFormed(key, value) {
      WellFormedIsPlain(key, value);
    }
    if Plain(key, value) {
      PlainIsWellFormed(key, value);
    }
  }

  lemma WellFormedIsPlain(key: string, value: string)
    requires WellFormed(key, value)
    ensures Plain(key, value)
  {
    hide Trim, Position;
    var line := Line(key, value);
    assert line[0] == if key == "" then '=' else key[0];
    assert line[|line| - 1] == if value == "" then '=' else value[|value| - 1];
    TrimIsTrimmed(line);
    TrimIsTrimmed(key);
    TrimIsTrimmed(value);
    PositionIs(line, '=', |key|);
    assert line[..|key|] == key && line[|key| + 1..] == value;
  }

  lemma PlainIsWellFormed(key: string, value: string)
    requires Plain(key, value)
    ensures WellFormed(key, value)
  {
    hide Trim, Position;
    var line := Line(key, value);
    var t := Trim(line);
    var k := Position(t, '=');
    TrimIsTrimmed(t[..k]);
    TrimIsTrimmed(t[k + 1..]);
    LineOfPair(line, key, value);
  }

  // ---------- What becomes of a value when its line is read again ----------

  // Nothing if it holds `=`, and otherwise the value without its outer spaces
  function Reread(value: string): Option<string> {
    if '=' in value then None else Some(Trim(value))
  }

  // Keys that are read back from their lines, whatever the value
  predicate PlainKey(key: string) {
    '=' !in key && Trimmed(key) && (key == "" || key[0] != '#')
  }

  function PairOf(key: string, value: string): Option<Pair> {
    match Reread(value)
    case None => None
    case Some(v) => Some(Pair(key, v))
  }

  lemma {:induction false} TrimRightAfter(s: string, c: char, t: string)
    requires c != ' '
    ensures TrimRight(s + [c] + t) == s + [c] + TrimRight(t)
    decreases |t|
  {
    var all := s + [c] + t;
    if t != "" && t[|t| - 1] == ' ' {
      assert all[|all| - 1] == t[|t| - 1] && all[..|all| - 1] == s + [c] + t[..|t| - 1];
      TrimRightAfter(s, c, t[..|t| - 1]);
    } else if t == "" {
      assert all[|all| - 1] == c && all == s + [c];
    } else {
      assert all[|all| - 1] == t[|t| - 1];
    }
  }

  lemma {:induction false} TrimLeftFirst(s: string)
    ensures Trim(TrimRight(s)) == Trim(s)
    decreases |s|
  {
    if s != "" && s[0] == ' ' {
      if s[|s| - 1] == ' ' && |s| > 1 {
        var t := s[..|s| - 1];
        assert TrimRight(s) == TrimRight(t) && s[1..][..|s| - 2] == t[1..];
        TrimLeftFirst(t);
        TrimOfBlankEnd(s);
      } else if |s| == 1 {
        assert TrimRight(s) == "" && TrimLeft(s) == "";
      } else {
        assert TrimRight(s) == s;
      }
    } else if s != "" {
      TrimRightIsPrefix(s);
      TrimRightTwice(s);
      assert TrimLeft(s) == s;
      if TrimRight(s) != "" {
        assert TrimRight(s)[0] == s[0];
      }
    }
  }

  lemma {:induction false} TrimRightTwice(s: string)
    ensures TrimRight(TrimRight(s)) == TrimRight(s)
    decreases |s|
  {
    if s != "" && s[|s| - 1] == ' ' {
      TrimRightTwice(s[..|s| - 1]);
    }
  }

  lemma {:induction false} TrimOfBlankEnd(s: string)
    requires s != "" && s[|s| - 1] == ' '
    ensures Trim(s) == Trim(s[..|s| - 1])
    decreases |s|
  {
    var t := s[..|s| - 1];
    if s[0] == ' ' && |s| > 1 {
      assert t[0] == ' ' && t[1..] == s[1..][..|s| - 2];
      TrimOfBlankEnd(s[1..]);
    } else if |s| == 1 {
      assert TrimLeft(s) == "" && t == "";
    } else {
      assert TrimLeft(s) == s && TrimLeft(t) == t;
    }
  }

  /** A line that was written for a plain key is read as that key with the value as it is read
      again, or as no pair at all if there is none. */
  lemma LineIsReread(key: string, value: string)
    requires PlainKey(key)
    ensures ParseLine(Line(key, value)) == PairOf(key, value)
  {
    hide Position, TrimLeft, TrimRight;
    var line, v := Line(key, value), TrimRight(value);
    assert line == key + ['='] + value && line[0] != ' ';
    assert TrimLeft(line) == line by { TrimLeftStops(line); }
    TrimRightAfter(key, '=', value);
    var t := key + ['='] + v;
    assert Trim(line) == t && t[0] == if key == "" then '=' else key[0];
    PositionIs(t, '=', |key|);
    assert t[..|key|] == key && t[|key| + 1..] == v;
    TrimIsTrimmed(key);
    TrimLeftFirst(value);
    TrimRightKeepsEquals(value);
  }

  lemma TrimLeftStops(s: string)
    requires s != "" && s[0] != ' '
    ensures TrimLeft(s) == s
  {
  }

  lemma {:induction false} TrimRightKeepsEquals(s: string)
    ensures '=' in TrimRight(s) <==> '=' in s
    decreases |s|
  {
    if s != "" && s[|s| - 1] == ' ' {
      var t := s[..|s| - 1];
      TrimRightKeepsEquals(t);
      assert s == t + [' '];
    }
  }

  lemma RereadTwice(value: string)
    requires Reread(value).Some?
    ensures Reread(Reread(value).value) == Reread(value)
  {
    TrimKeeps(value, '=');
    TrimIsTrimmed(value);
    TrimIsTrimmed(Trim(value));
  }

  lemma TrimKeeps(s: string, c: char)
    ensures c in Trim(s) ==> c in s
  {
    TrimLeftIsShorter(s);
    TrimRightIsPrefix(TrimLeft(s));
    var t := TrimLeft(s);
    assert forall i | 0 <= i < |Trim(s)| :: Trim(s)[i] == t[i] == s[i + |s| - |t|];
  }

  lemma LineOfPair(line: string, key: string, value: string)
    requires ParseLine(line) == Some(Pair(key, value))
    ensures '=' !in key && '=' !in value
    ensures line == Line(key, value) ==> key == "" || key[0] != '#'
  {
    var t := Trim(line);
    var k := Position(t, '=');
    TrimKeeps(t[..k], '=');
    TrimKeeps(t[k + 1..], '=');
    if line == Line(key, value) && key != "" && key[0] == '#' {
      assert line[0] == '#';
      TrimLeftIsShorter(line);
      TrimRightIsPrefix(line);
      HashStays(line);
    }
  }

  lemma {:induction false} HashStays(s: string)
    requires s != "" && s[0] == '#'
    ensures Trim(s) != "" && Trim(s)[0] == '#'
  {
    assert TrimLeft(s) == s;
    HashStaysRight(s);
  }

  lemma {:induction false} HashStaysRight(s: string)
    requires s != "" && s[0] == '#'
    ensures TrimRight(s) != "" && TrimRight(s)[0] == '#'
    decreases |s|
  {
    if s[|s| - 1] == ' ' {
      HashStaysRight(s[..|s| - 1]);
    }
  }

  // ---------- All lines ----------

  function KeyAt(content: seq<string>, i: nat): Option<string>
    requires i < |content|
  {
    match ParseLine(content[i])
    case None => None
    case Some(p) => Some(p.key)
  }

  // The first line of a key gives its value, the last one its place.
  function Values(content: seq<string>): map<string, string>
    decreases |content|
  {
    if content == [] then map[] else
      var m := Values(content[..|content| - 1]);
      match ParseLine(content[|content| - 1])
      case None => m
      case Some(p) => if p.key in m then m else m[p.key := p.value]
  }

  function Places(content: seq<string>): map<string, nat>
    decreases |content|
  {
    if content == [] then map[] else
      var m := Places(content[..|content| - 1]);
      match ParseLine(content[|content| - 1])
      case None => m
      case Some(p) => m[p.key := |content| - 1]
  }

  ghost predicate NoKeyTwice(content: seq<string>) {
    forall i, j | 0 <= i < j < |content| && KeyAt(content, i).Some? :: KeyAt(content, i) != KeyAt(content, j)
  }

  // The map says what the lines say, line by line.
  ghost predicate Says(content: seq<string>, values: map<string, string>) {
    && (forall i | 0 <= i < |content| ::
          var p := ParseLine(content[i]);
          p.Some? ==> p.value.key in values && values[p.value.key] == p.value.value)
    && (forall k <- values :: exists i | 0 <= i < |content| :: KeyAt(content, i) == Some(k))
  }

  lemma SaysIsUnique(content: seq<string>, a: map<string, string>, b: map<string, string>)
    requires Says(content, a) && Says(content, b)
    ensures a == b
  {
    hide ParseLine;
    forall k ensures k in a <==> k in b {
      if k in a {
        var i :| 0 <= i < |content| && KeyAt(content, i) == Some(k);
      }
      if k in b {
        var i :| 0 <= i < |content| && KeyAt(content, i) == Some(k);
      }
    }
    forall k <- a ensures a[k] == b[k] {
      var i :| 0 <= i < |content| && KeyAt(content, i) == Some(k);
    }
  }

  lemma {:induction false} PlacesHold(content: seq<string>)
    ensures Places(content).Keys == Values(content).Keys
    ensures forall k <- Places(content) :: Places(content)[k] < |content| && KeyAt(content, Places(content)[k]) == Some(k)
    decreases |content|
  {
    hide ParseLine;
    if content != [] {
      var rest := content[..|content| - 1];
      PlacesHold(rest);
      forall k <- Places(content)
        ensures Places(content)[k] < |content| && KeyAt(content, Places(content)[k]) == Some(k)
      {
        if k in Places(rest) && Places(content)[k] == Places(rest)[k] {
          assert KeyAt(rest, Places(rest)[k]) == Some(k);
        }
      }
    }
  }

  lemma SaysExtends(rest: seq<string>, line: string, m: map<string, string>)
    requires NoKeyTwice(rest + [line]) && Says(rest, m)
    ensures var p := ParseLine(line);
            && (p.None? ==> Says(rest + [line], m))
            && (p.Some? ==> p.value.key !in m && Says(rest + [line], m[p.value.key := p.value.value]))
  {
    hide ParseLine;
    var content, n, p := rest + [line], |rest|, ParseLine(line);
    assert forall i | 0 <= i < n :: content[i] == rest[i] && KeyAt(content, i) == KeyAt(rest, i);
    if p.Some? {
      assert KeyAt(content, n) == Some(p.value.key);
      forall i | 0 <= i < n ensures KeyAt(rest, i) != Some(p.value.key) {
        assert KeyAt(content, i).Some? ==> KeyAt(content, i) != KeyAt(content, n);
      }
    }
    forall k <- m ensures exists i | 0 <= i < |content| :: KeyAt(content, i) == Some(k) {
      var i :| 0 <= i < n && KeyAt(rest, i) == Some(k);
      assert KeyAt(content, i) == Some(k);
    }
  }

  lemma {:induction false} ValuesSay(content: seq<string>)
    requires NoKeyTwice(content)
    ensures Says(content, Values(content))
    decreases |content|
  {
    hide ParseLine, Says, NoKeyTwice;
    if content == [] {
      NothingSays();
    } else {
      var rest, line := content[..|content| - 1], content[|content| - 1];
      assert content == rest + [line];
      KeysStayDistinct(rest, line);
      ValuesSay(rest);
      SaysExtends(rest, line, Values(rest));
    }
  }

  lemma NothingSays()
    ensures Says([], map[])
  {
  }

  lemma KeysStayDistinct(rest: seq<string>, line: string)
    requires NoKeyTwice(rest + [line])
    ensures NoKeyTwice(rest)
  {
    hide ParseLine;
    var content := rest + [line];
    forall i, j | 0 <= i < j < |rest| && KeyAt(rest, i).Some? ensures KeyAt(rest, i) != KeyAt(rest, j) {
      assert KeyAt(content, i) == KeyAt(rest, i) && KeyAt(content, j) == KeyAt(rest, j);
    }
  }

  // The map when it has been read again from the lines
  function Rebuilt(values: map<string, string>): map<string, string> {
    map k | k in values && Reread(values[k]).Some? :: Reread(values[k]).value
  }

  // Removing a key that is there reads all lines again.
  function Removed(values: map<string, string>, key: string): map<string, string> {
    if key in values then Rebuilt(values - {key}) else values
  }

  // The index leads to the line of each key, and no other line is a pair.
  ghost predicate InStep(content: seq<string>, values: map<string, string>, index: map<string, nat>) {
    && index.Keys == values.Keys
    && (forall k <- index :: index[k] < |content| && ParseLine(content[index[k]]) == PairOf(k, values[k]))
    && (forall i | 0 <= i < |content| && KeyAt(content, i).Some? ::
          KeyAt(content, i).value in index && index[KeyAt(content, i).value] == i)
    && (forall k, l | k in index && l in index && index[k] == index[l] :: k == l)
  }

  lemma InStepRereads(content: seq<string>, values: map<string, string>, index: map<string, nat>)
    requires InStep(content, values, index)
    ensures NoKeyTwice(content) && Values(content) == Rebuilt(values)
  {
    hide ParseLine, Reread, Values;
    forall i, j | 0 <= i < j < |content| && KeyAt(content, i).Some? ensures KeyAt(content, i) != KeyAt(content, j) {
    }
    ValuesSay(content);
    var m := Rebuilt(values);
    forall i | 0 <= i < |content|
      ensures var p := ParseLine(content[i]); p.Some? ==> p.value.key in m && m[p.value.key] == p.value.value
    {
      if KeyAt(content, i).Some? {
        var k := KeyAt(content, i).value;
        assert index[k] == i && ParseLine(content[i]) == PairOf(k, values[k]);
      }
    }
    forall k <- m ensures exists i | 0 <= i < |content| :: KeyAt(content, i) == Some(k) {
      assert KeyAt(content, index[k]) == Some(k);
    }
    SaysIsUnique(content, Values(content), m);
  }

  lemma ParsedIsFixed(line: string)
    ensures var p := ParseLine(line); p.Some? ==> PairOf(p.value.key, p.value.value) == p
  {
    hide Trim, Position;
    var p := ParseLine(line);
    if p.Some? {
      var t := Trim(line);
      var k := Position(t, '=');
      TrimKeeps(t[k + 1..], '=');
      TrimIsTrimmed(t[k + 1..]);
      TrimIsTrimmed(p.value.value);
    }
  }

  lemma ReadIsInStep(content: seq<string>)
    requires NoKeyTwice(content)
    ensures InStep(content, Values(content), Places(content))
  {
    hide ParseLine, Values, Places, PairOf;
    ValuesSay(content);
    PlacesHold(content);
    var values, index := Values(content), Places(content);
    forall k <- index ensures ParseLine(content[index[k]]) == PairOf(k, values[k]) {
      assert KeyAt(content, index[k]) == Some(k);
      ParsedIsFixed(content[index[k]]);
    }
    forall i | 0 <= i < |content| && KeyAt(content, i).Some?
      ensures KeyAt(content, i).value in index && index[KeyAt(content, i).value] == i
    {
      var k := KeyAt(content, i).value;
      assert KeyAt(content, index[k]) == Some(k);
    }
    forall k, l | k in index && l in index && index[k] == index[l] ensures k == l {
      assert KeyAt(content, index[k]) == Some(k) && KeyAt(content, index[l]) == Some(l);
    }
  }

  // ---------- The file as a value ----------

  datatype File = File(content: seq<string>, values: map<string, string>, index: map<string, nat>)

  ghost predicate IsTidy(f: File) {
    InStep(f.content, f.values, f.index)
  }

  function FileOf(lines: seq<string>): File {
    File(lines, Values(lines), Places(lines))
  }

  datatype Op = Put(key: string, value: string) | Drop(key: string)

  // One operation, on lines, map and index
  function Do(f: File, op: Op): File {
    var there := op.key in f.values && op.key in f.index && f.index[op.key] < |f.content|;
    match op
    case Put(key, value) =>
      if there then File(f.content[f.index[key] := Line(key, value)], f.values[key := value], f.index)
      else File(f.content + [Line(key, value)], f.values[key := value], f.index[key := |f.content|])
    case Drop(key) =>
      if there then FileOf(f.content[..f.index[key]] + f.content[f.index[key] + 1..]) else f
  }

  function DoAll(f: File, ops: seq<Op>): File
    decreases |ops|
  {
    if ops == [] then f else DoAll(Do(f, ops[0]), ops[1..])
  }

  // What it does to the map
  function Applied(values: map<string, string>, op: Op): map<string, string> {
    match op
    case Put(key, value) => values[key := value]
    case Drop(key) => Removed(values, key)
  }

  function AppliedAll(values: map<string, string>, ops: seq<Op>): map<string, string>
    decreases |ops|
  {
    if ops == [] then values else AppliedAll(Applied(values, ops[0]), ops[1..])
  }

  predicate PlainOps(ops: seq<Op>) {
    forall i | 0 <= i < |ops| && ops[i].Put? :: PlainKey(ops[i].key)
  }

  predicate OneLineOps(ops: seq<Op>) {
    forall i | 0 <= i < |ops| && ops[i].Put? :: '\n' !in ops[i].key && '\n' !in ops[i].value
  }

  lemma DoFollows(f: File, op: Op)
    requires IsTidy(f) && (op.Put? ==> PlainKey(op.key))
    ensures IsTidy(Do(f, op)) && Do(f, op).values == Applied(f.values, op)
    ensures OneLiners(f.content) && (op.Put? ==> '\n' !in op.key && '\n' !in op.value) ==> OneLiners(Do(f, op).content)
  {
    hide PlainKey, Do, IsTidy, OneLiners;
    match op {
      case Put(key, value) => PutFollows(f, key, value);
      case Drop(key) => DropFollows(f, key);
    }
  }

  lemma PutFollows(f: File, key: string, value: string)
    requires IsTidy(f) && PlainKey(key)
    ensures IsTidy(Do(f, Put(key, value))) && Do(f, Put(key, value)).values == f.values[key := value]
    ensures OneLiners(f.content) && '\n' !in key && '\n' !in value ==> OneLiners(Do(f, Put(key, value)).content)
  {
    IndexFits(f, key);
    hide Line, PlainKey, InStep, OneLiners;
    StaysInStep(f.content, f.values, f.index, key, value);
    PutIsOneLine(f, key, value);
  }

  lemma PutIsOneLine(f: File, key: string, value: string)
    ensures OneLiners(f.content) && '\n' !in key && '\n' !in value ==> OneLiners(Do(f, Put(key, value)).content)
  {
    LineIsOneLine(key, value);
    hide Line;
  }

  lemma IndexFits(f: File, key: string)
    requires IsTidy(f)
    ensures key in f.values ==> key in f.index && f.index[key] < |f.content|
  {
    hide ParseLine, PairOf;
  }

  lemma DropFollows(f: File, key: string)
    requires IsTidy(f)
    ensures IsTidy(Do(f, Drop(key))) && Do(f, Drop(key)).values == Removed(f.values, key)
    ensures OneLiners(f.content) ==> OneLiners(Do(f, Drop(key)).content)
  {
    hide Values, Places, Rebuilt, ParseLine, NoKeyTwice, PairOf;
    if key in f.values {
      assert key in f.index && f.index[key] < |f.content|;
      LineRemoved(f.content, f.values, f.index, key);
      hide InStep;
      ReadIsInStep(f.content[..f.index[key]] + f.content[f.index[key] + 1..]);
    }
  }

  /** Whatever is written and removed, lines, map and index stay in step, and the map is what the
      operations make of it; the lines stay single lines if the values are. */
  lemma {:induction false} DoAllFollows(f: File, ops: seq<Op>)
    requires IsTidy(f) && PlainOps(ops)
    ensures IsTidy(DoAll(f, ops)) && DoAll(f, ops).values == AppliedAll(f.values, ops)
    ensures OneLiners(f.content) && OneLineOps(ops) ==> OneLiners(DoAll(f, ops).content)
    decreases |ops|
  {
    hide IsTidy, Do, Applied, PlainKey, OneLiners;
    if ops != [] {
      assert forall i | 0 <= i < |ops[1..]| :: ops[1..][i] == ops[i + 1];
      DoFollows(f, ops[0]);
      DoAllFollows(Do(f, ops[0]), ops[1..]);
    }
  }

  lemma {:induction false} DoAllInTurn(f: File, a: seq<Op>, b: seq<Op>)
    ensures DoAll(f, a + b) == DoAll(DoAll(f, a), b)
    decreases |a|
  {
    hide Do;
    if a == [] {
      assert a + b == b;
    } else {
      assert (a + b)[0] == a[0] && (a + b)[1..] == a[1..] + b;
      DoAllInTurn(Do(f, a[0]), a[1..], b);
    }
  }

  lemma {:induction false} AppliedInTurn(values: map<string, string>, a: seq<Op>, b: seq<Op>)
    ensures AppliedAll(values, a + b) == AppliedAll(AppliedAll(values, a), b)
    decreases |a|
  {
    hide Applied;
    if a == [] {
      assert a + b == b;
    } else {
      assert (a + b)[0] == a[0] && (a + b)[1..] == a[1..] + b;
      AppliedInTurn(Applied(values, a[0]), a[1..], b);
    }
  }

  // ---------- The class ----------

  class Cfg {
    var content: seq<string>
    var values: map<string, string>
    var index: map<string, nat>
    var ind: nat

    // What every operation keeps, whatever the file holds
    ghost predicate Valid()
      reads this
    {
      && ind == |content| && index.Keys == values.Keys
      && forall k <- index :: index[k] < |content|
    }

    // Map, index and lines are in step, as they are when no key is on two lines of the file.
    ghost predicate Tidy()
      reads this
    {
      Valid() && InStep(content, values, index)
    }

    ghost function Now(): File
      reads this
    {
      File(content, values, index)
    }

    constructor (lines: seq<string>)
      ensures Valid() && Now() == FileOf(lines)
      ensures NoKeyTwice(lines) ==> Tidy()
    {
      content, values, index, ind := lines, map[], map[], 0;
      new;
      CreateIndex();
    }

    method CreateIndex()
      modifies this`values, this`index, this`ind
      ensures Valid() && values == Values(content) && index == Places(content)
      ensures NoKeyTwice(content) ==> Tidy()
    {
      hide ParseLine, InStep;
      index, values, ind := map[], map[], 0;
      while ind < |content|
        invariant 0 <= ind <= |content|
        invariant values == Values(content[..ind]) && index == Places(content[..ind])
        decreases |content| - ind
      {
        assert content[..ind + 1][..ind] == content[..ind];
        match ParseLine(content[ind]) {
          case None =>
          case Some(p) =>
            index := index[p.key := ind];
            if p.key !in values {
              values := values[p.key := p.value];
            }
        }
        ind := ind + 1;
      }
      assert content[..ind] == content;
      PlacesHold(content);
      if NoKeyTwice(content) {
        ReadIsInStep(content);
      }
    }

    method Update(key: string, value: string)
      requires Valid()
      modifies this
      ensures Valid() && Now() == Do(old(Now()), Put(key, value)) && values == old(values)[key := value]
      ensures old(Tidy()) && PlainKey(key) ==> Tidy()
    {
      hide InStep, Line, PlainKey;
      if key in values {
        values := values[key := value];
        content := content[index[key] := Line(key, value)];
      } else {
        content := content + [Line(key, value)];
        values := values[key := value];
        index := index[key := ind];
        ind := ind + 1;
      }
      if old(Tidy()) && PlainKey(key) {
        StaysInStep(old(content), old(values), old(index), key, value);
      }
    }

    method Remove(key: string)
      requires Valid()
      modifies this
      ensures Valid() && Now() == Do(old(Now()), Drop(key))
      ensures old(Tidy()) ==> Tidy() && values == Removed(old(values), key)
    {
      hide InStep, Rebuilt;
      if key !in values {
        return;
      }
      ghost var at := index[key];
      content := content[..index[key]] + content[index[key] + 1..];
      if old(Tidy()) {
        LineRemoved(old(content), old(values), old(index), key);
      }
      CreateIndex();
    }

    method ValueOrDefault(key: string, default: string) returns (v: string)
      ensures v == if key in values then values[key] else default
    {
      v := if key in values then values[key] else default;
    }

    // The text that is written to the file
    method WriteBack() returns (text: string)
      ensures text == Text(content)
    {
      text := "";
      for i := 0 to |content|
        invariant text + Text(content[i..]) == Text(content)
      {
        assert content[i..][1..] == content[i + 1..];
        text := text + (content[i] + "\n");
      }
    }
  }

  lemma LineIsOneLine(key: string, value: string)
    ensures '\n' !in key && '\n' !in value ==> '\n' !in Line(key, value)
  {
  }

  lemma StaysInStep(content: seq<string>, values: map<string, string>, index: map<string, nat>, key: string, value: string)
    requires InStep(content, values, index) && PlainKey(key)
    ensures var line := Line(key, value);
            if key in values then InStep(content[index[key] := line], values[key := value], index)
            else InStep(content + [line], values[key := value], index[key := |content|])
  {
    hide ParseLine, PairOf, PlainKey, Line;
    LineIsReread(key, value);
    PairOfKey(key, value);
    var line := Line(key, value);
    if key in values {
      var after := content[index[key] := line];
      assert forall i | 0 <= i < |content| && i != index[key] :: KeyAt(after, i) == KeyAt(content, i);
    } else {
      var after := content + [line];
      assert forall i | 0 <= i < |content| :: after[i] == content[i] && KeyAt(after, i) == KeyAt(content, i);
    }
  }

  lemma PairOfKey(key: string, value: string)
    ensures var p := PairOf(key, value); p.Some? ==> p.value.key == key
  {
  }

  lemma LineRemoved(content: seq<string>, values: map<string, string>, index: map<string, nat>, key: string)
    requires InStep(content, values, index) && key in values
    ensures var after := content[..index[key]] + content[index[key] + 1..];
            NoKeyTwice(after) && Values(after) == Rebuilt(values - {key})
  {
    hide ParseLine, Values, NoKeyTwice, Reread;
    InStepRereads(content, values, index);
    LineErased(content, index[key]);
    PairOfKey(key, values[key]);
    var p := PairOf(key, values[key]);
    assert p.Some? <==> Reread(values[key]).Some?;
    assert KeyAt(content, index[key]) == if p.Some? then Some(key) else None;
    assert Rebuilt(values - {key}) == Rebuilt(values) - {key};
    assert p.None? ==> Rebuilt(values) - {key} == Rebuilt(values);
  }

  // ---------- The text of the file ----------

  function Text(content: seq<string>): string {
    if content == [] then "" else content[0] + "\n" + Text(content[1..])
  }

  // No line is more than one line.
  predicate OneLiners(content: seq<string>) {
    forall i | 0 <= i < |content| :: '\n' !in content[i]
  }

  lemma {:induction false} TextIsRead(content: seq<string>)
    requires OneLiners(content)
    ensures Lines(Text(content)) == content
  {
    if content == [] {
      FirstLineOfNothing();
    } else {
      FirstLine(content[0], Text(content[1..]));
      TextIsRead(content[1..]);
    }
  }

  /** What is read of any text: the lines that end in a newline, and one that does not if it is not
      empty. */
  lemma {:induction false} LinesExactly(content: seq<string>, last: string)
    requires OneLiners(content) && '\n' !in last
    ensures Lines(Text(content) + last) == content + if last == "" then [] else [last]
    decreases |content|
  {
    hide Lines;
    if content == [] {
      assert Text(content) + last == last;
      LastLine(last);
    } else {
      var rest := Text(content[1..]) + last;
      assert Text(content) + last == content[0] + "\n" + rest;
      FirstLine(content[0], rest);
      assert forall i | 0 <= i < |content[1..]| :: content[1..][i] == content[i + 1];
      LinesExactly(content[1..], last);
    }
  }

  lemma LastLine(last: string)
    requires '\n' !in last
    ensures Lines(last) == if last == "" then [] else [last]
  {
    PositionIs(last, '\n', |last|);
  }

  lemma {:induction false} ReadValuesAreOneLine(content: seq<string>)
    requires OneLiners(content)
    ensures forall k <- Values(content) :: '\n' !in Values(content)[k]
    decreases |content|
  {
    hide Trim, Position;
    if content != [] {
      var line := content[|content| - 1];
      ReadValuesAreOneLine(content[..|content| - 1]);
      var t := Trim(line);
      TrimKeeps(line, '\n');
      TrimKeeps(t[if Position(t, '=') < |t| then Position(t, '=') + 1 else |t|..], '\n');
    }
  }

  lemma ReadLinesAreOneLine(text: string)
    ensures OneLiners(Lines(text))
  {
    LinesHoldNoNewline(text);
    assert forall i | 0 <= i < |Lines(text)| :: Lines(text)[i] in Lines(text);
  }

  /** Writing the file and reading it again gives the map with every value as it is read again, as
      long as no line holds a newline. */
  lemma FileRereads(content: seq<string>, values: map<string, string>, index: map<string, nat>)
    requires InStep(content, values, index) && OneLiners(content)
    ensures NoKeyTwice(Lines(Text(content))) && Values(Lines(Text(content))) == Rebuilt(values)
  {
    TextIsRead(content);
    InStepRereads(content, values, index);
  }

  // The line is there, and the index leads to it only for its own key.
  ghost predicate Holds(f: File, line: string, key: string) {
    exists i | 0 <= i < |f.content| :: f.content[i] == line && OnlyFor(f, i, key)
  }

  ghost predicate OnlyFor(f: File, i: nat, key: string) {
    forall k <- f.index | f.index[k] == i :: k == key
  }

  lemma PutHolds(f: File, key: string, value: string)
    requires IsTidy(f)
    ensures Holds(Do(f, Put(key, value)), Line(key, value), key)
  {
    hide ParseLine, PairOf, Line;
    var g := Do(f, Put(key, value));
    IndexFits(f, key);
    var i := if key in f.values then f.index[key] else |f.content|;
    assert g.content[i] == Line(key, value) && OnlyFor(g, i, key);
  }

  lemma DoKeepsLine(f: File, line: string, key: string, op: Op)
    requires IsTidy(f) && Holds(f, line, key) && op.key != key
    requires ParseLine(line).Some? ==> ParseLine(line).value.key == key
    ensures Holds(Do(f, op), line, key)
  {
    hide ParseLine, PairOf, Line, Values, Places;
    var i: nat :| i < |f.content| && f.content[i] == line && OnlyFor(f, i, key);
    IndexFits(f, op.key);
    var g := Do(f, op);
    if op.key in f.values && op.Drop? {
      var at := f.index[op.key];
      var j := if i < at then i else i - 1;
      assert g.content[j] == line;
      PlacesHold(g.content);
      assert KeyAt(g.content, j).Some? ==> KeyAt(g.content, j) == Some(key);
      assert OnlyFor(g, j, key);
    } else {
      assert g.content[i] == line && OnlyFor(g, i, key);
    }
  }

  /** A line stays in the file, whatever is written or removed under other keys: also when its value
      is no value any more. */
  lemma {:induction false} LineStays(f: File, line: string, key: string, ops: seq<Op>)
    requires IsTidy(f) && PlainOps(ops) && Holds(f, line, key)
    requires forall i | 0 <= i < |ops| :: ops[i].key != key
    requires ParseLine(line).Some? ==> ParseLine(line).value.key == key
    ensures Holds(DoAll(f, ops), line, key)
    decreases |ops|
  {
    hide IsTidy, Do, ParseLine, Holds, PlainKey;
    if ops != [] {
      DoFollows(f, ops[0]);
      DoKeepsLine(f, line, key, ops[0]);
      assert forall i | 0 <= i < |ops[1..]| :: ops[1..][i] == ops[i + 1];
      LineStays(Do(f, ops[0]), line, key, ops[1..]);
    }
  }

  lemma HeldPieceIsAmong(f: File, line: string, key: string, k: string)
    requires Holds(f, line, key) && KeyIn(Pieces(line), k)
    ensures Among(f.content, k)
  {
    hide Pieces, KeyIn;
  }

  // ---------- Newlines in the lines ----------

  // What becomes of one line when the text is read
  function Pieces(line: string): seq<string> {
    Lines(line + "\n")
  }

  ghost predicate KeyIn(lines: seq<string>, key: string) {
    exists i | 0 <= i < |lines| :: KeyAt(lines, i) == Some(key)
  }

  // The key is that of a piece of some line.
  ghost predicate Among(content: seq<string>, key: string) {
    exists i | 0 <= i < |content| :: KeyIn(Pieces(content[i]), key)
  }

  lemma CutAt(a: string, k: nat)
    requires k < |a| && a[k] == '\n'
    ensures a == a[..k] + "\n" + a[k + 1..]
  {
    assert a == a[..k] + [a[k]] + a[k + 1..];
  }

  lemma FirstPiece(a: string)
    requires '\n' in a
    ensures var k := Position(a, '\n'); k < |a| && a[k] == '\n' && forall i | 0 <= i < k :: a[i] != '\n'
  {
    hide Position;
    var i :| 0 <= i < |a| && a[i] == '\n';
  }

  lemma {:induction false} LinesInTurn(a: string, b: string)
    ensures Lines(a + "\n" + b) == Lines(a + "\n") + Lines(b)
    decreases |a|
  {
    hide Lines, Position;
    if '\n' in a {
      FirstPiece(a);
      var k := Position(a, '\n');
      var line, rest := a[..k], a[k + 1..];
      CutAt(a, k);
      assert a + "\n" + b == line + "\n" + (rest + "\n" + b) && a + "\n" == line + "\n" + (rest + "\n");
      FirstLine(line, rest + "\n" + b);
      FirstLine(line, rest + "\n");
      LinesInTurn(rest, b);
    } else {
      FirstLine(a, b);
      FirstLine(a, "");
      FirstLineOfNothing();
      assert a + "\n" + "" == a + "\n";
    }
  }

  lemma {:induction false} KeysOfLines(lines: seq<string>, key: string)
    ensures key in Values(lines) <==> KeyIn(lines, key)
    decreases |lines|
  {
    hide ParseLine, KeyIn;
    if lines != [] {
      var rest, last := lines[..|lines| - 1], [lines[|lines| - 1]];
      KeysOfLines(rest, key);
      assert lines == rest + last;
      KeyInEither(rest, last, key);
      KeyInOne(last[0], key);
    } else {
      KeyInNone(key);
    }
  }

  lemma KeyInNone(key: string)
    ensures !KeyIn([], key)
  {
  }

  lemma KeyInOne(line: string, key: string)
    ensures KeyIn([line], key) <==> ParseLine(line).Some? && ParseLine(line).value.key == key
  {
    hide ParseLine;
    assert KeyAt([line], 0) == Some(key) <==> ParseLine(line).Some? && ParseLine(line).value.key == key;
  }

  lemma KeyInEither(a: seq<string>, b: seq<string>, key: string)
    ensures KeyIn(a + b, key) <==> KeyIn(a, key) || KeyIn(b, key)
  {
    hide ParseLine;
    var all := a + b;
    assert forall i | 0 <= i < |a| :: KeyAt(all, i) == KeyAt(a, i);
    forall i | 0 <= i < |b| ensures KeyAt(b, i) == KeyAt(all, i + |a|) {
      assert all[i + |a|] == b[i];
    }
    if KeyIn(all, key) {
      var i :| 0 <= i < |all| && KeyAt(all, i) == Some(key);
      if i >= |a| {
        assert KeyAt(b, i - |a|) == KeyAt(all, i - |a| + |a|);
      }
    }
  }

  lemma {:induction false} KeysOfText(content: seq<string>, key: string)
    ensures KeyIn(Lines(Text(content)), key) <==> Among(content, key)
  {
    hide KeyIn, Lines, Pieces;
    if content == [] {
      FirstLineOfNothing();
      KeyInNone(key);
    } else {
      LinesInTurn(content[0], Text(content[1..]));
      PiecesAre(content[0]);
      KeyInEither(Pieces(content[0]), Lines(Text(content[1..])), key);
      KeysOfText(content[1..], key);
      assert forall i | 0 <= i < |content[1..]| :: content[1..][i] == content[i + 1];
      AmongFirstOrRest(content, key);
    }
  }

  lemma PiecesAre(line: string)
    ensures Pieces(line) == Lines(line + "\n")
  {
  }

  lemma AmongFirstOrRest(content: seq<string>, key: string)
    requires content != []
    ensures Among(content, key) <==> KeyIn(Pieces(content[0]), key) || Among(content[1..], key)
  {
    hide KeyIn, Pieces;
    assert forall i | 0 <= i < |content[1..]| :: content[1..][i] == content[i + 1];
    if Among(content, key) {
      var i :| 0 <= i < |content| && KeyIn(Pieces(content[i]), key);
      assert i > 0 ==> content[i] == content[1..][i - 1];
    }
  }

  /** A file that was written and is read again has exactly the keys of the pieces into which
      newlines cut its lines. */
  lemma ReadKeysAreThosePieces(content: seq<string>, key: string)
    ensures key in Values(Lines(Text(content))) <==> Among(content, key)
  {
    KeysOfLines(Lines(Text(content)), key);
    KeysOfText(content, key);
  }

  lemma LineAdded(content: seq<string>, key: string, value: string)
    requires NoKeyTwice(content) && key !in Values(content) && Plain(key, value)
    ensures var after := content + [Line(key, value)];
            && NoKeyTwice(after) && Values(after) == Values(content)[key := value]
            && KeyAt(after, |content|) == Some(key)
            && forall j | 0 <= j < |content| :: KeyAt(after, j) == KeyAt(content, j)
  {
    hide ParseLine, Line;
    var after := content + [Line(key, value)];
    assert after[..|after| - 1] == content;
    ValuesSay(content);
    assert forall j | 0 <= j < |content| :: KeyAt(after, j) == KeyAt(content, j);
    forall i, j | 0 <= i < j < |after| && KeyAt(after, i).Some? ensures KeyAt(after, i) != KeyAt(after, j) {
      assert KeyAt(after, i) == KeyAt(content, i);
      if j < |content| {
        assert KeyAt(after, j) == KeyAt(content, j);
      }
    }
  }

  lemma LineErased(content: seq<string>, i: nat)
    requires i < |content| && NoKeyTwice(content)
    ensures var after := content[..i] + content[i + 1..];
            NoKeyTwice(after) &&
            Values(after) == if KeyAt(content, i).Some? then Values(content) - {KeyAt(content, i).value} else Values(content)
  {
    hide ParseLine, Values, Says, NoKeyTwice;
    var after := content[..i] + content[i + 1..];
    ErasedKeepsDistinct(content, i);
    ValuesSay(content);
    ValuesSay(after);
    var m := if KeyAt(content, i).Some? then Values(content) - {KeyAt(content, i).value} else Values(content);
    ErasedSays(content, i, Values(content), m);
    SaysIsUnique(after, Values(after), m);
  }

  lemma ErasedSays(content: seq<string>, i: nat, m0: map<string, string>, m: map<string, string>)
    requires i < |content| && NoKeyTwice(content) && Says(content, m0)
    requires m == if KeyAt(content, i).Some? then m0 - {KeyAt(content, i).value} else m0
    ensures Says(content[..i] + content[i + 1..], m)
  {
    hide ParseLine;
    var after := content[..i] + content[i + 1..];
    assert forall j | 0 <= j < |after| :: after[j] == content[if j < i then j else j + 1];
    assert forall j | 0 <= j < |after| :: KeyAt(after, j) == KeyAt(content, if j < i then j else j + 1);
    forall j | 0 <= j < |after|
      ensures var p := ParseLine(after[j]); p.Some? ==> p.value.key in m && m[p.value.key] == p.value.value
    {
      var c := if j < i then j else j + 1;
      assert KeyAt(content, c).Some? ==> KeyAt(content, c) != KeyAt(content, i);
    }
    forall k <- m ensures exists j | 0 <= j < |after| :: KeyAt(after, j) == Some(k) {
      var c :| 0 <= c < |content| && KeyAt(content, c) == Some(k);
      assert KeyAt(after, if c < i then c else c - 1) == Some(k);
    }
  }

  lemma ErasedKeepsDistinct(content: seq<string>, i: nat)
    requires i < |content| && NoKeyTwice(content)
    ensures NoKeyTwice(content[..i] + content[i + 1..])
  {
    hide ParseLine;
    var after := content[..i] + content[i + 1..];
    assert forall j | 0 <= j < |after| :: after[j] == content[if j < i then j else j + 1];
    forall j, k | 0 <= j < k < |after| && KeyAt(after, j).Some? ensures KeyAt(after, j) != KeyAt(after, k) {
      assert KeyAt(content, if j < i then j else j + 1) != KeyAt(content, if k < i then k else k + 1);
    }
  }

  /** A new entry is still there after the file has been read again exactly when key and value
      are well-formed: a value with `=` in it, say, is gone the next time any key is removed. */
  lemma ReadAgainExactlyWhenWellFormed(content: seq<string>, key: string, value: string)
    requires NoKeyTwice(content) && key !in Values(content)
    ensures Values(content + [Line(key, value)]) == Values(content)[key := value] <==> WellFormed(key, value)
  {
    hide ParseLine, Line, WellFormed;
    var after := content + [Line(key, value)];
    assert after[..|after| - 1] == content;
    PlainMeansWellFormed(key, value);
    if WellFormed(key, value) {
      LineAdded(content, key, value);
    } else {
      var p := ParseLine(Line(key, value));
      assert p.Some? && p.value.key == key ==> p.value.value != value;
      assert !(key in Values(after) && Values(after)[key] == value);
      assert Values(content)[key := value][key] == value;
    }
  }
}
