/** The authentication part of the access point configuration: what is kept in memory, how it
    is written to the file of keys and values, and how it is read back. */
module WlanAuth {
  import opened Wrappers
  import opened Strings
  import opened SimpleCfg
  import Decimal

  type Store = map<string, string>

  function Key(i: nat): string {
    "wep_key" + Decimal.Print(i)
  }

  lemma KeyIsInjective(i: nat, j: nat)
    ensures Key(i) == Key(j) <==> i == j
  {
    if Key(i) == Key(j) {
      assert Key(i)[7..] == Decimal.Print(i) && Key(j)[7..] == Decimal.Print(j);
      Decimal.PrintIsInjective(i, j);
    }
  }

  lemma KeysAreDistinct()
    ensures forall i: nat, j: nat :: Key(i) == Key(j) ==> i == j
    ensures forall i: nat :: Key(i) !in {"wep_default_key", "wpa", "wpa_passphrase"}
  {
    forall i: nat, j: nat ensures Key(i) == Key(j) ==> i == j {
      KeyIsInjective(i, j);
    }
    forall i: nat ensures Key(i) !in {"wep_default_key", "wpa", "wpa_passphrase"} {
      assert Key(i)[4] == 'k' && Key(i)[1] == 'e';
      assert "wep_default_key"[4] == 'd' && "wpa"[1] == 'p' && "wpa_passphrase"[1] == 'p';
    }
  }

  lemma KeysArePlain(i: nat)
    ensures PlainKey(Key(i))
  {
    var s := Decimal.Print(i);
    assert forall j | 0 <= j < |s| :: Decimal.IsDigit(s[j]);
    assert Key(i)[0] == 'w' && Key(i)[|Key(i)| - 1] == s[|s| - 1];
  }

  // ValueOrDefault(key, "")
  function Val(cfg: Store, key: string): string {
    if key in cfg then cfg[key] else ""
  }

  predicate NonEmpty(ks: seq<string>) {
    forall i | 0 <= i < |ks| :: ks[i] != ""
  }

  // A key of which something is left when its line is read again
  predicate Alive(k: string) {
    Reread(k).Some? && Reread(k).value != ""
  }

  // A key that is read again as it is when the lines in memory are
  predicate Steady(k: string) {
    k != "" && Reread(k) == Some(k)
  }

  predicate AllSteady(ks: seq<string>) {
    forall i | 0 <= i < |ks| :: Steady(ks[i])
  }

  // A key that is read again as it is from the file, where a newline would end its line
  predicate Lasting(k: string) {
    Steady(k) && '\n' !in k
  }

  predicate AllLasting(ks: seq<string>) {
    AllSteady(ks) && OneLiners(ks)
  }

  // The numbered keys of the store from number n on
  ghost predicate KeysFrom(cfg: Store, n: nat, ks: seq<string>) {
    forall i: nat | n <= i ::
      if i < n + |ks| then Key(i) in cfg && cfg[Key(i)] == ks[i - n] else Key(i) !in cfg
  }

  ghost predicate KeysAre(cfg: Store, ks: seq<string>) {
    KeysFrom(cfg, 0, ks)
  }

  // The same store apart from numbered keys
  ghost predicate SameBesides(a: Store, b: Store) {
    forall k | (forall i: nat :: k != Key(i)) :: (k in a <==> k in b) && (k in a ==> a[k] == b[k])
  }

  lemma FixedKeysStay(a: Store, b: Store)
    requires SameBesides(a, b)
    ensures forall k <- {"wep_default_key", "wpa", "wpa_passphrase"} :: (k in a <==> k in b) && Val(a, k) == Val(b, k)
  {
    hide Key;
    KeysAreDistinct();
  }

  // ---------- Removing and reading again ----------

  lemma RebuiltMinus(cfg: Store, ks: set<string>)
    ensures Rebuilt(cfg - ks) == Rebuilt(cfg) - ks
  {
    hide Reread;
  }

  lemma RebuiltTwice(cfg: Store)
    ensures Rebuilt(Rebuilt(cfg)) == Rebuilt(cfg)
  {
    hide Reread;
    forall k <- Rebuilt(cfg) ensures Reread(Rebuilt(cfg)[k]) == Some(Rebuilt(cfg)[k]) {
      RereadTwice(cfg[k]);
    }
  }

  lemma RemovedIsSmaller(cfg: Store, key: string)
    requires key in cfg
    ensures |Removed(cfg, key)| < |cfg|
  {
    hide Reread;
    var rest := cfg - {key};
    assert rest.Keys == cfg.Keys - {key};
    SubsetSize(Rebuilt(rest).Keys, rest.Keys);
  }

  function RemovedAll(cfg: Store, ks: seq<string>): Store {
    if ks == [] then cfg else RemovedAll(Removed(cfg, ks[0]), ks[1..])
  }

  function SetOf(ks: seq<string>): set<string> {
    set k | k in ks
  }

  predicate AnyIn(ks: seq<string>, cfg: Store) {
    exists k <- ks :: k in cfg
  }

  /** Removing several keys in turn reads the lines again once one of them is there. */
  lemma {:induction false} RemovedAllIs(cfg: Store, ks: seq<string>)
    ensures RemovedAll(cfg, ks) == if AnyIn(ks, cfg) then Rebuilt(cfg - SetOf(ks)) else cfg
  {
    hide Reread;
    if ks != [] {
      var k, rest := ks[0], ks[1..];
      var next := Removed(cfg, k);
      assert SetOf(ks) == {k} + SetOf(rest);
      assert AnyIn(ks, cfg) <==> k in cfg || AnyIn(rest, cfg);
      RemovedAllIs(next, rest);
      if k in cfg {
        RebuiltMinus(cfg - {k}, SetOf(rest));
        RebuiltMinus(next, SetOf(rest));
        RebuiltTwice(cfg - {k});
        assert cfg - {k} - SetOf(rest) == cfg - SetOf(ks);
        if !AnyIn(rest, next) {
          assert next - SetOf(rest) == next;
        }
      } else {
        assert cfg - SetOf(ks) == cfg - SetOf(rest);
      }
    }
  }

  // ---------- The numbered loops ----------

  // do { remove the next key } while it was there
  function Erased(cfg: Store, i: nat): Store
    decreases |cfg|
  {
    if Val(cfg, Key(i)) == "" then cfg else
      RemovedIsSmaller(cfg, Key(i));
      Erased(Removed(cfg, Key(i)), i + 1)
  }

  function Added(cfg: Store, keys: seq<string>, i: nat): Store
    requires i <= |keys|
    decreases |keys| - i
  {
    if i == |keys| then cfg else Added(cfg[Key(i) := keys[i]], keys, i + 1)
  }

  lemma {:induction false} KeysFit(cfg: Store, i: nat)
    requires forall j: nat | j < i :: Key(j) in cfg
    ensures i <= |cfg|
    decreases i
  {
    if i > 0 {
      KeysAreDistinct();
      var rest := cfg - {Key(i - 1)};
      KeysFit(rest, i - 1);
      assert |rest.Keys| == |cfg.Keys| - 1;
    }
  }

  // do { read the next key } while it is not empty
  function ReadFrom(cfg: Store, i: nat): seq<string>
    requires forall j: nat | j < i :: Key(j) in cfg
    decreases |cfg| - i
  {
    KeysFit(cfg, i);
    if Val(cfg, Key(i)) == "" then [] else
      KeysFit(cfg, i + 1);
      [cfg[Key(i)]] + ReadFrom(cfg, i + 1)
  }

  // The keys up to the first empty one
  function FirstNonEmpty(ks: seq<string>): seq<string> {
    if ks == [] || ks[0] == "" then [] else [ks[0]] + FirstNonEmpty(ks[1..])
  }

  // Reading the lines again changes nothing.
  predicate IsClean(cfg: Store) {
    Rebuilt(cfg) == cfg
  }

  lemma CleanMinus(cfg: Store, key: string)
    requires IsClean(cfg) && key in cfg
    ensures Removed(cfg, key) == cfg - {key} && IsClean(cfg - {key})
  {
    hide Rebuilt;
    RebuiltMinus(cfg, {key});
  }

  lemma {:induction false} ErasedFromClean(cfg: Store, i: nat, end: nat)
    requires IsClean(cfg) && i <= end && Val(cfg, Key(end)) == ""
    requires forall j: nat | i <= j < end :: Val(cfg, Key(j)) != ""
    ensures var r := Erased(cfg, i);
            && SameBesides(r, cfg) && IsClean(r)
            && (forall j: nat | i <= j < end :: Key(j) !in r)
            && (forall j: nat | !(i <= j < end) ::
                  (Key(j) in r <==> Key(j) in cfg) && (Key(j) in r ==> r[Key(j)] == cfg[Key(j)]))
    decreases end - i
  {
    hide Rebuilt, IsClean, Removed, Key, SameBesides;
    KeysAreDistinct();
    if i < end {
      var rest := cfg - {Key(i)};
      CleanMinus(cfg, Key(i));
      ErasedFromClean(rest, i + 1, end);
      assert Erased(cfg, i) == Erased(rest, i + 1);
      SameWithout(Erased(cfg, i), cfg, i);
    } else {
      SameAsItself(cfg);
    }
  }

  lemma SameWithout(r: Store, cfg: Store, i: nat)
    requires SameBesides(r, cfg - {Key(i)})
    ensures SameBesides(r, cfg)
  {
    hide Key;
  }

  lemma SameAsItself(cfg: Store)
    ensures SameBesides(cfg, cfg)
  {
  }

  lemma {:induction false} AddedKeys(cfg: Store, keys: seq<string>, i: nat)
    requires i <= |keys|
    ensures SameBesides(Added(cfg, keys, i), cfg)
    ensures forall j: nat :: (i <= j < |keys| ==> Key(j) in Added(cfg, keys, i) && Added(cfg, keys, i)[Key(j)] == keys[j])
    ensures forall j: nat | !(i <= j < |keys|) ::
              (Key(j) in Added(cfg, keys, i) <==> Key(j) in cfg) &&
              (Key(j) in cfg ==> Added(cfg, keys, i)[Key(j)] == cfg[Key(j)])
    decreases |keys| - i
  {
    KeysAreDistinct();
    if i < |keys| {
      AddedKeys(cfg[Key(i) := keys[i]], keys, i + 1);
    }
  }

  // Whatever is stored under the next number
  lemma {:induction false} ReadsKeys(cfg: Store, i: nat, ks: seq<string>)
    requires forall j: nat | j < i :: Key(j) in cfg
    requires forall j: nat | i <= j < i + |ks| :: Key(j) in cfg && cfg[Key(j)] == ks[j - i]
    ensures if NonEmpty(ks) && Val(cfg, Key(i + |ks|)) != "" then |ReadFrom(cfg, i)| > |ks|
            else ReadFrom(cfg, i) == FirstNonEmpty(ks)
    decreases |ks|
  {
    hide Key;
    if ks != [] {
      assert Key(i) in cfg && cfg[Key(i)] == ks[0];
      if ks[0] != "" {
        ReadsKeys(cfg, i + 1, ks[1..]);
      }
    }
  }

  lemma {:induction false} FirstNonEmptyStops(ks: seq<string>)
    ensures |FirstNonEmpty(ks)| <= |ks|
    ensures forall i | 0 <= i < |FirstNonEmpty(ks)| :: ks[i] != ""
    ensures |FirstNonEmpty(ks)| < |ks| ==> ks[|FirstNonEmpty(ks)|] == ""
  {
    if ks != [] && ks[0] != "" {
      FirstNonEmptyStops(ks[1..]);
    }
  }

  lemma {:induction false} FirstNonEmptyIsAll(ks: seq<string>)
    ensures FirstNonEmpty(ks) == ks <==> NonEmpty(ks)
  {
    if ks != [] && ks[0] != "" {
      FirstNonEmptyIsAll(ks[1..]);
      assert NonEmpty(ks) <==> NonEmpty(ks[1..]) by {
        assert forall i | 0 <= i < |ks[1..]| :: ks[1..][i] == ks[i + 1];
      }
      assert FirstNonEmpty(ks) == ks <==> FirstNonEmpty(ks[1..]) == ks[1..] by {
        assert [ks[0]] + ks[1..] == ks;
        assert ([ks[0]] + FirstNonEmpty(ks[1..]))[1..] == FirstNonEmpty(ks[1..]);
      }
    }
  }

  // The keys as they are read again, up to the first of which nothing is left
  function AliveRun(ks: seq<string>): seq<string> {
    if ks == [] || !Alive(ks[0]) then [] else [Reread(ks[0]).value] + AliveRun(ks[1..])
  }

  // ---------- The access point ----------

  datatype Mode = AuthNone | AuthWep | AuthWpa

  datatype WpaMode = Wpa1 | Wpa2 | Wpa12

  // What is in memory, the store, and the files that hold further WPA keys
  datatype Ap = Ap(cfg: Store, mode: Mode, wepDefault: int, wepKeys: seq<string>,
                   wpaMode: WpaMode, wpaKeys: seq<string>, files: map<string, seq<string>>)

  const FOUR := ["wep_key0", "wep_key1", "wep_key2", "wep_key3"]

  const WPA := ["wpa", "wpa_passphrase"]

  function WpaText(m: WpaMode): string {
    match m
    case Wpa1 => "1"
    case Wpa2 => "2"
    case Wpa12 => "3"
  }

  function SyncWep(cfg: Store, default: int, keys: seq<string>): Store {
    Added(Erased(RemovedAll(cfg, WPA)["wep_default_key" := Decimal.PrintInt(default)], 0), keys, 0)
  }

  datatype Synced = Synced(ap: Ap, ok: bool)

  function SyncAuth(ap: Ap): Synced {
    match ap.mode
    case AuthNone =>
      Synced(ap.(cfg := RemovedAll(ap.cfg, ["wep_default_key"] + FOUR + WPA)), true)
    case AuthWep =>
      if ap.wepKeys == [] then Synced(ap, false)
      else Synced(ap.(cfg := SyncWep(ap.cfg, ap.wepDefault, ap.wepKeys)), true)
    case AuthWpa =>
      if ap.wpaKeys == [] then Synced(ap, false) else
        var cfg := RemovedAll(ap.cfg, ["wep_default_key"] + FOUR)
                   ["wpa" := WpaText(ap.wpaMode)]["wpa_passphrase" := ap.wpaKeys[0]];
        var file := if "wpa_psk_file" in cfg then cfg["wpa_psk_file"] else "/etc/hostapd/hostapd.wpa_psk";
        var files := if |ap.wpaKeys| > 1 || file in ap.files then ap.files[file := ap.wpaKeys[1..]] else ap.files;
        Synced(ap.(cfg := cfg, files := files), true)
  }

  // The list read from the file of further keys; it is one longer than the file.
  function MoreKeys(cfg: Store, files: map<string, seq<string>>): seq<string> {
    var file := Val(cfg, "wpa_psk_file");
    if file != "" && file in files then Lines(Text(files[file])) + [""] else []
  }

  function GetAuth(ap: Ap): Ap {
    var wep, wpa := Val(ap.cfg, "wep_default_key"), Val(ap.cfg, "wpa");
    if wep == "" && wpa == "" then ap.(mode := AuthNone)
    else if wep != "" then ap.(mode := AuthWep, wepDefault := Decimal.Atoi(wep), wepKeys := ReadFrom(ap.cfg, 0))
    else
      var n := Decimal.Atoi(wpa);
      var first := Val(ap.cfg, "wpa_passphrase");
      ap.(mode := AuthWpa,
          wpaMode := if n == 1 then Wpa1 else if n == 2 then Wpa2 else if n == 3 then Wpa12 else ap.wpaMode,
          wpaKeys := (if first != "" then [first] else []) + MoreKeys(ap.cfg, ap.files))
  }

  // Starting from the lines of the file; nothing else is known then.
  function Restarted(lines: seq<string>, ap: Ap): Ap {
    GetAuth(ap.(cfg := Values(lines), wepKeys := [], wpaKeys := []))
  }

  // Writing the text of the file and starting from it
  function Reopened(f: File, ap: Ap): Ap {
    Restarted(Lines(Text(f.content)), ap)
  }

  // The same as long as no line holds a newline
  function InMemory(ap: Ap): Ap {
    GetAuth(ap.(cfg := Rebuilt(ap.cfg), wepKeys := [], wpaKeys := []))
  }

  lemma ReopenedRereads(f: File, ap: Ap)
    requires IsTidy(f) && OneLiners(f.content) && f.values == ap.cfg
    ensures Reopened(f, ap) == InMemory(ap)
  {
    FileRereads(f.content, f.values, f.index);
  }

  // ---------- The operations on the file ----------

  function Drops(ks: seq<string>): seq<Op> {
    seq(|ks|, i requires 0 <= i < |ks| => Drop(ks[i]))
  }

  function EraseOps(cfg: Store, i: nat): seq<Op>
    decreases |cfg|
  {
    if Val(cfg, Key(i)) == "" then [] else
      RemovedIsSmaller(cfg, Key(i));
      [Drop(Key(i))] + EraseOps(Removed(cfg, Key(i)), i + 1)
  }

  function AddOps(keys: seq<string>): seq<Op> {
    seq(|keys|, i requires 0 <= i < |keys| => Put(Key(i), keys[i]))
  }

  function WepOps(cfg: Store, default: int, keys: seq<string>): seq<Op> {
    var put := Put("wep_default_key", Decimal.PrintInt(default));
    Drops(WPA) + [put] + EraseOps(Applied(RemovedAll(cfg, WPA), put), 0) + AddOps(keys)
  }

  // What writing the settings does to the file
  function AuthOps(ap: Ap): seq<Op> {
    match ap.mode
    case AuthNone => Drops(["wep_default_key"] + FOUR + WPA)
    case AuthWep => if ap.wepKeys == [] then [] else WepOps(ap.cfg, ap.wepDefault, ap.wepKeys)
    case AuthWpa =>
      if ap.wpaKeys == [] then [] else
        Drops(["wep_default_key"] + FOUR) + [Put("wpa", WpaText(ap.wpaMode)), Put("wpa_passphrase", ap.wpaKeys[0])]
  }

  // What is written in this mode is single lines.
  predicate OneLineAuth(ap: Ap) {
    && (ap.mode.AuthWep? ==> OneLiners(ap.wepKeys))
    && (ap.mode.AuthWpa? && ap.wpaKeys != [] ==> '\n' !in ap.wpaKeys[0])
  }

  lemma {:induction false} DropsApply(cfg: Store, ks: seq<string>)
    ensures AppliedAll(cfg, Drops(ks)) == RemovedAll(cfg, ks) && PlainOps(Drops(ks)) && OneLineOps(Drops(ks))
    decreases |ks|
  {
    hide Removed;
    if ks != [] {
      assert Drops(ks)[0] == Drop(ks[0]) && Drops(ks)[1..] == Drops(ks[1..]);
      DropsApply(Removed(cfg, ks[0]), ks[1..]);
    }
  }

  lemma {:induction false} EraseOpsApply(cfg: Store, i: nat)
    ensures AppliedAll(cfg, EraseOps(cfg, i)) == Erased(cfg, i)
    ensures forall k | 0 <= k < |EraseOps(cfg, i)| :: EraseOps(cfg, i)[k].Drop?
    decreases |cfg|
  {
    hide Removed, Key;
    if Val(cfg, Key(i)) != "" {
      RemovedIsSmaller(cfg, Key(i));
      var rest := EraseOps(Removed(cfg, Key(i)), i + 1);
      EraseOpsApply(Removed(cfg, Key(i)), i + 1);
      assert EraseOps(cfg, i)[1..] == rest;
    }
  }

  lemma KeyIsOneLine(i: nat)
    ensures '\n' !in Key(i)
  {
    var s := Decimal.Print(i);
    assert forall j | 0 <= j < |s| :: Decimal.IsDigit(s[j]);
  }

  lemma {:induction false} AddOpsApply(cfg: Store, keys: seq<string>, i: nat)
    requires i <= |keys|
    ensures AppliedAll(cfg, AddOps(keys)[i..]) == Added(cfg, keys, i)
    decreases |keys| - i
  {
    hide Key;
    if i < |keys| {
      AddOpsApply(cfg[Key(i) := keys[i]], keys, i + 1);
      assert AddOps(keys)[i..][0] == Put(Key(i), keys[i]) && AddOps(keys)[i..][1..] == AddOps(keys)[i + 1..];
    }
  }

  lemma AddOpsArePlain(keys: seq<string>)
    ensures PlainOps(AddOps(keys)) && (OneLiners(keys) ==> OneLineOps(AddOps(keys)))
  {
    hide Key, PlainKey;
    forall k: nat | k < |keys| ensures PlainKey(Key(k)) && '\n' !in Key(k) {
      KeysArePlain(k);
      KeyIsOneLine(k);
    }
  }

  lemma OpsInTurn(a: seq<Op>, b: seq<Op>)
    ensures PlainOps(a) && PlainOps(b) ==> PlainOps(a + b)
    ensures OneLineOps(a) && OneLineOps(b) ==> OneLineOps(a + b)
  {
    hide PlainKey;
  }

  lemma NumberIsOneLine(n: int)
    ensures '\n' !in Decimal.PrintInt(n)
  {
    var s := Decimal.PrintInt(n);
    assert forall i | 0 <= i < |s| :: s[i] == '-' || Decimal.IsDigit(s[i]) by {
      if n < 0 {
        assert forall i | 1 <= i < |s| :: s[i] == Decimal.Print(-n)[i - 1];
      }
    }
  }

  lemma PlainNames()
    ensures PlainKey("wep_default_key") && PlainKey("wpa") && PlainKey("wpa_passphrase") && PlainKey("macaddr_acl")
  {
  }

  lemma OneLineNames()
    ensures '\n' !in "wep_default_key" && '\n' !in "wpa" && '\n' !in "wpa_passphrase" && '\n' !in "macaddr_acl"
  {
  }

  lemma WepOpsApply(cfg: Store, default: int, keys: seq<string>)
    ensures AppliedAll(cfg, WepOps(cfg, default, keys)) == SyncWep(cfg, default, keys)
    ensures PlainOps(WepOps(cfg, default, keys)) && (OneLiners(keys) ==> OneLineOps(WepOps(cfg, default, keys)))
  {
    hide Drops, EraseOps, AddOps, RemovedAll, Erased, Added, Decimal.PrintInt, PlainKey, OneLiners, PlainOps, OneLineOps;
    var c1 := RemovedAll(cfg, WPA);
    var put := [Put("wep_default_key", Decimal.PrintInt(default))];
    var c2 := Applied(c1, put[0]);
    OnePut(c1, "wep_default_key", Decimal.PrintInt(default));
    var a, e, d := Drops(WPA), EraseOps(c2, 0), AddOps(keys);
    DropsApply(cfg, WPA);
    EraseOpsApply(c2, 0);
    AllDrops(e);
    AddOpsApply(Erased(c2, 0), keys, 0);
    AddOpsArePlain(keys);
    assert d[0..] == d;
    AppliedInTurn(cfg, a, put);
    AppliedInTurn(cfg, a + put, e);
    AppliedInTurn(cfg, a + put + e, d);
    OpsInTurn(a, put);
    OpsInTurn(a + put, e);
    OpsInTurn(a + put + e, d);
  }

  lemma AllDrops(ops: seq<Op>)
    requires forall k | 0 <= k < |ops| :: ops[k].Drop?
    ensures PlainOps(ops) && OneLineOps(ops)
  {
  }

  lemma OnePut(cfg: Store, key: string, value: string)
    ensures AppliedAll(cfg, [Put(key, value)]) == cfg[key := value]
    ensures key == "wep_default_key" && (exists n :: value == Decimal.PrintInt(n)) ==>
              PlainOps([Put(key, value)]) && OneLineOps([Put(key, value)])
  {
    hide PlainKey, Decimal.PrintInt;
    PlainNames();
    OneLineNames();
    if n :| value == Decimal.PrintInt(n) {
      NumberIsOneLine(n);
    }
    assert [Put(key, value)][1..] == [];
  }

  lemma WpaOpsApply(cfg: Store, mode: WpaMode, first: string)
    ensures var ops := [Put("wpa", WpaText(mode)), Put("wpa_passphrase", first)];
            && AppliedAll(cfg, ops) == cfg["wpa" := WpaText(mode)]["wpa_passphrase" := first]
            && PlainOps(ops) && ('\n' !in first ==> OneLineOps(ops))
  {
    hide PlainKey;
    PlainNames();
    OneLineNames();
    WpaTextIsOneLine(mode);
    var a, b := [Put("wpa", WpaText(mode))], [Put("wpa_passphrase", first)];
    AppliedInTurn(cfg, a, b);
    OnePut(cfg, "wpa", WpaText(mode));
    OnePut(cfg["wpa" := WpaText(mode)], "wpa_passphrase", first);
    assert a + b == [Put("wpa", WpaText(mode)), Put("wpa_passphrase", first)];
  }

  lemma WpaTextIsOneLine(m: WpaMode)
    ensures '\n' !in WpaText(m)
  {
  }

  /** The operations do to the map what writing the settings is said to do, and are on plain keys. */
  lemma AuthOpsApply(ap: Ap)
    ensures AppliedAll(ap.cfg, AuthOps(ap)) == SyncAuth(ap).ap.cfg && PlainOps(AuthOps(ap))
    ensures OneLineAuth(ap) ==> OneLineOps(AuthOps(ap))
  {
    hide Drops, WepOps, RemovedAll, SyncWep, WpaText, OneLiners, PlainOps, OneLineOps;
    AllDrops([]);
    match ap.mode {
      case AuthNone => DropsApply(ap.cfg, ["wep_default_key"] + FOUR + WPA);
      case AuthWep => WepOpsApply(ap.cfg, ap.wepDefault, ap.wepKeys);
      case AuthWpa =>
        if ap.wpaKeys != [] {
          var a, b := Drops(["wep_default_key"] + FOUR), [Put("wpa", WpaText(ap.wpaMode)), Put("wpa_passphrase", ap.wpaKeys[0])];
          DropsApply(ap.cfg, ["wep_default_key"] + FOUR);
          WpaOpsApply(RemovedAll(ap.cfg, ["wep_default_key"] + FOUR), ap.wpaMode, ap.wpaKeys[0]);
          AppliedInTurn(ap.cfg, a, b);
          OpsInTurn(a, b);
        }
    }
  }

  // The file when the settings have been written
  function Written(f: File, ap: Ap): File {
    DoAll(f, AuthOps(ap))
  }

  lemma WrittenFollows(f: File, ap: Ap)
    requires IsTidy(f) && f.values == ap.cfg
    ensures IsTidy(Written(f, ap)) && Written(f, ap).values == SyncAuth(ap).ap.cfg
    ensures OneLiners(f.content) && OneLineAuth(ap) ==> OneLiners(Written(f, ap).content)
  {
    AuthOpsApply(ap);
    DoAllFollows(f, AuthOps(ap));
  }

  // ---------- How far the erasing loop gets ----------

  // The first key from number i on of which nothing is left
  function FirstDead(ks: seq<string>, i: nat): (n: nat)
    requires i <= |ks|
    ensures i <= n <= |ks| && (n < |ks| ==> !Alive(ks[n]))
    ensures forall j | i <= j < n :: Alive(ks[j])
    decreases |ks| - i
  {
    if i == |ks| || !Alive(ks[i]) then i else FirstDead(ks, i + 1)
  }

  // The lines were read again before the loop, because a WPA setting was removed.
  predicate Early(cfg: Store) {
    AnyIn(WPA, cfg)
  }

  // The loop removes the keys before this number. The first key is still looked at as it is.
  function Reach(cfg: Store, was: seq<string>): nat {
    if Early(cfg) then FirstDead(was, 0)
    else if was == [] || was[0] == "" then 0
    else FirstDead(was, 1)
  }

  predicate Rereads(cfg: Store, was: seq<string>) {
    Early(cfg) || Reach(cfg, was) > 0
  }

  // Key number j of the old ones is still there after the loop.
  predicate Stays(cfg: Store, was: seq<string>, j: nat)
    requires j < |was|
  {
    j >= Reach(cfg, was) && (Rereads(cfg, was) ==> Reread(was[j]).Some?)
  }

  // The store after WEP settings were written over the numbered keys `was`: the given keys, and
  // behind them those of the old ones that have stayed.
  ghost predicate Overwritten(r: Store, cfg: Store, keys: seq<string>, was: seq<string>) {
    && (forall j: nat | j < |keys| :: Key(j) in r && r[Key(j)] == keys[j])
    && (forall j: nat | j >= |keys| ::
          if j < |was| && Stays(cfg, was, j)
          then Key(j) in r && Reread(r[Key(j)]) == Reread(was[j]) else Key(j) !in r)
  }

  // The numbered keys of a map that was read again
  lemma RebuiltKeys(cfg: Store, was: seq<string>)
    requires KeysAre(cfg, was)
    ensures forall j: nat ::
              if j < |was| && Reread(was[j]).Some?
              then Key(j) in Rebuilt(cfg) && Rebuilt(cfg)[Key(j)] == Reread(was[j]).value
              else Key(j) !in Rebuilt(cfg)
  {
    hide Key, Reread;
  }

  lemma NumberIsPlain(n: int)
    ensures Reread(Decimal.PrintInt(n)) == Some(Decimal.PrintInt(n)) && Decimal.PrintInt(n) != ""
  {
    hide Trim;
    var s := Decimal.PrintInt(n);
    Decimal.AtoiPrintInt(n);
    assert forall i | 0 <= i < |s| :: s[i] == '-' || Decimal.IsDigit(s[i]) by {
      if n < 0 {
        assert forall i | 1 <= i < |s| :: s[i] == Decimal.Print(-n)[i - 1];
      }
    }
    TrimIsTrimmed(s);
  }

  // The loop, over a map that is clean
  lemma ErasedKeepsClean(c: Store, cfg: Store, i: nat, was: seq<string>)
    requires IsClean(c) && i <= |was|
    requires forall j: nat | j >= i ::
               if j < |was| && Reread(was[j]).Some? then Key(j) in c && c[Key(j)] == Reread(was[j]).value
               else Key(j) !in c
    requires forall j: nat | j < i :: Key(j) !in c
    ensures var r, end := Erased(c, i), FirstDead(was, i);
            && SameBesides(r, c) && IsClean(r)
            && forall j: nat ::
                 if end <= j < |was| && Reread(was[j]).Some? then Key(j) in r && r[Key(j)] == Reread(was[j]).value
                 else Key(j) !in r
  {
    hide Key, Reread, Erased, Rebuilt, SameBesides, IsClean;
    var end := FirstDead(was, i);
    assert Val(c, Key(end)) == "";
    assert forall j: nat | i <= j < end :: Alive(was[j]);
    ErasedFromClean(c, i, end);
  }

  // Before the keys are written
  ghost predicate Emptied(r: Store, cfg: Store, default: int, was: seq<string>) {
    && (forall j: nat ::
          if j < |was| && Stays(cfg, was, j)
          then Key(j) in r && r[Key(j)] == (if Rereads(cfg, was) then Reread(was[j]).value else was[j])
          else Key(j) !in r)
    && "wpa" !in r && "wpa_passphrase" !in r && Val(r, "wep_default_key") == Decimal.PrintInt(default)
  }

  lemma CleanWithDefault(c: Store, default: int)
    requires IsClean(c)
    ensures IsClean(c["wep_default_key" := Decimal.PrintInt(default)])
  {
    hide Reread, Decimal.PrintInt;
    NumberIsPlain(default);
    assert forall k <- c :: Rebuilt(c)[k] == c[k];
  }

  lemma EmptiedEarly(cfg: Store, default: int, was: seq<string>)
    requires KeysAre(cfg, was) && Early(cfg)
    ensures Emptied(Erased(RemovedAll(cfg, WPA)["wep_default_key" := Decimal.PrintInt(default)], 0), cfg, default, was)
  {
    hide Key, Reread, Erased, Rebuilt, RemovedAll, Decimal.PrintInt, SameBesides, IsClean;
    KeysAreDistinct();
    RemovedAllIs(cfg, WPA);
    var rest := cfg - SetOf(WPA);
    WpaSet();
    assert KeysAre(rest, was);
    var c1 := Rebuilt(rest);
    RebuiltTwice(rest);
    RebuiltKeys(rest, was);
    assert IsClean(c1) by { CleanIsRebuilt(c1); }
    RebuiltMinus(cfg, SetOf(WPA));
    CleanWithDefault(c1, default);
    var c2 := c1["wep_default_key" := Decimal.PrintInt(default)];
    ErasedKeepsClean(c2, cfg, 0, was);
    FixedKeysStay(Erased(c2, 0), c2);
  }

  lemma WpaSet()
    ensures SetOf(WPA) == {"wpa", "wpa_passphrase"}
  {
    assert WPA[0] == "wpa" && WPA[1] == "wpa_passphrase";
  }

  lemma CleanIsRebuilt(c: Store)
    requires Rebuilt(c) == c
    ensures IsClean(c)
  {
  }

  lemma EmptiedLate(cfg: Store, default: int, was: seq<string>)
    requires KeysAre(cfg, was) && !Early(cfg)
    ensures Emptied(Erased(RemovedAll(cfg, WPA)["wep_default_key" := Decimal.PrintInt(default)], 0), cfg, default, was)
  {
    hide Key, Reread, Erased, Rebuilt, RemovedAll, Decimal.PrintInt, SameBesides, KeysFrom, Emptied;
    RemovedAllIs(cfg, WPA);
    var c1 := cfg["wep_default_key" := Decimal.PrintInt(default)];
    assert WPA[0] == "wpa" && WPA[1] == "wpa_passphrase";
    DefaultLeavesKeys(cfg, Decimal.PrintInt(default), was);
    ErasedStep(c1);
    if was != [] && was[0] != "" {
      FirstKey(c1, was);
      EmptiedAfterFirst(c1, cfg, default, was);
    } else {
      FirstKey(c1, was);
      NotEmptied(c1, cfg, default, was);
    }
  }

  lemma DefaultLeavesKeys(cfg: Store, v: string, was: seq<string>)
    requires KeysAre(cfg, was)
    ensures KeysAre(cfg["wep_default_key" := v], was)
  {
    hide Key;
    KeysAreDistinct();
  }

  lemma FirstKey(cfg: Store, was: seq<string>)
    requires KeysAre(cfg, was)
    ensures Val(cfg, Key(0)) == if was == [] then "" else was[0]
  {
    hide Key;
  }

  lemma NotEmptied(c1: Store, cfg: Store, default: int, was: seq<string>)
    requires KeysAre(c1, was) && !Early(cfg) && (was == [] || was[0] == "")
    requires "wpa" !in c1 && "wpa_passphrase" !in c1 && Val(c1, "wep_default_key") == Decimal.PrintInt(default)
    ensures Emptied(c1, cfg, default, was)
  {
    hide Key, Reread, Decimal.PrintInt;
  }

  lemma EmptiedAfterFirst(c1: Store, cfg: Store, default: int, was: seq<string>)
    requires KeysAre(c1, was) && !Early(cfg) && was != [] && was[0] != ""
    requires "wpa" !in c1 && "wpa_passphrase" !in c1
    requires "wep_default_key" in c1 && c1["wep_default_key"] == Decimal.PrintInt(default)
    ensures Emptied(Erased(Rebuilt(c1 - {Key(0)}), 1), cfg, default, was)
  {
    hide Key, Reread, Erased, Rebuilt, Decimal.PrintInt, SameBesides, IsClean, KeysAre;
    KeysAreDistinct();
    NumberIsPlain(default);
    var rest := c1 - {Key(0)};
    var c2 := Rebuilt(rest);
    RebuiltMinus(c1, {Key(0)});
    RebuiltTwice(rest);
    RebuiltKeys(c1, was);
    assert IsClean(c2) by { CleanIsRebuilt(c2); }
    RebuiltKeeps(c1, "wep_default_key");
    RebuiltKeeps(c1, "wpa");
    RebuiltKeeps(c1, "wpa_passphrase");
    ErasedKeepsClean(c2, cfg, 1, was);
    FixedKeysStay(Erased(c2, 1), c2);
  }

  lemma ErasedStep(c: Store)
    ensures Erased(c, 0) == if Val(c, Key(0)) == "" then c else Erased(Rebuilt(c - {Key(0)}), 1)
  {
  }

  lemma RebuiltKeeps(c: Store, k: string)
    ensures k !in c ==> k !in Rebuilt(c)
    ensures k in c && Reread(c[k]) == Some(c[k]) ==> k in Rebuilt(c) && Rebuilt(c)[k] == c[k]
  {
    hide Reread;
  }

  lemma SyncWepOverwrites(cfg: Store, default: int, keys: seq<string>, was: seq<string>)
    requires KeysAre(cfg, was)
    ensures var r := SyncWep(cfg, default, keys);
            && Overwritten(r, cfg, keys, was) && "wpa" !in r && "wpa_passphrase" !in r
            && Val(r, "wep_default_key") == Decimal.PrintInt(default)
  {
    hide Key, Erased, Added, Decimal.PrintInt, SameBesides, Early, Reach, RemovedAll, Reread, Rereads;
    if Early(cfg) {
      EmptiedEarly(cfg, default, was);
    } else {
      EmptiedLate(cfg, default, was);
    }
    var c := Erased(RemovedAll(cfg, WPA)["wep_default_key" := Decimal.PrintInt(default)], 0);
    forall j: nat | j < |was| && Stays(cfg, was, j) ensures Reread(c[Key(j)]) == Reread(was[j]) {
      if Rereads(cfg, was) {
        RereadTwice(was[j]);
      }
    }
    AddedKeys(c, keys, 0);
    FixedKeysStay(Added(c, keys, 0), c);
  }

  // ---------- Writing WEP settings ----------

  /** From a store whose numbered keys are contiguous, writing WEP settings leaves exactly the
      given keys just when no old key with a higher number stays. */
  lemma StoresExactlyTheKeys(cfg: Store, default: int, keys: seq<string>, was: seq<string>)
    requires KeysAre(cfg, was)
    ensures KeysAre(SyncWep(cfg, default, keys), keys) <==>
              forall j: nat | |keys| <= j < |was| :: !Stays(cfg, was, j)
  {
    hide Key, SyncWep, Stays, Reread;
    SyncWepOverwrites(cfg, default, keys, was);
    var r := SyncWep(cfg, default, keys);
    if j: nat :| |keys| <= j < |was| && Stays(cfg, was, j) {
      assert Key(j) in r;
    }
  }

  /** The keys stay contiguous exactly when the old keys that stay behind the new ones leave no
      gap. */
  lemma StaysContiguousExactly(cfg: Store, default: int, keys: seq<string>, was: seq<string>)
    requires KeysAre(cfg, was)
    ensures (exists ks :: KeysAre(SyncWep(cfg, default, keys), ks)) <==>
              forall i: nat, j: nat | |keys| <= i < j < |was| && Stays(cfg, was, j) :: Stays(cfg, was, i)
  {
    hide Key, SyncWep, Stays, Reread, KeysAre;
    SyncWepOverwrites(cfg, default, keys, was);
    var r, n := SyncWep(cfg, default, keys), |keys|;
    if i: nat, j: nat :| n <= i < j < |was| && Stays(cfg, was, j) && !Stays(cfg, was, i) {
      forall ks ensures !KeysAre(r, ks) {
        GapIsNotContiguous(r, i, j, ks);
      }
    } else {
      var end := Last(cfg, was, n);
      NoGap(r, cfg, keys, was, end);
    }
  }

  // Behind the last key from number i on that stays
  function Last(cfg: Store, was: seq<string>, i: nat): (end: nat)
    ensures i <= end && (end > i ==> end <= |was| && Stays(cfg, was, end - 1))
    ensures forall j: nat | end <= j < |was| :: !Stays(cfg, was, j)
    decreases |was| - i
  {
    if i >= |was| then i else
      var end := Last(cfg, was, i + 1);
      if end > i + 1 || Stays(cfg, was, i) then end else i
  }

  lemma NoGap(r: Store, cfg: Store, keys: seq<string>, was: seq<string>, end: nat)
    requires Overwritten(r, cfg, keys, was) && end == Last(cfg, was, |keys|)
    requires forall i: nat, j: nat | |keys| <= i < j < |was| && Stays(cfg, was, j) :: Stays(cfg, was, i)
    ensures exists ks :: KeysAre(r, ks)
  {
    hide Key, Stays, Reread;
    var n := |keys|;
    assert forall j: nat | n <= j < end :: j < |was| && Stays(cfg, was, j);
    var ks := seq(end, j requires j >= 0 => Val(r, Key(j)));
    assert KeysAre(r, ks);
  }

  lemma GapIsNotContiguous(cfg: Store, n: nat, m: nat, ks: seq<string>)
    requires n < m && Key(n) !in cfg && Key(m) in cfg
    ensures !KeysAre(cfg, ks)
  {
    hide Key;
    assert n < |ks| || m >= |ks|;
  }

  // Steady keys leave nothing behind.
  lemma SteadyKeysGo(cfg: Store, was: seq<string>)
    requires AllSteady(was)
    ensures forall j: nat | j < |was| :: !Stays(cfg, was, j)
  {
    hide Reread;
    assert forall j | 0 <= j < |was| :: Alive(was[j]);
  }

  /** A key with `=` in it stops the loop: over the keys `c`, `a=b` and `d` the one key `x` is
      written, and `d` stays with a gap before it; with two keys `d` is read as the third. */
  lemma EqualsStopsTheLoop(cfg: Store, default: int)
    requires KeysAre(cfg, ["c", "a=b", "d"])
    ensures forall ks :: !KeysAre(SyncWep(cfg, default, ["x"]), ks)
    ensures ReadFrom(Rebuilt(SyncWep(cfg, default, ["x", "y"])), 0) == ["x", "y", "d"]
  {
    hide Key, SyncWep, Stays, KeysAre, Overwritten, Reread, Rebuilt, ReadFrom;
    var was := ["c", "a=b", "d"];
    OnlyTheThirdStays(cfg, was);
    StaysContiguousExactly(cfg, default, ["x"], was);
    SyncWepOverwrites(cfg, default, ["x", "y"], was);
    var r := SyncWep(cfg, default, ["x", "y"]);
    ThirdIsRead(r, cfg, was);
  }

  lemma OnlyTheThirdStays(cfg: Store, was: seq<string>)
    requires was == ["c", "a=b", "d"]
    ensures !Stays(cfg, was, 1) && Stays(cfg, was, 2)
  {
    hide Reach, Trim;
    PlainWords();
    assert "a=b"[1] == '=';
    ReachOfThree(cfg, was);
  }

  lemma ThirdIsRead(r: Store, cfg: Store, was: seq<string>)
    requires was == ["c", "a=b", "d"] && Overwritten(r, cfg, ["x", "y"], was) && Stays(cfg, was, 2)
    ensures ReadFrom(Rebuilt(r), 0) == ["x", "y", "d"]
  {
    hide Key, Reread, Stays;
    PlainWords();
    var all := ["x", "y", "d"];
    ReadsAliveRun(Rebuilt(r), 0, all);
    AliveRunOfSteady(all, []);
    assert all + [] == all;
  }

  lemma PlainWords()
    ensures Steady("c") && Steady("d") && Steady("x") && Steady("y")
  {
    TrimIsTrimmed("c");
    TrimIsTrimmed("d");
    TrimIsTrimmed("x");
    TrimIsTrimmed("y");
  }

  lemma ReachOfThree(cfg: Store, was: seq<string>)
    requires |was| == 3 && Alive(was[0]) && !Alive(was[1]) && was[0] != ""
    ensures Reach(cfg, was) == 1
  {
    hide Alive;
    assert FirstDead(was, 1) == 1;
    assert FirstDead(was, 0) == FirstDead(was, 1);
  }

  // ---------- Reading back ----------

  lemma {:induction false} ReadsAt(cfg: Store, i: nat)
    requires forall j: nat | j < i :: Key(j) in cfg
    ensures forall j: nat | i <= j < i + |ReadFrom(cfg, i)| ::
              Key(j) in cfg && ReadFrom(cfg, i)[j - i] == cfg[Key(j)] != ""
    decreases |cfg| - i
  {
    hide Key;
    KeysFit(cfg, i);
    if Val(cfg, Key(i)) == "" {
      assert ReadFrom(cfg, i) == [];
    } else {
      KeysFit(cfg, i + 1);
      ReadsAt(cfg, i + 1);
      assert ReadFrom(cfg, i) == [cfg[Key(i)]] + ReadFrom(cfg, i + 1);
    }
  }

  lemma {:induction false} ReadsAliveRun(cfg: Store, i: nat, ks: seq<string>)
    requires forall j: nat | j < i :: Key(j) in cfg
    requires forall j: nat | j >= i ::
               if j < i + |ks| && Reread(ks[j - i]).Some?
               then Key(j) in cfg && cfg[Key(j)] == Reread(ks[j - i]).value else Key(j) !in cfg
    ensures ReadFrom(cfg, i) == AliveRun(ks)
    decreases |ks|
  {
    hide Key, Reread;
    if ks != [] {
      assert ks[i - i] == ks[0];
      if Alive(ks[0]) {
        assert Key(i) in cfg && cfg[Key(i)] == Reread(ks[0]).value;
        assert forall k | 0 <= k < |ks[1..]| :: ks[1..][k] == ks[k + 1];
        ReadsAliveRun(cfg, i + 1, ks[1..]);
      }
    }
  }

  lemma {:induction false} AliveRunOfSteady(ks: seq<string>, rest: seq<string>)
    requires AllSteady(ks)
    ensures AliveRun(ks + rest) == ks + AliveRun(rest)
  {
    hide Reread;
    if ks == [] {
      assert ks + rest == rest;
    } else {
      assert (ks + rest)[1..] == ks[1..] + rest && Steady(ks[0]);
      AliveRunOfSteady(ks[1..], rest);
    }
  }

  lemma OverwrittenRebuilt(r: Store, cfg: Store, keys: seq<string>, was: seq<string>)
    requires Overwritten(r, cfg, keys, was)
    ensures forall j: nat | j < |keys| ::
              if Reread(keys[j]).Some? then Key(j) in Rebuilt(r) && Rebuilt(r)[Key(j)] == Reread(keys[j]).value
              else Key(j) !in Rebuilt(r)
    ensures var n := |keys|;
            Val(Rebuilt(r), Key(n)) != "" <==> n < |was| && Stays(cfg, was, n) && Alive(was[n])
  {
    hide Key, Stays, Reread;
  }

  lemma ReadsOnlySteady(c: Store, keys: seq<string>)
    requires forall j: nat | j < |keys| ::
               if Reread(keys[j]).Some? then Key(j) in c && c[Key(j)] == Reread(keys[j]).value else Key(j) !in c
    requires ReadFrom(c, 0) == keys
    ensures AllSteady(keys)
  {
    hide Key, Reread, ReadFrom;
    ReadsAt(c, 0);
    forall j | 0 <= j < |keys| ensures Steady(keys[j]) {
      assert Key(j) in c && keys[j - 0] == c[Key(j)] != "";
    }
  }

  lemma ReadsSteady(c: Store, keys: seq<string>)
    requires forall j: nat | j < |keys| ::
               if Reread(keys[j]).Some? then Key(j) in c && c[Key(j)] == Reread(keys[j]).value else Key(j) !in c
    requires AllSteady(keys)
    ensures ReadFrom(c, 0) == keys <==> Val(c, Key(|keys|)) == ""
  {
    hide Key, Reread, ReadFrom;
    assert forall j: nat | j < |keys| :: Steady(keys[j]) && Key(j) in c && c[Key(j)] == keys[j];
    ReadsKeys(c, 0, keys);
    FirstNonEmptyIsAll(keys);
  }

  lemma OverwrittenReads(r: Store, cfg: Store, keys: seq<string>, was: seq<string>)
    requires Overwritten(r, cfg, keys, was)
    ensures ReadFrom(Rebuilt(r), 0) == keys <==>
              AllSteady(keys) && !(|keys| < |was| && Stays(cfg, was, |keys|) && Alive(was[|keys|]))
  {
    hide Key, Stays, Reread, Overwritten, Rebuilt, ReadFrom;
    OverwrittenRebuilt(r, cfg, keys, was);
    if AllSteady(keys) {
      ReadsSteady(Rebuilt(r), keys);
    } else if ReadFrom(Rebuilt(r), 0) == keys {
      ReadsOnlySteady(Rebuilt(r), keys);
    }
  }

  lemma WepInMemory(ap: Ap, was: seq<string>)
    requires ap.mode == AuthWep && ap.wepKeys != [] && KeysAre(ap.cfg, was)
    ensures var r := SyncAuth(ap); var back := InMemory(r.ap); var n := |ap.wepKeys|;
            && r.ok && back.mode == AuthWep && back.wepDefault == ap.wepDefault
            && (back.wepKeys == ap.wepKeys <==>
                  AllSteady(ap.wepKeys) && !(n < |was| && Stays(ap.cfg, was, n) && Alive(was[n])))
  {
    hide Key, SyncWep, ReadFrom, Overwritten, Stays, Reread, Decimal.Atoi, Decimal.PrintInt;
    SyncWepOverwrites(ap.cfg, ap.wepDefault, ap.wepKeys, was);
    Decimal.AtoiPrintInt(ap.wepDefault);
    NumberIsPlain(ap.wepDefault);
    var r := SyncAuth(ap).ap.cfg;
    RebuiltKeeps(r, "wep_default_key");
    OverwrittenReads(r, ap.cfg, ap.wepKeys, was);
  }

  lemma RestartReadsOneLiners(lines: seq<string>, ap: Ap)
    requires OneLiners(lines)
    ensures OneLiners(Restarted(lines, ap).wepKeys) && OneLiners(Restarted(lines, ap).wpaKeys)
  {
    hide ReadFrom, Decimal.Atoi, Key, Values;
    ReadValuesAreOneLine(lines);
    var cfg := Values(lines);
    ReadsAt(cfg, 0);
    var ks := ReadFrom(cfg, 0);
    forall i | 0 <= i < |ks| ensures '\n' !in ks[i] {
      assert Key(i) in cfg && ks[i - 0] == cfg[Key(i)];
    }
    var file := Val(cfg, "wpa_psk_file");
    if file in ap.files {
      ReadLinesAreOneLine(Text(ap.files[file]));
    }
  }

  lemma SyncKeepsMemory(ap: Ap)
    ensures SyncAuth(ap).ap.(cfg := ap.cfg, files := ap.files) == ap
  {
    hide SyncWep, RemovedAll;
  }

  /** Written to the file and read again from it, for every list of keys: the keys come back exactly
      when none is empty, holds `=` or a newline or has outer spaces, and no old key that stayed is
      read behind them; unless one holds a newline, mode and default key come back. */
  lemma WepRoundTrip(f: File, ap: Ap, was: seq<string>)
    requires IsTidy(f) && OneLiners(f.content) && f.values == ap.cfg
    requires ap.mode == AuthWep && ap.wepKeys != [] && KeysAre(ap.cfg, was)
    ensures var r := SyncAuth(ap); var back := Reopened(Written(f, ap), r.ap); var n := |ap.wepKeys|;
            && r.ok && Written(f, ap).values == r.ap.cfg
            && (OneLiners(ap.wepKeys) ==> back.mode == AuthWep && back.wepDefault == ap.wepDefault)
            && (back.wepKeys == ap.wepKeys <==>
                  AllLasting(ap.wepKeys) && !(n < |was| && Stays(ap.cfg, was, n) && Alive(was[n])))
  {
    hide SyncAuth, Restarted, Written, InMemory, Stays, Alive, AllSteady, OneLiners, KeysFrom, IsTidy, Lines, Text;
    WrittenFollows(f, ap);
    WepInMemory(ap, was);
    var r, g := SyncAuth(ap).ap, Written(f, ap);
    if OneLiners(ap.wepKeys) {
      ReopenedRereads(g, r);
    } else {
      ReadLinesAreOneLine(Text(g.content));
      RestartReadsOneLiners(Lines(Text(g.content)), r);
    }
  }

  lemma WpaTextIsPlain(m: WpaMode)
    ensures Reread(WpaText(m)) == Some(WpaText(m)) && WpaText(m) != ""
    ensures Decimal.Atoi(WpaText(m)) == match m case Wpa1 => 1 case Wpa2 => 2 case Wpa12 => 3
  {
    TrimIsTrimmed(WpaText(m));
    Decimal.AtoiPrintInt(match m case Wpa1 => 1 case Wpa2 => 2 case Wpa12 => 3);
    assert Decimal.PrintInt(1) == "1" && Decimal.PrintInt(2) == "2" && Decimal.PrintInt(3) == "3";
  }

  lemma WpaInMemory(ap: Ap)
    requires ap.mode == AuthWpa && ap.wpaKeys != []
    ensures var r := SyncAuth(ap); var back := InMemory(r.ap); var first := ap.wpaKeys[0];
            && r.ok && back.mode == AuthWpa && back.wpaMode == ap.wpaMode
            && back.wpaKeys == (if Alive(first) then [Reread(first).value] else [])
                               + MoreKeys(Rebuilt(r.ap.cfg), r.ap.files)
  {
    hide Reread, RemovedAll, Decimal.Atoi, WpaText, Rebuilt, MoreKeys;
    var keys := ["wep_default_key"] + FOUR;
    RemovedAllIs(ap.cfg, keys);
    RemovedIsGone(ap.cfg, keys, "wep_default_key");
    var r := SyncAuth(ap).ap.cfg;
    WpaTextIsPlain(ap.wpaMode);
    RebuiltKeeps(r, "wep_default_key");
    RebuiltKeeps(r, "wpa");
    RebuiltValue(r, "wpa_passphrase");
  }

  /** WPA settings with a first key of one line come back from the file with the mode, and with that
      key as it is read again before the keys of its own file. Whatever the first key, if no such
      file is read it comes back exactly when it is not empty, holds no `=` and no newline and has no
      outer spaces. */
  lemma WpaRoundTrip(f: File, ap: Ap)
    requires IsTidy(f) && OneLiners(f.content) && f.values == ap.cfg
    requires ap.mode == AuthWpa && ap.wpaKeys != []
    ensures var r := SyncAuth(ap); var g := Written(f, ap); var back := Reopened(g, r.ap); var first := ap.wpaKeys[0];
            var more := MoreKeys(Values(Lines(Text(g.content))), r.ap.files);
            && r.ok && g.values == r.ap.cfg
            && ('\n' !in first ==>
                  && back.mode == AuthWpa && back.wpaMode == ap.wpaMode
                  && back.wpaKeys == (if Alive(first) then [Reread(first).value] else []) + more)
            && (Lasting(first) ==> back.wpaKeys != [] && back.wpaKeys[0] == first)
            && (more == [] ==> (back.wpaKeys != [] && back.wpaKeys[0] == first <==> Lasting(first)))
  {
    hide SyncAuth, Restarted, Written, InMemory, Reread, OneLiners, IsTidy, Lines, Text, MoreKeys, Values, Rebuilt;
    WrittenFollows(f, ap);
    WpaInMemory(ap);
    var r, g := SyncAuth(ap).ap, Written(f, ap);
    if '\n' !in ap.wpaKeys[0] {
      ReopenedRereads(g, r);
      FileRereads(g.content, g.values, g.index);
    } else {
      ReadLinesAreOneLine(Text(g.content));
      RestartReadsOneLiners(Lines(Text(g.content)), r);
      assert OneLiners(Reopened(g, r).wpaKeys);
      if Reopened(g, r).wpaKeys != [] {
        FirstIsOneLine(Reopened(g, r).wpaKeys);
      }
    }
  }

  lemma FirstIsOneLine(ks: seq<string>)
    requires OneLiners(ks) && ks != []
    ensures '\n' !in ks[0]
  {
  }

  lemma RemovedIsGone(cfg: Store, ks: seq<string>, k: string)
    requires k in ks
    ensures k !in RemovedAll(cfg, ks)
  {
    hide Reread;
    RemovedAllIs(cfg, ks);
  }

  lemma RebuiltValue(c: Store, k: string)
    requires k in c
    ensures Val(Rebuilt(c), k) == if Alive(c[k]) then Reread(c[k]).value else ""
  {
    hide Reread;
  }

  // ---------- Turning authentication off ----------

  lemma FourAreKeys()
    ensures FOUR == [Key(0), Key(1), Key(2), Key(3)]
  {
    assert Key(0) == "wep_key0" && Key(1) == "wep_key1" && Key(2) == "wep_key2" && Key(3) == "wep_key3";
  }

  // The numbered keys when those of the first four numbers have been removed by name
  ghost predicate WithoutFour(r: Store, ks: seq<string>) {
    forall j: nat ::
      if 4 <= j < |ks| && Reread(ks[j]).Some? then Key(j) in r && r[Key(j)] == Reread(ks[j]).value
      else Key(j) !in r
  }

  lemma RemovesFour(cfg: Store, ks: seq<string>, names: seq<string>)
    requires KeysAre(cfg, ks)
    requires names != [] && names[0] == "wep_default_key" && FOUR <= names[1..]
    requires forall k <- names[5..] :: k in {"wpa", "wpa_passphrase"}
    ensures WithoutFour(RemovedAll(cfg, names), ks)
  {
    hide Key, Reread, RemovedAll, Rebuilt;
    KeysAreDistinct();
    FourAreKeys();
    RemovedAllIs(cfg, names);
    RebuiltKeys(cfg, ks);
    RebuiltMinus(cfg, SetOf(names));
    assert FOUR[0] == Key(0) && FOUR[1] == Key(1) && FOUR[2] == Key(2) && FOUR[3] == Key(3);
    assert forall i: nat | i < 4 :: names[1..][i] == FOUR[i] == names[i + 1] == Key(i);
    forall i: nat | i < |names|
      ensures if 1 <= i < 5 then names[i] == Key(i - 1) else names[i] in {"wep_default_key", "wpa", "wpa_passphrase"}
    {
      if i >= 5 {
        assert names[i] == names[5..][i - 5] && names[5..][i - 5] in names[5..];
      } else if i >= 1 {
        assert names[(i - 1) + 1] == Key(i - 1);
      }
    }
    forall j: nat ensures Key(j) in SetOf(names) <==> j < 4 {
      if j < 4 {
        assert Key(j) == names[j + 1];
      }
    }
    if ks != [] {
      assert Key(0) in cfg && Key(0) == names[1];
    } else {
      assert forall j: nat :: Key(j) !in cfg;
    }
  }

  /** Turning authentication off removes all numbered keys exactly when every key from the fifth
      on holds `=`, so in particular when there are at most four. */
  lemma NoneRemovesFour(ap: Ap, ks: seq<string>)
    requires ap.mode == AuthNone && KeysAre(ap.cfg, ks)
    ensures KeysAre(SyncAuth(ap).ap.cfg, []) <==> forall j | 4 <= j < |ks| :: '=' in ks[j]
  {
    hide Key, RemovedAll, Trim;
    RemovesFour(ap.cfg, ks, ["wep_default_key"] + FOUR + WPA);
    var r := SyncAuth(ap).ap.cfg;
    if j :| 4 <= j < |ks| && '=' !in ks[j] {
      assert Key(j) in r;
    }
  }

  lemma StaleInMemory(ap: Ap, ks: seq<string>, keys: seq<string>, default: int)
    requires ap.mode == AuthNone && KeysAre(ap.cfg, ks) && |ks| > 4 && |keys| == 4 && AllSteady(keys)
    ensures var off := SyncAuth(ap).ap;
            var on := SyncAuth(off.(mode := AuthWep, wepDefault := default, wepKeys := keys)).ap;
            InMemory(on).wepKeys == keys + AliveRun(ks[4..])
  {
    hide Key, SyncWep, RemovedAll, Decimal.PrintInt, Decimal.Atoi, ReadFrom, Reread, AliveRun;
    var names := ["wep_default_key"] + FOUR + WPA;
    assert WPA[0] == "wpa" && WPA[1] == "wpa_passphrase";
    RemovesFour(ap.cfg, ks, names);
    RemovedIsGone(ap.cfg, names, "wpa");
    RemovedIsGone(ap.cfg, names, "wpa_passphrase");
    var off := SyncAuth(ap).ap.cfg;
    OnOverStale(off, ks, keys, default);
    NumberIsPlain(default);
    RebuiltKeeps(SyncWep(off, default, keys), "wep_default_key");
    AliveRunOfSteady(keys, ks[4..]);
  }

  /** Keys from the fifth on outlive that and come back with the next four: after five WEP keys,
      then no authentication, then four new keys, the old ones are read from the file behind them. */
  lemma StaleKeysComeBack(f: File, ap: Ap, ks: seq<string>, keys: seq<string>, default: int)
    requires IsTidy(f) && OneLiners(f.content) && f.values == ap.cfg
    requires ap.mode == AuthNone && KeysAre(ap.cfg, ks) && |ks| > 4 && |keys| == 4 && AllLasting(keys)
    ensures var off := SyncAuth(ap).ap.(mode := AuthWep, wepDefault := default, wepKeys := keys);
            Reopened(Written(Written(f, ap), off), SyncAuth(off).ap).wepKeys == keys + AliveRun(ks[4..])
  {
    hide SyncAuth, Restarted, Written, InMemory, Reread, OneLiners, IsTidy, AliveRun, AllSteady, KeysFrom;
    var off := SyncAuth(ap).ap.(mode := AuthWep, wepDefault := default, wepKeys := keys);
    WrittenFollows(f, ap);
    WrittenFollows(Written(f, ap), off);
    ReopenedRereads(Written(Written(f, ap), off), SyncAuth(off).ap);
    StaleInMemory(ap, ks, keys, default);
  }

  lemma OnOverStale(off: Store, ks: seq<string>, keys: seq<string>, default: int)
    requires WithoutFour(off, ks) && "wpa" !in off && "wpa_passphrase" !in off && |ks| > 4 && |keys| == 4
    ensures var on := SyncWep(off, default, keys);
            && Val(on, "wep_default_key") == Decimal.PrintInt(default)
            && ReadFrom(Rebuilt(on), 0) == AliveRun(keys + ks[4..])
  {
    hide Key, RemovedAll, Decimal.PrintInt, Reread, AliveRun, ReadFrom, Erased, Added, SameBesides, WithoutFour, Rebuilt;
    assert WPA[0] == "wpa" && WPA[1] == "wpa_passphrase";
    RemovedAllIs(off, WPA);
    var c := off["wep_default_key" := Decimal.PrintInt(default)];
    ErasedStep(c);
    DefaultLeavesRest(off, Decimal.PrintInt(default), ks);
    AddedOverStale(c, keys, ks);
    FixedKeysStay(Added(c, keys, 0), c);
    MixedReads(Added(c, keys, 0), keys + ks[4..], ks);
    ReadsAliveRun(Rebuilt(Added(c, keys, 0)), 0, keys + ks[4..]);
  }

  lemma DefaultLeavesRest(cfg: Store, v: string, ks: seq<string>)
    requires WithoutFour(cfg, ks)
    ensures WithoutFour(cfg["wep_default_key" := v], ks) && Val(cfg["wep_default_key" := v], Key(0)) == ""
  {
    hide Key, Reread;
    KeysAreDistinct();
  }

  lemma AddedOverStale(c: Store, keys: seq<string>, ks: seq<string>)
    requires WithoutFour(c, ks) && |ks| > 4 && |keys| == 4
    ensures var on, all := Added(c, keys, 0), keys + ks[4..];
            && SameBesides(on, c) && all[4..] == ks[4..]
            && (forall j: nat | j < 4 :: Key(j) in on && on[Key(j)] == all[j])
            && forall j: nat | j >= 4 ::
                 if j < |ks| && Reread(ks[j]).Some? then Key(j) in on && on[Key(j)] == Reread(ks[j]).value
                 else Key(j) !in on
  {
    hide Key, Reread, Added, SameBesides;
    AddedKeys(c, keys, 0);
  }

  lemma MixedReads(on: Store, all: seq<string>, ks: seq<string>)
    requires |all| == |ks| > 4 && all[4..] == ks[4..]
    requires forall j: nat | j < 4 :: Key(j) in on && on[Key(j)] == all[j]
    requires forall j: nat | j >= 4 ::
               if j < |ks| && Reread(ks[j]).Some? then Key(j) in on && on[Key(j)] == Reread(ks[j]).value
               else Key(j) !in on
    ensures forall j: nat ::
              if j < |all| && Reread(all[j]).Some?
              then Key(j) in Rebuilt(on) && Rebuilt(on)[Key(j)] == Reread(all[j]).value else Key(j) !in Rebuilt(on)
  {
    hide Key, Reread;
    forall j: nat | 4 <= j < |ks| ensures all[j] == ks[j] && (Reread(ks[j]).Some? ==> Reread(Reread(ks[j]).value) == Reread(ks[j])) {
      assert all[4..][j - 4] == ks[4..][j - 4];
      if Reread(ks[j]).Some? {
        RereadTwice(ks[j]);
      }
    }
  }

  // ---------- Requests ----------

  // The members of a request that are there with the right type; null counts as an empty object
  // or list
  datatype WepPart = WepPart(defaultKey: Option<int>, keys: Option<seq<string>>)

  datatype WpaPart = WpaPart(mode: Option<string>, keys: Option<seq<string>>)

  datatype AuthPart = AuthPart(mode: Option<string>, wep: Option<WepPart>, wpa: Option<WpaPart>)

  function JsonToWep(ap: Ap, val: WepPart): Synced {
    var ap1 := if val.defaultKey.Some? then ap.(wepDefault := val.defaultKey.value) else ap;
    var ap2 := if val.keys.Some? then ap1.(wepKeys := val.keys.value) else ap1;
    // compared as an unsigned number, a negative default is out of range too
    Synced(ap2, 0 <= ap2.wepDefault <= |ap2.wepKeys|)
  }

  function JsonToWpa(ap: Ap, val: WpaPart): Synced {
    var known := val.mode.None? || val.mode.value in {"wpa1", "wpa2", "wpa12"};
    if !known then Synced(ap, false) else
      var ap1 := if val.mode.None? then ap else
        ap.(wpaMode := if val.mode.value == "wpa1" then Wpa1 else if val.mode.value == "wpa2" then Wpa2 else Wpa12);
      Synced(if val.keys.Some? then ap1.(wpaKeys := val.keys.value) else ap1, true)
  }

  function JsonToAuth(ap: Ap, val: AuthPart): Synced {
    if val.mode.None? then Synced(ap, true)
    else if val.mode.value == "none" then Synced(ap.(mode := AuthNone), true)
    else if val.mode.value == "wep" && val.wep.Some? then
      var r := JsonToWep(ap, val.wep.value);
      if r.ok then Synced(r.ap.(mode := AuthWep), true) else r
    else if val.mode.value == "wpa" && val.wpa.Some? then
      var r := JsonToWpa(ap, val.wpa.value);
      if r.ok then Synced(r.ap.(mode := AuthWpa), true) else r
    else Synced(ap, false)
  }

  // The part is fit to be taken over: a default key that is no further than the end of the keys, a
  // known kind of WPA.
  predicate Fit(ap: Ap, val: AuthPart) {
    match val.mode
    case None => true
    case Some(mode) =>
      || mode == "none"
      || (mode == "wep" && val.wep.Some? &&
            var n := if val.wep.value.defaultKey.Some? then val.wep.value.defaultKey.value else ap.wepDefault;
            0 <= n <= if val.wep.value.keys.Some? then |val.wep.value.keys.value| else |ap.wepKeys|)
      || (mode == "wpa" && val.wpa.Some? && val.wpa.value.mode in {None, Some("wpa1"), Some("wpa2"), Some("wpa12")})
  }

  /** A part is accepted exactly when it is fit, and then it sets the mode that it names. */
  lemma AcceptedExactlyWhenFit(ap: Ap, val: AuthPart)
    ensures var r := JsonToAuth(ap, val);
            && (r.ok <==> Fit(ap, val))
            && (r.ok && val.mode.Some? ==>
                  r.ap.mode == if val.mode == Some("none") then AuthNone else if val.mode == Some("wep") then AuthWep else AuthWpa)
            && (val.mode.None? ==> r.ap == ap)
  {
  }

  // What a part would set is held already.
  predicate HeldWep(ap: Ap, val: WepPart) {
    val.defaultKey in {None, Some(ap.wepDefault)} && val.keys in {None, Some(ap.wepKeys)}
  }

  predicate HeldWpa(ap: Ap, val: WpaPart) {
    val.mode in {None, Some(ModeName(ap.wpaMode))} && val.keys in {None, Some(ap.wpaKeys)}
  }

  predicate Held(ap: Ap, val: AuthPart) {
    if val.mode == Some("none") then ap.mode.AuthNone?
    else if val.mode == Some("wep") && val.wep.Some? then
      HeldWep(ap, val.wep.value) && (0 <= ap.wepDefault <= |ap.wepKeys| ==> ap.mode.AuthWep?)
    else if val.mode == Some("wpa") && val.wpa.Some? then
      val.wpa.value.mode in {None, Some("wpa1"), Some("wpa2"), Some("wpa12")} ==>
        HeldWpa(ap, val.wpa.value) && ap.mode.AuthWpa?
    else true
  }

  function ModeName(m: WpaMode): string {
    match m
    case Wpa1 => "wpa1"
    case Wpa2 => "wpa2"
    case Wpa12 => "wpa12"
  }

  lemma HeldWepIsUnchanged(ap: Ap, val: WepPart)
    ensures JsonToWep(ap, val).ap == ap <==> HeldWep(ap, val)
    ensures JsonToWep(ap, val).ap.mode == ap.mode
  {
  }

  lemma HeldWpaIsUnchanged(ap: Ap, val: WpaPart)
    ensures JsonToWpa(ap, val).ok <==> val.mode in {None, Some("wpa1"), Some("wpa2"), Some("wpa12")}
    ensures JsonToWpa(ap, val).ok ==> (JsonToWpa(ap, val).ap == ap <==> HeldWpa(ap, val))
    ensures !JsonToWpa(ap, val).ok ==> JsonToWpa(ap, val).ap == ap
    ensures JsonToWpa(ap, val).ap.mode == ap.mode
  {
    assert "wpa1"[3] == '1' && "wpa2"[3] == '2' && |"wpa12"| == 5;
  }

  lemma HeldIsUnchanged(ap: Ap, val: AuthPart)
    ensures JsonToAuth(ap, val).ap == ap <==> Held(ap, val)
    ensures JsonToAuth(ap, val).ap.cfg == ap.cfg
  {
    hide HeldWep, HeldWpa, JsonToWpa;
    if val.wep.Some? {
      HeldWepIsUnchanged(ap, val.wep.value);
    }
    if val.wpa.Some? {
      HeldWpaIsUnchanged(ap, val.wpa.value);
      WpaPartKeepsStore(ap, val.wpa.value);
    }
  }

  lemma WpaPartKeepsStore(ap: Ap, val: WpaPart)
    ensures JsonToWpa(ap, val).ap.cfg == ap.cfg
  {
  }

  /** For a part that is itself refused this comes down to the WEP values: its default key and its
      keys are absent, or those held. */
  lemma RefusedPartLeavesMemoryExactly(ap: Ap, val: AuthPart)
    requires !JsonToAuth(ap, val).ok
    ensures JsonToAuth(ap, val).ap == ap <==>
              (val.mode == Some("wep") && val.wep.Some? ==> HeldWep(ap, val.wep.value))
  {
  }

  // ---------- What every step keeps ----------

  predicate OneMode(cfg: Store) {
    !("wep_default_key" in cfg && "wpa" in cfg)
  }

  // There are at most four keys, in the store and in memory, all of which last; those of the store
  // are contiguous, and WEP and WPA are not both on.
  ghost predicate Good(ap: Ap) {
    && (exists ks :: KeysAre(ap.cfg, ks) && AllSteady(ks) && |ks| <= 4)
    && OneMode(ap.cfg) && |ap.wepKeys| <= 4 && AllSteady(ap.wepKeys)
  }

  lemma {:induction false} ErasedIsPart(cfg: Store, i: nat)
    ensures forall k <- Erased(cfg, i) :: k in cfg
    decreases |cfg|
  {
    hide Key, Reread;
    if Val(cfg, Key(i)) != "" {
      RemovedIsSmaller(cfg, Key(i));
      ErasedIsPart(Removed(cfg, Key(i)), i + 1);
    }
  }

  /** Whatever the keys, writing the settings never stores a WEP default key beside a WPA mode. */
  lemma SyncKeepsOneMode(ap: Ap)
    requires OneMode(ap.cfg)
    ensures OneMode(SyncAuth(ap).ap.cfg)
  {
    hide Key, Erased, Added, Decimal.PrintInt, RemovedAll, Reread;
    RemovedAllIs(ap.cfg, ["wep_default_key"] + FOUR + WPA);
    RemovedIsGone(ap.cfg, ["wep_default_key"] + FOUR, "wep_default_key");
    assert WPA[0] == "wpa";
    RemovedIsGone(ap.cfg, WPA, "wpa");
    var cfg := RemovedAll(ap.cfg, WPA)["wep_default_key" := Decimal.PrintInt(ap.wepDefault)];
    ErasedIsPart(cfg, 0);
    AddedKeys(Erased(cfg, 0), ap.wepKeys, 0);
    FixedKeysStay(Added(Erased(cfg, 0), ap.wepKeys, 0), Erased(cfg, 0));
  }

  lemma SyncKeepsGood(ap: Ap)
    requires Good(ap)
    ensures Good(SyncAuth(ap).ap)
  {
    hide Key, KeysAre, SyncWep, Decimal.PrintInt, RemovedAll, Reread, Stays, OneMode, Steady;
    SyncKeepsOneMode(ap);
    var ks :| KeysAre(ap.cfg, ks) && AllSteady(ks) && |ks| <= 4;
    var r := SyncAuth(ap).ap;
    match ap.mode {
      case AuthNone =>
        RemovesFour(ap.cfg, ks, ["wep_default_key"] + FOUR + WPA);
        NoneLeft(r.cfg, ks);
      case AuthWep =>
        if ap.wepKeys != [] {
          SteadyKeysGo(ap.cfg, ks);
          StoresExactlyTheKeys(ap.cfg, ap.wepDefault, ap.wepKeys, ks);
        }
      case AuthWpa =>
        if ap.wpaKeys != [] {
          RemovesFour(ap.cfg, ks, ["wep_default_key"] + FOUR);
          var c := RemovedAll(ap.cfg, ["wep_default_key"] + FOUR);
          NoneLeft(c, ks);
          WpaLeavesKeys(c, r.cfg);
        }
    }
  }

  lemma NoneLeft(cfg: Store, ks: seq<string>)
    requires WithoutFour(cfg, ks) && |ks| <= 4
    ensures KeysAre(cfg, []) && AllSteady([])
  {
  }

  lemma WpaLeavesKeys(c: Store, r: Store)
    requires KeysAre(c, []) && r.Keys == c.Keys + {"wpa", "wpa_passphrase"}
    ensures KeysAre(r, [])
  {
    hide Key;
    KeysAreDistinct();
  }

  lemma RebuiltKeepsKeys(cfg: Store, ks: seq<string>)
    requires KeysAre(cfg, ks) && AllSteady(ks)
    ensures KeysAre(Rebuilt(cfg), ks)
  {
    hide Key, Reread;
    RebuiltKeys(cfg, ks);
    assert forall j | 0 <= j < |ks| :: Steady(ks[j]);
  }

  // The part of it that concerns the store
  ghost predicate GoodStore(cfg: Store) {
    (exists ks :: KeysAre(cfg, ks) && AllSteady(ks) && |ks| <= 4) && OneMode(cfg)
  }

  lemma RebuiltIsGoodStore(cfg: Store)
    requires GoodStore(cfg)
    ensures GoodStore(Rebuilt(cfg))
  {
    hide Key, KeysAre, Reread, Rebuilt, Steady;
    var ks :| KeysAre(cfg, ks) && AllSteady(ks) && |ks| <= 4;
    RebuiltKeepsKeys(cfg, ks);
    RebuiltKeeps(cfg, "wep_default_key");
    RebuiltKeeps(cfg, "wpa");
  }

  /** Starting from a file whose map is good finds just the keys that are there. */
  lemma RestartedIsGood(lines: seq<string>, ap: Ap)
    requires GoodStore(Values(lines))
    ensures Good(Restarted(lines, ap))
  {
    hide Key, KeysAre, Reread, ReadFrom, Values, Steady, Decimal.Atoi, MoreKeys;
    var ks :| KeysAre(Values(lines), ks) && AllSteady(ks) && |ks| <= 4;
    KeysReadBack(Values(lines), ks);
    assert AllSteady([]);
  }

  lemma KeysReadBack(cfg: Store, ks: seq<string>)
    requires KeysAre(cfg, ks) && AllSteady(ks)
    ensures ReadFrom(cfg, 0) == ks
  {
    hide Key, Reread;
    assert forall j | 0 <= j < |ks| :: Steady(ks[j]);
    ReadsKeys(cfg, 0, ks);
    FirstNonEmptyIsAll(ks);
  }
}
