/** The access point configuration as an object: its methods, with their numbered loops, over
    the file of keys and values, do what WlanAuth and WlanUpdates say. */
module WlanCfg {
  import opened Wrappers
  import opened Strings
  import opened SimpleCfg
  import opened WlanAuth
  import opened WlanUpdates
  import opened WlanRestart
  import HtCapabilities
  import Decimal

  class AccessPoint {
    const cfg: Cfg
    var authmode: Mode
    var wepDefaultKey: int
    var wepKeys: seq<string>
    var wpaMode: WpaMode
    var wpaKeys: seq<string>
    var files: map<string, seq<string>>
    var basics: Basics

    // From the lines of the file. The country is given, and so is what the memory holds before it
    // is set.
    constructor (lines: seq<string>, files: map<string, seq<string>>, country: string,
                 held: HwMode, default: int, wpaMode: WpaMode)
      ensures fresh(cfg) && cfg.Valid() && cfg.Now() == FileOf(lines) && (NoKeyTwice(lines) ==> Valid())
      ensures Ap() == Restarted(lines, WlanAuth.Ap(map[], AuthNone, default, [], wpaMode, [], files))
      ensures basics == ReadBasics(Values(lines), files, country, held)
    {
      hide ReadBasics, WlanAuth.GetAuth, Values, Places, NoKeyTwice;
      cfg := new Cfg(lines);
      this.files := files;
      basics := Basics("", "", 0, "", false, false, held, [], AclNone, [], []);
      authmode, wepDefaultKey, wepKeys, this.wpaMode, wpaKeys := AuthNone, default, [], wpaMode, [];
      new;
      ParseConfig(country);
    }

    ghost predicate Valid()
      reads this, cfg
    {
      cfg.Valid() && cfg.Tidy()
    }

    ghost function Ap(): Ap
      reads this, cfg
    {
      WlanAuth.Ap(cfg.values, authmode, wepDefaultKey, wepKeys, wpaMode, wpaKeys, files)
    }

    ghost function Now(): Station
      reads this, cfg
    {
      Station(Ap(), basics)
    }

    // ---------- Writing ----------

    method RemoveAll(ks: seq<string>)
      requires Valid()
      modifies cfg
      ensures Valid() && cfg.values == RemovedAll(old(cfg.values), ks)
      ensures cfg.Now() == DoAll(old(cfg.Now()), Drops(ks))
    {
      hide cfg.Tidy, Removed, Do;
      assert Drops(ks)[0..] == Drops(ks);
      for i := 0 to |ks|
        invariant Valid() && RemovedAll(cfg.values, ks[i..]) == RemovedAll(old(cfg.values), ks)
        invariant DoAll(cfg.Now(), Drops(ks)[i..]) == DoAll(old(cfg.Now()), Drops(ks))
      {
        assert ks[i..][0] == ks[i] && ks[i..][1..] == ks[i + 1..];
        assert Drops(ks)[i..][0] == Drop(ks[i]) && Drops(ks)[i..][1..] == Drops(ks)[i + 1..];
        cfg.Remove(ks[i]);
      }
    }

    // The loop that empties the numbered keys
    method EraseKeys()
      requires Valid()
      modifies cfg
      ensures Valid() && cfg.values == Erased(old(cfg.values), 0)
      ensures cfg.Now() == DoAll(old(cfg.Now()), EraseOps(old(cfg.values), 0))
    {
      hide Key, cfg.Tidy, Removed, Do;
      var i := 0;
      while true
        invariant Valid() && Erased(cfg.values, i) == Erased(old(cfg.values), 0)
        invariant DoAll(cfg.Now(), EraseOps(cfg.values, i)) == DoAll(old(cfg.Now()), EraseOps(old(cfg.values), 0))
        decreases |cfg.values|
      {
        var key := cfg.ValueOrDefault(Key(i), "");
        if key == "" {
          break;
        }
        RemovedIsSmaller(cfg.values, Key(i));
        assert EraseOps(cfg.values, i)[1..] == EraseOps(Removed(cfg.values, Key(i)), i + 1);
        cfg.Remove(Key(i));
        i := i + 1;
      }
    }

    // Write the new ones
    method AddKeys()
      requires Valid()
      modifies cfg
      ensures Valid() && cfg.values == Added(old(cfg.values), wepKeys, 0)
      ensures cfg.Now() == DoAll(old(cfg.Now()), AddOps(wepKeys))
    {
      hide Key, cfg.Tidy, Do;
      ghost var ops := AddOps(wepKeys);
      assert ops[0..] == ops;
      for i := 0 to |wepKeys|
        invariant Valid() && Added(cfg.values, wepKeys, i) == Added(old(cfg.values), wepKeys, 0)
        invariant DoAll(cfg.Now(), ops[i..]) == DoAll(old(cfg.Now()), ops)
      {
        KeysArePlain(i);
        assert ops[i..][0] == Put(Key(i), wepKeys[i]) && ops[i..][1..] == ops[i + 1..];
        cfg.Update(Key(i), wepKeys[i]);
      }
    }

    method SyncWep()
      requires Valid()
      modifies cfg
      ensures Valid() && cfg.values == WlanAuth.SyncWep(old(cfg.values), wepDefaultKey, wepKeys)
      ensures cfg.Now() == DoAll(old(cfg.Now()), WepOps(old(cfg.values), wepDefaultKey, wepKeys))
    {
      hide Erased, Added, RemovedAll, Decimal.PrintInt, cfg.Tidy, Drops, EraseOps, AddOps, Do, PlainKey;
      ghost var f := cfg.Now();
      RemoveAll(WPA);
      PlainNames();
      ghost var put := Put("wep_default_key", Decimal.PrintInt(wepDefaultKey));
      ghost var e, d := EraseOps(Applied(cfg.values, put), 0), AddOps(wepKeys);
      OneOp(cfg.Now(), put);
      cfg.Update("wep_default_key", Decimal.PrintInt(wepDefaultKey));
      EraseKeys();
      AddKeys();
      DoAllInTurn(f, Drops(WPA), [put]);
      DoAllInTurn(f, Drops(WPA) + [put], e);
      DoAllInTurn(f, Drops(WPA) + [put] + e, d);
    }

    // The keys after the first go to a file of their own; without any the file is emptied.
    method WriteKeyFile(tkeys: seq<string>)
      modifies this`files
      ensures var file := if "wpa_psk_file" in cfg.values then cfg.values["wpa_psk_file"] else "/etc/hostapd/hostapd.wpa_psk";
              files == if tkeys != [] || file in old(files) then old(files)[file := tkeys] else old(files)
    {
      var kfile := cfg.ValueOrDefault("wpa_psk_file", "/etc/hostapd/hostapd.wpa_psk");
      if |tkeys| > 0 {
        files := files[kfile := tkeys];
      } else if kfile in files {
        files := files[kfile := []];
      }
    }

    method SyncWpa()
      requires Valid() && authmode == AuthWpa && wpaKeys != []
      modifies cfg, this`files
      ensures Valid() && Synced(Ap(), true) == WlanAuth.SyncAuth(old(Ap()))
      ensures cfg.Now() == DoAll(old(cfg.Now()), AuthOps(old(Ap())))
    {
      hide RemovedAll, cfg.Tidy, WpaText, Line, PlainKey, Drops, Do;
      ghost var f, ops := cfg.Now(), AuthOps(Ap());
      RemoveAll(["wep_default_key"] + FOUR);
      PlainNames();
      ghost var a, b := Put("wpa", WpaText(wpaMode)), Put("wpa_passphrase", wpaKeys[0]);
      TwoOps(cfg.Now(), a, b);
      cfg.Update("wpa", WpaText(wpaMode));
      cfg.Update("wpa_passphrase", wpaKeys[0]);
      DoAllInTurn(f, Drops(["wep_default_key"] + FOUR), [a, b]);
      assert cfg.Now() == DoAll(f, ops);
      WriteKeyFile(wpaKeys[1..]);
    }

    method SyncAuth() returns (ok: bool)
      requires Valid()
      modifies cfg, this`files
      ensures Valid() && Synced(Ap(), ok) == WlanAuth.SyncAuth(old(Ap()))
      ensures cfg.Now() == Written(old(cfg.Now()), old(Ap()))
    {
      hide RemovedAll, WlanAuth.SyncWep, cfg.Tidy, Drops, WepOps;
      match authmode {
        case AuthNone =>
          RemoveAll(["wep_default_key"] + FOUR + WPA);
        case AuthWep =>
          if |wepKeys| < 1 {
            return false;
          }
          SyncWep();
        case AuthWpa =>
          if |wpaKeys| < 1 {
            return false;
          }
          SyncWpa();
      }
      ok := true;
    }

    method Write(ps: seq<Pair>)
      requires Valid() && forall i | 0 <= i < |ps| :: PlainKey(ps[i].key)
      modifies cfg
      ensures Valid() && cfg.values == WriteAll(old(cfg.values), ps)
      ensures cfg.Now() == DoAll(old(cfg.Now()), Puts(ps))
    {
      hide cfg.Tidy, PlainKey, Do;
      assert Puts(ps)[0..] == Puts(ps);
      for i := 0 to |ps|
        invariant Valid() && WriteAll(cfg.values, ps[i..]) == WriteAll(old(cfg.values), ps)
        invariant DoAll(cfg.Now(), Puts(ps)[i..]) == DoAll(old(cfg.Now()), Puts(ps))
      {
        assert ps[i..][0] == ps[i] && ps[i..][1..] == ps[i + 1..];
        assert Puts(ps)[i..][0] == Put(ps[i].key, ps[i].value) && Puts(ps)[i..][1..] == Puts(ps)[i + 1..];
        cfg.Update(ps[i].key, ps[i].value);
      }
    }

    method WriteAclFiles()
      modifies this`files
      ensures files == WithList(WithList(old(files), ValueOr(cfg.values, "accept_mac_file", "/etc/hostapd/accept"), basics.accept),
                                ValueOr(cfg.values, "deny_mac_file", "/etc/hostapd/deny"), basics.deny)
    {
      var accept := cfg.ValueOrDefault("accept_mac_file", "/etc/hostapd/accept");
      if accept != "" {
        files := files[accept := basics.accept];
      }
      var deny := cfg.ValueOrDefault("deny_mac_file", "/etc/hostapd/deny");
      if deny != "" {
        files := files[deny := basics.deny];
      }
    }

    method SyncACL()
      requires Valid()
      modifies cfg, this`files
      ensures Valid() && cfg.values == SyncAclMode(old(cfg.values), basics.acl)
      ensures cfg.Now() == DoAll(old(cfg.Now()), AclOps(basics.acl))
      ensures files == WithList(WithList(old(files), ValueOr(cfg.values, "accept_mac_file", "/etc/hostapd/accept"), basics.accept),
                                ValueOr(cfg.values, "deny_mac_file", "/etc/hostapd/deny"), basics.deny)
    {
      hide cfg.Tidy, Removed, PlainKey, Line, WithList, ValueOr, Do;
      PlainNames();
      OneOp(cfg.Now(), AclOps(basics.acl)[0]);
      match basics.acl {
        case AclNone => cfg.Remove("macaddr_acl");
        case AclAccept => cfg.Update("macaddr_acl", "0");
        case AclDeny => cfg.Update("macaddr_acl", "1");
      }
      WriteAclFiles();
    }

    method SyncWithCfg() returns (ok: bool)
      requires Valid()
      modifies cfg, this`files
      ensures Valid() && Outcome(Now(), ok) == SyncAll(old(Now()))
      ensures cfg.Now() == DoAll(old(cfg.Now()), SyncOps(old(Now())))
    {
      hide WriteAll, SyncAclMode, EarlyPairs, LatePairs, WlanAuth.SyncAuth, cfg.Tidy, WithList, ValueOr, PlainKey, Puts, AclOps, AuthOps, Do;
      ghost var f, s := cfg.Now(), Now();
      PlainPairs(basics);
      Write(EarlyPairs(basics));
      ghost var early, late, acl := Puts(EarlyPairs(basics)), Puts(LatePairs(basics)), AclOps(basics.acl);
      if basics.hwMode.ModeUnknown? {
        assert SyncOps(s) == early;
        return false;
      }
      Write(LatePairs(basics));
      SyncACL();
      ghost var ap := Ap();
      ok := SyncAuth();
      assert SyncOps(s) == early + (late + acl) + AuthOps(ap);
      DoAllInTurn(f, early, late + acl);
      DoAllInTurn(DoAll(f, early), late, acl);
      DoAllInTurn(f, early + (late + acl), AuthOps(ap));
    }

    // ---------- Reading ----------

    // do { read the next key } while there was one
    method ReadKeys()
      modifies this`wepKeys
      ensures wepKeys == ReadFrom(cfg.values, 0)
    {
      hide Key;
      var i := 0;
      wepKeys := [];
      while true
        invariant forall j: nat | j < i :: Key(j) in cfg.values
        invariant wepKeys + ReadFrom(cfg.values, i) == ReadFrom(cfg.values, 0)
        decreases |cfg.values| - i
      {
        KeysFit(cfg.values, i);
        var key := cfg.ValueOrDefault(Key(i), "");
        if key == "" {
          assert wepKeys + [] == wepKeys;
          break;
        }
        KeysFit(cfg.values, i + 1);
        assert wepKeys + ([key] + ReadFrom(cfg.values, i + 1)) == wepKeys + [key] + ReadFrom(cfg.values, i + 1);
        wepKeys := wepKeys + [key];
        i := i + 1;
      }
    }

    method ReadWpa(wpa: string)
      requires Val(cfg.values, "wep_default_key") == "" && Val(cfg.values, "wpa") == wpa != ""
      modifies this`authmode, this`wpaMode, this`wpaKeys
      ensures Ap() == WlanAuth.GetAuth(old(Ap()))
    {
      hide Decimal.Atoi, ReadFrom;
      authmode := AuthWpa;
      var mode := Decimal.Atoi(wpa);
      match mode {
        case 1 => wpaMode := Wpa1;
        case 2 => wpaMode := Wpa2;
        case 3 => wpaMode := Wpa12;
        case _ =>
      }
      var kfile := cfg.ValueOrDefault("wpa_psk_file", "");
      wpaKeys := [];
      if kfile != "" && kfile in files {
        wpaKeys := Lines(SimpleCfg.Text(files[kfile])) + [""];
      }
      assert wpaKeys == MoreKeys(cfg.values, files);
      var wpakey := cfg.ValueOrDefault("wpa_passphrase", "");
      if wpakey != "" {
        wpaKeys := [wpakey] + wpaKeys;
      } else {
        assert [] + wpaKeys == wpaKeys;
      }
    }

    method GetACLMode()
      requires basics.accept == [] && basics.deny == []
      modifies this`basics
      ensures var acl := ReadAclMode(cfg.values);
              basics == old(basics).(
                acl := acl,
                accept := if acl.AclNone? then [] else ReadList(files, ValueOr(cfg.values, "accept_mac_file", "/etc/hostapd/accept")),
                deny := if acl.AclNone? then [] else ReadList(files, ValueOr(cfg.values, "deny_mac_file", "/etc/hostapd/deny")))
    {
      hide ReadList, ValueOr;
      var acl := cfg.ValueOrDefault("macaddr_acl", "");
      if acl == "" {
        basics := basics.(acl := AclNone);
        return;
      }
      if acl == "0" {
        basics := basics.(acl := AclAccept);
      } else if acl == "1" {
        basics := basics.(acl := AclDeny);
      } else {
        basics := basics.(acl := AclNone);
        return;
      }
      ReadLists();
    }

    method ReadLists()
      requires basics.accept == [] && basics.deny == []
      modifies this`basics
      ensures basics == old(basics).(
                accept := ReadList(files, ValueOr(cfg.values, "accept_mac_file", "/etc/hostapd/accept")),
                deny := ReadList(files, ValueOr(cfg.values, "deny_mac_file", "/etc/hostapd/deny")))
    {
      hide Lines, SimpleCfg.Text;
      var accept := cfg.ValueOrDefault("accept_mac_file", "/etc/hostapd/accept");
      if accept != "" && accept in files {
        basics := basics.(accept := Lines(SimpleCfg.Text(files[accept])));
      }
      var deny := cfg.ValueOrDefault("deny_mac_file", "/etc/hostapd/deny");
      if deny != "" && deny in files {
        basics := basics.(deny := Lines(SimpleCfg.Text(files[deny])));
      }
    }

    method GetHWMode()
      modifies this`basics
      ensures basics == old(basics).(hwMode := ReadHwMode(cfg.values, old(basics.hwMode)))
    {
      var hw := cfg.ValueOrDefault("hw_mode", "");
      if hw == "a" {
        basics := basics.(hwMode := ModeA);
      } else if hw == "b" {
        basics := basics.(hwMode := ModeB);
      } else if hw == "g" {
        basics := basics.(hwMode := ModeG);
      }
    }

    method GetHTCapab()
      requires basics.capabilities == []
      modifies this`basics
      ensures basics == old(basics).(capabilities :=
                HtCapabilities.Found(HtCapabilities.KNOWN, HtCapabilities.StoredText(cfg.values)))
    {
      hide HtCapabilities.Found;
      var hw := cfg.ValueOrDefault("ht_capab", "");
      var found := HtCapabilities.Search(basics.capabilities, HtCapabilities.KNOWN, hw);
      assert [] + found == found;
      basics := basics.(capabilities := found);
    }

    method ParseConfig(country: string)
      requires basics.accept == [] && basics.deny == [] && basics.capabilities == []
      modifies this`basics, this`authmode, this`wepDefaultKey, this`wepKeys, this`wpaMode, this`wpaKeys
      ensures Ap() == WlanAuth.GetAuth(old(Ap()))
      ensures basics == ReadBasics(cfg.values, files, country, old(basics.hwMode))
    {
      hide HtCapabilities.Found, HtCapabilities.StoredText, Decimal.Atoi, ReadList, ReadAclMode, ReadHwMode, WlanAuth.GetAuth;
      var ssid := cfg.ValueOrDefault("ssid", "");
      basics := basics.(ssid := ssid, country := country);
      GetACLMode();
      GetHWMode();
      GetHTCapab();
      var n := cfg.ValueOrDefault("ieee80211n", "0");
      basics := basics.(n := n == "1");
      var hidden := cfg.ValueOrDefault("ignore_broadcast_ssid", "0");
      basics := basics.(broadcast := hidden == "0");
      var channel := cfg.ValueOrDefault("channel", "6");
      basics := basics.(channel := Decimal.Atoi(channel));
      var interface := cfg.ValueOrDefault("interface", "");
      basics := basics.(interface := interface);
      GetAuth();
    }

    method GetAuth()
      modifies this`authmode, this`wepDefaultKey, this`wepKeys, this`wpaMode, this`wpaKeys
      ensures Ap() == WlanAuth.GetAuth(old(Ap()))
    {
      hide Decimal.Atoi, ReadFrom;
      var wep := cfg.ValueOrDefault("wep_default_key", "");
      var wpa := cfg.ValueOrDefault("wpa", "");
      if wep == "" && wpa == "" {
        authmode := AuthNone;
        return;
      }
      if wep != "" {
        authmode := AuthWep;
        wepDefaultKey := Decimal.Atoi(wep);
        ReadKeys();
      } else {
        ReadWpa(wpa);
      }
    }

    // ---------- Requests ----------

    method JsonToWep(val: WepPart) returns (ok: bool)
      modifies this`wepDefaultKey, this`wepKeys
      ensures Synced(Ap(), ok) == WlanAuth.JsonToWep(old(Ap()), val)
    {
      if val.defaultKey.Some? {
        wepDefaultKey := val.defaultKey.value;
      }
      if val.keys.Some? {
        wepKeys := val.keys.value;
      }
      ok := 0 <= wepDefaultKey <= |wepKeys|;
    }

    method JsonToWpa(val: WpaPart) returns (ok: bool)
      modifies this`wpaMode, this`wpaKeys
      ensures Synced(Ap(), ok) == WlanAuth.JsonToWpa(old(Ap()), val)
    {
      if val.mode.Some? {
        var mode := val.mode.value;
        if mode == "wpa1" {
          wpaMode := Wpa1;
        } else if mode == "wpa2" {
          wpaMode := Wpa2;
        } else if mode == "wpa12" {
          wpaMode := Wpa12;
        } else {
          return false;
        }
      }
      if val.keys.Some? {
        wpaKeys := val.keys.value;
      }
      ok := true;
    }

    method JsonToAuth(val: AuthPart) returns (ok: bool)
      modifies this`authmode, this`wepDefaultKey, this`wepKeys, this`wpaMode, this`wpaKeys
      ensures Synced(Ap(), ok) == WlanAuth.JsonToAuth(old(Ap()), val)
    {
      if val.mode.None? {
        return true;
      }
      var mode := val.mode.value;
      if mode == "none" {
        authmode := AuthNone;
      } else if mode == "wep" && val.wep.Some? {
        ok := JsonToWep(val.wep.value);
        if !ok {
          return;
        }
        authmode := AuthWep;
      } else if mode == "wpa" && val.wpa.Some? {
        ok := JsonToWpa(val.wpa.value);
        if !ok {
          return;
        }
        authmode := AuthWpa;
      } else {
        return false;
      }
      ok := true;
    }

    method JsonToACL(val: AclPart) returns (ok: bool)
      modifies this`basics
      ensures Taken(basics, ok) == TakeAcl(old(basics), val)
    {
      if val.mode.Some? {
        var mode := val.mode.value;
        if mode == "none" {
          basics := basics.(acl := AclNone);
        } else if mode == "accept" {
          basics := basics.(acl := AclAccept);
        } else if mode == "deny" {
          basics := basics.(acl := AclDeny);
        } else {
          return false;
        }
      }
      if val.deny.Some? {
        basics := basics.(deny := val.deny.value);
      }
      if val.accept.Some? {
        basics := basics.(accept := val.accept.value);
      }
      ok := true;
    }

    method JsonToSettings(u: Update)
      modifies this`basics
      ensures basics == TakeSettings(old(basics), u)
    {
      basics := basics.(interface := Or(u.interface, basics.interface));
      basics := basics.(ssid := Or(u.ssid, basics.ssid));
      basics := basics.(channel := Or(u.channel, basics.channel));
      basics := basics.(country := Or(u.country, basics.country));
      basics := basics.(n := Or(u.n, basics.n));
      basics := basics.(broadcast := Or(u.broadcast, basics.broadcast));
    }

    method JsonToBasics(u: Update) returns (ok: bool)
      modifies this`basics
      ensures Taken(basics, ok) == TakeBasics(old(basics), u)
    {
      hide TakeSettings, TakeAcl;
      TakeSettingsKeepsRest(basics, u);
      JsonToSettings(u);
      if u.mode.Some? {
        var hw := HwModeOf(u.mode.value);
        if hw == ModeUnknown {
          return false;
        }
        basics := basics.(hwMode := hw);
      }
      if u.capabilities.Some? {
        basics := basics.(capabilities := u.capabilities.value);
      }
      ok := true;
      if u.acl.Some? {
        ok := JsonToACL(u.acl.value);
      }
    }

    // The text is what is written to the file, if the update succeeds.
    method UpdateCFG(u: Update) returns (ok: bool, text: string)
      requires Valid()
      modifies this, cfg
      ensures Valid() && Outcome(Now(), ok) == UpdateCfg(old(Now()), u)
      ensures forall disk :: Machine(Now(), cfg.Now(), if ok then Lines(text) else disk)
                          == Changed(Machine(old(Now()), old(cfg.Now()), disk), u)
      ensures old(Good(Ap())) && Small(u) ==> Good(Ap())
    {
      hide TakeBasics, SyncAll, SyncOps, WlanAuth.JsonToAuth, Good, cfg.Tidy, Small, Lines, SimpleCfg.Text, DoAll;
      if old(Good(Ap())) && Small(u) {
        UpdateKeepsGood(Now(), u);
      }
      text := "";
      ok := JsonToBasics(u);
      if ok && u.auth.Some? {
        ok := JsonToAuth(u.auth.value);
      }
      if ok {
        ok := SyncWithCfg();
        if ok {
          text := cfg.WriteBack();
        }
      }
    }
  }

  lemma OneOp(f: File, op: Op)
    ensures DoAll(f, [op]) == Do(f, op)
  {
    hide Do;
    assert [op][1..] == [];
  }

  lemma TwoOps(f: File, a: Op, b: Op)
    ensures DoAll(f, [a, b]) == Do(Do(f, a), b)
  {
    hide Do;
    assert [a, b][1..] == [b];
    OneOp(Do(f, a), b);
  }

  lemma PlainPairs(b: Basics)
    ensures forall i | 0 <= i < |EarlyPairs(b)| :: PlainKey(EarlyPairs(b)[i].key)
    ensures forall i | 0 <= i < |LatePairs(b)| :: PlainKey(LatePairs(b)[i].key)
  {
    hide PlainKey, HtCapabilities.Blocks, HwText, Decimal.PrintInt;
    PlainEarlyNames();
    PlainLateNames();
    PlainBroadcast();
  }

  /** Writing WEP settings to the file and starting again from it, as the methods run, for every
      list of keys: the mode and the default key come back if no key holds a newline; the keys come
      back exactly when none is empty, holds `=` or a newline or begins or ends with a space, and no
      old key that stayed is read behind them. */
  method WriteThenRestart(ap: AccessPoint, ghost was: seq<string>) returns (back: AccessPoint)
    requires ap.Valid() && OneLiners(ap.cfg.content) && KeysAre(ap.cfg.values, was)
    requires ap.authmode == AuthWep && ap.wepKeys != []
    modifies ap, ap.cfg
    ensures OneLiners(ap.wepKeys) ==> back.authmode == AuthWep && back.wepDefaultKey == old(ap.wepDefaultKey)
    ensures ap.wepKeys == old(ap.wepKeys)
    ensures var keys, n := ap.wepKeys, |ap.wepKeys|;
            back.wepKeys == keys <==>
              AllLasting(keys) && !(n < |was| && Stays(old(ap.cfg.values), was, n) && Alive(was[n]))
  {
    hide WlanAuth.SyncAuth, Restarted, Written, Stays, Alive, AllLasting, OneLiners, Lines, SimpleCfg.Text, KeysFrom;
    ghost var ap0, f := ap.Ap(), ap.cfg.Now();
    WepRoundTrip(f, ap0, was);
    var ok := ap.SyncAuth();
    SyncKeepsMemory(ap0);
    var text := ap.cfg.WriteBack();
    back := new AccessPoint(Lines(text), ap.files, ap.basics.country, ap.basics.hwMode, ap.wepDefaultKey, ap.wpaMode);
    RestartForgets(Lines(text), ap.Ap());
  }

  /** An update and then a start from the text it wrote, as the methods run: the settings come back
      as WlanRestart says, and so does the kind of authentication. */
  method UpdateThenStart(ap: AccessPoint, u: Update, country: string, held: HwMode)
    returns (ok: bool, text: string, back: AccessPoint)
    requires ap.Valid() && OneLiners(ap.cfg.content) && OneLineMemory(ap.Now()) && OneLineUpdate(u)
    modifies ap, ap.cfg
    ensures ok == UpdateCfg(old(ap.Now()), u).ok && ap.Now() == UpdateCfg(old(ap.Now()), u).s
    ensures ok ==>
              && Returned(back.basics, ap.basics, old(ap.cfg.values)) && back.authmode == ap.authmode
              && (ap.authmode.AuthWep? ==> back.wepDefaultKey == ap.wepDefaultKey)
              && (ap.authmode.AuthWpa? ==> back.wpaMode == ap.wpaMode)
              && FileSays(Values(Lines(text)), u)
              && (u.auth.Some? ==> FileSaysAuth(Values(Lines(text)), u.auth.value))
  {
    hide Returned, FileSays, FileSaysAuth, UpdateCfg, Changed, ReadBasics, Lines, SimpleCfg.Text, OneLineMemory, OneLineUpdate;
    hide Values, Restarted, OneLiners;
    ghost var m := Machine(ap.Now(), ap.cfg.Now(), []);
    StartsAsMachine(m);
    ok, text := ap.UpdateCFG(u);
    back := ap;
    if ok {
      UpdateThenRestart(m, u, country, held);
      AuthReachesFileAndReturns(m, u, country, held);
      RequestReachesFile(m, u);
      RestartKeepsStore(Lines(text), ap.Ap());
      back := new AccessPoint(Lines(text), ap.files, country, held, ap.wepDefaultKey, ap.wpaMode);
      RestartForgets(Lines(text), ap.Ap());
    }
  }

  lemma StartsAsMachine(m: Machine)
    requires IsTidy(m.file) && m.s.ap.cfg == m.file.values && OneLineMemory(m.s) && OneLiners(m.file.content) && m.disk == []
    ensures OneLineMachine(m)
  {
  }

  // Only the default key, the WPA mode and the files matter to a restart.
  lemma RestartForgets(lines: seq<string>, ap: Ap)
    ensures Restarted(lines, ap) == Restarted(lines, Ap(map[], AuthNone, ap.wepDefault, [], ap.wpaMode, [], ap.files))
  {
    hide ReadFrom, Decimal.Atoi, Values, MoreKeys;
  }
}
