/** What an update leaves in the file, and what a restart makes of it. */
module WlanRestart {
  import opened Wrappers
  import opened Strings
  import opened SimpleCfg
  import opened WlanAuth
  import opened WlanUpdates
  import HtCapabilities
  import Decimal

  // ---------- The last word on a key ----------

  // What is read of a key when the lines are read again
  function ReadAgain(cfg: Store, k: string): Option<string> {
    if k in cfg then Reread(cfg[k]) else None
  }

  lemma ReadAgainIsRebuilt(cfg: Store, k: string)
    ensures ReadAgain(Rebuilt(cfg), k) == ReadAgain(cfg, k)
    ensures if ReadAgain(cfg, k).Some? then k in Rebuilt(cfg) && Rebuilt(cfg)[k] == ReadAgain(cfg, k).value
            else k !in Rebuilt(cfg)
  {
    hide Reread;
    if k in cfg && Reread(cfg[k]).Some? {
      RereadTwice(cfg[k]);
    }
  }

  lemma OtherOpKeeps(cfg: Store, op: Op, k: string)
    requires op.key != k
    ensures ReadAgain(Applied(cfg, op), k) == ReadAgain(cfg, k)
  {
    hide Reread, Rebuilt;
    if op.Drop? && op.key in cfg {
      ReadAgainIsRebuilt(cfg - {op.key}, k);
    }
  }

  lemma {:induction false} OtherOpsKeep(cfg: Store, ops: seq<Op>, k: string)
    requires forall i | 0 <= i < |ops| :: ops[i].key != k
    ensures ReadAgain(AppliedAll(cfg, ops), k) == ReadAgain(cfg, k)
    decreases |ops|
  {
    hide ReadAgain, Applied;
    if ops != [] {
      OtherOpKeeps(cfg, ops[0], k);
      OtherOpsKeep(Applied(cfg, ops[0]), ops[1..], k);
    }
  }

  /** What is read again of a key is what the last operation on it has written. */
  lemma LastWordStands(cfg: Store, ops: seq<Op>, i: nat)
    requires i < |ops| && forall j | i < j < |ops| :: ops[j].key != ops[i].key
    ensures ReadAgain(AppliedAll(cfg, ops), ops[i].key) == if ops[i].Put? then Reread(ops[i].value) else None
  {
    hide Reread;
    var k, c := ops[i].key, AppliedAll(cfg, ops[..i]);
    assert ops == ops[..i] + ops[i..] && ops[i..][0] == ops[i] && ops[i..][1..] == ops[i + 1..];
    AppliedInTurn(cfg, ops[..i], ops[i..]);
    OtherOpsKeep(Applied(c, ops[i]), ops[i + 1..], k);
    if ops[i].Drop? {
      ReadAgainIsRebuilt(c - {k}, k);
    }
  }

  // ---------- Each setting is written once ----------

  predicate NoKeyAgain(ops: seq<Op>) {
    forall i, j | 0 <= i < j < |ops| :: ops[i].key != ops[j].key
  }

  predicate NotNumbered(ops: seq<Op>) {
    forall i | 0 <= i < |ops| :: ops[i].key != "" && ops[i].key[0] != 'w'
  }

  // The settings of a station whose radio mode is known, in the order in which they are written
  function Late(b: Basics): seq<Op> {
    [Put("country_code", b.country), Put("hw_mode", HwText(b.hwMode)), Put("ht_capab", HtCapabilities.Blocks(b.capabilities)),
     Put("ieee80211n", if b.n then "1" else "0"), Put("ignore_broadcast_ssid", if b.broadcast then "0" else "1"),
     Put("channel", Decimal.PrintInt(b.channel))] + AclOps(b.acl)
  }

  function Names(b: Basics): seq<Op> {
    (if b.ssid != "" then [Put("ssid", b.ssid)] else []) +
    (if b.interface != "" then [Put("interface", b.interface)] else [])
  }

  lemma BasicOpsAre(b: Basics)
    requires !b.hwMode.ModeUnknown?
    ensures BasicOps(b) == Names(b) + Late(b)
  {
    hide HwText, HtCapabilities.Blocks, Decimal.PrintInt;
  }

  lemma LateLengths(b: Basics)
    ensures var ops := Late(b);
            && |ops| == 7
            && |ops[0].key| == 12 && |ops[1].key| == 7 && |ops[2].key| == 8 && |ops[3].key| == 10
            && |ops[4].key| == 21 && |ops[5].key| == 7 && |ops[6].key| == 11 && ops[1].key[0] == 'h'
            && ops[5].key[0] == 'c' && NotNumbered(ops)
  {
    hide HwText, HtCapabilities.Blocks, Decimal.PrintInt;
    assert AclOps(b.acl)[0].key == "macaddr_acl";
  }

  lemma NamesAreFew(b: Basics)
    ensures var ops := Names(b);
            && |ops| <= 2 && NotNumbered(ops) && NoKeyAgain(ops)
            && forall i | 0 <= i < |ops| :: |ops[i].key| == 4 || |ops[i].key| == 9
  {
    assert |"ssid"| == 4 && |"interface"| == 9;
  }

  lemma EachOnce(b: Basics)
    ensures NoKeyAgain(Names(b) + Late(b)) && NotNumbered(Names(b) + Late(b))
  {
    hide Names, Late;
    LateLengths(b);
    NamesAreFew(b);
  }

  lemma AuthKeysAreW(ap: Ap)
    ensures forall i | 0 <= i < |AuthOps(ap)| :: AuthOps(ap)[i].key != "" && AuthOps(ap)[i].key[0] == 'w'
  {
    assert forall j: nat :: Key(j) != "" && Key(j)[0] == 'w';
    AuthKeysAreKnown(ap);
    hide Key, AuthOps;
    assert "wep_default_key"[0] == 'w' && "wpa"[0] == 'w' && "wpa_passphrase"[0] == 'w';
  }

  // The settings come first, and none of their keys is written again.
  lemma SettingStands(s: Station, i: nat)
    requires !s.basics.hwMode.ModeUnknown? && i < |Names(s.basics) + Late(s.basics)|
    ensures var op := (Names(s.basics) + Late(s.basics))[i];
            ReadAgain(SyncAll(s).s.ap.cfg, op.key) == if op.Put? then Reread(op.value) else None
  {
    hide SyncAll, Names, Late, AuthOps, Reread, BasicOps, SyncBasics;
    var basic, auth := Names(s.basics) + Late(s.basics), AuthOps(SyncBasics(s).s.ap);
    BasicOpsAre(s.basics);
    EachOnce(s.basics);
    AuthKeysAreW(SyncBasics(s).s.ap);
    SyncOpsApply(s);
    var ops := SyncOps(s);
    assert ops == basic + auth;
    assert ops[i] == basic[i];
    forall j | i < j < |ops| ensures ops[j].key != ops[i].key {
      if j >= |basic| {
        assert ops[j] == auth[j - |basic|];
      }
    }
    LastWordStands(s.ap.cfg, ops, i);
  }

  lemma UnwrittenStays(s: Station, k: string)
    requires !s.basics.hwMode.ModeUnknown? && k != "" && k[0] != 'w'
    requires forall i | 0 <= i < |Names(s.basics) + Late(s.basics)| :: (Names(s.basics) + Late(s.basics))[i].key != k
    ensures ReadAgain(SyncAll(s).s.ap.cfg, k) == ReadAgain(s.ap.cfg, k)
  {
    hide SyncAll, Names, Late, AuthOps, Reread, BasicOps, SyncBasics, ReadAgain;
    var basic, auth := Names(s.basics) + Late(s.basics), AuthOps(SyncBasics(s).s.ap);
    BasicOpsAre(s.basics);
    AuthKeysAreW(SyncBasics(s).s.ap);
    SyncOpsApply(s);
    var ops := SyncOps(s);
    forall j | 0 <= j < |ops| ensures ops[j].key != k {
      if j >= |basic| {
        assert ops[j] == auth[j - |basic|];
      } else {
        assert ops[j] == basic[j];
      }
    }
    OtherOpsKeep(s.ap.cfg, ops, k);
  }

  // ---------- What is in the file ----------

  // Each setting has gone to its key. An empty ssid or interface is not written, and the key
  // keeps what it had.
  predicate Settings(file: Store, was: Store, b: Basics) {
    && ReadAgain(file, "ssid") == (if b.ssid != "" then Reread(b.ssid) else ReadAgain(was, "ssid"))
    && ReadAgain(file, "interface") == (if b.interface != "" then Reread(b.interface) else ReadAgain(was, "interface"))
    && ReadAgain(file, "country_code") == Reread(b.country)
    && ReadAgain(file, "hw_mode") == Reread(HwText(b.hwMode))
    && ReadAgain(file, "ht_capab") == Reread(HtCapabilities.Blocks(b.capabilities))
    && ReadAgain(file, "ieee80211n") == Some(if b.n then "1" else "0")
    && ReadAgain(file, "ignore_broadcast_ssid") == Some(if b.broadcast then "0" else "1")
    && ReadAgain(file, "channel") == Some(Decimal.PrintInt(b.channel))
    && ReadAgain(file, "macaddr_acl") == match b.acl
                                         case AclNone => None
                                         case AclAccept => Some("0")
                                         case AclDeny => Some("1")
  }

  lemma SmallTexts()
    ensures Reread("0") == Some("0") && Reread("1") == Some("1")
    ensures Reread("a") == Some("a") && Reread("b") == Some("b") && Reread("g") == Some("g")
  {
    TrimIsTrimmed("0");
    TrimIsTrimmed("1");
    TrimIsTrimmed("a");
    TrimIsTrimmed("b");
    TrimIsTrimmed("g");
  }

  lemma LateStands(s: Station, k: nat)
    requires !s.basics.hwMode.ModeUnknown? && k < 7
    ensures |Late(s.basics)| == 7
    ensures var op := Late(s.basics)[k];
            ReadAgain(SyncAll(s).s.ap.cfg, op.key) == if op.Put? then Reread(op.value) else None
  {
    hide SyncAll, Reread, ReadAgain, Names, Late;
    LateLengths(s.basics);
    SettingStands(s, |Names(s.basics)| + k);
  }

  lemma NamesStand(s: Station)
    requires !s.basics.hwMode.ModeUnknown?
    ensures var b, file := s.basics, SyncAll(s).s.ap.cfg;
            && ReadAgain(file, "ssid") == (if b.ssid != "" then Reread(b.ssid) else ReadAgain(s.ap.cfg, "ssid"))
            && ReadAgain(file, "interface") == (if b.interface != "" then Reread(b.interface) else ReadAgain(s.ap.cfg, "interface"))
  {
    hide SyncAll, Reread, ReadAgain, Late;
    var b := s.basics;
    var ops := Names(b) + Late(b);
    LateLengths(b);
    assert |"ssid"| == 4 && |"interface"| == 9 && "ssid"[0] == 's' && "interface"[0] == 'i';
    if b.ssid != "" {
      assert ops[0] == Put("ssid", b.ssid);
      SettingStands(s, 0);
    } else {
      UnwrittenStays(s, "ssid");
    }
    if b.interface != "" {
      var i := if b.ssid != "" then 1 else 0;
      assert ops[i] == Put("interface", b.interface);
      SettingStands(s, i);
    } else {
      UnwrittenStays(s, "interface");
    }
  }

  /** Writing all settings puts each under its key, whatever they are and whatever was there. */
  lemma SettingsAreWritten(s: Station)
    requires !s.basics.hwMode.ModeUnknown?
    ensures Settings(SyncAll(s).s.ap.cfg, s.ap.cfg, s.basics)
  {
    hide SyncAll, Reread, ReadAgain, Names, HtCapabilities.Blocks, Decimal.PrintInt, HwText;
    var b := s.basics;
    NamesStand(s);
    LateStands(s, 0);
    LateStands(s, 1);
    LateStands(s, 2);
    LateStands(s, 3);
    LateStands(s, 4);
    LateStands(s, 5);
    LateStands(s, 6);
    SmallTexts();
    NumberIsPlain(b.channel);
    assert Late(b)[6] == AclOps(b.acl)[0];
  }

  // ---------- What a restart makes of it ----------

  // The text that is read of a key, if that is what is in the file
  function Seen(r: Option<string>): string {
    Or(r, "")
  }

  lemma SeenIsRead(file: Store, k: string)
    ensures Val(Rebuilt(file), k) == Seen(ReadAgain(file, k))
    ensures forall d :: ValueOr(Rebuilt(file), k, d) == Or(ReadAgain(file, k), d)
  {
    hide Rebuilt, ReadAgain;
    ReadAgainIsRebuilt(file, k);
  }

  lemma BasicsAreRead(file: Store, was: Store, b: Basics, files: map<string, seq<string>>, country: string, held: HwMode)
    requires Settings(file, was, b) && !b.hwMode.ModeUnknown?
    ensures var back := ReadBasics(Rebuilt(file), files, country, held);
            && back.ssid == Seen(if b.ssid != "" then Reread(b.ssid) else ReadAgain(was, "ssid"))
            && back.interface == Seen(if b.interface != "" then Reread(b.interface) else ReadAgain(was, "interface"))
            && back.channel == b.channel && back.hwMode == b.hwMode && back.n == b.n
            && back.broadcast == b.broadcast && back.acl == b.acl && back.country == country
            && back.capabilities == HtCapabilities.Found(HtCapabilities.KNOWN, HtCapabilities.Kept(b.capabilities))
  {
    hide Rebuilt, ReadAgain, Reread, HtCapabilities.Found, HtCapabilities.Blocks, Decimal.Atoi, Decimal.PrintInt, ReadList;
    hide HtCapabilities.Kept;
    SeenIsRead(file, "ssid");
    SeenIsRead(file, "interface");
    SeenIsRead(file, "channel");
    SeenIsRead(file, "hw_mode");
    SeenIsRead(file, "ht_capab");
    SeenIsRead(file, "ieee80211n");
    SeenIsRead(file, "ignore_broadcast_ssid");
    SeenIsRead(file, "macaddr_acl");
    SmallTexts();
    Decimal.AtoiPrintInt(b.channel);
    HtCapabilities.KeptIsReread(b.capabilities);
  }

  // The text comes back: it is written and read again as it is, or it is empty and nothing else is
  // read of the key.
  predicate TextReturns(v: string, was: Store, key: string) {
    if v != "" then Steady(v) else Seen(ReadAgain(was, key)) == ""
  }

  lemma ReturnsExactly(v: string, was: Store, key: string)
    ensures Seen(if v != "" then Reread(v) else ReadAgain(was, key)) == v <==> TextReturns(v, was, key)
  {
    hide Trim, ReadAgain;
  }

  // What came back of the settings
  ghost predicate Returned(back: Basics, b: Basics, was: Store) {
    && back.channel == b.channel && back.hwMode == b.hwMode && back.n == b.n
    && back.broadcast == b.broadcast && back.acl == b.acl
    && (back.ssid == b.ssid <==> TextReturns(b.ssid, was, "ssid"))
    && (back.interface == b.interface <==> TextReturns(b.interface, was, "interface"))
    && (back.capabilities == HtCapabilities.Among(HtCapabilities.KNOWN, b.capabilities) <==>
          if HtCapabilities.SomeHolds(b.capabilities, '=')
          then HtCapabilities.Among(HtCapabilities.KNOWN, b.capabilities) == []
          else HtCapabilities.ShowsOnlyMembers(b.capabilities, HtCapabilities.KNOWN))
  }

  lemma ReadIsReturned(file: Store, was: Store, b: Basics, files: map<string, seq<string>>, country: string, held: HwMode)
    requires Settings(file, was, b) && !b.hwMode.ModeUnknown?
    ensures Returned(ReadBasics(Rebuilt(file), files, country, held), b, was)
  {
    hide Settings, ReadBasics, Rebuilt, ReadAgain, Reread, TextReturns, HtCapabilities.Found, HtCapabilities.Kept;
    hide HtCapabilities.ShowsOnlyMembers, HtCapabilities.SomeHolds, HtCapabilities.AllNoBrackets, HtCapabilities.Among;
    BasicsAreRead(file, was, b, files, country, held);
    ReturnsExactly(b.ssid, was, "ssid");
    ReturnsExactly(b.interface, was, "interface");
    HtCapabilities.KnownHasNoBrackets();
    HtCapabilities.KeptIsAmongExactly(HtCapabilities.KNOWN, b.capabilities);
  }

  // An update that succeeds has taken the request over and written all of it.
  lemma SucceedsByWriting(m: Machine, u: Update)
    requires UpdateCfg(m.s, u).ok
    ensures var t := Take(m.s, u);
            && t.ok && UpdateCfg(m.s, u) == SyncAll(t.s) && !t.s.basics.hwMode.ModeUnknown?
            && SyncAll(t.s).s.basics == t.s.basics && t.s.ap.cfg == m.s.ap.cfg && t.s.ap.files == m.s.ap.files
  {
    hide Take, WriteAll, SyncAclMode, WithList, SyncAuth, EarlyPairs, LatePairs;
    HeldIsUnchangedInMemory(m.s, u);
  }

  // What is in the file after an update: the map that a restart will find
  lemma UpdateIsWritten(m: Machine, u: Update)
    requires OneLineMachine(m) && OneLineUpdate(u) && UpdateCfg(m.s, u).ok
    ensures var m', file := Changed(m, u), UpdateCfg(m.s, u).s.ap.cfg;
            && m'.s == UpdateCfg(m.s, u).s && Values(m'.disk) == Rebuilt(file)
            && !m'.s.basics.hwMode.ModeUnknown? && Settings(file, m.s.ap.cfg, m'.s.basics)
  {
    hide Changed, UpdateCfg, SyncAll, Take, OneLineMachine, OneLineUpdate, Settings, Values, Rebuilt, Lines, Text;
    OneLineIsSound(m);
    ChangeFollows(m, u);
    ChangeKeepsOneLine(m, u);
    OneLineIsSound(Changed(m, u));
    SucceedsByWriting(m, u);
    SettingsAreWritten(Take(m.s, u).s);
  }

  lemma OneLineIsSound(m: Machine)
    requires OneLineMachine(m)
    ensures Sound(m) && m.s.ap.cfg == m.file.values
  {
  }

  /** A successful update and then a restart: channel, radio mode, 802.11n, visibility and access
      mode come back whatever they are; ssid and interface exactly when they hold no `=` and have no
      outer spaces, or are empty and the file said nothing of them before, for an empty one is not
      written; and of the capabilities the known ones that are listed, under the exact condition. */
  lemma UpdateThenRestart(m: Machine, u: Update, country: string, held: HwMode)
    requires OneLineMachine(m) && OneLineUpdate(u) && UpdateCfg(m.s, u).ok
    ensures var m' := Changed(m, u); var back := Step(m', Restart(country, held)).s.basics;
            Returned(back, m'.s.basics, m.s.ap.cfg) && back.country == country
  {
    hide Changed, UpdateCfg, OneLineMachine, OneLineUpdate, Settings, Values, Rebuilt, Restarted, Returned, ReadBasics;
    var m', file := Changed(m, u), UpdateCfg(m.s, u).s.ap.cfg;
    UpdateIsWritten(m, u);
    RestartKeepsStore(m'.disk, m'.s.ap);
    ReadIsReturned(file, m.s.ap.cfg, m'.s.basics, m'.s.ap.files, country, held);
    CountryIsGiven(Rebuilt(file), m'.s.ap.files, country, held);
  }

  lemma CountryIsGiven(cfg: Store, files: map<string, seq<string>>, country: string, held: HwMode)
    ensures ReadBasics(cfg, files, country, held).country == country
  {
    hide HtCapabilities.Found, Decimal.Atoi, ReadList, ReadAclMode, ReadHwMode;
  }

  /** A text of two lines never comes back, whatever else is in the file. */
  lemma TwoLinesAreLost(m: Machine, u: Update, country: string, held: HwMode)
    requires Sound(m) && UpdateCfg(m.s, u).ok
    ensures var m' := Changed(m, u); var b, back := m'.s.basics, Step(m', Restart(country, held)).s.basics;
            && ('\n' in b.ssid ==> back.ssid != b.ssid) && ('\n' in b.interface ==> back.interface != b.interface)
  {
    hide Changed, UpdateCfg, Values, Restarted, ReadBasics, Lines, Text, Sound, OneLiners;
    var m' := Changed(m, u);
    ChangeFollows(m, u);
    ReadLinesAreOneLine(Text(m'.file.content));
    RestartKeepsStore(m'.disk, m'.s.ap);
    ReadTextsAreOneLine(m'.disk, m'.s.ap.files, country, held);
  }

  lemma ReadTextsAreOneLine(lines: seq<string>, files: map<string, seq<string>>, country: string, held: HwMode)
    requires OneLiners(lines)
    ensures var b := ReadBasics(Values(lines), files, country, held); '\n' !in b.ssid && '\n' !in b.interface
  {
    hide OneLiners, Values, Lines, Text, HtCapabilities.Found, HtCapabilities.StoredText, Decimal.Atoi;
    ReadValuesAreOneLine(lines);
  }

  // ---------- From the request to the file ----------

  // The file says what the request asked for, in the words of the access point's own program.
  predicate FileSays(file: Store, u: Update) {
    && (u.ssid.Some? && u.ssid.value != "" ==> Val(file, "ssid") == Seen(Reread(u.ssid.value)))
    && (u.interface.Some? && u.interface.value != "" ==> Val(file, "interface") == Seen(Reread(u.interface.value)))
    && (u.country.Some? ==> Val(file, "country_code") == Seen(Reread(u.country.value)))
    && (u.channel.Some? ==> Val(file, "channel") == Decimal.PrintInt(u.channel.value))
    && (u.n.Some? ==> Val(file, "ieee80211n") == if u.n.value then "1" else "0")
    && (u.broadcast.Some? ==> Val(file, "ignore_broadcast_ssid") == if u.broadcast.value then "0" else "1")
    && (u.mode.Some? ==> u.mode.value != "" && Val(file, "hw_mode") == u.mode.value[..1])
    && (u.capabilities.Some? ==> Val(file, "ht_capab") == HtCapabilities.Kept(u.capabilities.value))
    && (u.acl.Some? && u.acl.value.mode.Some? ==>
          && (u.acl.value.mode == Some("none") ==> "macaddr_acl" !in file)
          && (u.acl.value.mode == Some("accept") ==> Val(file, "macaddr_acl") == "0")
          && (u.acl.value.mode == Some("deny") ==> Val(file, "macaddr_acl") == "1")
          && u.acl.value.mode.value in {"none", "accept", "deny"})
  }

  // What the memory holds once a request has been taken over
  predicate TakenOver(b: Basics, u: Update) {
    && u.ssid in {None, Some(b.ssid)} && u.interface in {None, Some(b.interface)} && u.country in {None, Some(b.country)}
    && u.channel in {None, Some(b.channel)} && u.n in {None, Some(b.n)} && u.broadcast in {None, Some(b.broadcast)}
    && u.capabilities in {None, Some(b.capabilities)}
    && (u.mode.Some? ==> u.mode.value != "" && HwText(b.hwMode) == u.mode.value[..1])
    && (u.acl.Some? && u.acl.value.mode.Some? ==>
          u.acl.value.mode.value == match b.acl case AclNone => "none" case AclAccept => "accept" case AclDeny => "deny")
  }

  lemma AclIsTakenOver(b: Basics, val: AclPart)
    requires TakeAcl(b, val).ok
    ensures var r := TakeAcl(b, val).basics;
            && (val.mode.Some? ==>
                  val.mode.value == match r.acl case AclNone => "none" case AclAccept => "accept" case AclDeny => "deny")
            && val.accept in {None, Some(r.accept)} && val.deny in {None, Some(r.deny)}
            && (val.mode.None? ==> r.acl == b.acl)
  {
  }

  lemma ModeIsTakenOver(mode: string)
    requires !HwModeOf(mode).ModeUnknown?
    ensures mode != "" && HwText(HwModeOf(mode)) == mode[..1]
  {
  }

  lemma BasicsAreTakenOver(b: Basics, u: Update)
    requires TakeBasics(b, u).ok
    ensures TakenOver(TakeBasics(b, u).basics, u)
  {
    hide HwModeOf, HwText, TakeAcl, AclModeOf;
    if u.mode.Some? {
      ModeIsTakenOver(u.mode.value);
    }
    if u.acl.Some? {
      var b2 := TakeSettings(b, u).(hwMode := if u.mode.Some? then HwModeOf(u.mode.value) else b.hwMode,
                                    capabilities := Or(u.capabilities, b.capabilities));
      AclIsTakenOver(b2, u.acl.value);
      TakeAclKeepsRest(b2, u.acl.value);
    }
  }

  lemma SaysWhatIsTaken(file: Store, was: Store, b: Basics, u: Update)
    requires Settings(file, was, b) && TakenOver(b, u) && !b.hwMode.ModeUnknown?
    ensures FileSays(Rebuilt(file), u)
  {
    hide Rebuilt, ReadAgain, Reread, HtCapabilities.Blocks, HtCapabilities.Kept, Decimal.PrintInt;
    SeenIsRead(file, "ssid");
    SeenIsRead(file, "interface");
    SeenIsRead(file, "country_code");
    SeenIsRead(file, "channel");
    SeenIsRead(file, "hw_mode");
    SeenIsRead(file, "ht_capab");
    SeenIsRead(file, "ieee80211n");
    SeenIsRead(file, "ignore_broadcast_ssid");
    SeenIsRead(file, "macaddr_acl");
    ReadAgainIsRebuilt(file, "macaddr_acl");
    SmallTexts();
    HtCapabilities.KeptIsReread(b.capabilities);
  }

  /** After a successful update the file on the disk says what the request asked for. */
  lemma RequestReachesFile(m: Machine, u: Update)
    requires OneLineMachine(m) && OneLineUpdate(u) && UpdateCfg(m.s, u).ok
    ensures FileSays(Values(Changed(m, u).disk), u)
  {
    hide Changed, SyncAll, OneLineMachine, OneLineUpdate, Settings, Values, Rebuilt, TakenOver, FileSays, JsonToAuth, TakeBasics;
    UpdateIsWritten(m, u);
    SucceedsByWriting(m, u);
    BasicsAreTakenOver(m.s.basics, u);
    SaysWhatIsTaken(UpdateCfg(m.s, u).s.ap.cfg, m.s.ap.cfg, Changed(m, u).s.basics, u);
  }

  // ---------- The authentication ----------

  // The mode that is set is the one that the file says, in its own words.
  predicate AuthSays(file: Store, ap: Ap) {
    match ap.mode
    case AuthNone => ReadAgain(file, "wep_default_key") == None && ReadAgain(file, "wpa") == None
    case AuthWep =>
      ReadAgain(file, "wep_default_key") == Some(Decimal.PrintInt(ap.wepDefault)) && ReadAgain(file, "wpa") == None
    case AuthWpa =>
      && ReadAgain(file, "wep_default_key") == None
      && ReadAgain(file, "wpa") == Some(match ap.wpaMode case Wpa1 => "1" case Wpa2 => "2" case Wpa12 => "3")
      && (ap.wpaKeys != [] ==> ReadAgain(file, "wpa_passphrase") == Reread(ap.wpaKeys[0]))
  }

  lemma LastWordIn(cfg: Store, pre: seq<Op>, op: Op, post: seq<Op>)
    requires forall j | 0 <= j < |post| :: post[j].key != op.key
    ensures ReadAgain(AppliedAll(cfg, pre + ([op] + post)), op.key) == if op.Put? then Reread(op.value) else None
  {
    hide ReadAgain, AppliedAll;
    var ops := pre + ([op] + post);
    assert ops[|pre|] == op;
    forall j | |pre| < j < |ops| ensures ops[j].key != op.key {
      assert ops[j] == post[j - |pre| - 1];
    }
    LastWordStands(cfg, ops, |pre|);
  }

  lemma NoneIsWritten(cfg: Store)
    ensures var r := AppliedAll(cfg, Drops(["wep_default_key"] + FOUR + WPA));
            ReadAgain(r, "wep_default_key") == None && ReadAgain(r, "wpa") == None
  {
    hide ReadAgain, AppliedAll;
    var ops := Drops(["wep_default_key"] + FOUR + WPA);
    assert forall i | 0 <= i < 4 :: FOUR[i] != "wep_default_key" && |FOUR[i]| == 8;
    assert WPA == ["wpa", "wpa_passphrase"] && |"wep_default_key"| == 15 && |"wpa_passphrase"| == 14 && |"wpa"| == 3;
    assert ops == [] + ([Drop("wep_default_key")] + ops[1..]);
    LastWordIn(cfg, [], Drop("wep_default_key"), ops[1..]);
    assert ops == ops[..5] + ([Drop("wpa")] + ops[6..]);
    LastWordIn(cfg, ops[..5], Drop("wpa"), ops[6..]);
  }

  lemma WepIsWritten(cfg: Store, default: int, keys: seq<string>)
    ensures var r := AppliedAll(cfg, WepOps(cfg, default, keys));
            && ReadAgain(r, "wep_default_key") == Some(Decimal.PrintInt(default)) && ReadAgain(r, "wpa") == None
  {
    hide ReadAgain, AppliedAll, Decimal.PrintInt, EraseOps, AddOps, RemovedAll, Reread;
    var ops, put := WepOps(cfg, default, keys), Put("wep_default_key", Decimal.PrintInt(default));
    var post := EraseOps(Applied(RemovedAll(cfg, WPA), put), 0) + AddOps(keys);
    NumberIsPlain(default);
    PostIsNumbered(Applied(RemovedAll(cfg, WPA), put), keys, post);
    assert ops == Drops(WPA) + ([put] + post);
    LastWordIn(cfg, Drops(WPA), put, post);
    assert Drops(WPA) == [Drop("wpa"), Drop("wpa_passphrase")];
    assert ops == [] + ([Drop("wpa")] + ([Drop("wpa_passphrase"), put] + post));
    PostIsNoMode(Applied(RemovedAll(cfg, WPA), put), keys, post);
    assert |"wpa_passphrase"| == 14 && |"wep_default_key"| == 15 && |"wpa"| == 3;
    LastWordIn(cfg, [], Drop("wpa"), [Drop("wpa_passphrase"), put] + post);
  }

  lemma PostIsNoMode(cfg: Store, keys: seq<string>, post: seq<Op>)
    requires post == EraseOps(cfg, 0) + AddOps(keys)
    ensures forall i | 0 <= i < |post| :: post[i].key != "wpa"
  {
    assert forall j: nat :: |Key(j)| >= 7;
    hide Key, EraseOps;
    assert |"wpa"| == 3;
    ErasesNumbered(cfg, 0);
  }

  lemma WpaIsWritten(cfg: Store, mode: WpaMode, first: string)
    ensures var ops := Drops(["wep_default_key"] + FOUR) + [Put("wpa", WpaText(mode)), Put("wpa_passphrase", first)];
            var r := AppliedAll(cfg, ops);
            && ReadAgain(r, "wep_default_key") == None && ReadAgain(r, "wpa_passphrase") == Reread(first)
            && ReadAgain(r, "wpa") == Some(match mode case Wpa1 => "1" case Wpa2 => "2" case Wpa12 => "3")
  {
    hide ReadAgain, AppliedAll, Reread;
    var drops, a, b := Drops(["wep_default_key"] + FOUR), Put("wpa", WpaText(mode)), Put("wpa_passphrase", first);
    var ops := drops + [a, b];
    WpaTextIsPlain(mode);
    assert |"wpa_passphrase"| == 14 && |"wep_default_key"| == 15 && |"wpa"| == 3;
    assert forall i | 0 <= i < 4 :: |FOUR[i]| == 8;
    assert ops == drops + ([a] + [b]);
    LastWordIn(cfg, drops, a, [b]);
    assert ops == (drops + [a]) + ([b] + []);
    LastWordIn(cfg, drops + [a], b, []);
    assert ops == [] + ([Drop("wep_default_key")] + ops[1..]);
    LastWordIn(cfg, [], Drop("wep_default_key"), ops[1..]);
  }

  /** Writing the authentication makes the file say the mode that is set, and no other, whatever it
      said before. */
  lemma AuthIsWritten(ap: Ap)
    requires SyncAuth(ap).ok
    ensures AuthSays(SyncAuth(ap).ap.cfg, ap)
  {
    hide ReadAgain, AppliedAll, Drops, WepOps, Decimal.PrintInt, RemovedAll, SyncWep;
    AuthOpsApply(ap);
    match ap.mode {
      case AuthNone => NoneIsWritten(ap.cfg);
      case AuthWep => WepIsWritten(ap.cfg, ap.wepDefault, ap.wepKeys);
      case AuthWpa => WpaIsWritten(ap.cfg, ap.wpaMode, ap.wpaKeys[0]);
    }
  }

  lemma AuthIsRead(file: Store, ap: Ap, before: Ap)
    requires AuthSays(file, ap) && before.cfg == Rebuilt(file)
    ensures var back := GetAuth(before);
            && back.mode == ap.mode
            && (ap.mode.AuthWep? ==> back.wepDefault == ap.wepDefault)
            && (ap.mode.AuthWpa? ==> back.wpaMode == ap.wpaMode)
  {
    hide ReadAgain, Rebuilt, Decimal.PrintInt, Decimal.Atoi, ReadFrom, MoreKeys;
    SeenIsRead(file, "wep_default_key");
    SeenIsRead(file, "wpa");
    Decimal.AtoiPrintInt(ap.wepDefault);
    WpaTextIsPlain(ap.wpaMode);
  }

  // The authentication that the request asked for, in the words of the file
  predicate FileSaysAuth(file: Store, val: AuthPart) {
    val.mode.Some? ==>
      && val.mode.value in {"none", "wep", "wpa"}
      && (val.mode == Some("none") ==> "wep_default_key" !in file && "wpa" !in file)
      && (val.mode == Some("wep") ==> "wpa" !in file && "wep_default_key" in file)
      && (val.mode == Some("wep") && val.wep.Some? && val.wep.value.defaultKey.Some? ==>
            Val(file, "wep_default_key") == Decimal.PrintInt(val.wep.value.defaultKey.value))
      && (val.mode == Some("wpa") ==> "wep_default_key" !in file && "wpa" in file)
      && (val.mode == Some("wpa") && val.wpa.Some? ==>
            && (val.wpa.value.mode == Some("wpa1") ==> Val(file, "wpa") == "1")
            && (val.wpa.value.mode == Some("wpa2") ==> Val(file, "wpa") == "2")
            && (val.wpa.value.mode == Some("wpa12") ==> Val(file, "wpa") == "3")
            && (val.wpa.value.keys.Some? && val.wpa.value.keys.value != [] ==>
                  Val(file, "wpa_passphrase") == Seen(Reread(val.wpa.value.keys.value[0]))))
  }

  lemma SaysAuthTaken(file: Store, ap: Ap, val: AuthPart)
    requires JsonToAuth(ap, val).ok && AuthSays(file, JsonToAuth(ap, val).ap)
    ensures FileSaysAuth(Rebuilt(file), val)
  {
    hide ReadAgain, Rebuilt, Decimal.PrintInt, Reread;
    SeenIsRead(file, "wep_default_key");
    SeenIsRead(file, "wpa");
    SeenIsRead(file, "wpa_passphrase");
    ReadAgainIsRebuilt(file, "wep_default_key");
    ReadAgainIsRebuilt(file, "wpa");
  }

  // What taking over and writing leave of the authentication
  lemma AuthAfterUpdate(m: Machine, u: Update)
    requires UpdateCfg(m.s, u).ok
    ensures var ap := UpdateCfg(m.s, u).s.ap;
            && AuthSays(ap.cfg, ap)
            && (u.auth.Some? ==> var t := JsonToAuth(m.s.ap, u.auth.value); t.ok && AuthSays(ap.cfg, t.ap))
  {
    hide TakeBasics, JsonToAuth, SyncAuth, WriteAll, SyncAclMode, WithList, AuthSays, EarlyPairs, LatePairs;
    var t := Take(m.s, u).s;
    SyncBasicsKeepsAuth(t);
    var ap := SyncBasics(t).s.ap;
    AuthIsWritten(ap);
    SyncKeepsMemory(ap);
    SaysTheSame(ap.cfg, ap, SyncAuth(ap).ap);
    SaysTheSame(SyncAuth(ap).ap.cfg, ap, SyncAuth(ap).ap);
    SaysTheSame(SyncAuth(ap).ap.cfg, ap, t.ap);
  }

  lemma SaysTheSame(file: Store, a: Ap, b: Ap)
    requires a.mode == b.mode && a.wepDefault == b.wepDefault && a.wpaMode == b.wpaMode && a.wpaKeys == b.wpaKeys
    ensures AuthSays(file, a) == AuthSays(file, b)
  {
  }

  /** After a successful update the file on the disk says the authentication that the request asked
      for; and a restart brings back the mode, the WEP default key and the kind of WPA that were set,
      whoever set them. */
  lemma AuthReachesFileAndReturns(m: Machine, u: Update, country: string, held: HwMode)
    requires OneLineMachine(m) && OneLineUpdate(u) && UpdateCfg(m.s, u).ok
    ensures var m' := Changed(m, u); var now, back := m'.s.ap, Step(m', Restart(country, held)).s.ap;
            && (u.auth.Some? ==> FileSaysAuth(Values(m'.disk), u.auth.value))
            && back.mode == now.mode
            && (now.mode.AuthWep? ==> back.wepDefault == now.wepDefault)
            && (now.mode.AuthWpa? ==> back.wpaMode == now.wpaMode)
  {
    hide Changed, UpdateCfg, OneLineMachine, OneLineUpdate, Settings, Values, Rebuilt, AuthSays, FileSaysAuth, JsonToAuth, GetAuth;
    hide ReadBasics;
    UpdateIsWritten(m, u);
    AuthAfterUpdate(m, u);
    var m', file := Changed(m, u), UpdateCfg(m.s, u).s.ap.cfg;
    if u.auth.Some? {
      SaysAuthTaken(file, m.s.ap, u.auth.value);
    }
    AuthIsRead(file, m'.s.ap, m'.s.ap.(cfg := Values(m'.disk), wepKeys := [], wpaKeys := []));
  }

  // ---------- The other files ----------

  // The value is read again as it is, as all values are that have been read from the file.
  predicate Settled(cfg: Store, k: string) {
    k in cfg ==> Reread(cfg[k]) == Some(cfg[k])
  }

  predicate SameAt(a: Store, b: Store, k: string) {
    (k in a <==> k in b) && (k in a && k in b ==> a[k] == b[k])
  }

  lemma SettledRebuilt(cfg: Store, k: string)
    requires Settled(cfg, k)
    ensures SameAt(Rebuilt(cfg), cfg, k)
  {
    hide Reread;
  }

  lemma {:induction false} SettledStays(cfg: Store, ops: seq<Op>, k: string)
    requires Settled(cfg, k) && forall i | 0 <= i < |ops| :: ops[i].key != k
    ensures var r := AppliedAll(cfg, ops); Settled(r, k) && SameAt(r, cfg, k)
    decreases |ops|
  {
    hide Reread, Rebuilt;
    if ops != [] {
      if ops[0].key in cfg {
        SettledRebuilt(cfg - {ops[0].key}, k);
      }
      SettledStays(Applied(cfg, ops[0]), ops[1..], k);
    }
  }

  lemma ReadFromFileIsSettled(content: seq<string>, k: string)
    ensures Settled(Values(content), k)
  {
    hide Reread;
    ReadIsInStepStill(content, k);
  }

  lemma {:induction false} ReadIsInStepStill(content: seq<string>, k: string)
    ensures k in Values(content) ==> Reread(Values(content)[k]) == Some(Values(content)[k])
    decreases |content|
  {
    hide Reread, ParseLine;
    if content != [] {
      ParsedIsFixed(content[|content| - 1]);
      ReadIsInStepStill(content[..|content| - 1], k);
    }
  }

  lemma BasicNamesAreOthers(b: Basics)
    requires !b.hwMode.ModeUnknown?
    ensures forall i | 0 <= i < |BasicOps(b)| ::
              BasicOps(b)[i].key !in {"accept_mac_file", "deny_mac_file", "wpa_psk_file"}
  {
    hide Names, Late, BasicOps;
    BasicOpsAre(b);
    LateLengths(b);
    NamesAreFew(b);
    assert |"accept_mac_file"| == 15 && |"deny_mac_file"| == 13 && |"wpa_psk_file"| == 12 && "wpa_psk_file"[0] == 'w';
  }

  lemma AuthNamesAreOthers(ap: Ap)
    ensures forall i | 0 <= i < |AuthOps(ap)| :: AuthOps(ap)[i].key !in {"accept_mac_file", "deny_mac_file", "wpa_psk_file"}
  {
    assert forall j: nat :: Key(j)[0] == 'w' && Key(j)[1] == 'e';
    AuthKeysAreKnown(ap);
    hide Key, AuthOps;
    assert |"wep_default_key"| == 15 && |"wpa"| == 3 && |"wpa_passphrase"| == 14 && |"wpa_psk_file"| == 12;
    assert "wep_default_key"[0] == 'w' && "wpa_psk_file"[1] == 'p';
    assert "accept_mac_file"[0] == 'a' && "deny_mac_file"[0] == 'd' && |"deny_mac_file"| == 13;
  }

  lemma FileNamesStay(s: Station, k: string)
    requires k in {"accept_mac_file", "deny_mac_file", "wpa_psk_file"} && Settled(s.ap.cfg, k) && !s.basics.hwMode.ModeUnknown?
    ensures Settled(SyncBasics(s).s.ap.cfg, k) && SameAt(SyncBasics(s).s.ap.cfg, s.ap.cfg, k)
    ensures Settled(SyncAll(s).s.ap.cfg, k) && SameAt(SyncAll(s).s.ap.cfg, s.ap.cfg, k)
  {
    hide SyncAll, BasicOps, AuthOps, SyncBasics, Settled, SameAt;
    var ap := SyncBasics(s).s.ap;
    BasicNamesAreOthers(s.basics);
    AuthNamesAreOthers(ap);
    BasicOpsApply(s);
    SettledStays(s.ap.cfg, BasicOps(s.basics), k);
    SyncOpsApply(s);
    var ops := SyncOps(s);
    assert ops == BasicOps(s.basics) + AuthOps(ap);
    forall j | 0 <= j < |ops| ensures ops[j].key != k {
      if j >= |BasicOps(s.basics)| {
        assert ops[j] == AuthOps(ap)[j - |BasicOps(s.basics)|];
      } else {
        assert ops[j] == BasicOps(s.basics)[j];
      }
    }
    SettledStays(s.ap.cfg, ops, k);
  }

  // The names of the three files, which the settings give or leave to the program
  function AcceptFile(cfg: Store): string {
    ValueOr(cfg, "accept_mac_file", "/etc/hostapd/accept")
  }

  function DenyFile(cfg: Store): string {
    ValueOr(cfg, "deny_mac_file", "/etc/hostapd/deny")
  }

  function KeyFile(cfg: Store): string {
    ValueOr(cfg, "wpa_psk_file", "/etc/hostapd/hostapd.wpa_psk")
  }

  ghost predicate FilesApart(cfg: Store) {
    && Settled(cfg, "accept_mac_file") && Settled(cfg, "deny_mac_file") && Settled(cfg, "wpa_psk_file")
    && AcceptFile(cfg) != DenyFile(cfg) && KeyFile(cfg) !in {AcceptFile(cfg), DenyFile(cfg)}
  }

  lemma WritesFiles(s: Station)
    requires FilesApart(s.ap.cfg) && SyncAll(s).ok && !s.basics.hwMode.ModeUnknown?
    ensures var r, cfg := SyncAll(s).s.ap, s.ap.cfg;
            && AcceptFile(Rebuilt(r.cfg)) == AcceptFile(cfg) && DenyFile(Rebuilt(r.cfg)) == DenyFile(cfg)
            && (AcceptFile(cfg) != "" ==> AcceptFile(cfg) in r.files && r.files[AcceptFile(cfg)] == s.basics.accept)
            && (DenyFile(cfg) != "" ==> DenyFile(cfg) in r.files && r.files[DenyFile(cfg)] == s.basics.deny)
  {
    hide Rebuilt, WriteAll, SyncAclMode, EarlyPairs, LatePairs, RemovedAll, SyncWep, Settled;
    FileNamesStay(s, "accept_mac_file");
    FileNamesStay(s, "deny_mac_file");
    FileNamesStay(s, "wpa_psk_file");
    SettledRebuilt(SyncAll(s).s.ap.cfg, "accept_mac_file");
    SettledRebuilt(SyncAll(s).s.ap.cfg, "deny_mac_file");
    KeyFileOnly(SyncBasics(s).s.ap);
  }

  // Writing the authentication touches the file of further keys at most.
  lemma KeyFileOnly(ap: Ap)
    requires Settled(ap.cfg, "wpa_psk_file")
    ensures var r := SyncAuth(ap).ap;
            forall f | f != KeyFile(ap.cfg) && f in ap.files :: f in r.files && r.files[f] == ap.files[f]
  {
    hide Rebuilt, RemovedAll, SyncWep, Settled;
    if ap.mode.AuthWpa? {
      PskNameStays(ap.cfg);
    }
  }

  lemma PskNameStays(cfg: Store)
    requires Settled(cfg, "wpa_psk_file")
    ensures SameAt(RemovedAll(cfg, ["wep_default_key"] + FOUR), cfg, "wpa_psk_file")
  {
    hide Settled, SameAt, RemovedAll, AppliedAll;
    DropsApply(cfg, ["wep_default_key"] + FOUR);
    assert |"wep_default_key"| == 15 && |"wpa_psk_file"| == 12 && forall i | 0 <= i < 4 :: |FOUR[i]| == 8;
    SettledStays(cfg, Drops(["wep_default_key"] + FOUR), "wpa_psk_file");
  }

  lemma LinesOfList(list: seq<string>)
    ensures Lines(Text(list)) == list <==> OneLiners(list)
  {
    if OneLiners(list) {
      TextIsRead(list);
    }
    ReadLinesAreOneLine(Text(list));
  }

  predicate ListReturns(list: seq<string>, acl: AclMode, file: string) {
    if acl.AclNone? || file == "" then list == [] else OneLiners(list)
  }

  /** The lists of addresses come back from their files exactly when they are of single lines, if
      access is restricted; otherwise they are not read, and only empty ones are as before. */
  lemma ListsReturn(m: Machine, u: Update, country: string, held: HwMode)
    requires OneLineMachine(m) && OneLineUpdate(u) && UpdateCfg(m.s, u).ok && FilesApart(m.s.ap.cfg)
    ensures var m' := Changed(m, u); var b, back := m'.s.basics, Step(m', Restart(country, held)).s.basics;
            && (back.accept == b.accept <==> ListReturns(b.accept, b.acl, AcceptFile(m.s.ap.cfg)))
            && (back.deny == b.deny <==> ListReturns(b.deny, b.acl, DenyFile(m.s.ap.cfg)))
  {
    hide Changed, UpdateCfg, SyncAll, Take, OneLineMachine, OneLineUpdate, Settings, Values, Rebuilt, Restarted, ReadBasics;
    hide Lines, Text, OneLiners, AcceptFile, DenyFile, KeyFile, Returned, FilesApart;
    var m', file := Changed(m, u), UpdateCfg(m.s, u).s.ap.cfg;
    UpdateIsWritten(m, u);
    SucceedsByWriting(m, u);
    FilesDependOnCfg(m, u);
    WritesFiles(Take(m.s, u).s);
    UpdateThenRestart(m, u, country, held);
    RestartKeepsStore(m'.disk, m'.s.ap);
    LinesOfList(m'.s.basics.accept);
    LinesOfList(m'.s.basics.deny);
    ListsAreRead(Rebuilt(file), m'.s.ap.files, country, held);
    assert Returned(Step(m', Restart(country, held)).s.basics, m'.s.basics, m.s.ap.cfg);
    AclOfReturned(Step(m', Restart(country, held)).s.basics, m'.s.basics, m.s.ap.cfg);
  }

  lemma FilesDependOnCfg(m: Machine, u: Update)
    requires FilesApart(m.s.ap.cfg)
    ensures FilesApart(Take(m.s, u).s.ap.cfg) && Take(m.s, u).s.ap.cfg == m.s.ap.cfg
  {
    hide FilesApart, Take;
    TakeKeepsStore(m.s, u);
  }

  lemma AclOfReturned(back: Basics, b: Basics, was: Store)
    requires Returned(back, b, was)
    ensures back.acl == b.acl
  {
  }

  lemma ListsAreRead(cfg: Store, files: map<string, seq<string>>, country: string, held: HwMode)
    ensures var b := ReadBasics(cfg, files, country, held);
            && b.accept == (if b.acl.AclNone? then [] else ReadList(files, AcceptFile(cfg)))
            && b.deny == (if b.acl.AclNone? then [] else ReadList(files, DenyFile(cfg)))
  {
    hide ReadList, HtCapabilities.Found, Decimal.Atoi;
  }

  // ---------- Further WPA keys ----------

  // The file of further keys is read: the settings name it, and it is there.
  predicate KeyFileIsRead(cfg: Store, files: map<string, seq<string>>) {
    "wpa_psk_file" in cfg && cfg["wpa_psk_file"] != "" && cfg["wpa_psk_file"] in files
  }

  lemma FurtherKeysAreWritten(ap: Ap)
    requires ap.mode.AuthWpa? && ap.wpaKeys != [] && Settled(ap.cfg, "wpa_psk_file")
    ensures var r := SyncAuth(ap).ap;
            && SameAt(Rebuilt(r.cfg), ap.cfg, "wpa_psk_file")
            && (KeyFileIsRead(ap.cfg, r.files) ==> r.files[ap.cfg["wpa_psk_file"]] == ap.wpaKeys[1..])
  {
    hide Rebuilt, RemovedAll, WpaText, Settled;
    PskNameStays(ap.cfg);
    AuthNamesAreOthers(ap);
    AuthOpsApply(ap);
    SettledStays(ap.cfg, AuthOps(ap), "wpa_psk_file");
    SettledRebuilt(SyncAuth(ap).ap.cfg, "wpa_psk_file");
  }

  lemma {:induction false} ShiftedIsConstant(rest: seq<string>, first: string)
    ensures rest + [""] == [first] + rest <==> forall i | 0 <= i < |[first] + rest| :: ([first] + rest)[i] == ""
    decreases |rest|
  {
    var all := [first] + rest;
    if rest != [] {
      ShiftedIsConstant(rest[1..], rest[0]);
      assert rest == [rest[0]] + rest[1..];
      if rest + [""] == all {
        assert (rest + [""])[0] == all[0];
        assert rest[1..] + [""] == (rest + [""])[1..] == all[1..] == rest;
        assert forall i | 1 <= i < |all| :: all[i] == rest[i - 1];
      }
      if forall i | 0 <= i < |all| :: all[i] == "" {
        assert all[0] == "" && forall i | 0 <= i < |rest| :: rest[i] == all[i + 1];
        assert rest + [""] == all;
      }
    } else {
      assert all[0] == first;
      assert rest + [""] == [""] && all == [first];
      assert ([""])[0] == "";
    }
  }

  /** WPA keys of single lines come back from the file exactly when there is one that is not empty,
      holds no `=` and has no outer spaces, and the settings name no file of further keys that is
      there; if one is read, an empty key is found behind the others, and the list is as before only
      if all keys are empty. */
  lemma WpaKeysReturnExactly(f: File, ap: Ap)
    requires IsTidy(f) && OneLiners(f.content) && f.values == ap.cfg && OneLiners(ap.wpaKeys)
    requires ap.mode == AuthWpa && ap.wpaKeys != [] && Settled(ap.cfg, "wpa_psk_file")
    ensures var r := SyncAuth(ap).ap; var back := Reopened(Written(f, ap), r);
            && (back.wpaKeys == ap.wpaKeys <==>
                  if KeyFileIsRead(ap.cfg, r.files) then forall i | 0 <= i < |ap.wpaKeys| :: ap.wpaKeys[i] == ""
                  else |ap.wpaKeys| == 1 && Steady(ap.wpaKeys[0]))
            && (KeyFileIsRead(ap.cfg, r.files) && Steady(ap.wpaKeys[0]) ==> back.wpaKeys == ap.wpaKeys + [""])
  {
    hide IsTidy, OneLiners, SyncAuth, Written, Reopened, Lines, Text, Values, Rebuilt, Reread, Settled, MoreKeys, KeyFileIsRead;
    var r, g, keys := SyncAuth(ap).ap, Written(f, ap), ap.wpaKeys;
    FirstIsOneLine(keys);
    WpaRoundTrip(f, ap);
    WrittenRereads(f, ap);
    FurtherKeysAreWritten(ap);
    var more := MoreKeys(Rebuilt(r.cfg), r.files);
    MoreKeysAre(ap, r);
    ShiftedIsConstant(keys[1..], keys[0]);
    assert keys == [keys[0]] + keys[1..];
    SteadyIsAlive(keys[0]);
    if Alive(keys[0]) {
      var back := [Reread(keys[0]).value] + more;
      assert |keys| == 1 && more == [] ==> back[0] == Reread(keys[0]).value;
      assert back == keys ==> back[0] == keys[0] && |more| == |keys| - 1;
      assert keys[0] != "" by { EmptyIsDead(); }
      if Steady(keys[0]) {
        assert KeyFileIsRead(ap.cfg, r.files) ==> back == keys + [""];
      }
    }
  }

  lemma EmptyIsDead()
    ensures !Alive("")
  {
    TrimIsTrimmed("");
  }

  lemma SteadyIsAlive(k: string)
    ensures Steady(k) <==> Alive(k) && Reread(k).value == k
  {
    hide Trim;
  }

  lemma WrittenRereads(f: File, ap: Ap)
    requires IsTidy(f) && OneLiners(f.content) && f.values == ap.cfg && OneLiners(ap.wpaKeys)
    requires ap.mode == AuthWpa && ap.wpaKeys != []
    ensures Values(Lines(Text(Written(f, ap).content))) == Rebuilt(SyncAuth(ap).ap.cfg)
  {
    hide IsTidy, SyncAuth, Written, Lines, Text, Values, Rebuilt;
    FirstIsOneLine(ap.wpaKeys);
    WrittenFollows(f, ap);
    TidyRereads(Written(f, ap));
  }

  lemma MoreKeysAre(ap: Ap, r: Ap)
    requires ap.wpaKeys != [] && OneLiners(ap.wpaKeys) && SameAt(Rebuilt(r.cfg), ap.cfg, "wpa_psk_file")
    requires KeyFileIsRead(ap.cfg, r.files) ==> r.files[ap.cfg["wpa_psk_file"]] == ap.wpaKeys[1..]
    ensures MoreKeys(Rebuilt(r.cfg), r.files) == if KeyFileIsRead(ap.cfg, r.files) then ap.wpaKeys[1..] + [""] else []
  {
    hide Lines, Text, Rebuilt;
    assert OneLiners(ap.wpaKeys[1..]) by {
      assert forall i | 0 <= i < |ap.wpaKeys[1..]| :: ap.wpaKeys[1..][i] == ap.wpaKeys[i + 1];
    }
    TextIsRead(ap.wpaKeys[1..]);
  }
}
