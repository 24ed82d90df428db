/** Updates of the whole access point configuration, runs of them with restarts in between, and
    what refused ones leave behind. */
module WlanUpdates {
  import opened Wrappers
  import opened Strings
  import opened SimpleCfg
  import opened WlanAuth
  import HtCapabilities
  import Decimal

  datatype HwMode = ModeA | ModeB | ModeG | ModeUnknown

  datatype AclMode = AclNone | AclAccept | AclDeny

  // What is in memory besides the authentication
  datatype Basics = Basics(
    interface: string, ssid: string, channel: int, country: string, n: bool, broadcast: bool, hwMode: HwMode,
    capabilities: seq<string>, acl: AclMode, accept: seq<string>, deny: seq<string>)

  datatype Station = Station(ap: Ap, basics: Basics)

  // The members of a request that are there with the right type, null counting as an empty object
  // or list
  datatype AclPart = AclPart(mode: Option<string>, accept: Option<seq<string>>, deny: Option<seq<string>>)

  datatype Update = Update(
    interface: Option<string>, ssid: Option<string>, channel: Option<int>, country: Option<string>,
    n: Option<bool>, broadcast: Option<bool>, mode: Option<string>,
    capabilities: Option<seq<string>>, acl: Option<AclPart>, auth: Option<AuthPart>)

  const NOTHING := Update(None, None, None, None, None, None, None, None, None, None)

  datatype Outcome = Outcome(s: Station, ok: bool)

  // ---------- Taking over a request ----------

  function Or<T>(o: Option<T>, d: T): T {
    match o case None => d case Some(v) => v
  }

  // By the first letter
  function HwModeOf(mode: string): HwMode {
    if mode == "" then ModeUnknown
    else if mode[0] == 'a' then ModeA
    else if mode[0] == 'b' then ModeB
    else if mode[0] == 'g' then ModeG
    else ModeUnknown
  }

  function AclModeOf(mode: string): Option<AclMode> {
    if mode == "none" then Some(AclNone)
    else if mode == "accept" then Some(AclAccept)
    else if mode == "deny" then Some(AclDeny)
    else None
  }

  datatype Taken = Taken(basics: Basics, ok: bool)

  function TakeAcl(b: Basics, val: AclPart): Taken {
    if val.mode.Some? && AclModeOf(val.mode.value).None? then Taken(b, false) else
      var acl := if val.mode.Some? then AclModeOf(val.mode.value).value else b.acl;
      Taken(b.(acl := acl, deny := Or(val.deny, b.deny), accept := Or(val.accept, b.accept)), true)
  }

  function TakeSettings(b: Basics, u: Update): Basics {
    b.(interface := Or(u.interface, b.interface), ssid := Or(u.ssid, b.ssid), channel := Or(u.channel, b.channel),
       country := Or(u.country, b.country), n := Or(u.n, b.n), broadcast := Or(u.broadcast, b.broadcast))
  }

  function TakeBasics(b: Basics, u: Update): Taken {
    var b1 := TakeSettings(b, u);
    if u.mode.Some? && HwModeOf(u.mode.value).ModeUnknown? then Taken(b1, false) else
      var b2 := b1.(hwMode := if u.mode.Some? then HwModeOf(u.mode.value) else b.hwMode,
                    capabilities := Or(u.capabilities, b.capabilities));
      if u.acl.Some? then TakeAcl(b2, u.acl.value) else Taken(b2, true)
  }

  function Take(s: Station, u: Update): Outcome {
    var t := TakeBasics(s.basics, u);
    var s1 := s.(basics := t.basics);
    if !t.ok || u.auth.None? then Outcome(s1, t.ok) else
      var r := JsonToAuth(s.ap, u.auth.value);
      Outcome(s1.(ap := r.ap), r.ok)
  }

  // ---------- Writing it ----------

  // The values written before the radio mode, which may be unknown, and those written after it
  function EarlyPairs(b: Basics): seq<Pair> {
    (if b.ssid != "" then [Pair("ssid", b.ssid)] else []) +
    (if b.interface != "" then [Pair("interface", b.interface)] else []) +
    [Pair("country_code", b.country)]
  }

  function HwText(m: HwMode): string {
    match m
    case ModeA => "a"
    case ModeB => "b"
    case _ => "g"
  }

  function LatePairs(b: Basics): seq<Pair> {
    [Pair("hw_mode", HwText(b.hwMode)), Pair("ht_capab", HtCapabilities.Blocks(b.capabilities)),
     Pair("ieee80211n", if b.n then "1" else "0"), Pair("ignore_broadcast_ssid", if b.broadcast then "0" else "1"),
     Pair("channel", Decimal.PrintInt(b.channel))]
  }

  function WriteAll(cfg: Store, ps: seq<Pair>): Store
    decreases |ps|
  {
    if ps == [] then cfg else WriteAll(cfg[ps[0].key := ps[0].value], ps[1..])
  }

  function SyncAclMode(cfg: Store, acl: AclMode): Store {
    match acl
    case AclNone => Removed(cfg, "macaddr_acl")
    case AclAccept => cfg["macaddr_acl" := "0"]
    case AclDeny => cfg["macaddr_acl" := "1"]
  }

  function WithList(files: map<string, seq<string>>, name: string, list: seq<string>): map<string, seq<string>> {
    if name == "" then files else files[name := list]
  }

  function SyncBasics(s: Station): Outcome {
    var b := s.basics;
    var early := WriteAll(s.ap.cfg, EarlyPairs(b));
    if b.hwMode.ModeUnknown? then Outcome(s.(ap := s.ap.(cfg := early)), false) else
      var cfg := SyncAclMode(WriteAll(early, LatePairs(b)), b.acl);
      var files := WithList(s.ap.files, ValueOr(cfg, "accept_mac_file", "/etc/hostapd/accept"), b.accept);
      var files' := WithList(files, ValueOr(cfg, "deny_mac_file", "/etc/hostapd/deny"), b.deny);
      Outcome(s.(ap := s.ap.(cfg := cfg, files := files')), true)
  }

  function SyncAll(s: Station): Outcome {
    var r := SyncBasics(s);
    if !r.ok then r else
      var a := SyncAuth(r.s.ap);
      Outcome(r.s.(ap := a.ap), a.ok)
  }

  function UpdateCfg(s: Station, u: Update): Outcome {
    var t := Take(s, u);
    if t.ok then SyncAll(t.s) else t
  }

  // ---------- Reading it ----------

  function ValueOr(cfg: Store, key: string, default: string): string {
    if key in cfg then cfg[key] else default
  }

  // An unreadable radio mode leaves the one that is held.
  function ReadHwMode(cfg: Store, held: HwMode): HwMode {
    var hw := Val(cfg, "hw_mode");
    if hw == "a" then ModeA else if hw == "b" then ModeB else if hw == "g" then ModeG else held
  }

  function ReadAclMode(cfg: Store): AclMode {
    var acl := Val(cfg, "macaddr_acl");
    if acl == "0" then AclAccept else if acl == "1" then AclDeny else AclNone
  }

  // The lines of a file that there is
  function ReadList(files: map<string, seq<string>>, name: string): seq<string> {
    if name != "" && name in files then Lines(Text(files[name])) else []
  }

  // ParseConfig without the authentication. The country comes from the time zone, and `held` is
  // the radio mode that the memory holds before; the lists are read only if they are in force.
  function ReadBasics(cfg: Store, files: map<string, seq<string>>, country: string, held: HwMode): Basics {
    var acl := ReadAclMode(cfg);
    Basics(Val(cfg, "interface"), Val(cfg, "ssid"), Decimal.Atoi(ValueOr(cfg, "channel", "6")), country,
           ValueOr(cfg, "ieee80211n", "0") == "1", ValueOr(cfg, "ignore_broadcast_ssid", "0") == "0",
           ReadHwMode(cfg, held), HtCapabilities.Found(HtCapabilities.KNOWN, HtCapabilities.StoredText(cfg)), acl,
           if acl.AclNone? then [] else ReadList(files, ValueOr(cfg, "accept_mac_file", "/etc/hostapd/accept")),
           if acl.AclNone? then [] else ReadList(files, ValueOr(cfg, "deny_mac_file", "/etc/hostapd/deny")))
  }

  // ---------- Refused updates ----------

  // What the request would set is held already, up to where it is refused.
  predicate HeldAcl(b: Basics, val: AclPart) {
    (val.mode.Some? ==> AclModeOf(val.mode.value).Some?) ==>
      && (val.mode.Some? ==> AclModeOf(val.mode.value) == Some(b.acl))
      && val.deny in {None, Some(b.deny)} && val.accept in {None, Some(b.accept)}
  }

  predicate HeldBasics(b: Basics, u: Update) {
    && u.interface in {None, Some(b.interface)} && u.ssid in {None, Some(b.ssid)}
    && u.channel in {None, Some(b.channel)} && u.country in {None, Some(b.country)}
    && u.n in {None, Some(b.n)} && u.broadcast in {None, Some(b.broadcast)}
    && (!(u.mode.Some? && HwModeOf(u.mode.value).ModeUnknown?) ==>
          && (u.mode.Some? ==> HwModeOf(u.mode.value) == b.hwMode)
          && u.capabilities in {None, Some(b.capabilities)}
          && (u.acl.Some? ==> HeldAcl(b, u.acl.value)))
  }

  predicate HeldAll(s: Station, u: Update) {
    HeldBasics(s.basics, u) && (TakeBasics(s.basics, u).ok && u.auth.Some? ==> Held(s.ap, u.auth.value))
  }

  function Memory(s: Station): Station {
    s.(ap := s.ap.(cfg := map[], files := map[]))
  }

  lemma HeldAclIsUnchanged(b: Basics, val: AclPart)
    ensures TakeAcl(b, val).basics == b <==> HeldAcl(b, val)
  {
  }

  lemma HeldSettingsAreUnchanged(b: Basics, u: Update)
    ensures TakeSettings(b, u) == b <==>
              && u.interface in {None, Some(b.interface)} && u.ssid in {None, Some(b.ssid)}
              && u.channel in {None, Some(b.channel)} && u.country in {None, Some(b.country)}
              && u.n in {None, Some(b.n)} && u.broadcast in {None, Some(b.broadcast)}
  {
  }

  lemma HeldBasicsAreUnchanged(b: Basics, u: Update)
    ensures TakeBasics(b, u).basics == b <==> HeldBasics(b, u)
  {
    hide TakeSettings, TakeAcl, HeldAcl, HwModeOf;
    HeldSettingsAreUnchanged(b, u);
    TakeSettingsKeepsRest(b, u);
    var b1 := TakeSettings(b, u);
    if u.acl.Some? {
      var b2 := b1.(hwMode := if u.mode.Some? then HwModeOf(u.mode.value) else b.hwMode,
                    capabilities := Or(u.capabilities, b.capabilities));
      HeldAclIsUnchanged(b2, u.acl.value);
      TakeAclKeepsRest(b2, u.acl.value);
    }
  }

  lemma TakeSettingsKeepsRest(b: Basics, u: Update)
    ensures var r := TakeSettings(b, u);
            r.(interface := b.interface, ssid := b.ssid, channel := b.channel, country := b.country, n := b.n, broadcast := b.broadcast) == b
  {
  }

  lemma TakeAclKeepsRest(b: Basics, val: AclPart)
    ensures TakeAcl(b, val).basics.(acl := b.acl, accept := b.accept, deny := b.deny) == b
  {
  }

  lemma HeldIsUnchangedInMemory(s: Station, u: Update)
    ensures Memory(Take(s, u).s) == Memory(s) <==> HeldAll(s, u)
    ensures Take(s, u).s.ap.cfg == s.ap.cfg && Take(s, u).s.ap.files == s.ap.files
  {
    hide TakeBasics, JsonToAuth, Held, HeldBasics;
    HeldBasicsAreUnchanged(s.basics, u);
    if u.auth.Some? {
      HeldIsUnchanged(s.ap, u.auth.value);
      AuthKeepsFiles(s.ap, u.auth.value);
    }
  }

  lemma AuthKeepsFiles(ap: Ap, val: AuthPart)
    ensures JsonToAuth(ap, val).ap.files == ap.files
  {
  }

  lemma SyncAllKeepsMemory(s: Station)
    ensures Memory(SyncAll(s).s) == Memory(s)
  {
    hide WriteAll, SyncAclMode, WithList, SyncWep, RemovedAll;
  }

  // No key to write for the mode that is set
  predicate NoKeys(ap: Ap) {
    (ap.mode.AuthWep? && ap.wepKeys == []) || (ap.mode.AuthWpa? && ap.wpaKeys == [])
  }

  // Nothing in the request is to be refused.
  predicate FitUpdate(s: Station, u: Update) {
    && (u.mode.Some? ==> u.mode.value != "" && u.mode.value[0] in "abg")
    && (u.acl.Some? ==> u.acl.value.mode in {None, Some("none"), Some("accept"), Some("deny")})
    && (u.auth.Some? ==> Fit(s.ap, u.auth.value))
  }

  /** A request is taken over exactly when its radio mode begins with a, b or g, its access mode is one
      of the three and its authentication is fit. */
  lemma TakenExactlyWhenFit(s: Station, u: Update)
    ensures Take(s, u).ok <==> FitUpdate(s, u)
  {
    hide JsonToAuth, Fit, TakeSettings;
    if u.auth.Some? {
      AcceptedExactlyWhenFit(s.ap, u.auth.value);
    }
  }

  /** An update is refused exactly when a part of the request is, or the radio mode is unknown, or
      the authentication mode has no keys. */
  lemma RefusedExactly(s: Station, u: Update)
    ensures UpdateCfg(s, u).ok <==>
              var t := Take(s, u); t.ok && !t.s.basics.hwMode.ModeUnknown? && !NoKeys(t.s.ap)
  {
    hide Take, WriteAll, SyncAclMode, WithList, SyncWep, RemovedAll;
  }

  /** A refused update leaves the memory as it was exactly when what it would set, up to where it is
      refused, is held already. The store it leaves as it was if a part of the request is refused;
      if it is refused while writing, what was written before is left in the store, for the next
      update to save. */
  lemma RefusedLeavesMemoryExactly(s: Station, u: Update)
    requires !UpdateCfg(s, u).ok
    ensures var r, t := UpdateCfg(s, u).s, Take(s, u);
            && (Memory(r) == Memory(s) <==> HeldAll(s, u))
            && r.ap.cfg == (if t.ok then SyncBasics(t.s).s.ap.cfg else s.ap.cfg)
  {
    hide Take, WriteAll, SyncAclMode, WithList, SyncWep, RemovedAll, HeldAll, Memory;
    HeldIsUnchangedInMemory(s, u);
    SyncAllKeepsMemory(Take(s, u).s);
  }

  // ---------- What happens to the file ----------

  function Puts(ps: seq<Pair>): seq<Op> {
    seq(|ps|, i requires 0 <= i < |ps| => Put(ps[i].key, ps[i].value))
  }

  function AclOps(acl: AclMode): seq<Op> {
    match acl
    case AclNone => [Drop("macaddr_acl")]
    case AclAccept => [Put("macaddr_acl", "0")]
    case AclDeny => [Put("macaddr_acl", "1")]
  }

  function BasicOps(b: Basics): seq<Op> {
    Puts(EarlyPairs(b)) + if b.hwMode.ModeUnknown? then [] else Puts(LatePairs(b)) + AclOps(b.acl)
  }

  function SyncOps(s: Station): seq<Op> {
    BasicOps(s.basics) + if s.basics.hwMode.ModeUnknown? then [] else AuthOps(SyncBasics(s).s.ap)
  }

  predicate OneLineBasics(b: Basics) {
    '\n' !in b.ssid && '\n' !in b.interface && '\n' !in b.country && OneLiners(b.capabilities)
  }

  lemma {:induction false} PutsApply(cfg: Store, ps: seq<Pair>)
    ensures AppliedAll(cfg, Puts(ps)) == WriteAll(cfg, ps)
    decreases |ps|
  {
    if ps != [] {
      assert Puts(ps)[0] == Put(ps[0].key, ps[0].value) && Puts(ps)[1..] == Puts(ps[1..]);
      PutsApply(cfg[ps[0].key := ps[0].value], ps[1..]);
    }
  }

  lemma PlainEarlyNames()
    ensures PlainKey("ssid") && PlainKey("interface") && PlainKey("country_code")
    ensures '\n' !in "ssid" && '\n' !in "interface" && '\n' !in "country_code"
  {
  }

  lemma PlainLateNames()
    ensures PlainKey("hw_mode") && PlainKey("ht_capab") && PlainKey("ieee80211n") && PlainKey("channel")
    ensures '\n' !in "hw_mode" && '\n' !in "ht_capab" && '\n' !in "ieee80211n" && '\n' !in "channel"
  {
  }

  lemma PlainBroadcast()
    ensures PlainKey("ignore_broadcast_ssid") && '\n' !in "ignore_broadcast_ssid"
  {
  }

  lemma EarlyPutsArePlain(b: Basics)
    ensures PlainOps(Puts(EarlyPairs(b))) && (OneLineBasics(b) ==> OneLineOps(Puts(EarlyPairs(b))))
  {
    hide PlainKey, OneLiners;
    PlainEarlyNames();
  }

  lemma LatePutsArePlain(b: Basics)
    ensures PlainOps(Puts(LatePairs(b))) && (OneLineBasics(b) ==> OneLineOps(Puts(LatePairs(b))))
  {
    hide PlainKey, HtCapabilities.Blocks, Decimal.PrintInt, OneLiners;
    PlainLateNames();
    PlainBroadcast();
    NumberIsOneLine(b.channel);
    BlocksAreOneLine(b.capabilities);
    assert '\n' !in "0" && '\n' !in "1" && '\n' !in HwText(b.hwMode);
  }

  lemma BlocksAreOneLine(ns: seq<string>)
    ensures OneLiners(ns) ==> '\n' !in HtCapabilities.Blocks(ns)
  {
    HtCapabilities.BlocksHold(ns, '\n');
    hide HtCapabilities.Blocks;
  }

  lemma AclOpsApply(cfg: Store, acl: AclMode)
    ensures AppliedAll(cfg, AclOps(acl)) == SyncAclMode(cfg, acl)
    ensures PlainOps(AclOps(acl)) && OneLineOps(AclOps(acl))
  {
    hide Removed, PlainKey;
    PlainNames();
    OneLineNames();
    assert AclOps(acl)[1..] == [];
    assert '\n' !in "0" && '\n' !in "1";
  }

  lemma BasicOpsApply(s: Station)
    ensures AppliedAll(s.ap.cfg, BasicOps(s.basics)) == SyncBasics(s).s.ap.cfg
    ensures PlainOps(BasicOps(s.basics)) && (OneLineBasics(s.basics) ==> OneLineOps(BasicOps(s.basics)))
  {
    hide Puts, AclOps, EarlyPairs, LatePairs, WriteAll, SyncAclMode, PlainOps, OneLineOps, OneLineBasics, WithList;
    var b, cfg := s.basics, s.ap.cfg;
    var early, late, acl := Puts(EarlyPairs(b)), Puts(LatePairs(b)), AclOps(b.acl);
    PutsApply(cfg, EarlyPairs(b));
    EarlyPutsArePlain(b);
    if b.hwMode.ModeUnknown? {
      assert early + [] == early;
    } else {
      var c1 := WriteAll(cfg, EarlyPairs(b));
      PutsApply(c1, LatePairs(b));
      LatePutsArePlain(b);
      AclOpsApply(WriteAll(c1, LatePairs(b)), b.acl);
      AppliedInTurn(c1, late, acl);
      AppliedInTurn(cfg, early, late + acl);
      OpsInTurn(late, acl);
      OpsInTurn(early, late + acl);
    }
  }

  lemma SyncBasicsKeepsAuth(s: Station)
    ensures SyncBasics(s).s.ap.(cfg := s.ap.cfg, files := s.ap.files) == s.ap && SyncBasics(s).s.basics == s.basics
  {
    hide WriteAll, SyncAclMode, WithList;
  }

  /** The operations on the file do to the map what writing all settings is said to do. */
  lemma SyncOpsApply(s: Station)
    ensures AppliedAll(s.ap.cfg, SyncOps(s)) == SyncAll(s).s.ap.cfg && PlainOps(SyncOps(s))
    ensures OneLineBasics(s.basics) && OneLineAuth(s.ap) ==> OneLineOps(SyncOps(s))
  {
    hide BasicOps, SyncAuth, AuthOps, PlainOps, OneLineOps, OneLineBasics, WriteAll, SyncAclMode, WithList;
    BasicOpsApply(s);
    SyncBasicsKeepsAuth(s);
    if s.basics.hwMode.ModeUnknown? {
      assert BasicOps(s.basics) + [] == BasicOps(s.basics);
    } else {
      var ap := SyncBasics(s).s.ap;
      AuthOpsApply(ap);
      AppliedInTurn(s.ap.cfg, BasicOps(s.basics), AuthOps(ap));
      OpsInTurn(BasicOps(s.basics), AuthOps(ap));
    }
  }

  // ---------- Runs ----------

  // The memory, the file as it is in memory, and the lines on the disk
  datatype Machine = Machine(s: Station, file: File, disk: seq<string>)

  // A restart reads the file again. The country comes from elsewhere, and so does the radio mode
  // that stands if none can be read.
  datatype Act = Change(u: Update) | Restart(country: string, held: HwMode)

  function Changed(m: Machine, u: Update): Machine {
    var t := Take(m.s, u);
    if !t.ok then m.(s := t.s) else
      var r, file := SyncAll(t.s), DoAll(m.file, SyncOps(t.s));
      Machine(r.s, file, if r.ok then Lines(Text(file.content)) else m.disk)
  }

  function Step(m: Machine, a: Act): Machine {
    match a
    case Change(u) => Changed(m, u)
    case Restart(country, held) =>
      var ap := Restarted(m.disk, m.s.ap);
      Machine(Station(ap, ReadBasics(ap.cfg, ap.files, country, held)), FileOf(m.disk), m.disk)
  }

  function Run(m: Machine, acts: seq<Act>): Machine
    decreases |acts|
  {
    if acts == [] then m else Run(Step(m, acts[0]), acts[1..])
  }

  ghost predicate Sound(m: Machine) {
    IsTidy(m.file) && m.s.ap.cfg == m.file.values
  }

  lemma TakeKeepsStore(s: Station, u: Update)
    ensures Take(s, u).s.ap.cfg == s.ap.cfg
  {
    HeldIsUnchangedInMemory(s, u);
  }

  /** Every update does to the memory what UpdateCfg says, keeps the file in step with it, and writes
      the file just when it succeeds. */
  lemma ChangeFollows(m: Machine, u: Update)
    requires Sound(m)
    ensures var m' := Changed(m, u);
            && Sound(m') && m'.s == UpdateCfg(m.s, u).s
            && m'.disk == if UpdateCfg(m.s, u).ok then Lines(Text(m'.file.content)) else m.disk
  {
    hide Take, SyncAll, SyncOps, IsTidy, PlainOps, Lines, Text;
    TakeKeepsStore(m.s, u);
    var t := Take(m.s, u);
    if t.ok {
      SyncOpsApply(t.s);
      DoAllFollows(m.file, SyncOps(t.s));
    }
  }

  // The request gives at most four WEP keys, all of which are steady.
  predicate Small(u: Update) {
    u.auth.Some? && u.auth.value.wep.Some? && u.auth.value.wep.value.keys.Some? ==>
      var keys := u.auth.value.wep.value.keys.value; |keys| <= 4 && AllSteady(keys)
  }

  ghost predicate Other(key: string) {
    (forall i: nat :: key != Key(i)) && key !in {"wep_default_key", "wpa"}
  }

  lemma BasicsAreOther(ps: seq<Pair>, b: Basics)
    requires ps == EarlyPairs(b) || ps == LatePairs(b)
    ensures forall i | 0 <= i < |ps| :: Other(ps[i].key)
  {
    hide HwText, HtCapabilities.Blocks, Decimal.PrintInt;
    assert forall i: nat :: Key(i)[0] == 'w';
    assert "wpa"[0] == 'w' && "wep_default_key"[0] == 'w';
    assert forall i | 0 <= i < |ps| :: ps[i].key[0] != 'w';
  }

  lemma OtherKeyKeepsGood(ap: Ap, key: string, value: string)
    requires Good(ap) && Other(key)
    ensures Good(ap.(cfg := ap.cfg[key := value]))
  {
    hide Key, AllSteady;
    var ks :| KeysAre(ap.cfg, ks) && AllSteady(ks) && |ks| <= 4;
    assert KeysAre(ap.cfg[key := value], ks);
  }

  lemma {:induction false} WriteAllKeepsGood(ap: Ap, ps: seq<Pair>)
    requires Good(ap) && forall i | 0 <= i < |ps| :: Other(ps[i].key)
    ensures Good(ap.(cfg := WriteAll(ap.cfg, ps)))
    decreases |ps|
  {
    hide Good, Other;
    if ps != [] {
      OtherKeyKeepsGood(ap, ps[0].key, ps[0].value);
      assert forall i | 0 <= i < |ps[1..]| :: ps[1..][i] == ps[i + 1];
      WriteAllKeepsGood(ap.(cfg := ap.cfg[ps[0].key := ps[0].value]), ps[1..]);
    } else {
      assert ap.(cfg := ap.cfg) == ap;
    }
  }

  lemma RebuiltIsGood(ap: Ap, cfg: Store)
    requires Good(ap) && cfg == Rebuilt(ap.cfg)
    ensures Good(ap.(cfg := cfg))
  {
    hide Key, Reread, Rebuilt, AllSteady, KeysAre;
    var ks :| KeysAre(ap.cfg, ks) && AllSteady(ks) && |ks| <= 4;
    RebuiltKeepsKeys(ap.cfg, ks);
    RebuiltKeeps(ap.cfg, "wep_default_key");
    RebuiltKeeps(ap.cfg, "wpa");
  }

  lemma MacAclIsOther()
    ensures Other("macaddr_acl")
  {
    assert forall i: nat :: Key(i)[0] == 'w';
    assert "macaddr_acl"[0] == 'm' && "wpa"[0] == 'w' && "wep_default_key"[0] == 'w';
  }

  lemma AclKeepsGood(ap: Ap, acl: AclMode)
    requires Good(ap)
    ensures Good(ap.(cfg := SyncAclMode(ap.cfg, acl)))
  {
    hide Good, Rebuilt, Other;
    MacAclIsOther();
    match acl {
      case AclAccept => OtherKeyKeepsGood(ap, "macaddr_acl", "0");
      case AclDeny => OtherKeyKeepsGood(ap, "macaddr_acl", "1");
      case AclNone =>
        if "macaddr_acl" in ap.cfg {
          WithoutOtherIsGood(ap, "macaddr_acl");
          RebuiltIsGood(ap.(cfg := ap.cfg - {"macaddr_acl"}), Rebuilt(ap.cfg - {"macaddr_acl"}));
        } else {
          assert ap.(cfg := ap.cfg) == ap;
        }
    }
  }

  lemma WithoutOtherIsGood(ap: Ap, key: string)
    requires Good(ap) && Other(key)
    ensures Good(ap.(cfg := ap.cfg - {key}))
  {
    hide Key, AllSteady;
    var ks :| KeysAre(ap.cfg, ks) && AllSteady(ks) && |ks| <= 4;
    assert KeysAre(ap.cfg - {key}, ks);
  }

  lemma FilesDoNotMatter(ap: Ap, files: map<string, seq<string>>)
    requires Good(ap)
    ensures Good(ap.(files := files))
  {
  }

  lemma BasicsKeepGood(s: Station)
    requires Good(s.ap)
    ensures Good(SyncBasics(s).s.ap)
  {
    hide Good, Other, WriteAll, SyncAclMode, EarlyPairs, LatePairs, WithList;
    var b := s.basics;
    BasicsAreOther(EarlyPairs(b), b);
    WriteAllKeepsGood(s.ap, EarlyPairs(b));
    var early := s.ap.(cfg := WriteAll(s.ap.cfg, EarlyPairs(b)));
    BasicsAreOther(LatePairs(b), b);
    WriteAllKeepsGood(early, LatePairs(b));
    var late := early.(cfg := WriteAll(early.cfg, LatePairs(b)));
    AclKeepsGood(late, b.acl);
    FilesDoNotMatter(late.(cfg := SyncAclMode(late.cfg, b.acl)), SyncBasics(s).s.ap.files);
  }

  // What is in memory once the request has been taken over
  predicate TakesFew(s: Station, u: Update) {
    var keys := Take(s, u).s.ap.wepKeys; |keys| <= 4 && AllSteady(keys)
  }

  lemma SmallTakesFew(s: Station, u: Update)
    requires Good(s.ap) && Small(u)
    ensures TakesFew(s, u)
  {
    hide KeysFrom, OneMode, Steady, TakeBasics;
  }

  lemma TakeKeepsGood(s: Station, u: Update)
    requires Good(s.ap) && TakesFew(s, u)
    ensures Good(Take(s, u).s.ap)
  {
    hide KeysFrom, OneMode, Steady, Take;
    TakeKeepsStore(s, u);
  }

  lemma GoodHasFew(ap: Ap)
    requires Good(ap)
    ensures |ap.wepKeys| <= 4 && AllSteady(ap.wepKeys)
  {
  }

  /** An update keeps it exactly when no more than four steady keys are in memory once the request
      has been taken over. */
  lemma UpdateKeepsGoodExactly(s: Station, u: Update)
    requires Good(s.ap)
    ensures Good(UpdateCfg(s, u).s.ap) <==> TakesFew(s, u)
  {
    hide Good, Take, SyncBasics, SyncAuth, AllSteady;
    var t := Take(s, u);
    if TakesFew(s, u) {
      TakeKeepsGood(s, u);
      if t.ok {
        BasicsKeepGood(t.s);
        SyncKeepsGood(SyncBasics(t.s).s.ap);
      }
    }
    if Good(UpdateCfg(s, u).s.ap) {
      GoodHasFew(UpdateCfg(s, u).s.ap);
      SyncAllKeepsMemory(t.s);
    }
  }

  lemma UpdateKeepsGood(s: Station, u: Update)
    requires Good(s.ap) && Small(u)
    ensures Good(UpdateCfg(s, u).s.ap)
  {
    hide Good, TakesFew;
    SmallTakesFew(s, u);
    UpdateKeepsGoodExactly(s, u);
  }

  predicate NoRestart(acts: seq<Act>) {
    forall i | 0 <= i < |acts| :: acts[i].Change?
  }

  /** Over every run of updates with at most four keys that are not empty, hold no `=` and have no
      outer spaces, the stored keys stay contiguous and at most four. */
  lemma {:induction false} RunKeepsGood(m: Machine, acts: seq<Act>)
    requires Sound(m) && Good(m.s.ap) && NoRestart(acts) && forall i | 0 <= i < |acts| :: Small(acts[i].u)
    ensures Good(Run(m, acts).s.ap)
    decreases |acts|
  {
    hide Good, Small, UpdateCfg, Changed, Sound;
    if acts != [] {
      ChangeFollows(m, acts[0].u);
      UpdateKeepsGood(m.s, acts[0].u);
      assert forall i | 0 <= i < |acts[1..]| :: acts[1..][i] == acts[i + 1];
      RunKeepsGood(Step(m, acts[0]), acts[1..]);
    }
  }

  lemma {:induction false} WriteAllKeepsOneMode(cfg: Store, ps: seq<Pair>)
    requires OneMode(cfg) && forall i | 0 <= i < |ps| :: Other(ps[i].key)
    ensures OneMode(WriteAll(cfg, ps))
    decreases |ps|
  {
    hide Key;
    if ps != [] {
      assert forall i | 0 <= i < |ps[1..]| :: ps[1..][i] == ps[i + 1];
      WriteAllKeepsOneMode(cfg[ps[0].key := ps[0].value], ps[1..]);
    }
  }

  lemma AclKeepsOneMode(cfg: Store, acl: AclMode)
    requires OneMode(cfg)
    ensures OneMode(SyncAclMode(cfg, acl))
  {
    hide Reread;
    assert "macaddr_acl"[0] == 'm' && "wpa"[0] == 'w' && "wep_default_key"[0] == 'w';
  }

  lemma UpdateKeepsOneMode(s: Station, u: Update)
    requires OneMode(s.ap.cfg)
    ensures OneMode(UpdateCfg(s, u).s.ap.cfg)
  {
    hide Take, OneMode, Other, WriteAll, SyncAclMode, EarlyPairs, LatePairs, WithList, SyncAuth;
    var t := Take(s, u).s;
    TakeKeepsStore(s, u);
    BasicsAreOther(EarlyPairs(t.basics), t.basics);
    WriteAllKeepsOneMode(t.ap.cfg, EarlyPairs(t.basics));
    var early := WriteAll(t.ap.cfg, EarlyPairs(t.basics));
    BasicsAreOther(LatePairs(t.basics), t.basics);
    WriteAllKeepsOneMode(early, LatePairs(t.basics));
    AclKeepsOneMode(WriteAll(early, LatePairs(t.basics)), t.basics.acl);
    if SyncBasics(t).ok {
      SyncKeepsOneMode(SyncBasics(t).s.ap);
    }
  }

  /** Whatever the updates, empty keys, keys with `=` or newlines and more than four of them
      included, a WEP default key and a WPA mode are never both stored, until the file is read
      again. */
  lemma {:induction false} RunKeepsOneMode(m: Machine, acts: seq<Act>)
    requires Sound(m) && OneMode(m.s.ap.cfg) && NoRestart(acts)
    ensures OneMode(Run(m, acts).s.ap.cfg)
    decreases |acts|
  {
    hide Changed, OneMode, Sound, UpdateCfg;
    if acts != [] {
      ChangeFollows(m, acts[0].u);
      UpdateKeepsOneMode(m.s, acts[0].u);
      RunKeepsOneMode(Step(m, acts[0]), acts[1..]);
    }
  }

  // ---------- Restarts ----------

  // Everything that is written is single lines.
  predicate OneLineMemory(s: Station) {
    && OneLineBasics(s.basics) && OneLiners(s.ap.wepKeys)
    && (s.ap.wpaKeys != [] ==> '\n' !in s.ap.wpaKeys[0])
  }

  predicate OneLineUpdate(u: Update) {
    && (u.ssid.Some? ==> '\n' !in u.ssid.value) && (u.interface.Some? ==> '\n' !in u.interface.value)
    && (u.country.Some? ==> '\n' !in u.country.value) && (u.capabilities.Some? ==> OneLiners(u.capabilities.value))
    && (u.auth.Some? ==> OneLineAuthPart(u.auth.value))
  }

  predicate OneLineAuthPart(val: AuthPart) {
    && (val.wep.Some? && val.wep.value.keys.Some? ==> OneLiners(val.wep.value.keys.value))
    && (val.wpa.Some? && val.wpa.value.keys.Some? && val.wpa.value.keys.value != [] ==>
          '\n' !in val.wpa.value.keys.value[0])
  }

  // The files, in memory and on the disk, are single lines, and each key is on one of them.
  ghost predicate OneLineMachine(m: Machine) {
    && Sound(m) && OneLineMemory(m.s) && OneLiners(m.file.content)
    && OneLiners(m.disk) && NoKeyTwice(m.disk)
  }

  predicate OneLineAct(a: Act) {
    match a
    case Change(u) => OneLineUpdate(u)
    case Restart(country, _) => '\n' !in country
  }

  lemma TakeBasicsKeepsOneLine(b: Basics, u: Update)
    requires OneLineBasics(b) && OneLineUpdate(u)
    ensures OneLineBasics(TakeBasics(b, u).basics)
  {
    hide OneLiners, OneLineAuthPart, HwModeOf, AclModeOf;
  }

  lemma JsonKeepsOneLine(ap: Ap, val: AuthPart)
    requires OneLiners(ap.wepKeys) && (ap.wpaKeys != [] ==> '\n' !in ap.wpaKeys[0]) && OneLineAuthPart(val)
    ensures var r := JsonToAuth(ap, val).ap;
            OneLiners(r.wepKeys) && (r.wpaKeys != [] ==> '\n' !in r.wpaKeys[0])
  {
    hide OneLiners;
  }

  lemma TakeKeepsOneLine(s: Station, u: Update)
    requires OneLineMemory(s) && OneLineUpdate(u)
    ensures OneLineMemory(Take(s, u).s)
  {
    hide OneLineBasics, OneLiners, TakeBasics, JsonToAuth, OneLineAuthPart;
    TakeBasicsKeepsOneLine(s.basics, u);
    if u.auth.Some? {
      JsonKeepsOneLine(s.ap, u.auth.value);
    }
  }

  lemma MemoryOfUpdate(s: Station, u: Update)
    requires OneLineMemory(s) && OneLineUpdate(u)
    ensures OneLineMemory(UpdateCfg(s, u).s)
  {
    hide OneLineBasics, OneLiners, Take, SyncAll, OneLineUpdate;
    TakeKeepsOneLine(s, u);
    SyncAllKeepsMemory(Take(s, u).s);
  }

  lemma ChangeKeepsOneLine(m: Machine, u: Update)
    requires OneLineMachine(m) && OneLineUpdate(u)
    ensures var m' := Changed(m, u);
            && OneLineMachine(m')
            && (UpdateCfg(m.s, u).ok ==> Values(m'.disk) == Rebuilt(m'.file.values))
            && (!UpdateCfg(m.s, u).ok ==> m'.disk == m.disk)
  {
    hide Take, SyncAll, SyncOps, IsTidy, PlainOps, OneLineOps, Lines, Text, OneLiners, Values, Rebuilt, OneLineBasics, OneLineUpdate, NoKeyTwice;
    ChangeFollows(m, u);
    MemoryOfUpdate(m.s, u);
    TakeKeepsStore(m.s, u);
    TakeKeepsOneLine(m.s, u);
    var t, m' := Take(m.s, u), Changed(m, u);
    if t.ok {
      SyncOpsApply(t.s);
      DoAllFollows(m.file, SyncOps(t.s));
      assert OneLiners(m'.file.content);
      TidyRereads(m'.file);
      TextIsRead(m'.file.content);
    }
  }

  lemma TidyRereads(f: File)
    requires IsTidy(f) && OneLiners(f.content)
    ensures NoKeyTwice(Lines(Text(f.content))) && Values(Lines(Text(f.content))) == Rebuilt(f.values)
  {
    FileRereads(f.content, f.values, f.index);
  }

  lemma {:induction false} FoundIsOneLine(names: seq<string>, text: string)
    requires OneLiners(names)
    ensures OneLiners(HtCapabilities.Found(names, text))
  {
    hide HtCapabilities.Contains, HtCapabilities.Block;
    if names != [] {
      assert forall i | 0 <= i < |names[1..]| :: names[1..][i] == names[i + 1];
      FoundIsOneLine(names[1..], text);
    }
  }

  lemma KnownIsOneLine()
    ensures OneLiners(HtCapabilities.KNOWN)
  {
  }

  lemma ReadBasicsAreOneLine(lines: seq<string>, files: map<string, seq<string>>, country: string, held: HwMode)
    requires OneLiners(lines) && '\n' !in country
    ensures OneLineBasics(ReadBasics(Values(lines), files, country, held))
  {
    hide OneLiners, Values, Lines, Text, HtCapabilities.Found, HtCapabilities.StoredText, Decimal.Atoi;
    ReadValuesAreOneLine(lines);
    KnownIsOneLine();
    FoundIsOneLine(HtCapabilities.KNOWN, HtCapabilities.StoredText(Values(lines)));
  }

  lemma RestartKeepsOneLine(m: Machine, country: string, held: HwMode)
    requires OneLineMachine(m) && '\n' !in country
    ensures OneLineMachine(Step(m, Restart(country, held)))
  {
    hide OneLiners, Values, Places, NoKeyTwice, OneLineBasics, Lines, Text, InStep, ReadBasics;
    ReadIsInStep(m.disk);
    RestartReadsOneLiners(m.disk, m.s.ap);
    RestartKeepsStore(m.disk, m.s.ap);
    ReadBasicsAreOneLine(m.disk, m.s.ap.files, country, held);
    var ks := Restarted(m.disk, m.s.ap).wpaKeys;
    if ks != [] {
      FirstIsOneLine(ks);
    }
  }

  lemma RestartKeepsStore(lines: seq<string>, ap: Ap)
    ensures Restarted(lines, ap).cfg == Values(lines) && Restarted(lines, ap).files == ap.files
  {
    hide ReadFrom, Values, Decimal.Atoi, MoreKeys;
  }

  /** Over every run of updates whose values are single lines, and of restarts in between, a WEP
      default key and a WPA mode are never both stored, in memory or on the disk. */
  lemma {:induction false} RestartsKeepOneMode(m: Machine, acts: seq<Act>)
    requires OneLineMachine(m) && OneMode(m.s.ap.cfg) && OneMode(Values(m.disk))
    requires forall i | 0 <= i < |acts| :: OneLineAct(acts[i])
    ensures OneMode(Run(m, acts).s.ap.cfg) && OneMode(Values(Run(m, acts).disk))
    decreases |acts|
  {
    hide Changed, OneLineMachine, OneMode, UpdateCfg, OneLineUpdate, OneLineBasics, Values, Restarted;
    if acts != [] {
      StepKeepsBothModes(m, acts[0]);
      assert forall i | 0 <= i < |acts[1..]| :: acts[1..][i] == acts[i + 1];
      RestartsKeepOneMode(Step(m, acts[0]), acts[1..]);
    }
  }

  lemma StepKeepsBothModes(m: Machine, a: Act)
    requires OneLineMachine(m) && OneMode(m.s.ap.cfg) && OneMode(Values(m.disk)) && OneLineAct(a)
    ensures var m' := Step(m, a); OneLineMachine(m') && OneMode(m'.s.ap.cfg) && OneMode(Values(m'.disk))
  {
    hide Changed, OneMode, UpdateCfg, OneLineUpdate, OneLineBasics, Values, Restarted, Rebuilt, ReadBasics, OneLiners, NoKeyTwice, IsTidy, FileOf;
    match a {
      case Change(u) =>
        ChangeFollows(m, u);
        ChangeKeepsOneLine(m, u);
        UpdateKeepsOneMode(m.s, u);
        RebuiltKeepsOneMode(Changed(m, u).file.values);
      case Restart(country, held) =>
        RestartKeepsOneLine(m, country, held);
        RestartKeepsStore(m.disk, m.s.ap);
    }
  }

  lemma RebuiltKeepsOneMode(cfg: Store)
    requires OneMode(cfg)
    ensures OneMode(Rebuilt(cfg))
  {
    hide Reread;
  }

  /** Over every such run with at most four keys that last, the stored keys stay contiguous and at
      most four, in memory and on the disk. */
  lemma {:induction false} RestartsKeepGood(m: Machine, acts: seq<Act>)
    requires OneLineMachine(m) && Good(m.s.ap) && GoodStore(Values(m.disk))
    requires forall i | 0 <= i < |acts| :: OneLineAct(acts[i]) && (acts[i].Change? ==> Small(acts[i].u))
    ensures Good(Run(m, acts).s.ap) && GoodStore(Values(Run(m, acts).disk))
    decreases |acts|
  {
    hide Changed, OneLineMachine, Good, GoodStore, Small, UpdateCfg, OneLineUpdate, OneLineBasics, Values, Restarted;
    if acts != [] {
      StepKeepsBothGood(m, acts[0]);
      assert forall i | 0 <= i < |acts[1..]| :: acts[1..][i] == acts[i + 1];
      RestartsKeepGood(Step(m, acts[0]), acts[1..]);
    }
  }

  lemma StepKeepsBothGood(m: Machine, a: Act)
    requires OneLineMachine(m) && Good(m.s.ap) && GoodStore(Values(m.disk)) && OneLineAct(a) && (a.Change? ==> Small(a.u))
    ensures var m' := Step(m, a); OneLineMachine(m') && Good(m'.s.ap) && GoodStore(Values(m'.disk))
  {
    hide Changed, Good, GoodStore, Small, UpdateCfg, OneLineUpdate, OneLineBasics, Values, Restarted, Rebuilt, ReadBasics, OneLiners, NoKeyTwice, IsTidy, FileOf;
    match a {
      case Change(u) =>
        ChangeFollows(m, u);
        ChangeKeepsOneLine(m, u);
        UpdateKeepsGood(m.s, u);
        GoodHasGoodStore(Changed(m, u).s.ap);
        RebuiltIsGoodStore(Changed(m, u).file.values);
      case Restart(country, held) =>
        RestartKeepsOneLine(m, country, held);
        RestartedIsGood(m.disk, m.s.ap);
    }
  }

  lemma GoodHasGoodStore(ap: Ap)
    requires Good(ap)
    ensures GoodStore(ap.cfg)
  {
    hide KeysFrom, Steady, OneMode;
  }

  /** What a restart finds when values do hold newlines: both modes exactly when the keys of both are
      among the pieces into which the newlines cut the lines of the file. */
  lemma BothModesExactlyWhenAmong(content: seq<string>)
    ensures OneMode(Values(Lines(Text(content)))) <==>
              !(Among(content, "wep_default_key") && Among(content, "wpa"))
  {
    hide Values, Lines, Text, Among;
    ReadKeysAreThosePieces(content, "wep_default_key");
    ReadKeysAreThosePieces(content, "wpa");
  }

  const TWO_LINES := "x\nwpa=2"

  /** So one update can bring it about: in WEP mode, an ssid of two lines the second of which sets a
      WPA mode. In memory all is well; after a restart both are there. */
  lemma SsidBringsBothModes(m: Machine, country: string, held: HwMode)
    requires Sound(m) && OneMode(m.s.ap.cfg)
    requires m.s.ap.mode.AuthWep? && m.s.ap.wepKeys != [] && !m.s.basics.hwMode.ModeUnknown?
    ensures var m' := Changed(m, NOTHING.(ssid := Some(TWO_LINES)));
            && OneMode(m'.s.ap.cfg)
            && !OneMode(Step(m', Restart(country, held)).s.ap.cfg)
  {
    hide ReadBasics, OneMode, SyncOps, IsTidy, Lines, Text, Among, Values, UpdateCfg, FileOf, Restarted;
    var u := NOTHING.(ssid := Some(TWO_LINES));
    ChangeFollows(m, u);
    UpdateKeepsOneMode(m.s, u);
    var m' := Changed(m, u);
    SsidIsSaved(m, u);
    SsidIsAmong(m, u);
    BothModesExactlyWhenAmong(m'.file.content);
    RestartKeepsStore(m'.disk, m'.s.ap);
  }

  lemma SsidIsSaved(m: Machine, u: Update)
    requires m.s.ap.mode.AuthWep? && m.s.ap.wepKeys != [] && !m.s.basics.hwMode.ModeUnknown?
    requires u == NOTHING.(ssid := Some(TWO_LINES))
    ensures var t := Take(m.s, u);
            && t == Outcome(m.s.(basics := m.s.basics.(ssid := TWO_LINES)), true)
            && SyncAll(t.s).ok && UpdateCfg(m.s, u).ok
  {
    hide WriteAll, SyncAclMode, WithList, SyncWep, EarlyPairs, LatePairs;
  }

  lemma SsidIsAmong(m: Machine, u: Update)
    requires Sound(m)
    requires m.s.ap.mode.AuthWep? && m.s.ap.wepKeys != [] && !m.s.basics.hwMode.ModeUnknown?
    requires u == NOTHING.(ssid := Some(TWO_LINES))
    ensures var content := Changed(m, u).file.content; Among(content, "wep_default_key") && Among(content, "wpa")
  {
    hide IsTidy, SyncOps, SyncAll, Take, Holds, Pieces, KeyIn, Lines, Text, Among, PlainOps, DoAll;
    SsidIsSaved(m, u);
    var s := Take(m.s, u).s;
    TakeKeepsStore(m.s, u);
    SyncOpsApply(s);
    var f := Changed(m, u).file;
    assert f == DoAll(m.file, SyncOps(s));
    SsidLineIsThere(m.file, s);
    SsidPieces();
    HeldPieceIsAmong(f, Line("ssid", TWO_LINES), "ssid", "wpa");
    var number := Decimal.PrintInt(s.ap.wepDefault);
    DefaultLineIsThere(m.file, s);
    DefaultPieces(s.ap.wepDefault);
    HeldPieceIsAmong(f, Line("wep_default_key", number), "wep_default_key", "wep_default_key");
  }

  lemma SsidPieces()
    ensures KeyIn(Pieces(Line("ssid", TWO_LINES)), "wpa")
    ensures ParseLine(Line("ssid", TWO_LINES)) == None
  {
    hide Lines, ParseLine, Pieces;
    var line := Line("ssid", TWO_LINES);
    assert line + "\n" == "ssid=x" + "\n" + ("wpa=2" + "\n" + "");
    FirstLine("ssid=x", "wpa=2" + "\n" + "");
    FirstLine("wpa=2", "");
    FirstLineOfNothing();
    PiecesAre(line);
    assert Pieces(line) == ["ssid=x", "wpa=2"];
    PlainEarlyNames();
    LineIsReread("ssid", TWO_LINES);
    assert TWO_LINES[5] == '=';
    PlainNames();
    LineIsReread("wpa", "2");
    TrimIsTrimmed("2");
    assert Line("wpa", "2") == "wpa=2";
    assert KeyAt(Pieces(line), 1) == Some("wpa");
  }

  lemma DefaultPieces(n: int)
    ensures var line := Line("wep_default_key", Decimal.PrintInt(n));
            && KeyIn(Pieces(line), "wep_default_key")
            && ParseLine(line).Some? && ParseLine(line).value.key == "wep_default_key"
  {
    hide Lines, ParseLine, Decimal.PrintInt, Reread;
    var line := Line("wep_default_key", Decimal.PrintInt(n));
    PlainNames();
    OneLineNames();
    NumberIsOneLine(n);
    NumberIsPlain(n);
    LineIsReread("wep_default_key", Decimal.PrintInt(n));
    LineIsOneLine("wep_default_key", Decimal.PrintInt(n));
    FirstLine(line, "");
    FirstLineOfNothing();
    assert line + "\n" + "" == line + "\n";
    PiecesAre(line);
    assert KeyAt(Pieces(line), 0) == Some("wep_default_key");
  }

  lemma SsidLineIsThere(f: File, s: Station)
    requires IsTidy(f) && s.basics.ssid == TWO_LINES && PlainOps(SyncOps(s))
    ensures Holds(DoAll(f, SyncOps(s)), Line("ssid", TWO_LINES), "ssid")
  {
    hide IsTidy, Holds, Line, ParseLine, Do, PlainKey;
    var ops, put := SyncOps(s), Put("ssid", TWO_LINES);
    NoOtherSsid(s);
    assert ops == [put] + ops[1..];
    PlainEarlyNames();
    DoFollows(f, put);
    PutHolds(f, "ssid", TWO_LINES);
    SsidPieces();
    assert PlainOps(ops[1..]) by { assert forall i | 0 <= i < |ops[1..]| :: ops[1..][i] == ops[i + 1]; }
    LineStays(Do(f, put), Line("ssid", TWO_LINES), "ssid", ops[1..]);
    assert DoAll(f, ops) == DoAll(Do(f, put), ops[1..]);
  }

  lemma NoOtherSsid(s: Station)
    requires s.basics.ssid == TWO_LINES
    ensures var ops := SyncOps(s);
            ops != [] && ops[0] == Put("ssid", TWO_LINES) && forall i | 0 <= i < |ops[1..]| :: ops[1..][i].key != "ssid"
  {
    hide AuthOps, SyncBasics, BasicOps;
    var ap, basic, ops := SyncBasics(s).s.ap, BasicOps(s.basics), SyncOps(s);
    BasicSsidIsFirst(s.basics);
    NoAuthSsid(ap);
    assert forall i | 1 <= i < |ops| :: ops[i].key != "ssid" by {
      assert forall i | |basic| <= i < |ops| :: ops[i] == AuthOps(ap)[i - |basic|];
    }
    assert forall i | 0 <= i < |ops[1..]| :: ops[1..][i] == ops[i + 1];
  }

  lemma NoAuthSsid(ap: Ap)
    ensures forall i | 0 <= i < |AuthOps(ap)| :: AuthOps(ap)[i].key != "ssid"
  {
    assert forall j: nat :: Key(j)[0] == 'w';
    AuthKeysAreKnown(ap);
    hide Key, AuthOps;
    assert "ssid"[0] == 's' && "wep_default_key"[0] == 'w' && "wpa"[0] == 'w' && "wpa_passphrase"[0] == 'w';
  }

  lemma BasicSsidIsFirst(b: Basics)
    requires b.ssid == TWO_LINES
    ensures var ops := BasicOps(b);
            ops != [] && ops[0] == Put("ssid", TWO_LINES) && forall i | 1 <= i < |ops| :: ops[i].key != "ssid"
  {
    hide HtCapabilities.Blocks, Decimal.PrintInt, HwText;
    assert EarlyPairs(b)[0] == Pair("ssid", TWO_LINES);
    assert forall i | 1 <= i < |EarlyPairs(b)| :: EarlyPairs(b)[i].key in {"interface", "country_code"};
    assert "interface"[0] == 'i' && "country_code"[0] == 'c' && "ssid"[0] == 's' && "macaddr_acl"[0] == 'm';
    assert "hw_mode"[0] == 'h' && "ht_capab"[0] == 'h' && "ieee80211n"[0] == 'i' && "channel"[0] == 'c' && "ignore_broadcast_ssid"[0] == 'i';
  }

  lemma {:induction false} ErasesNumbered(cfg: Store, i: nat)
    ensures forall k | 0 <= k < |EraseOps(cfg, i)| :: exists j: nat :: EraseOps(cfg, i)[k].key == Key(j)
    decreases |cfg|
  {
    hide Key, Removed;
    if Val(cfg, Key(i)) != "" {
      RemovedIsSmaller(cfg, Key(i));
      var rest := EraseOps(Removed(cfg, Key(i)), i + 1);
      ErasesNumbered(Removed(cfg, Key(i)), i + 1);
      assert EraseOps(cfg, i) == [Drop(Key(i))] + rest;
      forall k | 0 <= k < |EraseOps(cfg, i)| ensures exists j: nat :: EraseOps(cfg, i)[k].key == Key(j) {
        if k > 0 {
          assert EraseOps(cfg, i)[k] == rest[k - 1];
        }
      }
    }
  }

  lemma AuthKeysAreKnown(ap: Ap)
    ensures forall i | 0 <= i < |AuthOps(ap)| ::
              AuthOps(ap)[i].key in {"wep_default_key", "wpa", "wpa_passphrase"} || exists j: nat :: AuthOps(ap)[i].key == Key(j)
  {
    hide EraseOps, Removed, RemovedAll, Decimal.PrintInt, WpaText, Key;
    FourAreKeys();
    assert WPA == ["wpa", "wpa_passphrase"];
    if ap.mode.AuthWep? {
      ErasesNumbered(Applied(RemovedAll(ap.cfg, WPA), Put("wep_default_key", Decimal.PrintInt(ap.wepDefault))), 0);
    }
  }

  lemma DefaultLineIsThere(f: File, s: Station)
    requires IsTidy(f) && PlainOps(SyncOps(s))
    requires s.ap.mode.AuthWep? && s.ap.wepKeys != [] && !s.basics.hwMode.ModeUnknown?
    ensures Holds(DoAll(f, SyncOps(s)), Line("wep_default_key", Decimal.PrintInt(s.ap.wepDefault)), "wep_default_key")
  {
    hide IsTidy, Holds, Line, ParseLine, Do, PlainKey, BasicOps, EraseOps, AddOps, Drops, SyncBasics, Decimal.PrintInt, DoAll, RemovedAll;
    SyncBasicsKeepsAuth(s);
    var ap, number := SyncBasics(s).s.ap, Decimal.PrintInt(s.ap.wepDefault);
    var put := Put("wep_default_key", number);
    var pre := BasicOps(s.basics) + Drops(WPA);
    var post := EraseOps(Applied(RemovedAll(ap.cfg, WPA), put), 0) + AddOps(ap.wepKeys);
    var ops := SyncOps(s);
    assert ops == pre + ([put] + post);
    OpsAreParts(pre, put, post);
    DoAllInTurn(f, pre, [put] + post);
    DoAllFollows(f, pre);
    var g := DoAll(f, pre);
    PutFirst(g, put, post);
    DoFollows(g, put);
    PutHolds(g, "wep_default_key", number);
    DefaultPieces(s.ap.wepDefault);
    PostIsNumbered(Applied(RemovedAll(ap.cfg, WPA), put), ap.wepKeys, post);
    LineStays(Do(g, put), Line("wep_default_key", number), "wep_default_key", post);
  }

  lemma OpsAreParts(pre: seq<Op>, put: Op, post: seq<Op>)
    requires PlainOps(pre + ([put] + post))
    ensures PlainOps(pre) && PlainOps(post) && (put.Put? ==> PlainKey(put.key))
  {
    hide PlainKey;
    var all := pre + ([put] + post);
    assert forall i | 0 <= i < |pre| :: pre[i] == all[i];
    assert all[|pre|] == put;
    forall i | 0 <= i < |post| && post[i].Put? ensures PlainKey(post[i].key) {
      assert all[|pre| + 1 + i] == post[i];
    }
  }

  lemma PutFirst(f: File, put: Op, post: seq<Op>)
    ensures DoAll(f, [put] + post) == DoAll(Do(f, put), post)
  {
    hide Do;
    assert ([put] + post)[1..] == post;
  }

  lemma PostIsNumbered(cfg: Store, keys: seq<string>, post: seq<Op>)
    requires post == EraseOps(cfg, 0) + AddOps(keys)
    ensures forall i | 0 <= i < |post| :: post[i].key != "wep_default_key"
  {
    hide Key, EraseOps;
    KeysAreDistinct();
    ErasesNumbered(cfg, 0);
  }

  /** A refused request leaves its WEP values in memory, and the next update of anything else
      stores them: here a default key that was out of range. */
  lemma RefusedDefaultIsStoredLater(s: Station, n: int, was: seq<string>)
    requires s.ap.mode == AuthWep && s.ap.wepKeys != [] && !(0 <= n <= |s.ap.wepKeys|)
    requires !s.basics.hwMode.ModeUnknown? && KeysAre(SyncBasics(s).s.ap.cfg, was)
    ensures var refused := UpdateCfg(s, NOTHING.(auth := Some(AuthPart(Some("wep"), Some(WepPart(Some(n), None)), None))));
            var next := UpdateCfg(refused.s, NOTHING);
            !refused.ok && refused.s.ap.cfg == s.ap.cfg && next.ok
            && Val(next.s.ap.cfg, "wep_default_key") == Decimal.PrintInt(n)
  {
    hide WriteAll, SyncAclMode, WithList, SyncWep, RemovedAll, EarlyPairs, LatePairs, Decimal.PrintInt, KeysAre;
    var s1 := s.(ap := s.ap.(wepDefault := n));
    assert SyncBasics(s1).s.ap.cfg == SyncBasics(s).s.ap.cfg;
    SyncWepOverwrites(SyncBasics(s1).s.ap.cfg, n, s.ap.wepKeys, was);
  }
}
