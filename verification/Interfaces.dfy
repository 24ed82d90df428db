/** Network interfaces over the shared store of their settings: an object reads its profile
    from the store, and writes a profile back to it. */
module Interfaces {
  import opened Wrappers
  import opened Strings

  // ---------- JSON values ----------

  datatype Json =
    | Null
    | Bool(b: bool)
    | Num(n: int)
    | Str(s: string)
    | Arr(items: seq<Json>)
    | Obj(members: map<string, Json>)

  // The library aborts when a member of any other value is asked for.
  predicate Structured(j: Json) {
    j.Null? || j.Obj?
  }

  // isArray, for which null is an array, too
  predicate IsArray(j: Json) {
    j.Null? || j.Arr?
  }

  predicate Has(j: Json, key: string) {
    j.Obj? && key in j.members
  }

  function Member(j: Json, key: string): Json {
    if Has(j, key) then j.members[key] else Null
  }

  function With(j: Json, key: string, v: Json): Json {
    Obj((if j.Obj? then j.members else map[])[key := v])
  }

  function Without(j: Json, key: string): Json {
    if j.Obj? then Obj(j.members - {key}) else j
  }

  // JsonUtils: the strings of an array, anything else in it being dropped
  function StringsOf(j: Json): seq<string> {
    if j.Arr? then StringItems(j.items) else []
  }

  function StringItems(items: seq<Json>): seq<string> {
    if items == [] then [] else (if items[0].Str? then [items[0].s] else []) + StringItems(items[1..])
  }

  /** The strings of a list are those among its items, each as often; the rest is dropped. */
  lemma {:induction false} StringsAreItems(items: seq<Json>, s: string)
    ensures multiset(StringItems(items))[s] == multiset(items)[Str(s)]
  {
    if items != [] {
      StringsAreItems(items[1..], s);
      assert items == [items[0]] + items[1..];
    }
  }

  function ArrayOf(ss: seq<string>): Json {
    Arr(seq(|ss|, i requires 0 <= i < |ss| => Str(ss[i])))
  }

  lemma {:induction false} StringsRoundTrip(ss: seq<string>)
    ensures StringsOf(ArrayOf(ss)) == ss
  {
    if ss != [] {
      StringsRoundTrip(ss[1..]);
      assert ArrayOf(ss).items[1..] == ArrayOf(ss[1..]).items;
    }
  }

  // ---------- The store ----------

  // An interface is raw when the store holds no addressing for it.
  datatype Entry = Entry(addressing: Option<string>, options: Json, auto: bool)

  type Store = map<string, Entry>

  datatype Kind = Ether | Wlan | Bridge

  datatype Profile = NoProfile | EthRaw | EthStatic | EthDynamic | BridgeStatic | BridgeDynamic | BridgeRaw

  // In the order of the enumeration, in which a std::map runs through them
  const PROFILES := [NoProfile, EthRaw, EthStatic, EthDynamic, BridgeStatic, BridgeDynamic, BridgeRaw]

  datatype Config = Config(addressing: string, config: Json, auto: bool)

  datatype Error =
    | DeviceNotFound
    | UnknownInterface
    | UnsupportedProfile
    | Missing(parameter: string)
    | NotArray(parameter: string)
    | NotConvertible
    | NoConfigToUpdate
    | LibraryStops  // an assertion of the JSON library ends the program

  function EntryAt(store: Store, name: string): Entry {
    if name in store then store[name] else Entry(None, Null, false)
  }

  function RawOf(kind: Kind): Profile {
    if kind.Bridge? then BridgeRaw else EthRaw
  }

  function StaticOf(kind: Kind): Profile {
    if kind.Bridge? then BridgeStatic else EthStatic
  }

  function DynamicOf(kind: Kind): Profile {
    if kind.Bridge? then BridgeDynamic else EthDynamic
  }

  function ProfileOf(kind: Kind, e: Entry): Profile {
    if e.addressing.None? then RawOf(kind)
    else if e.addressing.value == "static" then StaticOf(kind)
    else if e.addressing.value == "dhcp" then DynamicOf(kind)
    else NoProfile
  }

  function ConfigOf(e: Entry): Config {
    if e.addressing.None? then Config("raw", Null, false)
    else Config(e.addressing.value, if e.addressing.value in {"static", "dhcp"} then e.options else Null, e.auto)
  }

  // A bridge keeps its ports sorted and without duplicates.
  function SavedOptions(kind: Kind, config: Json): Json {
    if kind.Bridge? && Has(config, "bridge_ports") then
      With(config, "bridge_ports", ArrayOf(SortUnique(StringsOf(Member(config, "bridge_ports")))))
    else config
  }

  function Saved(kind: Kind, name: string, store: Store, profile: Profile, c: Config): Result<Store, Error> {
    if profile == StaticOf(kind) || profile == DynamicOf(kind) then
      Ok(store[name := Entry(Some(c.addressing), SavedOptions(kind, c.config), c.auto)])
    else if profile == RawOf(kind) then Ok(store - {name})
    else Err(UnsupportedProfile)
  }

  // The loop over the profiles of a map, in the given order
  function SavedAll(kind: Kind, name: string, store: Store, cfgs: map<Profile, Config>, ps: seq<Profile>)
    : Result<Store, Error>
    decreases |ps|
  {
    if ps == [] then Ok(store)
    else if ps[0] !in cfgs then SavedAll(kind, name, store, cfgs, ps[1..])
    else
      match Saved(kind, name, store, ps[0], cfgs[ps[0]])
      case Err(e) => Err(e)
      case Ok(s) => SavedAll(kind, name, s, cfgs, ps[1..])
  }

  lemma {:induction false} SavedOne(kind: Kind, name: string, store: Store, p: Profile, c: Config, ps: seq<Profile>)
    requires forall i, j | 0 <= i < j < |ps| :: ps[i] != ps[j]
    ensures SavedAll(kind, name, store, map[p := c], ps)
         == if p in ps then Saved(kind, name, store, p, c) else Ok(store)
    decreases |ps|
  {
    hide Saved;
    if ps != [] {
      assert p in ps <==> p == ps[0] || p in ps[1..];
      match Saved(kind, name, store, p, c)
      case Err(_) => SavedOne(kind, name, store, p, c, ps[1..]);
      case Ok(s) => SavedOne(kind, name, s, p, c, ps[1..]); SavedOne(kind, name, store, p, c, ps[1..]);
    }
  }

  class InterfacesCfg {
    var cfg: Store

    constructor (cfg: Store)
      ensures this.cfg == cfg
    {
      this.cfg := cfg;
    }
  }

  // EthernetInterface and BridgeInterface, whose methods differ in the ports and the profiles
  class Interface {
    const name: string
    const kind: Kind
    const icfg: InterfacesCfg
    var configs: map<Profile, Config>

    constructor (name: string, kind: Kind, icfg: InterfacesCfg)
      ensures this.name == name && this.kind == kind && this.icfg == icfg && Fresh()
    {
      this.name, this.kind, this.icfg := name, kind, icfg;
      configs := map[];
      new;
      ReadCfg();
    }

    // The object shows what the store holds.
    ghost predicate Fresh()
      reads this, icfg
    {
      var e := EntryAt(icfg.cfg, name);
      configs == map[ProfileOf(kind, e) := ConfigOf(e)]
    }

    method ReadCfg()
      modifies this
      ensures Fresh()
    {
      configs := map[];
      var ieth := EntryAt(icfg.cfg, name);
      var profile, c := NoProfile, Config("", Null, false);
      if ieth.addressing.Some? {
        c := c.(addressing := ieth.addressing.value, auto := ieth.auto);
        if ieth.addressing.value == "static" {
          profile := StaticOf(kind);
          c := c.(config := ieth.options);
        } else if ieth.addressing.value == "dhcp" {
          profile := DynamicOf(kind);
          c := c.(config := ieth.options);
        }
      } else {
        profile := RawOf(kind);
        c := c.(addressing := "raw");
      }
      configs := configs[profile := c];
    }

    method SetConfiguration(profile: Profile, c: Config) returns (error: Option<Error>)
      modifies icfg
      ensures Saved(kind, name, old(icfg.cfg), profile, c) == if error.Some? then Err(error.value) else Ok(icfg.cfg)
      ensures error.Some? ==> icfg.cfg == old(icfg.cfg)
    {
      error := None;
      if profile == StaticOf(kind) || profile == DynamicOf(kind) {
        var ic := icfg.cfg;
        ic := ic - {name};
        var options := c.config;
        if kind.Bridge? && Has(c.config, "bridge_ports") {
          var ports := StringsOf(Member(c.config, "bridge_ports"));
          ports := Sort(ports);
          ports := Unique(ports);
          options := With(options, "bridge_ports", ArrayOf(ports));
        }
        ic := ic[name := Entry(Some(c.addressing), options, c.auto)];
        assert ic == old(icfg.cfg)[name := ic[name]];
        icfg.cfg := ic;
      } else if profile == RawOf(kind) {
        icfg.cfg := icfg.cfg - {name};
      } else {
        error := Some(UnsupportedProfile);
      }
    }

    method SetConfigurations(cfgs: map<Profile, Config>) returns (error: Option<Error>)
      modifies this, icfg
      ensures SavedAll(kind, name, old(icfg.cfg), cfgs, PROFILES)
           == if error.Some? then Err(error.value) else Ok(icfg.cfg)
      ensures error.None? ==> Fresh()
      ensures error.Some? && |cfgs| == 1 ==> icfg.cfg == old(icfg.cfg)
    {
      hide Saved;
      error := None;
      for i := 0 to |PROFILES|
        invariant error == None
        invariant (forall j | 0 <= j < i :: PROFILES[j] !in cfgs) ==> icfg.cfg == old(icfg.cfg)
        invariant SavedAll(kind, name, icfg.cfg, cfgs, PROFILES[i..]) == SavedAll(kind, name, old(icfg.cfg), cfgs, PROFILES)
      {
        assert PROFILES[i..][1..] == PROFILES[i + 1..] && PROFILES[i..][0] == PROFILES[i];
        if PROFILES[i] in cfgs {
          error := SetConfiguration(PROFILES[i], cfgs[PROFILES[i]]);
          if error.Some? {
            if |cfgs| == 1 {
              OnlyKey(cfgs, PROFILES[i]);
            }
            return;
          }
        }
      }
      ReadCfg();
    }
  }

  lemma OnlyKey<K, V>(m: map<K, V>, k: K)
    requires |m| == 1 && k in m
    ensures forall j <- m :: j == k
  {
    assert |m.Keys - {k}| == 0;
    assert m.Keys == (m.Keys - {k}) + {k};
  }

  // ---------- What the store keeps ----------

  // Addressing is static, by DHCP or absent, options are an object if there are any, and a
  // bridge has its ports in order.
  ghost predicate Normal(kinds: map<string, Kind>, store: Store) {
    forall name <- store ::
      && store[name].addressing in {None, Some("static"), Some("dhcp")} && Structured(store[name].options)
      && (name in kinds && store[name].addressing.Some? ==>
            SavedOptions(kinds[name], store[name].options) == store[name].options)
  }

  // All that is ever read of an interface; options without addressing are not.
  function View(store: Store, name: string): (Option<string>, Config) {
    (EntryAt(store, name).addressing, ConfigOf(EntryAt(store, name)))
  }

  lemma SavedOptionsAreFixed(kind: Kind, config: Json)
    ensures SavedOptions(kind, SavedOptions(kind, config)) == SavedOptions(kind, config)
  {
    if kind.Bridge? && Has(config, "bridge_ports") {
      var ports := StringsOf(Member(config, "bridge_ports"));
      SortUniqueIsStrict(ports);
      StringsRoundTrip(SortUnique(ports));
    }
  }

  /** The ports of a bridge are stored strictly sorted, with exactly the requested names. */
  lemma StoredPortsAreSorted(config: Json)
    requires Has(config, "bridge_ports")
    ensures var ports := StringsOf(Member(SavedOptions(Bridge, config), "bridge_ports"));
            && StrictlySorted(ports)
            && forall p :: p in ports <==> p in StringsOf(Member(config, "bridge_ports"))
  {
    var ports := StringsOf(Member(config, "bridge_ports"));
    SortUniqueIsStrict(ports);
    StringsRoundTrip(SortUnique(ports));
  }

  /** Writing back what was read changes nothing that can be read, in a normal store. */
  lemma WritingBackIsIdentity(kinds: map<string, Kind>, store: Store, name: string)
    requires Normal(kinds, store) && name in kinds
    ensures var e := EntryAt(store, name);
            var r := Saved(kinds[name], name, store, ProfileOf(kinds[name], e), ConfigOf(e));
            r.Ok? && Normal(kinds, r.value) && forall n :: View(r.value, n) == View(store, n)
  {
  }

  /** In any store that keeps to the two kinds of addressing: writing back what was read of an
      interface changes nothing that can be read exactly when its ports, if it is an addressed
      bridge, are in order. */
  lemma WritesBackExactlyWhenInOrder(kinds: map<string, Kind>, store: Store, name: string)
    requires name in kinds && EntryAt(store, name).addressing in {None, Some("static"), Some("dhcp")}
    ensures var kind, e := kinds[name], EntryAt(store, name);
            var r := Saved(kind, name, store, ProfileOf(kind, e), ConfigOf(e));
            && r.Ok?
            && ((forall n :: View(r.value, n) == View(store, n)) <==>
                  (e.addressing.Some? ==> SavedOptions(kind, e.options) == e.options))
  {
    var kind, e := kinds[name], EntryAt(store, name);
    var r := Saved(kind, name, store, ProfileOf(kind, e), ConfigOf(e)).value;
    assert View(r, name) == View(store, name) <==> (e.addressing.Some? ==> SavedOptions(kind, e.options) == e.options);
  }
}
