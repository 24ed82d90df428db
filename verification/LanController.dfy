/** The interface controller and the move of the LAN role as they run, over the shared store;
    each method is proved to do what LanCommands and LanMove say. */
module LanController {
  import opened Wrappers
  import opened Interfaces
  import opened LanCommands
  import opened LanMove
  import Hosts

  class Controller {
    const env: Env
    const icfg: InterfacesCfg
    var sys: map<string, string>
    var hosts: string

    constructor (env: Env, st: State)
      ensures this.env == env && fresh(icfg) && Now() == st
    {
      this.env := env;
      icfg := new InterfacesCfg(st.store);
      sys, hosts := st.sys, st.hosts;
    }

    ghost function Now(): State
      reads this, icfg
    {
      State(icfg.cfg, sys, hosts)
    }

    method Value(key: string, default: string) returns (v: string)
      ensures v == SysValue(Now(), key, default)
    {
      v := if key in sys then sys[key] else default;
    }

    method GetDefaultLan() returns (v: string)
      ensures v == DefaultLan(Now())
    {
      v := Value("defaultlan", "eth1");
    }

    method GetCurrentLan() returns (v: string)
      ensures v == CurrentLan(Now())
    {
      var d := GetDefaultLan();
      v := Value("lanif", d);
    }

    method GetInterfaces(filter: Option<Kind>) returns (ret: seq<string>)
      ensures ret == InterfaceNames(env, filter)
    {
      hide HasBridge, Begins, InterfaceNames, Listed;
      var virtual := filter.None? || filter.value.Bridge?;
      var addVirtualBridge := virtual;
      ret := [];
      NoBridgeInNothing();
      ListedEnds(env.kernel, env.kinds, filter);
      for i := 0 to |env.kernel|
        invariant ret + Listed(env.kernel[i..], env.kinds, filter) == Listed(env.kernel, env.kinds, filter)
        invariant addVirtualBridge <==> virtual && !HasBridge(ret)
      {
        var name := env.kernel[i];
        ghost var before, rest := ret, Listed(env.kernel[i + 1..], env.kinds, filter);
        ListedStep(env.kernel, i, env.kinds, filter);
        if (filter.Some? && (name !in env.kinds || env.kinds[name] != filter.value)) || Begins(name, "lo") {
          continue;
        }
        if Begins(name, "br") {
          addVirtualBridge := false;
        }
        BridgeGrows(ret, name);
        ret := ret + [name];
        assert before + ([name] + rest) == ret + rest;
      }
      assert ret + [] == ret;
      AddsVirtual(env, filter, ret);
      if addVirtualBridge {
        ret := ret + ["br0"];
      }
    }

    method GetInterface(name: string) returns (r: Result<Interface, Error>)
      ensures r.Err? <==> Lookup(env, name).Err?
      ensures r.Err? ==> r.error == Lookup(env, name).error
      ensures r.Ok? ==> fresh(r.value) && r.value.name == name && r.value.icfg == icfg
                        && Lookup(env, name) == Ok(r.value.kind) && r.value.Fresh()
    {
      var ifs := GetInterfaces(None);
      if name !in ifs {
        return Err(DeviceNotFound);
      }
      if name !in env.kinds {
        return Err(UnknownInterface);
      }
      var ifc := new Interface(name, env.kinds[name], icfg);
      r := Ok(ifc);
    }

    method GetCurrentWlan() returns (r: Result<string, Error>)
      ensures r == CurrentWlan(env, Now())
    {
      hide InterfaceNames, Lookup;
      var ifs := GetInterfaces(Some(Wlan));
      var lan := Value("lanif", "eth1");
      var found := GetInterface(lan);
      if found.Err? {
        return Err(found.error);
      }
      var cfgs := found.value.configs;
      if BridgeStatic in cfgs {
        r := Ok(WlanFor(cfgs[BridgeStatic].config, ifs));
      } else if BridgeDynamic in cfgs {
        r := Ok(WlanFor(cfgs[BridgeDynamic].config, ifs));
      } else {
        r := Ok(if |ifs| > 0 then ifs[0] else "");
      }
    }

    // validatebridge_andsetdefault
    method CompleteBridge(config: Json) returns (r: Result<Json, Error>)
      ensures r == BridgeDefaults(env, Now(), config)
    {
      hide CurrentWlan;
      var cfg := config;
      if !Has(cfg, "bridge_maxwait") {
        var v := Value("bridge_maxwait", "0");
        cfg := With(cfg, "bridge_maxwait", ArrayOf([v]));
      }
      if !IsArray(Member(cfg, "bridge_maxwait")) {
        return Err(NotArray("bridge_maxwait"));
      }
      if !Has(cfg, "bridge_fd") {
        var v := Value("bridge_fd", "0");
        cfg := With(cfg, "bridge_fd", ArrayOf([v]));
      }
      if !IsArray(Member(cfg, "bridge_fd")) {
        return Err(NotArray("bridge_fd"));
      }
      if !Has(cfg, "bridge_ports") {
        var wlan := GetCurrentWlan();
        if wlan.Err? {
          return Err(wlan.error);
        }
        var lan := GetDefaultLan();
        cfg := With(cfg, "bridge_ports", ArrayOf([lan, wlan.value]));
      }
      if !IsArray(Member(cfg, "bridge_ports")) {
        return Err(NotArray("bridge_ports"));
      }
      r := Ok(cfg);
    }

    method MoveHost(ip: string)
      modifies this`hosts
      ensures hosts == Moved(old(hosts), ip, env.hostname)
    {
      var h := new Hosts.File(hosts);
      h.Move(ip, env.hostname);
      hosts := h.WriteBack();
    }

    method ForgetHost()
      modifies this`hosts
      ensures hosts == Forgotten(old(hosts), env.hostname)
    {
      var h := new Hosts.File(hosts);
      h.Delete(env.hostname);
      hosts := h.WriteBack();
    }

    method SetPromisc(name: string) returns (error: Option<Error>)
      modifies icfg
      ensures Outcome(Now(), error) == Promiscuous(env, old(Now()), name)
      ensures old(NormalState(env, Now())) ==>
                && NormalState(env, Now()) && (error.None? <==> Lookup(env, name).Ok?)
                && forall n :: View(icfg.cfg, n) == View(old(icfg.cfg), n)
    {
      hide Lookup, Saved, Normal, View;
      if NormalState(env, Now()) {
        PromiscuousChangesNothing(env, Now(), name);
      }
      var ifc := GetInterface(name);
      if ifc.Err? {
        return Some(ifc.error);
      }
      var e := EntryAt(icfg.cfg, name);
      error := Store(ifc.value, ProfileOf(ifc.value.kind, e), ConfigOf(e), ifc.value.configs);
    }

    // SetConfigurations with a map of the one profile that an interface has
    method Store(ifc: Interface, ghost p: Profile, ghost c: Config, cfgs: map<Profile, Config>)
      returns (error: Option<Error>)
      requires ifc.icfg == icfg && cfgs == map[p := c]
      modifies ifc, icfg
      ensures Saved(ifc.kind, ifc.name, old(icfg.cfg), p, c) == if error.Some? then Err(error.value) else Ok(icfg.cfg)
      ensures error.Some? ==> icfg.cfg == old(icfg.cfg)
    {
      hide Saved, SavedAll;
      assert p in PROFILES;
      SavedOne(ifc.kind, ifc.name, icfg.cfg, p, c, PROFILES);
      error := ifc.SetConfigurations(cfgs);
    }

    // The last step of each setter
    method Finish(ifc: Interface, name: string, ghost p: Profile, ghost c: Config, cfgs: map<Profile, Config>)
      returns (error: Option<Error>)
      requires ifc.icfg == icfg && ifc.name == name && cfgs == map[p := c]
      modifies ifc, icfg
      ensures Outcome(Now(), error) == Commit(env, old(Now()), name, ifc.kind, p, c)
    {
      hide Saved, Promiscuous, Lookup;
      error := Store(ifc, p, c, cfgs);
      if error.None? && ifc.kind.Bridge? {
        var lan := GetDefaultLan();
        error := SetPromisc(lan);
      }
    }

    // The profile of a map of one is replaced by the static one.
    method ToStatic(cfgs: map<Profile, Config>, ghost kind: Kind, ghost e: Entry, config: Json, auto: bool)
      returns (r: Option<map<Profile, Config>>)
      requires cfgs == map[ProfileOf(kind, e) := ConfigOf(e)]
      ensures r == if ProfileOf(kind, e) == NoProfile then None else
                     Some(map[StaticOf(kind) := Config("static", config,
                                                       auto || (ProfileOf(kind, e) == StaticOf(kind) && e.auto))])
    {
      var c := Config("static", config, auto);
      if EthRaw in cfgs {
        r := Some((cfgs - {EthRaw})[EthStatic := c]);
      } else if EthDynamic in cfgs {
        r := Some((cfgs - {EthDynamic})[EthStatic := c]);
      } else if EthStatic in cfgs {
        r := Some(cfgs[EthStatic := cfgs[EthStatic].(config := config, auto := cfgs[EthStatic].auto || auto)]);
      } else if BridgeDynamic in cfgs {
        r := Some((cfgs - {BridgeDynamic})[BridgeStatic := c]);
      } else if BridgeStatic in cfgs {
        r := Some(cfgs[BridgeStatic := cfgs[BridgeStatic].(config := config, auto := cfgs[BridgeStatic].auto || auto)]);
      } else if BridgeRaw in cfgs {
        r := Some((cfgs - {BridgeRaw})[BridgeStatic := c]);
      } else {
        r := None;
      }
      assert r.Some? ==> r.value == map[StaticOf(kind) := r.value[StaticOf(kind)]];
    }

    // The first address goes into the hosts file; looking at it puts one into an empty list.
    method MoveHostTo(cfgs: map<Profile, Config>, ghost kind: Kind, ghost c: Config)
      returns (error: Option<Error>, cfgs': map<Profile, Config>)
      requires cfgs == map[StaticOf(kind) := c]
      modifies this`hosts
      ensures cfgs' == map[StaticOf(kind) := c.(config := Touched(c.config))]
      ensures match AddressText(c.config)
              case Err(e) => error == Some(e) && hosts == old(hosts)
              case Ok(ip) => error == None && hosts == Moved(old(hosts), ip, env.hostname)
    {
      hide Moved, AddressText, Touched;
      var p := if EthStatic in cfgs then EthStatic else BridgeStatic;
      cfgs' := cfgs[p := cfgs[p].(config := Touched(cfgs[p].config))];
      TouchedReadsTheSame(c.config);
      var ip := AddressText(cfgs'[p].config);
      if ip.Err? {
        return Some(ip.error), cfgs';
      }
      error := None;
      MoveHost(ip.value);
    }

    method SetStaticCfg(name: string, req: Request) returns (error: Option<Error>)
      requires req.Valid()
      modifies this`hosts, icfg
      ensures Outcome(Now(), error) == SetStatic(env, old(Now()), name, req)
    {
      hide Lookup, BridgeDefaults, Commit, AddressText, CurrentLan, Moved, Touched, Validated;
      var found := GetInterface(name);
      if found.Err? {
        return Some(found.error);
      }
      var ifc := found.value;
      var config := req.Config();
      var invalid := Validated(config);
      if invalid.Some? {
        return invalid;
      }
      ghost var old_ := EntryAt(icfg.cfg, name);
      if BridgeDynamic in ifc.configs || BridgeStatic in ifc.configs || BridgeRaw in ifc.configs {
        var r := CompleteBridge(config);
        if r.Err? {
          return Some(r.error);
        }
        config := r.value;
      }
      var changed := ToStatic(ifc.configs, ifc.kind, old_, config, req.Auto());
      if changed.None? {
        return Some(NoConfigToUpdate);
      }
      var cfgs := changed.value;
      ghost var c := cfgs[StaticOf(ifc.kind)];
      var lan := GetCurrentLan();
      if name == lan {
        error, cfgs := MoveHostTo(cfgs, ifc.kind, c);
        if error.Some? {
          return;
        }
        c := c.(config := Touched(c.config));
      }
      error := Finish(ifc, name, StaticOf(ifc.kind), c, cfgs);
    }

    // The same for the dynamic one
    method ToDynamic(cfgs: map<Profile, Config>, ghost kind: Kind, ghost e: Entry, config: Json, auto: bool)
      returns (r: Option<map<Profile, Config>>)
      requires cfgs == map[ProfileOf(kind, e) := ConfigOf(e)]
      ensures r == if ProfileOf(kind, e) == NoProfile then None else
                     Some(map[DynamicOf(kind) := Config("dhcp", config,
                                                        auto || (ProfileOf(kind, e) == DynamicOf(kind) && e.auto))])
    {
      var c := Config("dhcp", config, auto);
      if EthRaw in cfgs {
        r := Some((cfgs - {EthRaw})[EthDynamic := c]);
      } else if EthDynamic in cfgs {
        r := Some(cfgs[EthDynamic := cfgs[EthDynamic].(config := config, auto := cfgs[EthDynamic].auto || auto)]);
      } else if EthStatic in cfgs {
        r := Some((cfgs - {EthStatic})[EthDynamic := c]);
      } else if BridgeDynamic in cfgs {
        r := Some(cfgs[BridgeDynamic := cfgs[BridgeDynamic].(config := config, auto := cfgs[BridgeDynamic].auto || auto)]);
      } else if BridgeStatic in cfgs {
        r := Some((cfgs - {BridgeStatic})[BridgeDynamic := c]);
      } else if BridgeRaw in cfgs {
        r := Some((cfgs - {BridgeRaw})[BridgeDynamic := c]);
      } else {
        r := None;
      }
      assert r.Some? ==> r.value == map[DynamicOf(kind) := r.value[DynamicOf(kind)]];
    }

    method SetDynamicCfg(name: string, req: Request) returns (error: Option<Error>)
      requires req.Valid()
      modifies this`hosts, icfg
      ensures Outcome(Now(), error) == SetDynamic(env, old(Now()), name, req)
    {
      hide Lookup, BridgeDefaults, Commit, CurrentLan, Moved;
      var found := GetInterface(name);
      if found.Err? {
        return Some(found.error);
      }
      var ifc := found.value;
      ghost var old_ := EntryAt(icfg.cfg, name);
      var config := req.Config();
      if BridgeDynamic in ifc.configs || BridgeStatic in ifc.configs || BridgeRaw in ifc.configs {
        var r := CompleteBridge(config);
        if r.Err? {
          return Some(r.error);
        }
        config := r.value;
      } else if EthDynamic in ifc.configs && req.NoRequest? {
        config := ifc.configs[EthDynamic].config;
      }
      var changed := ToDynamic(ifc.configs, ifc.kind, old_, config, req.Auto());
      if changed.None? {
        return Some(NoConfigToUpdate);
      }
      var cfgs := changed.value;
      ghost var c := cfgs[DynamicOf(ifc.kind)];
      var lan := GetCurrentLan();
      if name == lan {
        MoveHost(NO_ADDRESS);
      }
      error := Finish(ifc, name, DynamicOf(ifc.kind), c, cfgs);
    }

    method SetRawCfg(name: string) returns (error: Option<Error>)
      modifies this`hosts, icfg
      ensures Outcome(Now(), error) == SetRaw(env, old(Now()), name)
    {
      hide Lookup, Commit, CurrentLan, Forgotten;
      var found := GetInterface(name);
      if found.Err? {
        return Some(found.error);
      }
      var ifc := found.value;
      var cfgs := ifc.configs;
      var c := Config("raw", Null, false);
      if EthRaw in cfgs {
        cfgs := cfgs[EthRaw := c];
      } else if EthDynamic in cfgs {
        cfgs := cfgs - {EthDynamic};
        cfgs := cfgs[EthRaw := c];
      } else if EthStatic in cfgs {
        cfgs := cfgs - {EthStatic};
        cfgs := cfgs[EthRaw := c];
      } else if BridgeDynamic in cfgs {
        cfgs := cfgs - {BridgeDynamic};
        cfgs := cfgs[BridgeRaw := c];
      } else if BridgeStatic in cfgs {
        cfgs := cfgs - {BridgeStatic};
        cfgs := cfgs[BridgeRaw := c];
      } else if BridgeRaw in cfgs {
        cfgs := cfgs[BridgeRaw := c];
      } else {
        return Some(NoConfigToUpdate);
      }
      assert cfgs == map[RawOf(ifc.kind) := c];
      var lan := GetCurrentLan();
      if name == lan {
        ForgetHost();
      }
      error := Finish(ifc, name, RawOf(ifc.kind), c, cfgs);
    }

    // The configuration of an interface, prepared for another one and set there
    method Transfer(newif: string, from: Profile, c: Config, ghost kind: Kind, ghost e: Entry)
      returns (error: Option<Error>)
      requires newif in env.kinds && Structured(e.options)
      requires from == ProfileOf(kind, e) != NoProfile && c == ConfigOf(e)
      modifies this`hosts, icfg
      ensures Outcome(Now(), error) == Transferred(env, old(Now()), e, kind, newif)
    {
      hide Lookup;
      if from == EthRaw || from == BridgeRaw {
        // SetRawCfg finds the interface, and then looks for a member in a JSON string
        var found := GetInterface(newif);
        return Some(if found.Err? then found.error else LibraryStops);
      }
      hide CurrentWlan, SetStatic, SetDynamic;
      var a := c.config;
      if a != Null {
        if from == BridgeStatic || from == BridgeDynamic {
          a := Without(a, "bridge_maxwait");
          a := Without(a, "bridge_ports");
          a := Without(a, "bridge_fd");
        } else if env.kinds[newif].Bridge? {
          var maxwait := Value("bridge_maxwait", "0");
          var wlan := GetCurrentWlan();
          if wlan.Err? {
            return Some(wlan.error);
          }
          var lan := GetDefaultLan();
          a := With(a, "bridge_maxwait", ArrayOf([maxwait]));
          a := With(a, "bridge_ports", ArrayOf([lan, wlan.value]));
        }
      }
      if c.addressing == "static" {
        error := SetStaticCfg(newif, Request(a, false));
      } else {
        error := SetDynamicCfg(newif, Request(a, false));
      }
    }

    // Dispatcher::setlanif
    method MoveLan(newif: string) returns (error: Option<Error>)
      requires NormalState(env, Now())
      modifies this`sys, this`hosts, icfg
      ensures Outcome(Now(), error) == SetLanIf(env, old(Now()), newif)
    {
      hide Lookup, Transferred, SetRaw, CurrentLan, Normal;
      if newif !in env.kinds {
        return Some(UnknownInterface);
      }
      var olf := GetCurrentLan();
      if olf !in env.kinds {
        return Some(UnknownInterface);
      }
      if olf == newif {
        return None;
      }
      EntryIsStructured(env, Now(), olf);
      ProfileIsKnown(env, Now(), olf);
      sys := sys["lanif" := newif];
      var found := GetInterface(olf);
      if found.Err? {
        return Some(found.error);
      }
      LookupKnows(env, olf);
      var cfgs := found.value.configs;
      var todo := cfgs.Keys;
      ghost var st1, e, kind := Now(), EntryAt(icfg.cfg, olf), found.value.kind;
      ghost var p := ProfileOf(kind, e);
      assert todo == {p};
      while todo != {}
        invariant todo <= {p} && cfgs == map[p := ConfigOf(e)]
        invariant todo == {p} ==> Now() == st1
        invariant todo == {} ==> Done(Now()) == Transferred(env, st1, e, kind, newif)
        decreases |todo|
      {
        var profile :| profile in todo;
        todo := todo - {profile};
        error := Transfer(newif, profile, cfgs[profile], kind, e);
        if error.Some? {
          return;
        }
      }
      error := SetRawCfg(olf);
    }
  }

  lemma TouchedReadsTheSame(config: Json)
    ensures AddressText(Touched(config)) == AddressText(config)
  {
  }

  lemma ListedEnds(kernel: seq<string>, kinds: map<string, Kind>, filter: Option<Kind>)
    ensures Listed(kernel[|kernel|..], kinds, filter) == [] && kernel[0..] == kernel
  {
  }

  lemma ListedStep(kernel: seq<string>, i: nat, kinds: map<string, Kind>, filter: Option<Kind>)
    requires i < |kernel|
    ensures var name, rest := kernel[i], Listed(kernel[i + 1..], kinds, filter);
            Listed(kernel[i..], kinds, filter)
            == if (filter.Some? && (name !in kinds || kinds[name] != filter.value)) || Begins(name, "lo") then rest
               else [name] + rest
  {
    hide Begins;
    assert kernel[i..][1..] == kernel[i + 1..];
  }

  lemma NoBridgeInNothing()
    ensures !HasBridge([])
  {
  }

  lemma BridgeGrows(names: seq<string>, name: string)
    ensures HasBridge(names + [name]) <==> HasBridge(names) || Begins(name, "br")
  {
    hide Begins;
    assert forall n :: n in names + [name] <==> n in names || n == name;
  }

  lemma AddsVirtual(env: Env, filter: Option<Kind>, names: seq<string>)
    requires names == Listed(env.kernel, env.kinds, filter)
    ensures InterfaceNames(env, filter)
         == if (filter.None? || filter.value.Bridge?) && !HasBridge(names) then names + ["br0"] else names
  {
  }
}
