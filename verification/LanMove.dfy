/** Moving the LAN role from one interface to another, and back again. */
module LanMove {
  import opened Wrappers
  import opened Interfaces
  import opened LanCommands
  import Strings
  import Hosts

  // The options of a bridge without what belongs to the bridge only
  function WithoutBridgeKeys(options: Json): Json {
    Without(Without(Without(options, "bridge_maxwait"), "bridge_ports"), "bridge_fd")
  }

  // The options of an ethernet port, prepared for a bridge
  function ForBridge(env: Env, st: State, options: Json): Result<Json, Error> {
    match CurrentWlan(env, st)
    case Err(e) => Err(e)
    case Ok(wlan) =>
      Ok(With(With(options, "bridge_maxwait", ArrayOf([SysValue(st, "bridge_maxwait", "0")])),
              "bridge_ports", ArrayOf([DefaultLan(st), wlan])))
  }

  function Carried(env: Env, st: State, from: Kind, to: Kind, options: Json): Result<Json, Error> {
    if options.Null? then Ok(Null)
    else if from.Bridge? then Ok(WithoutBridgeKeys(options))
    else if to.Bridge? then ForBridge(env, st, options)
    else Ok(options)
  }

  // The settings of the old interface are set on the new one. Those of a raw interface are handed
  // on as a JSON string, in which the library looks for a member.
  function Transferred(env: Env, st: State, e: Entry, from: Kind, newif: string): Outcome
    requires newif in env.kinds && Structured(e.options)
  {
    if e.addressing.None? then
      Fail(st, if Lookup(env, newif).Err? then Lookup(env, newif).error else LibraryStops)
    else
      match Carried(env, st, from, env.kinds[newif], e.options)
      case Err(error) => Fail(st, error)
      case Ok(config) =>
        assert Structured(config);
        if e.addressing == Some("static") then SetStatic(env, st, newif, Request(config, false))
        else SetDynamic(env, st, newif, Request(config, false))
  }

  function SetLanIf(env: Env, st: State, newif: string): Outcome
    requires NormalState(env, st)
  {
    var olf := CurrentLan(st);
    if newif !in env.kinds || olf !in env.kinds then Fail(st, UnknownInterface)
    else if olf == newif then Done(st) else
      var st1 := st.(sys := st.sys["lanif" := newif]);
      match Lookup(env, olf)
      case Err(e) => Fail(st1, e)
      case Ok(kind) =>
        var r := Transferred(env, st1, EntryAt(st.store, olf), kind, newif);
        if r.error.Some? then r else SetRaw(env, r.state, olf)
  }

  // ---------- When a move is refused, and what it does then ----------

  // What the move asks of the two interfaces and of the options that are moved
  predicate Movable(env: Env, st: State, newif: string)
    requires newif in env.kinds && CurrentLan(st) in env.kinds
  {
    var olf := CurrentLan(st);
    var mode, options := ModeOf(st.store, olf), EntryAt(st.store, olf).options;
    && Lookup(env, olf).Ok? && Lookup(env, newif).Ok?
    && (env.kinds[olf].Bridge? || env.kinds[newif].Bridge? ==> DefaultLanIsUsable(env, st))
    && mode in {IsStatic, IsDynamic}
    && (mode == IsStatic ==> Validated(options).None? && AddressText(options).Ok?)
    && (!env.kinds[olf].Bridge? && env.kinds[newif].Bridge? && Has(options, "bridge_fd") ==>
          IsArray(Member(options, "bridge_fd")))
  }

  lemma CarriedFits(env: Env, st: State, from: Kind, to: Kind, options: Json)
    requires Structured(options)
    ensures var r := Carried(env, st, from, to, options);
            && (r.Err? ==> !from.Bridge? && to.Bridge? && options.Obj? && CurrentWlan(env, st).Err?)
            && (r.Ok? ==>
                  && Structured(r.value) && Member(r.value, "address") == Member(options, "address")
                  && Validated(r.value) == Validated(options)
                  && (from.Bridge? || to.Bridge? ==>
                        (BridgeFits(env, st, r.value) <==>
                           && (!from.Bridge? && Has(options, "bridge_fd") ==> IsArray(Member(options, "bridge_fd")))
                           && ((!from.Bridge? && options.Obj?) || Lookup(env, SysValue(st, "lanif", "eth1")).Ok?))))
  {
    hide CurrentWlan, Lookup, SysValue, DefaultLan;
    assert BRIDGE_MEMBERS[0] == "bridge_maxwait" && BRIDGE_MEMBERS[1] == "bridge_fd" && BRIDGE_MEMBERS[2] == "bridge_ports";
  }

  lemma SysOfMove(env: Env, st: State, newif: string)
    ensures var st1 := st.(sys := st.sys["lanif" := newif]);
            && CurrentLan(st1) == newif && DefaultLan(st1) == DefaultLan(st) && SysValue(st1, "lanif", "eth1") == newif
            && DefaultLanIsUsable(env, st1) == DefaultLanIsUsable(env, st)
  {
    hide Lookup;
  }

  // The command that sets up the new interface
  function MoveCommand(newif: string, mode: Mode, config: Json): Command {
    if mode == IsStatic then Static(newif, Request(config, false)) else Dynamic(newif, Request(config, false))
  }

  lemma MoveIsAccepted(env: Env, st: State, newif: string, mode: Mode, config: Json, options: Json)
    requires newif in env.kinds && mode in {IsStatic, IsDynamic} && CurrentLan(st) == newif
    requires Member(config, "address") == Member(options, "address") && Validated(config) == Validated(options)
    ensures Accepted(env, st, MoveCommand(newif, mode, config)) <==>
              && Lookup(env, newif).Ok?
              && (env.kinds[newif].Bridge? ==> BridgeFits(env, st, config))
              && (mode == IsStatic ==> Validated(options).None? && AddressText(options).Ok?)
  {
    hide Lookup, BridgeFits, Validated, CurrentLan;
    SameAddressText(config, options);
  }

  /** A move between known interfaces goes through exactly when it stays where it is, or the two
      can be found, the options that are moved would pass for the new interface, and for a bridge
      the default LAN interface is known. */
  lemma MoveSucceedsExactlyWhenMovable(env: Env, st: State, newif: string)
    requires NormalState(env, st) && newif in env.kinds && CurrentLan(st) in env.kinds
    ensures SetLanIf(env, st, newif).error.None? <==> newif == CurrentLan(st) || Movable(env, st, newif)
  {
    hide Lookup, Carried, SetStatic, SetDynamic, SetRaw, Validated, AddressText, CurrentLan, Normal;
    hide DefaultLanIsUsable, BridgeFits, CurrentWlan, Accepted, SysValue;
    var olf, st1 := CurrentLan(st), st.(sys := st.sys["lanif" := newif]);
    var mode, options := ModeOf(st.store, olf), EntryAt(st.store, olf).options;
    LookupKnows(env, olf);
    LookupKnows(env, newif);
    ModeIsKnown(env, st, olf);
    SysOfMove(env, st, newif);
    if olf != newif && Lookup(env, olf).Ok? && mode in {IsStatic, IsDynamic} {
      EntryIsStructured(env, st, olf);
      CarriedFits(env, st1, env.kinds[olf], env.kinds[newif], options);
      WlanExactlyWhenLan(env, st1);
      var carried := Carried(env, st1, env.kinds[olf], env.kinds[newif], options);
      if carried.Ok? {
        MoveIsAccepted(env, st1, newif, mode, carried.value, options);
        var cmd := MoveCommand(newif, mode, carried.value);
        SucceedsExactlyWhenAccepted(env, st1, cmd);
        ExecuteHasEffect(env, st1, cmd);
        SysStays(env, st1, cmd);
        RawIsAccepted(env, Execute(env, st1, cmd).state, olf);
      }
    }
  }

  lemma ModeIsKnown(env: Env, st: State, name: string)
    requires NormalState(env, st)
    ensures ModeOf(st.store, name) in {IsRaw, IsStatic, IsDynamic}
  {
  }

  lemma RawIsAccepted(env: Env, st: State, name: string)
    requires NormalState(env, st)
    ensures SetRaw(env, st, name).error.None? <==>
              Lookup(env, name).Ok? && (name in env.kinds && env.kinds[name].Bridge? ==> DefaultLanIsUsable(env, st))
  {
    hide Lookup, DefaultLanIsUsable, SetRaw;
    SucceedsExactlyWhenAccepted(env, st, Raw(name));
  }

  /** Moving the role away from a raw interface ends the program, with the role passed on in memory
      and nothing else done. */
  lemma RawInterfaceStops(env: Env, st: State, newif: string)
    requires NormalState(env, st) && newif in env.kinds && CurrentLan(st) in env.kinds && newif != CurrentLan(st)
    requires Lookup(env, CurrentLan(st)).Ok? && Lookup(env, newif).Ok? && ModeOf(st.store, CurrentLan(st)) == IsRaw
    ensures SetLanIf(env, st, newif) == Outcome(st.(sys := st.sys["lanif" := newif]), Some(LibraryStops))
  {
    hide Lookup, CurrentLan, Normal;
  }

  /** Whether it goes through or is refused, a move passes the LAN role on in memory, as long as
      both interfaces are of known types; a move that fails is not undone. */
  lemma RolePassesExactlyWhenKnown(env: Env, st: State, newif: string)
    requires NormalState(env, st)
    ensures CurrentLan(SetLanIf(env, st, newif).state)
         == if newif in env.kinds && CurrentLan(st) in env.kinds then newif else CurrentLan(st)
  {
    hide Lookup, Carried, SetStatic, SetDynamic, SetRaw, Normal;
    var olf, st1 := CurrentLan(st), st.(sys := st.sys["lanif" := newif]);
    if newif in env.kinds && olf in env.kinds && olf != newif && Lookup(env, olf).Ok? {
      LookupKnows(env, olf);
      EntryIsStructured(env, st, olf);
      var e := EntryAt(st.store, olf);
      var carried := Carried(env, st1, env.kinds[olf], env.kinds[newif], e.options);
      CarriedFits(env, st1, env.kinds[olf], env.kinds[newif], e.options);
      if e.addressing.Some? && carried.Ok? {
        var cmd := MoveCommand(newif, ModeOf(st.store, olf), carried.value);
        SysStays(env, st1, cmd);
        ExecuteHasEffect(env, st1, cmd);
        SysStays(env, Execute(env, st1, cmd).state, Raw(olf));
      }
    }
  }

  // ---------- What the commands store ----------

  // A command got through: its interface shows c, and nothing else can be told apart.
  ghost predicate Shows(env: Env, r: Outcome, st: State, name: string, c: Config) {
    && r.error.None? && SameBut(r.state, st, name) && NormalState(env, r.state)
    && View(r.state.store, name) == (Some(c.addressing), c)
  }

  ghost predicate Reachable(env: Env, st: State, name: string, kind: Kind) {
    Lookup(env, name) == Ok(kind) && (kind.Bridge? ==> DefaultLanIsUsable(env, st))
  }

  lemma SetStaticShows(env: Env, st: State, name: string, kind: Kind, given: Json, config: Json)
    requires NormalState(env, st) && Reachable(env, st, name, kind) && Structured(given)
    requires ModeOf(st.store, name) == IsRaw && Validated(given) == None
    requires Completed(env, st, kind, given) == Ok(config) && AddressText(config).Ok?
    ensures Shows(env, SetStatic(env, st, name, Request(given, false)), st, name,
                  Config("static", SavedOptions(kind, StaticConfig(st, name, config)), false))
  {
    hide Lookup, Commit, Completed, Validated, AddressText, SavedOptions, CurrentLan, Normal, DefaultLanIsUsable, SameBut;
    hide Touched;
    CompletedIsStructured(env, st, kind, given);
    TouchedIsStructured(config);
    var hosts := StaticHosts(env, st, name, config).value;
    UsableWithHosts(env, st, hosts);
    CommitStores(env, st.(hosts := hosts), name, kind, StaticOf(kind),
                 Config("static", StaticConfig(st, name, config), false));
    SameButHosts(env, SetStatic(env, st, name, Request(given, false)).state, st, hosts, name);
  }

  lemma SetDynamicShows(env: Env, st: State, name: string, kind: Kind, given: Json, config: Json)
    requires NormalState(env, st) && Reachable(env, st, name, kind) && Structured(given)
    requires ModeOf(st.store, name) == IsRaw && Completed(env, st, kind, given) == Ok(config)
    ensures Shows(env, SetDynamic(env, st, name, Request(given, false)), st, name,
                  Config("dhcp", SavedOptions(kind, config), false))
  {
    hide Lookup, Commit, Completed, SavedOptions, CurrentLan, Normal, DefaultLanIsUsable, SameBut, DynamicHosts;
    CompletedIsStructured(env, st, kind, given);
    var hosts := DynamicHosts(env, st, name);
    UsableWithHosts(env, st, hosts);
    CommitStores(env, st.(hosts := hosts), name, kind, DynamicOf(kind), Config("dhcp", config, false));
    SameButHosts(env, SetDynamic(env, st, name, Request(given, false)).state, st, hosts, name);
  }

  lemma SetRawShows(env: Env, st: State, name: string, kind: Kind)
    requires NormalState(env, st) && Reachable(env, st, name, kind)
    ensures var r := SetRaw(env, st, name);
            && r.error.None? && SameBut(r.state, st, name) && NormalState(env, r.state)
            && View(r.state.store, name) == (None, Config("raw", Null, false))
  {
    hide Lookup, Commit, CurrentLan, DefaultLanIsUsable, SameBut, Forgotten;
    var hosts := if name == CurrentLan(st) then Forgotten(st.hosts, env.hostname) else st.hosts;
    LookupKnows(env, name);
    assert ProfileOf(kind, EntryAt(st.store, name)) != NoProfile;
    UsableWithHosts(env, st, hosts);
    CommitStores(env, st.(hosts := hosts), name, kind, RawOf(kind), Config("raw", Null, false));
    SameButHosts(env, SetRaw(env, st, name).state, st, hosts, name);
  }

  lemma UsableWithHosts(env: Env, st: State, hosts: string)
    ensures DefaultLanIsUsable(env, st.(hosts := hosts)) == DefaultLanIsUsable(env, st)
  {
  }

  lemma SameButHosts(env: Env, a: State, b: State, hosts: string, name: string)
    requires SameBut(a, b.(hosts := hosts), name)
    ensures SameBut(a, b, name)
  {
  }

  // ---------- The options on the way ----------

  // Options that an ethernet port may hold for the LAN to be moved
  predicate Portable(mode: Mode, options: Json) {
    && Structured(options)
    && (Has(options, "bridge_fd") ==> IsArray(Member(options, "bridge_fd")))
    && (mode == IsStatic ==> Validated(options) == None && AddressText(options).Ok?)
  }

  // The same members, an absent object counting as an empty one
  function AsObject(options: Json): Json {
    if options.Null? then Obj(map[]) else options
  }

  // The options without what belongs to a bridge
  function Bare(options: Json): Json {
    WithoutBridgeKeys(AsObject(options))
  }

  // What comes back from a move: the bare options, with an address if there was none
  function Restored(mode: Mode, options: Json): Json {
    if mode == IsStatic then Touched(Bare(options)) else Bare(options)
  }

  lemma TouchedCommutes(config: Json)
    requires config.Obj?
    ensures WithoutBridgeKeys(Touched(config)) == Touched(WithoutBridgeKeys(config))
  {
  }

  lemma SavedIsBare(config: Json, bare: Json)
    requires config.Obj? && WithoutBridgeKeys(config) == bare
    ensures SavedOptions(Bridge, config).Obj? && WithoutBridgeKeys(SavedOptions(Bridge, config)) == bare
  {
  }

  lemma PreparedCompletes(env: Env, st: State, config: Json)
    requires Structured(config)
    requires Has(config, "bridge_maxwait") ==> IsArray(Member(config, "bridge_maxwait"))
    requires Has(config, "bridge_ports") ==> IsArray(Member(config, "bridge_ports"))
    requires Has(config, "bridge_fd") ==> IsArray(Member(config, "bridge_fd"))
    requires Has(config, "bridge_ports") || CurrentWlan(env, st).Ok?
    ensures var r := Completed(env, st, Bridge, config);
            && r.Ok? && r.value.Obj? && WithoutBridgeKeys(r.value) == Bare(config)
            && Member(r.value, "address") == Member(config, "address")
  {
    hide CurrentWlan, Lookup, DefaultLan, SysValue;
  }

  lemma PortableCarries(env: Env, st: State, mode: Mode, options: Json, wlan: string)
    requires Portable(mode, options) && CurrentWlan(env, st) == Ok(wlan)
    ensures var c := Carried(env, st, Ether, Bridge, options);
            && c.Ok? && Structured(c.value) && Completed(env, st, Bridge, c.value).Ok?
            && (mode == IsStatic ==> Validated(c.value) == None)
            && var done := Completed(env, st, Bridge, c.value).value;
            && done.Obj? && WithoutBridgeKeys(done) == Bare(options)
            && (mode == IsStatic ==> AddressText(done).Ok?)
  {
    hide CurrentWlan, Lookup, Completed, AddressText;
    var config := Carried(env, st, Ether, Bridge, options).value;
    assert Bare(config) == Bare(options);
    PreparedCompletes(env, st, config);
    SameAddressText(Completed(env, st, Bridge, config).value, options);
  }

  // ---------- There and back ----------

  ghost predicate Ready(env: Env, st: State, port: string, bridge: string) {
    && NormalState(env, st) && port != bridge
    && Lookup(env, port) == Ok(Ether) && Lookup(env, bridge) == Ok(Bridge) && DefaultLanIsUsable(env, st)
  }

  function Text(mode: Mode): string {
    if mode == IsStatic then "static" else "dhcp"
  }

  lemma CurrentWlanIsFound(env: Env, st: State)
    requires "lanif" in st.sys && Lookup(env, st.sys["lanif"]).Ok?
    ensures CurrentWlan(env, st).Ok?
  {
    hide Lookup, InterfaceNames;
  }

  // The outcome of a move: the new interface shows c, the old one is raw.
  ghost predicate MoveDone(env: Env, r: Outcome, st: State, olf: string, newif: string, c: Config) {
    && r.error.None? && NormalState(env, r.state) && r.state.sys == st.sys["lanif" := newif]
    && View(r.state.store, newif) == (Some(c.addressing), c)
    && View(r.state.store, olf) == (None, Config("raw", Null, false))
    && forall n | n != olf && n != newif :: View(r.state.store, n) == View(st.store, n)
  }

  lemma ThenRaw(env: Env, st: State, r: Outcome, olf: string, newif: string, kind: Kind, c: Config)
    requires olf != newif && Lookup(env, olf) == Ok(kind) && DefaultLanIsUsable(env, st)
    requires Shows(env, r, st.(sys := st.sys["lanif" := newif]), newif, c)
    ensures MoveDone(env, SetRaw(env, r.state, olf), st, olf, newif, c)
  {
    hide Lookup, Normal, SetRaw, View;
    SysOfMove(env, st, newif);
    assert DefaultLanIsUsable(env, r.state);
    SetRawShows(env, r.state, olf, kind);
  }

  lemma MovesToBridge(env: Env, st: State, port: string, bridge: string) returns (saved: Json)
    requires Ready(env, st, port, bridge) && CurrentLan(st) == port
    requires ModeOf(st.store, port) in {IsStatic, IsDynamic} && ModeOf(st.store, bridge) == IsRaw
    requires Portable(ModeOf(st.store, port), EntryAt(st.store, port).options)
    ensures saved.Obj? && WithoutBridgeKeys(saved) == Restored(ModeOf(st.store, port), EntryAt(st.store, port).options)
    ensures MoveDone(env, SetLanIf(env, st, bridge), st, port, bridge,
                     Config(Text(ModeOf(st.store, port)), saved, false))
  {
    hide Lookup, Carried, Completed, Validated, SavedOptions, Normal, Portable, SetStatic, SetDynamic, SetRaw;
    hide CurrentWlan, View, AddressText, MoveDone, DefaultLanIsUsable, CurrentLan, SameBut, Touched, WithoutBridgeKeys;
    LookupKnows(env, port);
    LookupKnows(env, bridge);
    var st1 := st.(sys := st.sys["lanif" := bridge]);
    var mode, options := ModeOf(st.store, port), EntryAt(st.store, port).options;
    SysOfMove(env, st, bridge);
    CurrentWlanIsFound(env, st1);
    PortableCarries(env, st1, mode, options, CurrentWlan(env, st1).value);
    var given := Carried(env, st1, Ether, Bridge, options).value;
    var config := Completed(env, st1, Bridge, given).value;
    if mode == IsStatic {
      saved := SavedOptions(Bridge, Touched(config));
      TouchedCommutes(config);
      TouchedIsObject(config);
      SavedIsBare(Touched(config), Touched(Bare(options)));
      SetStaticShows(env, st1, bridge, Bridge, given, config);
      ThenRaw(env, st, SetStatic(env, st1, bridge, Request(given, false)), port, bridge, Ether, Config("static", saved, false));
    } else {
      saved := SavedOptions(Bridge, config);
      SavedIsBare(config, Bare(options));
      SetDynamicShows(env, st1, bridge, Bridge, given, config);
      ThenRaw(env, st, SetDynamic(env, st1, bridge, Request(given, false)), port, bridge, Ether, Config("dhcp", saved, false));
    }
  }

  // The options of a bridge that the LAN has moved to: it joins the default LAN interface and the
  // wireless one, and waits as long as the configuration says.
  ghost predicate LanBridge(st: State, wlan: string, options: Json, stored: Json) {
    && Member(stored, "bridge_ports") == ArrayOf(PortsOf(stored)) && Strings.StrictlySorted(PortsOf(stored))
    && (forall p :: p in PortsOf(stored) <==> p == DefaultLan(st) || p == wlan)
    && Member(stored, "bridge_maxwait") == Arr([Str(SysValue(st, "bridge_maxwait", "0"))])
    && Member(stored, "bridge_fd") ==
         if Has(options, "bridge_fd") then Member(options, "bridge_fd") else Arr([Str(SysValue(st, "bridge_fd", "0"))])
  }

  // What a port's options become on the way: ports and waiting time are put in, or left to be made up.
  ghost predicate Joins(st: State, wlan: string, options: Json, given: Json) {
    && (Has(given, "bridge_fd") <==> Has(options, "bridge_fd")) && Member(given, "bridge_fd") == Member(options, "bridge_fd")
    && (options.Null? ==> !Has(given, "bridge_ports") && !Has(given, "bridge_maxwait"))
    && (options.Obj? ==>
          && Has(given, "bridge_ports") && PortsOf(given) == [DefaultLan(st), wlan]
          && Has(given, "bridge_maxwait") && Member(given, "bridge_maxwait") == Arr([Str(SysValue(st, "bridge_maxwait", "0"))]))
  }

  lemma CarriedJoins(env: Env, st: State, from: Kind, options: Json, given: Json, wlan: string)
    requires CurrentWlan(env, st) == Ok(wlan) && Structured(options) && !from.Bridge?
    requires Carried(env, st, from, Bridge, options) == Ok(given)
    ensures Structured(given) && Joins(st, wlan, options, given)
  {
    hide CurrentWlan, SysValue, DefaultLan, ArrayOf, StringsOf;
    if options.Obj? {
      StringsRoundTrip([DefaultLan(st), wlan]);
      ArrayOfOne(SysValue(st, "bridge_maxwait", "0"));
    }
  }

  lemma GivenJoins(st: State, cmd: Command, wlan: string, options: Json)
    requires !cmd.Raw? && cmd.req.Request? && Structured(cmd.req.config) && Joins(st, wlan, options, cmd.req.config)
    ensures Joins(st, wlan, options, Given(st, cmd))
  {
    hide CurrentLan, SysValue, DefaultLan, StringsOf;
    assert forall key | key != "address" ::
        && (Has(Given(st, cmd), key) <==> Has(cmd.req.config, key))
        && Member(Given(st, cmd), key) == Member(cmd.req.config, key);
  }

  lemma KeptJoins(env: Env, st: State, options: Json, given: Json, stored: Json, wlan: string)
    requires Structured(options) && CurrentWlan(env, st) == Ok(wlan)
    requires Keeps(Bridge, given, stored) && MadeUp(env, st, given, stored) && Joins(st, wlan, options, given)
    ensures LanBridge(st, wlan, options, stored)
  {
    hide CurrentWlan, SysValue, DefaultLan, ArrayOf, StringsOf, InterfaceNames, Strings.StrictlySorted;
    assert forall p :: p in [DefaultLan(st), wlan] <==> p == DefaultLan(st) || p == wlan;
  }

  // The first command of a move
  function MoveStep(env: Env, st: State, newif: string, given: Json): Outcome
    requires Structured(given)
  {
    Execute(env, st.(sys := st.sys["lanif" := newif]), MoveCommand(newif, ModeOf(st.store, CurrentLan(st)), given))
  }

  // A move that goes through is two commands.
  lemma MovesByCommands(env: Env, st: State, newif: string) returns (given: Json)
    requires NormalState(env, st) && newif in env.kinds && CurrentLan(st) in env.kinds && newif != CurrentLan(st)
    requires SetLanIf(env, st, newif).error.None?
    ensures Structured(given)
    ensures Lookup(env, newif) == Ok(env.kinds[newif]) && ModeOf(st.store, CurrentLan(st)) in {IsStatic, IsDynamic}
    ensures Carried(env, st.(sys := st.sys["lanif" := newif]), env.kinds[CurrentLan(st)], env.kinds[newif],
                    EntryAt(st.store, CurrentLan(st)).options) == Ok(given)
    ensures var r := MoveStep(env, st, newif, given);
            r.error.None? && SetLanIf(env, st, newif) == SetRaw(env, r.state, CurrentLan(st))
  {
    hide Lookup, Carried, SetStatic, SetDynamic, SetRaw, CurrentLan, DefaultLanIsUsable;
    var st1, olf := st.(sys := st.sys["lanif" := newif]), CurrentLan(st);
    var options := EntryAt(st.store, olf).options;
    LookupKnows(env, olf);
    LookupKnows(env, newif);
    EntryIsStructured(env, st, olf);
    MovableIsFound(env, st, newif);
    CarriedFits(env, st1, env.kinds[olf], env.kinds[newif], options);
    given := Carried(env, st1, env.kinds[olf], env.kinds[newif], options).value;
  }

  lemma MovableIsFound(env: Env, st: State, newif: string)
    requires NormalState(env, st) && newif in env.kinds && CurrentLan(st) in env.kinds && newif != CurrentLan(st)
    requires SetLanIf(env, st, newif).error.None?
    ensures Lookup(env, newif).Ok? && ModeOf(st.store, CurrentLan(st)) in {IsStatic, IsDynamic}
  {
    hide SetLanIf, Lookup, CurrentLan, Normal, DefaultLanIsUsable, Validated, AddressText;
    MoveSucceedsExactlyWhenMovable(env, st, newif);
  }

  /** Every move that goes through from a port to a bridge makes the bridge join the LAN: its ports
      are the default LAN interface and the wireless one that goes with the bridge, in order, and it
      waits as long as the configuration says, whatever the options that were moved. */
  lemma BridgeJoinsLan(env: Env, st: State, bridge: string) returns (wlan: string)
    requires NormalState(env, st) && AllNamed(env) && bridge in env.kinds && env.kinds[bridge].Bridge?
    requires CurrentLan(st) in env.kinds && !env.kinds[CurrentLan(st)].Bridge?
    requires SetLanIf(env, st, bridge).error.None?
    ensures GoesWithLan(env, st.(sys := st.sys["lanif" := bridge]), wlan)
    ensures LanBridge(st, wlan, EntryAt(st.store, CurrentLan(st)).options,
                      EntryAt(SetLanIf(env, st, bridge).state.store, bridge).options)
  {
    hide Lookup, Carried, Execute, Normal, Keeps, MadeUp, LanBridge, CurrentWlan, SetLanIf, DefaultLanIsUsable, Given;
    hide CurrentLan, InterfaceNames, MoveCommand, Joins, GoesWithLan, AllNamed;
    var st1, olf := st.(sys := st.sys["lanif" := bridge]), CurrentLan(st);
    var mode, options := ModeOf(st.store, olf), EntryAt(st.store, olf).options;
    var given := MovesByCommands(env, st, bridge);
    EntryIsStructured(env, st, olf);
    CurrentWlanIsFound(env, st1);
    wlan := CurrentWlan(env, st1).value;
    CurrentWlanGoesWithLan(env, st1);
    CarriedJoins(env, st1, env.kinds[olf], options, given, wlan);
    var cmd := MoveCommand(bridge, mode, given);
    MoveCommandIs(bridge, mode, given);
    var r := Execute(env, st1, cmd);
    SuccessStoresRequest(env, st1, cmd);
    ExecuteIsNormal(env, st1, cmd);
    RawLeavesOthers(env, r.state, olf, bridge);
    GivenJoins(st1, cmd, wlan, options);
    ViewIsOptions(SetLanIf(env, st, bridge).state.store, r.state.store, bridge);
    var stored := EntryAt(SetLanIf(env, st, bridge).state.store, bridge).options;
    KeptJoins(env, st1, options, Given(st1, cmd), stored, wlan);
    SameBridge(st, bridge, wlan, options, stored);
  }

  /** Every move that goes through, between interfaces of any kind: the new one is addressed as the old
      one was and has its options, but for the members that belong to a bridge and for an address
      list without an address; the flag stays that of the new one, if it was addressed so before.
      The old one is raw, and nothing else is touched. */
  lemma MoveCarriesOptions(env: Env, st: State, newif: string)
    requires NormalState(env, st) && newif in env.kinds && CurrentLan(st) in env.kinds && newif != CurrentLan(st)
    requires SetLanIf(env, st, newif).error.None?
    ensures var olf, r := CurrentLan(st), SetLanIf(env, st, newif).state;
            var was, now := EntryAt(st.store, olf), EntryAt(r.store, newif);
            && now.addressing == was.addressing && was.addressing in {Some("static"), Some("dhcp")}
            && now.auto == (EntryAt(st.store, newif).auto && EntryAt(st.store, newif).addressing == was.addressing)
            && CarriesOver(was.options, now.options, env.kinds[olf], env.kinds[newif])
            && View(r.store, olf) == (None, Config("raw", Null, false))
            && r.sys == st.sys["lanif" := newif]
            && forall n | n != olf && n != newif :: View(r.store, n) == View(st.store, n)
  {
    hide Lookup, Carried, Execute, Normal, Keeps, MadeUp, SetLanIf, DefaultLanIsUsable, Given, SetRaw;
    hide CurrentLan, MoveCommand, CarriesOver, View, Finishes, Accepted;
    var st1, olf := st.(sys := st.sys["lanif" := newif]), CurrentLan(st);
    var mode, options := ModeOf(st.store, olf), EntryAt(st.store, olf).options;
    var given := MovesByCommands(env, st, newif);
    EntryIsStructured(env, st, olf);
    var cmd := MoveCommand(newif, mode, given);
    MoveCommandIs(newif, mode, given);
    var r := Execute(env, st1, cmd);
    SuccessStoresRequest(env, st1, cmd);
    ExecuteHasEffect(env, st1, cmd);
    RawLeavesRest(env, r.state, olf);
    GivenCarries(st1, cmd, options, env.kinds[olf], env.kinds[newif], env);
    ViewIsOptions(SetLanIf(env, st, newif).state.store, r.state.store, newif);
    StoredCarries(env, st1, options, Given(st1, cmd), EntryAt(SetLanIf(env, st, newif).state.store, newif).options,
                  env.kinds[olf], env.kinds[newif]);
    ModeIsAddressing(st.store, olf, newif, cmd, mode);
    assert AutoAfter(st1, cmd) == (ModeOf(st.store, newif) == Target(cmd) && EntryAt(st.store, newif).auto);
  }

  /** Such a move gives the host's lines in the hosts file the address that moves with the LAN, or the
      stand-in for one that is not known yet. */
  lemma MoveWritesHosts(env: Env, st: State, newif: string, ip: string)
    requires NormalState(env, st) && newif in env.kinds && CurrentLan(st) in env.kinds && newif != CurrentLan(st)
    requires SetLanIf(env, st, newif).error.None? && Hosts.Clean(env.hostname) && Hosts.Clean(ip)
    requires var was := EntryAt(st.store, CurrentLan(st));
             if was.addressing == Some("static") then AddressText(was.options) == Ok(ip) else ip == "256.0.0.1"
    ensures HostLines(SetLanIf(env, st, newif).state) == Hosts.Rewrite(HostLines(st), ip, env.hostname)
  {
    hide Lookup, Carried, Execute, Normal, SetLanIf, DefaultLanIsUsable, SetRaw, AddressText, Hosts.Clean, HostLines;
    hide CurrentLan, MoveCommand, Finishes, Accepted;
    var st1, olf := st.(sys := st.sys["lanif" := newif]), CurrentLan(st);
    var mode, options := ModeOf(st.store, olf), EntryAt(st.store, olf).options;
    var given := MovesByCommands(env, st, newif);
    EntryIsStructured(env, st, olf);
    CarriedFits(env, st1, env.kinds[olf], env.kinds[newif], options);
    SameAddressText(given, options);
    var cmd := MoveCommand(newif, mode, given);
    MoveCommandIs(newif, mode, given);
    var r := Execute(env, st1, cmd);
    SucceedsExactlyWhenAccepted(env, st1, cmd);
    SysOfMove(env, st, newif);
    ModeIsAddressing(st.store, olf, newif, cmd, mode);
    HostsFollowCommand(env, st1, cmd);
    ExecuteIsNormal(env, st1, cmd);
    SysStays(env, st1, cmd);
    SameSysIsSameLan(r.state, st1);
    RawKeepsHosts(env, r.state, olf);
    SameHosts(st, st1);
    SameHosts(SetLanIf(env, st, newif).state, r.state);
  }

  lemma SameSysIsSameLan(a: State, b: State)
    requires a.sys == b.sys
    ensures CurrentLan(a) == CurrentLan(b)
  {
  }

  lemma SameHosts(a: State, b: State)
    requires a.hosts == b.hosts
    ensures HostLines(a) == HostLines(b)
  {
  }

  lemma RawKeepsHosts(env: Env, st: State, name: string)
    requires NormalState(env, st) && SetRaw(env, st, name).error.None? && name != CurrentLan(st)
    ensures SetRaw(env, st, name).state.hosts == st.hosts
  {
    hide SetRaw, Lookup, Normal, Accepted, Finishes, CurrentLan;
    SucceedsExactlyWhenAccepted(env, st, Raw(name));
    WritesHosts(env, st, Raw(name));
  }

  // What the commands have stored for the options of the old interface
  ghost predicate CarriesOver(was: Json, now: Json, from: Kind, to: Kind) {
    && (forall key | key !in BRIDGE_MEMBERS && key != "address" :: SameMember(was, now, key))
    && Has(now, "address") == Has(was, "address")
    && (Member(was, "address") !in {Null, Arr([])} ==> Member(now, "address") == Member(was, "address"))
    && (!to.Bridge? && !from.Bridge? ==> forall key <- BRIDGE_MEMBERS :: SameMember(was, now, key))
    && (!to.Bridge? && from.Bridge? ==> forall key <- BRIDGE_MEMBERS :: !Has(now, key))
  }

  ghost predicate SameMember(a: Json, b: Json, key: string) {
    Has(a, key) == Has(b, key) && Member(a, key) == Member(b, key)
  }

  lemma RawLeavesRest(env: Env, st: State, name: string)
    requires NormalState(env, st) && SetRaw(env, st, name).error.None?
    ensures var r := SetRaw(env, st, name).state;
            && r.sys == st.sys && (forall n | n != name :: View(r.store, n) == View(st.store, n))
            && View(r.store, name) == (None, Config("raw", Null, false))
  {
    hide SetRaw, Lookup, Normal, Accepted, Finishes;
    ExecuteHasEffect(env, st, Raw(name));
    RawIsSeen(SetRaw(env, st, name).state.store, name);
  }

  lemma RawIsSeen(store: Store, name: string)
    requires ModeOf(store, name) == IsRaw
    ensures View(store, name) == (None, Config("raw", Null, false))
  {
  }

  lemma GivenCarries(st: State, cmd: Command, options: Json, from: Kind, to: Kind, env: Env)
    requires !cmd.Raw? && cmd.req.Request? && Structured(options)
    requires Carried(env, st, from, to, options) == Ok(cmd.req.config)
    ensures forall key | key !in BRIDGE_MEMBERS && key != "address" :: SameMember(options, Given(st, cmd), key)
    ensures Has(Given(st, cmd), "address") == Has(options, "address")
    ensures Member(options, "address") !in {Null, Arr([])} ==> Member(Given(st, cmd), "address") == Member(options, "address")
    ensures !to.Bridge? && !from.Bridge? ==> forall key <- BRIDGE_MEMBERS :: SameMember(options, Given(st, cmd), key)
    ensures !to.Bridge? && from.Bridge? ==> forall key <- BRIDGE_MEMBERS :: !Has(Given(st, cmd), key)
  {
    hide CurrentLan, CurrentWlan, SysValue, DefaultLan, ArrayOf;
    assert BRIDGE_MEMBERS == ["bridge_maxwait", "bridge_fd", "bridge_ports"];
    var config, given := cmd.req.config, Given(st, cmd);
    assert forall key | key != "address" :: SameMember(config, given, key);
    assert forall key | key !in BRIDGE_MEMBERS :: SameMember(options, config, key);
  }

  lemma StoredCarries(env: Env, st: State, options: Json, given: Json, stored: Json, from: Kind, to: Kind)
    requires Keeps(to, given, stored) && (to.Bridge? ==> MadeUp(env, st, given, stored))
    requires forall key | key !in BRIDGE_MEMBERS && key != "address" :: SameMember(options, given, key)
    requires Has(given, "address") == Has(options, "address")
    requires Member(options, "address") !in {Null, Arr([])} ==> Member(given, "address") == Member(options, "address")
    requires !to.Bridge? && !from.Bridge? ==> forall key <- BRIDGE_MEMBERS :: SameMember(options, given, key)
    requires !to.Bridge? && from.Bridge? ==> forall key <- BRIDGE_MEMBERS :: !Has(given, key)
    ensures CarriesOver(options, stored, from, to)
  {
    hide Keeps, MadeUp, SameMember;
    if to.Bridge? {
      KeptBesides(env, st, given, stored);
      hide CarriesOver;
      SameInTurn(options, given, stored, from, to);
    } else {
      KeptByPort(to, given, stored);
    }
  }

  lemma KeptByPort(kind: Kind, given: Json, stored: Json)
    requires Keeps(kind, given, stored) && !kind.Bridge?
    ensures stored == given
  {
  }

  lemma KeptBesides(env: Env, st: State, given: Json, stored: Json)
    requires Keeps(Bridge, given, stored) && MadeUp(env, st, given, stored)
    ensures forall key | key !in BRIDGE_MEMBERS :: SameMember(given, stored, key)
  {
    hide CurrentWlan, SysValue, DefaultLan, ArrayOf, Strings.StrictlySorted, StringsOf;
    assert BRIDGE_MEMBERS == ["bridge_maxwait", "bridge_fd", "bridge_ports"];
  }

  lemma SameInTurn(options: Json, given: Json, stored: Json, from: Kind, to: Kind)
    requires to.Bridge? && forall key | key !in BRIDGE_MEMBERS :: SameMember(given, stored, key)
    requires forall key | key !in BRIDGE_MEMBERS && key != "address" :: SameMember(options, given, key)
    requires Has(given, "address") == Has(options, "address")
    requires Member(options, "address") !in {Null, Arr([])} ==> Member(given, "address") == Member(options, "address")
    ensures CarriesOver(options, stored, from, to)
  {
    assert "address" !in BRIDGE_MEMBERS;
    assert SameMember(given, stored, "address");
    forall key | key !in BRIDGE_MEMBERS && key != "address" ensures SameMember(options, stored, key) {
      assert SameMember(options, given, key) && SameMember(given, stored, key);
    }
  }

  lemma ModeIsAddressing(store: Store, olf: string, newif: string, cmd: Command, mode: Mode)
    requires mode == ModeOf(store, olf) && mode in {IsStatic, IsDynamic} && Target(cmd) == mode
    ensures EntryAt(store, olf).addressing == Some(if cmd.Static? then "static" else "dhcp")
    ensures ModeOf(store, newif) == Target(cmd) <==> EntryAt(store, newif).addressing == EntryAt(store, olf).addressing
  {
  }

  lemma SameBridge(st: State, newif: string, wlan: string, options: Json, stored: Json)
    requires LanBridge(st.(sys := st.sys["lanif" := newif]), wlan, options, stored)
    ensures LanBridge(st, wlan, options, stored)
  {
    hide Strings.StrictlySorted;
  }

  lemma MoveCommandIs(newif: string, mode: Mode, config: Json)
    requires mode in {IsStatic, IsDynamic} && Structured(config)
    ensures var cmd := MoveCommand(newif, mode, config);
            && cmd.Valid() && !cmd.Raw? && cmd.name == newif && cmd.req == Request(config, false)
            && Target(cmd) == mode && (cmd.Static? <==> mode == IsStatic)
  {
  }

  lemma ExecuteIsNormal(env: Env, st: State, cmd: Command)
    requires NormalState(env, st) && cmd.Valid()
    ensures NormalState(env, Execute(env, st, cmd).state)
  {
    hide Execute, Accepted, Normal;
    ExecuteHasEffect(env, st, cmd);
  }

  lemma RawLeavesOthers(env: Env, st: State, name: string, other: string)
    requires NormalState(env, st) && other != name
    ensures View(SetRaw(env, st, name).state.store, other) == View(st.store, other)
  {
    hide SetRaw, Lookup, Normal, View;
    OtherInterfacesStay(env, st, Raw(name), other);
  }

  lemma ViewIsOptions(a: Store, b: Store, name: string)
    requires View(a, name) == View(b, name) && View(b, name).0 in {Some("static"), Some("dhcp")}
    ensures EntryAt(a, name) == Entry(View(b, name).0, View(b, name).1.config, View(b, name).1.auto)
  {
  }

  lemma TouchedIsObject(config: Json)
    ensures Touched(config).Obj? <==> config.Obj?
  {
  }

  lemma MovesToPort(env: Env, st: State, port: string, bridge: string, mode: Mode, saved: Json)
    requires Ready(env, st, port, bridge) && CurrentLan(st) == bridge && mode in {IsStatic, IsDynamic}
    requires ModeOf(st.store, bridge) in {IsStatic, IsDynamic} && ModeOf(st.store, port) == IsRaw
    requires View(st.store, bridge) == (Some(Text(mode)), Config(Text(mode), saved, false))
    requires saved.Obj? && Portable(mode, WithoutBridgeKeys(saved))
    ensures MoveDone(env, SetLanIf(env, st, port), st, bridge, port,
                     Config(Text(mode), Restored(mode, saved), false))
  {
    hide Lookup, Validated, Normal, SetStatic, SetDynamic, SetRaw;
    hide AddressText, MoveDone, DefaultLanIsUsable, CurrentLan, SameBut, Touched, WithoutBridgeKeys;
    LookupKnows(env, port);
    LookupKnows(env, bridge);
    var st1 := st.(sys := st.sys["lanif" := port]);
    SysOfMove(env, st, port);
    var given := WithoutBridgeKeys(saved);
    assert EntryAt(st.store, bridge).options == saved;
    assert Carried(env, st1, Bridge, Ether, saved) == Ok(given);
    assert Completed(env, st1, Ether, given) == Ok(given) && forall c: Json :: SavedOptions(Ether, c) == c;
    if mode == IsStatic {
      SetStaticShows(env, st1, port, Ether, given, given);
      ThenRaw(env, st, SetStatic(env, st1, port, Request(given, false)), bridge, port, Bridge,
              Config("static", Touched(given), false));
    } else {
      SetDynamicShows(env, st1, port, Ether, given, given);
      ThenRaw(env, st, SetDynamic(env, st1, port, Request(given, false)), bridge, port, Bridge, Config("dhcp", given, false));
    }
  }

  lemma StaticIsObject(options: Json)
    requires Validated(options) == None
    ensures options.Obj?
  {
  }

  lemma RestoredIsPortable(mode: Mode, options: Json, saved: Json)
    requires Portable(mode, options) && saved.Obj? && WithoutBridgeKeys(saved) == Restored(mode, options)
    ensures Portable(mode, WithoutBridgeKeys(saved)) && Restored(mode, saved) == Restored(mode, options)
  {
    if mode == IsStatic {
      StaticIsObject(options);
    }
  }

  /** Moving the LAN from a static or dynamic port to a raw bridge and back gives the port its
      addressing and options again (absent options count as empty, members that belong to a bridge
      are gone, and an empty list of static addresses has got a null), leaves the bridge raw and nothing else changed. Only the flag
      `auto` of the port is not carried along. */
  lemma ThereAndBack(env: Env, st: State, port: string, bridge: string)
    requires Ready(env, st, port, bridge) && CurrentLan(st) == port
    requires ModeOf(st.store, port) in {IsStatic, IsDynamic} && ModeOf(st.store, bridge) == IsRaw
    requires Portable(ModeOf(st.store, port), EntryAt(st.store, port).options)
    ensures var there := SetLanIf(env, st, bridge);
            && there.error.None? && NormalState(env, there.state)
            && CurrentLan(there.state) == bridge && ModeOf(there.state.store, bridge) in {IsStatic, IsDynamic}
            && var back := SetLanIf(env, there.state, port);
               var was := EntryAt(st.store, port);
               && back.error.None? && back.state.sys == st.sys["lanif" := port]
               && View(back.state.store, port) ==
                    (was.addressing, Config(was.addressing.value, Restored(ModeOf(st.store, port), was.options), false))
               && View(back.state.store, bridge) == View(st.store, bridge)
               && forall n | n != port && n != bridge :: View(back.state.store, n) == View(st.store, n)
  {
    hide Lookup, Normal, SetLanIf, DefaultLanIsUsable, Portable, Restored;
    var mode, options := ModeOf(st.store, port), EntryAt(st.store, port).options;
    var saved := MovesToBridge(env, st, port, bridge);
    var there := SetLanIf(env, st, bridge).state;
    SysOfMove(env, st, bridge);
    assert DefaultLanIsUsable(env, there) by { SameSysIsUsable(env, there, st.(sys := st.sys["lanif" := bridge])); }
    RestoredIsPortable(mode, options, saved);
    MovesToPort(env, there, port, bridge, mode, saved);
    assert there.sys["lanif" := port] == st.sys["lanif" := port];
  }

  lemma SameSysIsUsable(env: Env, a: State, b: State)
    requires a.sys == b.sys
    ensures DefaultLanIsUsable(env, a) == DefaultLanIsUsable(env, b)
  {
  }

  predicate NoBridgeMembers(options: Json) {
    forall i | 0 <= i < |BRIDGE_MEMBERS| :: !Has(options, BRIDGE_MEMBERS[i])
  }

  /** The port is left exactly as it was just when it held no `auto` flag, its options were not
      absent and held no member of a bridge, and its static addresses were not an empty list or
      null. */
  lemma RestoredExactlyWhenPlain(env: Env, st: State, port: string, bridge: string)
    requires Ready(env, st, port, bridge) && CurrentLan(st) == port
    requires ModeOf(st.store, port) in {IsStatic, IsDynamic} && ModeOf(st.store, bridge) == IsRaw
    requires Portable(ModeOf(st.store, port), EntryAt(st.store, port).options)
    ensures NormalState(env, SetLanIf(env, st, bridge).state)
    ensures var back, was := SetLanIf(env, SetLanIf(env, st, bridge).state, port), EntryAt(st.store, port);
            View(back.state.store, port) == View(st.store, port) <==>
              && !was.auto && was.options.Obj? && NoBridgeMembers(was.options)
              && (ModeOf(st.store, port) == IsStatic ==> Member(was.options, "address") !in {Null, Arr([])})
  {
    ThereAndBack(env, st, port, bridge);
    hide SetLanIf, Lookup, Normal, Restored;
    RestoredIsSame(ModeOf(st.store, port), EntryAt(st.store, port).options);
  }

  lemma RestoredIsSame(mode: Mode, options: Json)
    requires Portable(mode, options)
    ensures Restored(mode, options) == options <==>
              && options.Obj? && NoBridgeMembers(options)
              && (mode == IsStatic ==> Member(options, "address") !in {Null, Arr([])})
  {
    assert BRIDGE_MEMBERS[0] == "bridge_maxwait" && BRIDGE_MEMBERS[1] == "bridge_fd" && BRIDGE_MEMBERS[2] == "bridge_ports";
    hide AddressText;
    if options.Obj? {
      assert Bare(options) == options <==> NoBridgeMembers(options) by { BareIsSame(options); }
      TouchedChanges(Bare(options));
      assert NoBridgeMembers(Bare(options)) by { BareIsBare(options); }
      TouchedAddsNone(Bare(options));
      if NoBridgeMembers(options) {
        TouchedChanges(options);
      }
    }
  }

  lemma BareIsBare(options: Json)
    ensures NoBridgeMembers(Bare(options))
  {
    assert BRIDGE_MEMBERS == ["bridge_maxwait", "bridge_fd", "bridge_ports"];
  }

  lemma BareIsSame(options: Json)
    requires options.Obj?
    ensures Bare(options) == options <==> NoBridgeMembers(options)
  {
    assert BRIDGE_MEMBERS[0] == "bridge_maxwait" && BRIDGE_MEMBERS[1] == "bridge_fd" && BRIDGE_MEMBERS[2] == "bridge_ports";
    if Bare(options) == options {
      BareIsBare(options);
    }
  }

  lemma TouchedAddsNone(config: Json)
    requires NoBridgeMembers(config)
    ensures NoBridgeMembers(Touched(config))
  {
    assert BRIDGE_MEMBERS[0] == "bridge_maxwait" && BRIDGE_MEMBERS[1] == "bridge_fd" && BRIDGE_MEMBERS[2] == "bridge_ports";
  }

  lemma TouchedChanges(config: Json)
    ensures Touched(config) == config <==> !(Has(config, "address") && Member(config, "address") in {Null, Arr([])})
  {
    if Touched(config) != config {
      assert Member(Touched(config), "address") == Arr([Null]);
    }
  }

  /** One way to be refused: a static port whose settings give an address and no netmask. The role
      has passed on all the same, and nothing else has changed. */
  lemma NetmaskIsMissed(env: Env, st: State, port: string, bridge: string)
    requires Ready(env, st, port, bridge) && CurrentLan(st) == port
    requires EntryAt(st.store, port).addressing == Some("static")
    requires var options := EntryAt(st.store, port).options;
             Has(options, "address") && IsArray(Member(options, "address")) && !Has(options, "netmask")
    ensures SetLanIf(env, st, bridge)
         == Outcome(st.(sys := st.sys["lanif" := bridge]), Some(Missing("netmask")))
  {
    LookupKnows(env, port);
    LookupKnows(env, bridge);
    hide Lookup, CurrentLan, Normal;
    SysOfMove(env, st, bridge);
    var st1 := st.(sys := st.sys["lanif" := bridge]);
    var options := EntryAt(st.store, port).options;
    CurrentWlanIsFound(env, st1);
    hide CurrentWlan;
    CarriedFits(env, st1, Ether, Bridge, options);
  }
}
