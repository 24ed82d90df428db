/** The three commands that set the addressing of an interface, and what runs of them keep. */
module LanCommands {
  import opened Wrappers
  import opened Interfaces
  import Hosts
  import Strings

  // What the commands find around them and never change
  datatype Env = Env(kernel: seq<string>, kinds: map<string, Kind>, hostname: string)

  // The interface store, the system configuration and the text of the hosts file
  datatype State = State(store: Store, sys: map<string, string>, hosts: string)

  // What a command is given; without a request it keeps or drops the options
  datatype Request = NoRequest | Request(config: Json, auto: bool)
  {
    predicate Valid() {
      Request? ==> Structured(config)
    }

    function Config(): Json {
      if Request? then config else Null
    }

    predicate Auto() {
      Request? && auto
    }
  }

  // A command may fail after it has changed the state.
  datatype Outcome = Outcome(state: State, error: Option<Error>)

  function Done(st: State): Outcome {
    Outcome(st, None)
  }

  function Fail(st: State, e: Error): Outcome {
    Outcome(st, Some(e))
  }

  // ---------- Names and defaults ----------

  function SysValue(st: State, key: string, default: string): string {
    if key in st.sys then st.sys[key] else default
  }

  function DefaultLan(st: State): string {
    SysValue(st, "defaultlan", "eth1")
  }

  function CurrentLan(st: State): string {
    SysValue(st, "lanif", DefaultLan(st))
  }

  predicate Begins(s: string, prefix: string) {
    prefix <= s
  }

  // The names of the kernel that pass the filter, without the loopback
  function Listed(kernel: seq<string>, kinds: map<string, Kind>, filter: Option<Kind>): seq<string> {
    if kernel == [] then [] else
      var rest := Listed(kernel[1..], kinds, filter);
      var name := kernel[0];
      if (filter.Some? && (name !in kinds || kinds[name] != filter.value)) || Begins(name, "lo") then rest
      else [name] + rest
  }

  predicate HasBridge(names: seq<string>) {
    exists n <- names :: Begins(n, "br")
  }

  // A bridge is listed even when there is none yet.
  function InterfaceNames(env: Env, filter: Option<Kind>): seq<string> {
    var names := Listed(env.kernel, env.kinds, filter);
    if (filter.None? || filter.value.Bridge?) && !HasBridge(names) then names + ["br0"]
    else names
  }

  // A name of the kernel that passes the filter, or the bridge that is always listed
  predicate IsListed(env: Env, filter: Option<Kind>, n: string) {
    || (n in env.kernel && !Begins(n, "lo") && (filter.Some? ==> n in env.kinds && env.kinds[n] == filter.value))
    || (n == "br0" && filter != Some(Ether) && filter != Some(Wlan)
        && forall m <- env.kernel :: Begins(m, "br") ==> filter.Some? && !(m in env.kinds && env.kinds[m].Bridge?))
  }

  lemma {:induction false} ListedExactly(kernel: seq<string>, kinds: map<string, Kind>, filter: Option<Kind>, n: string)
    ensures n in Listed(kernel, kinds, filter) <==>
            n in kernel && !Begins(n, "lo") && (filter.Some? ==> n in kinds && kinds[n] == filter.value)
  {
    hide Begins;
    if kernel != [] {
      ListedExactly(kernel[1..], kinds, filter, n);
    }
  }

  lemma BridgeIsNoLoopback(m: string)
    ensures Begins(m, "br") ==> !Begins(m, "lo")
  {
    assert Begins(m, "br") ==> m[0] == 'b';
    assert Begins(m, "lo") ==> m[0] == 'l';
  }

  /** The interfaces of a type are the kernel's, without the loopback, and a bridge to be. */
  lemma NamesAreThoseListed(env: Env, filter: Option<Kind>, n: string)
    ensures n in InterfaceNames(env, filter) <==> IsListed(env, filter, n)
  {
    hide Begins, Listed;
    var names := Listed(env.kernel, env.kinds, filter);
    ListedExactly(env.kernel, env.kinds, filter, n);
    forall m | m in env.kernel || m in names
      ensures m in names && Begins(m, "br") <==>
              Begins(m, "br") && m in env.kernel && (filter.Some? ==> m in env.kinds && env.kinds[m] == filter.value)
    {
      ListedExactly(env.kernel, env.kinds, filter, m);
      BridgeIsNoLoopback(m);
    }
  }

  function Lookup(env: Env, name: string): Result<Kind, Error> {
    if name !in InterfaceNames(env, None) then Err(DeviceNotFound)
    else if name !in env.kinds then Err(UnknownInterface)
    else Ok(env.kinds[name])
  }

  /** An interface is found exactly when it is listed and its type is known; if it is not listed that
      is what is said. */
  lemma FoundExactly(env: Env, name: string)
    ensures Lookup(env, name) == if !IsListed(env, None, name) then Err(DeviceNotFound)
                                 else if name !in env.kinds then Err(UnknownInterface) else Ok(env.kinds[name])
  {
    hide IsListed, InterfaceNames;
    NamesAreThoseListed(env, None, name);
  }

  function FirstOf(names: seq<string>, among: seq<string>): string {
    if names == [] then "" else if names[0] in among then names[0] else FirstOf(names[1..], among)
  }

  // The wireless interface that belongs to a bridge with these options
  function WlanFor(options: Json, wlans: seq<string>): string {
    var found := if Has(options, "bridge_ports")
                 then FirstOf(wlans, StringsOf(Member(options, "bridge_ports"))) else "";
    if found == "" && wlans != [] then wlans[0] else found
  }

  function CurrentWlan(env: Env, st: State): Result<string, Error> {
    var wlans := InterfaceNames(env, Some(Wlan));
    var lan := SysValue(st, "lanif", "eth1");
    match Lookup(env, lan)
    case Err(e) => Err(e)
    case Ok(kind) =>
      var e := EntryAt(st.store, lan);
      Ok(if ProfileOf(kind, e) in {BridgeStatic, BridgeDynamic} then WlanFor(e.options, wlans)
         else if wlans != [] then wlans[0] else "")
  }

  // The options say which ports the bridge has.
  function PortsOf(options: Json): seq<string> {
    StringsOf(Member(options, "bridge_ports"))
  }

  lemma {:induction false} FirstOfIsFirst(names: seq<string>, among: seq<string>)
    ensures var r := FirstOf(names, among);
            if exists n <- names :: n in among
            then IsFirstAmong(r, names, among) else r == ""
  {
    if names != [] {
      var rest := names[1..];
      FirstOfIsFirst(rest, among);
      var r := FirstOf(names, among);
      assert names[0] == names[0];
      if names[0] !in among && exists n <- rest :: n in among {
        var i :| 0 <= i < |rest| && rest[i] == r && r in among && forall j | 0 <= j < i :: rest[j] !in among;
        assert names[i + 1] == r && forall j | 0 <= j < i + 1 :: names[j] !in among by {
          assert forall j | 1 <= j < i + 1 :: names[j] == rest[j - 1];
        }
        assert exists n <- names :: n in among;
      }
      if !(exists n <- rest :: n in among) {
        assert forall n <- names :: n == names[0] || n in rest;
      }
    }
  }

  // The wireless interface that goes with the LAN: one that is listed, if there is any; the first
  // among the ports of the LAN's bridge, if there is one; else the first of all.
  predicate GoesWithLan(env: Env, st: State, wlan: string) {
    var wlans := InterfaceNames(env, Some(Wlan));
    var e := EntryAt(st.store, SysValue(st, "lanif", "eth1"));
    var kind := Lookup(env, SysValue(st, "lanif", "eth1"));
    if wlans == [] then wlan == ""
    else if && kind == Ok(Bridge) && ModeOf(st.store, SysValue(st, "lanif", "eth1")) in {IsStatic, IsDynamic}
            && exists n <- wlans :: n in PortsOf(e.options)
    then IsFirstAmong(wlan, wlans, PortsOf(e.options))
    else wlan == wlans[0]
  }

  predicate IsFirstAmong(name: string, names: seq<string>, among: seq<string>) {
    exists i | 0 <= i < |names| :: names[i] == name && name in among && forall j | 0 <= j < i :: names[j] !in among
  }

  // Network interfaces have names.
  predicate AllNamed(env: Env) {
    "" !in env.kernel
  }

  /** What is taken for the current wireless interface. */
  lemma CurrentWlanGoesWithLan(env: Env, st: State)
    requires AllNamed(env)
    ensures var r := CurrentWlan(env, st); r.Ok? ==> GoesWithLan(env, st, r.value)
    ensures var r := CurrentWlan(env, st); r.Ok? && r.value != "" ==> IsListed(env, Some(Wlan), r.value)
  {
    hide Lookup, InterfaceNames, IsListed, PortsOf, WlanFor, IsFirstAmong;
    var r := CurrentWlan(env, st);
    var wlans := InterfaceNames(env, Some(Wlan));
    NoWlan(EntryAt(st.store, SysValue(st, "lanif", "eth1")).options);
    if r.Ok? && wlans != [] {
      var e := EntryAt(st.store, SysValue(st, "lanif", "eth1"));
      assert "" !in wlans by {
        NamesAreThoseListed(env, Some(Wlan), "");
        assert !IsListed(env, Some(Wlan), "") by { Unlisted(env); }
      }
      WlanForIsFirst(e.options, wlans);
      NamesAreThoseListed(env, Some(Wlan), r.value);
    }
  }

  lemma NoWlan(options: Json)
    ensures WlanFor(options, []) == ""
  {
  }

  lemma WlanForIsFirst(options: Json, wlans: seq<string>)
    requires wlans != [] && "" !in wlans
    ensures var wlan := WlanFor(options, wlans);
            && wlan in wlans
            && if exists n <- wlans :: n in PortsOf(options) then IsFirstAmong(wlan, wlans, PortsOf(options))
               else wlan == wlans[0]
  {
    hide FirstOf;
    NoPortsWithoutMember(options);
    FirstOfIsFirst(wlans, PortsOf(options));
  }

  lemma Unlisted(env: Env)
    requires AllNamed(env)
    ensures !IsListed(env, Some(Wlan), "")
  {
  }

  lemma NoPortsWithoutMember(options: Json)
    ensures !Has(options, "bridge_ports") ==> PortsOf(options) == []
  {
  }

  // ---------- Checks ----------

  function Validated(config: Json): Option<Error> {
    if !Has(config, "address") then Some(Missing("address"))
    else if !IsArray(Member(config, "address")) then Some(NotArray("address"))
    else if !Has(config, "netmask") then Some(Missing("netmask"))
    else if !IsArray(Member(config, "netmask")) then Some(NotArray("netmask"))
    else None
  }

  function WithDefault(config: Json, key: string, value: string): Json {
    if Has(config, key) then config else With(config, key, ArrayOf([value]))
  }

  function BridgeDefaults(env: Env, st: State, config: Json): Result<Json, Error> {
    var c1 := WithDefault(config, "bridge_maxwait", SysValue(st, "bridge_maxwait", "0"));
    if !IsArray(Member(c1, "bridge_maxwait")) then Err(NotArray("bridge_maxwait")) else
      var c2 := WithDefault(c1, "bridge_fd", SysValue(st, "bridge_fd", "0"));
      if !IsArray(Member(c2, "bridge_fd")) then Err(NotArray("bridge_fd")) else
        match (if Has(c2, "bridge_ports") then Ok("") else CurrentWlan(env, st))
        case Err(e) => Err(e)
        case Ok(wlan) =>
          var c3 := if Has(c2, "bridge_ports") then c2
                    else With(c2, "bridge_ports", ArrayOf([DefaultLan(st), wlan]));
          if !IsArray(Member(c3, "bridge_ports")) then Err(NotArray("bridge_ports")) else Ok(c3)
  }

  predicate ListMember(config: Json, key: string) {
    config.Obj? && key in config.members && (config.members[key].Null? || config.members[key].Arr?)
  }

  /** Static settings pass exactly with a list of addresses and a list of netmasks, and what is
      complained of first is the address. */
  lemma PassesExactly(config: Json)
    ensures Validated(config).None? <==> ListMember(config, "address") && ListMember(config, "netmask")
    ensures var e := Validated(config);
            e.Some? ==> var key := if ListMember(config, "address") then "netmask" else "address";
                        e.value == if Has(config, key) then NotArray(key) else Missing(key)
  {
  }

  // The first address, as text
  function AddressText(config: Json): Result<string, Error> {
    var a := Member(config, "address");
    match (if a.Arr? && a.items != [] then a.items[0] else Null)
    case Null => Ok("")
    case Str(s) => Ok(s)
    case Bool(b) => Ok(if b then "true" else "false")
    case _ => Err(NotConvertible)
  }

  /** Of a list of texts it is the first, and of an empty list or none at all it is empty. */
  lemma AddressIsFirst(config: Json, ips: seq<string>)
    requires Member(config, "address") == ArrayOf(ips) || (ips == [] && Member(config, "address") == Null)
    ensures AddressText(config) == Ok(if ips == [] then "" else ips[0])
  {
  }

  // Asking an empty list, or null, for its first item makes it a list of one null.
  function Touched(config: Json): Json {
    if Has(config, "address") && Member(config, "address") in {Null, Arr([])} then With(config, "address", Arr([Null])) else config
  }

  // ---------- The hosts file ----------

  function Moved(hosts: string, ip: string, name: string): string {
    Hosts.Text(Hosts.Rewrite(Hosts.ParseLines(Strings.Lines(hosts)), ip, name))
  }

  function Forgotten(hosts: string, name: string): string {
    Hosts.Text(Hosts.Unmatched(Hosts.ParseLines(Strings.Lines(hosts)), name))
  }

  // ---------- The commands ----------

  // Switching an interface to promiscuous mode writes its settings back as they were read.
  function Promiscuous(env: Env, st: State, name: string): Outcome {
    match Lookup(env, name)
    case Err(e) => Fail(st, e)
    case Ok(kind) =>
      var e := EntryAt(st.store, name);
      match Saved(kind, name, st.store, ProfileOf(kind, e), ConfigOf(e))
      case Err(e) => Fail(st, e)
      case Ok(store) => Done(st.(store := store))
  }

  function Commit(env: Env, st: State, name: string, kind: Kind, profile: Profile, c: Config): Outcome {
    match Saved(kind, name, st.store, profile, c)
    case Err(e) => Fail(st, e)
    case Ok(store) =>
      var st1 := st.(store := store);
      if kind.Bridge? then Promiscuous(env, st1, DefaultLan(st1)) else Done(st1)
  }

  // The options to store: those of a bridge are completed first
  function Completed(env: Env, st: State, kind: Kind, config: Json): Result<Json, Error> {
    if kind.Bridge? then BridgeDefaults(env, st, config) else Ok(config)
  }

  function StaticHosts(env: Env, st: State, name: string, config: Json): Result<string, Error> {
    if name != CurrentLan(st) then Ok(st.hosts) else
      match AddressText(config)
      case Err(e) => Err(e)
      case Ok(ip) => Ok(Moved(st.hosts, ip, env.hostname))
  }

  // The address of the current LAN interface is looked at before the options are stored.
  function StaticConfig(st: State, name: string, config: Json): Json {
    if name == CurrentLan(st) then Touched(config) else config
  }

  function SetStatic(env: Env, st: State, name: string, req: Request): Outcome
    requires req.Valid()
  {
    match Lookup(env, name)
    case Err(e) => Fail(st, e)
    case Ok(kind) =>
      var old_ := EntryAt(st.store, name);
      var p := ProfileOf(kind, old_);
      if Validated(req.Config()).Some? then Fail(st, Validated(req.Config()).value)
      else if p == NoProfile then Fail(st, NoConfigToUpdate)
      else
        match Completed(env, st, kind, req.Config())
        case Err(e) => Fail(st, e)
        case Ok(config) =>
          match StaticHosts(env, st, name, config)
          case Err(e) => Fail(st, e)
          case Ok(hosts) =>
            Commit(env, st.(hosts := hosts), name, kind, StaticOf(kind),
                   Config("static", StaticConfig(st, name, config),
                          req.Auto() || (p == StaticOf(kind) && old_.auto)))
  }

  // "256.0.0.1" stands in for an address that is not known yet.
  const NO_ADDRESS := "256.0.0.1"

  function DynamicHosts(env: Env, st: State, name: string): string {
    if name == CurrentLan(st) then Moved(st.hosts, NO_ADDRESS, env.hostname) else st.hosts
  }

  function SetDynamic(env: Env, st: State, name: string, req: Request): Outcome
    requires req.Valid()
  {
    match Lookup(env, name)
    case Err(e) => Fail(st, e)
    case Ok(kind) =>
      var old_ := EntryAt(st.store, name);
      var p := ProfileOf(kind, old_);
      if p == NoProfile then Fail(st, NoConfigToUpdate) else
        var given := if req.NoRequest? && p == EthDynamic then old_.options else req.Config();
        match Completed(env, st, kind, given)
        case Err(e) => Fail(st, e)
        case Ok(config) =>
          Commit(env, st.(hosts := DynamicHosts(env, st, name)), name, kind, DynamicOf(kind),
                 Config("dhcp", config, req.Auto() || (p == DynamicOf(kind) && old_.auto)))
  }

  function SetRaw(env: Env, st: State, name: string): Outcome {
    match Lookup(env, name)
    case Err(e) => Fail(st, e)
    case Ok(kind) =>
      if ProfileOf(kind, EntryAt(st.store, name)) == NoProfile then Fail(st, NoConfigToUpdate) else
        var hosts := if name == CurrentLan(st) then Forgotten(st.hosts, env.hostname) else st.hosts;
        Commit(env, st.(hosts := hosts), name, kind, RawOf(kind), Config("raw", Null, false))
  }

  datatype Command =
    | Static(name: string, req: Request)
    | Dynamic(name: string, req: Request)
    | Raw(name: string)
  {
    predicate Valid() {
      !Raw? ==> req.Valid()
    }
  }

  function Execute(env: Env, st: State, cmd: Command): Outcome
    requires cmd.Valid()
  {
    match cmd
    case Static(name, req) => SetStatic(env, st, name, req)
    case Dynamic(name, req) => SetDynamic(env, st, name, req)
    case Raw(name) => SetRaw(env, st, name)
  }

  // ---------- What a command does ----------

  datatype Mode = IsRaw | IsStatic | IsDynamic | IsOdd

  function ModeOf(store: Store, name: string): Mode {
    match EntryAt(store, name).addressing
    case None => IsRaw
    case Some(a) => if a == "static" then IsStatic else if a == "dhcp" then IsDynamic else IsOdd
  }

  function Target(cmd: Command): Mode {
    match cmd
    case Static(_, _) => IsStatic
    case Dynamic(_, _) => IsDynamic
    case Raw(_) => IsRaw
  }

  ghost predicate NormalState(env: Env, st: State) {
    Normal(env.kinds, st.store)
  }

  // The final step of a bridge command can write back the default LAN interface.
  predicate DefaultLanIsUsable(env: Env, st: State) {
    Lookup(env, DefaultLan(st)).Ok?
  }

  // Nothing can be told apart but, at most, the given interface.
  ghost predicate SameBut(a: State, b: State, name: string) {
    a.sys == b.sys && forall n | n != name :: View(a.store, n) == View(b.store, n)
  }

  lemma PromiscuousChangesNothing(env: Env, st: State, name: string)
    requires NormalState(env, st)
    ensures var r := Promiscuous(env, st, name);
            && r.state == st.(store := r.state.store) && NormalState(env, r.state)
            && (forall n :: View(r.state.store, n) == View(st.store, n))
            && r.error == if Lookup(env, name).Ok? then None else Some(Lookup(env, name).error)
  {
    hide Lookup, View, Normal;
    LookupKnows(env, name);
    if Lookup(env, name).Ok? {
      WritingBackIsIdentity(env.kinds, st.store, name);
    }
  }

  lemma LookupKnows(env: Env, name: string)
    ensures Lookup(env, name).Ok? ==> name in env.kinds && Lookup(env, name).value == env.kinds[name]
  {
  }

  // What the store holds for the interface after the command
  function NewEntry(kind: Kind, profile: Profile, c: Config): Entry {
    if profile == RawOf(kind) then Entry(None, Null, false)
    else Entry(Some(c.addressing), SavedOptions(kind, c.config), c.auto)
  }

  lemma CommitStores(env: Env, st: State, name: string, kind: Kind, profile: Profile, c: Config)
    requires NormalState(env, st) && Lookup(env, name) == Ok(kind)
    requires profile in {StaticOf(kind), DynamicOf(kind), RawOf(kind)}
    requires profile != RawOf(kind) ==> c.addressing in {"static", "dhcp"} && Structured(c.config)
    ensures var r, e := Commit(env, st, name, kind, profile, c), NewEntry(kind, profile, c);
            && SameBut(r.state, st, name) && View(r.state.store, name) == (e.addressing, ConfigOf(e))
            && r.state.hosts == st.hosts && NormalState(env, r.state)
            && (r.error.None? <==> (kind.Bridge? ==> DefaultLanIsUsable(env, st)))
  {
    hide Lookup, Promiscuous;
    var e := NewEntry(kind, profile, c);
    var store := if e.addressing.None? then st.store - {name} else st.store[name := e];
    assert Saved(kind, name, st.store, profile, c) == Ok(store);
    LookupKnows(env, name);
    SavedOptionsAreFixed(kind, c.config);
    assert Normal(env.kinds, store);
    PromiscuousChangesNothing(env, st.(store := store), DefaultLan(st));
  }

  // The members that belong to a bridge, if they are given, and the ports can be made up if not.
  predicate BridgeFits(env: Env, st: State, config: Json) {
    && (forall i | 0 <= i < |BRIDGE_MEMBERS| ::
          Has(config, BRIDGE_MEMBERS[i]) ==> IsArray(Member(config, BRIDGE_MEMBERS[i])))
    && (Has(config, "bridge_ports") || Lookup(env, SysValue(st, "lanif", "eth1")).Ok?)
  }

  const BRIDGE_MEMBERS := ["bridge_maxwait", "bridge_fd", "bridge_ports"]

  // The command passes all checks; what the interface was before does not matter.
  predicate Accepted(env: Env, st: State, cmd: Command) {
    var name := cmd.name;
    && Lookup(env, name).Ok?
    && match cmd
       case Raw(_) => true
       case Static(_, req) =>
         && Validated(req.Config()).None?
         && (name in env.kinds && env.kinds[name].Bridge? ==> BridgeFits(env, st, req.Config()))
         && (name == CurrentLan(st) ==> AddressText(req.Config()).Ok?)
       case Dynamic(_, req) =>
         name in env.kinds && env.kinds[name].Bridge? ==> BridgeFits(env, st, req.Config())
  }

  // The first of the members of a bridge that does not fit, or what is missing for its ports
  function BridgeComplaint(env: Env, st: State, config: Json): Error {
    if Has(config, "bridge_maxwait") && !IsArray(Member(config, "bridge_maxwait")) then NotArray("bridge_maxwait")
    else if Has(config, "bridge_fd") && !IsArray(Member(config, "bridge_fd")) then NotArray("bridge_fd")
    else if Has(config, "bridge_ports") then NotArray("bridge_ports")
    else
      match Lookup(env, SysValue(st, "lanif", "eth1"))
      case Err(e) => e
      case Ok(_) => LibraryStops
  }

  lemma BridgeComplains(env: Env, st: State, config: Json)
    requires Structured(config)
    ensures var r := BridgeDefaults(env, st, config); r.Err? ==> r.error == BridgeComplaint(env, st, config)
  {
    hide Lookup, InterfaceNames, DefaultLan, SysValue, WlanFor;
  }

  // What a command that fails says: what is wrong first, in the order of the checks
  function Complaint(env: Env, st: State, cmd: Command): Error {
    var config := if cmd.Raw? then Null else cmd.req.Config();
    match Lookup(env, cmd.name)
    case Err(e) => e
    case Ok(kind) =>
      if cmd.Static? && Validated(config).Some? then Validated(config).value
      else if !cmd.Raw? && kind.Bridge? && !BridgeFits(env, st, config) then BridgeComplaint(env, st, config)
      else if cmd.Static? && cmd.name == CurrentLan(st) && AddressText(config).Err? then NotConvertible
      else match Lookup(env, DefaultLan(st))
           case Err(e) => e
           case Ok(_) => LibraryStops
  }

  // Its last step can be done, too.
  predicate Finishes(env: Env, st: State, cmd: Command) {
    cmd.name in env.kinds && env.kinds[cmd.name].Bridge? ==> DefaultLanIsUsable(env, st)
  }

  // A command that is not accepted fails and changes nothing. One that is accepted sets its mode,
  // and succeeds if its last step can be done.
  ghost predicate Effect(env: Env, st: State, cmd: Command, r: Outcome) {
    if Accepted(env, st, cmd) then
      && SameBut(r.state, st, cmd.name) && ModeOf(r.state.store, cmd.name) == Target(cmd)
      && (r.error.None? <==> Finishes(env, st, cmd))
    else
      r.error.Some? && r.state == st
  }

  // Completing the options of a bridge
  lemma CompletedExactlyWhenFits(env: Env, st: State, config: Json)
    requires Structured(config)
    ensures var r := Completed(env, st, Bridge, config);
            && (r.Ok? <==> BridgeFits(env, st, config))
            && (r.Ok? ==> Completes(config, r.value) && Member(r.value, "address") == Member(config, "address"))
  {
    hide Lookup, DefaultLan, SysValue;
    assert BRIDGE_MEMBERS[0] == "bridge_maxwait" && BRIDGE_MEMBERS[1] == "bridge_fd" && BRIDGE_MEMBERS[2] == "bridge_ports";
    WlanExactlyWhenLan(env, st);
    hide CurrentWlan;
    DefaultsComplete(env, st, config);
  }

  lemma WlanExactlyWhenLan(env: Env, st: State)
    ensures CurrentWlan(env, st).Ok? <==> Lookup(env, SysValue(st, "lanif", "eth1")).Ok?
  {
    hide Lookup, InterfaceNames;
  }

  lemma ExecuteHasEffect(env: Env, st: State, cmd: Command)
    requires NormalState(env, st) && cmd.Valid()
    ensures var r := Execute(env, st, cmd); NormalState(env, r.state) && Effect(env, st, cmd, r)
  {
    hide Lookup, Commit, Completed, Validated, DefaultLanIsUsable, BridgeFits, AddressText, Completes;
    hide Normal, Forgotten, Moved, CurrentLan, Touched;
    var name, r := cmd.name, Execute(env, st, cmd);
    match Lookup(env, name)
    case Err(_) =>
    case Ok(kind) =>
      LookupKnows(env, name);
      ProfileIsKnown(env, st, name);
      match cmd {
        case Static(_, req) => StaticHasEffect(env, st, name, req, kind);
        case Dynamic(_, req) => DynamicHasEffect(env, st, name, req, kind);
        case Raw(_) =>
          var hosts := if name == CurrentLan(st) then Forgotten(st.hosts, env.hostname) else st.hosts;
          CommitHasEffect(env, st, hosts, cmd, kind, RawOf(kind), Config("raw", Null, false));
      }
  }

  lemma ProfileIsKnown(env: Env, st: State, name: string)
    requires NormalState(env, st)
    ensures forall kind: Kind :: ProfileOf(kind, EntryAt(st.store, name)) != NoProfile
  {
  }

  lemma StaticHasEffect(env: Env, st: State, name: string, req: Request, kind: Kind)
    requires NormalState(env, st) && req.Valid() && Lookup(env, name) == Ok(kind)
    ensures var r := SetStatic(env, st, name, req);
            NormalState(env, r.state) && Effect(env, st, Static(name, req), r)
  {
    hide Lookup, Commit, Validated, DefaultLanIsUsable, BridgeFits, AddressText, Completes;
    hide Normal, Moved, CurrentLan, Touched, BridgeDefaults;
    LookupKnows(env, name);
    ProfileIsKnown(env, st, name);
    CompletedIsStructured(env, st, kind, req.Config());
    if kind.Bridge? {
      CompletedExactlyWhenFits(env, st, req.Config());
    }
    var old_, done := EntryAt(st.store, name), Completed(env, st, kind, req.Config());
    if done.Ok? && Validated(req.Config()).None? {
      SameAddressText(done.value, req.Config());
      TouchedIsStructured(done.value);
      var hosts := StaticHosts(env, st, name, done.value);
      if hosts.Ok? {
        var c := Config("static", StaticConfig(st, name, done.value),
                        req.Auto() || (ProfileOf(kind, old_) == StaticOf(kind) && old_.auto));
        CommitHasEffect(env, st, hosts.value, Static(name, req), kind, StaticOf(kind), c);
      }
    }
  }

  lemma SameAddressText(a: Json, b: Json)
    requires Member(a, "address") == Member(b, "address")
    ensures AddressText(a) == AddressText(b)
  {
  }

  lemma TouchedIsStructured(config: Json)
    requires Structured(config)
    ensures Structured(Touched(config))
  {
  }

  lemma DynamicHasEffect(env: Env, st: State, name: string, req: Request, kind: Kind)
    requires NormalState(env, st) && req.Valid() && Lookup(env, name) == Ok(kind)
    ensures var r := SetDynamic(env, st, name, req);
            NormalState(env, r.state) && Effect(env, st, Dynamic(name, req), r)
  {
    hide Lookup, Commit, DefaultLanIsUsable, BridgeFits, Completes;
    hide Normal, DynamicHosts, CurrentLan, BridgeDefaults;
    LookupKnows(env, name);
    ProfileIsKnown(env, st, name);
    EntryIsStructured(env, st, name);
    var old_ := EntryAt(st.store, name);
    var p := ProfileOf(kind, old_);
    var given := if req.NoRequest? && p == EthDynamic then old_.options else req.Config();
    CompletedIsStructured(env, st, kind, given);
    if kind.Bridge? {
      CompletedExactlyWhenFits(env, st, given);
    }
    var done := Completed(env, st, kind, given);
    if done.Ok? {
      var c := Config("dhcp", done.value, req.Auto() || (p == DynamicOf(kind) && old_.auto));
      CommitHasEffect(env, st, DynamicHosts(env, st, name), Dynamic(name, req), kind, DynamicOf(kind), c);
    }
  }

  lemma EntryIsStructured(env: Env, st: State, name: string)
    requires NormalState(env, st)
    ensures Structured(EntryAt(st.store, name).options)
  {
  }

  lemma CompletedIsStructured(env: Env, st: State, kind: Kind, config: Json)
    requires Structured(config)
    ensures var r := Completed(env, st, kind, config); r.Ok? ==> Structured(r.value)
  {
  }

  lemma CommitHasEffect(env: Env, st: State, hosts: string, cmd: Command, kind: Kind, profile: Profile, c: Config)
    requires NormalState(env, st) && Lookup(env, cmd.name) == Ok(kind)
    requires match cmd
             case Static(_, _) => profile == StaticOf(kind) && c.addressing == "static"
             case Dynamic(_, _) => profile == DynamicOf(kind) && c.addressing == "dhcp"
             case Raw(_) => profile == RawOf(kind)
    requires Structured(c.config) && Accepted(env, st, cmd)
    ensures var r := Commit(env, st.(hosts := hosts), cmd.name, kind, profile, c);
            NormalState(env, r.state) && Effect(env, st, cmd, r)
  {
    hide Lookup, Commit, Normal, Accepted;
    CommitStores(env, st.(hosts := hosts), cmd.name, kind, profile, c);
    LookupKnows(env, cmd.name);
    assert DefaultLanIsUsable(env, st) == DefaultLanIsUsable(env, st.(hosts := hosts));
  }

  /** A command succeeds exactly when it passes its checks and its last step can be done, whatever
      mode its interface was in. */
  lemma SucceedsExactlyWhenAccepted(env: Env, st: State, cmd: Command)
    requires NormalState(env, st) && cmd.Valid()
    ensures Execute(env, st, cmd).error.None? <==> Accepted(env, st, cmd) && Finishes(env, st, cmd)
  {
    hide Execute, Accepted, Finishes;
    ExecuteHasEffect(env, st, cmd);
  }

  lemma CommitComplains(env: Env, st: State, name: string, kind: Kind, profile: Profile, c: Config)
    requires NormalState(env, st) && Lookup(env, name) == Ok(kind)
    requires profile in {StaticOf(kind), DynamicOf(kind), RawOf(kind)}
    requires profile != RawOf(kind) ==> c.addressing in {"static", "dhcp"} && Structured(c.config)
    ensures var r := Commit(env, st, name, kind, profile, c);
            r.error.Some? ==> Lookup(env, DefaultLan(st)).Err? && r.error == Some(Lookup(env, DefaultLan(st)).error)
  {
    hide Lookup, Promiscuous;
    var store := if profile == RawOf(kind) then st.store - {name} else st.store[name := NewEntry(kind, profile, c)];
    assert Saved(kind, name, st.store, profile, c) == Ok(store);
    LookupKnows(env, name);
    SavedOptionsAreFixed(kind, c.config);
    assert Normal(env.kinds, store);
    PromiscuousChangesNothing(env, st.(store := store), DefaultLan(st));
  }

  lemma AddressComplains(config: Json)
    ensures AddressText(config).Err? ==> AddressText(config).error == NotConvertible
  {
  }

  lemma StaticComplains(env: Env, st: State, name: string, req: Request)
    requires NormalState(env, st) && req.Valid() && SetStatic(env, st, name, req).error.Some?
    ensures SetStatic(env, st, name, req).error == Some(Complaint(env, st, Static(name, req)))
  {
    hide Lookup, Commit, Validated, BridgeFits, AddressText, Completes, BridgeDefaults, BridgeComplaint;
    hide Normal, Moved, CurrentLan, Touched, DefaultLan;
    ProfileIsKnown(env, st, name);
    if Lookup(env, name).Ok? {
      var kind, given := Lookup(env, name).value, req.Config();
      var old_ := EntryAt(st.store, name);
      CompletedIsStructured(env, st, kind, given);
      BridgeComplains(env, st, given);
      if kind.Bridge? {
        CompletedExactlyWhenFits(env, st, given);
      }
      var done := Completed(env, st, kind, given);
      if done.Ok? {
        SameAddressText(done.value, given);
        AddressComplains(given);
        TouchedIsStructured(done.value);
        var hosts := StaticHosts(env, st, name, done.value);
        if hosts.Ok? {
          SameDefault(st, hosts.value);
          CommitComplains(env, st.(hosts := hosts.value), name, kind, StaticOf(kind),
                          Config("static", StaticConfig(st, name, done.value),
                                 req.Auto() || (ProfileOf(kind, old_) == StaticOf(kind) && old_.auto)));
        }
      }
    }
  }

  lemma SameDefault(st: State, hosts: string)
    ensures DefaultLan(st.(hosts := hosts)) == DefaultLan(st)
  {
  }

  lemma DynamicComplains(env: Env, st: State, name: string, req: Request)
    requires NormalState(env, st) && req.Valid() && SetDynamic(env, st, name, req).error.Some?
    ensures SetDynamic(env, st, name, req).error == Some(Complaint(env, st, Dynamic(name, req)))
  {
    hide Lookup, Commit, BridgeFits, Completes, BridgeDefaults, BridgeComplaint, Normal, DynamicHosts, CurrentLan, DefaultLan;
    ProfileIsKnown(env, st, name);
    EntryIsStructured(env, st, name);
    if Lookup(env, name).Ok? {
      var kind, old_ := Lookup(env, name).value, EntryAt(st.store, name);
      var p := ProfileOf(kind, old_);
      var given := if req.NoRequest? && p == EthDynamic then old_.options else req.Config();
      CompletedIsStructured(env, st, kind, given);
      BridgeComplains(env, st, given);
      if kind.Bridge? {
        CompletedExactlyWhenFits(env, st, given);
      }
      var done := Completed(env, st, kind, given);
      if done.Ok? {
        var hosts := DynamicHosts(env, st, name);
        SameDefault(st, hosts);
        CommitComplains(env, st.(hosts := hosts), name, kind, DynamicOf(kind),
                        Config("dhcp", done.value, req.Auto() || (p == DynamicOf(kind) && old_.auto)));
      }
    }
  }

  lemma RawComplains(env: Env, st: State, name: string)
    requires NormalState(env, st) && SetRaw(env, st, name).error.Some?
    ensures SetRaw(env, st, name).error == Some(Complaint(env, st, Raw(name)))
  {
    hide Lookup, Commit, Normal, Forgotten, CurrentLan, DefaultLan;
    ProfileIsKnown(env, st, name);
    if Lookup(env, name).Ok? {
      var kind := Lookup(env, name).value;
      var hosts := if name == CurrentLan(st) then Forgotten(st.hosts, env.hostname) else st.hosts;
      SameDefault(st, hosts);
      CommitComplains(env, st.(hosts := hosts), name, kind, RawOf(kind), Config("raw", Null, false));
    }
  }

  /** What a failing command says is what is wrong first: the interface, the static settings, the
      members of a bridge in their order, the address that is no text, and last, when all else is
      done, the default LAN interface. */
  lemma SaysWhatIsWrongFirst(env: Env, st: State, cmd: Command)
    requires NormalState(env, st) && cmd.Valid() && Execute(env, st, cmd).error.Some?
    ensures Execute(env, st, cmd).error == Some(Complaint(env, st, cmd))
  {
    hide SetStatic, SetDynamic, SetRaw, Complaint, Normal;
    match cmd
    case Static(name, req) => StaticComplains(env, st, name, req);
    case Dynamic(name, req) => DynamicComplains(env, st, name, req);
    case Raw(name) => RawComplains(env, st, name);
  }

  /** A command changes nothing that can be read of any other interface, and leaves the store
      normal. */
  lemma OtherInterfacesStay(env: Env, st: State, cmd: Command, other: string)
    requires NormalState(env, st) && cmd.Valid() && other != cmd.name
    ensures var r := Execute(env, st, cmd);
            View(r.state.store, other) == View(st.store, other) && NormalState(env, r.state)
  {
    hide Execute, Accepted;
    ExecuteHasEffect(env, st, cmd);
  }

  /** A command that is not accepted has changed nothing. One that is accepted and fails all the
      same has been carried out; it addressed a bridge, and the default LAN interface is unknown. */
  lemma FailureChangesNothing(env: Env, st: State, cmd: Command)
    requires NormalState(env, st) && cmd.Valid() && Execute(env, st, cmd).error.Some?
    ensures var r := Execute(env, st, cmd);
            if !Accepted(env, st, cmd) then r.state == st
            else cmd.name in env.kinds && env.kinds[cmd.name].Bridge? && !DefaultLanIsUsable(env, st)
                 && ModeOf(r.state.store, cmd.name) == Target(cmd)
  {
    hide Execute, Accepted, DefaultLanIsUsable;
    ExecuteHasEffect(env, st, cmd);
  }

  // Every failing command on the interface leaves the state alone.
  ghost predicate FailsCleanly(env: Env, st: State, name: string) {
    forall cmd: Command | cmd.Valid() && cmd.name == name && Execute(env, st, cmd).error.Some? ::
      Execute(env, st, cmd).state == st
  }

  /** For a bridge, in any state, that is so exactly when the default LAN interface is known. For
      other interfaces it always is. */
  lemma FailsCleanlyExactlyWhenUsable(env: Env, st: State, name: string)
    requires NormalState(env, st)
    ensures FailsCleanly(env, st, name) <==> (Lookup(env, name) == Ok(Bridge) ==> DefaultLanIsUsable(env, st))
  {
    hide Execute, Accepted, DefaultLanIsUsable, Lookup, Normal;
    if Lookup(env, name) == Ok(Bridge) ==> DefaultLanIsUsable(env, st) {
      forall cmd: Command | cmd.Valid() && cmd.name == name && Execute(env, st, cmd).error.Some?
        ensures Execute(env, st, cmd).state == st
      {
        FailureChangesNothing(env, st, cmd);
        AcceptedIsKnown(env, st, cmd);
      }
    } else {
      var cmd := Spoiler(st, name);
      SpoilerIsAccepted(env, st, name);
      LookupKnows(env, name);
      ExecuteHasEffect(env, st, cmd);
      assert cmd.Valid() && cmd.name == name && Execute(env, st, cmd).error.Some?;
    }
  }

  lemma AcceptedIsKnown(env: Env, st: State, cmd: Command)
    ensures Accepted(env, st, cmd) ==> cmd.name in env.kinds && Lookup(env, cmd.name) == Ok(env.kinds[cmd.name])
  {
    hide Lookup;
    LookupKnows(env, cmd.name);
  }

  // A command that changes the mode of the bridge, whatever it is
  function Spoiler(st: State, name: string): Command {
    if ModeOf(st.store, name) == IsRaw then Dynamic(name, Request(With(Null, "bridge_ports", Arr([])), false))
    else Raw(name)
  }

  lemma SpoilerIsAccepted(env: Env, st: State, name: string)
    requires Lookup(env, name) == Ok(Bridge)
    ensures var cmd := Spoiler(st, name);
            cmd.Valid() && cmd.name == name && Accepted(env, st, cmd) && Target(cmd) != ModeOf(st.store, name)
  {
    hide Lookup;
    var config := With(Null, "bridge_ports", Arr([]));
    assert forall i | 0 <= i < |BRIDGE_MEMBERS| && Has(config, BRIDGE_MEMBERS[i]) :: BRIDGE_MEMBERS[i] == "bridge_ports";
  }

  // What was given is what is stored, except that the ports of a bridge are put in order and
  // the members it has to have are added.
  ghost predicate Keeps(kind: Kind, given: Json, stored: Json) {
    && (kind.Bridge? || stored == given)
    && (forall key | Has(given, key) && key != "bridge_ports" ::
          Has(stored, key) && Member(stored, key) == Member(given, key))
    && (Has(given, "bridge_ports") ==>
          forall p :: p in StringsOf(Member(stored, "bridge_ports")) <==> p in StringsOf(Member(given, "bridge_ports")))
    && (kind.Bridge? ==> stored.Obj? && forall key <- ["bridge_maxwait", "bridge_fd", "bridge_ports"] ::
                           Has(stored, key) && IsArray(Member(stored, key)))
  }

  lemma CompletedKeeps(env: Env, st: State, kind: Kind, given: Json)
    requires Structured(given) && !kind.Bridge?
    ensures var r := Completed(env, st, kind, given); r.Ok? && Keeps(kind, given, SavedOptions(kind, r.value))
  {
  }

  ghost predicate Completes(given: Json, config: Json) {
    && config.Obj?
    && (forall key | Has(given, key) :: Has(config, key) && Member(config, key) == Member(given, key))
    && forall key <- ["bridge_maxwait", "bridge_fd", "bridge_ports"] :: Has(config, key) && IsArray(Member(config, key))
  }

  lemma DefaultsComplete(env: Env, st: State, given: Json)
    requires Structured(given)
    ensures var r := BridgeDefaults(env, st, given); r.Ok? ==> Completes(given, r.value)
  {
    hide CurrentWlan, Lookup;
  }

  lemma SavedKeeps(given: Json, config: Json)
    requires Completes(given, config)
    ensures Keeps(Bridge, given, SavedOptions(Bridge, config))
  {
    StoredPortsAreSorted(config);
  }

  lemma CompletedBridgeKeeps(env: Env, st: State, given: Json)
    requires Structured(given)
    ensures var r := Completed(env, st, Bridge, given);
            r.Ok? ==> Keeps(Bridge, given, SavedOptions(Bridge, r.value))
  {
    hide BridgeDefaults, Keeps, SavedOptions, Completes;
    DefaultsComplete(env, st, given);
    var r := Completed(env, st, Bridge, given);
    if r.Ok? {
      SavedKeeps(given, r.value);
    }
  }

  lemma TouchedCompletes(given: Json, config: Json)
    requires Completes(given, config) && Has(given, "address")
    ensures Completes(Touched(given), Touched(config))
  {
    assert Member(config, "address") == Member(given, "address");
    forall key | Has(Touched(given), key)
      ensures Has(Touched(config), key) && Member(Touched(config), key) == Member(Touched(given), key)
    {
      assert Has(given, key) && (key != "address" ==> Member(Touched(given), key) == Member(given, key));
    }
  }

  // What has been added to the options of a bridge: the two waiting times from the configuration,
  // and as ports the default LAN interface and the wireless one. The ports are in order.
  ghost predicate MadeUp(env: Env, st: State, given: Json, stored: Json) {
    && (forall key | Has(stored, key) :: Has(given, key) || key in BRIDGE_MEMBERS)
    && (!Has(given, "bridge_maxwait") ==> Member(stored, "bridge_maxwait") == Arr([Str(SysValue(st, "bridge_maxwait", "0"))]))
    && (!Has(given, "bridge_fd") ==> Member(stored, "bridge_fd") == Arr([Str(SysValue(st, "bridge_fd", "0"))]))
    && Member(stored, "bridge_ports") == ArrayOf(PortsOf(stored)) && Strings.StrictlySorted(PortsOf(stored))
    && (!Has(given, "bridge_ports") ==> CurrentWlan(env, st).Ok? && JoinsLan(env, st, PortsOf(stored)))
  }

  // The ports are those that make the LAN of one wire and one wireless interface.
  ghost predicate JoinsLan(env: Env, st: State, ports: seq<string>)
    requires CurrentWlan(env, st).Ok?
  {
    forall p :: p in ports <==> p == DefaultLan(st) || p == CurrentWlan(env, st).value
  }

  // The same before the ports are put in order
  ghost predicate Filled(env: Env, st: State, given: Json, config: Json) {
    && config.Obj? && Has(config, "bridge_ports")
    && (forall key | Has(config, key) :: Has(given, key) || key in BRIDGE_MEMBERS)
    && (!Has(given, "bridge_maxwait") ==> Member(config, "bridge_maxwait") == ArrayOf([SysValue(st, "bridge_maxwait", "0")]))
    && (!Has(given, "bridge_fd") ==> Member(config, "bridge_fd") == ArrayOf([SysValue(st, "bridge_fd", "0")]))
    && (!Has(given, "bridge_ports") ==>
          CurrentWlan(env, st).Ok? &&
          Member(config, "bridge_ports") == ArrayOf([DefaultLan(st), CurrentWlan(env, st).value]))
  }

  lemma DefaultsFill(env: Env, st: State, given: Json)
    requires Structured(given)
    ensures var r := BridgeDefaults(env, st, given); r.Ok? ==> Filled(env, st, given, r.value)
  {
    hide CurrentWlan, Lookup, SysValue, DefaultLan, ArrayOf;
    assert BRIDGE_MEMBERS[0] == "bridge_maxwait" && BRIDGE_MEMBERS[1] == "bridge_fd" && BRIDGE_MEMBERS[2] == "bridge_ports";
  }

  lemma FilledIsTouched(env: Env, st: State, given: Json, config: Json)
    requires Filled(env, st, given, config) && Has(given, "address")
    ensures Filled(env, st, Touched(given), Touched(config))
  {
    hide CurrentWlan, Lookup, SysValue, DefaultLan, ArrayOf;
    assert BRIDGE_MEMBERS[0] == "bridge_maxwait" && BRIDGE_MEMBERS[1] == "bridge_fd" && BRIDGE_MEMBERS[2] == "bridge_ports";
    forall key | Has(Touched(config), key)
      ensures Has(Touched(given), key) || key in BRIDGE_MEMBERS
    {
      assert Has(config, key) || key == "address";
    }
  }

  lemma ArrayOfOne(v: string)
    ensures ArrayOf([v]) == Arr([Str(v)])
  {
  }

  lemma SavedIsMadeUp(env: Env, st: State, given: Json, config: Json)
    requires Filled(env, st, given, config)
    ensures MadeUp(env, st, given, SavedOptions(Bridge, config))
  {
    hide CurrentWlan, Lookup, SysValue, DefaultLan, ArrayOf, Strings.StrictlySorted;
    StoredPortsAreSorted(config);
    ArrayOfOne(SysValue(st, "bridge_maxwait", "0"));
    ArrayOfOne(SysValue(st, "bridge_fd", "0"));
    StringsRoundTrip(Strings.SortUnique(PortsOf(config)));
    var stored := SavedOptions(Bridge, config);
    assert forall key | Has(stored, key) :: Has(config, key);
    if !Has(given, "bridge_ports") {
      StringsRoundTrip([DefaultLan(st), CurrentWlan(env, st).value]);
    }
  }

  lemma CompletedIsMadeUp(env: Env, st: State, name: string, given: Json, isStatic: bool)
    requires Structured(given) && (isStatic ==> Has(given, "address"))
    ensures var r := Completed(env, st, Bridge, given);
            r.Ok? ==> MadeUp(env, st, if isStatic then StaticConfig(st, name, given) else given,
                             SavedOptions(Bridge, if isStatic then StaticConfig(st, name, r.value) else r.value))
  {
    hide BridgeDefaults, Filled, MadeUp, Touched, CurrentLan, SavedOptions;
    DefaultsFill(env, st, given);
    var r := Completed(env, st, Bridge, given);
    if r.Ok? {
      SavedIsMadeUp(env, st, given, r.value);
      if isStatic {
        FilledIsTouched(env, st, given, r.value);
        SavedIsMadeUp(env, st, Touched(given), Touched(r.value));
      }
    }
  }

  // What a command is given to store: the options of the request, but an empty list of static
  // addresses, or null, has become a list of one null if the interface is that of the LAN.
  function Given(st: State, cmd: Command): Json
    requires !cmd.Raw? && cmd.req.Request?
  {
    if cmd.Static? then StaticConfig(st, cmd.name, cmd.req.config) else cmd.req.config
  }

  // The flag is set by the request, and kept by a command that does not change the mode.
  predicate AutoAfter(st: State, cmd: Command) {
    cmd.Raw? || cmd.req.Auto() || (ModeOf(st.store, cmd.name) == Target(cmd) && EntryAt(st.store, cmd.name).auto)
  }

  /** A static or dynamic command that succeeds stores the options it was given, and on a bridge
      with them those that it has to have. */
  lemma SuccessStoresRequest(env: Env, st: State, cmd: Command)
    requires NormalState(env, st) && cmd.Valid() && !cmd.Raw? && cmd.req.Request?
    requires Execute(env, st, cmd).error.None?
    ensures cmd.name in env.kinds
    ensures var (addressing, c) := View(Execute(env, st, cmd).state.store, cmd.name);
            && addressing == Some(if cmd.Static? then "static" else "dhcp")
            && c.auto == AutoAfter(st, cmd)
            && Keeps(env.kinds[cmd.name], Given(st, cmd), c.config)
            && (env.kinds[cmd.name].Bridge? ==> MadeUp(env, st, Given(st, cmd), c.config))
  {
    hide Lookup, Commit, Completed, StaticHosts, DynamicHosts, Validated, Normal, Keeps, CurrentLan, SavedOptions, Touched;
    hide MadeUp;
    var name, kind := cmd.name, Lookup(env, cmd.name).value;
    LookupKnows(env, name);
    var old_ := EntryAt(st.store, name);
    var p := ProfileOf(kind, old_);
    CompletedIsStructured(env, st, kind, cmd.req.config);
    var config := Completed(env, st, kind, cmd.req.config).value;
    ProfileShowsMode(kind, st.store, name);
    if cmd.Static? {
      ValidatedHasAddress(cmd.req.config);
    }
    if kind.Bridge? {
      CompletedIsMadeUp(env, st, name, cmd.req.config, cmd.Static?);
    }
    if cmd.Static? {
      var stored := StaticConfig(st, name, config);
      StaticKeeps(env, st, name, kind, cmd.req.config);
      TouchedIsStructured(config);
      CommitStores(env, st.(hosts := StaticHosts(env, st, name, config).value), name, kind, StaticOf(kind),
                   Config("static", stored, cmd.req.Auto() || (p == StaticOf(kind) && old_.auto)));
    } else {
      DynamicKeeps(env, st, kind, cmd.req.config);
      CommitStores(env, st.(hosts := DynamicHosts(env, st, name)), name, kind, DynamicOf(kind),
                   Config("dhcp", config, cmd.req.Auto() || (p == DynamicOf(kind) && old_.auto)));
    }
  }

  lemma ValidatedHasAddress(config: Json)
    ensures Validated(config).None? ==> Has(config, "address")
  {
  }

  lemma ProfileShowsMode(kind: Kind, store: Store, name: string)
    ensures var p, mode := ProfileOf(kind, EntryAt(store, name)), ModeOf(store, name);
            && (p == StaticOf(kind) <==> mode == IsStatic) && (p == DynamicOf(kind) <==> mode == IsDynamic)
  {
  }

  lemma DynamicKeeps(env: Env, st: State, kind: Kind, given: Json)
    requires Structured(given)
    ensures var r := Completed(env, st, kind, given);
            r.Ok? ==> Keeps(kind, given, SavedOptions(kind, r.value))
  {
    hide Keeps, Completed;
    if kind.Bridge? {
      CompletedBridgeKeeps(env, st, given);
    } else {
      CompletedKeeps(env, st, kind, given);
    }
  }

  lemma StaticKeeps(env: Env, st: State, name: string, kind: Kind, given: Json)
    requires Structured(given) && Validated(given).None?
    ensures var r := Completed(env, st, kind, given);
            r.Ok? ==> Keeps(kind, StaticConfig(st, name, given), SavedOptions(kind, StaticConfig(st, name, r.value)))
  {
    hide Keeps, Completed, BridgeDefaults, Completes, CurrentLan, Touched, SavedOptions;
    var r := Completed(env, st, kind, given);
    if r.Ok? && name == CurrentLan(st) {
      if kind.Bridge? {
        CompletedExactlyWhenFits(env, st, given);
        TouchedCompletes(given, r.value);
        SavedKeeps(Touched(given), Touched(r.value));
      } else {
        TouchedIsStructured(given);
        CompletedKeeps(env, st, kind, given);
        CompletedKeeps(env, st, kind, Touched(given));
        assert Completed(env, st, kind, given) == Ok(given) by { CompletedPort(env, st, kind, given); }
        assert Completed(env, st, kind, Touched(given)) == Ok(Touched(given)) by {
          CompletedPort(env, st, kind, Touched(given));
        }
      }
    } else if r.Ok? {
      DynamicKeeps(env, st, kind, given);
    }
  }

  lemma CompletedPort(env: Env, st: State, kind: Kind, config: Json)
    requires !kind.Bridge?
    ensures Completed(env, st, kind, config) == Ok(config)
  {
  }

  /** A dynamic command without a request keeps the options of an interface that has its address
      by DHCP already and is no bridge. Others lose them, and a bridge gets those it has to have. */
  lemma NoRequestKeepsOrDrops(env: Env, st: State, name: string)
    requires NormalState(env, st) && Execute(env, st, Dynamic(name, NoRequest)).error.None?
    ensures name in env.kinds
    ensures var (addressing, c) := View(Execute(env, st, Dynamic(name, NoRequest)).state.store, name);
            && addressing == Some("dhcp") && c.auto == AutoAfter(st, Dynamic(name, NoRequest))
            && if env.kinds[name].Bridge? then MadeUp(env, st, Null, c.config)
               else c.config == if ModeOf(st.store, name) == IsDynamic then EntryAt(st.store, name).options else Null
  {
    hide Lookup, Commit, DynamicHosts, Normal, CurrentLan, SavedOptions, MadeUp, BridgeDefaults;
    var kind, old_ := Lookup(env, name).value, EntryAt(st.store, name);
    LookupKnows(env, name);
    ProfileShowsMode(kind, st.store, name);
    EntryIsStructured(env, st, name);
    var p := ProfileOf(kind, old_);
    var given := if p == EthDynamic then old_.options else Null;
    CompletedIsStructured(env, st, kind, given);
    var config := Completed(env, st, kind, given).value;
    if kind.Bridge? {
      CompletedIsMadeUp(env, st, name, given, false);
    } else {
      PortKeepsOptions(kind, config);
    }
    CommitStores(env, st.(hosts := DynamicHosts(env, st, name)), name, kind, DynamicOf(kind),
                 Config("dhcp", config, p == DynamicOf(kind) && old_.auto));
  }

  lemma PortKeepsOptions(kind: Kind, config: Json)
    requires !kind.Bridge?
    ensures SavedOptions(kind, config) == config
  {
  }

  // ---------- The hosts file follows ----------

  // The lines that are read of the hosts file
  function HostLines(st: State): seq<seq<string>> {
    Hosts.ParseLines(Strings.Lines(st.hosts))
  }

  // What an accepted command writes, and its address is a word
  function LinesAfter(env: Env, st: State, cmd: Command): seq<seq<string>> {
    if cmd.name != CurrentLan(st) then HostLines(st)
    else
      match cmd
      case Static(_, req) =>
        var ip := AddressText(req.Config());
        if ip.Ok? then Hosts.Rewrite(HostLines(st), ip.value, env.hostname) else []
      case Dynamic(_, _) => Hosts.Rewrite(HostLines(st), "256.0.0.1", env.hostname)
      case Raw(_) => Hosts.Unmatched(HostLines(st), env.hostname)
  }

  predicate WordsFit(env: Env, st: State, cmd: Command) {
    Hosts.Clean(env.hostname) &&
    (cmd.Static? && cmd.name == CurrentLan(st) ==>
       var ip := AddressText(cmd.req.Config()); ip.Ok? && Hosts.Clean(ip.value))
  }

  /** An accepted command on the interface of the LAN gives the host's lines in the hosts file the
      new address, a stand-in for one that is not known yet, or takes the lines away; a command
      on any other interface leaves the file alone. */
  lemma HostsFollowCommand(env: Env, st: State, cmd: Command)
    requires NormalState(env, st) && cmd.Valid() && Accepted(env, st, cmd) && WordsFit(env, st, cmd)
    ensures var r := Execute(env, st, cmd).state;
            && HostLines(r) == LinesAfter(env, st, cmd)
            && (cmd.name != CurrentLan(st) ==> r.hosts == st.hosts)
  {
    hide Normal, CurrentLan, Moved, Forgotten, Execute, WordsFit;
    var kind := Lookup(env, cmd.name).value;
    WritesHosts(env, st, cmd);
    Hosts.LinesReadAreClean(st.hosts);
    if cmd.name == CurrentLan(st) {
      if cmd.Raw? {
        ForgottenIsRead(st.hosts, env.hostname);
      } else {
        var ip := if cmd.Static? then AddressText(cmd.req.Config()).value else "256.0.0.1";
        assert Hosts.Clean(ip) by { CleanStandIn(); WordsAreFit(env, st, cmd); }
        assert Hosts.Clean(env.hostname) by { WordsAreFit(env, st, cmd); }
        MovedIsRead(st.hosts, ip, env.hostname);
      }
    }
  }

  lemma WordsAreFit(env: Env, st: State, cmd: Command)
    requires WordsFit(env, st, cmd)
    ensures Hosts.Clean(env.hostname)
    ensures cmd.Static? && cmd.name == CurrentLan(st) ==>
              var ip := AddressText(cmd.req.Config()); ip.Ok? && Hosts.Clean(ip.value)
  {
  }

  lemma CleanStandIn()
    ensures Hosts.Clean("256.0.0.1")
  {
  }

  lemma MovedIsRead(hosts: string, ip: string, name: string)
    requires Hosts.Clean(ip) && Hosts.Clean(name)
    ensures Hosts.ParseLines(Strings.Lines(Moved(hosts, ip, name)))
         == Hosts.Rewrite(Hosts.ParseLines(Strings.Lines(hosts)), ip, name)
  {
    var es := Hosts.ParseLines(Strings.Lines(hosts));
    Hosts.LinesReadAreClean(hosts);
    Hosts.RewriteIsClean(es, ip, name);
    Hosts.CleanRoundTrip(Hosts.Rewrite(es, ip, name));
  }

  lemma ForgottenIsRead(hosts: string, name: string)
    ensures Hosts.ParseLines(Strings.Lines(Forgotten(hosts, name)))
         == Hosts.Unmatched(Hosts.ParseLines(Strings.Lines(hosts)), name)
  {
    var es := Hosts.ParseLines(Strings.Lines(hosts));
    Hosts.LinesReadAreClean(hosts);
    Hosts.UnmatchedIsClean(es, name);
    Hosts.CleanRoundTrip(Hosts.Unmatched(es, name));
  }

  lemma WritesHosts(env: Env, st: State, cmd: Command)
    requires NormalState(env, st) && cmd.Valid() && Accepted(env, st, cmd)
    ensures Execute(env, st, cmd).state.hosts
         == if cmd.name != CurrentLan(st) then st.hosts
            else match cmd
                 case Static(_, req) => Moved(st.hosts, AddressText(req.Config()).value, env.hostname)
                 case Dynamic(_, _) => Moved(st.hosts, "256.0.0.1", env.hostname)
                 case Raw(_) => Forgotten(st.hosts, env.hostname)
    ensures cmd.Static? && cmd.name == CurrentLan(st) ==> AddressText(cmd.req.Config()).Ok?
  {
    hide Lookup, Commit, Validated, BridgeFits, AddressText, Completes, BridgeDefaults;
    hide Normal, Moved, Forgotten, CurrentLan, Touched;
    var name, kind := cmd.name, Lookup(env, cmd.name).value;
    LookupKnows(env, name);
    ProfileIsKnown(env, st, name);
    match cmd {
      case Static(_, req) => StaticWritesHosts(env, st, name, req, kind);
      case Dynamic(_, req) => DynamicWritesHosts(env, st, name, req, kind);
      case Raw(_) =>
        var hosts := if name == CurrentLan(st) then Forgotten(st.hosts, env.hostname) else st.hosts;
        CommitStores(env, st.(hosts := hosts), name, kind, RawOf(kind), Config("raw", Null, false));
    }
  }

  lemma StaticWritesHosts(env: Env, st: State, name: string, req: Request, kind: Kind)
    requires NormalState(env, st) && req.Valid() && Accepted(env, st, Static(name, req)) && Lookup(env, name) == Ok(kind)
    ensures SetStatic(env, st, name, req).state.hosts
         == if name == CurrentLan(st) then Moved(st.hosts, AddressText(req.Config()).value, env.hostname) else st.hosts
  {
    hide Lookup, Commit, Validated, BridgeFits, AddressText, Completes, BridgeDefaults;
    hide Normal, Moved, CurrentLan, Touched;
    LookupKnows(env, name);
    ProfileIsKnown(env, st, name);
    var old_, given := EntryAt(st.store, name), req.Config();
    CompletedIsStructured(env, st, kind, given);
    if kind.Bridge? {
      CompletedExactlyWhenFits(env, st, given);
    }
    var config := Completed(env, st, kind, given).value;
    SameAddressText(config, given);
    TouchedIsStructured(config);
    CommitStores(env, st.(hosts := StaticHosts(env, st, name, config).value), name, kind, StaticOf(kind),
                 Config("static", StaticConfig(st, name, config),
                        req.Auto() || (ProfileOf(kind, old_) == StaticOf(kind) && old_.auto)));
  }

  lemma DynamicWritesHosts(env: Env, st: State, name: string, req: Request, kind: Kind)
    requires NormalState(env, st) && req.Valid() && Accepted(env, st, Dynamic(name, req)) && Lookup(env, name) == Ok(kind)
    ensures SetDynamic(env, st, name, req).state.hosts
         == if name == CurrentLan(st) then Moved(st.hosts, "256.0.0.1", env.hostname) else st.hosts
  {
    hide Lookup, Commit, BridgeFits, Completes, BridgeDefaults, Normal, Moved, CurrentLan;
    LookupKnows(env, name);
    ProfileIsKnown(env, st, name);
    EntryIsStructured(env, st, name);
    var old_ := EntryAt(st.store, name);
    var p := ProfileOf(kind, old_);
    var given := if req.NoRequest? && p == EthDynamic then old_.options else req.Config();
    CompletedIsStructured(env, st, kind, given);
    if kind.Bridge? {
      CompletedExactlyWhenFits(env, st, given);
    }
    CommitStores(env, st.(hosts := DynamicHosts(env, st, name)), name, kind, DynamicOf(kind),
                 Config("dhcp", Completed(env, st, kind, given).value,
                        req.Auto() || (p == DynamicOf(kind) && old_.auto)));
  }

  // ---------- Runs ----------

  predicate AllValid(cmds: seq<Command>) {
    forall i | 0 <= i < |cmds| :: cmds[i].Valid()
  }

  function Run(env: Env, st: State, cmds: seq<Command>): State
    requires AllValid(cmds)
    decreases |cmds|
  {
    if cmds == [] then st else Run(env, Execute(env, st, cmds[0]).state, cmds[1..])
  }

  // The mode an interface is left in: that of the last successful command on it
  function LastMode(env: Env, st: State, cmds: seq<Command>, name: string, mode: Mode): Mode
    requires AllValid(cmds)
    decreases |cmds|
  {
    if cmds == [] then mode else
      var r := Execute(env, st, cmds[0]);
      LastMode(env, r.state, cmds[1..], name,
               if r.error.None? && cmds[0].name == name then Target(cmds[0]) else mode)
  }

  lemma SysStays(env: Env, st: State, cmd: Command)
    requires NormalState(env, st) && cmd.Valid()
    ensures Execute(env, st, cmd).state.sys == st.sys
    ensures DefaultLanIsUsable(env, Execute(env, st, cmd).state) == DefaultLanIsUsable(env, st)
  {
    hide Execute, Accepted, Lookup;
    ExecuteHasEffect(env, st, cmd);
  }

  lemma {:induction false} RunKeepsNormal(env: Env, st: State, cmds: seq<Command>)
    requires NormalState(env, st) && AllValid(cmds)
    ensures NormalState(env, Run(env, st, cmds)) && Run(env, st, cmds).sys == st.sys
    decreases |cmds|
  {
    hide Execute, NormalState;
    if cmds != [] {
      ExecuteHasEffect(env, st, cmds[0]);
      SysStays(env, st, cmds[0]);
      RunKeepsNormal(env, Execute(env, st, cmds[0]).state, cmds[1..]);
    }
  }

  // The last step of commands on the interface can be done.
  predicate Settled(env: Env, st: State, name: string) {
    Lookup(env, name) == Ok(Bridge) ==> DefaultLanIsUsable(env, st)
  }

  lemma CleanStep(env: Env, st: State, cmd: Command, name: string)
    requires NormalState(env, st) && cmd.Valid() && Settled(env, st, name)
    ensures var r := Execute(env, st, cmd);
            && NormalState(env, r.state) && Settled(env, r.state, name)
            && (cmd.name == name && r.error.None? ==> ModeOf(r.state.store, name) == Target(cmd))
            && (!(cmd.name == name && r.error.None?) ==> View(r.state.store, name) == View(st.store, name))
  {
    hide Execute, Accepted, Normal, DefaultLanIsUsable, View, Lookup;
    SysStays(env, st, cmd);
    ExecuteHasEffect(env, st, cmd);
    if cmd.name != name {
      OtherInterfacesStay(env, st, cmd, name);
    } else {
      FailsCleanlyExactlyWhenUsable(env, st, name);
    }
  }

  lemma ViewShowsMode(a: Store, b: Store, name: string)
    requires View(a, name) == View(b, name)
    ensures ModeOf(a, name) == ModeOf(b, name)
  {
  }

  lemma {:induction false} CleanRun(env: Env, st: State, cmds: seq<Command>, name: string)
    requires NormalState(env, st) && Settled(env, st, name) && AllValid(cmds)
    ensures ModeOf(Run(env, st, cmds).store, name) == LastMode(env, st, cmds, name, ModeOf(st.store, name))
    decreases |cmds|
  {
    hide Execute, Settled, Normal, View;
    if cmds != [] {
      var r := Execute(env, st, cmds[0]);
      CleanStep(env, st, cmds[0], name);
      if !(cmds[0].name == name && r.error.None?) {
        ViewShowsMode(r.state.store, st.store, name);
      }
      CleanRun(env, r.state, cmds[1..], name);
    }
  }

  /** After every run of commands an interface has the one mode of its last successful command,
      exactly when it is no bridge or the default LAN interface is known. */
  lemma RunLeavesLastModes(env: Env, st: State, name: string)
    requires NormalState(env, st)
    ensures Settled(env, st, name) <==>
            forall cmds | AllValid(cmds) ::
              ModeOf(Run(env, st, cmds).store, name) == LastMode(env, st, cmds, name, ModeOf(st.store, name))
  {
    hide Execute, DefaultLanIsUsable, Lookup, NormalState, Accepted;
    if Settled(env, st, name) {
      forall cmds | AllValid(cmds)
        ensures ModeOf(Run(env, st, cmds).store, name) == LastMode(env, st, cmds, name, ModeOf(st.store, name))
      {
        CleanRun(env, st, cmds, name);
      }
    } else {
      var cmd := Spoiler(st, name);
      SpoilerIsAccepted(env, st, name);
      LookupKnows(env, name);
      ExecuteHasEffect(env, st, cmd);
      var r, cmds := Execute(env, st, cmd), [cmd];
      assert AllValid(cmds) && cmds[1..] == [];
      assert Run(env, st, cmds) == Run(env, r.state, []) == r.state;
      assert LastMode(env, st, cmds, name, ModeOf(st.store, name)) == LastMode(env, r.state, [], name, ModeOf(st.store, name));
    }
  }

  // No command on the interface succeeds.
  predicate NoneSucceeds(env: Env, st: State, cmds: seq<Command>, name: string)
    requires AllValid(cmds)
    decreases |cmds|
  {
    cmds == [] ||
    (var r := Execute(env, st, cmds[0]);
     !(cmds[0].name == name && r.error.None?) && NoneSucceeds(env, r.state, cmds[1..], name))
  }

  lemma {:induction false} ViewStays(env: Env, st: State, cmds: seq<Command>, name: string)
    requires NormalState(env, st) && Settled(env, st, name) && AllValid(cmds) && NoneSucceeds(env, st, cmds, name)
    ensures View(Run(env, st, cmds).store, name) == View(st.store, name)
    decreases |cmds|
  {
    hide Execute, Settled, Normal, View;
    if cmds != [] {
      CleanStep(env, st, cmds[0], name);
      ViewStays(env, Execute(env, st, cmds[0]).state, cmds[1..], name);
    }
  }

  /** Before and after it whatever commands: at the end of a run the options of an interface are
      those of its last successful command. */
  lemma RunLeavesLastOptions(env: Env, st: State, before: seq<Command>, cmd: Command, rest: seq<Command>)
    requires NormalState(env, st) && AllValid(before) && cmd.Valid() && AllValid(rest)
    requires !cmd.Raw? && cmd.req.Request? && Settled(env, st, cmd.name)
    requires Execute(env, Run(env, st, before), cmd).error.None?
    requires NoneSucceeds(env, Execute(env, Run(env, st, before), cmd).state, rest, cmd.name)
    ensures cmd.name in env.kinds
    ensures var then_ := Run(env, st, before);
            var (addressing, c) := View(Run(env, Execute(env, then_, cmd).state, rest).store, cmd.name);
            && addressing == Some(if cmd.Static? then "static" else "dhcp")
            && c.auto == AutoAfter(then_, cmd)
            && Keeps(env.kinds[cmd.name], Given(then_, cmd), c.config)
            && (env.kinds[cmd.name].Bridge? ==> MadeUp(env, then_, Given(then_, cmd), c.config))
  {
    hide Execute, Run, Keeps, Given, Lookup, Normal, View, MadeUp, AutoAfter;
    RunKeepsNormal(env, st, before);
    var st1 := Run(env, st, before);
    SuccessStoresRequest(env, st1, cmd);
    CleanStep(env, st1, cmd, cmd.name);
    ViewStays(env, Execute(env, st1, cmd).state, rest, cmd.name);
  }
}
