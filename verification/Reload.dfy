/** Loading the configuration: the full reload builds every port anew and swaps it in, the
    targeted reload rebuilds one port, and single hosts are updated and deleted in place. */
module Reload {
  import opened Prelude
  import opened Text
  import opened Ports

  /** A host id of the settings with what is configured for it. */
  datatype HostEntry = HostEntry(id: string, settings: HostSettings)

  /** The live configuration: the ports that are listened on and the recorded errors. */
  datatype Config = Config(ports: map<Port, Listen>, errors: map<string, Error>)

  const EMPTY := Config(map[], map[])

  function At(ports: map<Port, Listen>, port: Port): (r: Option<Listen>)
  {
    if port in ports then Some(ports[port]) else None
  }

  function Put(ports: map<Port, Listen>, port: Port, entry: Option<Listen>): (r: map<Port, Listen>)
  {
    if entry.Some? then ports[port := entry.value] else ports - {port}
  }

  // ----- the full reload

  function FullStep(config: Config, h: HostEntry): (r: Config)
  {
    match ParseHost(h.id)
    case None => config
    case Some(host) =>
      match Compile(host, h.settings, At(config.ports, host.port))
      case Ok(listen) => config.(ports := config.ports[host.port := listen])
      case Err(error) => config.(errors := config.errors[h.id := error])
  }

  function Full(hosts: seq<HostEntry>): (r: Config)
  {
    if hosts == [] then EMPTY else FullStep(Full(hosts[..|hosts| - 1]), hosts[|hosts| - 1])
  }

  // ----- the reload of one port

  function TargetStep(entry: Result<Option<Listen>>, h: HostEntry, port: Port): (r: Result<Option<Listen>>)
  {
    if entry.Err? then entry
    else match ParseHost(h.id)
      case None => Err(BadHost)
      case Some(host) =>
        if host.port != port then entry
        else match Compile(host, h.settings, entry.value)
          case Ok(listen) => Ok(Some(listen))
          case Err(error) => Err(error)
  }

  function Target(hosts: seq<HostEntry>, port: Port): (r: Result<Option<Listen>>)
  {
    if hosts == [] then Ok(None) else TargetStep(Target(hosts[..|hosts| - 1], port), hosts[|hosts| - 1], port)
  }

  function Decimal(n: nat): (r: string)
  {
    (if n < 10 then [] else Decimal(n / 10)) + [(0x30 + n % 10) as char]
  }

  /** The key under which a port reload forgets an error. */
  function ErrorKey(port: Port): (r: string)
  {
    match port case Tcp(number) => Decimal(number) case Unix(path) => path
  }

  // ----- operations on the live configuration

  /** `hosts` is the order in which the map of hosts is walked; `None` when the settings
      cannot be loaded. */
  datatype Operation =
    | FullReload(hosts: Option<seq<HostEntry>>)
    | ReloadPort(hosts: Option<seq<HostEntry>>, port: Port)
    | Update(entry: HostEntry)
    | Delete(id: string)

  function ApplyReloadPort(config: Config, hosts: seq<HostEntry>, port: Port): (r: Config)
  {
    match Target(hosts, port)
    case Err(_) => config
    case Ok(entry) => Config(Put(config.ports, port, entry), config.errors - {ErrorKey(port)})
  }

  function ApplyUpdate(config: Config, entry: HostEntry): (r: Config)
  {
    match ParseHost(entry.id)
    case None => config
    case Some(host) =>
      match Compile(host, entry.settings, At(config.ports, host.port))
      case Err(_) => config
      case Ok(listen) => Config(config.ports[host.port := listen], config.errors - {entry.id})
  }

  /** The host id parses and its settings compile into the live port. */
  predicate Loads(config: Config, entry: HostEntry)
  {
    var host := ParseHost(entry.id);
    host.Some? && Compile(host.value, entry.settings, At(config.ports, host.value.port)).Ok?
  }

  /** What is left of a port when a host is deleted; `None` when the host is not there. */
  function WithoutHost(listen: Listen, host: Host): (r: Option<Option<Listen>>)
  {
    if listen.TcpPort? then Some(None)
    else match Remove(listen.config, host)
      case None => None
      case Some(config) => Some(if config.endpoints == [] then None else Some(HttpPort(config)))
  }

  function ApplyDelete(config: Config, id: string): (r: Config)
  {
    match ParseHost(id)
    case None => config
    case Some(host) =>
      if host.port !in config.ports then config
      else match WithoutHost(config.ports[host.port], host)
        case None => config
        case Some(entry) => config.(ports := Put(config.ports, host.port, entry))
  }

  function Apply(config: Config, op: Operation): (r: Config)
  {
    match op
    case FullReload(hosts) => if hosts.None? then config else Full(hosts.value)
    case ReloadPort(hosts, port) => if hosts.None? then config else ApplyReloadPort(config, hosts.value, port)
    case Update(entry) => ApplyUpdate(config, entry)
    case Delete(id) => ApplyDelete(config, id)
  }

  function Run(ops: seq<Operation>): (r: Config)
  {
    if ops == [] then EMPTY else Apply(Run(ops[..|ops| - 1]), ops[|ops| - 1])
  }

  class AppConfiguration {
    var ports: map<Port, Listen>
    var errors: map<string, Error>

    function View(): (r: Config)
      reads this
    {
      Config(ports, errors)
    }

    ghost predicate Valid()
      reads this
    {
      Good(View())
    }

    constructor ()
      ensures View() == EMPTY && Valid()
    {
      ports, errors := map[], map[];
    }

    /** Builds the new maps aside and swaps them in. */
    method LoadEverything(hosts: Option<seq<HostEntry>>) returns (ok: bool)
      requires Valid()
      modifies this
      ensures Valid() && View() == Apply(old(View()), FullReload(hosts)) && ok == hosts.Some?
    {
      ApplyKeepsGood(View(), FullReload(hosts));
      if hosts.None? { return false; }
      var entries := hosts.value;
      var newPorts: map<Port, Listen>, newErrors: map<string, Error> := map[], map[];
      for i := 0 to |entries|
        invariant Config(newPorts, newErrors) == Full(entries[..i]) && View() == old(View())
      {
        assert entries[..i + 1][..i] == entries[..i];
        var h := entries[i];
        var host := ParseHost(h.id);
        if host.Some? {
          var compiled := Compile(host.value, h.settings, At(newPorts, host.value.port));
          if compiled.Ok? {
            newPorts := newPorts[host.value.port := compiled.value];
          } else {
            newErrors := newErrors[h.id := compiled.error];
          }
        }
      }
      assert entries[..|entries|] == entries;
      ports, errors := newPorts, newErrors;
      ok := true;
    }

    /** Gives up at the first host id or host of the port that fails. */
    method ReloadOne(hosts: Option<seq<HostEntry>>, port: Port) returns (ok: bool)
      requires Valid()
      modifies this
      ensures Valid() && View() == Apply(old(View()), ReloadPort(hosts, port))
      ensures ok <==> hosts.Some? && Target(hosts.value, port).Ok?
    {
      ApplyKeepsGood(View(), ReloadPort(hosts, port));
      if hosts.None? { return false; }
      var entries := hosts.value;
      var entry: Option<Listen> := None;
      for i := 0 to |entries|
        invariant Ok(entry) == Target(entries[..i], port) && View() == old(View())
      {
        assert entries[..i + 1][..i] == entries[..i];
        var host := ParseHost(entries[i].id);
        if host.None? {
          TargetStops(entries, port, i + 1);
          return false;
        }
        if host.value.port == port {
          var compiled := Compile(host.value, entries[i].settings, entry);
          if compiled.Err? {
            TargetStops(entries, port, i + 1);
            return false;
          }
          entry := Some(compiled.value);
        }
      }
      assert entries[..|entries|] == entries;
      errors := errors - {ErrorKey(port)};
      ports := Put(ports, port, entry);
      ok := true;
    }

    method UpdateHost(entry: HostEntry) returns (ok: bool)
      requires Valid()
      modifies this
      ensures Valid() && View() == Apply(old(View()), Update(entry))
      ensures ok <==> Loads(old(View()), entry)
    {
      ApplyKeepsGood(View(), Update(entry));
      var host := ParseHost(entry.id);
      if host.None? { return false; }
      var compiled := Compile(host.value, entry.settings, At(ports, host.value.port));
      if compiled.Err? { return false; }
      errors := errors - {entry.id};
      ports := ports[host.value.port := compiled.value];
      ok := true;
    }

    method DeleteHost(id: string) returns (ok: bool)
      requires Valid()
      modifies this
      ensures Valid() && View() == Apply(old(View()), Delete(id))
      ensures ok <==> ParseHost(id).Some?
    {
      ApplyKeepsGood(View(), Delete(id));
      var host := ParseHost(id);
      if host.None? { return false; }
      var port := host.value.port;
      if port !in ports { return true; }
      var listen := ports[port];
      if listen.TcpPort? {
        ports := ports - {port};
      } else {
        var left := Remove(listen.config, host.value);
        if left.Some? {
          ports := if left.value.endpoints == [] then ports - {port} else ports[port := HttpPort(left.value)];
        }
      }
      ok := true;
    }

    /** The endpoint that answers a connection on a port; never the panic of an empty list. */
    method Answer(port: Port, serverName: Option<string>) returns (r: Lookup)
      requires Valid()
      ensures !r.Panicked?
      ensures r.Found? ==> port in ports && !ports[port].TcpPort? && r.endpoint in ports[port].config.endpoints
                           && r.endpoint.host.port == port
    {
      if port !in ports || ports[port].TcpPort? { return NotFound; }
      assert GoodListen(ports[port], port);
      r := GetHttpEndpointInfo(ports[port].config, serverName);
      if serverName.Some? { LookupFinds(ports[port].config.endpoints, serverName.value); }
    }
  }

  lemma {:induction false} TargetStops(hosts: seq<HostEntry>, port: Port, i: nat)
    requires i <= |hosts| && Target(hosts[..i], port).Err?
    ensures Target(hosts, port) == Target(hosts[..i], port)
    decreases |hosts|
  {
    if i == |hosts| {
      assert hosts[..i] == hosts;
    } else {
      assert hosts[..|hosts| - 1][..i] == hosts[..i];
      TargetStops(hosts[..|hosts| - 1], port, i);
    }
  }

  // ----- the two reloads agree

  predicate OnPort(h: HostEntry, port: Port) { ParseHost(h.id).Some? && ParseHost(h.id).value.port == port }

  lemma FullStepElsewhere(config: Config, h: HostEntry, port: Port)
    requires !OnPort(h, port)
    ensures At(FullStep(config, h).ports, port) == At(config.ports, port)
  {
  }

  /** Whenever the targeted reload of a port succeeds, the full reload over the same hosts
      builds the same entry for it, and no entry where the targeted reload removes one. */
  lemma {:induction false} ReloadsAgree(hosts: seq<HostEntry>, port: Port)
    requires Target(hosts, port).Ok?
    ensures At(Full(hosts).ports, port) == Target(hosts, port).value
  {
    if hosts != [] {
      var front, last := hosts[..|hosts| - 1], hosts[|hosts| - 1];
      ReloadsAgree(front, port);
      if !OnPort(last, port) { FullStepElsewhere(Full(front), last, port); }
    }
  }

  /** What becomes of one host in a full reload. */
  datatype Verdict = Skipped(id: string) | Failed(id: string, port: Port) | Joined(id: string, port: Port)

  function VerdictOf(config: Config, h: HostEntry): (r: Verdict)
  {
    match ParseHost(h.id)
    case None => Skipped(h.id)
    case Some(host) =>
      if Compile(host, h.settings, At(config.ports, host.port)).Ok? then Joined(h.id, host.port) else Failed(h.id, host.port)
  }

  function Verdicts(hosts: seq<HostEntry>): (r: seq<Verdict>)
    ensures |r| == |hosts|
  {
    if hosts == [] then [] else Verdicts(hosts[..|hosts| - 1]) + [VerdictOf(Full(hosts[..|hosts| - 1]), hosts[|hosts| - 1])]
  }

  ghost predicate AllJoin(hosts: seq<HostEntry>, port: Port)
  {
    forall v :: v in Verdicts(hosts) ==> !v.Skipped? && !(v.Failed? && v.port == port)
  }

  /** The targeted reload succeeds exactly when every host id parses and no host of the port
      is an error of the full reload. */
  lemma {:induction false} TargetSucceedsIff(hosts: seq<HostEntry>, port: Port)
    ensures Target(hosts, port).Ok? <==> AllJoin(hosts, port)
  {
    if hosts != [] {
      var front, last := hosts[..|hosts| - 1], hosts[|hosts| - 1];
      TargetSucceedsIff(front, port);
      AllJoinFront(hosts, port);
      if Target(front, port).Ok? { ReloadsAgree(front, port); }
    }
  }

  lemma AllJoinFront(hosts: seq<HostEntry>, port: Port)
    requires hosts != []
    ensures var front := hosts[..|hosts| - 1];
            var v := VerdictOf(Full(front), hosts[|hosts| - 1]);
            AllJoin(hosts, port) <==> AllJoin(front, port) && !v.Skipped? && !(v.Failed? && v.port == port)
  {
    var front := hosts[..|hosts| - 1];
    var v := VerdictOf(Full(front), hosts[|hosts| - 1]);
    assert v in Verdicts(hosts);
    if AllJoin(hosts, port) {
      forall w | w in Verdicts(front) ensures !w.Skipped? && !(w.Failed? && w.port == port) { assert w in Verdicts(hosts); }
    }
  }

  /** A port is listened on after a full reload exactly when some host of it joined. */
  lemma {:induction false} ListensIff(hosts: seq<HostEntry>, port: Port)
    ensures port in Full(hosts).ports <==> exists id :: Joined(id, port) in Verdicts(hosts)
  {
    if hosts != [] {
      var front := hosts[..|hosts| - 1];
      var v := VerdictOf(Full(front), hosts[|hosts| - 1]);
      ListensIff(front, port);
      assert Verdicts(hosts) == Verdicts(front) + [v];
      assert Joined(v.id, port) in Verdicts(hosts) <==> Joined(v.id, port) in Verdicts(front) || v == Joined(v.id, port);
      if port in Full(front).ports {
        var id :| Joined(id, port) in Verdicts(front);
        assert Joined(id, port) in Verdicts(hosts);
      }
    }
  }

  /** The errors after a full reload are exactly the hosts that did not join. */
  lemma {:induction false} ErrorsExactly(hosts: seq<HostEntry>, id: string)
    ensures id in Full(hosts).errors <==> exists port :: Failed(id, port) in Verdicts(hosts)
  {
    if hosts != [] {
      var front := hosts[..|hosts| - 1];
      var v := VerdictOf(Full(front), hosts[|hosts| - 1]);
      ErrorsExactly(front, id);
      assert Verdicts(hosts) == Verdicts(front) + [v];
      if v.Failed? { assert Failed(v.id, v.port) in Verdicts(hosts); }
      if id in Full(front).errors {
        var port :| Failed(id, port) in Verdicts(front);
        assert Failed(id, port) in Verdicts(hosts);
      }
    }
  }

  // ----- what every reachable configuration satisfies

  ghost predicate Good(config: Config)
  {
    forall port :: port in config.ports ==> GoodListen(config.ports[port], port)
  }

  lemma {:induction false} FullIsGood(hosts: seq<HostEntry>)
    ensures Good(Full(hosts))
  {
    if hosts != [] {
      var front, last := Full(hosts[..|hosts| - 1]), hosts[|hosts| - 1];
      FullIsGood(hosts[..|hosts| - 1]);
      var host := ParseHost(last.id);
      if host.Some? { CompileKeepsGood(host.value, last.settings, At(front.ports, host.value.port)); }
    }
  }

  lemma {:induction false} TargetIsGood(hosts: seq<HostEntry>, port: Port)
    ensures var entry := Target(hosts, port); entry.Ok? && entry.value.Some? ==> GoodListen(entry.value.value, port)
  {
    if Target(hosts, port).Ok? {
      ReloadsAgree(hosts, port);
      FullIsGood(hosts);
    }
  }

  lemma {:induction false} ApplyKeepsGood(config: Config, op: Operation)
    requires Good(config)
    ensures Good(Apply(config, op))
  {
    match op
    case FullReload(hosts) => if hosts.Some? { FullIsGood(hosts.value); }
    case ReloadPort(hosts, port) => if hosts.Some? { TargetIsGood(hosts.value, port); }
    case Update(entry) => UpdateKeepsGood(config, entry);
    case Delete(id) => DeleteKeepsGood(config, id);
  }

  lemma {:induction false} UpdateKeepsGood(config: Config, entry: HostEntry)
    requires Good(config)
    ensures Good(ApplyUpdate(config, entry))
  {
    var host := ParseHost(entry.id);
    if host.Some? { CompileKeepsGood(host.value, entry.settings, At(config.ports, host.value.port)); }
  }

  lemma {:induction false} DeleteKeepsGood(config: Config, id: string)
    requires Good(config)
    ensures Good(ApplyDelete(config, id))
  {
    var host := ParseHost(id);
    if host.Some? && host.value.port in config.ports && !config.ports[host.value.port].TcpPort? {
      RemoveKeepsGood(config.ports[host.value.port].config, host.value);
    }
  }

  /** After every run of reloads, updates and deletes each http or mcp port has an endpoint,
      its endpoints have different host strings, belong to the port and may share it. */
  lemma {:induction false} RunStaysGood(ops: seq<Operation>)
    ensures Good(Run(ops))
  {
    if ops != [] {
      RunStaysGood(ops[..|ops| - 1]);
      ApplyKeepsGood(Run(ops[..|ops| - 1]), ops[|ops| - 1]);
    }
  }

  /** Deleting an http host right after it was added gives back every port as it was. */
  lemma {:induction false} DeleteUndoesUpdate(config: Config, host: Host, settings: HostSettings)
    requires Good(config) && ParseHost(host.text) == Some(host) && settings.HttpHost?
    requires Compile(host, settings, At(config.ports, host.port)).Ok?
    requires host.port in config.ports ==>
               var listen := config.ports[host.port];
               listen.HttpPort? && IndexOf(listen.config.endpoints, host.text) == |listen.config.endpoints|
    ensures ApplyDelete(ApplyUpdate(config, HostEntry(host.text, settings)), host.text).ports == config.ports
  {
    var e := Endpoint(host, settings.kind, settings.rest);
    if host.port in config.ports {
      RemoveUndoesInsert(config.ports[host.port].config, e);
    } else {
      assert IndexOf([e], host.text) == 0;
    }
  }

  // ----- recorded errors

  lemma {:induction false} DecimalDigits(n: nat)
    ensures Decimal(n) != [] && AllDigits(Decimal(n)) && DigitsValue(Decimal(n)) == n
  {
    if n >= 10 {
      DecimalDigits(n / 10);
      assert Decimal(n)[..|Decimal(n)| - 1] == Decimal(n / 10);
    } else {
      assert Decimal(n)[..0] == [];
    }
  }

  lemma {:induction false} NamelessHost(text: string, digits: string)
    requires digits != [] && AllDigits(digits) && DigitsValue(digits) <= 0xFFFF && (text == digits || text == "+" + digits)
    ensures ParseHost(text) == Some(Host(text, Tcp(DigitsValue(digits)), None))
  {
    assert text[0] != '/' && text[0] != '~';
    FirstIndexAbsent(text, ':', 0);
    if text == "+" + digits { assert text[1..] == digits; } else { assert text[0] != '+'; }
  }

  /** A reload that succeeds forgets the error under the key of the port and no other. */
  lemma ReloadForgets(config: Config, hosts: seq<HostEntry>, port: Port, id: string)
    requires Target(hosts, port).Ok?
    ensures var errors := Apply(config, ReloadPort(Some(hosts), port)).errors;
            (id in errors <==> id in config.errors && id != ErrorKey(port)) && (id in errors ==> errors[id] == config.errors[id])
  {
  }

  /** The error of a host is forgotten by a successful reload of its port exactly when the
      port is a unix socket or the host id is the port number as it is printed. */
  lemma {:induction false} HostErrorForgottenIff(config: Config, hosts: seq<HostEntry>, host: Host)
    requires host.text in config.errors && ParseHost(host.text) == Some(host) && Target(hosts, host.port).Ok?
    ensures host.text !in Apply(config, ReloadPort(Some(hosts), host.port)).errors
       <==> host.port.Unix? || host.text == Decimal(host.port.number)
  {
    ReloadForgets(config, hosts, host.port, host.text);
  }

  /** A full reload keeps the error of a host exactly when the host fails again. */
  lemma {:induction false} FullReloadForgetsIff(config: Config, hosts: seq<HostEntry>, id: string)
    ensures id in Apply(config, FullReload(Some(hosts))).errors <==> exists p :: Failed(id, p) in Verdicts(hosts)
  {
    ErrorsExactly(hosts, id);
  }

  /** Three ways to write a host of one port: the bare number, whose error is forgotten, and
      a plus sign or a server name before it, whose errors stay. */
  lemma {:induction false} SpellingsOfAPort(n: nat, name: string)
    requires n <= 0xFFFF && ':' !in name && !IsUnixPath(name + [':'] + Decimal(n))
    ensures ParseHost(Decimal(n)) == Some(Host(Decimal(n), Tcp(n), None))
    ensures ParseHost("+" + Decimal(n)) == Some(Host("+" + Decimal(n), Tcp(n), None)) && "+" + Decimal(n) != Decimal(n)
    ensures var text := name + [':'] + Decimal(n); ParseHost(text) == Some(Host(text, Tcp(n), Some(name))) && text != Decimal(n)
  {
    DecimalDigits(n);
    NamelessHost(Decimal(n), Decimal(n));
    NamelessHost("+" + Decimal(n), Decimal(n));
    assert |"+" + Decimal(n)| > |Decimal(n)|;
    NamedHost(name, n);
  }

  lemma {:induction false} NamedHost(name: string, n: nat)
    requires n <= 0xFFFF && ':' !in name && !IsUnixPath(name + [':'] + Decimal(n))
    ensures var text := name + [':'] + Decimal(n); ParseHost(text) == Some(Host(text, Tcp(n), Some(name))) && text != Decimal(n)
  {
    var text := name + [':'] + Decimal(n);
    DecimalDigits(n);
    FirstIndexUnique(text, ':', 0, |name|);
    assert text[|name| + 1..] == Decimal(n) && text[..|name|] == name;
    assert Decimal(n)[0] != '+';
    assert |text| > |Decimal(n)|;
  }

  // ----- updates and deletes whose reads and writes interleave

  /** What a worker has read and computed and will write next: the new entry of a port, and
      the error an update forgets with it. */
  datatype Pending = Writes(port: Port, entry: Option<Listen>, forgets: set<string>)

  datatype Live = Live(config: Config, pending: map<nat, Pending>)

  /** An update and a delete read the port, work on the copy, and write later; the two
      reloads read nothing of what is live. */
  datatype LiveStep =
    | Whole(op: Operation)
    | ReadForUpdate(worker: nat, entry: HostEntry)
    | ReadForDelete(worker: nat, id: string)
    | Write(worker: nat)

  function UpdatePending(config: Config, entry: HostEntry): (r: Option<Pending>)
  {
    match ParseHost(entry.id)
    case None => None
    case Some(host) =>
      match Compile(host, entry.settings, At(config.ports, host.port))
      case Err(_) => None
      case Ok(listen) => Some(Writes(host.port, Some(listen), {entry.id}))
  }

  function DeletePending(config: Config, id: string): (r: Option<Pending>)
  {
    match ParseHost(id)
    case None => None
    case Some(host) =>
      if host.port !in config.ports then None
      else match WithoutHost(config.ports[host.port], host)
        case None => None
        case Some(entry) => Some(Writes(host.port, entry, {}))
  }

  function Await(live: Live, worker: nat, p: Option<Pending>): (r: Live)
  {
    if p.None? then live else live.(pending := live.pending[worker := p.value])
  }

  function Written(config: Config, p: Pending): (r: Config)
  {
    Config(Put(config.ports, p.port, p.entry), config.errors - p.forgets)
  }

  function LiveNext(live: Live, step: LiveStep): (r: Live)
  {
    match step
    case Whole(op) => live.(config := Apply(live.config, op))
    case ReadForUpdate(w, entry) => Await(live, w, UpdatePending(live.config, entry))
    case ReadForDelete(w, id) => Await(live, w, DeletePending(live.config, id))
    case Write(w) =>
      if w !in live.pending then live else Live(Written(live.config, live.pending[w]), live.pending - {w})
  }

  function LiveRun(steps: seq<LiveStep>): (r: Live)
  {
    if steps == [] then Live(EMPTY, map[]) else LiveNext(LiveRun(steps[..|steps| - 1]), steps[|steps| - 1])
  }

  ghost predicate GoodPending(p: Pending) { p.entry.Some? ==> GoodListen(p.entry.value, p.port) }

  ghost predicate GoodLive(live: Live)
  {
    Good(live.config) && forall w :: w in live.pending ==> GoodPending(live.pending[w])
  }

  lemma {:induction false} ReadsAreGood(config: Config, entry: HostEntry)
    requires Good(config)
    ensures UpdatePending(config, entry).Some? ==> GoodPending(UpdatePending(config, entry).value)
    ensures DeletePending(config, entry.id).Some? ==> GoodPending(DeletePending(config, entry.id).value)
  {
    var host := ParseHost(entry.id);
    if host.Some? {
      CompileKeepsGood(host.value, entry.settings, At(config.ports, host.value.port));
      if host.value.port in config.ports && !config.ports[host.value.port].TcpPort? {
        RemoveKeepsGood(config.ports[host.value.port].config, host.value);
      }
    }
  }

  /** The port invariant holds after every interleaving of the reads and writes of updates
      and deletes with reloads, although a write may undo another one. */
  lemma {:induction false} InterleavedStaysGood(steps: seq<LiveStep>)
    ensures GoodLive(LiveRun(steps))
  {
    if steps != [] {
      var before, step := LiveRun(steps[..|steps| - 1]), steps[|steps| - 1];
      InterleavedStaysGood(steps[..|steps| - 1]);
      match step
      case Whole(op) => ApplyKeepsGood(before.config, op);
      case ReadForUpdate(_, entry) => ReadsAreGood(before.config, entry);
      case ReadForDelete(_, id) => ReadsAreGood(before.config, HostEntry(id, BadSettings("")));
      case Write(_) =>
    }
  }

  /** The step is where a worker computed from the configuration what it will write. */
  predicate ReadBy(step: LiveStep, w: nat, config: Config, p: Pending)
  {
    match step
    case ReadForUpdate(v, entry) => v == w && UpdatePending(config, entry) == Some(p)
    case ReadForDelete(v, id) => v == w && DeletePending(config, id) == Some(p)
    case _ => false
  }

  /** In every interleaving what a worker is about to write is what an update or a delete
      computed from the configuration of the moment it read, which was a good one. */
  lemma {:induction false} PendingWasRead(steps: seq<LiveStep>, w: nat) returns (i: nat)
    requires w in LiveRun(steps).pending
    ensures i < |steps| && Good(LiveRun(steps[..i]).config)
    ensures ReadBy(steps[i], w, LiveRun(steps[..i]).config, LiveRun(steps).pending[w])
  {
    var before, step := steps[..|steps| - 1], steps[|steps| - 1];
    if w in LiveRun(before).pending && LiveRun(before).pending[w] == LiveRun(steps).pending[w] {
      i := PendingWasRead(before, w);
      assert before[..i] == steps[..i];
    } else {
      i := |steps| - 1;
      InterleavedStaysGood(before);
    }
  }

  // ----- when an overtaken write still does its work

  function EndpointsAt(entry: Option<Listen>): (r: seq<Endpoint>)
  {
    if entry.None? || entry.value.TcpPort? then [] else entry.value.config.endpoints
  }

  /** The type of a port; one without an entry takes the type of its first host. */
  function TypeAt(entry: Option<Listen>, kind: HttpType): (r: HttpType)
  {
    if entry.None? || entry.value.TcpPort? then kind else entry.value.config.kind
  }

  predicate IsTcp(entry: Option<Listen>) { entry.Some? && entry.value.TcpPort? }

  ghost predicate GoodEntry(entry: Option<Listen>, port: Port) { entry.Some? ==> GoodListen(entry.value, port) }

  /** The host string `text` finds the same other endpoints, the same place for its own and
      the same type in both entries of a port. */
  predicate SameFor(a: Option<Listen>, b: Option<Listen>, text: string, kind: HttpType)
  {
    && TypeAt(a, kind) == TypeAt(b, kind)
    && Others(EndpointsAt(a), text) == Others(EndpointsAt(b), text)
    && IndexOf(EndpointsAt(a), text) == IndexOf(EndpointsAt(b), text)
  }

  lemma PutAgrees(ports: map<Port, Listen>, port: Port, a: Option<Listen>, b: Option<Listen>)
    ensures At(Put(ports, port, a), port) == a
    ensures Put(ports, port, a) == Put(ports, port, b) <==> a == b
    ensures Put(ports, port, At(ports, port)) == ports
  {
    if Put(ports, port, a) == Put(ports, port, b) { assert At(Put(ports, port, a), port) == At(Put(ports, port, b), port); }
  }

  lemma MergedAs(entry: Option<Listen>, e: Endpoint)
    requires Merge(entry, e).Ok? && GoodEntry(entry, e.host.port)
    ensures !IsTcp(entry) && CanShare(TypeAt(entry, e.kind), e.kind)
    ensures Merge(entry, e).value == PortConfig(Insert(EndpointsAt(entry), e), TypeAt(entry, e.kind), e.host.port)
  {
  }

  lemma {:induction false} MergeAgreesIff(read: Option<Listen>, now: Option<Listen>, e: Endpoint)
    requires GoodEntry(read, e.host.port) && GoodEntry(now, e.host.port) && Merge(read, e).Ok?
    ensures Merge(now, e) == Merge(read, e) <==> !IsTcp(now) && SameFor(read, now, e.host.text, e.kind)
  {
    MergedAs(read, e);
    if Merge(now, e).Ok? { MergedAs(now, e); }
    InsertAgreesIff(EndpointsAt(read), EndpointsAt(now), e);
  }

  lemma CompileByMerge(host: Host, settings: HostSettings, a: Option<Listen>, b: Option<Listen>)
    requires settings.HttpHost?
    ensures var e := Endpoint(host, settings.kind, settings.rest);
            (Compile(host, settings, a).Ok? <==> Merge(a, e).Ok?)
            && (Compile(host, settings, a).Ok? ==>
                  (Compile(host, settings, a) == Compile(host, settings, b) <==> Merge(a, e) == Merge(b, e)))
  {
  }

  /** What an update that fails on the live port leaves is never what the write leaves. */
  lemma FailedDiffers(host: Host, settings: HostSettings, read: Option<Listen>, now: Option<Listen>)
    requires settings.HttpHost? && GoodEntry(read, host.port) && Compile(host, settings, read).Ok? && Compile(host, settings, now).Err?
    ensures now != Some(Compile(host, settings, read).value)
  {
  }

  /** A write does all that the whole update does on the live configuration exactly when the
      host is a tcp host, or the port is no tcp port and shows the host the same type, the
      same other endpoints and the same place as when it was read. */
  lemma {:induction false} WriteIsUpdateIff(read: Config, live: Live, w: nat, entry: HostEntry)
    requires Good(read) && Good(live.config)
    requires UpdatePending(read, entry).Some? && w in live.pending && live.pending[w] == UpdatePending(read, entry).value
    ensures var port := live.pending[w].port;
            var was, now := At(read.ports, port), At(live.config.ports, port);
            LiveNext(live, Write(w)).config == ApplyUpdate(live.config, entry)
            <==> entry.settings.TcpHost? || (!IsTcp(now) && SameFor(was, now, entry.id, entry.settings.kind))
  {
    var host := ParseHost(entry.id).value;
    var was, now := At(read.ports, host.port), At(live.config.ports, host.port);
    if entry.settings.HttpHost? {
      MergeAgreesIff(was, now, Endpoint(host, entry.settings.kind, entry.settings.rest));
      CompileByMerge(host, entry.settings, was, now);
      var written := Some(Compile(host, entry.settings, was).value);
      if Compile(host, entry.settings, now).Err? {
        FailedDiffers(host, entry.settings, was, now);
        PutAgrees(live.config.ports, host.port, written, now);
      } else {
        PutAgrees(live.config.ports, host.port, written, Some(Compile(host, entry.settings, now).value));
      }
    }
  }

  /** Of the other hosts the write of an update serves exactly the endpoints that were there
      when the port was read. */
  lemma {:induction false} UpdateServesWhatWasRead(read: Config, live: Live, w: nat, entry: HostEntry, x: Endpoint)
    requires Good(read) && entry.settings.HttpHost? && x.host.text != entry.id
    requires UpdatePending(read, entry).Some? && w in live.pending && live.pending[w] == UpdatePending(read, entry).value
    ensures var port := live.pending[w].port;
            x in EndpointsAt(At(LiveNext(live, Write(w)).config.ports, port)) <==> x in EndpointsAt(At(read.ports, port))
  {
    var host := ParseHost(entry.id).value;
    var e := Endpoint(host, entry.settings.kind, entry.settings.rest);
    MergedAs(At(read.ports, host.port), e);
    InsertExactly(EndpointsAt(At(read.ports, host.port)), e);
  }

  predicate Serves(entry: Option<Listen>, text: string) { IndexOf(EndpointsAt(entry), text) < |EndpointsAt(entry)| }

  /** Both entries of a port have the same other endpoints and, where there are any, the same
      type; the second is no mcp port without the host, which a delete would leave as it is. */
  predicate SameForDelete(was: Option<Listen>, now: Option<Listen>, text: string)
  {
    var others := Others(EndpointsAt(was), text);
    && others == Others(EndpointsAt(now), text)
    && (others != [] ==> TypeAt(was, Http1) == TypeAt(now, Http1) && (now.Some? && now.value.McpPort? ==> Serves(now, text)))
  }

  /** What a port is left as when a host is deleted from it. */
  function LeftBy(entry: Option<Listen>, host: Host): (r: Option<Listen>)
  {
    if entry.None? then None
    else match WithoutHost(entry.value, host)
      case None => entry
      case Some(left) => left
  }

  lemma {:induction false} LeftAgreesIff(was: Option<Listen>, now: Option<Listen>, host: Host)
    requires GoodEntry(was, host.port) && GoodEntry(now, host.port) && was.Some? && WithoutHost(was.value, host).Some?
    ensures LeftBy(was, host) == LeftBy(now, host) <==> SameForDelete(was, now, host.text)
  {
  }

  lemma DeleteLeaves(config: Config, id: string, host: Host)
    requires ParseHost(id) == Some(host)
    ensures ApplyDelete(config, id) == config.(ports := Put(config.ports, host.port, LeftBy(At(config.ports, host.port), host)))
  {
    PutAgrees(config.ports, host.port, None, None);
  }

  /** The write of a delete does all that the whole delete does on the live configuration
      exactly when both find the same other endpoints and, where there are any, the same
      type, and the port is no mcp port without the host. */
  lemma {:induction false} WriteIsDeleteIff(read: Config, live: Live, w: nat, id: string)
    requires Good(read) && Good(live.config)
    requires DeletePending(read, id).Some? && w in live.pending && live.pending[w] == DeletePending(read, id).value
    ensures var port := live.pending[w].port;
            LiveNext(live, Write(w)).config == ApplyDelete(live.config, id)
            <==> SameForDelete(At(read.ports, port), At(live.config.ports, port), id)
  {
    var host := ParseHost(id).value;
    var was, now := At(read.ports, host.port), At(live.config.ports, host.port);
    LeftAgreesIff(was, now, host);
    DeleteLeaves(live.config, id, host);
    PutAgrees(live.config.ports, host.port, LeftBy(was, host), LeftBy(now, host));
  }

  /** Of the other hosts the write of a delete serves exactly the endpoints that were there
      when the port was read. */
  lemma {:induction false} DeleteServesWhatWasRead(read: Config, live: Live, w: nat, id: string, x: Endpoint)
    requires Good(read) && x.host.text != id
    requires DeletePending(read, id).Some? && w in live.pending && live.pending[w] == DeletePending(read, id).value
    ensures var port := live.pending[w].port;
            x in EndpointsAt(At(LiveNext(live, Write(w)).config.ports, port)) <==> x in EndpointsAt(At(read.ports, port))
  {
    var host := ParseHost(id).value;
    OthersExactly(EndpointsAt(At(read.ports, host.port)), id);
  }

  lemma LastWriteStays(live: Live, p: Pending)
    requires 1 in live.pending && live.pending[1] == p
    ensures At(LiveNext(LiveNext(live, Write(0)), Write(1)).config.ports, p.port) == p.entry
  {
    assert LiveNext(live, Write(0)).pending[1] == p;
  }

  /** Two hosts of one port that are both read before either is written: the port ends with
      the endpoint of the second one only. */
  lemma {:induction false} OvertakenUpdateIsLost(live: Live, a: HostEntry, b: HostEntry, port: Port)
    requires OnPort(a, port) && OnPort(b, port) && a.settings.HttpHost? && b.settings.HttpHost? && port !in live.config.ports
    ensures var read := LiveNext(LiveNext(live, ReadForUpdate(0, a)), ReadForUpdate(1, b));
            var end := LiveNext(LiveNext(read, Write(0)), Write(1));
            var entry := At(end.config.ports, port);
            entry.Some? && !entry.value.TcpPort? && |entry.value.config.endpoints| == 1 && entry.value.config.endpoints[0].host.text == b.id
  {
    FirstOnPort(live.config, a, port);
    FirstOnPort(live.config, b, port);
    var p, q := UpdatePending(live.config, a), UpdatePending(live.config, b);
    LastWriteStays(Await(Await(live, 0, p), 1, q), q.value);
  }

  /** Two hosts of one port whose deletes both read before either writes: the first one is
      served again, while two deletes one after the other leave nothing. */
  lemma {:induction false} OvertakenDeleteIsUndone(live: Live, x: Endpoint, y: Endpoint, port: Port)
    requires ParseHost(x.host.text) == Some(x.host) && ParseHost(y.host.text) == Some(y.host) && x.host.text != y.host.text
    requires x.host.port == port == y.host.port && EndpointsAt(At(live.config.ports, port)) == [x, y]
    ensures var read := LiveNext(LiveNext(live, ReadForDelete(0, x.host.text)), ReadForDelete(1, y.host.text));
            var end := LiveNext(LiveNext(read, Write(0)), Write(1));
            EndpointsAt(At(end.config.ports, port)) == [x]
    ensures At(ApplyDelete(ApplyDelete(live.config, x.host.text), y.host.text).ports, port) == None
  {
    LeftOfTwo(live.config, x, y, port);
    var p, q := DeletePending(live.config, x.host.text), DeletePending(live.config, y.host.text);
    LastWriteStays(Await(Await(live, 0, p), 1, q), q.value);
  }

  lemma {:induction false} LeftOfTwo(config: Config, x: Endpoint, y: Endpoint, port: Port)
    requires ParseHost(x.host.text) == Some(x.host) && ParseHost(y.host.text) == Some(y.host) && x.host.text != y.host.text
    requires x.host.port == port == y.host.port && EndpointsAt(At(config.ports, port)) == [x, y]
    ensures var kind := config.ports[port].config.kind;
            && DeletePending(config, x.host.text) == Some(Writes(port, Some(HttpPort(PortConfig([y], kind, port))), {}))
            && DeletePending(config, y.host.text) == Some(Writes(port, Some(HttpPort(PortConfig([x], kind, port))), {}))
    ensures At(ApplyDelete(ApplyDelete(config, x.host.text), y.host.text).ports, port) == None
  {
    OthersOfTwo(x, y);
    DeleteLeaves(config, x.host.text, x.host);
    DeleteLeaves(ApplyDelete(config, x.host.text), y.host.text, y.host);
  }

  lemma OthersOfTwo(x: Endpoint, y: Endpoint)
    requires x.host.text != y.host.text
    ensures IndexOf([x, y], x.host.text) == 0 && IndexOf([x, y], y.host.text) == 1 && IndexOf([y], y.host.text) == 0
    ensures Others([x, y], x.host.text) == [y] && Others([x, y], y.host.text) == [x] && Others([y], y.host.text) == []
  {
  }

  lemma {:induction false} FirstOnPort(config: Config, h: HostEntry, port: Port)
    requires OnPort(h, port) && h.settings.HttpHost? && port !in config.ports
    ensures var p := UpdatePending(config, h);
            && p.Some? && p.value.port == port && p.value.entry.Some? && !p.value.entry.value.TcpPort?
            && |p.value.entry.value.config.endpoints| == 1 && p.value.entry.value.config.endpoints[0].host.text == h.id
  {
  }
}
