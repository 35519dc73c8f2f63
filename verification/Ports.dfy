/** What a listen port serves: endpoints that share a port, how one more host is merged in or
    taken out, and which endpoint answers for a server name. */
module Ports {
  import opened Prelude
  import opened Text

  datatype HttpType = Http1 | Http2 | Https1 | Https2 | Mcp

  /** Whether an endpoint of type `other` may join a port that was opened as `port`. */
  predicate CanShare(port: HttpType, other: HttpType)
  {
    match port
    case Http1 => other.Http1?
    case Http2 => other.Http2?
    case Https1 => other.Https1? || other.Https2? || other.Mcp?
    case Https2 => other.Https1? || other.Https2?
    case Mcp => other.Mcp? || other.Https1? || other.Https2?
  }

  datatype Port = Tcp(number: nat) | Unix(path: string)

  datatype Host = Host(text: string, port: Port, serverName: Option<string>)

  predicate IsUnixPath(text: string) { "/" <= text || "~/" <= text }

  function ParseHost(text: string): (r: Option<Host>)
    ensures r.Some? ==> r.value.text == text
  {
    if IsUnixPath(text) then Some(Host(text, Unix(text), None))
    else
      var i := FirstIndex(text, ':', 0);
      var number := ParseUnsigned(if i < |text| then text[i + 1..] else text, 0xFFFF);
      if number.None? then None
      else Some(Host(text, Tcp(number.value), if i < |text| then Some(text[..i]) else None))
  }

  /** An http endpoint; `rest` stands for its locations and other settings. */
  datatype Endpoint = Endpoint(host: Host, kind: HttpType, rest: string)

  datatype PortConfig = PortConfig(endpoints: seq<Endpoint>, kind: HttpType, listen: Port)

  datatype Listen = HttpPort(config: PortConfig) | McpPort(config: PortConfig) | TcpPort(host: Host, rest: string)

  /** The settings of one host, as far as they compile. */
  datatype HostSettings = BadSettings(reason: string) | HttpHost(kind: HttpType, rest: string) | TcpHost(rest: string)

  datatype Error = BadHost | NotCompiled(reason: string) | AlreadyTcp | WrongType(port: HttpType, endpoint: HttpType)

  datatype Result<+T> = Ok(value: T) | Err(error: Error)

  // ----- one more endpoint, one fewer

  function IndexOf(endpoints: seq<Endpoint>, text: string): (r: nat)
    ensures r <= |endpoints|
    ensures r < |endpoints| ==> endpoints[r].host.text == text
    ensures forall i :: 0 <= i < r ==> endpoints[i].host.text != text
  {
    if endpoints == [] || endpoints[0].host.text == text then 0 else 1 + IndexOf(endpoints[1..], text)
  }

  function Insert(endpoints: seq<Endpoint>, e: Endpoint): (r: seq<Endpoint>)
  {
    var i := IndexOf(endpoints, e.host.text);
    if i < |endpoints| then endpoints[i := e] else endpoints + [e]
  }

  /** The endpoints without the one of that host string. */
  function Others(endpoints: seq<Endpoint>, text: string): (r: seq<Endpoint>)
  {
    var i := IndexOf(endpoints, text);
    if i == |endpoints| then endpoints else endpoints[..i] + endpoints[i + 1..]
  }

  function Remove(config: PortConfig, host: Host): (r: Option<PortConfig>)
  {
    if IndexOf(config.endpoints, host.text) == |config.endpoints| then None
    else Some(PortConfig(Others(config.endpoints, host.text), config.kind, host.port))
  }

  function Merge(existing: Option<Listen>, e: Endpoint): (r: Result<PortConfig>)
  {
    if existing.None? then Ok(PortConfig([e], e.kind, e.host.port))
    else if existing.value.TcpPort? then Err(AlreadyTcp)
    else
      var config := existing.value.config;
      if CanShare(config.kind, e.kind) then Ok(config.(endpoints := Insert(config.endpoints, e)))
      else Err(WrongType(config.kind, e.kind))
  }

  function Compile(host: Host, settings: HostSettings, existing: Option<Listen>): (r: Result<Listen>)
  {
    match settings
    case BadSettings(reason) => Err(NotCompiled(reason))
    case TcpHost(rest) => Ok(TcpPort(host, rest))
    case HttpHost(kind, rest) =>
      match Merge(existing, Endpoint(host, kind, rest))
      case Err(error) => Err(error)
      case Ok(config) => Ok(if kind.Mcp? then McpPort(config) else HttpPort(config))
  }

  ghost predicate DistinctHosts(endpoints: seq<Endpoint>)
  {
    forall i, j :: 0 <= i < j < |endpoints| ==> endpoints[i].host.text != endpoints[j].host.text
  }

  /** Inserting replaces the endpoint with the same host string and touches no other. */
  lemma InsertExactly(endpoints: seq<Endpoint>, e: Endpoint)
    requires DistinctHosts(endpoints)
    ensures DistinctHosts(Insert(endpoints, e))
    ensures forall x :: x in Insert(endpoints, e) <==> x == e || (x in endpoints && x.host.text != e.host.text)
  {
    var i := IndexOf(endpoints, e.host.text);
    var r := Insert(endpoints, e);
    assert r[i] == e;
    forall x | x in endpoints && x.host.text != e.host.text ensures x in r {
      var k :| 0 <= k < |endpoints| && endpoints[k] == x;
      assert r[k] == x;
    }
  }

  lemma WithoutIsDistinct(endpoints: seq<Endpoint>, i: nat)
    requires DistinctHosts(endpoints) && i < |endpoints|
    ensures DistinctHosts(endpoints[..i] + endpoints[i + 1..])
  {
    var r := endpoints[..i] + endpoints[i + 1..];
    forall a, b | 0 <= a < b < |r| ensures r[a].host.text != r[b].host.text {
      assert r[a] == endpoints[if a < i then a else a + 1] && r[b] == endpoints[if b < i then b else b + 1];
    }
  }

  lemma {:induction false} KeptByOthers(endpoints: seq<Endpoint>, text: string, x: Endpoint)
    requires x in endpoints && x.host.text != text
    ensures x in Others(endpoints, text)
  {
    var i := IndexOf(endpoints, text);
    var k :| 0 <= k < |endpoints| && endpoints[k] == x;
    if i < |endpoints| { assert Others(endpoints, text)[if k < i then k else k - 1] == x; }
  }

  lemma {:induction false} OneOfOthers(endpoints: seq<Endpoint>, text: string, x: Endpoint)
    requires DistinctHosts(endpoints) && x in Others(endpoints, text)
    ensures x in endpoints && x.host.text != text
  {
    var i, others := IndexOf(endpoints, text), Others(endpoints, text);
    var k :| 0 <= k < |others| && others[k] == x;
    assert x == endpoints[if k < i then k else k + 1];
  }

  lemma {:induction false} OthersExactly(endpoints: seq<Endpoint>, text: string)
    requires DistinctHosts(endpoints)
    ensures DistinctHosts(Others(endpoints, text))
    ensures forall x :: x in Others(endpoints, text) <==> x in endpoints && x.host.text != text
  {
    if IndexOf(endpoints, text) < |endpoints| { WithoutIsDistinct(endpoints, IndexOf(endpoints, text)); }
    forall x | x in Others(endpoints, text) ensures x in endpoints && x.host.text != text { OneOfOthers(endpoints, text, x); }
    forall x | x in endpoints && x.host.text != text ensures x in Others(endpoints, text) { KeptByOthers(endpoints, text, x); }
  }

  /** Removing takes out the endpoint with that host string and touches no other. */
  lemma {:induction false} RemoveExactly(config: PortConfig, host: Host)
    requires DistinctHosts(config.endpoints)
    ensures Remove(config, host).None? <==> forall x :: x in config.endpoints ==> x.host.text != host.text
    ensures Remove(config, host).Some? ==>
              && DistinctHosts(Remove(config, host).value.endpoints)
              && forall x :: x in Remove(config, host).value.endpoints <==> x in config.endpoints && x.host.text != host.text
  {
    OthersExactly(config.endpoints, host.text);
    var i := IndexOf(config.endpoints, host.text);
    if i < |config.endpoints| { assert config.endpoints[i] in config.endpoints; }
  }

  lemma {:induction false} IndexOfInserted(endpoints: seq<Endpoint>, e: Endpoint)
    ensures IndexOf(Insert(endpoints, e), e.host.text) == IndexOf(endpoints, e.host.text)
  {
    var i, r := IndexOf(endpoints, e.host.text), Insert(endpoints, e);
    assert r[i] == e;
    forall k | 0 <= k < i ensures r[k].host.text != e.host.text { assert r[k] == endpoints[k]; }
  }

  lemma ReplacedParts<T>(s: seq<T>, i: nat, e: T)
    requires i < |s|
    ensures var others := s[..i] + s[i + 1..]; s[i := e] == others[..i] + [e] + others[i..]
    ensures s[i := e][..i] + s[i := e][i + 1..] == s[..i] + s[i + 1..]
  {
    var others := s[..i] + s[i + 1..];
    assert others[..i] == s[..i] && others[i..] == s[i + 1..];
  }

  lemma AppendedParts<T>(s: seq<T>, e: T)
    ensures s + [e] == s[..|s|] + [e] + s[|s|..]
    ensures (s + [e])[..|s|] + (s + [e])[|s| + 1..] == s
  {
  }

  /** An insertion is made of the other endpoints and the place of the inserted one. */
  lemma {:induction false} InsertParts(endpoints: seq<Endpoint>, e: Endpoint)
    ensures var i, others := IndexOf(endpoints, e.host.text), Others(endpoints, e.host.text);
            i <= |others| && Insert(endpoints, e) == others[..i] + [e] + others[i..]
            && others == Insert(endpoints, e)[..i] + Insert(endpoints, e)[i + 1..]
  {
    var i := IndexOf(endpoints, e.host.text);
    if i < |endpoints| { ReplacedParts(endpoints, i, e); } else { AppendedParts(endpoints, e); }
  }

  /** Two lists agree once an endpoint is inserted exactly when the other endpoints agree and
      the inserted one has the same place. */
  lemma {:induction false} InsertAgreesIff(a: seq<Endpoint>, b: seq<Endpoint>, e: Endpoint)
    ensures Insert(a, e) == Insert(b, e)
       <==> Others(a, e.host.text) == Others(b, e.host.text) && IndexOf(a, e.host.text) == IndexOf(b, e.host.text)
  {
    IndexOfInserted(a, e);
    IndexOfInserted(b, e);
    InsertParts(a, e);
    InsertParts(b, e);
  }

  lemma {:induction false} IndexOfNew(endpoints: seq<Endpoint>, e: Endpoint)
    requires IndexOf(endpoints, e.host.text) == |endpoints|
    ensures IndexOf(endpoints + [e], e.host.text) == |endpoints|
  {
    if endpoints != [] {
      IndexOfNew(endpoints[1..], e);
      assert (endpoints + [e])[1..] == endpoints[1..] + [e];
    }
  }

  /** Taking out a host that was just added gives back the port as it was. */
  lemma {:induction false} RemoveUndoesInsert(config: PortConfig, e: Endpoint)
    requires IndexOf(config.endpoints, e.host.text) == |config.endpoints| && e.host.port == config.listen
    ensures Remove(config.(endpoints := Insert(config.endpoints, e)), e.host) == Some(config)
  {
    IndexOfNew(config.endpoints, e);
    var more, n := config.endpoints + [e], |config.endpoints|;
    assert more[..n] + more[n + 1..] == config.endpoints;
  }

  // ----- what a port always satisfies

  ghost predicate GoodEndpoints(config: PortConfig, port: Port)
  {
    forall e :: e in config.endpoints ==> CanShare(config.kind, e.kind) && e.host.port == port
  }

  ghost predicate GoodConfig(config: PortConfig, port: Port)
  {
    config.endpoints != [] && DistinctHosts(config.endpoints) && GoodEndpoints(config, port) && config.listen == port
  }

  ghost predicate GoodListen(listen: Listen, port: Port)
  {
    match listen
    case TcpPort(host, _) => host.port == port
    case HttpPort(config) => GoodConfig(config, port)
    case McpPort(config) => GoodConfig(config, port)
  }

  lemma {:induction false} MergeKeepsGood(existing: Option<Listen>, e: Endpoint)
    requires existing.Some? ==> GoodListen(existing.value, e.host.port)
    ensures Merge(existing, e).Ok? ==> GoodConfig(Merge(existing, e).value, e.host.port)
  {
    if existing.Some? && !existing.value.TcpPort? { InsertExactly(existing.value.config.endpoints, e); }
  }

  lemma {:induction false} CompileKeepsGood(host: Host, settings: HostSettings, existing: Option<Listen>)
    requires existing.Some? ==> GoodListen(existing.value, host.port)
    ensures Compile(host, settings, existing).Ok? ==> GoodListen(Compile(host, settings, existing).value, host.port)
  {
    if settings.HttpHost? { MergeKeepsGood(existing, Endpoint(host, settings.kind, settings.rest)); }
  }

  lemma {:induction false} RemoveKeepsGood(config: PortConfig, host: Host)
    requires GoodConfig(config, host.port)
    ensures Remove(config, host).Some? && Remove(config, host).value.endpoints != []
       ==> GoodConfig(Remove(config, host).value, host.port)
  {
    RemoveExactly(config, host);
  }

  // ----- which endpoint answers

  datatype Lookup = Found(endpoint: Endpoint) | NotFound | Panicked

  predicate Answers(e: Endpoint, serverName: string)
  {
    e.host.serverName.None? || EqIgnoreCase(e.host.serverName.value, serverName)
  }

  function FirstAnswering(endpoints: seq<Endpoint>, serverName: string): (r: Lookup)
    ensures !r.Panicked?
  {
    if endpoints == [] then NotFound
    else if Answers(endpoints[0], serverName) then Found(endpoints[0])
    else FirstAnswering(endpoints[1..], serverName)
  }

  /** A connection without a server name is answered only by a port of one nameless endpoint. */
  method GetHttpEndpointInfo(config: PortConfig, serverName: Option<string>) returns (r: Lookup)
    ensures serverName.Some? ==> r == FirstAnswering(config.endpoints, serverName.value)
    ensures serverName.None? ==> (r.Panicked? <==> config.endpoints == [])
    ensures serverName.None? ==> forall e :: r == Found(e) <==> config.endpoints == [e] && e.host.serverName.None?
  {
    if serverName.None? {
      if |config.endpoints| > 1 { return NotFound; }
      if |config.endpoints| == 0 { return Panicked; }
      assert config.endpoints == [config.endpoints[0]];
      return if config.endpoints[0].host.serverName.None? then Found(config.endpoints[0]) else NotFound;
    }
    assert config.endpoints[0..] == config.endpoints;
    for i := 0 to |config.endpoints|
      invariant FirstAnswering(config.endpoints, serverName.value) == FirstAnswering(config.endpoints[i..], serverName.value)
    {
      assert config.endpoints[i..][1..] == config.endpoints[i + 1..];
      if Answers(config.endpoints[i], serverName.value) { return Found(config.endpoints[i]); }
    }
    r := NotFound;
  }

  /** Exactly one endpoint answers for the name. */
  ghost predicate OnlyAnswer(endpoints: seq<Endpoint>, serverName: string, e: Endpoint)
  {
    e in endpoints && Answers(e, serverName) && forall x :: x in endpoints && Answers(x, serverName) ==> x == e
  }

  /** The lookup finds an endpoint exactly when one answers, and where only one does, the
      order of the endpoints plays no part. */
  lemma {:induction false} LookupFinds(endpoints: seq<Endpoint>, serverName: string)
    ensures FirstAnswering(endpoints, serverName).Found? <==> exists e :: e in endpoints && Answers(e, serverName)
    ensures FirstAnswering(endpoints, serverName).Found?
       ==> var e := FirstAnswering(endpoints, serverName).endpoint; e in endpoints && Answers(e, serverName)
    ensures forall e :: OnlyAnswer(endpoints, serverName, e) ==> FirstAnswering(endpoints, serverName) == Found(e)
  {
    if endpoints != [] {
      LookupFinds(endpoints[1..], serverName);
      assert endpoints == [endpoints[0]] + endpoints[1..];
      forall e | OnlyAnswer(endpoints, serverName, e) ensures FirstAnswering(endpoints, serverName) == Found(e) {
        if !Answers(endpoints[0], serverName) {
          assert OnlyAnswer(endpoints[1..], serverName, e);
        } else {
          assert endpoints[0] in endpoints;
        }
      }
    }
  }
}
