/** The key under which upstream connections are pooled. */
module UpstreamKey {
  import opened Prelude

  /** Where an upstream is; the scheme, credentials and gateway id as they are printed. */
  datatype Remote =
    | Direct(scheme: string, hostPort: string, path: string)
    | OverSsh(credentials: string, hostPort: string, path: string)
    | Gateway(id: string, hostPort: string, path: string)

  datatype Upstream =
    | Http1(remote: Remote)
    | McpHttp1(remote: Remote)
    | McpHttp2(remote: Remote)
    | Http2(remote: Remote)
    | UnixHttp1(remote: Remote)
    | UnixHttp2(remote: Remote)

  function Protocol(u: Upstream): (r: string)
  {
    match u
    case Http1(_) => "h1"
    case McpHttp1(_) => "mcp-h1"
    case McpHttp2(_) => "mcp-h2"
    case Http2(_) => "h2"
    case UnixHttp1(_) => "uds-h1"
    case UnixHttp2(_) => "uds-h2"
  }

  /** How the remote is reached. */
  function Via(r: Remote): (s: string)
  {
    match r
    case Direct(scheme, _, _) => scheme
    case OverSsh(credentials, _, _) => "ssh:" + credentials
    case Gateway(id, _, _) => "gw:" + id
  }

  function RemoteHostKey(protocol: string, r: Remote): (s: string)
  {
    protocol + ['|'] + (Via(r) + ['|'] + r.hostPort)
  }

  function ConnectionKey(u: Upstream): (s: string)
  {
    if u.McpHttp1? || u.McpHttp2? then RemoteHostKey(Protocol(u), u.remote) + ['|'] + u.remote.path
    else RemoteHostKey(Protocol(u), u.remote)
  }

  lemma FirstPart(a: string, b: string, c: string, d: string)
    requires '|' !in a && '|' !in c && a + ['|'] + b == c + ['|'] + d
    ensures a == c && b == d
  {
    var s := a + ['|'] + b;
    assert s[|a|] == '|' && s[|c|] == '|';
    assert s[..|a|] == a && s[..|c|] == c && s[|a| + 1..] == b && s[|c| + 1..] == d;
  }

  lemma ProtocolsDiffer(u: Upstream, v: Upstream)
    ensures '|' !in Protocol(u)
    ensures Protocol(u) == Protocol(v) ==> (u.McpHttp1? <==> v.McpHttp1?) && (u.McpHttp2? <==> v.McpHttp2?)
    ensures Protocol(u) == Protocol(v) ==> (u.Http1? <==> v.Http1?) && (u.Http2? <==> v.Http2?) && (u.UnixHttp1? <==> v.UnixHttp1?)
  {
    assert |"h1"| == 2 && |"h2"| == 2 && "h1"[1] != "h2"[1];
    assert |"mcp-h1"| == 6 && |"mcp-h2"| == 6 && "mcp-h1"[5] != "mcp-h2"[5] && "mcp-h1"[0] != "uds-h1"[0];
    assert |"uds-h1"| == 6 && |"uds-h2"| == 6 && "uds-h1"[5] != "uds-h2"[5] && "mcp-h2"[0] != "uds-h1"[0];
  }

  predicate IsMcp(u: Upstream) { u.McpHttp1? || u.McpHttp2? }

  predicate IsUnix(u: Upstream) { u.UnixHttp1? || u.UnixHttp2? }

  /** The shape a parsed URL has: its host ends where the first slash begins its path. A
      unix socket is a path of its own. */
  predicate Readable(u: Upstream)
  {
    IsUnix(u) || ('/' !in u.remote.hostPort && (IsMcp(u) ==> u.remote.path != "" && u.remote.path[0] == '/'))
  }

  /** What follows the route in a key. */
  function Rest(u: Upstream): (s: string)
  {
    if IsMcp(u) then u.remote.hostPort + ['|'] + u.remote.path else u.remote.hostPort
  }

  /** What follows the protocol in a key. */
  function Tail(u: Upstream): (s: string) { Via(u.remote) + ['|'] + Rest(u) }

  lemma KeyParts(u: Upstream)
    ensures ConnectionKey(u) == Protocol(u) + ['|'] + Tail(u)
  {
  }

  lemma FirstSlash(hostPort: string, path: string)
    requires '/' !in hostPort && path != "" && path[0] == '/'
    ensures FirstIndex(hostPort + ['|'] + path, '/', 0) == |hostPort| + 1
  {
    FirstIndexUnique(hostPort + ['|'] + path, '/', 0, |hostPort| + 1);
  }

  lemma {:induction false} RestParts(u: Upstream, v: Upstream)
    requires Readable(u) && Readable(v) && IsMcp(u) == IsMcp(v) && Rest(u) == Rest(v)
    ensures u.remote.hostPort == v.remote.hostPort && (IsMcp(u) ==> u.remote.path == v.remote.path)
  {
    if IsMcp(u) {
      FirstSlash(u.remote.hostPort, u.remote.path);
      FirstSlash(v.remote.hostPort, v.remote.path);
      var n := |u.remote.hostPort|;
      assert Rest(u)[..n] == u.remote.hostPort && Rest(v)[..n] == v.remote.hostPort;
      assert Rest(u)[n + 1..] == u.remote.path && Rest(v)[n + 1..] == v.remote.path;
    }
  }

  // ----- when routes are told apart

  /** `y`, a separator and a readable rest can together be a readable rest. */
  predicate Bridges(u: Upstream, y: string)
  {
    var m := FirstIndex(y, '/', 0);
    IsUnix(u) || m == |y| || (IsMcp(u) && m >= 1 && y[m - 1] == '|')
  }

  /** `q` is `p` with a separator and a text that can be taken for a host, or for a host
      and a path. */
  predicate Extends(u: Upstream, p: string, q: string)
  {
    |p| < |q| && q[..|p|] == p && q[|p|] == '|' && Bridges(u, q[|p| + 1..])
  }

  predicate Clash(u: Upstream, v: Upstream)
  {
    Extends(u, Via(u.remote), Via(v.remote)) || Extends(u, Via(v.remote), Via(u.remote))
  }

  lemma LongerRoute(p: string, r: string, q: string, t: string)
    requires p + ['|'] + r == q + ['|'] + t && |p| < |q|
    ensures q[..|p|] == p && q[|p|] == '|' && r == q[|p| + 1..] + ['|'] + t
  {
    var s := p + ['|'] + r;
    assert s[..|p|] == p && s[|p|] == '|' && s[|p| + 1..] == r;
    assert (q + ['|'] + t)[..|q|] == q;
    assert s[|p| + 1..] == q[|p| + 1..] + ['|'] + t;
  }

  lemma {:induction false} RestBridges(u: Upstream, y: string, t: string)
    requires Readable(u) && Rest(u) == y + ['|'] + t
    ensures Bridges(u, y)
  {
    var m := FirstIndex(y, '/', 0);
    if !IsUnix(u) && m < |y| {
      assert Rest(u)[m] == '/';
      if IsMcp(u) {
        FirstSlash(u.remote.hostPort, u.remote.path);
        FirstIndexUnique(Rest(u), '/', 0, m);
        assert Rest(u)[m - 1] == '|' && Rest(u)[m - 1] == y[m - 1];
      }
    }
  }

  lemma SameLengthRoutes(p: string, r: string, q: string, t: string)
    requires p + ['|'] + r == q + ['|'] + t && |p| == |q|
    ensures p == q && r == t
  {
    assert (p + ['|'] + r)[..|p|] == p && (q + ['|'] + t)[..|p|] == q;
    assert (p + ['|'] + r)[|p| + 1..] == r && (q + ['|'] + t)[|p| + 1..] == t;
  }

  lemma {:induction false} LongerClashes(u: Upstream, p: string, q: string, t: string)
    requires Readable(u) && p + ['|'] + Rest(u) == q + ['|'] + t && |p| < |q|
    ensures Extends(u, p, q)
  {
    LongerRoute(p, Rest(u), q, t);
    RestBridges(u, q[|p| + 1..], t);
  }

  lemma BridgesByKind(u: Upstream, v: Upstream, p: string, q: string)
    requires IsMcp(u) == IsMcp(v) && IsUnix(u) == IsUnix(v)
    ensures Extends(u, p, q) <==> Extends(v, p, q)
  {
  }

  lemma {:induction false} SameTail(u: Upstream, v: Upstream, p: string, q: string)
    requires Readable(u) && Readable(v) && IsMcp(u) == IsMcp(v) && IsUnix(u) == IsUnix(v)
    requires p + ['|'] + Rest(u) == q + ['|'] + Rest(v) && p != q
    ensures Extends(u, p, q) || Extends(u, q, p)
  {
    if |p| < |q| {
      LongerClashes(u, p, q, Rest(v));
    } else if |q| < |p| {
      LongerClashes(v, q, p, Rest(u));
      BridgesByKind(u, v, q, p);
    } else {
      SameLengthRoutes(p, Rest(u), q, Rest(v));
    }
  }

  lemma SameProtocolSameKind(u: Upstream, v: Upstream)
    requires Protocol(u) == Protocol(v)
    ensures IsMcp(u) == IsMcp(v) && IsUnix(u) == IsUnix(v)
  {
    ProtocolsDiffer(u, v);
    ProtocolsDiffer(v, u);
  }

  /** For routes that do not clash, the same key means the same protocol, route, host and
      port, and for mcp the same path. */
  lemma {:induction false} SameKeySameUpstream(u: Upstream, v: Upstream)
    requires Readable(u) && Readable(v) && !Clash(u, v)
    ensures ConnectionKey(u) == ConnectionKey(v)
       <==> && Protocol(u) == Protocol(v)
            && Via(u.remote) == Via(v.remote)
            && u.remote.hostPort == v.remote.hostPort
            && (IsMcp(u) ==> u.remote.path == v.remote.path)
  {
    ProtocolsDiffer(u, v);
    ProtocolsDiffer(v, u);
    KeyParts(u);
    KeyParts(v);
    if ConnectionKey(u) == ConnectionKey(v) {
      FirstPart(Protocol(u), Tail(u), Protocol(v), Tail(v));
      SameProtocolSameKind(u, v);
      if Via(u.remote) != Via(v.remote) { SameTail(u, v, Via(u.remote), Via(v.remote)); }
      SameLengthRoutes(Via(u.remote), Rest(u), Via(v.remote), Rest(v));
      RestParts(u, v);
    } else if Protocol(u) == Protocol(v) {
      SameProtocolSameKind(u, v);
    }
  }

  /** Routes without a separator never clash. */
  lemma PlainRoutesDoNotClash(u: Upstream, v: Upstream)
    requires '|' !in Via(u.remote) && '|' !in Via(v.remote)
    ensures !Clash(u, v)
  {
  }

  /** The same kind of upstream over the same route, with a host and path of its own. */
  ghost predicate Routed(x: Upstream, u: Upstream)
  {
    Readable(x) && Protocol(x) == Protocol(u) && Via(x.remote) == Via(u.remote)
  }

  function At(u: Upstream, hostPort: string, path: string): (r: Upstream)
  {
    u.(remote := u.remote.(hostPort := hostPort, path := path))
  }

  lemma AtKeepsRoute(u: Upstream, hostPort: string, path: string)
    ensures var x := At(u, hostPort, path);
            && Protocol(x) == Protocol(u) && Via(x.remote) == Via(u.remote) && IsMcp(x) == IsMcp(u) && IsUnix(x) == IsUnix(u)
            && x.remote.hostPort == hostPort && x.remote.path == path
  {
  }

  lemma NoSlash(y: string)
    requires FirstIndex(y, '/', 0) == |y|
    ensures '/' !in y
  {
  }

  lemma {:induction false} Bridged(u: Upstream, v: Upstream, y: string) returns (x: Upstream)
    requires Readable(v) && IsMcp(u) == IsMcp(v) && IsUnix(u) == IsUnix(v) && Bridges(u, y)
    ensures Routed(x, u) && Rest(x) == y + ['|'] + Rest(v)
  {
    var m := FirstIndex(y, '/', 0);
    if m == |y| || !IsMcp(u) {
      x := At(u, y + ['|'] + v.remote.hostPort, v.remote.path);
      AtKeepsRoute(u, y + ['|'] + v.remote.hostPort, v.remote.path);
      if m == |y| { NoSlash(y); }
      Reassociated(y, v.remote.hostPort, v.remote.path);
    } else {
      x := BridgedInPath(u, v, y, m);
    }
  }

  lemma Reassociated(a: string, b: string, c: string)
    ensures a + ['|'] + b + ['|'] + c == a + ['|'] + (b + ['|'] + c)
  {
  }

  lemma {:induction false} BridgedInPath(u: Upstream, v: Upstream, y: string, m: nat) returns (x: Upstream)
    requires IsMcp(u) && m == FirstIndex(y, '/', 0) && 1 <= m < |y| && y[m - 1] == '|'
    ensures Routed(x, u) && Rest(x) == y + ['|'] + Rest(v)
  {
    var path := y[m..] + ['|'] + Rest(v);
    x := At(u, y[..m - 1], path);
    AtKeepsRoute(u, y[..m - 1], path);
    assert y == y[..m - 1] + ['|'] + y[m..];
    Reassociated(y[..m - 1], y[m..], Rest(v));
  }

  lemma {:induction false} ExtendedCollides(u: Upstream, v: Upstream) returns (x: Upstream)
    requires Readable(v) && Protocol(u) == Protocol(v) && Extends(u, Via(u.remote), Via(v.remote))
    ensures Routed(x, u) && ConnectionKey(x) == ConnectionKey(v)
  {
    SameProtocolSameKind(u, v);
    var p, q := Via(u.remote), Via(v.remote);
    x := Bridged(u, v, q[|p| + 1..]);
    KeyParts(x);
    KeyParts(v);
    assert q == p + ['|'] + q[|p| + 1..];
    assert p + ['|'] + (q[|p| + 1..] + ['|'] + Rest(v)) == q + ['|'] + Rest(v);
  }

  lemma ExtendsByKind(u: Upstream, v: Upstream, p: string, q: string)
    requires Protocol(u) == Protocol(v)
    ensures Extends(u, p, q) <==> Extends(v, p, q)
  {
    SameProtocolSameKind(u, v);
  }

  ghost predicate Collide(u: Upstream, v: Upstream)
  {
    exists x, y :: Routed(x, u) && Routed(y, v) && ConnectionKey(x) == ConnectionKey(y)
  }

  /** Two different routes of one protocol clash exactly when some upstreams over them share
      a key. */
  lemma {:induction false} ClashIffCollide(u: Upstream, v: Upstream)
    requires Readable(u) && Readable(v) && Protocol(u) == Protocol(v) && Via(u.remote) != Via(v.remote)
    ensures Clash(u, v) <==> Collide(u, v)
  {
    if Collide(u, v) {
      var x, y :| Routed(x, u) && Routed(y, v) && ConnectionKey(x) == ConnectionKey(y);
      if !Clash(x, y) { SameKeySameUpstream(x, y); }
      ExtendsByKind(x, u, Via(u.remote), Via(v.remote));
      ExtendsByKind(x, u, Via(v.remote), Via(u.remote));
    }
    if Extends(u, Via(u.remote), Via(v.remote)) {
      var x := ExtendedCollides(u, v);
      assert Routed(v, v);
    } else if Extends(u, Via(v.remote), Via(u.remote)) {
      ExtendsByKind(u, v, Via(v.remote), Via(u.remote));
      var y := ExtendedCollides(v, u);
      assert Routed(u, u);
    }
  }

  // ----- gateway ids

  const GATEWAY_PREFIX := "gateway:"

  predicate IsArrow(s: string, i: int) { 0 <= i && i + 1 < |s| && s[i] == '-' && s[i + 1] == '>' }

  /** The first arrow at or after `from`. */
  function FirstArrow(s: string, from: nat): (r: nat)
    requires from <= |s|
    ensures from <= r <= |s| && (r < |s| ==> IsArrow(s, r)) && forall i :: from <= i < r ==> !IsArrow(s, i)
    decreases |s| - from
  {
    if from == |s| || IsArrow(s, from) then from else FirstArrow(s, from + 1)
  }

  predicate NoArrow(s: string) { FirstArrow(s, 0) == |s| }

  /** The id of a gateway is everything after the first colon. */
  function GatewayId(left: string): (r: Option<string>)
  {
    var i := FirstIndex(left, ':', 0);
    if i == |left| then None else Some(left[i + 1..])
  }

  /** The id of a gateway and the text of its remote host: the first two of the parts between
      arrows. */
  function GatewaySource(src: string): (r: Option<(string, string)>)
  {
    var i := FirstArrow(src, 0);
    if i == |src| then None
    else
      var rest := src[i + 2..];
      match GatewayId(src[..i])
      case None => None
      case Some(id) => Some((id, rest[..FirstArrow(rest, 0)]))
  }

  lemma ArrowAfter(a: string, b: string)
    requires NoArrow(a)
    ensures FirstArrow(a + "->" + b, 0) == |a|
  {
    var s, r := a + "->" + b, FirstArrow(a + "->" + b, 0);
    assert IsArrow(s, |a|);
    assert forall i :: 0 <= i < |a| - 1 ==> (IsArrow(s, i) <==> IsArrow(a, i));
  }

  lemma {:induction false} GatewayIdIsAnyText(id: string)
    ensures GatewayId(GATEWAY_PREFIX + id) == Some(id)
    ensures NoArrow(id) ==> NoArrow(GATEWAY_PREFIX + id)
  {
    var left := GATEWAY_PREFIX + id;
    FirstIndexUnique(left, ':', 0, 7);
    assert left[8..] == id;
    forall i | 0 <= i < |left| && NoArrow(id) ensures !IsArrow(left, i) {
      if i >= 8 { assert !IsArrow(id, i - 8); }
    }
  }

  /** Every id and every remote host without an arrow are read back as they were written. */
  lemma {:induction false} GatewaySourceReads(id: string, host: string)
    requires NoArrow(id) && NoArrow(host)
    ensures GatewaySource(GATEWAY_PREFIX + id + "->" + host) == Some((id, host))
  {
    GatewayIdIsAnyText(id);
    SourceSplits(GATEWAY_PREFIX + id, host);
  }

  lemma {:induction false} SourceSplits(left: string, host: string)
    requires NoArrow(left) && NoArrow(host)
    ensures GatewaySource(left + "->" + host) == match GatewayId(left) case None => None case Some(id) => Some((id, host))
  {
    ArrowAfter(left, host);
    var src := left + "->" + host;
    assert src[..|left|] == left && src[|left| + 2..] == host && host[..|host|] == host;
  }

  lemma GatewayTails(prefix: string, id: string, middle: string, host: string, path: string)
    ensures prefix + (id + ['|'] + middle) + ['|'] + (host + ['|'] + path) == prefix + id + ['|'] + (middle + ['|'] + host + ['|'] + path)
  {
  }

  /** Two gateway settings the parser takes, an id with a separator and a host with one,
      are different upstreams that share a key. */
  lemma {:induction false} GatewayIdsCollide(id: string, middle: string, scheme: string, host: string, path: string)
    requires '/' !in middle && '/' !in host && path != "" && path[0] == '/'
    requires NoArrow(id) && NoArrow(id + ['|'] + middle)
    requires NoArrow(scheme + host + path) && NoArrow(scheme + (middle + ['|'] + host) + path)
    ensures GatewaySource(GATEWAY_PREFIX + (id + ['|'] + middle) + "->" + (scheme + host + path))
         == Some((id + ['|'] + middle, scheme + host + path))
    ensures GatewaySource(GATEWAY_PREFIX + id + "->" + (scheme + (middle + ['|'] + host) + path))
         == Some((id, scheme + (middle + ['|'] + host) + path))
    ensures var u, v := McpHttp1(Gateway(id + ['|'] + middle, host, path)), McpHttp1(Gateway(id, middle + ['|'] + host, path));
            Readable(u) && Readable(v) && u.remote.id != v.remote.id && ConnectionKey(u) == ConnectionKey(v)
  {
    GatewaySourceReads(id + ['|'] + middle, scheme + host + path);
    GatewaySourceReads(id, scheme + (middle + ['|'] + host) + path);
    GatewayKeysMeet(id, middle, host, path);
    assert |id + ['|'] + middle| > |id|;
  }

  lemma {:induction false} GatewayKeysMeet(id: string, middle: string, host: string, path: string)
    ensures ConnectionKey(McpHttp1(Gateway(id + ['|'] + middle, host, path))) == ConnectionKey(McpHttp1(Gateway(id, middle + ['|'] + host, path)))
  {
    KeyParts(McpHttp1(Gateway(id + ['|'] + middle, host, path)));
    KeyParts(McpHttp1(Gateway(id, middle + ['|'] + host, path)));
    GatewayTails("gw:", id, middle, host, path);
  }
}
