/** The hosts of a port come out of a hash map, so in any order. When does the order decide
    whether a reload of the port succeeds? */
module PortOrder {
  import opened Prelude
  import opened Ports
  import opened Reload

  /** Every host is a host of the port and compiles on its own. */
  ghost predicate AllOn(hosts: seq<HostEntry>, port: Port)
  {
    forall h :: h in hosts ==> OnPort(h, port) && !h.settings.BadSettings?
  }

  ghost predicate AllHttp(hosts: seq<HostEntry>)
  {
    forall i :: 0 <= i < |hosts| ==> hosts[i].settings.HttpHost?
  }

  /** http hosts that may join the first one, then only tcp hosts. */
  ghost predicate Orderly(hosts: seq<HostEntry>)
  {
    forall j :: 1 <= j < |hosts| ==> hosts[j].settings.TcpHost? || Joins(hosts, j)
  }

  ghost predicate Joins(hosts: seq<HostEntry>, j: nat)
    requires j < |hosts|
  {
    AllHttp(hosts[..j + 1]) && CanShare(hosts[0].settings.kind, hosts[j].settings.kind)
  }

  lemma AllHttpPrefix(hosts: seq<HostEntry>, j: nat)
    requires j < |hosts|
    ensures AllHttp(hosts[..j + 1]) <==> AllHttp(hosts[..j]) && hosts[j].settings.HttpHost?
  {
    assert hosts[..j + 1] == hosts[..j] + [hosts[j]];
    if AllHttp(hosts[..j + 1]) {
      forall i | 0 <= i < j ensures hosts[..j][i].settings.HttpHost? { assert hosts[..j][i] == hosts[..j + 1][i]; }
      assert hosts[..j + 1][j].settings.HttpHost?;
    }
  }

  lemma OrderlyFront(hosts: seq<HostEntry>)
    requires |hosts| >= 2
    ensures var front, last := hosts[..|hosts| - 1], |hosts| - 1;
            Orderly(hosts) <==> Orderly(front) && (hosts[last].settings.TcpHost? || Joins(hosts, last))
  {
    var front := hosts[..|hosts| - 1];
    forall j | 0 <= j < |front| ensures front[j] == hosts[j] && front[..j + 1] == hosts[..j + 1] {}
  }

  lemma HttpEndsMeansAllHttp(hosts: seq<HostEntry>)
    requires hosts != [] && Orderly(hosts) && hosts[|hosts| - 1].settings.HttpHost?
    ensures AllHttp(hosts)
  {
    if |hosts| >= 2 { assert hosts[..|hosts|] == hosts && Joins(hosts, |hosts| - 1); }
  }

  /** What a successful reload of the port ends with. */
  ghost predicate EndsAs(entry: Option<Listen>, hosts: seq<HostEntry>)
    requires hosts != []
  {
    && entry.Some?
    && (entry.value.TcpPort? <==> hosts[|hosts| - 1].settings.TcpHost?)
    && (entry.value.McpPort? <==> hosts[|hosts| - 1].settings.HttpHost? && hosts[|hosts| - 1].settings.kind.Mcp?)
    && (!entry.value.TcpPort? ==> hosts[0].settings.HttpHost? && entry.value.config.kind == hosts[0].settings.kind)
  }

  /** A reload of hosts of one port succeeds exactly when they come in an orderly order. */
  lemma {:induction false} SucceedsIffOrderly(hosts: seq<HostEntry>, port: Port)
    requires AllOn(hosts, port) && hosts != []
    ensures Target(hosts, port).Ok? <==> Orderly(hosts)
    ensures Target(hosts, port).Ok? ==> EndsAs(Target(hosts, port).value, hosts)
  {
    var front, last := hosts[..|hosts| - 1], hosts[|hosts| - 1];
    assert last in hosts;
    if |hosts| == 1 {
      assert front == [];
    } else {
      forall h | h in front ensures h in hosts {}
      SucceedsIffOrderly(front, port);
      OrderlyFront(hosts);
      AllHttpPrefix(hosts, |hosts| - 1);
      if Orderly(front) && front[|front| - 1].settings.HttpHost? { HttpEndsMeansAllHttp(front); }
    }
  }

  // ----- what a loaded port serves

  /** No id occurs twice, as in a map. */
  ghost predicate DistinctIds(hosts: seq<HostEntry>)
  {
    hosts == [] || (DistinctIds(hosts[..|hosts| - 1]) && forall h :: h in hosts[..|hosts| - 1] ==> h.id != hosts[|hosts| - 1].id)
  }

  ghost predicate AllHttpOn(hosts: seq<HostEntry>, port: Port)
  {
    forall h :: h in hosts ==> OnPort(h, port) && h.settings.HttpHost?
  }

  /** The endpoint of an http host. */
  function EndpointOf(h: HostEntry): (r: Endpoint)
    requires ParseHost(h.id).Some? && h.settings.HttpHost?
  {
    Endpoint(ParseHost(h.id).value, h.settings.kind, h.settings.rest)
  }

  /** One endpoint for each host, in the order of the hosts. */
  ghost function EndpointsOf(hosts: seq<HostEntry>, port: Port): (r: seq<Endpoint>)
    requires AllHttpOn(hosts, port)
  {
    if hosts == [] then []
    else
      assert hosts[|hosts| - 1] in hosts;
      EndpointsOf(hosts[..|hosts| - 1], port) + [EndpointOf(hosts[|hosts| - 1])]
  }

  lemma {:induction false} NotServedYet(hosts: seq<HostEntry>, port: Port, id: string)
    requires AllHttpOn(hosts, port) && forall h :: h in hosts ==> h.id != id
    ensures forall e :: e in EndpointsOf(hosts, port) ==> e.host.text != id
  {
    if hosts != [] {
      var front, last := hosts[..|hosts| - 1], hosts[|hosts| - 1];
      assert last in hosts;
      forall h | h in front ensures h in hosts {}
      NotServedYet(front, port, id);
    }
  }

  lemma NewGoesLast(endpoints: seq<Endpoint>, e: Endpoint)
    requires forall x :: x in endpoints ==> x.host.text != e.host.text
    ensures Insert(endpoints, e) == endpoints + [e]
  {
  }

  lemma JoinStep(entry: Option<Listen>, h: HostEntry, port: Port)
    requires OnPort(h, port) && h.settings.HttpHost? && TargetStep(Ok(entry), h, port).Ok?
    ensures var next := TargetStep(Ok(entry), h, port).value;
            && next.Some? && !next.value.TcpPort?
            && next.value.config.endpoints
               == if entry.None? then [EndpointOf(h)]
                  else if entry.value.TcpPort? then []
                  else Insert(entry.value.config.endpoints, EndpointOf(h))
  {
  }

  lemma TargetLast(hosts: seq<HostEntry>, port: Port)
    requires hosts != [] && Target(hosts, port).Ok?
    ensures var front := hosts[..|hosts| - 1];
            Target(front, port).Ok? && Target(hosts, port) == TargetStep(Ok(Target(front, port).value), hosts[|hosts| - 1], port)
  {
  }

  /** A port of http hosts that loads serves exactly these hosts, in their order, each with
      its own settings. */
  lemma {:induction false} ServesItsHosts(hosts: seq<HostEntry>, port: Port)
    requires hosts != [] && AllHttpOn(hosts, port) && DistinctIds(hosts) && Target(hosts, port).Ok?
    ensures var entry := Target(hosts, port).value;
            entry.Some? && !entry.value.TcpPort? && entry.value.config.endpoints == EndpointsOf(hosts, port)
  {
    var front, last := hosts[..|hosts| - 1], hosts[|hosts| - 1];
    assert last in hosts;
    forall h | h in front ensures h in hosts {}
    TargetLast(hosts, port);
    JoinStep(Target(front, port).value, last, port);
    if front == [] {
      assert EndpointsOf(hosts, port) == [] + [EndpointOf(last)];
    } else {
      ServesItsHosts(front, port);
      NotServedYet(front, port, last.id);
      NewGoesLast(EndpointsOf(front, port), EndpointOf(last));
    }
  }

  // ----- deleting against reloading

  ghost predicate Apart(hosts: seq<HostEntry>, id: string) { forall x :: x in hosts ==> x.id != id }

  lemma DistinctNext(hosts: seq<HostEntry>, last: HostEntry)
    ensures DistinctIds(hosts + [last]) <==> DistinctIds(hosts) && Apart(hosts, last.id)
  {
    assert (hosts + [last])[..|hosts|] == hosts;
  }

  lemma ApartWithout(a: seq<HostEntry>, h: HostEntry, b: seq<HostEntry>, id: string)
    requires Apart(a + [h] + b, id)
    ensures Apart(a + b, id)
  {
    forall x | x in a + b ensures x in a + [h] + b {}
  }

  lemma {:induction false} DistinctWithout(a: seq<HostEntry>, h: HostEntry, b: seq<HostEntry>)
    requires DistinctIds(a + [h] + b)
    ensures DistinctIds(a + b) && Apart(a, h.id)
    decreases |b|
  {
    if b == [] {
      assert a + [h] + b == a + [h] && a + b == a;
      DistinctNext(a, h);
    } else {
      var front, last := b[..|b| - 1], b[|b| - 1];
      assert a + [h] + b == a + [h] + front + [last] && a + b == a + front + [last];
      DistinctNext(a + [h] + front, last);
      DistinctNext(a + front, last);
      DistinctWithout(a, h, front);
      ApartWithout(a, h, front, last.id);
    }
  }

  lemma {:induction false} EndpointsAppend(a: seq<HostEntry>, b: seq<HostEntry>, port: Port)
    requires AllHttpOn(a + b, port) && AllHttpOn(a, port) && AllHttpOn(b, port)
    ensures EndpointsOf(a + b, port) == EndpointsOf(a, port) + EndpointsOf(b, port)
    decreases |b|
  {
    if b == [] {
      assert a + b == a;
    } else {
      var front := b[..|b| - 1];
      assert (a + b)[..|a + b| - 1] == a + front && (a + b)[|a + b| - 1] == b[|b| - 1];
      forall x | x in front ensures x in b {}
      forall x | x in a + front ensures x in a + b {}
      EndpointsAppend(a, front, port);
    }
  }

  lemma {:induction false} IndexAfter(before: seq<Endpoint>, e: Endpoint, after: seq<Endpoint>)
    requires forall x :: x in before ==> x.host.text != e.host.text
    ensures IndexOf(before + [e] + after, e.host.text) == |before|
  {
    if before == [] {
      assert (before + [e] + after)[0] == e;
    } else {
      var all := before + [e] + after;
      assert all[0] == before[0] && all[1..] == before[1..] + [e] + after;
      IndexAfter(before[1..], e, after);
    }
  }

  lemma {:induction false} PartsAreOn(a: seq<HostEntry>, h: HostEntry, b: seq<HostEntry>, port: Port)
    requires AllHttpOn(a + [h] + b, port)
    ensures AllHttpOn(a, port) && AllHttpOn([h], port) && AllHttpOn(b, port) && AllHttpOn(a + [h], port) && AllHttpOn(a + b, port)
  {
    var all := a + [h] + b;
    forall x | x in a || x == h || x in b ensures x in all {}
  }

  lemma {:induction false} EndpointsOfOne(h: HostEntry, port: Port)
    requires AllHttpOn([h], port) && OnPort(h, port) && h.settings.HttpHost?
    ensures EndpointsOf([h], port) == [EndpointOf(h)]
  {
    assert [h][..0] == [];
    assert [] + [EndpointOf(h)] == [EndpointOf(h)];
  }

  lemma {:induction false} EndpointsAround(a: seq<HostEntry>, h: HostEntry, b: seq<HostEntry>, port: Port)
    requires AllHttpOn(a + [h] + b, port) && AllHttpOn(a, port) && AllHttpOn([h], port) && AllHttpOn(b, port) && AllHttpOn(a + [h], port)
    ensures OnPort(h, port) && h.settings.HttpHost?
    ensures EndpointsOf(a + [h] + b, port) == EndpointsOf(a, port) + [EndpointOf(h)] + EndpointsOf(b, port)
  {
    assert h in [h];
    EndpointsAppend(a + [h], b, port);
    EndpointsAppend(a, [h], port);
    EndpointsOfOne(h, port);
  }

  lemma CutOut<T>(before: seq<T>, e: T, after: seq<T>)
    ensures var all := before + [e] + after; all[..|before|] + all[|before| + 1..] == before + after
  {
  }

  lemma {:induction false} EndpointsWithout(a: seq<HostEntry>, h: HostEntry, b: seq<HostEntry>, port: Port)
    requires AllHttpOn(a + [h] + b, port) && DistinctIds(a + [h] + b)
    ensures AllHttpOn(a + b, port)
    ensures var all := EndpointsOf(a + [h] + b, port);
            var k := IndexOf(all, h.id);
            k < |all| && all[..k] + all[k + 1..] == EndpointsOf(a + b, port)
  {
    PartsAreOn(a, h, b, port);
    EndpointsAround(a, h, b, port);
    EndpointsAppend(a, b, port);
    DistinctWithout(a, h, b);
    NotServedYet(a, port, h.id);
    IndexAfter(EndpointsOf(a, port), EndpointOf(h), EndpointsOf(b, port));
    CutOut(EndpointsOf(a, port), EndpointOf(h), EndpointsOf(b, port));
  }

  lemma HttpIsOn(hosts: seq<HostEntry>, port: Port)
    requires AllHttpOn(hosts, port)
    ensures AllOn(hosts, port)
  {
  }

  /** A port that loaded http hosts: its endpoints, its type and which kind of port it is. */
  lemma {:induction false} LoadedPort(hosts: seq<HostEntry>, port: Port) returns (listen: Listen)
    requires hosts != [] && AllHttpOn(hosts, port) && DistinctIds(hosts) && Target(hosts, port).Ok?
    ensures Target(hosts, port) == Ok(Some(listen)) && !listen.TcpPort?
    ensures hosts[0].settings.HttpHost? && hosts[|hosts| - 1].settings.HttpHost?
    ensures listen.config == PortConfig(EndpointsOf(hosts, port), hosts[0].settings.kind, port)
    ensures listen.McpPort? <==> hosts[|hosts| - 1].settings.kind.Mcp?
  {
    ServesItsHosts(hosts, port);
    HttpIsOn(hosts, port);
    SucceedsIffOrderly(hosts, port);
    TargetIsGood(hosts, port);
    listen := Target(hosts, port).value.value;
    assert hosts[0] in hosts && hosts[|hosts| - 1] in hosts;
  }

  /** Deleting a host from a loaded port leaves the port a reload of the other hosts builds
      exactly when the type of the port still comes from the same kind of host and the last
      of the others is not an mcp host: a delete always leaves an http port. */
  lemma {:induction false} DeleteAgreesWithReloadIff(config: Config, a: seq<HostEntry>, h: HostEntry, b: seq<HostEntry>, port: Port)
    requires AllHttpOn(a + [h] + b, port) && DistinctIds(a + [h] + b) && a + b != []
    requires Target(a + [h] + b, port).Ok? && Target(a + b, port).Ok?
    requires At(config.ports, port) == Target(a + [h] + b, port).value
    ensures var hosts, others := a + [h] + b, a + b;
            && hosts[0].settings.HttpHost? && others[0].settings.HttpHost? && others[|others| - 1].settings.HttpHost?
            && (At(ApplyDelete(config, h.id).ports, port) == Target(others, port).value
                <==> others[0].settings.kind == hosts[0].settings.kind && !others[|others| - 1].settings.kind.Mcp?)
  {
    PartsAreOn(a, h, b, port);
    DistinctWithout(a, h, b);
    EndpointsWithout(a, h, b, port);
    var live := LoadedPort(a + [h] + b, port);
    var anew := LoadedPort(a + b, port);
    assert h in [h];
    DeletedPort(config, live, h, port);
    EndpointsCount(a + b, port);
  }

  lemma {:induction false} EndpointsCount(hosts: seq<HostEntry>, port: Port)
    requires AllHttpOn(hosts, port)
    ensures |EndpointsOf(hosts, port)| == |hosts|
  {
    if hosts != [] {
      forall x | x in hosts[..|hosts| - 1] ensures x in hosts {}
      EndpointsCount(hosts[..|hosts| - 1], port);
    }
  }

  lemma {:induction false} DeletedPort(config: Config, live: Listen, h: HostEntry, port: Port)
    requires At(config.ports, port) == Some(live) && !live.TcpPort? && OnPort(h, port)
    requires IndexOf(live.config.endpoints, h.id) < |live.config.endpoints|
    ensures var k := IndexOf(live.config.endpoints, h.id);
            var left := live.config.endpoints[..k] + live.config.endpoints[k + 1..];
            At(ApplyDelete(config, h.id).ports, port)
            == if left == [] then None else Some(HttpPort(PortConfig(left, live.config.kind, port)))
  {
  }

  lemma OneLoaded(h: HostEntry, port: Port)
    requires OnPort(h, port) && h.settings.HttpHost?
    ensures var config := PortConfig([EndpointOf(h)], h.settings.kind, port);
            Target([h], port) == Ok(Some(if h.settings.kind.Mcp? then McpPort(config) else HttpPort(config)))
  {
    assert [h][..0] == [];
  }

  lemma TwoDistinct(g: HostEntry, h: HostEntry)
    requires g.id != h.id
    ensures DistinctIds([g, h])
  {
    assert [g, h][..1] == [g] && [g][..0] == [];
  }

  lemma {:induction false} EndpointsOfTwo(g: HostEntry, h: HostEntry, port: Port)
    requires AllHttpOn([g, h], port) && OnPort(g, port) && OnPort(h, port) && g.settings.HttpHost? && h.settings.HttpHost?
    ensures EndpointsOf([g, h], port) == [EndpointOf(g), EndpointOf(h)]
  {
    assert [g, h] == [g] + [h];
    EndpointsAppend([g], [h], port);
    EndpointsOfOne(g, port);
    EndpointsOfOne(h, port);
  }

  lemma {:induction false} TwoLoaded(g: HostEntry, h: HostEntry, port: Port) returns (listen: Listen)
    requires OnPort(g, port) && OnPort(h, port) && LetsJoin(g, h) && g.id != h.id
    ensures Target([g, h], port) == Ok(Some(listen)) && !listen.TcpPort?
    ensures listen.config == PortConfig([EndpointOf(g), EndpointOf(h)], g.settings.kind, port)
  {
    TwoHosts(g, h, port);
    TwoDistinct(g, h);
    EndpointsOfTwo(g, h, port);
    listen := LoadedPort([g, h], port);
  }

  /** Deleting one of two hosts of a port leaves an http port of the type of the first. */
  lemma {:induction false} DeleteFromTwo(config: Config, g: HostEntry, h: HostEntry, port: Port)
    requires OnPort(g, port) && OnPort(h, port) && LetsJoin(g, h) && g.id != h.id
    requires Ok(At(config.ports, port)) == Target([g, h], port)
    ensures At(ApplyDelete(config, g.id).ports, port) == Some(HttpPort(PortConfig([EndpointOf(h)], g.settings.kind, port)))
    ensures At(ApplyDelete(config, h.id).ports, port) == Some(HttpPort(PortConfig([EndpointOf(g)], g.settings.kind, port)))
  {
    var live := TwoLoaded(g, h, port);
    OthersOfTwo(EndpointOf(g), EndpointOf(h));
    DeletedPort(config, live, g, port);
    DeletedPort(config, live, h, port);
  }

  /** Of two mcp hosts the second is deleted: an http port is left where a reload of the
      first builds an mcp port. */
  lemma {:induction false} McpDeleteDisagrees(config: Config, g: HostEntry, h: HostEntry, port: Port)
    requires OnPort(g, port) && OnPort(h, port) && g.settings.HttpHost? && h.settings.HttpHost? && g.id != h.id
    requires g.settings.kind == h.settings.kind == Mcp
    ensures Target([g, h], port).Ok? && Target([g], port).Ok?
    ensures At(config.ports, port) == Target([g, h], port).value ==>
              var left, anew := At(ApplyDelete(config, h.id).ports, port), Target([g], port).value;
              left.Some? && left.value.HttpPort? && anew == Some(McpPort(left.value.config))
  {
    var live := TwoLoaded(g, h, port);
    OneLoaded(g, port);
    if At(config.ports, port) == Target([g, h], port).value { DeleteFromTwo(config, g, h, port); }
  }

  /** Of an https1 and an https2 host the first is deleted: the port stays https1 where a
      reload of the second opens it as https2. */
  lemma {:induction false} FirstDeleteDisagrees(config: Config, g: HostEntry, h: HostEntry, port: Port)
    requires OnPort(g, port) && OnPort(h, port) && g.settings.HttpHost? && h.settings.HttpHost? && g.id != h.id
    requires g.settings.kind == Https1 && h.settings.kind == Https2
    ensures Target([g, h], port).Ok? && Target([h], port).Ok?
    ensures At(config.ports, port) == Target([g, h], port).value ==>
              var left, anew := At(ApplyDelete(config, g.id).ports, port), Target([h], port).value;
              left.Some? && left.value.HttpPort? && left.value.config.kind == Https1
              && anew == Some(HttpPort(left.value.config.(kind := Https2)))
  {
    var live := TwoLoaded(g, h, port);
    OneLoaded(h, port);
    if At(config.ports, port) == Target([g, h], port).value { DeleteFromTwo(config, g, h, port); }
  }

  // ----- any order

  /** Only tcp hosts, or only http hosts each of which lets every other one join. */
  ghost predicate Compatible(hosts: seq<HostEntry>)
  {
    || (forall h :: h in hosts ==> h.settings.TcpHost?)
    || (forall g, h :: g in hosts && h in hosts ==> LetsJoin(g, h))
  }

  predicate LetsJoin(g: HostEntry, h: HostEntry)
  {
    g.settings.HttpHost? && h.settings.HttpHost? && CanShare(g.settings.kind, h.settings.kind)
  }

  lemma {:induction false} CompatibleIsOrderly(hosts: seq<HostEntry>)
    requires Compatible(hosts)
    ensures Orderly(hosts)
  {
    if !(forall h :: h in hosts ==> h.settings.TcpHost?) {
      forall j | 1 <= j < |hosts| ensures Joins(hosts, j) {
        assert LetsJoin(hosts[0], hosts[j]);
        var front := hosts[..j + 1];
        forall i | 0 <= i < |front| ensures front[i].settings.HttpHost? { assert LetsJoin(hosts[i], hosts[0]); }
      }
    }
  }

  ghost predicate AnyOrderWorks(hosts: seq<HostEntry>, port: Port)
  {
    forall order :: multiset(order) == multiset(hosts) ==> Target(order, port).Ok?
  }

  lemma SameElements(order: seq<HostEntry>, hosts: seq<HostEntry>)
    requires multiset(order) == multiset(hosts)
    ensures forall h :: h in order <==> h in hosts
  {
    forall h ensures h in order <==> h in hosts { assert h in multiset(order) <==> h in multiset(hosts); }
  }

  lemma TakeOut(hosts: seq<HostEntry>, h: HostEntry) returns (rest: seq<HostEntry>)
    requires h in hosts
    ensures multiset(hosts) == multiset([h] + rest)
    ensures forall g :: g in hosts && g != h ==> g in rest
  {
    var i :| 0 <= i < |hosts| && hosts[i] == h;
    rest := hosts[..i] + hosts[i + 1..];
    assert hosts == hosts[..i] + [h] + hosts[i + 1..];
    forall g | g in hosts && g != h ensures g in rest {
      var k :| 0 <= k < |hosts| && hosts[k] == g;
      assert rest[if k < i then k else k - 1] == g;
    }
  }

  /** An http host loads after another host exactly when that one lets it join. */
  lemma {:induction false} TwoHosts(g: HostEntry, h: HostEntry, port: Port)
    requires AllOn([g, h], port) && h.settings.HttpHost?
    ensures Target([g, h], port).Ok? <==> LetsJoin(g, h)
  {
    var pair := [g, h];
    assert pair[..2] == pair;
    assert Joins(pair, 1) <==> LetsJoin(g, h) by {
      if LetsJoin(g, h) { assert AllHttp(pair); } else if AllHttp(pair) { assert pair[0].settings.HttpHost?; }
    }
    assert Orderly(pair) <==> Joins(pair, 1);
    SucceedsIffOrderly(pair, port);
  }

  /** Two hosts of which the first does not let the second join, put in front, fail. */
  lemma {:induction false} BadPairFails(g: HostEntry, h: HostEntry, rest: seq<HostEntry>, port: Port)
    requires AllOn([g, h], port) && h.settings.HttpHost? && !LetsJoin(g, h)
    ensures Target([g] + ([h] + rest), port).Err?
  {
    assert ([g] + ([h] + rest))[..2] == [g, h];
    TwoHosts(g, h, port);
    TargetStops([g] + ([h] + rest), port, 2);
  }

  lemma BadPairOf(hosts: seq<HostEntry>) returns (g: HostEntry, h: HostEntry)
    requires !Compatible(hosts) && forall x :: x in hosts ==> !x.settings.BadSettings?
    ensures g in hosts && h in hosts && g != h && h.settings.HttpHost? && !LetsJoin(g, h)
  {
    h :| h in hosts && !h.settings.TcpHost?;
    if t :| t in hosts && t.settings.TcpHost? {
      g := t;
    } else {
      var a, b :| a in hosts && b in hosts && !LetsJoin(a, b);
      g, h := a, b;
    }
  }

  lemma {:induction false} CompatibleLoads(hosts: seq<HostEntry>, order: seq<HostEntry>, port: Port)
    requires AllOn(hosts, port) && Compatible(hosts) && multiset(order) == multiset(hosts)
    ensures Target(order, port).Ok?
  {
    SameElements(order, hosts);
    CompatibleIsOrderly(order);
    if order != [] { SucceedsIffOrderly(order, port); }
  }

  lemma {:induction false} SomeOrderFails(hosts: seq<HostEntry>, port: Port) returns (order: seq<HostEntry>)
    requires AllOn(hosts, port) && !Compatible(hosts)
    ensures multiset(order) == multiset(hosts) && Target(order, port).Err?
  {
    var g, h := BadPairOf(hosts);
    var others := TakeOut(hosts, g);
    var rest := TakeOut(others, h);
    order := [g] + ([h] + rest);
    assert multiset(order) == multiset{g} + multiset([h] + rest) == multiset([g] + others);
    BadPairFails(g, h, rest, port);
  }

  /** Hosts of a port load in every order exactly when they are compatible. */
  lemma {:induction false} AnyOrderWorksIff(hosts: seq<HostEntry>, port: Port)
    requires AllOn(hosts, port)
    ensures AnyOrderWorks(hosts, port) <==> Compatible(hosts)
  {
    if Compatible(hosts) {
      forall order | multiset(order) == multiset(hosts) ensures Target(order, port).Ok? { CompatibleLoads(hosts, order, port); }
    } else {
      var order := SomeOrderFails(hosts, port);
    }
  }

  /** https2 lets no mcp host join while mcp lets https2 join, so these two load in one
      order only. */
  lemma OneOrderOnly(secure: HostEntry, mcp: HostEntry, port: Port)
    requires AllOn([secure, mcp], port)
    requires secure.settings.HttpHost? && secure.settings.kind == Https2
    requires mcp.settings.HttpHost? && mcp.settings.kind == Mcp
    ensures Target([secure, mcp], port).Err? && Target([mcp, secure], port).Ok?
  {
    TwoHosts(secure, mcp, port);
    assert secure in [secure, mcp] && mcp in [secure, mcp];
    TwoHosts(mcp, secure, port);
  }
}
