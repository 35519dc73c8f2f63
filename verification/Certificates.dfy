/** Manual replacement of TLS certificates: a certificate is stored under an id only when it
    covers the server names of the endpoints that use the id and the domains of the
    certificate it replaces. */
module Certificates {
  import opened Prelude
  import opened Text

  const SELF_SIGNED := "self_signed"

  /** An https or mcp endpoint: the certificate it refers to and its server name. */
  datatype Endpoint = Endpoint(certId: string, serverName: Option<string>)

  /** The DNS names of a parsed certificate: alternative names, then common names. */
  datatype Certificate = Certificate(alternativeNames: seq<string>, commonNames: seq<string>) {
    function Names(): (r: seq<string>) { alternativeNames + commonNames }

    function Domains(): (r: seq<string>) { Unique(Names()) }
  }

  datatype Source = ServerName | ExistingCertificate

  datatype Required = Required(domain: string, source: Source)

  datatype Refusal =
    | EmptyId
    | ReservedId
    | BadMaterial
    | NoEndpoint
    | NoDomain
    | NothingToCompare
    | Uncovered(missing: seq<Required>)

  datatype Outcome = Accepted(id: string, domains: seq<string>, validated: seq<string>) | Refused(reason: Refusal)

  /** An upload: the id as given, what the PEM material parses to, the configured endpoints. */
  datatype Upload = Upload(id: string, material: Option<Certificate>, endpoints: seq<Endpoint>)

  type Store = map<string, Certificate>

  // ----- matching

  predicate IsWildcard(pattern: string) { |pattern| >= 2 && pattern[0] == '*' && pattern[1] == '.' }

  predicate BelowSuffix(domain: string, suffix: string)
  {
    match SplitOnce(domain, '.')
    case Some((_, rest)) => EqIgnoreCase(rest, suffix)
    case None => false
  }

  predicate WildcardMatch(pattern: string, domain: string)
  {
    if IsWildcard(pattern) then '.' in pattern[2..] && BelowSuffix(domain, pattern[2..])
    else EqIgnoreCase(pattern, domain)
  }

  predicate Covers(domains: seq<string>, domain: string)
  {
    exists p :: p in domains && WildcardMatch(p, domain)
  }

  lemma DotsIgnoreCase(a: string, b: string)
    requires EqIgnoreCase(a, b)
    ensures '.' in a <==> '.' in b
    ensures FirstIndex(a, '.', 0) == FirstIndex(b, '.', 0)
  {
    var i := FirstIndex(a, '.', 0);
    assert forall k :: 0 <= k < |a| ==> Lower(a[k]) == Lower(b[k]);
    if i < |a| { FirstIndexUnique(b, '.', 0, i); } else { FirstIndexAbsent(b, '.', 0); }
  }

  lemma BelowIgnoreCase(d: string, e: string, s: string, t: string)
    requires EqIgnoreCase(d, e) && EqIgnoreCase(s, t) && BelowSuffix(d, s)
    ensures BelowSuffix(e, t)
  {
    DotsIgnoreCase(d, e);
    var i := FirstIndex(d, '.', 0);
    assert EqIgnoreCase(d[i + 1..], e[i + 1..]);
  }

  lemma WildcardIgnoresCase(p: string, q: string)
    requires EqIgnoreCase(p, q)
    ensures IsWildcard(p) <==> IsWildcard(q)
    ensures IsWildcard(p) ==> EqIgnoreCase(p[2..], q[2..])
  {
    if |p| >= 2 { assert Lower(p[0]) == Lower(q[0]) && Lower(p[1]) == Lower(q[1]); }
  }

  /** Matching looks at neither side's case. */
  lemma MatchIgnoresCase(p: string, q: string, d: string, e: string)
    requires EqIgnoreCase(p, q) && EqIgnoreCase(d, e) && WildcardMatch(p, d)
    ensures WildcardMatch(q, e)
  {
    WildcardIgnoresCase(p, q);
    if IsWildcard(p) {
      DotsIgnoreCase(p[2..], q[2..]);
      BelowIgnoreCase(d, e, p[2..], q[2..]);
    }
  }

  /** A wildcard that some pattern covers has the same suffix as that pattern. */
  lemma CoveredWildcard(q: string, p: string)
    requires IsWildcard(p) && WildcardMatch(q, p)
    ensures IsWildcard(q) && EqIgnoreCase(p[2..], q[2..])
  {
    FirstIndexUnique(p, '.', 0, 1);
    if EqIgnoreCase(q, p) { WildcardIgnoresCase(q, p); }
  }

  /** What covers a pattern covers everything the pattern covers. */
  lemma MatchTransitive(q: string, p: string, d: string)
    requires WildcardMatch(q, p) && WildcardMatch(p, d)
    ensures WildcardMatch(q, d)
  {
    if IsWildcard(p) {
      CoveredWildcard(q, p);
      DotsIgnoreCase(p[2..], q[2..]);
      BelowIgnoreCase(d, d, p[2..], q[2..]);
    } else {
      MatchIgnoresCase(q, q, p, d);
    }
  }

  /** Only a wildcard over a single label is not covered by itself, and then by nothing. */
  lemma CoverableIffNotTopLevel(p: string)
    ensures WildcardMatch(p, p) <==> !(IsWildcard(p) && '.' !in p[2..])
    ensures forall q :: WildcardMatch(q, p) ==> WildcardMatch(p, p)
  {
    if IsWildcard(p) { FirstIndexUnique(p, '.', 0, 1); }
    forall q | WildcardMatch(q, p) ensures WildcardMatch(p, p) {
      if IsWildcard(p) {
        CoveredWildcard(q, p);
        DotsIgnoreCase(p[2..], q[2..]);
      }
    }
  }

  // ----- lists without repetition

  predicate Listed(names: seq<string>, name: string)
  {
    exists n :: n in names && EqIgnoreCase(n, name)
  }

  function PushUnique(names: seq<string>, name: string): (r: seq<string>)
  {
    if Listed(names, name) then names else names + [name]
  }

  function Unique(names: seq<string>): (r: seq<string>)
  {
    if names == [] then [] else PushUnique(Unique(names[..|names| - 1]), names[|names| - 1])
  }

  lemma UniqueStep(names: seq<string>, i: nat)
    requires i < |names|
    ensures Unique(names[..i + 1]) == PushUnique(Unique(names[..i]), names[i])
  {
    assert names[..i + 1][..i] == names[..i];
  }

  lemma UniqueFirst(a: seq<string>, b: seq<string>, i: nat)
    requires i < |a|
    ensures Unique((a + b)[..i + 1]) == PushUnique(Unique((a + b)[..i]), a[i])
  {
    UniqueStep(a + b, i);
  }

  lemma UniqueSecond(a: seq<string>, b: seq<string>, i: nat)
    requires i < |b|
    ensures Unique((a + b)[..|a| + i + 1]) == PushUnique(Unique((a + b)[..|a| + i]), b[i])
  {
    UniqueStep(a + b, |a| + i);
  }

  /** The domains of the leaf certificate, gathered by two loops. */
  method GetDomains(cert: Certificate) returns (r: seq<string>)
    ensures r == cert.Domains()
  {
    r := [];
    var a, b := cert.alternativeNames, cert.commonNames;
    for i := 0 to |a|
      invariant r == Unique((a + b)[..i])
    {
      UniqueFirst(a, b, i);
      r := PushUnique(r, a[i]);
    }
    for i := 0 to |b|
      invariant r == Unique((a + b)[..|a| + i])
    {
      UniqueSecond(a, b, i);
      r := PushUnique(r, b[i]);
    }
    assert (a + b)[..|a + b|] == a + b;
  }

  /** Nothing is invented and every name is still there up to case. */
  lemma {:induction false} UniqueLists(names: seq<string>)
    ensures forall n :: n in Unique(names) ==> n in names
    ensures forall n :: n in names ==> Listed(Unique(names), n)
  {
    if names != [] {
      var front, last := names[..|names| - 1], names[|names| - 1];
      UniqueLists(front);
      assert names == front + [last];
      var u := Unique(front);
      forall n | n in names ensures Listed(Unique(names), n) { ListedAfterPush(u, last, n); }
    }
  }

  lemma ListedAfterPush(names: seq<string>, last: string, n: string)
    requires Listed(names, n) || n == last
    ensures Listed(PushUnique(names, last), n)
  {
    if Listed(names, n) {
      var m :| m in names && EqIgnoreCase(m, n);
      assert m in PushUnique(names, last);
    } else if !Listed(names, last) {
      assert last in PushUnique(names, last);
    }
  }

  predicate Distinct(names: seq<string>)
  {
    forall i, j :: 0 <= i < j < |names| ==> !EqIgnoreCase(names[i], names[j])
  }

  lemma {:induction false} UniqueIsDistinct(names: seq<string>)
    ensures Distinct(Unique(names))
  {
    if names != [] { UniqueIsDistinct(names[..|names| - 1]); }
  }

  /** Dropping repetitions changes nothing about what is covered. */
  lemma {:induction false} UniqueCovers(names: seq<string>, domain: string)
    ensures Covers(Unique(names), domain) <==> Covers(names, domain)
  {
    UniqueLists(names);
    if Covers(names, domain) {
      var p :| p in names && WildcardMatch(p, domain);
      assert Listed(Unique(names), p);
      var q :| q in Unique(names) && EqIgnoreCase(q, p);
      MatchIgnoresCase(p, q, domain, domain);
    }
  }

  // ----- required names

  function Domains(required: seq<Required>): (r: seq<string>)
  {
    seq(|required|, i requires 0 <= i < |required| => required[i].domain)
  }

  function PushRequired(required: seq<Required>, domain: string, source: Source): (r: seq<Required>)
  {
    if Listed(Domains(required), domain) then required else required + [Required(domain, source)]
  }

  function Referencing(endpoints: seq<Endpoint>, id: string): (r: seq<Endpoint>)
  {
    if endpoints == [] then []
    else
      var front, last := Referencing(endpoints[..|endpoints| - 1], id), endpoints[|endpoints| - 1];
      if last.certId == id then front + [last] else front
  }

  function ServerNames(endpoints: seq<Endpoint>): (r: seq<string>)
  {
    if endpoints == [] then []
    else
      var front, last := ServerNames(endpoints[..|endpoints| - 1]), endpoints[|endpoints| - 1];
      if last.serverName.Some? then front + [last.serverName.value] else front
  }

  function ExistingDomains(store: Store, id: string): (r: seq<string>)
  {
    if id in store then store[id].Domains() else []
  }

  function RequireAll(required: seq<Required>, names: seq<string>, source: Source): (r: seq<Required>)
  {
    if names == [] then required
    else PushRequired(RequireAll(required, names[..|names| - 1], source), names[|names| - 1], source)
  }

  lemma PushRequiredDomains(required: seq<Required>, domain: string, source: Source)
    ensures Domains(PushRequired(required, domain, source)) == PushUnique(Domains(required), domain)
  {
  }

  lemma {:induction false} RequireAllDomains(required: seq<Required>, before: seq<string>, names: seq<string>, source: Source)
    requires Domains(required) == Unique(before)
    ensures Domains(RequireAll(required, names, source)) == Unique(before + names)
  {
    if names == [] {
      assert before + names == before;
    } else {
      var front, last := names[..|names| - 1], names[|names| - 1];
      RequireAllDomains(required, before, front, source);
      PushRequiredDomains(RequireAll(required, front, source), last, source);
      assert (before + names)[..|before + names| - 1] == before + front;
    }
  }

  /** Every required name with where it comes from; server names come first. */
  function RequiredFor(referencing: seq<Endpoint>, existing: seq<string>): (r: seq<Required>)
  {
    RequireAll(RequireAll([], ServerNames(referencing), ServerName), existing, ExistingCertificate)
  }

  lemma RequiredForDomains(referencing: seq<Endpoint>, existing: seq<string>)
    ensures Domains(RequiredFor(referencing, existing)) == Unique(ServerNames(referencing) + existing)
  {
    RequireAllDomains([], [], ServerNames(referencing), ServerName);
    assert [] + ServerNames(referencing) == ServerNames(referencing);
    RequireAllDomains(RequireAll([], ServerNames(referencing), ServerName), ServerNames(referencing), existing, ExistingCertificate);
  }

  method RequireServerNames(referencing: seq<Endpoint>) returns (required: seq<Required>)
    ensures required == RequireAll([], ServerNames(referencing), ServerName)
  {
    required := [];
    for i := 0 to |referencing|
      invariant required == RequireAll([], ServerNames(referencing[..i]), ServerName)
    {
      assert referencing[..i + 1][..i] == referencing[..i];
      if referencing[i].serverName.Some? {
        ghost var before := ServerNames(referencing[..i]);
        assert (before + [referencing[i].serverName.value])[..|before|] == before;
        required := PushRequired(required, referencing[i].serverName.value, ServerName);
      }
    }
    assert referencing[..|referencing|] == referencing;
  }

  method RequireExisting(already: seq<Required>, existing: seq<string>) returns (required: seq<Required>)
    ensures required == RequireAll(already, existing, ExistingCertificate)
  {
    required := already;
    for i := 0 to |existing|
      invariant required == RequireAll(already, existing[..i], ExistingCertificate)
    {
      assert existing[..i + 1][..i] == existing[..i];
      required := PushRequired(required, existing[i], ExistingCertificate);
    }
    assert existing[..|existing|] == existing;
  }

  // ----- the decision

  /** The required names a certificate covers and the ones it does not. */
  function Validated(domains: seq<string>, required: seq<Required>): (r: seq<string>)
  {
    if required == [] then []
    else
      var front, last := Validated(domains, required[..|required| - 1]), required[|required| - 1];
      if Covers(domains, last.domain) then front + [last.domain] else front
  }

  function Missing(domains: seq<string>, required: seq<Required>): (r: seq<Required>)
  {
    if required == [] then []
    else
      var front, last := Missing(domains, required[..|required| - 1]), required[|required| - 1];
      if Covers(domains, last.domain) then front else front + [last]
  }

  method CheckRequired(domains: seq<string>, required: seq<Required>) returns (validated: seq<string>, uncovered: seq<Required>)
    ensures validated == Validated(domains, required) && uncovered == Missing(domains, required)
  {
    validated, uncovered := [], [];
    for i := 0 to |required|
      invariant validated == Validated(domains, required[..i]) && uncovered == Missing(domains, required[..i])
    {
      assert required[..i + 1][..i] == required[..i];
      if Covers(domains, required[i].domain) {
        validated := validated + [required[i].domain];
      } else {
        uncovered := uncovered + [required[i]];
      }
    }
    assert required[..|required|] == required;
  }

  lemma {:induction false} NothingMissing(domains: seq<string>, required: seq<Required>)
    ensures Missing(domains, required) == [] <==> forall i :: 0 <= i < |required| ==> Covers(domains, required[i].domain)
    ensures forall m :: m in Missing(domains, required) <==> m in required && !Covers(domains, m.domain)
    ensures Missing(domains, required) == [] ==> Validated(domains, required) == Domains(required)
  {
    if required != [] {
      var front := required[..|required| - 1];
      NothingMissing(domains, front);
      assert required == front + [required[|required| - 1]];
    }
  }

  function Compare(store: Store, id: string, domains: seq<string>, referencing: seq<Endpoint>): (r: Outcome)
  {
    var required := RequiredFor(referencing, ExistingDomains(store, id));
    var missing := Missing(domains, required);
    if required == [] then Refused(NothingToCompare)
    else if missing != [] then Refused(Uncovered(missing))
    else Accepted(id, domains, Validated(domains, required))
  }

  function Decide(store: Store, upload: Upload): (r: Outcome)
  {
    var id := Trim(upload.id);
    if id == [] then Refused(EmptyId)
    else if id == SELF_SIGNED then Refused(ReservedId)
    else if upload.material.None? then Refused(BadMaterial)
    else if Referencing(upload.endpoints, id) == [] then Refused(NoEndpoint)
    else if upload.material.value.Domains() == [] then Refused(NoDomain)
    else Compare(store, id, upload.material.value.Domains(), Referencing(upload.endpoints, id))
  }

  function After(store: Store, upload: Upload): (r: Store)
  {
    if Decide(store, upload).Accepted? then store[Trim(upload.id) := upload.material.value] else store
  }

  /** The cache of certificates that are served. */
  class SslCertificatesCache {
    var certs: Store

    constructor ()
      ensures certs == map[]
    {
      certs := map[];
    }

    method Replace(upload: Upload) returns (r: Outcome)
      modifies this
      ensures r == Decide(old(certs), upload)
      ensures certs == After(old(certs), upload)
    {
      var id := Trim(upload.id);
      if id == [] { return Refused(EmptyId); }
      if id == SELF_SIGNED { return Refused(ReservedId); }
      if upload.material.None? { return Refused(BadMaterial); }
      var referencing := Referencing(upload.endpoints, id);
      if referencing == [] { return Refused(NoEndpoint); }
      var domains := GetDomains(upload.material.value);
      if domains == [] { return Refused(NoDomain); }
      var existing := [];
      if id in certs { existing := GetDomains(certs[id]); }
      var required := RequireServerNames(referencing);
      required := RequireExisting(required, existing);
      if required == [] { return Refused(NothingToCompare); }
      var validated, uncovered := CheckRequired(domains, required);
      if uncovered != [] { return Refused(Uncovered(uncovered)); }
      certs := certs[id := upload.material.value];
      return Accepted(id, domains, validated);
    }
  }

  // ----- what acceptance means

  /** An endpoint with this server name refers to the certificate. */
  ghost predicate Serves(endpoints: seq<Endpoint>, id: string, name: string)
  {
    exists e :: e in endpoints && e.certId == id && e.serverName == Some(name)
  }

  ghost predicate CoversAll(domains: seq<string>, names: seq<string>)
  {
    forall n :: n in names ==> Covers(domains, n)
  }

  lemma {:induction false} ReferencingExactly(endpoints: seq<Endpoint>, id: string)
    ensures forall e :: e in Referencing(endpoints, id) <==> e in endpoints && e.certId == id
  {
    if endpoints != [] {
      ReferencingExactly(endpoints[..|endpoints| - 1], id);
      assert endpoints == endpoints[..|endpoints| - 1] + [endpoints[|endpoints| - 1]];
    }
  }

  lemma {:induction false} ServerNamesExactly(endpoints: seq<Endpoint>)
    ensures forall n :: n in ServerNames(endpoints) <==> exists e :: e in endpoints && e.serverName == Some(n)
  {
    if endpoints != [] {
      var front, last := endpoints[..|endpoints| - 1], endpoints[|endpoints| - 1];
      ServerNamesExactly(front);
      assert endpoints == front + [last];
      forall n ensures n in ServerNames(endpoints) <==> exists e :: e in endpoints && e.serverName == Some(n) {
        if n in ServerNames(front) {
          var e :| e in front && e.serverName == Some(n);
          assert e in endpoints;
        }
      }
    }
  }

  lemma ReferencedNames(endpoints: seq<Endpoint>, id: string)
    ensures forall n :: n in ServerNames(Referencing(endpoints, id)) <==> Serves(endpoints, id, n)
  {
    var referencing := Referencing(endpoints, id);
    ReferencingExactly(endpoints, id);
    ServerNamesExactly(referencing);
    forall n | Serves(endpoints, id, n) ensures n in ServerNames(referencing) {
      var e :| e in endpoints && e.certId == id && e.serverName == Some(n);
      assert e in referencing;
    }
  }

  lemma UniqueEmpty(names: seq<string>)
    ensures Unique(names) == [] <==> names == []
  {
    UniqueLists(names);
    if names != [] { assert Listed(Unique(names), names[0]); }
  }

  /** Checking a list without its repetitions checks the whole list. */
  lemma {:induction false} UniqueCovered(domains: seq<string>, names: seq<string>)
    ensures CoversAll(domains, Unique(names)) <==> CoversAll(domains, names)
  {
    UniqueLists(names);
    if CoversAll(domains, Unique(names)) {
      forall n | n in names ensures Covers(domains, n) {
        assert Listed(Unique(names), n);
        var m :| m in Unique(names) && EqIgnoreCase(m, n);
        var p :| p in domains && WildcardMatch(p, m);
        MatchIgnoresCase(p, p, m, n);
      }
    }
  }

  lemma CoversAllUnique(names: seq<string>, required: seq<string>)
    ensures CoversAll(Unique(names), required) <==> CoversAll(names, required)
  {
    forall n | n in required ensures Covers(Unique(names), n) <==> Covers(names, n) { UniqueCovers(names, n); }
  }

  lemma {:induction false} NothingMissingCovers(domains: seq<string>, required: seq<Required>)
    ensures Missing(domains, required) == [] <==> CoversAll(domains, Domains(required))
  {
    NothingMissing(domains, required);
    assert forall i :: 0 <= i < |required| ==> Domains(required)[i] == required[i].domain;
    if CoversAll(domains, Domains(required)) {
      forall i | 0 <= i < |required| ensures Covers(domains, required[i].domain) {
        assert Domains(required)[i] in Domains(required);
      }
    }
  }

  lemma {:induction false} ComparesEverything(store: Store, id: string, cert: Certificate, referencing: seq<Endpoint>)
    ensures var prior := ExistingNames(store, id);
            Compare(store, id, cert.Domains(), referencing).Accepted?
            <==> (ServerNames(referencing) != [] || prior != [])
                 && CoversAll(cert.Names(), ServerNames(referencing)) && CoversAll(cert.Names(), prior)
  {
    var existing, names := ExistingDomains(store, id), ServerNames(referencing);
    var required := RequiredFor(referencing, existing);
    RequiredForDomains(referencing, existing);
    assert required == [] <==> Domains(required) == [];
    UniqueEmpty(names + existing);
    NothingMissingCovers(cert.Domains(), required);
    UniqueCovered(cert.Domains(), names + existing);
    CoversAllUnique(cert.Names(), names + existing);
    ExistingCompared(store, id, cert.Names(), names);
  }

  ghost function ExistingNames(store: Store, id: string): (r: seq<string>)
  {
    if id in store then store[id].Names() else []
  }

  lemma {:induction false} ExistingCompared(store: Store, id: string, domains: seq<string>, names: seq<string>)
    ensures ExistingDomains(store, id) == [] <==> ExistingNames(store, id) == []
    ensures CoversAll(domains, names + ExistingDomains(store, id))
       <==> CoversAll(domains, names) && CoversAll(domains, ExistingNames(store, id))
  {
    var existing := ExistingDomains(store, id);
    UniqueEmpty(ExistingNames(store, id));
    UniqueCovered(domains, ExistingNames(store, id));
    if CoversAll(domains, names + existing) {
      forall n | n in names ensures Covers(domains, n) { assert n in names + existing; }
      forall n | n in existing ensures Covers(domains, n) { assert n in names + existing; }
    }
  }

  /** An upload is accepted exactly when its id is usable, its material parses, an endpoint
      uses the id, there is something to compare with, and the certificate covers every
      server name that uses the id and every name of the certificate it replaces. */
  lemma {:induction false} AcceptedIff(store: Store, upload: Upload)
    ensures var id := Trim(upload.id);
            Decide(store, upload).Accepted?
            <==> && id != [] && id != SELF_SIGNED
                 && upload.material.Some?
                 && upload.material.value.Names() != []
                 && (exists e :: e in upload.endpoints && e.certId == id)
                 && ((exists name :: Serves(upload.endpoints, id, name)) || ExistingNames(store, id) != [])
                 && (forall name :: Serves(upload.endpoints, id, name) ==> Covers(upload.material.value.Names(), name))
                 && CoversAll(upload.material.value.Names(), ExistingNames(store, id))
  {
    var id := Trim(upload.id);
    if upload.material.Some? {
      var cert, referencing := upload.material.value, Referencing(upload.endpoints, id);
      ReferencedNames(upload.endpoints, id);
      AnyReferencing(upload.endpoints, id);
      UniqueEmpty(cert.Names());
      ComparesEverything(store, id, cert, referencing);
      assert ServerNames(referencing) != [] <==> exists name :: Serves(upload.endpoints, id, name) by {
        if ServerNames(referencing) != [] { assert ServerNames(referencing)[0] in ServerNames(referencing); }
      }
    }
  }

  lemma AnyReferencing(endpoints: seq<Endpoint>, id: string)
    ensures Referencing(endpoints, id) != [] <==> exists e :: e in endpoints && e.certId == id
  {
    ReferencingExactly(endpoints, id);
    if Referencing(endpoints, id) != [] { assert Referencing(endpoints, id)[0] in Referencing(endpoints, id); }
  }

  // ----- runs of uploads

  function Run(store: Store, uploads: seq<Upload>): (r: Store)
  {
    if uploads == [] then store else After(Run(store, uploads[..|uploads| - 1]), uploads[|uploads| - 1])
  }

  lemma {:induction false} CoverageGrows(store: Store, upload: Upload, id: string, domain: string)
    requires id in store && Covers(store[id].Names(), domain)
    ensures id in After(store, upload) && Covers(After(store, upload)[id].Names(), domain)
  {
    if Decide(store, upload).Accepted? && Trim(upload.id) == id {
      AcceptedIff(store, upload);
      var p :| p in store[id].Names() && WildcardMatch(p, domain);
      assert p in ExistingNames(store, id);
      var q :| q in upload.material.value.Names() && WildcardMatch(q, p);
      MatchTransitive(q, p, domain);
    }
  }

  /** Along every run of uploads made one at a time, a host name once covered under an id
      stays covered. */
  lemma {:induction false} CoverageNeverShrinks(store: Store, uploads: seq<Upload>, id: string, domain: string)
    requires id in store && Covers(store[id].Names(), domain)
    ensures id in Run(store, uploads) && Covers(Run(store, uploads)[id].Names(), domain)
  {
    if uploads != [] {
      CoverageNeverShrinks(store, uploads[..|uploads| - 1], id, domain);
      CoverageGrows(Run(store, uploads[..|uploads| - 1]), uploads[|uploads| - 1], id, domain);
    }
  }

  /** The server name of every endpoint that referred to an accepted certificate stays
      covered under the id, whatever is uploaded later, one at a time. */
  lemma {:induction false} EndpointsStayCovered(store: Store, upload: Upload, later: seq<Upload>, name: string)
    requires Decide(store, upload).Accepted? && Serves(upload.endpoints, Trim(upload.id), name)
    ensures var served := Run(After(store, upload), later);
            Trim(upload.id) in served && Covers(served[Trim(upload.id)].Names(), name)
  {
    AcceptedIff(store, upload);
    CoverageNeverShrinks(After(store, upload), later, Trim(upload.id), name);
  }

  /** A wildcard over a single label, such as one over a top-level domain. */
  predicate TopLevelWildcard(name: string) { IsWildcard(name) && '.' !in name[2..] }

  /** A certificate with such a name is never replaced by an upload. */
  lemma {:induction false} TopLevelWildcardFreezes(store: Store, uploads: seq<Upload>, id: string, name: string)
    requires id in store && name in store[id].Names() && TopLevelWildcard(name)
    ensures id in Run(store, uploads) && Run(store, uploads)[id] == store[id]
  {
    if uploads != [] {
      var before, upload := Run(store, uploads[..|uploads| - 1]), uploads[|uploads| - 1];
      TopLevelWildcardFreezes(store, uploads[..|uploads| - 1], id, name);
      if Decide(before, upload).Accepted? && Trim(upload.id) == id {
        assert name in ExistingNames(before, id);
        CoverableIffNotTopLevel(name);
        AcceptedIff(before, upload);
      }
    }
  }

  /** A certificate with the same names as the one it replaces is accepted exactly when none
      of the names is such a wildcard. */
  lemma {:induction false} RenewalAcceptedIff(store: Store, upload: Upload)
    requires var id := Trim(upload.id);
             && id != [] && id != SELF_SIGNED && id in store && upload.material.Some?
             && store[id].Names() == upload.material.value.Names() != []
             && (exists e :: e in upload.endpoints && e.certId == id)
             && (forall name :: Serves(upload.endpoints, id, name) ==> Covers(store[id].Names(), name))
    ensures Decide(store, upload).Accepted? <==> forall n :: n in store[Trim(upload.id)].Names() ==> !TopLevelWildcard(n)
  {
    var names := store[Trim(upload.id)].Names();
    AcceptedIff(store, upload);
    forall n | n in names ensures Covers(names, n) <==> !TopLevelWildcard(n) { CoverableIffNotTopLevel(n); }
  }

  // ----- uploads whose reads and writes interleave

  /** An upload that has read the certificate under its id and not written yet. */
  datatype Pending = Pending(upload: Upload, seen: Store)

  datatype Cache = Cache(store: Store, pending: map<nat, Pending>)

  /** The cache is read under one lock and written under another. */
  datatype Event = Read(session: nat, upload: Upload) | Commit(session: nat)

  function Next(c: Cache, e: Event): (r: Cache)
  {
    match e
    case Read(k, upload) => c.(pending := c.pending[k := Pending(upload, c.store)])
    case Commit(k) =>
      if k !in c.pending then c
      else
        var p := c.pending[k];
        var left := c.pending - {k};
        if Decide(p.seen, p.upload).Accepted? then Cache(c.store[Trim(p.upload.id) := p.upload.material.value], left)
        else Cache(c.store, left)
  }

  function Interleaved(c: Cache, events: seq<Event>): (r: Cache)
  {
    if events == [] then c else Next(Interleaved(c, events[..|events| - 1]), events[|events| - 1])
  }

  /** Session `k` is about to store a certificate under `id`. */
  predicate WillStore(c: Cache, k: nat, id: string)
  {
    k in c.pending && Trim(c.pending[k].upload.id) == id && Decide(c.pending[k].seen, c.pending[k].upload).Accepted?
  }

  ghost predicate KeepsCoverage(prior: seq<string>, names: seq<string>)
  {
    forall d :: Covers(prior, d) ==> Covers(names, d)
  }

  /** One list of names covers what another one does exactly when it covers every name of
      it but wildcards over a single label, which cover nothing. */
  lemma {:induction false} KeepsCoverageIff(prior: seq<string>, names: seq<string>)
    ensures KeepsCoverage(prior, names) <==> forall p :: p in prior && !TopLevelWildcard(p) ==> Covers(names, p)
  {
    if KeepsCoverage(prior, names) {
      forall p | p in prior && !TopLevelWildcard(p) ensures Covers(names, p) {
        CoverableIffNotTopLevel(p);
        assert Covers(prior, p);
      }
    }
    if forall p :: p in prior && !TopLevelWildcard(p) ==> Covers(names, p) {
      forall d | Covers(prior, d) ensures Covers(names, d) {
        var p :| p in prior && WildcardMatch(p, d);
        assert !TopLevelWildcard(p);
        var q :| q in names && WildcardMatch(q, p);
        MatchTransitive(q, p, d);
      }
    }
  }

  /** A commit keeps what is covered under its id exactly when the new certificate covers
      every name, but single-label wildcards, of the one that is there at the commit. */
  lemma {:induction false} CommitKeepsCoverageIff(c: Cache, k: nat, id: string)
    requires WillStore(c, k, id) && id in c.store
    ensures id in Next(c, Commit(k)).store
    ensures var stored := c.pending[k].upload.material.value.Names();
            KeepsCoverage(c.store[id].Names(), Next(c, Commit(k)).store[id].Names())
            <==> forall p :: p in c.store[id].Names() && !TopLevelWildcard(p) ==> Covers(stored, p)
  {
    KeepsCoverageIff(c.store[id].Names(), c.pending[k].upload.material.value.Names());
  }

  /** The certificate under the id at the commit is the one that was read. */
  predicate Unchanged(c: Cache, k: nat)
  {
    k in c.pending ==>
      var p := c.pending[k];
      var id := Trim(p.upload.id);
      id in c.store ==> id in p.seen && p.seen[id] == c.store[id]
  }

  lemma {:induction false} UnchangedCommitKeeps(c: Cache, k: nat, id: string, domain: string)
    requires Unchanged(c, k) && id in c.store && Covers(c.store[id].Names(), domain)
    ensures var store := Next(c, Commit(k)).store; id in store && Covers(store[id].Names(), domain)
  {
    if WillStore(c, k, id) { CoverageGrows(c.pending[k].seen, c.pending[k].upload, id, domain); }
  }

  /** No commit of the run finds another certificate under its id than the one it read. */
  ghost predicate NoneOvertaken(c: Cache, events: seq<Event>)
  {
    events != [] ==>
      var front, last := events[..|events| - 1], events[|events| - 1];
      NoneOvertaken(c, front) && (last.Commit? ==> Unchanged(Interleaved(c, front), last.session))
  }

  /** Along every interleaving in which no upload is overtaken between its read and its
      write, a host name once covered under an id stays covered. */
  lemma {:induction false} InterleavedCoverage(c: Cache, events: seq<Event>, id: string, domain: string)
    requires NoneOvertaken(c, events) && id in c.store && Covers(c.store[id].Names(), domain)
    ensures var store := Interleaved(c, events).store; id in store && Covers(store[id].Names(), domain)
  {
    if events != [] {
      var front, last := events[..|events| - 1], events[|events| - 1];
      InterleavedCoverage(c, front, id, domain);
      if last.Commit? { UnchangedCommitKeeps(Interleaved(c, front), last.session, id, domain); }
    }
  }

  lemma ExactNamesMatch(a: string, b: string)
    requires !IsWildcard(a)
    ensures WildcardMatch(a, b) <==> EqIgnoreCase(a, b)
    ensures WildcardMatch(a, a)
  {
  }

  lemma {:induction false} AcceptedOver(store: Store, id: string, a: string, cert: Certificate, upload: Upload)
    requires Trim(id) == id && id != [] && id != SELF_SIGNED && !IsWildcard(a)
    requires store == map[id := Certificate([a], [])] && upload == Upload(id, Some(cert), [Endpoint(id, None)]) && a in cert.Names()
    ensures Decide(store, upload).Accepted?
  {
    ExactNamesMatch(a, a);
    assert store[id].Names() == [a];
    assert Endpoint(id, None) in upload.endpoints;
    assert Covers(cert.Names(), a);
    AcceptedIff(store, upload);
  }

  /** Two uploads that both read the certificate for `a` before either writes are both
      accepted, and the second write uncovers the `b` that the first one covered. */
  lemma {:induction false} OvertakenUploadShrinks(id: string, a: string, b: string)
    requires Trim(id) == id && id != [] && id != SELF_SIGNED && !IsWildcard(a) && !IsWildcard(b) && !EqIgnoreCase(a, b)
    ensures var more, less := Certificate([a, b], []), Certificate([a], []);
            var start := Cache(map[id := less], map[]);
            var both := [Read(0, Upload(id, Some(more), [Endpoint(id, None)])), Read(1, Upload(id, Some(less), [Endpoint(id, None)])), Commit(0)];
            && Interleaved(start, both).store == map[id := more] && Covers(more.Names(), b)
            && Interleaved(start, both + [Commit(1)]).store == map[id := less] && !Covers(less.Names(), b)
  {
    var more, less := Certificate([a, b], []), Certificate([a], []);
    var first, second := Upload(id, Some(more), [Endpoint(id, None)]), Upload(id, Some(less), [Endpoint(id, None)]);
    var store := map[id := less];
    assert more.Names() == [a, b] && less.Names() == [a];
    AcceptedOver(store, id, a, more, first);
    AcceptedOver(store, id, a, less, second);
    FourSteps(store, first, second, id);
    ExactNamesMatch(b, b);
    ExactNamesMatch(a, b);
    assert b in more.Names();
  }

  lemma {:induction false} InterleavedNext(c: Cache, events: seq<Event>, e: Event)
    ensures Interleaved(c, events + [e]) == Next(Interleaved(c, events), e)
  {
    assert (events + [e])[..|events|] == events;
  }

  lemma {:induction false} FourSteps(store: Store, first: Upload, second: Upload, id: string)
    requires Trim(first.id) == id && Trim(second.id) == id && id in store && store.Keys == {id}
    requires Decide(store, first).Accepted? && Decide(store, second).Accepted? && first.material.Some? && second.material.Some?
    ensures var both := [Read(0, first), Read(1, second), Commit(0)];
            && Interleaved(Cache(store, map[]), both).store == map[id := first.material.value]
            && Interleaved(Cache(store, map[]), both + [Commit(1)]).store == map[id := second.material.value]
  {
    var c := Cache(store, map[]);
    var one, two := [Read(0, first)], [Read(0, first), Read(1, second)];
    InterleavedNext(c, [], Read(0, first));
    InterleavedNext(c, one, Read(1, second));
    InterleavedNext(c, two, Commit(0));
    InterleavedNext(c, two + [Commit(0)], Commit(1));
    assert [] + [Read(0, first)] == one && one + [Read(1, second)] == two;
    assert two + [Commit(0)] == [Read(0, first), Read(1, second), Commit(0)];
    TwoCommits(store, first, second, id);
  }

  lemma {:induction false} TwoCommits(store: Store, first: Upload, second: Upload, id: string)
    requires Trim(first.id) == id && Trim(second.id) == id && id in store && store.Keys == {id}
    requires Decide(store, first).Accepted? && Decide(store, second).Accepted? && first.material.Some? && second.material.Some?
    ensures var c := Next(Next(Cache(store, map[]), Read(0, first)), Read(1, second));
            && Next(c, Commit(0)).store == map[id := first.material.value]
            && Next(Next(c, Commit(0)), Commit(1)).store == map[id := second.material.value]
  {
    var c := Next(Next(Cache(store, map[]), Read(0, first)), Read(1, second));
    assert c.pending[0] == Pending(first, store) && c.pending[1] == Pending(second, store);
    assert Next(c, Commit(0)).store == map[id := first.material.value];
    assert Next(c, Commit(0)).pending[1] == Pending(second, store);
  }
}
