/** Which paths the authorization server answers, where its metadata lives, and which
    resource an audience covers (src/oauth/oauth_route.rs, src/oauth/metadata.rs,
    src/oauth/bearer_gate.rs and src/configurations/http_endpoint_info.rs). */
module Routes {
  import opened Prelude
  import opened Text

  const AS_METADATA_PATH := "/.well-known/oauth-authorization-server"
  const OPENID_CONFIGURATION_PATH := "/.well-known/openid-configuration"
  const PROTECTED_RESOURCE_METADATA_PATH := "/.well-known/oauth-protected-resource"
  const AUTHORIZE_PATH := "/oauth/authorize"
  const TOKEN_PATH := "/oauth/token"

  datatype Route =
    | AuthorizationServerMetadata
    | ProtectedResourceMetadata(resourcePath: string)
    | Authorize
    | Token

  /** `Some(suffix)` when `path` is `prefix` or continues it with a further segment. */
  function MatchesWithSuffix(path: string, prefix: string): (r: Option<string>)
  {
    if |path| < |prefix| || !EqIgnoreCase(path[..|prefix|], prefix) then None
    else
      var suffix := path[|prefix|..];
      if suffix == "" || suffix[0] == '/' then Some(suffix) else None
  }

  /** A path in the shape locations are compared in. */
  predicate IsNormal(path: string)
  {
    path == "/" || (|path| >= 2 && path[0] == '/' && path[|path| - 1] != '/')
  }

  function NormalizeResourcePath(path: string): (r: string)
    ensures IsNormal(r)
    ensures IsNormal(path) ==> r == path
  {
    var trimmed := TrimSlashes(path);
    if trimmed == "" then "/"
    else if trimmed[0] == '/' then trimmed
    else "/" + trimmed
  }

  function RouteOAuthPath(path: string): (r: Option<Route>)
  {
    if EqIgnoreCase(path, AUTHORIZE_PATH) then Some(Authorize)
    else if EqIgnoreCase(path, TOKEN_PATH) then Some(Token)
    else if MatchesWithSuffix(path, AS_METADATA_PATH).Some? || MatchesWithSuffix(path, OPENID_CONFIGURATION_PATH).Some? then
      Some(AuthorizationServerMetadata)
    else
      match MatchesWithSuffix(path, PROTECTED_RESOURCE_METADATA_PATH)
      case Some(suffix) => Some(ProtectedResourceMetadata(NormalizeResourcePath(suffix)))
      case None => None
  }

  function BuildResourceUrl(base: string, resourcePath: string): (r: string)
  {
    if resourcePath == "/" || resourcePath == "" then base else base + resourcePath
  }

  function BuildResourceMetadataUrl(base: string, resourcePath: string): (r: string)
  {
    if resourcePath == "/" || resourcePath == "" then base + PROTECTED_RESOURCE_METADATA_PATH
    else base + PROTECTED_RESOURCE_METADATA_PATH + resourcePath
  }

  /** `resource` is `prefix`, or lies below it, ignoring ASCII case. */
  predicate Below(resource: string, prefix: string)
  {
    || EqIgnoreCase(resource, prefix)
    || (|prefix| < |resource| && EqIgnoreCase(resource[..|prefix|], prefix) && resource[|prefix|] == '/')
  }

  predicate ResourcePathIsServed(resourcePath: string, locations: seq<string>)
  {
    exists i :: 0 <= i < |locations| &&
                var location := NormalizeResourcePath(locations[i]);
                location == "/" || Below(resourcePath, location)
  }

  /** The path of an audience on this server, `None` for another server's. */
  function AudiencePath(audience: string, base: string): (r: Option<string>)
  {
    var audience := TrimSlashes(audience);
    var base := TrimSlashes(base);
    if base <= audience then Some(audience[|base|..]) else None
  }

  /** Whether a token minted for `audience` may be used on `resourcePath`. */
  predicate AudienceAllows(audience: string, base: string, resourcePath: string)
  {
    match AudiencePath(audience, base)
    case None => false
    case Some(path) =>
      || path == "" || path == "/"
      || (path[0] == '/' && Below(if resourcePath == "" then "/" else resourcePath, path))
  }

  /** The URL is the base or goes on from it with a path, and is not merely text that starts
      with it. */
  predicate OnServer(url: string, base: string)
  {
    var path := AudiencePath(url, base);
    path.Some? && (path.value == "" || path.value[0] == '/')
  }

  lemma AllowedIsOnServer(audience: string, base: string, resourcePath: string)
    requires AudienceAllows(audience, base, resourcePath)
    ensures OnServer(audience, base)
  {
  }

  /** A token opens something on this server exactly when its audience is the base or goes
      on from it with a path. */
  lemma {:induction false} OpensSomethingIff(audience: string, base: string)
    ensures (exists r :: IsNormal(r) && AudienceAllows(audience, base, r)) <==> OnServer(audience, base)
  {
    if OnServer(audience, base) {
      var path := AudiencePath(audience, base).value;
      var r := if path == "" then "/" else path;
      var trimmed := TrimSlashes(audience);
      if path != "" { assert path[|path| - 1] == trimmed[|trimmed| - 1]; }
      assert IsNormal(r) && AudienceAllows(audience, base, r);
    }
  }

  /** The first configured location whose path is a prefix of the request path. */
  function FindLocation(locations: seq<string>, path: string): (r: Option<nat>)
    ensures r.Some? ==> r.value < |locations|
  {
    if locations == [] then None
    else if |locations[0]| <= |path| && EqIgnoreCase(path[..|locations[0]|], locations[0]) then Some(0)
    else match FindLocation(locations[1..], path)
      case None => None
      case Some(i) => Some(i + 1)
  }

  /** The loop of `find_location`. */
  method SearchLocation(locations: seq<string>, path: string) returns (found: Option<nat>)
    ensures found == FindLocation(locations, path)
  {
    for i := 0 to |locations|
      invariant FindLocation(locations, path)
             == match FindLocation(locations[i..], path) case None => None case Some(k) => Some(k + i)
    {
      assert locations[i..][1..] == locations[i + 1..];
      if |locations[i]| > |path| { continue; }
      if EqIgnoreCase(path[..|locations[i]|], locations[i]) { return Some(i); }
    }
    return None;
  }

  /** What the gate protects a request as: its location, or its own path without one. */
  function ResourceOfRequest(locations: seq<string>, path: string): (r: string)
    ensures IsNormal(r)
  {
    match FindLocation(locations, path)
    case Some(i) => NormalizeResourcePath(locations[i])
    case None => NormalizeResourcePath(path)
  }

  // ----- routed and served

  /** Location `l` takes requests for `path`. */
  predicate RoutesTo(l: string, path: string) { |l| <= |path| && EqIgnoreCase(path[..|l|], l) }

  /** The path goes on at a segment boundary after the location. */
  predicate AtBoundary(l: string, path: string)
    requires |l| <= |path|
  {
    l == "" || l[|l| - 1] == '/' || |path| == |l| || path[|l|] == '/'
  }

  lemma SameSlash(path: string, l: string, i: nat)
    requires RoutesTo(l, path) && i < |l|
    ensures l[i] == '/' <==> path[i] == '/'
  {
    assert Lower(path[..|l|][i]) == Lower(l[i]);
  }

  lemma TrimSlashesIsPrefix(s: string)
    ensures TrimSlashes(s) <= s
    ensures forall i :: |TrimSlashes(s)| <= i < |s| ==> s[i] == '/'
  {
  }

  lemma {:induction false} BelowWhenTrimmed(l: string, path: string)
    requires RoutesTo(l, path) && path != "" && path[0] == '/' && l != "" && l[|l| - 1] == '/'
    ensures var n := NormalizeResourcePath(l); n == "/" || Below(path, n)
  {
    var t := TrimSlashes(l);
    TrimSlashesIsPrefix(l);
    if t != "" {
      SameSlash(path, l, 0);
      assert t[0] == l[0] == '/';
      SameSlash(path, l, |t|);
      assert EqIgnoreCase(path[..|t|], t) by {
        forall i | 0 <= i < |t| ensures Lower(path[..|t|][i]) == Lower(t[i]) { assert path[..|l|][i] == path[i] && t[i] == l[i]; }
      }
    }
  }

  lemma {:induction false} BelowAtBoundary(l: string, path: string)
    requires RoutesTo(l, path) && path != "" && path[0] == '/' && l != "" && l[|l| - 1] != '/'
    ensures NormalizeResourcePath(l) == l && l != "/"
    ensures Below(path, l) <==> |path| == |l| || path[|l|] == '/'
  {
    SameSlash(path, l, 0);
    if |path| == |l| { assert path[..|l|] == path; }
  }

  /** A path that a location takes counts as served by it exactly when it goes on at a
      segment boundary. */
  lemma {:induction false} RoutedIsServedIff(l: string, path: string)
    requires RoutesTo(l, path) && path != "" && path[0] == '/'
    ensures ResourcePathIsServed(path, [l]) <==> AtBoundary(l, path)
  {
    var n := NormalizeResourcePath(l);
    assert ResourcePathIsServed(path, [l]) <==> n == "/" || Below(path, n) by { assert [l][0] == l; }
    if l != "" {
      if l[|l| - 1] == '/' { BelowWhenTrimmed(l, path); } else { BelowAtBoundary(l, path); }
    }
  }

  /** `/mt` takes `/mt-risks`, which does not count as served by it. */
  lemma RoutedButNotServed()
    ensures FindLocation(["/mt"], "/mt-risks") == Some(0) && !ResourcePathIsServed("/mt-risks", ["/mt"])
  {
    assert "/mt-risks"[..3] == "/mt";
    RoutedIsServedIff("/mt", "/mt-risks");
  }

  // ----- audiences as lists of path segments

  /** The segments of a normal path; the root has none. */
  function Segments(path: string): (r: seq<string>)
  {
    if path == "" || path == "/" then [] else Split(path[1..], '/')
  }

  ghost predicate SegmentPrefix(a: seq<string>, b: seq<string>)
  {
    |a| <= |b| && forall i :: 0 <= i < |a| ==> EqIgnoreCase(a[i], b[i])
  }

  lemma SegmentPrefixCons(x: string, xs: seq<string>, y: string, ys: seq<string>)
    ensures SegmentPrefix([x] + xs, [y] + ys) <==> EqIgnoreCase(x, y) && SegmentPrefix(xs, ys)
  {
    if SegmentPrefix([x] + xs, [y] + ys) {
      assert EqIgnoreCase(([x] + xs)[0], ([y] + ys)[0]);
      forall i | 0 <= i < |xs| ensures EqIgnoreCase(xs[i], ys[i]) {
        assert EqIgnoreCase(([x] + xs)[i + 1], ([y] + ys)[i + 1]);
      }
    }
  }

  lemma SlashFolds(c: char)
    ensures Lower(c) == Lower('/') <==> c == '/'
  {
  }

  lemma SplitFirst(s: string)
    ensures var i := FirstIndex(s, '/', 0);
            Split(s, '/') == [s[..i]] + (if i == |s| then [] else Split(s[i + 1..], '/'))
  {
    var i := FirstIndex(s, '/', 0);
    if i == |s| { assert s[..i] == s; }
  }

  /** Lying below a path is having its segments as a prefix. */
  lemma {:induction false} LastSegment(y: string, x: string)
    requires FirstIndex(x, '/', 0) == |x|
    ensures Below(y, x) <==> SegmentPrefix(Split(x, '/'), Split(y, '/'))
  {
    var j := FirstIndex(y, '/', 0);
    SplitFirst(x);
    SplitFirst(y);
    SegmentPrefixCons(x, [], y[..j], if j == |y| then [] else Split(y[j + 1..], '/'));
    BelowOneSegment(y, x, j);
  }

  lemma {:induction false} OtherSegment(y: string, x: string, i: nat, j: nat)
    requires i == FirstIndex(x, '/', 0) < |x| && j == FirstIndex(y, '/', 0)
    requires j == |y| || i != j || !EqIgnoreCase(x[..i], y[..j])
    ensures !SegmentPrefix(Split(x, '/'), Split(y, '/'))
  {
    SplitFirst(x);
    SplitFirst(y);
    if j == |y| {
      OtherFirst(x[..i], Split(x[i + 1..], '/'), y[..j], []);
    } else {
      assert |x[..i]| == i && |y[..j]| == j;
      OtherFirst(x[..i], Split(x[i + 1..], '/'), y[..j], Split(y[j + 1..], '/'));
    }
  }

  lemma {:induction false} OtherFirst(x: string, xs: seq<string>, y: string, ys: seq<string>)
    requires xs != [] && (ys == [] || !EqIgnoreCase(x, y))
    ensures !SegmentPrefix([x] + xs, [y] + ys)
  {
    SegmentPrefixCons(x, xs, y, ys);
  }

  lemma {:induction false} BelowIsSegmentPrefix(y: string, x: string)
    ensures Below(y, x) <==> SegmentPrefix(Split(x, '/'), Split(y, '/'))
    decreases |x|
  {
    var i, j := FirstIndex(x, '/', 0), FirstIndex(y, '/', 0);
    if i == |x| {
      LastSegment(y, x);
    } else if j == |y| || i != j || !EqIgnoreCase(x[..i], y[..j]) {
      OtherSegment(y, x, i, j);
      NotBelow(y, x, i, j);
    } else {
      SplitFirst(x);
      SplitFirst(y);
      BelowIsSegmentPrefix(y[j + 1..], x[i + 1..]);
      SegmentPrefixCons(x[..i], Split(x[i + 1..], '/'), y[..j], Split(y[j + 1..], '/'));
      BelowTail(y, x, i);
    }
  }

  lemma BelowOneSegment(y: string, x: string, j: nat)
    requires '/' !in x && j == FirstIndex(y, '/', 0)
    ensures Below(y, x) <==> EqIgnoreCase(x, y[..j])
  {
    if Below(y, x) {
      assert forall k :: 0 <= k < |x| ==> y[k] != '/' by {
        forall k | 0 <= k < |x| ensures y[k] != '/' {
          assert Lower(y[k]) == Lower(x[k]) by {
            if !EqIgnoreCase(y, x) { assert y[..|x|][k] == y[k]; }
          }
          SlashFolds(x[k]); SlashFolds(y[k]);
          assert x[k] in x;
        }
      }
      assert |x| == j;
    }
  }

  lemma NotBelow(y: string, x: string, i: nat, j: nat)
    requires i == FirstIndex(x, '/', 0) < |x| && j == FirstIndex(y, '/', 0)
    requires j == |y| || i != j || !EqIgnoreCase(x[..i], y[..j])
    ensures !Below(y, x)
    ensures !(EqIgnoreCase(x[..i], y[..j]) && j < |y|)
  {
    if EqIgnoreCase(x[..i], y[..j]) { assert i == j; }
    if Below(y, x) {
      forall k | 0 <= k <= i ensures Lower(y[k]) == Lower(x[k]) && (y[k] == '/' <==> k == i) {
        if !EqIgnoreCase(y, x) { assert y[..|x|][k] == y[k]; }
        SlashFolds(x[k]); SlashFolds(y[k]);
      }
      FirstIndexUnique(y, '/', 0, i);
      assert false;
    }
  }

  lemma BelowTail(y: string, x: string, i: nat)
    requires i < |x| && i < |y| && x[i] == '/' == y[i] && EqIgnoreCase(x[..i], y[..i])
    ensures Below(y, x) <==> Below(y[i + 1..], x[i + 1..])
  {
    var x2, y2 := x[i + 1..], y[i + 1..];
    forall k | 0 <= k <= i ensures Lower(x[k]) == Lower(y[k]) {
      if k < i { assert x[..i][k] == x[k] && y[..i][k] == y[k]; }
    }
    if |x| <= |y| {
      var yp := y[..|x|];
      assert EqIgnoreCase(yp, x) <==> EqIgnoreCase(y2[..|x2|], x2) by { EqIgnoreCaseTail(yp, x, i + 1); assert yp[i + 1..] == y2[..|x2|]; }
      if |x| == |y| { assert yp == y && y2[..|x2|] == y2; }
    }
  }

  lemma EqIgnoreCaseTail(a: string, b: string, n: nat)
    requires |a| == |b| >= n && forall k :: 0 <= k < n ==> Lower(a[k]) == Lower(b[k])
    ensures EqIgnoreCase(a, b) <==> EqIgnoreCase(a[n..], b[n..])
  {
    if EqIgnoreCase(a[n..], b[n..]) {
      forall k | 0 <= k < |a| ensures Lower(a[k]) == Lower(b[k]) {
        if k >= n { assert Lower(a[n..][k - n]) == Lower(b[n..][k - n]); }
      }
    }
  }

  lemma BelowSameSlash(y: string, x: string)
    requires x != "" && y != "" && x[0] == '/' == y[0]
    ensures Below(y, x) <==> Below(y[1..], x[1..])
  {
    BelowTail(y, x, 0);
  }

  lemma {:induction false} PathOfAudience(base: string, a: string)
    requires IsNormal(a) && TrimSlashes(base) == base
    ensures AudiencePath(BuildResourceUrl(base, a), base) == Some(if a == "/" then "" else a)
  {
    var audience := BuildResourceUrl(base, a);
    assert TrimSlashes(audience) == audience;
    assert audience[|base|..] == if a == "/" then "" else a;
  }

  lemma AudienceIsBelow(base: string, a: string, r: string)
    requires IsNormal(a) && IsNormal(r) && TrimSlashes(base) == base
    ensures AudienceAllows(BuildResourceUrl(base, a), base, r) <==> a == "/" || Below(r, a)
  {
    PathOfAudience(base, a);
  }

  /** On normal paths an audience allows a resource exactly when its segments, ignoring
      ASCII case, are a prefix of the segments of the resource. */
  lemma AudienceIsSegmentPrefix(base: string, a: string, r: string)
    requires IsNormal(a) && IsNormal(r) && TrimSlashes(base) == base
    ensures AudienceAllows(BuildResourceUrl(base, a), base, r) <==> SegmentPrefix(Segments(a), Segments(r))
  {
    AudienceIsBelow(base, a, r);
    if a != "/" {
      if r == "/" {
        assert |a| > 1 && !Below(r, a);
      } else {
        BelowSameSlash(r, a);
        BelowIsSegmentPrefix(r[1..], a[1..]);
      }
    }
  }

  lemma SegmentPrefixTransitive(a: seq<string>, b: seq<string>, c: seq<string>)
    requires SegmentPrefix(a, b) && SegmentPrefix(b, c)
    ensures SegmentPrefix(a, c)
  {
  }

  /** Audiences are transitive: what may use `b` through `a` may use all that `b` may use. */
  lemma AudienceTransitive(base: string, a: string, b: string, c: string)
    requires IsNormal(a) && IsNormal(b) && IsNormal(c) && TrimSlashes(base) == base
    requires AudienceAllows(BuildResourceUrl(base, a), base, b) && AudienceAllows(BuildResourceUrl(base, b), base, c)
    ensures AudienceAllows(BuildResourceUrl(base, a), base, c)
  {
    AudienceIsSegmentPrefix(base, a, b);
    AudienceIsSegmentPrefix(base, b, c);
    SegmentPrefixTransitive(Segments(a), Segments(b), Segments(c));
    AudienceIsSegmentPrefix(base, a, c);
  }

  /** A token never opens a location whose path parts from its own at some segment. */
  lemma SiblingStaysClosed(base: string, a: string, b: string, i: nat)
    requires IsNormal(a) && IsNormal(b) && TrimSlashes(base) == base
    requires i < |Segments(a)| && i < |Segments(b)| && !EqIgnoreCase(Segments(a)[i], Segments(b)[i])
    ensures !AudienceAllows(BuildResourceUrl(base, a), base, b)
  {
    AudienceIsSegmentPrefix(base, a, b);
  }

  // ----- the discovery chain

  /** A scheme and an authority, with no path. */
  predicate IsOrigin(url: string)
  {
    var i := FirstIndex(url, ':', 0);
    i + 2 < |url| && url[i + 1] == '/' && url[i + 2] == '/' && IsPlain(url[i + 3..]) && '/' !in url[i + 3..]
  }

  predicate IsPlain(s: string) { '?' !in s && '#' !in s }

  /** The request path a client sends for a URL, the authority ending at the first
      slash, question mark or hash. */
  function PathOf(url: string): (r: string)
  {
    var i := FirstIndex(url, ':', 0);
    if i + 2 < |url| && url[i + 1] == '/' && url[i + 2] == '/' then
      var slash := FirstIndex(url, '/', i + 3);
      var path := UntilQuery(url[slash..]);
      if path == "" then "/" else path
    else url
  }

  function UntilQuery(s: string): (r: string)
  {
    var q := FirstIndex(s, '?', 0);
    var h := FirstIndex(s, '#', 0);
    s[..Min(q, h)]
  }

  lemma PathOfOrigin(base: string, path: string)
    requires IsOrigin(base) && path != "" && path[0] == '/' && IsPlain(path)
    ensures PathOf(base + path) == path
  {
    var url := base + path;
    var i := FirstIndex(base, ':', 0);
    FirstIndexUnique(url, ':', 0, i);
    assert base[i + 3..] == base[i + 3..|base|];
    forall k | i + 3 <= k < |base| ensures url[k] != '/' { assert base[i + 3..][k - (i + 3)] == url[k]; }
    FirstIndexUnique(url, '/', i + 3, |base|);
    assert url[|base|..] == path;
    FirstIndexAbsent(path, '?', 0);
    FirstIndexAbsent(path, '#', 0);
    assert path[..|path|] == path;
  }

  lemma OtherPrefix(path: string, prefix: string, k: nat)
    requires k < |prefix| && k < |path| && Lower(path[k]) != Lower(prefix[k])
    ensures MatchesWithSuffix(path, prefix) == None && !EqIgnoreCase(path, prefix)
  {
    if |path| >= |prefix| { assert path[..|prefix|][k] == path[k]; }
  }

  lemma RouteOfMetadata(path: string)
    requires PROTECTED_RESOURCE_METADATA_PATH <= path
    ensures RouteOAuthPath(path)
         == match MatchesWithSuffix(path, PROTECTED_RESOURCE_METADATA_PATH)
            case Some(s) => Some(ProtectedResourceMetadata(NormalizeResourcePath(s)))
            case None => None
  {
    assert path[1] == PROTECTED_RESOURCE_METADATA_PATH[1] && path[14] == PROTECTED_RESOURCE_METADATA_PATH[14]
        && path[19] == PROTECTED_RESOURCE_METADATA_PATH[19];
    OtherPrefix(path, AUTHORIZE_PATH, 1);
    OtherPrefix(path, TOKEN_PATH, 1);
    OtherPrefix(path, AS_METADATA_PATH, 19);
    OtherPrefix(path, OPENID_CONFIGURATION_PATH, 14);
  }

  lemma PlainJoined(a: string, b: string)
    requires IsPlain(a) && IsPlain(b) && a != "" && a[0] == '/'
    ensures IsPlain(a + b) && (a + b)[0] == '/' && a <= a + b
  {
  }

  lemma MetadataPathIsPlain()
    ensures IsPlain(PROTECTED_RESOURCE_METADATA_PATH) && PROTECTED_RESOURCE_METADATA_PATH[0] == '/'
  {
  }

  lemma MetadataUrlParts(base: string, resource: string, suffix: string)
    requires IsNormal(resource) && suffix == if resource == "/" then "" else resource
    ensures BuildResourceMetadataUrl(base, resource) == base + (PROTECTED_RESOURCE_METADATA_PATH + suffix)
  {
    Associates(base, PROTECTED_RESOURCE_METADATA_PATH, suffix);
    if resource == "/" { assert PROTECTED_RESOURCE_METADATA_PATH + suffix == PROTECTED_RESOURCE_METADATA_PATH; }
  }

  lemma MetadataPathRoutesBack(base: string, resource: string, prefix: string, suffix: string)
    requires IsOrigin(base) && IsNormal(resource) && IsPlain(resource) && suffix == if resource == "/" then "" else resource
    requires prefix == PROTECTED_RESOURCE_METADATA_PATH && IsPlain(prefix) && prefix != "" && prefix[0] == '/'
    ensures RouteOAuthPath(PathOf(base + (prefix + suffix))) == Some(ProtectedResourceMetadata(resource))
  {
    SuffixOfNormal(resource, suffix);
    SuffixMatches(prefix, suffix);
    PlainJoined(prefix, suffix);
    MetadataRoute(prefix + suffix, suffix);
    PathOfOrigin(base, prefix + suffix);
  }

  /** The metadata URL of a resource routes back to the metadata of that resource. */
  lemma MetadataUrlRoutesBack(base: string, resource: string)
    requires IsOrigin(base) && IsNormal(resource) && IsPlain(resource)
    ensures RouteOAuthPath(PathOf(BuildResourceMetadataUrl(base, resource))) == Some(ProtectedResourceMetadata(resource))
  {
    var suffix := if resource == "/" then "" else resource;
    MetadataUrlParts(base, resource, suffix);
    MetadataPathIsPlain();
    MetadataPathRoutesBack(base, resource, PROTECTED_RESOURCE_METADATA_PATH, suffix);
  }

  lemma SuffixOfNormal(resource: string, suffix: string)
    requires IsNormal(resource) && suffix == if resource == "/" then "" else resource
    ensures NormalizeResourcePath(suffix) == resource && (suffix == "" || suffix[0] == '/')
  {
  }

  lemma MetadataRoute(path: string, suffix: string)
    requires PROTECTED_RESOURCE_METADATA_PATH <= path && MatchesWithSuffix(path, PROTECTED_RESOURCE_METADATA_PATH) == Some(suffix)
    ensures RouteOAuthPath(path) == Some(ProtectedResourceMetadata(NormalizeResourcePath(suffix)))
  {
    RouteOfMetadata(path);
  }

  lemma SuffixMatches(prefix: string, suffix: string)
    requires suffix == "" || suffix[0] == '/'
    ensures MatchesWithSuffix(prefix + suffix, prefix) == Some(suffix)
  {
    assert (prefix + suffix)[..|prefix|] == prefix && (prefix + suffix)[|prefix|..] == suffix;
  }

  lemma {:induction false} LocationOfPath(locations: seq<string>, path: string)
    requires FindLocation(locations, path).Some? && IsPlain(path)
    ensures var location := locations[FindLocation(locations, path).value];
            |location| <= |path| && EqIgnoreCase(path[..|location|], location) && IsPlain(NormalizeResourcePath(location))
  {
    var l := locations[0];
    if |l| <= |path| && EqIgnoreCase(path[..|l|], l) {
      forall k | 0 <= k < |l| ensures l[k] != '?' && l[k] != '#' {
        assert path[..|l|][k] == path[k] && path[k] in path && Lower(path[k]) == Lower(l[k]);
      }
      assert IsPlain(l) && IsPlain(TrimSlashes(l));
    } else {
      LocationOfPath(locations[1..], path);
    }
  }

  lemma LocationIsServed(locations: seq<string>, i: nat)
    requires i < |locations|
    ensures ResourcePathIsServed(NormalizeResourcePath(locations[i]), locations)
  {
  }

  lemma MetadataRouteIsSuffix(path: string)
    requires RouteOAuthPath(path).Some? && RouteOAuthPath(path).value.ProtectedResourceMetadata?
    ensures var n := |PROTECTED_RESOURCE_METADATA_PATH|;
            n <= |path| && RouteOAuthPath(path).value.resourcePath == NormalizeResourcePath(path[n..])
  {
  }

  lemma NormalizeKeeps(s: string)
    requires s != "" && s[|s| - 1] != '/'
    ensures |NormalizeResourcePath(s)| >= |s| && NormalizeResourcePath(s) != "/"
  {
  }

  lemma {:induction false} TooLongForResource(rest: string, resource: string)
    requires rest != "" && rest[|rest| - 1] != '/' && |rest| > (if resource == "/" then 0 else |resource|)
    ensures NormalizeResourcePath(rest) != resource
  {
    NormalizeKeeps(rest);
  }

  lemma {:induction false} LongerPathRoutesElsewhere(path: string, resource: string)
    requires path != "" && path[|path| - 1] != '/'
    requires |path| > |PROTECTED_RESOURCE_METADATA_PATH| + (if resource == "/" then 0 else |resource|)
    ensures RouteOAuthPath(path) != Some(ProtectedResourceMetadata(resource))
  {
    TooLongForResource(path[|PROTECTED_RESOURCE_METADATA_PATH|..], resource);
    var route := RouteOAuthPath(path);
    if route.Some? && route.value.ProtectedResourceMetadata? { MetadataRouteIsSuffix(path); }
  }

  lemma {:induction false} PathAfterPrefix(origin: string, prefix: string, tail: string, resource: string)
    requires IsOrigin(origin) && IsPlain(prefix) && prefix != "" && prefix[0] == '/'
    requires IsPlain(tail) && tail != "" && tail[|tail| - 1] != '/'
    requires |tail| == |PROTECTED_RESOURCE_METADATA_PATH| + (if resource == "/" then 0 else |resource|)
    ensures RouteOAuthPath(PathOf(origin + (prefix + tail))) != Some(ProtectedResourceMetadata(resource))
  {
    PathOfOrigin(origin, prefix + tail);
    LongerPathRoutesElsewhere(prefix + tail, resource);
  }

  /** A base URL with a path of its own breaks the chain: the metadata URL then routes
      anywhere but back to the resource. */
  lemma {:induction false} PathBaseDoesNotRouteBack(origin: string, prefix: string, resource: string)
    requires IsOrigin(origin) && IsPlain(prefix) && prefix != "" && prefix[0] == '/'
    requires IsNormal(resource) && IsPlain(resource)
    ensures RouteOAuthPath(PathOf(BuildResourceMetadataUrl(origin + prefix, resource))) != Some(ProtectedResourceMetadata(resource))
  {
    var suffix := if resource == "/" then "" else resource;
    MetadataTail(suffix);
    FourParts(origin, prefix, PROTECTED_RESOURCE_METADATA_PATH, suffix);
    PathAfterPrefix(origin, prefix, PROTECTED_RESOURCE_METADATA_PATH + suffix, resource);
  }

  lemma FourParts(a: string, b: string, c: string, d: string)
    ensures a + b + c + d == a + (b + (c + d))
    ensures a + b + c == a + b + c + ""
  {
  }

  lemma MetadataTail(suffix: string)
    requires IsPlain(suffix) && (suffix == "" || suffix[|suffix| - 1] != '/')
    ensures var tail := PROTECTED_RESOURCE_METADATA_PATH + suffix;
            IsPlain(tail) && tail != "" && tail[|tail| - 1] != '/'
  {
    assert suffix == "" ==> PROTECTED_RESOURCE_METADATA_PATH + suffix == PROTECTED_RESOURCE_METADATA_PATH;
  }
}
