/** The discovery chain: from the challenge of the gate to a token that opens it. */
module Discovery {
  import opened Prelude
  import opened Text
  import opened TokenSigner
  import opened OAuthServer
  import opened OAuthRun
  import Codes = AuthCodes
  import R = Routes

  lemma BaseHasNoTrailingSlash(context: Context, requestBase: string)
    ensures TrimSlashes(context.BaseUrl(requestBase)) == context.BaseUrl(requestBase)
  {
  }

  /** Without a token, the gate names the metadata document of the location, and fetching
      that URL is answered with a document whose `resource` is that location. */
  lemma ChallengeLeadsToMetadata(context: Context, codes: Codes.Store, now: int, requestBase: string,
                                 locations: seq<string>, path: string, newCode: string, victim: string)
    requires R.IsPlain(path) && R.FindLocation(locations, path).Some? && R.IsOrigin(context.BaseUrl(requestBase))
    ensures var base := context.BaseUrl(requestBase);
            var location := R.NormalizeResourcePath(locations[R.FindLocation(locations, path).value]);
            var challenge := GateH2(context, now, None, requestBase, locations, path);
            && challenge.Challenge? && !challenge.invalidToken
            && var route := R.RouteOAuthPath(R.PathOf(challenge.metadataUrl));
               && route == Some(R.ProtectedResourceMetadata(location))
               && HandleOAuthRequest(context, codes, now, Request(Get, route.value, requestBase, None, [], None, locations), newCode, victim)
                  == Outcome(codes, Reply(200, ResourceMetadata(R.BuildResourceUrl(base, location), base)))
  {
    R.LocationOfPath(locations, path);
    var i := R.FindLocation(locations, path).value;
    R.MetadataUrlRoutesBack(context.BaseUrl(requestBase), R.NormalizeResourcePath(locations[i]));
    R.LocationIsServed(locations, i);
  }

  lemma ParamsWithResource(parameters: map<string, string>, value: string)
    requires value != ""
    ensures ReadParams(parameters["resource" := value]) == ReadParams(parameters).(resource := Some(value))
  {
    assert "code_challenge_method" != "resource" && "scope" != "resource" && "state" != "resource";
  }

  lemma AcceptedWithResource(context: Context, p: AuthorizeParams, base: string, resource: string)
    requires ValidateParams(context, p, base).Accepted? && base <= TrimSlashes(resource)
    ensures ValidateParams(context, p.(resource := Some(resource)), base)
         == Accepted(ValidateParams(context, p, base).request.(resource := Some(resource)))
  {
  }

  /** `/oauth/authorize` accepts the advertised resource wherever it accepts the request
      without one. */
  lemma AuthorizeAcceptsAdvertised(context: Context, requestBase: string, location: string, parameters: map<string, string>)
    requires R.IsNormal(location) && R.IsOrigin(context.BaseUrl(requestBase))
    requires Validate(context, parameters, context.BaseUrl(requestBase)).Accepted?
    ensures var base := context.BaseUrl(requestBase);
            var resource := R.BuildResourceUrl(base, location);
            Validate(context, parameters["resource" := resource], base)
            == Accepted(Validate(context, parameters, base).request.(resource := Some(resource)))
  {
    var base := context.BaseUrl(requestBase);
    var resource := R.BuildResourceUrl(base, location);
    BaseHasNoTrailingSlash(context, requestBase);
    AdvertisedStartsWithBase(base, location);
    ParamsWithResource(parameters, resource);
    AcceptedWithResource(context, ReadParams(parameters), base, resource);
  }

  lemma AdvertisedStartsWithBase(base: string, location: string)
    requires R.IsNormal(location) && base != "" && TrimSlashes(base) == base
    ensures R.BuildResourceUrl(base, location) != "" && base <= TrimSlashes(R.BuildResourceUrl(base, location))
  {
    var url := R.BuildResourceUrl(base, location);
    assert location != "/" ==> url[|url| - 1] == location[|location| - 1];
  }

  /** A token with the advertised resource as audience opens the gate, until it expires,
      for exactly the requests whose resource lies at or below that location. */
  lemma AdvertisedTokenOpensGate(context: Context, requestBase: string, location: string, scope: string, minted: int,
                                 now: int, authorization: Option<string>, locations: seq<string>, path: string)
    requires context.crypto.Sound() && R.IsNormal(location)
    requires BearerToken(authorization)
          == Some(context.MintTokens(minted, scope, Some(R.BuildResourceUrl(context.BaseUrl(requestBase), location))).access)
    ensures GateH2(context, now, authorization, requestBase, locations, path).Allowed?
        <==> now < minted + context.settings.accessTtl
             && R.SegmentPrefix(R.Segments(location), R.Segments(R.ResourceOfRequest(locations, path)))
  {
    var base := context.BaseUrl(requestBase);
    var audience := R.BuildResourceUrl(base, location);
    VerifyMinted(context.crypto, minted, Access, scope, Some(audience), context.settings.accessTtl, now, Access);
    BaseHasNoTrailingSlash(context, requestBase);
    R.AudienceIsSegmentPrefix(base, location, R.ResourceOfRequest(locations, path));
  }

  /** In particular it opens every request routed to the location it was advertised for. */
  lemma AdvertisedTokenOpensItsLocation(context: Context, requestBase: string, scope: string, minted: int, now: int,
                                        authorization: Option<string>, locations: seq<string>, path: string)
    requires context.crypto.Sound() && R.FindLocation(locations, path).Some? && now < minted + context.settings.accessTtl
    requires var location := R.NormalizeResourcePath(locations[R.FindLocation(locations, path).value]);
             var audience := R.BuildResourceUrl(context.BaseUrl(requestBase), location);
             BearerToken(authorization) == Some(context.MintTokens(minted, scope, Some(audience)).access)
    ensures GateH2(context, now, authorization, requestBase, locations, path).Allowed?
  {
    var location := R.NormalizeResourcePath(locations[R.FindLocation(locations, path).value]);
    AdvertisedTokenOpensGate(context, requestBase, location, scope, minted, now, authorization, locations, path);
  }

  // ----- the whole chain in one run

  /** What a client reads that follows a challenge to the metadata. */
  function Advertised(context: Context, st: State, gate: GateResult, baseUrl: string, locations: seq<string>): (r: Option<string>)
  {
    if gate.Allowed? || R.RouteOAuthPath(R.PathOf(gate.metadataUrl)).None? then None
    else
      var route := R.RouteOAuthPath(R.PathOf(gate.metadataUrl)).value;
      var body := Handle(context, st, Request(Get, route, baseUrl, None, [], None, locations), "", "").response.body;
      if body.ResourceMetadata? then Some(body.resource) else None
  }

  /** The access token of a response. */
  function AccessIn(response: Response): (r: Option<string>)
  {
    if response.body.TokenBody? then Some(response.body.tokens.access) else None
  }

  lemma {:induction false} ChallengeAdvertises(context: Context, st: State, baseUrl: string, locations: seq<string>, path: string)
    requires R.IsPlain(path) && R.FindLocation(locations, path).Some? && R.IsOrigin(context.BaseUrl(baseUrl))
    ensures var location := R.NormalizeResourcePath(locations[R.FindLocation(locations, path).value]);
            Advertised(context, st, GateH2(context, st.now, None, baseUrl, locations, path), baseUrl, locations)
            == Some(R.BuildResourceUrl(context.BaseUrl(baseUrl), location))
  {
    ChallengeLeadsToMetadata(context, st.codes, st.now, baseUrl, locations, path, "", "");
  }

  lemma {:induction false} ExchangeMints(s: Server, run: seq<Event>, i: nat, j: nat, code: string, v: ValidatedRequest)
    requires ValidRun(s, run) && Consent(s, run, i, code, v) && i < j < |run| && Exchange(s, run, j, code, v)
    ensures Handle(s.context, At(s, run, j), run[j].request, run[j].newCode, run[j].victim).response.body
         == TokenBody(s.context.MintTokens(At(s, run, j).now, v.grantedScope, v.resource))
  {
    StoredIsConsented(s, run, i, j, code, v);
    TokensExactly(s.context, At(s, run, j), run[j].request, run[j].newCode, run[j].victim);
  }

  /** In every run, a client that asks for a resource without a token, follows the challenge,
      gets consent for the resource it finds, and exchanges the code with its verifier and
      redirect URI is let through with the token, until it expires. */
  lemma {:induction false} ChallengeToOpenGate(s: Server, run: seq<Event>, m: nat, i: nat, j: nat, n: nat, code: string, v: ValidatedRequest)
    requires ValidRun(s, run) && m < i < j < n < |run| && run[m].Gate? && run[n].Gate? && run[m] == run[n].(authorization := None)
    requires R.IsPlain(run[n].path) && R.FindLocation(run[n].locations, run[n].path).Some? && R.IsOrigin(s.context.BaseUrl(run[n].baseUrl))
    requires var st := At(s, run, m);
             v.resource == Advertised(s.context, st, GateH2(s.context, st.now, None, run[n].baseUrl, run[n].locations, run[n].path),
                                      run[n].baseUrl, run[n].locations)
    requires Consent(s, run, i, code, v) && Exchange(s, run, j, code, v)
    requires BearerToken(run[n].authorization)
          == AccessIn(Handle(s.context, At(s, run, j), run[j].request, run[j].newCode, run[j].victim).response)
    requires At(s, run, n).now < At(s, run, j).now + s.context.settings.accessTtl
    ensures GateH2(s.context, At(s, run, n).now, run[n].authorization, run[n].baseUrl, run[n].locations, run[n].path).Allowed?
  {
    ChallengeAdvertises(s.context, At(s, run, m), run[n].baseUrl, run[n].locations, run[n].path);
    ExchangeMints(s, run, i, j, code, v);
    AdvertisedTokenOpensItsLocation(s.context, run[n].baseUrl, v.grantedScope, At(s, run, j).now, At(s, run, n).now,
                                    run[n].authorization, run[n].locations, run[n].path);
  }
}
