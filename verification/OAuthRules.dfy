/** What the authorization endpoint may answer, and what a consent therefore vouches for. */
module OAuthRules {
  import opened Prelude
  import opened Text
  import opened TokenSigner
  import opened OAuthServer
  import opened OAuthRun
  import Codes = AuthCodes
  import R = Routes

  /** The client is the configured one and its redirect URI is one this server trusts. */
  predicate Trusted(context: Context, p: AuthorizeParams)
  {
    context.ChecksClientId(p.clientId) && IsAllowedRedirectUri(p.redirectUri)
  }

  lemma {:induction false} CodeRedirectStartsWith(uri: string, state: Option<string>, code: string)
    ensures AppendQuery(uri) <= CodeRedirectUrl(uri, code, state)
  {
  }

  /** A rejected request is sent back to the redirect URI exactly when the client and the
      URI can be trusted (section 4.1.2.1 of RFC 6749). */
  lemma {:induction false} ErrorGoesBackIffTrusted(context: Context, p: AuthorizeParams, base: string)
    requires ValidateParams(context, p, base).Rejected?
    ensures var location := ValidateParams(context, p, base).response.location;
            (location.Some? <==> Trusted(context, p)) && (location.Some? ==> AppendQuery(p.redirectUri) <= location.value)
  {
  }

  lemma {:induction false} AcceptedIsTrusted(context: Context, p: AuthorizeParams, base: string)
    requires ValidateParams(context, p, base).Accepted?
    ensures Trusted(context, p)
    ensures var v := ValidateParams(context, p, base).request;
            && v.clientId == p.clientId && v.redirectUri == p.redirectUri && v.state == p.state && v.resource == p.resource
            && v.codeChallenge == p.codeChallenge != ""
            && (v.resource.Some? ==> base <= TrimSlashes(v.resource.value))
  {
  }

  lemma {:induction false} AuthorizeRedirects(context: Context, st: State, request: Request, newCode: string, victim: string)
    requires HandleAuthorize(context, st.codes, st.now, request, newCode, victim).response.location.Some?
    ensures var p := ReadParams(request.Parameters());
            Trusted(context, p) && AppendQuery(p.redirectUri) <= HandleAuthorize(context, st.codes, st.now, request, newCode, victim).response.location.value
  {
    var p, base := ReadParams(request.Parameters()), context.BaseUrl(request.baseUrl);
    if ValidateParams(context, p, base).Rejected? {
      ErrorGoesBackIffTrusted(context, p, base);
    } else {
      AcceptedIsTrusted(context, p, base);
      CodeRedirectStartsWith(p.redirectUri, p.state, newCode);
    }
  }

  lemma {:induction false} ExchangeNeverRedirects(context: Context, codes: Codes.Store, now: int, parameters: map<string, string>)
    ensures ExchangeCode(context, codes, now, parameters).response.location.None?
    ensures !ExchangeCode(context, codes, now, parameters).response.registerFailure
    ensures RefreshTokens(context, now, parameters).location.None? && !RefreshTokens(context, now, parameters).registerFailure
  {
  }

  lemma {:induction false} GrantTypeIsPlain(context: Context, codes: Codes.Store, now: int, parameters: map<string, string>)
    ensures HandleGrantType(context, codes, now, parameters).response.location.None?
    ensures !HandleGrantType(context, codes, now, parameters).response.registerFailure
  {
    ExchangeNeverRedirects(context, codes, now, parameters);
  }

  lemma {:induction false} GrantReports(context: Context, codes: Codes.Store, now: int, authorization: Option<string>, parameters: map<string, string>)
    ensures HandleGrant(context, codes, now, authorization, parameters).response.location.None?
    ensures HandleGrant(context, codes, now, authorization, parameters).response.registerFailure
       <==> parameters != map[]
            && var client := Presented(context, authorization, parameters);
               client.Some? && !MatchesClient(context, client.value)
  {
    GrantTypeIsPlain(context, codes, now, parameters);
  }

  lemma {:induction false} MetadataIsPlain(context: Context, st: State, request: Request, newCode: string, victim: string)
    requires !request.route.Authorize? && !request.route.Token?
    ensures Handle(context, st, request, newCode, victim).response.location.None?
    ensures !Handle(context, st, request, newCode, victim).response.registerFailure
  {
  }

  lemma {:induction false} TokenNeverRedirects(context: Context, st: State, request: Request)
    ensures HandleToken(context, st.codes, st.now, request).response.location.None?
  {
    GrantReports(context, st.codes, st.now, request.authorization, request.Parameters());
  }

  /** Whatever is asked of the server, it redirects only an authorization request of the
      configured client, and only to the redirect URI of that request, which it trusts, with
      something added to the query of that URI. */
  lemma {:induction false} RedirectsOnlyToTrusted(context: Context, st: State, request: Request, newCode: string, victim: string)
    requires Handle(context, st, request, newCode, victim).response.location.Some?
    ensures request.route.Authorize?
    ensures var p := ReadParams(request.Parameters());
            Trusted(context, p) && AppendQuery(p.redirectUri) <= Handle(context, st, request, newCode, victim).response.location.value
  {
    if request.route.Authorize? {
      AuthorizeRedirects(context, st, request, newCode, victim);
    } else if request.route.Token? {
      TokenNeverRedirects(context, st, request);
    } else {
      MetadataIsPlain(context, st, request, newCode, victim);
    }
  }

  /** A wrong client id or consent password at the form. */
  predicate WrongAtForm(context: Context, request: Request)
  {
    && !request.verb.Other?
    && var p := ReadParams(request.Parameters());
       || !context.ChecksClientId(p.clientId)
       || (ValidateParams(context, p, context.BaseUrl(request.baseUrl)).Accepted? && request.verb.Post?
           && !context.ChecksConsentPassword(GetParam(request.Parameters(), "consent_password")))
  }

  /** Client credentials that are presented and wrong. */
  predicate WrongAtToken(context: Context, request: Request)
  {
    && request.verb.Post? && request.Parameters() != map[]
    && var client := Presented(context, request.authorization, request.Parameters());
       client.Some? && !MatchesClient(context, client.value)
  }

  lemma {:induction false} RejectedReports(context: Context, p: AuthorizeParams, base: string)
    ensures var r := ValidateParams(context, p, base); r.Rejected? ==> (r.response.registerFailure <==> !context.ChecksClientId(p.clientId))
  {
  }

  lemma {:induction false} FormReports(context: Context, st: State, request: Request, newCode: string, victim: string)
    ensures HandleAuthorize(context, st.codes, st.now, request, newCode, victim).response.registerFailure <==> WrongAtForm(context, request)
  {
    var p, base := ReadParams(request.Parameters()), context.BaseUrl(request.baseUrl);
    RejectedReports(context, p, base);
    if ValidateParams(context, p, base).Accepted? { AcceptedIsTrusted(context, p, base); }
  }

  lemma {:induction false} TokenReports(context: Context, st: State, request: Request)
    ensures HandleToken(context, st.codes, st.now, request).response.registerFailure <==> WrongAtToken(context, request)
  {
    GrantReports(context, st.codes, st.now, request.authorization, request.Parameters());
  }

  /** The block-list is told of a failure exactly when credentials were presented and
      wrong: never for a malformed request, an expired code or a failed PKCE check. */
  lemma {:induction false} FailureReportedIff(context: Context, st: State, request: Request, newCode: string, victim: string)
    ensures Handle(context, st, request, newCode, victim).response.registerFailure
       <==> (request.route.Authorize? && WrongAtForm(context, request)) || (request.route.Token? && WrongAtToken(context, request))
  {
    if request.route.Authorize? {
      FormReports(context, st, request, newCode, victim);
    } else if request.route.Token? {
      TokenReports(context, st, request);
    } else {
      MetadataIsPlain(context, st, request, newCode, victim);
    }
  }

  /** The consent a chain starts with. */
  ghost function ConsentOf(chain: Chain): (r: nat)
  {
    match chain case Exchanged(i, _) => i case Refreshed(before, _) => ConsentOf(before)
  }

  lemma {:induction false} ChainHasConsent(s: Server, run: seq<Event>, chain: Chain, v: ValidatedRequest, p: TokenPayload)
    requires Derived(s, run, chain, v, p)
    ensures var i := ConsentOf(chain);
            i < |run| && run[i].Ask? && Approved(s.context, run[i].request) == Some(v)
    decreases chain
  {
    match chain
    case Exchanged(i, j) =>
      var code :| Consent(s, run, i, code, v) && Exchange(s, run, j, code, v);
    case Refreshed(before, j) =>
      var q :| Refreshes(s, run, j, q) && Derived(s, run, before, v, q);
      ChainHasConsent(s, run, before, v, q);
  }

  /** A resource that only starts with the text of the base URL, such as one on another host
      whose name begins like this one, is accepted wherever the request is accepted without
      it, and a token for it opens nothing here. */
  lemma {:induction false} LookalikeResourceAccepted(context: Context, p: AuthorizeParams, base: string, more: string)
    requires ValidateParams(context, p, base).Accepted? && TrimSlashes(base) == base
    requires more != "" && more[0] != '/' && more[|more| - 1] != '/'
    ensures ValidateParams(context, p.(resource := Some(base + more)), base).Accepted?
    ensures forall r :: !R.AudienceAllows(base + more, base, r)
  {
    var resource := base + more;
    assert resource[|resource| - 1] == more[|more| - 1];
    assert TrimSlashes(resource) == resource && base <= resource && resource[|base|..] == more;
    StillAccepted(context, p, base, resource);
  }

  lemma {:induction false} StillAccepted(context: Context, p: AuthorizeParams, base: string, resource: string)
    requires ValidateParams(context, p, base).Accepted? && base <= TrimSlashes(resource)
    ensures ValidateParams(context, p.(resource := Some(resource)), base).Accepted?
  {
  }

  /** Behind every request the gate lets through is a consent of the configured client,
      with the password, a trusted redirect URI and a challenge, for a scope that was asked
      for and a resource at or below the base URL of this server. */
  lemma {:induction false} AcceptedTokenWasConsented(s: Server, run: seq<Event>, n: nat) returns (i: nat, v: ValidatedRequest)
    requires ValidRun(s, run) && n < |run| && run[n].Gate?
    requires GateH2(s.context, At(s, run, n).now, run[n].authorization, run[n].baseUrl, run[n].locations, run[n].path).Allowed?
    ensures i < n && run[i].Ask? && run[i].request.verb.Post? && run[i].request.route.Authorize?
    ensures s.context.ChecksConsentPassword(Param(run[i].request, "consent_password"))
    ensures s.context.ChecksClientId(v.clientId) && IsAllowedRedirectUri(v.redirectUri) && v.codeChallenge != ""
    ensures v.resource.Some? ==> R.OnServer(v.resource.value, s.context.BaseUrl(run[n].baseUrl))
    ensures v.resource.Some? ==> s.context.BaseUrl(run[i].request.baseUrl) <= TrimSlashes(v.resource.value)
    ensures v.grantedScope == GrantedScope(ReadParams(run[i].request.Parameters()).scope)
  {
    var chain, p;
    chain, v, p := AcceptedTokenProvenance(s, run, n);
    ChainHasConsent(s, run[..n], chain, v, p);
    i := ConsentOf(chain);
    AcceptedIsTrusted(s.context, ReadParams(run[i].request.Parameters()), s.context.BaseUrl(run[i].request.baseUrl));
    if v.resource.Some? {
      R.AllowedIsOnServer(v.resource.value, s.context.BaseUrl(run[n].baseUrl), R.ResourceOfRequest(run[n].locations, run[n].path));
    }
  }
}
