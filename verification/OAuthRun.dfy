/** Whole runs of the authorization server: any interleaving of requests, gate checks,
    clock ticks and restarts, and where the tokens the gate accepts come from. */
module OAuthRun {
  import opened Prelude
  import opened Text
  import opened TokenSigner
  import opened OAuthServer
  import Codes = AuthCodes
  import R = Routes

  /** `newCode` and `victim` are what the random source and the hash map would choose. */
  datatype Event =
    | Ask(request: Request, newCode: string, victim: string)
    | Gate(authorization: Option<string>, baseUrl: string, locations: seq<string>, path: string)
    | Tick(seconds: nat)
    | Restart

  /** The clock and the store, with two history variables: every token body signed so
      far and every code handed out so far. A restart loses the store, not the key. */
  datatype State = State(now: int, codes: Codes.Store, signed: set<string>, used: set<string>)

  /** One configured server from the moment its signing key exists. */
  datatype Server = Server(context: Context, start: int)

  /** What an authorize request agrees to: a POST that validates and knows the password. */
  function Approved(context: Context, request: Request): (r: Option<ValidatedRequest>)
  {
    if request.route.Authorize? && request.verb.Post? then
      var parameters := request.Parameters();
      match Validate(context, parameters, context.BaseUrl(request.baseUrl))
      case Accepted(v) => if context.ChecksConsentPassword(GetParam(parameters, "consent_password")) then Some(v) else None
      case Rejected(_) => None
    else None
  }

  /** A token request from a client that proved itself. */
  predicate Authenticated(context: Context, request: Request)
  {
    && request.route.Token? && request.verb.Post?
    && var parameters := request.Parameters();
       && parameters != map[]
       && Presented(context, request.authorization, parameters).Some?
       && MatchesClient(context, Presented(context, request.authorization, parameters).value)
  }

  predicate AsksFor(context: Context, request: Request, grantType: string)
  {
    Authenticated(context, request) && "grant_type" in request.Parameters() && request.Parameters()["grant_type"] == grantType
  }

  function Param(request: Request, name: string): (r: string) { GetParam(request.Parameters(), name) }

  function TokensIn(response: Response): (r: set<string>)
  {
    if !response.body.TokenBody? then {}
    else {response.body.tokens.access}
         + (if response.body.tokens.refresh.Some? then {response.body.tokens.refresh.value} else {})
  }

  function BodiesIn(crypto: Crypto, response: Response): (r: set<string>)
  {
    set t | t in TokensIn(response) && crypto.SignedBody(t).Some? :: crypto.SignedBody(t).value
  }

  function Handle(context: Context, st: State, request: Request, newCode: string, victim: string): (r: Outcome)
  {
    HandleOAuthRequest(context, st.codes, st.now, request, newCode, victim)
  }

  function Step(context: Context, st: State, ev: Event): (r: State)
  {
    match ev
    case Ask(request, newCode, victim) =>
      var outcome := Handle(context, st, request, newCode, victim);
      State(st.now, outcome.codes, st.signed + BodiesIn(context.crypto, outcome.response),
            if Approved(context, request).Some? then st.used + {newCode} else st.used)
    case Gate(_, _, _, _) => st
    case Tick(seconds) => st.(now := st.now + seconds)
    case Restart => st.(codes := map[])
  }

  /** HMAC cannot be forged: a tag that matches belongs to a body this server signed. */
  ghost predicate NotForged(context: Context, st: State, token: string)
  {
    context.crypto.SignedBody(token).Some? ==> context.crypto.SignedBody(token).value in st.signed
  }

  /** What the environment is assumed to do: fresh codes, a victim among the oldest, and
      no forged token. */
  ghost predicate Possible(context: Context, st: State, ev: Event)
  {
    match ev
    case Ask(request, newCode, victim) =>
      && (Approved(context, request).Some? ==> newCode !in st.used && Codes.ValidVictim(st.codes, st.now, victim))
      && NotForged(context, st, Param(request, "refresh_token"))
    case Gate(authorization, _, _, _) =>
      BearerToken(authorization).Some? ==> NotForged(context, st, BearerToken(authorization).value)
    case Tick(_) => true
    case Restart => true
  }

  function Run(s: Server, run: seq<Event>): (r: State)
  {
    if run == [] then State(s.start, map[], {}, {})
    else Step(s.context, Run(s, run[..|run| - 1]), run[|run| - 1])
  }

  /** The state in which event `i` happens. */
  function At(s: Server, run: seq<Event>, i: nat): (r: State)
    requires i <= |run|
  {
    Run(s, run[..i])
  }

  ghost predicate ValidRun(s: Server, run: seq<Event>)
  {
    s.context.crypto.Sound() && forall i :: 0 <= i < |run| ==> Possible(s.context, At(s, run, i), run[i])
  }

  // ----- provenance

  /** Event `i` is a consent with the right password that agreed to `v` and issued `code`. */
  ghost predicate Consent(s: Server, run: seq<Event>, i: nat, code: string, v: ValidatedRequest)
  {
    i < |run| && run[i].Ask? && run[i].newCode == code && Approved(s.context, run[i].request) == Some(v)
  }

  /** Event `i` presents `code`, still live in the store, to the token endpoint. */
  ghost predicate Redeems(s: Server, run: seq<Event>, i: nat, code: string)
  {
    && i < |run| && run[i].Ask? && AsksFor(s.context, run[i].request, "authorization_code")
    && Param(run[i].request, "code") == code != ""
    && code in Codes.Live(At(s, run, i).codes, At(s, run, i).now)
  }

  /** ... with the redirect URI and the PKCE verifier of the request that was consented to. */
  ghost predicate Exchange(s: Server, run: seq<Event>, i: nat, code: string, v: ValidatedRequest)
  {
    && Redeems(s, run, i, code)
    && Param(run[i].request, "redirect_uri") == v.redirectUri
    && s.context.crypto.VerifyS256(Param(run[i].request, "code_verifier"), v.codeChallenge)
  }

  /** Event `i` presents the unexpired refresh token of payload `q`. */
  ghost predicate Refreshes(s: Server, run: seq<Event>, i: nat, q: TokenPayload)
  {
    && i < |run| && run[i].Ask? && AsksFor(s.context, run[i].request, "refresh_token")
    && s.context.crypto.SignedBody(Param(run[i].request, "refresh_token")) == Some(s.context.crypto.Body(q))
    && q.k == Refresh.AsStr() && At(s, run, i).now < q.exp
  }

  ghost predicate MintedAt(s: Server, run: seq<Event>, i: nat, p: TokenPayload)
  {
    && i < |run| && run[i].Ask?
    && s.context.crypto.Token(p) in TokensIn(Handle(s.context, At(s, run, i), run[i].request, run[i].newCode, run[i].victim).response)
  }

  /** A consent, the exchange of its code, and then any number of refreshes, each given
      by its position in the run. */
  datatype Chain = Exchanged(consent: nat, exchange: nat) | Refreshed(before: Chain, refresh: nat) {
    function Last(): (r: nat) { if Exchanged? then exchange else refresh }
  }

  /** The chain starts with the consent to `v`, its events follow one another, its last
      event minted `p`, and every token on the way has exactly the scope and the
      audience of `v`. */
  ghost predicate Derived(s: Server, run: seq<Event>, chain: Chain, v: ValidatedRequest, p: TokenPayload)
  {
    && MintedAt(s, run, chain.Last(), p)
    && p.sc == v.grantedScope && p.aud == v.resource
    && match chain
       case Exchanged(i, j) => i < j && exists code :: Consent(s, run, i, code, v) && Exchange(s, run, j, code, v)
       case Refreshed(before, j) => before.Last() < j && exists q :: Refreshes(s, run, j, q) && Derived(s, run, before, v, q)
  }

  // ----- runs grow

  lemma AtPrefix(s: Server, run: seq<Event>, e: Event, i: nat)
    requires i <= |run|
    ensures At(s, run + [e], i) == At(s, run, i)
  {
    assert (run + [e])[..i] == run[..i];
  }

  lemma AtNext(s: Server, run: seq<Event>, i: nat)
    requires i < |run|
    ensures At(s, run, i + 1) == Step(s.context, At(s, run, i), run[i])
  {
    assert run[..i + 1][..i] == run[..i];
  }

  lemma AtEnd(s: Server, run: seq<Event>)
    ensures At(s, run, |run|) == Run(s, run)
  {
    assert run[..|run|] == run;
  }

  lemma ValidPrefix(s: Server, run: seq<Event>, n: nat)
    requires ValidRun(s, run) && n <= |run|
    ensures ValidRun(s, run[..n])
  {
    forall i | 0 <= i < n ensures Possible(s.context, At(s, run[..n], i), run[..n][i]) {
      assert run[..n][..i] == run[..i];
    }
  }

  lemma {:induction false} DerivedGrows(s: Server, run: seq<Event>, e: Event, chain: Chain, v: ValidatedRequest, p: TokenPayload)
    requires Derived(s, run, chain, v, p)
    ensures Derived(s, run + [e], chain, v, p)
    decreases chain
  {
    var last := chain.Last();
    AtPrefix(s, run, e, last);
    assert MintedAt(s, run + [e], last, p);
    match chain
    case Exchanged(i, j) =>
      var code :| Consent(s, run, i, code, v) && Exchange(s, run, j, code, v);
      assert Consent(s, run + [e], i, code, v) && Exchange(s, run + [e], j, code, v);
    case Refreshed(before, j) =>
      var q :| Refreshes(s, run, j, q) && Derived(s, run, before, v, q);
      DerivedGrows(s, run, e, before, v, q);
      assert Refreshes(s, run + [e], j, q);
  }

  // ----- what one request can do

  lemma HandleTokenCases(context: Context, st: State, request: Request)
    requires request.route.Token?
    ensures var outcome := HandleToken(context, st.codes, st.now, request);
            && (AsksFor(context, request, "authorization_code") ==>
                  outcome == ExchangeCode(context, st.codes, st.now, request.Parameters()))
            && (AsksFor(context, request, "refresh_token") ==>
                  outcome == Outcome(st.codes, RefreshTokens(context, st.now, request.Parameters())))
            && (!AsksFor(context, request, "authorization_code") && !AsksFor(context, request, "refresh_token") ==>
                  outcome.codes == st.codes && !outcome.response.body.TokenBody?)
  {
    assert "refresh_token" != "authorization_code";
  }

  lemma {:induction false} OnlyPostIsApproved(context: Context, st: State, request: Request, newCode: string, victim: string)
    requires request.route.Authorize? && !request.verb.Post?
    ensures var outcome := HandleAuthorize(context, st.codes, st.now, request, newCode, victim);
            Approved(context, request).None? && !outcome.response.body.TokenBody? && outcome.codes == st.codes
  {
  }

  lemma {:induction false} PostCases(context: Context, st: State, request: Request, newCode: string, victim: string, checked: Validated)
    requires request.route.Authorize? && request.verb.Post?
    requires checked == Validate(context, request.Parameters(), context.BaseUrl(request.baseUrl))
    ensures var outcome := HandleAuthorize(context, st.codes, st.now, request, newCode, victim);
            && !outcome.response.body.TokenBody?
            && (checked.Rejected? || !context.ChecksConsentPassword(Param(request, "consent_password")) ==>
                  Approved(context, request).None? && outcome.codes == st.codes)
            && (checked.Accepted? && context.ChecksConsentPassword(Param(request, "consent_password")) ==>
                  Approved(context, request) == Some(checked.request)
                  && outcome.codes == Codes.Add(st.codes, st.now, victim, newCode, IssuedCode(checked.request, st.now)))
  {
  }

  lemma {:induction false} HandleAuthorizeCases(context: Context, st: State, request: Request, newCode: string, victim: string)
    requires request.route.Authorize?
    ensures var outcome := HandleAuthorize(context, st.codes, st.now, request, newCode, victim);
            && !outcome.response.body.TokenBody?
            && outcome.codes == match Approved(context, request)
                                case Some(v) => Codes.Add(st.codes, st.now, victim, newCode, IssuedCode(v, st.now))
                                case None => st.codes
  {
    if request.verb.Post? {
      PostCases(context, st, request, newCode, victim, Validate(context, request.Parameters(), context.BaseUrl(request.baseUrl)));
    } else {
      OnlyPostIsApproved(context, st, request, newCode, victim);
    }
  }

  /** The three ways of the token endpoint, by grant type. */
  lemma TokenRequestCases(context: Context, st: State, request: Request, newCode: string, victim: string)
    ensures var outcome := Handle(context, st, request, newCode, victim);
            && (AsksFor(context, request, "authorization_code") ==>
                  outcome == ExchangeCode(context, st.codes, st.now, request.Parameters()))
            && (AsksFor(context, request, "refresh_token") ==>
                  outcome == Outcome(st.codes, RefreshTokens(context, st.now, request.Parameters())))
            && (!AsksFor(context, request, "authorization_code") && !AsksFor(context, request, "refresh_token") ==>
                  !outcome.response.body.TokenBody?)
            && (!AsksFor(context, request, "authorization_code") && Approved(context, request).None? ==>
                  outcome.codes == st.codes)
  {
    if request.route.Token? {
      HandleTokenCases(context, st, request);
    } else if request.route.Authorize? {
      HandleAuthorizeCases(context, st, request, newCode, victim);
    }
  }

  lemma ApprovalAddsCode(context: Context, st: State, request: Request, newCode: string, victim: string)
    requires Approved(context, request).Some?
    ensures Handle(context, st, request, newCode, victim).codes
         == Codes.Add(st.codes, st.now, victim, newCode, IssuedCode(Approved(context, request).value, st.now))
    ensures !Handle(context, st, request, newCode, victim).response.body.TokenBody?
    ensures !AsksFor(context, request, "authorization_code")
  {
    HandleAuthorizeCases(context, st, request, newCode, victim);
  }

  /** The request redeems a live code with its redirect URI and a matching verifier. */
  predicate ExchangeGranted(context: Context, st: State, request: Request)
  {
    && AsksFor(context, request, "authorization_code")
    && var code := Param(request, "code");
       var live := Codes.Live(st.codes, st.now);
       && code != "" && code in live
       && Param(request, "redirect_uri") == live[code].redirectUri
       && context.crypto.VerifyS256(Param(request, "code_verifier"), live[code].codeChallenge)
  }

  predicate RefreshGranted(context: Context, st: State, request: Request)
  {
    && AsksFor(context, request, "refresh_token") && Param(request, "refresh_token") != ""
    && context.crypto.Verify(st.now, Param(request, "refresh_token"), Refresh).Some?
  }

  /** The token endpoint answers with tokens in exactly two cases, and they carry what
      the redeemed code or the presented refresh token carries. */
  lemma TokensExactly(context: Context, st: State, request: Request, newCode: string, victim: string)
    ensures var body := Handle(context, st, request, newCode, victim).response.body;
            && (body.TokenBody? <==> ExchangeGranted(context, st, request) || RefreshGranted(context, st, request))
            && (ExchangeGranted(context, st, request) ==>
                  var issued := Codes.Live(st.codes, st.now)[Param(request, "code")];
                  body == TokenBody(context.MintTokens(st.now, issued.scope, issued.resource)))
            && (RefreshGranted(context, st, request) ==>
                  var verified := context.crypto.Verify(st.now, Param(request, "refresh_token"), Refresh).value;
                  body == TokenBody(context.MintTokens(st.now, verified.scope, verified.audience)))
  {
    TokenRequestCases(context, st, request, newCode, victim);
    assert "refresh_token" != "authorization_code";
    ExchangeCases(context, st, request.Parameters());
  }

  lemma ExchangeCases(context: Context, st: State, parameters: map<string, string>)
    ensures var body := ExchangeCode(context, st.codes, st.now, parameters).response.body;
            var live := Codes.Live(st.codes, st.now);
            var code := GetParam(parameters, "code");
            && (body.TokenBody? <==>
                  (code != "" && code in live
                   && GetParam(parameters, "redirect_uri") == live[code].redirectUri
                   && context.crypto.VerifyS256(GetParam(parameters, "code_verifier"), live[code].codeChallenge)))
            && (body.TokenBody? ==> body == TokenBody(context.MintTokens(st.now, live[code].scope, live[code].resource)))
  {
  }

  /** A code found in the store after a step was there before or is the one just issued. */
  lemma StepCodes(context: Context, st: State, ev: Event, c: string)
    requires c in Step(context, st, ev).codes
    ensures || (c in st.codes && Step(context, st, ev).codes[c] == st.codes[c])
            || (ev.Ask? && ev.newCode == c && Approved(context, ev.request).Some?
                && Step(context, st, ev).codes[c] == IssuedCode(Approved(context, ev.request).value, st.now))
  {
    if ev.Ask? {
      if Approved(context, ev.request).Some? {
        ApprovalAddsCode(context, st, ev.request, ev.newCode, ev.victim);
      } else {
        TokenRequestCases(context, st, ev.request, ev.newCode, ev.victim);
      }
    }
  }

  lemma {:induction false} Unroll(s: Server, run: seq<Event>) returns (before: seq<Event>, e: Event)
    requires ValidRun(s, run) && run != []
    ensures run == before + [e] && Run(s, run) == Step(s.context, Run(s, before), e)
    ensures ValidRun(s, before) && Possible(s.context, Run(s, before), e)
  {
    before, e := run[..|run| - 1], run[|run| - 1];
    FrontAndLast(run);
    RunLast(s, run);
    ValidLast(s, run, |run| - 1);
  }

  lemma {:induction false} RunLast(s: Server, run: seq<Event>)
    requires run != []
    ensures Run(s, run) == Step(s.context, Run(s, run[..|run| - 1]), run[|run| - 1])
  {
  }

  lemma ValidLast(s: Server, run: seq<Event>, n: nat)
    requires ValidRun(s, run) && n < |run|
    ensures ValidRun(s, run[..n]) && Possible(s.context, Run(s, run[..n]), run[n])
  {
    ValidPrefix(s, run, n);
    assert Possible(s.context, At(s, run, n), run[n]);
  }

  /** Every code in the store was issued by one consent and holds what it agreed to. */
  lemma {:induction false} CodeOrigin(s: Server, run: seq<Event>, c: string) returns (i: nat, v: ValidatedRequest)
    requires ValidRun(s, run) && c in Run(s, run).codes
    ensures Consent(s, run, i, c, v) && Run(s, run).codes[c] == IssuedCode(v, At(s, run, i).now)
    decreases |run|
  {
    var before, e := Unroll(s, run);
    StepCodes(s.context, Run(s, before), e, c);
    if c in Run(s, before).codes && Run(s, run).codes[c] == Run(s, before).codes[c] {
      i, v := CodeOrigin(s, before, c);
      AtPrefix(s, before, e, i);
    } else {
      i, v := |before|, Approved(s.context, e.request).value;
      AtPrefix(s, before, e, i);
      AtEnd(s, before);
    }
  }

  /** The payloads of the tokens in a token response. */
  lemma PayloadsIn(context: Context, now: int, scope: string, audience: Option<string>, body: string) returns (p: TokenPayload)
    requires context.crypto.Sound()
    requires body in BodiesIn(context.crypto, Reply(200, TokenBody(context.MintTokens(now, scope, audience))))
    ensures body == context.crypto.Body(p) && p.sc == scope && p.aud == audience
    ensures context.crypto.Token(p) in TokensIn(Reply(200, TokenBody(context.MintTokens(now, scope, audience))))
  {
    var a, r := context.AccessPayload(now, scope, audience), context.RefreshPayload(now, scope, audience);
    SignedBodyOfToken(context.crypto, a);
    SignedBodyOfToken(context.crypto, r);
    p := if body == context.crypto.Body(a) then a else r;
  }

  lemma TokensInBody(crypto: Crypto, a: Response, b: Response)
    requires a.body == b.body
    ensures TokensIn(a) == TokensIn(b) && BodiesIn(crypto, a) == BodiesIn(crypto, b)
  {
  }

  /** Every signed token body derives from one consent, through its exchange and any
      number of refreshes, with that consent's scope and audience. */
  lemma {:induction false} TokenOrigin(s: Server, run: seq<Event>, body: string)
    returns (chain: Chain, v: ValidatedRequest, p: TokenPayload)
    requires ValidRun(s, run) && body in Run(s, run).signed
    ensures body == s.context.crypto.Body(p) && Derived(s, run, chain, v, p)
    decreases |run|
  {
    var before, e := Unroll(s, run);
    var st := Run(s, before);
    if body in st.signed {
      chain, v, p := TokenOrigin(s, before, body);
      DerivedGrows(s, before, e, chain, v, p);
    } else {
      TokensExactly(s.context, st, e.request, e.newCode, e.victim);
      if ExchangeGranted(s.context, st, e.request) {
        chain, v, p := ExchangeOrigin(s, before, e, body);
      } else {
        chain, v, p := RefreshOrigin(s, before, e, body);
      }
    }
  }

  lemma MintedLast(s: Server, before: seq<Event>, e: Event, scope: string, audience: Option<string>, body: string)
    returns (p: TokenPayload)
    requires s.context.crypto.Sound() && e.Ask?
    requires var response := Handle(s.context, Run(s, before), e.request, e.newCode, e.victim).response;
             response.body == TokenBody(s.context.MintTokens(Run(s, before).now, scope, audience))
             && body in BodiesIn(s.context.crypto, response)
    ensures body == s.context.crypto.Body(p) && p.sc == scope && p.aud == audience
    ensures MintedAt(s, before + [e], |before|, p)
  {
    var response := Handle(s.context, Run(s, before), e.request, e.newCode, e.victim).response;
    TokensInBody(s.context.crypto, response, Reply(200, response.body));
    p := PayloadsIn(s.context, Run(s, before).now, scope, audience, body);
    AtPrefix(s, before, e, |before|);
    AtEnd(s, before);
  }

  lemma ExchangeOrigin(s: Server, before: seq<Event>, e: Event, body: string)
    returns (chain: Chain, v: ValidatedRequest, p: TokenPayload)
    requires ValidRun(s, before) && e.Ask? && ExchangeGranted(s.context, Run(s, before), e.request)
    requires body in BodiesIn(s.context.crypto, Handle(s.context, Run(s, before), e.request, e.newCode, e.victim).response)
    ensures body == s.context.crypto.Body(p) && Derived(s, before + [e], chain, v, p)
  {
    var st, code := Run(s, before), Param(e.request, "code");
    TokensExactly(s.context, st, e.request, e.newCode, e.victim);
    var i;
    i, v := CodeOrigin(s, before, code);
    p := MintedLast(s, before, e, v.grantedScope, v.resource, body);
    chain := Exchanged(i, |before|);
    AtPrefix(s, before, e, |before|);
    AtEnd(s, before);
    assert Consent(s, before + [e], i, code, v) && Exchange(s, before + [e], |before|, code, v);
  }

  lemma VerifiedPayload(crypto: Crypto, now: int, token: string, q: TokenPayload)
    requires crypto.Sound() && crypto.Verify(now, token, Refresh).Some? && crypto.SignedBody(token) == Some(crypto.Body(q))
    ensures q.k == Refresh.AsStr() && now < q.exp && crypto.Verify(now, token, Refresh) == Some(VerifiedToken(q.sc, q.aud))
  {
    PayloadOfBody(crypto, q);
  }

  lemma RefreshOrigin(s: Server, before: seq<Event>, e: Event, body: string)
    returns (chain: Chain, v: ValidatedRequest, p: TokenPayload)
    requires ValidRun(s, before) && e.Ask? && Possible(s.context, Run(s, before), e) && RefreshGranted(s.context, Run(s, before), e.request)
    requires body in BodiesIn(s.context.crypto, Handle(s.context, Run(s, before), e.request, e.newCode, e.victim).response)
    ensures body == s.context.crypto.Body(p) && Derived(s, before + [e], chain, v, p)
    decreases |before| + 1, 0
  {
    var st, token := Run(s, before), Param(e.request, "refresh_token");
    TokensExactly(s.context, st, e.request, e.newCode, e.victim);
    var start, q;
    start, v, q := TokenOrigin(s, before, s.context.crypto.SignedBody(token).value);
    VerifiedPayload(s.context.crypto, st.now, token, q);
    p := MintedLast(s, before, e, q.sc, q.aud, body);
    AtPrefix(s, before, e, |before|);
    AtEnd(s, before);
    assert start.Last() < |before|;
    DerivedGrows(s, before, e, start, v, q);
    chain := Refreshed(start, |before|);
    assert Refreshes(s, before + [e], |before|, q);
  }

  // ----- whole runs

  lemma MintedRefresh(s: Server, run: seq<Event>, i: nat, q: TokenPayload)
    requires s.context.crypto.Sound() && MintedAt(s, run, i, q) && q.k == Refresh.AsStr()
    ensures ScopeIncludes(q.sc, OFFLINE_SCOPE)
  {
    var st, e := At(s, run, i), run[i];
    TokensExactly(s.context, st, e.request, e.newCode, e.victim);
    var tokens := Handle(s.context, st, e.request, e.newCode, e.victim).response.body.tokens;
    var scope, audience;
    if ExchangeGranted(s.context, st, e.request) {
      var issued := Codes.Live(st.codes, st.now)[Param(e.request, "code")];
      scope, audience := issued.scope, issued.resource;
    } else {
      var verified := s.context.crypto.Verify(st.now, Param(e.request, "refresh_token"), Refresh).value;
      scope, audience := verified.scope, verified.audience;
    }
    RefreshNeedsOffline(s.context, st.now, scope, audience, q);
  }

  lemma RefreshNeedsOffline(context: Context, now: int, scope: string, audience: Option<string>, q: TokenPayload)
    requires context.crypto.Sound() && q.k == Refresh.AsStr()
    requires context.crypto.Token(q) in TokensIn(Reply(200, TokenBody(context.MintTokens(now, scope, audience))))
    ensures ScopeIncludes(q.sc, OFFLINE_SCOPE)
  {
    if context.crypto.Token(q) == context.crypto.Token(context.AccessPayload(now, scope, audience)) {
      TokenInjective(context.crypto, q, context.AccessPayload(now, scope, audience));
      assert false;
    } else {
      TokenInjective(context.crypto, q, context.RefreshPayload(now, scope, audience));
    }
  }

  /** Without `offline_access` a consent leads to one access token and to no chain. */
  lemma {:induction false} NoChainWithoutOffline(s: Server, run: seq<Event>, chain: Chain, v: ValidatedRequest, p: TokenPayload)
    requires s.context.crypto.Sound() && Derived(s, run, chain, v, p) && !ScopeIncludes(v.grantedScope, OFFLINE_SCOPE)
    ensures chain.Exchanged? && p.k != Refresh.AsStr()
  {
    if p.k == Refresh.AsStr() {
      MintedRefresh(s, run, chain.Last(), p);
      assert false;
    }
    if chain.Refreshed? {
      var q :| Refreshes(s, run, chain.refresh, q) && Derived(s, run, chain.before, v, q);
      MintedRefresh(s, run, chain.before.Last(), q);
      assert false;
    }
  }

  lemma AllowedToken(context: Context, now: int, authorization: Option<string>, base: string, resource: string)
    requires CheckBearer(context, now, authorization, base, resource).Allowed?
    ensures BearerToken(authorization).Some? && context.crypto.Verify(now, BearerToken(authorization).value, Access).Some?
    ensures var audience := context.crypto.Verify(now, BearerToken(authorization).value, Access).value.audience;
            audience.Some? ==> R.AudienceAllows(audience.value, base, resource)
  {
  }

  /** Over every run, a token the gate accepts is an unexpired access token that traces
      back to one consent, and its scope and audience are those of that consent. */
  lemma AcceptedTokenProvenance(s: Server, run: seq<Event>, n: nat)
    returns (chain: Chain, v: ValidatedRequest, p: TokenPayload)
    requires ValidRun(s, run) && n < |run| && run[n].Gate?
    requires GateH2(s.context, At(s, run, n).now, run[n].authorization, run[n].baseUrl, run[n].locations, run[n].path).Allowed?
    ensures BearerToken(run[n].authorization).Some?
    ensures s.context.crypto.SignedBody(BearerToken(run[n].authorization).value) == Some(s.context.crypto.Body(p))
    ensures p.k == Access.AsStr() && At(s, run, n).now < p.exp
    ensures Derived(s, run[..n], chain, v, p)
    ensures v.resource.Some? ==>
              R.AudienceAllows(v.resource.value, s.context.BaseUrl(run[n].baseUrl), R.ResourceOfRequest(run[n].locations, run[n].path))
  {
    var st, e := At(s, run, n), run[n];
    AllowedToken(s.context, st.now, e.authorization, s.context.BaseUrl(e.baseUrl), R.ResourceOfRequest(e.locations, e.path));
    var token := BearerToken(e.authorization).value;
    ValidPrefix(s, run, n);
    assert Possible(s.context, st, e);
    chain, v, p := TokenOrigin(s, run[..n], s.context.crypto.SignedBody(token).value);
    PayloadOfBody(s.context.crypto, p);
  }

  // ----- the life of a code

  /** The store never holds more than its bound. */
  lemma {:induction false} StoreStaysBounded(s: Server, run: seq<Event>)
    requires ValidRun(s, run)
    ensures |Run(s, run).codes| <= Codes.MAX_CODES
    decreases |run|
  {
    if run != [] {
      var before, e := Unroll(s, run);
      StoreStaysBounded(s, before);
      var st := Run(s, before);
      if e.Ask? {
        if Approved(s.context, e.request).Some? {
          ApprovalAddsCode(s.context, st, e.request, e.newCode, e.victim);
          Codes.AddStaysBounded(st.codes, st.now, e.victim, e.newCode, IssuedCode(Approved(s.context, e.request).value, st.now));
        } else {
          TokenRequestCases(s.context, st, e.request, e.newCode, e.victim);
          Codes.TakeStaysBounded(st.codes, st.now, Param(e.request, "code"));
        }
      }
    }
  }

  lemma {:induction false} CodesAreUsed(s: Server, run: seq<Event>, c: string)
    requires ValidRun(s, run) && c in Run(s, run).codes
    ensures c in Run(s, run).used
    decreases |run|
  {
    var before, e := Unroll(s, run);
    StepCodes(s.context, Run(s, before), e, c);
    if c in Run(s, before).codes { CodesAreUsed(s, before, c); }
  }

  lemma {:induction false} NeverBack(at: nat -> int, i: nat, j: nat)
    requires i <= j && forall m :: i <= m < j ==> at(m) <= at(m + 1)
    ensures at(i) <= at(j)
    decreases j - i
  {
    if i < j { NeverBack(at, i + 1, j); }
  }

  lemma {:induction false} ClockStep(s: Server, run: seq<Event>, i: nat)
    requires i < |run|
    ensures At(s, run, i).now <= At(s, run, i + 1).now
  {
    AtNext(s, run, i);
  }

  lemma {:induction false} ClockMonotone(s: Server, run: seq<Event>, i: nat, j: nat)
    requires i <= j <= |run|
    ensures At(s, run, i).now <= At(s, run, j).now
  {
    var at := (m: nat) => if m <= |run| then At(s, run, m).now else 0;
    forall m: nat | i <= m < j ensures at(m) <= at(m + 1) { ClockStep(s, run, m); }
    NeverBack(at, i, j);
  }

  lemma StepKeepsUsed(context: Context, st: State, ev: Event, code: string)
    requires code in st.used
    ensures code in Step(context, st, ev).used
  {
  }

  lemma {:induction false} UsedStays(s: Server, run: seq<Event>, i: nat, j: nat, code: string)
    requires i <= j <= |run| && code in At(s, run, i).used
    ensures code in At(s, run, j).used
    decreases j - i
  {
    if i < j {
      AtNext(s, run, i);
      StepKeepsUsed(s.context, At(s, run, i), run[i], code);
      UsedStays(s, run, i + 1, j, code);
    }
  }

  lemma {:induction false} ConsentUses(s: Server, run: seq<Event>, i: nat, code: string, v: ValidatedRequest)
    requires ValidRun(s, run) && Consent(s, run, i, code, v)
    ensures code !in At(s, run, i).used && code in At(s, run, i + 1).used
  {
    AtNext(s, run, i);
    assert Possible(s.context, At(s, run, i), run[i]);
  }

  /** A code belongs to one consent. */
  lemma {:induction false} ConsentIsUnique(s: Server, run: seq<Event>, i: nat, v: ValidatedRequest, j: nat, w: ValidatedRequest, code: string)
    requires ValidRun(s, run) && Consent(s, run, i, code, v) && Consent(s, run, j, code, w)
    ensures i == j && v == w
  {
    ConsentUses(s, run, i, code, v);
    ConsentUses(s, run, j, code, w);
    if i < j { UsedStays(s, run, i + 1, j, code); }
    if j < i { UsedStays(s, run, j + 1, i, code); }
  }

  /** A code that is in the store after its consent holds what that consent agreed to. */
  lemma {:induction false} StoredIsConsented(s: Server, run: seq<Event>, i: nat, j: nat, code: string, v: ValidatedRequest)
    requires ValidRun(s, run) && Consent(s, run, i, code, v) && i < j <= |run| && code in At(s, run, j).codes
    ensures At(s, run, j).codes[code] == IssuedCode(v, At(s, run, i).now)
  {
    var k, w := OriginAt(s, run, j, code);
    ConsentIsUnique(s, run, i, v, k, w, code);
  }

  lemma {:induction false} OriginAt(s: Server, run: seq<Event>, j: nat, code: string) returns (k: nat, w: ValidatedRequest)
    requires ValidRun(s, run) && j <= |run| && code in At(s, run, j).codes
    ensures Consent(s, run, k, code, w) && k < j && At(s, run, j).codes[code] == IssuedCode(w, At(s, run, k).now)
  {
    ValidPrefix(s, run, j);
    k, w := CodeOrigin(s, run[..j], code);
    PrefixAt(s, run, j, k);
  }

  lemma {:induction false} PrefixAt(s: Server, run: seq<Event>, j: nat, k: nat)
    requires k < j <= |run|
    ensures At(s, run[..j], k) == At(s, run, k) && run[..j][k] == run[k]
  {
    assert run[..j][..k] == run[..k];
  }

  lemma GoneAfterStep(s: Server, run: seq<Event>, i: nat, code: string)
    requires ValidRun(s, run) && i < |run|
    requires code in At(s, run, i).used && code !in At(s, run, i).codes
    ensures code in At(s, run, i + 1).used && code !in At(s, run, i + 1).codes
  {
    AtNext(s, run, i);
    assert Possible(s.context, At(s, run, i), run[i]);
    if code in At(s, run, i + 1).codes { StepCodes(s.context, At(s, run, i), run[i], code); }
  }

  lemma {:induction false} GoneStaysGone(s: Server, run: seq<Event>, i: nat, j: nat, code: string)
    requires ValidRun(s, run) && i <= j <= |run|
    requires code in At(s, run, i).used && code !in At(s, run, i).codes
    ensures code in At(s, run, j).used && code !in At(s, run, j).codes
    decreases j - i
  {
    if i < j {
      GoneAfterStep(s, run, i, code);
      GoneStaysGone(s, run, i + 1, j, code);
    }
  }

  lemma RedeemBurns(s: Server, run: seq<Event>, i: nat, code: string)
    requires Redeems(s, run, i, code)
    ensures code !in At(s, run, i + 1).codes
  {
    AtNext(s, run, i);
    TokenRequestCases(s.context, At(s, run, i), run[i].request, run[i].newCode, run[i].victim);
  }

  lemma GoneOnceRedeemed(s: Server, run: seq<Event>, i: nat, j: nat, code: string)
    requires ValidRun(s, run) && Redeems(s, run, i, code) && i < j <= |run|
    ensures code !in At(s, run, j).codes
  {
    RedeemBurns(s, run, i, code);
    ValidPrefix(s, run, i);
    CodesAreUsed(s, run[..i], code);
    AtNext(s, run, i);
    StepKeepsUsed(s.context, At(s, run, i), run[i], code);
    GoneStaysGone(s, run, i + 1, j, code);
  }

  /** A code is redeemed at most once over a run; presenting it burns it even when the
      redirect URI or the verifier is then refused. */
  lemma RedeemedAtMostOnce(s: Server, run: seq<Event>, i: nat, j: nat, code: string)
    requires ValidRun(s, run) && Redeems(s, run, i, code) && Redeems(s, run, j, code)
    ensures i == j
  {
    if i < j {
      GoneOnceRedeemed(s, run, i, j, code);
    } else if j < i {
      GoneOnceRedeemed(s, run, j, i, code);
    }
  }

  /** A redeemed code was issued by an earlier consent, less than its lifetime ago. */
  lemma RedeemedInTime(s: Server, run: seq<Event>, j: nat, code: string) returns (i: nat, v: ValidatedRequest)
    requires ValidRun(s, run) && Redeems(s, run, j, code)
    ensures i < j && Consent(s, run, i, code, v)
    ensures At(s, run, j).now < At(s, run, i).now + Codes.AUTH_CODE_TTL_SEC
  {
    i, v := OriginAt(s, run, j, code);
  }

  /** Event `k` pushed a live code out of a full store. */
  ghost predicate Evicts(s: Server, run: seq<Event>, k: nat, code: string)
  {
    && k < |run| && run[k].Ask? && Approved(s.context, run[k].request).Some?
    && var live := Codes.Live(At(s, run, k).codes, At(s, run, k).now);
       code in live && |Codes.NoSooner(live, code)| >= Codes.MAX_CODES - 1
  }

  ghost predicate Ends(s: Server, run: seq<Event>, k: nat, code: string)
  {
    k < |run| && (Redeems(s, run, k, code) || Evicts(s, run, k, code) || run[k].Restart?)
  }

  lemma {:induction false} CodeSurvivesApproval(context: Context, st: State, e: Event, code: string)
    requires e.Ask? && Approved(context, e.request).Some? && Possible(context, st, e)
    requires code in st.codes && code in st.used && st.now < st.codes[code].expiresAt
    requires |Codes.NoSooner(Codes.Live(st.codes, st.now), code)| < Codes.MAX_CODES - 1
    ensures var after := Handle(context, st, e.request, e.newCode, e.victim).codes; code in after && after[code] == st.codes[code]
  {
    var issued := IssuedCode(Approved(context, e.request).value, st.now);
    ApprovalAddsCode(context, st, e.request, e.newCode, e.victim);
    if code !in Codes.Add(st.codes, st.now, e.victim, e.newCode, issued) {
      Codes.DroppedOnlyWhenFull(st.codes, st.now, e.victim, e.newCode, issued, code);
    }
  }

  lemma {:induction false} CodeSurvivesStep(s: Server, run: seq<Event>, k: nat, code: string)
    requires ValidRun(s, run) && k < |run| && code in At(s, run, k).codes && code in At(s, run, k).used
    requires !Ends(s, run, k, code) && At(s, run, k).now < At(s, run, k).codes[code].expiresAt
    ensures code in At(s, run, k + 1).codes && At(s, run, k + 1).codes[code] == At(s, run, k).codes[code]
  {
    AtNext(s, run, k);
    var st, e := At(s, run, k), run[k];
    assert Possible(s.context, st, e);
    if e.Ask? {
      if Approved(s.context, e.request).Some? {
        CodeSurvivesApproval(s.context, st, e, code);
      } else {
        TokenRequestCases(s.context, st, e.request, e.newCode, e.victim);
      }
    }
  }

  /** The code of the consent `i` to `v` is in the store at event `j`, as it was issued. */
  ghost predicate Held(s: Server, run: seq<Event>, i: nat, j: nat, code: string, v: ValidatedRequest)
    requires i <= |run| && j <= |run|
  {
    code in At(s, run, j).codes && At(s, run, j).codes[code] == IssuedCode(v, At(s, run, i).now)
  }

  /** Event `k` lies between `i` and `j` and ends the life of the code. */
  ghost predicate EndsBetween(s: Server, run: seq<Event>, i: nat, j: nat, code: string, k: nat)
  {
    i < k < j && Ends(s, run, k, code)
  }

  /** What holds at `lo` and passes from each moment to the next unless that moment ends it
      holds at `hi`, or some moment ended it. */
  lemma {:induction false} HoldsOrEnds(holds: nat -> bool, ends: nat -> bool, lo: nat, hi: nat) returns (k: nat)
    requires lo <= hi && holds(lo) && forall m :: lo <= m < hi && holds(m) ==> holds(m + 1) || ends(m)
    ensures holds(hi) || (lo <= k < hi && ends(k))
    decreases hi - lo
  {
    k := lo;
    if lo < hi && !ends(lo) { k := HoldsOrEnds(holds, ends, lo + 1, hi); }
  }

  ghost predicate HeldAs(s: Server, run: seq<Event>, m: nat, code: string, issued: Codes.AuthCode)
  {
    m <= |run| && code in At(s, run, m).codes && At(s, run, m).codes[code] == issued
  }

  lemma {:induction false} HeldOrEnded(s: Server, run: seq<Event>, m: nat, j: nat, code: string, issued: Codes.AuthCode)
    requires ValidRun(s, run) && m < j <= |run| && HeldAs(s, run, m, code, issued) && At(s, run, j).now < issued.expiresAt
    ensures HeldAs(s, run, m + 1, code, issued) || Ends(s, run, m, code)
  {
    ClockMonotone(s, run, m, j);
    KeptOrEnded(s, run, m, code);
  }

  /** Between `i` and `j` the code stays in the store from each event to the next unless
      that event ends its life. */
  ghost predicate StaysUnlessEnded(s: Server, run: seq<Event>, i: nat, j: nat, code: string, issued: Codes.AuthCode)
  {
    forall m :: i < m < j && HeldAs(s, run, m, code, issued) ==> HeldAs(s, run, m + 1, code, issued) || Ends(s, run, m, code)
  }

  lemma {:induction false} EachMoment(s: Server, run: seq<Event>, i: nat, j: nat, code: string, issued: Codes.AuthCode)
    requires ValidRun(s, run) && i < j <= |run| && At(s, run, j).now < issued.expiresAt
    ensures StaysUnlessEnded(s, run, i, j, code, issued)
  {
    forall m: nat | i < m < j && HeldAs(s, run, m, code, issued)
      ensures HeldAs(s, run, m + 1, code, issued) || Ends(s, run, m, code)
    {
      HeldOrEnded(s, run, m, j, code, issued);
    }
  }

  lemma {:induction false} HeldFate(s: Server, run: seq<Event>, i: nat, j: nat, code: string, issued: Codes.AuthCode) returns (k: nat)
    requires i < j && StaysUnlessEnded(s, run, i, j, code, issued) && HeldAs(s, run, i + 1, code, issued)
    ensures HeldAs(s, run, j, code, issued) || EndsBetween(s, run, i, j, code, k)
  {
    k := HoldsOrEnds((m: nat) => HeldAs(s, run, m, code, issued), (m: nat) => Ends(s, run, m, code), i + 1, j);
  }

  /** Until it expires, a code stays redeemable unless it was redeemed, the process was
      restarted, or it was the oldest of a full store when another consent came. */
  lemma {:induction false} CodeFate(s: Server, run: seq<Event>, i: nat, code: string, v: ValidatedRequest, j: nat) returns (k: nat)
    requires ValidRun(s, run) && Consent(s, run, i, code, v) && i < j <= |run|
    requires At(s, run, j).now < At(s, run, i).now + Codes.AUTH_CODE_TTL_SEC
    ensures Held(s, run, i, j, code, v) || EndsBetween(s, run, i, j, code, k)
  {
    ConsentStoresCode(s, run, i, code, v);
    EachMoment(s, run, i, j, code, IssuedCode(v, At(s, run, i).now));
    k := HeldFate(s, run, i, j, code, IssuedCode(v, At(s, run, i).now));
  }

  lemma {:induction false} KeptOrEnded(s: Server, run: seq<Event>, k: nat, code: string)
    requires ValidRun(s, run) && k < |run| && code in At(s, run, k).codes
    requires At(s, run, k).now < At(s, run, k).codes[code].expiresAt
    ensures Ends(s, run, k, code) || (code in At(s, run, k + 1).codes && At(s, run, k + 1).codes[code] == At(s, run, k).codes[code])
  {
    if !Ends(s, run, k, code) { CodeKept(s, run, k, code); }
  }

  lemma {:induction false} ConsentStoresCode(s: Server, run: seq<Event>, i: nat, code: string, v: ValidatedRequest)
    requires Consent(s, run, i, code, v)
    ensures code in At(s, run, i + 1).codes && At(s, run, i + 1).codes[code] == IssuedCode(v, At(s, run, i).now)
  {
    AtNext(s, run, i);
    ApprovalAddsCode(s.context, At(s, run, i), run[i].request, run[i].newCode, run[i].victim);
  }

  lemma {:induction false} CodeKept(s: Server, run: seq<Event>, k: nat, code: string)
    requires ValidRun(s, run) && k < |run| && code in At(s, run, k).codes
    requires !Ends(s, run, k, code) && At(s, run, k).now < At(s, run, k).codes[code].expiresAt
    ensures code in At(s, run, k + 1).codes && At(s, run, k + 1).codes[code] == At(s, run, k).codes[code]
  {
    ValidPrefix(s, run, k);
    CodesAreUsed(s, run[..k], code);
    CodeSurvivesStep(s, run, k, code);
  }
}
