/** The OAuth 2.1 authorization server and the bearer gate as transport-free functions
    over the code store and the clock (src/oauth/handle_oauth_request.rs,
    src/oauth/handle_authorize.rs, src/oauth/handle_token.rs, src/oauth/bearer_gate.rs). */
module OAuthServer {
  import opened Prelude
  import opened Text
  import opened Form
  import opened TokenSigner
  import Codes = AuthCodes
  import R = Routes
  import Utf8

  const MCP_SCOPE := "mcp"
  const OFFLINE_SCOPE := "offline_access"
  const BOTH_SCOPES := "mcp offline_access"
  const CLAUDE_REDIRECT_URI := "https://claude.ai/api/mcp/auth_callback"

  datatype Settings = Settings(
    clientId: string, clientSecret: string, consentPassword: string,
    publicUrl: Option<string>, accessTtl: int, refreshTtl: int)

  datatype MintedTokens = MintedTokens(access: string, refresh: Option<string>, expiresIn: int, scope: string)

  predicate ScopeIncludes(scope: string, wanted: string) { wanted in Tokens(scope) }

  /** Narrows what the client asked for to what this server grants. */
  function GrantedScope(requested: Option<string>): (r: string)
    ensures r == MCP_SCOPE || r == BOTH_SCOPES
  {
    var requested := if requested.Some? then requested.value else "";
    if ScopeIncludes(requested, OFFLINE_SCOPE) then MCP_SCOPE + " " + OFFLINE_SCOPE else MCP_SCOPE
  }

  /** One configured `oauth:` block with its signing key. */
  datatype Context = Context(settings: Settings, crypto: Crypto) {
    function BaseUrl(requestBase: string): (r: string)
    {
      match settings.publicUrl
      case Some(url) => TrimSlashes(Trim(url))
      case None => TrimSlashes(requestBase)
    }

    predicate ChecksClientId(presented: string) { Trim(presented) == Trim(settings.clientId) }

    predicate ChecksClientSecret(presented: string) { presented == Trim(settings.clientSecret) }

    predicate ChecksConsentPassword(presented: string) { Trim(presented) == Trim(settings.consentPassword) }

    function AccessPayload(now: int, scope: string, audience: Option<string>): (r: TokenPayload)
    {
      TokenPayload(Access.AsStr(), now + settings.accessTtl, scope, audience)
    }

    function RefreshPayload(now: int, scope: string, audience: Option<string>): (r: TokenPayload)
    {
      TokenPayload(Refresh.AsStr(), now + settings.refreshTtl, scope, audience)
    }

    function MintTokens(now: int, scope: string, audience: Option<string>): (r: MintedTokens)
    {
      MintedTokens(
        crypto.Mint(now, Access, scope, audience, settings.accessTtl),
        if ScopeIncludes(scope, OFFLINE_SCOPE) then Some(crypto.Mint(now, Refresh, scope, audience, settings.refreshTtl)) else None,
        settings.accessTtl,
        scope)
    }
  }

  datatype Verb = Get | Post | Other

  datatype Request = Request(
    verb: Verb, route: R.Route, baseUrl: string, query: Option<string>, body: bytes,
    authorization: Option<string>, locations: seq<string>)
  {
    /** From the query string on a GET and from the form body on a POST. */
    function Parameters(): (r: map<string, string>)
    {
      if verb.Post? then ParseForm(Utf8.FromUtf8Lossy(body))
      else ParseForm(if query.Some? then query.value else "")
    }
  }

  datatype Body =
    | ErrorBody(error: string)
    | ErrorPage
    | ConsentPage(fields: seq<Field>, refused: bool)
    | TokenBody(tokens: MintedTokens)
    | ResourceMetadata(resource: string, authorizationServer: string)
    | ServerMetadata(issuer: string, authorizationEndpoint: string, tokenEndpoint: string)
    | NoBody

  /** A response: status, content, redirect target, `WWW-Authenticate`, and whether the
      block-list is told of a credential failure. */
  datatype Response = Response(
    status: int, body: Body, location: Option<string>, challenge: Option<string>, registerFailure: bool)

  datatype Outcome = Outcome(codes: Codes.Store, response: Response)

  function Reply(status: int, body: Body): (r: Response) { Response(status, body, None, None, false) }

  function Redirect(url: string): (r: Response) { Response(302, NoBody, Some(url), None, false) }

  function GetParam(parameters: map<string, string>, name: string): (r: string)
  {
    if name in parameters then parameters[name] else ""
  }

  /** An absent or empty parameter counts as not given. */
  function GivenParam(parameters: map<string, string>, name: string): (r: Option<string>)
  {
    if name in parameters && parameters[name] != "" then Some(parameters[name]) else None
  }

  // ----- /oauth/authorize

  predicate IsLoopbackRedirect(uri: string)
  {
    "http://" <= uri &&
    var rest := uri[|"http://"|..];
    '@' !in rest &&
    var hostAndPort := match SplitOnce(rest, '/') case Some(p) => p.0 case None => rest;
    match RSplitOnce(hostAndPort, ':')
    case Some((host, port)) => (port == "" || ParseUnsigned(port, 65535).Some?) && IsLoopbackHost(host)
    case None => IsLoopbackHost(hostAndPort)
  }

  predicate IsLoopbackHost(host: string) { host == "127.0.0.1" || host == "localhost" || host == "[::1]" }

  predicate IsAllowedRedirectUri(uri: string) { uri == CLAUDE_REDIRECT_URI || IsLoopbackRedirect(uri) }

  /** What both the GET that shows the form and the POST that acts on it agree on. */
  datatype ValidatedRequest = ValidatedRequest(
    clientId: string, redirectUri: string, state: Option<string>, codeChallenge: string,
    grantedScope: string, resource: Option<string>)

  datatype Validated = Accepted(request: ValidatedRequest) | Rejected(response: Response)

  /** The parameters `/oauth/authorize` looks at. */
  datatype AuthorizeParams = AuthorizeParams(
    clientId: string, redirectUri: string, state: Option<string>, responseType: string, codeChallenge: string,
    challengeMethod: string, resource: Option<string>, scope: Option<string>)

  function ReadParams(parameters: map<string, string>): (r: AuthorizeParams)
  {
    AuthorizeParams(
      GetParam(parameters, "client_id"),
      GetParam(parameters, "redirect_uri"),
      GivenParam(parameters, "state"),
      GetParam(parameters, "response_type"),
      GetParam(parameters, "code_challenge"),
      if "code_challenge_method" in parameters then parameters["code_challenge_method"] else "S256",
      GivenParam(parameters, "resource"),
      if "scope" in parameters then Some(parameters["scope"]) else None)
  }

  /** The error and its description that go back to a client whose redirect URI is trusted. */
  function Complaint(p: AuthorizeParams, baseUrl: string): (r: Option<(string, string)>)
  {
    if p.responseType != "code" then
      Some(("unsupported_response_type", "Only the authorization code flow is supported"))
    else if p.codeChallenge == "" then
      Some(("invalid_request", "code_challenge is required \U{2014} this server requires PKCE with S256"))
    else if !EqIgnoreCase(p.challengeMethod, "S256") then
      Some(("invalid_request", "Only the S256 code_challenge_method is supported"))
    else if p.resource.Some? && !(baseUrl <= TrimSlashes(p.resource.value)) then
      Some(("invalid_target", "The requested resource is not served by this authorization server"))
    else None
  }

  function ValidateParams(context: Context, p: AuthorizeParams, baseUrl: string): (r: Validated)
    ensures r.Rejected? ==> r.response.body == ErrorPage || r.response.body == NoBody
  {
    if !context.ChecksClientId(p.clientId) then
      Rejected(Reply(400, ErrorPage).(registerFailure := true))
    else if !IsAllowedRedirectUri(p.redirectUri) then
      Rejected(Reply(400, ErrorPage))
    else match Complaint(p, baseUrl)
      case Some((error, description)) => Rejected(RedirectWithError(p.redirectUri, p.state, error, description))
      case None => Accepted(ValidatedRequest(p.clientId, p.redirectUri, p.state, p.codeChallenge, GrantedScope(p.scope), p.resource))
  }

  function Validate(context: Context, parameters: map<string, string>, baseUrl: string): (r: Validated)
    ensures r.Rejected? ==> r.response.body == ErrorPage || r.response.body == NoBody
  {
    ValidateParams(context, ReadParams(parameters), baseUrl)
  }

  /** Opens the query of a redirect URI, keeping the parameters already there. */
  function AppendQuery(redirectUri: string): (r: string)
  {
    redirectUri + (if '?' in redirectUri then "&" else "?")
  }

  function StateSuffix(state: Option<string>): (r: string)
  {
    if state.Some? then "&state=" + PercentEncode(state.value) else ""
  }

  function CodeRedirectUrl(redirectUri: string, code: string, state: Option<string>): (r: string)
  {
    AppendQuery(redirectUri) + ("code=" + PercentEncode(code) + StateSuffix(state))
  }

  function ErrorRedirectUrl(redirectUri: string, state: Option<string>, error: string, description: string): (r: string)
  {
    AppendQuery(redirectUri)
    + ("error=" + PercentEncode(error) + "&" + ("error_description=" + PercentEncode(description) + StateSuffix(state)))
  }

  function RedirectWithError(redirectUri: string, state: Option<string>, error: string, description: string): (r: Response)
    ensures r.location.Some? && AppendQuery(redirectUri) <= r.location.value
  {
    Redirect(ErrorRedirectUrl(redirectUri, state, error, description))
  }

  /** The hidden fields of the consent form, as the person's browser holds them. */
  function HiddenFields(v: ValidatedRequest): (r: seq<Field>)
  {
    [Field("client_id", v.clientId),
     Field("redirect_uri", v.redirectUri),
     Field("response_type", "code"),
     Field("scope", v.grantedScope),
     Field("code_challenge", v.codeChallenge),
     Field("code_challenge_method", "S256")]
    + (if v.state.Some? then [Field("state", v.state.value)] else [])
    + (if v.resource.Some? then [Field("resource", v.resource.value)] else [])
  }

  function EscapeFields(fields: seq<Field>): (r: seq<Field>)
  {
    seq(|fields|, i requires 0 <= i < |fields| => Field(HtmlEscape(fields[i].name), HtmlEscape(fields[i].value)))
  }

  function ConsentResponse(v: ValidatedRequest, refused: bool): (r: Response)
  {
    Reply(if refused then 401 else 200, ConsentPage(EscapeFields(HiddenFields(v)), refused))
  }

  function IssuedCode(v: ValidatedRequest, now: int): (r: Codes.AuthCode)
  {
    Codes.AuthCode(v.redirectUri, v.codeChallenge, v.grantedScope, v.resource, now + Codes.AUTH_CODE_TTL_SEC)
  }

  /** `newCode` is the random code and `victim` the code a full store would give up. */
  function HandleAuthorize(context: Context, codes: Codes.Store, now: int, request: Request, newCode: string, victim: string)
    : (r: Outcome)
  {
    if request.verb.Other? then Outcome(codes, Reply(405, ErrorBody("invalid_request")))
    else
      var parameters := request.Parameters();
      match Validate(context, parameters, context.BaseUrl(request.baseUrl))
      case Rejected(response) => Outcome(codes, response)
      case Accepted(v) =>
        if request.verb.Get? then Outcome(codes, ConsentResponse(v, false))
        else if !context.ChecksConsentPassword(GetParam(parameters, "consent_password")) then
          Outcome(codes, ConsentResponse(v, true).(registerFailure := true))
        else
          Outcome(Codes.Add(codes, now, victim, newCode, IssuedCode(v, now)), Redirect(CodeRedirectUrl(v.redirectUri, newCode, v.state)))
  }

  // ----- /oauth/token

  datatype PresentedClient = PresentedClient(clientId: string, clientSecret: string, fromBasic: bool)

  function Presented(context: Context, authorization: Option<string>, parameters: map<string, string>): (r: Option<PresentedClient>)
  {
    var trimmed := if authorization.Some? then Trim(authorization.value) else "";
    if |trimmed| > 6 && EqIgnoreCase(trimmed[..6], "Basic ") then
      match context.crypto.fromBase64(Trim(trimmed[6..]))
      case None => None
      case Some(decoded) =>
        match Utf8.FromUtf8(decoded)
        case None => None
        case Some(text) =>
          match SplitOnce(text, ':')
          case None => None
          case Some((id, secret)) => Some(PresentedClient(id, secret, true))
    else if GetParam(parameters, "client_id") == "" then None
    else Some(PresentedClient(GetParam(parameters, "client_id"), GetParam(parameters, "client_secret"), false))
  }

  predicate MatchesClient(context: Context, presented: PresentedClient)
  {
    && (context.ChecksClientId(presented.clientId) || context.ChecksClientId(FormUrlDecode(presented.clientId)))
    && (context.ChecksClientSecret(presented.clientSecret) || context.ChecksClientSecret(FormUrlDecode(presented.clientSecret)))
  }

  function InvalidClient(fromBasic: bool): (r: Response)
  {
    Reply(401, ErrorBody("invalid_client")).(challenge := if fromBasic then Some("Basic realm=\"oauth\"") else None)
  }

  function HandleToken(context: Context, codes: Codes.Store, now: int, request: Request): (r: Outcome)
  {
    if !request.verb.Post? then Outcome(codes, Reply(405, ErrorBody("invalid_request")))
    else HandleGrant(context, codes, now, request.authorization, request.Parameters())
  }

  function HandleGrant(context: Context, codes: Codes.Store, now: int, authorization: Option<string>, parameters: map<string, string>): (r: Outcome)
  {
    if parameters == map[] then Outcome(codes, Reply(400, ErrorBody("invalid_request")))
    else match Presented(context, authorization, parameters)
      case None => Outcome(codes, InvalidClient(false))
      case Some(client) =>
        if !MatchesClient(context, client) then Outcome(codes, InvalidClient(client.fromBasic).(registerFailure := true))
        else HandleGrantType(context, codes, now, parameters)
  }

  function HandleGrantType(context: Context, codes: Codes.Store, now: int, parameters: map<string, string>): (r: Outcome)
  {
    if "grant_type" !in parameters then Outcome(codes, Reply(400, ErrorBody("invalid_request")))
    else if parameters["grant_type"] == "authorization_code" then ExchangeCode(context, codes, now, parameters)
    else if parameters["grant_type"] == "refresh_token" then Outcome(codes, RefreshTokens(context, now, parameters))
    else Outcome(codes, Reply(400, ErrorBody("unsupported_grant_type")))
  }

  /** The code leaves the store before anything else about the request is checked. */
  function ExchangeCode(context: Context, codes: Codes.Store, now: int, parameters: map<string, string>): (r: Outcome)
  {
    var code := GetParam(parameters, "code");
    if code == "" then Outcome(codes, Reply(400, ErrorBody("invalid_request")))
    else
      var (left, found) := Codes.Take(codes, now, code);
      if found.None? then Outcome(left, Reply(400, ErrorBody("invalid_grant")))
      else Outcome(left, ExchangeIssued(context, now, found.value, parameters))
  }

  function ExchangeIssued(context: Context, now: int, issued: Codes.AuthCode, parameters: map<string, string>): (r: Response)
  {
    var verifier := GetParam(parameters, "code_verifier");
    if GetParam(parameters, "redirect_uri") != issued.redirectUri then Reply(400, ErrorBody("invalid_grant"))
    else if verifier == "" then Reply(400, ErrorBody("invalid_request"))
    else if !context.crypto.VerifyS256(verifier, issued.codeChallenge) then Reply(400, ErrorBody("invalid_grant"))
    else Reply(200, TokenBody(context.MintTokens(now, issued.scope, issued.resource)))
  }

  function RefreshTokens(context: Context, now: int, parameters: map<string, string>): (r: Response)
  {
    var token := GetParam(parameters, "refresh_token");
    if token == "" then Reply(400, ErrorBody("invalid_request"))
    else match context.crypto.Verify(now, token, Refresh)
      case None => Reply(400, ErrorBody("invalid_grant"))
      case Some(v) => Reply(200, TokenBody(context.MintTokens(now, v.scope, v.audience)))
  }

  // ----- the whole server, and the gate

  function HandleOAuthRequest(context: Context, codes: Codes.Store, now: int, request: Request, newCode: string, victim: string)
    : (r: Outcome)
  {
    match request.route
    case AuthorizationServerMetadata =>
      if !request.verb.Get? then Outcome(codes, Reply(405, ErrorBody("invalid_request")))
      else
        var base := context.BaseUrl(request.baseUrl);
        Outcome(codes, Reply(200, ServerMetadata(base, base + R.AUTHORIZE_PATH, base + R.TOKEN_PATH)))
    case ProtectedResourceMetadata(resourcePath) =>
      if !request.verb.Get? then Outcome(codes, Reply(405, ErrorBody("invalid_request")))
      else if !R.ResourcePathIsServed(resourcePath, request.locations) then Outcome(codes, Reply(404, ErrorBody("invalid_request")))
      else
        var base := context.BaseUrl(request.baseUrl);
        Outcome(codes, Reply(200, ResourceMetadata(R.BuildResourceUrl(base, resourcePath), base)))
    case Authorize => HandleAuthorize(context, codes, now, request, newCode, victim)
    case Token => HandleToken(context, codes, now, request)
  }

  datatype GateResult = Allowed | Challenge(metadataUrl: string, invalidToken: bool)

  function BearerToken(authorization: Option<string>): (r: Option<string>)
  {
    if authorization.None? then None
    else
      var trimmed := Trim(authorization.value);
      if |trimmed| <= 7 || !EqIgnoreCase(trimmed[..7], "Bearer ") then None
      else if Trim(trimmed[7..]) == "" then None
      else Some(Trim(trimmed[7..]))
  }

  function CheckBearer(context: Context, now: int, authorization: Option<string>, baseUrl: string, resourcePath: string)
    : (r: GateResult)
  {
    var metadataUrl := R.BuildResourceMetadataUrl(baseUrl, resourcePath);
    match BearerToken(authorization)
    case None => Challenge(metadataUrl, false)
    case Some(token) =>
      match context.crypto.Verify(now, token, Access)
      case None => Challenge(metadataUrl, true)
      case Some(v) =>
        if v.audience.Some? && !R.AudienceAllows(v.audience.value, baseUrl, resourcePath) then Challenge(metadataUrl, true)
        else Allowed
  }

  /** The gate decision for a request whose path belongs to no OAuth route. */
  function GateH2(context: Context, now: int, authorization: Option<string>, baseUrl: string, locations: seq<string>, path: string)
    : (r: GateResult)
  {
    CheckBearer(context, now, authorization, context.BaseUrl(baseUrl), R.ResourceOfRequest(locations, path))
  }
}
