/** What travels through the browser: the consent form that comes back and the redirect
    the client reads its answer from (src/oauth/consent_page.rs, src/oauth/handle_authorize.rs). */
module ConsentForm {
  import opened Prelude
  import opened Text
  import opened Form
  import opened OAuthServer
  import Codes = AuthCodes
  import Utf8

  // ----- the form that comes back

  function UnescapeFields(fields: seq<Field>): (r: seq<Field>)
  {
    seq(|fields|, i requires 0 <= i < |fields| => Field(HtmlUnescape(fields[i].name), HtmlUnescape(fields[i].value)))
  }

  lemma UnescapeUndoesEscapeFields(fields: seq<Field>)
    ensures UnescapeFields(EscapeFields(fields)) == fields
  {
    forall i | 0 <= i < |fields| ensures UnescapeFields(EscapeFields(fields))[i] == fields[i] {
      UnescapeUndoesEscape(fields[i].name);
      UnescapeUndoesEscape(fields[i].value);
    }
  }

  /** Granting what was granted grants it again. */
  lemma GrantedScopeIdempotent(requested: Option<string>)
    ensures GrantedScope(Some(GrantedScope(requested))) == GrantedScope(requested)
  {
    TokensOfWord(MCP_SCOPE);
    TokensOfWord(OFFLINE_SCOPE);
    TokensSeparated(MCP_SCOPE, ' ', OFFLINE_SCOPE);
    assert MCP_SCOPE + " " + OFFLINE_SCOPE == MCP_SCOPE + [' '] + OFFLINE_SCOPE;
    assert OFFLINE_SCOPE in Tokens(MCP_SCOPE + " " + OFFLINE_SCOPE) by {
      assert (Tokens(MCP_SCOPE) + Tokens(OFFLINE_SCOPE))[1] == OFFLINE_SCOPE;
    }
    assert OFFLINE_SCOPE !in Tokens(MCP_SCOPE) by { assert MCP_SCOPE != OFFLINE_SCOPE; }
  }

  /** The fields the browser posts: the hidden ones and the password typed in. */
  function PostedFields(v: ValidatedRequest, password: string): (r: seq<Field>)
  {
    HiddenFields(v) + [Field("consent_password", password)]
  }

  /** The name of field `i` is not used before it. */
  ghost predicate FirstOfName(fields: seq<Field>, i: nat)
  {
    i < |fields| && forall j :: 0 <= j < i ==> fields[j].name != fields[i].name
  }

  lemma Posted(fields: seq<Field>, i: nat)
    requires FirstOfName(fields, i)
    ensures fields[i].name in FieldMap(fields) && FieldMap(fields)[fields[i].name] == fields[i].value
  {
    FieldMapDistinct(fields, i);
  }

  lemma FixedFieldsFirst(v: ValidatedRequest, password: string)
    ensures forall i :: 0 <= i < 6 ==> FirstOfName(PostedFields(v, password), i)
  {
    var f := PostedFields(v, password);
    assert f[0].name == "client_id" && f[1].name == "redirect_uri" && f[2].name == "response_type";
    assert f[3].name == "scope" && f[4].name == "code_challenge" && f[5].name == "code_challenge_method";
  }

  lemma OptionalFieldsFirst(v: ValidatedRequest, password: string)
    ensures forall i :: 6 <= i < |PostedFields(v, password)| ==> FirstOfName(PostedFields(v, password), i)
  {
    var f := PostedFields(v, password);
    var n := |f| - 1;
    assert f[0].name == "client_id" && f[1].name == "redirect_uri" && f[2].name == "response_type";
    assert f[3].name == "scope" && f[4].name == "code_challenge" && f[5].name == "code_challenge_method";
    assert f[n].name == "consent_password";
    assert v.state.Some? ==> f[6].name == "state";
    assert v.resource.Some? ==> f[n - 1].name == "resource";
    assert "state" != "scope";
    assert "resource" != "state";
  }

  lemma NotPosted(v: ValidatedRequest, password: string)
    ensures v.state.None? ==> "state" !in FieldMap(PostedFields(v, password))
    ensures v.resource.None? ==> "resource" !in FieldMap(PostedFields(v, password))
  {
    var f := PostedFields(v, password);
    assert f[0].name == "client_id" && f[1].name == "redirect_uri" && f[2].name == "response_type";
    assert f[3].name == "scope" && f[4].name == "code_challenge" && f[5].name == "code_challenge_method";
    assert "state" != "scope" && "resource" != "state";
    if v.state.None? { FieldMapNames(f, "state"); }
    if v.resource.None? { FieldMapNames(f, "resource"); }
  }

  /** The parameters the posted form is read as. */
  lemma PostedParams(v: ValidatedRequest, password: string)
    requires v.state != Some("") && v.resource != Some("")
    ensures ReadParams(FieldMap(PostedFields(v, password)))
         == AuthorizeParams(v.clientId, v.redirectUri, v.state, "code", v.codeChallenge, "S256", v.resource, Some(v.grantedScope))
    ensures GetParam(FieldMap(PostedFields(v, password)), "consent_password") == password
  {
    var f := PostedFields(v, password);
    var n := |f| - 1;
    FixedFieldsFirst(v, password);
    OptionalFieldsFirst(v, password);
    NotPosted(v, password);
    Posted(f, 0); Posted(f, 1); Posted(f, 2); Posted(f, 3); Posted(f, 4); Posted(f, 5);
    if v.state.Some? { Posted(f, 6); }
    if v.resource.Some? { Posted(f, n - 1); }
    Posted(f, n);
  }

  lemma {:induction false} NothingToComplain(p: AuthorizeParams, base: string, scope: Option<string>)
    requires Complaint(p, base).None?
    ensures Complaint(p.(responseType := "code", challengeMethod := "S256", scope := scope), base).None?
  {
  }

  lemma {:induction false} AcceptedParts(context: Context, p: AuthorizeParams, base: string, v: ValidatedRequest)
    requires ValidateParams(context, p, base) == Accepted(v)
    ensures context.ChecksClientId(p.clientId) && IsAllowedRedirectUri(p.redirectUri) && Complaint(p, base).None?
    ensures v == ValidatedRequest(p.clientId, p.redirectUri, p.state, p.codeChallenge, GrantedScope(p.scope), p.resource)
  {
  }

  lemma {:induction false} RevalidatesAs(context: Context, p: AuthorizeParams, base: string, v: ValidatedRequest)
    requires ValidateParams(context, p, base) == Accepted(v)
    ensures ValidateParams(context, AuthorizeParams(v.clientId, v.redirectUri, v.state, "code", v.codeChallenge, "S256",
                                                     v.resource, Some(v.grantedScope)), base) == Accepted(v)
  {
    AcceptedParts(context, p, base, v);
    NothingToComplain(p, base, Some(v.grantedScope));
    GrantedScopeIdempotent(p.scope);
  }

  /** The body of the POST the browser sends for the fields a consent page shows,
      whichever form encoder it uses. */
  ghost predicate PostsBack(shown: seq<Field>, password: string, body: bytes)
  {
    exists es :: EncodesFields(es, UnescapeFields(shown) + [Field("consent_password", password)]) && body == Utf8.Encode(JoinPairs(es))
  }

  lemma PostedBody(v: ValidatedRequest, password: string, post: Request)
    requires post.verb.Post? && PostsBack(EscapeFields(HiddenFields(v)), password, post.body)
    ensures post.Parameters() == FieldMap(PostedFields(v, password))
  {
    UnescapeUndoesEscapeFields(HiddenFields(v));
    var es :| EncodesFields(es, PostedFields(v, password)) && post.body == Utf8.Encode(JoinPairs(es));
    Utf8.DecodeUndoesEncode(JoinPairs(es));
    ParseUndoesJoin(es, PostedFields(v, password));
  }

  lemma AcceptedGetShows(context: Context, codes: Codes.Store, now: int, get: Request, v: ValidatedRequest, newCode: string, victim: string)
    requires get.verb.Get? && Validate(context, get.Parameters(), context.BaseUrl(get.baseUrl)) == Accepted(v)
    ensures HandleAuthorize(context, codes, now, get, newCode, victim).response.body == ConsentPage(EscapeFields(HiddenFields(v)), false)
  {
  }

  lemma AcceptedPostIssues(context: Context, codes: Codes.Store, now: int, post: Request, v: ValidatedRequest, newCode: string, victim: string)
    requires post.verb.Post? && Validate(context, post.Parameters(), context.BaseUrl(post.baseUrl)) == Accepted(v)
    requires context.ChecksConsentPassword(GetParam(post.Parameters(), "consent_password"))
    ensures HandleAuthorize(context, codes, now, post, newCode, victim)
         == Outcome(Codes.Add(codes, now, victim, newCode, IssuedCode(v, now)), Redirect(CodeRedirectUrl(v.redirectUri, newCode, v.state)))
  {
  }

  lemma PostValidatesAgain(context: Context, parameters: map<string, string>, base: string, v: ValidatedRequest, password: string)
    requires Validate(context, parameters, base) == Accepted(v)
    ensures Validate(context, FieldMap(PostedFields(v, password)), base) == Accepted(v)
    ensures GetParam(FieldMap(PostedFields(v, password)), "consent_password") == password
  {
    PostedParams(v, password);
    RevalidatesAs(context, ReadParams(parameters), base, v);
  }

  /** The state of the server when it answers a request, and what chance would choose. */
  datatype Moment = Moment(codes: Codes.Store, now: int, newCode: string, victim: string)

  function Answer(context: Context, at: Moment, request: Request): (r: Outcome)
  {
    HandleAuthorize(context, at.codes, at.now, request, at.newCode, at.victim)
  }

  /** Whatever an accepted GET shows, posting its form back at any later moment, whatever
      happened to the store in between, validates to exactly the same request, so with the
      right password the issued code stores precisely what was shown. */
  lemma FormComesBackUnchanged(context: Context, shownAt: Moment, postedAt: Moment, get: Request, post: Request,
                               v: ValidatedRequest, password: string)
    requires get.verb.Get? && post.verb.Post? && context.BaseUrl(get.baseUrl) == context.BaseUrl(post.baseUrl)
    requires Validate(context, get.Parameters(), context.BaseUrl(get.baseUrl)) == Accepted(v)
    requires var shown := Answer(context, shownAt, get).response.body;
             shown.ConsentPage? && PostsBack(shown.fields, password, post.body)
    ensures Validate(context, post.Parameters(), context.BaseUrl(post.baseUrl)) == Accepted(v)
    ensures GetParam(post.Parameters(), "consent_password") == password
    ensures context.ChecksConsentPassword(password) ==>
              Answer(context, postedAt, post)
              == Outcome(Codes.Add(postedAt.codes, postedAt.now, postedAt.victim, postedAt.newCode, IssuedCode(v, postedAt.now)),
                         Redirect(CodeRedirectUrl(v.redirectUri, postedAt.newCode, v.state)))
  {
    AcceptedGetShows(context, shownAt.codes, shownAt.now, get, v, shownAt.newCode, shownAt.victim);
    PostedBody(v, password, post);
    PostValidatesAgain(context, get.Parameters(), context.BaseUrl(get.baseUrl), v, password);
    if context.ChecksConsentPassword(password) {
      AcceptedPostIssues(context, postedAt.codes, postedAt.now, post, v, postedAt.newCode, postedAt.victim);
    }
  }

  // ----- the redirect the client reads

  /** The query of a URL, without its fragment. */
  function QueryOf(url: string): (r: string)
  {
    var whole := url[..FirstIndex(url, '#', 0)];
    var q := FirstIndex(whole, '?', 0);
    if q == |whole| then "" else whole[q + 1..]
  }

  /** The parameters the client finds in the URL it is redirected to. */
  function ClientParams(url: string): (r: map<string, string>) { ParseForm(QueryOf(url)) }

  predicate IsPlainName(s: string) { forall i :: 0 <= i < |s| ==> IsUnreserved(s[i]) }

  lemma {:induction false} PlainNameEncodesItself(s: string)
    requires IsPlainName(s)
    ensures PercentEncode(s) == s
  {
    if s != [] {
      AsciiByte(s[0], s[1..]);
      assert [s[0]] + s[1..] == s;
      var b := Utf8.Encode(s);
      assert b[1..] == Utf8.Encode(s[1..]);
      PlainNameEncodesItself(s[1..]);
    }
  }

  lemma PlainName(s: string)
    requires IsPlainName(s)
    ensures Encodes(s, s)
  {
    PlainNameEncodesItself(s);
    PercentEncodes(s);
  }

  lemma QueryAfterFragment(uri: string, more: string)
    requires '#' in uri
    ensures QueryOf(uri + more) == QueryOf(uri)
  {
    var h := FirstIndex(uri, '#', 0);
    FirstIndexUnique(uri + more, '#', 0, h);
    assert (uri + more)[..h] == uri[..h];
  }

  lemma QueryOfWhole(url: string, q: nat)
    requires '#' !in url && q < |url| && url[q] == '?' && '?' !in url[..q]
    ensures QueryOf(url) == url[q + 1..]
  {
    FirstIndexAbsent(url, '#', 0);
    assert url[..|url|] == url;
    forall i | 0 <= i < q ensures url[i] != '?' { assert url[..q][i] == url[i]; }
    FirstIndexUnique(url, '?', 0, q);
  }

  lemma QueryOfNone(url: string)
    requires '?' !in url
    ensures QueryOf(url) == ""
  {
    FirstIndexAbsent(url[..FirstIndex(url, '#', 0)], '?', 0);
  }

  lemma QueryAfterQuery(uri: string, query: string)
    requires '#' !in query && '#' !in uri && '?' in uri
    ensures QueryOf(uri + ("&" + query)) == QueryOf(uri) + "&" + query
  {
    var url := uri + ("&" + query);
    var q := FirstIndex(uri, '?', 0);
    assert '?' !in uri[..q] && url[..q] == uri[..q];
    QueryOfWhole(uri, q);
    QueryOfWhole(url, q);
    assert url[q + 1..] == uri[q + 1..] + "&" + query;
  }

  lemma QueryAfterPath(uri: string, query: string)
    requires '#' !in query && '#' !in uri && '?' !in uri
    ensures QueryOf(uri + ("?" + query)) == query
  {
    var url := uri + ("?" + query);
    assert url[..|uri|] == uri;
    QueryOfWhole(url, |uri|);
    assert url[|uri| + 1..] == query;
  }

  lemma AppendQueryAssociates(uri: string, query: string)
    ensures AppendQuery(uri) + query == uri + ((if '?' in uri then "&" else "?") + query)
  {
  }

  /** Appending a query keeps the parameters the client already put there, and they win
      over the new ones; a fragment in the URI hides the new ones altogether. */
  lemma AppendedQuery(uri: string, query: string)
    requires '#' !in query
    ensures ClientParams(AppendQuery(uri) + query) == if '#' in uri then ClientParams(uri) else ParseForm(query) + ClientParams(uri)
  {
    AppendQueryAssociates(uri, query);
    if '#' in uri {
      QueryAfterFragment(uri, (if '?' in uri then "&" else "?") + query);
    } else if '?' in uri {
      QueryAfterQuery(uri, query);
      ParseFormJoined(QueryOf(uri), query);
    } else {
      QueryAfterPath(uri, query);
      QueryOfNone(uri);
      ParseNothing();
    }
  }

  lemma PercentEncodedIsPlain(s: string)
    ensures '#' !in PercentEncode(s)
  {
    PercentBytesAlphabet(Utf8.Encode(s));
  }

  function StateMap(state: Option<string>): (r: map<string, string>)
  {
    if state.Some? then map["state" := state.value] else map[]
  }

  lemma OnePair(name: string, value: string)
    requires IsPlainName(name)
    ensures '#' !in name + "=" + PercentEncode(value)
    ensures ParseForm(name + "=" + PercentEncode(value)) == map[name := value]
  {
    PlainName(name);
    PercentEncodes(value);
    PercentEncodedIsPlain(value);
    ParseOnePair(name, name, PercentEncode(value), value);
  }

  lemma StateSuffixShape(state: string, first: string)
    ensures first + StateSuffix(Some(state)) == first + "&" + ("state" + "=" + PercentEncode(state))
  {
    assert "&state=" == "&" + ("state" + "=");
    var e := PercentEncode(state);
    assert "&" + ("state" + "=") + e == "&" + ("state" + "=" + e);
    assert first + ("&" + ("state" + "=" + e)) == first + "&" + ("state" + "=" + e);
  }

  lemma HashFree(a: string, b: string)
    requires '#' !in a && '#' !in b
    ensures '#' !in a + "&" + b
  {
  }

  lemma DisjointMerge(name: string, value: string, state: string)
    requires name != "state"
    ensures map["state" := state] + map[name := value] == map[name := value] + map["state" := state]
  {
  }

  /** One parameter and the state, as the client reads them. */
  lemma ReplyParams(name: string, value: string, state: Option<string>)
    requires IsPlainName(name) && name != "state"
    ensures var query := name + "=" + PercentEncode(value) + StateSuffix(state);
            '#' !in query && ParseForm(query) == map[name := value] + StateMap(state)
  {
    OnePair(name, value);
    var first := name + "=" + PercentEncode(value);
    if state.Some? {
      StatePair(first, name, value, state.value);
    } else {
      assert first + StateSuffix(state) == first;
    }
  }

  lemma StatePair(first: string, name: string, value: string, state: string)
    requires '#' !in first && ParseForm(first) == map[name := value] && name != "state"
    ensures '#' !in first + StateSuffix(Some(state))
    ensures ParseForm(first + StateSuffix(Some(state))) == map[name := value] + map["state" := state]
  {
    StateSuffixShape(state, first);
    OnePair("state", state);
    JoinedForms(first, "state" + "=" + PercentEncode(state));
    DisjointMerge(name, value, state);
  }

  lemma JoinedForms(first: string, second: string)
    requires '#' !in first && '#' !in second
    ensures '#' !in first + "&" + second
    ensures ParseForm(first + "&" + second) == ParseForm(second) + ParseForm(first)
  {
    HashFree(first, second);
    ParseFormJoined(first, second);
  }

  /** From the redirect after a consent the client reads its own parameters, and the code
      and the state under every name it did not define itself, unless the redirect URI
      has a fragment: then the code never arrives. */
  lemma ClientReadsCode(uri: string, code: string, state: Option<string>)
    ensures ClientParams(CodeRedirectUrl(uri, code, state))
         == if '#' in uri then ClientParams(uri) else map["code" := code] + StateMap(state) + ClientParams(uri)
  {
    assert "code=" == "code" + "=";
    ReplyParams("code", code, state);
    AppendedQuery(uri, "code=" + PercentEncode(code) + StateSuffix(state));
  }

  lemma ErrorPart(error: string)
    ensures '#' !in "error=" + PercentEncode(error)
    ensures ParseForm("error=" + PercentEncode(error)) == map["error" := error]
  {
    assert "error=" == "error" + "=";
    OnePair("error", error);
  }

  lemma DescriptionPart(description: string, state: Option<string>)
    ensures var query := "error_description=" + PercentEncode(description) + StateSuffix(state);
            '#' !in query && ParseForm(query) == map["error_description" := description] + StateMap(state)
  {
    assert "error_description=" == "error_description" + "=";
    ReplyParams("error_description", description, state);
  }

  /** From an error redirect it reads the error and the state under the same conditions. */
  lemma ClientReadsError(uri: string, state: Option<string>, error: string, description: string)
    ensures ClientParams(ErrorRedirectUrl(uri, state, error, description))
         == if '#' in uri then ClientParams(uri)
            else map["error" := error] + map["error_description" := description] + StateMap(state) + ClientParams(uri)
  {
    ErrorPart(error);
    DescriptionPart(description, state);
    JoinedReply(uri, "error=" + PercentEncode(error), "error_description=" + PercentEncode(description) + StateSuffix(state));
    ErrorPairs(error, description, state);
  }

  lemma JoinedReply(uri: string, first: string, second: string)
    requires '#' !in first && '#' !in second
    ensures ClientParams(AppendQuery(uri) + (first + "&" + second))
         == if '#' in uri then ClientParams(uri) else ParseForm(second) + ParseForm(first) + ClientParams(uri)
  {
    HashFree(first, second);
    ParseFormJoined(first, second);
    AppendedQuery(uri, first + "&" + second);
  }

  lemma ErrorPairs(error: string, description: string, state: Option<string>)
    ensures map["error_description" := description] + StateMap(state) + map["error" := error]
         == map["error" := error] + map["error_description" := description] + StateMap(state)
  {
    assert "error" != "state";
  }

  /** A loopback redirect URI with a fragment is allowed, and loses every code. */
  lemma FragmentLosesCode(code: string, state: Option<string>)
    ensures IsAllowedRedirectUri("http://localhost/#cb")
    ensures ClientParams(CodeRedirectUrl("http://localhost/#cb", code, state)) == map[]
  {
    FragmentUriAllowed("http://localhost/#cb");
    LostAfterFragment("http://localhost/#cb", code, state);
  }

  lemma LostAfterFragment(uri: string, code: string, state: Option<string>)
    requires '#' in uri && '?' !in uri
    ensures ClientParams(CodeRedirectUrl(uri, code, state)) == map[]
  {
    ClientReadsCode(uri, code, state);
    QueryOfNone(uri);
    ParseNothing();
  }

  lemma FragmentUriAllowed(uri: string)
    requires uri == "http://localhost/#cb"
    ensures IsLoopbackRedirect(uri) && '#' in uri && '?' !in uri
  {
    assert uri[17] == '#';
    assert uri[|"http://"|..] == "localhost" + "/" + "#cb";
    SplitOnceAt("localhost", '/', "#cb");
    RSplitOnceAbsent("localhost", ':');
  }
}
