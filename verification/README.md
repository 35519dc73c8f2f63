# A verified model of my-reverse-proxy

This project models the parts of my-reverse-proxy whose correctness is hardest to see
from the code, and proves what they promise. It covers six of them.

1. **The OAuth 2.1 authorization server** in front of MCP locations: the consent form,
   authorization codes, signed tokens, refresh, the bearer gate and the discovery
   documents (`Form`, `AuthCodes`, `TokenSigner`, `Routes`, `OAuthServer`, `OAuthRun`,
   `OAuthRules`, `Discovery`, `ConsentForm`).
2. **The HTTP/1.1 head**: the streaming parser and the rewriter (`HttpHead`,
   `HeadRewrite`, `Reparse`, `HeadMeaning`, `HeadFaults`, `McpPath`).
3. **The IP block-list** with its windows, thresholds and cleanup (`IpBlocklist`).
4. **The wire contract of the TCP gateway** (`Gateway`).
5. **Configuration reload** and what a listen port serves (`Ports`, `Reload`,
   `PortOrder`).
6. **The upstream connection pool and manual certificate replacement** (`UpstreamKey`,
   `Pool`, `Certificates`).

`Prelude`, `Utf8` and `Text` hold shared sequence and text functions. Text is a sequence
of Unicode scalars, as in Rust; bytes are a type of their own, and `Utf8` connects the
two. A panic of the code is a value of the model (`Panicked`), so that the proofs can say
when it happens.

What the environment decides becomes a parameter of an operation or of an event: the
clock, the random code, the order in which a hash map is walked, the entry it evicts among
equals, what connecting gives. HMAC, SHA-256, base64url and JSON are functions of which
only this is assumed (`Crypto.Sound`): decoding undoes encoding, base64url output has no
`.`, and in a run (`OAuthRun.Possible`) a token with a matching tag was signed by this
server and a new code was not used before. Times do not go back where a lemma says so.

`dafny verify dfyconfig.toml` checks the whole project.

## Findings

Each is a failure of the code as it is, with lemmas that show it and say when it happens.

- **Head parser, skipped byte.** The value of a header is taken two bytes after its colon.
  What is read is the text after the colon exactly when the first byte of that text is
  white space (`HeadFaults.ValueReadIff`). `Content-Length:15` is a body of 5
  (`HeadFaults.LengthLosesDigit`) and `Transfer-Encoding:chunked` no body at all
  (`HeadFaults.ChunkedMissed`).
- **Head parser, panic.** A framing header that ends at its colon panics
  (`HeadFaults.BareColonPanics`); `HeadFaults.ParsePanicsIff` says exactly which buffers do.
- **Head parser, borrowed colon.** The colon of a header line is searched past the end of
  that line. A head stands on its own exactly when its last header line has a colon
  (`HttpHead.HeadIsSelfContained`, `HeadFaults.BodyLendsItsColon`).
- **Head parser, framing.** The last content length or chunked encoding wins
  (`HeadFaults.BodyLengthIsLastDecided`), so a content length after a chunked encoding does,
  against section 6.3 of RFC 9112 (`HeadFaults.ChunkedWinsIff`,
  `HeadFaults.LengthAfterChunkedWins`).
- **Upgrade check.** It panics on a parsed head exactly when the last `Upgrade` header ends
  at its colon or its value is a proper beginning of `websocket`
  (`HeadFaults.UpgradePanicsIff`), as on `Upgrade:` (`HeadFaults.BareUpgradePanics`) and
  `Upgrade: web` (`HeadFaults.UpgradeBeginningPanics`).
- **Removed headers.** Names are compared whole, so an authorization header with white space
  before its colon is not taken out (`HeadMeaning.TokenLineStaysIff`).
- **MCP first line.** It is checked by splitting at any white space and rewritten by
  splitting at single spaces. The rewritten line is a request line exactly when the
  original has one item before its first space and one before its second
  (`McpPath.SwappedLineIsValid`, `McpPath.DoubleSpaceBreaksLine`).
- **Redirect with a fragment.** It is accepted and loses every code
  (`ConsentForm.FragmentLosesCode`); without a fragment the client reads exactly what was
  sent (`ConsentForm.ClientReadsCode`).
- **Requested resource.** A comment says that a resource that is not on this server cannot
  be granted. One whose text merely starts with the base URL is granted
  (`OAuthRules.LookalikeResourceAccepted`); a token opens something here exactly when its
  resource is the base or goes on from it with a path (`Routes.OpensSomethingIff`).
- **Base URL with a path.** It breaks the discovery chain
  (`Routes.PathBaseDoesNotRouteBack`); with an origin the chain closes
  (`Discovery.ChallengeLeadsToMetadata`).
- **Served and routed.** A comment says that both use the same rule. `/mt` takes
  `/mt-risks`, which does not count as served (`Routes.RoutedButNotServed`). A path that is
  taken counts as served exactly when it goes on at a segment boundary
  (`Routes.RoutedIsServedIff`).
- **Order of hosts.** Sharing a port is not symmetric, so the order of a hash map can decide
  whether hosts load. They load in every order exactly when they are pairwise compatible
  (`PortOrder.AnyOrderWorksIff`, `PortOrder.OneOrderOnly`). A tcp host that comes after http
  hosts replaces them (`PortOrder.SucceedsIffOrderly`).
- **Delete.** It leaves the port a reload of the other hosts builds exactly when the type of
  the port is unchanged and the last of the others is no mcp host
  (`PortOrder.DeleteAgreesWithReloadIff`). It does not for the second of two mcp hosts
  (`PortOrder.McpDeleteDisagrees`) nor for an https1 host before an https2 host
  (`PortOrder.FirstDeleteDisagrees`).
- **Overtaken updates and deletes.** Both read the port and write it later. Two hosts of a
  new port that are both read before either is written leave only the second
  (`Reload.OvertakenUpdateIsLost`), and of two hosts that are deleted so the first is served
  again (`Reload.OvertakenDeleteIsUndone`). `Reload.WriteIsUpdateIff` and
  `Reload.WriteIsDeleteIff` say exactly when a write does what the whole operation does. The
  port invariant holds anyway (`Reload.InterleavedStaysGood`).
- **Recorded errors.** The error of a host is forgotten by a reload of its TCP port exactly
  when the host id is the port number as it is printed (`Reload.HostErrorForgottenIff`); a
  server name or a plus sign before the number keeps it (`Reload.SpellingsOfAPort`).
- **Single-label wildcards.** A certificate with a name such as `*.com` can never be
  replaced by hand, not even by one with the same names
  (`Certificates.TopLevelWildcardFreezes`, `Certificates.RenewalAcceptedIff`).
- **Overtaken uploads.** The cache is read and written under separate locks. Two uploads
  that both read before either writes can take coverage away
  (`Certificates.OvertakenUploadShrinks`). `Certificates.CommitKeepsCoverageIff` says when a
  write does, and none does that finds the certificate it read
  (`Certificates.InterleavedCoverage`).
- **Pool keys.** A key joins its parts by `|`. A gateway id with that character can share a
  key with another gateway (`UpstreamKey.GatewayIdsCollide`). Two routes can share a key
  exactly when one extends the other by a separator and a text that can be taken for a host
  (`UpstreamKey.ClashIffCollide`).
- **Block-list.** The bound of 9 hard or 59 soft failures is sharp
  (`IpBlocklist.OneFewerNeedNotBlock`).
- **Gateway frames.** A body shorter than its type is read from panics
  (`Gateway.PanicsIffShort`).

## Model

| member | source | states |
|---|---|---|
| OAuthRun.AcceptedTokenProvenance | src/oauth/bearer_gate.rs:32-56 | In every run, a request the gate lets through carries an unexpired access token that derives from one consent with the right password, through the exchange of its code with the matching PKCE verifier and redirect URI and any number of refreshes, with the scope and audience of that consent |
| OAuthRules.AcceptedTokenWasConsented | src/oauth/handle_authorize.rs:65-168 | Behind every request the gate lets through is a consent of the configured client with the password, a trusted redirect URI and a challenge, for the scope granted for what was asked and a resource that is the base URL or goes on from it with a path |
| OAuthRun.TokenOrigin | src/oauth/handle_token.rs:68-130 | Every token body the server ever signed derives from such a chain |
| OAuthRun.TokensExactly | src/oauth/handle_token.rs:25-130 | A request is answered with tokens exactly when it is a granted exchange or a granted refresh, and with which tokens |
| OAuthRun.CodeOrigin | src/oauth/handle_authorize.rs:187-198 | Every code in the store was put there by a consent, with what that consent agreed to and its own expiry |
| OAuthRun.ConsentIsUnique | src/oauth/handle_authorize.rs:187-198 | In every run a code belongs to one consent |
| OAuthRun.NoChainWithoutOffline | src/oauth/oauth_context.rs:97-122 | Without the offline scope in the consent no chain contains a refresh |
| OAuthRun.RedeemedAtMostOnce | src/oauth/auth_codes_inner.rs:53-65 | In every run a code is presented while live at most once |
| OAuthRun.RedeemBurns | src/oauth/handle_token.rs:77-107 | Presenting a live code removes it, also when the PKCE or redirect check then fails |
| OAuthRun.RedeemedInTime | src/oauth/auth_codes_inner.rs:67-69 | A redeemed code was issued by an earlier consent less than its lifetime ago |
| OAuthRun.CodeFate | src/oauth/auth_codes.rs:31-46 | Until it expires a code stays redeemable, with what was agreed, unless it is redeemed, the process restarts, or at least 255 other live codes expire no sooner when another consent comes |
| OAuthRun.StoreStaysBounded | src/oauth/auth_codes_inner.rs:37-49 | In every run the store holds at most 256 codes |
| AuthCodes.AuthCodesInner.Issue | src/oauth/auth_codes_inner.rs:37-49 | The new store is the live part of the old one, less a code that expires first when it is full, with the new code |
| AuthCodes.AuthCodesInner.Redeem | src/oauth/auth_codes_inner.rs:53-65 | Takes the code out of the live part of the store and returns what was issued under it |
| AuthCodes.RemovalIsInvisible | src/oauth/auth_codes_inner.rs:67-69 | Removing the expired codes changes nothing about any later redemption or addition |
| AuthCodes.AuthCodesInner.OldestCode | src/oauth/auth_codes_inner.rs:71-77 | Finds a code no other code expires before, and none only in an empty store |
| AuthCodes.AddStaysBounded | src/oauth/auth_codes_inner.rs:37-49 | Adding to a store of at most 256 codes leaves at most 256 |
| AuthCodes.DroppedOnlyWhenFull | src/oauth/auth_codes_inner.rs:37-49 | A live code is dropped by an addition only when at least 255 other live codes expire no sooner |
| TokenSigner.VerifyMinted | src/oauth/token_signer.rs:76-132 | A minted token verifies exactly for its own kind and before its expiry, and then yields its scope and audience |
| TokenSigner.TokenInjective | src/oauth/token_signer.rs:76-97 | Different payloads give different tokens |
| TokenSigner.ConstantTimeEq | src/oauth/secrets.rs:38-50 | The comparison without early exit decides equality |
| Discovery.ChallengeLeadsToMetadata | src/http_proxy_pass/handle_oauth.rs:64-86 | For every origin base and every routed request, the URL in the challenge routes back to the metadata of that location and is answered with its resource |
| Discovery.AuthorizeAcceptsAdvertised | src/oauth/handle_authorize.rs:143-158 | Authorization accepts the advertised resource wherever it accepts the request without one, and changes nothing else |
| Discovery.AdvertisedTokenOpensGate | src/oauth/bearer_gate.rs:81-116 | A token for an advertised resource opens the gate exactly before its expiry and for requests whose resource lies at or below that location |
| Discovery.AdvertisedTokenOpensItsLocation | src/http_proxy_pass/handle_oauth.rs:64-86 | It opens every request routed to the location it was advertised for |
| Discovery.ChallengeToOpenGate | src/http_proxy_pass/handle_oauth.rs:64-86 | In every run, a client that is challenged, follows the challenge, gets consent for the resource it finds and exchanges the code is let through with the token until it expires |
| Routes.MetadataUrlRoutesBack | src/oauth/metadata.rs:66-86 | For every origin and every normal path the metadata URL routes back to that path |
| Routes.PathBaseDoesNotRouteBack | src/oauth/metadata.rs:66-86 | For a base with a path of its own it never does |
| Routes.LocationIsServed | src/oauth/handle_oauth_request.rs:60-80 | The normal path of every location counts as served |
| Routes.SearchLocation | src/configurations/http_endpoint_info.rs:143-157 | The loop finds the first location whose path starts the request path, ignoring case |
| Routes.RoutedIsServedIff | src/oauth/handle_oauth_request.rs:58-80 | A path that a location takes counts as served by it exactly when it goes on at a segment boundary |
| Routes.RoutedButNotServed | src/oauth/handle_oauth_request.rs:58-80 | A location takes a path that does not count as served by it |
| Routes.AudienceIsSegmentPrefix | src/oauth/bearer_gate.rs:81-116 | On normal paths an audience allows a resource exactly when its segments, ignoring ASCII case, are a prefix of the segments of the resource |
| Routes.OpensSomethingIff | src/oauth/bearer_gate.rs:81-116 | A token opens something on this server exactly when its audience is the base or goes on from it with a path |
| Routes.BelowIsSegmentPrefix | src/oauth/handle_oauth_request.rs:60-80 | Lying at or below a path is being a prefix segment by segment |
| Routes.AudienceTransitive | src/oauth/bearer_gate.rs:81-116 | Audiences are transitive |
| Routes.SiblingStaysClosed | src/oauth/bearer_gate.rs:81-116 | A token never opens a location that differs from its own at some segment |
| Routes.NormalizeResourcePath | src/oauth/oauth_route.rs:83-95 | The result is a normal path, and a normal path is left alone |
| ConsentForm.FormComesBackUnchanged | src/oauth/handle_authorize.rs:15-168 | For every accepted GET, posting back the hidden fields of the page with the password, at any moment and with any store and form encoder, issues a code that stores exactly the request that was shown |
| ConsentForm.GrantedScopeIdempotent | src/oauth/oauth_context.rs:83-93 | Granting a granted scope changes nothing |
| ConsentForm.ClientReadsCode | src/oauth/handle_authorize.rs:187-208 | The client reads from the redirect the code and the state under every name it did not define itself, unless its URI has a fragment |
| ConsentForm.ClientReadsError | src/oauth/handle_authorize.rs:210-229 | The same for an error redirect with the error, its description and the state |
| ConsentForm.AppendedQuery | src/oauth/handle_authorize.rs:233-237 | Appending a query keeps the parameters already there and adds the new ones, in every case of the URI |
| ConsentForm.FragmentLosesCode | src/oauth/redirect_uri.rs:10-46 | A loopback URI with a fragment is allowed and its client reads nothing |
| OAuthRules.RedirectsOnlyToTrusted | src/oauth/handle_authorize.rs:78-104 | Whatever is asked, the server redirects only authorization requests of the configured client, to their own trusted redirect URI with something added to its query |
| OAuthRules.ErrorGoesBackIffTrusted | src/oauth/handle_authorize.rs:78-158 | A rejected request is sent back to its redirect URI exactly when client and URI are trusted, as section 4.1.2.1 of RFC 6749 demands |
| OAuthRules.FailureReportedIff | src/oauth/handle_token.rs:25-66 | The block-list is told of a failure exactly when presented credentials or the consent password are wrong |
| OAuthRules.LookalikeResourceAccepted | src/oauth/handle_authorize.rs:143-158 | A resource that only starts with the text of the base URL is accepted wherever the request is accepted without it, and a token for it opens nothing |
| Form.DecodeForm | src/oauth/form.rs:35-67 | The index-driven loop computes the form decoding |
| Form.EncodePercent | src/oauth/form.rs:80-93 | The loop computes the percent encoding |
| Form.ReadForm | src/oauth/form.rs:11-32 | The loop over the pairs computes the parameter map, the first of equal names winning |
| Form.DecodeUndoesPercentEncode | src/oauth/form.rs:35-93 | Decoding undoes percent encoding on every text |
| Form.ParseUndoesJoin | src/oauth/form.rs:11-32 | Parsing the joined encodings of any list of fields gives the map of the fields, for every encoder the decoder undoes |
| Form.UnescapeUndoesEscape | src/oauth/form.rs:97-112 | HTML escaping is invertible |
| Form.EscapedIsInert | src/oauth/form.rs:97-112 | Escaped text has no quote and no angle bracket |
| HttpHead.ReadHeaders | src/h1_proxy_server/h1_read_part.rs:49-74 | However a stream is cut into reads, the outcome is the parse of the whole stream |
| HttpHead.ParseHead | src/h1_utils/http_headers.rs:21-75 | The loop computes the parse that is the fold over the header lines |
| HttpHead.ParseIsStable | src/h1_utils/http_headers.rs:21-75 | A parse that does not ask for more gives the same on every extension of its buffer |
| HttpHead.HeadEndsAtFirstBlankLine | src/h1_utils/http_headers.rs:21-75 | A parsed head ends just past the first blank line |
| HttpHead.HeadIsSelfContained | src/h1_utils/http_header.rs:16-60 | A head that parses also parses without any byte after it exactly when its last header line has a colon |
| HeadRewrite.CompileHeaders | src/h1_proxy_server/h1_read_part.rs:128-292 | On every parsed head: fails exactly when some header line has no colon of its own, otherwise writes first line, kept lines in order, injected lines and blank line and answers the upgrade check, and consumes exactly the bytes the parse measured unless that check panics |
| HeadRewrite.PushLines | src/h1_proxy_server/h1_read_part.rs:128-292 | The search for the next line end never comes up empty on a parsed head, and the loop stops where the parse measured the end |
| HeadRewrite.PushFirstLineWithOtherPath | src/h1_utils/http_headers.rs:111-131 | Writes the line with exactly its second space-separated item replaced |
| HeadRewrite.CompareExactly | src/h1_utils/http_header.rs:62-88 | The comparison holds exactly when the right side starts the left, and panics exactly when the left is a proper prefix of the right |
| HeadRewrite.CompareLoop | src/h1_utils/http_header.rs:62-88 | The loop computes that comparison |
| HeadRewrite.Http1HeadersBuilder.PushHeader | src/h1_utils/http1_headers_builder.rs:63-68 | Appends one header line and its line end, and nothing else changes |
| Reparse.RewritingPreservesFraming | src/h1_proxy_server/h1_read_part.rs:128-292 | When no configured header touches framing and injected text has no line break, the rewritten head reads back, whatever follows it, as one head of its own length with the kept and injected lines and the body length of the original |
| Reparse.PlainFirstLineStays | src/h1_utils/http_first_line_verification.rs:3-108 | Without a path to replace, the first line of a parsed head is still valid |
| Reparse.ForwardedEndsWithClient | src/h1_proxy_server/h1_read_part.rs:128-292 | Every X-Forwarded-For that passes ends in a comma and the client address, and one that is the address is added when none passes |
| HeadMeaning.LengthLine | src/h1_utils/http_headers.rs:62-63 | A content length written as name, colon, one space and digits is the body length whatever was said before |
| HeadMeaning.ChunkedLine | src/h1_utils/http_headers.rs:64-68 | The word chunked in any case, written after name, colon and one space, makes the body chunked whatever was said before |
| HeadFaults.BodyLengthIsLastDecided | src/h1_utils/http_headers.rs:43-74 | The body length of a parsed head is what its last readable content length or chunked encoding says, and every other line leaves it alone, with or without a colon |
| HeadFaults.ChunkedWinsIff | src/h1_utils/http_headers.rs:43-74 | A chunked encoding decides a parsed head exactly when no content length comes after the last one |
| HeadFaults.LengthAfterChunkedWins | src/h1_utils/http_headers.rs:62-68 | Every head with a chunked encoding and then a content length is framed by the length |
| HeadFaults.ValueReadIff | src/h1_utils/http_header.rs:37-44 | The value read is the trimmed text after the colon exactly when the first byte of that text is white space |
| HeadFaults.LengthLosesDigit | src/h1_utils/http_header.rs:53-59 | Every head whose content length follows the colon at once is framed by the number without its first digit |
| HeadFaults.ChunkedMissed | src/h1_utils/http_header.rs:37-44 | Every head whose word chunked follows the colon at once has no body |
| HeadFaults.ParsePanicsIff | src/h1_utils/http_headers.rs:21-75 | Parsing panics exactly when the first line is valid and the first framing header that cannot be read ends at its colon, among the lines that have arrived |
| HeadFaults.BareColonPanics | src/h1_utils/http_header.rs:37-44 | A framing header that ends at its colon makes the parse panic whatever follows |
| HeadFaults.BodyLendsItsColon | src/h1_utils/http_header.rs:16-25 | Every head of a line without a colon parses before a body with one, and does not parse alone |
| HeadFaults.RequestLineIsGood | src/h1_utils/http_first_line_verification.rs:3-108 | Every method, target and version in printable characters, one space apart, are a first line, so the heads above exist |
| HeadFaults.UpgradePanicsIff | src/h1_proxy_server/h1_read_part.rs:280-288 | On every parsed head the upgrade check panics exactly when the last upgrade header ends at its colon or its value is a proper beginning of websocket, and says yes exactly when that value starts with websocket |
| HeadFaults.UpgradeBeginningPanics | src/h1_utils/http_header.rs:62-88 | Every head of one header, an upgrade to a proper beginning of websocket, parses, and the upgrade check panics on it |
| HeadFaults.BareUpgradePanics | src/h1_proxy_server/h1_read_part.rs:280-288 | Every head of one header, an upgrade that ends at its colon, parses, and the upgrade check panics on it |
| HeadMeaning.PositionsAreLastValues | src/h1_utils/http_header.rs:46-51 | The recorded host, cookie and upgrade positions hold the value of the last header with that name |
| HeadMeaning.UntouchedPasses | src/h1_proxy_server/h1_read_part.rs:166-216 | A header no rule is about passes byte for byte in its place among the others |
| HeadMeaning.RemovedNeverPasses | src/configurations/modify_headers_config.rs:89-103 | No header passes under a name that is to be removed |
| HeadMeaning.TokenStaysHere | src/configurations/http_endpoint_info.rs:91-98 | Behind the oauth gate, whatever the client sends and whatever is configured, a header of the rewritten head whose name before the colon is authorization, in any case, is one the settings themselves add |
| HeadMeaning.TokenLineStaysIff | src/configurations/modify_headers_config.rs:89-103 | Behind the oauth gate a line whose name is authorization followed by white space, not named so by the settings, is taken out exactly when there is no white space, and otherwise passes as it is |
| McpPath.SwappedLineIsValid | src/h1_utils/http_headers.rs:111-131 | A request line with a replaced path is a request line exactly when it has one item before each of its first two spaces, or no space |
| McpPath.PathSwappedIffWellSpaced | src/h1_utils/http_first_line_verification.rs:3-108 | In that case it has the same method and version and the new path |
| McpPath.DoubleSpaceBreaksLine | src/h1_utils/http_headers.rs:111-131 | Every request line with two spaces after the method is a valid first line and becomes one that is not |
| IpBlocklist.Blocklist.IsBlocked | src/app/ip_blocklist.rs:71-83 | Answers what the replay of the event log says about the address |
| IpBlocklist.Blocklist.RegisterSuccess | src/app/ip_blocklist.rs:85-88 | Keeps the entries in agreement with the log extended by the success |
| IpBlocklist.Blocklist.Unblock | src/app/ip_blocklist.rs:90-93 | Keeps agreement with the log extended by the unblock, and tells whether anything was known of the address |
| IpBlocklist.Blocklist.RegisterFailure | src/app/ip_blocklist.rs:95-143 | Keeps the entries in agreement with the extended log, and reports exactly a new block |
| IpBlocklist.Blocklist.CleanUp | src/app/ip_blocklist.rs:157-174 | Keeps agreement, changes no current answer and counts the blocked addresses |
| IpBlocklist.BlockHasCause | src/app/ip_blocklist.rs:95-143 | A block has at least 5 hard or 30 soft failures in a span under 16 seconds, ended less than five minutes ago, with no success or unblock since they began |
| IpBlocklist.EnoughFailuresBlock | src/app/ip_blocklist.rs:95-143 | Any 9 hard or 59 soft failures in a span under 16 seconds block until five minutes after the first of them, whatever else happens, unless a success or an unblock comes |
| IpBlocklist.BlockLasts | src/app/ip_blocklist.rs:95-143 | From a failure that reaches 5 hard or 30 soft ones in its window the address stays blocked for five minutes, whatever else happens, unless a success or an unblock comes |
| IpBlocklist.OneFewerNeedNotBlock | src/app/ip_blocklist.rs:95-143 | 8 hard or 58 soft failures under the same conditions can leave the address unblocked |
| IpBlocklist.SaturationNeverShows | src/app/ip_blocklist.rs:95-143 | Saturating 16-bit counters give the answers unbounded ones would |
| IpBlocklist.CleanupIsInvisible | src/app/ip_blocklist.rs:157-174 | Two runs that differ only in their cleanup calls give the same answers at every later moment |
| Gateway.RoundTripIffFits | src/tcp_gateway/gateway_contracts.rs:295-407 | Parsing a written contract gives it back exactly when its fields fit the wire |
| Gateway.ParsedFits | src/tcp_gateway/gateway_contracts.rs:99-289 | Whatever parses fits the wire |
| Gateway.PanicsIffShort | src/tcp_gateway/gateway_contracts.rs:99-289 | A body panics exactly when it is shorter than its type is read from; the certificate types never do |
| Gateway.FramesAreSelfDelimiting | src/tcp_gateway/gateway_contracts.rs:295-407 | Equal streams of frames carry equal lists of contracts |
| Gateway.ReencodesWhatWasRead | src/tcp_gateway/gateway_contracts.rs:196-269 | On every byte string, what a certificate branch returns re-encodes to a prefix of the bytes it was given |
| Gateway.IdCountBound | src/tcp_gateway/gateway_contracts.rs:211-232 | A certificate request yields at most (length - 4) / 4 ids |
| Gateway.ReadCertIds | src/tcp_gateway/gateway_contracts.rs:211-232 | The offset-driven loop reads the counted list of length-prefixed ids |
| Gateway.WriteIds | src/tcp_gateway/gateway_contracts.rs:379-387 | The loop writes the count and the length-prefixed ids |
| Reload.ReloadsAgree | src/flows/reload_port_configurations.rs:3-56 | Whenever the targeted reload of a port succeeds, the full reload over the same hosts builds the same entry, and none where the targeted one removes it |
| Reload.TargetSucceedsIff | src/flows/reload_port_configurations.rs:3-56 | The targeted reload succeeds exactly when every host id parses and no host of the port is an error of the full reload |
| Reload.ListensIff | src/flows/load_everything_from_settings.rs:21-83 | After a full reload a port is listened on exactly when some host of it joined |
| Reload.ErrorsExactly | src/flows/load_everything_from_settings.rs:55-71 | The recorded errors are exactly the hosts that did not join |
| Reload.RunStaysGood | src/configurations/http_listen_port_configuration.rs:15-61 | After every run of reloads, updates and deletes each HTTP or MCP port has endpoints, with distinct host strings, all on that port and compatible with its type |
| Reload.AppConfiguration.LoadEverything | src/flows/load_everything_from_settings.rs:21-83 | The loop over local maps and the swap compute the full reload and keep the invariant |
| Reload.AppConfiguration.ReloadOne | src/flows/reload_port_configurations.rs:58-115 | The loop that gives up at the first failure computes the targeted reload of a TCP port or unix socket and keeps the invariant |
| Reload.AppConfiguration.UpdateHost | src/scripts/update_host_configuration.rs:11-74 | Merges one host into the live port and says so, or changes nothing and fails, and keeps the invariant |
| Reload.AppConfiguration.DeleteHost | src/scripts/delete_http_endpoint_if_exists.rs:3-80 | Takes one host out, or the port with its last host, fails exactly for an id that does not parse, and keeps the invariant |
| Reload.DeleteUndoesUpdate | src/scripts/delete_http_endpoint_if_exists.rs:29-62 | Deleting an http host right after it was added gives back every port as it was |
| Reload.AppConfiguration.Answer | src/configurations/http_listen_port_configuration.rs:63-88 | Never panics, and answers only with an endpoint of that port |
| PortOrder.DeleteAgreesWithReloadIff | src/scripts/delete_http_endpoint_if_exists.rs:29-62 | Deleting a host leaves the port a reload of the other hosts builds exactly when the type of the port still comes from the same kind of host and the last of the others is no mcp host |
| PortOrder.McpDeleteDisagrees | src/scripts/delete_http_endpoint_if_exists.rs:29-62 | Two mcp hosts load, and so does the first alone; deleting the second leaves an http port where the reload builds an mcp port |
| PortOrder.FirstDeleteDisagrees | src/scripts/delete_http_endpoint_if_exists.rs:29-62 | An https1 and an https2 host load, and so does the second alone; deleting the first leaves a port of type https1 where the reload opens one of type https2 |
| Reload.HostErrorForgottenIff | src/flows/reload_port_configurations.rs:29-45 | A successful reload of its port forgets the error of a host exactly when the port is a unix socket or the host id is the printed port number |
| Reload.SpellingsOfAPort | src/configurations/host_str.rs:22-53 | For every port the bare number, a plus sign before it and a server name before it are hosts of that port, and only the first is the printed number |
| Reload.FullReloadForgetsIff | src/flows/load_everything_from_settings.rs:76-83 | A full reload keeps the error of a host exactly when the host fails again |
| Reload.InterleavedStaysGood | src/scripts/update_host_configuration.rs:16-71 | The port invariant holds after every interleaving of the reads and writes of updates and deletes with reloads |
| Reload.PendingWasRead | src/scripts/update_host_configuration.rs:16-43 | In every interleaving what is about to be written is what an update or a delete computed from the configuration it read, which satisfied the port invariant |
| Reload.WriteIsUpdateIff | src/scripts/update_host_configuration.rs:16-71 | A write leaves the ports and errors the whole update leaves exactly when the host is a tcp host, or the live port is no tcp port and has the type, the endpoints of other hosts and the place for this host that were read |
| Reload.WriteIsDeleteIff | src/scripts/delete_http_endpoint_if_exists.rs:11-77 | The write of a delete leaves what the whole delete leaves exactly when the live port has the other endpoints that were read and, where there are any, the same type, and is no mcp port without the host |
| Reload.UpdateServesWhatWasRead | src/scripts/update_host_configuration.rs:16-71 | After the write of an http host, an endpoint of another host is served exactly when it was there as the port was read |
| Reload.DeleteServesWhatWasRead | src/scripts/delete_http_endpoint_if_exists.rs:11-77 | After the write of a delete, an endpoint of another host is served exactly when it was there as the port was read |
| Reload.OvertakenDeleteIsUndone | src/scripts/delete_http_endpoint_if_exists.rs:11-77 | Two hosts of a port whose deletes both read before either writes: the first is served again, while one delete after the other leaves nothing |
| Reload.OvertakenUpdateIsLost | src/scripts/update_host_configuration.rs:16-71 | Two hosts of a new port that are both read before either is written leave only the second |
| Ports.InsertExactly | src/configurations/http_listen_port_configuration.rs:25-39 | Inserting replaces the endpoint with the same host string and touches no other |
| Ports.RemoveExactly | src/configurations/http_listen_port_configuration.rs:41-61 | Deleting takes out the endpoint with that host string and touches no other; it finds none exactly when there is none |
| Ports.RemoveUndoesInsert | src/configurations/http_listen_port_configuration.rs:25-61 | Deleting a host that was just added gives the port back as it was |
| Ports.CompileKeepsGood | src/scripts/compile_host_configuration.rs:13-102 | Compiling a host into a good port gives a good port |
| Ports.MergeKeepsGood | src/scripts/merge_http_configuration_with_existing_port.rs:9-60 | Merging an endpoint into a good port gives a good port configuration |
| Ports.GetHttpEndpointInfo | src/configurations/http_listen_port_configuration.rs:63-88 | With a server name the loop finds the first endpoint that answers for it; without one, the only endpoint of the port if it has no name, and a panic exactly on an empty port |
| Ports.LookupFinds | src/configurations/http_listen_port_configuration.rs:63-88 | An endpoint is found exactly when one answers, and where only one answers the order plays no part |
| PortOrder.SucceedsIffOrderly | src/scripts/merge_http_configuration_with_existing_port.rs:9-60 | A reload of a port's hosts succeeds exactly when http hosts that may join the first come before all tcp hosts |
| PortOrder.AnyOrderWorksIff | src/configurations/http_type.rs:11-39 | Hosts of a port load in every order exactly when all are tcp or each lets every other one join |
| PortOrder.ServesItsHosts | src/configurations/http_listen_port_configuration.rs:25-39 | A port of http hosts that loads serves exactly these hosts, in their order, each with its own settings |
| PortOrder.OneOrderOnly | src/configurations/http_type.rs:11-39 | An https2 and an mcp host load in one order and not in the other |
| Pool.OnePlace | src/h1_remote_connection/h1_pool_holder.rs:63-101 | In every interleaving each connection is idle under one key, held by one worker or closed, and in one such place only |
| Pool.NeverOverLimit | src/h1_remote_connection/h1_pool_holder.rs:91-101 | No idle list is ever longer than the limit |
| Pool.ReusedIsLive | src/h1_remote_connection/h1_pool_holder.rs:69-82 | A worker is given a pooled connection exactly when it is not marked disconnected at the check, and then one made for its key and put back by an earlier user |
| Pool.FlagIsTrue | src/h1_remote_connection/h1_pool_holder.rs:54-86 | Whoever uses a connection uses one made for its own key, and the reuse flag is true exactly when the connection was put back before |
| Pool.McpKeepsToItsPath | src/h1_remote_connection/upstream_state.rs:14-41 | Between routes that do not clash, an mcp worker never uses a connection made for another host or path, whatever characters these contain |
| Pool.AcquireIsSteps | src/h1_remote_connection/h1_pool_holder.rs:63-86 | Undisturbed, the steps of a worker do what the acquiring loop does |
| Pool.DrainFindsLastLive | src/h1_remote_connection/h1_pool_holder.rs:69-82 | The loop finds the last live idle connection and drops only dead ones |
| Pool.H1PoolHolder.Acquire | src/h1_remote_connection/h1_pool_holder.rs:63-86 | Returns that connection as reused, or a new one as not reused, and leaves other keys alone |
| Pool.H1PoolHolder.Release | src/h1_remote_connection/h1_pool_holder.rs:91-101 | Puts a live connection back when there is room under its key |
| UpstreamKey.SameKeySameUpstream | src/h1_remote_connection/upstream_state.rs:23-41 | For upstreams of the shape a URL has, over routes that do not clash, keys are equal exactly for the same protocol, route, host and port, and for mcp the same path |
| UpstreamKey.ClashIffCollide | src/h1_remote_connection/upstream_state.rs:103-126 | Two different routes of one protocol can share a key exactly when one extends the other by a separator and a text that can be taken for a host, or for a host and a path |
| UpstreamKey.PlainRoutesDoNotClash | src/h1_remote_connection/upstream_state.rs:103-126 | Routes without a separator never clash |
| UpstreamKey.GatewaySourceReads | src/configurations/my_reverse_proxy_remote_endpoint.rs:84-112 | Every gateway id and remote host without an arrow, printed, are read back as they were |
| UpstreamKey.GatewayIdsCollide | src/configurations/my_reverse_proxy_remote_endpoint.rs:84-108 | Settings of a gateway id with a separator and of a host with one, none with a second arrow, are split into these ids and hosts and are different gateways with the same key |
| Certificates.CoverageNeverShrinks | src/scripts/init_ssl_cert_manually.rs:79-155 | Along every run of uploads made one at a time, a host name once covered under an id stays covered |
| Certificates.EndpointsStayCovered | src/scripts/init_ssl_cert_manually.rs:100-140 | The server name of every endpoint that used an accepted certificate stays covered, whatever is uploaded later one at a time |
| Certificates.CommitKeepsCoverageIff | src/scripts/init_ssl_cert_manually.rs:93-155 | With reads and writes apart, a write keeps what is covered under its id exactly when the new certificate covers every name, but single-label wildcards, of the one that is there at the write |
| Certificates.InterleavedCoverage | src/scripts/init_ssl_cert_manually.rs:93-155 | Along every interleaving of reads and writes in which each write finds the certificate it read, a host name once covered under an id stays covered |
| Certificates.OvertakenUploadShrinks | src/scripts/init_ssl_cert_manually.rs:93-155 | Two uploads that both read before either writes are both accepted, and the second write uncovers a name of the first |
| Certificates.AcceptedIff | src/scripts/init_ssl_cert_manually.rs:41-171 | An upload is accepted exactly when its id is usable, its material parses, an endpoint uses the id, there is something to compare with, and it covers every such server name and every name of the certificate it replaces |
| Certificates.SslCertificatesCache.Replace | src/scripts/init_ssl_cert_manually.rs:41-171 | Decides as specified, with the list of uncovered names, and stores the certificate exactly when it accepts |
| Certificates.MatchTransitive | src/scripts/init_ssl_cert_manually.rs:198-213 | What covers a pattern covers everything the pattern covers |
| Certificates.CoverableIffNotTopLevel | src/scripts/init_ssl_cert_manually.rs:198-213 | Only a wildcard over a single label is not covered by itself, and then nothing covers it |
| Certificates.UniqueCovered | src/scripts/init_ssl_cert_manually.rs:175-187 | Checking the list without repetitions checks the whole list |
| Certificates.UniqueCovers | src/ssl/ssl_certificate.rs:146-150 | Dropping repeated names changes nothing about what a certificate covers |
| Certificates.UniqueIsDistinct | src/ssl/ssl_certificate.rs:146-150 | No two kept names are equal up to case |
| Certificates.GetDomains | src/ssl/ssl_certificate.rs:113-144 | The loops gather the distinct names, alternative names first |
| Certificates.RequireServerNames | src/scripts/init_ssl_cert_manually.rs:100-105 | The loop gathers the distinct server names with their source |
| Certificates.RequireExisting | src/scripts/init_ssl_cert_manually.rs:106-108 | The loop adds the names of the replaced certificate that are not there yet |
| Certificates.CheckRequired | src/scripts/init_ssl_cert_manually.rs:120-128 | The loop splits the required names into the covered and the uncovered ones |
| Certificates.NothingMissing | src/scripts/init_ssl_cert_manually.rs:120-140 | The uncovered list holds exactly the required names that are not covered |
| Certificates.TopLevelWildcardFreezes | src/scripts/init_ssl_cert_manually.rs:198-213 | A certificate with a single-label wildcard is never replaced by an upload |
| Certificates.RenewalAcceptedIff | src/scripts/init_ssl_cert_manually.rs:41-171 | A certificate with the names of the one it replaces is accepted exactly when none of them is such a wildcard |

## Left out

- Sockets, TLS, SSH, tasks and timeouts: the pool and the head reader see connections and
  chunks of bytes as given.
- The capacity of the read buffer: the buffer is the sequence of bytes received so far.
- Body transfer, chunked decoding, web-socket pumping and HTTP/2.
- The internals of SHA-256, HMAC, base64url, JSON and x509 parsing.
- Overflow of `now + ttl` in 64-bit seconds, and a serialisation error when minting, which
  cannot occur for these payloads.
- Rust panics on slicing inside a multi-byte character: text is sliced by characters.
- Response texts, most response headers, and the markup of the consent page except its
  hidden fields and their escaping.
- Newline normalisation that a browser applies to form fields.
- Parsing of white lists; the block-list takes the set of addresses.
- A reload of the OAuth settings within a run: a run has one configuration.
- The URL parser of a foreign library: of an upstream it is taken that the host ends where
  the first slash begins the path (`UpstreamKey.Readable`).
- The memory reserved for a certificate request by its unchecked count of ids.
- Certificates that a configured source renews or that are removed: a run consists of
  manual uploads.
- Listeners that follow the configuration (`sync_endpoints`), and the locations and other
  settings inside an endpoint, which are carried along unread.
- Keys of upstreams that are not proxied over HTTP, which are printed settings.
- The word `chunked` in a transfer encoding is compared ignoring ASCII case only.
- Google sign-in, allowed users, static content, settings files, MCP tools and admin pages.
