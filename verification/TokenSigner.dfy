/** Self-contained signed tokens, PKCE and the secret comparison (src/oauth/token_signer.rs,
    src/oauth/pkce.rs and src/oauth/secrets.rs). */
module TokenSigner {
  import opened Prelude
  import opened Text

  const VERSION := "v1"

  datatype TokenKind = Access | Refresh {
    function AsStr(): (r: string) { if Access? then "a" else "r" }

    static function Parse(src: string): (r: Option<TokenKind>)
    {
      if src == "a" then Some(Access) else if src == "r" then Some(Refresh) else None
    }
  }

  datatype VerifiedToken = VerifiedToken(scope: string, audience: Option<string>)

  datatype TokenPayload = TokenPayload(k: string, exp: int, sc: string, aud: Option<string>)

  /** The foreign functions: HMAC under the signing key, SHA-256, base64 and JSON. */
  datatype Crypto = Crypto(
    hmac: string -> bytes,
    sha256: string -> bytes,
    base64Url: bytes -> string,
    fromBase64Url: string -> Option<bytes>,
    fromBase64: string -> Option<bytes>,
    toJson: TokenPayload -> bytes,
    fromJson: bytes -> Option<TokenPayload>)
  {
    /** All that is assumed of them: decoding undoes encoding, and base64url has no dot. */
    ghost predicate Sound()
    {
      && (forall b :: fromBase64Url(base64Url(b)) == Some(b))
      && (forall b :: '.' !in base64Url(b))
      && (forall p :: fromJson(toJson(p)) == Some(p))
    }

    /** The signed part of a token. */
    function Body(p: TokenPayload): (r: string) { VERSION + "." + base64Url(toJson(p)) }

    function Token(p: TokenPayload): (r: string) { Body(p) + "." + base64Url(hmac(Body(p))) }

    function Mint(now: int, kind: TokenKind, scope: string, audience: Option<string>, ttl: int): (r: string)
    {
      Token(TokenPayload(kind.AsStr(), now + ttl, scope, audience))
    }

    /** The body a presented token carries, when its tag is the one this key gives. */
    function SignedBody(token: string): (r: Option<string>)
    {
      match RSplitOnce(token, '.')
      case None => None
      case Some((body, signature)) =>
        if !(VERSION <= body) then None
        else if fromBase64Url(signature) != Some(hmac(body)) then None
        else Some(body)
    }

    function PayloadOf(body: string): (r: Option<TokenPayload>)
    {
      match SplitOnce(body, '.')
      case None => None
      case Some((_, payload)) =>
        match fromBase64Url(payload)
        case None => None
        case Some(json) => fromJson(json)
    }

    function Verify(now: int, token: string, expected: TokenKind): (r: Option<VerifiedToken>)
    {
      match SignedBody(token)
      case None => None
      case Some(body) =>
        match PayloadOf(body)
        case None => None
        case Some(p) =>
          if TokenKind.Parse(p.k) != Some(expected) then None
          else if p.exp <= now then None
          else Some(VerifiedToken(p.sc, p.aud))
    }

    /** `verify_s256`: the challenge is the encoded hash of the verifier. */
    predicate VerifyS256(verifier: string, challenge: string)
    {
      verifier != "" && challenge != "" && base64Url(sha256(verifier)) == challenge
    }
  }

  lemma PayloadOfBody(c: Crypto, p: TokenPayload)
    requires c.Sound()
    ensures c.PayloadOf(c.Body(p)) == Some(p)
  {
    SplitOnceAt(VERSION, '.', c.base64Url(c.toJson(p)));
  }

  lemma SignedBodyOfToken(c: Crypto, p: TokenPayload)
    requires c.Sound()
    ensures c.SignedBody(c.Token(p)) == Some(c.Body(p))
  {
    RSplitOnceAt(c.Body(p), '.', c.base64Url(c.hmac(c.Body(p))));
    assert VERSION <= c.Body(p);
  }

  /** A minted token verifies exactly for its own kind and before its expiry, and then
      says what it was minted with. */
  lemma VerifyMinted(c: Crypto, minted: int, kind: TokenKind, scope: string, audience: Option<string>, ttl: int,
                     now: int, expected: TokenKind)
    requires c.Sound()
    ensures c.Verify(now, c.Mint(minted, kind, scope, audience, ttl), expected)
         == if kind == expected && now < minted + ttl then Some(VerifiedToken(scope, audience)) else None
  {
    var p := TokenPayload(kind.AsStr(), minted + ttl, scope, audience);
    SignedBodyOfToken(c, p);
    PayloadOfBody(c, p);
  }

  /** Distinct payloads give distinct tokens. */
  lemma TokenInjective(c: Crypto, p: TokenPayload, q: TokenPayload)
    requires c.Sound() && c.Token(p) == c.Token(q)
    ensures p == q
  {
    SignedBodyOfToken(c, p);
    SignedBodyOfToken(c, q);
    PayloadOfBody(c, p);
    PayloadOfBody(c, q);
  }

  lemma OrXorZero(d: bv8, a: bv8, b: bv8)
    ensures (d | (a ^ b)) == 0 <==> d == 0 && a == b
  {
  }

  /** The comparison without an early exit decides plain equality. */
  method ConstantTimeEq(left: seq<bv8>, right: seq<bv8>) returns (equal: bool)
    ensures equal <==> left == right
  {
    if |left| != |right| { return false; }
    var difference: bv8 := 0;
    for i := 0 to |left|
      invariant difference == 0 <==> forall k :: 0 <= k < i ==> left[k] == right[k]
    {
      OrXorZero(difference, left[i], right[i]);
      difference := difference | (left[i] ^ right[i]);
    }
    equal := difference == 0;
  }
}
