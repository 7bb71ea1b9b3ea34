/**
 * Token issuance and verification (the `auth` package): an access/refresh
 * pair of HS256 tokens per login, the refresh-token cookie and its
 * logout twin, and the check of an `Authorization: Bearer <token>` header
 * (section 2.1 of RFC 6750).
 */
module Auth {
  import opened Wrappers
  import opened Text
  import Jwt
  import opened Http

  /** `time.Duration` units, in nanoseconds. */
  const Second: int := 1_000_000_000
  const Minute: int := 60 * Second
  const Hour: int := 60 * Minute

  /** The `Auth` configuration; the two lifetimes are durations in nanoseconds. */
  datatype AuthConfig = AuthConfig(
    Issuer: string,
    Audience: string,
    Secret: string,
    TokenExpiry: int,
    RefreshExpiry: int,
    CookieDomain: string,
    CookieName: string,
    CookiePath: string)

  /** The configuration the server starts with: 15-minute access, 24-hour refresh. */
  function Deployed(issuer: string, audience: string, secret: string, cookieDomain: string): AuthConfig {
    AuthConfig(issuer, audience, secret, 15 * Minute, 24 * Hour, cookieDomain, "refresh_token", "/")
  }

  datatype JwtUser = JwtUser(ID: string, FirstName: string, UserName: string, LastName: string)

  datatype TokenPairs = TokenPairs(Token: string, RefreshToken: string)

  /** `TokenPairs{}`, returned together with an error. */
  const NoPairs: TokenPairs := TokenPairs("", "")

  /** The claims of the access token issued at `nowNano` under id `tokenID`. */
  function AccessClaims(j: AuthConfig, user: JwtUser, tokenID: string, nowNano: int): Jwt.MapClaims {
    Jwt.MapClaims(
      jti := Some(tokenID),
      name := Some(user.FirstName + " " + user.LastName),
      sub := Some(user.ID),
      aud := Some(j.Audience),
      iss := Some(j.Issuer),
      iat := Some(Jwt.UnixSeconds(nowNano)),
      typ := Some("JWT"),
      exp := Some(Jwt.UnixSeconds(nowNano + j.TokenExpiry)))
  }

  /** The claims of the matching refresh token: no name, audience, issuer or type. */
  function RefreshClaims(j: AuthConfig, user: JwtUser, tokenID: string, nowNano: int): Jwt.MapClaims {
    Jwt.NoClaims.(
      jti := Some(tokenID),
      sub := Some(user.ID),
      iat := Some(Jwt.UnixSeconds(nowNano)),
      exp := Some(Jwt.UnixSeconds(nowNano + j.RefreshExpiry)))
  }

  /** The access token issued to `user` at `nowNano` under id `tokenID`. */
  function AccessToken(j: AuthConfig, user: JwtUser, tokenID: string, nowNano: int): Jwt.Token {
    Jwt.Token("HS256", AccessClaims(j, user, tokenID, nowNano), j.Secret)
  }

  /** The matching refresh token. */
  function RefreshToken(j: AuthConfig, user: JwtUser, tokenID: string, nowNano: int): Jwt.Token {
    Jwt.Token("HS256", RefreshClaims(j, user, tokenID, nowNano), j.Secret)
  }

  /** `pair` holds the texts of the two tokens issued to `user` at `nowNano`. */
  predicate IssuedPair(pair: TokenPairs, j: AuthConfig, user: JwtUser, tokenID: string, nowNano: int) {
    pair.Token == Jwt.Encode(AccessToken(j, user, tokenID, nowNano))
    && pair.RefreshToken == Jwt.Encode(RefreshToken(j, user, tokenID, nowNano))
  }

  /** The pair `GenerateTokenPair` returns for `user` at `nowNano` under id `tokenID`. */
  function IssuedTokens(j: AuthConfig, user: JwtUser, tokenID: string, nowNano: int): (p: TokenPairs)
    ensures IssuedPair(p, j, user, tokenID, nowNano)
  {
    TokenPairs(Jwt.Encode(AccessToken(j, user, tokenID, nowNano)), Jwt.Encode(RefreshToken(j, user, tokenID, nowNano)))
  }

  /** `TokenPairs` as JSON: `access_token` and `refresh_token`. */
  function PairJson(p: TokenPairs): (d: Json)
    ensures Marshalable(d)
    ensures Member(d, "access_token") == Some(Str(p.Token)) && Member(d, "refresh_token") == Some(Str(p.RefreshToken))
  {
    var ms := [("access_token", Str(p.Token)), ("refresh_token", Str(p.RefreshToken))];
    assert ms[1..] == [("refresh_token", Str(p.RefreshToken))];
    assert "access_token"[0] != "refresh_token"[0];
    assert MemberIn(ms[1..], "refresh_token") == Some(Str(p.RefreshToken));
    Object(ms)
  }

  /**
   * `GenerateTokenPair`: one token id for both tokens; the access claims are
   * filled and signed, then the refresh claims.  A signing error
   * returns the empty pair.
   */
  method GenerateTokenPair(j: AuthConfig, user: JwtUser, tokenID: string, nowNano: int)
    returns (pair: TokenPairs, err: Option<string>)
    ensures err.Some? <==> j.Secret == ""
    ensures err.Some? ==> pair == NoPairs && err.value == "key is invalid"
    ensures err.None? ==> pair == IssuedTokens(j, user, tokenID, nowNano)
  {
    var claims := AccessClaims(j, user, tokenID, nowNano);
    var signedAccessToken := Jwt.SignedString("HS256", claims, j.Secret);
    if signedAccessToken.Failure? {
      return NoPairs, Some(signedAccessToken.error);
    }

    var refreshClaims := RefreshClaims(j, user, tokenID, nowNano);
    var signedRefreshToken := Jwt.SignedString("HS256", refreshClaims, j.Secret);
    if signedRefreshToken.Failure? {
      // the secret was accepted for the access token a moment ago
      assert false;
      return NoPairs, Some("key is invalid");
    }
    return TokenPairs(signedAccessToken.value, signedRefreshToken.value), None;
  }

  /**
   * `int(d.Seconds())`: whole seconds of a duration.  Go passes through a
   * float64 sum of the seconds and the fraction; this is that value when the
   * duration is a whole number of seconds, and the exact truncation otherwise,
   * which the float64 sum can exceed by one second.
   */
  function WholeSeconds(d: int): int {
    if d >= 0 then d / Second else -((-d) / Second)
  }

  /** `GetRefreshCookie(token)`: the refresh token as a strict, HTTP-only, secure cookie. */
  function GetRefreshCookie(j: AuthConfig, refreshToken: string, nowNano: int): (r: Cookie)
    ensures r.Name == j.CookieName && r.Path == j.CookiePath && r.Domain == j.CookieDomain
    ensures r.Value == refreshToken
    ensures r.HttpOnly && r.Secure && r.SameSite == SameSiteStrictMode
    ensures r.Expires == nowNano + j.RefreshExpiry
    ensures j.RefreshExpiry % Second == 0 ==> r.MaxAge * Second == j.RefreshExpiry
    ensures 0 <= j.RefreshExpiry ==> j.RefreshExpiry / Second <= r.MaxAge <= j.RefreshExpiry / Second + 1
  {
    Cookie(
      Name := j.CookieName,
      Path := j.CookiePath,
      Value := refreshToken,
      Expires := nowNano + j.RefreshExpiry,
      MaxAge := WholeSeconds(j.RefreshExpiry),
      SameSite := SameSiteStrictMode,
      Domain := j.CookieDomain,
      HttpOnly := true,
      Secure := true)
  }

  /** `GetExpiredRefreshCookie()`: the same cookie emptied, expired at the epoch. */
  function GetExpiredRefreshCookie(j: AuthConfig): (r: Cookie)
    ensures r.Name == j.CookieName && r.Path == j.CookiePath && r.Domain == j.CookieDomain
    ensures r.Value == "" && r.MaxAge == -1 && r.Expires == 0
    ensures r.HttpOnly && r.Secure && r.SameSite == SameSiteStrictMode
  {
    Cookie(
      Name := j.CookieName,
      Path := j.CookiePath,
      Value := "",
      Expires := 0,
      MaxAge := -1,
      SameSite := SameSiteStrictMode,
      Domain := j.CookieDomain,
      HttpOnly := true,
      Secure := true)
  }

  /**
   * The logout cookie names the same cookie as the refresh cookie (same
   * name, domain and path, the identity of section 5.3 of RFC 6265) with the
   * same flags, and deletes it: empty, negative `MaxAge`, expiry at the epoch,
   * which precedes the refresh cookie's expiry whenever it is issued after the
   * epoch with a positive lifetime.
   */
  lemma ExpiredCookieReplacesRefreshCookie(j: AuthConfig, refreshToken: string, nowNano: int)
    ensures var live := GetRefreshCookie(j, refreshToken, nowNano);
      var dead := GetExpiredRefreshCookie(j);
      dead.Name == live.Name && dead.Domain == live.Domain && dead.Path == live.Path
      && dead.SameSite == live.SameSite && dead.HttpOnly == live.HttpOnly && dead.Secure == live.Secure
      && dead.Value == "" && dead.MaxAge < 0
      && (nowNano >= 0 && j.RefreshExpiry > 0 ==> dead.Expires < live.Expires)
  {
  }

  /** Under the deployed configuration the refresh cookie lives one day. */
  lemma DeployedRefreshCookieLifetime(issuer: string, audience: string, secret: string, domain: string,
                                      refreshToken: string, nowNano: int)
    ensures var c := GetRefreshCookie(Deployed(issuer, audience, secret, domain), refreshToken, nowNano);
      c.MaxAge == 86400 && c.Expires == nowNano + 86400 * Second && c.Name == "refresh_token" && c.Path == "/"
  {
  }

  // ---------------------------------------------------------------------
  // Verifying a bearer header
  // ---------------------------------------------------------------------

  /** The scheme prefix of a bearer header. */
  const BearerPrefix: string := "Bearer "

  /** `Bearer <t>` with no space in `t` splits into exactly `Bearer` and `t`. */
  lemma {:induction false} BearerJoin(t: string)
    requires ' ' !in t
    ensures Split(BearerPrefix + t, ' ') == ["Bearer", t]
  {
    assert BearerPrefix + t == "Bearer" + [' '] + t;
    SplitCons("Bearer", t, ' ');
    SplitNoSeparator(t, ' ');
  }

  /** A header that splits into `Bearer` and one more part is `Bearer ` and that part. */
  lemma {:induction false} BearerParts(h: string)
    requires |Split(h, ' ')| == 2 && Split(h, ' ')[0] == "Bearer"
    ensures h == BearerPrefix + Split(h, ' ')[1]
    ensures ' ' !in Split(h, ' ')[1]
  {
    var parts := Split(h, ' ');
    SplitJoin(h, ' ');
    assert Join(parts, ' ') == parts[0] + [' '] + Join(parts[1..], ' ');
    assert parts[1..] == [parts[1]];
  }

  /**
   * The header passes the split test (exactly two space-separated parts,
   * the first `Bearer`) exactly when it is `Bearer ` followed by a token with
   * no further space.
   */
  lemma {:induction false} BearerShape(h: string)
    ensures (|Split(h, ' ')| == 2 && Split(h, ' ')[0] == "Bearer")
      <==> (HasPrefix(h, BearerPrefix) && ' ' !in h[|BearerPrefix|..])
  {
    if HasPrefix(h, BearerPrefix) && ' ' !in h[|BearerPrefix|..] {
      assert h == BearerPrefix + h[|BearerPrefix|..];
      BearerJoin(h[|BearerPrefix|..]);
    }
    if |Split(h, ' ')| == 2 && Split(h, ' ')[0] == "Bearer" {
      BearerParts(h);
      assert h[|BearerPrefix|..] == Split(h, ' ')[1];
    }
  }

  /**
   * `GetTokenFromHeaderAndVerify` apart from its `Vary` header: the token
   * and its claims, or the error text.  On success the header is
   * `Bearer <token>` and the token's issuer is the configured one.
   */
  function VerifyHeader(j: AuthConfig, authHeader: string, nowNano: int)
    : (r: Result<(string, Jwt.RegisteredClaims), string>)
    ensures r.Success? ==> authHeader == BearerPrefix + r.value.0 && r.value.1.Issuer == j.Issuer
    ensures r.Success? ==> Jwt.ParseWithClaims(r.value.0, j.Secret, true, nowNano) == Success(r.value.1)
  {
    if authHeader == "" then Failure("no auth header")
    else
      var headerParts := Split(authHeader, ' ');
      if |headerParts| != 2 then Failure("invalid auth header")
      else if headerParts[0] != "Bearer" then Failure("invalid auth header")
      else
        var r := VerifyToken(j, headerParts[1], nowNano);
        if r.Success? then BearerParts(authHeader); r else r
  }

  /**
   * The checks on the token taken from the header: the parse with the HMAC
   * check (an expiry error becomes "expired token"), then the issuer.
   */
  function VerifyToken(j: AuthConfig, token: string, nowNano: int)
    : (r: Result<(string, Jwt.RegisteredClaims), string>)
    ensures r.Success? ==> r.value.0 == token && r.value.1.Issuer == j.Issuer
    ensures r.Success? ==> Jwt.ParseWithClaims(token, j.Secret, true, nowNano) == Success(r.value.1)
    ensures r.Success? <==>
      Jwt.ParseWithClaims(token, j.Secret, true, nowNano).Success?
      && Jwt.ParseWithClaims(token, j.Secret, true, nowNano).value.Issuer == j.Issuer
  {
    match Jwt.ParseWithClaims(token, j.Secret, true, nowNano)
    case Failure(e) =>
      // the library's expiry error is the one whose text starts "token is expired by"
      Failure(if e.Expired? then "expired token" else Jwt.ErrorText(e))
    case Success(claims) =>
      if claims.Issuer != j.Issuer then Failure("invalid issuer")
      else Success((token, claims))
  }

  /**
   * Every text the token check can answer, in the order its checks run: a
   * text that does not decode, an unknown algorithm, a method that is not
   * HMAC, a signature under another key, an `iat` in the future, an `exp`
   * reached, a foreign issuer.  Each check speaks whatever the later ones
   * would say: a non-HMAC token that has also expired is refused for its
   * method, an expired token from a foreign issuer as expired.
   */
  lemma VerifyTokenFailures(j: AuthConfig, token: string, nowNano: int)
    ensures Jwt.Decode(token).None? ==> VerifyToken(j, token, nowNano) == Failure("token contains an invalid number of segments")
    ensures Jwt.Decode(token).Some? ==>
      var t := Jwt.Decode(token).value;
      var r := VerifyToken(j, token, nowNano);
      var hmacUnderSecret := t.alg in Jwt.HmacAlgs && t.signedWith == j.Secret;
      (t.alg !in Jwt.KnownAlgs ==> r == Failure("signing method (alg) is unavailable."))
      && (t.alg in Jwt.KnownAlgs && t.alg !in Jwt.HmacAlgs ==> r == Failure("unexpected signing method: " + t.alg))
      && (t.alg in Jwt.HmacAlgs && t.signedWith != j.Secret ==> r == Failure("signature is invalid"))
      && (hmacUnderSecret && Jwt.IssuedInFuture(t.claims, nowNano) ==> r == Failure("token used before issued"))
      && (hmacUnderSecret && !Jwt.IssuedInFuture(t.claims, nowNano) && Jwt.ExpiredAt(t.claims, nowNano) ==>
            r == Failure("expired token"))
      && (hmacUnderSecret && !Jwt.IssuedInFuture(t.claims, nowNano) && !Jwt.ExpiredAt(t.claims, nowNano) ==>
            r == (if Jwt.Registered(t.claims).Issuer != j.Issuer then Failure("invalid issuer")
                  else Success((token, Jwt.Registered(t.claims)))))
  {
  }

  /**
   * Every text the header check can answer: "no auth header" for an empty
   * header, "invalid auth header" unless it is `Bearer ` followed by a
   * token without spaces, and otherwise whatever the token check answers.
   */
  lemma {:induction false} VerifyHeaderFailures(j: AuthConfig, h: string, nowNano: int)
    ensures h == "" ==> VerifyHeader(j, h, nowNano) == Failure("no auth header")
    ensures h != "" && !(HasPrefix(h, BearerPrefix) && ' ' !in h[|BearerPrefix|..]) ==>
      VerifyHeader(j, h, nowNano) == Failure("invalid auth header")
    ensures HasPrefix(h, BearerPrefix) && ' ' !in h[|BearerPrefix|..] ==>
      VerifyHeader(j, h, nowNano) == VerifyToken(j, h[|BearerPrefix|..], nowNano)
  {
    BearerShape(h);
    if HasPrefix(h, BearerPrefix) && ' ' !in h[|BearerPrefix|..] {
      assert h == BearerPrefix + h[|BearerPrefix|..];
      VerifyBearer(j, h[|BearerPrefix|..], nowNano);
    }
  }

  /** A header of the right shape is judged by its token alone. */
  lemma {:induction false} VerifyBearer(j: AuthConfig, token: string, nowNano: int)
    requires ' ' !in token
    ensures VerifyHeader(j, BearerPrefix + token, nowNano) == VerifyToken(j, token, nowNano)
  {
    BearerJoin(token);
  }

  /**
   * `GetTokenFromHeaderAndVerify(w, r)`: adds `Vary: Authorization` to the
   * response first, then returns `VerifyHeader`'s outcome as Go's triple.
   */
  method GetTokenFromHeaderAndVerify(j: AuthConfig, w: ResponseWriter, authHeader: string, nowNano: int)
    returns (token: string, claims: Option<Jwt.RegisteredClaims>, err: Option<string>)
    modifies w`header
    ensures w.header == old(w.header)["Vary" := Values(old(w.header), "Vary") + ["Authorization"]]
    ensures var r := VerifyHeader(j, authHeader, nowNano);
      (r.Success? ==> token == r.value.0 && claims == Some(r.value.1) && err.None?)
      && (r.Failure? ==> token == "" && claims.None? && err == Some(r.error))
  {
    w.AddHeader("Vary", "Authorization");
    var r := VerifyHeader(j, authHeader, nowNano);
    if r.Failure? {
      return "", None, Some(r.error);
    }
    return r.value.0, Some(r.value.1), None;
  }

  /**
   * An access token issued at `issuedAt` under the configuration's non-empty
   * secret verifies from `issuedAt` until its whole-second expiry, and yields
   * the user's id as subject with the configured issuer and audience.
   */
  lemma {:induction false} IssuedAccessTokenVerifies(j: AuthConfig, user: JwtUser, tokenID: string,
                                                     pair: TokenPairs, issuedAt: int, nowNano: int)
    requires IssuedPair(pair, j, user, tokenID, issuedAt)
    requires j.Secret != ""
    requires issuedAt <= nowNano < Jwt.UnixSeconds(issuedAt + j.TokenExpiry) * Jwt.NanosPerSecond
    ensures VerifyHeader(j, BearerPrefix + pair.Token, nowNano)
      == Success((pair.Token, Jwt.Registered(AccessClaims(j, user, tokenID, issuedAt))))
    ensures var c := VerifyHeader(j, BearerPrefix + pair.Token, nowNano).value.1;
      c.Subject == user.ID && c.Issuer == j.Issuer && c.Audience == [j.Audience] && c.ID == tokenID
  {
    var claims := AccessClaims(j, user, tokenID, issuedAt);
    var text := pair.Token;
    assert VerifyToken(j, text, nowNano) == Success((text, Jwt.Registered(claims))) by {
      assert text == Jwt.Encode(Jwt.Token("HS256", claims, j.Secret));
      assert Jwt.UnixSeconds(issuedAt) * Jwt.NanosPerSecond <= issuedAt;
      assert !Jwt.IssuedInFuture(claims, nowNano);
      assert !Jwt.ExpiredAt(claims, nowNano);
      Jwt.ParseSigned(claims, j.Secret, true, nowNano);
    }
    VerifyBearer(j, text, nowNano);
  }

  /** The same token at or after its expiry second is reported as "expired token". */
  lemma {:induction false} IssuedAccessTokenExpires(j: AuthConfig, user: JwtUser, tokenID: string,
                                                    pair: TokenPairs, issuedAt: int, nowNano: int)
    requires IssuedPair(pair, j, user, tokenID, issuedAt)
    requires j.Secret != ""
    requires issuedAt <= nowNano && Jwt.UnixSeconds(issuedAt + j.TokenExpiry) * Jwt.NanosPerSecond <= nowNano
    ensures VerifyHeader(j, BearerPrefix + pair.Token, nowNano) == Failure("expired token")
  {
    var claims := AccessClaims(j, user, tokenID, issuedAt);
    var text := pair.Token;
    assert VerifyToken(j, text, nowNano) == Failure("expired token") by {
      assert text == Jwt.Encode(Jwt.Token("HS256", claims, j.Secret));
      assert Jwt.UnixSeconds(issuedAt) * Jwt.NanosPerSecond <= issuedAt;
      assert !Jwt.IssuedInFuture(claims, nowNano);
      assert Jwt.ExpiredAt(claims, nowNano);
      Jwt.ParseSigned(claims, j.Secret, true, nowNano);
    }
    VerifyBearer(j, text, nowNano);
  }

  /** A token signed under any other secret is refused at the signature check. */
  lemma {:induction false} ForeignTokenRejected(j: AuthConfig, claims: Jwt.MapClaims, otherSecret: string,
                                                nowNano: int)
    requires otherSecret != "" && otherSecret != j.Secret
    ensures VerifyHeader(j, BearerPrefix + Jwt.Encode(Jwt.Token("HS256", claims, otherSecret)), nowNano)
      == Failure("signature is invalid")
  {
    var text := Jwt.Encode(Jwt.Token("HS256", claims, otherSecret));
    ForeignTokenRefused(j, claims, otherSecret, nowNano);
    VerifyBearer(j, text, nowNano);
  }

  /** The token check alone refuses such a token at the signature. */
  lemma {:induction false} ForeignTokenRefused(j: AuthConfig, claims: Jwt.MapClaims, otherSecret: string,
                                               nowNano: int)
    requires otherSecret != "" && otherSecret != j.Secret
    ensures VerifyToken(j, Jwt.Encode(Jwt.Token("HS256", claims, otherSecret)), nowNano)
      == Failure("signature is invalid")
  {
    Jwt.ParseForeignKey(claims, otherSecret, j.Secret, true, nowNano);
  }

  /**
   * A refresh token carries no issuer, so presented as a bearer token it is
   * refused with "invalid issuer" while it is otherwise valid, whenever an
   * issuer is configured.
   */
  lemma {:induction false} RefreshTokenIsNotAnAccessToken(j: AuthConfig, user: JwtUser, tokenID: string,
                                                          pair: TokenPairs, issuedAt: int, nowNano: int)
    requires IssuedPair(pair, j, user, tokenID, issuedAt)
    requires j.Secret != "" && j.Issuer != ""
    requires issuedAt <= nowNano < Jwt.UnixSeconds(issuedAt + j.RefreshExpiry) * Jwt.NanosPerSecond
    ensures VerifyHeader(j, BearerPrefix + pair.RefreshToken, nowNano) == Failure("invalid issuer")
  {
    var claims := RefreshClaims(j, user, tokenID, issuedAt);
    var text := pair.RefreshToken;
    assert VerifyToken(j, text, nowNano) == Failure("invalid issuer") by {
      assert text == Jwt.Encode(Jwt.Token("HS256", claims, j.Secret));
      assert Jwt.UnixSeconds(issuedAt) * Jwt.NanosPerSecond <= issuedAt;
      assert !Jwt.IssuedInFuture(claims, nowNano);
      assert !Jwt.ExpiredAt(claims, nowNano);
      Jwt.ParseSigned(claims, j.Secret, true, nowNano);
    }
    VerifyBearer(j, text, nowNano);
  }

  /** Both tokens of a pair carry the same token id and the same subject. */
  lemma {:induction false} PairSharesIdAndSubject(j: AuthConfig, user: JwtUser, tokenID: string,
                                                  pair: TokenPairs, issuedAt: int)
    requires IssuedPair(pair, j, user, tokenID, issuedAt)
    ensures var a := Jwt.Decode(pair.Token);
      var r := Jwt.Decode(pair.RefreshToken);
      a.Some? && r.Some?
      && a.value.claims.jti == r.value.claims.jti == Some(tokenID)
      && a.value.claims.sub == r.value.claims.sub == Some(user.ID)
  {
    Jwt.DecodeEncode(AccessToken(j, user, tokenID, issuedAt));
    Jwt.DecodeEncode(RefreshToken(j, user, tokenID, issuedAt));
  }

  /**
   * The verifier keeps only the registered claims: the `name` claim the
   * access token carries does not reach the caller.
   */
  lemma VerifiedClaimsDropName(j: AuthConfig, user: JwtUser, tokenID: string, issuedAt: int)
    ensures Jwt.Registered(AccessClaims(j, user, tokenID, issuedAt))
      == Jwt.Registered(AccessClaims(j, user.(FirstName := "", LastName := ""), tokenID, issuedAt))
  {
  }
}
