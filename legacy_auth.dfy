/**
 * The earlier copy of the token code in the `main` package.  Its cookie
 * builders and claim sets are those of the `auth` package; it differs in two
 * places: the refresh token is produced by signing the access token a
 * second time, and a header with the wrong number of parts is refused with
 * the text "invalud auth header".  Its `BlackList` is declared and never
 * used, so no token is ever revoked.
 */
module LegacyAuth {
  import opened Wrappers
  import opened Text
  import Jwt
  import opened Http
  import opened Auth

  /** `BlackList`: declared, never appended to or consulted. */
  const BlackList: seq<string> := []

  /** The pair the legacy `GenerateTokenPair` returns: the access token twice. */
  function LegacyTokens(j: AuthConfig, user: JwtUser, tokenID: string, nowNano: int): TokenPairs {
    var t := Jwt.Encode(AccessToken(j, user, tokenID, nowNano));
    TokenPairs(t, t)
  }

  /**
   * `GenerateTokenPair` as written: the refresh claims are filled but the
   * second `SignedString` is called on the access token, so both texts are
   * the access token.
   */
  method GenerateTokenPair(j: AuthConfig, user: JwtUser, tokenID: string, nowNano: int)
    returns (pair: TokenPairs, err: Option<string>)
    ensures err.Some? <==> j.Secret == ""
    ensures err.Some? ==> pair == NoPairs && err.value == "key is invalid"
    ensures err.None? ==> pair == LegacyTokens(j, user, tokenID, nowNano)
    ensures err.None? ==> pair.RefreshToken == pair.Token
  {
    var claims := AccessClaims(j, user, tokenID, nowNano);
    var signedAccessToken := Jwt.SignedString("HS256", claims, j.Secret);
    if signedAccessToken.Failure? {
      return NoPairs, Some(signedAccessToken.error);
    }

    // filled, never signed
    var refreshTokenClaims := RefreshClaims(j, user, tokenID, nowNano);

    var signedRefreshToken := Jwt.SignedString("HS256", claims, j.Secret);
    if signedRefreshToken.Failure? {
      // the secret was accepted for the same token a moment ago
      assert false;
      return NoPairs, Some("key is invalid");
    }
    return TokenPairs(signedAccessToken.value, signedRefreshToken.value), None;
  }

  /**
   * The legacy refresh token dies with the access token.  Read by the
   * refresh handler at the access token's expiry second it is refused as
   * expired, while the refresh token the `auth` package issues for the same
   * login still parses whenever the refresh lifetime ends in a later second.
   */
  lemma {:induction false} LegacyRefreshTokenExpiresEarly(j: AuthConfig, user: JwtUser, tokenID: string,
                                                          issuedAt: int)
    requires j.Secret != ""
    requires 0 <= j.TokenExpiry
    requires Jwt.UnixSeconds(issuedAt + j.TokenExpiry) < Jwt.UnixSeconds(issuedAt + j.RefreshExpiry)
    ensures var at := Jwt.UnixSeconds(issuedAt + j.TokenExpiry) * Jwt.NanosPerSecond;
      var legacy := Jwt.Encode(AccessToken(j, user, tokenID, issuedAt));
      var intended := Jwt.Encode(RefreshToken(j, user, tokenID, issuedAt));
      Jwt.ParseWithClaims(legacy, j.Secret, false, at) == Failure(Jwt.Expired)
      && Jwt.ParseWithClaims(intended, j.Secret, false, at).Success?
  {
    LegacyRefreshTokenExpired(j, user, tokenID, issuedAt, Jwt.UnixSeconds(issuedAt + j.TokenExpiry) * Jwt.NanosPerSecond);
    IntendedRefreshTokenAlive(j, user, tokenID, issuedAt);
  }

  /** The refresh token of the `auth` package, read at the access token's expiry second, still parses. */
  lemma {:induction false} IntendedRefreshTokenAlive(j: AuthConfig, user: JwtUser, tokenID: string, issuedAt: int)
    requires 0 <= j.TokenExpiry
    requires Jwt.UnixSeconds(issuedAt + j.TokenExpiry) < Jwt.UnixSeconds(issuedAt + j.RefreshExpiry)
    ensures var at := Jwt.UnixSeconds(issuedAt + j.TokenExpiry) * Jwt.NanosPerSecond;
      Jwt.ParseWithClaims(Jwt.Encode(RefreshToken(j, user, tokenID, issuedAt)), j.Secret, false, at).Success?
  {
    var at := Jwt.UnixSeconds(issuedAt + j.TokenExpiry) * Jwt.NanosPerSecond;
    assert Jwt.UnixSeconds(issuedAt) * Jwt.NanosPerSecond <= at;
    assert !Jwt.IssuedInFuture(RefreshClaims(j, user, tokenID, issuedAt), at);
    assert !Jwt.ExpiredAt(RefreshClaims(j, user, tokenID, issuedAt), at);
    Jwt.ParseSigned(RefreshClaims(j, user, tokenID, issuedAt), j.Secret, false, at);
  }

  /** The legacy refresh token, read at the access token's expiry second, is refused as expired. */
  lemma {:induction false} LegacyRefreshTokenExpired(j: AuthConfig, user: JwtUser, tokenID: string, issuedAt: int,
                                                     at: int)
    requires j.Secret != ""
    requires 0 <= j.TokenExpiry
    requires at == Jwt.UnixSeconds(issuedAt + j.TokenExpiry) * Jwt.NanosPerSecond
    ensures Jwt.ParseWithClaims(LegacyTokens(j, user, tokenID, issuedAt).RefreshToken, j.Secret, false, at)
      == Failure(Jwt.Expired)
  {
    assert Jwt.UnixSeconds(issuedAt) * Jwt.NanosPerSecond <= at;
    assert !Jwt.IssuedInFuture(AccessClaims(j, user, tokenID, issuedAt), at);
    assert Jwt.ExpiredAt(AccessClaims(j, user, tokenID, issuedAt), at);
    Jwt.ParseSigned(AccessClaims(j, user, tokenID, issuedAt), j.Secret, false, at);
  }

  /** With the deployed lifetimes the legacy refresh token is dead after 15 minutes. */
  lemma DeployedLegacyRefreshTokenExpiresEarly(issuer: string, audience: string, secret: string,
                                               domain: string, user: JwtUser, tokenID: string, issuedAt: int)
    requires secret != ""
    ensures var j := Deployed(issuer, audience, secret, domain);
      var at := Jwt.UnixSeconds(issuedAt + 15 * Minute) * Jwt.NanosPerSecond;
      Jwt.ParseWithClaims(Jwt.Encode(AccessToken(j, user, tokenID, issuedAt)), secret, false, at)
        == Failure(Jwt.Expired)
      && Jwt.ParseWithClaims(Jwt.Encode(RefreshToken(j, user, tokenID, issuedAt)), secret, false, at).Success?
  {
    var j := Deployed(issuer, audience, secret, domain);
    assert Jwt.UnixSeconds(issuedAt + j.TokenExpiry) < Jwt.UnixSeconds(issuedAt + j.RefreshExpiry);
    LegacyRefreshTokenExpiresEarly(j, user, tokenID, issuedAt);
  }

  /** The legacy `GetTokenFromHeaderAndVerify` apart from its `Vary` header. */
  function VerifyHeader(j: AuthConfig, authHeader: string, nowNano: int)
    : (r: Result<(string, Jwt.RegisteredClaims), string>)
    ensures authHeader == "" ==> r == Failure("no auth header")
    ensures authHeader != "" && |Split(authHeader, ' ')| != 2 ==> r == Failure("invalud auth header")
    ensures r.Success? ==> authHeader == Auth.BearerPrefix + r.value.0 && r.value.1.Issuer == j.Issuer
  {
    if authHeader == "" then Failure("no auth header")
    else
      var headerParts := Split(authHeader, ' ');
      if |headerParts| != 2 then Failure("invalud auth header")
      else if headerParts[0] != "Bearer" then Failure("invalid auth header")
      else
        var r := VerifyToken(j, headerParts[1], nowNano);
        if r.Success? then BearerParts(authHeader); r else r
  }

  /** The legacy verifier agrees with the current one except for the misspelt part-count error. */
  lemma VerifyHeaderMatchesCurrent(j: AuthConfig, authHeader: string, nowNano: int)
    ensures VerifyHeader(j, authHeader, nowNano) ==
      if authHeader != "" && |Split(authHeader, ' ')| != 2 then Failure("invalud auth header")
      else Auth.VerifyHeader(j, authHeader, nowNano)
  {
  }

  /** A header of one word is refused with the misspelt text. */
  lemma OneWordHeaderMisspelt(j: AuthConfig, nowNano: int)
    ensures VerifyHeader(j, "Bearer", nowNano) == Failure("invalud auth header")
    ensures Auth.VerifyHeader(j, "Bearer", nowNano) == Failure("invalid auth header")
  {
    SplitNoSeparator("Bearer", ' ');
  }

  /** `GetTokenFromHeaderAndVerify(w, r)` of the legacy package. */
  method GetTokenFromHeaderAndVerify(j: AuthConfig, w: ResponseWriter, authHeader: string, nowNano: int)
    returns (token: string, claims: Option<Jwt.RegisteredClaims>, err: Option<string>)
    modifies w`header
    ensures w.header == old(w.header)["Vary" := Values(old(w.header), "Vary") + ["Authorization"]]
    ensures var r := VerifyHeader(j, authHeader, nowNano);
      (r.Success? ==> token == r.value.0 && claims == Some(r.value.1) && err.None?)
      && (r.Failure? ==> token == "" && claims.None? && err == Some(r.error))
  {
    w.AddHeader("Vary", "Authorization");
    var r := VerifyHeader(j, authHeader, nowNano);
    if r.Failure? {
      return "", None, Some(r.error);
    }
    return r.value.0, Some(r.value.1), None;
  }
}
