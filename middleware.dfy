/**
 * The request gates of the `application` package: the CORS filter with its
 * origin test (`isOriginAllowed`, identical in the legacy `main` package),
 * `AuthRequired`, `AdminRequired` and `IsUserAdmin`.
 */
module Middleware {
  import opened Wrappers
  import opened Text
  import opened Http
  import opened Models
  import opened Repositories
  import Auth

  /**
   * The `Application` the handlers share: the token configuration and the
   * secret the refresh handler parses with, which start-up sets to the same
   * value as `Auth.Secret`.
   */
  datatype Application = Application(Auth: Auth.AuthConfig, JWTSecret: string)

  /** The application as `main` builds it. */
  function DeployedApplication(issuer: string, audience: string, secret: string, cookieDomain: string)
    : (app: Application)
    ensures app.JWTSecret == app.Auth.Secret == secret
  {
    Application(Auth.Deployed(issuer, audience, secret, cookieDomain), secret)
  }

  // ---------------------------------------------------------------------
  // CORS
  // ---------------------------------------------------------------------

  /** Some entry of the list, trimmed of surrounding white space, is the origin. */
  predicate OriginListed(origin: string, allowedOrigins: seq<string>) {
    exists i :: 0 <= i < |allowedOrigins| && TrimSpace(allowedOrigins[i]) == origin
  }

  /** `isOriginAllowed(origin, allowedOrigins)`: a search that stops at the first match. */
  method IsOriginAllowed(origin: string, allowedOrigins: seq<string>) returns (allowed: bool)
    ensures allowed <==> OriginListed(origin, allowedOrigins)
  {
    var i := 0;
    while i < |allowedOrigins|
      invariant 0 <= i <= |allowedOrigins|
      invariant forall k :: 0 <= k < i ==> TrimSpace(allowedOrigins[k]) != origin
    {
      if TrimSpace(allowedOrigins[i]) == origin {
        return true;
      }
      i := i + 1;
    }
    return false;
  }

  /** No origin is allowed by an empty list. */
  lemma NothingListedInEmpty(origin: string)
    ensures !OriginListed(origin, [])
  {
  }

  /**
   * Only the entries are trimmed: an entry that is blank or white space
   * alone admits the empty origin, that is a request with no `Origin` header.
   */
  lemma {:induction false} BlankEntryAdmitsEmptyOrigin(allowedOrigins: seq<string>, i: int)
    requires 0 <= i < |allowedOrigins| && AllSpace(allowedOrigins[i])
    ensures OriginListed("", allowedOrigins)
  {
    TrimAllSpace(allowedOrigins[i]);
  }

  /**
   * The origin itself is never trimmed: an origin with surrounding white
   * space matches no entry.
   */
  lemma {:induction false} PaddedOriginNeverListed(origin: string, allowedOrigins: seq<string>)
    requires origin != [] && (IsSpace(origin[0]) || IsSpace(origin[|origin| - 1]))
    ensures !OriginListed(origin, allowedOrigins)
  {
    forall i | 0 <= i < |allowedOrigins|
      ensures TrimSpace(allowedOrigins[i]) != origin
    {
      var t := TrimSpace(allowedOrigins[i]);
      assert t == [] || (!IsSpace(t[0]) && !IsSpace(t[|t| - 1]));
    }
  }

  /** Splitting a list in two: the test is the disjunction of the halves, so order does not matter. */
  lemma {:induction false} OriginListedAppend(origin: string, a: seq<string>, b: seq<string>)
    ensures OriginListed(origin, a + b) <==> OriginListed(origin, a) || OriginListed(origin, b)
  {
    if OriginListed(origin, a + b) {
      var i :| 0 <= i < |a + b| && TrimSpace((a + b)[i]) == origin;
      if i < |a| {
        assert a[i] == (a + b)[i];
      } else {
        assert b[i - |a|] == (a + b)[i];
      }
    }
    if OriginListed(origin, a) {
      var i :| 0 <= i < |a| && TrimSpace(a[i]) == origin;
      assert (a + b)[i] == a[i];
    }
    if OriginListed(origin, b) {
      var i :| 0 <= i < |b| && TrimSpace(b[i]) == origin;
      assert (a + b)[|a| + i] == b[i];
    }
  }

  /** The test depends on the set of entries only, not their order or repetition. */
  lemma {:induction false} OriginListedBySet(origin: string, a: seq<string>, b: seq<string>)
    requires forall x :: x in a <==> x in b
    ensures OriginListed(origin, a) <==> OriginListed(origin, b)
  {
    if OriginListed(origin, a) {
      var i :| 0 <= i < |a| && TrimSpace(a[i]) == origin;
      assert a[i] in b;
      var k :| 0 <= k < |b| && b[k] == a[i];
    }
    if OriginListed(origin, b) {
      var i :| 0 <= i < |b| && TrimSpace(b[i]) == origin;
      assert b[i] in a;
      var k :| 0 <= k < |a| && a[k] == b[i];
    }
  }

  /** The origin list read at start-up: `CORS` split at commas; an empty variable stops the server. */
  function AllowOriginList(cors: string): (r: Option<seq<string>>)
    ensures r.None? <==> cors == ""
    ensures r.Some? ==> |r.value| == Count(cors, ',') + 1 && Join(r.value, ',') == cors
  {
    if cors == "" then None
    else
      SplitJoin(cors, ',');
      Some(Split(cors, ','))
  }

  const AllowMethods: string := "GET,POST,PUT,PATCH,DELETE,OPTIONS"
  const AllowHeaders: string :=
    "Accept, Content-Type, X-Auth-Email, X-Auth-Key, X-CSRF-Token, Origin, X-Requested-With, Authorization"

  /**
   * `EnableCORS` for one request.  When the origin is allowed, every list
   * entry in turn is set as `Access-Control-Allow-Origin`, so the last entry,
   * untrimmed, is what remains, whatever the request's origin.  A preflight
   * (`OPTIONS`) gets the three preflight headers and ends there; any other
   * method gets `Access-Control-Allow-Credentials` and is passed on.
   */
  method EnableCORS(allowOriginList: seq<string>, w: ResponseWriter, origin: string, requestMethod: string)
    returns (callNext: bool)
    modifies w`header
    ensures var h := if OriginListed(origin, allowOriginList)
                     then old(w.header)["Access-Control-Allow-Origin" := [allowOriginList[|allowOriginList| - 1]]]
                     else old(w.header);
      if requestMethod == "OPTIONS" then
        !callNext
        && w.header == h["Access-Control-Allow-Credentials" := ["true"]]
                        ["Access-Control-Allow-Methods" := [AllowMethods]]
                        ["Access-Control-Allow-Headers" := [AllowHeaders]]
      else
        callNext && w.header == h["Access-Control-Allow-Credentials" := ["true"]]
  {
    var allowed := IsOriginAllowed(origin, allowOriginList);
    if allowed {
      var i := 0;
      while i < |allowOriginList|
        invariant 0 <= i <= |allowOriginList|
        invariant i == 0 ==> w.header == old(w.header)
        invariant i > 0 ==> w.header == old(w.header)["Access-Control-Allow-Origin" := [allowOriginList[i - 1]]]
      {
        w.SetHeader("Access-Control-Allow-Origin", allowOriginList[i]);
        i := i + 1;
      }
    }
    if requestMethod == "OPTIONS" {
      w.SetHeader("Access-Control-Allow-Credentials", "true");
      w.SetHeader("Access-Control-Allow-Methods", AllowMethods);
      w.SetHeader("Access-Control-Allow-Headers", AllowHeaders);
      return false;
    } else {
      w.SetHeader("Access-Control-Allow-Credentials", "true");
      return true;
    }
  }

  /**
   * A list of two different origins allowing the first: the response names
   * the second, so a browser at the first origin is refused.
   */
  lemma AllowedOriginIsLastEntry(first: string, second: string)
    requires first != second
    requires first == [] || (!IsSpace(first[0]) && !IsSpace(first[|first| - 1]))
    ensures OriginListed(first, [first, second])
    ensures [first, second][|[first, second]| - 1] != first
  {
    TrimUnpadded(first);
    assert [first, second][0] == first;
  }

  // ---------------------------------------------------------------------
  // Authentication and authorisation gates
  // ---------------------------------------------------------------------

  /** The context key `AuthRequired` stores under. */
  const UserContextKey: string := "userID"

  /**
   * `AuthRequired`: a refused header ends the request with `401` and no body;
   * an accepted one passes it on with the verifier's first result under the
   * "userID" context key, and that result is the raw bearer token, not the
   * user's id.
   */
  method AuthRequired(j: Auth.AuthConfig, w: ResponseWriter, authHeader: string, nowNano: int)
    returns (callNext: bool, context: map<string, string>)
    requires w.Unwritten()
    modifies w`header, w`status, w`sentHeader, w`sentCookies
    ensures var r := Auth.VerifyHeader(j, authHeader, nowNano);
      (r.Failure? ==> !callNext && w.status == 401 && w.body == [] && context == map[])
      && (r.Success? ==> callNext && w.Unwritten() && context == map[UserContextKey := r.value.0])
    ensures w.header == old(w.header)["Vary" := Values(old(w.header), "Vary") + ["Authorization"]]
  {
    var userID, _, err := Auth.GetTokenFromHeaderAndVerify(j, w, authHeader, nowNano);
    if err.Some? {
      w.WriteHeader(401);
      return false, map[];
    }
    return true, map[UserContextKey := userID];
  }

  /** The user holds at least one mode row, and every one of them is named "admin". */
  predicate OnlyAdminModes(modes: map<nat, Mode>, userID: string) {
    (exists k :: k in modes && modes[k].UserID == userID)
    && (forall k :: k in modes && modes[k].UserID == userID ==> modes[k].Name == "admin")
  }

  /**
   * `IsUserAdmin(userID)`: the lookup's error, or whether the preloaded mode
   * is named "admin".  When all of the user's mode rows agree, the answer is
   * theirs; with no mode row the user is not an admin.
   */
  method IsUserAdmin(repo: Repository, userID: string) returns (isAdmin: bool, err: Option<string>)
    requires repo.Valid()
    ensures err.Some? <==> userID !in repo.users
    ensures err.Some? ==> !isAdmin && err.value == ErrUserNotFound
    ensures isAdmin ==> exists k :: k in repo.modes && repo.modes[k].UserID == userID && repo.modes[k].Name == "admin"
    ensures userID in repo.users && OnlyAdminModes(repo.modes, userID) ==> isAdmin
  {
    var user := repo.GetUserByID(userID);
    if user.Failure? {
      return false, Some(user.error);
    }
    return user.value.Mode.Name == "admin", None;
  }

  /**
   * `AdminRequired`: `401` for a refused header, `500` when the subject
   * cannot be looked up, `403` when it is not an admin, and otherwise the
   * request goes on unchanged; a subject all of whose mode rows are "admin"
   * always goes on.
   */
  method AdminRequired(j: Auth.AuthConfig, repo: Repository, w: ResponseWriter, authHeader: string, nowNano: int)
    returns (callNext: bool)
    requires w.Unwritten() && repo.Valid()
    modifies w`header, w`status, w`sentHeader, w`sentCookies
    ensures w.header == old(w.header)["Vary" := Values(old(w.header), "Vary") + ["Authorization"]]
    ensures w.body == []
    ensures var r := Auth.VerifyHeader(j, authHeader, nowNano);
      (r.Failure? ==> !callNext && w.status == 401)
      && (r.Success? && r.value.1.Subject !in repo.users ==> !callNext && w.status == 500)
      && (r.Success? && r.value.1.Subject in repo.users ==>
            (callNext ==>
               w.status == 0
               && exists k :: k in repo.modes && repo.modes[k].UserID == r.value.1.Subject
                                && repo.modes[k].Name == "admin")
            && (!callNext ==> w.status == 403))
    ensures var r := Auth.VerifyHeader(j, authHeader, nowNano);
      r.Success? && r.value.1.Subject in repo.users && OnlyAdminModes(repo.modes, r.value.1.Subject) ==>
        callNext && w.status == 0
  {
    var _, claims, err := Auth.GetTokenFromHeaderAndVerify(j, w, authHeader, nowNano);
    if err.Some? {
      w.WriteHeader(401);
      return false;
    }
    var isAdmin, lookupErr := IsUserAdmin(repo, claims.value.Subject);
    if lookupErr.Some? {
      w.WriteHeader(500);
      return false;
    }
    if !isAdmin {
      w.WriteHeader(403);
      return false;
    }
    return true;
  }
}
