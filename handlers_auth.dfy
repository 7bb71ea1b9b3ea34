/**
 * The login, refresh, logout and registration handlers of the `handlers`
 * package.  Each handler is one request: it reads the repository, writes
 * the response, and for registration inserts rows.  The decoded request
 * body, the fresh ids and the outcomes of the file system and of e-mail
 * delivery are parameters.
 */
module AuthHandlers {
  import opened Wrappers
  import opened Http
  import opened Utils
  import opened Models
  import opened Repositories
  import opened Middleware
  import Auth
  import LegacyAuth
  import Jwt
  import Bcrypt

  /**
   * The two copies of the handlers: the `handlers` package and the earlier
   * `main` package.  Their login and refresh handlers differ only in the
   * `GenerateTokenPair` they call.
   */
  datatype Package = Handlers | Main

  /** The pair the package's `GenerateTokenPair` returns when signing succeeds. */
  function IssuedFor(pkg: Package, j: Auth.AuthConfig, user: Auth.JwtUser, tokenID: string, nowNano: int)
    : Auth.TokenPairs
  {
    match pkg
    case Handlers => Auth.IssuedTokens(j, user, tokenID, nowNano)
    case Main => LegacyAuth.LegacyTokens(j, user, tokenID, nowNano)
  }

  /** The package's `GenerateTokenPair`: both fail exactly on an empty secret. */
  method GenerateTokenPair(pkg: Package, j: Auth.AuthConfig, user: Auth.JwtUser, tokenID: string, nowNano: int)
    returns (pair: Auth.TokenPairs, err: Option<string>)
    ensures err.Some? <==> j.Secret == ""
    ensures err.Some? ==> pair == Auth.NoPairs && err.value == "key is invalid"
    ensures err.None? ==> pair == IssuedFor(pkg, j, user, tokenID, nowNano)
  {
    match pkg
    case Handlers =>
      pair, err := Auth.GenerateTokenPair(j, user, tokenID, nowNano);
    case Main =>
      pair, err := LegacyAuth.GenerateTokenPair(j, user, tokenID, nowNano);
  }

  /** The body of a login request. */
  datatype Credentials = Credentials(Email: string, Password: string)

  /** The `JwtUser` built from a stored user. */
  function JwtUserOf(u: User): Auth.JwtUser {
    Auth.JwtUser(u.ID, u.FirstName, u.UserName, u.LastName)
  }

  // ---------------------------------------------------------------------
  // Authenticate
  // ---------------------------------------------------------------------

  /**
   * What `Authenticate` answers once the body is decoded: `found` is the
   * row the e-mail lookup returned.  No such row gives "invalid
   * credentials", a wrong password or a malformed hash "invalid email or
   * password", a signing failure its error with `400`, and success the pair
   * with `202` and the refresh cookie.
   */
  predicate LoginAnswered(pkg: Package, j: Auth.AuthConfig, users: map<string, User>, cred: Credentials,
                          w: ResponseWriter, found: Option<User>, tokenID: string, nowNano: int)
    reads w
  {
    if !EmailTaken(users, cred.Email) then
      found.None? && w.Replied(401, [ErrorBody("invalid credentials")]) && w.sentCookies == []
    else
      found.Some? && found.value.ID in users && users[found.value.ID] == found.value
      && found.value.Email == cred.Email
      && if PasswordMatches(found.value, cred.Password) != Success(true) then
           w.Replied(401, [ErrorBody("invalid email or password")]) && w.sentCookies == []
         else if j.Secret == "" then
           w.Replied(400, [ErrorBody("key is invalid")]) && w.sentCookies == []
         else
           var pair := IssuedFor(pkg, j, JwtUserOf(found.value), tokenID, nowNano);
           w.Replied(202, [Auth.PairJson(pair)]) && w.sentCookies == [Auth.GetRefreshCookie(j, pair.RefreshToken, nowNano)]
  }

  /** `Authenticate`: e-mail and password in, a token pair and the refresh cookie out. */
  method Authenticate(pkg: Package, app: Application, repo: Repository, w: ResponseWriter,
                      payload: Result<Credentials, string>, tokenID: string, nowNano: int)
    returns (ghost found: Option<User>)
    requires repo.Valid() && w.Unwritten() && w.setCookies == []
    modifies w
    ensures payload.Failure? ==> w.Replied(400, [ErrorBody(payload.error)]) && w.sentCookies == []
    ensures payload.Success? ==> LoginAnswered(pkg, app.Auth, repo.users, payload.value, w, found, tokenID, nowNano)
  {
    found := None;
    if payload.Failure? {
      var _ := ErrorJSON(w, Some(payload.error), [400]);
      return;
    }
    var cred := payload.value;
    var user := repo.GetUserByEmail(cred.Email);
    if user.Failure? {
      var _ := ErrorJSON(w, Some("invalid credentials"), [401]);
      return;
    }
    found := Some(user.value);
    var valid := PasswordMatches(user.value, cred.Password);
    if valid.Failure? || !valid.value {
      var _ := ErrorJSON(w, Some("invalid email or password"), [401]);
      return;
    }
    var tokens, err := GenerateTokenPair(pkg, app.Auth, JwtUserOf(user.value), tokenID, nowNano);
    if err.Some? {
      var _ := ErrorJSON(w, err, []);
      return;
    }
    w.SetCookie(Auth.GetRefreshCookie(app.Auth, tokens.RefreshToken, nowNano));
    var _ := WriteJSON(w, 202, Auth.PairJson(tokens), []);
  }

  // ---------------------------------------------------------------------
  // RefreshToken
  // ---------------------------------------------------------------------

  /** One answer the refresh handler writes: a status, a document and perhaps a cookie. */
  datatype Reply = Reply(status: int, doc: Json, cookie: Option<Cookie>)

  function Docs(rs: seq<Reply>): seq<Json> {
    if rs == [] then [] else Docs(rs[..|rs| - 1]) + [rs[|rs| - 1].doc]
  }

  function CookieOf(r: Reply): seq<Cookie> {
    if r.cookie.Some? then [r.cookie.value] else []
  }

  function CookiesOf(rs: seq<Reply>): seq<Cookie> {
    if rs == [] then [] else CookiesOf(rs[..|rs| - 1]) + CookieOf(rs[|rs| - 1])
  }

  /**
   * The answer to the claims of a refresh cookie that parsed: an unknown
   * subject and a signing failure answer `401`, and otherwise the answer is
   * `200` with a new pair for the subject and its cookie.
   */
  function ClaimsReply(pkg: Package, app: Application, users: map<string, User>, claims: Jwt.RegisteredClaims,
                       tokenID: string, nowNano: int): (r: Reply)
    ensures r.status == 200 <==> r.cookie.Some?
  {
    if claims.Subject !in users then Reply(401, ErrorBody("unknown user - " + ErrUserNotFound), None)
    else if app.Auth.Secret == "" then Reply(401, ErrorBody("error generating tokens"), None)
    else
      var pair := IssuedFor(pkg, app.Auth, JwtUserOf(users[claims.Subject]), tokenID, nowNano);
      Reply(200, Auth.PairJson(pair), Some(Auth.GetRefreshCookie(app.Auth, pair.RefreshToken, nowNano)))
  }

  /**
   * The answer to one cookie named like the refresh cookie.  Its value is
   * parsed with `JWTSecret`, with no algorithm check and no issuer check, and
   * a parse failure answers `401`.
   */
  function CookieReply(pkg: Package, app: Application, users: map<string, User>, value: string, tokenID: string,
                       nowNano: int): (r: Reply)
    ensures r.status == 200 <==> r.cookie.Some?
  {
    match Jwt.ParseWithClaims(value, app.JWTSecret, false, nowNano)
    case Failure(_) => Reply(401, ErrorBody("unauthorized"), None)
    case Success(claims) => ClaimsReply(pkg, app, users, claims, tokenID, nowNano)
  }

  /** The answer each request cookie would get if it carried the refresh cookie's name. */
  function Answers(pkg: Package, app: Application, users: map<string, User>, cookies: seq<RequestCookie>,
                   newID: nat -> string, nowNano: int): (rs: seq<Reply>)
    ensures |rs| == |cookies|
  {
    if cookies == [] then []
    else
      var n := |cookies| - 1;
      Answers(pkg, app, users, cookies[..n], newID, nowNano) + [CookieReply(pkg, app, users, cookies[n].value, newID(n), nowNano)]
  }

  lemma {:induction false} AnswerAt(pkg: Package, app: Application, users: map<string, User>, cookies: seq<RequestCookie>,
                                    newID: nat -> string, nowNano: int, k: nat)
    requires k < |cookies|
    ensures Answers(pkg, app, users, cookies, newID, nowNano)[k] == CookieReply(pkg, app, users, cookies[k].value, newID(k), nowNano)
    decreases |cookies|
  {
    var n := |cookies| - 1;
    if k < n {
      AnswerAt(pkg, app, users, cookies[..n], newID, nowNano, k);
    }
  }

  /**
   * The answers written for the request cookies from position `i` on, given
   * the answer of each: cookies with another name are skipped, every other
   * one is answered in turn, and the first error ends the loop.
   */
  function Replies(cookies: seq<RequestCookie>, name: string, answers: seq<Reply>, i: nat): seq<Reply>
    requires |answers| == |cookies|
    decreases |cookies| - i
  {
    if i >= |cookies| then []
    else if cookies[i].name != name then Replies(cookies, name, answers, i + 1)
    else if answers[i].status != 200 then [answers[i]]
    else [answers[i]] + Replies(cookies, name, answers, i + 1)
  }

  /** One step of `Replies`, unfolded. */
  lemma RepliesStep(cookies: seq<RequestCookie>, name: string, answers: seq<Reply>, i: nat)
    requires |answers| == |cookies| && i < |cookies|
    ensures cookies[i].name != name ==> Replies(cookies, name, answers, i) == Replies(cookies, name, answers, i + 1)
    ensures cookies[i].name == name && answers[i].status != 200 ==> Replies(cookies, name, answers, i) == [answers[i]]
    ensures cookies[i].name == name && answers[i].status == 200 ==>
      Replies(cookies, name, answers, i) == [answers[i]] + Replies(cookies, name, answers, i + 1)
  {
  }

  /** What `RefreshToken` writes for a request's cookies, first to last. */
  function RefreshReplies(pkg: Package, app: Application, users: map<string, User>, cookies: seq<RequestCookie>,
                          newID: nat -> string, nowNano: int): seq<Reply>
  {
    Replies(cookies, app.Auth.CookieName, Answers(pkg, app, users, cookies, newID, nowNano), 0)
  }

  lemma {:induction false} DocsAppend(rs: seq<Reply>, r: Reply)
    ensures Docs(rs + [r]) == Docs(rs) + [r.doc]
    ensures CookiesOf(rs + [r]) == CookiesOf(rs) + CookieOf(r)
  {
    assert (rs + [r])[..|rs|] == rs;
  }

  /** What a written answer leaves in the writer: its document, its cookie, and the first status. */
  twostate predicate AnswerWritten(w: ResponseWriter, r: Reply)
    reads w
  {
    && w.body == old(w.body) + [r.doc]
    && w.setCookies == old(w.setCookies) + CookieOf(r)
    && (old(w.status) == 0 ==> w.status == r.status && w.sentCookies == w.setCookies)
    && (old(w.status) != 0 ==> w.status == old(w.status) && w.sentCookies == old(w.sentCookies))
  }

  /** A `401` answer with `message`, written as an error document. */
  method AnswerUnauthorized(w: ResponseWriter, message: string) returns (r: Reply)
    requires w.status == 0 || w.status == 200
    modifies w
    ensures r == Reply(401, ErrorBody(message), None)
    ensures AnswerWritten(w, r)
  {
    r := Reply(401, ErrorBody(message), None);
    var _ := ErrorJSON(w, Some(message), [401]);
  }

  /** A `200` answer: the refresh cookie of `pair`, then the pair as a document. */
  method AnswerPair(app: Application, w: ResponseWriter, pair: Auth.TokenPairs, nowNano: int) returns (r: Reply)
    requires w.status == 0 || w.status == 200
    modifies w
    ensures r == Reply(200, Auth.PairJson(pair), Some(Auth.GetRefreshCookie(app.Auth, pair.RefreshToken, nowNano)))
    ensures AnswerWritten(w, r)
  {
    var refreshCookie := Auth.GetRefreshCookie(app.Auth, pair.RefreshToken, nowNano);
    r := Reply(200, Auth.PairJson(pair), Some(refreshCookie));
    w.SetCookie(refreshCookie);
    var _ := WriteJSON(w, 200, Auth.PairJson(pair), []);
  }

  /** The loop body after a successful parse: the user lookup, the new pair, the cookie and the reply. */
  method AnswerClaims(pkg: Package, app: Application, repo: Repository, w: ResponseWriter, claims: Jwt.RegisteredClaims,
                      tokenID: string, nowNano: int)
    returns (r: Reply)
    requires repo.Valid() && (w.status == 0 || w.status == 200)
    modifies w
    ensures r == ClaimsReply(pkg, app, repo.users, claims, tokenID, nowNano)
    ensures AnswerWritten(w, r)
  {
    var user := repo.GetUserByID(claims.Subject);
    if user.Failure? {
      r := AnswerUnauthorized(w, "unknown user - " + user.error);
      return;
    }
    var tokenPairs, err := GenerateTokenPair(pkg, app.Auth, JwtUserOf(user.value), tokenID, nowNano);
    if err.Some? {
      r := AnswerUnauthorized(w, "error generating tokens");
      return;
    }
    assert JwtUserOf(user.value) == JwtUserOf(repo.users[claims.Subject]);
    r := AnswerPair(app, w, tokenPairs, nowNano);
  }

  /**
   * The loop body for the matching cookie at position `i`: the parse, then
   * `AnswerClaims`; the reply is that cookie's answer.
   */
  method AnswerCookie(pkg: Package, app: Application, repo: Repository, w: ResponseWriter, cookies: seq<RequestCookie>,
                      newID: nat -> string, i: nat, nowNano: int, ghost answers: seq<Reply>)
    returns (r: Reply)
    requires repo.Valid() && (w.status == 0 || w.status == 200)
    requires i < |cookies| && answers == Answers(pkg, app, repo.users, cookies, newID, nowNano)
    modifies w
    ensures r == answers[i]
    ensures AnswerWritten(w, r)
  {
    AnswerAt(pkg, app, repo.users, cookies, newID, nowNano, i);
    var value := cookies[i].value;
    var tokenID := newID(i);
    var parsed := Jwt.ParseWithClaims(value, app.JWTSecret, false, nowNano);
    if parsed.Failure? {
      r := AnswerUnauthorized(w, "unauthorized");
      return;
    }
    r := AnswerClaims(pkg, app, repo, w, parsed.value, tokenID, nowNano);
  }

  /**
   * A writer's body, cookies, status and sent cookies after the replies
   * `done`: their documents and cookies in order, and the first one's status
   * and cookie on the wire.
   */
  predicate ShowsState(body: seq<Json>, setCookies: seq<Cookie>, status: int, sentCookies: seq<Cookie>,
                       cookies0: seq<Cookie>, done: seq<Reply>)
  {
    && body == Docs(done)
    && setCookies == cookies0 + CookiesOf(done)
    && (done == [] ==> status == 0)
    && (done != [] ==> status == done[0].status && sentCookies == cookies0 + CookieOf(done[0]))
  }

  predicate Shows(w: ResponseWriter, cookies0: seq<Cookie>, done: seq<Reply>)
    reads w
  {
    ShowsState(w.body, w.setCookies, w.status, w.sentCookies, cookies0, done)
  }

  /** Writing one more answer extends what the writer shows by that answer. */
  lemma ShowsAppend(body: seq<Json>, setCookies: seq<Cookie>, status: int, sentCookies: seq<Cookie>,
                    body': seq<Json>, setCookies': seq<Cookie>, status': int, sentCookies': seq<Cookie>,
                    cookies0: seq<Cookie>, done: seq<Reply>, reply: Reply)
    requires ShowsState(body, setCookies, status, sentCookies, cookies0, done)
    requires done == [] || done[0].status == 200
    requires body' == body + [reply.doc] && setCookies' == setCookies + CookieOf(reply)
    requires status == 0 ==> status' == reply.status && sentCookies' == setCookies'
    requires status != 0 ==> status' == status && sentCookies' == sentCookies
    ensures ShowsState(body', setCookies', status', sentCookies', cookies0, done + [reply])
  {
    DocsAppend(done, reply);
    assert (done + [reply])[0] == if done == [] then reply else done[0];
  }

  /**
   * One turn of the loop: the cookie at `i` is skipped or answered, and
   * `stop` reports the error that ends the loop.
   */
  method RefreshStep(pkg: Package, app: Application, repo: Repository, w: ResponseWriter, cookies: seq<RequestCookie>,
                     newID: nat -> string, i: nat, nowNano: int, ghost answers: seq<Reply>,
                     ghost cookies0: seq<Cookie>, ghost done: seq<Reply>)
    returns (stop: bool, ghost done': seq<Reply>)
    requires repo.Valid() && i < |cookies| && answers == Answers(pkg, app, repo.users, cookies, newID, nowNano)
    requires Shows(w, cookies0, done) && (done != [] ==> done[0].status == 200)
    modifies w
    ensures Shows(w, cookies0, done') && (done' != [] ==> done'[0].status == 200 || stop)
    ensures stop ==> done + Replies(cookies, app.Auth.CookieName, answers, i) == done'
    ensures !stop ==> done + Replies(cookies, app.Auth.CookieName, answers, i)
                      == done' + Replies(cookies, app.Auth.CookieName, answers, i + 1)
  {
    if cookies[i].name != app.Auth.CookieName {
      RepliesStep(cookies, app.Auth.CookieName, answers, i);
      return false, done;
    }
    ghost var body, setCookies, status, sentCookies := w.body, w.setCookies, w.status, w.sentCookies;
    var reply := AnswerCookie(pkg, app, repo, w, cookies, newID, i, nowNano, answers);
    ShowsAppend(body, setCookies, status, sentCookies, w.body, w.setCookies, w.status, w.sentCookies,
                cookies0, done, reply);
    done' := done + [reply];
    RepliesAnswered(cookies, app.Auth.CookieName, answers, i, done);
    return reply.status != 200, done';
  }

  /** Appending the answer at a matching position to the replies written so far. */
  lemma RepliesAnswered(cookies: seq<RequestCookie>, name: string, answers: seq<Reply>, i: nat, done: seq<Reply>)
    requires |answers| == |cookies| && i < |cookies| && cookies[i].name == name
    ensures answers[i].status != 200 ==> done + Replies(cookies, name, answers, i) == done + [answers[i]]
    ensures answers[i].status == 200 ==>
      done + Replies(cookies, name, answers, i) == done + [answers[i]] + Replies(cookies, name, answers, i + 1)
  {
    RepliesStep(cookies, name, answers, i);
    var rest := Replies(cookies, name, answers, i + 1);
    assert done + ([answers[i]] + rest) == done + [answers[i]] + rest;
  }

  /**
   * `RefreshToken`: answers every cookie named like the refresh cookie in
   * turn.  The status line is the first answer's; with no such cookie
   * nothing at all is written.
   */
  method RefreshToken(pkg: Package, app: Application, repo: Repository, w: ResponseWriter, cookies: seq<RequestCookie>,
                      newID: nat -> string, nowNano: int)
    requires repo.Valid() && w.Unwritten()
    modifies w
    ensures var replies := RefreshReplies(pkg, app, repo.users, cookies, newID, nowNano);
      w.body == Docs(replies)
      && w.setCookies == old(w.setCookies) + CookiesOf(replies)
      && (replies == [] ==> w.status == 0)
      && (replies != [] ==> w.status == replies[0].status
                            && w.sentCookies == old(w.setCookies) + CookieOf(replies[0]))
  {
    ghost var answers := Answers(pkg, app, repo.users, cookies, newID, nowNano);
    ghost var total := Replies(cookies, app.Auth.CookieName, answers, 0);
    ghost var cookies0 := w.setCookies;
    ghost var done: seq<Reply> := [];
    var i := 0;
    while i < |cookies|
      invariant 0 <= i <= |cookies|
      invariant total == done + Replies(cookies, app.Auth.CookieName, answers, i)
      invariant Shows(w, cookies0, done) && (done != [] ==> done[0].status == 200)
    {
      var stop;
      stop, done := RefreshStep(pkg, app, repo, w, cookies, newID, i, nowNano, answers, cookies0, done);
      if stop {
        return;
      }
      i := i + 1;
    }
    assert Replies(cookies, app.Auth.CookieName, answers, i) == [];
    assert done + [] == done;
  }

  /** Requests without a refresh cookie get no answer at all: no status line, no body. */
  lemma {:induction false} NoMatchNoReply(cookies: seq<RequestCookie>, name: string, answers: seq<Reply>, i: nat)
    requires |answers| == |cookies|
    requires forall k :: i <= k < |cookies| ==> cookies[k].name != name
    ensures Replies(cookies, name, answers, i) == []
    decreases |cookies| - i
  {
    if i < |cookies| {
      NoMatchNoReply(cookies, name, answers, i + 1);
    }
  }

  lemma NoRefreshCookieNoReply(pkg: Package, app: Application, users: map<string, User>, cookies: seq<RequestCookie>,
                               newID: nat -> string, nowNano: int)
    requires forall k :: 0 <= k < |cookies| ==> cookies[k].name != app.Auth.CookieName
    ensures RefreshReplies(pkg, app, users, cookies, newID, nowNano) == []
  {
    NoMatchNoReply(cookies, app.Auth.CookieName, Answers(pkg, app, users, cookies, newID, nowNano), 0);
  }

  /** Every reply is the answer of some cookie, and all but the last are `200`. */
  predicate ErrorOnlyLast(rs: seq<Reply>, answers: seq<Reply>) {
    && (forall k :: 0 <= k < |rs| ==> rs[k] in answers)
    && (forall k :: 0 <= k < |rs| - 1 ==> rs[k].status == 200)
  }

  /** The loop goes on only after a `200`: an error can only be the last reply. */
  lemma {:induction false} RepliesStopAtError(cookies: seq<RequestCookie>, name: string, answers: seq<Reply>,
                                              i: nat)
    requires |answers| == |cookies|
    ensures ErrorOnlyLast(Replies(cookies, name, answers, i), answers)
    decreases |cookies| - i
  {
    if i < |cookies| {
      RepliesStopAtError(cookies, name, answers, i + 1);
      var rest := Replies(cookies, name, answers, i + 1);
      assert answers[i] in answers;
      if cookies[i].name == name && answers[i].status == 200 {
        var rs := [answers[i]] + rest;
        forall k | 0 <= k < |rs|
          ensures rs[k] in answers && (k < |rs| - 1 ==> rs[k].status == 200)
        {
          if k > 0 {
            assert rs[k] == rest[k - 1];
          }
        }
      }
    }
  }

  /** Only the last refresh answer can be an error: every earlier one is a `200` with a new cookie. */
  lemma RefreshErrorsEndTheLoop(pkg: Package, app: Application, users: map<string, User>, cookies: seq<RequestCookie>,
                                newID: nat -> string, nowNano: int, k: int)
    requires 0 <= k < |RefreshReplies(pkg, app, users, cookies, newID, nowNano)| - 1
    ensures RefreshReplies(pkg, app, users, cookies, newID, nowNano)[k].status == 200
    ensures RefreshReplies(pkg, app, users, cookies, newID, nowNano)[k].cookie.Some?
  {
    var answers := Answers(pkg, app, users, cookies, newID, nowNano);
    RepliesStopAtError(cookies, app.Auth.CookieName, answers, 0);
    var rs := RefreshReplies(pkg, app, users, cookies, newID, nowNano);
    assert rs[k] in answers;
    var j :| 0 <= j < |answers| && answers[j] == rs[k];
    AnswerAt(pkg, app, users, cookies, newID, nowNano, j);
  }

  /** A request with one cookie, named like the refresh cookie, gets exactly that cookie's answer. */
  lemma OneCookieOneReply(pkg: Package, app: Application, users: map<string, User>, t: string, newID: nat -> string,
                          nowNano: int)
    ensures RefreshReplies(pkg, app, users, [RequestCookie(app.Auth.CookieName, t)], newID, nowNano)
      == [CookieReply(pkg, app, users, t, newID(0), nowNano)]
  {
    var cookies := [RequestCookie(app.Auth.CookieName, t)];
    var answers := Answers(pkg, app, users, cookies, newID, nowNano);
    AnswerAt(pkg, app, users, cookies, newID, nowNano, 0);
    assert Replies(cookies, app.Auth.CookieName, answers, 1) == [];
  }

  /** A lone refresh cookie that does not parse is answered `401` "unauthorized" and nothing else. */
  lemma UnparsedCookieRefused(pkg: Package, app: Application, users: map<string, User>, t: string,
                              newID: nat -> string, nowNano: int)
    requires Jwt.ParseWithClaims(t, app.JWTSecret, false, nowNano).Failure?
    ensures RefreshReplies(pkg, app, users, [RequestCookie(app.Auth.CookieName, t)], newID, nowNano)
      == [Reply(401, ErrorBody("unauthorized"), None)]
  {
    OneCookieOneReply(pkg, app, users, t, newID, nowNano);
  }

  /**
   * A refresh token presented within its lifetime to a server whose two
   * secrets agree earns a new pair for the token's subject.
   */
  lemma {:induction false} IssuedRefreshTokenRefreshes(pkg: Package, app: Application, u: User, users: map<string, User>,
                                                       tokenID: string, issuedAt: int, newID: nat -> string,
                                                       nowNano: int)
    requires app.JWTSecret == app.Auth.Secret != ""
    requires u.ID in users
    requires issuedAt <= nowNano < Jwt.UnixSeconds(issuedAt + app.Auth.RefreshExpiry) * Jwt.NanosPerSecond
    ensures var t := Jwt.Encode(Auth.RefreshToken(app.Auth, JwtUserOf(u), tokenID, issuedAt));
      var pair := IssuedFor(pkg, app.Auth, JwtUserOf(users[u.ID]), newID(0), nowNano);
      RefreshReplies(pkg, app, users, [RequestCookie(app.Auth.CookieName, t)], newID, nowNano)
        == [Reply(200, Auth.PairJson(pair), Some(Auth.GetRefreshCookie(app.Auth, pair.RefreshToken, nowNano)))]
  {
    var claims := Auth.RefreshClaims(app.Auth, JwtUserOf(u), tokenID, issuedAt);
    assert Jwt.UnixSeconds(issuedAt) * Jwt.NanosPerSecond <= issuedAt;
    assert !Jwt.IssuedInFuture(claims, nowNano);
    assert !Jwt.ExpiredAt(claims, nowNano);
    Jwt.ParseSigned(claims, app.Auth.Secret, false, nowNano);
    assert Jwt.Registered(claims).Subject == u.ID;
    OneCookieOneReply(pkg, app, users, Jwt.Encode(Auth.RefreshToken(app.Auth, JwtUserOf(u), tokenID, issuedAt)),
                      newID, nowNano);
  }

  /**
   * The refresh handler does not tell the two tokens apart: a live access
   * token in the refresh cookie earns a new pair as well.
   */
  lemma {:induction false} AccessTokenAlsoRefreshes(pkg: Package, app: Application, u: User, users: map<string, User>,
                                                    tokenID: string, issuedAt: int, newID: nat -> string,
                                                    nowNano: int)
    requires app.JWTSecret == app.Auth.Secret != ""
    requires u.ID in users
    requires issuedAt <= nowNano < Jwt.UnixSeconds(issuedAt + app.Auth.TokenExpiry) * Jwt.NanosPerSecond
    ensures var t := Jwt.Encode(Auth.AccessToken(app.Auth, JwtUserOf(u), tokenID, issuedAt));
      var rs := RefreshReplies(pkg, app, users, [RequestCookie(app.Auth.CookieName, t)], newID, nowNano);
      |rs| == 1 && rs[0].status == 200
  {
    var claims := Auth.AccessClaims(app.Auth, JwtUserOf(u), tokenID, issuedAt);
    assert Jwt.UnixSeconds(issuedAt) * Jwt.NanosPerSecond <= issuedAt;
    assert !Jwt.IssuedInFuture(claims, nowNano);
    assert !Jwt.ExpiredAt(claims, nowNano);
    Jwt.ParseSigned(claims, app.Auth.Secret, false, nowNano);
    assert Jwt.Registered(claims).Subject == u.ID;
    OneCookieOneReply(pkg, app, users, Jwt.Encode(Auth.AccessToken(app.Auth, JwtUserOf(u), tokenID, issuedAt)),
                      newID, nowNano);
  }

  /** Whether a cookie's answer is a `200` does not depend on the id the new pair would get. */
  lemma ReplyStatusIgnoresTokenID(pkg: Package, app: Application, users: map<string, User>, value: string, id1: string,
                                  id2: string, nowNano: int)
    ensures CookieReply(pkg, app, users, value, id1, nowNano).status == CookieReply(pkg, app, users, value, id2, nowNano).status
  {
  }

  /**
   * There is no `return` after a successful refresh: the same valid cookie
   * sent twice is answered twice, with two pairs and two cookies.
   */
  lemma {:induction false} DuplicateCookieAnsweredTwice(pkg: Package, app: Application, users: map<string, User>, t: string,
                                                        newID: nat -> string, nowNano: int)
    requires CookieReply(pkg, app, users, t, newID(0), nowNano).status == 200
    ensures var rs := RefreshReplies(pkg, app, users, [RequestCookie(app.Auth.CookieName, t),
                                                  RequestCookie(app.Auth.CookieName, t)], newID, nowNano);
      |rs| == 2 && rs[0].status == 200 && rs[1].status == 200
      && rs[0].cookie.Some? && rs[1].cookie.Some?
  {
    var name := app.Auth.CookieName;
    var two := [RequestCookie(name, t), RequestCookie(name, t)];
    var answers := Answers(pkg, app, users, two, newID, nowNano);
    ReplyStatusIgnoresTokenID(pkg, app, users, t, newID(0), newID(1), nowNano);
    AnswerAt(pkg, app, users, two, newID, nowNano, 0);
    AnswerAt(pkg, app, users, two, newID, nowNano, 1);
    assert answers[0].status == 200 && answers[1].status == 200;
    assert Replies(two, name, answers, 2) == [];
    assert Replies(two, name, answers, 1) == [answers[1]];
    assert Replies(two, name, answers, 0) == [answers[0], answers[1]];
  }

  // ---------------------------------------------------------------------
  // Logout
  // ---------------------------------------------------------------------

  /**
   * `Logout`: the deleting cookie, then `202`; the `200` that `WriteJSON`
   * asks for afterwards is superfluous and the body follows.
   */
  method Logout(app: Application, w: ResponseWriter)
    requires w.Unwritten()
    modifies w
    ensures w.Replied(202, [MessageBody("successfully logged out", None)])
    ensures w.sentCookies == old(w.setCookies) + [Auth.GetExpiredRefreshCookie(app.Auth)]
  {
    w.SetCookie(Auth.GetExpiredRefreshCookie(app.Auth));
    w.WriteHeader(202);
    JsonResponseMarshalable(false, "successfully logged out", None);
    var _ := WriteJSON(w, 200, MessageBody("successfully logged out", None), []);
  }

  // ---------------------------------------------------------------------
  // RegisterNewUser
  // ---------------------------------------------------------------------

  /** The confirmation a new account gets: unconfirmed, valid for 30 minutes, in Unix seconds. */
  function NewConfirmation(confirmationID: string, userID: string, nowNano: int): (c: Confirmation)
    ensures c.UserID == userID && !c.Confirmed
    ensures c.ExpiredAt == Jwt.UnixSeconds(nowNano + 30 * Auth.Minute)
  {
    Confirmation(confirmationID, userID, Jwt.UnixSeconds(nowNano + 30 * Auth.Minute), nowNano, false)
  }

  /** A new confirmation is valid for the next thirty minutes, up to the truncated second. */
  lemma NewConfirmationValid(confirmationID: string, userID: string, nowNano: int, laterNano: int)
    requires nowNano <= laterNano <= nowNano + 29 * Auth.Minute
    ensures !ExpiredBy(NewConfirmation(confirmationID, userID, nowNano).ExpiredAt, laterNano)
  {
  }

  /** The mode name registration assigns, given how many users exist after the insert. */
  function ModeNameFor(userCount: nat): (name: string)
    ensures name == "admin" <==> userCount <= 1
  {
    if userCount > 1 then "default" else "admin"
  }

  /** The user row registration stores: the decoded body with the hashed password, created now. */
  function RegisteredUser(payload: User, hashed: string, nowNano: int): User {
    payload.(Password := hashed, CreatedAt := nowNano, Mode := ZeroMode)
  }

  /** The stored password is the hash of the submitted one: never the plain text, and it matches it. */
  lemma StoredPasswordIsHashed(payload: User, nowNano: int)
    requires Bcrypt.GenerateFromPassword(payload.Password).Success?
    ensures var stored := RegisteredUser(payload, Bcrypt.GenerateFromPassword(payload.Password).value, nowNano);
      stored.Password != payload.Password && PasswordMatches(stored, payload.Password) == Success(true)
  {
    var stored := RegisteredUser(payload, Bcrypt.GenerateFromPassword(payload.Password).value, nowNano);
    assert |stored.Password| > |payload.Password|;
    PasswordMatchesHashed(stored, payload.Password, payload.Password);
  }

  /** The error body an optional error adds: none, or one. */
  function ErrorReport(err: Option<string>): (docs: seq<Json>)
    ensures err.None? <==> docs == []
  {
    if err.Some? then [ErrorBody(err.value)] else []
  }

  /**
   * What happens after the `201`: the confirmation row, then the handler's
   * own mode row (its name chosen from the number of users) under the next
   * sequence value, then the e-mail.  Each error appends an error body after
   * the success body and ends the handler; the sequence advances even when
   * the mode insert collides with a row already under that value.
   */
  method FinishRegistration(repo: Repository, w: ResponseWriter, userID: string, confirmationID: string,
                            nowNano: int, modeName: Option<string>, emailError: Option<string>)
    requires repo.Valid() && w.status == 201
    modifies repo`confirmations, repo`modes, repo`nextModeID, w
    ensures repo.Valid() && w.status == 201
    ensures var name := if modeName.Some? then modeName.value else ModeNameFor(|repo.users|);
      var next := old(repo.nextModeID);
      if confirmationID in old(repo.confirmations) then
        w.body == old(w.body) + [ErrorBody(ErrDuplicatedKey)]
        && repo.confirmations == old(repo.confirmations) && repo.modes == old(repo.modes) && repo.nextModeID == next
      else
        repo.confirmations == old(repo.confirmations)[confirmationID := NewConfirmation(confirmationID, userID, nowNano)]
        && repo.nextModeID == next + 1
        && if next in old(repo.modes) then
             w.body == old(w.body) + [ErrorBody(ErrDuplicatedKey)] && repo.modes == old(repo.modes)
           else
             w.body == old(w.body) + ErrorReport(emailError)
             && repo.modes == old(repo.modes)[next := Mode(next, name, userID)]
  {
    var inserted := repo.InsertConfirmation(NewConfirmation(confirmationID, userID, nowNano));
    if inserted.Failure? {
      var _ := ErrorJSON(w, Some(inserted.error), []);
      return;
    }
    var name: string;
    if modeName.Some? {
      name := modeName.value;
    } else {
      var users := repo.GetAllUsers();
      name := ModeNameFor(|users|);
    }
    var created := repo.CreateMode(Mode(0, name, userID));
    if created.Failure? {
      var _ := ErrorJSON(w, Some(created.error), []);
      return;
    }
    if emailError.Some? {
      var _ := ErrorJSON(w, emailError, []);
    }
  }

  /**
   * `RegisterNewUser`: `envError` is the outcome of loading `.env`,
   * `payload` the decoded `models.User` (its id is the newID one unless the
   * body names another, and its `Mode` whatever the body's "mode" holds),
   * `profileError` and `imageError` the outcomes of copying the default
   * profile picture and recording it, `emailError` that of the confirmation
   * e-mail.  Every error answers `400` with its text, or follows the `201`.
   */
  method RegisterNewUser(repo: Repository, w: ResponseWriter, envError: Option<string>,
                         payload: Result<User, string>, nowNano: int, confirmationID: string,
                         profileError: Option<string>, imageError: Option<string>, emailError: Option<string>)
    requires repo.Valid() && w.Unwritten()
    modifies repo, w
    ensures repo.Valid()
    ensures envError.Some? ==> w.Replied(400, [ErrorBody(envError.value)]) && unchanged(repo)
    ensures envError.None? && payload.Failure? ==> w.Replied(400, [ErrorBody(payload.error)]) && unchanged(repo)
    ensures envError.None? && payload.Success? ==>
      RegistrationOutcome(repo, w, payload.value, Bcrypt.GenerateFromPassword(payload.value.Password), nowNano,
                          confirmationID, profileError, imageError, emailError)
  {
    if envError.Some? {
      var _ := ErrorJSON(w, envError, []);
      return;
    }
    if payload.Failure? {
      var _ := ErrorJSON(w, Some(payload.error), []);
      return;
    }
    RegisterUser(repo, w, payload.value, nowNano, confirmationID, profileError, imageError, emailError);
  }

  /**
   * What registration leaves after the `201`, from confirmations `before`,
   * modes `saved` and sequence value `next`: the confirmation, then a mode
   * row named `name` under `next`, then the e-mail; each error appends its
   * body and ends the handler.
   */
  predicate RegistrationFinished(repo: Repository, w: ResponseWriter, userID: string, confirmationID: string,
                                 nowNano: int, name: string, emailError: Option<string>,
                                 before: map<string, Confirmation>, saved: map<nat, Mode>, next: nat)
    reads repo, w
  {
    var created := MessageBody("user successfully created", Some(Str(userID)));
    if confirmationID in before then
      w.Replied(201, [created, ErrorBody(ErrDuplicatedKey)])
      && repo.confirmations == before && repo.modes == saved && repo.nextModeID == next
    else
      repo.confirmations == before[confirmationID := NewConfirmation(confirmationID, userID, nowNano)]
      && repo.nextModeID == next + 1
      && if next in saved then
           w.Replied(201, [created, ErrorBody(ErrDuplicatedKey)]) && repo.modes == saved
         else
           w.Replied(201, [created] + ErrorReport(emailError))
           && repo.modes == saved[next := Mode(next, name, userID)]
  }

  /**
   * What registering the decoded user `u` leaves, `hashed` being the
   * outcome of hashing its password: a failed hash, a taken
   * e-mail or a taken id answers `400` and changes nothing.  Otherwise the
   * user row is stored with its hash and creation time, and the mode the
   * body carried is saved with it (`SaveAssociation`); the default
   * picture's outcomes then decide between a `400` and the `201`, which the
   * confirmation, the handler's own mode row and the e-mail follow.
   */
  twostate predicate RegistrationOutcome(repo: Repository, w: ResponseWriter, u: User, hashed: Result<string, string>,
                                         nowNano: int, confirmationID: string,
                                         profileError: Option<string>, imageError: Option<string>,
                                         emailError: Option<string>)
    reads repo, w
  {
    if hashed.Failure? then
      w.Replied(400, [ErrorBody(hashed.error)]) && unchanged(repo)
    else if EmailTaken(old(repo.users), u.Email) then
      w.Replied(400, [ErrorBody(ErrUserExists)]) && unchanged(repo)
    else if u.ID in old(repo.users) then
      w.Replied(400, [ErrorBody(ErrDuplicatedKey)]) && unchanged(repo)
    else
      var saved := SaveAssociation(old(repo.modes), old(repo.nextModeID), u.ID, u.Mode);
      var next := SequenceAfterSave(old(repo.nextModeID), u.Mode);
      repo.users == old(repo.users)[u.ID := RegisteredUser(u, hashed.value, nowNano)]
      && repo.tokens == old(repo.tokens)
      && StoredUserAnswered(repo, w, u.ID, confirmationID, nowNano, ModeNameFor(|old(repo.users)| + 1),
                            profileError, imageError, emailError, old(repo.confirmations), saved, next)
  }

  /**
   * What registration leaves once the user row is stored, from
   * confirmations `before`, modes `saved` and sequence value `next`: a
   * failure of the default picture answers `400` and adds nothing more;
   * otherwise the `201` and `RegistrationFinished` with mode name `name`.
   */
  predicate StoredUserAnswered(repo: Repository, w: ResponseWriter, userID: string, confirmationID: string,
                               nowNano: int, name: string, profileError: Option<string>, imageError: Option<string>,
                               emailError: Option<string>, before: map<string, Confirmation>,
                               saved: map<nat, Mode>, next: nat)
    reads repo, w
  {
    if profileError.Some? then
      w.Replied(400, [ErrorBody(profileError.value)])
      && repo.confirmations == before && repo.modes == saved && repo.nextModeID == next
    else if imageError.Some? then
      w.Replied(400, [ErrorBody(imageError.value)])
      && repo.confirmations == before && repo.modes == saved && repo.nextModeID == next
    else
      RegistrationFinished(repo, w, userID, confirmationID, nowNano, name, emailError, before, saved, next)
  }

  /** `RegisterNewUser` once the payload has decoded: the hash, the user row, then `AnswerCreated`. */
  method RegisterUser(repo: Repository, w: ResponseWriter, u: User, nowNano: int, confirmationID: string,
                      profileError: Option<string>, imageError: Option<string>, emailError: Option<string>)
    requires repo.Valid() && w.Unwritten()
    modifies repo, w
    ensures repo.Valid()
    ensures RegistrationOutcome(repo, w, u, Bcrypt.GenerateFromPassword(u.Password), nowNano, confirmationID,
                                profileError, imageError, emailError)
  {
    var hashedPassword := Bcrypt.GenerateFromPassword(u.Password);
    if hashedPassword.Failure? {
      var _ := ErrorJSON(w, Some(hashedPassword.error), []);
      return;
    }
    StoreUser(repo, w, u, hashedPassword.value, nowNano, confirmationID, profileError, imageError, emailError);
  }

  /** `RegisterNewUser` once the password is hashed to `hashed`: the user row, then `AnswerCreated`. */
  method StoreUser(repo: Repository, w: ResponseWriter, u: User, hashed: string, nowNano: int, confirmationID: string,
                   profileError: Option<string>, imageError: Option<string>, emailError: Option<string>)
    requires repo.Valid() && w.Unwritten()
    modifies repo, w
    ensures repo.Valid()
    ensures RegistrationOutcome(repo, w, u, Success(hashed), nowNano, confirmationID, profileError, imageError, emailError)
  {
    var stored := CreateOrRefuse(repo, w, u.(Password := hashed, CreatedAt := nowNano));
    if !stored {
      return;
    }
    assert repo.users == old(repo.users)[u.ID := RegisteredUser(u, hashed, nowNano)];
    assert |repo.users| == |old(repo.users)| + 1;
    ghost var saved, next := repo.modes, repo.nextModeID;
    AnswerCreated(repo, w, u.ID, confirmationID, nowNano, profileError, imageError, emailError);
    assert StoredUserAnswered(repo, w, u.ID, confirmationID, nowNano, ModeNameFor(|old(repo.users)| + 1),
                              profileError, imageError, emailError, old(repo.confirmations), saved, next);
  }

  /** `CreateUser` with its error answered `400`; `stored` says whether the handler goes on. */
  method CreateOrRefuse(repo: Repository, w: ResponseWriter, user: User) returns (stored: bool)
    requires repo.Valid() && w.Unwritten()
    modifies repo`users, repo`modes, repo`nextModeID, w
    ensures repo.Valid()
    ensures stored <==> !EmailTaken(old(repo.users), user.Email) && user.ID !in old(repo.users)
    ensures !stored ==> unchanged(repo)
    ensures EmailTaken(old(repo.users), user.Email) ==> w.Replied(400, [ErrorBody(ErrUserExists)])
    ensures !EmailTaken(old(repo.users), user.Email) && user.ID in old(repo.users) ==>
      w.Replied(400, [ErrorBody(ErrDuplicatedKey)])
    ensures stored ==>
      w.Unwritten()
      && repo.users == old(repo.users)[user.ID := user.(Mode := ZeroMode)]
      && repo.modes == SaveAssociation(old(repo.modes), old(repo.nextModeID), user.ID, user.Mode)
      && repo.nextModeID == SequenceAfterSave(old(repo.nextModeID), user.Mode)
  {
    var userID := repo.CreateUser(user);
    if userID.Failure? {
      var _ := ErrorJSON(w, Some(userID.error), []);
      return false;
    }
    return true;
  }

  /**
   * The part of `RegisterNewUser` after the user row is stored: the default
   * profile picture and its record, then the `201` and `FinishRegistration`.
   */
  method AnswerCreated(repo: Repository, w: ResponseWriter, userID: string, confirmationID: string, nowNano: int,
                       profileError: Option<string>, imageError: Option<string>, emailError: Option<string>)
    requires repo.Valid() && w.Unwritten()
    modifies repo`confirmations, repo`modes, repo`nextModeID, w
    ensures repo.Valid()
    ensures StoredUserAnswered(repo, w, userID, confirmationID, nowNano, ModeNameFor(|repo.users|),
                               profileError, imageError, emailError,
                               old(repo.confirmations), old(repo.modes), old(repo.nextModeID))
  {
    if profileError.Some? {
      var _ := ErrorJSON(w, profileError, []);
      return;
    }
    if imageError.Some? {
      var _ := ErrorJSON(w, imageError, []);
      return;
    }
    var created := MessageBody("user successfully created", Some(Str(userID)));
    JsonResponseMarshalable(false, "user successfully created", Some(Str(userID)));
    var _ := WriteJSON(w, 201, created, []);
    FinishRegistration(repo, w, userID, confirmationID, nowNano, None, emailError);
  }

  /**
   * The mode row the handler adds itself is named "admin" for the first
   * user and "default" for every later one.  It is not the only row the
   * registration can give: see `BodyCanAskForAdmin`.
   */
  lemma FirstUserIsAdmin(existing: nat)
    ensures ModeNameFor(existing + 1) == "admin" <==> existing == 0
  {
  }

  /**
   * A request body carrying `"mode": {"mode_name": "admin"}` gets its user
   * an "admin" row under the next sequence value whenever that value is
   * free, however many users exist: the association is saved with the user.
   */
  lemma BodyCanAskForAdmin(modes: map<nat, Mode>, next: nat, u: User)
    requires u.Mode == Mode(0, "admin", "") && next !in modes
    ensures next in SaveAssociation(modes, next, u.ID, u.Mode)
    ensures SaveAssociation(modes, next, u.ID, u.Mode)[next] == Mode(next, "admin", u.ID)
    ensures SequenceAfterSave(next, u.Mode) == next + 1
  {
    SavedModeGrantsName(modes, next, u.ID, u.Mode);
  }
}
