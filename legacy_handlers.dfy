/**
 * The handlers of the legacy `main` package that differ from the `handlers`
 * package.  Its `authenticate` and `refreshToken` are the login and refresh
 * handlers run with `Package.Main`, so they hand out the access token as the
 * refresh token; its `logout`, `ConfirmUser`, `SetTokenToUsed`,
 * `AddMissingCreationDate` and `Updateuser` are those of the `handlers`
 * package.  What remains is registration without a profile image and with
 * the mode "1212", and two deletions that write their success body even
 * after an error.
 */
module LegacyHandlers {
  import opened Wrappers
  import opened Text
  import opened Http
  import opened Utils
  import opened Models
  import opened Repositories
  import opened Middleware
  import opened AuthHandlers
  import AccountHandlers
  import Auth
  import LegacyAuth
  import Jwt
  import Bcrypt

  // ---------------------------------------------------------------------
  // authenticate and refreshToken
  // ---------------------------------------------------------------------

  /**
   * The cookie the legacy login sets is refused by the legacy refresh
   * handler as soon as the access token has expired, while the cookie of the
   * `handlers` package, issued at the same instant, still earns a new pair.
   */
  lemma {:induction false} LegacyRefreshCookieDiesWithAccessToken(app: Application, u: User,
                                                                  users: map<string, User>, tokenID: string,
                                                                  issuedAt: int, newID: nat -> string)
    requires app.JWTSecret == app.Auth.Secret != ""
    requires u.ID in users
    requires Jwt.NanosPerSecond <= app.Auth.TokenExpiry
    requires Jwt.UnixSeconds(issuedAt + app.Auth.TokenExpiry) < Jwt.UnixSeconds(issuedAt + app.Auth.RefreshExpiry)
    ensures var at := Jwt.UnixSeconds(issuedAt + app.Auth.TokenExpiry) * Jwt.NanosPerSecond;
      var legacy := IssuedFor(Main, app.Auth, JwtUserOf(u), tokenID, issuedAt).RefreshToken;
      var current := IssuedFor(Handlers, app.Auth, JwtUserOf(u), tokenID, issuedAt).RefreshToken;
      RefreshReplies(Main, app, users, [RequestCookie(app.Auth.CookieName, legacy)], newID, at)
        == [Reply(401, ErrorBody("unauthorized"), None)]
      && RefreshReplies(Handlers, app, users, [RequestCookie(app.Auth.CookieName, current)], newID, at)[0].status
        == 200
  {
    var at := Jwt.UnixSeconds(issuedAt + app.Auth.TokenExpiry) * Jwt.NanosPerSecond;
    LegacyCookieRefused(app, u, users, tokenID, issuedAt, newID, at);
    assert at < Jwt.UnixSeconds(issuedAt + app.Auth.RefreshExpiry) * Jwt.NanosPerSecond;
    assert issuedAt <= at;
    IssuedRefreshTokenRefreshes(Handlers, app, u, users, tokenID, issuedAt, newID, at);
  }

  /** Once its access token has expired, the cookie the legacy login sets is refused. */
  lemma {:induction false} LegacyCookieRefused(app: Application, u: User, users: map<string, User>,
                                               tokenID: string, issuedAt: int, newID: nat -> string, at: int)
    requires app.JWTSecret == app.Auth.Secret != ""
    requires 0 <= app.Auth.TokenExpiry
    requires at == Jwt.UnixSeconds(issuedAt + app.Auth.TokenExpiry) * Jwt.NanosPerSecond
    ensures var legacy := IssuedFor(Main, app.Auth, JwtUserOf(u), tokenID, issuedAt).RefreshToken;
      RefreshReplies(Main, app, users, [RequestCookie(app.Auth.CookieName, legacy)], newID, at)
        == [Reply(401, ErrorBody("unauthorized"), None)]
  {
    var legacy := IssuedFor(Main, app.Auth, JwtUserOf(u), tokenID, issuedAt).RefreshToken;
    LegacyCookieExpired(app, JwtUserOf(u), tokenID, issuedAt, at);
    UnparsedCookieRefused(Main, app, users, legacy, newID, at);
  }

  /** The legacy refresh cookie's value, read with `JWTSecret` at the access token's expiry second, is expired. */
  lemma {:induction false} LegacyCookieExpired(app: Application, user: Auth.JwtUser, tokenID: string, issuedAt: int,
                                               at: int)
    requires app.JWTSecret == app.Auth.Secret != ""
    requires 0 <= app.Auth.TokenExpiry
    requires at == Jwt.UnixSeconds(issuedAt + app.Auth.TokenExpiry) * Jwt.NanosPerSecond
    ensures Jwt.ParseWithClaims(IssuedFor(Main, app.Auth, user, tokenID, issuedAt).RefreshToken, app.JWTSecret, false, at)
      == Failure(Jwt.Expired)
  {
    LegacyAuth.LegacyRefreshTokenExpired(app.Auth, user, tokenID, issuedAt, at);
  }

  // ---------------------------------------------------------------------
  // RegisterNewUser
  // ---------------------------------------------------------------------

  /** The mode name the legacy registration gives every user. */
  const LegacyModeName: string := "1212"

  /**
   * The legacy `RegisterNewUser`: no profile image, and the handler's own
   * mode row is "1212" whatever the number of users.  The mode the body
   * carried is saved with the user as in the current package.
   */
  method RegisterNewUser(repo: Repository, w: ResponseWriter, envError: Option<string>,
                         payload: Result<User, string>, nowNano: int, confirmationID: string,
                         emailError: Option<string>)
    requires repo.Valid() && w.Unwritten()
    modifies repo, w
    ensures repo.Valid()
    ensures envError.Some? ==> w.Replied(400, [ErrorBody(envError.value)]) && unchanged(repo)
    ensures envError.None? && payload.Failure? ==> w.Replied(400, [ErrorBody(payload.error)]) && unchanged(repo)
    ensures envError.None? && payload.Success? && Bcrypt.GenerateFromPassword(payload.value.Password).Failure?
      ==> w.Replied(400, [ErrorBody(Bcrypt.GenerateFromPassword(payload.value.Password).error)]) && unchanged(repo)
    ensures envError.None? && payload.Success? && Bcrypt.GenerateFromPassword(payload.value.Password).Success?
      ==>
        var u := payload.value;
        var stored := RegisteredUser(u, Bcrypt.GenerateFromPassword(u.Password).value, nowNano);
        if EmailTaken(old(repo.users), u.Email) then
          w.Replied(400, [ErrorBody(ErrUserExists)]) && unchanged(repo)
        else if u.ID in old(repo.users) then
          w.Replied(400, [ErrorBody(ErrDuplicatedKey)]) && unchanged(repo)
        else
          repo.users == old(repo.users)[u.ID := stored]
          && repo.tokens == old(repo.tokens)
          && RegistrationFinished(repo, w, u.ID, confirmationID, nowNano, LegacyModeName, emailError,
                                  old(repo.confirmations),
                                  SaveAssociation(old(repo.modes), old(repo.nextModeID), u.ID, u.Mode),
                                  SequenceAfterSave(old(repo.nextModeID), u.Mode))
  {
    if envError.Some? {
      var _ := ErrorJSON(w, envError, []);
      return;
    }
    if payload.Failure? {
      var _ := ErrorJSON(w, Some(payload.error), []);
      return;
    }
    var newUser := payload.value;
    var hashedPassword := Bcrypt.GenerateFromPassword(newUser.Password);
    if hashedPassword.Failure? {
      var _ := ErrorJSON(w, Some(hashedPassword.error), []);
      return;
    }
    newUser := newUser.(Password := hashedPassword.value, CreatedAt := nowNano);
    var stored := CreateOrRefuse(repo, w, newUser);
    if !stored {
      return;
    }
    assert repo.users == old(repo.users)[payload.value.ID := RegisteredUser(payload.value, hashedPassword.value, nowNano)];
    ghost var saved, next := repo.modes, repo.nextModeID;
    AnswerCreated(repo, w, newUser.ID, confirmationID, nowNano, emailError);
    assert RegistrationFinished(repo, w, newUser.ID, confirmationID, nowNano, LegacyModeName, emailError,
                                old(repo.confirmations), saved, next);
  }

  /** The part of the legacy `RegisterNewUser` after the user row is stored: the `201` and `FinishRegistration`. */
  method AnswerCreated(repo: Repository, w: ResponseWriter, userID: string, confirmationID: string, nowNano: int,
                       emailError: Option<string>)
    requires repo.Valid() && w.Unwritten()
    modifies repo`confirmations, repo`modes, repo`nextModeID, w
    ensures repo.Valid()
    ensures RegistrationFinished(repo, w, userID, confirmationID, nowNano, LegacyModeName, emailError,
                                 old(repo.confirmations), old(repo.modes), old(repo.nextModeID))
  {
    var created := MessageBody("user successfully created", Some(Str(userID)));
    JsonResponseMarshalable(false, "user successfully created", Some(Str(userID)));
    var _ := WriteJSON(w, 201, created, []);
    FinishRegistration(repo, w, userID, confirmationID, nowNano, Some(LegacyModeName), emailError);
  }

  /**
   * A user whose mode row is the "1212" one the legacy handler adds is not
   * an admin, not even the first, so the user lookup never shows their
   * password hash.  Other rows the same user holds are not covered: see
   * `AuthHandlers.BodyCanAskForAdmin`.
   */
  lemma LegacyUsersNeverAdmin(u: User)
    requires u.Mode.Name == LegacyModeName
    ensures Member(AccountHandlers.UserView(u), "password").None?
  {
  }

  // ---------------------------------------------------------------------
  // DeleteUser and DeleteUserMode
  // ---------------------------------------------------------------------

  /**
   * The legacy `DeleteUser`: the error body, if any, is written and the
   * success body follows it; the status line is the first one sent.
   */
  method DeleteUser(repo: Repository, w: ResponseWriter, userID: string)
    requires repo.Valid() && w.Unwritten()
    modifies repo`users, w
    ensures repo.Valid()
    ensures repo.users == old(repo.users) - {userID}
    ensures userID !in old(repo.users) ==>
      w.Replied(400, [ErrorBody(ErrUserNotFound), MessageBody("successfully removed user", None)])
    ensures userID in old(repo.users) ==> w.Replied(200, [MessageBody("successfully removed user", None)])
  {
    var err := repo.DeleteUserByID(userID);
    if err.Some? {
      var _ := ErrorJSON(w, err, []);
    }
    JsonResponseMarshalable(false, "successfully removed user", None);
    var _ := WriteJSON(w, 200, MessageBody("successfully removed user", None), []);
  }

  /** The bounds of Go's `int` on a 64-bit platform, and of `uint64`. */
  const MinInt64: int := -0x8000_0000_0000_0000
  const MaxInt64: int := 0x7fff_ffff_ffff_ffff
  const MaxUint64: int := 0xffff_ffff_ffff_ffff

  /** `s` without its leading sign, if it has one. */
  function Unsigned(s: string): (u: string)
    ensures |u| <= |s|
  {
    if s != [] && (s[0] == '+' || s[0] == '-') then s[1..] else s
  }

  function SyntaxError(s: string): string {
    "strconv.Atoi: parsing \"" + s + "\": invalid syntax"
  }

  function RangeError(s: string): string {
    "strconv.Atoi: parsing \"" + s + "\": value out of range"
  }

  /**
   * `strconv.Atoi`: an optional sign and decimal digits, within the 64-bit
   * range.  The digits are read one at a time as an unsigned 64-bit value:
   * a run of digits that overflows it is out of range whatever follows,
   * otherwise a non-digit or the lack of any digit is a syntax error, and
   * only a whole number is then checked against the signed range.
   */
  function Atoi(s: string): (r: Result<int, string>)
    ensures r.Success? ==> MinInt64 <= r.value <= MaxInt64
    ensures r.Success? ==> s != [] && AllDigits(Unsigned(s)) && (r.value < 0 ==> s[0] == '-')
    ensures r.Failure? ==> r.error == SyntaxError(s) || r.error == RangeError(s)
  {
    var digits := Unsigned(s);
    var run := digits[..DigitRun(digits)];
    if DigitsValue(run) > MaxUint64 then Failure(RangeError(s))
    else if run == [] || |run| < |digits| then Failure(SyntaxError(s))
    else
      var n: int := DigitsValue(run);
      var v := if s[0] == '-' then -n else n;
      if v < MinInt64 || MaxInt64 < v then Failure(RangeError(s))
      else Success(v)
  }

  /** `Atoi` reads back every 64-bit integer written in decimal, with or without a plus sign. */
  lemma AtoiReadsDecimal(i: int)
    requires MinInt64 <= i <= MaxInt64
    ensures Atoi(IntToString(i)) == Success(i)
    ensures i >= 0 ==> Atoi("+" + IntToString(i)) == Success(i)
  {
    if i < 0 {
      AtoiNegative(i);
    } else {
      AtoiUnsigned(i);
      AtoiPlus(i);
    }
  }

  lemma AtoiNegative(i: int)
    requires MinInt64 <= i < 0
    ensures Atoi(IntToString(i)) == Success(i)
  {
    AtoiWhole("-", -i);
    assert IntToString(i) == "-" + NatToString(-i);
  }

  lemma AtoiUnsigned(i: int)
    requires 0 <= i <= MaxInt64
    ensures Atoi(IntToString(i)) == Success(i)
  {
    AtoiWhole("", i);
    assert "" + NatToString(i) == IntToString(i);
  }

  lemma AtoiPlus(i: int)
    requires 0 <= i <= MaxInt64
    ensures Atoi("+" + IntToString(i)) == Success(i)
  {
    AtoiWhole("+", i);
    assert "+" + IntToString(i) == "+" + NatToString(i);
  }

  /** A sign and the decimal digits of `n`, and nothing else: the signed range alone decides. */
  lemma AtoiWhole(sign: string, n: nat)
    requires sign == "" || sign == "+" || sign == "-"
    ensures var v := if sign == "-" then -(n as int) else n as int;
      Atoi(sign + NatToString(n)) ==
        if v < MinInt64 || MaxInt64 < v then Failure(RangeError(sign + NatToString(n))) else Success(v)
  {
    var digits := NatToString(n);
    ParseNatToString(n);
    AtoiRun(sign, digits, "");
    assert sign + digits + "" == sign + digits;
  }

  /** A sign, then text starting with a digit: `Unsigned` strips exactly the sign. */
  lemma AtoiSigned(sign: string, digits: string)
    requires sign == "" || sign == "+" || sign == "-"
    requires digits != [] && IsDigit(digits[0])
    ensures Unsigned(sign + digits) == digits
    ensures (sign + digits)[0] == '-' <==> sign == "-"
  {
    if sign == "" {
      assert sign + digits == digits;
    } else {
      assert (sign + digits)[0] == sign[0];
      assert (sign + digits)[1..] == digits;
    }
  }

  /**
   * A sign, digits, and a tail that does not start with a digit: the digit
   * run `Atoi` reads is exactly those digits.
   */
  lemma AtoiRun(sign: string, digits: string, tail: string)
    requires sign == "" || sign == "+" || sign == "-"
    requires digits != [] && AllDigits(digits)
    requires tail == [] || !IsDigit(tail[0])
    ensures var u := Unsigned(sign + digits + tail);
      u[..DigitRun(u)] == digits && |u| == |digits| + |tail|
    ensures (sign + digits + tail)[0] == '-' <==> sign == "-"
  {
    assert sign + digits + tail == sign + (digits + tail);
    AtoiSigned(sign, digits + tail);
    DigitRunOf(digits, tail);
  }

  /**
   * Which text each refusal carries.  A digit run past the unsigned 64-bit
   * range is out of range even when something follows it; a digit run
   * within it followed by anything else is a syntax error; so is a bare
   * sign or nothing at all.
   */
  lemma AtoiErrors(sign: string, n: nat, tail: string)
    requires sign == "" || sign == "+" || sign == "-"
    requires tail == [] || !IsDigit(tail[0])
    ensures MaxUint64 < n ==>
      Atoi(sign + NatToString(n) + tail) == Failure(RangeError(sign + NatToString(n) + tail))
    ensures n <= MaxUint64 && tail != [] ==>
      Atoi(sign + NatToString(n) + tail) == Failure(SyntaxError(sign + NatToString(n) + tail))
    ensures Atoi(sign) == Failure(SyntaxError(sign))
  {
    ParseNatToString(n);
    AtoiRun(sign, NatToString(n), tail);
    assert Unsigned(sign) == [];
  }

  /** A signed decimal outside the 64-bit range is always out of range. */
  lemma AtoiOutOfRange(i: int)
    requires i < MinInt64 || MaxInt64 < i
    ensures Atoi(IntToString(i)) == Failure(RangeError(IntToString(i)))
    ensures i >= 0 ==> Atoi("+" + IntToString(i)) == Failure(RangeError("+" + IntToString(i)))
  {
    if i < 0 {
      AtoiWhole("-", -i);
    } else {
      AtoiWhole("", i);
      AtoiWhole("+", i);
      assert "" + NatToString(i) == IntToString(i);
    }
  }

  /**
   * The legacy `DeleteUserMode`: a mode id that does not parse is refused;
   * otherwise a failed deletion writes its error and, like `DeleteUser`, the
   * success body after it.
   */
  method DeleteUserMode(repo: Repository, w: ResponseWriter, modeIDParam: string)
    requires repo.Valid() && w.Unwritten()
    modifies w
    ensures Atoi(modeIDParam).Failure? ==> w.Replied(400, [ErrorBody(Atoi(modeIDParam).error)])
    ensures Atoi(modeIDParam).Success? ==>
      var id := Atoi(modeIDParam).value;
      if id < 0 || id !in repo.modes then
        w.Replied(400, [ErrorBody(ErrModeNotFound), MessageBody("successfully removed user mode", None)])
      else
        w.Replied(200, [MessageBody("successfully removed user mode", None)]) && id as nat in repo.modes
  {
    var modeID := Atoi(modeIDParam);
    if modeID.Failure? {
      var _ := ErrorJSON(w, Some(modeID.error), []);
      return;
    }
    DeleteModeAnswer(repo, w, modeID.value);
  }

  /**
   * `DeleteUserMode` once the id has parsed: the deletion, its error if
   * any, then the success body.  The deletion is never committed, so a
   * mode reported removed is still stored.
   */
  method DeleteModeAnswer(repo: Repository, w: ResponseWriter, id: int)
    requires repo.Valid() && w.Unwritten()
    modifies w
    ensures id < 0 || id !in repo.modes ==>
      w.Replied(400, [ErrorBody(ErrModeNotFound), MessageBody("successfully removed user mode", None)])
    ensures 0 <= id && id in repo.modes ==>
      w.Replied(200, [MessageBody("successfully removed user mode", None)]) && id as nat in repo.modes
  {
    var err := repo.DeleteModeByID(id);
    if err.Some? {
      var _ := ErrorJSON(w, err, []);
    }
    JsonResponseMarshalable(false, "successfully removed user mode", None);
    var _ := WriteJSON(w, 200, MessageBody("successfully removed user mode", None), []);
  }
}
