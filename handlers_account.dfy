/**
 * The account handlers: e-mail confirmation, password reset and change, and
 * reading, editing and deleting users.  The copies of the confirmation,
 * token and user-editing handlers in the legacy `main` package behave the
 * same and are modelled by these; the password-change copy differs only in
 * one text and takes the package.
 *
 * Decoded request bodies, fresh ids, the clock and the outcomes of e-mail
 * delivery and of the image store are parameters.
 */
module AccountHandlers {
  import opened Wrappers
  import opened Http
  import opened Utils
  import opened Models
  import opened Repositories
  import opened AuthHandlers
  import Auth
  import Bcrypt

  // ---------------------------------------------------------------------
  // ConfirmUser
  // ---------------------------------------------------------------------

  /** The user owns no confirmation row. */
  predicate NoConfirmation(rows: map<string, Confirmation>, userID: string) {
    forall k :: k in rows ==> rows[k].UserID != userID
  }

  /**
   * What `ConfirmUser` answers for the user's last confirmation `c`.  An
   * expired confirmation gets no answer at all (`None`: no status line, no
   * body); a confirmed one is refused; otherwise the account is confirmed.
   */
  function ConfirmReply(c: Confirmation, nowNano: int): Option<(int, Json)> {
    if ExpiredBy(c.ExpiredAt, nowNano) then None
    else if c.Confirmed then Some((400, ErrorBody("user is already confirmed")))
    else Some((200, MessageBody("user confirmed successfully", None)))
  }

  /** The row `ConfirmUser` stores over `c`: confirmed, and expired as `SetExpire` leaves it. */
  function ConfirmedRow(c: Confirmation, nowNano: int): Confirmation {
    MergeConfirmation(c, c.(Confirmed := true, ExpiredAt := AfterSetExpire(c.ExpiredAt, nowNano)))
  }

  /**
   * `ConfirmUser`: `chosen` is the confirmation the lookup of the user's
   * last one returned.
   */
  method ConfirmUser(repo: Repository, w: ResponseWriter, userID: string, nowNano: int)
    returns (ghost chosen: Option<Confirmation>)
    requires repo.Valid() && w.Unwritten()
    modifies repo`confirmations, w
    ensures repo.Valid()
    ensures chosen.None? <==> NoConfirmation(old(repo.confirmations), userID)
    ensures chosen.None? ==>
      w.Replied(400, [ErrorBody("error 1 - " + ErrRecordNotFound)]) && repo.confirmations == old(repo.confirmations)
    ensures chosen.Some? ==>
      var c := chosen.value;
      IsLastConfirmation(old(repo.confirmations), userID, c.ID) && old(repo.confirmations)[c.ID] == c
      && (ConfirmReply(c, nowNano).None? ==> w.Unwritten() && repo.confirmations == old(repo.confirmations))
      && (ConfirmReply(c, nowNano).Some? ==>
            w.Replied(ConfirmReply(c, nowNano).value.0, [ConfirmReply(c, nowNano).value.1]))
      && (ConfirmReply(c, nowNano).Some? && ConfirmReply(c, nowNano).value.0 != 200 ==>
            repo.confirmations == old(repo.confirmations))
      && (ConfirmReply(c, nowNano).Some? && ConfirmReply(c, nowNano).value.0 == 200 ==>
            repo.confirmations == old(repo.confirmations)[c.ID := ConfirmedRow(c, nowNano)])
  {
    var last := repo.GetLastConfirmation(userID);
    if last.Failure? {
      chosen := None;
      var _ := ErrorJSON(w, Some("error 1 - " + last.error), []);
      return;
    }
    chosen := Some(last.value);
    var confirmation := new UserConfirmation(last.value);
    if !confirmation.IsExpired(nowNano) {
      if confirmation.Confirmed {
        var _ := ErrorJSON(w, Some("user is already confirmed"), []);
        return;
      }
      confirmation.Confirmed := true;
      confirmation.SetExpire(nowNano);
      // the row was read above, so the update finds it and "error 2" cannot arise
      var _ := repo.ConfirmUser(confirmation.ID, confirmation.Row());
      JsonResponseMarshalable(false, "user confirmed successfully", None);
      var _ := WriteJSON(w, 200, MessageBody("user confirmed successfully", None), []);
    }
  }

  /**
   * `SetExpire` stores nanoseconds in a field read as seconds, so a
   * confirmed account stays unexpired: asking again, at any time up to as
   * many seconds after the epoch as there were nanoseconds, is refused as
   * already confirmed instead of being ignored as expired.
   */
  lemma {:induction false} ConfirmAgainRefused(c: Confirmation, nowNano: int, laterNano: int)
    requires ConfirmReply(c, nowNano) == Some((200, MessageBody("user confirmed successfully", None)))
    requires NanosPerSecond <= nowNano && laterNano <= nowNano * NanosPerSecond
    ensures ConfirmedRow(c, nowNano).Confirmed
    ensures ConfirmReply(ConfirmedRow(c, nowNano), laterNano) == Some((400, ErrorBody("user is already confirmed")))
  {
    assert !ExpiredBy(c.ExpiredAt, nowNano);
    SetExpireKeepsRecordAlive(c.ExpiredAt, nowNano, laterNano);
    assert ConfirmedRow(c, nowNano).ExpiredAt == nowNano;
  }

  /** A confirmed row is never un-confirmed, whatever is written over it. */
  lemma ConfirmationIsFinal(c: Confirmation, nowNano: int, laterNano: int)
    requires c.Confirmed
    ensures ConfirmReply(c, laterNano).None? || ConfirmReply(c, laterNano).value.0 == 400
    ensures ConfirmedRow(c, nowNano).Confirmed
  {
    FlagsOnlyRise(c, c.(Confirmed := true, ExpiredAt := AfterSetExpire(c.ExpiredAt, nowNano)),
                  ResetToken("", "", 0, 0, false), ResetToken("", "", 0, 0, false));
  }

  // ---------------------------------------------------------------------
  // Password reset tokens
  // ---------------------------------------------------------------------

  /**
   * The token both reset handlers insert: unused, and with `ExpiredAt` the
   * constant 10, that is ten seconds after the epoch.
   */
  function NewResetToken(tokenID: string, userID: string, nowNano: int): (t: ResetToken)
    ensures t.ID == tokenID && t.UserID == userID && !t.TokenUsed
  {
    ResetToken(tokenID, userID, 10, nowNano, false)
  }

  /** The user owns no reset token. */
  predicate NoToken(rows: map<string, ResetToken>, userID: string) {
    forall k :: k in rows ==> rows[k].UserID != userID
  }

  /**
   * What `SetTokenToUsed` answers for the user's last token `t`.  The test
   * reads "expired", not "unexpired": an unexpired token gets no answer, and
   * an expired one is marked used unless it already is.
   */
  function UseTokenReply(t: ResetToken, nowNano: int): Option<(int, Json)> {
    if !ExpiredBy(t.ExpiredAt, nowNano) then None
    else if t.TokenUsed then Some((400, ErrorBody("this password reset token is already used")))
    else Some((200, MessageBody("password reset token was successfully used", None)))
  }

  /** The row `SetTokenToUsed` stores over `t`: used, and expired as `SetTokenExpire` leaves it. */
  function UsedRow(t: ResetToken, nowNano: int): ResetToken {
    MergeResetToken(t, t.(TokenUsed := true, ExpiredAt := AfterSetExpire(t.ExpiredAt, nowNano)))
  }

  /** `SetTokenToUsed`: `chosen` is the token the lookup of the user's last one returned. */
  method SetTokenToUsed(repo: Repository, w: ResponseWriter, userID: string, nowNano: int)
    returns (ghost chosen: Option<ResetToken>)
    requires repo.Valid() && w.Unwritten()
    modifies repo`tokens, w
    ensures repo.Valid()
    ensures chosen.None? <==> NoToken(old(repo.tokens), userID)
    ensures chosen.None? ==> w.Replied(400, [ErrorBody(ErrRecordNotFound)]) && repo.tokens == old(repo.tokens)
    ensures chosen.Some? ==>
      var t := chosen.value;
      IsLastToken(old(repo.tokens), userID, t.ID) && old(repo.tokens)[t.ID] == t
      && (UseTokenReply(t, nowNano).None? ==> w.Unwritten() && repo.tokens == old(repo.tokens))
      && (UseTokenReply(t, nowNano).Some? ==>
            w.Replied(UseTokenReply(t, nowNano).value.0, [UseTokenReply(t, nowNano).value.1]))
      && (UseTokenReply(t, nowNano).Some? && UseTokenReply(t, nowNano).value.0 != 200 ==>
            repo.tokens == old(repo.tokens))
      && (UseTokenReply(t, nowNano).Some? && UseTokenReply(t, nowNano).value.0 == 200 ==>
            repo.tokens == old(repo.tokens)[t.ID := UsedRow(t, nowNano)])
  {
    var last := repo.GetLastPasswordTokenByUserID(userID);
    if last.Failure? {
      chosen := None;
      var _ := ErrorJSON(w, Some(last.error), []);
      return;
    }
    chosen := Some(last.value);
    var passwordToken := new PasswordRestToken(last.value);
    if passwordToken.IsTokenExpired(nowNano) {
      if passwordToken.TokenUsed {
        var _ := ErrorJSON(w, Some("this password reset token is already used"), []);
        return;
      }
      passwordToken.TokenUsed := true;
      passwordToken.SetTokenExpire(nowNano);
      // the row was read above, so the update finds it
      var _ := repo.SetTokenToUsed(passwordToken.ID, passwordToken.Row());
      JsonResponseMarshalable(false, "password reset token was successfully used", None);
      var _ := WriteJSON(w, 200, MessageBody("password reset token was successfully used", None), []);
    }
  }

  /**
   * A token the reset handlers issued is expired from ten seconds after the
   * epoch on, so it is accepted exactly once: the first request marks it
   * used, keeping its `ExpiredAt`, and every later one is refused.
   */
  lemma {:induction false} IssuedTokenUsedOnce(tokenID: string, userID: string, createdAt: int, nowNano: int,
                                               laterNano: int)
    requires nowNano > 10 * NanosPerSecond && laterNano > 10 * NanosPerSecond
    ensures var t := NewResetToken(tokenID, userID, createdAt);
      UseTokenReply(t, nowNano) == Some((200, MessageBody("password reset token was successfully used", None)))
      && UsedRow(t, nowNano) == t.(TokenUsed := true)
      && UseTokenReply(UsedRow(t, nowNano), laterNano)
           == Some((400, ErrorBody("this password reset token is already used")))
  {
    var t := NewResetToken(tokenID, userID, createdAt);
    assert ExpiredBy(t.ExpiredAt, nowNano);
    assert AfterSetExpire(t.ExpiredAt, nowNano) == 10;
  }

  /** A token that has not expired yet is left alone and the request gets no answer. */
  lemma UnexpiredTokenIgnored(t: ResetToken, nowNano: int)
    requires nowNano <= t.ExpiredAt * NanosPerSecond
    ensures UseTokenReply(t, nowNano).None?
  {
  }

  /**
   * `SendPasswordResetEmail`: `payload` is the decoded `user_id`.  The token
   * is inserted before the user is looked up, so an unknown user leaves a
   * token row behind.  A `null` body makes the handler dereference a nil
   * payload: it panics with nothing written and nothing inserted.
   */
  method SendPasswordResetEmail(repo: Repository, w: ResponseWriter, payload: Payload<string>,
                                tokenID: string, nowNano: int, emailError: Option<string>)
    requires repo.Valid() && w.Unwritten()
    modifies repo`tokens, w
    ensures repo.Valid()
    ensures payload.Undecodable? ==>
      w.Replied(400, [ErrorBody("error reading payload - " + payload.error)]) && repo.tokens == old(repo.tokens)
    ensures payload.NullBody? ==> w.Unwritten() && repo.tokens == old(repo.tokens)
    ensures payload.Decoded? && tokenID in old(repo.tokens) ==>
      w.Replied(400, [ErrorBody(ErrDuplicatedKey)]) && repo.tokens == old(repo.tokens)
    ensures payload.Decoded? && tokenID !in old(repo.tokens) ==>
      var userID := payload.value;
      repo.tokens == old(repo.tokens)[tokenID := NewResetToken(tokenID, userID, nowNano)]
      && (userID !in repo.users ==>
            w.Replied(400, [ErrorBody("error getting user from database - " + ErrUserNotFound)]))
      && (userID in repo.users && emailError.Some? ==>
            w.Replied(400, [ErrorBody("error sending email - " + emailError.value)]))
      && (userID in repo.users && emailError.None? ==>
            w.Replied(200, [MessageBody("password reset link was sent to your email", Some(Str(tokenID)))]))
  {
    if payload.Undecodable? {
      var _ := ErrorJSON(w, Some("error reading payload - " + payload.error), []);
      return;
    }
    if payload.NullBody? {
      // the handler dereferences the nil payload and panics before writing
      return;
    }
    var userID := payload.value;
    var inserted := repo.InsertPasswordToken(NewResetToken(tokenID, userID, nowNano));
    if inserted.Failure? {
      var _ := ErrorJSON(w, Some(inserted.error), []);
      return;
    }
    var user := repo.GetUserByID(userID);
    if user.Failure? {
      var _ := ErrorJSON(w, Some("error getting user from database - " + user.error), []);
      return;
    }
    if emailError.Some? {
      var _ := ErrorJSON(w, Some("error sending email - " + emailError.value), []);
      return;
    }
    JsonResponseMarshalable(false, "password reset link was sent to your email", Some(Str(inserted.value)));
    var _ := WriteJSON(w, 200, MessageBody("password reset link was sent to your email", Some(Str(inserted.value))), []);
  }

  /**
   * `SendForgottenPasswordEmail`: `payload` is the decoded `email`; `found`
   * is the user the e-mail lookup returned.  Unlike the reset handler, no
   * token is inserted for an unknown address.  A `null` body panics before
   * the lookup, with nothing written.
   */
  method SendForgottenPasswordEmail(repo: Repository, w: ResponseWriter, payload: Payload<string>,
                                    tokenID: string, nowNano: int, emailError: Option<string>)
    returns (ghost found: Option<User>)
    requires repo.Valid() && w.Unwritten()
    modifies repo`tokens, w
    ensures repo.Valid()
    ensures payload.Undecodable? ==> w.Replied(400, [ErrorBody(payload.error)]) && repo.tokens == old(repo.tokens)
    ensures payload.NullBody? ==> w.Unwritten() && repo.tokens == old(repo.tokens)
    ensures payload.Decoded? && !EmailTaken(repo.users, payload.value) ==>
      w.Replied(400, [ErrorBody(ErrRecordNotFound)]) && repo.tokens == old(repo.tokens)
    ensures payload.Decoded? && EmailTaken(repo.users, payload.value) ==>
      found.Some? && found.value.ID in repo.users && repo.users[found.value.ID] == found.value
      && found.value.Email == payload.value
      && (tokenID in old(repo.tokens) ==>
            w.Replied(400, [ErrorBody(ErrDuplicatedKey)]) && repo.tokens == old(repo.tokens))
      && (tokenID !in old(repo.tokens) ==>
            repo.tokens == old(repo.tokens)[tokenID := NewResetToken(tokenID, found.value.ID, nowNano)]
            && (emailError.Some? ==> w.Replied(400, [ErrorBody("error sending email - " + emailError.value)]))
            && (emailError.None? ==>
                  w.Replied(200, [MessageBody("password reset link was sent to your email", Some(Str(tokenID)))])))
  {
    found := None;
    if payload.Undecodable? {
      var _ := ErrorJSON(w, Some(payload.error), []);
      return;
    }
    if payload.NullBody? {
      // the handler dereferences the nil payload and panics before writing
      return;
    }
    var user := repo.GetUserByEmail(payload.value);
    if user.Failure? {
      var _ := ErrorJSON(w, Some(user.error), []);
      return;
    }
    found := Some(user.value);
    var inserted := repo.InsertPasswordToken(NewResetToken(tokenID, user.value.ID, nowNano));
    if inserted.Failure? {
      var _ := ErrorJSON(w, Some(inserted.error), []);
      return;
    }
    if emailError.Some? {
      var _ := ErrorJSON(w, Some("error sending email - " + emailError.value), []);
      return;
    }
    JsonResponseMarshalable(false, "password reset link was sent to your email", Some(Str(inserted.value)));
    var _ := WriteJSON(w, 200, MessageBody("password reset link was sent to your email", Some(Str(inserted.value))), []);
  }

  // ---------------------------------------------------------------------
  // ChangePasswordByUserID
  // ---------------------------------------------------------------------

  /** `PasswordResetPayload`: `user_id` and `new_password`. */
  datatype PasswordResetPayload = PasswordResetPayload(UserID: string, NewPassword: string)

  /**
   * `VerifyPasswordNonDuplicate(hashed, new)` as the handler reads it: only
   * a successful comparison is a duplicate, so a malformed stored hash lets
   * any new password through.
   */
  function IsDuplicatePassword(hashedPassword: string, newPassword: string): bool {
    Bcrypt.CompareHashAndPassword(hashedPassword, newPassword).None?
  }

  /**
   * Against a hash of `p`, a duplicate is a password with the same bcrypt
   * key: `p` itself, anything after the 72nd byte of a long `p`, and among
   * passwords of at most 72 bytes without a NUL nothing else.
   */
  lemma DuplicateSameKey(p: string, q: string)
    requires Bcrypt.GenerateFromPassword(p).Success?
    ensures IsDuplicatePassword(Bcrypt.GenerateFromPassword(p).value, q) <==> Bcrypt.SameKey(p, q)
    ensures IsDuplicatePassword(Bcrypt.GenerateFromPassword(p).value, p)
    ensures |Bcrypt.Utf8(q)| <= Bcrypt.MaxPasswordLength && 0 as char !in p && 0 as char !in q ==>
      (IsDuplicatePassword(Bcrypt.GenerateFromPassword(p).value, q) <==> q == p)
  {
    Bcrypt.CompareGenerated(p, q);
  }

  /** The refusal text for a duplicate, which the two packages spell differently. */
  function DuplicateMessage(pkg: Package): string {
    match pkg
    case Handlers => "the new password cannot be the same as your existing one"
    case Main => "the new password can not be the same as your existing one"
  }

  /**
   * `ChangePasswordByUserID`: the new password is refused when it matches
   * the stored hash, otherwise hashed and stored.  The notification e-mail
   * goroutine is not part of the model.  A `null` body panics before the
   * lookup, with nothing written.
   */
  method ChangePasswordByUserID(pkg: Package, repo: Repository, w: ResponseWriter,
                                payload: Payload<PasswordResetPayload>)
    requires repo.Valid() && w.Unwritten()
    modifies repo`users, w
    ensures repo.Valid()
    ensures payload.Undecodable? ==> w.Replied(400, [ErrorBody(payload.error)]) && repo.users == old(repo.users)
    ensures payload.NullBody? ==> w.Unwritten() && repo.users == old(repo.users)
    ensures payload.Decoded? && payload.value.UserID !in old(repo.users) ==>
      w.Replied(400, [ErrorBody(ErrRecordNotFound)]) && repo.users == old(repo.users)
    ensures payload.Decoded? && payload.value.UserID in old(repo.users) ==>
      var id := payload.value.UserID;
      var p := payload.value.NewPassword;
      if IsDuplicatePassword(old(repo.users)[id].Password, p) then
        w.Replied(400, [ErrorBody(DuplicateMessage(pkg))]) && repo.users == old(repo.users)
      else if Bcrypt.GenerateFromPassword(p).Failure? then
        w.Replied(400, [ErrorBody(Bcrypt.GenerateFromPassword(p).error)]) && repo.users == old(repo.users)
      else
        w.Replied(200, [MessageBody("password changed successfully", None)])
        && repo.users == old(repo.users)[id := old(repo.users)[id].(Password := Bcrypt.GenerateFromPassword(p).value)]
  {
    if payload.Undecodable? {
      var _ := ErrorJSON(w, Some(payload.error), []);
      return;
    }
    if payload.NullBody? {
      // the handler dereferences the nil payload and panics before writing
      return;
    }
    ChangeStoredPassword(pkg, repo, w, payload.value.UserID, payload.value.NewPassword);
  }

  /** `ChangePasswordByUserID` once the payload has decoded: the lookup, the duplicate check, the update. */
  method ChangeStoredPassword(pkg: Package, repo: Repository, w: ResponseWriter, id: string, p: string)
    requires repo.Valid() && w.Unwritten()
    modifies repo`users, w
    ensures repo.Valid()
    ensures id !in old(repo.users) ==> w.Replied(400, [ErrorBody(ErrRecordNotFound)]) && repo.users == old(repo.users)
    ensures id in old(repo.users) ==>
      if IsDuplicatePassword(old(repo.users)[id].Password, p) then
        w.Replied(400, [ErrorBody(DuplicateMessage(pkg))]) && repo.users == old(repo.users)
      else if Bcrypt.GenerateFromPassword(p).Failure? then
        w.Replied(400, [ErrorBody(Bcrypt.GenerateFromPassword(p).error)]) && repo.users == old(repo.users)
      else
        w.Replied(200, [MessageBody("password changed successfully", None)])
        && repo.users == old(repo.users)[id := old(repo.users)[id].(Password := Bcrypt.GenerateFromPassword(p).value)]
  {
    var oldPassword := repo.GetUserPasswordByID(id);
    if oldPassword.Failure? {
      var _ := ErrorJSON(w, Some(oldPassword.error), []);
      return;
    }
    if IsDuplicatePassword(oldPassword.value, p) {
      var _ := ErrorJSON(w, Some(DuplicateMessage(pkg)), []);
      return;
    }
    var err := repo.ChangePasswordByUserID(id, p);
    if err.Some? {
      var _ := ErrorJSON(w, err, []);
      return;
    }
    JsonResponseMarshalable(false, "password changed successfully", None);
    var _ := WriteJSON(w, 200, MessageBody("password changed successfully", None), []);
  }

  /**
   * After a change to `p` the stored hash accepts `p`, refuses every
   * password bcrypt derives another key from, and changing to `p` again is
   * refused as a duplicate.
   */
  lemma {:induction false} ChangedPasswordMatches(u: User, p: string, q: string)
    requires Bcrypt.GenerateFromPassword(p).Success?
    ensures var changed := u.(Password := Bcrypt.GenerateFromPassword(p).value);
      PasswordMatches(changed, p) == Success(true)
      && (!Bcrypt.SameKey(p, q) ==> PasswordMatches(changed, q) == Success(false))
      && IsDuplicatePassword(changed.Password, p)
  {
    var changed := u.(Password := Bcrypt.GenerateFromPassword(p).value);
    PasswordMatchesHashed(changed, p, q);
    DuplicateSameKey(p, p);
  }

  // ---------------------------------------------------------------------
  // Reading users
  // ---------------------------------------------------------------------

  /** A `Mode` as JSON; the `gorm.Model` timestamps are not part of the model. */
  function ModeJson(m: Mode): Json {
    Object([("ID", Number(m.ID)), ("mode_name", Str(m.Name)), ("user_id", Str(m.UserID))])
  }

  /** A `models.User` as JSON, password hash and mode included. */
  function UserJson(u: User): Json {
    Object([("ID", Str(u.ID)), ("created_at", Number(u.CreatedAt)), ("deleted_at", Number(u.DeletedAt)),
            ("username", Str(u.UserName)), ("first_name", Str(u.FirstName)), ("last_name", Str(u.LastName)),
            ("email", Str(u.Email)), ("password", Str(u.Password)), ("mode", ModeJson(u.Mode))])
  }

  /** `RegularUserResponse`: the user without the password hash, the deletion time and the mode. */
  function RegularUserJson(u: User): Json {
    Object([("id", Str(u.ID)), ("created_at", Number(u.CreatedAt)), ("username", Str(u.UserName)),
            ("first_name", Str(u.FirstName)), ("last_name", Str(u.LastName)), ("email", Str(u.Email))])
  }

  /**
   * The data the two lookup handlers answer with: the whole row when the
   * looked-up user's own mode is "admin", the regular projection otherwise.
   * The caller's identity plays no part.
   */
  function UserView(u: User): (d: Json)
    ensures Marshalable(d)
    ensures Member(d, "password") == (if u.Mode.Name == "admin" then Some(Str(u.Password)) else None)
    ensures Member(d, "email") == Some(Str(u.Email))
  {
    if u.Mode.Name == "admin" then
      var d := UserJson(u);
      assert Member(d, "password") == Some(Str(u.Password)) by {
        var ms := d.members;
        assert ms[7].0 == "password";
        assert forall i :: 0 <= i < 7 ==> ms[i].0 != "password";
        assert MemberIn(ms, "password") == MemberIn(ms[7..], "password") by {
          MemberInSkip(ms, "password", 7);
        }
      }
      assert Member(d, "email") == Some(Str(u.Email)) by {
        var ms := d.members;
        assert forall i :: 0 <= i < 6 ==> ms[i].0 != "email";
        MemberInSkip(ms, "email", 6);
      }
      d
    else
      var d := RegularUserJson(u);
      assert Member(d, "password") == None by {
        var ms := d.members;
        assert forall i :: 0 <= i < |ms| ==> ms[i].0 != "password";
        MemberInSkip(ms, "password", |ms|);
      }
      assert Member(d, "email") == Some(Str(u.Email)) by {
        var ms := d.members;
        assert forall i :: 0 <= i < 5 ==> ms[i].0 != "email";
        MemberInSkip(ms, "email", 5);
      }
      d
  }

  /** Members before `n` that do not carry `key` are passed over by the lookup. */
  lemma {:induction false} MemberInSkip(ms: seq<(string, Json)>, key: string, n: nat)
    requires n <= |ms|
    requires forall i :: 0 <= i < n ==> ms[i].0 != key
    ensures MemberIn(ms, key) == MemberIn(ms[n..], key)
    decreases n
  {
    if n > 0 {
      MemberInSkip(ms[1..], key, n - 1);
      assert ms[1..][n - 1..] == ms[n..];
    }
  }

  /** `GetUserByID`: `shown` is the row with the mode the lookup attached. */
  method GetUserByID(repo: Repository, w: ResponseWriter, id: string) returns (ghost shown: Option<User>)
    requires repo.Valid() && w.Unwritten()
    modifies w
    ensures id !in repo.users ==> shown.None? && w.Replied(400, [ErrorBody(ErrUserNotFound)])
    ensures id in repo.users ==>
      shown.Some? && shown.value == repo.users[id].(Mode := shown.value.Mode)
      && PreloadedMode(repo.modes, id, shown.value.Mode)
      && w.Replied(200, [MessageBody("", Some(UserView(shown.value)))])
  {
    shown := None;
    var user := repo.GetUserByID(id);
    if user.Failure? {
      var _ := ErrorJSON(w, Some(user.error), []);
      return;
    }
    shown := Some(user.value);
    JsonResponseMarshalable(false, "", Some(UserView(user.value)));
    var _ := WriteJSON(w, 200, MessageBody("", Some(UserView(user.value))), []);
  }

  /**
   * `GetUserByEmail`: the lookup by e-mail attaches no mode, so the answer
   * is always the regular projection.
   */
  method GetUserByEmail(repo: Repository, w: ResponseWriter, email: string) returns (ghost shown: Option<User>)
    requires repo.Valid() && w.Unwritten()
    modifies w
    ensures !EmailTaken(repo.users, email) ==> shown.None? && w.Replied(400, [ErrorBody(ErrRecordNotFound)])
    ensures EmailTaken(repo.users, email) ==>
      shown.Some? && shown.value.ID in repo.users && repo.users[shown.value.ID] == shown.value
      && shown.value.Email == email
      && w.Replied(200, [MessageBody("", Some(UserView(shown.value)))])
      && Member(UserView(shown.value), "password").None?
  {
    shown := None;
    var user := repo.GetUserByEmail(email);
    if user.Failure? {
      var _ := ErrorJSON(w, Some(user.error), []);
      return;
    }
    shown := Some(user.value);
    JsonResponseMarshalable(false, "", Some(UserView(user.value)));
    var _ := WriteJSON(w, 200, MessageBody("", Some(UserView(user.value))), []);
  }

  /** The password hash is shown exactly for users whose own mode is "admin". */
  lemma HashShownOnlyForAdmins(u: User)
    ensures Member(UserView(u), "password").Some? <==> u.Mode.Name == "admin"
    ensures Member(UserView(u), "password").Some? ==> Member(UserView(u), "password").value == Str(u.Password)
  {
  }

  // ---------------------------------------------------------------------
  // Editing users
  // ---------------------------------------------------------------------

  /** December 1, 2023, 00:00 UTC, in Unix nanoseconds. */
  const DefaultCreationDate: int := 1701388800 * NanosPerSecond

  /** The creation date `AddMissingCreationDate` writes back. */
  function FilledCreationDate(createdAt: int): (r: int)
    ensures r != ZeroTime
    ensures createdAt != ZeroTime ==> r == createdAt
  {
    if createdAt == ZeroTime then DefaultCreationDate else createdAt
  }

  /** The message, chosen by testing the date after it was filled in. */
  function CreationDateMessage(createdAt: int): string {
    if createdAt == ZeroTime then "user's creation date successfully set" else "user already has a valid date"
  }

  /** The "successfully set" message is never sent: the date is tested after it was filled in. */
  lemma CreationDateAlwaysReportedValid(createdAt: int)
    ensures CreationDateMessage(FilledCreationDate(createdAt)) == "user already has a valid date"
  {
  }

  /** `AddMissingCreationDate`: the row gets a creation date if it had none. */
  method AddMissingCreationDate(repo: Repository, w: ResponseWriter, userID: string)
    requires repo.Valid() && w.Unwritten()
    modifies repo`users, w
    ensures repo.Valid()
    ensures userID !in old(repo.users) ==>
      w.Replied(400, [ErrorBody(ErrUserNotFound)]) && repo.users == old(repo.users)
    ensures userID in old(repo.users) ==>
      var stored := old(repo.users)[userID];
      repo.users == old(repo.users)[userID := stored.(CreatedAt := FilledCreationDate(stored.CreatedAt))]
      && w.Replied(200, [MessageBody(CreationDateMessage(FilledCreationDate(stored.CreatedAt)), Some(Str(userID)))])
  {
    var user := repo.GetUserByID(userID);
    if user.Failure? {
      var _ := ErrorJSON(w, Some(user.error), []);
      return;
    }
    var u := user.value;
    if u.CreatedAt == ZeroTime {
      u := u.(CreatedAt := DefaultCreationDate);
    }
    ghost var stored := repo.users[userID];
    var updated := repo.UpdateUser(userID, u);
    MergeUserFields(stored, u);
    assert MergeUser(stored, u) == stored.(CreatedAt := FilledCreationDate(stored.CreatedAt));
    // `UpdateUser` hands back the row it was given, so the dates agree
    var message := CreationDateMessage(u.CreatedAt);
    JsonResponseMarshalable(false, message, Some(Str(userID)));
    var _ := WriteJSON(w, 200, MessageBody(message, Some(Str(userID))), []);
  }

  /** The row `Updateuser` stores: the non-empty user name and e-mail of the body, nothing else. */
  function EditedUser(stored: User, payload: User): User {
    MergeUser(stored, stored.(UserName := payload.UserName, Email := payload.Email))
  }

  /**
   * Only the user name and the e-mail can change, an empty one keeps the
   * stored value, and no other user's address is consulted: two users can
   * end up sharing one.
   */
  lemma {:induction false} EditChangesNameAndEmailOnly(stored: User, payload: User)
    ensures var e := EditedUser(stored, payload);
      e == stored.(UserName := if payload.UserName != "" then payload.UserName else stored.UserName,
                   Email := if payload.Email != "" then payload.Email else stored.Email)
  {
    MergeUserFields(stored, stored.(UserName := payload.UserName, Email := payload.Email));
  }

  /**
   * `Updateuser`: `payload` is the decoded `models.User`.  A `null` body
   * passes the user lookup and panics at the first use of the payload, with
   * nothing written.
   */
  method Updateuser(repo: Repository, w: ResponseWriter, userID: string, payload: Payload<User>)
    requires repo.Valid() && w.Unwritten()
    modifies repo`users, w
    ensures repo.Valid()
    ensures payload.Undecodable? ==> w.Replied(400, [ErrorBody(payload.error)]) && repo.users == old(repo.users)
    ensures !payload.Undecodable? && userID !in old(repo.users) ==>
      w.Replied(400, [ErrorBody(ErrUserNotFound)]) && repo.users == old(repo.users)
    ensures payload.NullBody? && userID in old(repo.users) ==> w.Unwritten() && repo.users == old(repo.users)
    ensures payload.Decoded? && userID in old(repo.users) ==>
      repo.users == old(repo.users)[userID := EditedUser(old(repo.users)[userID], payload.value)]
      && w.Replied(200, [MessageBody("user successfully updated", Some(Str(userID)))])
  {
    if payload.Undecodable? {
      var _ := ErrorJSON(w, Some(payload.error), []);
      return;
    }
    var user := repo.GetUserByID(userID);
    if user.Failure? {
      var _ := ErrorJSON(w, Some(user.error), []);
      return;
    }
    if payload.NullBody? {
      // the handler dereferences the nil payload and panics before writing
      return;
    }
    ghost var stored := repo.users[userID];
    var u := user.value.(UserName := payload.value.UserName, Email := payload.value.Email);
    var _ := repo.UpdateUser(userID, u);
    assert MergeUser(stored, u) == EditedUser(stored, payload.value);
    JsonResponseMarshalable(false, "user successfully updated", Some(Str(userID)));
    var _ := WriteJSON(w, 200, MessageBody("user successfully updated", Some(Str(userID))), []);
  }

  /**
   * `DeleteOwnUserData`: the caller's token must name the user of the URL.
   * `imageRowError` and `fileError` are the outcomes of removing the
   * profile image row and file; the user row is gone before either runs.
   */
  method DeleteOwnUserData(j: Auth.AuthConfig, repo: Repository, w: ResponseWriter, authHeader: string,
                           userIDFromUrl: string, nowNano: int, imageRowError: Option<string>,
                           fileError: Option<string>)
    requires repo.Valid() && w.Unwritten()
    modifies repo`users, w
    ensures repo.Valid()
    ensures var v := Auth.VerifyHeader(j, authHeader, nowNano);
      (v.Failure? ==> w.Replied(401, []) && repo.users == old(repo.users))
      && (v.Success? && v.value.1.Subject != userIDFromUrl ==>
            w.Replied(400, [ErrorBody("the user id does not match with your identity")])
            && repo.users == old(repo.users))
      && (v.Success? && v.value.1.Subject == userIDFromUrl ==>
            repo.users == old(repo.users) - {userIDFromUrl}
            && (userIDFromUrl !in old(repo.users) ==> w.Replied(400, [ErrorBody(ErrUserNotFound)]))
            && (userIDFromUrl in old(repo.users) && imageRowError.Some? ==>
                  w.Replied(400, [ErrorBody(imageRowError.value)]))
            && (userIDFromUrl in old(repo.users) && imageRowError.None? && fileError.Some? ==>
                  w.Replied(400, [ErrorBody("could not delete the image file: " + fileError.value)]))
            && (userIDFromUrl in old(repo.users) && imageRowError.None? && fileError.None? ==>
                  w.Replied(202, [MessageBody("", Some(Str("Successfully deleted the user and the associated mode")))])))
  {
    var _, claims, err := Auth.GetTokenFromHeaderAndVerify(j, w, authHeader, nowNano);
    if err.Some? {
      w.WriteHeader(401);
      return;
    }
    var userID := claims.value.Subject;
    if userID != userIDFromUrl {
      var _ := ErrorJSON(w, Some("the user id does not match with your identity"), []);
      return;
    }
    DeleteVerifiedUser(repo, w, userID, imageRowError, fileError);
  }

  /** `DeleteOwnUserData` once the caller is known to be the user: the row, the image row, the file. */
  method DeleteVerifiedUser(repo: Repository, w: ResponseWriter, userID: string, imageRowError: Option<string>,
                            fileError: Option<string>)
    requires repo.Valid() && w.Unwritten()
    modifies repo`users, w
    ensures repo.Valid()
    ensures repo.users == old(repo.users) - {userID}
    ensures userID !in old(repo.users) ==> w.Replied(400, [ErrorBody(ErrUserNotFound)])
    ensures userID in old(repo.users) && imageRowError.Some? ==> w.Replied(400, [ErrorBody(imageRowError.value)])
    ensures userID in old(repo.users) && imageRowError.None? && fileError.Some? ==>
      w.Replied(400, [ErrorBody("could not delete the image file: " + fileError.value)])
    ensures userID in old(repo.users) && imageRowError.None? && fileError.None? ==>
      w.Replied(202, [MessageBody("", Some(Str("Successfully deleted the user and the associated mode")))])
  {
    var deleted := repo.DeleteUserByID(userID);
    if deleted.Some? {
      var _ := ErrorJSON(w, deleted, []);
      return;
    }
    if imageRowError.Some? {
      var _ := ErrorJSON(w, imageRowError, []);
      return;
    }
    if fileError.Some? {
      var _ := ErrorJSON(w, Some("could not delete the image file: " + fileError.value), []);
      return;
    }
    var resp := MessageBody("", Some(Str("Successfully deleted the user and the associated mode")));
    JsonResponseMarshalable(false, "", Some(Str("Successfully deleted the user and the associated mode")));
    var _ := WriteJSON(w, 202, resp, []);
  }
}
