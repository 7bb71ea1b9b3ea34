/**
 * The GORM repository (`GORMRepo` in `internal/repositories`) as in-memory
 * tables keyed by primary key.  Each operation is one atomic step on the
 * tables; the database's own error texts other than GORM's
 * `record not found` are represented by `ErrDuplicatedKey`.
 *
 * The users table does not store the `Mode` association: a mode is a row
 * of the modes table whose `UserID` names the user, and `GetUserByID`
 * preloads it while `GetUserByEmail` does not.  Creating a user saves a
 * non-zero `Mode` it carries into the modes table, as GORM saves a has-one
 * association.
 *
 * The database is PostgreSQL: mode ids come from a sequence, which an
 * insert without an id advances even when the insert then fails, and which
 * an insert with an explicit id leaves alone.  A transaction that is begun
 * and never committed leaves no trace in later queries.
 */
module Repositories {
  import opened Wrappers
  import opened Models
  import Bcrypt

  /** `gorm.ErrRecordNotFound`, what `First` reports when no row matches. */
  const ErrRecordNotFound: string := "record not found"

  /** The insert of a row whose primary key is taken. */
  const ErrDuplicatedKey: string := "duplicated key not allowed"

  const ErrUserNotFound: string := "user not found"
  const ErrUserExists: string := "user already exists"
  const ErrModeNotFound: string := "mode not found"

  /** Some stored user has this e-mail address. */
  predicate EmailTaken(users: map<string, User>, email: string) {
    exists id :: id in users && users[id].Email == email
  }

  /** `m` is what `Preload("Mode")` attaches for user `id`: a mode row of the user, or the zero mode if none. */
  predicate PreloadedMode(modes: map<nat, Mode>, id: string, m: Mode) {
    if exists k :: k in modes && modes[k].UserID == id then m in modes.Values && m.UserID == id
    else m == ZeroMode
  }

  /** The primary key an insert of `m` takes: its own id, or the next sequence value when it has none. */
  function InsertKey(next: nat, m: Mode): nat {
    if m.ID == 0 then next else m.ID
  }

  /** The sequence after an insert of `m`: advanced exactly when the id was left to it. */
  function SequenceAfterInsert(next: nat, m: Mode): (r: nat)
    ensures m.ID == 0 ==> r == next + 1
    ensures m.ID != 0 ==> r == next
  {
    if m.ID == 0 then next + 1 else next
  }

  /**
   * The modes table after `Create(&user)` saves the user's `Mode` as its
   * has-one association.  A zero mode is skipped.  Otherwise the row goes in
   * under `InsertKey` with its `UserID` set to the user's id, and the insert
   * is an upsert on the id: a row already under that key keeps its name and
   * only changes owner.
   */
  function SaveAssociation(modes: map<nat, Mode>, next: nat, userID: string, m: Mode): (r: map<nat, Mode>)
    ensures m == ZeroMode ==> r == modes
    ensures m != ZeroMode ==> r.Keys == modes.Keys + {InsertKey(next, m)}
    ensures forall k :: k in modes && (m == ZeroMode || k != InsertKey(next, m)) ==> k in r && r[k] == modes[k]
  {
    if m == ZeroMode then modes
    else
      var k := InsertKey(next, m);
      if k in modes then modes[k := modes[k].(UserID := userID)]
      else modes[k := m.(ID := k, UserID := userID)]
  }

  /** The sequence after the association of `m` is saved. */
  function SequenceAfterSave(next: nat, m: Mode): (r: nat)
    ensures m == ZeroMode ==> r == next
    ensures m != ZeroMode ==> r == SequenceAfterInsert(next, m)
  {
    if m == ZeroMode then next else SequenceAfterInsert(next, m)
  }

  /**
   * A user registered with a mode of its own whose key is free holds a new
   * row with that mode's name: any role name the request asks for.
   */
  lemma SavedModeGrantsName(modes: map<nat, Mode>, next: nat, userID: string, m: Mode)
    requires m != ZeroMode && InsertKey(next, m) !in modes
    ensures var k := InsertKey(next, m);
      var r := SaveAssociation(modes, next, userID, m);
      k in r && r[k] == Mode(k, m.Name, userID)
  {
  }

  /**
   * A mode naming the id of an existing row takes that row over: it keeps
   * its name, now belongs to the new user, and its previous owner loses it.
   */
  lemma SavedModeTakesOverRow(modes: map<nat, Mode>, next: nat, userID: string, m: Mode)
    requires m.ID != 0 && m.ID in modes
    ensures var r := SaveAssociation(modes, next, userID, m);
      m.ID in r && r[m.ID] == modes[m.ID].(UserID := userID)
      && (modes[m.ID].UserID != userID ==> r[m.ID].UserID != modes[m.ID].UserID)
      && SequenceAfterSave(next, m) == next
  {
  }

  /** GORM's `Updates(struct)`: a field is written only when its new value is not the zero value. */
  function NonZero<T(==)>(update: T, stored: T, zero: T): (r: T)
    ensures r == update || r == stored
    ensures r == stored <==> update == zero || update == stored
  {
    if update != zero then update else stored
  }

  /** The user row after `Model(&stored).Updates(update)`; the key and the association stay. */
  function MergeUser(stored: User, update: User): User {
    stored.(
      CreatedAt := NonZero(update.CreatedAt, stored.CreatedAt, ZeroTime),
      DeletedAt := NonZero(update.DeletedAt, stored.DeletedAt, ZeroTime),
      UserName := NonZero(update.UserName, stored.UserName, ""),
      FirstName := NonZero(update.FirstName, stored.FirstName, ""),
      LastName := NonZero(update.LastName, stored.LastName, ""),
      Email := NonZero(update.Email, stored.Email, ""),
      Password := NonZero(update.Password, stored.Password, ""))
  }

  /**
   * Writing back a row with some fields replaced stores exactly those
   * replacements that are not empty; an emptied field keeps its stored value.
   */
  lemma MergeUserFields(stored: User, update: User)
    ensures var r := MergeUser(stored, update);
      r.ID == stored.ID && r.Mode == stored.Mode
      && (update.UserName != "" ==> r.UserName == update.UserName)
      && (update.UserName == "" ==> r.UserName == stored.UserName)
      && (update.Email != "" ==> r.Email == update.Email)
      && (update.Email == "" ==> r.Email == stored.Email)
      && (update.CreatedAt != ZeroTime ==> r.CreatedAt == update.CreatedAt)
      && (update.CreatedAt == ZeroTime ==> r.CreatedAt == stored.CreatedAt)
  {
  }

  /** Writing back the row as it was read changes nothing. */
  lemma MergeUserSelf(stored: User, m: Mode)
    ensures MergeUser(stored, stored.(Mode := m)) == stored
  {
  }

  function MergeConfirmation(stored: Confirmation, update: Confirmation): Confirmation {
    stored.(
      UserID := NonZero(update.UserID, stored.UserID, ""),
      ExpiredAt := NonZero(update.ExpiredAt, stored.ExpiredAt, 0),
      CreatedAt := NonZero(update.CreatedAt, stored.CreatedAt, ZeroTime),
      Confirmed := NonZero(update.Confirmed, stored.Confirmed, false))
  }

  function MergeResetToken(stored: ResetToken, update: ResetToken): ResetToken {
    stored.(
      UserID := NonZero(update.UserID, stored.UserID, ""),
      ExpiredAt := NonZero(update.ExpiredAt, stored.ExpiredAt, 0),
      CreatedAt := NonZero(update.CreatedAt, stored.CreatedAt, ZeroTime),
      TokenUsed := NonZero(update.TokenUsed, stored.TokenUsed, false))
  }

  /**
   * `false` is the zero value of a flag, so `Updates` can set a flag but
   * never clear it: a stored confirmation that is confirmed stays confirmed.
   */
  lemma FlagsOnlyRise(c: Confirmation, cu: Confirmation, t: ResetToken, tu: ResetToken)
    ensures c.Confirmed ==> MergeConfirmation(c, cu).Confirmed
    ensures MergeConfirmation(c, cu).Confirmed <==> c.Confirmed || cu.Confirmed
    ensures t.TokenUsed ==> MergeResetToken(t, tu).TokenUsed
    ensures MergeResetToken(t, tu).TokenUsed <==> t.TokenUsed || tu.TokenUsed
  {
  }

  /** Row `k` is the user's confirmation with the greatest `ExpiredAt`. */
  predicate IsLastConfirmation(rows: map<string, Confirmation>, userID: string, k: string) {
    k in rows && rows[k].UserID == userID
    && forall k2 :: k2 in rows && rows[k2].UserID == userID ==> rows[k2].ExpiredAt <= rows[k].ExpiredAt
  }

  /** Row `k` is the user's reset token with the greatest `CreatedAt`. */
  predicate IsLastToken(rows: map<string, ResetToken>, userID: string, k: string) {
    k in rows && rows[k].UserID == userID
    && forall k2 :: k2 in rows && rows[k2].UserID == userID ==> rows[k2].CreatedAt <= rows[k].CreatedAt
  }

  /** A user with any confirmation has a last one. */
  lemma {:induction false} LastConfirmationExists(rows: map<string, Confirmation>, userID: string)
    requires exists k :: k in rows && rows[k].UserID == userID
    ensures exists k :: IsLastConfirmation(rows, userID, k)
    decreases |rows|
  {
    var k0 :| k0 in rows && rows[k0].UserID == userID;
    var rest := rows - {k0};
    assert forall k2 :: k2 in rows && k2 != k0 ==> k2 in rest && rest[k2] == rows[k2];
    if exists k :: k in rest && rest[k].UserID == userID {
      LastConfirmationExists(rest, userID);
      var m :| IsLastConfirmation(rest, userID, m);
      if rows[k0].ExpiredAt <= rows[m].ExpiredAt {
        assert IsLastConfirmation(rows, userID, m);
      } else {
        assert IsLastConfirmation(rows, userID, k0);
      }
    } else {
      assert IsLastConfirmation(rows, userID, k0);
    }
  }

  /** A user with any reset token has a last one. */
  lemma {:induction false} LastTokenExists(rows: map<string, ResetToken>, userID: string)
    requires exists k :: k in rows && rows[k].UserID == userID
    ensures exists k :: IsLastToken(rows, userID, k)
    decreases |rows|
  {
    var k0 :| k0 in rows && rows[k0].UserID == userID;
    var rest := rows - {k0};
    assert forall k2 :: k2 in rows && k2 != k0 ==> k2 in rest && rest[k2] == rows[k2];
    if exists k :: k in rest && rest[k].UserID == userID {
      LastTokenExists(rest, userID);
      var m :| IsLastToken(rest, userID, m);
      if rows[k0].CreatedAt <= rows[m].CreatedAt {
        assert IsLastToken(rows, userID, m);
      } else {
        assert IsLastToken(rows, userID, k0);
      }
    } else {
      assert IsLastToken(rows, userID, k0);
    }
  }

  /** The last confirmation is determined up to ties: any two candidates expire together. */
  lemma LastConfirmationUnique(rows: map<string, Confirmation>, userID: string, a: string, b: string)
    requires IsLastConfirmation(rows, userID, a) && IsLastConfirmation(rows, userID, b)
    ensures rows[a].ExpiredAt == rows[b].ExpiredAt
  {
  }

  class Repository {
    var users: map<string, User>
    var modes: map<nat, Mode>
    var nextModeID: nat
    var confirmations: map<string, Confirmation>
    var tokens: map<string, ResetToken>

    /** Rows sit under their own primary key; user rows hold no association; mode ids and the sequence are positive. */
    ghost predicate Valid()
      reads this
    {
      (forall id :: id in users ==> users[id].ID == id && users[id].Mode == ZeroMode)
      && (forall k :: k in modes ==> modes[k].ID == k && 0 < k)
      && (forall id :: id in confirmations ==> confirmations[id].ID == id)
      && (forall id :: id in tokens ==> tokens[id].ID == id)
      && 0 < nextModeID
    }

    /** An empty database just migrated. */
    constructor ()
      ensures Valid()
      ensures users == map[] && modes == map[] && confirmations == map[] && tokens == map[]
    {
      users := map[];
      modes := map[];
      nextModeID := 1;
      confirmations := map[];
      tokens := map[];
    }

    // -------------------------------------------------------------------
    // Users
    // -------------------------------------------------------------------

    /**
     * `CreateUser`: a taken e-mail is refused with "user already exists" and
     * a taken id by the database; otherwise the row is inserted, its `Mode`
     * saved as `SaveAssociation` says, and its id returned.
     */
    method CreateUser(user: User) returns (r: Result<string, string>)
      requires Valid()
      modifies this`users, this`modes, this`nextModeID
      ensures Valid()
      ensures EmailTaken(old(users), user.Email) ==>
        r == Failure(ErrUserExists) && users == old(users) && modes == old(modes) && nextModeID == old(nextModeID)
      ensures !EmailTaken(old(users), user.Email) && user.ID in old(users) ==>
        r == Failure(ErrDuplicatedKey) && users == old(users) && modes == old(modes) && nextModeID == old(nextModeID)
      ensures !EmailTaken(old(users), user.Email) && user.ID !in old(users) ==>
        r == Success(user.ID) && users == old(users)[user.ID := user.(Mode := ZeroMode)]
        && modes == SaveAssociation(old(modes), old(nextModeID), user.ID, user.Mode)
        && nextModeID == SequenceAfterSave(old(nextModeID), user.Mode)
    {
      if EmailTaken(users, user.Email) {
        return Failure(ErrUserExists);
      }
      if user.ID in users {
        return Failure(ErrDuplicatedKey);
      }
      users := users[user.ID := user.(Mode := ZeroMode)];
      modes := SaveAssociation(modes, nextModeID, user.ID, user.Mode);
      nextModeID := SequenceAfterSave(nextModeID, user.Mode);
      return Success(user.ID);
    }

    /** `GetUserByID`: the row with its mode preloaded, or "user not found". */
    method GetUserByID(id: string) returns (r: Result<User, string>)
      requires Valid()
      ensures id !in users <==> r.Failure?
      ensures r.Failure? ==> r.error == ErrUserNotFound
      ensures r.Success? ==> r.value == users[id].(Mode := r.value.Mode) && PreloadedMode(modes, id, r.value.Mode)
    {
      if id !in users {
        return Failure(ErrUserNotFound);
      }
      var mode := ZeroMode;
      if exists k :: k in modes && modes[k].UserID == id {
        var k :| k in modes && modes[k].UserID == id;
        mode := modes[k];
      }
      return Success(users[id].(Mode := mode));
    }

    /**
     * `GetUserByEmail`: a row with that e-mail, without preloading, so its
     * mode is always the zero mode; GORM's `record not found` otherwise.
     */
    method GetUserByEmail(email: string) returns (r: Result<User, string>)
      requires Valid()
      ensures r.Failure? <==> !EmailTaken(users, email)
      ensures r.Failure? ==> r.error == ErrRecordNotFound
      ensures r.Success? ==> r.value.ID in users && users[r.value.ID] == r.value
      ensures r.Success? ==> r.value.Email == email && r.value.Mode == ZeroMode
    {
      if !EmailTaken(users, email) {
        return Failure(ErrRecordNotFound);
      }
      var id :| id in users && users[id].Email == email;
      return Success(users[id]);
    }

    /** `GetAllUsers`: the whole table. */
    method GetAllUsers() returns (all: map<string, User>)
      ensures all == users
    {
      return users;
    }

    /**
     * `UpdateUser(id, user)`: "user not found" for an unknown id; otherwise
     * the non-zero fields of `user` are written and the argument itself is
     * returned, not the stored row.
     */
    method UpdateUser(id: string, user: User) returns (r: Result<User, string>)
      requires Valid()
      modifies this`users
      ensures Valid()
      ensures id !in old(users) ==> r == Failure(ErrUserNotFound) && users == old(users)
      ensures id in old(users) ==> r == Success(user) && users == old(users)[id := MergeUser(old(users)[id], user)]
    {
      if id !in users {
        return Failure(ErrUserNotFound);
      }
      users := users[id := MergeUser(users[id], user)];
      return Success(user);
    }

    /** `DeleteUserByID`: removes exactly that row, or "user not found". */
    method DeleteUserByID(id: string) returns (err: Option<string>)
      requires Valid()
      modifies this`users
      ensures Valid()
      ensures id !in old(users) <==> err.Some?
      ensures err.Some? ==> err.value == ErrUserNotFound
      ensures users == old(users) - {id}
    {
      if id !in users {
        return Some(ErrUserNotFound);
      }
      users := users - {id};
      return None;
    }

    /**
     * `ChangePasswordByUserID`: the stored password becomes the hash of the
     * new one; an unknown user or a password bcrypt refuses changes nothing.
     */
    method ChangePasswordByUserID(userID: string, newPassword: string) returns (err: Option<string>)
      requires Valid()
      modifies this`users
      ensures Valid()
      ensures userID !in old(users) ==> err == Some(ErrRecordNotFound) && users == old(users)
      ensures userID in old(users) && Bcrypt.GenerateFromPassword(newPassword).Failure? ==>
        err == Some(Bcrypt.GenerateFromPassword(newPassword).error) && users == old(users)
      ensures userID in old(users) && Bcrypt.GenerateFromPassword(newPassword).Success? ==>
        err.None?
        && users == old(users)[userID := old(users)[userID].(Password := Bcrypt.GenerateFromPassword(newPassword).value)]
    {
      if userID !in users {
        return Some(ErrRecordNotFound);
      }
      var hashed := Bcrypt.GenerateFromPassword(newPassword);
      if hashed.Failure? {
        return Some(hashed.error);
      }
      users := users[userID := users[userID].(Password := hashed.value)];
      return None;
    }

    /** `GetUserPasswordByID`: the stored hash. */
    method GetUserPasswordByID(userID: string) returns (r: Result<string, string>)
      ensures userID !in users <==> r.Failure?
      ensures r.Failure? ==> r.error == ErrRecordNotFound
      ensures r.Success? ==> r.value == users[userID].Password
    {
      if userID !in users {
        return Failure(ErrRecordNotFound);
      }
      return Success(users[userID].Password);
    }

    // -------------------------------------------------------------------
    // Modes
    // -------------------------------------------------------------------

    /** `GetModeByID`: the row, or "mode not found". */
    method GetModeByID(id: int) returns (r: Result<Mode, string>)
      ensures r.Failure? <==> id < 0 || id !in modes
      ensures r.Failure? ==> r.error == ErrModeNotFound
      ensures r.Success? ==> id >= 0 && r.value == modes[id]
    {
      if id < 0 || id !in modes {
        return Failure(ErrModeNotFound);
      }
      return Success(modes[id]);
    }

    /**
     * `CreateMode`: a plain insert under `InsertKey`, committed; the key's
     * being taken is the database's duplicate-key error, and the sequence
     * has advanced all the same.
     */
    method CreateMode(mode: Mode) returns (r: Result<nat, string>)
      requires Valid()
      modifies this`modes, this`nextModeID
      ensures Valid()
      ensures nextModeID == SequenceAfterInsert(old(nextModeID), mode)
      ensures InsertKey(old(nextModeID), mode) in old(modes) ==> r == Failure(ErrDuplicatedKey) && modes == old(modes)
      ensures InsertKey(old(nextModeID), mode) !in old(modes) ==>
        var k := InsertKey(old(nextModeID), mode);
        r == Success(k) && modes == old(modes)[k := mode.(ID := k)]
    {
      var k := InsertKey(nextModeID, mode);
      nextModeID := SequenceAfterInsert(nextModeID, mode);
      if k in modes {
        return Failure(ErrDuplicatedKey);
      }
      modes := modes[k := mode.(ID := k)];
      return Success(k);
    }

    /**
     * `UpdateMode(id, mode)`: "mode not found" for an unknown id; otherwise
     * the update runs in a transaction that is never committed, so the call
     * reports success and the stored row stays as it was.
     */
    method UpdateMode(id: int, mode: Mode) returns (err: Option<string>)
      requires Valid()
      ensures err.Some? <==> id < 0 || id !in modes
      ensures err.Some? ==> err.value == ErrModeNotFound
    {
      if id < 0 || id !in modes {
        return Some(ErrModeNotFound);
      }
      return None;
    }

    /**
     * `DeleteModeByID(id)`: "mode not found" for an unknown id; otherwise
     * the delete runs in a transaction that is never committed, so the call
     * reports success and the row is still there for every later query.
     */
    method DeleteModeByID(id: int) returns (err: Option<string>)
      requires Valid()
      ensures err.Some? <==> id < 0 || id !in modes
      ensures err.Some? ==> err.value == ErrModeNotFound
      ensures err.None? ==> id as nat in modes
    {
      if id < 0 || id !in modes {
        return Some(ErrModeNotFound);
      }
      return None;
    }

    // -------------------------------------------------------------------
    // Confirmations
    // -------------------------------------------------------------------

    /** `InsertConfirmation`: the row under its id, which is returned. */
    method InsertConfirmation(c: Confirmation) returns (r: Result<string, string>)
      requires Valid()
      modifies this`confirmations
      ensures Valid()
      ensures c.ID in old(confirmations) ==> r == Failure(ErrDuplicatedKey) && confirmations == old(confirmations)
      ensures c.ID !in old(confirmations) ==> r == Success(c.ID) && confirmations == old(confirmations)[c.ID := c]
    {
      if c.ID in confirmations {
        return Failure(ErrDuplicatedKey);
      }
      confirmations := confirmations[c.ID := c];
      return Success(c.ID);
    }

    /** `GetLastConfirmation`: the user's confirmation that expires last. */
    method GetLastConfirmation(userID: string) returns (r: Result<Confirmation, string>)
      requires Valid()
      ensures r.Failure? <==> forall k :: k in confirmations ==> confirmations[k].UserID != userID
      ensures r.Failure? ==> r.error == ErrRecordNotFound
      ensures r.Success? ==>
        IsLastConfirmation(confirmations, userID, r.value.ID) && confirmations[r.value.ID] == r.value
    {
      if forall k :: k in confirmations ==> confirmations[k].UserID != userID {
        return Failure(ErrRecordNotFound);
      }
      LastConfirmationExists(confirmations, userID);
      var k :| k in confirmations && IsLastConfirmation(confirmations, userID, k);
      return Success(confirmations[k]);
    }

    /** `ConfirmUser(id, c)`: writes the non-zero fields of `c` into row `id`. */
    method ConfirmUser(confirmationID: string, c: Confirmation) returns (err: Option<string>)
      requires Valid()
      modifies this`confirmations
      ensures Valid()
      ensures confirmationID !in old(confirmations) ==>
        err == Some(ErrRecordNotFound) && confirmations == old(confirmations)
      ensures confirmationID in old(confirmations) ==>
        err.None? && confirmations == old(confirmations)[confirmationID :=
          MergeConfirmation(old(confirmations)[confirmationID], c)]
    {
      if confirmationID !in confirmations {
        return Some(ErrRecordNotFound);
      }
      confirmations := confirmations[confirmationID := MergeConfirmation(confirmations[confirmationID], c)];
      return None;
    }

    // -------------------------------------------------------------------
    // Password reset tokens
    // -------------------------------------------------------------------

    /** `InsertPasswordToken`: the row under its id, which is returned. */
    method InsertPasswordToken(t: ResetToken) returns (r: Result<string, string>)
      requires Valid()
      modifies this`tokens
      ensures Valid()
      ensures t.ID in old(tokens) ==> r == Failure(ErrDuplicatedKey) && tokens == old(tokens)
      ensures t.ID !in old(tokens) ==> r == Success(t.ID) && tokens == old(tokens)[t.ID := t]
    {
      if t.ID in tokens {
        return Failure(ErrDuplicatedKey);
      }
      tokens := tokens[t.ID := t];
      return Success(t.ID);
    }

    /** `GetLastPasswordTokenByUserID`: the user's most recently created token. */
    method GetLastPasswordTokenByUserID(userID: string) returns (r: Result<ResetToken, string>)
      requires Valid()
      ensures r.Failure? <==> forall k :: k in tokens ==> tokens[k].UserID != userID
      ensures r.Failure? ==> r.error == ErrRecordNotFound
      ensures r.Success? ==> IsLastToken(tokens, userID, r.value.ID) && tokens[r.value.ID] == r.value
    {
      if forall k :: k in tokens ==> tokens[k].UserID != userID {
        return Failure(ErrRecordNotFound);
      }
      LastTokenExists(tokens, userID);
      var k :| k in tokens && IsLastToken(tokens, userID, k);
      return Success(tokens[k]);
    }

    /** `SetTokenToUsed(id, t)`: writes the non-zero fields of `t` into row `id`. */
    method SetTokenToUsed(tokenID: string, t: ResetToken) returns (err: Option<string>)
      requires Valid()
      modifies this`tokens
      ensures Valid()
      ensures tokenID !in old(tokens) ==> err == Some(ErrRecordNotFound) && tokens == old(tokens)
      ensures tokenID in old(tokens) ==>
        err.None? && tokens == old(tokens)[tokenID := MergeResetToken(old(tokens)[tokenID], t)]
    {
      if tokenID !in tokens {
        return Some(ErrRecordNotFound);
      }
      tokens := tokens[tokenID := MergeResetToken(tokens[tokenID], t)];
      return None;
    }
  }
}
