/**
 * The persisted entities: users, their modes (roles), e-mail confirmations
 * and password-reset tokens, with the expiry rules and the password check
 * that live on them.
 *
 * Instants are Unix nanoseconds.  The `ExpiredAt` fields of confirmations and
 * reset tokens are meant to hold Unix seconds.
 */
module Models {
  import opened Wrappers
  import Bcrypt

  const NanosPerSecond: int := 1_000_000_000

  /** The zero `time.Time` (January 1 of year 1, UTC) in Unix nanoseconds. */
  const ZeroTime: int := -62135596800 * NanosPerSecond

  /** A mode row: the role name a user holds (`gorm.Model` reduced to its id). */
  datatype Mode = Mode(ID: nat, Name: string, UserID: string)

  /** The zero `Mode`, which an unmatched preload leaves in place. */
  const ZeroMode: Mode := Mode(0, "", "")

  datatype User = User(
    ID: string,
    CreatedAt: int,
    DeletedAt: int,
    UserName: string,
    FirstName: string,
    LastName: string,
    Email: string,
    Password: string,
    Mode: Mode)

  /** A `UserConfirmation` row. */
  datatype Confirmation = Confirmation(ID: string, UserID: string, ExpiredAt: int, CreatedAt: int, Confirmed: bool)

  /** A `PasswordRestToken` row. */
  datatype ResetToken = ResetToken(ID: string, UserID: string, ExpiredAt: int, CreatedAt: int, TokenUsed: bool)

  /**
   * `time.Now().After(time.Unix(expiredAt, 0))`: expiry is strict, so at
   * the very second `expiredAt` the record is still valid.
   */
  predicate ExpiredBy(expiredAt: int, nowNano: int) {
    nowNano > expiredAt * NanosPerSecond
  }

  /**
   * The `ExpiredAt` that `SetExpire` and `SetTokenExpire` leave: unchanged
   * when already expired, otherwise the current time in nanoseconds.
   */
  function AfterSetExpire(expiredAt: int, nowNano: int): (r: int)
    ensures ExpiredBy(expiredAt, nowNano) ==> r == expiredAt
    ensures !ExpiredBy(expiredAt, nowNano) ==> r == nowNano
  {
    if ExpiredBy(expiredAt, nowNano) then expiredAt else nowNano
  }

  /**
   * Storing nanoseconds in a seconds field: after `SetExpire` on an
   * unexpired record at any instant from one second past the epoch on, the
   * record is unexpired now and stays unexpired for as many seconds as there
   * were nanoseconds on the clock.
   */
  lemma SetExpireKeepsRecordAlive(expiredAt: int, nowNano: int, laterNano: int)
    requires nowNano >= NanosPerSecond
    requires !ExpiredBy(expiredAt, nowNano)
    requires laterNano <= nowNano * NanosPerSecond
    ensures !ExpiredBy(AfterSetExpire(expiredAt, nowNano), nowNano)
    ensures !ExpiredBy(AfterSetExpire(expiredAt, nowNano), laterNano)
  {
  }

  /** Calling `SetExpire` twice in the same instant is the same as once. */
  lemma SetExpireIdempotent(expiredAt: int, nowNano: int)
    requires nowNano >= 0
    ensures AfterSetExpire(AfterSetExpire(expiredAt, nowNano), nowNano) == AfterSetExpire(expiredAt, nowNano)
  {
  }

  /** `UserConfirmation`, as a handler holds and changes it. */
  class UserConfirmation {
    var ID: string
    var UserID: string
    var ExpiredAt: int
    var CreatedAt: int
    var Confirmed: bool

    constructor (row: Confirmation)
      ensures Row() == row
    {
      ID := row.ID;
      UserID := row.UserID;
      ExpiredAt := row.ExpiredAt;
      CreatedAt := row.CreatedAt;
      Confirmed := row.Confirmed;
    }

    function Row(): Confirmation
      reads this
    {
      Confirmation(ID, UserID, ExpiredAt, CreatedAt, Confirmed)
    }

    /**
     * `IsExpired`: the clock is past `ExpiredAt` seconds.  Read in whole Unix
     * seconds, the record is expired from the second after `ExpiredAt` on,
     * and never before `ExpiredAt` itself.
     */
    predicate IsExpired(nowNano: int)
      reads this
      ensures nowNano / NanosPerSecond > ExpiredAt ==> IsExpired(nowNano)
      ensures IsExpired(nowNano) ==> nowNano / NanosPerSecond >= ExpiredAt
    {
      ExpiredBy(ExpiredAt, nowNano)
    }

    /** `SetExpire`: only `ExpiredAt` changes, as `AfterSetExpire` says. */
    method SetExpire(nowNano: int)
      modifies this`ExpiredAt
      ensures Row() == old(Row()).(ExpiredAt := AfterSetExpire(old(ExpiredAt), nowNano))
    {
      if !IsExpired(nowNano) {
        ExpiredAt := nowNano;
      }
    }
  }

  /** `PasswordRestToken`, as a handler holds and changes it. */
  class PasswordRestToken {
    var ID: string
    var UserID: string
    var ExpiredAt: int
    var CreatedAt: int
    var TokenUsed: bool

    constructor (row: ResetToken)
      ensures Row() == row
    {
      ID := row.ID;
      UserID := row.UserID;
      ExpiredAt := row.ExpiredAt;
      CreatedAt := row.CreatedAt;
      TokenUsed := row.TokenUsed;
    }

    function Row(): ResetToken
      reads this
    {
      ResetToken(ID, UserID, ExpiredAt, CreatedAt, TokenUsed)
    }

    /** `IsTokenExpired`: the clock is past `ExpiredAt` seconds, as for `IsExpired`. */
    predicate IsTokenExpired(nowNano: int)
      reads this
      ensures nowNano / NanosPerSecond > ExpiredAt ==> IsTokenExpired(nowNano)
      ensures IsTokenExpired(nowNano) ==> nowNano / NanosPerSecond >= ExpiredAt
    {
      ExpiredBy(ExpiredAt, nowNano)
    }

    /** `SetTokenExpire`: only `ExpiredAt` changes, as `AfterSetExpire` says. */
    method SetTokenExpire(nowNano: int)
      modifies this`ExpiredAt
      ensures Row() == old(Row()).(ExpiredAt := AfterSetExpire(old(ExpiredAt), nowNano))
    {
      if !IsTokenExpired(nowNano) {
        ExpiredAt := nowNano;
      }
    }
  }

  /**
   * `User.PasswordMatches(plain)`: `Success(true)` on a match,
   * `Success(false)` on a plain mismatch, and the bcrypt error otherwise.
   */
  function PasswordMatches(u: User, plainText: string): (r: Result<bool, string>)
    ensures r == Success(true) <==> Bcrypt.CompareHashAndPassword(u.Password, plainText).None?
    ensures r == Success(false) <==>
      Bcrypt.CompareHashAndPassword(u.Password, plainText) == Some(Bcrypt.ErrMismatchedHashAndPassword)
    ensures r.Failure? <==> !Bcrypt.WellFormed(u.Password)
  {
    match Bcrypt.CompareHashAndPassword(u.Password, plainText)
    case None => Success(true)
    case Some(e) => if e == Bcrypt.ErrMismatchedHashAndPassword then Success(false) else Failure(e)
  }

  /**
   * A user whose stored password is the hash of `p` matches `p`, matches
   * another password exactly when bcrypt derives the same key from it, and
   * so, among passwords of at most 72 bytes without a NUL, matches `p` alone.
   */
  lemma PasswordMatchesHashed(u: User, p: string, q: string)
    requires Bcrypt.GenerateFromPassword(p).Success?
    requires u.Password == Bcrypt.GenerateFromPassword(p).value
    ensures PasswordMatches(u, p) == Success(true)
    ensures PasswordMatches(u, q) == Success(true) <==> Bcrypt.SameKey(p, q)
    ensures !Bcrypt.SameKey(p, q) ==> PasswordMatches(u, q) == Success(false)
    ensures |Bcrypt.Utf8(q)| <= Bcrypt.MaxPasswordLength && 0 as char !in p && 0 as char !in q && q != p ==>
      PasswordMatches(u, q) == Success(false)
  {
    Bcrypt.CompareGenerated(p, q);
  }
}
