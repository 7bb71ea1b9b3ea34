# TriceraPass authentication core in Dafny

TriceraPass is a Go authentication service. It issues JWT access and refresh
token pairs at login, keeps the refresh token in an HTTP-only cookie, and
verifies `Authorization: Bearer` headers in its middleware. Around that sits a
small user store: users with a mode ("admin", "default"), confirmation records
and password-reset tokens. This project models that core and proves its
properties: the token issuer and verifier, the cookie builders, the CORS,
login and admin gates, the expiry records, the repository table operations and
the HTTP handlers. The repository keeps two copies of much of this code: the
current `auth`, `application`, `utils` and `server/handlers` packages, and the
older ones in package `main`. Both are modelled.

The model is arranged by package:

| module | models |
|---|---|
| `Wrappers` | `Option` and `Result` |
| `Text` | `strings.Split`, `strings.TrimSpace`, and decimal digits for `strconv` |
| `Bcrypt` | a stand-in for `golang.org/x/crypto/bcrypt`: hashing with cost 14, the 72-byte limit on the UTF-8 encoding, and a comparison through the 72-byte Blowfish key, so that bytes past the 72nd never count |
| `Jwt` | a stand-in for `golang-jwt` v4: an injective token text, `SignedString`, and `ParseWithClaims` with its validation order (algorithm check, then `exp`, `iat` and the signature) |
| `Http` | the `ResponseWriter` as a class: the first status line wins, header and cookies are sent with it, and body documents accumulate |
| `Auth` | `cmd/api/auth/Auth.go` |
| `LegacyAuth` | `cmd/api/Auth.go` |
| `Middleware` | `cmd/api/application/middleware.go` and `config.go` |
| `Utils` | `cmd/api/utils/utils.go`, and `cmd/api/utils.go`, whose `writeJSON`, `readJSON`, `errorJSON` and `isOriginAllowed` are the same code |
| `Models` | `internal/models/Users.go` |
| `Repositories` | `internal/repositories/Users.go`, over in-memory tables, as the class `Repository` |
| `AuthHandlers` | login, refresh, logout and registration in `server/handlers` |
| `AccountHandlers` | confirmation, password and user handlers in `server/handlers` |
| `LegacyHandlers` | the handlers of package `main` that differ from those |

The older handlers that are identical to the current ones are modelled once:
- `logout` is `AuthHandlers.Logout`;
- `ConfirmUser`, `SetTokenToUsed`, `AddMissingCreationDate` and `Updateuser` are the members of the same name in `AccountHandlers`.
- The older `AddMissingCreationDate` words its "date still unset" message differently: "users creation date" (cmd/api/httpHandlersUser.go:126) against "user's creation date" (cmd/api/server/handlers/httpHandlersUser.go:156). That message is never sent, because the date is filled in before the test (`CreationDateAlwaysReportedValid`), so the two behave identically.

The older handlers that differ in one place take the package as a parameter, `Package.Main` versus `Package.Handlers`:
- `authenticate` and `refreshToken` are `AuthHandlers.Authenticate` and `AuthHandlers.RefreshToken` with `Main`. They issue tokens through `LegacyAuth.GenerateTokenPair`, so the refresh token is the access token.
- The older `ChangePasswordByUserID` is `AccountHandlers.ChangePasswordByUserID` with `Main`. It differs only in the duplicate-password text.

The older cookie builders `GetRefreshCookie` and `GetExpiredRefreshCookie` (cmd/api/Auth.go:153-179) are the same code as the current ones, and are modelled once, as `Auth.GetRefreshCookie` and `Auth.GetExpiredRefreshCookie`.

The clock is a parameter, `nowNano`, in Unix nanoseconds. A Go `time.Now().Unix()` is `nowNano / 10^9`.

Behaviour of the code that a reader may not expect, and that the model keeps:
- A refresh request without the refresh cookie is not rejected with 401. No status and no body are written at all.
- The refresh handler does not stop at the first matching cookie. Every matching cookie is answered until one fails.
- `AuthRequired` does not put the verified subject in the request context. It stores the raw bearer token under the key "userID".
- A successful login answers 202, not 200.
- An unknown e-mail and a wrong password are not reported alike. They give "invalid credentials" and "invalid email or password".
- The verified claims do not carry the `name` claim. The handlers parse into `jwt.RegisteredClaims`, which has no such field.

## Model

| member | source | states |
|---|---|---|
| Auth.IssuedTokens | cmd/api/auth/Auth.go:63-103 | the pair issued for one instant: both tokens carry one `jti` and one subject; the access claims have `name`, `aud`, `iss`, `typ` and `exp` = now + TokenExpiry, and the refresh claims only `jti`, `sub`, `iat` and `exp` = now + RefreshExpiry |
| Auth.PairJson | cmd/api/auth/Auth.go:36-39 | the pair marshals to a document whose `access_token` and `refresh_token` members are the two tokens |
| Auth.GenerateTokenPair | cmd/api/auth/Auth.go:63-103 | it fails exactly when signing fails (an empty secret), with an empty pair and the signing error; otherwise it returns the issued pair |
| Auth.ExpiredCookieReplacesRefreshCookie | cmd/api/auth/Auth.go:112-142 | the logout cookie has the refresh cookie's name, domain, path and flags, an empty value, a negative MaxAge, and, for a cookie issued after the epoch with a positive lifetime, an earlier expiry |
| Auth.GetRefreshCookie | cmd/api/auth/Auth.go:112-124 | the cookie carries the refresh token under the configured name, path and domain, is HTTP-only, secure and strict, expires one refresh lifetime after issue, and its MaxAge is the lifetime in seconds: exactly that for a whole number of seconds, and for any other non-negative lifetime its whole seconds or one more, as the float64 rounding of `Seconds()` allows |
| Auth.GetExpiredRefreshCookie | cmd/api/auth/Auth.go:130-142 | the cookie has the configured name, path and domain and the same flags, an empty value, MaxAge -1 and an expiry at the epoch |
| Auth.DeployedRefreshCookieLifetime | cmd/api/main.go:79-88 | with the deployed configuration the refresh cookie is named "refresh_token", has path "/", MaxAge 86400 and expires 24 hours after issue |
| Auth.BearerJoin | cmd/api/auth/Auth.go:167-176 | a token without spaces behind "Bearer " splits into exactly the parts "Bearer" and the token |
| Auth.BearerParts | cmd/api/auth/Auth.go:167-176 | a header that splits into "Bearer" and one more part is "Bearer " followed by that part, which has no space |
| Auth.BearerShape | cmd/api/auth/Auth.go:167-174 | the header passes the split test exactly when it is "Bearer " followed by text without spaces, so "Bearer" alone or with two spaces fails |
| Text.Split | cmd/api/auth/Auth.go:167 | `strings.Split` gives at least one part; `SplitJoin` proves the parts join back to the input |
| Auth.VerifyHeader | cmd/api/auth/Auth.go:159-200 | a success means the header is "Bearer " followed by the returned token, that token parses with the HMAC check to the returned claims, and their issuer is the configured one |
| Auth.VerifyToken | cmd/api/auth/Auth.go:182-200 | succeeds exactly when the HMAC-checked parse succeeds and the claims name the configured issuer, and then returns the token itself with those claims |
| Auth.VerifyTokenFailures | cmd/api/auth/Auth.go:182-200 | every refusal text, in the order the checks run: "token contains an invalid number of segments" for a text that does not decode, the unknown algorithm, "unexpected signing method", "signature is invalid", "token used before issued", "expired token" for a reached `exp`, then "invalid issuer"; an earlier check's text wins over a later one |
| Auth.VerifyHeaderFailures | cmd/api/auth/Auth.go:159-200 | an empty header gives "no auth header"; any other header that is not "Bearer " followed by text without spaces gives "invalid auth header"; a well-shaped header is answered exactly as its token is |
| Auth.VerifyBearer | cmd/api/auth/Auth.go:159-200 | a header made of "Bearer ", then a token without spaces, verifies exactly as that token does |
| Auth.GetTokenFromHeaderAndVerify | cmd/api/auth/Auth.go:155-201 | "Vary: Authorization" is appended whatever the outcome, and the result is the verification's token and claims or its error |
| Auth.IssuedAccessTokenVerifies | cmd/api/auth/Auth.go:63-103 | an issued access token verifies before its expiry second, giving back the token and claims with the user's id as subject, the token id, issuer and audience |
| Auth.IssuedAccessTokenExpires | cmd/api/auth/Auth.go:189-194 | from its expiry second on, an issued access token is refused with "expired token" |
| Auth.ForeignTokenRejected | cmd/api/auth/Auth.go:182-194 | a token signed with another secret is refused, whatever its claims |
| Auth.ForeignTokenRefused | cmd/api/auth/Auth.go:182-187 | the token check alone refuses a token signed with another secret with "signature is invalid" |
| Auth.RefreshTokenIsNotAnAccessToken | cmd/api/auth/Auth.go:196-198 | a live refresh token presented as a bearer token is refused with "invalid issuer" |
| Auth.PairSharesIdAndSubject | cmd/api/auth/Auth.go:65-71 | both decoded tokens of a pair carry the same `jti` and the same `sub` |
| Auth.VerifiedClaimsDropName | cmd/api/auth/Auth.go:41-44 | the registered claims read from an access token do not depend on the user's first and last name, so the `name` claim never reaches a caller |
| LegacyAuth.GenerateTokenPair | cmd/api/Auth.go:64-106 | it fails exactly on an empty secret; otherwise the refresh token equals the access token |
| LegacyAuth.VerifyHeader | cmd/api/Auth.go:181-226 | an empty header gives "no auth header", a wrong part count the misspelt "invalud auth header", and a success means the header is "Bearer " and the returned token with the configured issuer |
| LegacyAuth.LegacyRefreshTokenExpiresEarly | cmd/api/Auth.go:87-97 | at the access token's expiry second the legacy refresh token is refused as expired, while the intended refresh token would still parse |
| LegacyAuth.LegacyRefreshTokenExpired | cmd/api/Auth.go:78-100 | the legacy refresh token, read at the access token's expiry second, fails to parse with "expired" |
| LegacyAuth.IntendedRefreshTokenAlive | cmd/api/Auth.go:86-94 | the refresh token whose claims are filled in still parses at that second when the refresh lifetime ends in a later second |
| LegacyAuth.DeployedLegacyRefreshTokenExpiresEarly | cmd/api/main.go:79-88 | with the deployed lifetimes the legacy refresh token is dead 15 minutes after login |
| LegacyAuth.VerifyHeaderMatchesCurrent | cmd/api/Auth.go:181-226 | the legacy verifier agrees with the current one except that a wrong part count gives "invalud auth header" |
| LegacyAuth.OneWordHeaderMisspelt | cmd/api/Auth.go:193-195 | the header "Bearer" is refused as "invalud auth header" by the legacy verifier and "invalid auth header" by the current one |
| LegacyAuth.GetTokenFromHeaderAndVerify | cmd/api/Auth.go:181-226 | "Vary: Authorization" is appended, then the legacy verification's result is returned |
| Jwt.SignedString | cmd/api/auth/Auth.go:79-82 | signing fails exactly for an empty key; a signed text decodes back to the token it signed |
| Jwt.Encode | cmd/api/auth/Auth.go:79 | a token text is non-empty and contains no space, so it survives the header split |
| Jwt.DecodeEncode | cmd/api/auth/Auth.go:182 | decoding a token text gives back the token |
| Jwt.EncodeInjective | cmd/api/auth/Auth.go:99-102 | two tokens with the same text are the same token |
| Jwt.Registered | cmd/api/auth/Auth.go:41-44 | the subject is the `sub` claim, or empty without one, and the audience is the `aud` claim as a one-element list |
| Jwt.ParseWithClaims | cmd/api/auth/Auth.go:182 | a parse succeeds exactly when the text decodes to an HMAC token signed with the key whose `iat` is not in the future and whose `exp` is not reached, and gives its registered claims; a text that does not decode is the malformed error |
| Jwt.ParseSigned | cmd/api/auth/Auth.go:182-194 | a token signed with the key parses to its registered claims unless it is issued in the future or expired, and expiry gives the expired error |
| Jwt.ParseForeignKey | cmd/api/auth/Auth.go:182-187 | a token signed with another key is refused with the signature error |
| Jwt.ParseRejectsNonHmac | cmd/api/auth/Auth.go:183-185 | with the HMAC check, a token of another algorithm is refused with "unexpected signing method" |
| Jwt.ParseNonHmacWithoutCheck | cmd/api/server/handlers/httpHandlersAuth.go:124-126 | without the check, a non-HMAC token still fails, at the signature |
| Text.SplitJoin | cmd/api/auth/Auth.go:167-174 | joining the parts with the separator gives the input back, no part contains the separator, and there is one more part than separators |
| Text.SplitNoSeparator | cmd/api/auth/Auth.go:167-170 | a text without the separator splits into itself alone |
| Text.TrimSpace | cmd/api/application/config.go:98 | the result is the input without leading and trailing white space, and it is a piece of the input |
| Text.TrimAllSpace | cmd/api/application/config.go:98 | a blank or white-space-only entry trims to the empty text |
| Text.TrimUnpadded | cmd/api/application/config.go:98 | trimming leaves a text without outer white space unchanged |
| Bcrypt.GenerateFromPassword | cmd/api/controllers/userController.go:23-27 | hashing fails, with "bcrypt: password length exceeds 72 bytes", exactly when the password's UTF-8 encoding is longer than 72 bytes; a hash is well formed and differs from the password |
| Bcrypt.CompareHashAndPassword | internal/models/Users.go:81-91 | a malformed hash gives the malformed error; a well-formed one matches exactly the passwords whose Blowfish key equals that of the hashed password, and gives the mismatch error otherwise |
| Bcrypt.CompareGenerated | internal/models/Users.go:80-92 | a generated hash matches its own password, matches another password exactly when both have the same key, and gives the mismatch error otherwise; among passwords of at most 72 bytes without a NUL it matches its own password alone |
| Bcrypt.EncodeChar | cmd/api/controllers/userController.go:25 | a code point takes one to four bytes, and its first byte is zero exactly for the NUL character |
| Bcrypt.Utf8 | cmd/api/controllers/userController.go:25 | a text takes at least one and at most four bytes per character |
| Bcrypt.Utf8Injective | cmd/api/controllers/userController.go:25 | two texts with the same bytes are the same text |
| Bcrypt.SameKeyExactlyEqual | internal/models/Users.go:81-91 | two passwords of at most 72 bytes without a NUL have the same key exactly when they are equal |
| Bcrypt.LongPasswordIgnoresTail | internal/models/Users.go:81-91 | anything appended to a password of 72 bytes or more leaves its key unchanged |
| Bcrypt.TruncatedPasswordAccepted | internal/models/Users.go:80-92 | a password of exactly 72 bytes is hashed, and its hash matches it with anything appended |
| Bcrypt.MultiByteCharactersCountTwice | cmd/api/controllers/userController.go:23-27 | forty copies of U+00E9 are forty characters but eighty bytes, and hashing refuses them |
| Http.ResponseWriter.constructor | cmd/api/utils/utils.go:31-49 | a fresh writer has no header, cookies, status or body |
| Http.ResponseWriter.AddHeader | cmd/api/auth/Auth.go:156 | the value is appended to that header's values |
| Http.ResponseWriter.SetHeader | cmd/api/utils/utils.go:42 | the header holds exactly that value |
| Http.ResponseWriter.AssignHeader | cmd/api/utils/utils.go:36-40 | the header holds exactly the given values |
| Http.ResponseWriter.SetCookie | cmd/api/server/handlers/httpHandlersAuth.go:102 | the cookie is appended to those to be sent |
| Http.ResponseWriter.WriteHeader | cmd/api/utils/utils.go:43 | the first status wins and sends the header and cookies as they are then; a later call changes nothing |
| Http.ResponseWriter.Write | cmd/api/utils/utils.go:44 | the document is appended to the body, and a write before any status sends 200 |
| Utils.JsonResponse | cmd/api/utils/utils.go:95-99 | the document's `error`, `message` and `data` members are the given flag, text and data |
| Utils.JsonResponseMarshalable | cmd/api/utils/utils.go:32-35 | a response marshals whenever its data does |
| Utils.WriteJSON | cmd/api/utils/utils.go:31-49 | a payload that does not marshal writes nothing; otherwise the caller's headers are copied, Content-Type is forced to "application/json", the status is written once and the payload is appended |
| Utils.CopyHeaders | cmd/api/utils/utils.go:36-40 | the caller's headers override the writer's, key by key |
| Utils.FirstUnknown | cmd/api/utils/utils.go:65 | no member is reported exactly when every top-level member name is, character for character, a known field name, and a reported one is not |
| Utils.ReadJSON | cmd/api/utils/utils.go:61-76 | a body succeeds exactly when it is within 1 MiB, holds exactly one document and that document's top-level member names are all exactly field names, and then gives that document |
| Utils.ReadJSONFailureOrder | cmd/api/utils/utils.go:61-76 | the size error only when the first document does not end within 1 MiB; then the first document's top-level unknown member; then, for a clean document followed by more than the limit allows, even blanks, the single-value error |
| Utils.ErrorJSON | cmd/api/utils/utils.go:89-102 | the status is the first one given, or 400; the body has `error` true and the error text, or "" for no error |
| Middleware.DeployedApplication | cmd/api/main.go:79-88 | the deployed application signs with the same secret in `JWTSecret` and in its `Auth` |
| Middleware.IsOriginAllowed | cmd/api/application/config.go:96-103 | true exactly when some trimmed entry equals the origin (also cmd/api/utils.go:88-95) |
| Middleware.NothingListedInEmpty | cmd/api/application/config.go:97-102 | an empty list admits no origin |
| Middleware.BlankEntryAdmitsEmptyOrigin | cmd/api/application/config.go:98 | a white-space-only entry admits the empty origin |
| Middleware.PaddedOriginNeverListed | cmd/api/application/config.go:98 | an origin with outer white space is never admitted, since only entries are trimmed |
| Middleware.OriginListedAppend | cmd/api/application/config.go:97-101 | the test over a concatenation is the disjunction of the tests over its halves |
| Middleware.OriginListedBySet | cmd/api/application/config.go:97-101 | two lists with the same set of entries admit the same origins, whatever their order or duplicates |
| Middleware.AllowOriginList | cmd/api/application/middleware.go:36-40 | an empty setting is refused; otherwise it splits into one more entry than it has commas, and the entries join back to the setting |
| Middleware.EnableCORS | cmd/api/application/middleware.go:27-61 | an allowed origin sets Access-Control-Allow-Origin to the last list entry; OPTIONS gets the credentials, methods and headers values and does not reach the next handler; other methods get the credentials value and reach it |
| Middleware.AllowedOriginIsLastEntry | cmd/api/application/middleware.go:44-49 | an origin listed first of two distinct entries is admitted, yet the last entry, which the header ends up naming, is another origin |
| Middleware.AuthRequired | cmd/api/application/middleware.go:72-84 | a verification failure writes 401 and skips the next handler; otherwise the next handler runs with the raw token under "userID" |
| Middleware.IsUserAdmin | cmd/api/application/middleware.go:127-134 | an unknown user gives false and "user not found"; true only with an "admin" mode of the user, and true whenever the user has modes and all are "admin" |
| Middleware.AdminRequired | cmd/api/application/middleware.go:95-116 | 401 on a verification failure, then 500 on a lookup failure, then 403 for a non-admin; the next handler runs only for a user with an "admin" row, and always for a user all of whose rows are "admin" |
| Models.AfterSetExpire | internal/models/Users.go:56-60 | an expired record keeps its expiry; any other gets the current time in nanoseconds |
| Models.SetExpireKeepsRecordAlive | internal/models/Users.go:74-78 | after the expiry is set, the record is not expired now, nor at any instant before the nanosecond count read as seconds |
| Models.SetExpireIdempotent | internal/models/Users.go:74-78 | setting the expiry twice at the same instant is setting it once |
| Models.UserConfirmation.IsExpired | internal/models/Users.go:63-72 | read in whole Unix seconds, a confirmation is expired from the second after `ExpiredAt` on and never before `ExpiredAt` |
| Models.PasswordRestToken.IsTokenExpired | internal/models/Users.go:45-54 | the same for a reset token |
| Models.UserConfirmation.constructor | internal/models/Users.go:29-35 | the object holds the given confirmation row |
| Models.UserConfirmation.SetExpire | internal/models/Users.go:74-78 | only the expiry changes, as `AfterSetExpire` says |
| Models.PasswordRestToken.constructor | internal/models/Users.go:37-43 | the object holds the given token row |
| Models.PasswordRestToken.SetTokenExpire | internal/models/Users.go:56-60 | only the expiry changes, as `AfterSetExpire` says |
| Models.PasswordMatches | internal/models/Users.go:80-92 | true exactly when the hash matches, false exactly on a mismatch, an error exactly for a malformed hash |
| Models.PasswordMatchesHashed | internal/models/Users.go:80-92 | a stored hash of `p` matches `p`, matches `q` exactly when `q` has the same key as `p`, answers false otherwise, and among passwords of at most 72 bytes without a NUL matches `p` alone |
| Repositories.NonZero | internal/repositories/Users.go:58 | a field update keeps the stored value exactly when the update is the zero value or already stored |
| Repositories.MergeUserFields | internal/repositories/Users.go:46-68 | each user field is updated when the update's field is non-zero and kept otherwise |
| Repositories.MergeUserSelf | internal/repositories/Users.go:46-68 | updating a user with its own fields changes nothing |
| Repositories.FlagsOnlyRise | internal/repositories/Users.go:219-239 | `Confirmed` and `TokenUsed` can be set by an update but never cleared |
| Repositories.SequenceAfterInsert | internal/repositories/Users.go:34-44 | an insert advances the mode id sequence by one exactly when the row's id is left to it |
| Repositories.SaveAssociation | internal/models/Users.go:11-21 | a zero mode is not saved; otherwise the table gains exactly the key the mode names, or the next sequence value, and every other row is kept |
| Repositories.SequenceAfterSave | internal/models/Users.go:11-21 | a zero mode leaves the sequence alone; any other is inserted with the sequence moving as for an insert |
| Repositories.SavedModeGrantsName | internal/repositories/Users.go:150-168 | a mode in the body whose key is free becomes a row of the new user with the requested name |
| Repositories.SavedModeTakesOverRow | internal/repositories/Users.go:150-168 | a mode in the body naming the id of an existing row takes that row over: the row keeps its name, passes to the new user, and the sequence does not move |
| Repositories.LastConfirmationExists | internal/repositories/Users.go:201-208 | a user with a confirmation has one with the largest expiry |
| Repositories.LastTokenExists | internal/repositories/Users.go:262-269 | a user with a reset token has one with the latest creation |
| Repositories.LastConfirmationUnique | internal/repositories/Users.go:201-208 | two last confirmations of a user have the same expiry |
| Repositories.Repository.constructor | internal/repositories/Users.go:22-325 | the tables start empty |
| Repositories.Repository.CreateUser | internal/repositories/Users.go:150-168 | a taken e-mail gives "user already exists" and a taken id the duplicate-key error, and nothing changes; otherwise the user is stored under its id, the mode in the user's body is saved with it as `SaveAssociation` says, and the sequence moves as `SequenceAfterSave` says |
| Repositories.Repository.GetUserByID | internal/repositories/Users.go:118-128 | an unknown id gives "user not found"; otherwise the stored user with its mode preloaded |
| Repositories.Repository.GetUserByEmail | internal/repositories/Users.go:130-137 | an unknown address gives "record not found"; otherwise a stored user with that address and a zero mode |
| Repositories.Repository.GetAllUsers | internal/repositories/Users.go:109-116 | all stored users |
| Repositories.Repository.UpdateUser | internal/repositories/Users.go:46-68 | an unknown id gives "user not found"; otherwise the non-zero fields of the update are written |
| Repositories.Repository.DeleteUserByID | internal/repositories/Users.go:170-187 | the user is gone afterwards, and the error is "user not found" exactly when there was none |
| Repositories.Repository.ChangePasswordByUserID | internal/repositories/Users.go:298-317 | an unknown user gives "record not found", a hashing failure its error, otherwise the hash of the new password is stored |
| Repositories.Repository.GetUserPasswordByID | internal/repositories/Users.go:319-325 | the stored hash, or "record not found" |
| Repositories.Repository.GetModeByID | internal/repositories/Users.go:22-32 | the stored mode, or "mode not found" for a negative or unknown id |
| Repositories.Repository.CreateMode | internal/repositories/Users.go:34-44 | the sequence advances when the id is left to it, on failure too; a key already taken gives the duplicate-key error and the table is unchanged; otherwise the mode is stored under that key, which is returned |
| Repositories.Repository.UpdateMode | internal/repositories/Users.go:89-107 | "mode not found" exactly for a negative or unknown id; otherwise success, while the table stays as it was, since the update is never committed |
| Repositories.Repository.DeleteModeByID | internal/repositories/Users.go:70-87 | "mode not found" exactly for a negative or unknown id; otherwise success with the row still present, since the deletion is never committed |
| Repositories.Repository.InsertConfirmation | internal/repositories/Users.go:189-199 | a taken id gives the duplicate-key error; otherwise the row is stored and its id returned |
| Repositories.Repository.GetLastConfirmation | internal/repositories/Users.go:201-208 | "record not found" exactly when the user has no confirmation; otherwise one with the largest expiry |
| Repositories.Repository.ConfirmUser | internal/repositories/Users.go:219-239 | an unknown id gives "record not found"; otherwise the non-zero fields of the update are written |
| Repositories.Repository.InsertPasswordToken | internal/repositories/Users.go:250-260 | a taken id gives the duplicate-key error; otherwise the row is stored and its id returned |
| Repositories.Repository.GetLastPasswordTokenByUserID | internal/repositories/Users.go:262-269 | "record not found" exactly when the user has no token; otherwise one with the latest creation |
| Repositories.Repository.SetTokenToUsed | internal/repositories/Users.go:279-296 | an unknown id gives "record not found"; otherwise the non-zero fields of the update are written |
| AuthHandlers.GenerateTokenPair | cmd/api/httpHandlersAuth.go:186-191 | the current package issues the `auth` pair and the legacy one the doubled access token; both fail exactly on an empty secret |
| AuthHandlers.Authenticate | cmd/api/server/handlers/httpHandlersAuth.go:59-106 | a bad payload gives 400; an unknown e-mail 401 "invalid credentials"; a wrong password or compare error 401 "invalid email or password"; a signing failure 400 with its error; otherwise the refresh cookie and 202 with the pair (also cmd/api/httpHandlersAuth.go:154-197) |
| AuthHandlers.ClaimsReply | cmd/api/server/handlers/httpHandlersAuth.go:130-156 | a reply carries a new cookie exactly when its status is 200 |
| AuthHandlers.CookieReply | cmd/api/server/handlers/httpHandlersAuth.go:120-156 | the reply to one cookie carries a new refresh cookie exactly when its status is 200 |
| AuthHandlers.Answers | cmd/api/server/handlers/httpHandlersAuth.go:118-158 | one answer per request cookie |
| AuthHandlers.AnswerClaims | cmd/api/server/handlers/httpHandlersAuth.go:130-156 | the writer shows the reply for the parsed claims |
| AuthHandlers.AnswerCookie | cmd/api/server/handlers/httpHandlersAuth.go:120-156 | the writer shows the reply for that cookie |
| AuthHandlers.UnparsedCookieRefused | cmd/api/server/handlers/httpHandlersAuth.go:118-131 | a lone refresh cookie that does not parse gets exactly one reply, 401 "unauthorized" |
| AuthHandlers.RefreshStep | cmd/api/server/handlers/httpHandlersAuth.go:118-158 | one loop turn keeps the writer showing the replies so far, and stops exactly at a failed reply |
| AuthHandlers.RefreshToken | cmd/api/server/handlers/httpHandlersAuth.go:116-160 | the body holds the documents of every reply of the loop and the cookies set are theirs, in order; the status line is the first reply's, and with no reply nothing is sent (also cmd/api/httpHandlersAuth.go:199-242) |
| AuthHandlers.NoRefreshCookieNoReply | cmd/api/server/handlers/httpHandlersAuth.go:118-119 | without a cookie of the configured name nothing is written |
| AuthHandlers.RefreshErrorsEndTheLoop | cmd/api/server/handlers/httpHandlersAuth.go:124-150 | every reply but the last is a success with a cookie |
| AuthHandlers.OneCookieOneReply | cmd/api/server/handlers/httpHandlersAuth.go:118-158 | a single refresh cookie gets exactly its own reply |
| AuthHandlers.IssuedRefreshTokenRefreshes | cmd/api/server/handlers/httpHandlersAuth.go:124-156 | an issued refresh token of an existing user earns 200 with a new pair until its expiry second |
| AuthHandlers.AccessTokenAlsoRefreshes | cmd/api/server/handlers/httpHandlersAuth.go:124-126 | an access token in the refresh cookie is accepted too, since neither issuer nor type is checked |
| AuthHandlers.ReplyStatusIgnoresTokenID | cmd/api/server/handlers/httpHandlersAuth.go:136-150 | the fresh token id does not change a reply's status |
| AuthHandlers.DuplicateCookieAnsweredTwice | cmd/api/server/handlers/httpHandlersAuth.go:118-158 | two copies of a good cookie get two 200 replies and two new cookies |
| AuthHandlers.Logout | cmd/api/server/handlers/httpHandlersAuth.go:169-178 | the expired cookie is sent with status 202 and the "successfully logged out" body (also cmd/api/httpHandlersAuth.go:244-252) |
| AuthHandlers.NewConfirmation | cmd/api/server/handlers/httpHandlersAuth.go:247-253 | an unconfirmed record of the user expiring 30 minutes after registration, in seconds |
| AuthHandlers.NewConfirmationValid | cmd/api/server/handlers/httpHandlersAuth.go:247-255 | a new confirmation is not expired during the next 29 minutes |
| AuthHandlers.ModeNameFor | cmd/api/server/handlers/httpHandlersAuth.go:264-283 | the mode is "admin" exactly when at most one user exists, "default" otherwise |
| AuthHandlers.StoredPasswordIsHashed | cmd/api/server/handlers/httpHandlersAuth.go:207-215 | the stored password is not the plaintext, and it matches the plaintext |
| AuthHandlers.FinishRegistration | cmd/api/server/handlers/httpHandlersAuth.go:246-299 | a taken confirmation id appends the duplicate-key error after the 201 body and adds nothing; otherwise the confirmation is added and the sequence advances, and then a row already under the sequence value gives the duplicate-key error, or else the mode named from the number of users is added there and an e-mail error, if any, is appended |
| AuthHandlers.RegisterNewUser | cmd/api/server/handlers/httpHandlersAuth.go:189-301 | configuration and payload errors give 400 and change nothing; otherwise the outcome is that of `RegisterUser` |
| AuthHandlers.RegisterUser | cmd/api/server/handlers/httpHandlersAuth.go:205-301 | a hashing error, a taken e-mail or a taken id gives 400 and changes nothing; otherwise the hashed user with its creation time is stored and the body's own mode saved with it; then a picture error gives 400, or else 201 is followed by the confirmation, the handler's mode row under the next sequence value and any e-mail error |
| AuthHandlers.StoreUser | cmd/api/server/handlers/httpHandlersAuth.go:214-301 | the same outcome as `RegisterUser` once hashing has succeeded |
| AuthHandlers.CreateOrRefuse | cmd/api/server/handlers/httpHandlersAuth.go:217-222 | a taken e-mail or a taken id answers 400 with its error and changes nothing; otherwise the user and the body's mode are stored and nothing is written |
| AuthHandlers.AnswerCreated | cmd/api/server/handlers/httpHandlersAuth.go:224-299 | a picture error gives 400 and leaves confirmations, modes and sequence alone; otherwise 201 with the new id, then the outcome of `FinishRegistration` with the mode named from the number of users |
| AuthHandlers.FirstUserIsAdmin | cmd/api/server/handlers/httpHandlersAuth.go:264-283 | the mode row the handler itself adds is named "admin" exactly when no user existed before |
| AuthHandlers.BodyCanAskForAdmin | internal/models/Users.go:20 | a body whose mode is named "admin" gets its user an "admin" row under the next sequence value whenever that value is free, however many users exist |
| AccountHandlers.ConfirmUser | cmd/api/server/handlers/httpHandlersConfirmation.go:67-103 | a missing record gives 400; an expired one writes nothing; a confirmed one 400 "user is already confirmed"; otherwise the record is confirmed with its expiry set, and 200 (also cmd/api/httpHandlersUser.go:362-391) |
| AccountHandlers.ConfirmAgainRefused | cmd/api/server/handlers/httpHandlersConfirmation.go:80-94 | after a confirmation, confirming again is refused as already confirmed |
| AccountHandlers.ConfirmationIsFinal | cmd/api/server/handlers/httpHandlersConfirmation.go:80-88 | a confirmed record stays confirmed |
| AccountHandlers.NewResetToken | cmd/api/server/handlers/httpHandlersPassword.go:47-53 | a new reset token has the drawn id, belongs to the user and is unused |
| AccountHandlers.SetTokenToUsed | cmd/api/server/handlers/httpHandlersPassword.go:232-266 | a missing token gives 400; an unexpired one writes nothing; a used one 400; otherwise it is marked used with its expiry kept, and 200 (also cmd/api/httpHandlersUser.go:577-601) |
| AccountHandlers.IssuedTokenUsedOnce | cmd/api/server/handlers/httpHandlersPassword.go:232-266 | a new reset token is used once with 200, and a second use gets 400 |
| AccountHandlers.UnexpiredTokenIgnored | cmd/api/server/handlers/httpHandlersPassword.go:244 | an unexpired token gets no reply and is not marked |
| AccountHandlers.SendPasswordResetEmail | cmd/api/server/handlers/httpHandlersPassword.go:31-91 | a body that does not decode gives 400; a `null` body writes nothing and inserts no token; otherwise the token row is inserted before the user lookup, so an unknown user leaves it behind; e-mail errors give 400; success gives 200 with the token id |
| AccountHandlers.SendForgottenPasswordEmail | cmd/api/server/handlers/httpHandlersPassword.go:100-159 | a body that does not decode gives 400; a `null` body writes nothing and inserts no token; an unknown address gives 400 and inserts no token; otherwise the token for the found user, then 400 for an e-mail error or 200 with the token id |
| AccountHandlers.DuplicateSameKey | cmd/api/controllers/userController.go:39-46 | a new password is a duplicate exactly when it has the same key as the old one; the old one is a duplicate; among passwords of at most 72 bytes without a NUL only the old one is |
| AccountHandlers.ChangePasswordByUserID | cmd/api/server/handlers/httpHandlersPassword.go:168-223 | payload error, unknown user, reused password and hashing error give 400 in that order; a `null` body writes nothing and changes nothing; otherwise the new hash is stored and 200 (also cmd/api/httpHandlersUser.go:518-575) |
| AccountHandlers.ChangeStoredPassword | cmd/api/server/handlers/httpHandlersPassword.go:179-221 | unknown user, reused password and hashing error give 400 and change nothing; otherwise only that user's hash is replaced and 200 |
| AccountHandlers.ChangedPasswordMatches | cmd/api/server/handlers/httpHandlersPassword.go:168-223 | after a change the stored hash matches the new password, refuses every password with a different key, and the new password counts as a duplicate |
| AccountHandlers.UserView | cmd/api/server/handlers/httpHandlersUser.go:52-69 | the shown user marshals, always has its e-mail, and has its password hash exactly when its mode is "admin" |
| AccountHandlers.GetUserByID | cmd/api/server/handlers/httpHandlersUser.go:35-74 | an unknown id gives 400 "user not found"; otherwise 200 with the view of the user and its preloaded mode |
| AccountHandlers.GetUserByEmail | cmd/api/server/handlers/httpHandlersUser.go:83-115 | an unknown address gives 400; otherwise 200 with a view that never has the password, since the mode is not loaded |
| AccountHandlers.HashShownOnlyForAdmins | cmd/api/server/handlers/httpHandlersUser.go:52-69 | a view without the "admin" mode never shows the password |
| AccountHandlers.FilledCreationDate | cmd/api/server/handlers/httpHandlersUser.go:136-139 | the filled date is never the zero time, and a non-zero date is kept |
| AccountHandlers.CreationDateAlwaysReportedValid | cmd/api/server/handlers/httpHandlersUser.go:154-159 | the reply always says the date is valid, since it tests the date after filling it |
| AccountHandlers.AddMissingCreationDate | cmd/api/server/handlers/httpHandlersUser.go:124-162 | an unknown user gives 400; otherwise the filled date is stored and 200 (also cmd/api/httpHandlersUser.go:95-133) |
| AccountHandlers.EditChangesNameAndEmailOnly | cmd/api/server/handlers/httpHandlersUser.go:189-193 | an edit changes at most the user name and the e-mail |
| AccountHandlers.Updateuser | cmd/api/server/handlers/httpHandlersUser.go:171-202 | a payload error or an unknown user gives 400, the latter for a `null` body too; a `null` body for an existing user writes nothing and changes nothing; otherwise the non-empty name and e-mail are stored and 200 (also cmd/api/httpHandlersUser.go:135-163) |
| AccountHandlers.DeleteOwnUserData | cmd/api/server/handlers/httpHandlersUser.go:204-252 | a failed verification writes 401 alone; another user's id is refused; otherwise the user is deleted, then the image row and file, and 202 |
| AccountHandlers.DeleteVerifiedUser | cmd/api/server/handlers/httpHandlersUser.go:223-250 | the user row is removed whatever follows; an unknown user, an image-row error or a file error give 400 with their text; otherwise 202 |
| LegacyHandlers.LegacyRefreshCookieDiesWithAccessToken | cmd/api/httpHandlersAuth.go:199-242 | when the access token expires, the legacy refresh cookie is refused with 401, while the current package's cookie from the same login still refreshes |
| LegacyHandlers.LegacyCookieRefused | cmd/api/httpHandlersAuth.go:199-242 | at the access token's expiry second the legacy refresh cookie alone gets exactly one reply, 401 "unauthorized" |
| LegacyHandlers.LegacyCookieExpired | cmd/api/httpHandlersAuth.go:199-242 | at that second the legacy cookie's value, read with the refresh secret, fails to parse with "expired" |
| LegacyHandlers.RegisterNewUser | cmd/api/httpHandlersAuth.go:255-324 | configuration, payload and hashing errors, a taken e-mail or a taken id give 400 and change nothing; otherwise the hashed user is stored with the body's mode saved, then 201, the confirmation, a mode row "1212" under the next sequence value and any e-mail error |
| LegacyHandlers.AnswerCreated | cmd/api/httpHandlersAuth.go:281-324 | 201 with the new id comes first, then the outcome of `FinishRegistration` with the mode name "1212" |
| LegacyHandlers.LegacyUsersNeverAdmin | cmd/api/httpHandlersAuth.go:305-313 | a user whose loaded mode row is the "1212" one is never shown with its password hash |
| LegacyHandlers.DeleteUser | cmd/api/httpHandlersUser.go:313-336 | the user is gone; an unknown id writes 400 with the error and then the success body |
| LegacyHandlers.Atoi | cmd/api/httpHandlersUser.go:249-252 | a parsed number is within the 64-bit range and was written as an optional sign and digits, negative only with a minus sign; every refusal is either "invalid syntax" or "value out of range", quoting the input |
| LegacyHandlers.AtoiReadsDecimal | cmd/api/httpHandlersUser.go:249 | every 64-bit integer written in decimal, with or without a plus sign, is read back |
| LegacyHandlers.AtoiNegative | cmd/api/httpHandlersUser.go:249 | a negative 64-bit integer written with its minus sign is read back |
| LegacyHandlers.AtoiUnsigned | cmd/api/httpHandlersUser.go:249 | a non-negative 64-bit integer written in decimal is read back |
| LegacyHandlers.AtoiPlus | cmd/api/httpHandlersUser.go:249 | the same with a leading plus sign |
| LegacyHandlers.AtoiWhole | cmd/api/httpHandlersUser.go:249 | a sign and the digits of a number, with nothing after them, are read as that signed number when it is within the 64-bit range and are "value out of range" otherwise |
| LegacyHandlers.AtoiErrors | cmd/api/httpHandlersUser.go:249-252 | the refusal texts in the order Go's digit scan finds them: a leading digit run past the unsigned 64-bit range is "value out of range" whatever follows it; a run within that range followed by anything else is "invalid syntax"; so are a bare sign and the empty id |
| LegacyHandlers.AtoiOutOfRange | cmd/api/httpHandlersUser.go:249-252 | a decimal outside the signed 64-bit range, with its sign or a plus sign, is always "value out of range" |
| LegacyHandlers.DeleteUserMode | cmd/api/httpHandlersUser.go:247-275 | a bad id gives 400; an unknown mode writes 400 with the error and then the success body; otherwise 200 with the success body, and the row is still there since the deletion is never committed |
| LegacyHandlers.DeleteModeAnswer | cmd/api/httpHandlersUser.go:255-274 | an unknown or negative mode id writes 400 with the error and then the success body; otherwise 200 with the success body while the row stays; no table changes either way |

## Left out

- JWT signing and HMAC are replaced by an injective encoding that records the key. Verification succeeds exactly when the key matches. Real `golang-jwt` v4 does not fail to sign with an empty HMAC key; the model does, so that the signing error path of `GenerateTokenPair` is reachable.
- bcrypt hashing is replaced by `"$2a$14$" + password`: there is no salt, no cost and no Blowfish encryption. Kept are the 72-byte limit on the UTF-8 encoding, the comparison through the 72-byte key, and the three comparison outcomes.
- Token ids come from a parameter, not from `uuid.NewString`. The refresh loop draws them through `newID`, one per cookie.
- The clock is a parameter. The four `time.Now()` reads of one issuance are one instant.
- Times inside JSON documents are numbers of nanoseconds, not RFC 3339 text. Mode records have no `gorm.Model` timestamps.
- JSON decoding of request bodies is a parameter: either the decoded payload or its error text. Only the size limit, unknown fields and the single-document check of `ReadJSON` are modelled. Syntax errors are not: the documents are given already parsed. A body that is the JSON literal `null` decodes without an error into a nil pointer payload; the handlers that dereference it panic before writing anything, and the server's panic recovery then answers 500, which is outside the handlers modelled here.
- Sending e-mail, the image and file deletions, and reading `.env` are parameters giving success or an error text. The e-mail goroutine of `ChangePasswordByUserID` is modelled as not affecting the reply.
- Database failures, transactions and their rollbacks are not modelled. The repository fails only for the reasons its tables decide: missing rows, taken keys and e-mails. So the "error 2" branches of `ConfirmUser` and `SetTokenToUsed` cannot arise.
- Auth.VerifyTokenFailures: every text that does not decode into a token gets the segment-count text of golang-jwt v4. The library gives that text for a wrong number of segments only; three segments that fail base64 or JSON decoding get the decoder's own error text, which the stand-in token encoding cannot produce. The callers answer a bare 401 either way.
- Utils.ReadJSON: the unknown-field test compares top-level member names with the field names exactly. `encoding/json` also accepts a member whose name matches a field name case-insensitively, applies the test inside nested objects such as a user's `mode`, and refuses values of the wrong JSON type ("json: cannot unmarshal …"); none of these is modelled. Its unknown-field text quotes the name plainly, not with Go's `%q` escaping.
- Repositories.Repository.DeleteUserByID: does not remove the user's mode rows, as the code does not.
- Repositories.Repository.UpdateMode: the transaction it opens and never commits keeps a connection and its row locks; the model keeps only that the write never becomes visible.
- Repositories.Repository.DeleteModeByID: the same leaked transaction, connection and lock as `UpdateMode`.
- LegacyHandlers.DeleteUserMode: the same; the row stays and nothing models the held lock.
- AuthHandlers.FirstUserIsAdmin: covers only the row the handler itself adds. The mode in the request body is saved with the user too, and `BodyCanAskForAdmin` shows it can be "admin" for any user.
- LegacyHandlers.LegacyUsersNeverAdmin: covers only a user whose loaded row is the "1212" one; a mode in the request body is saved with the user as well, and can be "admin".
- AccountHandlers.Updateuser: does not check that the new e-mail is free, as the code does not.
- Routing is not modelled: which handlers sit behind which middleware. `AdminRequired` is not mounted on any route.
- Middleware.IsUserAdmin: when one user has several modes of different names, which one the lookup preloads is not fixed, so the contract only bounds the answer.
- LegacyHandlers.Atoi: the error text quotes the input plainly, not with Go's `%q` escaping. Only decimal digits are modelled; the underscore and letter handling of other bases never applies to base 10.
- Auth.GetRefreshCookie: MaxAge is the exact truncation of the lifetime to whole seconds. Go computes `int(d.Seconds())` through a float64 sum, which equals that for a whole number of seconds but can round up by one second for a fractional lifetime of 2^24 seconds or more (2^24 s + 999999999 ns gives 2^24 + 1). The contract therefore promises the exact value only for whole seconds and a one-second window otherwise; the deployed 24-hour lifetime is exact.
- Auth.GenerateTokenPair, LegacyAuth.GenerateTokenPair, AuthHandlers.GenerateTokenPair: the signing failure on an empty secret comes from the model's stand-in signer. Real golang-jwt v4 signs with an empty HMAC key, so in Go these never fail and `Authenticate`'s signing-error 400 is not reached.
- Logging and `fmt.Println` of origins are left out.
- Concurrency between requests is not modelled. Each handler runs alone on the repository.
- The `BlackList` of `cmd/api/Auth.go` is the constant empty list. Its revocation code is commented out, so no token is ever revoked.
