# Authentication and session core, modelled in Dafny

This project models the security-relevant core of a small Go web service
for shared sessions. Users register and log in. They get a short-lived
access token (a JWT) and a long-lived refresh token. They create sessions
that others join through an invite link carrying a session code, and they
add items to those sessions.

The model covers five parts.

- **`Jwt`** (`jwt.dfy`): the access token.
  - The JWT is RFC 7519, signed with HMAC-SHA256 ("HS256", section 3.2 of RFC 7518).
  - `GenerateJWT` builds the claims and signs them.
  - `ValidateJWT` checks, in order: the algorithm, the signature and the parse, then expiry and not-before with a one-minute leeway.
  - The middleware takes the token from the `Authorization` header (case-insensitive `bearer `, then trimmed).
  - Signing is a free constructor `Sign(secret, alg, claims)`.
  - The compact serialisation is a codec pair with a round-trip law.
  - The JWT library's own validation is an opaque verdict `libAccepts`.
- **`Refresh`** (`refresh.dfy`): the refresh-token table.
  - A class holds the table's rows. `IssueRefreshToken` and `RotateRefreshToken` change them step by step: look up, revoke, insert.
  - Each method is proved equal to a specification function (`Issue`, `Rotate`). Lemmas about those functions prove that rotation is single-use, that rows stay consistent, and what the non-atomic failure paths leave behind.
  - Tokens are stored as `hashRefresh(plain)`: the unpadded base64url text (**`Base64Url`**, `base64url.dfy`) of SHA-256.
  - The base64url encoding is concrete, with a decode round trip.
  - SHA-256 is a parameter. It is assumed to give 32-byte digests and no collision between the plaintexts of two different random tokens (`DigestLaws`, shown consistent by `DigestLawsSatisfiable`).
- **`Users`** (`users.dfy`): password hashing and the login check.
  - bcrypt is a `hash`/`check` function pair with stated laws.
  - `CreateUser` and `UpdateUserPassword` act on a user table.
- **`Sessions`** (`sessions.dfy`): the session code.
  - The existence check for a code.
  - The generate–check–retry loop, as a `while` loop over a sequence of random draws.
  - The invite link.
  - `CreateNewSession`: code, then insert, then link.
- **`SessionItems`** (`session_items.dfy`): session items.
  - The existence check by id.
  - `CreateNewSessionItem`: input validation, fixed columns and the insert.

Shared things live in **`Common`** (`common.dfy`): `Option`, `Result`, UUIDs and
their text form, and the `strings` helpers the header parsing uses
(`HasPrefix`, ASCII `ToLower`, `TrimSpace` with Go's `unicode.IsSpace`).

Things outside the program are parameters:
- the clock;
- `crypto/rand` (32 random bytes, `rand.Text()` draws);
- fresh ids the storage assigns;
- the verdict of the JWT library;
- SHA-256, bcrypt and URL parsing;
- whether each storage call fails.

The SQL queries are not part of this model. The storage is modelled as
tables with these assumed semantics:
- a refresh-token lookup finds a row that is neither revoked nor expired;
- refresh-token hashes, user names and e-mails are unique, and so are the ids of users, sessions and session items;
- the login lookup matches the user name or the e-mail.

## Model

| member | source | states |
|---|---|---|
| Common.UuidString | internal/auth/middleware/jwt.go:44 | `uuid.String()` is 36 characters with dashes at positions 8, 13, 18 and 23 (the subject claim) |
| Common.HexValueOfHex | internal/auth/middleware/jwt.go:44 | the lower-case hex digits written for a number that fits in k digits read back as that number |
| Common.UuidStringDigits | internal/auth/middleware/jwt.go:44 | the text form with its dashes removed is the UUID's 32 hex digits |
| Common.UuidHexValue | internal/auth/middleware/jwt.go:44 | the 32 hex digits of a UUID read back as the UUID |
| Common.UuidStringInjective | internal/auth/middleware/jwt.go:44 | two UUIDs have the same subject text iff they are equal |
| Common.TrimSpace | internal/auth/middleware/jwt.go:111 | `strings.TrimSpace`; definition; its properties are stated by the rows below |
| Common.TrimSpaceSlice | internal/auth/middleware/jwt.go:111 | `TrimSpace` keeps a slice of its input with only white space outside it and no white space at either end |
| Common.TrimSpaceAround | internal/auth/middleware/jwt.go:111 | `TrimSpace` recovers a non-empty text that neither starts nor ends with white space from any white-space padding of it |
| Jwt.NewJWTManager | internal/auth/middleware/jwt.go:22-29 | the manager holds exactly the given secret, issuer, audience and TTL |
| Jwt.GenerateJWT | internal/auth/middleware/jwt.go:37-55 | definition; its properties are stated by the rows below |
| Jwt.GenerateJWTClaims | internal/auth/middleware/jwt.go:37-55 | a generated token decodes to an HS256 token signed with the manager's secret; the claims hold the user id and name, subject = the id's text, issuer, audience = [audience], iat = nbf = now, exp = now + TTL, and the given jti |
| Jwt.ValidateJWT | internal/auth/middleware/jwt.go:57-82 | definition; its properties are stated by the rows below |
| Jwt.ValidateJWTAccepts | internal/auth/middleware/jwt.go:57-82 | validation succeeds iff the text decodes to an HS256 token signed with this secret, the library accepts it, and neither the expiry nor the not-before check fires; it then returns that token's claims |
| Jwt.ValidateJWTErrors | internal/auth/middleware/jwt.go:57-82 | a parse or signature failure is "invalid token" whatever the times; expiry is reported before not-before |
| Jwt.LibraryTimeChecksSubsume | internal/auth/middleware/jwt.go:59-79 | once the library's own zero-leeway exp and nbf checks pass, neither explicit check with a minute of leeway fires |
| Jwt.ValidateGenerated | internal/auth/middleware/jwt.go:37-82 | round trip: at any time from issue up to (not including) issue + TTL the generated claims pass the library's own exp/nbf checks, and validation by the same manager, with the library accepting, succeeds; it returns the user id, user name, issuer, subject = id text, and an audience containing the configured one |
| Jwt.WrongAlgorithmRejected | internal/auth/middleware/jwt.go:59-68 | any token whose algorithm is not HS256 is "invalid token", whatever its signature |
| Jwt.WrongSecretRejected | internal/auth/middleware/jwt.go:59-68 | a token generated under another secret is "invalid token" |
| Jwt.MalformedRejected | internal/auth/middleware/jwt.go:59-68 | a text that does not decode is "invalid token" |
| Jwt.ExpiryCheck | internal/auth/middleware/jwt.go:70-75 | for a token the library let through: "token expired" iff exp is present and now > exp + 60 s; an absent exp never gives it |
| Jwt.NotBeforeCheck | internal/auth/middleware/jwt.go:77-79 | for a token the library let through: "token not valid yet" iff it is not expired, nbf is present and now < nbf − 60 s |
| Jwt.NegativeTtlRejected | internal/auth/middleware/jwt.go:46-75 | a token issued with a TTL below −60 s is rejected at the moment of issue |
| Jwt.BearerToken | internal/auth/middleware/jwt.go:106-111 | the header parsing of the middleware; definition; its properties are stated by the rows below |
| Jwt.JWTMiddleware | internal/auth/middleware/jwt.go:104-120 | the middleware's decision: 401 or forward with the user; definition; its properties are stated by the rows below |
| Jwt.BearerTokenSpec | internal/auth/middleware/jwt.go:106-111 | a token is taken iff the header has 7 characters whose lower-case form is "bearer "; the token is `TrimSpace` of the rest |
| Jwt.BadHeaderHasNoToken | internal/auth/middleware/jwt.go:106-110 | a header yields no token iff it is shorter than 7 characters or its first 7, lower-cased, are not "bearer " |
| Jwt.BadHeaderRejected | internal/auth/middleware/jwt.go:106-110 | every such header gets a 401 "missing or invalid authorization header" |
| Jwt.BearerTokenExamples | internal/auth/middleware/jwt.go:106-110 | "", "Basic dXNlcjpwYXNz", " Bearer abc", "Bearer" and "bearer\tabc" carry no token |
| Jwt.BearerTokenOfHeader | internal/auth/middleware/jwt.go:107-111 | any capitalisation of "bearer ", then white space, a token with no white space at its ends, and white space, yields exactly that token |
| Jwt.MiddlewareForwards | internal/auth/middleware/jwt.go:111-119 | the request is passed on iff the header's token validates, and then with exactly that token's user id and user name |
| Jwt.MiddlewareAcceptsGenerated | internal/auth/middleware/jwt.go:104-120 | "bEaReR   <token>  ": any capitalisation of the scheme and any white space around a token generated less than a TTL ago pass the request on with the token's user |
| Base64Url.Encode | internal/auth/models/refresh.go:76 | `base64.RawURLEncoding.EncodeToString`; definition; its properties are stated by the rows below |
| Base64Url.EncodeLength | internal/auth/models/refresh.go:76 | unpadded base64url of n bytes has ⌈4n/3⌉ characters, so 32 bytes give 43 |
| Base64Url.EncodeAlphabet | internal/auth/models/refresh.go:76 | every character of the encoding is in A–Z, a–z, 0–9, '-' or '_' |
| Base64Url.DecodeEncode | internal/auth/models/refresh.go:79 | decoding the encoding gives back the bytes |
| Base64Url.EncodeInjective | internal/auth/models/refresh.go:85 | distinct byte strings have distinct encodings |
| Refresh.HashRefresh | internal/auth/models/refresh.go:83-86 | hashRefresh; definition; its properties are stated by the rows below |
| Refresh.DigestLawsSatisfiable | internal/auth/models/refresh.go:83-86 | some function meets the assumed SHA-256 laws, so they are consistent |
| Refresh.HashRefreshInjective | internal/auth/models/refresh.go:73-86 | two tokens made from random bytes have the same stored hash iff they have the same plaintext, and the same plaintext iff the bytes are equal; every stored hash is 43 characters |
| Refresh.MakeRefreshToken | internal/auth/models/refresh.go:73-81 | the plaintext is 43 URL-safe characters and the hash is exactly hashRefresh of the plaintext |
| Refresh.FindActive | internal/auth/models/refresh.go:46 | the lookup by hash returns the first row with that hash that is neither revoked nor expired, and None iff there is no such row |
| Refresh.RevokeAt | internal/auth/models/refresh.go:52-56 | revoking by id sets the revoked flag of that row only, and nothing if the storage fails |
| Refresh.MatchIsUnique | internal/auth/models/refresh.go:46 | with unique hashes, any active row carrying the hash is the one the lookup finds |
| Refresh.Issue | internal/auth/models/refresh.go:24-40 | IssueRefreshToken on the table; definition; its properties are stated by the rows below |
| Refresh.Rotate | internal/auth/models/refresh.go:42-71 | RotateRefreshToken on the table; definition; its properties are stated by the rows below |
| Refresh.IssueInsertsOneRow | internal/auth/models/refresh.go:24-40 | issuing appends exactly one row {user, hashRefresh(returned plain), issued now, expires now + TTL, ua, ip, not revoked}; the plaintext is 43 characters and is not stored; an insert failure changes nothing |
| Refresh.RotateWithoutMatch | internal/auth/models/refresh.go:43-49 | with no active row for hashRefresh(oldPlain), or a failed lookup, rotation is an error and the table is unchanged |
| Refresh.RotateAfterPasswordChange | internal/auth/models/refresh.go:51-54 | when the password changed strictly after the row was issued, rotation fails with "invalid refresh token"; it revokes that row (unless the revoke fails) and inserts nothing |
| Refresh.RotateSuccess | internal/auth/models/refresh.go:56-70 | a successful rotation matched an active row with the old hash; that row is revoked, one row for the same user is appended (issued now, expires now + TTL, hash of the new plaintext), the result is (new plain, that user), and no other row changes |
| Refresh.RotateKeepsTable | internal/auth/models/refresh.go:42-71 | rotation keeps ids as positions and hashes unique |
| Refresh.RotateIsSingleUse | internal/auth/models/refresh.go:46-56 | after a successful rotation whose revoke went through, rotating the same old plaintext again fails, at any time and whatever the storage does |
| Refresh.RevokeFailureKeepsOldTokenActive | internal/auth/models/refresh.go:56-70 | a revoke error is ignored: if the revoke fails and the insert succeeds, the old token is still active |
| Refresh.InsertFailureAfterRevoke | internal/auth/models/refresh.go:56-69 | if the insert fails after the revoke, the call fails and the old row stays revoked |
| Refresh.IssueThenRotate | internal/auth/models/refresh.go:24-71 | a token just issued, presented before it expires by a user whose password has not changed since, is rotated (lookup and insert going through, new hash fresh) into a new plaintext for the same user |
| Refresh.RevokedRowsStayRevoked | internal/auth/models/refresh.go:24-71 | issue and rotate never remove a row and never change a revoked row |
| Refresh.RefreshService.constructor | internal/auth/models/refresh.go:20-22 | a new service has the given TTL and an empty, valid table |
| Refresh.RefreshService.GetActiveRefreshTokenByHash | internal/auth/models/refresh.go:46-49 | the lookup returns an active row of the table with that hash, "no rows" iff there is none, and the storage error on failure |
| Refresh.RefreshService.CreateRefreshToken | internal/auth/models/refresh.go:59-66 | the insert appends the row with the next id, or fails and leaves the table as it was; the table invariant is kept |
| Refresh.RefreshService.RevokeRefreshTokenByID | internal/auth/models/refresh.go:56 | the revoke sets the flag of the row with that id, keeping the table invariant |
| Refresh.RefreshService.IssueRefreshToken | internal/auth/models/refresh.go:24-40 | the new table and the result are those of `Issue`, and the table invariant is kept |
| Refresh.RefreshService.RotateRefreshToken | internal/auth/models/refresh.go:42-71 | the step-by-step lookup, revoke and insert end in the table and the result of `Rotate`, keeping the table invariant |
| Users.HashPassword | internal/auth/models/user.go:24-31 | hashPassword; definition; its properties are stated by the rows below |
| Users.CheckPassword | internal/auth/models/user.go:33-35 | checkPassword; definition; its properties are stated by the rows below |
| Users.BcryptLawsSatisfiable | internal/auth/models/user.go:24-35 | some hash/check pair meets the assumed bcrypt laws, so they are consistent |
| Users.CheckHashedPassword | internal/auth/models/user.go:24-35 | checkPassword(hashPassword(p), p) holds, and it fails for any other password |
| Users.MalformedHashRejected | internal/auth/models/user.go:33-35 | a string that is not a bcrypt hash, such as "" or "not-a-bcrypt-hash", checks against no password (a plain false, no error) |
| Users.HashTwiceDiffers | internal/auth/models/user.go:24-31 | hashing the same password with two salts gives two different strings |
| Users.FindForLogin | internal/auth/models/user.go:94 | the login lookup returns a row whose user name or e-mail is the identifier, and None iff no row has either |
| Users.ValidateUserCredentials | internal/auth/models/user.go:93-106 | definition; its properties are stated by the rows below |
| Users.ValidateUserCredentialsOutcomes | internal/auth/models/user.go:93-106 | a storage failure is passed on as a different error; an unknown identifier and a wrong password both give InvalidCredentials; success holds iff the password checks against the found row's hash, and returns that row |
| Users.UnknownUserLooksLikeWrongPassword | internal/auth/models/user.go:94-103 | an unknown identifier and a known one with a wrong password give the identical result |
| Users.Create | internal/auth/models/user.go:49-64 | CreateUser on the table; definition; its properties are stated by the rows below |
| Users.UpdatePassword | internal/auth/models/user.go:120-133 | UpdateUserPassword on the table; definition; its properties are stated by the rows below |
| Users.CreateUserStoresHash | internal/auth/models/user.go:49-64 | a hashing failure returns before any write; on success the new row holds hashPassword's output, which checks against the password and no other; a failed insert changes nothing; user names, e-mails and ids stay unique |
| Users.LoginAfterCreate | internal/auth/models/user.go:49-106 | after CreateUser, provided no existing user's e-mail equals the new user name (the lookup matches either column), logging in with the user name and the password returns the new row; any other password gives InvalidCredentials |
| Users.UpdateUserPasswordStoresHash | internal/auth/models/user.go:120-133 | a hashing or storage failure leaves the table unchanged; otherwise that user's rows hold a hash that checks against the new password and no other, and every other row is unchanged |
| Users.UserService.constructor | internal/auth/models/user.go:18-20 | a new service has an empty user table |
| Users.UserService.CreateUser | internal/auth/models/user.go:49-64 | the hash, then the insert, end in the table and the result of `Create`, keeping the unique columns |
| Users.UserService.UpdateUserPassword | internal/auth/models/user.go:120-133 | the hash, then the update, end in the table and the error of `UpdatePassword`, keeping the unique columns |
| Sessions.FirstActive | app/session.go:25 | the lookup by code returns an active session with that code, and None iff there is none |
| Sessions.CheckSessionCodeExists | app/session.go:24-34 | definition; its properties are stated by the rows below |
| Sessions.CheckSessionCodeExistsSpec | app/session.go:24-34 | "no rows" is false, a row is true, and any other error is an error: the answer is false iff no active session has the code, true iff one has, and an error iff the storage failed |
| Sessions.Generated | app/session.go:36-47 | what generateUniqueSessionCode returns for a sequence of draws; definition; its properties are stated by the rows below |
| Sessions.GeneratedOutcome | app/session.go:36-47 | the loop returns a code only if its check just said false (no active session has it); a check error stops it with that error and no code; it has not returned iff every draw was reported taken, so it never returns while every code is taken |
| Sessions.SessionService.GenerateUniqueSessionCode | app/session.go:36-47 | the `while` loop returns what `Generated` says, and a returned code belongs to no active session |
| Sessions.GenerateInviteLink | app/session.go:49-63 | generateInviteLink; definition; its properties are stated by the rows below |
| Sessions.InviteLinkCarriesCode | app/session.go:49-63 | an empty invite URL is "not configured" and an unparsable one "invalid url"; otherwise parsing the link gives back the configured URL with its query's `code` set to exactly [sessionCode] and every other key kept |
| Sessions.NewSession | app/session.go:65-86 | CreateNewSession on the table; definition; its properties are stated by the rows below |
| Sessions.CreateNewSessionOrder | app/session.go:65-86 | no code, no insert; an inserted session holds the generated code, the name and the creator, and no active session had that code; an id already in use fails the insert and changes nothing; a link failure after the insert returns an error, but the row stays; a success returns a link carrying the code; active codes and session ids stay distinct |
| Sessions.SessionService.constructor | app/session.go:20-22 | a new service holds the given invite URL and an empty session table |
| Sessions.SessionService.CreateNewSession | app/session.go:65-86 | the code loop, then the insert, then the link end in the table and the result of `NewSession`, keeping active codes and session ids distinct |
| SessionItems.FindItem | app/session_items.go:71 | the lookup by id returns an item with that id, and None iff there is none |
| SessionItems.CheckSessionItemExists | app/session_items.go:70-79 | definition; its properties are stated by the rows below |
| SessionItems.CheckSessionItemExistsSpec | app/session_items.go:70-79 | "no rows" is false, a row is true, and any other error is an error: false iff no item has the id, true iff one has |
| SessionItems.ItemParams | app/session_items.go:81-89 | the guards and fixed columns of CreateNewSessionItem; definition; its properties are stated by the rows below |
| SessionItems.ItemParamsGuards | app/session_items.go:81-89 | a nil session or user id is "missing ID" whatever the title; otherwise an empty title is "title is required"; every other input passes |
| SessionItems.CreateItem | app/session_items.go:81-105 | CreateNewSessionItem on the table; definition; its properties are stated by the rows below |
| SessionItems.CreateItemStores | app/session_items.go:81-105 | a rejected input or failed insert leaves the table unchanged; a success appends exactly the returned row, with the input's session, title and user, source type "custom" whatever the input said, and NULL description, image URL, source id and metadata |
| SessionItems.CreatedItemExists | app/session_items.go:70-105 | a created item's id was not in use before, and the existence check finds it afterwards |
| SessionItems.CreateItemKeepsIds | app/session_items.go:90-105 | creating an item keeps item ids distinct |
| SessionItems.SessionItemService.constructor | app/session_items.go:66-68 | a new service has an empty item table |
| SessionItems.SessionItemService.CreateNewSessionItem | app/session_items.go:81-105 | the guards, then the insert, end in the table and the result of `CreateItem`, keeping ids distinct |

## Left out

- HTTP plumbing is not modelled: the handlers, request contexts, `http.Error` responses beyond their message, and `UserIDFromCtx`/`UsernameFromCtx`.
- `main.go` (routing, CORS, environment parsing), `db/connections.go` (connection pool) and `app/session_code.go` (comments only) are not part of this model.
- The JWT library's internals are not part of this model: JSON, the JWS compact form and its own `exp`/`nbf`/`iat` checks. The library's decision is the opaque `libAccepts`, and the serialisation is a codec assumed to round-trip. `LibraryTimeValid` states the library's own default time checks (no leeway, `iat` unchecked); it is an assumption about golang-jwt v5, not derived from its code. Under it the one-minute leeway of the explicit checks never widens acceptance, so the round-trip lemmas use the window from issue to expiry.
- HMAC-SHA256 is a free constructor: signatures are equal exactly when key, algorithm and claims are. SHA-256 is assumed to give 32-byte digests and to be injective on the plaintexts of random tokens; this idealises collision resistance, `DigestLawsSatisfiable` shows the law is consistent, and real SHA-256 is not proved to meet it. bcrypt is assumed to satisfy `BcryptLaws`, which `BcryptLawsSatisfiable` shows consistent. These are assumptions, not the real algorithms.
- bcrypt's 72-byte password limit is not modelled on its own. A hashing failure for any reason is the `None` case of `hash`. On the check side, real bcrypt ignores password bytes after the 72nd, so the law that no other password checks against a hash idealises the check too.
- Time is whole seconds. JWT NumericDate truncation and Go's nanosecond `time.Duration` are not modelled.
- `ToLower` lowers only ASCII letters, and the header is sliced after 7 characters rather than 7 bytes. Go's `strings.ToLower` also lowers non-ASCII letters. Neither difference changes whether a header starts with "bearer ".
- Jwt.GenerateJWT: it has no error case, because `SignedString` with an HMAC byte key does not fail.
- The jti (`uuid.NewString()`), the 32 random bytes of `rand.Read`, the `rand.Text()` codes and the ids the storage assigns are parameters. The error `rand.Read` could return is ignored by the source and not modelled.
- Refresh-token ids are positions in the table rather than UUIDs, so the insert's row carries the next position, the id the storage would assign. The unused second `hashRefresh(oldPlain)` call is dropped because it has no effect.
- The SQL queries are not part of this model. Their meaning is an assumption:
  - an active refresh token is one that is not revoked and not expired;
  - a refresh-token insert fails on a duplicate token hash; a user insert fails on a duplicate id, user name or e-mail; a session or session-item insert fails on a duplicate id;
  - the login lookup matches the user name or the e-mail and returns the first such row;
  - an "active" session is one whose `active` flag is set.
- Storage errors are single constructors for each error message; the wrapped causes of database errors are not kept.
- Check-then-insert races and concurrent requests are not modelled: each operation runs alone on the table.
- The other `UserService` methods are not modelled: `UserExists`, `GetUserByID`, `GetUserByUsername`, `GetUserByEmail`, `ListUsers`, `UpdateUsername`, `UpdateEmail` and `DeleteUser`. Each is a single query wrapped with an error message.
- Sessions.SessionService.GenerateUniqueSessionCode: the loop has no bound; the model runs it over a finite sequence of draws and returns None when it has not returned within them, which stands for not returning.
- URL parsing and printing are an abstract codec with a round-trip law. The encoded query's key order and escaping are not modelled.
- `CodecLaws` (the JWS serialisation) and `UrlLaws` (URL parsing) are unproved assumptions: no witness is given, because one would need an injective serialisation of every claim set or of every query map into text.
- Session and item rows keep only the columns the code sets; timestamps and other defaulted columns are left out. Metadata is opaque bytes and is never decoded.
