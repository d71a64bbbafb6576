# Quranara server: OTP, session and credential-cookie core, in Dafny

This project models the authentication core of the Quranara server, an
Express/TypeScript back end that logs users in with one-time codes sent to
their phone:

- the **OTP manager** (`getOtp`, `saveOtpInRedis`, `verifyOtp`): codes under `otp:<phone>` with a 120-second lifetime, consumed by a successful check;
- the **token signer** (`createSession`, `verifySession`): HS256 tokens valid for one day;
- the **session registry** (`saveSessionInRedis`, `removeSessionFromRedis`, and `removeAllSession` as the ban workflow uses it): entries under `session:<id>` with a 90-day lifetime;
- the **credential-cookie writer** (`setCredentialCookies`, `updateUserCredentialCookie`): the `_session` and `_user` cookies;
- the utility helpers around them (`createPaginationData`, `timeToSeconds`, `secondsToTimeArray`, `scanRedisKeys`, `getUser`);
- the **ban workflow** of the users controller (`create`, `banUser`, `unbanUser`, and the filter of `getAll`);
- the **`secure` middleware** that admits only the front end.

Redis is modelled as a TTL key-value store with an explicit clock (module
`KvStore`). `Store` is its value and `Redis` is the mutable connection the
code calls. Its own methods are the Redis commands (`get`, `ttl`, `set` with
`EX`, `del`). The server's helpers that change the store (`saveOtpInRedis`,
`verifyOtp`, `saveSessionInRedis` and the others) are module-level methods
that take the connection as a parameter. Each of them is specified by a pure
function over `Store`, and the lemmas about sequences of operations are
stated over those functions. The users and bans collections
form a `Database` class. The cookie jar of the response is a `Response`
class. `Date.now()`, the signing key and the environment variables are
parameters. JavaScript's truthiness is modelled where the code relies on it:
a stored empty code reads as "no code".

Files: `wrappers.dfy` (Option), `kv_store.dfy`, `jwt.dfy`, `models.dfy`,
`auth.dfy`, `funcs.dfy`, `users.dfy`, `secure.dfy`.

## Model

| member | source | states |
|---|---|---|
| Jwt.CreateSession | src/utils/auth.ts:49-52 | a new token carries the given claims and verifies exactly until one day after signing |
| Jwt.VerifySession | src/utils/auth.ts:54-61 | returns the payload iff the token was signed under the verifier's key and its `exp` is still in the future, and `None` for anything else, with no other failure |
| Jwt.TokenLifetime | src/utils/auth.ts:49-61 | a signed token verifies with its claims before `issued + 86400` and is rejected from that instant on |
| Jwt.ForeignKeyRejected | src/utils/auth.ts:54-61 | a token signed under another key never verifies |
| Auth.OtpKey | src/utils/auth.ts:15 | the OTP key is `otp:` followed by the phone |
| Auth.SessionKey | src/utils/auth.ts:63 | the session key is `session:` followed by the user id |
| Auth.KeySpaces | src/utils/auth.ts:15-63 | the key builders of lines 15 and 63: OTP keys and session keys never collide, and each key names exactly one phone or one user |
| Auth.Falsy | src/utils/auth.ts:20 | JavaScript's `!value` on a GET reply, also used at line 36: true exactly for no value or the empty string; a stored token is always truthy |
| Auth.OtpStatusOf | src/utils/auth.ts:17-27 | no usable code gives `{expired: true, ttl: 0}`; a live code gives `expired: false` with its remaining positive TTL |
| Auth.GetOtp | src/utils/auth.ts:17-27 | answers as `OtpStatusOf` and changes nothing (it has no `modifies` clause) |
| Auth.SaveOtp | src/utils/auth.ts:29-31 | afterwards `otp:<phone>` holds exactly the new code with TTL 120; every other key and the clock are unchanged |
| Auth.SaveOtpInRedis | src/utils/auth.ts:29-31 | the connection's new state is `SaveOtp` of the old one |
| Auth.CheckOtp | src/utils/auth.ts:33-47 | a missing code gives `{expired: true, matched: false}` and no change; a present code gives `expired: false`, and `matched` holds iff it equals the attempt; a match deletes `otp:<phone>` and a mismatch changes nothing |
| Auth.VerifyOtp | src/utils/auth.ts:33-47 | the reply and the connection's new state are those of `CheckOtp` on the old state |
| Auth.OtpStatusCountsDown | src/utils/auth.ts:17-31 | after issuing, `getOtp` reports TTL `120 - elapsed` while the code lives and `{expired: true, ttl: 0}` from the 120th second on |
| Auth.OtpSingleUse | src/utils/auth.ts:40-46 | issue then verify with the right code matches once; the same code again gives `{expired: true, matched: false}` |
| Auth.OtpSurvivesMismatch | src/utils/auth.ts:40-46 | a wrong code gives `{expired: false, matched: false}` and leaves the store unchanged; the right code still matches at any later second within the TTL |
| Auth.OtpExpires | src/utils/auth.ts:29-38 | once 120 seconds have passed no attempt matches, and the store is left unchanged |
| Auth.OtpReissueReplaces | src/utils/auth.ts:29-46 | issuing again overwrites the code: the older code no longer matches and the newer one does |
| Auth.EmptyOtpReadsAsExpired | src/utils/auth.ts:33-38 | a stored empty code is reported as expired and can never match |
| Auth.SaveSession | src/utils/auth.ts:65-67 | afterwards `session:<id>` holds the token with TTL 7,776,000 s; every other key and the clock are unchanged |
| Auth.SaveSessionInRedis | src/utils/auth.ts:65-67 | the connection's new state is `SaveSession` of the old one |
| Auth.RemoveSession | src/utils/auth.ts:69-71 | afterwards `session:<id>` is gone and Redis reports TTL -2 for it; nothing else changes |
| Auth.RemoveSessionFromRedis | src/utils/auth.ts:69-71 | the connection's new state is `RemoveSession` of the old one |
| Auth.RemoveAllSession | src/controllers/v1/users.ts:86 | the user's registry entry is removed and nothing else changes (an assumption, see Left out) |
| Auth.SessionWritesKeepOtps | src/utils/auth.ts:63-71 | registering or revoking a session does not change what `getOtp` or `verifyOtp` answer for any phone |
| Auth.OtpWritesKeepSessions | src/utils/auth.ts:29-47 | issuing or verifying an OTP leaves every session entry's value and TTL unchanged |
| Auth.CookieOptionsExpiring | src/utils/auth.ts:73-78 | the cookie options are `httpOnly`, path `/`, `sameSite: lax`, `secure` exactly in production, and carry the given expiry |
| Auth.Response.SetCookie | src/utils/auth.ts:83-86 | `res.cookie(name, value, options)` sets that one cookie and leaves the rest of the jar unchanged |
| Auth.PublicSnapshot | src/utils/auth.ts:88-91 | the serialised user has no `_id` and no `password`, and every other field keeps its value |
| Auth.SnapshotHidesSecrets | src/utils/auth.ts:104-107 | the `_user` snapshot does not depend on the document's id or password hash |
| Auth.SetCredentialCookies | src/utils/auth.ts:80-97 | writes `_session` (the token) and `_user` (the snapshot), both expiring at now + 1000 × the 90-day registry TTL; other cookies are unchanged |
| Auth.ResyncExpiry | src/utils/auth.ts:99-102 | with a live registry entry the expiry is now + 1000 × its remaining TTL, which is after now; with no entry it is now - 2000 ms, already past |
| Auth.UpdateUserCredentialCookie | src/utils/auth.ts:99-113 | rewrites only `_user`, with the registry-derived expiry; `_session` and the store are untouched |
| Auth.ResyncTracksRegistry | src/utils/auth.ts:99-102 | `elapsed` seconds after registration the resynced cookie expires `elapsed` seconds before a login cookie written at the same instant would; after revocation it is born expired |
| Funcs.CreatePaginationData | src/utils/funcs.ts:30 | `page`, `limit` and `count` are returned unchanged; `pagesCount` is 0 for no items, and otherwise satisfies `(pagesCount - 1) * limit < count <= pagesCount * limit` |
| Funcs.PagesCountIsLeast | src/utils/funcs.ts:30 | no smaller number of pages holds `count` items |
| Funcs.Split | src/utils/funcs.ts:46 | `split(":")` always yields at least one part |
| Funcs.SplitCountsColons | src/utils/funcs.ts:46 | `split(":")` yields a single part exactly when the text has no colon |
| Funcs.DigitsValue | src/utils/funcs.ts:46 | `Number` of a digit string is never negative |
| Funcs.TimeToSeconds | src/utils/funcs.ts:45-56 | the result is NaN (`None`) exactly when the text has no colon |
| Funcs.SplitJoin | src/utils/funcs.ts:46 | `split(":")` undoes joining colon-free parts with colons |
| Funcs.MinutesSecondsValue | src/utils/funcs.ts:45-51 | `timeToSeconds("m:s")` is `m * 60 + s` |
| Funcs.HoursMinutesSecondsValue | src/utils/funcs.ts:53-55 | `timeToSeconds("h:m:s")` is `h * 3600 + m * 60 + s` |
| Funcs.SinglePartIsNaN | src/utils/funcs.ts:45-55 | a text without a colon leaves minutes and seconds undefined, so the result is NaN (`None`) |
| Funcs.JsRemainder | src/utils/funcs.ts:61 | JavaScript's `%` gives a remainder congruent to the dividend modulo `b`, in `[0, b)` for a non-negative dividend and in `(-b, 0]` for a negative one |
| Funcs.SecondsToTimeArray | src/utils/funcs.ts:58-64 | for `s >= 0` it gives `[h, m]` with `0 <= m < 60` and `h*3600 + m*60 <= s < h*3600 + m*60 + 60`; for every `s`, `h` is the floor of `s / 3600` (`h*3600 <= s < h*3600 + 3600`) and `m` the floor of `(s % 3600) / 60` under JavaScript's `%`, so for `s < 0` both parts are negative or zero |
| Funcs.TimeArrayUnique | src/utils/funcs.ts:58-64 | any `[h, m]` that brackets `s` in that way is the answer of `secondsToTimeArray` |
| Funcs.TimeRoundTrip | src/utils/funcs.ts:45-64 | for minutes and seconds below 60, `secondsToTimeArray(timeToSeconds("h:m:s"))` is `[h, m]` |
| Funcs.CollectFromAnyBound | src/utils/funcs.ts:32-43 | the keys a completed SCAN iteration collects do not depend on the bound that shows it completes |
| Funcs.ScanRedisKeys | src/utils/funcs.ts:32-43 | scans at least once from cursor "0", follows the returned cursors, stops at the first reply whose cursor is "0", and returns every batch concatenated in scan order |
| Funcs.GetUser | src/utils/funcs.ts:12-28 | no cookie or a token that fails verification gives `None`; a verifying token whose `_id` claim names a stored user gives that user, and one whose `_id` is absent or names no user gives `None`; the registry is not read |
| Funcs.LoginTokenResolves | src/utils/funcs.ts:12-28 | a login token resolves to its user for one day and to `None` afterwards |
| Funcs.RevokedSessionStillResolves | src/utils/funcs.ts:12-28 | after the registry entry is deleted, a still-valid token still resolves to its user |
| Users.Create | src/controllers/v1/users.ts:35-54 | a banned phone gets Forbidden "this account has been blocked" and no user is stored; otherwise a user with `username = fullname`, not banned, is stored and nothing else changes; ban consistency is kept |
| Users.BanUser | src/controllers/v1/users.ts:74-92 | an unknown id gets NotFound and nothing changes, in the collections or in Redis; otherwise the user is flagged, a ban `{phone, user}` is recorded and the user's session entry is removed; ban consistency is kept |
| Users.UnbanUser | src/controllers/v1/users.ts:94-112 | an unknown ban gets NotFound and nothing changes; otherwise the named user is unflagged and the ban deleted, with no session operation; consistency is kept when it was the user's only ban |
| Users.GetAll | src/controllers/v1/users.ts:16-33 | lists exactly the users whose `isBanned` is false, and the pagination is `createPaginationData(page, limit, count)` over their count |
| Middlewares.Secure | src/middlewares/secure.ts:4-22 | `next()` is called without error iff origin and secret both equal their configured values; every failure passes Forbidden with one message |
| Middlewares.FailuresIndistinguishable | src/middlewares/secure.ts:8-15 | an origin mismatch is rejected whatever the secret is, with the same exception as a secret mismatch |
| Middlewares.AbsentHeaderMatchesUnsetVariable | src/middlewares/secure.ts:8-14 | strict equality on optional values lets an absent header match an unset variable |

## Behaviour worth knowing

The model follows the code, including these consequences of it:

- `getUser` (src/utils/funcs.ts:12-28) does not consult the session registry. A registry-backed trust check would refuse a valid token whose `session:<id>` entry is gone; `getUser` answers from the token alone, so a banned user's token keeps resolving until its one-day expiry (`Funcs.RevokedSessionStillResolves`). Whether a layer outside src/utils/funcs.ts checks the registry is not part of this model.
- `unbanUser` performs no session operation (`Users.UnbanUser`): unbanning neither restores nor revokes anything in the registry.
- A missing registry entry is not mapped to a remaining lifetime of 0. The code feeds Redis's -2 into the expiry, so the `_user` cookie is written already expired, 2 s in the past (`Auth.ResyncExpiry`).
- The OTP helpers have no error path of their own. A Redis failure rejects the promise and reaches the caller rather than reading as "no OTP"; this model has no store failures.
- `verifyOtp` reads the code (src/utils/auth.ts:34) and deletes it (src/utils/auth.ts:43) in two separate round trips. Two concurrent verifications with the right code can therefore both read it before either deletes it, and both answer `matched: true`. `Auth.OtpSingleUse` holds for sequential calls only.

## Left out

- Redis networking and failures, and concurrency between requests: each store operation is one atomic step on `Store`. `getOtp` reads the value and the TTL at one instant, although the code makes two round trips, and `verifyOtp`'s read and delete form one step, although the code makes two (see above).
- Keys without an expiry (TTL -1): every key here is written with `EX`, so none arise.
- HS256 cryptography: signatures are abstract, and a token verifies iff it records the verifier's key. Other HMAC algorithms, the `nbf`/`iat` claims and clock tolerance are not modelled; jose's strict `exp` check (rejected once `exp <= now`) is.
- `JSON.stringify` of the `_user` object: the cookie holds the object itself. User fields other than phone, full name, username, password and `isBanned` are not modelled because the user schema is not part of this model.
- `removeAllSession` is imported by the users controller, but its definition is not part of this model. It is assumed to delete the single `session:<id>` entry.
- Mongo plumbing: id allocation (`newId`, `newBanId` are the ids the database assigns), the `-__v` projection, the sort/skip/limit of `getAll` (the model returns the set of listed ids), the `search` regex filter, password hashing, and duplicate-key Conflict errors (the unique indexes are not part of this model). `isBanned` is taken to default to false. `getAllBan` and `signingCourse` are query plumbing and are not modelled.
- Users.UnbanUser: consistency of bans and flags is only promised when the deleted record was the user's only ban. Banning a banned user again records a second ban, and unbanning one of them unflags the user while the phone stays blocked.
- The Express error flow: `SuccessResponse` formatting, and the second `next` call in the catch blocks of `create` and `signingCourse`.
- `removeFile` (src/utils/funcs.ts:8-10): file-system I/O.
- JavaScript number semantics: values are integers. `timeToSeconds` is defined for texts of decimal digits and colons only. Whitespace, decimals, exponents and hex forms that `Number` also accepts are outside the model. `createPaginationData` requires `limit > 0` and `count >= 0`, as the validated queries provide. `secondsToTimeArray` takes whole seconds.
- Funcs.ScanRedisKeys: the server's SCAN replies are a function of the cursor, with the MATCH pattern folded in. A ghost bound stands for Redis's guarantee that a full iteration ends.
