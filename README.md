# Request identity resolution in wordford

This project models how the wordford server works out who is making a
request, and proves properties of that model. It covers four parts:

- **The cookie scan.** The `Cookie` header is split on `;` and each segment
  is trimmed. The token is the rest of the first segment that begins with
  `auth_token=`.
- **The two axum extractors.** `CurrentUser` needs an authenticated user.
  It stops at the first failing step with a 401 and that step's reason.
  `MaybeUser` makes authentication optional and turns every failure into
  an anonymous request. Both run the same five steps in the same order:
  - read the header;
  - find the auth cookie;
  - decode the session token;
  - parse the token's subject as an `i64`;
  - look the user up.

  Each extractor is modelled as the source writes it, a chain of these
  steps that stops at the first failure. The steps are also modelled as a
  forward-only state machine (`Extractors.Step`). Both extractors are proved
  equal to that machine, each under its own failure policy.
- **The login check.** `login` reads the stored bcrypt hash for an email and
  verifies the password against it. `hash_password` produces the hash.
- **The users table.** `UserRepository` is a class holding a map from rowid
  to row. It has:
  - `find_by_id` and `find_by_email` as reads;
  - `create_user` as a method that inserts one row with a random critter
    avatar.

A small string library underneath models the Rust `str` operations the scan
and the parser rely on: `split(char)`, `trim`, `strip_prefix`,
`parse::<i64>` and the decimal `Display` used by `format!`.

The extractors' lookup is `UserService::find_user_by_id`. That method is not
in `src/user/service.rs`, the service's other methods forward to the
repository, and so the lookup is modelled as the repository's `find_by_id`.

In `CurrentUser` every failing step before the lookup returns its mapped
401 with `?`. Line 52 of src/extractors/current_user.rs builds the same kind
of 401 for a failed lookup, and line 54 `unwrap`s it, so a failed lookup
aborts the request instead. The model follows the code
(`Extractors.CurrentUser`, outcome `Panicked`). The intended behaviour is
under "## Findings".

Files:

| file | module | contents |
|---|---|---|
| wrappers.dfy | `Wrappers` | `Option` and `Result` |
| rust_str.dfy | `RustStr` | `trim`, `split`, `strip_prefix`, `parse::<i64>`, decimal formatting |
| user_store.dfy | `UserStore` | the users table and `UserRepository` |
| auth.dfy | `Auth` | `hash_password`, `verify_password`, `login` |
| user_service.dfy | `UserService` | `UserService::create_user`: hashing the password before the insert |
| extractors.dfy | `Extractors` | the cookie scan, `CurrentUser`, `MaybeUser`, the shared pipeline |

## Model

| member | source | states |
|---|---|---|
| RustStr.IsWhitespace | src/extractors/current_user.rs:32 | `char::is_whitespace`: the Unicode White_Space code points. The trim lemmas below carry the contracts that use it. |
| RustStr.TrimStart | src/extractors/current_user.rs:32 | The result is no longer than the input and does not begin with whitespace. |
| RustStr.TrimStartDropsWhitespace | src/extractors/current_user.rs:32 | `trim_start` keeps a suffix of its input, and every character it drops is whitespace. |
| RustStr.TrimEnd | src/extractors/current_user.rs:32 | The result is no longer than the input and does not end in whitespace. |
| RustStr.TrimEndDropsWhitespace | src/extractors/current_user.rs:32 | `trim_end` keeps a prefix of its input, and every character it drops is whitespace. |
| RustStr.Trim | src/extractors/current_user.rs:32 | A trimmed segment is empty or starts and ends with a non-whitespace character. |
| RustStr.TrimIsSlice | src/extractors/current_user.rs:32 | A trimmed segment is a contiguous slice of the segment, with only whitespace before and after it. |
| RustStr.TrimUnpadded | src/extractors/current_user.rs:32 | A segment with no whitespace at either end is unchanged by trimming. |
| RustStr.TrimLeadingSpace | src/extractors/current_user.rs:32 | A leading whitespace character makes no difference to the trim. |
| RustStr.TrimKeepsOnlyInputChars | src/extractors/current_user.rs:31-32 | Trimming cannot introduce a character (such as `;`) that the segment lacks. |
| RustStr.Split | src/extractors/current_user.rs:31 | `split(';')` always yields at least one segment, even for the empty header. |
| RustStr.SplitPartsLackSeparator | src/extractors/current_user.rs:31 | No segment holds a `;`. |
| RustStr.JoinSplit | src/extractors/current_user.rs:31 | Joining the segments with `;` gives back the header: nothing is lost or reordered. |
| RustStr.SplitWithoutSeparator | src/extractors/current_user.rs:31 | A header without `;` is one segment, itself. |
| RustStr.SplitAppend | src/extractors/current_user.rs:31 | Splitting `a;b` gives the segments of `a` followed by those of `b`. |
| RustStr.SplitJoin | src/extractors/current_user.rs:31 | Splitting a join of `;`-free segments gives the same segments back. |
| RustStr.StripPrefix | src/extractors/current_user.rs:33 | `strip_prefix` succeeds exactly when the text begins with the prefix, and prefix plus result is the text. |
| RustStr.ParseI64 | src/extractors/current_user.rs:44-48 | An accepted subject is an optional sign followed by at least one decimal digit. A lone sign is rejected. The sign decides the sign of the value, which lies in the `i64` range. |
| RustStr.ParseSignedDigits | src/extractors/current_user.rs:44-48 | Conversely, an empty, `+` or `-` sign followed by digits is accepted exactly when its value is in the `i64` range, and gives that value; leading zeros and `+` are allowed. |
| RustStr.FormatNat | src/user/repository.rs:49-52 | `{}` on a number gives non-empty decimal digits with no leading zero, and a single digit exactly below 10. |
| RustStr.DigitsValueOfFormat | src/user/repository.rs:49-52 | Reading the decimal digits of `n` gives `n`. |
| RustStr.FormatOfDigitsValue | src/user/repository.rs:49-52 | Formatting the value of canonical digits gives the same digits. |
| RustStr.ParseFormatI64 | src/extractors/current_user.rs:44-48 | Every `i64` written in decimal parses back to itself, so a subject issued as `id.to_string()` resolves to `id`. |
| RustStr.FormatParseI64 | src/extractors/current_user.rs:44-48 | A canonical subject (no `+`, no leading zero, no `-0`) is the decimal writing of the id it parses to. |
| UserStore.AvatarNumber | src/user/repository.rs:48 | `random::<u8>() % 11 + 1` lies in 1..11 and is one more than the byte modulo 11. |
| UserStore.AvatarNumberCoversAll | src/user/repository.rs:48 | Every critter from 1 to 11 is drawn by some byte. |
| UserStore.AvatarUrlNamesCritter | src/user/repository.rs:48-52 | The avatar URL is the critter prefix, then one or two decimal digits with no sign and no leading zero, then `.svg`. Their value is the drawn number, and they parse back to it. |
| UserStore.UserRepository.constructor | src/user/repository.rs:8-10 | `new(&db)` is a handle on the shared pool: the repository holds the table as it already is (any rows satisfying the table invariant, its last rowid, and whether the pool answers), and is valid. |
| UserStore.UserOf | src/user/repository.rs:16-25 | The `User` built from a row: its id and every column but the password hash and timestamps. `FindById` and `FindByEmail` carry the contract that they return it. |
| UserStore.AvatarUrl | src/user/repository.rs:49-52 | The `format!` of the critter URL. `AvatarUrlNamesCritter` carries its contract: the prefix, the number's one or two decimal digits (no sign, no leading zero), then `.svg`. |
| UserStore.UserRepository.IdWithEmail | src/user/repository.rs:28-31 | The rowid of the only row with this email, exactly when some row has it. |
| UserStore.UserRepository.FindById | src/user/repository.rs:12-26 | `Ok` exactly when the pool answers and a row has this id, giving that row's fields with this id. An unreachable pool gives `PoolUnavailable`; a missing row gives `RowNotFound`. |
| UserStore.UserRepository.FindByEmail | src/user/repository.rs:28-42 | `Ok` exactly when the pool answers and a row has this email, giving that row with its own id. Otherwise `PoolUnavailable` or `RowNotFound`. |
| UserStore.UserRepository.CreateUser | src/user/repository.rs:44-74 | Errors, in order: unreachable pool, rowids exhausted, duplicate email; on error the table is unchanged. On success exactly one row is added, under a fresh id one past the last rowid. It holds the request's fields, the given password as its hash, the drawn avatar URL and role 1. The returned `User` is that row without the hash. Both lookups then find it. Validity is kept. |
| UserStore.FindByEmailThenId | src/user/repository.rs:12-42 | The user found by email is the user found by its id. |
| UserStore.FindByIdThenEmail | src/user/repository.rs:12-42 | The user found by id is the user found by its email, since emails are unique. |
| Auth.HashPassword | src/user/auth.rs:1-3 | `hash_password` returns exactly bcrypt's hash when bcrypt succeeds, and otherwise aborts with "Failed to hash password". There is no placeholder value. |
| Auth.VerifyPassword | src/user/auth.rs:26-28 | `true` exactly when bcrypt says the password matches. A hash bcrypt cannot parse gives `false`, not an error. |
| Auth.PasswordHashByEmail | src/user/auth.rs:15-17 | The query fails exactly when the pool is unreachable. It finds a hash exactly when a row has the email, and that hash is the row's. |
| Auth.Login | src/user/auth.rs:14-24 | `Err` exactly when the query fails. `Ok(true)` exactly when some row has the email and bcrypt accepts the password for its hash. An unknown email gives `Ok(false)`. |
| Auth.UnknownEmailLooksLikeWrongPassword | src/user/auth.rs:19-23 | An unknown email and a rejected password for a known email give the same `Ok(false)`. |
| Auth.CorruptHashRejectsLogin | src/user/auth.rs:19-28 | A stored hash bcrypt cannot parse makes `login` answer `Ok(false)`. |
| Auth.LoginChecksStoredHash | src/user/auth.rs:19-20 | For a stored row, `login` answers `Ok(verify_password(password, that row's hash))`. |
| UserService.CreateUser | src/user/service.rs:16-19 | It aborts with "Failed to hash password" exactly when bcrypt fails, and then the table is untouched. Otherwise the repository's answer is returned, with `create_user`'s error cases in its order; a failed insert leaves the table unchanged. A successful signup adds exactly one row under the next rowid, holding the request's email and names, bcrypt's hash of the password, the drawn avatar and role 1. The returned `User` is that row without the hash. Reachability never changes. If bcrypt verifies each password against its own hash, the new user can then log in with the plaintext. |
| Extractors.AuthToken | src/extractors/current_user.rs:30-33 | The cookie scan on a header: split on `;`, then `FindAuthToken`. `AuthTokenShape`, `NoAuthCookieNoToken`, `AuthTokenIsFirstAuthCookie`, `FirstAuthCookieGivesToken` and `LaterCookiesIgnored` carry its contract. |
| Extractors.FindAuthToken | src/extractors/current_user.rs:32-33 | `find_map` over the trimmed segments. `FindAuthTokenNone`, `FindAuthTokenIsFirst`, `FirstAuthCookieWins` and `FindAuthTokenAppend` carry its contract. |
| Extractors.CookieHeader | src/extractors/current_user.rs:24-27 | `headers.get(COOKIE).and_then(to_str().ok())`: the header's text when it is present and readable. `NoCookieHeaderRequest` carries the contract for its absence. |
| Extractors.CookieValue | src/extractors/current_user.rs:32-33 | A segment offers a value exactly when, trimmed, it begins with `auth_token=`; the trimmed segment is then `auth_token=` followed by the value. |
| Extractors.FindAuthTokenNone | src/extractors/current_user.rs:30-34 | The scan finds nothing exactly when no segment is an auth cookie. |
| Extractors.FindAuthTokenIsFirst | src/extractors/current_user.rs:30-33 | A found token is the value of some segment, and no earlier segment is an auth cookie. |
| Extractors.FirstAuthCookieWins | src/extractors/current_user.rs:30-33 | If segment `i` is the first auth cookie, the scan yields its value, whatever follows. |
| Extractors.FindAuthTokenAppend | src/extractors/current_user.rs:30-33 | Scanning two runs of segments: the first run decides whenever it holds an auth cookie. |
| Extractors.FoundTokenShape | src/extractors/current_user.rs:31-33 | A value found among `;`-free segments holds no `;` and does not end in whitespace. |
| Extractors.AuthTokenShape | src/extractors/current_user.rs:30-33 | The extracted token never contains `;` and never ends in whitespace. |
| Extractors.NoAuthCookieNoToken | src/extractors/current_user.rs:30-34 | A header yields no token exactly when none of its trimmed segments begins with `auth_token=`. |
| Extractors.AuthTokenIsFirstAuthCookie | src/extractors/current_user.rs:30-33 | The token is what follows `auth_token=` in the first trimmed segment that begins with it. |
| Extractors.FirstAuthCookieGivesToken | src/extractors/current_user.rs:30-33 | Conversely, the header's first auth cookie determines the token. |
| Extractors.LaterCookiesIgnored | src/extractors/current_user.rs:30-33 | Appending `;` and more cookies changes nothing once a token is found. Cookies in front without a token are skipped. |
| Extractors.FirstAuthCookieAmongOthers | src/extractors/current_user.rs:30-33 | Token-free cookies before the auth cookie and anything after it leave its value as the token, so a second `auth_token=` is ignored. |
| Extractors.SingleCookie | src/extractors/current_user.rs:30-33 | A header of one unpadded cookie yields exactly `strip_prefix("auth_token=")` of it. |
| Extractors.SinglePaddedCookie | src/extractors/current_user.rs:30-33 | A header of one cookie after one whitespace character yields `strip_prefix` of the cookie. |
| Extractors.BareCookieGivesValue | src/extractors/current_user.rs:33 | `auth_token=` followed by any `;`-free value not ending in whitespace yields that value, and the empty value gives `Some("")`. |
| Extractors.PaddedCookieGivesValue | src/extractors/current_user.rs:32-33 | Whitespace in front of `auth_token=` is trimmed away before the name is compared. |
| Extractors.LongerNameSample | src/extractors/current_user.rs:33-34 | `xauth_token=v` is not the auth cookie: there is no partial-name match. |
| Extractors.NameWithoutValueSample | src/extractors/current_user.rs:33-34 | `auth_token` without `=` is not the auth cookie. |
| Extractors.OtherCookieSample | src/extractors/current_user.rs:33-34 | A cookie with another name yields no token. |
| Extractors.CurrentUser | src/extractors/current_user.rs:17-56 | Every rejection is a 401 with one of the four step reasons. A failed lookup aborts, carrying the 401 "Something went wrong" it unwrapped. An extracted user is a stored user exactly as stored. |
| Extractors.MaybeUser | src/extractors/current_user.rs:58-104 | It never rejects; a user it yields is a stored user exactly as stored. |
| Extractors.Step | src/extractors/current_user.rs:24-54 | Each step only moves forward, and a final stage stays put. A request becomes resolved only from a parsed subject, holding a stored user. |
| Extractors.Run | src/extractors/current_user.rs:24-54 | Running steps never moves backwards, and each step that is not at a final stage advances. |
| Extractors.Resolve | src/extractors/current_user.rs:24-54 | Five steps always reach a final stage: resolved, or stopped at the first failure. |
| Extractors.RunFromReceived | src/extractors/current_user.rs:24-54 | Resolution performs the five checks in source order and stops at the first that fails. |
| Extractors.CurrentUserFollowsPipeline | src/extractors/current_user.rs:24-54 | `CurrentUser` is the pipeline with one reason per stopping step and an abort after the lookup. |
| Extractors.MaybeUserFollowsPipeline | src/extractors/current_user.rs:65-102 | `MaybeUser` is the same pipeline with `None` at every stopping step. |
| Extractors.VariantsAgree | src/extractors/current_user.rs:17-104 | Wherever `CurrentUser` rejects or aborts, `MaybeUser` gives `None`. `MaybeUser` gives a user exactly when `CurrentUser` extracts that same user. |
| Extractors.RejectionIndependentOfStore | src/extractors/current_user.rs:24-48 | The four checks before the lookup do not consult the store, so a rejection is the same against any store. |
| Extractors.SubjectIsResolvedUser | src/extractors/current_user.rs:44-54 | When every step succeeds, both extractors yield the stored user whose id is the parsed subject. |
| Extractors.FailedLookupNeverResolves | src/extractors/current_user.rs:49-54 | A valid token whose subject has no row (or an unreachable store) aborts `CurrentUser`, and `MaybeUser` gives `None`. |
| Extractors.NoCookieHeaderRequest | src/extractors/current_user.rs:24-28 | A request without a `Cookie` header gets 401 "Missing cookies", or is anonymous. |
| Extractors.DeletedUserAbortsRequest | src/extractors/current_user.rs:49-54 | Concretely, `auth_token=<t>` with a valid token naming a user the reachable store lacks makes `CurrentUser` abort. |
| Extractors.CurrentUserRejecting | src/extractors/current_user.rs:49-54 | The corrected extractor never aborts and every rejection is a 401. It extracts exactly when `MaybeUser` yields a user, and the same user. |
| Extractors.RejectingDiffersOnlyOnLookup | src/extractors/current_user.rs:49-54 | The corrected extractor answers every request as the one as written does, except that it sends the rejection the original unwraps. |

## Left out

- `jsonwebtoken::decode` with `Validation::default()` is not modelled. It is the parameter `decode(token, secret)`, with `None` for every failure (signature, expiry, format). Token issuance (signing `UserClaims`) is not modelled.
- bcrypt is not modelled. `bcrypt::hash` and `bcrypt::verify` are the parameters `hash` and `verify`. The round-trip fact `verify(p, hash(p))` is a precondition of `UserService.CreateUser`, not a proved fact.
- `env::var("JWT_SECRET")` is the parameter `secret`. Its absence aborts both extractors after the cookie steps (src/extractors/current_user.rs:36, 83), and that abort is not modelled.
- `HeaderValue::to_str` is not modelled: a header value is either readable text or not. Only the first `Cookie` header is read, as `headers.get` does.
- Character classes are on Unicode code points. `char::is_whitespace` is the White_Space property; there is no UTF-8 byte model.
- `parse::<i64>` is modelled with every `ParseIntError` kind collapsed to one failure.
- `rand::random::<u8>()` is the parameter `roll`.
- The `created_at` and `updated_at` timestamps (`chrono::Utc::now`) are not modelled.
- Async execution, the connection pool and concurrency are not modelled. Every `sqlx::Error` from an unreachable pool is `PoolUnavailable` (the `reachable` field).
- The `users` table schema is not modelled. The model assumes:
  - rowids are handed out one past the largest ever used, with an error once `i64` is exhausted;
  - emails are unique, as a class invariant, and an insert of a taken email fails;
  - the stored role is 1, as the returned `User` says.
- `find_by_email`'s `id.expect(..)` (src/user/repository.rs:33) cannot fire in the model, because every row has a rowid.
- UserService.CreateUser: the caller's request is not updated. `UserService::create_user` overwrites the caller's `password` field with the hash through `&mut` (src/user/service.rs:16-17); the model hashes into a copy that it passes to the repository, so a caller that reads the request afterwards is not modelled.
- `UserService::find_user_by_id` is not in `src/user/service.rs`. The extractors' lookup is modelled as the repository's `find_by_id`.
- `login` is a function of the table, so it leaves the table unchanged by construction. The same holds for both lookups.
- src/user/routes.rs (HTTP handlers, templates, cookie attributes) is not part of this model.
- The content, page, app and org modules are not part of this model. They are pass-through SQL and templates.

## Findings

| source | as written | input that shows it | evidently intended | confidence | as-written member | corrected member |
|---|---|---|---|---|---|---|
| src/extractors/current_user.rs:49-54 | The lookup's error is mapped to `(401, "Something went wrong")` and then `unwrap()`ped, so a failed lookup panics and the request is aborted. | A valid token whose `sub` is the id of a user no longer in the table (store reachable), cookie `auth_token=<token>` | The mapped 401 is returned, as for every other failing step, with `?` rather than `.unwrap()`. | high; not executed | Extractors.DeletedUserAbortsRequest | Extractors.CurrentUserRejecting |
