# Chirpy in Dafny

This project models the core of Chirpy, a small microblogging HTTP service in Go. Users register and log in. They receive a short-lived JWT access token and a long-lived refresh token. They post short "chirps", which are length-checked and have profanity masked, and they can list, read and delete them. A payment provider's webhook upgrades users to "Chirpy Red".

Each handler is a pure function of what it reads:
- the decoded request body (`None` when the JSON did not decode);
- the headers;
- the database, as a value `Store.Db`;
- the clock (`now`, in whole seconds);
- the values the database or a random source would supply (new ids, salts, 32 random bytes);
- a `Api.Faults` record that says which external calls fail during the request.

A handler returns an `Api.Outcome`: an HTTP status with a body or an error message, and the database it leaves behind.

Modules, one per file:

| module | file | what it holds |
|---|---|---|
| `Results` | results.dfy | `Option` and `Result` |
| `Encoding` | encoding.dfy | bytes, int64 wrap-around, UTF-8 (Go's `len`), lowercase Base16 (section 8 of RFC 4648) and its decoder |
| `Text` | text.dfy | Go's `unicode.IsSpace`, `strings.TrimSpace`, `TrimPrefix`, `Split`/`Join` on one separator, `ToLower` |
| `Uuids` | uuids.dfy | google/uuid's text form (section 3 of RFC 4122) and `uuid.Parse` over a string's bytes |
| `Http` | http.dfy | header maps, status codes, `Response` |
| `Auth` | auth.dfy | internal/auth: password hash, bearer parser, refresh token, JWT issue and validation |
| `Store` | store.dfy | the rows, the queries the handlers issue, and the invariant `WellFormed` |
| `Api` | api.dfy | `Config`, `Faults`, `Outcome` |
| `Chirps` | chirps.dfy | handle_chirp.go |
| `Users` | users.dfy | handle_users.go |
| `Login` | login.dfy | handle_login.go |
| `Webhooks` | webhooks.dfy | handle_webhooks.go |
| `Scenario` | scenario.dfy | register, log in, post and list, end to end |

Design choices:
- **Tables and lookups.** The users and chirps tables are sequences in row order. A lookup returns the first matching row. Refresh tokens are a map keyed by the token text.
- **Insertion constraints.** The schema's constraints become the failure conditions of the inserting queries: unique user id and email, unique chirp id, an existing owner, a unique refresh token. They also form the invariant `Store.WellFormed`, which every mutating handler preserves.
- **Access tokens.** A token is the record golang-jwt decodes, holding the algorithm, the claims and the signature. The MAC, the compact serialization and its parser are parameters (`Auth.Jose`).
- **JWT assumptions.** Three properties are stated as named hypotheses rather than assumed silently:
  - parse inverts serialize (`FaithfulCodec`);
  - different secrets give different tags (`MacSeparatesSecrets`);
  - serialized tokens carry no outer white space (`CompactTokens`).
- **Password hashes.** A hash is the ideal term `Bcrypt(cost, salt, password)` with cost 10. Checking a password compares it with the term's preimage.
- **Lower-casing.** `Text.LowerRune` is exact wherever its result is compared with ASCII text, as the banned-word lookup does. That covers the Kelvin sign U+212A, which Go lowers to `k`, and U+0130, which Go's `unicode.ToLower` maps to plain `i` by the simple case mapping.
- **UUIDs.** `uuid.Parse` is modelled concretely on UTF-8 bytes, in all four layouts it accepts. This includes the 38-byte form, whose two outer bytes are skipped without being checked. Parsing the formatted text of an id gives the id back (`Uuids.ParseFormat`).

Three details of the code that the model keeps:
- The chirp limit is 140 bytes (Go's `len`), not 140 characters.
- Masking splits and joins on one space, so runs of spaces survive exactly. They do not collapse (`Chirps.NothingBannedUnchanged`).
- Reading a chirp answers 400 for a malformed id and 500 for a lookup error that is not "no rows". Deleting answers 404 for every failed lookup (`Chirps.LookupFailureDiffers`).

## Model

| member | source | states |
|---|---|---|
| `Chirps.TooLongExamples` | handle_chirp.go:52-55 | The gate counts UTF-8 bytes. 140 ASCII characters pass and 141 are refused. 47 three-byte characters (141 bytes) are refused too. |
| `Chirps.GetCleanedBody` | handle_chirp.go:93-101 | The masked body has as many space-separated fields as the original. Field i is "****" when the lower case of original field i is banned; otherwise it is original field i. |
| `Chirps.MaskedFieldsSplit` | handle_chirp.go:94-100 | Masked fields contain no space, so splitting their join on one space gives them back. |
| `Chirps.NothingBannedUnchanged` | handle_chirp.go:94-100 | With no banned field the body comes back exactly, including runs of spaces, because split and join on one space round-trip. |
| `Chirps.CleanIdempotent` | handle_chirp.go:96-97 | Masking an already masked body changes nothing, provided "****" is not itself banned. |
| `Chirps.MaskingExamples` | handle_chirp.go:58-62 | Whole words in any letter case are masked ("KerFuffle", "FORNAX", the Kelvin-sign spelling). "kerfuffle!" and "kerfuffles" are kept. |
| `Chirps.CleanedNoLonger` | handle_chirp.go:93-101 | When no banned word is shorter than the mask, masking never lengthens the body in bytes. |
| `Chirps.StoredChirpWithinLimit` | handle_chirp.go:52-70 | The masked body a created chirp stores is itself within 140 bytes. |
| `Chirps.Insert` | handle_chirp.go:134-145 | Inserting into a creation-time-ordered sequence keeps it ordered and adds exactly that element (multiset). |
| `Chirps.SortChirps` | handle_chirp.go:134-145 | The result is ordered by creation time (non-increasing when descending, non-decreasing otherwise) and is a permutation of the input. |
| `Chirps.ListChirps` | handle_chirp.go:104-163 | Whether the result is 200, 400 or 500 is stated exactly. A 200 lists all chirps (empty author_id) or exactly the author's, as a permutation. It is non-increasing by creation time when sort is "desc", and non-decreasing for any other value. |
| `Chirps.GetChirp` | handle_chirp.go:165-202 | Only 200, 400, 404 and 500 occur. 400 iff the id does not parse; 500 iff the lookup fails; 404 iff no row has the id; 200 iff a row has it, and the 200 carries a stored chirp with that id. |
| `Chirps.CreatedChirpReadable` | handle_chirp.go:66-74 | A chirp the create handler stored is what reading its id then answers with (200). |
| `Chirps.CreateChirp` | handle_chirp.go:28-90 | Only 201, 400, 401 and 500 occur. 401 iff the bearer token is missing or invalid, whatever the body. 400 iff the token is good and the body is undecodable or over-long. 500 iff the insert fails. 201 iff the token is good, the body is valid, and the insert succeeds (fresh id, stored owner, no store error). Every failure leaves the store unchanged. A 201 appends exactly (new id, now, now, masked body, token's user). |
| `Chirps.Caller` | handle_chirp.go:32-42 | The caller is the bearer credential validated as a JWT. A header error (missing, wrong scheme, empty) is returned as such, and every other error comes from validating the credential the header carried. |
| `Chirps.OwnerComesFromToken` | handle_chirp.go:66-70 | The user_id in the request body has no effect on anything the handler does. |
| `Chirps.CreateChirpPreservesWellFormed` | handle_chirp.go:66-74 | Creating a chirp preserves unique ids and existing owners. |
| `Chirps.DeleteChirp` | handle_chirp.go:204-250 | 401 iff the token fails; 400 iff the id does not parse; 404 iff the lookup fails or the id is absent. 403 iff the chirp exists with another owner. 500 iff it is the caller's and the removal fails. 204 iff it is the caller's and the removal succeeds, and then exactly that chirp is removed. Every non-204 leaves the store unchanged. |
| `Chirps.LookupFailureDiffers` | handle_chirp.go:177-186 | A lookup error other than a missing row is 404 when deleting but 500 when reading. |
| `Chirps.DeleteChirpPreservesWellFormed` | handle_chirp.go:242-249 | Deleting a chirp preserves the store invariant. |
| `Store.ChirpsByAuthor` | handle_chirp.go:126-130 | The author filter keeps exactly the author's rows, with their multiplicities. |
| `Store.WithoutChirp` | handle_chirp.go:243-246 | Removal drops every row with the id and keeps every other row. |
| `Store.WithoutChirpDistinct` | handle_chirp.go:243-246 | Removal keeps distinct ids distinct. |
| `Store.UserByEmail` | handle_login.go:50-54 | The lookup finds a stored user with exactly that email, and finds none iff no user has it. |
| `Store.UserByEmailAppend` | handle_users.go:55-62 | A user inserted with a new email is the one that email then finds. |
| `Store.ChirpById` | handle_chirp.go:177-182 | The lookup finds a stored chirp with that id, and finds none iff no chirp has it. |
| `Store.Upgraded` | handle_webhooks.go:43-51 | Upgrading keeps the table's length and every column of every row except the Chirpy Red flag. That flag is set afterwards exactly on the rows that had it or carry the id. |
| `Store.UpgradedKeys` | handle_webhooks.go:43-51 | Upgrading a user changes no id and no email. |
| `Auth.HashPassword` | internal/auth/auth.go:19-26 | Fails exactly when bcrypt fails. Otherwise the hash carries cost 10 and the drawn salt. |
| `Auth.CheckPasswordHash` | internal/auth/auth.go:28-30 | A password matches a hash exactly when the hash was made from that password; cost and salt play no part. |
| `Auth.HashThenCheck` | internal/auth/auth.go:19-30 | A password matches its own hash and no other password does. |
| `Auth.GetBearerToken` | internal/auth/auth.go:65-82 | Missing iff the header is empty. Wrong scheme iff it does not start with the case-sensitive "Bearer ". Empty iff only white space follows. Otherwise the result is the rest with white space trimmed: non-empty, with no white space at either end. |
| `Auth.BearerRoundTrip` | internal/auth/auth.go:76-81 | "Bearer " followed by a credential with no outer white space yields exactly that credential. |
| `Auth.BearerValidExample` | internal/auth/auth.go:76-81 | "Bearer abc123" yields "abc123". |
| `Auth.BearerMissingExample` | internal/auth/auth.go:66-69 | No Authorization header is an error. |
| `Auth.BearerWrongSchemeExamples` | internal/auth/auth.go:71-74 | "Token abc123" and "bearer abc123" are refused for their scheme. |
| `Auth.BearerEmptyExample` | internal/auth/auth.go:77-79 | "Bearer " with nothing after it is refused as empty. |
| `Auth.MakeRefreshToken` | internal/auth/auth.go:84-92 | Fails iff the random read fails. Otherwise the token is 64 lowercase hex digits that decode back to the 32 random bytes. |
| `Auth.RefreshTokensDistinct` | internal/auth/auth.go:85-90 | Different random bytes give different refresh tokens. |
| `Encoding.HexEncode` | internal/auth/auth.go:90 | n bytes give 2n lowercase hex digits, high nibble first. |
| `Encoding.HexRoundTrip` | internal/auth/auth.go:90 | Decoding the hex rendering gives the bytes back. |
| `Encoding.HexEncodeInjective` | internal/auth/auth.go:90 | Distinct byte strings have distinct renderings. |
| `Encoding.Utf8` | handle_chirp.go:52 | Go's len of a string is between its rune count and four times it, and equals the rune count iff the text is ASCII. |
| `Encoding.Wrap64` | handle_login.go:63 | Go's int64 arithmetic: congruent to the exact result modulo 2^64, and equal to it when it fits. |
| `Auth.IssuedClaims` | internal/auth/auth.go:33-38 | The subject written into a token parses back to the user id. |
| `Auth.MakeJWT` | internal/auth/auth.go:32-45 | The token parses to an HS256 token signed with the secret, with issuer "chirpy", subject the id's text, iat = now and exp = now + TTL. |
| `Auth.ValidateJWT` | internal/auth/auth.go:47-63 | The only errors are "invalid token" and the subject's parse error. "invalid token" iff the token does not parse, names another algorithm than HS256, is not signed with the secret or is not in force. Otherwise the answer is what uuid.Parse makes of the subject: the id, or its error. |
| `Auth.IssueThenValidate` | internal/auth/auth.go:32-63 | A token issued for a user validates to that user under the same secret at every moment before it expires. |
| `Auth.ExpiredTokenRejected` | internal/auth/auth.go:47-57 | From its expiry on, a token is refused; a TTL of zero or less is refused at once. |
| `Auth.WrongSecretRejected` | internal/auth/auth.go:47-57 | Under a MAC that separates secrets, a token is refused under any other secret. |
| `Auth.ForeignAlgorithmRejected` | internal/auth/auth.go:49-52 | A token naming any algorithm but HS256 is refused. |
| `Auth.MalformedSubjectReported` | internal/auth/auth.go:58-61 | A valid token whose subject is not a UUID is answered with uuid.Parse's error, not "invalid token". |
| `Text.TrimSpace` | internal/auth/auth.go:76 | Empty iff the text is all white space; otherwise no white space at either end. |
| `Text.TrimSpaceInfix` | internal/auth/auth.go:76 | The trimmed text is an infix of the original with only white space around it. |
| `Text.Split` | handle_chirp.go:94 | One more piece than separators, and no piece contains the separator. |
| `Text.JoinSplit` | handle_chirp.go:94-100 | Joining the pieces of a split gives back the original text. |
| `Text.SplitJoin` | handle_chirp.go:94-100 | Splitting the join of separator-free pieces gives back the pieces. |
| `Text.LowerRune` | handle_chirp.go:96 | A rune lowers to ASCII only if it was that ASCII rune, an upper-case ASCII letter, the Kelvin sign or U+0130. |
| `Text.Lower` | handle_chirp.go:96 | Lower-casing keeps the length, and its result is already lower case: lower-casing it again changes no character. |
| `Text.LowerMatches` | handle_chirp.go:96-97 | Lower-casing a word gives a given lower-case ASCII word exactly when the lengths agree and every character is that letter, its ASCII capital, or the Kelvin sign for k / U+0130 for i: the case-insensitive match of the banned-word lookup, over all words. |
| `Uuids.ParseBytes` | handle_chirp.go:120-124 | The length error is reported iff the length is not one of 32, 36, 38 and 45. |
| `Uuids.ParseFormat` | internal/auth/auth.go:37 | Parsing an id's text form gives the id back. |
| `Uuids.FormatInjective` | internal/auth/auth.go:37 | Distinct ids have distinct text forms. |
| `Users.CreateUser` | handle_users.go:29-76 | 400 iff the body is undecodable, the email blank, the password "unset", or the insert fails (taken id or email, store error); 500 iff bcrypt fails; failures leave the store unchanged. 201 iff the answer is a reply. A 201 stores a non-red user whose hash matches the password and returns only id, timestamps and email. |
| `Users.EmptyPasswordAccepted` | handle_users.go:44-47 | Only "unset" is refused: with an empty password, a fresh email and id, registration is a 201 reply, and the email then finds the new user, whose hash matches the empty password. |
| `Users.CreateUserPreservesWellFormed` | handle_users.go:55-62 | Registration preserves unique ids and emails. |
| `Login.AccessTtl` | handle_login.go:60-67 | The intended lifetime: one hour when absent; the requested seconds when under an hour, zero and negative included; one hour otherwise; never above an hour. |
| `Login.AccessTtlAsWritten` | handle_login.go:60-67 | The lifetime as coded, in int64 nanoseconds: never above one hour, one hour when absent. |
| `Login.TtlAgreesWithoutOverflow` | handle_login.go:63-66 | Where the multiplication fits in int64, the coded lifetime is the intended one. |
| `Login.TtlOverflowCounterexample` | handle_login.go:63-66 | 9223372037 seconds wraps to a negative lifetime where one hour was meant. |
| `Login.TtlWrapExamples` | handle_login.go:63-66 | The wrap is periodic: 20000000000 seconds gives one hour in the code, and -18446744074 seconds gives -290448384 ns. |
| `Login.TtlExamples` | handle_login.go:60-67 | Absent gives 3600, 60 gives 60, 7200 gives 3600 and -5 gives -5. |
| `Login.Login` | handle_login.go:30-104 | 400 for an undecodable body, a blank email or "unset". 401 "Incorrect email or password" iff the user is not found or the password does not match, store unchanged. 400 for a failed refresh token, store unchanged. Otherwise the refresh token is stored before signing (created = updated = now, expiry now + 60 days, not revoked), and a signing failure is 500. A 200 returns the user's id, timestamps, email, flag, refresh token and an access token for the capped lifetime. |
| `Login.GenericCredentialFailure` | handle_login.go:50-59 | An unknown email and a wrong password get the same status (401), the same message text and the same store. |
| `Login.LoginTokenAuthenticates` | handle_login.go:76-103 | After a successful login, the access token validates to the user until it expires, and the refresh token is stored for that user with a 60-day expiry. |
| `Login.RefreshLifetimeIndependentOfRequest` | handle_login.go:76-84 | The stored refresh token does not depend on the requested access lifetime. |
| `Login.LoginPreservesWellFormed` | handle_login.go:78-88 | Login preserves the store invariant. |
| `Webhooks.HandleWebhook` | handle_webhooks.go:20-53 | 400 iff the body does not decode, checked before the key. 401 iff the key is missing or wrong. 204 with the store unchanged for any other event. 500 iff the update fails. 404 iff the user does not exist. Otherwise 204 with the user upgraded. Every failure leaves the store unchanged. |
| `Webhooks.UpgradeTouchesOnlyTheFlag` | handle_webhooks.go:43-52 | Only the named user's flag changes, and it becomes set. Every other user, every chirp and every token is unchanged, and the same ids and emails remain. |
| `Webhooks.UpgradeIdempotent` | handle_webhooks.go:43-52 | Delivering the same notification twice leaves the store as once. |
| `Webhooks.MalformedBodyBeforeKey` | handle_webhooks.go:23-27 | A malformed body is answered 400 "Bad request" whatever the key. |
| `Webhooks.WebhookPreservesWellFormed` | handle_webhooks.go:43-52 | The webhook preserves the store invariant. |
| `Scenario.RegisterStores` | handle_users.go:50-71 | Registering with a fresh email and id answers 201 with the public fields, and afterwards the email finds that user with a matching hash. |
| `Scenario.LoginSucceeds` | handle_login.go:50-103 | The registered password logs in (200) without touching users or chirps. |
| `Scenario.LoginAuthenticates` | handle_login.go:90-103 | The access token, sent back as a bearer credential, identifies the user until it expires. |
| `Scenario.OnlyChirpListed` | handle_chirp.go:104-163 | An author whose one chirp is the newest row lists exactly that chirp. |
| `Scenario.RegisterLoginPostList` | handle_chirp.go:28-90 | Register, log in, post, list, starting from a well-formed store: the chirp is created under the registered user with the masked body, and the author's listing is exactly that one chirp. |

## Findings

| source | as written | input that shows it | evidently intended | confidence | as-written member | corrected member |
|---|---|---|---|---|---|---|
| handle_login.go:63-66 | `time.Duration(n) * time.Second` is an int64 product in nanoseconds that wraps for n ≥ 9223372037 | `expires_in_seconds` = 9223372037 gives -9223372036709551616 ns, so the token has already expired when issued | a large request is capped at one hour | high; not executed | `Login.AccessTtlAsWritten`, `Login.TtlOverflowCounterexample` | `Login.AccessTtl`, `Login.TtlAgreesWithoutOverflow` |

`Login.Login` uses the corrected `Login.AccessTtl`.

## Left out

- I/O: JSON decoding and encoding, `respondWithError`/`respondWithJSON`, header writing. A decode failure is the `None` request. The error text written after an encode failure is not modelled: by then the status is written, so the client still sees the 200 or 201 with a broken body.
- The SQL queries and schema are not part of this model. Their effect is given by the `Store` functions, and their constraints are read off the data model (unique email, id keys, chirp owner references).
- `auth.GetAPIKey` is not part of this model. The webhook receives its result as an optional key.
- handle_refresh.go, handle_revoke.go, reset.go and main.go: these are token refresh and revocation wrappers over queries not shown, an admin reset, and server start-up.
- Concurrency: every request runs alone against one database value.
- The clock: `time.Time` is whole seconds. `MakeJWT` reads the clock twice and the handlers once more; the model uses one reading `now` per request.
- Randomness: uuid.New, bcrypt salts and crypto/rand bytes are inputs.
- `Auth.HashPassword`: whether bcrypt fails is an input. Its 72-byte password limit, its cost encoding and its text format are not modelled.
- The inside of golang-jwt: HMAC-SHA256, base64url, JSON and leeway. They are replaced by `Auth.Jose` and the named hypotheses on it. `Auth.MacSeparatesSecrets` idealises HMAC-SHA256: real HMAC pads short keys with zero bytes, so a key and the same key followed by zero bytes give equal tags.
- `Login.Login`: signs the access token for the corrected lifetime `Login.AccessTtl`. Where n·10⁹ overflows int64 the code uses the wrapped product `Encoding.Wrap64(n·10⁹)` capped at one hour. Depending on the wrap that is negative, a short lifetime or one hour: at 9223372037 it is an already-expired token, at 20000000000 one hour as in the model, and at -18446744074 a negative lifetime as in the model.
- `Login.GenericCredentialFailure`: `Http.Response` does not record the body format. The unknown-email answer (handle_login.go:52, `respondWithError`) has a JSON body and the wrong-password answer (handle_login.go:57, `http.Error`) a plain-text body, so the two are equal only in status, message text and effect on the store.
- `Auth.ValidateJWT`: the exact error text of each rejection is not modelled. All rejections before the subject is read are `InvalidToken`.
- `Chirps.SortChirps`: Go's `sort.Slice` leaves the order of equal creation times unspecified. The model picks one admissible order, and its contracts state only what every admissible order satisfies.
- `Store.Upgraded`: the UpgradeUser query is not part of this model. The upgrade is taken to set only `is_chirpy_red`; if the query also touches `updated_at`, the model does not show that change.
- `Text.LowerRune`: exact only where the result is compared with ASCII text. Non-ASCII case mappings other than those into ASCII are not modelled.
- `Uuids.ParseBytes`: google/uuid's own sources are not part of this model. The four layouts are written from its documented behaviour.
- Header values that are not valid UTF-8 cannot occur, because strings are sequences of Unicode scalar values.
