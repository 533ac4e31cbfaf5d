# Guestbook signs: a verified model

This project models the "sign" subsystem of the guestbook web application.
A signed-in GitHub user leaves one sign (a short message, optionally
anonymous). The client signs the sign with a fresh Ed25519 key pair and
stores the public key and the signature as hex beside the row. Every read
re-verifies each row and shows the first 16 hex characters of its key. An
admin approves signs and removes their messages.

Modules:

- `Common`: `Option`, `Result`, `Outcome`, the `byte` type, `Min` and `Pow2`.
- `Utf8`: what `TextEncoder` does to a string, a strict decoder, and the round trip between them.
- `Hex`: the library's `bytesToHex` (lower case) and `hexToBytes`.
  - `hexToBytes` accepts both cases.
  - It fails on an odd length or a non-hex pair.
- `Ed25519`: the signing library as a record of three functions.
  - Its correctness (RFC 8032: keys of 32 bytes, signatures of 64 bytes, and a signature always verifies under its own key) is the predicate `Correct(scheme)`.
  - The lemmas that need it take it as a hypothesis.
- `CryptoUtils`: covers `src/cryptoUtils.ts`:
  - the signed payload;
  - key generation (the random buffers and the clock are parameters);
  - sign and verify;
  - the public-key display;
  - `verifySign`, the check applied to every stored row.
- `Entry`: covers `src/entry.ts`:
  - the retry policy of `fetchWithRetry`, as a loop proved against a recursive specification;
  - `SignManager`, a class whose fields are the `signs` and `blacklist` tables and the configured admin name. Its methods update the tables in place.
  - The remote store is this in-memory state. The signed-in user is an `Option<User>` parameter.

Three details of the code that the model keeps:

- `created_at` is not signed. The signed payload is only `message|userId`:
  - `createSign` passes the timestamp as a fourth argument.
  - `generateSignatureForSign` takes three parameters, so the timestamp is ignored.
  - `CryptoUtils.VerifySignIgnoresCreatedAt` states this.
- `publicKeyDisplay` is present only when both hex strings decode. A hex string that does not decode throws inside the `try`, and the `catch` returns no display.
- `createSign` takes the admin name from `user_metadata.user_name`. `deleteSign`, `adminToggleApproval` and `adminRemoveComment` take it from `user_metadata.github_username`. `User` carries both fields, and each operation reads the one its source reads.

## Model

| member | source | states |
|---|---|---|
| Utf8.Encode | src/cryptoUtils.ts:48-51 | each character encodes to 1 to 4 bytes, so the output length lies between the input length and four times it |
| Utf8.DecodeEncode | src/cryptoUtils.ts:48-51 | decoding the UTF-8 encoding of any string gives the string back (the encoder is injective) |
| Hex.Encode | src/cryptoUtils.ts:82-84 | the output has two characters per byte and every one is a lower-case hex digit |
| Hex.Decode | src/cryptoUtils.ts:89-91 | succeeds exactly when the length is even and every character is a hex digit of either case; yields half as many bytes; reports an odd length exactly when the length is odd |
| Hex.DecodeEncode | src/cryptoUtils.ts:82-91 | decoding the hex of any bytes gives the bytes back |
| Hex.EncodeDecode | src/cryptoUtils.ts:82-91 | re-encoding what a hex string decodes to gives its lower-case form |
| Utf8.EncodeAscii | src/cryptoUtils.ts:24 | ASCII text, such as the digits of the clock, encodes to one byte per character, that character's code |
| CryptoUtils.OrEmpty | src/cryptoUtils.ts:49 | JavaScript's `s \|\| ""`: the result is empty exactly when the field is absent or empty, and otherwise it is the field |
| CryptoUtils.DisplayMessage | src/cryptoUtils.ts:114 | anonymous signs always sign "Anonymous"; other signs sign their message, or "" when it is absent (the same rule `verifySign` applies at lines 154-156) |
| CryptoUtils.CreateMessage | src/cryptoUtils.ts:47-52 | the payload is the encoded message, one 0x7C byte and the encoded user id, and it decodes to `message + "\|" + userId` |
| CryptoUtils.PayloadIsNotInjective | src/cryptoUtils.ts:47-52 | two different (message, userId) pairs, ("a\|b", "c") and ("a", "b\|c"), have the same payload |
| CryptoUtils.Xor | src/cryptoUtils.ts:32 | bit k of `a ^ b` is set exactly when bit k of one input, and only one, is set (k = 0..7) |
| CryptoUtils.XorCancels | src/cryptoUtils.ts:32 | XOR-ing twice with the same byte gives the first byte back |
| CryptoUtils.DecimalString | src/cryptoUtils.ts:23 | `Date.now().toString()` is a non-empty string of decimal digits, starting with 0 only for the number 0 |
| CryptoUtils.DecimalStringValue | src/cryptoUtils.ts:23 | reading those digits back gives the clock reading, so the string is the number's decimal form |
| CryptoUtils.TimestampBytes | src/cryptoUtils.ts:23-24 | the mixed-in timestamp bytes are the ASCII codes of those digits, one per digit |
| CryptoUtils.MixedKey | src/cryptoUtils.ts:29-33 | the key built from the two random buffers and the clock bytes meets the mixing rule byte by byte |
| CryptoUtils.MixedKeyIsUnique | src/cryptoUtils.ts:29-33 | the mixing rule fixes the key: any key that meets it is `MixedKey` |
| CryptoUtils.GenerateKeyPair | src/cryptoUtils.ts:21-42 | byte i of the secret key is random1[i] XOR random2[i] XOR the timestamp digit byte at i mod its length, so the key is `MixedKey` of the inputs; the public key is the library's public key of it |
| CryptoUtils.MixingIsInvertible | src/cryptoUtils.ts:29-33 | given the key, random2 and the clock, random1 is recovered byte by byte, so the mixing loses none of random1's entropy |
| CryptoUtils.Sign | src/cryptoUtils.ts:57-60 | under a correct scheme and a 32-byte key, the signature is 64 bytes and `Verify` accepts it under the matching public key |
| CryptoUtils.Verify | src/cryptoUtils.ts:65-77 | true exactly when the library returns true for the payload; a throw counts as false |
| CryptoUtils.GetPublicKeyDisplay | src/cryptoUtils.ts:96-100 | the result is the prefix of the key's hex (or of the given string) of length min(16, length); for a string argument, characters are Unicode scalar values rather than UTF-16 code units, so it differs from `substring(0, 16)` only on characters outside the Basic Multilingual Plane, which `verifySign`'s hex display never contains |
| CryptoUtils.GenerateSignatureForSign | src/cryptoUtils.ts:105-129 | the secret key is `MixedKey` of the random buffers and the clock, as in `GenerateKeyPair`; the signature is the hex of the signature over ("Anonymous" when anonymous, else the message; userId); the public key is the hex of the pair's public key |
| CryptoUtils.VerifySign | src/cryptoUtils.ts:134-180 | valid implies no error; the display is present iff there is no error, iff both fields are non-empty and both decode; missing data is reported iff either field is absent or empty; the display is the lower-cased first 16 key characters; valid iff the library accepts the decoded signature over the record's own payload |
| CryptoUtils.VerifySignRoundTrip | src/cryptoUtils.ts:105-180 | a record holding the hex key and the hex signature made by `generateSignatureForSign` verifies, with no error, showing the first 16 characters of its key |
| CryptoUtils.VerifySignIgnoresCreatedAt | src/cryptoUtils.ts:134-173 | changing `created_at` never changes the verdict |
| CryptoUtils.VerifySignAnonymousIgnoresMessage | src/cryptoUtils.ts:154-156 | for an anonymous sign the stored message never changes the verdict |
| Entry.Settle | src/entry.ts:88-99 | an ending attempt delivers a response exactly when it answered with an OK status |
| Entry.Backoff | src/entry.ts:101-104 | every sleep lies between 1000 ms and 10000 ms |
| Entry.BackoffMonotone | src/entry.ts:101-104 | sleeps never shrink from one attempt to the next |
| Entry.BackoffSchedule | src/entry.ts:101-104 | the sleeps are 1000·2^k ms for attempts 0 to 3 and 10000 ms from attempt 4 on |
| Entry.RetryRun | src/entry.ts:69-124 | at least one and at most maxRetries + 1 calls are made, with one sleep between consecutive calls |
| Entry.FetchWithRetry | src/entry.ts:69-124 | the loop's result, number of calls and sleeps are those of `RetryRun` from attempt 0 |
| Entry.RetryRunStopsAtFirstEnd | src/entry.ts:76-121 | every attempt before the last was retried, the last one ends the loop, the result is what it saw, and the k-th sleep is `Backoff(k)` |
| Entry.RetryRunEndsAt | src/entry.ts:76-121 | conversely, when attempt `last` is the first that ends the loop, exactly last + 1 calls are made and the loop settles on it |
| Entry.FetchWithRetryOutcome | src/entry.ts:69-124 | only OK responses are returned; an HTTP error is thrown only for a 4xx other than 429 or on the last attempt; a non-abort, non-network error is rethrown at once: every attempt before the last one made was retried |
| Entry.ClientErrorIsNotRetried | src/entry.ts:92-99 | a first response with a 4xx other than 429 ends the loop after one call with no sleep |
| Entry.SignsOf | src/entry.ts:191-194 | a row is returned exactly when it is in the table and belongs to the user |
| Entry.ApprovedRows | src/entry.ts:129 | a row is returned exactly when it is in the table and approved |
| Entry.Selected | src/entry.ts:372-376 | a row is touched exactly when it is in the table and matches the id and, when scoped, the owner (the same filters at lines 345-346, 409 and 441) |
| Entry.Retained | src/entry.ts:370-376 | a row survives a delete exactly when it is in the table and not matched |
| Entry.Apply | src/entry.ts:344 | an update changes only the message, the anonymity flag and the approval; an edit keeps `approved` and sets each field it carries, leaving the fields it leaves out as they were; toggling (line 408) sets only `approved`; clearing (line 440) sets only `message` to null |
| Entry.UpdateRows | src/entry.ts:344-346 | the table keeps its length; each matched row is updated and every other row is unchanged (likewise at lines 408-409 and 440-441) |
| Entry.SingleRow | src/entry.ts:343-349 | `.single()` succeeds exactly when one row was touched |
| Entry.Annotate | src/entry.ts:155-161 | the row is kept whole; a valid row has no error; the display is present exactly when there is no error; the missing-data error appears exactly when the key or the signature is absent or empty |
| Entry.WithVerification | src/entry.ts:157-165 | one annotated row per fetched row, each carrying the verdict of `verifySign` on that row |
| Entry.IsAdmin | src/entry.ts:203-205 | `adminGithubUsername && name === adminGithubUsername`: only a non-empty name equal to the configured one passes, and an unset or empty admin name matches no one (the same test at lines 368-370, 399-401 and 431-433) |
| Entry.BlacklistedAsWritten | src/entry.ts:181-189 | the lookup as written blocks only listed users, and among them only those with exactly one blacklist row |
| Entry.IsBlacklisted | src/entry.ts:181-189 | the intended lookup blocks a user exactly when at least one blacklist row holds their id |
| Entry.DuplicateBlacklistRowsAdmitUser | src/entry.ts:181-189 | a user listed twice is not blocked by the lookup as written |
| Entry.BlacklistLookupsAgree | src/entry.ts:181-189 | the two lookups agree whenever a user id occurs at most once in the blacklist |
| Entry.SignManager.CanUserCreateSign | src/entry.ts:244-282 | can create iff signed in, not blacklisted and without a row; otherwise the reason is the first gate that fails, each reason stated as an iff |
| Entry.SignManager.CreateSign | src/entry.ts:172-242 | fails iff `CanUserCreateSign` says no, with the same reason and no change; otherwise appends exactly one row, advances the next id by one and keeps the table invariant. The new row carries the hex public key of `MixedKey(random1, random2, clock bytes)` and the hex signature, made with that key, over its own display message and user id. Afterwards `CanUserCreateSign` answers AlreadySigned and the user's rows are just that one. Under a correct scheme the row verifies |
| Entry.SignManager.NewSign | src/entry.ts:206-229 | the new row has the next id, the form's message (null when empty) and flag, `created_at`, the user's id, name and avatar, is approved iff the user is the admin, carries the hex public key of `MixedKey(random1, random2, clock bytes)` and the hex signature, made with that key, over its own display payload, and verifies under a correct scheme |
| Entry.SignManager.Insert | src/entry.ts:231-235 | the row is appended with the next id and the table invariant is kept |
| Entry.UserSignsAfterCreate | src/entry.ts:284-328 | when the user's query yields just the new row, `getUserSigns` returns that row alone, with its verdict |
| Entry.SignManager.GetUserSigns | src/entry.ts:284-328 | nothing when signed out; otherwise every returned row is in the table, belongs to the caller and carries `verifySign`'s verdict, and every row of the caller's is returned |
| Entry.AnnotatedRowsOf | src/entry.ts:300-320 | the annotated query result holds the user's rows and only those, each with its verdict |
| Entry.SignManager.GetApprovedSigns | src/entry.ts:127-170 | the approved rows with their verdicts when the retried fetch delivers a response, nothing when it throws |
| Entry.SignManager.UpdateSign | src/entry.ts:330-356 | signed out: an error and no change; otherwise only the caller's own row with this id is edited, and the result is that row after the edit when exactly one row matched |
| Entry.SignManager.DeleteSign | src/entry.ts:358-384 | signed out: an error and no change; the admin deletes the row with this id whoever owns it, anyone else only their own; every other row stays in order |
| Entry.SignManager.AdminToggleApproval | src/entry.ts:386-419 | signed out or not the admin: an error and no change; otherwise sets `approved` on the row with this id and returns it |
| Entry.SignManager.AdminRemoveComment | src/entry.ts:421-451 | signed out or not the admin: an error and no change; otherwise sets the message of the row with this id to null and returns it |
| Entry.SignManager.UpdateWhere | src/entry.ts:337-349 | keeps the table invariant; the new table and the result are those of the filtered update followed by `.single()` |
| Entry.NoSignMeansNoRow | src/entry.ts:191-198 | the user's query comes back empty exactly when no row carries the user's id |
| Entry.SignsOfAppend | src/entry.ts:191-235 | after an insert, the user's query returns the earlier result followed by the new row |
| Entry.InsertedSignVerifies | src/entry.ts:206-229 | a row built from `generateSignatureForSign`'s output verifies under a correct scheme |
| Entry.AppendKeepsValid | src/entry.ts:231-235 | inserting a row with the next id for a user without a sign keeps ids unique, one sign per user, and ids below the next id |
| Entry.RetainedKeepsValid | src/entry.ts:358-384 | a delete keeps ids unique, one sign per user, and ids below the next id |
| Entry.AtMostOneSelected | src/entry.ts:337-349 | with unique ids, an update or delete filtered by id touches at most one row |
| Entry.RetainedRemovesOne | src/entry.ts:370-376 | with unique ids, deleting a matching row at position k leaves the rows before and after it, in order |
| Entry.RetainedNone | src/entry.ts:370-376 | a delete that matches no row leaves the table unchanged |
| Entry.UpdateFindsRow | src/entry.ts:337-349 | with unique ids, `.single()` after an update succeeds exactly when some row matches, and returns that row updated |
| Entry.DeletingOwnSignFreesUser | src/entry.ts:372-376 | once a user deletes their own sign, under either filter `deleteSign` may use (the admin's, by id alone, or everyone else's, by id and owner), the user has no sign left, so the "already signed" gate opens again |
| Entry.ApprovalKeepsVerification | src/entry.ts:406-411 | toggling approval never changes a row's verdict, display or error |
| Entry.ClearingAnonymousMessageKeepsVerification | src/entry.ts:435-440 | clearing the message of an anonymous sign never changes its verdict or error |

## Left out

- Network I/O, the Supabase client and the authentication call. The store is the in-memory tables and the signed-in user is a parameter.
- Remote errors of the store are not modelled. That covers a failed query, a failed insert and a failed auth lookup, together with the `catch` branches that turn them into `[]` or "sign_error". The error `.single()` returns on a blacklist with two or more rows for one user appears only in the as-written half of the finding below; the operations use the corrected lookup.
- Entry.SignManager.CanUserCreateSign: the blacklist gate is the corrected lookup `IsBlacklisted` (any row blocks). As written, the source blocks only when exactly one row matches (`BlacklistedAsWritten`), so a user listed twice is answered `Blacklisted` here but passes the gate in the source. The two agree whenever a user id occurs at most once (`BlacklistLookupsAgree`).
- Entry.SignManager.CreateSign: the same corrected blacklist gate, with the same difference for a user listed twice.
- The server-side ordering `order=created_at.desc` is not modelled. `GetApprovedSigns` and `GetUserSigns` return rows in table order.
- Timers, `AbortController` and the timeout value. A timeout shows up as an attempt that threw `AbortError`. The sleeps are returned instead of awaited.
- `lastError` and the final `throw lastError`. Every path leaves the loop earlier, so that statement is dead code.
- `Date.now()` and `new Date().toISOString()` become the parameters `nowMillis` and `timestamp`. `randomBytes(32)` becomes the parameters `random1` and `random2`.
- The Ed25519 arithmetic. The scheme is a parameter, and its RFC 8032 correctness is the hypothesis `Correct(scheme)`.
- Lone UTF-16 surrogates. A Dafny `char` is a Unicode scalar value.
- The text of error messages and their translations. Reasons and errors are datatype constructors.
- `console` logging and the `console.time` timing.
- The `AuthManager` and `StatusManager` classes. They are not part of this model.
- Entry.SignManager.CreateSign: when no admin name is configured, or it is empty, the source sends `approved` as `undefined` or `""`. The model stores `false`. What the source does in these two cases is not modelled.
- Entry.SignManager.CreateSign: the model does not cover two concurrent calls. Between the "already signed" check and the insert, such calls could both insert a row.

## Findings

| source | as written | input that shows it | evidently intended | confidence | as-written member | corrected member |
|---|---|---|---|---|---|---|
| src/entry.ts:181-189 (and 258-266) | the blacklist lookup ends in `.single()`, which returns an error when two or more rows match, and only a lookup without error blocks the user | a `blacklist` table holding the user's id in two rows | a user whose id appears in the blacklist at all is blocked | medium (depends on whether the table has a uniqueness constraint on `user_id`); not executed | Entry.BlacklistedAsWritten, Entry.DuplicateBlacklistRowsAdmitUser | Entry.IsBlacklisted, Entry.BlacklistLookupsAgree |
