# Verified models of the identity service's stateful and textual core

Dafny models of the parts of the repository whose promises range over whole
runs, interleavings, or arbitrary text, each with proofs of those promises.
`dafny verify dfyconfig.toml` checks everything.

| file | models |
|---|---|
| `RateLimit.dfy` | the fixed-window failure counter |
| `AuditOrder.dfy`, `AuditLog.dfy` | keyset pages over, and batched purges of, the audit table |
| `AuthSessions.dfy` | the login transaction that announces a new device |
| `AccountTokens.dfy` | consuming a single-use token and changing the account, in one transaction |
| `SigningKeys.dfy` | the signing-key table, its lifecycle, and the published key set |
| `Secrets.dfy`, `KeyEncryption.dfy`, `EmailRendering.dfy` | encryption at rest, rotation of the key-encryption key, and the mail renderer that must not notice it |
| `Utf8.dfy`, `UrlEncoded.dfy`, `Redirects.dfy`, `EndSession.dfy` | percent-encoding, form parsing, redirect URIs, and logout requests |
| `Scanner.dfy` | the bracket, quote and escape scanner of the contract check |
| `PathBoundary.dfy` | the two lexical confinement checks of the MCP server |
| `Words.dfy`, `Redaction.dfy`, `ScimSlug.dfy` | normalised keys and slugs, and redaction of JSON |
| `Wrappers.dfy`, `Strings.dfy` | option, result and text operations of the standard libraries |

## How the code is modelled

*Tables.* A table is a map from primary key to row, or a set of rows with
distinct ids. A class holds the tables as fields; its methods are the
repository's statements and transactions, each specified by the new value of
the tables. What the repository promises is proved about those values.

*Interleavings.* `AuthSessions` and `AccountTokens` also have a machine whose
steps are the single statements of any number of transactions, with row locks,
commits, aborts, and whatever other sessions may write in between. Theorems
about it hold of every list of steps that can run. Waiting for a lock is a step
that cannot run yet. `AuthSessions.AloneIsCreated` and
`AccountTokens.AloneIsApplied` tie the machines to the methods.

*Rotation of the key-encryption key.* What was listed and the tables it is
written to are separate: the theorems take any present table, so also one that
other processes changed in between.

*Text.* A string is a sequence of Unicode scalar values, as in Rust, and is
encoded to UTF-8 where the code works on bytes.

*Loops.* A loop of the source is a loop here, with the invariant that equates
it with a recursive function; the theorems are about the function.

*Columns and characters.* Theorems about runs and texts speak through the functions
that compute them. Beside them stand theorems that say the same of the columns of
the rows, the names in a path, the pairs a client reads, or the letters of the
alphabet, without those functions.

*Parameters.* Time, fresh nonces, generated ids and key material are
parameters. Sealing and opening are arbitrary functions with one law, that
opening undoes sealing under the same key, nonce and associated data
(`crates/oidc/src/tests.rs:791-806`).

## Where a promise holds only under a condition

- `SELECT ... FOR UPDATE` on a row that is not there locks nothing and goes on. A
  user is told of a context at most once in every run in which the lock
  statements of the user's logins find the user row, whenever it appeared:
  `AuthSessions.NotifiedOnceIfLocksFindUser`. Two logins that look for it just
  before it is created both announce: `AuthSessions.LateUserIsToldTwice`. So all
  interleavings are safe iff the row exists when they start:
  `AuthSessions.NotifiedOnceIffUserExists`.
- Of a redirect URI with a parseable query, the client reads its own pairs
  followed by exactly the appended ones iff the URI has no fragment and does not
  end in an empty query (`https://c.example/cb?`), after which a form reader
  sees an empty pair: `Redirects.RedirectKeepsPairs`.
- The authorization code is appended unencoded, so of a URI that meets that
  condition the client gets it back iff it has no `&`, `%`, `+` or `#`:
  `Redirects.ResponseRedirectKeepsPairs`. A `#` ends the query inside the code,
  and issuer and state are lost with its rest: `Redirects.HashCutsCode`,
  `Redirects.HashedCodeIsCut`.
- The link of a mail to a page without a fragment carries its token iff the page
  has no query of its own; with one, the token becomes part of that query:
  `EmailRendering.LinkCarriesToken`.
- A rotation keeps the private key that is in the table when it writes iff that
  is still the one it listed; a step that stored other material under the same
  kid in between is overwritten, and what it stored is lost:
  `KeyEncryption.RotationBesideLifecycle`,
  `KeyEncryption.StoredBetweenIsOverwritten`.
- The relative and the absolute path check agree on what the relative one
  accepts iff the root has no `..` or the path has one:
  `PathBoundary.VerdictsAgree`. On what it refuses, the absolute check passes
  paths that leave the root and come back down by the same names:
  `PathBoundary.AbsoluteIffComesBack`, `PathBoundary.ReentryIsToldApart`.
- The bound of 2 * maxAttempts - 3 failures in an interval one window long is
  attained by every policy with a limit of two or more and a window of at least
  two ticks of the clock; a window of a single tick holds maxAttempts - 1, and a
  limit below two none: `RateLimit.SlidingWindowBound`,
  `RateLimit.SlidingWindowBoundIsTight`.
- Writing the words of a metadata key together, as in camel case, does not always
  keep its verdict. It becomes sensitive iff the words together are one of
  `password`, `secret`, `token`, `code`, `kek` and `signature` (`pass_word`), and
  stops being so iff a list or suffix test accepts the words apart and no test on
  the compact form does (`access_token`):
  `Redaction.WritingTogetherKeepsVerdict`, `Redaction.PassWordNeedsNoSeparator`,
  `Redaction.AccessTokenNeedsItsSeparator`.
- Two group slugs collide iff the texts before the cut agree on what the cut
  keeps: `ScimSlug.SameSlugIff`.

## Model

| member | source | states |
|---|---|---|
| `RateLimit.RateLimitStore.RecordRateLimitFailure` | crates/database/src/rate_limit.rs:24-92 | the whole new table: reset or extend by the window, count, block at the limit |
| `RateLimit.RateLimitStore.ClearRateLimitBucket` | crates/database/src/rate_limit.rs:94-100 | removes one bucket and nothing else |
| `RateLimit.BucketTellsHistory` | crates/database/src/rate_limit.rs:47-65 | after every run: a key has a bucket iff it failed; the bucket's start and purpose are those of the call that opened the window, its count is the number of failures from there on, and it is blocked, until blockFor after the latest failure, iff the count reached the limit |
| `RateLimit.AttemptsCountTheWindow` | crates/database/src/rate_limit.rs:47-61 | with a clock that does not go back, attempts equals the failures recorded at or after window_start |
| `RateLimit.BucketShape` | crates/database/src/rate_limit.rs:47-65 | updated_at lies within the window, attempts is positive, blocked_until is set iff attempts reached the limit |
| `RateLimit.BoundInvariant` | crates/database/src/rate_limit.rs:47-65 | the inductive form of the sliding bound: where the current window starts decides how many failures of the interval it can still hold |
| `RateLimit.SlidingWindowBound` | crates/database/src/rate_limit.rs:47-65 | for every policy and run, any interval one window long in which nothing came back blocked holds at most 2 * maxAttempts - 3 failures of the key; at most maxAttempts - 1 if the window is one tick, and none if the limit is below two |
| `RateLimit.SlidingWindowBoundIsTight` | crates/database/src/rate_limit.rs:47-65 | for every policy some run attains that bound |
| `AuditLog.AuditStore.InsertAuditEvent` | crates/database/src/audit.rs:10-33 | adds the row iff its id is new, and otherwise changes nothing |
| `AuditLog.AuditStore.ListAuditEventsPageFiltered` | crates/database/src/audit.rs:59-106 | returns the first rows of the descending listing of the matching rows behind the cursor |
| `AuditLog.AuditStore.DeleteAuditEventsBefore` | crates/database/src/audit.rs:151-182 | removes the purge batch, which `AuditLog.PurgeTakesDueRows` describes, and returns how many rows went |
| `AuditOrder.OrderBy` | crates/database/src/audit.rs:74-88 | the first-then-the-rest evaluation gives the listing of the rows in (created_at, id) order |
| `AuditOrder.ListingIsUnique` | crates/database/src/audit.rs:84-85 | there is one listing of given rows in that order, so ORDER BY is determined |
| `AuditLog.PageContents` | apps/api/src/http/admin_query/pagination.rs:108-130 | a page is in order and holds matching rows only, has the asked size and its last row's position as cursor if there is more, and misses no matching row above its cursor |
| `AuditLog.FollowDescends` | crates/database/src/audit.rs:74-88 | whatever the table becomes between requests, following the cursors returns a strictly descending list of wanted rows, each seen by some request |
| `AuditLog.WalkIsNewestFirst` | crates/database/src/audit.rs:84-85 | in every walk the later created_at comes first and, of one instant, the greater id |
| `AuditLog.FollowMissesNothing` | crates/database/src/audit.rs:74-88 | a wanted row that every request could see is returned once the walk has come to it |
| `AuditLog.WalkReturnsRetainedRows` | crates/database/src/audit.rs:59-106 | with arbitrary inserts and purges between the pages, no row is returned twice, and a finished walk has returned every matching row of the start that no purge reached |
| `AuditLog.PageIsFront` | apps/api/src/http/admin_audit.rs:64-68 | a page is the front of the sorted list and what is behind its cursor is exactly the rest |
| `AuditLog.PagesListTheTable` | crates/database/src/audit.rs:74-88 | on a fixed table the walk ends after exactly the ceiling of n / limit requests, and its pages in order are the whole sorted list, for every filter and limit |
| `AuditLog.PagesForIsCeiling` | apps/api/src/http/admin_query/pagination.rs:108-130 | that number of requests is the ceiling of rows / limit, and 1 for none |
| `AuditLog.PurgeTakesOldest` | crates/database/src/audit.rs:151-182 | one purge removes exactly the oldest expired rows of its organization up to the limit, and the count it returns is theirs |
| `AuditLog.PurgeTakesDueRows` | crates/database/src/audit.rs:160-175 | a purge takes only rows of the organization from before the cutoff, as many as there are up to the limit, and none newer than such a row that it leaves |
| `AuditLog.ShortPurgeIsComplete` | crates/database/src/audit.rs:160-182 | a purge that removed fewer rows than its limit leaves no row of the organization from before the cutoff |
| `AuditLog.EnoughPurges` | crates/database/src/audit.rs:151-182 | enough purges leave exactly the rows of other organizations and those from the cutoff on |
| `AuditLog.RepeatedPurge` | crates/database/src/audit.rs:151-182 | after k purges exactly the first k * limit expired rows are gone, every other row is there, and the rest are next in line |
| `AuditLog.PurgeCallCount` | crates/database/src/audit.rs:151-182 | the (k+1)-th purge removes something iff k * limit is below the number of expired rows, and then all that is left up to the limit |
| `AuthSessions.AuthSessionStore.InsertAuthSession` | crates/database/src/auth_sessions.rs:103-133 | stores the session iff the user exists and the id is new |
| `AuthSessions.AuthSessionStore.CreateAuthSessionWithNewContextNotification` | crates/database/src/auth_sessions.rs:38-101 | by columns: stores an open session, and queues the message iff one was given, there is an address or an agent, and no session of the user had the same of both; fails without a trace iff a constraint stands in the way |
| `AuthSessions.StepKeepsInv` | crates/database/src/auth_sessions.rs:50-95 | every statement of every transaction keeps: one lock holder past its lock, nobody about to announce what is announced, at most one message per context, each with its session |
| `AuthSessions.RunKeepsInv` | crates/database/src/auth_sessions.rs:38-101 | so does every interleaving |
| `AuthSessions.AtMostOneNotification` | crates/database/src/auth_sessions.rs:38-101 | in every interleaving a user who existed from the start is told of one context at most once, and only with a committed session of it |
| `AuthSessions.NotifiedOnceIfLocksFindUser` | crates/database/src/auth_sessions.rs:53-66 | in every run in which each lock statement of the user's logins finds the user row, whenever it appeared, the user is told of a context at most once and only with a session of it |
| `AuthSessions.AnnouncedExactlyOnce` | crates/database/src/auth_sessions.rs:38-101 | for a user there from the start and a context that was not, if all logins from it check it: in every interleaving a session of it is committed iff exactly one message for it is |
| `AuthSessions.StoredContextIsNotAnnounced` | crates/database/src/auth_sessions.rs:67-84 | a context that some session had at the start is announced in no interleaving |
| `AuthSessions.LateUserIsToldTwice` | crates/database/src/auth_sessions.rs:53-66 | a run with a user row created between two lock statements commits two messages |
| `AuthSessions.NotifiedOnceIffUserExists` | crates/database/src/auth_sessions.rs:53-66 | at-most-once holds in all interleavings iff the user row exists when they start |
| `AuthSessions.AloneIsCreated` | crates/database/src/auth_sessions.rs:38-101 | undisturbed, the statements of the machine go through iff no constraint stands in the way of the method, and have the effect that it states |
| `AccountTokens.AccountStore.ConsumeAccountToken` | crates/database/src/account_tokens.rs:39-59 | consumes iff unspent and not expired, and else changes nothing |
| `AccountTokens.AccountStore.ConsumeAccountTokenAndUpdateUser` | crates/database/src/account_tokens.rs:61-214 | by columns: true iff the token is unspent, in time, of the kind, for the user, and the user is active, of the organization and address and, for an invitation, without password; then the token is spent, the user verified or given exactly the password and verification asked for, the open sessions of the user revoked if asked, and nothing else changed; false leaves every table as it was |
| `AccountTokens.RunKeepsInv` | crates/database/src/account_tokens.rs:61-214 | every interleaving keeps the locks, the conditions that were tested, single use and single acceptance |
| `AccountTokens.TokensAreSingleUse` | crates/database/src/account_tokens.rs:61-214 | in every interleaving each token is consumed by at most one committed call, strictly before expiry, and each user accepts at most one invitation however many there are |
| `AccountTokens.CommitMeetsConditions` | crates/database/src/account_tokens.rs:92-118 | when a call commits, the account is still active, still has the token's address and, for an invitation, still no password, whatever was written since the first UPDATE |
| `AccountTokens.FailedCallLeavesNoTrace` | crates/database/src/account_tokens.rs:61-214 | a call that does not commit can be struck from any interleaving without changing the tables or what others achieved |
| `AccountTokens.AloneIsApplied` | crates/database/src/account_tokens.rs:61-214 | undisturbed, the statements of the machine go through iff those conditions on the columns hold, and have that effect on the columns |
| `AccountTokens.OnlyCommitHasEffect` | crates/database/src/account_tokens.rs:61-214 | in every interleaving a commit has exactly that effect on the tables it finds, and no other statement of a call touches them |
| `SigningKeys.SigningKeyStore.UpsertSigningKeyMaterial` | crates/database/src/signing_keys.rs:186-229 | the whole new table: others deactivated if the new key is active, then inserted or overwritten |
| `SigningKeys.UpsertWritesTheRow` | crates/database/src/signing_keys.rs:191-226 | by columns: the row has all eight of the material, an active one ends the signing of all others, and nothing else changes |
| `SigningKeys.SigningKeyStore.RetireSigningKey` | crates/database/src/signing_keys.rs:231-249 | true iff the key is there and unretired, and the table is that of the retire step |
| `SigningKeys.RetireDatesTheRow` | crates/database/src/signing_keys.rs:236-242 | a retire dates the row and ends its signing; its other columns and all other rows stay |
| `SigningKeys.RetireOfNoneIsNothing` | crates/database/src/signing_keys.rs:240 | a retire of a key that is retired or not there changes nothing |
| `SigningKeys.RetiredIsOut` | crates/database/src/signing_keys.rs:11-24 | a retired key keeps its date, is in no published list and never signs, in every later state until an upsert names it |
| `SigningKeys.SigningKeyStore.ActiveSigningKey` | crates/database/src/signing_keys.rs:80-99 | the latest row that is active, unretired and has its private part, or none iff there is none |
| `SigningKeys.SignerByColumns` | crates/database/src/signing_keys.rs:80-99 | the answer is the newest row that is active, unretired and has both parts of its secret, or none iff there is no such row |
| `SigningKeys.ListedNewestFirst` | crates/database/src/signing_keys.rs:11-24 | the published list is the unretired keys, each once, signing ones first and then the newer first |
| `SigningKeys.SigningKeyStore.EnsureStartupSigningKey` | apps/api/src/signing_key_operations.rs:12-41 | fails exactly in production without any key source, writes only when there is no signer, and leaves a signer if there is a key-encryption key |
| `SigningKeys.RunKeepsOneSigner` | crates/database/src/signing_keys.rs:186-249 | in every state that ensure, rotate and retire reach, at most one key is signing_active and it is not retired |
| `SigningKeys.UnretiredUntilNamed` | crates/database/src/signing_keys.rs:231-249 | a key stays unretired through every run in which no retire names it |
| `SigningKeys.RunKeepsOwnKids` | crates/database/src/signing_keys.rs:186-229 | every stored public key carries the kid of its row |
| `SigningKeys.SignerStaysPublished` | apps/api/src/http/public_metadata.rs:25-38 | a kid that active_signing_key ever returned is in every key set published later, under its own kid, until a retire names it |
| `SigningKeys.SignerIsPublishedFirst` | crates/database/src/signing_keys.rs:11-24 | while there is a signer it is published first; nothing is published only if no unretired key is stored and none is configured |
| `SigningKeys.RotateHandsOver` | apps/api/src/signing_key_operations.rs:74-91 | in every reachable state a rotation makes the new key the signer and the first published one, and every other stored key that was published still is |
| `Secrets.DecryptUndoesEncrypt` | crates/oidc/src/signing/encryption.rs:53-103 | a text decrypts to itself, through UTF-8, for every text, key, nonce and associated data |
| `Secrets.DecryptsIff` | crates/oidc/src/signing/encryption.rs:76-103 | a secret decrypts to a text iff its nonce has twelve bytes and the cipher opens it to the text in UTF-8 |
| `KeyEncryption.SecretStore.ApplyKeyEncryptionRotation` | crates/database/src/signing_keys.rs:142-184 | the whole new tables after both loops |
| `KeyEncryption.SecretStore.RotateListed` | apps/api/src/key_encryption_operations.rs:22-57 | succeeds iff every listed secret can be re-encrypted; otherwise writes nothing and reports the error of the first, keys first; counts as reported |
| `KeyEncryption.RotatesIffEverythingOpens` | apps/api/src/key_encryption_operations.rs:27-44 | that is so iff every listed key is RS256 and opens under the old key, and every listed token has its metadata and opens |
| `KeyEncryption.WhyKeyIsNotReencrypted` | crates/oidc/src/signing/keys.rs:82-144 | which error a key gives, by its algorithm, its nonce and what the cipher opens |
| `KeyEncryption.WhyTokenIsNotReencrypted` | apps/api/src/key_encryption_operations.rs:32-44 | which error a token gives, by its metadata and whether it decrypts |
| `KeyEncryption.MetadataByField` | apps/api/src/key_encryption_operations.rs:80-94 | a field counts iff it is a text that is not empty |
| `KeyEncryption.AadNamesItsSecret` | apps/api/src/key_encryption_operations.rs:96-98 | the associated data tell tokens of different kind or id, and signing keys of different kid, apart, and the ones from the others |
| `KeyEncryption.AppliedKeyRow` | crates/database/src/signing_keys.rs:149-164 | a written key gets its new secret and keeps all other columns |
| `KeyEncryption.AppliedTokenRow` | crates/database/src/signing_keys.rs:166-180 | the same for a message, whose update time is set |
| `KeyEncryption.NewKeyOpens` | crates/oidc/src/signing/keys.rs:82-148 | a re-encrypted private key opens under the new key to what it was under the old |
| `KeyEncryption.NewTokenOpens` | apps/api/src/key_encryption_operations.rs:32-49 | the same for a delivery token |
| `KeyEncryption.RotationKeepsKeys` | apps/api/src/key_encryption_operations.rs:22-57 | whatever became of the key table since listing: no row comes or goes, flags and dates stay, listed keys open under the new key to what was listed, unlisted rows are untouched |
| `KeyEncryption.RotationKeepsTokens` | apps/api/src/key_encryption_operations.rs:30-57 | the same for the outbox, message by message |
| `KeyEncryption.RotationBesideLifecycle` | crates/database/src/signing_keys.rs:142-249 | with ensure, rotate and retire steps in between, flags and dates are those the steps left, and a key keeps its secret iff the listed one is still its own |
| `KeyEncryption.StoredBetweenIsOverwritten` | crates/database/src/signing_keys.rs:142-229 | any other material stored under a listed kid in between opens before the rotation writes and is gone afterwards |
| `EmailRendering.RenderedText` | apps/api/src/email/rendering.rs:24-45 | every placeholder becomes the link and nothing else changes; without a placeholder neither key nor token is needed; the link's error is the rendering's |
| `EmailRendering.EveryBodyIsRendered` | apps/api/src/email/rendering.rs:24-45 | every body has such a division at its placeholders, so this covers every message |
| `EmailRendering.LinkCarriesToken` | apps/api/src/email/rendering.rs:80-92 | for every origin, path and token, the link's query reads back as exactly the token iff the page has no query of its own; behind a fragment nothing of the link is read |
| `EmailRendering.PageIgnoresSlashes` | apps/api/src/email/rendering.rs:86-91 | the slashes that end the origin do not matter |
| `EmailRendering.WhyThereIsNoLink` | apps/api/src/email/rendering.rs:47-84 | which error is reported, by what is missing in the message, in the order of the checks |
| `EmailRendering.QueuedTokenIsLinked` | apps/api/src/email/rendering.rs:47-92 | a token encrypted for a message is the one its link carries |
| `EmailRendering.RenderingDependsOnToken` | apps/api/src/email/rendering.rs:24-92 | two rows with the same message, whose tokens decrypt alike under their keys, render alike, errors included |
| `EmailRendering.RotationKeepsMail` | apps/api/src/email/rendering.rs:24-92 | after a rotation, with mail delivered in between, every message that was there renders under the new key to what it rendered to under the old, errors included |
| `Utf8.DecodeEncode` | apps/api/src/http/urlencoded.rs:32-60 | decoding the UTF-8 bytes of a text gives the text |
| `Utf8.EncodeDecode` | apps/api/src/http/urlencoded.rs:59-60 | only the UTF-8 encoding of a text decodes to it; overlong forms and surrogates are refused |
| `Utf8.KnownEncodings` | apps/api/src/http/urlencoded.rs:21 | one character of each length has the bytes of the standard |
| `UrlEncoded.DecodeComponent` | apps/api/src/http/urlencoded.rs:32-60 | the loop computes the recursive decoding, with its errors |
| `UrlEncoded.EncodingForm` | apps/api/src/http/urlencoded.rs:20-30 | unreserved characters and uppercase escapes only, at most three characters a byte |
| `UrlEncoded.UnreservedCharacters` | apps/api/src/http/urlencoded.rs:24 | the unreserved characters are the letters, the digits and the four marks of section 2.3 of RFC 3986 |
| `UrlEncoded.EscapeByCharacter` | apps/api/src/http/urlencoded.rs:20-30 | every other byte, and none of those, is written as an escape with two uppercase digits |
| `UrlEncoded.HexDigits` | apps/api/src/http/urlencoded.rs:62-69 | a hexadecimal digit in either case has its place as value, and nothing else has one |
| `UrlEncoded.EscapesInEitherCase` | apps/api/src/http/urlencoded.rs:42-52 | an escape decodes to its byte in whichever case each of its digits is |
| `UrlEncoded.DecodeUndoesEncode` | apps/api/src/http/urlencoded.rs:20-60 | decoding undoes encoding for every text |
| `UrlEncoded.EncodingIsNormalForm` | apps/api/src/http/urlencoded.rs:20-60 | two decodable inputs decode alike iff re-encoding their decodings gives the same text |
| `UrlEncoded.DecodesToItself` | apps/api/src/http/urlencoded.rs:32-69 | a text decodes to itself iff it has no percent and no plus sign |
| `UrlEncoded.ParseUndoesForm` | apps/api/src/http/urlencoded.rs:4-18 | parsing the form text of any list of pairs gives the list |
| `UrlEncoded.ParseJoined` | apps/api/src/http/urlencoded.rs:4-18 | two non-empty texts joined by an ampersand parse to the pairs of both, or fail if either does |
| `UrlEncoded.AbsentValueIsEmpty` | apps/api/src/http/urlencoded.rs:13-14 | a pair without an equals sign reads as its name with an empty value |
| `UrlEncoded.ParseOneName` | apps/api/src/http/urlencoded.rs:4-18 | a text without ampersand and equals sign is that one pair |
| `Redirects.AppendAuthorizationResponseParams` | crates/oidc/src/redirects.rs:3-19 | the client of the built redirect reads its own pairs and then `code`, `iss`, and `state` iff one was given, each with its value, if the URI and the code allow it |
| `Redirects.ResponseReads` | crates/oidc/src/redirects.rs:3-19 | the same of the text that the method builds |
| `Redirects.AppendAuthorizationErrorResponseParams` | crates/oidc/src/redirects.rs:21-45 | the client of the built redirect reads its own pairs and then `error`, `iss`, `error_description` iff one was given, and `state` iff one was given, each with its value, if the URI allows it |
| `Redirects.ErrorResponseReads` | crates/oidc/src/redirects.rs:21-45 | the same of the text that the method builds |
| `Redirects.Sanitized` | crates/oidc/src/oauth_types.rs:102-118 | keeps the length, keeps the characters that RFC 6749 allows in an error description, and puts a space for others |
| `Redirects.SanitizedByCharacter` | crates/oidc/src/oauth_types.rs:102-118 | the printable ASCII characters but quote and backslash stay, each other becomes a space |
| `Redirects.QueryAfterAppend` | crates/oidc/src/redirects.rs:3-63 | appending to a fragment-free URI extends its query, or gives it one |
| `Redirects.RedirectKeepsPairs` | crates/oidc/src/redirects.rs:3-63 | for every URI with a parseable query, the client reads its own pairs and then exactly the appended ones iff there is no fragment and the query was absent or not empty |
| `Redirects.ErrorRedirectKeepsPairs` | crates/oidc/src/redirects.rs:21-45 | under exactly that condition an error response arrives with every value, the description sanitised |
| `Redirects.LogoutRedirectKeepsPairs` | crates/oidc/src/redirects.rs:47-63 | under exactly that condition a logout redirect arrives with its state; without one it always does |
| `Redirects.LogoutReads` | crates/oidc/src/redirects.rs:47-63 | the client of a logout redirect reads its own pairs and then `state` iff one was given |
| `Redirects.HashCutsCode` | crates/oidc/src/redirects.rs:10-13 | with a `#` in the code the client reads its own pairs and the code up to there; its rest and all that follows are lost |
| `Redirects.HashedCodeIsCut` | crates/oidc/src/redirects.rs:10-13 | of the code `a#b` the client reads `a`, and neither issuer nor state |
| `Redirects.ResponseRedirectKeepsPairs` | crates/oidc/src/redirects.rs:3-19 | for every URI with a parseable query and every code, a success response arrives with code, issuer and state after the client's own pairs iff the URI has no fragment and no empty query and the code has no ampersand, percent, plus or hash sign |
| `EndSession.DuplicateEndSessionRequestParameter` | apps/api/src/http/end_session.rs:66-78 | the loop finds the first known parameter that is repeated |
| `EndSession.EndSessionRequestFromPairs` | apps/api/src/http/end_session.rs:36-64 | the loop computes the request from the last value of each known name, or the error |
| `EndSession.AcceptsIffAtMostOnce` | apps/api/src/http/end_session.rs:36-90 | accepted iff each known name occurs at most once, and then a field has a value iff that pair was given |
| `EndSession.FieldsByTheirNames` | apps/api/src/http/end_session.rs:50-60 | each field has a value iff the pair with its registered name and that value was given |
| `EndSession.OnlyKnownPairsMatter` | apps/api/src/http/end_session.rs:36-90 | the outcome depends only on the bag of pairs with known names |
| `EndSession.OrderDoesNotMatter` | apps/api/src/http/end_session.rs:36-64 | it is the same for every permutation of the pairs |
| `EndSession.UnknownParametersAreIgnored` | apps/api/src/http/end_session.rs:80-90 | and with unknown parameters inserted anywhere |
| `EndSession.RequestRoundTrip` | apps/api/src/http/end_session.rs:36-64 | a request written as a form is parsed and read back as it was |
| `Scanner.SkipQuoted` | infra/scripts/check-web-api-contract.ts:607-620 | ends just after the closing quote, past escapes, or at the end of the text |
| `Scanner.SkipTemplate` | infra/scripts/check-web-api-contract.ts:622-635 | the same for a template |
| `Scanner.SplitTopLevelArgs` | infra/scripts/check-web-api-contract.ts:495-543 | returns the trimmed pieces between top-level commas, without a blank last one |
| `Scanner.WhiteByCodePoint` | infra/scripts/check-web-api-contract.ts:530-540 | what is trimmed is the white space and line ends of ECMA-262, by code points |
| `Scanner.SplittingAndJoining` | infra/scripts/check-web-api-contract.ts:495-543 | splitting undoes joining exactly for lists whose pieces close what they open and whose last has no top-level comma, and joining undoes splitting for every text |
| `Scanner.SplitUndoesJoin` | infra/scripts/check-web-api-contract.ts:495-543 | any list of trimmed, self-closed arguments, with any white space around them, is returned, less a blank last one |
| `Scanner.NestedIsClosed` | infra/scripts/check-web-api-contract.ts:495-543 | text nested in brackets, strings and escapes closes what it opens, and its inner commas do not count |
| `Scanner.FindMatchingPair` | infra/scripts/check-web-api-contract.ts:553-579 | the loop computes the recursive search, from any index, or -1 |
| `Scanner.FindsTheMatch` | infra/scripts/check-web-api-contract.ts:553-579 | from an opening it finds a position iff a closing stands there and the text between is balanced |
| `Scanner.NestedIsBalanced` | infra/scripts/check-web-api-contract.ts:553-579 | nested text is balanced for each kind of bracket |
| `Scanner.GroupIsMatched` | infra/scripts/check-web-api-contract.ts:553-579 | a group is matched at its own closing through nested brackets, strings and escapes, whatever follows |
| `PathBoundary.RelativeEvidenceDirPathBoundary` | apps/mcp/src/main.rs:1024-1050 | outside iff some part of the path goes up more often than down or a root or prefix occurs; otherwise by whether there is a `..` |
| `PathBoundary.LexicalAbsolutePathKey` | apps/mcp/src/main.rs:1082-1105 | the stack of names after resolving every `..`, and whether there was one; none for relative paths |
| `PathBoundary.KeyOfPlainPath` | apps/mcp/src/main.rs:1082-1105 | without `..` the stack is exactly the names in the path |
| `PathBoundary.RootHasNoParent` | apps/mcp/src/main.rs:1096-1100 | `..` at the root stays there |
| `PathBoundary.BestAbsolute` | apps/mcp/src/main.rs:1006-1022 | one of the two verdicts, and no worse than either |
| `PathBoundary.KeyAfterClimb` | apps/mcp/src/main.rs:1082-1105 | the stack keeps what the path does not climb over, followed by what it leaves when started from nothing |
| `PathBoundary.ClimbIsExcess` | apps/mcp/src/main.rs:1024-1050 | how far the stack is climbed is the worst excess of `..` over names that the counter sees |
| `PathBoundary.AbsoluteIffComesBack` | apps/mcp/src/main.rs:1052-1074 | for every absolute root and every path, the absolute check passes their join iff after its highest climb the path comes back down the same names or, for an absolute path, iff it lies under the root |
| `PathBoundary.VerdictsAgree` | apps/mcp/src/main.rs:1024-1074 | on paths that the relative check accepts both give the same verdict iff the root has no `..` or the path has one |
| `PathBoundary.InsideIsInside` | apps/mcp/src/main.rs:1024-1074 | what the absolute check finds plainly inside, the relative one does |
| `PathBoundary.ReentryIsToldApart` | apps/mcp/src/main.rs:1024-1074 | a path that leaves the root and returns by its name is refused by one check and passed by the other |
| `PathBoundary.VerdictIsExact` | apps/mcp/src/main.rs:994-1022 | the verdict the server acts on: outside iff the request neither lies under one of the roots nor, if relative, stays below its start; otherwise by whether it has a `..` |
| `PathBoundary.PassesIffNamesBegin` | apps/mcp/src/main.rs:1052-1074 | without `..` an absolute request passes a root iff the names in the root begin those in the request |
| `PathBoundary.VerdictByNames` | apps/mcp/src/main.rs:994-1022 | so does the verdict, for either root |
| `PathBoundary.DetourChangesNothing` | apps/mcp/src/main.rs:994-1074 | going into a directory and back out anywhere in a request does not change whether it is inside |
| `PathBoundary.FormDecidesTheCheck` | apps/mcp/src/main.rs:994-1004 | which check decides, by the first component, and that anchors in a relative request are outside |
| `PathBoundary.SpelledOutStays` | apps/mcp/src/main.rs:994-1074 | a relative request that may stay still may when spelt out from the root, with the same verdict iff the root has no `..` or the request has one |
| `Words.WordsOfWeave` | crates/audit/src/redaction.rs:94-111 | the words of a text do not depend on case, nor on what separates and surrounds them |
| `Words.ByTheAlphabet` | crates/audit/src/redaction.rs:99-100 | lowercasing and the letters and digits, by the alphabet |
| `Words.CaseDoesNotMatter` | crates/audit/src/redaction.rs:94-111 | texts that differ in the case of any of their letters have the same words |
| `Words.CollapsedShape` | crates/audit/src/redaction.rs:94-107 | what the loop pushes is the words joined by single separators, with one at an end where the text has others |
| `Words.TrimmedIsNormalized` | crates/audit/src/redaction.rs:94-111 | trimming that leaves the joined words |
| `Words.NormalizedIffSameWords` | crates/audit/src/redaction.rs:94-111 | two texts normalise alike iff they have the same words, and normalising is idempotent |
| `Words.NormalIffNormalized` | crates/audit/src/redaction.rs:94-111 | a text is lowercase words joined by single separators iff normalising leaves it, and normalising always gives such a text |
| `Redaction.NormalizeMetadataKey` | crates/audit/src/redaction.rs:94-111 | the loop computes the normal form |
| `Redaction.SpellingDoesNotMatter` | crates/audit/src/redaction.rs:23-111 | keys that differ in case and in what separates or surrounds their words normalise alike and get the same verdict |
| `Redaction.CaseGetsTheSameVerdict` | crates/audit/src/redaction.rs:23-111 | keys that differ in the case of any of their letters normalise alike and get the same verdict |
| `Redaction.PasswordInAnyCase` | crates/audit/src/redaction.rs:23-111 | `Password` and `PASSWORD` are sensitive |
| `Redaction.CompactIsWords` | crates/audit/src/redaction.rs:25 | the compact form is the words one after the other |
| `Redaction.SuffixIsLastWords` | crates/audit/src/redaction.rs:84-88 | a suffix test, of however many words, looks at whole words: it holds iff they are the last words and not the only ones |
| `Redaction.VerdictByWords` | crates/audit/src/redaction.rs:23-92 | the verdict on every key, by its words alone |
| `Redaction.WritingTogetherKeepsVerdict` | crates/audit/src/redaction.rs:23-92 | for every list of words: written together they become sensitive iff there are several and they make one of six listed words, and stop being sensitive iff there are several, a list or suffix test accepts them apart, and no test on the compact form does |
| `Redaction.PassWordNeedsNoSeparator` | crates/audit/src/redaction.rs:27-60 | a key of the first kind |
| `Redaction.AccessTokenNeedsItsSeparator` | crates/audit/src/redaction.rs:27-83 | a key of the second kind, beside one that keeps its verdict |
| `Redaction.LastWordDecides` | crates/audit/src/redaction.rs:23-91 | a key whose last word is password, secret or token is sensitive |
| `Redaction.RedactedSameIffAgree` | crates/audit/src/redaction.rs:3-21 | two JSON values are redacted alike iff they are equal except under sensitive keys |
| `Redaction.RedactionIsIdempotent` | crates/audit/src/redaction.rs:3-21 | redacting again changes nothing |
| `Redaction.RedactionPlaceByPlace` | crates/audit/src/redaction.rs:3-21 | outside sensitive keys every leaf, key and length is kept at its place; at the first sensitive key there is the marker and nothing below it |
| `ScimSlug.CheckedString` | crates/domain/src/validation.rs:20-33 | what passes is not empty and fits in bytes |
| `ScimSlug.CheckedIff` | crates/domain/src/validation.rs:20-33 | what passes, what is returned and which error is given otherwise, for a value with any white space around it |
| `ScimSlug.WhitespaceByCodePoint` | crates/domain/src/validation.rs:25 | that white space, by code points |
| `ScimSlug.ScimGroupSlug` | apps/api/src/http/scim_input.rs:108-136 | never errors; the loops compute the slug |
| `ScimSlug.SlugForm` | apps/api/src/http/scim_input.rs:108-136 | for every identifier and name the slug is the prefix and at least one lowercase word, joined by single hyphens, within 80 characters |
| `ScimSlug.SlugIsFront` | apps/api/src/http/scim_input.rs:128-134 | only what does not fit is lost, and the hyphen that would end the cut |
| `ScimSlug.SameFullIffSameWords` | apps/api/src/http/scim_input.rs:113-127 | before the cut two texts are equal iff their words are, those of the identifier where the name has none |
| `ScimSlug.SameSlugIff` | apps/api/src/http/scim_input.rs:108-136 | for all identifiers and names, two slugs are equal iff: both fit and have the same words; both are cut and agree on 80 characters; or the 80 of the cut one are the other, with or without a hyphen behind |

## Left out

- RateLimit: 64-bit overflow of the attempt count, and microsecond truncation of stored instants; calls for one key are serialised, as the row lock does for an existing bucket.
- RateLimit: clearing a bucket within a run; it resets the history that the bound counts.
- AuditLog: the LIKE conditions of the filter, which are taken as an arbitrary predicate on rows, and the base64 text of a cursor.
- AuditLog: the other listings of the table, which are the same query with fewer conditions.
- AuthSessions: overwriting a stored session's request context, which changes the history that the notification property counts.
- AuthSessions: the shared lock that inserting a session takes on its user row; leaving it out allows more interleavings than there are.
- AccountTokens: the plain writes to users by other transactions are arbitrary except that none clears a password; no statement of the repository does.
- SigningKeys: generating keys, and the steps of one transaction, which is one step here.
- KeyEncryption: AES-GCM itself and a failure of encryption; two rotations of the key-encryption key at the same time.
- KeyEncryption: authentication failures and texts that are not UTF-8 are one error for delivery tokens, as both end the command.
- EmailRendering: sending, retries and the choice of provider.
- Redirects: clients that do not read the query as a form.
- Scanner: UTF-16 code units outside the basic plane, which are ordinary characters to the scanner; comments and regular expressions, which it does not know; the scan of template interpolations.
- PathBoundary: the Windows variant, links and canonicalisation; a path is any list of components, and a join keeps a leading `.` of the second path, which `std::path` drops and both checks ignore.
- Redaction: the lists of sensitive names are copied; no theorem says that they are the right ones.
- Redaction: the order of object fields is the map's own, and duplicate keys cannot occur.
- ScimSlug: the other fields of a SCIM request.
- HTTP handlers, configuration, command-line parsing, reports and the web application: no property here goes beyond one body.
- Password hashing, token signing, TOTP and WebAuthn: foreign algorithms.
