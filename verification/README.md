# Level 9 bot core: rate limiter, ambassador helpers, game hints, cron admission

This project is a Dafny model of the algorithmic core of the Level 9 Discord bot. It covers four parts:

- **Rate limiter registry** (`rate_limiter.dfy`, module `RateLimiting`). A `RateLimiter` is either `Global` or `Local`. It owns one shared token bucket (`globalInstance`) and a map of per-key buckets (`localInstances`) holding at most 512 entries. `AddConsumer` registers a key on a `Local` limiter and is refused on a `Global` one. `Consume` draws one token from the shared bucket when the key is falsy. Otherwise it draws from that key's bucket, and fails when the key has no bucket. An empty bucket, or a bucket that throws, becomes a `RateLimited` error. A bucket of the `limiter` package is modelled as a capacity and the tokens left in the current interval. A new bucket starts full.
- **Ambassador helpers** (`ambassador.dfy`, module `Ambassador`). This part has the status emoji, referral codes derived from a member's names, invite-URL parsing and the eligibility decision. The JavaScript string built-ins they use are in `js_strings.dfy`: the `\s` class, `split(/\s+/)`, `trim`, `replace` with a string pattern, and `encodeURIComponent`. The array combinators are in `sequences.dfy`.
- **Game hints** (`lfg.dfy`, module `Lfg`). The lookup normalises the game name, and a formatter wraps the hint. The value of `Math.random()` is a parameter.
- **Cron trigger admission** (`ambassadors_route.dfy`, module `AmbassadorsRoute`). This covers the ordered checks of the `/cron` POST handler and the `created_by` filter whose size is reported in `OK (n)`. The Discord client, the headers, the clock, the signature verdict and the database outcome are inputs.

Per-key buckets are created only by `addConsumer`. `consume` on an unknown key raises `LocalInstanceKeyNotFoundException` and does not create a bucket. The callers expect a different limiter. They construct one with `RateLimitType.Server` (src/events/chat-input-command.event.ts:10) or with a count and a `TimeUnitsInSeconds` value (src/commands/lfg.command.ts:18-21, src/commands/ambassador.command.ts:10,28-29). They also call `consume(interaction.user.id)` without `addConsumer` (src/commands/lfg.command.ts:51), which only works if buckets are created on first use. `src/utilities/rate-limiter.ts` defines neither that type nor that enum, and creates no bucket in `consume`; the model follows that file.

## Model

| member | source | states |
|---|---|---|
| `RateLimiting.NewBucket` | src/utilities/rate-limiter.ts:21-26 | a new limiter instance has the requested size and interval and starts full (`fireImmediately`) |
| `RateLimiting.RemoveToken` | src/utilities/rate-limiter.ts:62 | `removeTokens(1)` admits exactly when a token is left and then takes exactly one; a refusal changes nothing; it throws exactly when the bucket's size is 0 |
| `RateLimiting.AfterRemovalsRemaining` | src/utilities/rate-limiter.ts:21-26 | with no time passing, each removal takes one token until none is left |
| `RateLimiting.FreshBucketAdmitsCapacity` | src/utilities/rate-limiter.ts:21-26 | a fresh bucket of `tokens` tokens admits the first `tokens` requests of an interval and rejects every later one |
| `RateLimiting.RateLimitedMessageAsWritten` | src/utilities/rate-limiter.ts:76-85 | the exception text is always one of the two stock texts; with no message it is the pressure text exactly for `Global`; a supplied message selects the pressure text exactly when it is non-empty |
| `RateLimiting.CustomMessageReplaced` | src/utilities/rate-limiter.ts:79-81 | a custom message on a `Local` limiter comes out as the `Global` pressure text |
| `RateLimiting.RateLimitedMessage` | src/utilities/rate-limiter.ts:77-82 | intended text: the caller's message when given, otherwise the stock text for the type |
| `RateLimiting.RateLimitedMessagesAgree` | src/utilities/rate-limiter.ts:65-68 | without a message, which is how `consume` raises it, the written and the intended text agree |
| `RateLimiting.AdmissionOutcome` | src/utilities/rate-limiter.ts:60-69 | admission exactly when the bucket returns a count of at least 0; a negative count or a thrown error becomes `RateLimitedException(this.type)` with the stock text |
| `RateLimiting.RateLimiter.constructor` | src/utilities/rate-limiter.ts:28-39 | shared bucket sized `tokens` for `Global`, 1000 otherwise; interval defaults to `Second`; no per-key buckets |
| `RateLimiting.RateLimiter.AddConsumer` | src/utilities/rate-limiter.ts:41-53 | `Global`: fails with `NoConsumersOnGlobalLimiter` and changes nothing; existing key: no change and the bucket keeps its tokens; new key: a full bucket with the limiter's size and interval, other entries kept except one evicted when 512 are present; the cache never exceeds 512 |
| `RateLimiting.RateLimiter.Consume` | src/utilities/rate-limiter.ts:55-73 | a falsy key draws only on the shared bucket; a non-empty key draws only on its own bucket and every other bucket is unchanged; an unknown key fails with `LocalInstanceKeyNotFound` and changes nothing; on a `Global` limiter every non-empty key fails so; admitted exactly when the drawn bucket had a token |
| `Sequences.Filter` | src/utilities/ambassador.ts:82-84 | `filter` keeps exactly the elements that pass, and never adds any |
| `Sequences.FilterConcat` | src/utilities/ambassador.ts:82-84 | filtering preserves the relative order of the kept elements |
| `Sequences.Map` | src/utilities/ambassador.ts:25 | `map` keeps the length and applies the function at every position |
| `Sequences.Join` | src/utilities/ambassador.ts:27 | `join(sep)`: empty for no parts; starts with the first part; its length is the parts' total length plus one separator between each two neighbours; with an empty separator it is the plain concatenation |
| `Sequences.JoinLast` | src/utilities/ambassador.ts:27 | joining from the back: the join of all but the last part, one separator, then the last part |
| `Sequences.JoinCons` | src/utilities/ambassador.ts:27 | a part put in front of a non-empty list is followed by exactly one separator |
| `JsStrings.SplitOnWhitespace` | src/utilities/ambassador.ts:24 | `split(/\s+/)` yields at least one piece and no piece contains whitespace |
| `JsStrings.SplitAtRun` | src/utilities/ambassador.ts:24 | where the pieces break: a whitespace-free word followed by a whitespace run is a piece of its own, and splitting resumes after the run |
| `JsStrings.SplitWithoutWhitespace` | src/utilities/ambassador.ts:24 | a string without whitespace splits into itself alone |
| `JsStrings.SplitFlattens` | src/utilities/ambassador.ts:24 | the pieces put back together are the input minus its whitespace |
| `JsStrings.TrimStart` | src/utilities/lfg.ts:8 | `trim` removes a leading whitespace run and leaves a suffix that does not start with whitespace |
| `JsStrings.TrimEnd` | src/utilities/lfg.ts:8 | `trim` removes a trailing whitespace run and leaves a prefix that does not end with whitespace |
| `JsStrings.Trim` | src/utilities/lfg.ts:8 | `trim` returns a slice of the input with only whitespace before and after it, which neither starts nor ends with whitespace |
| `JsStrings.TrimIgnoresPadding` | src/utilities/lfg.ts:8 | whitespace padding on either side does not change the trimmed string |
| `JsStrings.TrimLower` | src/utilities/lfg.ts:8 | trimming and lower-casing commute |
| `JsStrings.LowerConcat` | src/utilities/ambassador.ts:28 | lower-casing distributes over concatenation |
| `JsStrings.Lower` | src/utilities/ambassador.ts:28 | `toLowerCase` maps `A`-`Z` to `a`-`z` position by position |
| `JsStrings.IndexOf` | src/utilities/ambassador.ts:34-35 | the first occurrence of the pattern at or after the start, or -1 when there is none |
| `JsStrings.ReplaceFirst` | src/utilities/ambassador.ts:34-35 | `replace` with a string pattern rewrites only the first occurrence and returns the input when the pattern is absent |
| `JsStrings.EncodeUriComponent` | src/utilities/ambassador.ts:22 | `encodeURIComponent` never shortens its input |
| `JsStrings.EncodeIdentity` | src/utilities/ambassador.ts:22 | `encodeURIComponent` returns its input exactly when every character is unreserved |
| `Ambassador.ToStatusEmoji` | src/utilities/ambassador.ts:17-19 | `true` gives U+2705, `false` gives U+26A0 U+FE0F |
| `Ambassador.StatusEmojiInjective` | src/utilities/ambassador.ts:17-19 | met and unmet conditions are always shown differently |
| `Ambassador.StripPart` | src/utilities/ambassador.ts:25 | `replaceAll(/[^a-z0-9_-]+/gi, '')` leaves only `[A-Za-z0-9_-]`, keeps every such character of the piece, and never lengthens it |
| `Ambassador.CodeSegments` | src/utilities/ambassador.ts:24-26 | the cleaned pieces contain only `[A-Za-z0-9_-]` and none is empty |
| `Ambassador.ToReferralCode` | src/utilities/ambassador.ts:21-30 | only lower-case ASCII letters, digits, `_` and `-`; equals the cleaned non-empty pieces joined by `-` and lower-cased, so `encodeURIComponent` changes nothing |
| `Ambassador.CodeSplitsAtRun` | src/utilities/ambassador.ts:23-28 | a word that keeps a character, a whitespace run and a rest whose code is non-empty give the word's code, `-`, and the rest's code |
| `Ambassador.SegmentsAtRun` | src/utilities/ambassador.ts:23-26 | the cleaned pieces of a word, a whitespace run and a rest are the word's piece followed by the rest's pieces |
| `Ambassador.WordCode` | src/utilities/ambassador.ts:23-28 | a whitespace-free input yields its kept characters lower-cased, as one segment or none |
| `Ambassador.TwoWords` | src/utilities/ambassador.ts:23-28 | two words of letters, digits and underscores separated by a space give both lower-cased, joined by `-` |
| `Ambassador.FirstAndLastName` | src/utilities/ambassador.ts:23-28 | `"Jane Doe"` gives `jane-doe` |
| `Ambassador.ReferralCodeIsFixed` | src/utilities/ambassador.ts:21-30 | a well-formed referral code maps to itself |
| `Ambassador.ToReferralCodeIdempotent` | src/utilities/ambassador.ts:21-30 | deriving a code twice equals deriving it once |
| `Ambassador.ReferralCodeKeepsWordChars` | src/utilities/ambassador.ts:23-28 | without its hyphens, the code is the input's letters, digits and underscores, lower-cased, in their original order |
| `Ambassador.ParseInviteUrl` | src/utilities/ambassador.ts:32-36 | a URL containing neither invite prefix comes back unchanged, and the result is never longer than the input |
| `Ambassador.ParseShortInvite` | src/utilities/ambassador.ts:32-36 | `https://discord.gg/` + c gives c whenever c does not contain the long prefix |
| `Ambassador.ParseLongInvite` | src/utilities/ambassador.ts:32-36 | `https://discord.com/invite/` + c gives c whenever c does not contain the short prefix |
| `Ambassador.ShortPrefixNotInLongUrl` | src/utilities/ambassador.ts:34 | the short prefix cannot occur in a long-prefix URL unless it occurs in the code itself |
| `Ambassador.ExtractReferralCodes` | src/utilities/ambassador.ts:38-51 | codes of display name (only when it differs from the username), username and tag, in that order; every one well-formed |
| `Ambassador.AvailableCodes` | src/utilities/ambassador.ts:82-84 | exactly the potential codes that are not unavailable |
| `Ambassador.AvailableCodesConcat` | src/utilities/ambassador.ts:82-84 | the available codes keep their original order |
| `Ambassador.AvailableCodesAllFree` | src/utilities/ambassador.ts:82-84 | when no code is taken, all potential codes are available |
| `Ambassador.ComputeEligibilityStatus` | src/utilities/ambassador.ts:53-101 | each flag holds exactly when its condition does; a missing join date counts as 0 days; eligible exactly when account age, membership age and at least one available code all hold |
| `Lfg.GameHints` | src/utilities/lfg.ts:2-6 | the table has an entry exactly for `rust`, a non-empty list holding only the `rust` hint |
| `Lfg.NormalizeGame` | src/utilities/lfg.ts:8 | the lookup key is never longer than the name, has no leading or trailing whitespace, and no upper-case ASCII letter |
| `Lfg.GetRandomGameHintFor` | src/utilities/lfg.ts:1-12 | a hint exactly when the trimmed, lower-cased name is `rust`, and then it is the one `rust` hint |
| `Lfg.IndexInRange` | src/utilities/lfg.ts:10 | `floor(random * n)` is a valid index for every `random` in [0, 1) |
| `Lfg.GameHintDeterministic` | src/utilities/lfg.ts:9-11 | the random draw never changes the result |
| `Lfg.GameHintNormalised` | src/utilities/lfg.ts:8 | surrounding whitespace and letter case do not change the hint |
| `Lfg.NormalizesToRust` | src/utilities/lfg.ts:8 | both `" RUST "` and `"rust"` normalise to `rust` |
| `Lfg.PaddedUpperCaseRust` | src/utilities/lfg.ts:8 | `" RUST "` and `"rust"` yield the same hint, the `rust` one |
| `Lfg.FormatHint` | src/utilities/lfg.ts:14-16 | the result is `_**Hint:** `, then the hint, then `_` |
| `Lfg.FormatHintInjective` | src/utilities/lfg.ts:14-16 | the hint can be read back, so different hints are formatted differently |
| `AmbassadorsRoute.SignatureStep` | src/http/routes/ambassadors.ts:33-37 | an absent header makes verification throw; with both headers present the verifier's own verdict is the result |
| `AmbassadorsRoute.IsFresh` | src/http/routes/ambassadors.ts:44-52 | the timestamp passes exactly when it is NaN or within `now` ± 30000 ms, bounds included |
| `AmbassadorsRoute.FirstFailure` | src/http/routes/ambassadors.ts:16-52 | passes exactly when every check passes; otherwise it gives the answer of the first failing check |
| `AmbassadorsRoute.CheckOrder` | src/http/routes/ambassadors.ts:16-52 | both admission functions are the first failure among client, headers, signature and freshness, in that order |
| `AmbassadorsRoute.AdmitAsWritten` | src/http/routes/ambassadors.ts:16-52 | as written: 502 without a client; 400 only when both headers are missing; a throw exactly when the client is present, some header is truthy and verification throws, which includes any absent header; admitted exactly when both headers are present, at least one truthy, the signature verifies and the timestamp is fresh |
| `AmbassadorsRoute.OneHeaderMissingRaises` | src/http/routes/ambassadors.ts:24-37 | as written, a request with exactly one header passes line 24 and then throws; the corrected check answers 400 |
| `AmbassadorsRoute.AdmitCorrected` | src/http/routes/ambassadors.ts:16-52 | 502 without a client; 400 when either header is missing; a throw only when the verifier throws; admitted exactly when client, both headers, a verified signature and a fresh timestamp are all present |
| `AmbassadorsRoute.AdmissionsAgree` | src/http/routes/ambassadors.ts:24-27 | the correction changes nothing for requests with both headers or with neither |
| `AmbassadorsRoute.InactiveReferrals` | src/http/routes/ambassadors.ts:57-66 | exactly the rows with a truthy `created_by`, never more rows than the query returned, and none when the query returned nothing |
| `AmbassadorsRoute.HandleCron` | src/http/routes/ambassadors.ts:16-110 | on the corrected header check (either header missing gives 400): a rejected request gets its check's answer; an admitted one gets 502 when processing throws and otherwise 200 `OK (n)` with n the number of owned inactive referrals; a 200 implies a fresh timestamp |

## Left out

- Time-based refill, interval lengths and waiting belong to the `limiter` package. `Interval` is carried but never interpreted, and no refill timing is claimed.
- RateLimiting.RateLimiter.AddConsumer: on a full cache the evicted entry is some other key, not necessarily the least recently used one. The recency order kept by `lru-cache` is not modelled, including the refresh on `get` in `consume`.
- The limiter's buckets are values in the model's map. In the source they are `Limiter` objects held by reference. No bucket is shared between keys, so only the object identity is lost.
- `consume` is `async`. It is modelled as one sequential step, as the single-threaded event loop runs it.
- Token counts are natural numbers. Fractional or negative `tokens` are not modelled. The generic type parameter `R` of `RateLimiter` is dropped.
- Signature cryptography (`tweetnacl`) is the input `SignatureCheck`. A malformed secret key in configuration, which would make `keyPair.fromSecretKey` throw, is not modelled.
- `Number(...)` of the timestamp header is the input `timestampValue`. Fractional timestamps are not modelled. `Date.now()` is the input `now`; the source reads the clock twice (lines 46 and 48) and the model takes both reads as equal, which only matters at the edges of the window.
- The Discord and Prisma work of the cron handler (lines 54-110) is the input `Processing`. This covers the member fetch, role removal, invite deletion, `deleteMany` and logging. Only its outcome and the `created_by` filter are modelled.
- `date-fns` is replaced by the day counts it would compute (`differenceInDays`). The embed builders (ambassador.ts lines 103-322) are Discord formatting and are not part of this model.
- `toLowerCase` is modelled on ASCII letters only. A referral code contains only ASCII by the time it is lower-cased, so nothing is lost there. For the game lookup, no non-ASCII character lower-cases to `r`, `u`, `s` or `t`, so the lookup result is the same. `NormalizeGame` itself differs from `toLowerCase` on other non-ASCII names.
- JavaScript strings are UTF-16 and may hold lone surrogates, on which `encodeURIComponent` throws. The model's characters are Unicode scalar values. `toReferralCode(undefined)`, which yields `"undefined"`, is not modelled; callers pass strings.
- A `null` guild member (`interaction.member`) is not modelled: the display name and join date are plain inputs.
- Prototype keys such as `constructor` give no hint in the source either. The model's table holds only `rust`.
- The HTTP rate-limit middleware, the command and event handlers, the scripts and the configuration are glue around these functions. They are not part of this model.

## Findings

| source | as written | input that shows it | evidently intended | confidence | as-written member | corrected member |
|---|---|---|---|---|---|---|
| src/utilities/rate-limiter.ts:79-81 | `message ?? type === Global ? A : B` groups as `(message ?? type === Global) ? A : B` | `RateLimitedException(Local, 'custom')` gets the `Global` "too much pressure" text | `message ?? (type === Global ? A : B)` | high (latent: no caller passes a message), not executed | `RateLimiting.CustomMessageReplaced` | `RateLimiting.RateLimitedMessage` |
| src/http/routes/ambassadors.ts:24 | rejects only when both headers are missing (`&&`) | a request with a Discord client and `x-level9-timestamp` but no `x-level9-signature`: `Buffer.from(undefined)` throws at line 35 and no reply is sent | reject when either header is missing (OR instead of AND), answering 400 | high, not executed | `AmbassadorsRoute.OneHeaderMissingRaises` | `AmbassadorsRoute.AdmitCorrected` |

`AmbassadorsRoute.AdmitAsWritten` and `RateLimiting.RateLimitedMessageAsWritten` are the code as written. `HandleCron` uses the corrected admission. `Consume` raises with the intended message, which equals the written one because `consume` passes no message.
