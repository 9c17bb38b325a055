# ClusterGate, verified

ClusterGate is an API gateway: it matches requests to routes, checks keys, limits, lockouts and
allowlists, picks an upstream, rewrites the request, logs the stream that comes back and shows it
again in a viewer. This project models the parts of it that are algorithms and protocols and proves
what they are for, in Dafny. One module stands for one source file or one component of it.

**Conventions.** A database call is one atomic read or update of an abstract store; everything
between two such calls is one uninterrupted step. Runs are arbitrary interleavings of these steps
(`ApiKeyCache`, `KeyUsage`, `TwoFactorOverlap`, the second half of `CircuitBreaker`) or, where a row
says so, of whole calls. The clock, random draws, store faults, TOTP and bcrypt verdicts, the verdict on a content
type and the lower-casing of header names are parameters. Times never decrease. Loops and objects of
the source are methods and classes; each is proved against a function on values, and the theorems are
lemmas about that function. A JSON body that is written in place is a heap of objects.

**How the modules depend on each other.** `Text` (searching and splitting strings), `Seqs`,
`Division`, `StableSort`, `Options` and `LostUpdates` (counters that several calls read and write back) are
shared. `Doubles` is the rounding of section 4.3.1 of IEEE 754. `Utf8` is RFC 3629, `JsonText` is the concrete syntax of
RFC 8259, `UriPath` is `decodeURIComponent` and section 5.2.4 of RFC 3986; they are the independent
definitions that `StreamLog`, `FrameScanner`, `FieldLines` and `PathAllowlist` are measured against.

**Where the code does not keep a promise for every input**, the model follows the code, shows an
input, and proves the exact condition:

- The route that comes first is not always the longest match (`proxyHandler.ts` says it is): a
  wildcard hides routes below its base whose next segment starts below `*`, and the plain route that
  is its base with a trailing slash. `RouteMatch.ShadowingHappens`, `RouteMatch.TrailingSlashIsShadowed`,
  and for all routes under `/r/`, doubled slashes included, `RouteMatch.FirstIsLongestIff`.
- The sub-path that the allowlist judges differs from the one forwarded below a route mounted at
  exactly `/r/`: `PathAllowlist.RootMountDiffers`, `PathAllowlist.JudgedIsForwardedIff`.
- The hourly purge of rate-limit counters changes answers for windows longer than 3,600,001 ms:
  `RateLimit.CleanupHarmsLongWindows`, `RateLimit.CleanupHarmlessIff`. The route form caps the windows
  of routes at 3,600,000 ms; `RATE_LIMIT_WINDOW_MS` (`config/index.ts` line 37), which the login and
  global limiters use, has no cap, so a longer window set there is affected.
- A revoked key does not stop on all pods within the poll interval (the comment in `apiKeyService.ts`
  says it does): `ApiKeyCache.PollsCanMissARevocation` has it accepted 29,999 ms after the write, with
  polls every ten seconds. `ApiKeyCache.WithdrawalIsFinalIff` says exactly when a withdrawal is final on
  a replica, `ApiKeyCache.PollIsFinalIff` exactly when a poll makes it so, and 30 seconds bound it always.
- HALF_OPEN does not let one request through but every one: `CircuitBreaker.TwoPassInHalfOpen`,
  `CircuitBreaker.HalfOpenAdmitsOneIff`. With calls overlapping, an opening need not last its timeout:
  `CircuitBreaker.OverlappingSuccessCloses`, `CircuitBreaker.OpeningLastsIff`. Overlapping failures count as
  one, `CircuitBreaker.FailureIsLost`; how many can come before the breaker opens is
  `CircuitBreaker.FailuresBeforeAnOpening`.
- A login challenge is single-use when verifications do not overlap. Two logins side by side both pass,
  `TwoFactorOverlap.OverlappingLoginsBothPass`; `TwoFactorOverlap.NonceIsSpentIff` says exactly when a
  nonce can open no further session. Overlap also loses failures and brings back spent codes
  (`TwoFactorOverlap.FailureIsLost`, `TwoFactorOverlap.CodeComesBack`); what then holds is
  `TwoFactorOverlap.OverlapRateIsBounded`, `TwoFactorOverlap.CodeIsSpentIff` and
  `TwoFactorOverlap.RecoveryLoginsAreBounded`.
- A name that holds the archive ending of its own route is cut on restore:
  `RouteArchive.EditedPathIsCut`, `RouteArchive.ComesBackIff`. For ids that are not cuids the tag may
  also overlap the end of the name: `RouteArchive.OverlapLosesTheEnd`,
  `RouteArchive.UnmangleUndoesMangleIff`.
- A body that was not cut and itself holds the truncation separator loses its end in the viewer:
  `StreamLog.UncutBodyLosesItsEnd`, `StreamLog.SplitOfUncutBody`. A framed stream never holds it:
  `StreamLog.WholeStreamComesBack`.
- A framed stream can be taken for SSE and then not shown: `FieldLines.SeparatorTakesSseBranch`,
  `FieldLines.TakenForSseIff`, and cut anywhere `FieldLines.CutTakenForSseIff`.
- The CIDR test knows no IPv6, and in double arithmetic its mask is empty for lengths of 86 and more: an
  entry such as `::1/128` or `2001:db8::/96` opens the route to every client. The input is
  `IpAllowlist.OneHostAdmitsAll`, the family `IpAllowlist.LongerBlockAdmitsAll`, and what the test does on any
  two texts and for every length is `IpAllowlist.InCidrIff`.

## Model

| member | source | states |
|---|---|---|
| Levenshtein.Distance | frontend/src/app/not-found.tsx:14-31 | for all sequences, the result is the least number of inserts, deletes and substitutions that turn one into the other: some script attains it, none is shorter |
| Levenshtein.FillRows | frontend/src/app/not-found.tsx:18-30 | the single row, overwritten in place with `prev` as the diagonal, ends in the bottom-right cell of the full table |
| Levenshtein.Neighbours | frontend/src/app/not-found.tsx:24-26 | neighbouring cells differ by at most one and the diagonal never falls, which is why a match needs no minimum |
| Levenshtein.NoShorterScript | frontend/src/app/not-found.tsx:24-26 | no edit script is shorter than the cell, although matches are taken without a minimum |
| Levenshtein.ShortestScript | frontend/src/app/not-found.tsx:24-26 | some edit script is exactly as long as the cell |
| Levenshtein.CellIsEditDistance | frontend/src/app/not-found.tsx:18-30 | the recurrence computes the edit distance defined by scripts |
| Levenshtein.ZeroIffEqual | frontend/src/app/not-found.tsx:14-31 | the distance is zero exactly for equal sequences |
| Levenshtein.Symmetric | frontend/src/app/not-found.tsx:14-31 | the distance is symmetric |
| Levenshtein.Triangle | frontend/src/app/not-found.tsx:14-31 | the triangle inequality, by composing scripts |
| Levenshtein.LengthBounds | frontend/src/app/not-found.tsx:14-31 | the distance lies between the length difference and the longer length |
| FrameScanner.ScanObjects | frontend/src/lib/streamText.ts:61-92 | the index-and-flag loop returns the objects, open rest and stray flag of the character automaton |
| FrameScanner.ScanUndoesPrinting | frontend/src/lib/streamText.ts:61-92 | printing any list of JSON objects (any RFC 8259 text, escapes and braces in strings included), glued with any whitespace or none, and scanning it gives back exactly those texts, no rest, nothing stray |
| FrameScanner.CutContinues | frontend/src/lib/streamText.ts:61-92 | for every string and every cut, the objects of the prefix are the first objects of the whole, a stray stays stray, and the open frame is the start of the frame that follows |
| FrameScanner.NothingIsLost | frontend/src/lib/streamText.ts:61-92 | when nothing is stray, whitespace gaps, frames and the rest concatenate to the input |
| FrameScanner.FramesAreComplete | frontend/src/lib/streamText.ts:59-92 | for every input each frame found is one complete top-level object: scanned alone it gives itself and nothing else |
| FrameScanner.CutFramedStream | frontend/src/lib/streamText.ts:61-92 | a framed stream cut anywhere yields its first frames and, as rest, a proper beginning of the next one |
| FrameScanner.AssembleFrames | frontend/src/lib/streamText.ts:118-130 | the assembled text is the text of each frame in turn and of the cut one, and empty when nothing was framed or something was stray |
| FrameScanner.TextsFollow | frontend/src/lib/streamText.ts:121-129 | the texts of two lists of frames follow each other, and that of one frame is its own |
| FrameScanner.UnframedReadsAsNothing | frontend/src/lib/streamText.ts:120 | a body with nothing framed or anything stray reads as nothing |
| FrameScanner.AssembledCut | frontend/src/lib/streamText.ts:118-130 | on a cut framed stream that text is the text of the first frames sent, in order, then what the cut frame yields |
| Utf8.EncodeDecode | backend/src/lib/streamCapture.ts:185-195 | re-encoding the decoded form of well-formed bytes gives the bytes back |
| Utf8.DecodeEncode | backend/src/lib/streamCapture.ts:128-132 | the bytes of a text are well-formed and decode to it |
| Utf8.DecodeCut | backend/src/lib/streamCapture.ts:185-192 | a cut stream decodes to the text up to the last character boundary, then one U+FFFD exactly when a character was cut |
| Utf8.BadIsLongestStart | backend/src/lib/streamCapture.ts:185-192 | in malformed bytes one U+FFFD stands for the longest start of a character there is, or for one byte |
| Utf8.UnitsBound | backend/src/lib/streamCapture.ts:187-190 | no bytes decode to more UTF-16 code units than there are bytes, so the length cut is dead for unencoded streams |
| Utf8.UnitsAdd | backend/src/lib/streamCapture.ts:187-190 | code units of two texts add up; a character above U+FFFF has two |
| StreamLog.StreamCapture.constructor | backend/src/lib/streamCapture.ts:119-125 | an empty capture with its budget |
| StreamLog.StreamCapture.Push | backend/src/lib/streamCapture.ts:127-137 | whatever the chunking, the chunks kept are the first min(total, budget) bytes of everything pushed, and once the budget is spent chunks are only counted |
| StreamLog.StreamCapture.Finish | backend/src/lib/streamCapture.ts:153-201 | empty, binary, whole and truncated outcomes, each with its exact body, flags and byte total |
| StreamLog.Sniff | backend/src/lib/streamCapture.ts:57-65 | text exactly when none of the first 1024 bytes is a control byte other than 0x09 to 0x0d |
| StreamLog.PrintableIsText | backend/src/lib/streamCapture.ts:57-65 | a body with a text content type, or without one and with printable first bytes, is text, wherever its log is cut |
| StreamLog.BinaryIff | backend/src/lib/streamCapture.ts:49-65 | a content type decides; without one, a body is binary exactly when a control byte is among its first 1024 |
| StreamLog.PlaceholderTells | backend/src/lib/streamCapture.ts:175-183 | the placeholder of a binary body tells its bytes, how it ended and its type |
| StreamLog.CompleteNoteReadsBack | backend/src/lib/streamCapture.ts:195-198 | the numbers in the note of a complete stream read back as the bytes shown and all bytes |
| StreamLog.OpenNoteReadsBack | backend/src/lib/streamCapture.ts:195-198 | the note of any other stream reads back as the bytes shown and how it ended |
| StreamLog.StripTakesReplacements | backend/src/lib/streamCapture.ts:192 | at a cut the replacement characters at the end go, all of them and nothing else |
| StreamLog.KeptTextIsTruePrefix | backend/src/lib/streamCapture.ts:185-198 | for well-formed UTF-8 cut anywhere, the text before the note is a prefix of the full text; its bytes are the first bytes of the stream, as many as the note says and within the budget |
| StreamLog.KeptTextReachesBoundary | backend/src/lib/streamCapture.ts:185-192 | it reaches to the last character boundary within the budget, unless the stream itself has replacement characters there |
| StreamLog.ShortStreamIsKeptWhole | backend/src/lib/streamCapture.ts:185-200 | a complete stream within the budget is logged whole |
| StreamLog.SplitRecoversText | frontend/src/lib/streamText.ts:39-44 | splitting a noted body gives back exactly the logged text, whatever it holds |
| StreamLog.SplitOfUncutBody | frontend/src/lib/streamText.ts:39-44 | a body without a note comes back unchanged exactly when it does not hold the separator |
| StreamLog.UncutBodyLosesItsEnd | frontend/src/lib/streamText.ts:39-44 | a complete body of `a` and the separator is logged whole and shown as `a` |
| StreamLog.LoggedFramesAreFirstFramesSent | frontend/src/lib/streamText.ts:39-92 | capture, note, split and scan together: the frames found are the first frames sent, the rest is the start of the next |
| StreamLog.WholeStreamComesBack | frontend/src/lib/streamText.ts:39-92 | a complete framed stream within the budget never holds the separator, so splitting and scanning give every frame sent and nothing else |
| FieldLines.TakenForSseIff | frontend/src/lib/streamText.ts:101-102 | a framed stream is taken for SSE exactly when some string in it, name or value, holds U+2028 or U+2029 directly before a field name and colon |
| FieldLines.FieldLineIsTaken | frontend/src/lib/streamText.ts:101-102 | a body with a field name and colon at its start or behind a line end is taken for SSE |
| FieldLines.TakenHasFieldLine | frontend/src/lib/streamText.ts:101-102 | and no other body is |
| FieldLines.CutTakenForSseIff | frontend/src/lib/streamText.ts:101-102 | cut anywhere, it is taken for SSE exactly when what is left holds U+2028 or U+2029 directly before a field name and colon |
| FieldLines.SeparatorTakesSseBranch | frontend/src/lib/streamText.ts:101-102 | an object whose one string is U+2028 and `data:` is a framed stream and is taken for SSE |
| StreamLog.ViewerShowsWholeStream | frontend/src/lib/streamText.ts:98-130 | of a complete framed stream the viewer shows the text of every frame, in order, unless it is taken for SSE, exactly as above |
| StreamLog.ViewerShowsLoggedFrames | frontend/src/lib/streamText.ts:98-130 | of a framed stream cut in any way it shows the text of the first frames sent and then what the cut frame yields, unless what was logged is taken for SSE, exactly as above |
| ApiKeyCache.Validator.constructor | backend/src/services/apiKeyService.ts:12-57 | empty cache, no epoch seen |
| ApiKeyCache.Validator.FromCache | backend/src/services/apiKeyService.ts:264-271 | a hit is an unexpired entry of this route and hash, with its id and scope |
| ApiKeyCache.Validator.Remember | backend/src/services/apiKeyService.ts:288-289 | caches for the TTL or until the key expires, whichever is sooner, and not at all if that is over |
| ApiKeyCache.Validator.InvalidateCache | backend/src/services/apiKeyService.ts:40-42 | empties the cache |
| ApiKeyCache.Validator.SeeEpoch | backend/src/services/apiKeyService.ts:67-74 | with an epoch seen before, a different one empties the cache and the same one leaves it; the first one seen empties nothing; the epoch is remembered |
| ApiKeyCache.RememberedUntil | backend/src/services/apiKeyService.ts:264-290 | what is remembered is hit for 30 seconds or until the key expires, whichever is sooner; an expired key is not remembered, no other entry changes |
| ApiKeyCache.VerifyHitsOrAsks | backend/src/services/apiKeyService.ts:267-275 | a verification either hits the cache or asks the database |
| ApiKeyCache.CreationGrants | backend/src/services/apiKeyService.ts:217-228 | a new key opens its own route as long as it is not expired |
| ApiKeyCache.RevocationWithdraws | backend/src/services/apiKeyService.ts:238-252 | revoked or deleted, a key opens nothing at any time |
| ApiKeyCache.SharingDecides | backend/src/services/apiKeyService.ts:81-91 | whatever is shared a key reaches its own route, and other routes exactly through shared routes and folders |
| ApiKeyCache.MovingDecides | backend/src/services/apiKeyService.ts:81-91 | a route that is moved is reached by the keys bound to its new folder, and by no others that do not own or share it |
| ApiKeyCache.RunBacked | backend/src/services/apiKeyService.ts:238-293 | in every interleaving on any number of replicas every cached entry and pending answer rests on a past database state |
| ApiKeyCache.HitIsRecentlyAuthorised | backend/src/services/apiKeyService.ts:258-293 | a cache hit at time t reports an id and scope that the database held, at some time in (t - 30 s, t], for an active key of that hash covering that route and not expired at t |
| ApiKeyCache.AnswerIsAuthorised | backend/src/services/apiKeyService.ts:275-293 | an answer from the database was authorised there after the call began |
| ApiKeyCache.WithdrawnWithinTtl | backend/src/services/apiKeyService.ts:238-271 | a key revoked, deleted, unshared or moved away for good is refused by every cache 30 seconds later, whatever invalidations raced or were lost |
| ApiKeyCache.WithdrawnIsNeverAuthorised | backend/src/services/apiKeyService.ts:275-285 | a key is withdrawn exactly when the database authorises it at no time |
| ApiKeyCache.DormantNeverHits | backend/src/services/apiKeyService.ts:258-293 | from a state in which a replica holds no live entry and no answer that would make one, a withdrawn key is never accepted from its cache again, in any run |
| ApiKeyCache.WithdrawalIsFinalIff | backend/src/services/apiKeyService.ts:238-293 | in every state of every run a withdrawal is final on a replica exactly when it holds neither; otherwise some run from there ends in a hit |
| ApiKeyCache.ChangedEpochEndsAcceptance | backend/src/services/apiKeyService.ts:67-74 | a replica that applies a poll with another epoch than it had seen, with no live answer under way, never again accepts from its cache a key that stays withdrawn, in any run |
| ApiKeyCache.PollIsFinalIff | backend/src/services/apiKeyService.ts:67-74 | in every run a poll makes a withdrawal final on its replica exactly when no live answer is under way and the epoch is a new one or no live entry was there |
| ApiKeyCache.PollsCanMissARevocation | backend/src/services/apiKeyService.ts:54-76 | for any key and time, a run in which the revocation invalidates, bumps the epoch and writes last, a verification slips in before the write, and the key is accepted 29,999 ms after it although the replica polls every ten seconds |
| KeyUsage.UsageBuffer.RecordUsage | backend/src/services/apiKeyService.ts:16-21 | adds one use of the key |
| KeyUsage.UsageBuffer.TakePending | backend/src/services/apiKeyService.ts:23-33 | the updates sent carry exactly the pending uses of every key, and the buffer is empty |
| KeyUsage.UsesAreConserved | backend/src/services/apiKeyService.ts:15-34 | in every interleaving each recorded use is in one place: pending, on its way, stored, or lost with a failed update |
| KeyUsage.OutcomeDecides | backend/src/services/apiKeyService.ts:28-33 | what is stored came with exactly the updates that succeeded, and what is lost with those that failed |
| RateLimit.RateLimitStore.CheckRateLimit | backend/src/lib/rateLimitStore.ts:16-48 | the row after the upsert, the verdict by its count, the end of the window, and both answers to a store error, before or after the commit |
| RateLimit.RateLimitStore.CleanupRateLimitCounters | backend/src/lib/rateLimitStore.ts:51-59 | removes exactly the rows whose window began more than an hour ago |
| RateLimit.ExactlyTheFirstMax | backend/src/lib/rateLimitStore.ts:23-39 | in every run a call is allowed, fail-closed or fail-open, exactly when fewer than `max` calls of its key were committed in its window before it, and is told how many are left |
| RateLimit.VerdictTellsReset | backend/src/lib/rateLimitStore.ts:25-27 | every verdict tells the first multiple of the window width after its call, and by `ResetIsUnique` no other time |
| RateLimit.StoreErrorDecides | backend/src/lib/rateLimitStore.ts:40-47 | a call that meets a store error is allowed with all of its limit left by a fail-open limiter and refused by a fail-closed one, whatever came before |
| RateLimit.CleanupChangesNoAnswer | backend/src/lib/rateLimitStore.ts:51-59 | cleanups inserted anywhere change no part of any verdict, for windows up to 3,600,001 ms, fail-closed or fail-open |
| RateLimit.CleanupHarmsLongWindows | backend/src/lib/rateLimitStore.ts:51-59 | for any longer window and any limit, a run in which a cleanup lets a call through that would be refused |
| RateLimit.CleanupHarmlessIff | backend/src/lib/rateLimitStore.ts:50-59 | for every limit, cleanup changes no verdict in any run exactly for windows up to 3,600,001 ms or a limit of zero |
| RateLimit.WindowBound | backend/src/lib/rateLimitStore.ts:40-44 | fail-closed, one window allows at most `max` calls under arbitrary store errors |
| RateLimit.SpanBound | backend/src/lib/rateLimitStore.ts:23-48 | fail-closed, any span of one window width holds at most twice `max` allowed calls under arbitrary store errors |
| RateLimit.SpanBoundIsReached | backend/src/lib/rateLimitStore.ts:23-48 | for every limit and width that bound is reached within one millisecond, across the end of a window |
| RouteMatch.FirstMatch | backend/src/proxy/proxyHandler.ts:38-53 | the index of a matching route with no match before it, or none when nothing matches |
| RouteMatch.RouteTakes | backend/src/proxy/proxyHandler.ts:38-53 | a route under /r, with a wildcard or without, takes the request of its own name and those with whole segments below it |
| RouteMatch.MountTakesAll | backend/src/proxy/proxyHandler.ts:38-53 | a route that is the mount itself takes everything |
| RouteMatch.UnmountedRouteTakes | backend/src/proxy/proxyHandler.ts:38-53 | a route outside the mount takes the same of its name |
| RouteMatch.FirstIsLongestIff | backend/src/proxy/proxyHandler.ts:30-53 | for any routes under /r/, plain and wildcard, with doubled or trailing slashes: first match in descending order is a longest match for every request exactly when no wildcard hides a segment starting below `*`, its own base with a trailing slash (unless that has a wildcard too), or, as `/r//*`, a first segment starting below `/` |
| RouteMatch.OrdinarySegmentsAreSafe | backend/src/proxy/proxyHandler.ts:30-53 | non-empty segments starting above `*` always give the longest match |
| RouteMatch.OrdinaryNames | backend/src/proxy/proxyHandler.ts:30-53 | routes named by non-empty segments that start above `*`, with a wildcard or without, are of that kind |
| RouteMatch.ShadowingHappens | backend/src/proxy/proxyHandler.ts:30-53 | `/r/a/*` takes requests of `/r/a/!x` |
| RouteMatch.TrailingSlashIsShadowed | backend/src/proxy/proxyHandler.ts:30-53 | `/r/a/*` takes requests of `/r/a/` |
| TwoFactor.UserRow.StartLoginChallenge | backend/src/services/twoFactorService.ts:19-26 | stores the nonce and nothing else |
| TwoFactor.UserRow.VerifyToken | backend/src/services/twoFactorService.ts:123-159 | not enabled, locked, TOTP, recovery code or failure, each with the whole new row; a recovery login stores the codes without the first one the token matches, the rest in order |
| TwoFactor.UserRow.OnVerifySuccess | backend/src/services/twoFactorService.ts:161-171 | clears counter, lock and challenge |
| TwoFactor.UserRow.OnVerifyFailure | backend/src/services/twoFactorService.ts:173-189 | counts, and at the fifth failure locks for 15 minutes and starts again |
| TwoFactor.AttemptsStayBelowLimit | backend/src/services/twoFactorService.ts:173-189 | the stored counter stays below five in every run |
| TwoFactor.SixFailuresSpanALockout | backend/src/services/twoFactorService.ts:131-189 | any six consecutive failures without a success between span at least 15 minutes, through logins, disabling and enabling |
| TwoFactor.FailureRateIsBounded | backend/src/services/twoFactorService.ts:131-189 | a success-free stretch of length T has at most 5 (T / 15 min + 1) failures, rounding down |
| TwoFactor.FiveFailuresLock | backend/src/services/twoFactorService.ts:161-189 | after a success five failures are needed for a lock, and five more for the next; a lock lasts 900,000 ms from the failure that sets it |
| TwoFactor.SessionsPerNonce | backend/src/routes/auth.router.ts:441-497 | a nonce opens at most as many sessions as it was issued, one still unspent included |
| TwoFactor.ChallengeIsSingleUse | backend/src/services/twoFactorService.ts:14-26 | a nonce issued once opens at most one session |
| TwoFactor.EveryChallengeOpensOne | backend/src/routes/auth.router.ts:441-497 | the bound is reached: n challenges can open n sessions |
| TwoFactor.UsedCodeIsRemoved | backend/src/services/twoFactorService.ts:146-155 | a recovery login removes the first code its token matches and keeps the rest in order |
| TwoFactor.CodesAreConserved | backend/src/services/twoFactorService.ts:146-171 | while enabled, the codes handed out are, as a multiset, those used up, each the first its token matched, and those in hand |
| TwoFactor.TenRecoveryLoginsPerEnable | backend/src/services/twoFactorService.ts:97-159 | enabling buys exactly ten recovery logins, used or in hand |
| TwoFactor.TokenSpendsItsCodes | backend/src/services/twoFactorService.ts:146-171 | in every run, through enabling and disabling, a token logs in at most as often as codes it matches were handed out, less those still in hand |
| TwoFactor.CodeLogsInOnce | backend/src/services/twoFactorService.ts:97-159 | a token that matches one of the codes handed out only opens at most one session per enable |
| TwoFactor.CodeWorksOnce | backend/src/services/twoFactorService.ts:146-155 | the first login with such a code succeeds and removes it, the second fails |
| TwoFactor.DisabledOpensNothing | backend/src/services/twoFactorService.ts:194-216 | disabling takes all codes away and opens no session until the next enable |
| TwoFactorOverlap.AloneIsAtomic | backend/src/routes/auth.router.ts:441-456 | a login whose reads and write nothing comes between is the atomic verification |
| TwoFactorOverlap.OtherActionsAreAtomic | backend/src/services/twoFactorService.ts:19-26 | issuing a challenge, enabling and disabling are those of the atomic model |
| TwoFactorOverlap.NonceIsSpentIff | backend/src/routes/auth.router.ts:441-497 | however logins overlap, a nonce can open another session exactly while it is the stored challenge or a login that presented it has not failed |
| TwoFactorOverlap.SpentAfterSessionIff | backend/src/services/twoFactorService.ts:161-171 | after a session the nonce is spent exactly when no other login that presented it is under way |
| TwoFactorOverlap.OverlappingLoginsBothPass | backend/src/routes/auth.router.ts:441-497 | a run from no login under way: two logins with one nonce read before either writes, and both open a session |
| TwoFactorOverlap.FailureIsLost | backend/src/services/twoFactorService.ts:157-189 | a run from no login under way: two failures side by side count as one |
| TwoFactorOverlap.FailuresBeforeALock | backend/src/services/twoFactorService.ts:131-189 | with at most m logins under way, a success-free stretch up to its first lock holds at most m + m^2 + ... + m^5 failures, from any state: five without overlap |
| TwoFactorOverlap.FiveFailuresReachALock | backend/src/services/twoFactorService.ts:131-189 | without overlap the bound is reached: as many failures as are missing from five lock the account for 15 minutes |
| TwoFactorOverlap.LockStopsNewFailures | backend/src/services/twoFactorService.ts:131-189 | while the account is locked only logins that were already failing can still fail |
| TwoFactorOverlap.OverlapRateIsBounded | backend/src/services/twoFactorService.ts:131-189 | with at most m logins under way, a success-free stretch of length T holds at most (T / 15 min + 1) (m + m^2 + ... + m^5 + m - 1) failures, rounding down, whatever locks, challenges, disabling and enabling come between |
| TwoFactorOverlap.RateWithoutOverlap | backend/src/services/twoFactorService.ts:131-189 | one login at a time, these are the 5 (T / 15 min + 1) of the atomic model |
| TwoFactorOverlap.CodeComesBack | backend/src/services/twoFactorService.ts:141-171 | a run from no login under way: a TOTP login that reads before and writes last brings back a code spent meanwhile |
| TwoFactorOverlap.CodeIsSpentIff | backend/src/services/twoFactorService.ts:146-171 | however logins overlap, a code is spent for good exactly when it is not stored and no login under way will store it |
| TwoFactorOverlap.RecoveryLoginsAreBounded | backend/src/services/twoFactorService.ts:146-171 | with at most m logins under way and recovery codes as the only second factor, n codes allow at most m + m^2 + ... + m^n logins: n without overlap |
| TwoFactorOverlap.EveryCodeLogsIn | backend/src/services/twoFactorService.ts:146-171 | without overlap the bound is reached: every code logs in |
| CircuitBreaker.Breaker.CheckCircuitBreaker | backend/src/services/circuitBreakerService.ts:25-60 | admission, reported state and new row |
| CircuitBreaker.Breaker.RecordSuccess | backend/src/services/circuitBreakerService.ts:65-84 | closes from half-open, clears the count when closed, does nothing when open |
| CircuitBreaker.Breaker.RecordFailure | backend/src/services/circuitBreakerService.ts:89-148 | reopens from half-open, trips at the threshold, else counts |
| CircuitBreaker.Breaker.ResetCircuitBreaker | backend/src/services/circuitBreakerService.ts:153-163 | closed, count zero, no dates |
| CircuitBreaker.Refines | backend/src/services/circuitBreakerService.ts:25-163 | after every run of atomic calls the row agrees with a breaker defined by the history alone: in CLOSED the count is the current failure run, below the threshold; otherwise the opening date is that of the last failure |
| CircuitBreaker.TripsExactlyAtThreshold | backend/src/services/circuitBreakerService.ts:117-128 | with atomic calls, a closed breaker opens on a failure exactly when the run reaches the threshold |
| CircuitBreaker.RefusesIff | backend/src/services/circuitBreakerService.ts:36-56 | with atomic calls, a request is refused exactly when open and the last failure is less than the timeout ago |
| CircuitBreaker.StaysShut | backend/src/services/circuitBreakerService.ts:36-56 | with atomic calls, once opened it stays open and refuses for the whole recovery timeout, whatever succeeds or fails meanwhile |
| CircuitBreaker.NoneAdmittedWhileShut | backend/src/services/circuitBreakerService.ts:36-56 | none of the requests in that time is admitted |
| CircuitBreaker.DisabledIsTransparent | backend/src/services/circuitBreakerService.ts:25-28 | a disabled breaker admits every request and changes no row, whatever its state and whatever succeeds or fails |
| CircuitBreaker.OpeningLastsIff | backend/src/services/circuitBreakerService.ts:25-148 | with calls split into a read and a later write, overlapping at will, an opening lasts the whole recovery timeout in every continuation exactly when no call under way read HALF_OPEN and is to report a success, or read an opening whose timeout is over sooner and is to be let in |
| CircuitBreaker.OverlappingSuccessCloses | backend/src/services/circuitBreakerService.ts:65-148 | a run from no call under way: a failure and a success read HALF_OPEN, the failure opens the breaker and the success closes it at once |
| CircuitBreaker.FailureIsLost | backend/src/services/circuitBreakerService.ts:89-148 | a run from no call under way: two failures side by side below the threshold count as one, where one after the other they count as two |
| CircuitBreaker.FailuresBeforeAnOpening | backend/src/services/circuitBreakerService.ts:89-148 | with at most m calls under way and thresholds up to n, from any state and whatever is reconfigured within n, a stretch without success, reset or restored version holds at most m + m^2 + ... + m^n failures up to and with the one that opens the breaker |
| CircuitBreaker.FailuresWithoutOverlap | backend/src/services/circuitBreakerService.ts:89-148 | one call at a time, n at most |
| CircuitBreaker.ThresholdIsReached | backend/src/services/circuitBreakerService.ts:89-148 | and that many are needed: one call at a time the breaker opens with the failure that makes up the threshold, for every count it starts from |
| CircuitBreaker.HalfOpenRefusesNone | backend/src/services/circuitBreakerService.ts:58-59 | after any run that ends in HALF_OPEN no request is refused, at any time |
| CircuitBreaker.HalfOpenAdmitsEvery | backend/src/services/circuitBreakerService.ts:58-59 | until a result is recorded HALF_OPEN stays and all of any number of requests pass |
| CircuitBreaker.HalfOpenAdmitsOneIff | backend/src/services/circuitBreakerService.ts:12-59 | so one request only passes exactly when one only comes |
| CircuitBreaker.TwoPassInHalfOpen | backend/src/services/circuitBreakerService.ts:44-59 | after one failure and the timeout, two requests at once both pass |
| CircuitBreaker.OpenIsAlwaysDated | backend/src/services/circuitBreakerService.ts:25-163 | with calls split into a read and a later write, arbitrarily interleaved with each other, with configuration and with restored route versions, the row, every copy read and every version is dated when open |
| CircuitBreaker.UndatedOpeningNeverHappens | backend/src/services/circuitBreakerService.ts:38-42 | the "shouldn't happen" branch is dead under every interleaving |
| PathAllowlist.NormalizePathPattern | backend/src/lib/pathAllowlist.ts:21-26 | a leading slash always, a trailing one only for the root |
| PathAllowlist.NormalizedPattern | backend/src/lib/pathAllowlist.ts:21-26 | the normal form is what remains without the whitespace around a pattern and the slashes at its end, with one slash at its head |
| PathAllowlist.PatternAsksFor | backend/src/lib/pathAllowlist.ts:73-77 | a pattern of parts asks for those parts, percent-decoded where they can be, and the root for none |
| PathAllowlist.RequestSegments | backend/src/lib/pathAllowlist.ts:55-71 | the decoded segments, or nothing exactly when the path is unrooted, has a backslash or an unacceptable segment |
| PathAllowlist.MatchesPatternIsGlob | backend/src/lib/pathAllowlist.ts:79-84 | the length-and-index test is the recursive glob: `*` is one segment, at the end any number |
| PathAllowlist.AcceptedPathIsUnambiguous | backend/src/lib/pathAllowlist.ts:49-71 | on an accepted path splitting and percent-decoding commute, dot-segment removal leaves the decoded path unchanged, no backslash is in it, and its segments are those judged |
| PathAllowlist.ValidPatternIff | backend/src/lib/pathAllowlist.ts:29-39 | a pattern is valid exactly when it is short, free of forbidden characters, and the root or made of non-empty, dotless segments with stars only on their own |
| PathAllowlist.AdmitsExactlyTheCovered | backend/src/lib/pathAllowlist.ts:90-95 | for every sub-path and list, the path is allowed exactly when the list is empty, or it has acceptable segments that an upstream, decoding and removing dot segments, resolves to segments a valid entry covers |
| PathAllowlist.JudgedIsForwardedIff | backend/src/services/proxyService.ts:133-204 | on every request a route matches, the sub-path judged is the suffix forwarded, except exactly below the mount base `/r/` |
| PathAllowlist.BelowTheMount | backend/src/services/proxyService.ts:133-204 | a request of the mount itself is judged and forwarded as the root, one below it as what follows the mount |
| PathAllowlist.RootMountDiffers | backend/src/lib/pathAllowlist.ts:101-107 | below `/r/` the request `/r/foo` is judged as `/r/foo` and forwarded as `foo` |
| UriPath.DecodeConcat | backend/src/lib/pathAllowlist.ts:41-47 | percent-decoding a decodable text does not look at what follows |
| UriPath.DecodesWhatItSpells | backend/src/lib/pathAllowlist.ts:41-47 | `decodeURIComponent` gives a text exactly when each of its characters is written as itself, other than a percent sign, or by the escapes of its UTF-8 bytes, and throws on everything else |
| UriPath.NothingToRemove | backend/src/lib/pathAllowlist.ts:66-67 | section 5.2.4 of RFC 3986 removes nothing from segments without dots |
| UriPath.DotsAreResolved | backend/src/lib/pathAllowlist.ts:66-67 | on any rooted path the steps of section 5.2.4 keep, go back by one or leave an open end, segment by segment |
| UriPath.NothingToRemoveIff | backend/src/lib/pathAllowlist.ts:66-67 | they leave a rooted path as it is exactly when it has no dot segments |
| UriPath.LeadingDotsGo | backend/src/lib/pathAllowlist.ts:66-67 | dots at the head of any other path are dropped |
| LoadBalancer.Balancer.SelectTarget | backend/src/services/loadBalancerService.ts:12-30 | none exactly when no target is healthy; otherwise the healthy target the strategy calls for, with both indices after it |
| LoadBalancer.HealthyKeepsOrder | backend/src/services/loadBalancerService.ts:17 | the healthy targets are those of the list, each as often and in its order |
| LoadBalancer.HandedInTurn | backend/src/services/loadBalancerService.ts:34-47 | over any run on any replicas, the target handed out is the one whose turn it is: those of the shared index one after the other in the order of the list, those of a fallback from the index of the replica, the first one for a missing row |
| LoadBalancer.Balancer.NextIndex | backend/src/services/loadBalancerService.ts:34-47 | the shared index when its update succeeds, zero when its row is gone, the replica's own on an error |
| LoadBalancer.SelectedInRounds | backend/src/services/loadBalancerService.ts:34-47 | over any run of selections on any replicas, how often a target is handed out is its share of the shared round, of the own rounds of replicas whose updates failed, and of missing rows |
| LoadBalancer.RoundRobinIsFair | backend/src/services/loadBalancerService.ts:34-47 | while the shared update succeeds, any N consecutive selections on any replicas hand out each of k healthy targets N/k times, rounded down or up |
| LoadBalancer.RoundRobinStaysClose | backend/src/services/loadBalancerService.ts:34-47 | with failing updates and missing rows mixed in, a healthy target is handed out its even share, off by less than one round, plus one for each replica that fell back and each missing row |
| LoadBalancer.PickWeighted | backend/src/services/loadBalancerService.ts:49-61 | the target whose stretch of the total weight holds the draw |
| LoadBalancer.WalkWeights | backend/src/services/loadBalancerService.ts:52-60 | the loop finds that stretch, and the fallback is unreachable in exact arithmetic |
| LoadBalancer.DrawPicksOne | backend/src/services/loadBalancerService.ts:52-57 | no draw lies in two stretches |
| LoadBalancer.EveryDrawPicks | backend/src/services/loadBalancerService.ts:49-57 | every draw up to the total weight lies in a stretch, and zero picks the first target |
| LoadBalancer.PickFollowsTheDraw | backend/src/services/loadBalancerService.ts:49-57 | the target picked is the one in whose stretch the draw lies |
| LoadBalancer.WeightsAdd | backend/src/services/loadBalancerService.ts:50 | total weights add up, and that of one target is its weight |
| LoadBalancer.ShareIsWeight | backend/src/services/loadBalancerService.ts:49-57 | of the equally likely draws 1 to the total weight, exactly `weight` fall to each target |
| LoadBalancer.PickFailover | backend/src/services/loadBalancerService.ts:63-67 | the first of the healthy targets with the least priority number |
| StableSort.SortPermutes | backend/src/services/loadBalancerService.ts:65 | sorting permutes |
| StableSort.SortOrders | backend/src/services/transformService.ts:16 | sorting orders by the key |
| StableSort.SortIsStable | backend/src/services/transformService.ts:16 | elements with equal keys keep their order |
| StableSort.SortIgnoresArrival | backend/src/services/transformService.ts:16 | with distinct keys the result does not depend on the order of arrival |
| StableSort.SortPutsFirstLeastFirst | backend/src/services/loadBalancerService.ts:65-66 | the head of the sorted list is the first least element |
| NestedValue.SetNestedValue | backend/src/services/transformService.ts:112-131 | on a heap of objects the walk with its single field writes leaves a tree, sharing no object, whose value is the old one with the value at the path, or unchanged for a forbidden key; only objects of the tree change, and new ones are fresh |
| NestedValue.Descend | backend/src/services/transformService.ts:121-126 | one turn: the object under the key, made and linked first if there is none |
| NestedValue.WriteField | backend/src/services/transformService.ts:123-130 | one field write stores the tree that differs in that field |
| NestedValue.WriteIsPut | backend/src/services/transformService.ts:130 | a field write in the object at a path is a write at the path one key longer |
| NestedValue.PassingIsNeutral | backend/src/services/transformService.ts:121-126 | making a missing object on the way changes nothing of what the write further down comes to |
| NestedValue.SetNestedIsALens | backend/src/services/transformService.ts:110-131 | a forbidden key changes nothing; otherwise read-back, last write wins, writing back is neutral, incomparable paths are untouched and their writes commute |
| NestedValue.PutGet | backend/src/services/transformService.ts:119-130 | reading the path back gives the value |
| NestedValue.PutPut | backend/src/services/transformService.ts:119-130 | a later write to the same path wins |
| NestedValue.GetPut | backend/src/services/transformService.ts:119-130 | writing back what is there changes nothing |
| NestedValue.PutElsewhere | backend/src/services/transformService.ts:119-130 | reads at prefix-incomparable paths are unchanged |
| NestedValue.PutsCommute | backend/src/services/transformService.ts:119-130 | writes to prefix-incomparable paths commute |
| TransformRules.Outgoing.ApplyRequestTransforms | backend/src/services/transformService.ts:8-57 | the active request rules, in their order, each applied to what the rules before it left |
| TransformRules.RequestRulesKeepOrder | backend/src/services/transformService.ts:14-15 | request rules are picked from a list in its order |
| TransformRules.RequestRuleAlone | backend/src/services/transformService.ts:15 | a rule is picked exactly when it is an active request rule |
| TransformRules.ScheduleIsByOrder | backend/src/services/transformService.ts:14-16 | the rules applied are exactly the active request rules, each as often, ascending in `order`, equal orders as they came |
| TransformRules.UnmetRuleChangesNothing | backend/src/services/transformService.ts:22-24 | a rule whose condition names a header or parameter that is missing, or holds another value, changes nothing |
| TransformRules.MetRuleActs | backend/src/services/transformService.ts:26-47 | any other rule sets or removes its header or parameter, the header in lower case too, and leaves all others alone |
| TransformRules.ArrivalOrderIsIrrelevant | backend/src/services/transformService.ts:14-18 | with distinct orders the outcome does not depend on the order the rules come in, nor on inactive or response rules |
| TransformRules.PermutedRulesHaveTheSameRequestRules | backend/src/services/transformService.ts:14-16 | permuting the rules permutes the request rules |
| TransformRules.LastWriteWins | backend/src/services/transformService.ts:48-52 | after all rules a body path holds what the last rule that fired and wrote it wrote, provided none that fired later wrote above or below |
| TransformRules.UndisturbedBody | backend/src/services/transformService.ts:18-54 | a body path that no firing rule wrote, above it or below it, holds what it held |
| TransformRules.LastHeaderRuleDecides | backend/src/services/transformService.ts:26-37 | after any rules a header is what the last rule that fired on it made of it, set or removed, lower-cased names included, or else what it was |
| TransformRules.LastQueryRuleDecides | backend/src/services/transformService.ts:38-47 | the same of a query parameter |
| TransformRules.GreatestOrderDecidesHeader | backend/src/services/transformService.ts:14-37 | after the transforms, of the rules that fired on a header the one with the greatest order decides what it is, and of equal orders the last to come |
| TransformRules.GreatestOrderDecidesQuery | backend/src/services/transformService.ts:14-47 | the same of a query parameter |
| TransformRules.GreatestOrderDecidesBody | backend/src/services/transformService.ts:14-52 | a body path holds what the rule with the greatest order, of those that wrote at, above or below it, wrote there |
| TransformRules.OneRuleDecides | backend/src/services/transformService.ts:14-18 | if any rule fired, one has the greatest order |
| RouteArchive.UnmangleUndoesMangleIff | backend/src/services/routeService.ts:333-346 | for every value and id, unmangling undoes mangling exactly when the value is not an old archive name of the id and the appended tag does not overlap its end |
| RouteArchive.UnmangleUndoesMangle | backend/src/services/routeService.ts:333-346 | for untagged values and ids not starting with an underscore it always does, by either archive operation, and an unmangled value is left alone |
| RouteArchive.ComesBackIff | backend/src/services/routeService.ts:333-346 | for real ids and every value, mangled by either operation or not at all, unmangling gives it back exactly when it does not hold the archive ending of its own id |
| RouteArchive.EditedPathIsCut | backend/src/services/routeService.ts:341-346 | `/r/x__deleted_c1` on the route `c1` comes back as `/r/x`, by either operation |
| RouteArchive.OverlapLosesTheEnd | backend/src/services/routeService.ts:341-346 | `a__deleted` with the id `_` does not come back |
| RouteArchive.MangledNamesAreDistinct | backend/src/services/routeService.ts:335-339 | mangled names of untagged values and distinct ids never collide |
| RouteArchive.AppendedNamesAreDistinct | backend/src/services/routeService.ts:698 | for real ids the appended endings keep all names apart, tagged values included |
| RouteArchive.ArchivedNamesCollideIff | backend/src/services/routeService.ts:335-339 | for real ids two routes archived by `deleteRoute` get one name exactly when a tagged value, which is left alone, is already that name |
| RouteArchive.TaggedNameCollides | backend/src/services/routeService.ts:335-339 | a value that is the archived name of another route stays that name |
| RouteArchive.RouteTable.DeleteRoute | backend/src/services/routeService.ts:348-376 | refusals for missing, active and unconfirmed protected routes, else the archived row; no other row changes |
| RouteArchive.RouteTable.BulkDelete | backend/src/services/routeService.ts:687-703 | archives exactly the live routes named, path mangled and slug kept, and counts them |
| RouteArchive.RouteTable.RestoreRoute | backend/src/services/routeService.ts:410-445 | the restored row, suffixed where a live route holds the name; no other row changes |
| RouteArchive.RestoreUndoesArchiveIff | backend/src/services/routeService.ts:348-445 | archived either way and restored from any later table, any route is itself again, inactive and a draft, exactly when neither of its names was taken or holds the archive ending of its own id |
| RouteArchive.RestoreStepsAside | backend/src/services/routeService.ts:417-424 | a taken path gets the suffix with the last five characters of the id, all of a shorter one |
| RouteArchive.RestoreMindsTheLiving | backend/src/services/routeService.ts:414-428 | a restored route keeps a path or slug exactly when no other live route holds it |
| RouteArchive.ArchiveTakesOut | backend/src/services/routeService.ts:348-376 | archived either way a route is neither live nor active, is dated so that it can be restored, and stands in the way of no path |
| RouteArchive.ArchiveGivesUpPathIff | backend/src/services/routeService.ts:335-376 | its row gives up the path in bulk always, otherwise exactly when the path does not hold the tag |
| Cidr.IpToNumIsValue | backend/src/services/proxyService.ts:793-795 | signed shifts and overflow included, the fold is the address as a 32-bit number |
| Cidr.MaskBits | backend/src/services/proxyService.ts:787 | for prefix lengths 0 to 32 the mask is ones above the host bits, the overflows at 0 and 32 included |
| Cidr.MaskTestIff | backend/src/services/proxyService.ts:787-790 | for any two 32-bit numbers the signed mask test holds exactly when they agree after division by 2^(32 - bits) |
| Cidr.IpInCidrIff | backend/src/services/proxyService.ts:785-791 | the signed mask test holds exactly when the addresses agree after division by 2^(32 - bits) |
| Cidr.BlocksNestOrAreDisjoint | backend/src/services/proxyService.ts:785-791 | two blocks that share an address are nested |
| IpAllowlist.IsIpAllowed | backend/src/services/proxyService.ts:769-783 | on any text, allowed exactly when some entry is the client address without its IPv6 mapping, or has a slash and passes the mask test |
| IpAllowlist.DottedNumber | backend/src/services/proxyService.ts:793-795 | splitting and `parseInt` read the text of an address as its number |
| IpAllowlist.EntryAdmitsIff | backend/src/services/proxyService.ts:773-791 | the text of an address or block admits exactly the addresses it covers |
| IpAllowlist.AllowedIffCovered | backend/src/services/proxyService.ts:769-791 | on an allowlist of such texts a client, mapped to IPv6 or not, is allowed exactly when an entry covers its address |
| IpAllowlist.BlockAdmitsByNumber | backend/src/services/proxyService.ts:785-795 | a block of length 0 to 32 admits exactly the texts read as a number with the same leading bits, whatever client and range are |
| IpAllowlist.DotlessBlockAdmits | backend/src/services/proxyService.ts:785-795 | for IPv6 texts that number is the one at the head, 0 if there is none |
| IpAllowlist.LongBlockAdmits | backend/src/services/proxyService.ts:785-795 | a block of length 33 to 85 admits exactly the texts read as the same number |
| IpAllowlist.LongerBlockAdmitsAll | backend/src/services/proxyService.ts:785-795 | a block of length 86 or more admits every client, whatever the texts |
| IpAllowlist.OneHostAdmitsAll | backend/src/services/proxyService.ts:769-795 | the entry `::1/128` admits every client |
| IpAllowlist.InCidrIff | backend/src/services/proxyService.ts:785-795 | on any two texts: agreement in the leading bits for lengths 0 to 32, the same number for 33 to 85, below -21 and for none, and everything for all other lengths |
| IpAllowlist.MaskForLong | backend/src/services/proxyService.ts:787 | in double arithmetic the mask of lengths above 32 is all ones up to 85 and empty from 86 on |
| Doubles.RoundIsNearest | backend/src/services/proxyService.ts:787-794 | a rounded number has p significant bits and is off by at most half of the last one, ties leaving it even |
| Doubles.RoundOfOnes | backend/src/services/proxyService.ts:787 | a power of two less one fits into p bits or rounds to the power |
| IpAllowlist.LettersReadAsZero | backend/src/services/proxyService.ts:785-795 | an IPv6 block that starts with a letter admits every IPv6 client that does |
| Luhn.LuhnCheck | backend/src/services/sanitizerService.ts:164-177 | the right-to-left loop accepts exactly when the weighted digit sum is divisible by ten |
| Luhn.AcceptsByTheStandard | backend/src/services/sanitizerService.ts:164-177 | it accepts exactly the numbers whose sum by ISO/IEC 7812-1, every second digit from the right doubled and taken by its digits, is a multiple of ten |
| Luhn.SingleChangeIsCaught | backend/src/services/sanitizerService.ts:164-177 | every single-digit change of an accepted number is rejected |
| Luhn.SwapIsCaughtIff | backend/src/services/sanitizerService.ts:164-177 | a swap of two different neighbours is accepted exactly for 0 and 9 |
| Luhn.OneCheckDigit | backend/src/services/sanitizerService.ts:164-177 | exactly one check digit completes a payload, and which |

## Left out

- Characters are Unicode scalar values; JavaScript strings may also hold lone surrogates, which are not modelled. `Levenshtein` is generic in its element type and so covers UTF-16 code units.
- StreamLog.StreamCapture.constructor: for unencoded streams; the larger budget of compressed ones is not modelled.
- StreamLog.StreamCapture.Finish: compressed and undecodable bodies (zlib) are not modelled, and the regular expressions that judge a content type are a parameter.
- The wording and capitalisation of the note that `splitTruncation` returns, and what the SSE branch of `assembleStreamText` makes of a body, which is a parameter.
- FrameScanner.AssembleFrames: the text of a parsed frame and of a cut frame are parameters; JSON parsing and the partial-frame regular expressions are not modelled.
- FrameScanner.AssembledCut: the same two parameters.
- Hashing of keys; the cache key is the pair of route and hash instead of their joined text. One clock serves all replicas.
- KeyUsage.UsageBuffer.RecordUsage: the client address and the time of last use are not modelled.
- RateLimit.WindowBound: about a fail-closed limiter with one clock that does not decrease, because a fail-open one allows every call that meets a store error.
- RateLimit.SpanBound: the same.
- RouteArchive.MangledNamesAreDistinct: for untagged values and any ids; `AppendedNamesAreDistinct` and `ArchivedNamesCollideIff` cover tagged ones.
- RouteMatch.FirstIsLongestIff: public paths under `/r/`, which the route form requires, in code-point order; a database collation may order differently.
- TwoFactor.SixFailuresSpanALockout: each verification is one step; `TwoFactorOverlap` has the bounds that hold when they overlap.
- TwoFactor.FailureRateIsBounded: the same.
- TwoFactor.CodesAreConserved: the same.
- TwoFactor.TenRecoveryLoginsPerEnable: the same.
- TwoFactor.TokenSpendsItsCodes: the same.
- TwoFactor.CodeLogsInOnce: the same.
- TwoFactor.FiveFailuresLock: the same.
- TwoFactor.SessionsPerNonce: challenge check and verification are one step; `TwoFactorOverlap` splits them.
- TwoFactor.ChallengeIsSingleUse: the same.
- The TOTP secret, token versions and deactivated accounts, which only refuse more logins.
- CircuitBreaker.Refines: calls are atomic, because overlapping failures count as one (`FailureIsLost`); `FailuresBeforeAnOpening`, `OpeningLastsIff` and `OpenIsAlwaysDated` are about overlapping calls.
- CircuitBreaker.TripsExactlyAtThreshold: the same.
- CircuitBreaker.RefusesIff: the same.
- CircuitBreaker.StaysShut: the same.
- Incidents, metrics, logging and audit records.
- Rewrite rules, `stripPrefix` and the WebSocket path that follow the construction of the target path.
- An encoded `%2A` in an allowlist pattern decodes to a wildcard; the model does the same and claims nothing else about it.
- LoadBalancer.PickWeighted: floating-point rounding of the draw is not modelled; arithmetic is exact.
- LoadBalancer.Balancer.NextIndex: the 32-bit width of the stored index is not modelled, because an overflow is a store error.
- The default branch of `selectTarget`, which no value of the strategy enumeration reaches.
- NestedValue.SetNestedValue: JSON arrays on the way are not modelled, and the written value shares no object with the body, as both were parsed apart.
- TransformRules.Outgoing.ApplyRequestTransforms: a body that is an array is not modelled; its body is a value, the writes into it being those of `NestedValue`.
- Response transforms and their body re-encoding.
- Unique-index failures when an archived name is already held, and permanent deletion.
- `parseInt` rounds what all digits of a run amount to; ECMAScript also lets an engine read those after the twentieth as zeros.
- IpAllowlist.AllowedIffCovered: for IPv4 texts; other texts are judged by the number they are read as, in `BlockAdmitsByNumber` and the rows after it.
- Luhn.LuhnCheck: digit strings only, which is what its caller passes.
- Prisma, Express, axios, DNS, JWT and AES, the user interface, and the services that only create, read, update and delete.
