# gttp: verified model of the retry, guard, redirect and dial logic

gttp is a Go HTTP client that wraps `net/http` with retries, response-body guards, redirect checks and
an address policy at dial time. This project models that logic and proves what it promises, on all
inputs, all runs and all interleavings. `dafny verify dfyconfig.toml` checks everything.

| File | What it models |
|---|---|
| `DialRace.dfy` | the staggered dial race as a step system: coordinator, attempts, channel, timer, context, drainer |
| `DialCoordinator.dfy` | the same program as code on shared variables: the select loop and the drainer, against any environment |
| `PolicyDial.dfy` | the policy front end, the sequential dialer, and what both dialers have in common |
| `IpPolicy.dfy` | the IP classifier and the numeric CIDR table it is equal to |
| `Watchdog.dfy` | the lazy idle watchdog, both ways against a watchdog that restarts its timer on every Reset |
| `WatchdogInterleaving.dfy` | the watchdog split into its atomic operations, with concurrent callers |
| `TransferRate.dfy` | the rolling rate tracker against a recomputation over the whole history |
| `GuardedBody.dfy` | runs of Read and Close on a guarded response body |
| `Backoff.dfy` | exponential backoff in wrapping int64 and the server wait hints |
| `Retry.dfy` | body replay and the retry loop |
| `Query.dfy` | the form encoding, its parser, and the canonical query |
| `Redirect.dfy` | the URL key, one redirect, and whole redirect chains |
| `Octets.dfy`, `Arithmetic.dfy`, `Pigeonhole.dfy`, `Sorting.dfy` | bytes, int64 wrap-around, counting, sorting |

Runs are quantified over directly. A schedule of the dial race, or of the watchdog, is a list of events
in which a step that is not enabled has no effect, so every list is a run and every reachable state has
one. Sockets, DNS, clocks, random numbers and gzip are arbitrary inputs. Times are integer
nanoseconds.

Where a property one would expect is false, the model keeps the code as it is, exhibits an input, and
states exactly when the property holds:

- Backoff is `min(waitMin * 2^attempt, waitMax)` iff the wrapped int64 product does not land strictly
  between 0 and `waitMax` (`BoundExactIff`, `BoundCanUndershoot`). The comment at retry.go:130-132 says
  the capped shift prevents overflow; it does so iff `waitMin` is one nanosecond
  (`CapPreventsOverflowIff`). The odd part of `waitMin` times `waitMax` staying within 2^62 is enough
  for every attempt, and the defaults meet it.
- A wait of very many seconds wraps (`HugeDelayWraps`, `DeltaHonouredIff`, `ClampedDelayIff`). The
  comment at retry.go:162 says a hint is floored at `waitMin`; the cap is applied last, so it is floored
  iff `waitMin` is at most `maxRetryAfter` (`HintFloorIff`, `HintBelowWaitMin`).
- With the retry buffer limit at 2^63 - 1 the limit plus one wraps and a stream is replaced by an empty
  body (`LargestLimitReadsNothing`, `CompleteIff`).
- An empty Read returns no error on a body that is over its size cap (`EmptyReadHidesTheCap`,
  `CapAfterCleanRead`).
- The comment at guard.go:14-15 says the watchdog is safe for concurrent Reset, and the one at
  guard.go:44-45 that Reset pushes the next fire out. A stream can be cancelled at the instant of a
  stored timestamp in two ways. A lone Reset that stores between the fire's tick load and its
  compare-and-swap (or the call of cancel) is lost; the cancellation is then too soon iff the timestamp
  is less than timeout old (`ResetCanBeLost`, `EarlyIff`, `SerialEarlyIff`), and only a Reset after done
  is set is sure not to meet this (`ResetIsSafeIff`). And of two overlapping Resets one can take the
  timestamp back, so that the fire looks at a stale one: in an armed state a new Reset can do this iff
  another is under way (`OverlapCanMislead`, `ResetCanMisleadIff`).
- The comment at ssrf.go:189 says invalid input is blocked. A nil slice is; a slice of another length
  than 4 or 16 is not (`InvalidInput`).
- A redirect can be refused as a loop without a revisit: the URL key drops the user information, it
  confuses IPv6 hosts with and without a port, and it confuses nothing else (`UserRedirectRefused`,
  `IPv6RedirectRefused`, `KeyMeaning`, `LoopMeansRevisitIff`).

## Model

| member | source | states |
|---|---|---|
| DialRace.StepInv | ssrf.go:120-180 | every step of the coordinator, an attempt, the clock or the drainer keeps the invariant: first-in first-out messages, counters, timer and closes all agree with the history |
| DialRace.ConnectionHasOneOwner | ssrf.go:120-139 | in every reachable state an opened connection is held by exactly one of its attempt, the channel, the caller, or the closed pile, and no connection is closed twice |
| DialRace.SendNeverBlocks | ssrf.go:120-126 | queued results plus running attempts never exceed the channel capacity, so no send blocks and no receiver underflows |
| DialRace.NeverWaitsForNothing | ssrf.go:147-180 | while selecting, some attempt is running or some result is queued |
| DialRace.CoordinatorDecreases | ssrf.go:147-181 | each select case strictly decreases 2n - started - completed + (1 if the timer is armed), which never goes negative |
| DialRace.CoordinatorReturnsSoon | ssrf.go:141-181 | along any schedule the coordinator runs at most 2n select cases |
| DialRace.EveryoneTerminates | ssrf.go:116-182 | coordinator, goroutines and drainer together take at most 5n + 1 steps |
| DialRace.RestIsClean | ssrf.go:127-157 | when nothing can move but the clock, the coordinator has returned, the drainer is done, the channel is empty and every opened connection except the returned one was closed exactly once, on cancellation all of them |
| DialRace.DrainedIsClean | ssrf.go:127-139 | the same as soon as the drainer's count has reached zero |
| DialRace.Pacing | ssrf.go:112-179 | addresses start in list order without repetition; each start comes a full 250 ms after the previous one or after all earlier addresses have failed |
| DialRace.HungDialCannotBlock | ssrf.go:160-178 | while addresses remain the timer runs, and it can fire as soon as the head start of the last attempt is over |
| DialRace.OutcomeMeaning | ssrf.go:149-181 | a returned connection was really opened, a cancellation needs a done context, and a failure carries one error for every address, all of which failed |
| DialRace.Causes | ssrf.go:121-126 | no attempt is through without its dial having returned with that outcome, and no context is done without a cancellation |
| DialRace.FailsIffAllFail | ssrf.go:147-181 | against a fixed network and without cancellation the race fails iff no address answers |
| DialCoordinator.Race.constructor | ssrf.go:117-144 | the variables after the first start and the creation of the timer are the initial state |
| DialCoordinator.Race.Dial | ssrf.go:116-182 | for any environment and any choice among ready cases the function returns after at most 2n ready turns; on return the timer is off, the drainer expects exactly what is outstanding, a returned connection was opened, a cancellation needs a done context, a failure joins one error of each address; at all times one owner for each connection, and paced starts |
| DialCoordinator.Race.DrainOutstanding | ssrf.go:127-139 | when the drainer has finished, the channel is empty, no attempt is left, and every connection but the returned one has been closed exactly once; it needs one message for each result outstanding |
| DialCoordinator.Race.Meanwhile | ssrf.go:121-126 | what attempts, caller and clock do follows the step system and leaves the coordinator, its counters and the closed pile alone |
| PolicyDial.DialSequentially | ssrf.go:81-94 | dials are a prefix of the list; success at i means all earlier addresses failed; a failure has one error per address; a done context stops after the failure that found it |
| PolicyDial.DialersAgree | ssrf.go:78-94 | without cancellation the sequential dialer and the race fail on the same networks, and the race never connects to an earlier address than the sequential dialer |
| PolicyDial.Approve | ssrf.go:30-63 | one lookup for a name and none otherwise; refused iff the policy does not permit the whole answer; otherwise the dial list is the network filter of the answer |
| PolicyDial.UsableMeaning | ssrf.go:51-60 | the filter keeps exactly the answers of the network |
| PolicyDial.UsableByNumber | ssrf.go:96-105 | in numbers: tcp4 keeps exactly the answers between 0xffff00000000 and 0xffffffffffff, tcp6 exactly the others, any other network all |
| PolicyDial.UsableKeepsOrder | ssrf.go:51-60 | the filter keeps the order of the answer |
| PolicyDial.FamiliesPartition | ssrf.go:96-105 | tcp4 and tcp6 share out an answer without overlap |
| PolicyDial.UsableIsPublic | ssrf.go:42-60 | no address left for dialing by a permitted name lies in a blocked range |
| PolicyDial.DialContext | ssrf.go:21-76 | from the given address to every dial and the reply: refused targets are not dialed, at most one lookup, dials are a prefix of the filtered answer and all of it before a failure, none is in a blocked range or of the other family, and the reply is the one the dials' own answers call for |
| IpPolicy.BlockedIffInTable | ssrf.go:184-239 | isBlockedIP is true exactly for the addresses in the CIDR table |
| IpPolicy.MappedFormAgrees | ssrf.go:211-227 | an IPv4 address and its IPv4-mapped form get the same verdict |
| IpPolicy.InvalidInput | ssrf.go:189-201 | nil is blocked, other lengths than 4 and 16 are not |
| IpPolicy.PermittedHostIsPublic | redirect.go:174-202 | a permitted host has an address, and none of its addresses is nil or in a blocked range |
| IpPolicy.PublicHostIsPermitted | redirect.go:174-202 | and a host all of whose addresses are public is permitted |
| Watchdog.LazyRefinesEager | guard.go:14-20 | every run of the lazy watchdog is a run of one that restarts its timer on every Reset, with the same calls at the same times and cancelling at the same instant |
| Watchdog.EagerRefinesLazy | guard.go:14-20 | conversely, for every run of the eager watchdog the lazy one has a run with the same calls at the same times and the same cancellation |
| Watchdog.CancelInstant | guard.go:66-82 | a cancellation comes exactly timeout after the last timestamp, never later, and never when disabled |
| Watchdog.IdleWatchdog.constructor | guard.go:30-42 | a new watchdog, armed unless its timeout is not positive |
| Watchdog.IdleWatchdog.Await | guard.go:66-82 | while time passes, the due firings cancel at lastTick + timeout if that instant comes, and otherwise only re-arm |
| Watchdog.IdleWatchdog.Play | guard.go:44-82 | under any script of Resets and Stops the object runs as the lazy watchdog with exactly these calls, and cancels at the first silence of one timeout that no Stop precedes, if there is one |
| WatchdogInterleaving.CancelSafety | guard.go:46-82 | over all interleavings cancel is called at most once, never if a Stop won the flag, and only for a tick at least timeout older than the clock read before it |
| WatchdogInterleaving.WinnerIsFinal | guard.go:58-73 | whoever wins the done flag keeps it |
| WatchdogInterleaving.StopIsPermanent | guard.go:54-64 | after a Stop wins, no continuation cancels, and the timer is re-armed at most once more |
| WatchdogInterleaving.FiresNeverOverlap | guard.go:66-82 | timer goroutines never overlap, and none is active while the timer is armed |
| WatchdogInterleaving.NeverDeaf | guard.go:66-82 | while done is not set, the timer is armed or a timer goroutine is still to decide |
| WatchdogInterleaving.StillCancels | guard.go:66-82 | from every reachable state in which done is not set, time and the timer alone lead to cancel |
| WatchdogInterleaving.NeverMisled | guard.go:70-71 | with serial Resets, a fire that cancels had loaded its tick when the latest stored timestamp was at least timeout old |
| WatchdogInterleaving.EarlyIff | guard.go:66-77 | exactly when the flag is won, or cancel called, less than timeout after a stored timestamp: the look was too early, or a fresh timestamp was stored between the look and that moment |
| WatchdogInterleaving.SerialEarlyIff | guard.go:66-77 | with serial Resets only a timestamp stored between the look and that moment can do it, and any that is less than timeout old does |
| WatchdogInterleaving.ResetCanBeLost | guard.go:44-77 | from every reachable state in which done is not set, one lone Reset can store its timestamp and the stream be cancelled at that very instant |
| WatchdogInterleaving.ResetIsSafeIff | guard.go:44-77 | a new Reset cannot be followed by a flag won within timeout of a stored timestamp iff done is set already |
| WatchdogInterleaving.OverlapCanMislead | guard.go:44-71 | from every reachable armed state with a Reset under way and another just called, at every positive timeout, some continuation without further Resets cancels by a fire that looked after the fresh timestamp had been stored |
| WatchdogInterleaving.ResetCanMisleadIff | guard.go:44-71 | after serial Resets that left the watchdog armed, one more Reset can make a fire look at a stale timestamp and cancel iff another Reset is under way |
| WatchdogInterleaving.TwoResetsCanMislead | guard.go:44-71 | at every positive timeout, two overlapping Resets at the start can do so |
| TransferRate.RateTracker.constructor | guard.go:258-260 | an empty tracker |
| TransferRate.RateTracker.ObserveAt | guard.go:262-301 | after any non-decreasing observations the queue, the running sum, the rate and the verdict equal a recomputation over the whole history |
| TransferRate.RateTracker.Record | guard.go:271-278 | a positive count becomes a sample and fixes the first time once |
| TransferRate.RateTracker.Trim | guard.go:279-291 | dropping the stale front filters the queue and keeps the sum |
| TransferRate.TrimIsFilter | guard.go:279-291 | on a sorted queue, cutting the front is filtering by the cutoff |
| TransferRate.Recomputed | guard.go:271-291 | trimming the trimmed queue equals filtering the whole history |
| TransferRate.VerdictIsExact | guard.go:296-300 | truncating the rate to an integer never changes the comparison with the floor |
| GuardedBody.GuardedReader.constructor | guard.go:126-143 | a fresh body with the guards its configuration asks for and the compressed bytes already taken |
| GuardedBody.Open | guard.go:126-143 | with gzip the header is read and counted at once, and a header that cannot be read gives no body |
| GuardedBody.GuardedReader.Read | guard.go:145-183 | one Read in place is one step of the specification that recomputes everything from the history, and tickles the watchdog iff it brought bytes |
| GuardedBody.GuardedReader.Guards | guard.go:162-175 | the size, rate and ratio verdicts in order; the sample is recorded unless the size cap already failed |
| GuardedBody.GuardedReader.Close | guard.go:185-213 | any number of Closes closes the inner body once, reports the totals once and keeps returning the first error |
| GuardedBody.GuardedReader.ReadAll | guard.go:145-183 | a run of Reads gives the answers of the specification |
| GuardedBody.Life | guard.go:126-213 | open, any Reads, two Closes: one inner close and one report, of exactly the bytes handed out and all compressed bytes including the header |
| GuardedBody.ReadWatched | guard.go:145-155 | over a run of Reads under the watchdog, the answers are the specified ones and the context is cancelled at the first instant at which no bytes have come for a whole timeout, if any |
| GuardedBody.NothingIsLost | guard.go:155-183 | bytes handed out are the bytes taken from the source, in order, even on guard errors, and the counters count them |
| GuardedBody.TooLargeIff | guard.go:156-164 | the size error is raised exactly on the Reads that bring bytes beyond the cap |
| GuardedBody.OnceOverAlwaysOver | guard.go:156-164 | after one size error every later Read with bytes has one |
| GuardedBody.CapAfterCleanRead | guard.go:156-164 | after a Read without error the body is within its cap, except after an empty Read on a body already over it |
| GuardedBody.EmptyReadHidesTheCap | guard.go:156-164 | the exception happens |
| GuardedBody.RatioAfterCleanRead | guard.go:170-175 | after a Read with bytes and no error, and 64 KiB of compressed input, the ratio bound holds |
| GuardedBody.BombIff | guard.go:170-175 | the ratio error is raised iff no earlier check failed, bytes came, 64 KiB have been taken from the wire, and the bytes handed out exceed the allowed multiple |
| GuardedBody.TooSlowIff | guard.go:165-169 | the rate error is raised iff no earlier check failed, bytes came, a window has passed since the first sample, and the exact bytes in the window are below the floor |
| GuardedBody.ErrorPrecedence | guard.go:145-183 | each of the six answers of a Read, iff: done context first, then size, rate and ratio, then the context again and the error of the source |
| Backoff.New | gttp.go:184-197 | any settings are normalised to 0 < waitMin <= waitMax and 0 < maxRetryAfter |
| Backoff.SettingsNotGiven | gttp.go:57-61 | waits that are not set are 250 milliseconds, two seconds and a minute |
| Backoff.BoundExactIff | retry.go:144-150 | the int64 bound is min(waitMin * 2^attempt, waitMax) iff the wrapped product does not land strictly between 0 and waitMax |
| Backoff.BoundIsIdeal | retry.go:144-150 | the formula holds for every attempt when the odd part of waitMin times waitMax is at most 2^62 |
| Backoff.ProductConditionSuffices | retry.go:144-150 | waitMin * waitMax at most 2^62 is enough |
| Backoff.CapPreventsOverflowIff | retry.go:130-145 | the capped shift keeps every product within int64 iff waitMin is one nanosecond |
| Backoff.CommonSettingsAreExact | gttp.go:51-52 | the default waits, and one second to thirty seconds, are exact at every attempt |
| Backoff.BoundCanUndershoot | retry.go:146-150 | a configuration whose bound wraps far below waitMin |
| Backoff.ExponentialRange | retry.go:144-157 | the jitter argument is positive and did not overflow, the wait is in (0, waitMax], and it is at least waitMin iff the product does not wrap below it |
| Backoff.ParseServerWaitHint | retry.go:163-187 | the loop over the three headers returns the first positive request, clamped |
| Backoff.HintMeaning | retry.go:160-198 | the first header with a positive request decides, capped by maxRetryAfter and at least the smaller of waitMin and maxRetryAfter |
| Backoff.HintFloorIff | retry.go:160-198 | a hint is at least waitMin iff waitMin is at most maxRetryAfter |
| Backoff.HintBelowWaitMin | retry.go:189-198 | accepted settings and a header whose wait is below waitMin |
| Backoff.DeltaHonouredIff | retry.go:207-296 | a delay in seconds is taken as it is iff its nanoseconds fit int64, in Retry-After and RateLimit-Reset; in X-RateLimit-Reset it never wraps |
| Backoff.ClampedDelayIff | retry.go:160-198 | when the wait for a Retry-After is the clamp of what it asks for, wrapped or not, and when the header is ignored |
| Backoff.HugeDelayWraps | retry.go:207-213 | the header value 18446744074 gives a wait of 290 milliseconds under the default settings |
| Backoff.WaitRange | retry.go:134-158 | whatever the headers say, a wait is positive and at most the larger of waitMax and maxRetryAfter |
| Backoff.WaitIsRight | retry.go:134-231 | the wait is exactly the one asked for: Retry-After in seconds or as a date, else RateLimit-Reset, else X-RateLimit-Reset in seconds or as an epoch, floored at waitMin and then capped; with no positive request, waitMin plus the draw, or the bound |
| Backoff.RightWaitIsUnique | retry.go:134-231 | that relation leaves one wait for every response and draw |
| Backoff.FiveSecondsAreFive | retry.go:138-142 | a Retry-After of 5 is waited for five seconds under the default settings |
| Backoff.EveryWaitIsDrawn | retry.go:152-157 | above waitMin the waits are exactly those from waitMin to the bound, each for exactly one draw |
| Backoff.ParseInt64Decimal | retry.go:207-222 | parsing inverts decimal printing, with either sign, within int64 and nowhere else |
| Backoff.ParsesOnlyNumbers | retry.go:207-222 | only an optional sign and digits parse |
| Retry.BufferedIff | retry.go:312-330 | a stream is accepted iff it reads and closes cleanly and is at most maxBytes long, and is then buffered whole |
| Retry.LargestLimitReadsNothing | retry.go:312-315 | at the largest limit nothing is read and the body becomes empty |
| Retry.CompleteIff | retry.go:312-345 | an accepted buffer is the whole stream iff the limit is not the largest one or the stream is empty |
| Retry.Request.Prepare | retry.go:298-345 | the three kinds of body, the error of each failure, and the new body, length and rewinder of an accepted stream |
| Retry.Gate | retry.go:50-63 | a body is made replayable only when the request could be retried |
| Retry.WaitForRetry | retry.go:347-372 | sleep and rewind, and the three ways they fail |
| Retry.Attempts | retry.go:71-94 | the loop ends in one of two ways, with the trace that belongs to it |
| Retry.RoundTrip | retry.go:40-95 | refused bodies dispatch nothing; otherwise the trace is that of the retry specification |
| Retry.Accounting | retry.go:71-95 | attempts are 0, 1, ... and at most maxRetries + 1; the observer hears of every attempt but the returned one; exactly the superseded responses are closed, once, in order |
| Retry.EveryActionIsProper | retry.go:71-95 | in every run each dispatch after the first carries a fresh body, only superseded responses are drained, of at most 64 KiB, and closed, and each sleep is within the bounds |
| Retry.RetriedIff | retry.go:110-128 | of a run exactly these attempts are given up: below the limit, for a retryable method, those whose status is configured or whose failure is transient, or with a custom check those it says |
| Retry.RunIsDetermined | retry.go:71-95 | what the attempts meet determines result and trace |
| Retry.SleepsAreRight | retry.go:72-81 | the sleeps of a run, in order, are exactly the waits that the superseded attempts ask for |
| Retry.SleepIsBounded | retry.go:71-90 | for all headers every sleep of a run is positive and at most the larger of waitMax and maxRetryAfter, and their sum at most maxRetries times that |
| Retry.TurnaroundOrder | retry.go:72-94 | between two dispatches come the report, the drain, one close and one sleep, in that order, and then a fresh body |
| Retry.SingleAttempt | retry.go:50-63 | a method that is not retryable is dispatched once with its original body |
| Retry.SameContentEveryTime | retry.go:54-82 | every dispatch of a run has the same content, each after the first from an unread body; it is the original content except under the largest limit |
| Retry.DispatchedBodies | retry.go:54-82 | the body of every dispatch, by the body and GetBody of the caller |
| Query.UnescapeEscape | redirect.go:83-91 | unescaping what was escaped gives the bytes back |
| Query.EscapeIsNormal | redirect.go:83-91 | what is printed uses letters, digits, "-_.~" and '+' as they are and upper-case escapes for the rest |
| Query.NormalIsEscape | redirect.go:83-91 | and it is the only such text with its meaning |
| Query.Reads | redirect.go:64-65 | an escape in digits of either case reads as its byte, '+' and %20 as a space, and any other byte but '%' as itself |
| Query.UnescapesIff | redirect.go:64-65 | text can be unescaped iff every '%' is followed by two hexadecimal digits |
| Query.ParseIgnoresCase | redirect.go:64-65 | the case of the digits of escapes never matters to parsing |
| Query.CanonicalIgnoresCase | redirect.go:64-95 | nor to the canonical form of a query that parses |
| Query.ParseConcat | redirect.go:64-65 | an '&' separates: the parameters are those before it, then those after it |
| Query.EmptySegmentsDoNotMatter | redirect.go:64-65 | a leading, trailing or doubled '&' changes nothing |
| Query.SegmentMeaning | redirect.go:64-65 | everything after the first '=' is the value; without '=' it is empty |
| Query.SemicolonIsAnError | redirect.go:64-65 | any ';' makes a query unparseable |
| Query.ParseEncode | redirect.go:64-95 | parsing a printed list of pairs gives the list back, in order |
| Query.CanonicalKeepsParameters | redirect.go:61-95 | the canonical form holds the same parameters, each as often |
| Query.CanonicalIsComplete | redirect.go:61-95 | two parseable queries have one canonical form iff they hold the same parameters; an unparseable one collides with no other |
| Query.CanonicalIsIdempotent | redirect.go:61-95 | canonicalizing twice changes nothing |
| Query.CanonicalIsOrdered | redirect.go:72-82 | the canonical parameters are in the order of their keys, then of their values |
| Query.LexMeaning | redirect.go:72-82 | that order is the dictionary order of byte strings |
| Query.FlattenIsSort | redirect.go:72-93 | sorted keys with sorted values are the sorted list of pairs |
| Query.WriteValues | redirect.go:84-92 | the inner loop prints the values of one key with the separators in the right places |
| Query.CanonicalizeQuery | redirect.go:64-95 | map, sorted keys, sorted values and one builder produce the canonical form, whatever the order of the map |
| Redirect.NormalizeURL | redirect.go:20-59 | the builder writes the key |
| Redirect.KeyIff | redirect.go:20-59 | two URLs share a key iff scheme, host and port text, path and query agree |
| Redirect.HostPortIff | redirect.go:40-45 | the host and port text is ambiguous only between a host with a port and a host that ends in that text |
| Redirect.KeyMeaning | redirect.go:20-59 | two URLs share a key iff they are the same resource, or differ in user information only, or one names a port that the other has in its host |
| Redirect.KeyIsComplete | redirect.go:20-59 | for hosts without colons the key identifies scheme, host, effective port, path and query parameters, whatever the user information |
| Redirect.KeyIgnoresCase | redirect.go:20-30 | the case of scheme and host never changes the key |
| Redirect.PortMattersIff | redirect.go:31-39 | the port makes no difference iff it is missing or 80 for http and 443 for https |
| Redirect.ConfusionNeeds | redirect.go:31-45 | without colons in the hosts only different user information is confused |
| Redirect.Check | redirect.go:118-163 | the verdict of the checks in order; an accepted redirect loses exactly its sensitive headers unless scheme and host agree up to case and the ports agree, and then, or when refused, it changes nothing |
| Redirect.SameOriginIff | redirect.go:195-202 | origins agree iff scheme and host have the same bytes up to the case of letters and the ports are equal |
| Redirect.ScrubbedMeaning | redirect.go:153-160 | a sensitive name is removed under every spelling |
| Redirect.DowngradeIff | redirect.go:137-143 | refused as a downgrade iff it goes from https to http and nothing before objects |
| Redirect.Scrub | redirect.go:153-160 | the sensitive headers are removed and no others |
| Redirect.LoopIff | redirect.go:122-135 | for all URLs a redirect is refused as a loop iff it is within the limit and its resource, or one it is confused with, was requested before |
| Redirect.LoopMeansRevisitIff | redirect.go:122-135 | exactly when "refused as a loop iff requested before" is right |
| Redirect.LoopMeansRevisit | redirect.go:122-135 | it is right on every chain without IPv6 addresses and with one user information |
| Redirect.IPv6RedirectRefused | redirect.go:31-45 | a redirect between two different IPv6 hosts that is refused as a loop |
| Redirect.UserRedirectRefused | redirect.go:31-45 | a redirect that only adds user information, refused as a loop |
| Redirect.ChainNeverRepeats | redirect.go:122-135 | an accepted chain has distinct keys and at most maxRedirects requests |
| Redirect.FiniteSiteBoundsChain | redirect.go:130-135 | on a site of N canonical URLs the loop check alone bounds a chain by N |
| Redirect.ChainOnlyUpgrades | redirect.go:137-143 | with downgrades refused, a chain is some http requests and then https only |
| Redirect.ChainStaysPublic | redirect.go:145-202 | every redirect target of an accepted chain is public: its literal address, or all of the addresses its host resolved to |

## Left out

- gttp.go beyond the normalisation of waits, http2.go, TLS, proxies and connection pooling: configuration of `net/http`.
- safety.go and guardedWriter: header edits and wiring; the wrapper around a request body has the watchdog calls of the response body and no guards.
- Contexts: a flag that is done or not, checked where the code checks it; causes are one error kind.
- gzip decoding, sockets, DNS and TLS: arbitrary bytes, counts, outcomes and answer lists.
- Floating point: the rate and the ratio use exact division instead of float64.
- int64 overflow of byte counters: readBytes, compressed totals and sample sums are unbounded integers; 2^63 bytes are out of reach.
- Time.Sub saturation and the zero time.Time: observation times are integers, and the first time is an option.
- HTTP-date parsing: a date arrives as a timestamp in nanoseconds.
- net.SplitHostPort, net.ParseIP, url.Parse and EscapedPath: targets and URLs arrive in parts; zones of IPv6 answers are not modelled.
- Unicode case folding: schemes, hosts and header names are folded as ASCII; textproto's canonical header names are compared in lower case.
- net/url's limit on the number of query parameters.
- Header scrubbing over a whole chain: it depends on how `net/http` copies headers between hops.
- checkInitial: the same policy as checkIPPolicy behind a flag.
- Error message texts and the wrapping of one error in another: errors are kinds.
- GuardedBody.Open: a header that cannot be read gives no body; that the watchdog made before it keeps running is not followed.
- GuardedBody.GuardedReader.Read: takes non-decreasing clocks, because the tracker is only promised those.
- DialCoordinator.Race.Dial: a select case is one atomic step, so the clock does not move between starting an attempt and re-arming the timer; the cancel on leaving shows only in that a dial may then end in any way.
- WatchdogInterleaving.CancelSafety: the fine-grained model is of a watchdog with a positive timeout; with any other there is no timer and its methods do nothing.
- Watchdog.IdleWatchdog.Play: steps are atomic and due firings come first; WatchdogInterleaving has the finer steps, on values.
- Retry.SameContentEveryTime: takes the contract of a caller's GetBody, that it returns the original content.
