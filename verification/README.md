# Verified model of the tidewaiter registry proxy

Tidewaiter is a caching proxy between package managers and public registries. This project models its stateful and
arithmetical core in Dafny and proves what that core promises. Each module follows one component of the program:

- `Streams`, `RewriteSpec`, `RewriteInTurn`, `InTurnExact`, `Rewrite`: the streaming rewriter of download origins. The
  specification is one left-to-right scan of the whole body; the code sees the body in arbitrary reads.
- `Coordination`, `LeaseTiming`, `Completion`, `Fill`, `FillFates`: the shared lease and cooldown table, replicas that renew a lease
  against a clock, the handlers and background store of one fill with their ownership flags and deferred calls, and the
  leader/waiter group inside one process. All are step relations over every interleaving.
- `Freshness`, `Capture`, `FileStore`: ages and expiry of npm artifacts, bounded capture while streaming, staging of
  hits, and the framed cache file.
- `Upstream`, `Slots`: the upstream request loop with its retries, delays and cooldowns, and the slots and nested closing
  functions of its response bodies.
- `Policy`, `Intel`, `Server`, `Cache`, `Osv`: the decision pipeline, and vulnerability lookups over two bounded caches.
- `Prewarm`, `Text`, `Maven`: the prewarm worker pool, and the Maven paths it prints and the proxy parses.
- `JsonSkip`, `TokenBucket`: finding one member of a JSON document token by token, and the explain rate limit.

Times are integer nanoseconds on one non-decreasing clock (`Unix` floors to seconds); lease owners are fresh. A `Reader`
may split a body into any reads and fail at any point, and a `Writer` may take any part of what it is given. Digests
and the cache record's encoding are arbitrary functions.

Results where the code and its comments, or an obvious expectation, differ:

- The comment on `rewriteStream` (internal/proxy/rewrite.go:34-35) asks that no old value overlap another. Streaming needs
  less: it is exact, for every body, split and replacement text, if and only if no text that can match contains a rule's
  text that ends before it does (`RewriteSpec.StreamingIsExact`).
- The same comment says that this keeps one pass equal to applying the rules in turn. For two rules whose texts never
  overlap each other, nor the first itself, that holds on every body if and only if the first replacement overlaps the
  second text at no placement, or the second rule replaces its text by itself (`InTurnExact.TwoRulesInTurnIff`). For the
  PyPI rules the condition is on the prefix alone (`InTurnExact.PypiInTurnIff`); a prefix that starts like "http" meets
  it unless it contains the plain origin (`InTurnExact.AbsolutePrefixInTurnIff`), and the prefix `/pypi/` of a base URL
  without a host does not (`InTurnExact.RootPrefixBreaks`).
- A lease of d renewed every d/3 excludes overlapping downloads if and only if acquisition latency + d/3 + renewal
  timeout is at most d - 1s and twice the timeout is too (`LeaseTiming.ExclusiveExactlyWhenSafe`). The first bound alone
  does not suffice, because a renewal that overruns a tick is followed at once by the next
  (`LeaseTiming.FirstRenewalBoundIsNotEnough`).
- An allow rule equal to a package URL exempts it from the malware block only if the URL has no `*` or `?`
  (`Server.MalwareIsBlocked`, `Server.WildcardIsNotExempt`).
- A malicious result is kept for seven days, but only while it is not pushed out: a query during an outage finds it if
  and only if no malicious fetch of another key has pushed it out of a full cache since, or its recent answer is still
  cached (`Osv.MalwareOutlivesOutage`).
- The key of a cached vulnerability lookup (internal/intel/osv.go:59) belongs to one package only, if and only if neither
  its name nor its version holds a `|` that could part them elsewhere (`Osv.KeyIsSharedIff`).

## Model

| member | source | states |
|---|---|---|
| `RewriteSpec.StreamingIsExact` | internal/proxy/rewrite.go:31-55 | streaming equals rewriting the whole body for all bodies, reads and replacements if and only if the texts are splittable |
| `RewriteSpec.FedIsPrefix` | internal/proxy/rewrite.go:41-54 | however the body is split, bytes written plus the rewrite of the held-back tail and any continuation is the rewrite of the whole |
| `RewriteSpec.FlushThenRest` | internal/proxy/rewrite.go:57-95 | one flush followed by the rewrite of what it holds back and of anything later is the rewrite of all of it |
| `RewriteSpec.SplitBreaks` | internal/proxy/rewrite.go:89-92 | texts that are not splittable have a body, a split and replacements for which streaming is wrong |
| `RewriteSpec.CutAfterLastMatch` | internal/proxy/rewrite.go:89-94 | past the last match the output can be cut where the data is cut |
| `RewriteInTurn.OnePassIsInTurn` | internal/proxy/rewrite.go:34-36 | for independent rules one pass equals applying the rules one after the other |
| `RewriteInTurn.FirstThenOthers` | internal/proxy/rewrite.go:34-36 | one pass with all rules is one pass with the first, then one with the others |
| `RewriteInTurn.ApartIsSplittable` | internal/proxy/rewrite.go:34-35 | texts that never overlap, as the comment demands, are splittable |
| `RewriteInTurn.RegistryRulesSplit` | internal/proxy/rewrite.go:16-29 | the npm and PyPI rules are splittable for every prefix |
| `InTurnExact.TwoRulesInTurnIff` | internal/proxy/rewrite.go:34-36 | for two rules with separate texts one pass equals the rules in turn on every body if and only if the first replacement overlaps the second text nowhere, or the second rule changes nothing |
| `InTurnExact.TrapCatches` | internal/proxy/rewrite.go:34-36 | for every overlapping placement, the body on which the two differ |
| `InTurnExact.PypiInTurnIff` | internal/proxy/rewrite.go:21-25 | for every prefix, the PyPI rules in one pass equal the rules in turn if and only if prefix + "files/" overlaps the plain origin at no placement |
| `InTurnExact.AbsolutePrefixInTurnIff` | internal/proxy/rewrite.go:16-29 | for a prefix that starts like "http" that condition is that the plain origin does not occur in prefix + "files/" |
| `InTurnExact.RootPrefixBreaks` | internal/proxy/rewrite.go:16-29 | a prefix and a body for which one pass differs from the rules in turn |
| `InTurnExact.NpmInTurn` | internal/proxy/rewrite.go:19-20 | the single npm rule is always the same in turn |
| `InTurnExact.ApartIsFinite` | internal/proxy/rewrite.go:34-35 | never overlapping in any text is the same as disagreeing at each of finitely many placements |
| `Rewrite.IndexFrom` | internal/proxy/rewrite.go:97-103 | the first occurrence at or after a position, or -1 exactly when there is none |
| `Rewrite.Pick` | internal/proxy/rewrite.go:67-72 | the earliest known occurrence, the lowest rule among equals |
| `Rewrite.Advance` | internal/proxy/rewrite.go:83-87 | searching again only for overtaken rules leaves every entry of the index correct |
| `Rewrite.WriteRewritten` | internal/proxy/rewrite.go:60-95 | the buffer's output is the specified scan of the part it reports consumed; after a write error, a prefix of it; the loop ends |
| `Rewrite.RewriteStream` | internal/proxy/rewrite.go:36-55 | for every pattern of reads the output is the rewrite of the whole body; after a failure it is a prefix of the rewrite of every completion |
| `Coordination.RenewMeansUnbroken` | internal/coordination/dynamodb.go:157-181 | in every run, a successful renewal means nobody else acquired the key since this lease was acquired |
| `Coordination.NeverAgain` | internal/coordination/dynamodb.go:183-202 | an owner that no longer holds a key never does again, so its renewals and releases cannot touch another's lease |
| `Coordination.LeaseHolds` | internal/coordination/dynamodb.go:157-202 | whatever others try and whenever expired records are deleted, a lease stays with its owner for its duration less one second |
| `Coordination.TakeoverIsLate` | internal/coordination/dynamodb.go:80-84 | nobody else can take a lease written at t for d until strictly after t + d - 1s, hence after the tick at 2d/3 when d is at least 3s |
| `Coordination.RunsGoOn` | internal/coordination/dynamodb.go:65-202 | any fresh acquisition, renewal or release, deletion of an expired record or passing of time can come next, and does to the table what it says |
| `Coordination.CooldownReadsMaximum` | internal/coordination/dynamodb.go:96-144 | for every order of writes and deletions a read returns the largest value ever set if still in the future, else nothing |
| `Coordination.CooldownIsLatestSet` | internal/coordination/dynamodb.go:96-144 | a read returns a time exactly when that is the latest whole second ever set and still to come, and nothing exactly when all are past |
| `Coordination.CooldownCanBeSet` | internal/coordination/dynamodb.go:124-144 | a cooldown can be set at any time |
| `Coordination.LargestIsMaximum` | internal/coordination/dynamodb.go:124-144 | that largest value bounds every whole-second value set and is one of them |
| `Coordination.Coordinator.TryAcquire` | internal/coordination/dynamodb.go:65-94 | succeeds exactly under its condition and is the acquire step of the run model |
| `Coordination.Coordinator.Renew` | internal/coordination/dynamodb.go:157-181 | succeeds exactly for the named owner before expiry and is the renew step of the run model |
| `Coordination.Coordinator.Release` | internal/coordination/dynamodb.go:183-202 | deletes exactly the named owner's lease and is the release step of the run model |
| `Coordination.Coordinator.SetCooldown` | internal/coordination/dynamodb.go:124-144 | raises the route's value to the whole seconds given, never lowers it, and touches no other route |
| `Coordination.Coordinator.Cooldown` | internal/coordination/dynamodb.go:96-122 | returns the stored time only while it is in the future |
| `LeaseTiming.ExclusiveExactlyWhenSafe` | internal/proxy/fill.go:79-141 | over all runs of all replicas two downloads of one key never overlap, before a failed renewal cancels the first, if and only if the configuration is safe |
| `LeaseTiming.StepsAreTableEvents` | internal/coordination/dynamodb.go:65-202 | every step of a replica does to the key's record what the shared table does for the request it makes |
| `LeaseTiming.ReachedIsSecure` | internal/proxy/fill.go:119-141 | in a safe configuration every downloading replica still owns the record and is decided in time, in every reachable world |
| `LeaseTiming.FirstRenewalLate` | internal/proxy/fill.go:124-134 | a run with two overlapping downloads whenever the first renewal can come too late |
| `LeaseTiming.SecondRenewalLate` | internal/proxy/fill.go:126-134 | a run with two overlapping downloads whenever a renewal right behind a slow one can come too late |
| `LeaseTiming.FirstRenewalBoundIsNotEnough` | internal/proxy/fill.go:124-131 | a 30s lease with a 19s poll interval meets the first bound and still overlaps |
| `Fill.FillGroup.Begin` | internal/proxy/fill.go:24-36 | joins the key's open call or opens a new unclosed one, keeping the group sound |
| `Fill.FillGroup.Finish` | internal/proxy/fill.go:38-46 | closes a call only if it is still the key's, so never twice |
| `Fill.ClosingTwicePanics` | internal/proxy/fill.go:44-45 | finishing an open call whose signal is closed would be a second close |
| `Fill.OneFillPerKey` | internal/proxy/fill.go:48-117 | in every interleaving at most one process leads, fetches, captures or stores a key |
| `Completion.CompletesExactlyOnce` | internal/proxy/proxy.go:245-340 | on every path through both handlers, their deferred calls and the store, in every interleaving: the call is finished at most once, only when nothing but deferred calls remains and a started Put has returned; when all is over it was finished, the lease is released, the temporary file gone, and the artifact put exactly if no statement failed and it was to be stored |
| `Completion.LeftDecreases` | internal/proxy/proxy.go:531-610 | every statement and deferred call brings handler and store closer to the end |
| `Completion.NeverStuck` | internal/proxy/proxy.go:249-255 | the two threads never block each other for good in the once-only completion |
| `Completion.CalledOnce` | internal/proxy/proxy.go:249-255 | the two flags let exactly one of the deferred calls and the store call the completion, and it is called |
| `Fill.ClosedExactlyOnce` | internal/proxy/fill.go:73-117 | no signal is closed twice; every call has one leader and is closed exactly when that leader quit or its completion ran to the end, after Put returned and with the lease not held |
| `Fill.DoneMeansClosed` | internal/proxy/fill.go:38-46 | a leader that is done has closed its call, and every open call has a leader that is not done |
| `Fill.DoneIsDone` | internal/proxy/fill.go:48-117 | a process is done exactly when there is nothing left it could do |
| `Fill.LeadersProgress` | internal/proxy/fill.go:79-116 | every step of a leader brings it closer to its end except polling for a lease another replica holds; calling a completion again changes nothing |
| `Fill.NoLostWakeup` | internal/proxy/fill.go:48-71 | a waiter can go on, or the leader of the call it waits for can take a step that brings it closer to closing it |
| `FillFates.EveryRequestEnds` | internal/proxy/fill.go:48-117 | in every run a request that is done was served from the cache, gave up, or fetched the artifact itself, and a lease it acquired is released |
| `FillFates.WaitersGoOn` | internal/proxy/fill.go:49-70 | a waiter leaves only served or cancelled; woken to a miss it joins again, as the leader of a new call or a waiter of the open one |
| `Fill.WakesAfterCompletion` | internal/proxy/fill.go:55-59 | a waiter goes on only when the leader of its call has quit or completed |
| `Freshness.DeltaSeconds` | internal/proxy/npm_cache.go:108-114 | accepts exactly the non-empty digit strings of at most 32 bits, as that many seconds |
| `Freshness.DeltaSecondsReads` | internal/proxy/npm_cache.go:108-114 | every printed number of at most 32 bits, leading zeros or not, is read back, and no greater one |
| `Freshness.FreshnessLifetime` | internal/proxy/npm_cache.go:71-106 | from the header's text: a lifetime exactly when no value is quoted, every directive is understood, none repeats an age, the response is public and the age is positive; s-maxage wins |
| `Freshness.UnderstoodIs` | internal/proxy/npm_cache.go:81-98 | the directives that leave a response cacheable: five without a value and two with an age that can be read |
| `Freshness.PublicMaxAge` | internal/proxy/npm_cache.go:71-106 | "public, max-age=n" is fresh for n seconds, for every positive n of at most 32 bits, and for no other time |
| `Freshness.ReadsDirective` | internal/proxy/npm_cache.go:78-91 | a directive is read from its name in any case, with any space around name and value |
| `Freshness.ArrivesExactly` | internal/proxy/npm_cache.go:37-58 | a response has an age on arrival exactly when its Age and Date can be read and the age of section 4.2.3 of RFC 9111 at receipt is below the lifetime, and then that age |
| `Freshness.StoresExactly` | internal/proxy/proxy.go:570-585 | an entry is stored exactly while the response is fresh, and expires when its time to live or its freshness ends, whichever comes first |
| `Freshness.AgedIs` | internal/proxy/proxy.go:508-529 | the age shown is the larger of the age said and the age the Date gave at storing, plus the whole seconds since |
| `Freshness.AgedFits` | internal/proxy/proxy.go:508-529 | an age that fits 64 bits still does after ageing, and never shrinks |
| `Freshness.HitAgeIsCurrent` | internal/proxy/npm_cache.go:28-69 | the Age of a hit is below the lifetime, never above the current age of section 4.2.3 of RFC 9111 and less than 3s below it; expiry is the smaller of the TTL's and the freshness's end |
| `Freshness.StoredAge` | internal/proxy/proxy.go:570-585 | the stored headers understate the age at storing by less than two seconds and never overstate it |
| `Capture.CaptureSpool.Capture` | internal/proxy/proxy.go:674-700 | the spool holds and hashes a prefix of what it was offered, all of it unless it failed or more than the limit was offered |
| `Capture.StreamAndCapture` | internal/proxy/proxy.go:706-732 | the spool is offered exactly the bytes the client took; success means the whole body was sent |
| `Capture.ServeAndStore` | internal/proxy/proxy.go:553-593 | a put is requested only for the complete body, sent whole, with its size and digest and within the limit; a longer body is still sent whole; exactly the limit is stored |
| `Capture.CopyBounded` | internal/proxy/proxy.go:617-659 | writes at most the limit, a prefix of the source; success means all of it was written and hashed |
| `Capture.LoadCached` | internal/proxy/proxy.go:434-494 | a hit only for bytes whose length matches a valid, unexpired record and whose digest matches it digit by digit, staging at most the limit; an intact object is always a hit |
| `FileStore.RoundTrip` | internal/artifactcache/filesystem.go:119-178 | reading back what Put wrote yields the same record and body |
| `FileStore.OnlyTheWholeFile` | internal/artifactcache/filesystem.go:56-103 | every strict prefix and every extension of such a file is refused |
| `FileStore.ParseFramed` | internal/artifactcache/filesystem.go:56-103 | what Get makes of any file that starts with a frame: invalid, expired, or exactly its record and body |
| `FileStore.BigEndianRoundTrip` | internal/artifactcache/filesystem.go:63-66 | the length field decodes to what was encoded |
| `FileStore.MagicIs` | internal/artifactcache/filesystem.go:20 | the line a cache file starts with |
| `FileStore.CopyExactly` | internal/artifactcache/filesystem.go:196-237 | never writes more than the declared size, and for a progressing source succeeds exactly when it holds that many bytes |
| `FileStore.FileSystemStore.Put` | internal/artifactcache/filesystem.go:105-179 | every failure leaves all entries, and so every later answer, as they were; success stores exactly the frame of a body of the declared size and digest, and Get then answers with it |
| `FileStore.FileSystemStore.Get` | internal/artifactcache/filesystem.go:35-103 | finds exactly the files that are a frame around a valid, unexpired record and a body of its size, as that record with its safe headers and that body; an absent entry is gone |
| `FileStore.FindsExactlyFrames` | internal/artifactcache/filesystem.go:56-103 | the reader accepts a file if and only if it is such a frame |
| `FileStore.KeysAre` | internal/artifactcache/filesystem.go:24 | keys are sixty-four hexadecimal digits in lower case |
| `FileStore.SafeHeadersAre` | internal/artifactcache/cache.go:56-67 | exactly the nine named headers are kept, with their values |
| `FileStore.PutThenGet` | internal/artifactcache/filesystem.go:105-179 | once an entry is put its key answers with the record and body put until it expires and with nothing afterwards, and every other key answers as before |
| `Upstream.RetryAfterDelay` | internal/proxy/upstream.go:202-218 | a delay exactly for non-negative seconds or a date: those seconds, or the time until the date and none for a date gone by |
| `Upstream.RetryAfterSeconds` | internal/proxy/upstream.go:220-226 | the least number of whole seconds, at least one, that covers the delay |
| `Upstream.RateLimitBackoff` | internal/proxy/upstream.go:189-200 | a drawn delay within the backoff limit, and at least 100ms unless the maximum is less |
| `Upstream.BackoffLimits` | internal/proxy/upstream.go:189-193 | the limit is 1s, 2s, 4s, 8s, 16s and from then on 32s, or the configured maximum if that is less |
| `Upstream.RouteCooldowns.Set` | internal/proxy/upstream.go:50-59 | the recorded time never decreases |
| `Upstream.SetCooldown` | internal/proxy/upstream.go:171-179 | the cooldown is remembered locally and, if the write succeeds, in the shared table; neither is lowered |
| `Upstream.WaitForCooldown` | internal/proxy/upstream.go:145-169 | reads the shared cooldown if there is a coordinator and keeps the larger; refuses exactly a cooldown longer than the maximum, waits exactly the rest of a shorter one |
| `Upstream.LimitedDelay` | internal/proxy/upstream.go:105-116 | the delay asked for plus at most a tenth or a quarter of a second, not past the maximum if what was asked is within it; a backoff without a usable header |
| `Upstream.Do` | internal/proxy/upstream.go:61-129 | at most retries + 1 requests, each wait and the total bounded; each 429 sets a cooldown that ends its delay after it came, remembered locally and, where the write succeeds, in the shared table, and nothing else is set; why the call ended as it did: a cooldown too long, an interruption, the last reply, or a 429 handed on for cause; what it does with slots, bodies and its context is a run of the slot model |
| `Upstream.StillCooling` | internal/proxy/upstream.go:105-117 | after a call, until a 429's delay has passed since it came, a request for that registry waits or is refused |
| `Upstream.ReadingsFollow` | internal/proxy/upstream.go:69-128 | no 429 comes before the start of the call or before the cooldown of an earlier one was set |
| `Upstream.WaitingBound` | internal/proxy/upstream.go:61-129 | total planned waiting is at most (R+1)(MaxRetryAfter+QueueTimeout)+R*MaxRetryAfter |
| `Upstream.SumAdds` | internal/proxy/upstream.go:61-129 | waits made one after the other add up |
| `Upstream.CallerSettles` | internal/proxy/upstream.go:255-263 | closing the returned body any number of times gives its slot back and cancels the context exactly once |
| `Slots.ReleasedExactlyOnce` | internal/proxy/upstream.go:131-143 | however often either layer of a body is closed, no slot is given back twice and no context cancelled twice, and a call that is over has given back every slot and cancelled once |
| `Slots.OnceOnly` | internal/proxy/upstream.go:255-263 | each once flag alone makes a second release or close do nothing |
| `Slots.SlotsAreBodies` | internal/proxy/upstream.go:25-37 | over all runs the tokens in a limiter equal the calls being requested or with an unclosed body, within capacity and never negative |
| `Slots.CallsAreRuns` | internal/proxy/upstream.go:61-129 | each call of a reachable world got there by a run of its own, the runs Do makes |
| `Slots.AllSlotsReturn` | internal/proxy/upstream.go:250-263 | once every call has failed or its body was closed, all slots are free |
| `Slots.SlotsAreGranted` | internal/proxy/upstream.go:131-143 | a waiting call is given a slot exactly while the limiter has room |
| `Policy.MatcherIsRight` | internal/policy/policy.go:186-204 | the matcher accepts exactly the strings that can be cut into one piece per glob element |
| `Policy.GlobsMean` | internal/policy/policy.go:190-202 | a pattern matches exactly what can be cut into one piece for each character: a line's text for a star, one character for a question mark, itself for any other |
| `Policy.PlainMatchesItself` | internal/policy/policy.go:159-164 | a pattern without wildcards matches only itself |
| `Policy.CompileGlob` | internal/policy/policy.go:186-204 | refuses exactly the blank patterns, and compiles element by element |
| `Policy.NewEngine` | internal/policy/policy.go:136-157 | the rules are deny, allow, warn in that order; an error exactly when some pattern is blank |
| `Policy.FirstHit` | internal/policy/policy.go:175-179 | the position of the first matching rule, every earlier rule missing |
| `Policy.Evaluate` | internal/policy/policy.go:171-184 | the first matching rule decides, else the cooldown, else the package is allowed |
| `Policy.DenyComesFirst` | internal/policy/policy.go:149-152 | the deciding rule is a deny rule if and only if some deny pattern matches |
| `Policy.RuleOrder` | internal/policy/policy.go:149-152 | the deciding rule blocks, allows or warns exactly when a pattern of its kind matches and none of an earlier kind does |
| `Intel.MalAlias` | internal/intel/decision.go:82-92 | non-empty exactly when the identifier or an alias is a MAL- one, and then such a one |
| `Intel.MaliciousIs` | internal/intel/decision.go:74-92 | malicious exactly when the identifier or an alias starts with MAL-, or CWE-506 is among the classifications |
| `Intel.MalwareDecision` | internal/intel/decision.go:55-72 | blocks for the first malicious finding, exactly when there is one |
| `Intel.Decide` | internal/intel/decision.go:11-53 | malware, then the threshold, then the default; blames the first of the most severe findings |
| `Server.RuleDecision` | internal/server/server.go:389-403 | a matched rule decides everything but malware and failed lookups |
| `Server.Decide` | internal/server/server.go:347-387 | takes the verdict the precedence lemmas are about; the cause it names (malware, vulnerability, failed lookup, rule, unknown package, cooldown) is the real one, and nothing is blocked without a cause |
| `Server.MalwareIsBlocked` | internal/server/server.go:347-403 | a checked package with a malicious finding is blocked unless the first matching rule is an allow rule equal to its wildcard-free URL, and then allowed |
| `Server.WildcardIsNotExempt` | internal/policy/policy.go:159-164 | a package URL with a wildcard in it is blocked although the allow rule repeats it |
| `Server.DenyAlwaysBlocks` | internal/server/server.go:362-364 | a matching deny rule blocks whatever other rules, settings and lookups say |
| `Server.UnmatchedIsBlockedIff` | internal/server/server.go:375-387 | without a matching rule, blocked exactly when too young, malicious, too severe, or having findings under a blocking default |
| `Server.UnmatchedOtherwise` | internal/server/server.go:375-387 | without a matching rule, what is not blocked is allowed exactly without findings, and gets the default action otherwise |
| `Server.RuleHasItsWay` | internal/server/server.go:389-403 | a matched allow or warn rule decides when the findings hold no malware, allow before warn |
| `Server.FailedFindings` | internal/server/server.go:405-410 | when only the findings could decide and cannot be had: blocked, or a warning if failing open is set |
| `Server.FailedPublishTime` | internal/server/server.go:354-358 | the same when the publish time is needed and cannot be had |
| `Server.UnknownPackages` | internal/server/server.go:369-373 | an unidentified package is blocked, or a warning if failing open is set |
| `Server.FailClosed` | internal/server/server.go:347-410 | with failing open off, whatever is let through was identified, not denied, and had every lookup it needed answered |
| `Server.MoreDenyBlocksMore` | internal/server/server.go:347-403 | adding deny patterns never lets a blocked package through |
| `Cache.Cache.Get` | internal/cache/cache.go:28-41 | returns an unexpired value and removes an expired one, keeping the cache sound |
| `Cache.Cache.Set` | internal/cache/cache.go:43-55 | a known key keeps its place; a new key in a full cache pushes out exactly the oldest |
| `Cache.Cache.Delete` | internal/cache/cache.go:57-61 | removes the key from the map and the order and nothing else |
| `Cache.Cache.Purge` | internal/cache/cache.go:63-68 | leaves the cache empty |
| `Cache.Cache.Enforce` | internal/cache/cache.go:70-79 | evicts at most the oldest first-inserted key and never the one just set |
| `Cache.Cache.Remove` | internal/cache/cache.go:81-89 | the key leaves the map and every place in the order, and nothing else changes |
| `Cache.Drop` | internal/cache/cache.go:83-88 | the loop that edits the order while scanning it removes every occurrence of the key and keeps the rest in order |
| `Cache.PutSound` | internal/cache/cache.go:43-55 | after a set the order still lists the keys once each, the limit holds and the key has its entry |
| `Cache.CacheInvariant` | internal/cache/cache.go:28-89 | after any sequence of operations the cache is sound, holds only latest entries, and has lost only what had expired or was pushed out since |
| `Cache.GetReturnsLatest` | internal/cache/cache.go:28-41 | Get returns the latest value set if and only if it has neither expired nor had its key pushed out since |
| `Cache.GetFindsLastSet` | internal/cache/cache.go:28-68 | told by the operations alone: Get finds the value of the key's latest Set exactly if nothing deleted or purged it since, its time to live has not run out and the key was not pushed out |
| `Cache.OrderIsInsertionOrder` | internal/cache/cache.go:43-55 | after any sequence of operations the order lists the keys by the Set that inserted each, so eviction takes the key inserted first |
| `Cache.NothingEvicted` | internal/cache/cache.go:70-79 | nothing is pushed out while every key ever set fits |
| `Osv.OSVProvider.Query` | internal/intel/osv.go:54-77 | no findings and no lookup for a package OSV does not cover; otherwise the effect on both caches and the answer, as the run lemmas use them |
| `Osv.LookedUp` | internal/intel/osv.go:150-163 | exactly named and versioned npm, PyPI, Maven and Go packages are looked up, under OSV's names |
| `Osv.KeyIsSharedIff` | internal/intel/osv.go:54-59 | another package has the same key if and only if name or version holds a bar that could part them elsewhere |
| `Osv.BarsCollide` | internal/intel/osv.go:59 | two packages with one key |
| `Osv.AnswerIsLastFetch` | internal/intel/osv.go:54-77 | in every run an answer is the most recent successful fetch for its key, whichever cache served it |
| `Osv.MalwareOutlivesOutage` | internal/intel/osv.go:63-73 | in every run, for seven days after a malicious fetch, a query whose own fetch fails returns that fetch's findings if and only if the key was not pushed out of the malicious cache since, or the recent answer is still cached |
| `Osv.OnlyMalwarePushes` | internal/intel/osv.go:70-75 | a key is pushed out only by a malicious fetch of another key; ordinary queries, however many, push out nothing |
| `Osv.NothingPushed` | internal/intel/osv.go:28-34 | in every run nothing is pushed out while at most 4096 keys have been fetched malicious |
| `Osv.CleanFetchForgets` | internal/intel/osv.go:70-75 | after a clean fetch an outage brings back no malicious answer |
| `Prewarm.Invariant` | internal/prewarm/prewarm.go:213-346 | every interleaving keeps each handed-out artifact counted, missing or with exactly one worker, until cancelled |
| `Prewarm.PassIsComplete` | internal/prewarm/prewarm.go:213-361 | a pass without error counted every artifact once under its declared route, artifacts = hits + misses = manifest length, at most retries + 1 fetches each, only hits when hits are required |
| `Prewarm.SucceedsExactlyIfBenign` | internal/prewarm/prewarm.go:213-361 | a pass that has ended succeeds exactly if every reply was a hit, or a miss where none is required, or a rate limit still to be retried, every checkpoint entry a hit or a miss, and nobody cancelled |
| `Prewarm.NeverStuck` | internal/prewarm/prewarm.go:339-349 | in every reachable state that has not ended something can act: the sender never blocks for good |
| `Prewarm.CancellationEndsWaits` | internal/prewarm/prewarm.go:299-301 | once the parent is cancelled or a worker failed, the sender can stop and no worker has to sit out its wait |
| `Prewarm.RunsAreBounded` | internal/prewarm/prewarm.go:213-349 | every run of a pass has at most artifacts * (2 * retries + 2) + workers + 2 steps |
| `Prewarm.TwoPasses` | internal/prewarm/prewarm.go:66-85 | the second pass fetches every artifact from its declared route again and succeeds only with hits alone |
| `Text.JoinSplit` | internal/prewarm/gradle.go:365-368 | joining what was split gives the string back, and no piece holds the separator |
| `Text.SplitJoin` | internal/registry/path.go:5-11 | splitting what was joined gives the pieces back |
| `Text.UnescapePath` | internal/prewarm/gradle.go:374-377 | decoding an encoded path as a whole gives the path |
| `Text.EscapesExactly` | internal/prewarm/gradle.go:375 | a byte is left alone exactly if it is a letter, a digit or one of - _ . ~ $ & + : = @, and else becomes a percent sign and two hexadecimal digits |
| `Text.FoldsExactlyDigits` | internal/proxy/proxy.go:483-485 | comparing without case identifies a string with a hexadecimal digest exactly when they agree digit by digit |
| `Text.LowerReads` | internal/proxy/npm_cache.go:80 | a name is read in lower case whatever the case of its letters |
| `Text.TrimSpaceCuts` | internal/proxy/npm_cache.go:79-80 | trimming cuts exactly the white space off both ends |
| `Text.SpacesAre` | internal/policy/policy.go:187 | the characters that count as white space, by code point |
| `Text.LowerIs` | internal/proxy/npm_cache.go:80 | what becomes of each character in lower case, by code point |
| `Maven.PublishedArtifactVersion` | internal/prewarm/gradle.go:336-351 | the longest candidate the file name spells, or the component's version exactly when it spells none |
| `Maven.NamesVersionIs` | internal/prewarm/gradle.go:353-362 | a file name names a version exactly if it goes on with a dot or a dash after name and version |
| `Maven.PublishedIsUnique` | internal/prewarm/gradle.go:336-362 | that version depends only on the set of candidates, not on their order |
| `Maven.MavenArtifactPath` | internal/prewarm/gradle.go:364-378 | the encoded path, or an error exactly when some segment is empty, a dot segment, or holds a slash |
| `Maven.RefusedIs` | internal/prewarm/gradle.go:408-410 | refused segments are the empty one, the two dot segments, and those with a slash of either kind |
| `Maven.PathIsInjective` | internal/prewarm/gradle.go:364-382 | two artifacts with one path have the same group, name, version and file name |
| `Maven.RecordPaths` | internal/prewarm/gradle.go:118-136 | fails only on an unprintable artifact: two coordinates never meet under one path; otherwise records exactly each artifact's path and coordinate |
| `Maven.IdentifyRecovers` | internal/registry/maven.go:9-34 | the decoded path yields exactly the printed group, name and version when the file name starts with them and is no sidecar file, and no decision otherwise |
| `Maven.SidecarIs` | internal/registry/maven.go:17-19 | sidecar files are repository metadata and the four kinds of checksums |
| `Maven.UnversionedHasNoPurl` | internal/registry/registry.go:50-53 | a recognised path has a package URL exactly if it has a version |
| `Maven.PublishedIsIdentified` | internal/registry/maven.go:20-33 | a file that spells a candidate version is identified under the version it is published under |
| `JsonSkip.Decoder.SkipValue` | internal/release/release.go:134-151 | reads until the depth is back at zero, and fails exactly when it never is |
| `JsonSkip.SkipsExactlyOneValue` | internal/release/release.go:134-151 | skipping consumes exactly the tokens of one value of any nesting |
| `JsonSkip.CutValueFails` | internal/release/release.go:137-140 | a value cut short is never skipped |
| `JsonSkip.Decoder.NpmTimes` | internal/release/release.go:99-121 | returns what the token-level specification finds |
| `JsonSkip.FindsFirstTopLevelTime` | internal/release/release.go:97-121 | the result is the first top-level "time" member's, whatever occurs deeper; none exactly when there is no such member or it does not decode |
| `JsonSkip.CutDocumentNeverMisleads` | internal/release/release.go:99-121 | a truncated document yields the whole document's times or an error |
| `TokenBucket.Bucket.Allow` | internal/server/server.go:533-544 | admits exactly when the refilled bucket holds a token, and stays within [0, burst] |
| `TokenBucket.AdmittedExactlyWithinRate` | internal/server/server.go:533-544 | a call is admitted if and only if no window of calls ending with it would then exceed burst + rate * length |
| `TokenBucket.WindowBound` | internal/server/server.go:521-544 | for every sequence of calls at most burst + rate * (b - a) are admitted in any window [a, b] |
| `TokenBucket.StaysWithinBurst` | internal/server/server.go:537-542 | the tokens left stay between zero and burst over every sequence of calls |

## Left out

- HTTP clients, header copying, redirects, TLS, authentication, the server mux and response writing: plumbing over libraries.
- The S3 store, and the DynamoDB client apart from the conditions its expressions state.
- SHA-256, the JSON record encoding, YAML, XML, CVSS scoring, version comparison, cookie and date parsing: arbitrary functions or already parsed values.
- The regular expression engine: globs are matched by their own meaning, not by compiling to an expression.
- 64-bit overflow of durations and sizes, except the saturating age in `agedHeaders`; floating point is modelled by reals.
- Metrics, audit logging, progress events, reason texts, configuration loading, CLI flags, infrastructure code: easy members.
- Readers may return no bytes and no error only a bounded number of times (`stalls`), so that loops which tolerate this end.
- LeaseTiming.ExclusiveExactlyWhenSafe: covers downloads up to the cancellation by a failed renewal; a background store that continues after that, and scheduling delays of the renewing goroutine beyond the renewal timeout, are not modelled.
- Completion.CompletesExactlyOnce: statements end by returning an error or not; a panic unwinding the handler is not modelled.
- Fill.LeadersProgress: no bound on polling, since another replica may hold the lease as long as it renews it.
- FileStore.CopyExactly: for a source that may return no byte and no error it promises the declared size only of what it wrote, not that the source ended there.
- Fill.OneFillPerKey: excludes two fills at once, not a second fetch later, since a new leader does not read the cache again.
- Capture.LoadCached: the entry may expire between its last check and the end of serving; the two clock readings are parameters.
- FileStore.FileSystemStore.Put: a failing directory creation, sync, close or rename is one Boolean parameter; file permissions and sharding are not modelled.
- Upstream.Do: what the environment shows is given, attempt by attempt, and the client timeout is one of its interruptions; the order of waiters in the queue and the Retry-After header sent on are not modelled.
- Osv.OSVProvider.Query: one clock reading serves the whole query, and queries run one after another.
- Policy.PlainMatchesItself: patterns and package URLs are valid UTF-8; a regular expression reads every other byte as U+FFFD.
- Prewarm.PassIsComplete: goroutines are steps of a state machine rather than imperative code; request pacing and retry delays take no modelled time.
- Maven.RecordPaths: lock files, checksums and plugin markers of Gradle discovery are not modelled.
- JsonSkip.Decoder.NpmTimes: starts from the decoder's tokens; a byte stream that is not JSON is a token stream that ends early.
