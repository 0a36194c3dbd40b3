# Lagos core, modelled and proved

Lagos is an API gateway. This project models the state machines and text transformations at its core in
Dafny and proves what they are relied on for. `dafny verify dfyconfig.toml` checks everything.

| files | what they model |
|---|---|
| `RateLimit`, `LocalWindow` | the sliding-window quota, and one key's window in one process over whole runs |
| `SharedCounters`, `Cluster`, `ClusterGuarantees`, `ClusterHearing`, `SyncSchedule`, `SoleIncarnation` | cluster-wide counting: a replica's shards and sync passes, the protocol of any number of replicas with a hash per window, its guarantees, and what replicas learn of each other |
| `KeyRefresh`, `KeyProvenance`, `KeyLifetimes` | the signing-key cache: one refresh in flight, waiters, cancellation at any await; where served keys come from, how long sets last, what each caller gets |
| `RouteIndex` | the segment trie that replaces a scan of the routes |
| `Interpolate`, `Inspection`, `InspectionAgrees`, `Layout` | `${VAR}` expansion of configuration text, its masked twin, and what both keep |
| `References`, `ReferenceSyntax`, `Quoting` | the same stated on characters: what references are, what they come out as, what is comment and block text |
| `RequestPath`, `PathAcceptance`, `Utf8Encoding` | canonical request paths, their encoding, and dot-segment removal; which paths are accepted, stated on bytes |
| `CacheFill`, `CacheVariance`, `VaryNames` | the response cache: fill budget, stored bodies, chunked reads; what keys select and which fields are named |
| `CircuitBreaker`, `CircuitThreshold`, `CircuitTrials` | the breaker and the requests that drive it; how many failures open it; whose reports close it |
| `RetryFailover` | retries and failing over between resolved addresses |
| `Prelude`, `Arithmetic`, `Splitting`, `Substrings`, `Text`, `Trimming` | shared vocabulary and lemmas |

## How to read it

Objects the program updates in place are classes (`Window`, `Counters`, `CertCache`, `PrefixIndex`,
`MemoryStorage`, `Miss`, `Hit`, `HeaderPlan`, `Breaker`, `Request`); each method is proved against a
specification function over the object's view, and the laws are proved about those functions. What each such
function computes is also stated without naming it, in plain operators and relations. Loops over
text are methods proved against recursive functions. Concurrency is a state machine whose steps are the
program's atomic actions; a law about runs quantifies over every execution of it.

Modelling choices a reader should know:

- Times are nanoseconds as unbounded integers; 32- and 64-bit counters saturate or wrap where the program's
  do. The quota arithmetic is exact where the program divides floating-point numbers.
- Random incarnation ids are fresh numbers. One replica's backend commands run in the order it issued them;
  each command is a step of its own, may be delayed, and may be lost with or without its reply.
- Header, cache and path text is modelled as bytes. Hashes are represented by what is hashed.
- The order in which hash sets and maps are walked is left open.
- The breaker reads its clock before it takes its lock, so a run's readings may arrive out of order; laws that
  need them in order say so (`CircuitBreaker.Monotone`). The per-process window is checked on a clock that does
  not step back; the cluster-wide one on any.
- A route's method and host rules are one arbitrary predicate.

Where the code and its own documentation differ, the model follows the code:

- `config/interpolate.rs` speaks of indentation in characters; `indent_of` measures bytes
  (`Layout.IndentIsCharactersIff`, `Layout.BytesKeepBlockOpenIff`).
- A document is said to keep whether it ends in a newline; it can gain one when its last line expands to
  nothing (`Layout.TrailingNewlineKeptUnlessLastLineVanishes`).
- An empty prefix is said to match only the empty path; the in-place comparison also accepts it under a path
  beginning with a slash. Paths are trimmed before matching, so requests never see the difference
  (`RouteIndex.IndexedIsUnderPrefix`, `RouteIndex.MatchRequest`).
- `circuit_breaker.failures` is documented as failures within `window`; the window is anchored at a failure
  and starts afresh when it runs out, so it takes `2 * failures - 1` to be sure
  (`CircuitThreshold.ThresholdIsExact`, `CircuitThreshold.FailuresWithinWindowOpenIff`).

Some laws one might expect of the code do not hold everywhere; the model states exactly where they do:

- Syncing can change the answers of a key only one replica counts when the wall clock steps back behind a
  tick (`SyncSchedule.InvisibleIffInStep`).
- A response that varies on `host` may be keyed on a host the upstream never sees
  (`CacheVariance.KeyedAsSent`), and a breaker may close on reports that are no trial's
  (`CircuitTrials.MayCloseWithoutTrialsIff`).

## Model

| member | source | states |
|---|---|---|
| RateLimit.DecideMonotone | crates/lagos-core/src/ratelimit/mod.rs:64-97 | Counting fewer requests can turn a refusal into an admission, never the reverse |
| RateLimit.RemainingIsKept | crates/lagos-core/src/ratelimit/mod.rs:64-97 | The `remaining` told to a client is honoured: that many more requests at the same instant are admitted, and at most one beyond |
| RateLimit.AdmissionBounds | crates/lagos-core/src/ratelimit/mod.rs:64-97 | An admission proves the window held fewer than `limit`, and bounds both windows together by `limit` plus what has aged out |
| RateLimit.DecideIs | crates/lagos-core/src/ratelimit/mod.rs:64-97 | The whole answer in plain arithmetic: admitted iff the weighted count is short of the limit; the least waiting time that covers the rest of the window; the most that can still follow; the limit asked about |
| LocalWindow.Window.Check | crates/lagos-core/src/ratelimit/mod.rs:121-143 | The in-place window does what the specification function `CheckWindow` says, state and answer |
| LocalWindow.WindowBoundsEverySpan | crates/lagos-core/src/ratelimit/mod.rs:107-143 | Over every run on a monotone clock each window admits at most `limit`, and any span of one interval at most `limit + ceil(previous * progress)` |
| LocalWindow.AnswersFollowTheLog | crates/lagos-core/src/ratelimit/mod.rs:121-143 | After any run the next answer is the quota applied to the admissions themselves, counted in the window the call falls in and the one before |
| LocalWindow.IdleRestoresTheQuota | crates/lagos-core/src/ratelimit/mod.rs:121-135 | After two idle intervals the next `limit` requests of a window are all admitted, from any state |
| LocalWindow.RefusedCallsAreInert | crates/lagos-core/src/ratelimit/mod.rs:136-143 | A refused call changes no later answer; the later state too is as without it, exactly unless the call rolled the window and the next comes between two and three intervals after the old start |
| SharedCounters.PositionInRange | crates/lagos-core/src/ratelimit/shared.rs:39-54 | For representable clocks and intervals of a second or more, window index and offset recompose to the reading, in range |
| SharedCounters.RollTwice | crates/lagos-core/src/ratelimit/shared.rs:71-89 | Rolling in two steps is rolling once to the later window: rollover is insensitive to interleaved rolls |
| SharedCounters.Counters.CheckAt | crates/lagos-core/src/ratelimit/shared.rs:255-288 | A check rolls, decides and counts in exactly one shard, creating it fresh if untracked; an unreadable clock admits and changes nothing |
| SharedCounters.Counters.Evict | crates/lagos-core/src/ratelimit/shared.rs:255-288 | Eviction forgets only the key's current incarnation; a shard still referenced by a batch survives |
| SharedCounters.Counters.Pending | crates/lagos-core/src/ratelimit/shared.rs:327-358 | A tick takes one batch off the pass, rolls exactly those shards and snapshots them positionally |
| SharedCounters.Counters.Apply | crates/lagos-core/src/ratelimit/shared.rs:365-405 | Aligned totals are folded into the very shards they were read for; misaligned replies change nothing |
| SharedCounters.EachTakesItsOwn | crates/lagos-core/src/ratelimit/shared.rs:365-405 | Each shard takes in the totals of its own line, and shards without a line stay |
| SharedCounters.NamedAreRolled | crates/lagos-core/src/ratelimit/shared.rs:343-348 | A tick rolls the shards its batch names and no other |
| SharedCounters.Counters.Serve | crates/lagos-core/src/ratelimit/shared.rs:255-288 | Requests and evictions that other threads make meanwhile change shards and store one after another, and never the pass |
| SharedCounters.Counters.SyncOnce | crates/lagos-core/src/ratelimit/shared.rs:412-446 | With arbitrary requests and evictions between snapshot and fold, a successful tick consumes its batch and folds into the shards as they then are; a failed one returns its keys |
| SharedCounters.PassConserves | crates/lagos-core/src/ratelimit/shared.rs:327-358 | Whatever ticks fail, what was published and what is left are together the whole pass |
| SharedCounters.PassShrinks | crates/lagos-core/src/ratelimit/shared.rs:327-358 | The pass shrinks by one batch per successful tick and not otherwise |
| SharedCounters.PassCoversEveryKeyOnce | crates/lagos-core/src/ratelimit/shared.rs:327-358 | Every key of a pass is published exactly once, by exactly `ceil(n / batch)` successful ticks |
| SharedCounters.TicksFollowThePass | crates/lagos-core/src/ratelimit/shared.rs:327-358 | A run of ticks as `SyncOnce` specifies them, idle ones among them, follows the pass it began until it is spent |
| SharedCounters.TicksCoverEveryKeyOnce | crates/lagos-core/src/ratelimit/shared.rs:412-446 | Over such ticks every key of the pass is published exactly once, spent exactly at `ceil(n / batch)` successes |
| Cluster.WriteStepKeepsInv | crates/lagos-core/src/ratelimit/resp.rs:255-290 | Publishing an absolute total keeps the protocol invariant, wherever other commands interleave |
| Cluster.ReadStepKeepsInv | crates/lagos-core/src/ratelimit/resp.rs:270-312 | Reading a window back keeps the protocol invariant: the sum less the own total overstates no peer |
| Cluster.FoldKeepsInv | crates/lagos-core/src/ratelimit/shared.rs:371-405 | Folding a reply in, at once or after any delay, keeps the protocol invariant |
| Cluster.CheckKeepsInv | crates/lagos-core/src/ratelimit/shared.rs:255-288 | A check keeps the protocol invariant: an admission is counted once in the log and once in the view |
| Cluster.LoseKeepsInv | crates/lagos-core/src/ratelimit/shared.rs:412-446 | Losing any command or its reply keeps the protocol invariant |
| Cluster.OpenKeepsInv | crates/lagos-core/src/ratelimit/shared.rs:255-270 | A new incarnation, including one that replaces an evicted key, keeps the protocol invariant |
| Cluster.SendKeepsInv | crates/lagos-core/src/ratelimit/shared.rs:327-358 | Snapshotting a shard for a tick keeps the protocol invariant, also with earlier ticks still on their way |
| Cluster.ForgetKeepsInv | crates/lagos-core/src/ratelimit/resp.rs:244-250 | The backend forgetting a window at any moment keeps the protocol invariant |
| ClusterGuarantees.StepKeepsInv | crates/lagos-core/src/ratelimit/shared.rs:71-89 | Every step of the cluster, including eviction and expiry, keeps the protocol invariant |
| ClusterGuarantees.ViewNeverOverstates | crates/lagos-core/src/ratelimit/shared.rs:71-89 | In every reachable state a view counts its own requests exactly and never more in all than the cluster counted |
| ClusterGuarantees.RefusalIsJustified | crates/lagos-core/src/ratelimit/shared.rs:255-288 | No replica refuses a request that the quota on the true cluster counts would admit |
| ClusterGuarantees.BackendConserves | crates/lagos-core/src/ratelimit/resp.rs:255-312 | The fields of a window never add up to more than was admitted, and to exactly that iff every source has published since its last admission and is still held |
| ClusterGuarantees.OwnTotalIsReadBack | crates/lagos-core/src/ratelimit/resp.rs:255-312 | What is read, saturated at a word, less the own total is exactly the other fields' sum iff the sum fits a word and nothing of the own was published, the own field is still held, or the window is empty; otherwise it falls short, never over |
| ClusterGuarantees.OvershootIsUnseenUsage | crates/lagos-core/src/ratelimit/shared.rs:281-287 | A window's cluster count is at most `limit` plus the peer usage unseen by the replica of its latest admission |
| ClusterGuarantees.OvershootIsPerIncarnation | crates/lagos-core/src/ratelimit/shared.rs:281-287 | A window's cluster count is at most `limit` times the number of incarnations of the key |
| ClusterHearing.FoldTakesIn | crates/lagos-core/src/ratelimit/shared.rs:371-405 | Folding a reply: in the snapshot's window both readings less the own totals, a window later the current one as the previous, otherwise nothing, and no other view changes |
| ClusterHearing.ChecksCountPeers | crates/lagos-core/src/ratelimit/shared.rs:255-288 | In every execution a check admits iff the quota holds of the requests its replica admitted and of those it has heard of, in this window and the one before, and exactly an admission is logged |
| ClusterHearing.PeersAreKept | crates/lagos-core/src/ratelimit/shared.rs:71-89 | What a view holds of a window stays until the next fold, through the window and the one after it |
| ClusterHearing.WriteTakesHold | crates/lagos-core/src/ratelimit/resp.rs:255-290 | A command that writes puts its snapshot's total into the window under its source |
| ClusterHearing.FieldStands | crates/lagos-core/src/ratelimit/resp.rs:255-290 | A field stays until its window is forgotten, and its total never falls, however commands interleave |
| ClusterHearing.RepliesAreReadings | crates/lagos-core/src/ratelimit/resp.rs:255-312 | Every reply is traced to its own four commands in order, and its totals are the sums of the fields there were when they read |
| ClusterHearing.PeersAreHeard | crates/lagos-core/src/ratelimit/shared.rs:371-405 | A reply folded in time makes the view count what was read less its own, through the window and the one after it |
| ClusterHearing.PublishedTotalIsHeard | crates/lagos-core/src/ratelimit/shared.rs:1-27 | A total one source has written, and that is not forgotten, is counted by every other source that then reads the window and folds in time, unless 64 bits are full |
| ClusterHearing.SettledReadingIsExact | crates/lagos-core/src/ratelimit/shared.rs:1-27 | Read once every source has published, a view counts exactly what the others were admitted |
| SyncSchedule.SyncIsInvisible | crates/lagos-core/src/ratelimit/shared.rs:365-405 | With every check in step, ticks and replies leave a lone key's answers as they would be without any syncing, clock steps back included |
| SyncSchedule.SameWindowsIffInStep | crates/lagos-core/src/ratelimit/shared.rs:71-89 | Checks are decided in the windows they would be decided in without syncing exactly when they are in step: nothing has moved the shard past the check's own and earlier checks' windows |
| SyncSchedule.InvisibleIffInStep | crates/lagos-core/src/ratelimit/shared.rs:255-288 | Wherever the run is cut off and then checked any number of times at the end of the window it has reached, under any limit, syncing shows in no answer, exactly when every check is in step |
| SoleIncarnation.SyncingNeverChangesADecision | crates/lagos-core/src/ratelimit/shared.rs:255-288 | In every execution with no other incarnation and every check in step, every answer equals that of a replica that never syncs |
| SyncSchedule.ClockStepChangesADecision | crates/lagos-core/src/ratelimit/shared.rs:71-89 | A clock stepping back behind a tick shows, for every limit and from a new shard: the check is admitted after the tick and refused without it |
| SoleIncarnation.FieldOutlivesItsView | crates/lagos-core/src/ratelimit/resp.rs:244-250 | With agreeing clocks a field written while its window is current or previous is kept for as long as the window is in view |
| KeyRefresh.TtlIsClamped | crates/lagos-core/src/auth/jwks.rs:40-45 | A key set's lifetime is the advertised one, or the minimum without one, brought between the operator's minimum and a day or that minimum |
| KeyRefresh.CertCache.Join | crates/lagos-core/src/auth/jwks.rs:190-204 | Under the slot's lock a task joins the refresh in flight or becomes its one leader |
| KeyRefresh.CertCache.Install | crates/lagos-core/src/auth/jwks.rs:213-230 | A successful fetch replaces the whole cached set and its expiry |
| KeyLifetimes.SetsLastTheirLifetime | crates/lagos-core/src/auth/jwks.rs:213-221 | Every set is traced to its fetch and its install, and is fresh at exactly the moments before the install plus the lifetime the endpoint and the operator allow, at none if that is beyond all time |
| KeyLifetimes.ServedWithinItsLifetime | crates/lagos-core/src/auth/jwks.rs:140-177 | A key is served as fresh only before that moment, so within a day or the operator's minimum of the install, and after a failed refresh only within the operator's bound from it |
| KeyLifetimes.NoRefreshWhileItLasts | crates/lagos-core/src/auth/jwks.rs:140-146 | A call that looks before that moment, with no other set installed since, is answered at once from the set |
| KeyLifetimes.LooksAreExact | crates/lagos-core/src/auth/jwks.rs:140-190 | A look serves the latest set's key iff the set is fresh and has it, and goes on to refresh iff it is not fresh |
| KeyLifetimes.AnswersAreExact | crates/lagos-core/src/auth/jwks.rs:148-177 | After a refresh a call gets the latest set's key iff it is there and the refresh succeeded or the operator's bound has not run out |
| KeyLifetimes.OthersServeNothing | crates/lagos-core/src/auth/jwks.rs:140-246 | Nothing but a look or an answer hands out a key |
| KeyLifetimes.WaitersShareTheOutcome | crates/lagos-core/src/auth/jwks.rs:206-246 | A waiter goes on as its leader does: with success if the leader installed a set, with failure if its fetch failed |
| KeyRefresh.CertCache.Take | crates/lagos-core/src/auth/jwks.rs:231-246 | Settling empties the slot and disarms the guard, keeping the sender in hand |
| KeyRefresh.CertCache.Announce | crates/lagos-core/src/auth/jwks.rs:231-246 | The outcome reaches exactly the channel whose sender was taken |
| KeyRefresh.CertCache.Interrupt | crates/lagos-core/src/auth/jwks.rs:80-89 | A leader dropped early empties the slot and fails the waiters of that refresh |
| KeyRefresh.StepKeepsLeader | crates/lagos-core/src/auth/jwks.rs:179-246 | Every step of every task keeps: the slot is occupied iff exactly one armed leader exists, holding that sender |
| KeyRefresh.StepKeepsSenders | crates/lagos-core/src/auth/jwks.rs:179-246 | Every step keeps: senders in the slot or in hand are unused, and no two tasks hold one |
| KeyRefresh.StepKeepsWaiters | crates/lagos-core/src/auth/jwks.rs:76-89 | Every step keeps: each waiter has its answer or a live sender |
| KeyRefresh.SingleFlight | crates/lagos-core/src/auth/jwks.rs:179-246 | In every reachable state at most one fetch is in flight, and the slot holds its leader's own sender |
| KeyRefresh.IdleSlotMeansNoLeader | crates/lagos-core/src/auth/jwks.rs:179-246 | The slot is empty exactly when no leader is armed |
| KeyRefresh.NoWaiterIsStranded | crates/lagos-core/src/auth/jwks.rs:76-89 | With cancellation at any await, no waiter ever finds its channel closed without a message |
| KeyRefresh.CancelDisturbsOnlyItsOwn | crates/lagos-core/src/auth/jwks.rs:80-89 | A cancelled leader fails its own waiters and no other refresh |
| KeyRefresh.StepKeepsKeys | crates/lagos-core/src/auth/jwks.rs:140-177 | Every step keeps: the cached set is the last one installed, and what was served obeyed the freshness rules |
| KeyRefresh.ServedFromTheLatestSet | crates/lagos-core/src/auth/jwks.rs:140-177 | Every key served belongs to the set installed last; served without a refresh it is unexpired, served after a failed one it is within `stale_if_error` of that set's expiry; sets are never gone back to |
| KeyProvenance.AfterRefreshWhence | crates/lagos-core/src/auth/jwks.rs:179-246 | A key served after a successful refresh belongs to a set that was fresh when its task looked again, to the install of a refresh that ended during its call, or to a later set |
| KeyRefresh.OnlyAnInstallMovesTheExpiry | crates/lagos-core/src/auth/jwks.rs:213-230 | Failures, waiting and cancellation never move keys or expiry |
| KeyRefresh.RotatedKeyStaysRefused | crates/lagos-core/src/auth/jwks.rs:140-177 | A key the latest set lacks is served to no one until another set is installed, whatever refreshes fail |
| RouteIndex.IndexedIsUnderPrefix | crates/lagos-core/src/routes/index.rs:56-83 | Segment-prefix and in-place string-prefix matching agree, except exactly for the empty prefix under a path beginning with a slash |
| RouteIndex.UnderPrefixIs | crates/lagos-core/src/routes/mod.rs:839-863 | A prefix covers itself and what continues it after a slash, never half a segment |
| RouteIndex.NormalizeIs | crates/lagos-core/src/path.rs:20-22 | Normalizing takes away the slashes at either end and nothing else |
| RouteIndex.PrefixIndex.Reach | crates/lagos-core/src/routes/index.rs:21-54 | Walking down grows only missing edges and ends at the node named by the segments; nothing already filed moves |
| RouteIndex.PrefixIndex.Build | crates/lagos-core/src/routes/index.rs:21-54 | The insertion loops yield a trie in which every route is filed at the node of its own prefix, in list order |
| RouteIndex.PrefixIndex.Consider | crates/lagos-core/src/routes/index.rs:85-107 | Looking at a node keeps the least acceptable position of all nodes seen |
| RouteIndex.PrefixIndex.Find | crates/lagos-core/src/routes/index.rs:56-83 | The walk returns the first route in list order that matches prefix, method and host, or none if there is none |
| RouteIndex.Scan | crates/lagos-core/src/routes/mod.rs:839-863 | The linear scan returns the first matching route in list order |
| RouteIndex.MatchRequest | crates/lagos-core/src/routes/mod.rs:839-863 | With or without the index a request gets the same, first matching route |
| Interpolate.CommentStart | crates/lagos-core/src/config/interpolate.rs:177-199 | The flag-driven loop finds the first `#` outside quotes at the start of a line or after a blank |
| Interpolate.NextPiece | crates/lagos-core/src/config/interpolate.rs:365-400 | Character by character, the scanner reads the piece a fragment begins with |
| Interpolate.ExpandInto | crates/lagos-core/src/config/interpolate.rs:347-474 | Expanding a fragment in either mode is scanning it and emitting its pieces, errors in text order |
| Interpolate.ProcessLine | crates/lagos-core/src/config/interpolate.rs:300-327 | One line: block-scalar state, comment split, expansion of the code, comment as is |
| Interpolate.Process | crates/lagos-core/src/config/interpolate.rs:273-344 | A whole document, line by line, in either mode |
| References.ExpansionFillsIn | crates/lagos-core/src/config/interpolate.rs:402-474 | Expansion succeeds iff the document is well formed and every reference can be filled in harmlessly; each comes out as its variable's value without the white space around it, else its default as written, else the fallback |
| References.FirstErrorIsReported | crates/lagos-core/src/config/interpolate.rs:375-474 | The error reported is the first thing wrong, with its name and line |
| References.NamesAreReported | crates/lagos-core/src/config/interpolate.rs:234-238 | The names referred to, defaulted and placeheld are listed once each in the order of first meeting |
| References.InspectionRecordsAll | crates/lagos-core/src/config/interpolate.rs:409-447 | Inspection records every reference in order with its line, whether it is set, defaulted, required or invalid, and the value expansion would use |
| References.CharactersAre | crates/lagos-core/src/config/interpolate.rs:34-45 | Control characters and the characters of names, by code point |
| Trimming.BareIsTrim | crates/lagos-core/src/config/interpolate.rs:405-407 | Trimming gives the one text that begins and ends without white space and has only white space around it |
| Trimming.SpaceIs | crates/lagos-core/src/config/interpolate.rs:405-407 | White space, by code point |
| ReferenceSyntax.HeadIs | crates/lagos-core/src/config/interpolate.rs:365-400 | A fragment begins with a piece iff its characters say so: `$$`, a name with or without a default between `${` and the first `}`, or one character |
| ReferenceSyntax.HeadFails | crates/lagos-core/src/config/interpolate.rs:375-400 | It is malformed iff a reference is not closed, or its name is empty or no name |
| ReferenceSyntax.ScanIs | crates/lagos-core/src/config/interpolate.rs:347-474 | Scanning a stretch of code gives exactly the pieces its characters spell, up to the first malformed reference |
| ReferenceSyntax.DocumentIs | crates/lagos-core/src/config/interpolate.rs:291-333 | A document is its lines' code, read under their line numbers, with comments and line breaks as they are |
| Quoting.PlainIffClosed | crates/lagos-core/src/config/interpolate.rs:177-199 | No quote is open iff the text is made of unquoted characters and whole quoted stretches |
| Quoting.CommentIs | crates/lagos-core/src/config/interpolate.rs:177-199 | Code ends at the first `#` outside quotes that is first in the line or follows a space or a tab |
| Quoting.OpensIs | crates/lagos-core/src/config/interpolate.rs:208-218 | A line opens a block iff the first character after its last colon, white space aside, is a vertical bar or a greater-than sign |
| Quoting.CodeIs | crates/lagos-core/src/config/interpolate.rs:304-322 | A line is block text iff an earlier line that is not opened a block and every line since is blank or indented deeper; other lines lose their comment |
| Inspection.Inspect | crates/lagos-core/src/config/interpolate.rs:156-169 | The prefix loop stops at a marker prefix the document does not contain, and inspection masks with it |
| Inspection.ResolveScalar | crates/lagos-core/src/config/interpolate.rs:128-151 | Resolving replaces the earliest marker and goes on with the rest, never rereading a replacement |
| Inspection.NextMarkerIsEarliest | crates/lagos-core/src/config/interpolate.rs:132-140 | No marker occurs sooner than the one taken, and of several at one place the first reference's is |
| Inspection.RuntimeWritesValues | crates/lagos-core/src/config/interpolate.rs:402-474 | Expansion succeeds exactly when every reference has a safe value, and writes exactly those values |
| Inspection.InspectionWritesMarkers | crates/lagos-core/src/config/interpolate.rs:402-474 | Inspection writes one numbered marker per reference and records the value it stands for |
| InspectionAgrees.FreshPrefix | crates/lagos-core/src/config/interpolate.rs:156-169 | The lengthened prefix occurs nowhere in the document |
| InspectionAgrees.Unbordered | crates/lagos-core/src/config/interpolate.rs:156-169 | No marker prefix overlaps with itself, so no marker can begin inside another |
| InspectionAgrees.ScanTextAccounts | crates/lagos-core/src/config/interpolate.rs:273-344 | Scanning loses no text: the pieces' sources are the document, or its beginning up to the malformed reference |
| InspectionAgrees.TextNeverSpells | crates/lagos-core/src/config/interpolate.rs:156-169 | Literal pieces never spell the marker prefix, escapes included |
| InspectionAgrees.FirstMarkerIsNext | crates/lagos-core/src/config/interpolate.rs:128-151 | After literal text the first marker found is the one written there, though one marker's digits may begin another's |
| InspectionAgrees.ResolveIsValues | crates/lagos-core/src/config/interpolate.rs:128-151 | Resolving masked pieces fills every marker with its own value and changes nothing else |
| InspectionAgrees.ExpansionIsInspectionResolved | crates/lagos-core/src/config/interpolate.rs:128-169 | For every document and environment, expansion succeeds with a text iff inspection succeeds and resolving its masked text gives that text |
| InspectionAgrees.EveryScalarResolves | crates/lagos-core/src/config/interpolate.rs:128-151 | Any stretch of the masked document that cuts no marker resolves to the expansion of the same stretch |
| Layout.ExpandsLineByLine | crates/lagos-core/src/config/interpolate.rs:295-333 | Expansion succeeds iff every line expands on its own; lines keep their number and place, and comments are unchanged |
| Layout.TrailingNewlineKeptUnlessLastLineVanishes | crates/lagos-core/src/config/interpolate.rs:324-333 | A trailing newline is kept as it was, iff the last line is not made only of references that come out empty |
| Layout.TrailingNewlineAppears | crates/lagos-core/src/config/interpolate.rs:324-333 | That exception happens: a concrete document gains a trailing newline |
| Layout.BlankIsUnset | crates/lagos-core/src/config/interpolate.rs:402-474 | A reference comes out empty exactly when it is unset or blank and its default or fallback is empty |
| Layout.WithoutDollarUnchanged | crates/lagos-core/src/config/interpolate.rs:365-370 | Text without `$` is unchanged in both modes, in every environment |
| Layout.DoubledExpandsBack | crates/lagos-core/src/config/interpolate.rs:365-370 | Doubling every `$` is a complete escape: expansion gives the original back |
| Layout.IndentIsCharactersIff | crates/lagos-core/src/config/interpolate.rs:201-204 | Indentation as measured equals its characters iff the leading white space is ASCII |
| Utf8Encoding.IndentIsBytes | crates/lagos-core/src/config/interpolate.rs:201-204 | Indentation as measured is the encoded length of the leading white space |
| Layout.BytesKeepBlockOpenIff | crates/lagos-core/src/config/interpolate.rs:304-309 | Measuring bytes keeps a block scalar open that characters would close exactly for a line no further in than the block in characters but further in bytes |
| Layout.IdeographicSpaceKeepsBlockOpen | crates/lagos-core/src/config/interpolate.rs:304-309 | One such line |
| RequestPath.CanonicalizeProxyPath | crates/lagos-core/src/path.rs:29-66 | The decoding loop and the checks compute the canonical path or refuse |
| PathAcceptance.AcceptedIff | crates/lagos-core/src/path.rs:29-66 | A path is accepted iff, up to its query or fragment, at most three passes leave no `%`, giving well-formed text each time, and what they leave has no byte below 0x20, no 0x7F, no 0x5C and no segment `.` or `..`; the result is its non-empty segments joined by `/` |
| PathAcceptance.PlainAcceptedIff | crates/lagos-core/src/path.rs:29-66 | Without `?`, `#` and `%` a path is accepted iff its own bytes and segments are so |
| PathAcceptance.AcceptedIsClean | crates/lagos-core/src/path.rs:29-66 | An accepted path has no byte below 0x20, no 0x7F, 0x5C or 0x25, and no empty, `.` or `..` segment, stated on bytes |
| PathAcceptance.BareIs | crates/lagos-core/src/path.rs:31 | The path ends where the query or the fragment begins |
| PathAcceptance.NonEmptyIs | crates/lagos-core/src/path.rs:61-65 | Exactly the segments that are not empty are kept, in their order |
| PathAcceptance.DecodeIs | crates/lagos-core/src/path.rs:39-42 | One pass turns each `%` and two digits, in either case, into the byte they spell and leaves the rest |
| Utf8Encoding.Utf8Is | crates/lagos-core/src/path.rs:39-42 | Bytes are accepted as text iff they encode some text |
| RequestPath.Utf8AroundAscii | crates/lagos-core/src/path.rs:59-65 | Splitting at, or joining with, an ASCII byte keeps text well-formed, both ways |
| RequestPath.CanonicalIsCanonical | crates/lagos-core/src/path.rs:29-66 | An accepted path is well-formed, has no `%`, control or backslash, and no empty or dot segment |
| RequestPath.CanonicalAgain | crates/lagos-core/src/path.rs:29-66 | An accepted path is accepted as itself again iff it holds no `?` or `#` |
| RequestPath.DecodeEncode | crates/lagos-core/src/path.rs:173-200 | One decoding pass undoes the encoding of any text at all |
| RequestPath.EncodedIsSafe | crates/lagos-core/src/path.rs:173-200 | The encoded form is printable ASCII without `?`, `#` or backslash |
| PathAcceptance.EncodeByteIs | crates/lagos-core/src/path.rs:173-200 | The bytes sent as they are, one by one; every other is spelled with capital digits |
| PathAcceptance.QueryIsKept | crates/lagos-core/src/proxy.rs:98-113 | The target is the path's and then the client's query as it came |
| RequestPath.EncodeKeepsSegments | crates/lagos-core/src/path.rs:195-199 | Encoding keeps the segments, each encoded in place |
| RequestPath.DecodedTimes | crates/lagos-core/src/path.rs:33-47 | Each decoding pass undoes exactly one encoding, until the passes run out |
| RequestPath.EncodedComesBack | crates/lagos-core/src/path.rs:29-66 | A canonical path encoded up to three times is accepted as itself; encoded more often it is refused iff encoding changes it |
| RequestPath.PathRoundTrip | crates/lagos-core/src/path.rs:173-200 | Whatever is accepted as `p` encodes to something accepted as `p` again, with the same segments |
| RequestPath.FixedIffNoDots | crates/lagos-core/src/path.rs:1-12 | An absolute path is a fixed point of dot-segment removal (section 5.2.4 of RFC 3986) iff it has no dot segment |
| RequestPath.PathSentIsPathAuthorized | crates/lagos-core/src/proxy.rs:98-113 | The target sent upstream survives dot-segment removal and consists of the base path and the authorized segments, encoded in place |
| CacheFill.MemoryStorage.Reserve | crates/lagos-core/src/cache/storage.rs:111-118 | A reservation succeeds iff it fits the budget, and then adds exactly its size |
| CacheFill.MemoryStorage.UpdateMeta | crates/lagos-core/src/cache/storage.rs:192-215 | New metadata, same body |
| CacheFill.Miss.WriteBody | crates/lagos-core/src/cache/storage.rs:319-333 | A write is appended and reserved, or abandons the fill and gives back what it held |
| CacheFill.Miss.Finish | crates/lagos-core/src/cache/storage.rs:335-358 | The whole body is published and its reservation released, or nothing is stored |
| CacheFill.Miss.AbandonIt | crates/lagos-core/src/cache/storage.rs:299-307 | Abandoning gives back everything held and keeps nothing |
| CacheFill.Miss.Drop | crates/lagos-core/src/cache/storage.rs:309-316 | A dropped fill gives back what it still holds |
| CacheFill.WritesAreKeptIffTheyFit | crates/lagos-core/src/cache/storage.rs:319-333 | In every execution a write is kept, at the end of what was written, iff the object and all fills together stay within their limits; otherwise the fill is lost |
| CacheFill.AbandonedForCause | crates/lagos-core/src/cache/storage.rs:299-333 | A fill is abandoned only after a write to it that did not fit |
| CacheFill.PublishedIsStored | crates/lagos-core/src/cache/storage.rs:335-358 | Publishing stores all the fill was given under its key, with its metadata, and touches no other key |
| CacheFill.RefusedIsAbandoned | crates/lagos-core/src/cache/storage.rs:299-333 | A fill refused by the budget gives everything back and stores nothing |
| CacheFill.WeightIs | crates/lagos-core/src/cache/storage.rs:63-73 | An entry weighs its bytes and 96 more, as far as 32 bits count |
| CacheFill.MemoryStorage.Purge | crates/lagos-core/src/cache/storage.rs:176-190 | A purge removes that key's entry alone and says whether there was one |
| CacheFill.StepKeepsBudget | crates/lagos-core/src/cache/storage.rs:111-124 | Every step of any interleaving keeps: the counter is the sum of what open fills hold, within the budget, each within the object limit |
| CacheFill.StepKeepsBodies | crates/lagos-core/src/cache/storage.rs:192-215 | Every step keeps: each stored or held body is all that one published fill for its key was given |
| CacheFill.FillingIsWhatFillsHold | crates/lagos-core/src/cache/storage.rs:111-124 | In every reachable state `filling` equals the bytes held by unfinished fills and never exceeds the budget; it is zero when none is left |
| CacheFill.ReleaseNeverWraps | crates/lagos-core/src/cache/storage.rs:120-124 | The atomic subtraction never wraps: a fill gives back only what it holds |
| CacheFill.StoredBodiesAreWhole | crates/lagos-core/src/cache/storage.rs:299-358 | Every stored body is the whole of one finished fill for that key, within the object limit, also across metadata updates |
| CacheFill.AbandonedIsNeverStored | crates/lagos-core/src/cache/storage.rs:299-307 | A fill once abandoned is never published |
| CacheFill.Hit.ReadBody | crates/lagos-core/src/cache/storage.rs:237-245 | A read hands back the next non-empty chunk of what is left, full unless it is the last |
| CacheFill.Hit.Seek | crates/lagos-core/src/cache/storage.rs:270-279 | After a seek what is left is exactly the part of the range the body has |
| CacheFill.Range | crates/lagos-core/src/cache/storage.rs:270-279 | That part: every body byte at a position in the range, in order, and no other |
| CacheFill.Drain | crates/lagos-core/src/cache/storage.rs:229-245 | Reading to the end yields exactly what was left, in full chunks but the last |
| CacheVariance.BigEndianRoundTrip | crates/lagos-core/src/cache/policy.rs:73-76 | A length that fits is read back from its big-endian bytes |
| CacheVariance.FramingRoundTrip | crates/lagos-core/src/cache/policy.rs:73-76 | Framed values can be read back: their bytes, number and order |
| CacheVariance.KeyBytes | crates/lagos-core/src/cache/policy.rs:78-84 | The key loop frames every part in order |
| CacheVariance.EqualKeysMeanEqualRequests | crates/lagos-core/src/proxy.rs:1886-1915 | Two requests share a primary key iff they agree on namespace, route, upstream, host without case, method and target |
| CacheVariance.HeaderPlan.Set | crates/lagos-core/src/headers.rs:37-44 | A set name has one value, the last, and the client's is dropped; other names keep theirs |
| CacheVariance.HeaderPlan.Strip | crates/lagos-core/src/headers.rs:46-49 | Stripping drops the client's header and no value the plan adds |
| CacheVariance.UpstreamRequestFilter | crates/lagos-core/src/proxy.rs:1629-1655 | Host, allowlist sweep, removals and additions, in that order, whatever order the sets are walked in |
| VaryNames.SentValuesAre | crates/lagos-core/src/proxy.rs:1629-1655 | What the upstream is sent under each name: the plan's value, nothing, the target's address as `host`, or what the client sent |
| VaryNames.AddedIs | crates/lagos-core/src/headers.rs:37-44 | The value a plan adds under a name is that of one of its additions, and there is one if any has the name |
| Trimming.LowerIs | crates/lagos-core/src/headers.rs:37-44 | Lower-casing changes the capitals of the basic alphabet and nothing else |
| CacheVariance.ParseVary | crates/lagos-core/src/cache/policy.rs:14-32 | The loops collect the lower-cased field names; `*` or a malformed name makes the response unusable |
| VaryNames.VaryFieldsAre | crates/lagos-core/src/cache/policy.rs:14-32 | `Vary` values are usable iff printable and each piece between commas is blank or a token other than `*`; the fields are those tokens in small letters |
| VaryNames.VarianceIs | crates/lagos-core/src/cache/policy.rs:50-71 | There is a variance key iff the values are usable and name a field; it has one entry per field, from which the values are read back |
| CacheVariance.ComputeVariance | crates/lagos-core/src/cache/policy.rs:50-71 | One framed value list per field, or none when there is no usable field |
| CacheVariance.KeyedAsSent | crates/lagos-core/src/cache/policy.rs:50-71 | The values a field is keyed on are the values the upstream is sent, exactly unless it is a `host` neither preserved, nor set or dropped by the plan, nor swept, nor sent right by the client |
| CacheVariance.SameVarianceMeansSameSelectedHeaders | crates/lagos-core/src/cache/policy.rs:50-71 | Where `host` is not such an exception, two requests have the same variance key iff the upstream is sent the same value lists for every selected field (section 4.1 of RFC 9111) |
| CacheVariance.HostIsKeyedAsTheClientSentIt | crates/lagos-core/src/proxy.rs:1629-1634 | Where it is, for any two requests the upstream is sent one host, the target's, and the keys agree on it iff the clients' own hosts do |
| CircuitBreaker.Breaker.AllowAt | crates/lagos-core/src/breaker.rs:143-168 | The locked update of admission does what the specification function says, state and answer |
| CircuitBreaker.Breaker.RecordSuccess | crates/lagos-core/src/breaker.rs:184-206 | A success report clears a closed circuit's failures, or counts towards closing a half-open one, as the specification function says |
| CircuitBreaker.Breaker.RecordFailureAt | crates/lagos-core/src/breaker.rs:212-235 | A failure report is counted in the anchored window, opens the circuit at the threshold, and reopens a half-open one, as the specification function says |
| CircuitBreaker.Breaker.Cancel | crates/lagos-core/src/breaker.rs:177-182 | A report without an outcome frees a trial slot and is evidence of nothing |
| CircuitBreaker.AdmittedIff | crates/lagos-core/src/breaker.rs:143-168 | A request is admitted iff the circuit is closed, its cooldown is over, or it is half-open with fewer trials out than `max_trials` |
| CircuitBreaker.TrialsAreLetThrough | crates/lagos-core/src/breaker.rs:143-168 | After a cooldown exactly the first `max_trials` requests are let through until one reports |
| CircuitBreaker.ReportsChange | crates/lagos-core/src/breaker.rs:171-235 | Each report by its kind and the circuit's state: what opens it and starts the cooldown, what closes it, what is counted, what only frees a trial |
| CircuitBreaker.StepKeepsInv | crates/lagos-core/src/breaker.rs:143-235 | Every admission and report keeps the bounds on trials and counters |
| CircuitBreaker.TrialsAreOutstanding | crates/lagos-core/src/proxy.rs:2021-2034 | In every run, in whatever order clock readings arrive, `trials_in_flight` is at most `max_trials` and the outstanding admissions, and zero outside half-open; a closed circuit is below its threshold |
| CircuitBreaker.NeverWedged | crates/lagos-core/src/breaker.rs:143-168 | With nothing outstanding and any cooldown over, the next request is admitted, whatever happened before and in whatever order clock readings arrived |
| CircuitBreaker.WhatIsCounted | crates/lagos-core/src/breaker.rs:212-235 | A closed circuit's failure count is real: so many failure reports, no success among them, none after the end of the current window, and none before its start if clock readings arrive in order |
| CircuitBreaker.OpensForCause | crates/lagos-core/src/breaker.rs:212-235 | Closed-to-open is preceded by exactly `failures` failure reports with no success between, spanning at most `window` if clock readings arrive in order |
| CircuitBreaker.BurstOpens | crates/lagos-core/src/breaker.rs:212-235 | `2 * failures - 1` failure reports, any two within `window` and with no success between, always open a closed circuit, in whatever order clock readings arrive |
| CircuitThreshold.FewerMayNotOpen | crates/lagos-core/src/breaker.rs:212-235 | For every configuration a run with one failure report fewer than the threshold, any two within `window` and clock readings in order, stays closed |
| CircuitThreshold.ThresholdIsExact | crates/lagos-core/src/breaker.rs:212-235 | `N` failure reports, any two within `window` and no success between, open the circuit in every run iff `N >= 2 * failures - 1` (`failures` for an empty window), whatever the order of clock readings |
| CircuitThreshold.FailuresWithinWindowOpenIff | crates/lagos-core/src/breaker.rs:212-235 | So the documented `failures` within `window` suffices in every run iff `failures` is 1 or the window is empty |
| CircuitBreaker.NoAdmissionDuringCooldown | crates/lagos-core/src/breaker.rs:143-157 | After any opening the first request admitted has the cooldown over by its own clock reading; if readings arrive in order, so has every later one |
| CircuitBreaker.ClosesForCause | crates/lagos-core/src/breaker.rs:184-206 | Closing takes exactly `successes_to_close` success reports since the end of a cooldown, half-open throughout, no failure among them |
| CircuitTrials.ErasesToRun | crates/lagos-core/src/proxy.rs:2021-2034 | Requests with identities drive the breaker as the anonymous runs do: dropping the identities gives such a run |
| CircuitTrials.ClosingRestsOnTrials | crates/lagos-core/src/breaker.rs:184-206 | Requests already out at half-opening stand in for no more successes than there are of them; all the others a closing rests on come from trials admitted since |
| CircuitTrials.OnlyTrialsCountIff | crates/lagos-core/src/breaker.rs:184-206 | Every success counted in a half-open period is a trial's, in all continuations, iff nothing was outstanding as it began |
| CircuitTrials.MayCloseWithoutTrialsIff | crates/lagos-core/src/breaker.rs:184-206 | The circuit may close without a single success of a trial iff at least `successes_to_close` requests were outstanding as it went half-open |
| CircuitTrials.LateReportsMayClose | crates/lagos-core/src/breaker.rs:184-206 | For every configuration there is such a run, clock readings in order: named requests admitted before it opened close the circuit while the only trial is out |
| RetryFailover.Request.UpstreamPeer | crates/lagos-core/src/proxy.rs:1584-1594 | The rotation start is drawn once per request and kept; the address is the attempt's place in the answer |
| RetryFailover.Request.ConnectFailed | crates/lagos-core/src/proxy.rs:1662-1709 | A connect failure fails over, retries by policy, or leaves the error as it was, counting each |
| RetryFailover.Request.ProxyFailed | crates/lagos-core/src/proxy.rs:1713-1757 | A broken connection is retried only where library and policy agree |
| RetryFailover.TransportRetriesAreSafe | crates/lagos-core/src/retry.rs:76-96 | With a policy, a broken request is sent again iff the library would, the policy allows, a retry is left, the body is whole and repeating is safe; it moves no DNS counter |
| RetryFailover.IdempotentIs | crates/lagos-core/src/retry.rs:32-36 | The idempotent methods are GET, HEAD, OPTIONS, TRACE, PUT and DELETE in any case, and no other |
| RetryFailover.ConnectRetriesIff | crates/lagos-core/src/proxy.rs:1662-1709 | A failure to connect is tried again iff an address is left to fail over to, the policy allows it, or the error says so; failovers do not count against the policy |
| RetryFailover.WithoutPolicyOnlyFailovers | crates/lagos-core/src/proxy.rs:1662-1733 | Over a run without a policy each retry is a failover or one the library itself makes of a broken connection; only failovers move the DNS counters, and the policy's count never moves |
| RetryFailover.WithoutPolicyBounded | crates/lagos-core/src/proxy.rs:1662-1733 | So where the library retries nothing, such a request is attempted at most once per address |
| RetryFailover.RetriesAreCounted | crates/lagos-core/src/proxy.rs:1662-1757 | Every retry made used up one failover or one of the policy's attempts, and neither budget is exceeded |
| RetryFailover.RetriesAreBounded | crates/lagos-core/src/proxy.rs:1662-1757 | Attempts are at most the largest DNS answer plus the policy's `attempts`, however failures mix |
| RetryFailover.EveryAddressIsTried | crates/lagos-core/src/proxy.rs:1662-1681 | With or without a policy connecting is tried once per address of the answer, in rotation |
| RetryFailover.FirstTurnIsDistinctIff | crates/lagos-core/src/proxy.rs:82-90 | The first `n` dials take `n` different places iff the counter can count them and the rotation does not wrap unevenly among them |

## Left out

- Floating-point rounding in `decide`; `retry_after` is modelled but not claimed to guarantee admission, because the code does not compute that.
- The count-min sketch and the per-request exact mode of the limiter; the batch of one tick is one pipeline per key here, which allows more interleavings than the program has.
- Which of a lost command and a lost reply happened: a lost command leaves the pipe before it runs, and a lost reply is one that is never folded in.
- Expiry of backend windows is a step that may forget any window at any time; `SoleIncarnation.FieldOutlivesItsView` states when the program's lifetime suffices.
- SyncSchedule.InvisibleIffInStep: that an out-of-step check can be told from the answers is stated for runs of fewer than 2^64 events, since the limit that tells must exceed their number and fit a counter; `SyncSchedule.SameWindowsIffInStep` has no such bound.
- KeyRefresh.ServedFromTheLatestSet: a key handed out right after a successful refresh is not claimed to be unexpired, because the code does not look again; `KeyProvenance.AfterRefreshWhence` says where it comes from.
- Fetching and parsing of key sets, signature and claim checks.
- Building the route table and sorting it; `RouteIndex` takes the list as it is.
- The columns of references, which inspection records beside their lines.
- The internals of the proxy library, the cache library and the key-value client. The cache's own eviction is a step that may remove any entry.
- CacheVariance.SameVarianceMeansSameSelectedHeaders: takes the upstream request as a copy of the client's headers, as the code does; headers the proxy library adds itself are not part of this model.
- RetryFailover.RetriesAreBounded: assumes a connect error is not already marked for retry when the gateway sees it; the library's own limit on retries is not part of this model.
- Resolving names, selecting backends, timeouts, metrics and logging.
- Freshness and eligibility rules of the response cache (`eligible`), one-branch decisions over parsed directives.
- The concurrency limiter, CORS, CSRF, identity headers, tracing and command-line tools: library wrappers or easier members of the same kind.
