# BeeBotOS: verified models

This project models six stateful or text-handling components of BeeBotOS in Dafny and proves what they keep over
whole runs and for all inputs.

| files | what they model |
|---|---|
| `RateLimit.dfy`, `RateLimitObjects.dfy` | the token-bucket rate limiter: one bucket, and the map that creates buckets at first use |
| `Text.dfy`, `Capability.dfy`, `CapabilityRoundTrip.dfy`, `CapabilityReread.dfy`, `CapabilityReading.dfy` | agent capabilities, their compact strings, the printer and the recursive parser, and a grammar of the compact strings |
| `StateMachine.dfy`, `StateMachineRuns.dfy`, `StateMachineSafety.dfy`, `StateMachineMoves.dfy`, `StateMachineObjects.dfy` | the agent lifecycle: transition table, the context of an agent with its truncated history, the manager of many agents |
| `Backoff.dfy`, `RetryLoops.dfy` | the two exponential backoffs of the command-line client and the retry loops that use them |
| `DnsCache.dfy` | the DNS cache under interleaved resolvers |
| `Bridge.dfy` | the WhatsApp bridge: the window of processed messages and the reconnect counter |
| `NormalizePath.dfy`, `PathText.dfy` | lexical normalisation of paths |
| `Wrappers.dfy`, `Util.dfy` | shared types and functions |

Where the source updates an object in place there is a class whose methods are proved equal to a function of the old
state (`View()`), and the results over runs are lemmas about that function. Inputs from outside (clock readings, lookup
answers, outcomes of attempts, the JSON reader, message ids) are parameters.

Main results:

- A run of the token bucket grants a call exactly when no window that begins with its creation or a call and ends at the
  call would exceed capacity + rate * length, and this rule determines the answers uniquely. With a rate that is not
  negative that is the same as: no stretch of time that ends at the call would. Hence no stretch of time is over-served,
  refused calls leave no mark, and each key is served as if it were alone. Creating buckets lazily goes unnoticed exactly
  when the rate is not negative.
- Printing and parsing a capability gives it back exactly when it is well-formed, and everything the parser returns is
  well-formed; so every text has a stable normal form. For every other tree `Reread` says, by the structure of the tree,
  what its compact string is read as; only the text behind a semicolon inside a leaf is left to the parser, because there
  it is a compact string of its own. When no text holds a semicolon, nothing is lost or made up: the same spawns and
  leaves come back in the same order, and only the nesting changes.
- For every text and every tree, the parser reads the text as the tree exactly when a grammar says so
  (`CapabilityReading.ReadsExactly`). The grammar has its own words, numbers, defaults and lists, and its own list of what
  begins a capability (`ParsesExactly`); it shares with the parser only the joining of pieces.
- In every run the lifecycle manager grants a move exactly when the agent is registered, the move is one of eighteen, and a
  start finds fewer restarts (of which it sees fifty) than the limit; so it grants a whole sequence of moves exactly when
  each of them may follow those before it.
- The lifecycle manager remembers a hundred transitions per agent. It answers as a manager with full traces would, in
  every run, exactly when the retry limit is at most 50, and exactly then the retry limit holds in every run: a history of
  a hundred entries never shows more than 50 restarts in a row, so a larger limit is never reached and an agent can be
  restarted without end. Booked time and the gaps between clock readings add up, in every run, to the time since
  registration.
- For integral multipliers the two backoffs wait equally long, to the nanosecond, exactly when the first delay is whole
  milliseconds and within the maximum, and the maximum is whole milliseconds or never stops the growth. For any real
  multiplier the iterative form never waits a whole millisecond longer, exactly when the first delay is within the maximum.
- The size of the DNS cache is unobservable: in every interleaving of resolvers, caches of any two sizes serve every host
  alike and keep every resolver alike, and a cache with room for every write never evicts. What a resolver is doing is
  determined by its last request and what followed it (`PhasesExactly`).
- A message counts as a repeat exactly when its id is among the last thousand accepted ones; reconnects are scheduled
  exactly for the first drops after an open.
- Normalising a path keeps where it leads, in every tree, exactly when it does not climb above its start. Every text is
  read as the steps that its pieces name (`PathText.ReadPathExactly`); in the text of an absolute path a name and the `..`
  behind it cancel.

Properties that turned out to hold only under a condition, with the condition exact and a failing input:

- The retry limit and full memory (`StateMachineSafety.RetryLimitExactly` and `FullMemoryExactly`; `NoLimitAboveFifty` and
  `ForgettingShows` are the failing families).
- Lazy creation of buckets (`RateLimit.LazyCreationUnnoticed`; `LazyCreationNoticed` fails for each negative rate). Against
  a bucket created at the key's own first use, isolation holds for every rate (`KeyAnswersSinceFirstUse`).
- The round trip of compact strings (`CapabilityRoundTrip.RoundTripExactly`): `HEAD` and `OPTIONS` are printed but not
  read, lists without a wildcard must not be empty, texts must keep clear of the separators. A capability whose methods
  are all unknown to the parser is read back as one for all methods (`CapabilityReread.WildcardExactly`; failing inputs in
  `RoundTripFails`). Below a spawn, a path that holds a semicolon and then the compact string of another capability comes
  back as the path up to there and that further capability (`SemicolonAdds`). An inner spawn keeps only its first child;
  the others become children of the outer one (`OnlyNestingChanges`). A colon in a wallet's limit loses the first chain id
  (`GluedChains`).
- Agreement of the backoffs (`Backoff.FormsAgreeExactly`; failing inputs in `FormsDiffer`): `with_retry` sleeps an initial
  delay above the maximum, or between two milliseconds, as it stands. It never backs off at all exactly when its first step
  does not change the milliseconds (`SlowGrowthIsLost`), as from one millisecond with a multiplier of one and a half
  (`OneMillisecondNeverGrows`).
- The meaning of relative paths (`NormalizePath.MeaningKeptExactly`; `LeadingParentLost` is the smallest failing path): a
  leading `..` is lost. The one caller, `config.rs:594-608`, makes the path absolute first, so such a path never reaches
  `normalize_path`; for absolute paths the meaning is always kept (`AbsoluteMeaningKept`).

Source comment and code disagree in one place: the comment on `error_retry_count` speaks of Error-to-Initializing
transitions while the code counts every Initializing entry, the first start included. The model follows the code.

## Model

| member | source | states |
|---|---|---|
| RateLimit.RunInvariant | crates/agents/src/rate_limit.rs:27-43 | every run keeps the configuration, the time of the last call, and a level within capacity |
| RateLimit.EarlierBringsNothing | crates/agents/src/rate_limit.rs:27-43 | a clock reading not later than the last one brings nothing in: the call is granted if what is left suffices |
| RateLimit.NeverOverdrawn | crates/agents/src/rate_limit.rs:27-43 | with a rate that is not negative the level is never below zero |
| RateLimit.LevelIsLeastRoom | crates/agents/src/rate_limit.rs:27-43 | the level a call finds is the minimum, over all instants since creation, of capacity + rate * elapsed - granted since |
| RateLimit.GrantedIffWindowsAllow | crates/agents/src/rate_limit.rs:27-43 | for any rate, a call is granted exactly when no window from creation or a call to this call would exceed capacity + rate * length |
| RateLimit.GrantedIffMomentsAllow | crates/agents/src/rate_limit.rs:27-43 | with a rate that is not negative, a call is granted exactly when no stretch of time that ends at it would exceed capacity + rate * length |
| RateLimit.RuleDeterminesAnswers | crates/agents/src/rate_limit.rs:27-43 | the answers of a run are the only ones that obey the sliding-window rule |
| RateLimit.NeverOverServed | crates/agents/src/rate_limit.rs:27-43 | between any two moments at most capacity + rate * length is granted |
| RateLimit.RefusalsKeepBucket | crates/agents/src/rate_limit.rs:27-43 | after deleting any set of refused calls the bucket is the same to every later call |
| RateLimit.RefusalsKeepAnswers | crates/agents/src/rate_limit.rs:27-43 | deleting any set of refused calls changes no other answer |
| RateLimit.AboveCapacityNeverGranted | crates/agents/src/rate_limit.rs:27-36 | a cost above capacity is never granted |
| RateLimit.WaitingTime | crates/agents/src/rate_limit.rs:27-43 | without grants in between, a request is granted later exactly when the missing tokens have come in |
| RateLimit.GrantedOnceEarned | crates/agents/src/rate_limit.rs:27-43 | a request within capacity is granted cost / rate seconds after it was refused |
| RateLimit.KeyBucketSinceFirstUse | crates/agents/src/rate_limit.rs:63-102 | for any rate and clock, what the map holds for a key is the run of that key's calls from its first use |
| RateLimit.KeyAnswersSinceFirstUse | crates/agents/src/rate_limit.rs:63-102 | for any rate and clock, a key gets the answers of a bucket created at its first use and asked by it alone |
| RateLimit.KeyBucketRunsAlone | crates/agents/src/rate_limit.rs:63-102 | with a rate that is not negative, what the map holds for a key cannot be told apart from one bucket created at the start |
| RateLimit.KeyAnswersRunAlone | crates/agents/src/rate_limit.rs:63-102 | with a rate that is not negative, the answers for a key are those of one bucket created at the start |
| RateLimit.LazyCreationUnnoticed | crates/agents/src/rate_limit.rs:69-74 | creating buckets at first use changes no answer of any trace exactly when the rate is not negative |
| RateLimit.LazyCreationNoticed | crates/agents/src/rate_limit.rs:69-74 | a trace that shows the difference for each negative rate |
| RateLimitObjects.TokenBucket.constructor | crates/agents/src/rate_limit.rs:18-25 | a new bucket is full and starts at the clock reading |
| RateLimitObjects.TokenBucket.Refill | crates/agents/src/rate_limit.rs:38-43 | the new state is the refilled old one |
| RateLimitObjects.TokenBucket.TryConsume | crates/agents/src/rate_limit.rs:27-36 | new state and answer are those of the bucket function that the run results are about |
| RateLimitObjects.RateLimiter.CheckWithCost | crates/agents/src/rate_limit.rs:84-102 | finds or creates the key's bucket, asks it, leaves every other bucket as it was |
| RateLimitObjects.RateLimiter.Check | crates/agents/src/rate_limit.rs:63-81 | the same with cost one |
| Text.Split | apps/gateway/src/capability.rs:218 | splitting gives separator-free pieces, at least one, which join to the text |
| Text.SplitJoin | apps/gateway/src/capability.rs:127-218 | splitting undoes joining exactly on non-empty lists of separator-free pieces |
| Text.SplitJoined | apps/gateway/src/capability.rs:127-218 | what splitting makes of any joined list: the pieces of its parts, one empty piece for an empty list |
| Text.SplitN | apps/gateway/src/capability.rs:211 | at most n pieces that join to the text, all but the last separator-free |
| Text.SplitThree | apps/gateway/src/capability.rs:211 | three fields are read back when the first two have no colon |
| Text.PrintNat | apps/gateway/src/capability.rs:147 | a number is printed as digits that have its value |
| Text.ListRoundTrip | apps/gateway/src/capability.rs:145-249 | a printed list is read back, the empty list included, when its items are read back and have no comma |
| CapabilityRoundTrip.FlatPrint | apps/gateway/src/capability.rs:124-207 | a tree's print has no semicolon exactly when its texts have none and no spawn in it has two children |
| CapabilityRoundTrip.RoundTrip | apps/gateway/src/capability.rs:124-337 | every well-formed tree is read back from its compact string |
| CapabilityRoundTrip.ParsedWellFormed | apps/gateway/src/capability.rs:210-337 | everything parsed is well-formed, and flat when the text has no semicolon |
| CapabilityRoundTrip.RoundTripExactly | apps/gateway/src/capability.rs:124-337 | parsing the print gives the tree back if and only if the tree is well-formed |
| CapabilityRoundTrip.ParseIsNormalForm | apps/gateway/src/capability.rs:124-337 | whatever a text parses to is stable under printing and parsing |
| CapabilityRoundTrip.PrintInjective | apps/gateway/src/capability.rs:124-207 | different well-formed trees have different prints |
| CapabilityRoundTrip.ParsedSpawnsAreNarrow | apps/gateway/src/capability.rs:320-334 | in a parse result, a spawn below a spawn has at most one child, at every depth |
| CapabilityRoundTrip.LegacyRoundTripExactly | apps/gateway/src/capability.rs:540-609 | a set stored as strings is read back exactly when each member is well-formed |
| CapabilityReread.GluedChains | apps/gateway/src/capability.rs:183-314 | behind a colon in a limit, all pieces but the last are read as chain ids, and the first real chain id is lost |
| CapabilityReread.CutIsParse | apps/gateway/src/capability.rs:195-334 | what any child's print becomes between semicolons, by the structure of the child |
| CapabilityReread.RereadExactly | apps/gateway/src/capability.rs:124-337 | for every tree: its compact string parses, to the reread tree |
| CapabilityReread.OnlyNestingChanges | apps/gateway/src/capability.rs:195-334 | when no text holds a semicolon, the same spawns and leaves come back in preorder, each leaf as it is read alone |
| CapabilityReread.RereadIsNormalForm | apps/gateway/src/capability.rs:124-337 | rereading leaves exactly the well-formed trees alone, and a second rereading changes nothing |
| CapabilityReread.WildcardExactly | apps/gateway/src/capability.rs:132-243 | a stored HTTP capability is read as one for all methods exactly when the parser knows none of its methods |
| CapabilityReread.RoundTripFails | apps/gateway/src/capability.rs:132-243 | failing inputs: HEAD alone becomes all methods, an empty list one empty path, a comma splits a path |
| CapabilityReread.SemicolonCuts | apps/gateway/src/capability.rs:195-334 | a path of a spawn's child is cut at its first semicolon, and whatever follows is read as further children |
| CapabilityReread.SemicolonAdds | apps/gateway/src/capability.rs:195-334 | a path that holds a semicolon and another tree's compact string comes back as the path and that tree |
| CapabilityReread.LegacyReread | apps/gateway/src/capability.rs:540-609 | a set stored as strings loses no member; each becomes its reread form |
| CapabilityReading.ReadsExactly | apps/gateway/src/capability.rs:210-337 | for every text and tree: the text parses to the tree if and only if the grammar says so |
| CapabilityReading.ParsesExactly | apps/gateway/src/capability.rs:210-337 | for every text: it parses exactly when it begins with one of the nine words and, but for tcp and spawn, a third field follows; file must go on with read or write |
| CapabilityReading.NumberRead | apps/gateway/src/capability.rs:248-321 | an unsigned number is read exactly from its digits behind any zeros and at most one plus sign, if it is within the type |
| CapabilityReading.WidthsExactly | apps/gateway/src/capability.rs:248-321 | ports have 16 bits, chain ids 64, the limits 32 |
| CapabilityReading.LimitRead | apps/gateway/src/capability.rs:277-321 | a limit is the number the text spells, or the default if it spells none of 32 bits |
| CapabilityReading.OperationRead | apps/gateway/src/capability.rs:263-272 | a database operation is read exactly from its name in any mixture of cases |
| CapabilityReading.FromStringsExactly | apps/gateway/src/capability.rs:592-609 | a list of strings is read as the capabilities among them, in order, JSON before compact strings; all others are dropped |
| CapabilityReading.SkillPrinted | apps/gateway/src/capability.rs:176-302 | the flag is printed as a word; every other word than true reads as false |
| StateMachine.ValidTransitions | apps/gateway/src/state_machine.rs:129-142 | lists each state that the transition table allows next, once; `MovesListed` states it against the allowed moves |
| StateMachine.TableIsEdges | apps/gateway/src/state_machine.rs:26-126 | the transition table allows exactly the eighteen moves that the description of the states lists |
| StateMachine.MovesListed | apps/gateway/src/state_machine.rs:26-142 | the list of next states has exactly the states that one of the eighteen moves leads to, each once |
| StateMachineMoves.MoveGrantedExactly | apps/gateway/src/state_machine.rs:484-503 | for a known agent: granted exactly for one of the eighteen moves, of the starts only below the retry limit, else which error; the new state, and that nothing changes when refused |
| StateMachineMoves.KnownExactly | apps/gateway/src/state_machine.rs:460-481 | after every run the manager knows exactly the agents registered and not unregistered since |
| StateMachineMoves.ContextShows | apps/gateway/src/state_machine.rs:319-396 | after every run a context shows the state its trace ends in, and of the restarts that end the trace up to fifty |
| StateMachineMoves.RunGrantsExactly | apps/gateway/src/state_machine.rs:460-503 | in every run a move is granted if and only if the agent is registered, the move is one of the eighteen, and a start finds fewer restarts, counted up to fifty, than the limit |
| StateMachineMoves.StoryGrantedExactly | apps/gateway/src/state_machine.rs:460-503 | a registered agent makes all the moves of a sequence if and only if each may follow those before it |
| StateMachineRuns.ContextRemembers | apps/gateway/src/state_machine.rs:319-346 | every field of a context in terms of the full trace: the last hundred entries, the last two states, counts, completed stays |
| StateMachineRuns.TimeConserved | apps/gateway/src/state_machine.rs:319-332 | booked time plus the time between the two clock readings of each transition is the life so far |
| StateMachineRuns.BookedTime | apps/gateway/src/state_machine.rs:319-332 | booked time is at most the life so far, with equality exactly when the two readings of every transition coincide |
| StateMachineRuns.TruncatedRetryCount | apps/gateway/src/state_machine.rs:383-396 | counting restarts in the last k entries gives the true count capped at k / 2 |
| StateMachineRuns.RetryCountOfContext | apps/gateway/src/state_machine.rs:342-396 | the retry count of a context is the true count capped at 50 |
| StateMachineRuns.RunRefines | apps/gateway/src/state_machine.rs:460-503 | after every run the contexts are those of legal full traces, granted by a count that shows at most 50 restarts |
| StateMachineSafety.FullMemoryExactly | apps/gateway/src/state_machine.rs:342-503 | the manager answers as one that keeps full traces, in every run, if and only if the retry limit is at most 50 |
| StateMachineSafety.ForgettingShows | apps/gateway/src/state_machine.rs:342-503 | for each limit above 50, a run in which the manager grants a restart that the full trace forbids |
| StateMachineSafety.ContextOfTrace | apps/gateway/src/state_machine.rs:460-503 | a context is the one that has seen all moves granted since the agent's last registration, from that clock reading on |
| StateMachineSafety.RunTimeConserved | apps/gateway/src/state_machine.rs:319-332 | in every run under a monotone clock, booked time plus the gaps of the transitions is the time from registration to the last transition, and the gaps are nothing exactly when the two readings of every transition coincide |
| StateMachineSafety.LimitHolds | apps/gateway/src/state_machine.rs:383-401 | with a limit of at most 50, each stretch of Error and Initializing entries has at most that many Initializing and at most 2 * limit + 1 entries |
| StateMachineSafety.NoLimitAboveFifty | apps/gateway/src/state_machine.rs:342-401 | with a limit above 50 an agent is restarted any number of times in a row |
| StateMachineSafety.RetryLimitExactly | apps/gateway/src/state_machine.rs:342-503 | the retry limit holds in every run if and only if it is at most 50 |
| StateMachineSafety.LifeCycle | apps/gateway/src/state_machine.rs:84-126 | Stopped ends a trace and follows ShuttingDown or Error; ShuttingDown follows Idle or Paused; nothing but failing comes before the first Initializing |
| StateMachineSafety.ApplyIsLocal | apps/gateway/src/state_machine.rs:460-503 | an operation depends on and changes its own agent only, and a refused one changes nothing |
| StateMachineSafety.AgentsAreIsolated | apps/gateway/src/state_machine.rs:460-503 | in every run an agent's context is what its own operations alone produce |
| StateMachineSafety.AnswersAreIsolated | apps/gateway/src/state_machine.rs:460-503 | in every run an agent's operations return what they would return alone |
| StateMachineObjects.StateMachineContext.RecordTransition | apps/gateway/src/state_machine.rs:319-346 | the new context is the recorded old one, with the stay booked and the history cut |
| StateMachineObjects.StateMachineContext.TransitionTo | apps/gateway/src/state_machine.rs:364-380 | granted exactly for one of the eighteen moves; an illegal transition is refused with the valid ones and changes nothing |
| StateMachineObjects.StateMachineContext.ErrorRetryCount | apps/gateway/src/state_machine.rs:383-396 | the backward scan counts the Initializing entries of the recovery stretch that ends the history |
| StateMachineObjects.StateMachineContext.ShouldStopRetrying | apps/gateway/src/state_machine.rs:399-401 | true exactly when the count has reached the limit |
| StateMachineObjects.StateMachineManager.RegisterAgent | apps/gateway/src/state_machine.rs:460-465 | the agent gets a new context, every other keeps its own |
| StateMachineObjects.StateMachineManager.UnregisterAgent | apps/gateway/src/state_machine.rs:479-481 | only that agent's context goes |
| StateMachineObjects.StateMachineManager.Transition | apps/gateway/src/state_machine.rs:484-503 | unknown agents, exhausted retries and illegal moves are refused in this order; a known agent is granted exactly one of the eighteen moves, of the starts only below the limit, and its context records the move |
| Backoff.FormsAgreeExactly | apps/cli/src/error.rs:150-183 | for integral multipliers, zero included, the two delays are equal for all attempts exactly when the initial delay is whole milliseconds within the maximum and rounding of the maximum never shows |
| Backoff.MillisAgreeExactly | apps/cli/src/error.rs:150-183 | for integral multipliers the two delays have the same whole milliseconds for all attempts exactly when the initial delay is within the maximum |
| Backoff.IterativeNeverLonger | apps/cli/src/error.rs:150-183 | for any real multiplier the iterative delay is never a whole millisecond longer than the closed one, exactly when the initial delay is within the maximum |
| Backoff.SlowGrowthIsLost | apps/cli/src/error.rs:166-181 | the iterative delay never leaves its initial milliseconds if and only if one step does not leave them |
| Backoff.OneMillisecondNeverGrows | apps/cli/src/error.rs:166-181 | failing input: one millisecond with multiplier 1.5 stays, while the closed form grows |
| Backoff.FormsDiffer | apps/cli/src/error.rs:150-183 | failing inputs: an initial delay above the maximum, and one between two milliseconds |
| Backoff.NextMillis | apps/cli/src/error.rs:166-171 | for any multiplier, a step of with_retry is the scaled delay, cast and capped, in milliseconds |
| Backoff.NextIsFloor | apps/cli/src/error.rs:166-171 | for any multiplier, a step of with_retry is the last delay times the multiplier rounded down to milliseconds, between zero and the maximum |
| Backoff.IterativeMillis | apps/cli/src/error.rs:166-181 | for integral multipliers, zero included, the k-th delay of with_retry is initial * multiplier^k capped, in milliseconds |
| Backoff.ClosedMillis | apps/cli/src/network.rs:329-334 | for any multiplier, the calculated delay is base * multiplier^attempt, cast and capped, in milliseconds |
| Backoff.ClosedIsFloor | apps/cli/src/network.rs:329-334 | for any multiplier, the calculated delay is base * multiplier^attempt rounded down to milliseconds, between zero and the maximum |
| Backoff.PowLaws | apps/cli/src/network.rs:329-334 | powers of a real multiplier: the first is the multiplier, and exponents add |
| RetryLoops.WithRetry | apps/cli/src/error.rs:71-187 | returns the first success, else the first error that is not retryable, else the last error, in at most limit + 1 calls; a network, timeout, server or rate-limit error is returned only when the calls are used up, and only these are tried again; sleeps the iterative delays, in all at most the initial delay and the maximum for each further sleep |
| RetryLoops.Execute | apps/cli/src/network.rs:466-523 | returns the first response not to be retried, else the last attempt's response or error, in at most limit + 1 calls, sleeping at most limit * maximum |
| DnsCache.CachedDnsResolver.ReadStep | apps/cli/src/network.rs:155-164 | a hit exactly for an entry that expires later than now |
| DnsCache.CachedDnsResolver.WriteStep | apps/cli/src/network.rs:177-202 | a full cache loses exactly the entries that expired before now, then the answer is inserted; every other entry stays as it was |
| DnsCache.CacheHoldsLatest | apps/cli/src/network.rs:154-205 | in every run an entry is the latest answer written for its host, and a missing one has expired |
| DnsCache.ServesLatest | apps/cli/src/network.rs:154-205 | a hit is the latest answer written for the host, while it is fresh |
| DnsCache.SizeUnobservable | apps/cli/src/network.rs:154-205 | two caches of any sizes, driven by the same events, serve every host alike at every moment and keep every resolver alike |
| DnsCache.RoomyCacheKeepsAll | apps/cli/src/network.rs:181-201 | a cache with room for every write evicts nothing |
| DnsCache.HitsAreSound | apps/cli/src/network.rs:154-205 | a served answer is not empty, is younger than the time to live, and was brought by a lookup of that very host |
| DnsCache.PhasesExactly | apps/cli/src/network.rs:154-205 | in every run a resolver looks a host up exactly from a request that missed until the answer, and waits to write exactly from a lookup that brought addresses until it has written |
| DnsCache.SizeAfterStore | apps/cli/src/network.rs:181-201 | after a write the size is within the maximum or at most one more than the entries that had not expired before the write |
| Bridge.ProcessedIsWindow | tools/whatsapp-baileys-bridge/whatsapp-baileys-bridge.js:97-110 | the set is the window of the last thousand accepted ids |
| Bridge.RepeatIffInWindow | tools/whatsapp-baileys-bridge/whatsapp-baileys-bridge.js:97-110 | a repeat is recognised exactly when its id is in the window, whose size never exceeds a thousand |
| Bridge.AcceptedApart | tools/whatsapp-baileys-bridge/whatsapp-baileys-bridge.js:97-110 | any 1001 consecutive accepted ids are pairwise distinct |
| Bridge.AttemptsCountDrops | tools/whatsapp-baileys-bridge/whatsapp-baileys-bridge.js:401-444 | the counter is the number of drops since the last open, capped at the limit |
| Bridge.ScheduledExactly | tools/whatsapp-baileys-bridge/whatsapp-baileys-bridge.js:422-431 | a reconnect is scheduled exactly for the first drops after an open, up to the limit, never for a logout |
| Bridge.ReconnectsBounded | tools/whatsapp-baileys-bridge/whatsapp-baileys-bridge.js:401-444 | between two opens the reconnects number at most the limit |
| Bridge.ConnectedSinceOpen | tools/whatsapp-baileys-bridge/whatsapp-baileys-bridge.js:401-473 | connected exactly when an open is later than the last close |
| Bridge.StateShown | tools/whatsapp-baileys-bridge/whatsapp-baileys-bridge.js:383-473 | the state shown is what the last update that carried a change or a QR code said, and "disconnected" before any |
| Bridge.WhatsAppBridge.IsDuplicate | tools/whatsapp-baileys-bridge/whatsapp-baileys-bridge.js:97-110 | new set and answer are those of the window function |
| Bridge.WhatsAppBridge.ConnectionUpdate | tools/whatsapp-baileys-bridge/whatsapp-baileys-bridge.js:383-473 | new variables and the scheduled reconnect are those of the update function |
| NormalizePath.NormalizePathLoop | apps/gateway/src/config.rs:619-639 | the loop pushes to and pops from its buffer as the fold over the components says |
| NormalizePath.BufferIsNormalForm | apps/gateway/src/config.rs:619-639 | what the loop leaves in its buffer are the components of the normal form |
| NormalizePath.NormalizeIdempotent | apps/gateway/src/config.rs:619-639 | a normalised path is its own normal form |
| NormalizePath.NormalizePrefix | apps/gateway/src/config.rs:619-639 | normalising a first part early changes nothing |
| NormalizePath.NoDotsLeft | apps/gateway/src/config.rs:619-639 | the buffer never keeps a dot component: after an optional root only names are left |
| NormalizePath.MeaningKept | apps/gateway/src/config.rs:619-639 | in any tree and from any start, a path that does not climb leads where its normal form leads |
| NormalizePath.AbsoluteMeaningKept | apps/gateway/src/config.rs:606-608 | an absolute path always leads where its normal form leads |
| NormalizePath.NamesLeft | apps/gateway/src/config.rs:619-639 | a relative path leaves as many names as it lies below the highest point it climbs to |
| NormalizePath.MeaningKeptExactly | apps/gateway/src/config.rs:619-639 | meaning is kept in every tree and from every start if and only if no prefix of a relative path has more parent steps than names |
| NormalizePath.LeadingParentLost | apps/gateway/src/config.rs:624-626 | the smallest failing path: a parent step at the start leaves no trace |
| PathText.ReadSteps | apps/gateway/src/config.rs:621-637 | every text is read as what it begins with and the steps that its pieces name, empty pieces and dots left out |
| PathText.ReadPathExactly | apps/gateway/src/config.rs:621-637 | for every text and all steps: it is read as these steps exactly when its pieces, but for empty ones and dots, are their texts |
| PathText.StepsRoundTrip | apps/gateway/src/config.rs:621-637 | names and parent steps are read back from their text, behind a root or not |
| PathText.NameAndParentCancel | apps/gateway/src/config.rs:624-626 | in the text of an absolute path a name and the parent step behind it cancel |
| PathText.ParentOfRoot | apps/gateway/src/config.rs:624-626 | a parent step right behind the root does nothing |
| PathText.NormalizeTextStable | apps/gateway/src/config.rs:608-639 | the normalised text has proper names only, is read back as itself, and is stable |
| PathText.AbsoluteTextMeaning | apps/gateway/src/config.rs:606-639 | the text of an absolute path leads where its normalised text leads |

## Left out

- Floating point: rates, levels and multipliers are real numbers; rounding is not modelled.
- Poisoned locks in the rate limiter, which allow every call.
- `StateMachineObjects.StateMachineManager`: `get_context_mut`, the mutable reference returned by registration and a later `set_max_retries` are not part of the runs, because they bypass or move the limit; state timeouts are not modelled because `transition` never reads them.
- `StateMachine.ValidTransitions`: the results say which states are listed, each once, and not in which order.
- `StateMachine.Record`: error and transition counts are unbounded integers, so their wrap-around after 2^32 and 2^64 transitions is not modelled.
- `Backoff.CalculateDelay`: attempts are natural numbers, so the cast of an attempt above 2^31 - 1 to a negative exponent is not modelled.
- `RetryLoops.Execute`: request interceptors and the cloning of the request come before the loop and are not modelled; response interceptors are, as a refusal of the response.
- `RetryLoops.WithRetry`: outcomes are classified errors; the string matching of `from_anyhow` is not modelled.
- `CapabilityRoundTrip.FromStrings`: the JSON reader is a parameter, and the round trip assumes that it rejects compact strings.
- `Capability.LowerCase`: only A-Z are lowered; no other character has a lower-case form that occurs in the operation names.
- `NormalizePath.Tree`: directories have no symbolic links, and Windows prefixes are not components; the necessity of the condition in `MeaningKeptExactly` is shown for trees whose directories are lists of names, its sufficiency (`MeaningKept`) for any.
- `DnsCache.CachedDnsResolver`: lookups themselves, and the answer a resolver returns after its own lookup, are inputs of the run.
- Hashing of message ids, sockets, timers and the message queue of the bridge.
- Kernel capability sets, HTTP, WebSocket, gRPC, the web interface and the Python tools.
