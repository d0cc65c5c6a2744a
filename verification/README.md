# Verified models of the Zudojs cache, container, feature flags and tooling

This project models the parts of the Zudojs repository that keep state or carry a guarantee,
and proves what they promise. `dafny verify dfyconfig.toml` checks all of it.

| files | model |
|---|---|
| `Glob` | the segment-aware glob matcher: two nested greedy loops against a declarative relation |
| `Ttl` | times to live and their bounds |
| `Strings`, `KeyBuilder` | splitting and joining keys; full keys, full patterns and their scope |
| `OrderedMap`, `MemorySpec`, `MemoryCache`, `MemoryTheorems` | the in-memory adapter (TTL, LRU order, entry and byte caps), its specification on values, and its guarantees over whole runs |
| `TagStore`, `ServiceSpec`, `CacheService`, `ServiceTheorems` | the two-way tag index, the cache service with its invalidation manager, and the agreement of index and cache over whole runs |
| `LockStore`, `WithLock` | the lease store, and `withLock` as a protocol interleaved at every await |
| `SingleFlight` | `getOrSet` as a protocol interleaved at every await |
| `HotKeys` | hot-key counting (the Space-Saving summary) and its error bounds |
| `MiddlewareChain` | the store's middleware chain |
| `ConsumerIndex`, `Provenance`, `Resolver` | the dependency-injection resolver, its caches and scopes, and which cached instances a registry change evicts |
| `FeatureFlags` | memoised evaluation of flag prerequisites against a least fixed point |
| `CycleFinder`, `Tiers` | the architecture check: circular dependencies and tiers |
| `ProtectText`, `TemplateGrammar` | the playground's text protection, its inverse, and the grammar its scanner recognises |
| `RandomInt` | rejection sampling of uniform integers |

Code that updates objects in place is modelled as classes whose methods are proved to do what
a function on values says (`MemorySpec.Step`, `ServiceSpec.Serve`, `HotKeys.Counted`,
`LockStore.Attempted`, ...). What each operation answers and leaves behind is then proved of
those functions in its caller's terms, and so are the theorems over every sequence of operations.
Concurrency in `withLock` and `getOrSet` is modelled as a step system: every
await is a point where any other step may come in between. Time is a real number handed to each
operation, and sizes of cached values are arbitrary naturals.

What the proofs turned up where code, comments and expectations part:

- A pattern of just `**`, scoped to a namespace, also reaches the unscoped key whose raw key is
  the namespace's name, because `**` matches zero segments (`KeyBuilder.Reaches`,
  `KeyBuilder.PatternReachesItsScope`). Every other pattern stays inside its scope.
- The entry cap is kept in a reachable state exactly when `maxEntries` is at least 1 or nothing is
  stored: with 0 or less, every accepted write leaves one entry (`MemoryTheorems.CapsHoldExactly`,
  `MemoryTheorems.NoRoomHoldsOne`).
- A lock name contends with no separator-free name of another scope exactly when it is free of
  the scope separator itself (`LockStore.NeverContendsExactly`): the unscoped name that reads
  `n`, separator, `k` is the name `k` of namespace `n` (`LockStore.LockNamesCanCollide`).
- A lock store that rejects with a falsy value is reported as contention, not as a failing store
  (`LockStore.AcquireWithRetries`).
- A registry change can evict an instance that was not built from the changed token: the index
  keeps the link to a part that a later registration no longer takes (`Resolver.StaleLinkEvicts`).
  Every change evicts exactly what was built from its token if and only if no recorded link into
  what a cached instance was built from is stale (`Provenance.ExactExactly`), and so it is as long
  as no registration has dropped a part it took (`Resolver.ContainerResolver.Replace`).
- `cleared` and `deleted` of the adapter count entries that have expired but not been purged.
- Only a `forceRefresh` lets two computations of a key overlap; the number of unsettled ones is
  at most one more than the number of forced ones (`SingleFlight.UnsettledAreFew`,
  `SingleFlight.ForcedRefreshOverlaps`).
- Text protection gives the source back exactly when no copied stretch of it reads as a
  placeholder (`ProtectText.Unambiguous`, `ProtectText.RoundTrip`); every source that starts with
  a numbered mark is lost (`ProtectText.MarkedSourceIsLost`), while one inside a block
  comment or a template literal is given back.
- Inside a hole of a template the scanner knows no strings: a brace or a backtick within quotes
  there counts like any other (`TemplateGrammar.WellFormedCode`, `TemplateGrammar.TemplateEndsExactly`).
- `randomInt` lies between its bounds on every stream exactly when the lower one is below the
  upper one (`RandomInt.InRangeExactly`), and accepts some 32-bit word exactly when the range is at
  most 2^32; for a wider one its loop cannot end (`RandomInt.AcceptsSomeWord`).

## Model

| member | source | states |
|---|---|---|
| `Glob.TokenizeSegment` | packages/cache/src/utils.ts:64-77 | the tokens of a segment, runs of `*` collapsed into one |
| `Glob.TokensKeepMeaning` | packages/cache/src/utils.ts:59-77 | collapsing runs of `*` changes nothing about which values a segment pattern matches |
| `Glob.MatchSegment` | packages/cache/src/utils.ts:84-116 | true exactly when the token list matches the value, within (tokens + 1) * (length + 1) loop iterations |
| `Glob.CommitToLaterAny` | packages/cache/src/utils.ts:100-110 | why one backtrack point suffices: aligned at the earliest place, an earlier wildcard never has to move once a later one is reached |
| `Glob.AnyAdvances` | packages/cache/src/utils.ts:106-111 | after a mismatch the wildcard may absorb one more value without losing a match |
| `Glob.EnterAny` | packages/cache/src/utils.ts:100-105 | moving the backtrack point to a new wildcard keeps the scan's invariant |
| `Glob.Stuck` | packages/cache/src/utils.ts:106-112 | a stuck scan without a wildcard behind it has no match; with one, it may retry one value later |
| `Glob.ValuesUsedUp` | packages/cache/src/utils.ts:114-115 | with the value used up there is a match exactly when only wildcards remain |
| `Glob.PartsKeepMeaning` | packages/cache/src/utils.ts:142-147 | a compiled pattern means what its segments mean, whole-segment `**` as any number of segments |
| `Glob.CreateGlobMatcher` | packages/cache/src/utils.ts:136-147 | rejects empty and over-long patterns and compiles every other one, segment by segment |
| `Glob.MatchSegments` | packages/cache/src/utils.ts:149-184 | the outer loop decides the segment-level relation within (parts + 1) * (segments + 1) iterations |
| `Glob.MatchGlob` | packages/cache/src/utils.ts:121-185 | for every pattern and value, true exactly when `*` as a run within a segment, `?` as one character and whole-segment `**` as zero or more segments make them match |
| `Glob.SegmentAtoms` | packages/cache/src/utils.ts:64-98 | alone, `*` matches every value, `?` exactly the single characters, and any other character itself |
| `Glob.SegmentConcat` | packages/cache/src/utils.ts:84-116 | two patterns in a row match exactly the values that split into what each of them matches; with the atoms this settles every segment pattern |
| `Glob.SegmentsAtoms` | packages/cache/src/utils.ts:142-147 | alone, `**` matches every list of segments and any other part exactly one segment |
| `Glob.SegmentsConcat` | packages/cache/src/utils.ts:149-184 | two lists of parts in a row match exactly the keys that split at a segment into what each of them matches |
| `Strings.SplitJoin` | packages/cache/src/key-builder.ts:91-95 | joining parts free of a one-character separator and splitting again gives the parts back |
| `Strings.JoinSplit` | packages/cache/src/key-builder.ts:91-95 | joining the parts of a split gives the string back |
| `KeyBuilder.DefaultKeyBuilder.constructor` | packages/cache/src/key-builder.ts:59-68 | fixes prefix, separator and namespace; an empty namespace is not accepted |
| `KeyBuilder.DefaultKeyBuilder.Build` | packages/cache/src/key-builder.ts:70-105 | the full key, spelled out with the call's own prefix, namespace and separator where it has them, and an invalid-key error exactly for a malformed part or too long a whole |
| `KeyBuilder.DefaultKeyBuilder.BuildPattern` | packages/cache/src/key-builder.ts:116-136 | prefix and namespace are validated like a key's, only the last segment may hold wildcards, and the length limit applies; the pattern is spelled out |
| `KeyBuilder.DefaultKeyBuilder.ValidatePart` | packages/cache/src/key-builder.ts:146-166 | accepts exactly the non-empty parts over the key alphabet that are free of the separator |
| `KeyBuilder.FullKeyExactly` | packages/cache/src/key-builder.ts:75-104 | a key is accepted exactly when its parts are non-empty, over the alphabet and free of the separator, and the whole is not too long; then it is their text in order |
| `KeyBuilder.FullPatternExactly` | packages/cache/src/key-builder.ts:116-136 | the same of a pattern, whose last part may hold wildcards |
| `KeyBuilder.FullPatternIsValid` | packages/cache/src/key-builder.ts:126-135 | a built pattern always passes the matcher's own validation |
| `KeyBuilder.SplitOfFullKey` | packages/cache/src/key-builder.ts:79-104 | splitting a full key gives prefix, namespace and raw key back |
| `KeyBuilder.SplitOfFullPattern` | packages/cache/src/key-builder.ts:121-135 | splitting a full pattern gives its scope and its pattern back |
| `KeyBuilder.FullKeyInjective` | packages/cache/src/key-builder.ts:70-105 | under one prefix a full key determines its namespace and its raw key |
| `KeyBuilder.LiteralSegment` | packages/cache/src/utils.ts:84-116 | a segment without wildcards matches only itself |
| `KeyBuilder.PatternReachesItsScope` | packages/cache/src/key-builder.ts:107-136 | a built pattern matches a built key exactly when scope and raw key agree with it, with the exact exception for a pattern of just `**` |
| `MemoryCache.MemoryCacheAdapter.constructor` | packages/cache/src/memory.ts:131-150 | starts empty, with the purge clock at the given instant |
| `MemoryCache.MemoryCacheAdapter.Get` | packages/cache/src/memory.ts:152-168 | drops an expired entry, otherwise answers with the value and makes the key most recent |
| `MemoryCache.MemoryCacheAdapter.Set` | packages/cache/src/memory.ts:170-204 | TTL check, set-if-absent, timed purge, release of the old entry, eviction and insertion, as the specification says; the byte counter stays exact |
| `MemoryCache.MemoryCacheAdapter.Delete` | packages/cache/src/memory.ts:206-210 | removes the key and says whether it was stored |
| `MemoryCache.MemoryCacheAdapter.DeleteMany` | packages/cache/src/memory.ts:291-293 | removes all the keys; the answer lists those that were stored, each once, in the order given |
| `MemoryCache.FirstPresentDistinct` | packages/cache/src/utils.ts:241-255 | no key is reported deleted twice, even when it is named twice |
| `MemoryCache.FirstPresentInOrder` | packages/cache/src/utils.ts:241-255 | and they are reported in the order of their first mention |
| `MemoryCache.MemoryCacheAdapter.Has` | packages/cache/src/memory.ts:212-220 | presence of a live entry; an expired one is dropped |
| `MemoryCache.MemoryCacheAdapter.Clear` | packages/cache/src/memory.ts:222-240 | without pattern everything goes; with one exactly the matching keys, and they are counted |
| `MemoryCache.MemoryCacheAdapter.Keys` | packages/cache/src/memory.ts:242-260 | drops every expired entry and lists the live matching keys in order, up to the limit; a negative limit cuts that many from the end |
| `MemoryCache.MemoryCacheAdapter.Size` | packages/cache/src/memory.ts:262-266 | purges and counts what is left |
| `MemoryCache.MemoryCacheAdapter.TtlOf` | packages/cache/src/memory.ts:301-314 | missing, never, or whole milliseconds left, never less than 1 for a present key |
| `MemoryCache.MemoryCacheAdapter.Expire` | packages/cache/src/memory.ts:316-326 | a live entry gets a new deadline in its old place; an expired one is dropped |
| `MemoryCache.MemoryCacheAdapter.Remove` | packages/cache/src/memory.ts:353-359 | takes out one entry and exactly its bytes; the clamp to zero changes nothing |
| `MemoryCache.MemoryCacheAdapter.PurgeExpired` | packages/cache/src/memory.ts:361-366 | removes exactly the expired entries, keeping the order of the rest |
| `MemoryCache.MemoryCacheAdapter.MaybePurgeExpired` | packages/cache/src/memory.ts:368-371 | purges only when the interval has passed |
| `MemoryCache.MemoryCacheAdapter.EvictIfNeeded` | packages/cache/src/memory.ts:378-398 | the two eviction loops together trim the oldest entries until both caps hold |
| `MemorySpec.TrimmedIsShortestPrefix` | packages/cache/src/memory.ts:385-397 | eviction drops a prefix of the LRU order, and no shorter prefix would have made room |
| `MemorySpec.EffectOf` | packages/cache/src/memory.ts:152-326 | every operation forgets, touches, replaces or re-dates, and its answer says which; only a live entry is touched |
| `MemoryTheorems.RunStaysWithin` | packages/cache/src/memory.ts:152-326 | over every run, what is stored is the latest successful write with its current deadline: eviction only forgets |
| `MemoryTheorems.HitsAreLatestAndAlive` | packages/cache/src/memory.ts:152-168 | every hit of every run answers with the latest write not since deleted or cleared, strictly before its deadline |
| `MemoryTheorems.RunAgrees` | packages/cache/src/memory.ts:170-204 | a run in which no write overflows holds the whole live part of the plain TTL map |
| `MemoryTheorems.ReadsAreExact` | packages/cache/src/memory.ts:152-168 | after such a run a read hits exactly when the plain map has a live value, and answers with it |
| `MemoryTheorems.GetAnswers` | packages/cache/src/memory.ts:152-168 | a read hits exactly an entry whose deadline has not come, with its value, and moves it last; a dead one is dropped |
| `MemoryTheorems.SetAnswers` | packages/cache/src/memory.ts:170-204 | rejected exactly for a TTL out of bounds, skipped exactly for a living entry not to be overwritten, otherwise stored with value, deadline and size spelled out, and last |
| `MemoryTheorems.HasAnswers` | packages/cache/src/memory.ts:212-220 | presence exactly of what a read would hit; nothing but a dead entry goes |
| `MemoryTheorems.TtlAnswers` | packages/cache/src/memory.ts:301-314 | the time left in whole milliseconds rounded down, 1 below one millisecond, and nothing for what a read would miss |
| `MemoryTheorems.ExpireAnswers` | packages/cache/src/memory.ts:316-326 | works exactly on a living entry within the TTL bounds; its deadline changes and nothing else |
| `MemoryTheorems.DeleteAnswers` | packages/cache/src/memory.ts:206-210 | exactly that key goes, and the answer says whether it was there |
| `MemoryTheorems.ClearAnswers` | packages/cache/src/memory.ts:222-240 | exactly the matching keys go, or all without a pattern, and the answer counts them; too long a pattern changes nothing |
| `MemoryTheorems.KeysAnswers` | packages/cache/src/memory.ts:242-260 | exactly the living matches in the store's order, cut by the limit to the exact number; the dead ones go |
| `MemoryTheorems.SizeAnswers` | packages/cache/src/memory.ts:262-266 | exactly the number of living entries; the dead ones go |
| `MemoryTheorems.RunKeepsCapacity` | packages/cache/src/memory.ts:373-398 | in every reachable state the entry cap holds, and the byte cap unless a single entry is held |
| `MemoryTheorems.NoRoomHoldsOne` | packages/cache/src/memory.ts:378-398 | with an entry cap of 0 or less an accepted write leaves exactly its own entry |
| `MemoryTheorems.CapsHoldExactly` | packages/cache/src/memory.ts:373-398 | in every reachable state the entry cap holds exactly when it is at least 1 or nothing is stored, and the byte cap exactly unless a single entry is bigger than it |
| `MemoryTheorems.MinusOne` | packages/cache/src/memory.ts:353-359 | taking an entry out lowers count and byte total by exactly one entry and its bytes |
| `MemoryTheorems.RunKeepsTouchOrder` | packages/cache/src/memory.ts:159-162 | in every reachable state the map order is the order of last touch, by read hit or write |
| `MemoryTheorems.EvictionIsMinimal` | packages/cache/src/memory.ts:373-398 | an overflowing write removes exactly the entries whose deadline has come and the shortest least-recently-used run of living ones that makes room within both caps; the new entry is last |
| `MemoryTheorems.OverflowsExactly` | packages/cache/src/memory.ts:181-204 | a write overflows exactly when its entry, at two bytes per key character and the value's own, does not fit both caps beside the others; if it fits, the order is theirs with its key last, and the dead go only when a purge is due |
| `MemoryTheorems.NoOverflowNoEviction` | packages/cache/src/memory.ts:378-381 | a write with room to spare loses no other entry except dead ones at a due purge |
| `TagStore.ScopedTagInjective` | packages/cache/src/tags.ts:34-40 | the composition of namespace and validated tag is unambiguous |
| `TagStore.InMemoryTagStore.Add` | packages/cache/src/tags.ts:82-100 | rejects exactly an empty, over-long or separator-holding tag before changing anything, else adds exactly the scoped tags to the key's entry, in both maps |
| `TagStore.InMemoryTagStore.Remove` | packages/cache/src/tags.ts:104-119 | takes exactly those scoped tags from the key's entry, dropping sets that become empty |
| `TagStore.InMemoryTagStore.GetKeys` | packages/cache/src/tags.ts:123-128 | exactly the keys whose own entry carries the scoped tag |
| `TagStore.InMemoryTagStore.Invalidate` | packages/cache/src/tags.ts:132-158 | takes exactly that tag from every entry, and counts those that carried it |
| `TagStore.InMemoryTagStore.RemoveKey` | packages/cache/src/tags.ts:163-172 | forgets the key in both maps and nothing else |
| `TagStore.CarriersAreIndexed` | packages/cache/src/tags.ts:74-78 | the tag side of the index is the key side turned round |
| `TagStore.InvalidateKeepsInverse` | packages/cache/src/tags.ts:145-155 | invalidation keeps the maps exact inverses without empty sets |
| `CacheService.CacheInvalidationManager.InvalidateByTag` | packages/cache/src/invalidation.ts:61-85 | deletes exactly the keys indexed under any of the tags, forgets all their tags, and counts those that were stored |
| `CacheService.CacheInvalidationManager.CollectKeys` | packages/cache/src/invalidation.ts:65-69 | the keys of all the tags, without duplicates |
| `CacheService.CacheInvalidationManager.DeleteKeys` | packages/cache/src/invalidation.ts:71-78 | store, index and count after deleting a set of keys, in whatever order they come |
| `CacheService.CacheService.constructor` | packages/cache/src/cache.ts:72-88 | a service with its own adapter, index and key builder, sharing one separator and namespace |
| `CacheService.CacheService.Get` | packages/cache/src/cache.ts:144-161 | the adapter's answer for the full key, or the key builder's error |
| `CacheService.CacheService.Has` | packages/cache/src/cache.ts:225-236 | presence of the full key, or the key builder's error |
| `CacheService.CacheService.TtlOf` | packages/cache/src/cache.ts:276-298 | the time left for the full key, or the key builder's error |
| `CacheService.CacheService.Size` | packages/cache/src/cache.ts:470-479 | the number of live entries of the whole adapter |
| `CacheService.CacheService.Set` | packages/cache/src/cache.ts:168-207 | after an accepted write the key carries exactly the tags of that write; a skipped or rejected one changes no tag |
| `CacheService.CacheService.Delete` | packages/cache/src/cache.ts:209-223 | entry and tags of the key go together |
| `CacheService.CacheService.Expire` | packages/cache/src/cache.ts:300-313 | re-dates through the adapter and leaves the tags alone |
| `CacheService.CacheService.Clear` | packages/cache/src/cache.ts:244-274 | everything and every tag without options, otherwise what the scoped pattern names, `*` by default |
| `CacheService.CacheService.InvalidateByPattern` | packages/cache/src/cache.ts:374-392 | clears what the qualified pattern matches and purges the tags of those keys |
| `CacheService.CacheService.InvalidateByTag` | packages/cache/src/cache.ts:347-362 | validates tags and scope, then removes what the tags index in that scope |
| `CacheService.CacheService.PurgeTagsMatching` | packages/cache/src/cache.ts:656-663 | forgets the tags of exactly the tracked keys the pattern matches |
| `ServiceTheorems.RunAgrees` | packages/cache/src/cache.ts:194-201 | after every run each stored key holds the value of its latest successful write and is indexed under exactly the scoped tags of that write |
| `ServiceTheorems.ReadsAreExact` | packages/cache/src/cache.ts:144-161 | after every run a malformed key is rejected, and any other read hits exactly when its full key is stored and its deadline has not come, with the latest successful write of that raw key in that very namespace |
| `ServiceTheorems.WritesAnswer` | packages/cache/src/cache.ts:168-207 | a write is rejected for key, tags or TTL in that order, skipped for a living entry not to be overwritten, and then changes nothing; otherwise the full key holds it and exactly its tags, and no other key's tags change |
| `ServiceTheorems.ProbesAnswer` | packages/cache/src/cache.ts:225-236 | presence exactly of what a read would hit, or the key error |
| `ServiceTheorems.LifetimesAnswer` | packages/cache/src/cache.ts:276-298 | the time left of exactly what a read would hit, or the key error |
| `ServiceTheorems.CountsAnswer` | packages/cache/src/cache.ts:470-479 | exactly the number of living entries |
| `ServiceTheorems.DiscardsAnswer` | packages/cache/src/cache.ts:209-223 | exactly the entry and the tags of the full key go, and the answer says whether it was stored |
| `ServiceTheorems.ExtensionsAnswer` | packages/cache/src/cache.ts:300-313 | the deadline of a living entry changes and nothing else; key and TTL errors change nothing |
| `ServiceTheorems.ClearAllAnswers` | packages/cache/src/cache.ts:264-274 | no entry and no tag is left, and the answer counts the entries |
| `ServiceTheorems.PatternClearsUntag` | packages/cache/src/cache.ts:374-392 | the tags of exactly the keys the scoped pattern matches are forgotten; a malformed one changes nothing |
| `ServiceTheorems.TagInvalidationsUntag` | packages/cache/src/cache.ts:347-362 | exactly the keys carrying one of the scoped tags lose all theirs; malformed tags or scope change nothing |
| `ServiceTheorems.OthersOnlyForget` | packages/cache/src/cache.ts:209-392 | operations other than an accepted write bring no key in and untag only keys they take out |
| `ServiceTheorems.TaggedAsWritten` | packages/cache/src/tags.ts:38-40 | scoped tags meet exactly when the scopes are equal and a raw tag is shared |
| `ServiceTheorems.TagInvalidationIsExact` | packages/cache/src/cache.ts:342-362 | after every run, invalidating by tag removes exactly the stored entries of that namespace whose latest write carried one of the tags, and `cleared` counts them |
| `ServiceTheorems.PatternClearIsExact` | packages/cache/src/cache.ts:364-392 | after every run, a pattern clear removes exactly the stored entries it reaches in its scope, and `cleared` counts them |
| `LockStore.LockNamesApart` | packages/cache/src/lock.ts:38-49 | two names free of the scope separator contend only when name and namespace are the same |
| `LockStore.NeverContendsExactly` | packages/cache/src/lock.ts:38-49 | a name contends with no separator-free name of any other scope if and only if it is free of the separator |
| `LockStore.StandingRefuses` | packages/cache/src/lock.ts:67-71 | a lease refuses every taker up to its deadline and not beyond it, and no attempt changes a standing lease |
| `LockStore.InMemoryLockStore.Acquire` | packages/cache/src/lock.ts:57-98 | rejects exactly a TTL out of bounds; otherwise takes the name exactly when no lease on it stands, for one TTL from now, and a standing lease stays as it was; dead leases go |
| `LockStore.InMemoryLockStore.Release` | packages/cache/src/lock.ts:77-84 | gives the name up only under the same token, and says so |
| `LockStore.InMemoryLockStore.Extend` | packages/cache/src/lock.ts:85-96 | renews the deadline to one TTL from now exactly under the same token, and says so |
| `LockStore.InMemoryLockStore.SweepExpired` | packages/cache/src/lock.ts:101-107 | drops exactly the leases at or past their deadline |
| `LockStore.AcquireWithRetries` | packages/cache/src/lock.ts:140-174 | the first success wins; otherwise every attempt is made and the last one alone decides: the store failed exactly when that one rejected with a truthy value, else the name is contended |
| `WithLock.RunKeepsTokensUnique` | packages/cache/src/lock.ts:65-71 | in every reachable state no two holders share a token, and every token in use has been minted |
| `WithLock.NoTakeoverBeforeDeadline` | packages/cache/src/lock.ts:69-71 | in every run no attempt, of a call or of another holder, changes a lease before its deadline |
| `WithLock.HeldUntilDeadline` | packages/cache/src/lock.ts:57-107 | a holder loses its name exactly by its own release, by `clear()`, or by a sweep or an attempt at or after its deadline |
| `WithLock.LostByAnEnding` | packages/cache/src/lock.ts:57-107 | over every run, a lost lease was lost at such a step |
| `WithLock.OnlyRenewalsMoveDeadlines` | packages/cache/src/lock.ts:85-94 | a lease that stays keeps its deadline but for its holder's renewals, which set it to one TTL from then |
| `WithLock.HeartbeatsSeeLosses` | packages/cache/src/lock.ts:211-219 | a renewal fails, for the call to notice, exactly when its lease is gone |
| `WithLock.NoticedLossesThrow` | packages/cache/src/lock.ts:219-271 | a noticed failure aborts `fn`, and the call ends by throwing whatever its release says |
| `WithLock.AbortsAreTrue` | packages/cache/src/lock.ts:211-229 | in every run a call is aborted only when its lease has left the store |
| `WithLock.RetriesAreCounted` | packages/cache/src/lock.ts:146-173 | a call tries at most once more often than its retries; it waits while its tries meet standing leases, and gives up after exactly the last |
| `WithLock.NoTokenComesBack` | packages/cache/src/lock.ts:77-96 | no step puts a token back into the store once it has lost its name |
| `WithLock.LostForGood` | packages/cache/src/lock.ts:246-250 | over every run, a token that has lost its name never holds it again |
| `WithLock.NormalReturnHeldThroughout` | packages/cache/src/lock.ts:185-273 | a call that returns normally held its name under its own token in every state from acquisition to release |
| `WithLock.NormalReturnsExclude` | packages/cache/src/lock.ts:176-184 | two calls on one name that both return normally held it over disjoint stretches of the run, even when leases expire mid-section |
| `WithLock.LostLeaseNeverReturns` | packages/cache/src/lock.ts:246-271 | a lease lost at any point before its release is never reported as success |
| `WithLock.KeptLeaseIsNoLoss` | packages/cache/src/lock.ts:209-271 | a call that keeps its lease is never aborted, has its release succeed, and throws only because its own `fn` failed |
| `WithLock.ReturnsExactly` | packages/cache/src/lock.ts:185-273 | a call that acquired its lock and has ended returned normally if and only if it held its lease in every state of its section and `fn` did not fail |
| `SingleFlight.RunKeepsInv` | packages/cache/src/cache.ts:315-340 | in every reachable state the in-flight map points at computations of its keys, and callers wait on computations of their own key |
| `SingleFlight.NoEntryOutlivesItsStarter` | packages/cache/src/cache.ts:334-339 | in every reachable state an in-flight entry is a computation its starter still waits for; nothing is in flight once nobody waits |
| `SingleFlight.UnsettledAreFew` | packages/cache/src/cache.ts:315-340 | in every interleaving a key has at most one unsettled computation more than it has had forced ones |
| `SingleFlight.SingleFlightPerKey` | packages/cache/src/cache.ts:322-328 | without `forceRefresh` at most one compute-and-store per full key is unsettled, and it is the one in flight |
| `SingleFlight.ForcedRefreshOverlaps` | packages/cache/src/cache.ts:322-334 | with one forced refresh two computations of a key can be under way at once |
| `SingleFlight.UncachedResultsAreComputed` | packages/cache/src/cache.ts:325-337 | a caller answered `cached: false` gets what `fn` returned in a computation of its own key that it started or found in flight, and that value was written to the cache before |
| `SingleFlight.AnswersAreRead` | packages/cache/src/cache.ts:322-325 | a caller answered `cached: true` gets what its key held in the cache when it read it, without `forceRefresh`; a caller misses only if its key was absent |
| `SingleFlight.CacheHoldsTheLatest` | packages/cache/src/cache.ts:329-333 | what a key holds is what the latest step deciding it left: the value `fn` returned in a computation of that key, or what another operation put or removed |
| `SingleFlight.ThrownMeansFailed` | packages/cache/src/cache.ts:329-337 | a caller throws only when a computation it started or joined failed, in `fn` or in storing |
| `HotKeys.InMemoryCacheMetrics.IncrementHit` | packages/cache/src/metrics.ts:27-47 | counts the hit; a keyed one raises its counter in place, is added last, or takes the first least-hit key's place, last and with its count plus one, when the table is full |
| `HotKeys.InMemoryCacheMetrics.EvictColdestKey` | packages/cache/src/metrics.ts:53-65 | removes the first of the least-hit keys, spelled out, and answers with its count |
| `HotKeys.InMemoryCacheMetrics.GetHotKeys` | packages/cache/src/metrics.ts:130-137 | the ranking, cut to the number asked for; a negative number leaves that many off its end |
| `HotKeys.SpaceSavingBounds` | packages/cache/src/metrics.ts:27-65 | for every stream of N keyed hits and every cap m: counters sum to N, at most m keys, each counter between the true count and N/m above it, and no key with more than N/m hits is missing |
| `HotKeys.FewKeysAreExact` | packages/cache/src/metrics.ts:30-46 | as long as no more keys than the cap were hit, exactly those are tracked and every count is true |
| `HotKeys.EvictionStaysClose` | packages/cache/src/metrics.ts:35-45 | inheriting the evicted count keeps the error of every key, tracked or not, within the smallest count |
| `HotKeys.RankingSorts` | packages/cache/src/metrics.ts:133-135 | the ranking is a permutation of the table in descending order |
| `HotKeys.RankingIsExact` | packages/cache/src/metrics.ts:130-137 | exactly as many keys as asked for, each once with its own count, hottest first, and none left out is hotter |
| `HotKeys.RankingIsStable` | packages/cache/src/metrics.ts:133-135 | keys of equal count are ranked in the table's order |
| `HotKeys.RankingIsTrustworthy` | packages/cache/src/metrics.ts:125-137 | a key left out of the ranking was truly hit no more often than any listed key is credited with |
| `MiddlewareChain.EntriesAreProducts` | packages/cache/src/store.ts:305-315 | where the i-th middleware calls `next` c_i times, one call after another, and nothing throws, each position is entered exactly the product of the c_j before it times; the last position is the operation |
| `MiddlewareChain.ChainEntries` | packages/cache/src/store.ts:308-314 | with calls one after another between lower and upper bounds, entries lie between the products of the bounds, from any position on |
| `MiddlewareChain.AnyInterleavingIsProduct` | packages/cache/src/store.ts:305-315 | with calls started side by side, in any order, no position is ever entered more often than the product, and exactly that often once all calls are made |
| `MiddlewareChain.ChainIsOnion` | packages/cache/src/store.ts:308-315 | pass-through middlewares are entered in order and left in reverse, and the operation's reply comes back, except that `undefined` behind a middleware is an error unless it comes from `ttl` |
| `MiddlewareChain.AnswersByItself` | packages/cache/src/store.ts:308-315 | a middleware that does not call `next` keeps everything after it from being entered, and its answer stands |
| `MiddlewareChain.RetryReenters` | packages/cache/src/store.ts:305-315 | a retrying middleware enters the rest of the chain again from the same position, and the last reply stands |
| `MiddlewareChain.NeverUndefined` | packages/cache/src/store.ts:324-337 | behind at least one middleware `undefined` reaches a caller only from `ttl` |
| `ConsumerIndex.DependentIndex.Record` | packages/container/src/containerResolution/containerResolution.dependents.ts:28-47 | exactly the nearest cached ancestor, unless it is the token itself, becomes a dependent of the token; nothing else changes |
| `ConsumerIndex.OwnerIsNearest` | packages/container/src/containerResolution/containerResolution.dependents.ts:33-46 | the owner is the last token on the path whose instances are cached, if there is one |
| `ConsumerIndex.DependentIndex.Take` | packages/container/src/containerResolution/containerResolution.dependents.ts:53-69 | returns every transitive dependent exactly once, each after its own dependents unless the two depend on each other, and forgets exactly those entries |
| `ConsumerIndex.LinkedSurvives` | packages/container/src/containerResolution/containerResolution.dependents.ts:53-69 | forgetting all dependents of a token keeps every link to anything else |
| `Provenance.ReadyParts` | packages/container/src/containerResolution/containerResolution.core.ts:203-215 | neither the depth limit nor the cycle check gets in the way of building something that can be built |
| `Provenance.CyclesCannotBeBuilt` | packages/container/src/containerResolution/containerResolution.core.ts:203-215 | nothing that takes itself, directly or through others, can be built |
| `Provenance.GroundedSurvive` | packages/container/src/containerResolution/containerResolution.core.ts:463-477 | what stays cached after a change is cached as registered and could still be built |
| `Provenance.OriginsAreTaken` | packages/container/src/containerResolution/containerResolution.core.ts:336-422 | a cached instance was built from exactly what its token takes through current registrations, neither less nor more |
| `Provenance.ExactExactly` | packages/container/src/containerResolution/containerResolution.dependents.ts:28-69 | every change evicts exactly what was built from its token if and only if each cached instance was built from everything its parts are recorded to have consumed |
| `Provenance.LeftExactly` | packages/container/src/containerResolution/containerResolution.core.ts:463-477 | what a change leaves cached is what was not built from the token, exactly when the links agree with what was built from it |
| `Resolver.ContainerResolver.Resolve` | packages/container/src/containerResolution/containerResolution.core.ts:175-196 | succeeds on everything that can be built within the depth limit and on nothing that cannot be built at all; the instance was built from exactly what its token takes, all as registered now, and is the cached one where there is one; no other scope changes |
| `Resolver.ContainerResolver.ResolveInternal` | packages/container/src/containerResolution/containerResolution.core.ts:198-334 | caches and index stay coherent and only grow; depth, cycles, unknown tokens, captive and scopeless dependencies are refused; a new cached instance is kept |
| `Resolver.ContainerResolver.Enter` | packages/container/src/containerResolution/containerResolution.core.ts:203-293 | the registration found and the consumption recorded; a token let through meets the depth, cycle and lifetime checks, a refused one could not have been resolved |
| `Resolver.ContainerResolver.CreateInstance` | packages/container/src/containerResolution/containerResolution.core.ts:336-422 | what is built includes all that its parts were built from, each linked to the cached instance that consumes it |
| `Resolver.ContainerResolver.LookUp` | packages/container/src/containerResolution/containerResolution.core.ts:217-250 | a registered token as it stands, a plain class registered as a transient without dependencies, anything else not found; nothing else is registered |
| `Resolver.ContainerResolver.OpenScope` | packages/container/src/containerCore/containerCore.core.ts:304-313 | adds one scope, with an empty cache and a number no open scope has |
| `Resolver.ContainerResolver.CloseScope` | packages/container/src/containerCore/containerCore.scope.ts:141-176 | the scope and its cache are gone, every other scope stays; closing again does nothing |
| `Resolver.ContainerResolver.ResolveInScope` | packages/container/src/containerCore/containerCore.scope.ts:85-91 | a closed scope refuses and changes nothing; an open one resolves through its own cache |
| `Resolver.ContainerResolver.Replace` | packages/container/src/containerRegistry/containerRegistry.core.ts:80-99 | nothing still cached was built from the token in any way; the recorded dependents were evicted, and exactly the evicted singletons disposed of, each once and before what it consumed; while no registration has dropped a part, these are exactly the instances built from the token |
| `Resolver.ContainerResolver.Remove` | packages/container/src/containerRegistry/containerRegistry.core.ts:110-123 | the same for a removed token |
| `Resolver.ContainerResolver.Register` | packages/container/src/containerRegistry/containerRegistry.core.ts:59-78 | a new or refused token leaves caches and index as they are; a known one is replaced when duplicates are allowed |
| `Resolver.ContainerResolver.Restore` | packages/container/src/containerRegistry/containerRegistry.core.ts:196-213 | a wholesale change empties every cache and the index, and disposes of each singleton once |
| `Resolver.ContainerResolver.ClearSingletons` | packages/container/src/containerCore/containerCore.core.ts:358-380 | drops and disposes of every cached singleton once; registrations, scopes and recorded links stay |
| `Resolver.ContainerResolver.Invalidate` | packages/container/src/containerResolution/containerResolution.core.ts:463-477 | evicts the recorded transitive dependents, from singletons and open scopes, in disposal order; with every link borne out by the registrations, exactly what was built from the token |
| `Resolver.DisposesInOrder` | packages/container/src/containerResolution/containerResolution.core.ts:468-475 | exactly the singletons that left the cache are disposed of, each once, and before what it consumed unless the two depend on each other |
| `Resolver.AliasChainReaches` | packages/container/src/containerResolution/containerResolution.core.ts:520-537 | true exactly when following aliases leads to the target, on cyclic chains too |
| `Resolver.NoAliasLeft` | packages/container/src/containerResolution/containerResolution.core.ts:506-518 | once the dependents are gone no cached alias of the changed token is left for the second sweep |
| `Resolver.SurvivorsStayProper` | packages/container/src/containerResolution/containerResolution.core.ts:463-477 | what survives a change was not built from the changed token and keeps its own links |
| `Resolver.EvictionIsExact` | packages/container/src/containerResolution/containerResolution.core.ts:463-477 | with every link borne out by the registrations, exactly what was built from the token leaves singletons and open scopes |
| `Resolver.StaleLinkEvicts` | packages/container/src/containerResolution/containerResolution.core.ts:463-477 | a concrete run in which a change evicts an instance that was not built from the changed token |
| `FeatureFlags.OnUnfolds` | packages/feature-flags/src/featureFlags/featureFlags.dependency.ts:39-52 | "on" is a fixed point: the flag exists, is enabled, active and unexpired, serves a value that counts, and all its prerequisites are on |
| `FeatureFlags.OnIsLeast` | packages/feature-flags/src/featureFlags/featureFlags.dependency.ts:39-52 | and the least one |
| `FeatureFlags.CycleIsOff` | packages/feature-flags/src/featureFlags/featureFlags.dependency.ts:66-66 | a flag that depends on itself through others is off |
| `FeatureFlags.ChainIsOff` | packages/feature-flags/src/featureFlags/featureFlags.dependency.ts:66-66 | a prerequisite met again on the path, or in the starting chain, is off |
| `FeatureFlags.DependencyWalk.DependenciesOn` | packages/feature-flags/src/featureFlags/featureFlags.dependency.ts:53-85 | true exactly when every prerequisite is on, on cyclic graphs too; memo entries hold whatever path they were computed under |
| `FeatureFlags.DependencyWalk.EvaluateDependency` | packages/feature-flags/src/featureFlags/featureFlags.dependency.ts:70-80 | one prerequisite's answer is exact, and the path is restored |
| `FeatureFlags.ResolveDependencies` | packages/feature-flags/src/featureFlags/featureFlags.resolve.ts:25-41 | satisfied exactly when known so, or enabled, off the chain and with every prerequisite on; success is remembered |
| `FeatureFlags.Evaluate` | packages/feature-flags/src/featureFlags/featureFlags.core.ts:244-279 | a client's evaluation counts as on exactly when the flag is in the least fixed point; each reason has its exact condition on the flag's fields and prerequisites, the off value is served with the gates' reasons only, and a missing flag is an error, not found, or a throw |
| `FeatureFlags.EvaluatesExactly` | packages/feature-flags/src/evaluator/evaluatorGate.core.ts:39-54 | which gate closes a flag, and that a closed one serves its off value |
| `FeatureFlags.EvaluationIsExact` | packages/feature-flags/src/featureFlags/featureFlags.resolve.ts:35-40 | starting with the flag's own key on the path changes nothing |
| `CycleFinder.BuildGraph` | scripts/architect-check.js:149-155 | one package leads to another exactly when the last package of its name has the other among its dependencies or peer dependencies and that one is in the scope |
| `CycleFinder.GraphIsExact` | scripts/architect-check.js:96-103 | the same of the graph, edge by edge |
| `CycleFinder.Search.Dfs` | scripts/architect-check.js:157-173 | explores everything reachable, reports only simple cycles, and without cycles finishes each package after its dependencies |
| `CycleFinder.CheckCircularDependencies` | scripts/architect-check.js:143-182 | reports a cycle exactly when some package requires itself through dependencies and peer dependencies; every report is such a cycle without a repeated name on the way |
| `CycleFinder.FinishedIsAcyclic` | scripts/architect-check.js:172-173 | a finishing order with dependencies first leaves no closed walk |
| `Tiers.CheckTierViolations` | scripts/architect-check.js:106-140 | reports exactly the unknown packages, and the dependencies and peer dependencies in the scope that are unknown or of a higher tier; no report means every requirement stays in its tier or goes down |
| `Tiers.CyclesStayInOneTier` | scripts/architect-check.js:131-135 | without violations a cycle can only run inside one tier |
| `ProtectText.ScanTemplate` | site/js/playground.js:795-815 | the stack scanner finds the end that recursive descent over templates, expressions and blocks finds |
| `ProtectText.TokenCases` | site/js/playground.js:777-822 | what the first two characters of a token make it, where it ends, and whether it is protected or copied |
| `TemplateGrammar.TemplateEndsExactly` | site/js/playground.js:795-817 | a template ends before the end of the source exactly where text of the grammar (escapes, holes with nested blocks and templates) and a backtick lead up to |
| `TemplateGrammar.StringStopsAfterBody` | site/js/playground.js:790-794 | a string stops exactly at the first quote or line break that is not escaped |
| `TemplateGrammar.CommentEndsAtFirstMark` | site/js/playground.js:785-789 | a block comment ends after its first closing mark, or with the source |
| `TemplateGrammar.FindIsFirst` | site/js/playground.js:780-784 | a line comment ends at the first line break |
| `ProtectText.Protect` | site/js/playground.js:766-829 | restoring gives the source back exactly when it is unambiguous, always when it holds no opening mark, and line breaks are kept |
| `ProtectText.Keep` | site/js/playground.js:771-776 | a numbered placeholder with the line breaks of the text, which is saved under that number |
| `ProtectText.PlaceholderRestored` | site/js/playground.js:825-827 | a placeholder is recognised whatever follows it, and its number read back |
| `ProtectText.RestoreEdited` | site/js/playground.js:831-835 | however the text around placeholders is edited, each placeholder left is filled with the text saved under its number |
| `ProtectText.RoundTrip` | site/js/playground.js:761-829 | the round trip holds for a source if and only if no copied stretch reads as a placeholder |
| `ProtectText.MarkedSourceIsLost` | site/js/playground.js:825-827 | no source that starts with a numbered mark is given back, whatever its number, its line breaks and the rest |
| `ProtectText.KeepsLineBreaks` | site/js/playground.js:763-765 | protected text has as many line breaks as its source, whatever the source holds |
| `RandomInt.Draw` | scripts/learn/node-shims/crypto.js:45-56 | for any bounds, the first accepted word of the stream decides the result, which lies between them when the lower is below the upper; a single bound is the upper one |
| `RandomInt.DrawnExactly` | scripts/learn/node-shims/crypto.js:50-55 | with a range, words of the last incomplete stretch of its length are thrown away and the first other one decides, as the lower bound plus its remainder; without one the very first word decides |
| `RandomInt.InRangeExactly` | scripts/learn/node-shims/crypto.js:50-55 | every draw lies between the bounds if and only if the lower one is below the upper one |
| `RandomInt.LimitIsTight` | scripts/learn/node-shims/crypto.js:51-51 | for every range up to 2^32 the limit is a multiple of the range above 2^32 minus the range |
| `RandomInt.AcceptsSomeWord` | scripts/learn/node-shims/crypto.js:51-54 | some word is accepted exactly when the range, of whatever sign, is at most 2^32 |
| `RandomInt.EveryResultIsAsLikely` | scripts/learn/node-shims/crypto.js:51-55 | each result comes from exactly floor(2^32 / range) of the accepted words |
| `RandomInt.StreamsAreBalanced` | scripts/learn/node-shims/crypto.js:52-55 | a bijection of word streams takes those giving one result to those giving another after as many draws |

## Left out

- Cache operations other than locks and `getOrSet` run as one step at one instant; `set` with `overwrite: false` awaits between its check and its write, so nothing is claimed of it when other operations come in between.
- The separator is one character and the same for service, key builder and adapter; with a longer one, splitting does not undo joining.
- Patterns and keys are over the ASCII key alphabet, where code points and code units are the same.
- `estimateValueBytes` is a number per write; nothing is claimed about how it grows with the value.
- Wall-clock `Date` fields, entry metadata, the serializer, events, latency statistics, health checks, `failSilently` and a disabled cache.
- `CacheService.batch` and the adapter's `getMany` and `setMany`: loops over operations that are modelled.
- `CacheInvalidationManager.invalidateByNamespace`, `invalidateKey`, `invalidateKeys` and `flushAll`: the same, outside the service.
- `disconnect()` drops tag mappings while the adapter keeps its entries, so the agreement of tags and entries is stated up to it.
- Injected tag stores, lock stores, key builders and adapters: only the bundled ones are modelled.
- The length limit of a tag counts characters; the original counts UTF-16 code units.
- `InMemoryTagStore.tags`, `count` and `tagsForKey`: listings of the index.
- Sets and maps of the tag store, the lock store and the resolver are iterated in an arbitrary order; the adapter's and the hot-key table's insertion order is modelled.
- WithLock: a lease counts as held until it leaves the store, so an expired lease nobody swept still holds; the retry delay, the abort signal and the error `release` might throw in a remote store are not modelled.
- LockStore.AcquireWithRetries: the store's answers to the tries are a given list, at least as long as the attempts.
- The middleware chain inside the service: `MiddlewareChain` models it by itself, with a bound on the calls each middleware makes and without empty slots in the list; of calls of `next` started side by side only the entries are counted, not their replies or the log; metrics and error wrapping around the operation are part of its reply.
- Resolver.ContainerResolver.CloseScope: drops the scope's cache without disposing of its instances one by one, and closes no child scopes, because scopes are flat.
- Resolver: scopes have no parents; user factories and constructors stand for success or failure and do not call the container; asynchronous providers, frozen registrations, ownership of aliased instances and the callbacks' own effects other than the order of disposal.
- Resolver.ContainerResolver.Resolve: which error a failed resolution raises is not told apart.
- Flag rules, rollout hashing, dates, providers and caching of flags: a flag carries what its rules and its expiry come to for one context.
- Cycles are reported as lists of names rather than joined strings, and tiers are given per package name.
- JavaScript's `split`, `join`, `indexOf`, `replace`, `sort` and regular expressions are written as functions that do what the language defines.
- ProtectText: the text is a sequence of characters; one outside the Basic Multilingual Plane is two code units to the original scanner, which treats them alike. The module rewriting between protecting and restoring is any edit that leaves placeholders whole.
- RandomInt.Draw: the words are a given stream, and the result is absent when all of it is rejected; bounds are integers.
- The site's pages, the other bundles, the package barrels and the remaining scripts.
