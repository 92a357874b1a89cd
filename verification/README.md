# cachine: verified model of its caches, eviction policies and decorator

A Dafny model of the stateful core of the `cachine` caching library, with proofs over all inputs,
all runs and all interleavings.  `dafny verify dfyconfig.toml` checks everything.

## What is modelled

**Eviction policies** (`Usage`, `EvictionTraces`, `Eviction`).  `Usage` is the plain access
history: how often a key was accessed since it was last inserted, and when last.  The classes
`LruEviction` and `LfuEviction` keep their order, frequencies, buckets and minimum in place, and
refine that history: `EvictOne` returns its victim.  The answers of every trace of calls on an
object are then characterised by the trace alone.

**The in-memory cache** (`InMemoryModel`, `InMemorySpec`, `InMemoryMeetsSpec`, `InMemoryInvariants`,
`Capacity`, `Lifetime`, `InMemoryExpiry`, `LruInclusion`, `LruOutOfStep`, `LruRecency`,
`InMemoryCacheClass`).  The class updates its store, TTL map, two tag indexes and policy object in
place; each method is proved to change the state as a function of `InMemoryModel` says.
`InMemorySpec` is an independent specification, one map of entries and the history of accesses and
removals; every run gives its answers and entries, and evicts what the history determines.  Also
proved: the global invariant over every run, the capacity bound with its exact exemptions, how long
entries live, which operations mind expiry, exact tag invalidation, and the inclusion property of
LRU caches (two caches of different sizes on one trace).  A deadline past the last `datetime`
raises, as in the source; a `set` has written its value by then.

**The SQLite cache** (`Like`, `SqliteModel`, `SqliteCacheClass`, `LazyExpiry`, `SqliteLifetime`,
`StickyTags`, `FixedWindow`, `AsyncCounter`).  Two relations, `cache_data` and `cache_tags`; a
connection whose methods are the SQL statements and transactions; the cache as sequences of them,
whose methods promise the eager view and the sticky tags directly.  Proved about the relations, for
every run: lazy expiry equals eager expiry, tags are sticky, `incr` is a fixed-window rate limiter,
LIKE escaping is exact and needed, and interleaved coroutines on the async `incr` are serializable
and conserve the counter.

**The decorator** (`Singleflight`, `Swr`, `SwrTiming`, `Protocol`, `ProtocolAnswers`,
`ProtocolLiveness`, `ProtocolExclusion`, `ProtocolIntegrity`).  `Protocol.Next` is one step of any
number of callers and background refreshers over any keys: first read, acquire, wait, second read,
compute, store, pop under the lock, set the event outside it, and entries dropped by the backend in
between.  The follower that misses on its second read falls through, computes, and releases whatever
event is registered, as in the source.  Proved for every run: every call gives back what it computed
or read, no wake-up is lost, every call returns after at most eight moves, a conservation law that
says exactly when two calls hold a group at once, mutual exclusion under retention, and cache
integrity; and the timing on the in-memory backend, with and without a stale window.

**The template key builder** (`Template`): the loop of replacements against one simultaneous
substitution, and what each kind of placeholder stands for.

`Values` holds what caches store and what operations return; `Wrappers` an option type.

Conventions: time is a real number of seconds; every operation takes one clock sample `now`, and
`fn`, TTL callables, jitter draws and clocks are parameters.  `ttl` arguments are already in whole
seconds.  Integers are unbounded, as Python's are; what SQLite makes of large ones is left out.

## Results that differ from what one might expect

- The decorator's documentation says that on misses only one caller computes
  (`cachine/decorators/cached.py:268`).  `ProtocolExclusion.FallThroughBreaksExclusion` is a run in
  which two do: the leader's function raised and its followers fell through.
  `ProtocolExclusion.HoldersOfGroup` gives the exact condition, `ProtocolExclusion.MutualExclusion`
  a sufficient one on what is cached and kept.
- The simultaneous-substitution reading of templates fails for some nested braces:
  `Template.NestedBracesCascade` (`{{x}}{y}` with `x = "y"` gives a key although it has stray
  braces).  `Template.ReplacedIsFilledIff` is the exact condition for the text, `Template.KeyIff` for
  getting a key at all, and templates without nested opening braces meet the first for all
  brace-free values.
- `persist` on SQLite revives an expired row that nobody purged (`LazyExpiry.PersistRevives`);
  `LazyExpiry.PersistAgreesIff` says it does the right thing exactly otherwise.
- A limit of N per window admits up to 2N - 1 calls in an interval of one window's length, and this
  bound is reached for every N and window (`FixedWindow.RateLimit`, `FixedWindow.RateLimitIsTight`);
  the repository's `README.md:287` speaks of N per minute, which holds exactly for N = 1
  (`FixedWindow.KeepsLimitIff`).
- The jitter has no effect without a stale window (`Swr.JitterMattersIff`), although the
  repository's `README.md:544-555` shows it alone.  The code is followed: without a stale window
  the plain `int(ttl)` is stored.
- `stale_ttl` is added to `ttl`: with 60 and 120 an entry is served until 180 seconds
  (`SwrTiming.ServedUntilEndOfStale`), not 120 as the comment at the repository's
  `README.md:501-515` says.
- `add_tags(key, [])` on an untagged key leaves an empty set in the key-to-tags index, and nothing
  else does (`InMemoryInvariants.EmptyTagSetIff`).
- `max_size` can be exceeded.  The eviction loop cannot evict keys the policy does not track, and it
  ends early when the empty effective key is the victim; `Capacity.EvictionFitsIff` says exactly
  when the store fits after it (`Capacity.CountersDoNotFit`, `Capacity.EmptyKeyDoesNotFit`).  A
  `set` whose deadline raises leaves its key stored and untracked, as `incr` does
  (`Capacity.OverfillsAlways`, `Capacity.RaisingSetsExceed`), with no deadline if the key is new
  (`Lifetime.RaisingSetHasNoDeadline`).
- For the same reason such writes can end LRU inclusion.  If the key is only in the larger cache, the
  smaller one gets a key that it never evicts, and the larger one loses it after enough other sets
  (`LruOutOfStep.OutOfStepBreaks`, `LruOutOfStep.RaisingSetBreaksInclusion`).  Inclusion is kept
  through whatever plain calls follow exactly when the key is in both caches or in neither
  (`LruOutOfStep.UnnotedStaysIncludedIff`), at every point of a trace exactly when all its writes
  are so (`LruOutOfStep.KeepsIncludedIff`), and on all traces exactly when the two sizes are equal
  (`LruOutOfStep.EveryTraceIncludesIff`).
- In memory, `delete`, `expire`, `expire_at`, `touch`, `persist` and `incr` ignore expiry: each does
  what it would do on a purged cache exactly when it does not meet an expired entry that is still
  stored (`InMemoryExpiry.IgnoresExpiryIff`).  So does a `set` that has room and raises
  (`InMemoryExpiry.SetAgreesIff`).
- `clear` of a cache without namespace, or of everything, replaces any policy object, LFU included,
  by a new LRU one or by none (`InMemoryInvariants.ClearKeepsPolicyIff`).

## Model

| member | source | states |
|---|---|---|
| `Usage.VictimByHistory` | cachine/strategies/eviction.py:6-126 | for every history of accesses and removals, the victim is exactly the key used least since its last insertion, and there is none only when nothing is tracked |
| `Usage.DigestIsHistory` | cachine/strategies/eviction.py:48-126 | the table tracks exactly the keys accessed since their last removal, with the number and the time of those accesses |
| `Usage.VictimExists` | cachine/strategies/eviction.py:102-126 | as soon as a key is tracked there is a least used one |
| `EvictionTraces.EvictionByTrace` | cachine/strategies/eviction.py:15-126 | after every trace of `note_access`, `note_remove` and `evict_one`, the next victim is the least used key by (accesses since insertion, last access) for LFU and by last access for LRU |
| `EvictionTraces.ReplayLru` | cachine/strategies/eviction.py:6-45 | a whole trace on an LRU object: each `evict_one` answers the least recently used tracked key of the calls before it, None when nothing is tracked |
| `EvictionTraces.ReplayLfu` | cachine/strategies/eviction.py:48-126 | a whole trace on an LFU object: each `evict_one` answers the tracked key with the fewest accesses since insertion, ties by last access |
| `EvictionTraces.TraceIsDigested` | cachine/strategies/eviction.py:15-126 | running the calls on the table and digesting the history they produce give the same table |
| `Eviction.LruEviction.NoteAccess` | cachine/strategies/eviction.py:15-25 | the key becomes the most recent one, in place |
| `Eviction.LruEviction.NoteRemove` | cachine/strategies/eviction.py:27-33 | the key is forgotten, the order of the others stays |
| `Eviction.LruEviction.EvictOne` | cachine/strategies/eviction.py:35-45 | returns and forgets the least recently used key, None when there is none |
| `Eviction.LfuEviction.constructor` | cachine/strategies/eviction.py:55-58 | the empty structure meets the bucket invariant |
| `Eviction.LfuEviction.NoteAccess` | cachine/strategies/eviction.py:60-83 | one access more; each key lies exactly once in the bucket of its count, in order of last access, no bucket is empty and the minimum is exact |
| `Eviction.LfuEviction.MoveUp` | cachine/strategies/eviction.py:68-83 | moving a key to the next bucket keeps buckets and minimum |
| `Eviction.LfuEviction.NoteRemove` | cachine/strategies/eviction.py:85-100 | the key is forgotten; buckets and minimum stay exact |
| `Eviction.LfuEviction.EvictOne` | cachine/strategies/eviction.py:102-126 | returns and forgets the least frequently used key, ties by last access; the recovery branch is unreachable |
| `Eviction.HeadIsVictim` | cachine/strategies/eviction.py:102-126 | the head of the lowest bucket is the least key of the access history |
| `Eviction.LeastAfterAccess` | cachine/strategies/eviction.py:68-83 | when an access empties the lowest bucket the next count is the minimum, otherwise the minimum stays |
| `InMemoryCacheClass.InMemoryCache.constructor` | cachine/backends/inmemory/cache.py:40-58 | an empty cache with the given policy, or LRU when only a size is given |
| `InMemoryCacheClass.InMemoryCache.RemoveKey` | cachine/backends/inmemory/cache.py:358-369 | every trace of the key disappears from store, TTLs, both indexes and policy, and tags without keys disappear |
| `InMemoryCacheClass.InMemoryCache.CleanupIfExpired` | cachine/backends/inmemory/cache.py:354-356 | an expired key is removed, any other state stays |
| `InMemoryCacheClass.InMemoryCache.EvictIfNeeded` | cachine/backends/inmemory/cache.py:371-378 | victims leave until the store fits or the policy gives none or an empty key; the loop terminates |
| `InMemoryCacheClass.InMemoryCache.Get` | cachine/backends/inmemory/cache.py:60-83 | a live entry is returned and noted as accessed, an expired one is removed |
| `InMemoryMeetsSpec.RunMeetsSpec` | cachine/backends/inmemory/cache.py:40-378 | over every run all answers, all entries with value, deadline and tags, and all evictions are those of the independent specification: accesses are hits of `get` and `get_or_set` and sets that stay, and the least used key of that history leaves |
| `InMemoryMeetsSpec.EveryStepMeets` | cachine/backends/inmemory/cache.py:60-378 | one operation does, on every state with the invariant |
| `InMemoryMeetsSpec.EvictionMeets` | cachine/backends/inmemory/cache.py:371-378 | the eviction loop removes the least used keys of the history, LRU or LFU |
| `InMemoryMeetsSpec.InitialMeets` | cachine/backends/inmemory/cache.py:40-58 | a new cache has no entries and no history |
| `InMemoryMeetsSpec.LatestIsEndOfTime` | cachine/backends/inmemory/cache.py:116 | deadlines raise from the end of the year 9999 on, counted in days |
| `Lifetime.ReadIffBeforeDeadline` | cachine/backends/inmemory/cache.py:350-352 | over every run that leaves an entry with a TTL alone it is read exactly before its deadline, if storing it did not raise |
| `Lifetime.ReadForEver` | cachine/backends/inmemory/cache.py:109-110 | an entry set without a TTL and left alone is read with its value at every later instant, and `ttl` gives None |
| `Lifetime.NothingToRead` | cachine/backends/inmemory/cache.py:113-115 | after a `set` with a TTL that is not positive there is nothing to read |
| `Lifetime.RaisingSetHasNoDeadline` | cachine/backends/inmemory/cache.py:106-116 | a new entry whose deadline raises is read at every later instant |
| `InMemoryCacheClass.InMemoryCache.Set` | cachine/backends/inmemory/cache.py:85-119 | a TTL that is not positive deletes; a deadline that cannot be represented raises after the value was written, without access note and eviction; otherwise the entry is written, noted and room is made |
| `InMemoryCacheClass.InMemoryCache.Delete` | cachine/backends/inmemory/cache.py:121-127 | removes the key and says whether it was stored |
| `InMemoryCacheClass.InMemoryCache.Exists` | cachine/backends/inmemory/cache.py:129-136 | says whether a live entry is there, notes no access |
| `InMemoryCacheClass.InMemoryCache.Clear` | cachine/backends/inmemory/cache.py:138-169 | removes the keys of the namespace, or everything with the policy replaced |
| `InMemoryCacheClass.InMemoryCache.GetOrSet` | cachine/backends/inmemory/cache.py:171-186 | returns the live value, or stores and returns the computed one, or raises as `set` does |
| `InMemoryCacheClass.InMemoryCache.Expire` | cachine/backends/inmemory/cache.py:188-199 | sets the deadline of a stored key, removes it when the TTL is not positive, or raises and changes nothing |
| `InMemoryCacheClass.InMemoryCache.ExpireAt` | cachine/backends/inmemory/cache.py:201-211 | the same with an absolute deadline |
| `InMemoryCacheClass.InMemoryCache.Touch` | cachine/backends/inmemory/cache.py:213-226 | without TTL only reports presence, otherwise as `expire` |
| `InMemoryCacheClass.InMemoryCache.Ttl` | cachine/backends/inmemory/cache.py:228-237 | whole seconds left, truncated; None without deadline or entry |
| `InMemoryCacheClass.InMemoryCache.Persist` | cachine/backends/inmemory/cache.py:239-248 | drops the deadline and says whether there was one |
| `InMemoryCacheClass.InMemoryCache.Incr` | cachine/backends/inmemory/cache.py:250-280 | adds to the stored number, or creates it; ignores expiry, notes no access, makes no room; raises on what is not a number, and after writing when the deadline does |
| `InMemoryCacheClass.InMemoryCache.Decr` | cachine/backends/inmemory/cache.py:282-284 | increments by the negated delta |
| `InMemoryCacheClass.InMemoryCache.InvalidateTags` | cachine/backends/inmemory/cache.py:287-299 | the nested loops over indexes they change remove exactly the carriers of the tags and count each once |
| `InMemoryCacheClass.InMemoryCache.AddTags` | cachine/backends/inmemory/cache.py:301-312 | joins the key to the tags in both indexes if it is stored |
| `InMemoryCacheClass.InMemoryCache.Replay` | cachine/backends/inmemory/cache.py:60-378 | a sequence of calls on the object is the run that the lemmas about runs speak of, and gives the answers and leaves the entries of the specification |
| `InMemoryInvariants.RunKeepsInv` | cachine/backends/inmemory/cache.py:60-378 | after any run the two tag indexes are exact inverses, no tag is without keys, and TTL keys, tagged keys and tracked keys are stored keys |
| `InMemoryInvariants.StepKeepsInv` | cachine/backends/inmemory/cache.py:60-378 | every operation keeps that invariant |
| `InMemoryInvariants.InitialHasInv` | cachine/backends/inmemory/cache.py:40-58 | a new cache has it |
| `InMemoryInvariants.EmptyTagSetIff` | cachine/backends/inmemory/cache.py:301-312 | a key gets an empty tag set exactly by `add_tags` with no tags on a stored, untagged key |
| `InMemoryInvariants.InvalidationIsExact` | cachine/backends/inmemory/cache.py:287-299 | for any tag list, duplicates included, exactly the keys with a listed tag go, their number is returned, and value, TTL, tags and access record of every other key stay |
| `InMemoryInvariants.ClearKeepsPolicyIff` | cachine/backends/inmemory/cache.py:158-169 | `clear` keeps the kind of the policy exactly when it is namespaced, or the policy is LRU and there is a size |
| `Capacity.RunIsBounded` | cachine/backends/inmemory/cache.py:106-119 | with a policy, a positive size and non-empty keys, the stored keys beside those that `incr` or a raising `set` stored never exceed `max_size` after any run, and all of them are tracked |
| `Capacity.StepKeepsBound` | cachine/backends/inmemory/cache.py:106-119 | every operation keeps the bound, with the keys stored without making room exempted until they are set |
| `Capacity.SizeIsBounded` | cachine/backends/inmemory/cache.py:371-378 | without `incr` and raising deadlines the whole store never exceeds `max_size` |
| `Capacity.OverfillsAlways` | cachine/backends/inmemory/cache.py:106-119 | `incr`, a raising `set` and a raising `get_or_set` of a new key always leave one stored key more, whatever the size, and do not tell the policy |
| `Capacity.RaisingSetsExceed` | cachine/backends/inmemory/cache.py:106-119 | two `set` calls with a TTL of 10^12 seconds leave two untracked keys in a cache of size 1 |
| `Capacity.EvictionFitsIff` | cachine/backends/inmemory/cache.py:371-378 | for every cache whose policy tracks only stored keys, the loop makes the store fit exactly when what it cannot evict fits: the untracked keys, and the empty key with those used more, if it is tracked |
| `Capacity.TrackedFits` | cachine/backends/inmemory/cache.py:371-378 | it does when every stored key is tracked and not empty |
| `Capacity.EmptyKeyDoesNotFit` | cachine/backends/inmemory/cache.py:375-377 | an empty key as victim leaves two keys in a cache of size 1 |
| `Capacity.CountersDoNotFit` | cachine/backends/inmemory/cache.py:271-280 | three untracked keys stay in a cache of size 1 without any empty key |
| `InMemoryExpiry.IgnoresExpiryIff` | cachine/backends/inmemory/cache.py:188-280 | `delete`, `expire`, `expire_at`, `touch`, `persist` and `incr` show and return what they would on a purged cache exactly when they do not meet an expired entry that is still stored |
| `InMemoryExpiry.ReadsAgree` | cachine/backends/inmemory/cache.py:60-136 | `get`, `exists` and `ttl` always do |
| `InMemoryExpiry.SetAgreesIff` | cachine/backends/inmemory/cache.py:85-119 | a `set` that needs no room does exactly when it does not raise on an expired entry that is still stored |
| `InMemoryExpiry.GetOrSetAgrees` | cachine/backends/inmemory/cache.py:171-186 | a `get_or_set` that needs no room always does |
| `LruInclusion.LruInclusion` | cachine/backends/inmemory/cache.py:60-119 | on one timed trace a smaller LRU cache holds a subset of the larger one's keys, with equal values and TTLs and in the same recency order, and its next hit is the same hit in the larger; counters and raising sets must hit keys in both or in neither |
| `LruInclusion.StepKeepsIncluded` | cachine/backends/inmemory/cache.py:371-378 | every operation of such a trace keeps the inclusion |
| `LruInclusion.EvictionKeepsIncluded` | cachine/backends/inmemory/cache.py:371-378 | two eviction loops that run differently often keep the smaller cache included |
| `LruInclusion.PlainRunIsInStep` | cachine/backends/inmemory/cache.py:60-119 | traces without such writes meet the condition |
| `LruOutOfStep.OutOfStepBreaks` | cachine/backends/inmemory/cache.py:106-119 | for all sizes and all included caches, after a write the policy is not told of, of a key only the larger cache holds, sets of as many other keys as that cache may hold leave it in the smaller cache and not in the larger |
| `LruOutOfStep.UnnotedStaysIncludedIff` | cachine/backends/inmemory/cache.py:106-119 | from all included caches, after such a write every plain trace keeps the smaller cache's keys among the larger one's exactly when the key was in both or in neither |
| `LruOutOfStep.KeepsIncludedIff` | cachine/backends/inmemory/cache.py:60-119 | for all traces, the keys stay included at every point and through every plain trace from there exactly when no counter or raising set of the trace hits a key that only the larger cache holds |
| `LruOutOfStep.EveryTraceIncludesIff` | cachine/backends/inmemory/cache.py:60-119 | all traces, counters and raising sets included, keep a cache of size m included in one of size n exactly when m = n |
| `LruOutOfStep.RaisingSetBreaksInclusion` | cachine/backends/inmemory/cache.py:106-119 | for all sizes m < n, keys, values and raising deadlines, a trace from empty caches leaves a key in the smaller cache that the larger one has evicted |
| `LruOutOfStep.AgesOut` | cachine/strategies/eviction.py:35-45 | after sets of as many other keys as an LRU cache may hold, a tracked key is gone |
| `LruRecency.HitProtects` | cachine/backends/inmemory/cache.py:78-81 | in every LRU cache that tracks its keys, after a `get` that hits, sets of fewer other keys than the cache may hold leave the key with its value |
| `LruRecency.HitProtectsNoMore` | cachine/backends/inmemory/cache.py:78-81 | and sets of as many other keys as it may hold do not |
| `LruOutOfStep.SetsKeepLoose` | cachine/backends/inmemory/cache.py:371-378 | a stored key the policy does not track is never evicted |
| `LruInclusion.HitsAgree` | cachine/backends/inmemory/cache.py:60-83 | the answer of the smaller cache is that of the larger, or a miss |
| `LruInclusion.SameVictim` | cachine/strategies/eviction.py:35-45 | when the smaller cache tracks the larger one's victim, it is its victim too |
| `Like.ChainEscapesOnce` | cachine/backends/sqlite/_schema.py:40-41 | the three chained replacements are one escape per character |
| `Like.EscapingIsExact` | cachine/backends/sqlite/_schema.py:33-41 | the pattern matches a key under LIKE with that escape exactly when the prefix is, up to ASCII case, a prefix of the key |
| `Like.MatchesIff` | cachine/backends/sqlite/_schema.py:33-41 | letter by letter: it matches exactly the keys whose first characters are those of the prefix, or the other case of an ASCII letter |
| `Like.EscapingIsNeededIff` | cachine/backends/sqlite/_schema.py:36-38 | without the escaping the pattern of a prefix is exact exactly when the prefix has no wildcard in it |
| `Like.NamespacePattern` | cachine/backends/sqlite/sync.py:227-236 | keys of one colon-free namespace match the pattern of another exactly when the names agree up to ASCII case |
| `SqliteCacheClass.Connection.InTransaction` | cachine/backends/sqlite/sync.py:487-504 | any statements inside `_transaction` take effect all together, or raise after any of them and leave both tables as before it |
| `SqliteCacheClass.SqliteCache.Get` | cachine/backends/sqlite/sync.py:148-169 | returns the entry a cache without expired rows would have, shows no other, and keeps all tag rows |
| `SqliteCacheClass.SqliteCache.Set` | cachine/backends/sqlite/sync.py:171-198 | deletes when the TTL is not positive, otherwise upserts value and deadline; tag rows go exactly when it deletes |
| `SqliteCacheClass.SqliteCache.Delete` | cachine/backends/sqlite/sync.py:200-206 | data row and tag rows of the key go, in two statements; the answer differs from a purged cache exactly on an expired row that is still there |
| `SqliteCacheClass.SqliteCache.Exists` | cachine/backends/sqlite/sync.py:208-214 | purges, then says whether a row is there |
| `SqliteCacheClass.SqliteCache.Clear` | cachine/backends/sqlite/sync.py:216-237 | deletes the rows of both tables that match the namespace pattern, or all; refuses without namespace |
| `SqliteCacheClass.SqliteCache.GetOrSet` | cachine/backends/sqlite/sync.py:239-254 | returns the live value, or stores and returns the computed one |
| `SqliteCacheClass.SqliteCache.Expire` | cachine/backends/sqlite/sync.py:256-269 | sets the deadline of a live row only; deletes when the TTL is not positive |
| `SqliteCacheClass.SqliteCache.ExpireAt` | cachine/backends/sqlite/sync.py:271-282 | the same with an absolute deadline |
| `SqliteCacheClass.SqliteCache.Touch` | cachine/backends/sqlite/sync.py:284-288 | without TTL reports presence, otherwise sets the deadline |
| `SqliteCacheClass.SqliteCache.Ttl` | cachine/backends/sqlite/sync.py:290-299 | whole seconds left after purging, None without row or deadline |
| `SqliteCacheClass.SqliteCache.Persist` | cachine/backends/sqlite/sync.py:301-310 | drops the deadline of a row, expired or not |
| `SqliteCacheClass.SqliteCache.Incr` | cachine/backends/sqlite/sync.py:312-351 | one transaction: adds to a live number, or writes a new one with the creation TTL; rolls back on what is not a number |
| `SqliteCacheClass.SqliteCache.Decr` | cachine/backends/sqlite/sync.py:353-354 | increments by the negated delta |
| `SqliteCacheClass.SqliteCache.AddTags` | cachine/backends/sqlite/sync.py:358-371 | tags a key whose row is there, expired or not |
| `SqliteCacheClass.SqliteCache.InvalidateTags` | cachine/backends/sqlite/sync.py:373-404 | exactly the keys with a tag row for a listed tag lose data and tag rows, the data rows are counted, every other row stays |
| `SqliteCacheClass.SqliteCache.Replay` | cachine/backends/sqlite/sync.py:148-404 | a sequence of calls on the object is a run of the model with its results, and in scope shows at every later time what the eager cache shows |
| `LazyExpiry.LazyEqualsEager` | cachine/backends/sqlite/sync.py:148-355 | on every run with a clock that does not go back, the lazy cache shows the same entries as one that purges everything expired before each operation, and each result is the same exactly when the call does not remove an expired row that is still there at that point |
| `LazyExpiry.StepAgrees` | cachine/backends/sqlite/sync.py:461-473 | one operation shows what the eager one shows; the results are equal exactly when it is not a removal that meets an expired row nobody purged |
| `LazyExpiry.PersistAgreesIff` | cachine/backends/sqlite/sync.py:301-310 | `persist` agrees with the eager specification exactly when it does not hit such a row |
| `LazyExpiry.PersistRevives` | cachine/backends/sqlite/sync.py:305-308 | an instance in which it does, and the entry is visible again |
| `SqliteLifetime.ReadIffBeforeDeadline` | cachine/backends/sqlite/sync.py:451-473 | a row set with a TTL and left alone is read exactly before its deadline |
| `SqliteLifetime.ReadForEver` | cachine/backends/sqlite/sync.py:452-453 | a row set without a TTL and left alone is read with its value at every later instant, and `ttl` gives None |
| `StickyTags.TaggedKeyIsInvalidated` | cachine/backends/sqlite/sync.py:358-404 | a key tagged while present and not deleted, cleared or invalidated since is gone after invalidating that tag, whatever was overwritten, expired, purged and set again in between |
| `StickyTags.TagSurvivesIff` | cachine/backends/sqlite/sync.py:171-404 | a tag row survives a call exactly when the call does not delete, clear or invalidate its key |
| `StickyTags.TagsComeFromAddTags` | cachine/backends/sqlite/sync.py:358-371 | a tag row appears exactly by `add_tags` on a key whose row is there |
| `StickyTags.InvalidationIsExact` | cachine/backends/sqlite/sync.py:373-404 | exactly the keys with a tag row for a listed tag lose data and tag rows, the count is the number of data rows removed, every other row stays |
| `StickyTags.ClearSparesIff` | cachine/backends/sqlite/sync.py:227-236 | clearing a namespace spares a data row of another colon-free one exactly when the names differ by more than ASCII case, and a tag row likewise, even if its data row was purged |
| `FixedWindow.CallsFormWindows` | cachine/backends/sqlite/sync.py:312-351 | the results are 1, 2, 3, ... in windows that last W and start at least W apart |
| `FixedWindow.RateLimit` | README.md:276-288 | in any half-open interval of length W at most 2N - 1 calls see a count of at most N |
| `FixedWindow.RateLimitIsTight` | README.md:276-288 | for every N >= 1 and window there is a run in which exactly 2N - 1 calls of one interval see a count of at most N |
| `FixedWindow.KeepsLimitIff` | README.md:276-288 | every run keeps every interval of the window's length to N such calls exactly when N is 1 |
| `AsyncCounter.AsyncIsSerial` | cachine/backends/sqlite/async_.py:340-369 | under any interleaving of increments of any keys at their awaits, any of which may raise, tables and results are those of the atomic increments in commit order, and exactly the coroutines that returned a value committed |
| `AsyncCounter.AsyncCountersAddUp` | cachine/backends/sqlite/async_.py:322-373 | on a live counter the values returned are the running totals in commit order and the end value is the initial one plus the committed deltas |
| `AsyncCounter.UndisturbedReturns` | cachine/backends/sqlite/async_.py:340-369 | a coroutine that gets the free lock and is resumed without a raise returns what the atomic increment returns and frees the lock |
| `AsyncCounter.StepKeepsInv` | cachine/backends/sqlite/async_.py:341-369 | exactly the holder of the lock is in the critical section, and the tables differ from the saved ones only by its own statements |
| `AsyncCounter.OnlyCommitsCount` | cachine/backends/sqlite/async_.py:362-369 | no step but a commit changes the committed tables, and a commit is one atomic increment |
| `AsyncCounter.CountersAddUp` | cachine/backends/sqlite/sync.py:312-351 | conservation for the atomic increments |
| `Singleflight.SingleflightTable.Acquire` | cachine/decorators/cached.py:31-47 | leader exactly when the group is not registered, with a fresh unset event; otherwise the registered event |
| `Singleflight.SingleflightTable.Pop` | cachine/decorators/cached.py:55-56 | the group is unregistered and its event, if any, returned |
| `Singleflight.SingleflightTable.Release` | cachine/decorators/cached.py:49-58 | pops the registered event, whoever made it, and sets it; does nothing without one |
| `Swr.DecodeEncode` | cachine/decorators/cached.py:343-372 | what is stored decodes to the result exactly unless a result that looks like an envelope is stored bare |
| `Swr.JitterMattersIff` | cachine/decorators/cached.py:188-209 | the jitter reaches the stored TTL exactly with a TTL and a stale window, or at the refresh site that always wraps |
| `SwrTiming.ServedIff` | cachine/decorators/cached.py:657-671 | an undisturbed envelope is served exactly when it is read before the backend's deadline and decided no later than the end of the stale window, and fresh exactly up to the beginning of that window; every read comes less than int(ttl) + jitter + stale_ttl after the write |
| `SwrTiming.RawServedIff` | cachine/decorators/cached.py:345-350 | without a stale window a result is read exactly while less than int(ttl) seconds have passed since the store, whatever the jitter, and is fresh then |
| `SwrTiming.RawServedForEver` | cachine/decorators/cached.py:345-350 | without a TTL it is read and fresh at every later instant |
| `SwrTiming.RawNotServed` | cachine/decorators/cached.py:345-350 | with an int(ttl) that is not positive and no stale window there is nothing to read |
| `SwrTiming.AsyncRefreshTimes` | cachine/decorators/cached.py:560-565 | the refresh task of the async wrapper always wraps the result, with int(ttl) + jitter + stale_ttl for the backend |
| `SwrTiming.ServedUntilEndOfStale` | cachine/decorators/cached.py:657-671 | at one instant: always served before fresh_until + stale_ttl, never after |
| `ProtocolLiveness.EveryCallReturns` | cachine/decorators/cached.py:397-444 | after any run: every waiting thread's event is set, popped by a thread about to set it, or registered with its release pending; some thread can move unless all have returned; at most eight moves per call were made |
| `ProtocolLiveness.RunKeepsLive` | cachine/decorators/cached.py:673-715 | no run loses a wake-up, even when a follower releases an event it did not create |
| `ProtocolLiveness.NoDeadlock` | cachine/decorators/cached.py:26-58 | in such a state some thread can move exactly when some call has not returned |
| `ProtocolLiveness.BoundedWork` | cachine/decorators/cached.py:648-715 | moves made and moves left never exceed eight per call, whatever the interleaving |
| `ProtocolLiveness.CanFinish` | cachine/decorators/cached.py:648-715 | from every such state moves of the threads alone let all calls return |
| `ProtocolExclusion.HoldersOfGroup` | cachine/decorators/cached.py:673-715 | calls holding a group and empty releases are as many as its registration and its fallen followers; two hold it exactly when these exceed the empty releases by two; without fallen followers none do, and it is registered exactly while held |
| `ProtocolExclusion.RunKeepsBalance` | cachine/decorators/cached.py:397-444 | the conservation law over every run |
| `ProtocolExclusion.MutualExclusion` | cachine/decorators/cached.py:397-444 | if the results for a key are cacheable and stay until the followers read again, no two leaders or refreshers hold its group at once and every woken follower returns the stored value |
| `ProtocolExclusion.RunKeepsRetained` | cachine/decorators/cached.py:673-679 | in such runs a woken follower always finds the entry and no follower falls through |
| `ProtocolExclusion.FallThroughBreaksExclusion` | cachine/decorators/cached.py:673-715 | a run in which the leader raises and two followers compute at once |
| `ProtocolAnswers.AnswersAreDue` | cachine/decorators/cached.py:648-715 | after any run, every call that returned has one of the listed records of what it read, asked, computed and stored, and gave back what that record makes due |
| `ProtocolAnswers.AnswersFollowDeeds` | cachine/decorators/cached.py:657-715 | in particular: a result computed without any raise is given back exactly, cached or not, and handed to the store exactly when it passes `condition` and is no unwanted None; a served first read and a second read that hits give back the entry of that moment; a failure appears exactly when something raised, no answer exactly for a refresher that did not lead |
| `ProtocolAnswers.RefresherIffStale` | cachine/decorators/cached.py:663-670 | a refresher of the key starts exactly when a first read serves a stale entry with singleflight on |
| `ProtocolIntegrity.StoreWrites` | cachine/decorators/cached.py:343-353 | what each store site leaves under its key, with its fresh-until time, for all TTLs, jitters and stale windows |
| `ProtocolIntegrity.CacheIntegrity` | cachine/decorators/cached.py:425-444 | after any run every entry decodes to a result of the function for its key that passed `condition` and is not None unless `cache_none`, and every answer a caller got is such a result of the function |
| `ProtocolIntegrity.RunKeepsIntegrity` | cachine/decorators/cached.py:700-712 | the invariant behind it, at all store sites, over every run |
| `ProtocolIntegrity.FailuresLeaveEntry` | cachine/decorators/cached.py:616-631 | calls that raise, give an uncacheable None or fail `condition` leave the entry of their key as it was, in any interleaving |
| `ProtocolIntegrity.AmbiguousIsMisread` | cachine/decorators/cached.py:343-372 | after a store the entry decodes to the result exactly when that was not a bare result looking like an envelope |
| `Template.ArgsPlaceholder` | cachine/decorators/_utils.py:242-250 | {args[i]} stands for the positional argument i counted from 0, as text, and outside the range there is no key |
| `Template.KwargsPlaceholder` | cachine/decorators/_utils.py:252-257 | {kwargs.n} stands for the keyword argument n |
| `Template.CtxPlaceholder` | cachine/decorators/_utils.py:235-240 | with a context {ctx.n} stands for its attribute n |
| `Template.NamePlaceholder` | cachine/decorators/_utils.py:259-268 | any other {n} stands for the keyword argument of that name; None gives the empty text, a missing name no key |
| `Template.Build` | cachine/decorators/_utils.py:201-279 | the loop computes the sequential replacement, and the simultaneous substitution whenever values are brace-free and no placeholder is assembled |
| `Template.SequentialIsSimultaneous` | cachine/decorators/_utils.py:225-274 | then, whatever the order and repetition of placeholders, the key is the simultaneous substitution, and there is none with a stray brace or an unresolved placeholder |
| `Template.ReplacedIsFilledIff` | cachine/decorators/_utils.py:225-268 | with brace-free values that all resolve, the text of the loop is the simultaneous substitution exactly when no replacement meets a placeholder that a stray brace and filled-in text spell |
| `Template.NotNestedNeverAssembles` | cachine/decorators/_utils.py:12 | templates without nested opening braces meet that condition for all brace-free values |
| `Template.NoStrayNeverAssembles` | cachine/decorators/_utils.py:12 | so do templates whose only braces are their placeholders |
| `Template.PlainTemplateIsSubstituted` | cachine/decorators/_utils.py:201-279 | for those the builder gives the simultaneous substitution when all placeholders resolve to brace-free values |
| `Template.NestedBracesCascade` | cachine/decorators/_utils.py:270-274 | the family {{x}}{y} gives a key in spite of its stray braces whenever the value of x is y |
| `Template.NestedBracesExample` | cachine/decorators/_utils.py:270-274 | an instance of it |
| `Template.KeyIff` | cachine/decorators/_utils.py:225-274 | with brace-free values there is a key exactly when all placeholders resolve and print, and the assembled placeholders that the loop replaces are as many as the stray opening and as the stray closing braces |
| `Template.ReplaceTakes` | cachine/decorators/_utils.py:268 | each replacement takes exactly one brace of either kind |
| `Template.UnbalancedGivesNone` | cachine/decorators/_utils.py:270-272 | a template with a placeholder and unbalanced braces gives no key, nested or not |

## Left out

- Redis backends, Pub/Sub and Lua scripts: their semantics live in the server.
- URL parsing, configuration objects, serializers, compression, encryption, middleware, metrics, builders and factories: delegation and field copying.
- Key hashing and `normalize_value`: introspection; arguments arrive as None, a text, or a value whose conversion raises, and `int()` inside `args[...]` is a parameter.
- The `TypeError` retry with rebound arguments: the function is one step that returns a value or raises.
- Resolution of the cache, `enabled`, tag finalization, `version` and the fallback to a default key: straight-line code before or after the protocol; a raising tag callable is a flag of the store step.
- A refresh of the sync wrapper whose function returns an awaitable, which is dropped without storing.
- Failure of `asyncio.create_task` when a refresh is started, cancellation of a coroutine whose COMMIT has already taken effect, and a ROLLBACK that fails.
- Physical locking, PRAGMAs and connection setup of SQLite: each statement and each `BEGIN IMMEDIATE` block is taken as atomic; statements of other operations on the same async connection during a transaction are not interleaved.
- The thread pool of the async wrapper; the protocol follows the sync wrapper, with the async refresh as a store site of its own.
- Protocol: threads are values in a state machine, since their interleaving is the point; the class `SingleflightTable` is the in-place form of its registry.
- NUL characters in LIKE patterns, and Unicode normalization.
- `timedelta` and `datetime` arguments: they arrive as seconds.
- A `get_or_set` factory that raises or calls back into the cache: the computed value is an argument.
- A clock that is read twice in one operation gives one sample here; in the async counter it is the sample of the SELECT.
- InMemoryCacheClass.InMemoryCache.constructor: does not accept a policy object that has tracked keys before or is shared by two caches.
- FixedWindow.RateLimit: covers runs in which only `incr` with the same window touches the key.
- LruInclusion.LruInclusion: leaves out tags and `get_or_set`, for which the property is not promised.
- InMemoryExpiry.SetAgreesIff: is about a `set` that needs no room; one that evicts may pick another victim than on the purged cache.
- SqliteCacheClass.SqliteCache.Incr: SQLite integers have 64 bits, so in the source a total beyond 2^63 - 1 raises and rolls back; totals are unbounded here, also in FixedWindow and AsyncCounter.
- SqliteCacheClass.SqliteCache.Set: does not model values that SQLite refuses to bind, nor a TTL beyond the range of a float, which raise before any row changes.
- LazyExpiry.LazyEqualsEager: leaves out `invalidate_tags`, whose effect on data rows depends on tag rows that the eager cache of entries does not have, and `persist` on an expired row that is still there.
- SwrTiming.ServedIff: is about the in-memory backend without a size limit and runs that do not write, delete or re-time the entry.
- ProtocolExclusion.MutualExclusion: does not say that a function is computed exactly once, since a new leader does not read the cache again after taking the group.
