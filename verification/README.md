# Verified model of the hongik backend's data layer and rate limiter

The backend keeps snippets, expiring share links and user accounts behind one `Store` interface.
There is a map-backed store, a PostgreSQL store, and a Redis decorator around either; requests
pass a per-IP token bucket first. This project models those parts and proves what they owe each
other:

- `StoreSpec` is the interface itself: what each snippet call may do to the snippet map and answer.
  `InMemoryStore` (a class) and `PostgresStore` (a class issuing statements to a `Database` class)
  are proved against it. `SqlInterleaving` lets the statements of many requests interleave;
  `SqlAtomicity` and `SqlLists` say which of their answers are those of one moment.
- `Paging` is the newest-first order with 64-bit page arithmetic, `Matching` the LIKE and SCAN
  patterns, `Shares` and `Users` the two smaller tables.
- `CacheKeys`, `CachedSpec`, `CachedShares` and the classes in `CachedStore` are the decorator one
  request at a time; `CacheProtocol` and `CacheStaleness` are the decorator under concurrency, with
  a clock and Redis calls that fail silently.
- `RateLimiter` is the bucket table with its cleanup, and `Origins` the CORS list parser.

## How to read it

List and search answers are a relation, not a function: an unstable sort over a map in random order
may arrange equal creation times either way. Where an answer must be unique, the statement asks for
distinct creation times (`DistinctStamps`). `Run`, `SqlRun`, `Interleaving`, `CachedRun` and
`CacheRun` describe whole executions; the main results quantify over all of them. Uuids, clock
readings, bcrypt results and the lower-casing function are parameters; a uuid is new to the store it
enters, and in the interleaved SQL model new for ever. A cached value is the stored one except that
a share loses its expiry (`model/response.go:19`).

## What turned out false, and exactly when it holds

- A page is the documented one if and only if `page * limit` fits a 64-bit int or the wrapped start
  lies beyond the last snippet; otherwise the slice panics or shows the wrong snippets
  (`TakePageIsIdealIff`). The SQL store cuts the same page if and only if there is no panic.
- Pages fetched by separate calls tile the store when creation times are distinct (`PagesTile`); with
  any tie, pages of size one may repeat a snippet (`TiesBreakTiling`).
- LIKE agrees with substring search on all texts if and only if the query holds no `%`, `_` or
  backslash (`LikeAgreesIff`).
- A create by a user unknown to the `users` table is answered as stored although the foreign key
  refused it (`InsertIsStoredIff`).
- `DeleteSnippet` on PostgreSQL reports success also when another delete removed the row between its
  two statements. As one call at the write that answer is right if and only if the row is still there
  (`DeleteIsAtomicIff`); two deletes of one row can both succeed, which no history of two atomic
  deletes allows (`BothDeletesSucceed`, `DeletedOnce`). `UpdateSnippet` does keep its promise: every
  interleaving has one history of atomic calls in which each update answers as it did, placed before
  the delete that overtook it if there was one (`UpdateIsAtomic`, `UpdatesLinearize`).
- A list on PostgreSQL counts in one statement and selects in another. It is the answer of the moment
  of its SELECT if and only if as many snippets match then as at the COUNT (`ListIsSelectMomentIff`),
  and, with distinct creation times, of any other moment if and only if as many match and the page
  holds the same rows (`ListIsMomentIff`). Writes that leave the snippets down to the end of the page
  alone keep it the answer of the COUNT (`ListIsCountMoment`), even if the totals differ
  (`UnequalTotalsMayAgree`); an insert in between makes a first page fit no moment (`InsertTearsList`).
- The cache is not coherent when a write overtakes a fill (`SlowFillLingers`). `WrongEntryHasCause`
  names every cause there is, and the entry has been wrong ever since; without such causes the cache
  is coherent whenever no write is in progress. A hit is stale by less than one TTL plus the longest
  time a fill takes from its inner read to its set (`BoundedStaleness`, `StalenessWithin`).
- `.env.example:48` says that a `CACHE_TTL_DATA` of zero or less sends every read to the database.
  `service/cache.go:90-91` hands the duration to go-redis, which stores a key without expiry unless the
  duration is positive; the model follows that, and `SlowFillLingers` shows that such an entry is then
  served for ever. `service/cache.go:90` multiplies by 10^9 in 64 bits without a bound in the
  configuration, so from 9223372037 seconds on the duration wraps and may be negative; the staleness
  bounds ask for a TTL below that (`Expires`).
- Forgetting idle clients is invisible, and the window bound holds, if ten minutes refill a bucket;
  every decision is then determined by the client's own requests (`AdmittedIff`). If they do not, a
  run shows both fail (`WithoutRefillEvictionShows`).

## Model

| member | source | states |
|---|---|---|
| Paging.TakePageIsIdealIff | service/store.go:168-177 | for page and limit at least 1, the code's slice is the documented page iff the product fits an int or the wrapped start is past the end |
| Paging.PanicsIff | service/store.go:168-177 | where nothing wraps, the slice panics iff the page does not start behind the last snippet and starts before the first or has a negative limit |
| Paging.PositionIsRank | service/store.go:164-166 | in a newest-first order with distinct times a snippet's index is the number of newer snippets |
| Paging.NewestFirstUnique | service/store.go:164-166 | with distinct times every sort of the map gives the same order |
| Paging.ListAnswerUnique | service/store.go:156-178 | with distinct times a page has only one answer |
| Paging.PagesTile | service/store.go:156-178 | answers for pages 1 to ceil(total/limit), from separate calls, are in bounds and join to every snippet exactly once, newest first |
| Paging.TiesBreakTiling | service/store.go:160-166 | whenever two snippets share a creation time, allowed answers for pages of size one show a snippet twice |
| Paging.PageOfSnippet | service/store.go:168-177 | a snippet is on page p iff the number of newer snippets divided by limit is p-1 |
| Paging.FilterOfListing | service/store.go:184-193 | filtering a newest-first listing gives a newest-first listing of the matches |
| Matching.LikeOfPlain | service/postgres_store.go:144-148 | for a query without metacharacters the LIKE test is substring search |
| Matching.LikeAgreesIff | service/postgres_store.go:144-160 | LIKE and substring search agree on all texts iff the query has no `%`, `_` or backslash |
| Matching.ScanIsPrefix | service/cache.go:117-120 | the scan pattern prefix* returns exactly the keys the prefix starts |
| StoreSpec.StepKeepsIdentity | service/store.go:207-294 | a call keeps keys equal to ids, never alters id, owner or creation time, touches only its own snippet, and an owned one only for its owner |
| StoreSpec.RefusalExactly | service/store.go:256-294 | refused calls change nothing and answer the zero snippet; update and delete are refused iff the snippet is missing or has a non-empty owner other than the caller, and found tells which; a delete that is not refused removes the snippet |
| StoreSpec.CreateStores | service/store.go:238-254 | a create stores the request's title, code and description under the new id and the caller, both times now |
| StoreSpec.ForkCopies | service/store.go:207-228 | a fork stores code and description of the original and its title with " (복사본)", under the new id and the caller |
| StoreSpec.UpdateOverwrites | service/store.go:256-276 | a successful update sets title, code, description and update time and keeps id, owner and creation time |
| StoreSpec.FoundIff | service/store.go:180-193 | a search finds a snippet iff the lowered query stands somewhere in its lowered title or description |
| StoreSpec.UnownedIsAnyones | service/store.go:256-294 | over every run, an update or delete of an unowned snippet succeeds for every caller |
| StoreSpec.IdentityForLife | service/store.go:256-276 | over every run, id, owner and creation time are constant while the snippet exists |
| StoreSpec.OnlyOwnerChanges | service/store.go:265-292 | over every run, an owned snippet that changed or vanished did so in a successful update or delete by its owner |
| StoreSpec.DeletedOnce | service/store.go:278-294 | over every run, two deletes of one id both succeed only if a create or fork drew the id in between |
| StoreSpec.RunsAgree | service/store.go:27-47 | two stores of the interface with the same start and calls go through the same states and answers |
| StoreSpec.SearchIsFilteredList | service/store.go:180-205 | the joined search pages are the joined list pages filtered by the match, and the total is that filter's length |
| InMemoryStores.InMemoryStore.constructor | service/store.go:61-73 | the store starts with exactly the seed snippets and no shares or users |
| InMemoryStores.InMemoryStore.ListSnippets | service/store.go:156-178 | the answer is a page of some newest-first order of all snippets |
| InMemoryStores.InMemoryStore.SearchSnippets | service/store.go:180-205 | the answer is a page of some newest-first order of the snippets whose title or description matches |
| InMemoryStores.InMemoryStore.GetSnippet | service/store.go:230-236 | returns the stored snippet, or the zero snippet and false |
| InMemoryStores.InMemoryStore.CreateSnippet | service/store.go:238-254 | one create step of the interface; the invariant is kept |
| InMemoryStores.InMemoryStore.UpdateSnippet | service/store.go:256-276 | one update step of the interface; found iff present, owned iff the owner is empty or the caller |
| InMemoryStores.InMemoryStore.DeleteSnippet | service/store.go:278-294 | one delete step of the interface; found iff present, owned iff the owner is empty or the caller |
| InMemoryStores.InMemoryStore.ForkSnippet | service/store.go:207-228 | one fork step: a copy with suffixed title, the caller as owner |
| InMemoryStores.InMemoryStore.CreateShare | service/store.go:298-312 | adds one share under its token with the request's code and title, expiring 86400 seconds later |
| InMemoryStores.InMemoryStore.GetShare | service/store.go:314-326 | finds the share unless it is missing or expired |
| InMemoryStores.InMemoryStore.CleanupExpiredShares | service/store.go:136-149 | removes exactly the expired shares and counts them |
| InMemoryStores.InMemoryStore.CreateUser | service/store.go:330-353 | one registration on table and index, refused for its name iff some user bears it; the bijection is kept for a fresh id |
| InMemoryStores.InMemoryStore.AuthenticateUser | service/store.go:355-370 | the login outcome for name and password |
| Shares.ShareLifetime | service/store.go:302-325 | a new share carries token, code and title of its request, is served until the end of the second 86400 seconds later, and never after |
| Shares.OpenIff | service/store.go:314-326 | a token is found iff its share is there and has no expiry or is in or before its last second |
| Shares.CollectedExactly | service/store.go:136-149 | a pass leaves exactly the shares without expiry or whose last second is not over, unchanged |
| Shares.CollectionInvisible | service/store.go:127-152 | collector passes anywhere in a run change no GetShare answer |
| Users.IndexStaysBijective | service/store.go:330-353 | in every reachable state the username index and the user table are mutual inverses |
| Users.RegistrationOutcome | service/store.go:330-353 | in every reachable state a registration is refused for its name iff some user of the table bears it, fails iff the name is free and hashing failed, and otherwise adds one user with the given id, name, hash and time |
| Users.RegisteredStaysRegistered | service/store.go:334-369 | once registered, name and password log the same user in at every later moment and the name stays taken |
| Users.LoginIsForTheName | service/store.go:355-370 | in every reachable state login succeeds iff a user of that name has a hash of that password |
| Users.LoginRefusals | service/store.go:355-370 | in every reachable state a login reports an unknown user iff nobody bears the name, and a wrong password iff its bearer has a hash of another |
| SqlSpec.SqlPageAgreesIff | service/postgres_store.go:114-122 | LIMIT/OFFSET and the slice cut the same page iff the slice does not panic |
| SqlSpec.SqlStepRefines | service/postgres_store.go:107-303 | served alone, a request with a known user, a page that does not panic and a query without metacharacters is one step of the interface on the rows read back, NULL users as empty ids |
| SqlSpec.InsertIsStoredIff | service/postgres_store.go:212-224 | a create or fork acts as the interface says iff the caller is anonymous or in the users table; otherwise nothing is stored |
| SqlSpec.SqlRunRefines | service/postgres_store.go:107-303 | every sequential run of such requests over the table is a run of the interface |
| SqlSpec.SameAnswersAsMemory | service/postgres_store.go:107-303 | from the same snippets, with distinct times, both stores answer every sequence of such requests identically |
| PostgresStores.Database.SelectPage | service/postgres_store.go:119-122 | the rows of one LIMIT/OFFSET window of some order by creation time, or an SQL error for negative bounds |
| PostgresStores.PostgresStore.ListSnippets | service/postgres_store.go:107-141 | count, early return and scanned rows make a page of the whole table |
| PostgresStores.PostgresStore.SearchSnippets | service/postgres_store.go:143-181 | the same over the rows whose lowered title or description is LIKE the query |
| PostgresStores.PostgresStore.GetSnippet | service/postgres_store.go:183-198 | the scanned row, or the zero snippet and false |
| PostgresStores.PostgresStore.CreateSnippet | service/postgres_store.go:200-225 | one create on the table, answered alike when the insert fails |
| PostgresStores.PostgresStore.UpdateSnippet | service/postgres_store.go:227-252 | one update on the table when run alone; found iff the row is there, owned iff its user is NULL, empty or the caller |
| PostgresStores.PostgresStore.DeleteSnippet | service/postgres_store.go:254-270 | one delete on the table when run alone; found iff the row is there, owned iff its user is NULL, empty or the caller |
| PostgresStores.PostgresStore.ForkSnippet | service/postgres_store.go:272-303 | one fork on the table when run alone, failing when the insert fails |
| PostgresStores.PostgresStore.CreateShare | service/postgres_store.go:307-325 | answers a share with the request's code and title expiring 86400 seconds later, and inserts it unless the token is taken |
| PostgresStores.PostgresStore.GetShare | service/postgres_store.go:327-343 | finds the share unless it is missing or expired, as in memory |
| PostgresStores.PostgresStore.CleanupExpiredShares | service/postgres_store.go:87-90 | the DELETE leaves exactly what the in-memory collector leaves |
| SqlInterleaving.WritesLandOnPermittedRows | service/postgres_store.go:227-266 | under any interleaving an UPDATE or DELETE hits a row that is unowned or the caller's at that moment |
| SqlInterleaving.CheckPassesIff | service/postgres_store.go:227-262 | the first statement of an update or delete lets the request go on iff the row is there and its user is NULL, empty or the caller |
| SqlInterleaving.UpdateReturnsRowIff | service/postgres_store.go:237-251 | the returned snippet is the row left behind iff the row still existed |
| SqlInterleaving.StatementIsCall | service/postgres_store.go:200-303 | each statement changes the table as one atomic call of the interface by the same caller |
| SqlInterleaving.InterleavingIsAtomicHistory | service/postgres_store.go:200-303 | every interleaving takes the table through a run of the interface |
| SqlInterleaving.OnlyOwnersWrite | service/postgres_store.go:227-270 | in every interleaving an owned row changes or vanishes only in its owner's update or delete |
| SqlInterleaving.JobWasBegun | service/postgres_store.go:227-303 | a request in progress was begun by its first statement, which read what the request remembers, and has been in progress since |
| SqlAtomicity.UpdateIsAtomic | service/postgres_store.go:227-252 | under every interleaving a reported update is an atomic call while the request was in progress: at the write if the row is there, otherwise just before the delete that removed it, which stays a successful delete |
| SqlAtomicity.UpdatesLinearize | service/postgres_store.go:200-303 | every interleaving has one run of the interface between the same tables, holding each step once, in which all updates, refused calls, stored inserts and row-removing deletes answer as they did; only an update is moved, and only over steps it was in progress around |
| SqlAtomicity.DeleteIsAtomicIff | service/postgres_store.go:254-270 | a reported delete is an atomic call at its write iff the row is still there |
| SqlAtomicity.ForkIsAtomicIff | service/postgres_store.go:272-302 | a fork is an atomic call at its insert iff the original still has the content read |
| SqlAtomicity.ForkCopiesItsRead | service/postgres_store.go:272-302 | whatever happened to the original since, the row inserted and answered is that of an atomic fork at the read |
| SqlAtomicity.BothDeletesSucceed | service/postgres_store.go:254-270 | for any row there is a run in which two deletes of it both report success, and no run of the interface answers those two calls so |
| SqlLists.ListIsSelectMomentIff | service/postgres_store.go:107-181 | a counted-then-selected list or search is the answer of the moment of its SELECT iff as many snippets match then as at the COUNT |
| SqlLists.ListIsMomentIff | service/postgres_store.go:107-181 | with distinct times it is the answer of any given moment iff as many match as at the COUNT and the page's rows are those of the SELECT |
| SqlLists.QuietListIsOneMoment | service/postgres_store.go:107-181 | with nothing written between COUNT and SELECT it is the answer of every moment in between |
| SqlLists.ListIsCountMoment | service/postgres_store.go:107-181 | it is the answer of the COUNT's moment whenever the matches down to the end of the page are unchanged, whatever else was written |
| SqlLists.InsertTearsList | service/postgres_store.go:107-141 | on any non-empty table an insert between COUNT and SELECT makes the first page, of any size, an answer of no moment |
| SqlLists.UnequalTotalsMayAgree | service/postgres_store.go:107-141 | deleting the older of two snippets in between leaves a first page that is the COUNT's answer and not the SELECT's |
| CacheKeys.ItoaInjective | service/cached_store.go:34 | decimal printing of ints is injective |
| CacheKeys.KeyTexts | service/cached_store.go:34-77 | the texts of the four kinds of keys |
| CacheKeys.FamilyPrefix | service/cached_store.go:34-77 | a key starts with its own family's prefix and no other |
| CacheKeys.KeysInjective | service/cached_store.go:34-77 | two reads share a key only if they are the same read, for any query text |
| CacheKeys.ScanMeetsFamily | service/cache.go:109-125 | a prefix delete meets every key of its family and none of another |
| CacheProtocol.InvalidationsSuffice | service/cached_store.go:92-126 | every cached answer a write may change is the target of one of that write's invalidations |
| CacheProtocol.InvalidationsExactly | service/cached_store.go:92-126 | a write that succeeds invalidates every list and search, an update or delete also its own snippet, and nothing else; a refused one nothing |
| CacheProtocol.StepBlame | service/cached_store.go:92-126 | a step makes an entry wrong only by a late set or a missed delete |
| CacheProtocol.WrongEntryHasCause | service/cached_store.go:28-126 | under every interleaving and failure, a wrong entry no running writer covers was set by a fill a write overtook, or escaped a failed invalidation, and was wrong at every moment since |
| CacheProtocol.CoherentWhenFillsAtomic | service/cached_store.go:92-126 | with atomic fills and reliable deletes, wrong entries are covered by a writer, and none exist while no write is in progress |
| CacheStaleness.EntryWasGiven | service/cached_store.go:40-41 | every cached answer was read from the inner store by the very fill that set it, has not changed since, and expires one TTL after the set |
| CacheStaleness.BoundedStaleness | service/cache.go:57-94 | a hit was an answer of the inner store at the inner read of the fill that set it, and is served less than one TTL after that set, whatever fails |
| CacheStaleness.StalenessWithin | service/cache.go:57-94 | if no fill takes longer than d, every hit was the inner store's answer less than TTL + d ago |
| CacheStaleness.ShareNotServedLate | service/cached_store.go:76-88 | a cached share was unexpired at the inner read of the fill that set it, and is served less than one TTL after that set |
| CacheStaleness.ShareServedWithin | service/cached_store.go:76-88 | if no fill takes longer than d, a share is served from the cache at most TTL + d past the end of its last second |
| CacheStaleness.UntouchedEntryHits | service/cache.go:57-94 | an entry neither removed nor set again is a hit, with the value set, for exactly the TTL's seconds, and for ever if they are not positive |
| CacheStaleness.SlowFillLingers | service/cached_store.go:69-73 | a fill overtaken by a delete is served after the writer returned, until exactly one TTL after the set, and for ever if the TTL's nanoseconds are not positive in 64 bits |
| CachedSpec.CachedStepRefines | service/cached_store.go:28-126 | from a coherent cache each request answers as the inner store may and leaves a coherent cache, even when Get or Set fails |
| CachedSpec.CachedRunRefines | service/cached_store.go:28-126 | what clients see through the cache is a run of the inner store alone |
| CachedSpec.CacheInvisible | service/cached_store.go:28-126 | with distinct times all answers and states equal those of the store without a cache |
| CachedSpec.SecondReadHits | service/cached_store.go:28-74 | while Redis works, a page or snippet that was found is answered again from the cache until the TTL has passed, whatever the inner store holds by then |
| CachedShares.SharesThroughCache | service/cached_store.go:76-88 | a token yields only its own share, up to the expiry; always while unexpired; expired only from a live entry |
| CachedShares.FoundAsShared | service/cached_store.go:76-88 | whatever a token yields, through the cache or past it, has the token, code and title of the request that made it; past its expiry it is a cached answer without one |
| CachedStores.Cache.Get | service/cache.go:57-74 | a found value is a live entry's; unless the call failed, every live entry is found |
| CachedStores.Cache.Set | service/cache.go:77-94 | stores the value with its expiry, or changes nothing if the call failed |
| CachedStores.Cache.Delete | service/cache.go:97-106 | removes the keys, or on failure some of them |
| CachedStores.Cache.DeleteByPrefix | service/cache.go:109-125 | scan, collect and delete remove exactly the scanned keys, or on failure some of them |
| CachedStores.CachedStore.ListSnippets | service/cached_store.go:28-43 | a hit, or a miss answered by the inner store and possibly stored; while Redis works, a live page is served and a new one stored for one TTL |
| CachedStores.CachedStore.SearchSnippets | service/cached_store.go:45-60 | the same for search |
| CachedStores.CachedStore.GetSnippet | service/cached_store.go:62-74 | the same for one snippet, storing only found ones |
| CachedStores.CachedStore.CreateSnippet | service/cached_store.go:92-97 | the inner create, then both list families invalidated |
| CachedStores.CachedStore.UpdateSnippet | service/cached_store.go:99-107 | the inner update, then on success the snippet's key and both list families invalidated |
| CachedStores.CachedStore.DeleteSnippet | service/cached_store.go:109-117 | the inner delete, then on success the same invalidations |
| CachedStores.CachedStore.ForkSnippet | service/cached_store.go:119-126 | the inner fork, then on success both list families invalidated |
| CachedStores.CachedStore.CreateShare | service/cached_store.go:128-130 | passes through to the inner store |
| CachedStores.CachedStore.GetShare | service/cached_store.go:76-88 | a hit, or a miss answered by the inner store and possibly stored without expiry; while Redis works, a live share is served and a found one stored |
| RateLimiters.ClientSeesOwnBucket | middleware/ratelimit.go:35-77 | what the limiter decides for an IP is what one bucket decides on that IP's requests |
| RateLimiters.ClientsIsolated | middleware/ratelimit.go:35-62 | with other clients and cleanups mixed in, an IP gets the decisions of a bucket of its own |
| RateLimiters.EvictionInvisible | middleware/ratelimit.go:49-62 | if ten minutes refill a bucket, cleanups change no decision of any run |
| RateLimiters.WindowBound | middleware/ratelimit.go:64-77 | if ten minutes refill a bucket or nothing is forgotten, one IP is admitted at most burst + rate * d times in any interval of length d, and never without a positive burst |
| RateLimiters.RefusalHasCause | middleware/ratelimit.go:35-77 | a refused request comes after so many admissions since some moment of the run that one more would exceed burst + rate * time |
| RateLimiters.AdmittedIff | middleware/ratelimit.go:35-77 | if ten minutes refill a bucket or nothing is forgotten, a request is admitted iff over every stretch of time ending with it the IP's admissions, this one included, are at most burst + rate * length |
| RateLimiters.SweptExactly | middleware/ratelimit.go:49-62 | a cleanup pass keeps exactly the clients seen at most 600 seconds ago, with their buckets |
| RateLimiters.WithoutRefillEvictionShows | middleware/ratelimit.go:35-62 | if ten minutes do not refill a bucket, a run exceeds that bound and is decided differently without cleanups |
| RateLimiters.Limiter.Allow | middleware/ratelimit.go:69 | refills, takes a token if one is there, else changes nothing |
| RateLimiters.RateLimiter.GetLimiter | middleware/ratelimit.go:35-47 | finds or creates the client's own bucket and marks the client seen |
| RateLimiters.RateLimiter.Handle | middleware/ratelimit.go:64-77 | lookup then Allow is one served request on the client table |
| RateLimiters.RateLimiter.CleanupPass | middleware/ratelimit.go:53-61 | forgets exactly the clients idle for more than ten minutes |
| Origins.ParseOrigins | config/config.go:80-89 | the loop computes the trimmed non-empty pieces in order |
| Origins.SplitInvertsJoin | config/config.go:81 | the pieces hold no comma and join back to the input |
| Origins.ParseAtComma | config/config.go:80-89 | parsing two lists joined by a comma gives one result after the other |
| Origins.ParseClean | config/config.go:84-86 | every item is non-empty, trimmed and comma-free |
| Origins.SpaceByCodePoint | config/config.go:84 | white space is exactly the code points with the White_Space property |
| Origins.TrimKeeps | config/config.go:84 | trimming takes white space off both ends and nothing else |
| Origins.ParsePiece | config/config.go:83-87 | a comma-free piece yields the trimmed text its blanks surround, or nothing if it is blank |
| Origins.ParsePadded | config/config.go:80-89 | a list with blanks around its items and empty items parses to its non-empty items in order |
| Origins.ParseOfAnyInput | config/config.go:80-89 | every input is such a list, so its parse is determined |
| Origins.RoundTripIff | config/config.go:80-89 | a list survives printing and parsing iff all its items are clean |
| Origins.ParseIsStable | config/config.go:80-89 | parsing, joining and parsing again gives the same list |

## Left out

- Handlers, routing, CORS, logging, request ids, body limits and the unused semaphore: HTTP plumbing around the modelled calls.
- JWT and bcrypt: bcrypt is an abstract comparison and an optional hash; tokens are not modelled.
- Migrations, connections, timeouts, pools, tickers, `Close` and `Ping`: replaced by nondeterministic failures and clock parameters.
- Database errors other than SQL errors for negative bounds, duplicate ids and the user foreign key.
- The PostgreSQL user table operations: a check before an insert under a UNIQUE constraint, with the same sequential outcome as in memory.
- Rounding of timestamps to microseconds by PostgreSQL, and Unicode case folding (an abstract lower-casing function shared by Go and SQL).
- Floating-point rounding inside the token bucket (reals, with a positive finite rate), and a stall of ten minutes between lookup and `Allow`.
- The rounding of a duration to milliseconds by go-redis, which matters only once the TTL's product has wrapped.
- Character classes in SCAN patterns, which no prefix in the repository uses.
- The decorator class is written over the in-memory store; over PostgreSQL only the interface-level results apply.
- A nil cache, for which the constructor returns the inner store itself, and the pass-through user calls of the decorator.
- Seed example texts, environment lookups and `Validate`.
