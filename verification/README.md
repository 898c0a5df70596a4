# Verification of the beer review service

A Dafny model of the stateful parts of the service, with proofs about every run of each of them.
`dafny verify dfyconfig.toml` checks everything.

| files | what they model |
|---|---|
| `Beers`, `Outbox`, `OutboxAccounting`, `OutboxAnswers`, `BeerUsecase` | creations, replacements, comment, media and delete transactions, interleaved statement by statement, with the event each of them inserts (transactional outbox); the permission and the written columns of every operation |
| `EventCache`, `ReadPath`, `Lexicographic` | the capped Redis sorted set in front of the event table, and reads through the composite store |
| `RateSpec`, `RateLimiter`, `RateRuns`, `RateService`, `RateEviction` | the sliding-window limiter: values, arrays compacted in place, whole runs against the full admission history, a service loop joining the two, when an eviction can break the limit |
| `RefreshTokens`, `TokenFamilies`, `TokenRules` | refresh-token rotation, expiry, reuse detection, and the family of tokens each login starts |
| `HotSwap` | the serverless handler's double-checked swap of its router, for any number of requests |
| `Bytes`, `Uuid` | UUIDv7 packing and text (RFC 9562, sections 4 and 5.7) |
| `Queries`, `Pagination` | filters compiled to numbered placeholders, page slices, `rel="next"` |
| `Retry` | retries with exponential back-off |
| `Deletion` | deletion requests and their approval in one transaction |

Code that changes state is a class or a method with loops, proved against a function of its inputs or
old state; the main results are lemmas about those functions over all runs. SQL statements and Redis
commands are atomic steps on maps and sets; a concurrent component is a state machine whose runs are
the sequences of enabled steps.

## Where the code and its intent differ

The model follows the code in each of these cases.

- An administrator's delete of a beer inserts its event after deleting the row the event refers to
  (`internal/beer/usecase/beer_usecase.go:228-233`, `internal/app/migrations/create_beer_events_table.sql:6`),
  so with an event store wired in it always rolls back: `OutboxAccounting.LogIsHistory`.
- An approval looks its request up in a page of one row, newest first
  (`internal/beer/usecase/moderation_usecase.go:95-111`), so it can succeed exactly when no other request is
  newer: `Deletion.ApprovalNeedsNewest`, with a concrete failing table in `Deletion.OlderRequestCannotBeApproved`.
- The fuzzy fallback of the search numbers its placeholders without counting the query argument
  (`internal/beer/repository/beer_repository.go:426-465`), so it never answers, for any filter:
  `Queries.FuzzyPage`; `Queries.SearchBeers` says exactly when a search does answer.
- Cached events outlive the cascading delete of the event table, so a cached event is durable exactly when
  its beer still exists: `ReadPath.CacheSoundness`, `ReadPath.ReadsAfterDelete`. Every table with a beer reaches
  such a state: `ReadPath.StaleCacheReached`.
- A read of the event table scans its JSON column into a map (`pkg/events/postgres_store.go:45`,
  `pkg/events/events.go:32`), for which there is no conversion; the beers table reads such columns through bytes
  (`internal/beer/repository/beer_repository.go:121`, `internal/beer/repository/beer_repository.go:170-171`). So the
  first matching row ends the read with an error, and a reader gets events exactly when the cache has some:
  `ReadPath.ReadsAreDurable`; `ReadPath.DurableReadFails` is a run with both stores up in which the read fails, and
  `ReadPath.ReadsMeant` is what holds once rows are read through bytes.
- The limiter keeps the limit in every window of every run with at most n clients exactly when n is below the cap of
  100000 (`RateEviction.CapIsExact`); in general each eviction of a key allows the limit once more
  (`RateRuns.SlidingWindowBound`).
- A comment in `api/main.go:44-52` speaks of a pool that went down; a full router is in fact never replaced:
  `HotSwap.SlotSettles`.
- A comment in `internal/beer/delivery/http/links.go:12-13` promises `rel="last"` whenever there is more than
  one page; the last page gets no header at all: `Pagination.SetPaginationLinks`.

## Model

| member | source | states |
|---|---|---|
| Beers.Position | internal/beer/usecase/beer_usecase.go:298-304 | the first comment with the id, or the length when none has it |
| Beers.EditFrame | internal/beer/repository/beer_repository.go:327-329 | a stored comment edit changes only the comment list and the update stamp; a stored media edit only the media list, a still empty image address and the stamp |
| Beers.Draft.AddComment | internal/beer/usecase/beer_usecase.go:277 | the comment is appended and nothing else changes |
| Beers.Draft.DeleteComment | internal/beer/usecase/beer_usecase.go:297-312 | not found exactly when no comment has the id, else refused exactly for a caller who is no administrator, else the first comment with the id goes and nothing else |
| Beers.Draft.LikeComment | internal/beer/usecase/beer_usecase.go:337-360 | the first comment with the id gains one like and the liker, a user before a device; refused exactly when that liker is listed, not found exactly without such a comment |
| Beers.Draft.AddMedia | internal/beer/usecase/beer_usecase.go:388-391 | appends the item; only an empty image address is set |
| BeerUsecase.Usecase.EditAndWrite | internal/beer/repository/beer_repository.go:311-342 | the edited row is written over the row that was read; other rows stay |
| BeerUsecase.Usecase.Exec | internal/beer/repository/beer_repository.go:672-699 | a call with nothing beside it does what the sequential reference does, and an error leaves the tables as they were |
| OutboxAccounting.SurvivingAppend | internal/app/migrations/create_beer_events_table.sql:6 | what a cascade keeps of a log is what it keeps of each stretch of it, in order and as often as it was there |
| Outbox.SurvivingMembers | internal/app/migrations/create_beer_events_table.sql:6 | a cascade keeps exactly the events whose beer remains |
| Outbox.CommitRunsAlone | internal/beer/repository/beer_repository.go:685-698 | what a commit publishes is what its request would do running alone at that moment |
| Outbox.CommitChecks | internal/beer/usecase/beer_usecase.go:183-189 | a permission read before the transaction still stands when it commits, whatever commits in between |
| Outbox.InvStep | internal/beer/repository/beer_repository.go:672-699 | every statement of every transaction keeps locks, snapshots, permissions and history in agreement |
| Outbox.Serialisable | internal/beer/repository/beer_repository.go:672-699 | however statements interleave, the tables are those of the committed requests run one at a time in commit order, each committed transaction once; this covers creation and replacement of whole rows |
| Outbox.FailureIsSerial | internal/beer/usecase/beer_usecase.go:285-362 | an error answered inside a transaction is the one the request would get alone at that moment, and only commits change the tables |
| Outbox.Progress | internal/beer/repository/beer_repository.go:119-130 | no deadlock: an unfinished transaction, or the holder of the row it waits for, can go on without giving up |
| OutboxAccounting.RunAloneLog | internal/beer/repository/beer_repository.go:692-698 | a successful request adds exactly its event; only a creation adds a row, an approved delete removes the beer and its events, an administrator's delete never succeeds |
| OutboxAccounting.LogIsHistory | internal/beer/repository/beer_repository.go:685-698 | the event table is the first table plus one event per committed request in commit order, less the events of deleted beers |
| OutboxAccounting.CommentsStep | internal/beer/usecase/beer_usecase.go:271-361 | one successful request changes the named beer's comment list as its kind says, and no other list |
| OutboxAccounting.RowsAreFolds | internal/beer/usecase/beer_usecase.go:258-400 | no lost update: unless its row was replaced, a live row is its first row with comments and media folded over the committed operations, all other columns unchanged but a once empty image address and the stamp |
| OutboxAccounting.CommentsConserved | internal/beer/usecase/beer_usecase.go:270-318 | unless the row was replaced: comments now = comments at first + added events - deleted events |
| OutboxAccounting.LikesConserved | internal/beer/usecase/beer_usecase.go:342-358 | unless the row was replaced, with fresh comment ids: each comment's like counter and list of likers grew by the number of like events naming it, the new likers all different |
| OutboxAccounting.InterleavedAccounting | internal/beer/usecase/beer_usecase.go:258-400 | the event table, the whole row, the comment count and the likes are so for the tables any interleaved run ends with |
| OutboxAccounting.FromCreation | internal/beer/usecase/beer_usecase.go:141-149 | a created beer starts with the inserted row and that one event, and the rest of the history replays from there, so the results above hold of it from its creation on |
| OutboxAnswers.AddCommentAnswers | internal/beer/usecase/beer_usecase.go:258-283 | succeeds exactly for a beer that exists; the row gains the comment and the stamp, the log its event |
| OutboxAnswers.DeleteCommentAnswers | internal/beer/usecase/beer_usecase.go:285-319 | succeeds exactly for an administrator and a comment that is there; refused exactly for anyone else and such a comment; the first one with the id goes |
| OutboxAnswers.LikeCommentAnswers | internal/beer/usecase/beer_usecase.go:325-362 | each answer exactly when; the liked comment, the row and the event it leaves |
| OutboxAnswers.AddMediaAnswers | internal/beer/usecase/beer_usecase.go:367-400 | refused exactly unless the caller is an administrator or the nonempty creator of the row; the row and the event it leaves |
| OutboxAnswers.ReplaceBeerAnswers | internal/beer/usecase/beer_usecase.go:179-209 | the same permission; every written column is the given one, an empty image address and description, creator and creation time are the old row's |
| OutboxAnswers.CreateBeerAnswers | internal/beer/usecase/beer_usecase.go:104-155 | succeeds exactly for a new id; the inserted row has no media; one creation event |
| OutboxAnswers.DeleteAnswers | internal/beer/usecase/beer_usecase.go:212-242 | an administrator's delete always fails at the foreign key, anyone else's is refused; an approved delete takes the row and exactly its events |
| OutboxAnswers.CommitsAreAuthorised | internal/beer/usecase/beer_usecase.go:247-256 | in every interleaved run each committed comment deletion was an administrator's, and each committed media addition or replacement an administrator's or the nonempty creator's of the row it found |
| OutboxAnswers.ReplacementsWrite | internal/beer/repository/beer_repository.go:311-342 | in every interleaved run a committed replacement writes each column it is given and keeps the others |
| EventCache.LessTotal | pkg/events/events.go:84-92 | any two members of the sorted set are ordered by score and payload |
| EventCache.LessTransitive | pkg/events/events.go:84-92 | that order is transitive |
| EventCache.KindOrder | pkg/events/events.go:14-23 | the ranks of the kinds are the byte order of their texts |
| EventCache.LaterIsGreater | pkg/events/events.go:84-92 | a later event is greater, and within one instant the texts of the kinds and then the ids decide |
| EventCache.TrimIsTop | pkg/events/events.go:93 | removing ranks 0 to -1001 keeps exactly the 1000 greatest members |
| EventCache.TopSize | pkg/events/events.go:25 | the greatest n of a set are n, or the whole set when it is smaller |
| EventCache.TopBetween | pkg/events/events.go:92-93 | trimming any set between the top of all events and all events gives the top of all events |
| EventCache.StreamingStep | pkg/events/events.go:91-97 | add, trim and expiry each keep the streaming invariant |
| EventCache.StreamingIsBatch | pkg/events/events.go:80-99 | for any interleaving of publishers, between expiries the cache holds the 1000 greatest events added, with at most one more for each half done publish, and exactly those when no publish is half done or the last command was a trim; then no event left out is later than one kept |
| ReadPath.Sorted | pkg/events/events.go:107-110 | a range has each member of the set once, in the order of score and payload |
| ReadPath.Ordered | pkg/events/postgres_store.go:30-35 | the rows of the query, each as often as it is there, by time and at equal times by id |
| ReadPath.OrderedByTimeThenId | pkg/events/postgres_store.go:30-35 | of two rows the first is earlier, or as early with no greater id |
| ReadPath.CompositeStore.PublishCache | pkg/events/composite_store.go:73-78 | only the cache changes: the key is then all its events and the added one, or the newest 1000 of them |
| ReadPath.CompositeStore.Publish | pkg/events/composite_store.go:58-69 | the cache is written only after the event table; a cache failure is ignored |
| ReadPath.CompositeStore.ListCached | pkg/events/events.go:101-123 | exactly the cached events whose time is not before the bound, each once, in score order and so by time |
| ReadPath.CompositeStore.ListDurable | pkg/events/postgres_store.go:29-55 | an empty answer exactly when the table is up and no row of the beer is later than the bound, else the error of the first scan |
| ReadPath.CompositeStore.ListSince | pkg/events/composite_store.go:30-41 | the cache's answer exactly when it has an event not before the bound, each event once, in order and not before the bound; else the table's: empty or an error |
| ReadPath.CacheCommands | pkg/events/events.go:80-99 | what an add, a trim to the newest 1000, an expiry and a database statement each do to every key |
| ReadPath.SystemInv | internal/beer/usecase/beer_usecase.go:463-466 | cached events are events of committed transactions, filed under their own beer |
| ReadPath.CacheSoundness | internal/beer/usecase/beer_usecase.go:484-493 | across creations, replacements, rollbacks, cache failures, trims and expiries, every cached event was committed and is in the event table exactly when its beer exists |
| ReadPath.ReadsAreDurable | pkg/events/composite_store.go:30-41 | for an existing beer a read returns only its durable events not before the bound, none more often than the table has it, ascending; it returns any exactly when the cache is up and has such an event, and fails exactly when it does not and the table cannot be read or has an event after the bound |
| ReadPath.DurableReadFails | pkg/events/postgres_store.go:43-47 | from every table with a beer a run leads to a durable event of a live beer that a read with both stores up answers with an error |
| ReadPath.ReadsMeant | pkg/events/composite_store.go:29-41 | the intent, with rows read through bytes: only durable events not before the bound, and something whenever the table is readable and has an event after it |
| ReadPath.ReadsAfterDelete | pkg/events/composite_store.go:30-41 | for a deleted beer a read returns nothing durable, and anything at all exactly when the cache is up and still has an event not before the bound |
| ReadPath.StaleCacheReached | internal/beer/usecase/beer_usecase.go:463-466 | from every table with a beer a run leads to a cached event whose beer and row are gone |
| RateLimiter.Compact | pkg/middleware/rate_limit.go:76-82 | compaction over the same array keeps exactly the times after the cutoff, in order |
| RateLimiter.Append | pkg/middleware/rate_limit.go:87 | the slice grows by the time, in its array or in a fresh one |
| RateLimiter.RateLimiter.Normalised | pkg/middleware/rate_limit.go:193-205 | a limit that is not positive becomes 10, such a window 60 seconds |
| RateLimiter.RateLimiter.CleanupExpired | pkg/middleware/rate_limit.go:91-106 | every log loses its expired times and empty logs go; no two keys share storage |
| RateLimiter.RateLimiter.EvictOldest | pkg/middleware/rate_limit.go:108-126 | removes one entry whose first time is the least of all, or nothing when that entry has the empty key |
| RateLimiter.RateLimiter.Allow | pkg/middleware/rate_limit.go:58-89 | the verdict and the new logs are those of the step on values; storage stays unshared |
| RateService.Serve | pkg/middleware/rate_limit.go:58-89 | any sequence of calls on the arrays is a run of the limiter with those verdicts, ending in those logs |
| RateService.ServedIsFaithful | pkg/middleware/rate_limit.go:58-106 | so every verdict the arrays gave is the reference's |
| RateRuns.ClientKey | pkg/middleware/rate_limit.go:128-140 | keys are never empty, and users and addresses never share one |
| RateRuns.KeysTellClientsApart | pkg/middleware/rate_limit.go:128-140 | two clients share a key exactly when they are one user, or have no user and one address |
| RateRuns.StoredAgrees | pkg/middleware/rate_limit.go:62-88 | on every window a later request can ask about, the stored log agrees with the admissions since the key's last eviction |
| RateRuns.Refinement | pkg/middleware/rate_limit.go:58-106 | wherever cleanups and evictions fall, a request is admitted exactly when the admissions of its key since its last eviction leave room; for a key never evicted these are all its admissions |
| RateRuns.SlidingWindowBound | pkg/middleware/rate_limit.go:62-88 | at every instant the admissions in the last window are at most the limit, plus the limit once for each eviction of the key |
| RateRuns.AllowanceIs | pkg/middleware/rate_limit.go:71-74 | that allowance is limit * (1 + evictions) |
| RateEviction.NoEvictionBelowCap | pkg/middleware/rate_limit.go:71-74 | while fewer than 100000 keys have made requests no key is evicted |
| RateEviction.PlainBoundBelowCap | pkg/middleware/rate_limit.go:62-88 | then no window of any key holds more than the limit |
| RateEviction.LimitExceeded | pkg/middleware/rate_limit.go:71-88 | for every limit and every positive window some run of no more clients than the cap has limit + 1 admissions of a key in one window |
| RateEviction.CapIsExact | pkg/middleware/rate_limit.go:71-88 | all runs with at most n clients keep the limit in every window exactly when n is below the cap |
| RateRuns.EvictionIsOldest | pkg/middleware/rate_limit.go:71-74 | at the cap exactly one entry goes, and its first time is the oldest time stored anywhere |
| RateRuns.CleanupWhenDue | pkg/middleware/rate_limit.go:65-69 | 300 seconds after the last cleanup exactly the expired times go, and the logs with no other; before that nothing does |
| RateRuns.NothingExpired | pkg/middleware/rate_limit.go:58-106 | a request that comes 300 seconds after the last cleanup leaves no expired time of any key |
| RateRuns.MemoryBound | pkg/middleware/rate_limit.go:58-126 | at most 100000 keys, each log nonempty, ascending and within the limit, so at most 100000 * limit times |
| RateRuns.DenialsJustified | pkg/middleware/rate_limit.go:76-86 | a denied request has exactly limit stored times, each a real admission of its key in the last window, evictions or not |
| RefreshTokens.UserUsecase.CreateRefreshToken | internal/user/repository/user_repository.go:437-454 | inserts the token exactly when the call does not fail, its user exists and its hash is new, else changes nothing |
| RefreshTokens.UserUsecase.RevokeRefreshToken | internal/user/repository/user_repository.go:486-494 | revokes the user's row with the hash and no other |
| RefreshTokens.UserUsecase.RevokeAllRefreshTokens | internal/user/repository/user_repository.go:496-504 | revokes every row of the user and no other |
| RefreshTokens.UserUsecase.IssueTokenPair | internal/user/usecase/user_usecase.go:179-212 | on success one new unrevoked token; on any failure no change |
| RefreshTokens.UserUsecase.RefreshTokens | internal/user/usecase/user_usecase.go:214-268 | outcome and table for every branch and every failing store call |
| RefreshTokens.RevokeInPlace | internal/user/repository/user_repository_memory.go:208-218 | the loop revokes the first matching row, hashes repeated or not, and says whether there was one |
| RefreshTokens.FirstIsRevoke | internal/user/repository/user_repository_memory.go:208-218 | where hashes are unique that is the effect of the table statement |
| RefreshTokens.RevokeAllInPlace | internal/user/repository/user_repository_memory.go:220-229 | the loop revokes every row of the user, hashes repeated or not; where they are unique that is the effect of the table statement |
| TokenFamilies.TableEffect | internal/user/usecase/user_usecase.go:224-265 | a success adds one token; an exchange presents a live token and kills it; no revoked token comes back; owners never change |
| TokenFamilies.StepKeeps | internal/user/usecase/user_usecase.go:179-268 | every login, refresh and account deletion, any store call failing, keeps the family invariant |
| TokenFamilies.OneLivePerFamily | internal/user/usecase/user_usecase.go:214-268 | a login's rotation chain has at most one unrevoked token, its newest |
| TokenFamilies.LiveTokensBounded | internal/user/usecase/user_usecase.go:214-268 | a user's unrevoked tokens never exceed that user's logins |
| TokenFamilies.ExchangedOnce | internal/user/usecase/user_usecase.go:234-260 | an exchanged token is never exchanged again in any continuation |
| TokenFamilies.ReuseShutsDown | internal/user/usecase/user_usecase.go:234-240 | after a reuse whose revocation succeeds, every token of that user exchanged in any continuation descends from a later login |
| TokenRules.IssueRule | internal/user/usecase/user_usecase.go:179-212 | a pair is issued exactly when nothing fails, for an existing user and a new hash; its token expires 30 days later cut to the second |
| TokenRules.ExchangeRule | internal/user/usecase/user_usecase.go:214-268 | an exchange succeeds exactly for a known unrevoked token not past its expiry, of an existing user, with a fresh raw token and no fault |
| TokenRules.RefusalRule | internal/user/usecase/user_usecase.go:214-254 | unauthorized exactly for an empty, unknown, revoked or expired token or a missing user |
| TokenRules.TableRule | internal/user/usecase/user_usecase.go:234-268 | the table after every answer: the presented token spent, all of the user's tokens revoked after a reuse, one token added, all else as before |
| TokenRules.LivesThirtyDays | internal/user/model/refresh_token.go:14-23 | over every run, a token is exchanged no later than 30 days after it was issued |
| TokenRules.FreshTokenWorks | internal/user/model/refresh_token.go:14-23 | over every run, a token just issued can be exchanged at any time up to 30 days less a second later |
| TokenRules.FamiliesAreLogins | internal/user/usecase/user_usecase.go:179-212 | there is one family for every login that issued a pair, in that order and of that user |
| TokenRules.Successor | internal/user/usecase/user_usecase.go:256-267 | a login's token starts its family, an exchange's is the next generation of the presented one's |
| TokenRules.TokensHaveUsers | internal/app/migrations/create_refresh_tokens.sql:3 | in every run every stored token is of an existing user; a deleted account leaves none |
| HotSwap.NeedsDB | internal/app/serverless.go:93-112 | false exactly for the six static paths and the two static prefixes |
| HotSwap.RunKeeps | api/main.go:53-100 | every step of every request keeps mutex, pool count and slot in agreement |
| HotSwap.HotSwapIsSafe | api/main.go:53-100 | at most one pool is opened; the mutex is free exactly when no request is inside; a path that needs the database is served by the one full router or answered 503, any other path is served |
| HotSwap.SlotSettles | api/main.go:92-95 | a full slot never changes again |
| HotSwap.SomeoneMoves | api/main.go:75-96 | no deadlock: an unfinished request or the one inside can move |
| HotSwap.NineSteps | api/main.go:53-100 | no request takes more than nine steps |
| HotSwap.NothingWithoutDatabase | api/main.go:84-95 | while the database is never reachable no pool is counted and the slot stays degraded |
| HotSwap.NobodyRefused | api/main.go:76-99 | with the database always reachable and configured no request is answered 503 |
| HotSwap.RefusedExactly | api/main.go:84-91 | in every run a configured request is answered 503 exactly when its own attempt to connect found the database unreachable |
| HotSwap.FullLoadServed | api/main.go:54-60 | a request that loads a full router is served by that router, whatever happens after |
| HotSwap.UnconfiguredStaysOut | api/main.go:65-74 | without a configured database a request never goes for the lock and a path that needs it is answered 503 unless a full router is there |
| Bytes.WithVersion | pkg/uuid/uuid.go:33 | the mask writes version 7 over the high four bits |
| Bytes.WithVariant | pkg/uuid/uuid.go:38 | the mask writes variant 10 over the high two bits |
| Uuid.PutTimestamp | pkg/uuid/uuid.go:29-30 | the two writes together are the low 48 bits, big-endian |
| Uuid.SixBytes | pkg/uuid/uuid.go:29-30 | the same, for every clock value including negative and overlong ones |
| Uuid.PutRandom | pkg/uuid/uuid.go:33-38 | version, variant and random bits are in place and the timestamp untouched |
| Uuid.Format | pkg/uuid/uuid.go:54-83 | every byte at its two columns in hex, dashes at 8, 13, 18 and 23 |
| Uuid.CanonicalForm | pkg/uuid/uuid.go:54-83 | that form spelled out: 36 columns, the dashes, and each byte as two lower case digits, high one first |
| Uuid.NewV7 | pkg/uuid/uuid.go:19-41 | the text is the canonical form of the version 7 layout |
| Uuid.ReadBack | pkg/uuid/uuid.go:19-41 | millisecond, version, variant and all 74 random bits can be read from the text |
| Uuid.SameTextSameFields | pkg/uuid/uuid.go:19-83 | two generations with one text have the same millisecond and the same 74 random bits |
| Uuid.TextInjective | pkg/uuid/uuid.go:54-83 | equal texts exactly for equal bytes |
| Uuid.TextOrder | pkg/uuid/uuid.go:19-41 | a later millisecond below 2^48 gives a lexicographically larger text, whatever the random bits |
| Uuid.BigEndianOrder | pkg/uuid/uuid.go:29-30 | a smaller number has the smaller byte where the big-endian bytes first differ |
| Lexicographic.LessTransitive | pkg/uuid/uuid.go:54-83 | the order of texts is transitive |
| Lexicographic.LessTotal | pkg/uuid/uuid.go:54-83 | any two texts are ordered or equal |
| Lexicographic.LessAtFirstDifference | pkg/uuid/uuid.go:54-83 | two texts are ordered by their characters at the first difference |
| Lexicographic.PrefixIsLess | pkg/events/events.go:84-92 | a text comes before every longer one that begins with it |
| Queries.AddText | internal/beer/repository/moderation_repository.go:123-128 | a set filter adds one condition to both texts on the counter's placeholder and one argument, so that counter, texts and arguments stay in step and the conditions mean the earlier ones and the filter |
| Queries.AddMin | internal/beer/repository/beer_repository.go:398-403 | the same for the lower alcohol bound |
| Queries.AddMax | internal/beer/repository/beer_repository.go:405-410 | the same for the upper alcohol bound |
| Queries.BuildSearch | internal/beer/repository/beer_repository.go:361-416 | both texts have the same conditions, their placeholders are exactly 1 to the number of arguments, and they hold of a row exactly when it meets every set filter; the counter lags by one after a taste filter |
| Queries.AddQuery | internal/beer/repository/beer_repository.go:371-389 | the query text is bound to placeholder 1 in the page text and, one position back, in the count text |
| Queries.LaggingCounterFails | internal/beer/repository/beer_repository.go:503-507 | numbering LIMIT from a lagging counter would leave the last argument without a placeholder and the page query without an answer, so the reset is needed |
| Queries.BeersFound | internal/beer/repository/beer_repository.go:371-416 | the rows a search finds, in table order, are those that meet every set filter, both alcohol bounds inclusive and met by no row without an alcohol content |
| Queries.ModeratedFound | internal/beer/repository/moderation_repository.go:123-140 | the same for a moderation listing and its three filters |
| Queries.PageIs | internal/beer/repository/beer_repository.go:503-512 | with limit and offset appended, the page query answers the slice of what the count query counts |
| Queries.ModerationPage | internal/beer/repository/moderation_repository.go:117-161 | with LIMIT and OFFSET numbered by the counter, total is the number of matches and the page the right slice of the ordered matches, limit defaulting to 20; the listing of deletion requests (lines 223-267) is the same code |
| Queries.FuzzyPage | internal/beer/repository/beer_repository.go:426-468 | the fallback query never answers, for any filter |
| Queries.SearchBeers | internal/beer/repository/beer_repository.go:361-512 | total is the match count; a page comes back exactly when there is no query text or some match, and limit and offset are not negative; it is the right slice of the ordered matches |
| Pagination.MemoryPage | internal/user/repository/user_repository_memory.go:110-126 | the in-memory slice is the database's page for every page size that is not negative, a slice out of bounds counting as no answer |
| Pagination.SetPaginationLinks | internal/beer/delivery/http/links.go:18-53 | next exactly while a row remains after the page, to the page after; last names the page of the last row |
| Pagination.CollectedFrom | internal/beer/repository/beer_repository.go:220-247 | following next from a page collects the rest of the list from that page's offset |
| Pagination.Traversal | internal/beer/delivery/http/links.go:18-53 | following next from page 1 ends, visits pages 1 to ceil(total/pageSize) once each, none of them empty when there are rows, and collects the whole list in order |
| Pagination.JoinLinks | internal/beer/delivery/http/links.go:56-62 | the relations in order, separated by comma and blank |
| Pagination.JoinedReadsBack | internal/beer/delivery/http/links.go:56-62 | relations without a comma can be read back from the header |
| Retry.WrappingStaysTransient | pkg/database/retry.go:76-106 | a transient error stays transient when more text is wrapped around it |
| Retry.TransientTexts | pkg/database/retry.go:76-106 | an error is transient exactly when its text has one of the five parts |
| Retry.Retried | pkg/database/retry.go:81-103 | each of the five parts makes an error transient, whatever stands around it |
| Retry.NotRetried | pkg/database/retry.go:76-106 | an absent error, and every text without an "o" or a "7" such as a duplicate key, is not transient |
| Retry.RetryExec | pkg/database/retry.go:109-160 | every attempt before the last failed transiently; the answer is the last attempt's when it is not transient, a cancellation only where one happened, and else the last error after maxRetries + 1 calls; the delay is the sum of the completed waits |
| Retry.OutcomeIsFirst | pkg/database/retry.go:109-160 | without cancellation: the first outcome that is not a transient failure, or, when every allowed attempt fails transiently, the last error; at most maxRetries + 1 calls |
| Retry.AnswerIs | pkg/database/retry.go:109-160 | with any cancellations: the loop ends at the first attempt cut short, not failing transiently or the last allowed, with the answer and the number of calls of that case |
| Retry.DelayIs | pkg/database/retry.go:135-139 | after n waits the total delay is (2^n - 1) * base plus the jitters drawn |
| Retry.DelayBound | pkg/database/retry.go:135-139 | after n waits with base > 0 the total delay is at least (2^n - 1) * base and at most (2^n - 1 + n) * base - n |
| Retry.DelayFits | pkg/database/retry.go:139 | when (2^(maxRetries-1) + 1) * base is within 2^63, no delay leaves the 64-bit range |
| Deletion.ModerationUsecase.RequestDeletion | internal/beer/usecase/moderation_usecase.go:66-77 | succeeds exactly when the beer exists, the id is new and the user has no pending request for the beer; then just that pending request is added, else nothing changes |
| Deletion.ModerationUsecase.ResolveDeletionRequest | internal/beer/usecase/moderation_usecase.go:83-118 | refused exactly for a caller who is no administrator; a rejection succeeds exactly for a request that is there and marks it, field by field, and nothing else; an approval succeeds exactly for the newest request and takes its beer; on an error nothing changes |
| Deletion.DecisionRule | internal/beer/usecase/moderation_usecase.go:83-118 | each answer to a decision exactly when, and the tables a rejection and an approval leave |
| Deletion.ApprovalNeedsNewest | internal/beer/usecase/moderation_usecase.go:93-111 | an approval can succeed exactly when no request is newer, and is sure to exactly when every other one is older |
| Deletion.OlderRequestCannotBeApproved | internal/beer/usecase/moderation_usecase.go:95-111 | a table in which approving a pending request always answers not found |
| Deletion.NothingHalfDone | internal/beer/repository/moderation_repository.go:318-339 | in every run every request is pending or rejected, its beer exists, and no user has two pending requests or two open reports for one beer |
| Deletion.ApprovalIsWhole | internal/beer/usecase/moderation_usecase.go:88-117 | in every run only an administrator decides; a rejection marks its request and nothing else; a successful approval removes the beer with all its requests and reports and nothing else; a failed decision changes nothing |
| Deletion.OtherRules | internal/beer/repository/moderation_repository.go:212-221 | when asking for a deletion and reporting succeed and what they add; what removing a beer leaves |

## Left out

- Replacement of a whole row writes the comment list it is given, so the comment and like results are about rows not replaced (`OutboxAccounting.Unreplaced`).
- The search for similar names before a creation, which only refuses; ids of new beers are generated and taken to be fresh, as the controller clears any id it is sent (`internal/beer/delivery/http/beer_controller.go:251`).
- The fallbacks without a transaction: `AddMedia` on a store without the atomic call, and mutations with no event store.
- Content moderation of comment texts; it runs before the transaction and only refuses.
- Reads that fall back to an empty list when stored JSON is malformed.
- Ordering of the event table by event time: events are stamped before their transaction, so results use commit order.
- `LatestEvent` and nil stores.
- EventCache.Less: scores are exact nanoseconds; the code rounds them to a 64-bit float. The payload's data part is compared by its value alone.
- Event ids are generated and taken to be fresh, so the primary key of the event table is not modelled.
- Event times: the table keeps microseconds and the cached payload nanoseconds, so a cached event equals its row up to that rounding only.
- Redis itself: adds, trims and whole-key expiry are atomic commands; the expiry clock is left open, so a key may go at any time.
- ReadPath.CompositeStore.Publish: a failing call is assumed to have had no effect.
- RateRuns.ClientKey: the forwarded-for header and the splitting of host and port; the address is a parameter.
- RateLimiter.RateLimiter.Allow: one call at a time under its lock; the clock is read under it and never goes back.
- RefreshTokens.UserUsecase.RefreshTokens: calls are serial. Lookup, revocation and creation are separate statements in the code, so two calls on one token may overlap there.
- Signing, random generation, hashing and password checks: parameters that may fail; hashing is injective and raw tokens never repeat.
- The in-memory lookup of a token, which also asks for the user id; the table's lookup by hash is used.
- HotSwap: what building a router or opening a pool does inside, the five second limit, and a router that panics.
- Uuid.NewV7: a failure of the random source; clocks of 2^48 ms or more wrap, as `Uuid.SixBytes` shows, and lose their order.
- The SQL texts: a query is its list of conditions and its arguments, ordered rows are given, and full text and fuzzy matching are parameters; ranking is not modelled.
- Pagination.SetPaginationLinks: scheme, host and the text of a link.
- Pagination.MemoryPage: the sort before slicing; the list is given in its order.
- Retry.RetryExec: durations are unbounded integers (`Retry.DelayFits` says when that is exact); timers, metrics and tracing.
- Deletion: users as rows, so the cascade from a deleted user; the two report endpoints beyond inserting a report.
- HTTP decoding, validation, compression, logging, metrics, statistics, start-up and the other migrations would only add easy members.
