# Verified model of kody-celld

kody-celld is a personal assistant server: it keeps a user's memories with a semantic index, serves the
packages a user has saved as small web apps on an origin of their own, signs people in, and shows package
files and timings. This project models the parts of it where state, time and encodings meet, and proves what
those parts are for. `dafny verify dfyconfig.toml` checks all of it with Dafny 4.11.

One module per component; each file's first comment names the source file it models.

| files | component |
|---|---|
| `MemoryIndex`, `MemoryRuns`, `MemoryLife` | the memory table and its vector index, on values: one pass, each operation, whole runs |
| `MemoryOverlap` | indexing passes that overlap with edits, reindexes and restarts, over runs |
| `MemorySearch` | ranking, visibility and per-conversation suppression in a search |
| `MemoryCell` | the cell as an object that updates its tables in place, proved against `MemoryIndex`, `MemoryRuns`, `MemoryLife` and `MemorySearch` |
| `VectorStore`, `Ranking`, `Providers`, `EmbeddingClient` | the local vector store, the ranking arithmetic, the embeddings client, and the client behind the cell's cache |
| `Accounts`, `Sessions`, `AccountStore` | lockout, burned handoffs, sliding sessions and one-time links over runs, and the object that holds them |
| `Tokens`, `Handoff`, `HandoffChain`, `AppOrigin`, `AppUrl` | sealed values, the three-party app handoff, its redirect chains, the app-origin handler, app URLs |
| `ServerTiming` | printer and parser of the Server-Timing header |
| `Reserved`, `PackageStorage` | reserved table names and the key/value store of a package |
| `PackagePaths`, `PackageTree` | percent-coded file paths and the package file explorer |
| `ModuleGraph` | which saved packages the build of an app looks up and includes, and what its outcome depends on |
| `GraphCache`, `GraphFreshness`, `GraphOrder` | the cache of built module graphs with interleaved calls, what its hits are worth, and its order of last use |
| `Lists`, `Sorting`, `Text` | sequences, stable sorting, strings |

Where the source changes state step by step, a class or a method with a loop does the same and is proved equal
to a function on values; the properties are then proved about those functions and about runs of them.

## What is taken as given

- A clock is a parameter of every step, in milliseconds, and does not run backwards. Random ids, network
  answers, provider answers and faults are parameters too; a proof that holds for all of them needs no more. Where
  a theorem needs that a random id is not drawn twice, it says so (`OneExpiry`, fresh ids in `RevokedIsDead`).
- SQL tables are maps, SHA-256 is injective where it keys a table, an HMAC is an ideal function of key and
  message, JSON is a printer with a left inverse, arithmetic on scores is over the reals with an abstract square
  root, and `localeCompare` is any total order with ties.
- The full-text query and the nearest-neighbour query return whatever they like; what a search does with their
  answers is modelled.
- The text between two `await`s runs without interruption. Operations of the memory cell run one after the
  other, except in `MemoryOverlap`; calls of the graph cache interleave; so do the two requests that spend one
  sign-in link.
- What a build of a module graph makes of the packages, imports and modules it walked (links, npm modules, the
  wrapper, the check of static imports) is a function of that walk. It reads each package once, at any moment
  between its start and its end. In a run of the graph cache each cached name has a builder of its own, and a
  package name carries its user.
- Where a theorem needs it, it says that a package saved twice under one time stamp is the same package
  (`StampsTell`).
- In a run of the graph cache every read of stamps may fail on its own, at any moment after the entry was found. That
  is more than can happen while several calls wait for one rejected promise; the run shown to lose the order
  (`OverwritingRun`) makes no use of it.

## Where the code falls short of its own description

Each of these is kept as the code has it, with the exact condition under which the description holds.

- A vector table dropped for another model and not recreated is forgotten: the retry reports no recreation
  (`FailedRecreationIsForgotten`, `EnsureKeepsAgreementIff`).
- A repair that stops half-way over a row stamped by another model leaves the stamp without its vector
  (`InterruptedRepairLosesVector`, `InterruptedFinishKeepsAgreementIff`), and a pass that finishes after its rows
  were edited overwrites the edit's vector (`LatePassOverwritesEdit`, `LateFinishKeepsAgreementIff`,
  `StepKeepsAgreementIff`).
- A vector chunk stays within its budget only up to 32768 dimensions (`ChunkWithinBudget`).
- Truncating an embedding input twice differs from once when the cut falls behind a blank (`TruncateStable`).
- Sorting ids by score depends on the input order as soon as two ids tie (`SortIndependentOfInputOrder`).
- The vector query loses matches when the status filter removes too many of the over-fetched rows
  (`OverFetchIsPrefix`).
- A handoff is accepted again once the registry's clock has reached its expiry, since the registry forgets it
  before looking it up; the expiry check before the burn does not prevent it when that clock is behind
  (`AcceptedAgainIff`, `AcceptedTwice`, and `AcceptedOnceIff` for the burns alone).
- The bytes of a sealed value are not canonical: spare bits of the last base64url digit are ignored
  (`SpareBitsAreIgnored`), and the empty byte sequence encodes to a text that does not decode (`DecodeEncode`).
- Appending to a Server-Timing header with an open quote swallows the appended entries
  (`AppendParsesIffBalanced`).
- The LIKE clauses and the predicate for reserved table names differ on the Kelvin sign (`ExclusionAgreesIff`).
- Listing keys by a prefix with a character outside the Basic Multilingual Plane finds no key but the prefix
  itself (`BelongsIff`, `PrefixSelectsIff`).
- A file that is also a directory is listed as a directory, opens as a file, and hides from the tree
  (`ListedChildOpens`, `TreeShowsAllIff`).
- The graph cache leaves the order of last use when a call overwrites the entry of another call, as when two calls
  that found one entry fail to read the present stamps with another name called for in between (`OverwritingRun`,
  `StepKeepsOrderIff`).
- The graph cache serves outdated graphs (`ReusedIsFreshIff`). A package that a build asked for in vain has no stamp:
  when it is saved afterwards, the entry is still handed out (`MissingPackageStaysMissing`, and
  `SampleMissesItsImport` for such an app). What is saved or deleted between a build and the read of its stamps is
  not noticed either (`SaveInBetweenIsMissed`, `DeletedPackageComesBack`).

## Model

| member | source | states |
|---|---|---|
| MemoryIndex.EnsureKeepsAgreementIff | src/cells/memory-cell.ts:157-168 | after `ensureVectors` every stamp still has its vector, if and only if no stamped table was dropped without a new one being created |
| MemoryIndex.LateFinishKeepsAgreementIff | src/cells/memory-cell.ts:215-231 | a pass that finishes over rows read earlier keeps stamps truthful if and only if those rows still embed and are filed as they were |
| MemoryIndex.InterruptedFinishKeepsAgreementIff | src/cells/memory-cell.ts:221-230 | a pass whose writes stop half-way keeps stamps truthful if and only if no row it touched was stamped |
| MemoryIndex.IndexKeepsAgreement | src/cells/memory-cell.ts:215-231 | a pass over current rows keeps every stamp truthful under any provider failure |
| MemoryIndex.IndexKeepsContents | src/cells/memory-cell.ts:215-231 | indexing changes nothing of a memory but its stamp |
| MemoryRuns.RepairFreshensPage | src/cells/memory-cell.ts:234-246 | a repair removes exactly its page from the stale rows |
| MemoryRuns.ReindexComplete | src/cells/memory-cell.ts:249-261 | a reindex keeps stamps truthful whatever fails; when it reports a total, that is the number of memories and none is left stale |
| MemoryRuns.UpsertEffect | src/cells/memory-cell.ts:293-372 | an upsert keeps the index truthful and dedupe keys unique, is refused exactly for an unknown id or a foreign key, and changes no other memory |
| MemoryLife.SoftDeleteKeepsAgreement | src/cells/memory-cell.ts:412-425 | a soft delete keeps the index truthful also when re-indexing fails |
| MemoryLife.HardDeleteKeepsAgreement | src/cells/memory-cell.ts:403-411 | a hard delete keeps the index truthful also when the vector cannot be deleted |
| MemoryLife.SearchKeepsAgreement | src/cells/memory-cell.ts:472-484 | the repair inside a search keeps the index truthful |
| MemoryLife.SearchRepairsNewest | src/cells/memory-cell.ts:472-475 | a search without faults, the first of a process or a later one, repairs the newest 32 stale rows, or all of them |
| MemoryLife.StepKeepsInvariant | src/cells/memory-cell.ts:293-426 | each public operation and each restart with another model keeps the cell's invariant |
| MemoryLife.EveryRunKeepsAgreement | src/cells/memory-cell.ts:157-426 | after every run a memory stamped with a model is indexed under that model's vector of its current text, with its current status and category |
| MemoryLife.InterruptedRepairLosesVector | src/cells/memory-cell.ts:475 | a concrete interrupted repair after which a stamped memory has no vector |
| MemoryLife.FailedRecreationIsForgotten | src/ai/vector-store.ts:68-93 | a concrete failed recreation that the successful retry does not report |
| MemoryOverlap.StepKeepsAgreementIff | src/cells/memory-cell.ts:215-231 | with passes, edits, deletes, reindexes and restarts overlapping, a step keeps stamps truthful if and only if it is not a pass landing on a row that no longer embeds and is filed as read |
| MemoryOverlap.UndisturbedRunKeepsAgreement | src/cells/memory-cell.ts:215-231 | every such run in which no row is written while a pass that read it is under way keeps every stamp truthful |
| MemoryOverlap.LatePassOverwritesEdit | src/cells/memory-cell.ts:215-231 | a concrete overlap of two upserts of one memory after which its stamp vouches for the vector of the text it no longer has |
| MemorySearch.RankedQuality | src/cells/memory-cell.ts:486-493 | the ranking holds each eligible candidate once, best fused score first |
| MemorySearch.SearchQuality | src/cells/memory-cell.ts:485-522 | for arbitrary query answers a search returns distinct existing memories of an allowed status and category, at most the limit, best first, and visible plus suppressed is the whole ranking |
| MemorySearch.SuppressedIffRecentlySurfaced | src/cells/memory-cell.ts:495-538 | in every run a memory is suppressed in a conversation exactly when an acknowledging search surfaced it there within six hours and it was not deleted since |
| MemorySearch.SurfacedMemoryRests | src/cells/memory-cell.ts:495-538 | what an acknowledging search returned does not come back in that conversation for six hours |
| MemorySearch.SilentSearchForgotten | src/cells/memory-cell.ts:450-452 | a search that acknowledges nothing leaves the suppressions, once pruned, as if it had not been made, whatever follows |
| MemorySearch.VerifyingHidesNothing | src/cells/memory-cell.ts:561-568 | verifying candidates never changes what any later search answers |
| MemorySearch.RankedReadsContents | src/cells/memory-cell.ts:488-493 | the ranking does not depend on stamps or access times |
| MemoryCell.KeepNewest | src/cells/memory-cell.ts:207-210 | the cache is cut to its newest entries and loses no newer one than it keeps |
| MemoryCell.Lookup | src/cells/memory-cell.ts:183-189 | exactly the cached keys are found, with their vectors |
| MemoryCell.Missing | src/cells/memory-cell.ts:190 | the keys to ask for are the uncached ones, each once |
| MemoryCell.Store | src/cells/memory-cell.ts:195-206 | answers are stored under the keys they were asked for, and the cache stays sound |
| EmbeddingClient.ClientFeedsCache | src/cells/memory-cell.ts:193-206 | the client's batched answers for the missing keys, in whatever order each came, are key by key what is stored for them |
| MemoryCell.MemoryCell.EmbedCached | src/cells/memory-cell.ts:177-213 | for any sound cache, result i is the provider's embedding of text i; after a call that stores, the cache holds at most 5000 entries |
| MemoryCell.MemoryCell.EnsureVectors | src/cells/memory-cell.ts:157-168 | the object's tables change as the function on values says |
| MemoryCell.MemoryCell.IndexMemories | src/cells/memory-cell.ts:215-231 | the loop over a batch has the effect of one pass, with the rows written so far when it stops |
| MemoryCell.MemoryCell.RepairStaleVectors | src/cells/memory-cell.ts:234-246 | the page is the newest stale rows, and the effect that of a repair |
| MemoryCell.NewestFirst | src/cells/memory-cell.ts:237-243 | the selected page holds the newest of the stale rows, up to the limit |
| MemoryCell.MemoryCell.MemoryReindex | src/cells/memory-cell.ts:249-261 | the loop terminates with the stale rows as measure, keeps stamps truthful, and counts every memory when it succeeds |
| MemoryCell.MemoryCell.MemoryUpsert | src/cells/memory-cell.ts:293-372 | the tables and the result are those of the upsert on values |
| MemoryCell.MemoryCell.MemorySoftDelete | src/cells/memory-cell.ts:412-425 | the row is marked deleted and unstamped before it is indexed again |
| MemoryCell.MemoryCell.MemoryHardDelete | src/cells/memory-cell.ts:403-411 | row and suppressions go first, so that a failure leaves only an orphaned vector |
| MemoryCell.MemoryCell.MemorySearch | src/cells/memory-cell.ts:454-546 | answers, ranks, relative scores, suppressed count, access times and suppressions of a search, and which page of stale rows it repairs |
| MemoryCell.MemoryCell.MemoryVerify | src/cells/memory-cell.ts:548-577 | the owner of the candidate's key, if any, and a search that only prunes the suppressions and repairs the newest stale rows |
| MemoryCell.Matches | src/cells/memory-cell.ts:512-522 | each match carries its row, its ranks in both lists and its score relative to the best |
| VectorStore.ChunkWithinBudget | src/ai/vector-store.ts:42-49 | a chunk is a multiple of 8 between 8 and 1024 rows, within the byte budget if and only if there are at most 32768 dimensions |
| VectorStore.LocalVectorStore.Ensure | src/ai/vector-store.ts:68-93 | the table is kept, replaced or lost as the schema and the creation decide |
| VectorStore.LocalVectorStore.Upsert | src/ai/vector-store.ts:95-107 | records replace the rows of their ids, one by one, also when the loop is cut short |
| VectorStore.LocalVectorStore.Delete | src/ai/vector-store.ts:109-111 | exactly the given ids disappear |
| VectorStore.OverFetchIsPrefix | src/ai/vector-store.ts:113-133 | the query is a prefix of the exact filtered ranking, and equals its head if and only if few enough of the fetched rows are filtered out |
| Ranking.CauchySchwarz | src/ai/ranking.ts:9-23 | the square of the dot product is at most the product of the square norms |
| Ranking.CosineSimilarity | src/ai/ranking.ts:9-23 | the similarity lies between -1 and 1, and is 0 for unequal lengths and zero vectors |
| Ranking.ReciprocalRankFusion | src/ai/ranking.ts:25-33 | exactly the listed ids are scored, each with the sum of its shares |
| Ranking.FusionKeepsAgreement | src/ai/ranking.ts:25-33 | an id in every list, ahead of another wherever both occur, scores strictly higher |
| Ranking.SortIndependentOfInputOrder | src/ai/ranking.ts:35-41 | every arrangement of the ids sorts alike if and only if no two of them tie |
| Providers.TruncateStable | src/ai/providers.ts:32-35 | truncating three times is truncating twice, and twice is once if and only if the cut does not fall behind a blank |
| Providers.Embed | src/ai/providers.ts:126-167 | the call succeeds exactly if every batch is well answered, and then result i is what the answer of its batch puts at its place |
| Providers.SortedByIndex | src/ai/providers.ts:146-150 | sorting by index puts item j at place j for every order of arrival |
| Providers.UnindexedKeepsOrder | src/ai/providers.ts:146-150 | items without index stay in order |
| Providers.EmbedAligned | src/ai/providers.ts:126-167 | result i embeds text i for any order within the answers |
| Accounts.CallsKeepAttemptsOk | src/auth/account-store.ts:126-135 | the stored count is 0 to 4, and 0 exactly with a lock time |
| Accounts.BudgetCoversEvaluations | src/auth/account-store.ts:105-141 | from any state, wrong passwords evaluated until a moment are covered by what the stored attempt still allows |
| Accounts.EvaluationsBounded | src/auth/account-store.ts:105-141 | in a window of length W without success at most 5 * (W / 15 min + 1) wrong passwords are evaluated for an email |
| Accounts.EvaluationsBoundReached | src/auth/account-store.ts:105-141 | the bound is reached in a window of every length, by calls in order without success |
| Accounts.BurnedIsRemembered | src/auth/account-store.ts:283-287 | the purge never forgets an id before its expiry |
| Accounts.BurnOkIff | src/auth/account-store.ts:283-287 | a burn succeeds if and only if it is the first for its id or the clock has reached the expiry |
| Accounts.AcceptedOnceIff | src/auth/account-store.ts:283-287 | every id is accepted at most once if and only if none is burned again at or past its expiry |
| Sessions.RevokedIsDead | src/auth/account-store.ts:275-295 | a session revoked, alone or with all of the user's, is not alive at any moment of any run that follows |
| Sessions.RevokeSparesOthers | src/auth/account-store.ts:275-280 | revoking one session leaves every other one alive |
| Sessions.RunSlides | src/auth/account-store.ts:210-241 | over any run a session's row, while it exists, expires one ttl after a use less than a minute old |
| Sessions.BusySessionSurvives | src/auth/account-store.ts:210-241 | with gaps below ttl minus a minute every use resolves |
| Sessions.IdleSessionIsGone | src/auth/account-store.ts:210-241 | a session unused for ttl never resolves again |
| Sessions.ReportedExpiryClose | src/auth/account-store.ts:228-240 | the expiry a use reports is at most a minute beyond the stored one |
| Sessions.GapBoundIsTight | src/auth/account-store.ts:210-241 | a gap of exactly ttl minus a minute can lose the session |
| Sessions.TokenGrantedOnce | src/auth/account-store.ts:164-181 | of overlapping consumes of one link at most one is granted it |
| Sessions.SpentStaysSpent | src/auth/account-store.ts:176-181 | a spent link is never granted again |
| AccountStore.AccountStore.PasswordVerify | src/auth/account-store.ts:105-141 | attempts and verdict change as the lockout function says, for the trimmed lower-case email |
| AccountStore.AccountStore.SigninTokenIssue | src/auth/account-store.ts:146-161 | a link is stored with the lifetime of its kind after expired rows are purged |
| AccountStore.AccountStore.SigninTokenPeek | src/auth/account-store.ts:164-174 | a link is read exactly if it is stored and has not expired, and reading spends nothing |
| AccountStore.AccountStore.SigninTokenConsume | src/auth/account-store.ts:176-181 | a link that can be read is deleted and returned; otherwise nothing changes |
| AccountStore.AccountStore.SessionCreate | src/auth/account-store.ts:190-207 | a session is added after expired rows are purged |
| AccountStore.AccountStore.SessionResolve | src/auth/account-store.ts:210-241 | an expired row is deleted, a live one slides at most once a minute |
| AccountStore.AccountStore.SessionDelete | src/auth/account-store.ts:243-246 | exactly the row of this secret goes, and whether there was one is returned |
| AccountStore.AccountStore.SessionRevoke | src/auth/account-store.ts:275-280 | one session or all of the user's go, and their number is returned |
| AccountStore.AccountStore.SessionAlive | src/auth/account-store.ts:290-295 | whether a row with this public id and user has not expired |
| AccountStore.AccountStore.AppHandoffBurn | src/auth/account-store.ts:283-287 | expired ids are purged and the id is inserted unless it is there |
| Tokens.ToBase64Url | src/apps/tokens.ts:27-31 | the loop yields the base64url encoding of the bytes |
| Tokens.EncodeIsDigits | src/apps/tokens.ts:27-31 | the encoding holds url-safe digits only, so neither a dot nor padding, and is empty only for no bytes |
| Tokens.DecodeEncode | src/apps/tokens.ts:33-41 | decoding undoes encoding for every nonempty byte sequence, and for no other |
| Tokens.SpareBitsAreIgnored | src/apps/tokens.ts:33-41 | two texts that differ in spare bits decode alike |
| Tokens.UnsealSealed | src/apps/tokens.ts:50-83 | a sealed value opens to its claims under its key and purpose, and under no other |
| Tokens.OpenedWasSealed | src/apps/tokens.ts:56-83 | a value that opens with the signature of a sealed one carries the same claims for the same purpose |
| Handoff.RunKeepsSound | src/apps/origin.ts:61-111 | in every run each signed session goes back to an accepted exchange of a minted handoff for the same user, parent session and state |
| Handoff.EveryServeIsBacked | src/apps/origin.ts:93-111 | every request that is served carries such a session for the user in its URL, whose parent session is alive when it is checked |
| Handoff.MintNamesItsSession | src/apps/open.ts:26-48 | a minted handoff names the user and public id of the web session that asked for it |
| HandoffChain.HandoffAcceptedOnce | src/apps/tokens.ts:101-128 | in every run a handoff is accepted at most once while the registry's clock is before its expiry |
| HandoffChain.AcceptedAgainIff | src/apps/tokens.ts:101-128 | after its first acceptance, a request that passes signature, expiry and binding is accepted again if and only if the registry's clock has reached the expiry, whatever ran in between |
| HandoffChain.AcceptedTwice | src/auth/account-store.ts:283-287 | one request sent twice in a row, before the expiry by the consumer's clock and past it by the registry's, is accepted both times |
| HandoffChain.BurnedPersists | src/auth/account-store.ts:283-287 | until then nothing that runs in between makes the registry forget it |
| HandoffChain.OpenDescends | src/apps/open.ts:26-56 | a redirect of `/apps/open` lowers the rank of world, browser and place |
| HandoffChain.AppDescends | src/apps/origin.ts:61-108 | so does a redirect of the app origin |
| HandoffChain.ChainsEnd | src/apps/origin.ts:38-112 | a redirect chain ends within four redirects in a served app, at sign-in or on the page that asks to open the app from Kody |
| HandoffChain.FourRedirects | src/apps/open.ts:37-56 | four redirects do occur |
| AppOrigin.AppOrigin.ConsumeHandoff | src/apps/tokens.ts:101-128 | signature, expiry and binding are checked in this order, and nothing is burned unless all hold |
| AppOrigin.AppOrigin.HandleAppOriginRequest | src/apps/origin.ts:38-112 | the handler's effects in order are those of the protocol step |
| AppUrl.AppUrlMatches | src/apps/app-url.ts:85-117 | an app URL with anything below it is matched to the user, package, mount path and rest it was made for, in both modes |
| AppUrl.MatchIsAppUrl | src/apps/app-url.ts:101-135 | only such a URL on that user's host is matched to an app |
| AppUrl.WithPackageIff | src/apps/app-url.ts:119-135 | a path is matched to a package if and only if it is its mount path followed by nothing or a slash |
| AppUrl.OriginsDiffer | src/apps/app-url.ts:85-89 | in subdomain mode two users never share an origin |
| ServerTiming.UnquoteQuote | src/server-timing.ts:29-38 | unquoting undoes quoting for every text |
| ServerTiming.SplitServerTimingParts | src/server-timing.ts:51-78 | the loop splits at delimiters outside quotes |
| ServerTiming.QuotedNeutral | src/server-timing.ts:51-78 | a quoted text passes either split in one piece |
| ServerTiming.SplitNeutral | src/server-timing.ts:51-78 | a text that closes its quotes and shows no delimiter is split off whole |
| ServerTiming.ParseServerTimingHeader | src/server-timing.ts:80-105 | the loops parse part by part and token by token |
| ServerTiming.RoundTrip | src/server-timing.ts:40-105 | parsing a printed list gives it back without non-token names, with rounded nonnegative durations and token descriptions |
| ServerTiming.AppendParsesIffBalanced | src/server-timing.ts:107-113 | appending to a header parses to both lists one after the other if and only if the header closes every quote it opens |
| ServerTiming.Headers.ApplyServerTimingHeader | src/server-timing.ts:107-113 | the header is extended, set, or left alone when nothing is printed |
| Reserved.LikeLiteralPrefixMatches | src/cells/package-storage-reserved.ts:14-16 | the pattern matches exactly the texts that start with the prefix, ASCII case folded, for every prefix |
| Reserved.ExclusionAgreesIff | src/cells/package-storage-reserved.ts:19-28 | the clauses accept a name exactly when the predicate does not reserve it, except for `__kody_` spelled with a Kelvin sign |
| Reserved.HasReservedTableWrite | src/cells/package-storage-reserved.ts:44-52 | a batch is refused exactly if some statement of it writes to a reserved table |
| Reserved.HasWriteConcat | src/cells/package-storage-reserved.ts:40-52 | the scan of two joined batches is the disjunction of their scans |
| Reserved.ProtectedTablesAreGuarded | src/cells/package-storage-reserved.ts:34-52 | a batch is refused if any of its statements, no SELECT behind its white space, names a table `clear` would spare |
| PackageStorage.PackageStorageCell.Set | src/cells/package-storage-cell.ts:46-59 | an empty key is refused, a missing value deletes, and only the key's row changes |
| PackageStorage.PackageStorageCell.Delete | src/cells/package-storage-cell.ts:61-64 | exactly the key's row goes, and whether there was one is returned |
| PackageStorage.PackageStorageCell.List | src/cells/package-storage-cell.ts:66-91 | a page holds rows of the prefix beyond the cursor in ascending order, passes none over, is within the limit, and has a cursor exactly with a further row |
| PackageStorage.PackageStorageCell.Clear | src/cells/package-storage-cell.ts:99-111 | all keys and every table outside the reserved names go, or after a failed drop nothing changes |
| PackageStorage.BelongsIff | src/cells/package-storage-cell.ts:73-78 | the substring test selects a key if and only if the key starts with the prefix and the prefix has no astral character or is the whole key |
| PackageStorage.PrefixSelectsIff | src/cells/package-storage-cell.ts:73-78 | a prefix selects exactly the keys that start with it if and only if it has no astral character |
| PackageStorage.ListingAscends | src/cells/package-storage-cell.ts:66-91 | whatever is written between pages, keys come in strictly ascending order, none twice |
| PackageStorage.PresentKeyVisitedOnce | src/cells/package-storage-cell.ts:66-91 | a key of the prefix that is there at every page comes exactly once in a finished listing |
| PackageStorage.VisitedWasPresent | src/cells/package-storage-cell.ts:66-91 | a key that comes was there when its page was read |
| PackageStorage.QuietListingIsOrdered | src/cells/package-storage-cell.ts:66-91 | without writes a finished listing is the sorted list of the keys of the prefix |
| PackageStorage.QuietListingEnds | src/cells/package-storage-cell.ts:67-90 | without writes it is finished exactly when the pages so far can hold the keys, and no page is superfluous |
| PackagePaths.DecodeEncode | universal/package-files.ts:160-163 | every text survives component encoding and decoding through its UTF-8 octets |
| PackagePaths.LoadedPathIsTidy | src/app/package-files-data.ts:137-142 | a route parameter is decoded exactly once |
| PackagePaths.LoadedUnchangedIff | src/app/package-files-data.ts:137-142 | a parameter is looked up unchanged if and only if it is a clean path |
| PackagePaths.NormalizedIsClean | universal/package-files.ts:121-138 | whatever comes in, what normalization lets through is a clean path |
| PackagePaths.NormalizeCleanIff | universal/package-files.ts:121-138 | normalizing a clean path without encoding it returns it if and only if it has no percent sign and no outer white space |
| PackagePaths.LinkRoundTrip | universal/package-files.ts:160-163 | a link made for a clean path leads back to that path |
| PackageTree.ListPackageFilesChildren | universal/package-files.ts:212-243 | the loop, the sort and the view yield the children of the directory |
| PackageTree.ChildrenAreRight | universal/package-files.ts:217-229 | each first step below the directory is listed once, as a directory exactly if something lies below it |
| PackageTree.ChildrenInOrder | universal/package-files.ts:230-236 | directories come first and each group is in the order of the locale |
| PackageTree.TreeShowsLeavesOnce | universal/package-files.ts:212-243 | opening every directory from the root ends, and finds a clean path once if nothing lies below it and not at all otherwise |
| PackageTree.TreeShowsAllIff | universal/package-files.ts:212-243 | the tree shows every path once if and only if no file is also a directory |
| PackageTree.ListedChildOpens | universal/package-files.ts:256-263 | a listed child opens, and as listed if and only if it is not a directory and a file at once |
| PackageTree.ListedChildLoads | universal/package-files.ts:237-242 | the paths of children of clean paths are clean, so their links load them |
| PackageTree.BuildPackageFilesAncestors | universal/package-files.ts:165-178 | the loop yields the breadcrumbs |
| PackageTree.CrumbsFollowTheTree | universal/package-files.ts:165-178 | the breadcrumbs of an existing path end in it, and each is a listed child of the one before |
| ModuleGraph.BuildReadsWhatItAsks | src/execute/module-graph.ts:240-365 | a build depends on no names but those it asks for, present or absent |
| ModuleGraph.BuildIncludesWhatItAsks | src/execute/module-graph.ts:354-365 | what a build reports as included is saved and was asked for |
| ModuleGraph.SavingTheMissingMatters | src/execute/module-graph.ts:261-269 | a name that a successful build asked for and did not include is included as soon as anything is saved under it that has the exports asked of it |
| ModuleGraph.StubIsSavable | src/packages/manifest.ts:427-434 | for any set of exports there is a package that a save accepts, all of whose exports are files |
| GraphCache.StampsMatchIff | src/apps/serve-name.ts:26-30 | the comparison is equality of the two stamp maps |
| GraphCache.Cache.Reuse | src/apps/serve.ts:31-43 | an entry is reused exactly if the stamps are equal and it still holds its name; otherwise it is given up unless replaced |
| GraphCache.Cache.Insert | src/apps/serve.ts:50-60 | the entry is set and the oldest ones beyond 32 go |
| GraphCache.Cache.Drop | src/apps/serve.ts:51-53 | a name is deleted only while it holds the given entry |
| GraphCache.NextKeepsInv | src/apps/serve.ts:24-62 | every atomic piece of every interleaving, over names with builders of their own, keeps the invariant |
| GraphCache.EveryRunKeepsCacheInShape | src/apps/serve.ts:24-62 | in every run over any names the cache names nothing twice and holds at most 32 entries, each under its own name |
| GraphCache.LateFailureSparesOthers | src/apps/serve.ts:51-55 | the late failure of an entry removes its own slot and no newer one |
| GraphFreshness.HitIsFresh | src/apps/serve.ts:29-39 | in every run over any names, a graph handed out is the one a build of that name at that moment of the call would make, if its own build found every name it asked for and none of its packages was saved or deleted from the start of that build to its stamp read |
| GraphFreshness.ReusedIsFreshIff | src/apps/serve.ts:31-49 | an entry is right in every world that accepted saves and deletes lead to and whose stamps match, if and only if a build at the stamp read would have made the same graph and found every name it asks for |
| GraphFreshness.MissingPackageStaysMissing | src/apps/serve.ts:31-49 | for every app whose build succeeds without a package it asked for, and whatever is then saved under that name with the exports asked for, a run of two calls around that save in which the second still gets the old graph |
| GraphFreshness.SaveInBetweenIsMissed | src/apps/serve.ts:46-49 | for every save between build and stamp read, a run that hands out the old graph in a world that has the packages as stamped |
| GraphFreshness.DeletedPackageComesBack | src/apps/serve.ts:46-49 | a package deleted before the stamp read leaves no stamp, so whatever is saved under its name later goes unnoticed |
| GraphFreshness.SampleMissesItsImport | src/execute/module-graph.ts:310-319 | a concrete app that imports an unsaved package in a module its entry does not load: the build succeeds and does not include it |
| GraphOrder.SetKeepsOrderIff | src/apps/serve.ts:35-50 | setting a name keeps the order of last use if and only if the name was absent or last |
| GraphOrder.StepKeepsOrderIff | src/apps/serve.ts:24-62 | over any names, a step keeps the order of last use if and only if it does not overwrite another call's entry inside the map |
| GraphOrder.RunKeepsOrder | src/apps/serve.ts:24-62 | a run without such a step keeps the order throughout |
| GraphOrder.EvictsLeastRecentlyUsed | src/apps/serve.ts:56-60 | in order, what is evicted was used before everything that is kept |
| GraphOrder.OverwritingRun | src/apps/serve.ts:31-50 | a concrete run in which the order is lost: two calls wait for one entry that is built and stamped, each one's own read of the present stamps fails, and another name is called for in between |

## Left out

- MemoryLife.EveryRunKeepsAgreement: operations of the cell do not overlap, and the faults shown to break the agreement (a table lost while stamps rely on it, a write cut short over stamped rows) are excluded; `EnsureKeepsAgreementIff` and `InterruptedFinishKeepsAgreementIff` say exactly when each fault breaks it, and `MemoryOverlap` takes the overlapping passes, in a process whose table exists and without write faults.
- MemoryCell.MemoryCell.EmbedCached: the provider answers in one step, so what other calls put into the cache during the wait is not seen; times are integers, so the order of entries stored in one millisecond is arbitrary.
- Providers.TruncateStable: characters are Unicode scalar values, where the source counts and cuts UTF-16 code units; a cut inside a surrogate pair does not occur.
- MemoryCell.MemoryCell.MemorySearch: full-text ranking and nearest neighbours are parameters, scores are not rounded to four digits, and the checks of its arguments are left to single branches of the source.
- MemoryCell.MemoryCell.MemoryUpsert: the normalization of its input and the rendering of warnings are not modelled.
- AccountStore.AccountStore.PasswordVerify: calls on one email follow each other; two that overlap in the password check may count as one failure. Lower-casing of emails is ASCII only, and the rehash of an old password does not check its length again.
- Handoff.EveryServeIsBacked: the handler runs to completion, so the account lookup between the session check and the serve takes no time; a revocation in that gap is not seen by the source either.
- HandoffChain.ChainsEnd: nothing else happens between the redirects of one chain, and no session expires during it.
- ModuleGraph.BuildReadsWhatItAsks: the entry is a file of a saved package, as it is for an app; the ad hoc entry of a run is not modelled. How relative and npm imports resolve, and what sealing replaces, is part of the link step, an arbitrary function of the walk.
- ModuleGraph.StubIsSavable: of what a save checks, only the manifest's presence and its exports are modelled; sizes, quotas, jobs and static relative imports are not.
- PackagePaths.LoadedUnchangedIff: texts are sequences of Unicode scalar values; lone surrogates, on which `encodeURIComponent` throws, do not occur.
- PackageStorage.PackageStorageCell.List: a limit is an integer.
- AppUrl.AppUrlMatches: the URL parser itself is not modelled; a URL is its lower-case host name, its port and its path.
- Qdrant as a vector store, whose collection several cells share, is not modelled; neither is deleting or listing vectors of a whole user.
- Chat completion, the reading of JSON out of model answers and the other provider adapters.
- `readAppConfig`, cookie serialization, the app request and response rewriting, isolate loading and time-outs.
- Password setting and clearing, API tokens, listing of sessions: each touches one row by its key.
- Raw SQL of packages beyond the reserved-table scan, and storage statistics.
- Media classification, readme choice, language labels and syntax highlighting of package files.
