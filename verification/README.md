# youtube-service in Dafny

A model of the core of youtube-service. The service polls the YouTube search API on a timer
and stores the videos it finds in a catalogue. It rotates through a pool of API keys as their
quotas run out, and serves the catalogue over HTTP, both paginated and through text search.

The model covers:

- **Key store** (`apikeys.dfy`, module `ApiKeys`): a class `KeyStore` that holds the API-key records
  in storage order. Its methods are InsertKey, GetValidKey, SetKeyToExpired, SetKeyToNotExpired and
  the revival pass UpdateExpirationOfExpiredKeys. Each method is proved against pure functions
  (`ValidKey`, `MarkFirst`, `Expired`, `Revive`, `Probes`). As written, the revival pass crashes on the
  first expired record (see Findings). The method models the pass with timestamps read correctly, and
  that corrected pass has a 24-hour cooldown and is gated by the key validator.
- **Catalogue** (`catalog.dfy`, module `Catalog`): a class `VideoCollection` whose `BulkInsert` is the
  upsert-on-insert bulk write. `GetVideos` and `SearchVideos` are pure functions. They compute the
  `$skip` offset with Go's int64 arithmetic, and `SearchVideos` filters hits by relevance score and
  sorts them by descending score.
- **Ingestion tick** (`ingestion.dfy`, module `Ingestion`): one run of FetchNewVideosAndUpdateDb.
  The method `Tick` works on the configuration, key store and catalogue objects, and is proved
  equal to the value-level `TickSpec`.
- **Configuration** (`configs.dfy`, module `Configs`): a class `Config` with InitConfig's checks for
  required values and its range corrections, plus the etag and cached-key getters and setters.
- **Integer settings** (`utils.dfy`, module `Utils`): GetEnvInt over Go's `strconv.Atoi`, with
  optional sign, ASCII digits and the int64 range.
- **HTTP handlers** (`handlers.dfy`, module `Handlers`): add_key, get_video and search_video, from
  query parameters to status code and JSON body.

The outside world enters as parameters:

- the clock is `now`, in nanoseconds;
- the key validator is `isKeyValid: string -> bool`;
- the upstream search API is `upstream: Request -> Reply`;
- the text index is `search: string -> seq<Scored>`;
- environment variables are strings, where "" stands for unset;
- driver failures of InsertKey and of the bulk write are boolean fault flags.

A Go `nil` slice is `None`, which the handlers serialise as JSON `null`.

## Model

| member | source | states |
|---|---|---|
| Utils.Atoi | youtube-service/pkg/utils/utils.go:17-21 | yields a value exactly when the string is an optionally signed run of one or more ASCII digits whose value fits in int64, and that value is the literal's positional value |
| Utils.GetEnvInt | youtube-service/pkg/utils/utils.go:11-23 | an empty value gives the default; a value that is not an int64 decimal literal gives the default; an int64 literal gives its value; the result is always the default or the literal's value |
| Utils.GetEnvIntRoundTrip | youtube-service/pkg/utils/utils.go:17-22 | for every int64 n and every default, reading the decimal rendering of n gives n |
| Utils.RenderIsLiteral | youtube-service/pkg/utils/utils.go:17-22 | the decimal rendering of any integer is a literal whose value is that integer |
| Utils.Wrap64 | youtube-service/internal/models-services/get_video-search_video/get_video-search_video.go:171 | Go's int64 arithmetic: the result is in the int64 range and congruent to the input modulo 2^64; a value in range is kept, and a value one modulus outside is shifted by 2^64 |
| Configs.NormaliseMaxVideosFetched | youtube-service/internal/configs/serviceConfig.go:50-54 | the result is in [1, 50]; values in range are kept; values out of range become 5 |
| Configs.NormalisePositive | youtube-service/internal/configs/serviceConfig.go:56-72 | for a default of at least 1: the result is at least 1, values of at least 1 are kept, and values below 1 become the default |
| Configs.MaxVideosFetchedFromEnv | youtube-service/internal/configs/serviceConfig.go:50-54 | an environment value that is an int64 literal in [1, 50] is the value the service uses |
| Configs.Config.constructor | youtube-service/internal/configs/serviceConfig.go:12-22 | a new configuration holds Go's zero values |
| Configs.Config.InitConfig | youtube-service/internal/configs/serviceConfig.go:34-78 | an empty PORT, MONGODB_URI or QUERY fails, checked in that order; otherwise the three strings are kept, every numeric setting is GetEnvInt followed by its range correction, the etag is "", and the cached key is untouched |
| Configs.Config.ReadNumericSettings | youtube-service/internal/configs/serviceConfig.go:50-72 | the four numeric settings are their environment values (or defaults) after their range corrections, and no other field changes |
| Configs.Config.SetEtag | youtube-service/internal/configs/serviceConfig.go:120-122 | GetEtag afterwards returns the value set, and only the etag field changes |
| Configs.Config.SetValidApiKey | youtube-service/internal/configs/serviceConfig.go:116-118 | GetValidApiKey afterwards returns the value set, and only the cached-key field changes |
| ApiKeys.FirstValid | youtube-service/internal/models-services/add_key/add_key.go:58-74 | the position of the first record that is not expired, with every earlier record expired; none exactly when all records are expired |
| ApiKeys.ValidKey | youtube-service/internal/models-services/add_key/add_key.go:52-77 | GetValidKey on values; its properties are in KeyStore.GetValidKey (cache first, then the first record that is not expired, else "no valid key found"), TickWithoutKey and QuotaRotationDropsExhaustedKey |
| ApiKeys.KeyIndex | youtube-service/internal/models-services/add_key/add_key.go:82 | the position of the first record carrying the key, with no earlier record carrying it; none exactly when no record carries it |
| ApiKeys.MarkFirst | youtube-service/internal/models-services/add_key/add_key.go:80-99 | the update by key: the length is kept, only the first record with the key gets the new flag and time, and an absent key changes nothing |
| ApiKeys.MarkFirstUnique | youtube-service/internal/models-services/add_key/add_key.go:80-99 | under distinct keys, the update by key changes exactly the record holding that key, and the keys stay distinct |
| ApiKeys.Expired | youtube-service/internal/models-services/add_key/add_key.go:104 | the cursor of expired records holds exactly the records that are expired |
| ApiKeys.Probes | youtube-service/internal/models-services/add_key/add_key.go:119-121 | the validator is handed only keys of candidates whose 24-hour cooldown has passed (the `&&` short-circuits) |
| ApiKeys.ReviveStep | youtube-service/internal/models-services/add_key/add_key.go:119-124 | one iteration of the revival loop keeps the number of records; which record it changes is stated in RevivePointwise and DuplicateKeyRevivalHitsWrongRecord |
| ApiKeys.Revive | youtube-service/internal/models-services/add_key/add_key.go:113-125 | the whole revival loop over a cursor keeps the number of records; what it revives is stated in RevivePointwise, CooldownGate, ReviveKeepsValidRecords and ReviveMatchesIntentWithUniqueKeys |
| ApiKeys.RevivePointwise | youtube-service/internal/models-services/add_key/add_key.go:113-125 | under distinct keys, after the loop a record is revived (not expired, stamped now) exactly when some candidate with its key passed both the cooldown and the validator; every other record is unchanged |
| ApiKeys.ReviveMatchesIntentWithUniqueKeys | youtube-service/internal/models-services/add_key/add_key.go:102-126 | under distinct keys, the revival pass as written equals the in-place revival `ReviveExpired` |
| ApiKeys.CooldownGate | youtube-service/internal/models-services/add_key/add_key.go:119-124 | an expired record is left alone while now - lastUpdated <= 24h and whenever the validator refuses; past 24h, strictly, with the validator's approval it becomes {key, not expired, now} |
| ApiKeys.ReviveKeepsValidRecords | youtube-service/internal/models-services/add_key/add_key.go:104 | under distinct keys, the revival pass never changes a record that is not expired |
| ApiKeys.ReviveExpired | youtube-service/internal/models-services/add_key/add_key.go:102-126 | the intended revival: the length is kept; records that are not expired, or still cooling down, are unchanged; an expired record whose cooldown has passed is revived in place ({key, not expired, now}) when the validator accepts its key and kept as it was when it refuses; a changed record is that record revived |
| ApiKeys.DuplicateKeyRevivalHitsWrongRecord | youtube-service/internal/models-services/add_key/add_key.go:121-123 | with two records sharing a key, the first valid and the second expired and due, the pass re-stamps the valid record and leaves the expired one expired, unlike ReviveExpired |
| ApiKeys.RevivalPassAsWritten | youtube-service/internal/models-services/add_key/add_key.go:111-120 | the pass as written, ending in a crash whenever the cursor of expired records is not empty; its properties are stated in RevivalPassCrashes |
| ApiKeys.RevivalPassCrashes | youtube-service/internal/models-services/add_key/add_key.go:102-126 | as written, the pass crashes exactly when some record is expired, no record changes, and when it finishes the intended revival would have changed nothing, so no key is ever revived |
| ApiKeys.RevivalCrashLeavesDueKeyExpired | youtube-service/internal/models-services/add_key/add_key.go:111-124 | one expired key past its cooldown with the validator approving: the pass as written crashes and the key stays expired, where ReviveExpired revives it |
| ApiKeys.KeyStore.InsertKey | youtube-service/internal/models-services/add_key/add_key.go:42-50 | appends exactly {key, not expired, now}, with no duplicate check and no other change; a driver failure changes nothing and is returned |
| ApiKeys.KeyStore.GetValidKey | youtube-service/internal/models-services/add_key/add_key.go:52-77 | a non-empty cached key is returned without looking at the records; otherwise it succeeds exactly when some record is not expired, returning the key of such a record (the first), and fails with "no valid key found" otherwise |
| ApiKeys.KeyStore.SetKeyToExpired | youtube-service/internal/models-services/add_key/add_key.go:80-88 | the records become MarkFirst(records, key, expired, now) |
| ApiKeys.KeyStore.SetKeyToNotExpired | youtube-service/internal/models-services/add_key/add_key.go:91-99 | the records become MarkFirst(records, key, not expired, now) |
| ApiKeys.KeyStore.UpdateExpirationOfExpiredKeys | youtube-service/internal/models-services/add_key/add_key.go:102-126 | the corrected pass, with each record's `lastUpdated` read as the time it holds: walking the expired records found at the start, the records end as Revive over that cursor, and the keys handed to the validator are Probes of it |
| Catalog.InsertIfAbsent | youtube-service/internal/models-services/get_video-search_video/get_video-search_video.go:55-78 | the stored documents are a prefix of the result and keep every field; each appended document comes from the batch with a uniqueId that was absent; the ids afterwards are the old ids plus the batch's ids; distinct ids stay distinct |
| Catalog.ModelFor | youtube-service/internal/models-services/get_video-search_video/get_video-search_video.go:58-68 | the write model of one video, filter on uniqueId with `$setOnInsert` of its fields; what applying it does is stated in ApplyModels and InsertIfAbsentOfPresent |
| Catalog.Apply | youtube-service/internal/models-services/get_video-search_video/get_video-search_video.go:58-68 | one upsert: a present uniqueId leaves the collection as it is, an absent one appends the document; its effect over a batch is stated in ApplyModels and InsertIfAbsent |
| Catalog.InsertIfAbsentOfPresent | youtube-service/internal/models-services/get_video-search_video/get_video-search_video.go:63-68 | a batch whose ids are all stored changes nothing, because of `$setOnInsert` with an empty `$set` |
| Catalog.InsertIfAbsentIdempotent | youtube-service/internal/models-services/get_video-search_video/get_video-search_video.go:55-78 | applying the same batch twice gives the catalogue after the first application, and the second application upserts nothing |
| Catalog.ApplyModels | youtube-service/internal/models-services/get_video-search_video/get_video-search_video.go:70-71 | applying the write models one by one gives the batch inserted if absent |
| Catalog.VideoCollection.BulkInsert | youtube-service/internal/models-services/get_video-search_video/get_video-search_video.go:55-78 | an empty batch gives an empty model list, which the driver's BulkWrite refuses, so it fails and changes nothing; otherwise on success the collection becomes InsertIfAbsent(old, batch) and the upserted count is the number of new documents; a failed write changes nothing; distinct ids stay distinct |
| Catalog.WrappedSkipExact | youtube-service/internal/models-services/get_video-search_video/get_video-search_video.go:171 | when (page-1)*perPageLimit fits in int64, the offset as computed equals it |
| Catalog.WrappedSkip | youtube-service/internal/models-services/get_video-search_video/get_video-search_video.go:171 | the offset as Go computes it, in int64; its agreement with the exact product and its sign are stated in WrappedSkipExact, PageSkipSign and HugePageWrapsIntoData |
| Catalog.PageSkipSign | youtube-service/internal/models-services/get_video-search_video/get_video-search_video.go:171 | with at least one video per page, the offset is non-negative from page 1 on and negative below it |
| Catalog.Window | youtube-service/internal/models-services/get_video-search_video/get_video-search_video.go:171-172 | skip then limit: at most `limit` items, empty past the end, and item k is the item at skip + k |
| Catalog.GetVideos | youtube-service/internal/models-services/get_video-search_video/get_video-search_video.go:165-192 | nil exactly when the computed offset is negative; otherwise the stored videos from that offset: empty when the offset is past the end, else exactly perPageLimit of them or all that remain, item k being the stored video at offset + k |
| Catalog.GetVideosPage | youtube-service/internal/models-services/get_video-search_video/get_video-search_video.go:170-172 | for page >= 1 without overflow, the result is the window of the stored sequence at (page-1)*perPageLimit, and a page past the end is empty |
| Catalog.GetVideosFirstPage | youtube-service/internal/models-services/get_video-search_video/get_video-search_video.go:170-172 | page 1 is the first perPageLimit videos in insertion order, or all of them when there are fewer |
| Catalog.GetVideosNonPositivePage | youtube-service/internal/models-services/get_video-search_video/get_video-search_video.go:171-176 | a page of 0 or below whose offset does not wrap gives a negative skip, which the store rejects, so the result is nil |
| Catalog.HugePageWrapsIntoData | youtube-service/internal/models-services/get_video-search_video/get_video-search_video.go:171 | page 7378697629483820648 with 5 per page is past any catalogue, yet its offset wraps to 3 and the result is videos 4 to 8 |
| Catalog.GetVideosUnwrapped | youtube-service/internal/models-services/get_video-search_video/get_video-search_video.go:165-192 | with the offset computed without overflow: nil exactly for pages below 1; at most perPageLimit videos; item k is the stored video at (page-1)*perPageLimit + k; a page past the end is empty |
| Catalog.GetVideosAgreesWhenNoOverflow | youtube-service/internal/models-services/get_video-search_video/get_video-search_video.go:171 | wherever the offset fits in int64, GetVideos and GetVideosUnwrapped agree |
| Catalog.Relevant | youtube-service/internal/models-services/get_video-search_video/get_video-search_video.go:221-226 | the second `$match` keeps every hit scoring at least 1, as often as it occurred, and no other hit |
| Catalog.InsertByScorePermutes | youtube-service/internal/models-services/get_video-search_video/get_video-search_video.go:228-232 | inserting a hit into the ranking adds exactly that hit and loses none |
| Catalog.InsertByScoreSorted | youtube-service/internal/models-services/get_video-search_video/get_video-search_video.go:228-232 | inserting a hit into a list sorted by non-increasing score keeps it sorted |
| Catalog.SortByScoreSorted | youtube-service/internal/models-services/get_video-search_video/get_video-search_video.go:228-232 | `$sort: {score: -1}` gives a permutation of its input in non-increasing score order |
| Catalog.SortByScore | youtube-service/internal/models-services/get_video-search_video/get_video-search_video.go:228-232 | the `$sort` stage; that it is a sorted permutation of its input is stated in SortByScoreSorted |
| Catalog.Ranked | youtube-service/internal/models-services/get_video-search_video/get_video-search_video.go:221-232 | the text hits after the `$match` on score and the `$sort`; its properties are stated in RankedProperties |
| Catalog.RankedProperties | youtube-service/internal/models-services/get_video-search_video/get_video-search_video.go:221-232 | the ranking before pagination is sorted by non-increasing score, holds only hits scoring at least 1, and holds each such hit as often as the index found it |
| Catalog.VideosOf | youtube-service/internal/models-services/get_video-search_video/get_video-search_video.go:255-265 | one video per result, in order, the video of that result |
| Catalog.SearchVideos | youtube-service/internal/models-services/get_video-search_video/get_video-search_video.go:197-266 | nil exactly when the computed offset is negative; otherwise at most perPageLimit videos |
| Catalog.SearchVideosPage | youtube-service/internal/models-services/get_video-search_video/get_video-search_video.go:233-238 | for page >= 1 without overflow, the results are the videos of the ranking's window at (page-1)*perPageLimit; every one scored at least 1, in non-increasing score order |
| Catalog.SearchWithoutRelevantHits | youtube-service/internal/models-services/get_video-search_video/get_video-search_video.go:221-238 | when no hit scores at least 1, the page is empty, not nil |
| Catalog.SearchKeepsOnlyRelevantHit | youtube-service/internal/models-services/get_video-search_video/get_video-search_video.go:221-238 | hits scoring 2.0 and 0.5 give a first page holding only the 2.0 video |
| Ingestion.RequestFor | youtube-service/internal/models-services/get_video-search_video/get_video-search_video.go:107-115 | the request carries the key, query and page size, and If-None-Match is present exactly when the etag is non-empty, carrying that etag |
| Ingestion.VideoOf | youtube-service/internal/models-services/get_video-search_video/get_video-search_video.go:143-150 | the video of one search result: id, title, description and publication time copied from the result; its use is stated in TickPage |
| Ingestion.QuotaBranch | youtube-service/internal/models-services/get_video-search_video/get_video-search_video.go:123-136 | the quota branch as written; its effect is stated in QuotaKeepsExhaustedKey and RotateAfterQuota |
| Ingestion.QuotaBranchRotating | youtube-service/internal/models-services/get_video-search_video/get_video-search_video.go:123-136 | the quota branch with the cache cleared and the quota error returned; its effect is stated in QuotaRotationDropsExhaustedKey |
| Ingestion.TickSpec | youtube-service/internal/models-services/get_video-search_video/get_video-search_video.go:82-162 | one tick on values; its behaviour per branch is stated in TickWithoutKey, TickRequest, TickNotModified, TickUpstreamError, TickPage, TickCatalogOnlyGrows and QuotaKeepsExhaustedKey, and Tick is proved equal to it |
| Ingestion.TickWithoutKey | youtube-service/internal/models-services/get_video-search_video/get_video-search_video.go:89-96 | with no cached key and every record expired, the tick fails with "no valid key found", makes no request, and changes nothing |
| Ingestion.TickRequest | youtube-service/internal/models-services/get_video-search_video/get_video-search_video.go:86-115 | a request is made exactly when a key is found; it uses the cached key when one is cached and otherwise the key of the first record that is not expired, carries the configured query and page size, and carries If-None-Match exactly when an etag is held |
| Ingestion.TickNotModified | youtube-service/internal/models-services/get_video-search_video/get_video-search_video.go:118-122 | a 304 reply returns nil and leaves catalogue, records and etag as they were; the cache only receives the key looked up when it was empty |
| Ingestion.TickUpstreamError | youtube-service/internal/models-services/get_video-search_video/get_video-search_video.go:138-139 | any other upstream error is returned, with catalogue, records and etag unchanged |
| Ingestion.TickPage | youtube-service/internal/models-services/get_video-search_video/get_video-search_video.go:142-161 | a page with no items makes the bulk write fail, so the tick returns that error and keeps catalogue and etag; a non-empty page is inserted if absent, so the catalogue's ids gain exactly the results' ids, and the reply's etag is stored; a failed insert is returned, with the catalogue and etag unchanged |
| Ingestion.TickCatalogOnlyGrows | youtube-service/internal/models-services/get_video-search_video/get_video-search_video.go:82-162 | in every branch the old catalogue is a prefix of the new one and ids stay distinct; the etag changes only on a stored, non-empty page |
| Ingestion.QuotaKeepsExhaustedKey | youtube-service/internal/models-services/get_video-search_video/get_video-search_video.go:123-136 | after a quota error on a non-empty key, whether cached before the tick or looked up by it (as on the first tick after start-up), its record is marked expired, yet the tick returns nil, that key stays cached, and the next lookup yields it again |
| Ingestion.QuotaKeepsExhaustedKeyExample | youtube-service/internal/models-services/get_video-search_video/get_video-search_video.go:123-136 | with one key "k": after the quota error its record is {k, expired, now}, and "k" is still the cached key |
| Ingestion.QuotaRotationDropsExhaustedKey | youtube-service/internal/models-services/get_video-search_video/get_video-search_video.go:123-136 | with the cache cleared before the lookup and distinct keys, the tick always ends in error: when a record is still valid, the newly cached key is never the exhausted one, belongs to a record that is not expired, and the error is the quota error; when none is left, the cache is empty and the error is "no valid key found" |
| Ingestion.ResolveKey | youtube-service/internal/models-services/get_video-search_video/get_video-search_video.go:86-98 | the key is ValidKey of the cache and records; a key found by lookup is cached; a failed lookup leaves the cache as it was |
| Ingestion.RotateAfterQuota | youtube-service/internal/models-services/get_video-search_video/get_video-search_video.go:123-136 | the cache, records and result after the quota branch are QuotaBranch of the state before it |
| Ingestion.StorePage | youtube-service/internal/models-services/get_video-search_video/get_video-search_video.go:142-161 | no results means an empty batch, which the bulk write refuses; otherwise the results become videos and are inserted if absent, and the etag is replaced only after the insert succeeds; a failed insert changes neither |
| Ingestion.Tick | youtube-service/internal/models-services/get_video-search_video/get_video-search_video.go:82-162 | the new cached key, etag, records and catalogue, the returned error and the request sent are those of TickSpec on the state before the tick, including the error and kept etag of a page with no items |
| Handlers.Query | youtube-service/internal/handlers/search_video.go:12 | a missing or empty parameter reads as the default; any other value reads as itself |
| Handlers.PageOf | youtube-service/internal/handlers/get_video.go:13 | the page is rejected exactly when the parameter (with "1" when missing) is not an int64 literal, and is otherwise the literal's value |
| Handlers.GetVideo | youtube-service/internal/handlers/get_video.go:11-25 | the get_video handler on values; its answers are stated in GetVideoResponses and GetVideoPageZero |
| Handlers.GetVideoResponses | youtube-service/internal/handlers/get_video.go:11-25 | 400 "page query param must be an integer" exactly when the page is present, non-empty and not an int64 literal; otherwise 200 with GetVideos of that page, and page 1 when the page is missing |
| Handlers.GetVideoPageZero | youtube-service/internal/handlers/get_video.go:13-20 | page "0" is not range-checked: the answer is 200 with `{videos: null}` |
| Handlers.SearchVideo | youtube-service/internal/handlers/search_video.go:11-29 | the search_video handler on values; its answers are stated in SearchVideoResponses |
| Handlers.SearchVideoResponses | youtube-service/internal/handlers/search_video.go:11-29 | a missing or empty query gives 400 "query param is required" whatever the page; then a bad page gives 400 "page query param must be an integer"; otherwise 200 with SearchVideos over that query's hits, page 1 when missing |
| Handlers.AddKeyResponse | youtube-service/internal/handlers/add_key.go:9-32 | the add_key decision on values; its statuses are stated in AddKeyStatuses and it is the response of the AddKey method |
| Handlers.AddKeyStatuses | youtube-service/internal/handlers/add_key.go:9-32 | 400 exactly for an empty key, 401 exactly for a key the validator refuses, 500 exactly when the insert fails, 200 with "api key added successfully" otherwise; every non-200 answer is an error body |
| Handlers.AddKey | youtube-service/internal/handlers/add_key.go:9-32 | the validator is consulted exactly when the key is non-empty; the response is AddKeyResponse of key, verdict and insert outcome; the store gains exactly {key, not expired, now} on a 200 and is unchanged otherwise |

## Left out

- `IsKeyValid` (add_key.go:24-39) is a call to the YouTube Channels API. It is the oracle `isKeyValid`.
- The YouTube client is not modelled: `youtube.NewService`, the `Search.List` call and its error strings. The reply comes from `upstream` and is already classified as not modified, quota exceeded, another error, or a page. A NewService failure is not modelled.
- Text-index creation and text scoring are left out. SearchVideos starts from the index's hits with their scores. Hits that tie on score keep the index's order, which the store does not promise.
- The crash of the revival pass as written ends the whole service, since the pass runs in a goroutine without `recover`. The model records it only as the `Crashed` outcome of RevivalPassAsWritten.
- Driver errors on the reads are not modelled: GetVideos' and SearchVideos' cursor and decode errors, and GetValidKey's and the revival pass's find and decode errors. The only failure of the two reads that is modelled is the store's rejection of a negative skip.
- Driver errors of SetKeyToExpired and SetKeyToNotExpired are not modelled. The callers only log them.
- The driver's refusal of an empty batch is modelled as the error `EmptyBatch`, checked before any other driver error.
- The bulk write is unordered. The model applies the models in batch order and treats a failed write as all-or-nothing; partial writes are not modelled.
- The store-assigned `_id` field of both entities is not modelled.
- Concurrency is not modelled: the tickers, goroutines and quit channels of cmd/server.go. Each tick and each revival pass runs alone, and a failed tick is only logged by its caller.
- `flag.Parse` runs after the range corrections in InitConfig, so command-line flags would bypass them. Flags are not modelled; the environment is an input record.
- `log.Fatalf` on a missing required setting is a failed `Outcome`, with the fields already set left in place.
- Logging is not modelled. Time is the `now` parameter, in nanoseconds.
- ApiKeys.CooldownGate: `time.Since` saturates at the int64 limits of a `time.Duration`. The model takes the exact difference `now - lastUpdated`.
- Catalog.GetVideos: requires a page size of at least 1. InitConfig's correction guarantees this; a `$limit` of 0 would behave differently in the store.
- Catalog.SearchVideos: its contract states size and failure only. Its content, order and relevance are stated in SearchVideosPage and RankedProperties.
- The getters of the other settings (port, query, page size and so on) are plain field reads of `Config`.

## Findings

| source | as written | input that shows it | evidently intended | confidence | as-written member | corrected member |
|---|---|---|---|---|---|---|
| youtube-service/internal/models-services/get_video-search_video/get_video-search_video.go:123-136 | on a quota error the key is marked expired, then GetValidKey is asked again while the same key is still cached, so it returns that key; the tick caches it again and returns nil | a single key "k" cached; the upstream answers quota exceeded | clear the cache before the lookup, so that the next key comes from the records and is cached for the next tick, and end the tick in the quota error (the `return err` at :136 meant the quota error; the `:=` at :129 rebinds `err` to the lookup's nil), or report that none is left | high (not executed) | Ingestion.QuotaKeepsExhaustedKey | Ingestion.QuotaRotationDropsExhaustedKey |
| youtube-service/internal/models-services/get_video-search_video/get_video-search_video.go:171 | the offset `(currPage - 1) * perPageLimit` is computed in int64 and wraps | page 7378697629483820648 with 5 per page: the offset wraps to 3 and a page far past the end returns videos 4 to 8 | pages past the end are empty | high (not executed) | Catalog.HugePageWrapsIntoData | Catalog.GetVideosUnwrapped |
| youtube-service/internal/models-services/add_key/add_key.go:120 | each expired record is decoded into a `bson.M`, where the driver's default registry yields `lastUpdated` as `primitive.DateTime`, so the assertion `.(time.Time)` panics on the first record and the goroutine crashes the process | one expired key in the store (any quota error produces one) when the pass runs | read the timestamp as the datetime it is (`.(primitive.DateTime).Time()`) so that the cooldown and the validator decide revival | high (not executed) | ApiKeys.RevivalPassCrashes | ApiKeys.ReviveExpired |
| youtube-service/internal/models-services/add_key/add_key.go:121-123 | revival updates the first record carrying the key, which need not be the expired record under examination | records [{k, valid, 0}, {k, expired, 0}] with the cooldown passed and the validator approving | revive the expired record itself | medium (not executed): it needs the same key inserted twice, which InsertKey allows, and shows only once the crash at :120 is fixed | ApiKeys.DuplicateKeyRevivalHitsWrongRecord | ApiKeys.ReviveExpired |
