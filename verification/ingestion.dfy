/**
 * internal/models-services/get_video-search_video, the ingestion side:
 * FetchNewVideosAndUpdateDb, one tick of the background poller.
 *
 * The upstream search API is the `upstream` parameter: it maps the request
 * the tick builds to the reply it gets. Replies are told apart by kind (not
 * modified, quota exceeded, any other error, a page of results); the text
 * matching the source does on error messages is not modelled. A failed bulk
 * write is the `insertFault` flag; a page with no items makes the bulk write
 * fail whatever the flag says, since the driver refuses an empty batch.
 */
module Ingestion {
  import opened Wrappers
  import opened Entities
  import Configs
  import ApiKeys
  import Catalog

  const OrderBy: string := "date"
  const ResultType: string := "video"
  const PublishedAfter: string := "2022-01-01T00:00:00Z"

  /** The search call: key, query text, page size, fixed options and the optional If-None-Match etag. */
  datatype Request = Request(
    key: string,
    query: string,
    maxResults: int,
    order: string,
    resultType: string,
    publishedAfter: string,
    ifNoneMatch: Option<string>)

  /** One search result: the video id and the snippet fields the tick keeps. */
  datatype SearchResult = SearchResult(videoId: string, title: string, description: string, publishedAt: string)

  /** What the upstream answers. */
  datatype Reply =
    | NotModified
    | QuotaExceeded
    | OtherError(message: string)
    | Page(items: seq<SearchResult>, etag: string)

  datatype TickError =
    | NoKey(keyError: ApiKeys.KeyError)
    | UpstreamFailed(message: string)
    | InsertFailed(storeError: Catalog.StoreError)
    | QuotaExhausted

  /** What the tick reads and writes: the cached key, the etag, the key records and the catalogue. */
  datatype IngestState = IngestState(cachedKey: string, etag: string, keys: seq<ApiKey>, catalog: seq<Video>)

  /** The new state, the error the tick returns, and the request it sent, if any. */
  datatype TickOutcome = TickOutcome(state: IngestState, result: Outcome<TickError>, request: Option<Request>)

  /** The state after the quota branch and what the tick returns from it. */
  datatype QuotaOutcome = QuotaOutcome(cachedKey: string, keys: seq<ApiKey>, result: Outcome<TickError>)

  function VideoOf(item: SearchResult): Video
  {
    Video(item.videoId, item.title, item.description, item.publishedAt)
  }

  /** The request the tick sends: If-None-Match is set exactly when an etag is held. */
  function RequestFor(key: string, query: string, maxResults: int, etag: string): (r: Request)
    ensures r.key == key && r.query == query && r.maxResults == maxResults
    ensures r.ifNoneMatch.Some? <==> etag != ""
    ensures r.ifNoneMatch.Some? ==> r.ifNoneMatch.value == etag
  {
    Request(key, query, maxResults, OrderBy, ResultType, PublishedAfter, if etag != "" then Some(etag) else None)
  }

  /**
   * The quota branch as the source has it: the key's record is marked
   * expired, then GetValidKey is asked again while the exhausted key is still
   * cached, so it hands that same key back, it is cached again and the tick
   * returns nil.
   */
  function QuotaBranch(cachedKey: string, keys: seq<ApiKey>, key: string, now: int): QuotaOutcome
  {
    var marked := ApiKeys.MarkFirst(keys, key, true, now);
    match ApiKeys.ValidKey(cachedKey, marked)
    case Failure(e) => QuotaOutcome(cachedKey, marked, Fail(NoKey(e)))
    case Success(next) => QuotaOutcome(next, marked, Pass)
  }

  /**
   * The quota branch with the cache cleared before the lookup: the next key
   * comes from the records and is cached for the next tick, and this tick
   * ends in the quota error; with no key left the cache stays empty and the
   * tick reports that no valid key is found.
   */
  function QuotaBranchRotating(keys: seq<ApiKey>, key: string, now: int): QuotaOutcome
  {
    var marked := ApiKeys.MarkFirst(keys, key, true, now);
    match ApiKeys.ValidKey("", marked)
    case Failure(e) => QuotaOutcome("", marked, Fail(NoKey(e)))
    case Success(next) => QuotaOutcome(next, marked, Fail(QuotaExhausted))
  }

  /** One tick, on values: the reference for the `Tick` method. */
  function TickSpec(s: IngestState, query: string, maxResults: int, upstream: Request -> Reply,
                    now: int, insertFault: bool): TickOutcome
  {
    match ApiKeys.ValidKey(s.cachedKey, s.keys)
    case Failure(e) => TickOutcome(s, Fail(NoKey(e)), None)
    case Success(key) =>
      var cached := s.(cachedKey := key);
      var req := RequestFor(key, query, maxResults, s.etag);
      match upstream(req)
      case NotModified => TickOutcome(cached, Pass, Some(req))
      case QuotaExceeded =>
        var q := QuotaBranch(key, s.keys, key, now);
        TickOutcome(cached.(cachedKey := q.cachedKey, keys := q.keys), q.result, Some(req))
      case OtherError(m) => TickOutcome(cached, Fail(UpstreamFailed(m)), Some(req))
      case Page(items, etag) =>
        if items == [] then TickOutcome(cached, Fail(InsertFailed(Catalog.EmptyBatch)), Some(req))
        else if insertFault then TickOutcome(cached, Fail(InsertFailed(Catalog.BulkWriteFailed)), Some(req))
        else
          var videos := seq(|items|, i requires 0 <= i < |items| => VideoOf(items[i]));
          TickOutcome(cached.(catalog := Catalog.InsertIfAbsent(s.catalog, videos), etag := etag), Pass, Some(req))
  }

  /** With no key cached and every record expired, the tick fails before any request and changes nothing. */
  lemma TickWithoutKey(s: IngestState, query: string, maxResults: int, upstream: Request -> Reply, now: int, insertFault: bool)
    requires s.cachedKey == "" && forall j :: 0 <= j < |s.keys| ==> s.keys[j].isExpired
    ensures TickSpec(s, query, maxResults, upstream, now, insertFault) == TickOutcome(s, Fail(NoKey(ApiKeys.NoValidKey)), None)
  {
  }

  /**
   * Every request carries the configured query and page size, uses the
   * cached key when one is cached, and carries If-None-Match exactly when
   * an etag is held.
   */
  lemma TickRequest(s: IngestState, query: string, maxResults: int, upstream: Request -> Reply, now: int, insertFault: bool)
    ensures var o := TickSpec(s, query, maxResults, upstream, now, insertFault);
      && (o.request.Some? <==> ApiKeys.ValidKey(s.cachedKey, s.keys).Success?)
      && (o.request.Some? ==> o.request.value.query == query && o.request.value.maxResults == maxResults)
      && (o.request.Some? && s.cachedKey != "" ==> o.request.value.key == s.cachedKey)
      && (o.request.Some? && s.cachedKey == "" ==>
            ApiKeys.FirstValid(s.keys).Some? && o.request.value.key == s.keys[ApiKeys.FirstValid(s.keys).value].key)
      && (o.request.Some? ==> (o.request.value.ifNoneMatch == Some(s.etag) <==> s.etag != ""))
      && (o.request.Some? ==> (o.request.value.ifNoneMatch == None <==> s.etag == ""))
  {
  }

  /**
   * An unchanged result set (304) returns nil; the only change is the key
   * cache, which is set when it was empty and otherwise left as it was.
   */
  lemma TickNotModified(s: IngestState, key: string, query: string, maxResults: int, upstream: Request -> Reply,
                        now: int, insertFault: bool)
    requires ApiKeys.ValidKey(s.cachedKey, s.keys) == Success(key)
    requires upstream(RequestFor(key, query, maxResults, s.etag)) == NotModified
    ensures var o := TickSpec(s, query, maxResults, upstream, now, insertFault);
      && o.result == Pass && o.state == s.(cachedKey := key)
      && (s.cachedKey != "" ==> o.state == s)
  {
  }

  /** Any other upstream error is returned, and the catalogue, the records and the etag stay as they were. */
  lemma TickUpstreamError(s: IngestState, key: string, query: string, maxResults: int, upstream: Request -> Reply,
                          now: int, insertFault: bool)
    requires ApiKeys.ValidKey(s.cachedKey, s.keys) == Success(key)
    requires upstream(RequestFor(key, query, maxResults, s.etag)).OtherError?
    ensures var o := TickSpec(s, query, maxResults, upstream, now, insertFault);
      && o.result == Fail(UpstreamFailed(upstream(RequestFor(key, query, maxResults, s.etag)).message))
      && o.state == s.(cachedKey := key)
  {
  }

  /**
   * A page of results is inserted if absent and its etag is kept only when
   * the write succeeds; a page with no items is refused by the bulk write,
   * and a failed write leaves catalogue and etag as they were. The key
   * records are not touched either way.
   */
  lemma TickPage(s: IngestState, key: string, query: string, maxResults: int, upstream: Request -> Reply,
                 now: int, insertFault: bool)
    requires ApiKeys.ValidKey(s.cachedKey, s.keys) == Success(key)
    requires upstream(RequestFor(key, query, maxResults, s.etag)).Page?
    ensures var reply := upstream(RequestFor(key, query, maxResults, s.etag));
            var o := TickSpec(s, query, maxResults, upstream, now, insertFault);
      && (reply.items == [] ==> o.result == Fail(InsertFailed(Catalog.EmptyBatch)) && o.state == s.(cachedKey := key))
      && (reply.items != [] && insertFault ==>
            o.result == Fail(InsertFailed(Catalog.BulkWriteFailed)) && o.state == s.(cachedKey := key))
      && (reply.items != [] && !insertFault ==> o.result == Pass && o.state.etag == reply.etag && o.state.keys == s.keys)
      && (reply.items != [] && !insertFault ==>
            Catalog.Ids(o.state.catalog) == Catalog.Ids(s.catalog) + set item | item in reply.items :: item.videoId)
  {
    var reply := upstream(RequestFor(key, query, maxResults, s.etag));
    var videos := seq(|reply.items|, i requires 0 <= i < |reply.items| => VideoOf(reply.items[i]));
    assert Catalog.Ids(videos) == set item | item in reply.items :: item.videoId by {
      forall id | id in Catalog.Ids(videos) ensures id in set item | item in reply.items :: item.videoId {
        var v :| v in videos && v.uniqueId == id;
        var i :| 0 <= i < |videos| && videos[i] == v;
        assert reply.items[i] in reply.items;
      }
      forall id | id in (set item | item in reply.items :: item.videoId) ensures id in Catalog.Ids(videos) {
        var item :| item in reply.items && item.videoId == id;
        var i :| 0 <= i < |reply.items| && reply.items[i] == item;
        assert videos[i] in videos;
      }
    }
  }

  /**
   * Whatever happens, the old catalogue is a prefix of the new one and
   * distinct uniqueIds stay distinct; the etag changes only on a stored page.
   */
  lemma TickCatalogOnlyGrows(s: IngestState, query: string, maxResults: int, upstream: Request -> Reply, now: int, insertFault: bool)
    ensures var o := TickSpec(s, query, maxResults, upstream, now, insertFault);
      && |o.state.catalog| >= |s.catalog| && o.state.catalog[..|s.catalog|] == s.catalog
      && (Catalog.UniqueIds(s.catalog) ==> Catalog.UniqueIds(o.state.catalog))
      && (o.state.etag != s.etag ==>
            o.result == Pass && o.request.Some? && upstream(o.request.value).Page? && upstream(o.request.value).items != [])
  {
  }

  /**
   * The exhausted key stays cached: after a quota error on a non-empty key,
   * whether it was cached before the tick or looked up and cached by it,
   * the key's record is marked expired, yet the tick returns nil with that
   * key cached, and the lookup the next tick makes yields it again.
   */
  lemma QuotaKeepsExhaustedKey(s: IngestState, key: string, query: string, maxResults: int, upstream: Request -> Reply,
                               now: int, insertFault: bool)
    requires ApiKeys.ValidKey(s.cachedKey, s.keys) == Success(key) && key != ""
    requires upstream(RequestFor(key, query, maxResults, s.etag)) == QuotaExceeded
    ensures var o := TickSpec(s, query, maxResults, upstream, now, insertFault);
      && o.result == Pass
      && o.state.cachedKey == key
      && o.state.keys == ApiKeys.MarkFirst(s.keys, key, true, now)
      && (forall j :: 0 <= j < |o.state.keys| && o.state.keys[j].key == key && ApiKeys.KeyIndex(s.keys, key) == Some(j) ==>
            o.state.keys[j].isExpired)
      && ApiKeys.ValidKey(o.state.cachedKey, o.state.keys) == Success(key)
  {
  }

  /** A concrete run: one key "k", quota exceeded; the record is expired but "k" is still the key handed out. */
  lemma QuotaKeepsExhaustedKeyExample(upstream: Request -> Reply)
    requires upstream(RequestFor("k", "cricket", 5, "")) == QuotaExceeded
    ensures var o := TickSpec(IngestState("k", "", [ApiKey("k", false, 0)], []), "cricket", 5, upstream, 7, false);
      o.state.keys == [ApiKey("k", true, 7)] && o.state.cachedKey == "k" && o.result == Pass
  {
    var keys := [ApiKey("k", false, 0)];
    assert ApiKeys.KeyIndex(keys, "k") == Some(0);
  }

  /**
   * With the cache cleared first, a quota error moves on and the tick ends
   * in error: under distinct keys, when a record is still valid the newly
   * cached key is never the exhausted one, it belongs to a record that is
   * not expired, and the error is the quota error; with none left the cache
   * is empty and the error is NoValidKey.
   */
  lemma QuotaRotationDropsExhaustedKey(keys: seq<ApiKey>, key: string, now: int)
    requires ApiKeys.UniqueKeys(keys)
    ensures var q := QuotaBranchRotating(keys, key, now);
      && q.keys == ApiKeys.MarkFirst(keys, key, true, now)
      && q.result.Fail?
      && (q.result == Fail(QuotaExhausted) <==> exists j :: 0 <= j < |q.keys| && !q.keys[j].isExpired)
      && (q.result == Fail(QuotaExhausted) ==> q.cachedKey != key)
      && (q.result == Fail(QuotaExhausted) ==> exists j :: 0 <= j < |q.keys| && !q.keys[j].isExpired && q.keys[j].key == q.cachedKey)
      && (q.result != Fail(QuotaExhausted) ==> q.cachedKey == "" && q.result == Fail(NoKey(ApiKeys.NoValidKey)))
  {
    var marked := ApiKeys.MarkFirst(keys, key, true, now);
    match ApiKeys.FirstValid(marked)
    case None =>
    case Some(i) =>
      assert !marked[i].isExpired;
      match ApiKeys.KeyIndex(keys, key)
      case None =>
        assert marked[i] == keys[i];
      case Some(m) =>
        if i != m {
          assert marked[i] == keys[i];
          assert keys[m].key == key;
        }
  }

  function Snapshot(cfg: Configs.Config, store: ApiKeys.KeyStore, catalog: Catalog.VideoCollection): IngestState
    reads cfg, store, catalog
  {
    IngestState(cfg.validApiKey, cfg.etag, store.records, catalog.videos)
  }

  /**
   * FetchNewVideosAndUpdateDb: the new cached key, etag, key records and
   * catalogue, the returned error and the request sent are those of
   * TickSpec on the state before the call.
   */
  method Tick(cfg: Configs.Config, store: ApiKeys.KeyStore, catalog: Catalog.VideoCollection,
              upstream: Request -> Reply, now: int, insertFault: bool)
    returns (result: Outcome<TickError>, request: Option<Request>)
    requires catalog.Valid()
    modifies cfg`validApiKey, cfg`etag, store, catalog
    ensures catalog.Valid()
    ensures TickOutcome(Snapshot(cfg, store, catalog), result, request)
            == TickSpec(old(Snapshot(cfg, store, catalog)), cfg.query, cfg.maxVideosFetched, upstream, now, insertFault)
  {
    var found := ResolveKey(cfg, store);
    if found.Failure? {
      return Fail(NoKey(found.error)), None;
    }
    var key := found.value;
    var req := RequestFor(key, cfg.query, cfg.maxVideosFetched, cfg.GetEtag());
    request := Some(req);
    match upstream(req)
    case NotModified =>
      result := Pass;
    case QuotaExceeded =>
      result := RotateAfterQuota(cfg, store, key, now);
    case OtherError(m) =>
      result := Fail(UpstreamFailed(m));
    case Page(items, etag) =>
      result := StorePage(cfg, catalog, items, etag, insertFault);
  }

  /**
   * The key step of the tick: the cached key when one is cached, otherwise
   * GetValidKey's answer, which is then cached. A failed lookup leaves the
   * cache empty.
   */
  method ResolveKey(cfg: Configs.Config, store: ApiKeys.KeyStore) returns (r: Result<string, ApiKeys.KeyError>)
    modifies cfg`validApiKey
    ensures r == ApiKeys.ValidKey(old(cfg.validApiKey), store.records)
    ensures cfg.validApiKey == if r.Success? then r.value else old(cfg.validApiKey)
  {
    var key := cfg.GetValidApiKey();
    if key != "" {
      return Success(key);
    }
    r := store.GetValidKey(cfg);
    if r.Success? {
      cfg.SetValidApiKey(r.value);
    }
  }

  /**
   * The success branch of the tick: the results become videos, the batch is
   * inserted if absent, and only when that write succeeds is the reply's
   * etag kept; no results means an empty batch, which the write refuses.
   */
  method StorePage(cfg: Configs.Config, catalog: Catalog.VideoCollection, items: seq<SearchResult>, etag: string, insertFault: bool)
    returns (result: Outcome<TickError>)
    requires catalog.Valid()
    modifies cfg`etag, catalog
    ensures catalog.Valid()
    ensures items == [] ==>
      result == Fail(InsertFailed(Catalog.EmptyBatch)) && catalog.videos == old(catalog.videos) && cfg.etag == old(cfg.etag)
    ensures items != [] && insertFault ==>
      result == Fail(InsertFailed(Catalog.BulkWriteFailed)) && catalog.videos == old(catalog.videos) && cfg.etag == old(cfg.etag)
    ensures items != [] && !insertFault ==> result == Pass && cfg.etag == etag
    ensures items != [] && !insertFault ==> catalog.videos == Catalog.InsertIfAbsent(old(catalog.videos),
                                 seq(|items|, i requires 0 <= i < |items| => VideoOf(items[i])))
  {
    var videos: seq<Video> := [];
    for i := 0 to |items|
      invariant |videos| == i
      invariant forall j :: 0 <= j < i ==> videos[j] == VideoOf(items[j])
    {
      videos := videos + [VideoOf(items[i])];
    }
    assert videos == seq(|items|, i requires 0 <= i < |items| => VideoOf(items[i]));
    var inserted := catalog.BulkInsert(videos, insertFault);
    if inserted.Failure? {
      return Fail(InsertFailed(inserted.error));
    }
    cfg.SetEtag(etag);
    return Pass;
  }

  /** The quota branch of the tick, on the objects: QuotaBranch on the state before it. */
  method RotateAfterQuota(cfg: Configs.Config, store: ApiKeys.KeyStore, key: string, now: int)
    returns (result: Outcome<TickError>)
    requires cfg.validApiKey == key
    modifies cfg`validApiKey, store
    ensures QuotaOutcome(cfg.validApiKey, store.records, result) == QuotaBranch(key, old(store.records), key, now)
  {
    store.SetKeyToExpired(key, now);
    var next := store.GetValidKey(cfg);
    if next.Failure? {
      return Fail(NoKey(next.error));
    }
    cfg.SetValidApiKey(next.value);
    return Pass;
  }
}
