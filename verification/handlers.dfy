/**
 * internal/handlers: the three HTTP endpoints, from query parameters to a
 * status code and a JSON body.
 *
 * A query parameter is `None` when absent from the URL. The catalogue and
 * the page size are the state the handlers read; the text index is the
 * `search` parameter, which maps a query to its scored hits.
 */
module Handlers {
  import opened Wrappers
  import opened Entities
  import opened Utils
  import ApiKeys
  import Catalog

  const StatusOK: int := 200
  const StatusBadRequest: int := 400
  const StatusUnauthorized: int := 401
  const StatusInternalServerError: int := 500

  const KeyRequired: string := "api_key query param is required"
  const InvalidKey: string := "invalid api key"
  const InsertKeyFailed: string := "failed to insert api key into the database"
  const KeyAdded: string := "api key added successfully"
  const QueryRequired: string := "query param is required"
  const PageNotInteger: string := "page query param must be an integer"

  /** The JSON bodies: `{error}`, `{message}`, or `{videos}` where `None` is a JSON null. */
  datatype Body =
    | ErrorBody(error: string)
    | MessageBody(message: string)
    | VideosBody(videos: Option<seq<Video>>)

  datatype Response = Response(status: int, body: Body)

  /** Fiber's `c.Query(name, default)`: the default when the parameter is absent or empty. */
  function Query(param: Option<string>, defaultValue: string): (r: string)
    ensures param.None? || param.value == "" ==> r == defaultValue
    ensures param.Some? && param.value != "" ==> r == param.value
  {
    match param
    case None => defaultValue
    case Some(v) => if v == "" then defaultValue else v
  }

  /** The page number of a request: `None` when Atoi rejects the parameter (absent means "1"). */
  function PageOf(page: Option<string>): (r: Option<Int64>)
    ensures r.None? <==> !IsInt64Literal(Query(page, "1"))
    ensures r.Some? ==> r.value == LiteralValue(Query(page, "1"))
  {
    match Atoi(Query(page, "1"))
    case None => None
    case Some(p) => Some(p)
  }

  /** get_video: parse the page and return that page of the catalogue, or 400 when it is not an integer. */
  function GetVideo(page: Option<string>, videos: seq<Video>, perPageLimit: Int64): Response
    requires perPageLimit >= 1
  {
    match PageOf(page)
    case None => Response(StatusBadRequest, ErrorBody(PageNotInteger))
    case Some(p) => Response(StatusOK, VideosBody(Catalog.GetVideos(videos, perPageLimit, p)))
  }

  /**
   * get_video answers 400 exactly when the page parameter is present,
   * non-empty and not an int64 literal; otherwise 200 with GetVideos of the
   * page, and an absent or empty page reads as page 1.
   */
  lemma GetVideoResponses(page: Option<string>, videos: seq<Video>, perPageLimit: Int64)
    requires perPageLimit >= 1
    ensures var r := GetVideo(page, videos, perPageLimit);
      && (r.status == StatusBadRequest <==> page.Some? && page.value != "" && !IsInt64Literal(page.value))
      && (r.status == StatusBadRequest ==> r.body == ErrorBody(PageNotInteger))
      && (r.status != StatusBadRequest ==> r.status == StatusOK)
      && (page.None? || page.value == "" ==> r == Response(StatusOK, VideosBody(Catalog.GetVideos(videos, perPageLimit, 1))))
      && (page.Some? && IsInt64Literal(page.value) ==>
            r == Response(StatusOK, VideosBody(Catalog.GetVideos(videos, perPageLimit, LiteralValue(page.value)))))
  {
    assert IsInt64Literal("1") by {
      assert Unsigned("1") == "1";
      assert "1"[..0] == [];
    }
  }

  /** No lower bound on the page: "0" reaches GetVideos, whose negative skip the store rejects, and the body is `{videos: null}`. */
  lemma GetVideoPageZero(videos: seq<Video>, perPageLimit: Int64)
    requires perPageLimit >= 1
    ensures GetVideo(Some("0"), videos, perPageLimit) == Response(StatusOK, VideosBody(None))
  {
    assert Unsigned("0") == "0";
    assert "0"[..0] == [];
    assert LiteralValue("0") == 0;
    assert Catalog.PageSkip(0, perPageLimit) == -perPageLimit;
    Catalog.GetVideosNonPositivePage(videos, perPageLimit, 0);
  }

  /** search_video: the query is required first, then the page is parsed, then the ranked page is returned. */
  function SearchVideo(query: Option<string>, page: Option<string>, search: string -> seq<Catalog.Scored>,
                       perPageLimit: Int64): Response
    requires perPageLimit >= 1
  {
    var q := Query(query, "");
    if q == "" then Response(StatusBadRequest, ErrorBody(QueryRequired))
    else
      match PageOf(page)
      case None => Response(StatusBadRequest, ErrorBody(PageNotInteger))
      case Some(p) => Response(StatusOK, VideosBody(Catalog.SearchVideos(search(q), perPageLimit, p)))
  }

  /**
   * search_video: an absent or empty query gives 400 "query param is
   * required" whatever the page; with a query, a page that is not an int64
   * literal gives 400 "page query param must be an integer"; otherwise 200
   * with SearchVideos over the hits for that query, page 1 when absent.
   */
  lemma SearchVideoResponses(query: Option<string>, page: Option<string>, search: string -> seq<Catalog.Scored>,
                             perPageLimit: Int64)
    requires perPageLimit >= 1
    ensures var r := SearchVideo(query, page, search, perPageLimit);
      && (query.None? || query.value == "" ==> r == Response(StatusBadRequest, ErrorBody(QueryRequired)))
      && (query.Some? && query.value != "" && page.Some? && page.value != "" && !IsInt64Literal(page.value) ==>
            r == Response(StatusBadRequest, ErrorBody(PageNotInteger)))
      && (query.Some? && query.value != "" && (page.None? || page.value == "") ==>
            r == Response(StatusOK, VideosBody(Catalog.SearchVideos(search(query.value), perPageLimit, 1))))
      && (query.Some? && query.value != "" && page.Some? && IsInt64Literal(page.value) ==>
            r == Response(StatusOK, VideosBody(Catalog.SearchVideos(search(query.value), perPageLimit, LiteralValue(page.value)))))
      && (r.status == StatusOK <==> query.Some? && query.value != "" && IsInt64Literal(Query(page, "1")))
  {
    assert IsInt64Literal("1") by {
      assert Unsigned("1") == "1";
      assert "1"[..0] == [];
    }
  }

  /** The add_key decision on values: presence, then the validator's verdict, then the insert. */
  function AddKeyResponse(key: string, valid: bool, insertFailed: bool): Response
  {
    if key == "" then Response(StatusBadRequest, ErrorBody(KeyRequired))
    else if !valid then Response(StatusUnauthorized, ErrorBody(InvalidKey))
    else if insertFailed then Response(StatusInternalServerError, ErrorBody(InsertKeyFailed))
    else Response(StatusOK, MessageBody(KeyAdded))
  }

  /** Each status of add_key and the one condition that produces it. */
  lemma AddKeyStatuses(key: string, valid: bool, insertFailed: bool)
    ensures var r := AddKeyResponse(key, valid, insertFailed);
      && (r.status == StatusBadRequest <==> key == "")
      && (r.status == StatusUnauthorized <==> key != "" && !valid)
      && (r.status == StatusInternalServerError <==> key != "" && valid && insertFailed)
      && (r.status == StatusOK <==> key != "" && valid && !insertFailed)
      && (r.status == StatusOK ==> r.body == MessageBody(KeyAdded))
      && (r.status != StatusOK ==> r.body.ErrorBody?)
  {
  }

  /**
   * add_key: an absent or empty key is refused before the validator is
   * consulted; a key the validator refuses is not stored; otherwise the key
   * is inserted, and the store gains exactly the record {key, not expired,
   * now} when the response is 200.
   */
  method AddKey(store: ApiKeys.KeyStore, keyParam: Option<string>, isKeyValid: string -> bool, now: int, insertFault: bool)
    returns (resp: Response, validatorConsulted: bool)
    modifies store
    ensures var key := Query(keyParam, "");
      && validatorConsulted == (key != "")
      && resp == AddKeyResponse(key, key != "" && isKeyValid(key), insertFault)
      && store.records == if resp.status == StatusOK then old(store.records) + [ApiKey(key, false, now)] else old(store.records)
  {
    var key := Query(keyParam, "");
    if key == "" {
      return Response(StatusBadRequest, ErrorBody(KeyRequired)), false;
    }
    validatorConsulted := true;
    if !isKeyValid(key) {
      return Response(StatusUnauthorized, ErrorBody(InvalidKey)), validatorConsulted;
    }
    var inserted := store.InsertKey(key, now, insertFault);
    if inserted.Fail? {
      return Response(StatusInternalServerError, ErrorBody(InsertKeyFailed)), validatorConsulted;
    }
    resp := Response(StatusOK, MessageBody(KeyAdded));
  }
}
