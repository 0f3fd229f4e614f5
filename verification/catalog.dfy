/**
 * internal/models-services/get_video-search_video, the catalogue side:
 * the collection of videos, the deduplicating bulk insert, and the two
 * paginated reads.
 *
 * The collection is a sequence in storage (insertion) order. Text matching
 * and scoring belong to the store's text index and are not modelled: a
 * search starts from the hits the index returns, each with its score.
 */
module Catalog {
  import opened Wrappers
  import opened Entities
  import opened Utils

  /**
   * A failed bulk write: the driver refuses an empty list of write models
   * before contacting the store (its ErrEmptySlice), and any other driver
   * error is BulkWriteFailed.
   */
  datatype StoreError = EmptyBatch | BulkWriteFailed

  /** The uniqueIds present in a collection or a batch. */
  function Ids(videos: seq<Video>): set<string>
  {
    set v | v in videos :: v.uniqueId
  }

  /** At most one stored document per uniqueId. */
  predicate UniqueIds(videos: seq<Video>)
  {
    forall i, j :: 0 <= i < j < |videos| ==> videos[i].uniqueId != videos[j].uniqueId
  }

  /** The document body `$setOnInsert` writes. */
  datatype Fields = Fields(title: string, description: string, publishedAt: string)

  /** `UpdateOne({uniqueId: id}, {$setOnInsert: fields, $set: {}})` with upsert on. */
  datatype WriteModel = UpsertOnInsert(uniqueId: string, onInsert: Fields)

  /** The write model bulkInsert builds for one video. */
  function ModelFor(v: Video): WriteModel
  {
    UpsertOnInsert(v.uniqueId, Fields(v.title, v.description, v.publishedAt))
  }

  /**
   * Applying one upsert: a matching document is left exactly as it is (the
   * `$set` is empty); with no match a new document is appended.
   */
  function Apply(videos: seq<Video>, m: WriteModel): seq<Video>
  {
    if m.uniqueId in Ids(videos) then videos
    else videos + [Video(m.uniqueId, m.onInsert.title, m.onInsert.description, m.onInsert.publishedAt)]
  }

  lemma IdsAppend(videos: seq<Video>, v: Video)
    ensures Ids(videos + [v]) == Ids(videos) + {v.uniqueId}
  {
    var s := videos + [v];
    forall id | id in Ids(s) ensures id in Ids(videos) + {v.uniqueId} {
      var w :| w in s && w.uniqueId == id;
      if w != v {
        assert w in videos;
      }
    }
    forall id | id in Ids(videos) ensures id in Ids(s) {
      var w :| w in videos && w.uniqueId == id;
      assert w in s;
    }
    assert v in s;
  }

  /**
   * The batch applied in order, insert-if-absent: the old documents are a
   * prefix of the result and keep every field, each appended document comes
   * from the batch with a uniqueId that was absent, every uniqueId of the
   * batch ends up present, and distinct ids stay distinct.
   */
  function InsertIfAbsent(videos: seq<Video>, batch: seq<Video>): (r: seq<Video>)
    ensures |r| >= |videos| && r[..|videos|] == videos
    ensures forall k :: |videos| <= k < |r| ==> r[k] in batch && r[k].uniqueId !in Ids(videos)
    ensures Ids(r) == Ids(videos) + Ids(batch)
    ensures UniqueIds(videos) ==> UniqueIds(r)
  {
    if batch == [] then videos
    else
      var front := batch[..|batch| - 1];
      var v := batch[|batch| - 1];
      var prev := InsertIfAbsent(videos, front);
      assert batch == front + [v];
      InsertStep(videos, front, v, prev);
      Apply(prev, ModelFor(v))
  }

  /** One more video of the batch keeps the four properties of InsertIfAbsent. */
  lemma InsertStep(videos: seq<Video>, front: seq<Video>, v: Video, prev: seq<Video>)
    requires |prev| >= |videos| && prev[..|videos|] == videos
    requires forall k :: |videos| <= k < |prev| ==> prev[k] in front && prev[k].uniqueId !in Ids(videos)
    requires Ids(prev) == Ids(videos) + Ids(front)
    requires UniqueIds(videos) ==> UniqueIds(prev)
    ensures var r := Apply(prev, ModelFor(v));
      && |r| >= |videos| && r[..|videos|] == videos
      && (forall k :: |videos| <= k < |r| ==> r[k] in front + [v] && r[k].uniqueId !in Ids(videos))
      && Ids(r) == Ids(videos) + Ids(front + [v])
      && (UniqueIds(videos) ==> UniqueIds(r))
  {
    IdsAppend(front, v);
    if v.uniqueId !in Ids(prev) {
      var r := prev + [v];
      assert Apply(prev, ModelFor(v)) == r;
      IdsAppend(prev, v);
      assert r[..|videos|] == prev[..|videos|];
      forall k | |videos| <= k < |r| ensures r[k] in front + [v] && r[k].uniqueId !in Ids(videos) {
        if k < |prev| {
          assert r[k] == prev[k];
        }
      }
      if UniqueIds(prev) {
        forall i, j | 0 <= i < j < |r| ensures r[i].uniqueId != r[j].uniqueId {
          if j == |prev| {
            assert r[i] == prev[i] && prev[i] in prev;
          }
        }
      }
    }
  }

  /** A batch whose ids are all stored already changes nothing. */
  lemma {:induction false} InsertIfAbsentOfPresent(videos: seq<Video>, batch: seq<Video>)
    requires Ids(batch) <= Ids(videos)
    ensures InsertIfAbsent(videos, batch) == videos
  {
    if batch != [] {
      var front := batch[..|batch| - 1];
      var v := batch[|batch| - 1];
      assert batch == front + [v];
      IdsAppend(front, v);
      InsertIfAbsentOfPresent(videos, front);
    }
  }

  /** Idempotence: inserting the same batch again leaves the collection as the first insert did, and upserts nothing. */
  lemma InsertIfAbsentIdempotent(videos: seq<Video>, batch: seq<Video>)
    ensures InsertIfAbsent(InsertIfAbsent(videos, batch), batch) == InsertIfAbsent(videos, batch)
    ensures |InsertIfAbsent(InsertIfAbsent(videos, batch), batch)| - |InsertIfAbsent(videos, batch)| == 0
  {
    InsertIfAbsentOfPresent(InsertIfAbsent(videos, batch), batch);
  }

  /** The write of a bulk request's models, one after another, on a snapshot of the collection. */
  method ApplyModels(videos: seq<Video>, batch: seq<Video>, models: seq<WriteModel>) returns (stored: seq<Video>)
    requires |models| == |batch|
    requires forall j :: 0 <= j < |batch| ==> models[j] == ModelFor(batch[j])
    ensures stored == InsertIfAbsent(videos, batch)
  {
    stored := videos;
    for i := 0 to |models|
      invariant stored == InsertIfAbsent(videos, batch[..i])
    {
      assert batch[..i + 1][..i] == batch[..i];
      stored := Apply(stored, models[i]);
    }
    assert batch[..|models|] == batch;
  }

  class VideoCollection {
    var videos: seq<Video>

    ghost predicate Valid()
      reads this
    {
      UniqueIds(videos)
    }

    constructor ()
      ensures Valid() && videos == []
    {
      videos := [];
    }

    /**
     * bulkInsert: one upsert-on-insert model per video, then one unordered
     * bulk write. An empty batch gives an empty model list, which the driver
     * refuses; on success the collection is the batch inserted if absent and
     * `r` is the upserted count; a failed write changes nothing.
     */
    method BulkInsert(batch: seq<Video>, fault: bool) returns (r: Result<nat, StoreError>)
      requires Valid()
      modifies this
      ensures Valid()
      ensures batch == [] ==> r == Failure(EmptyBatch) && videos == old(videos)
      ensures batch != [] && fault ==> r == Failure(BulkWriteFailed) && videos == old(videos)
      ensures batch != [] && !fault ==> videos == InsertIfAbsent(old(videos), batch)
      ensures batch != [] && !fault ==> r == Success(|videos| - |old(videos)|)
    {
      var models: seq<WriteModel> := [];
      for i := 0 to |batch|
        invariant |models| == i
        invariant forall j :: 0 <= j < i ==> models[j] == ModelFor(batch[j])
      {
        models := models + [ModelFor(batch[i])];
      }
      if models == [] {
        return Failure(EmptyBatch);
      }
      if fault {
        return Failure(BulkWriteFailed);
      }
      var stored := ApplyModels(videos, batch, models);
      var upserted := |stored| - |videos|;
      videos := stored;
      return Success(upserted);
    }
  }

  /** The skip offset as the source computes it: `(currPage - 1) * perPageLimit` in int64 arithmetic. */
  function WrappedSkip(page: Int64, perPageLimit: Int64): Int64
  {
    Wrap64(Wrap64(page - 1) * perPageLimit)
  }

  /** The offset the pagination means: the same product with no width limit. */
  function PageSkip(page: int, perPageLimit: int): int
  {
    (page - 1) * perPageLimit
  }

  /** Where the product fits in int64, the wrapped offset is the intended one. */
  lemma WrappedSkipExact(page: Int64, perPageLimit: Int64)
    requires page > Int64Min && InInt64(PageSkip(page, perPageLimit))
    ensures WrappedSkip(page, perPageLimit) == PageSkip(page, perPageLimit)
  {
    var p := page - 1;
    assert Wrap64(p) == p;
    var s := p * perPageLimit;
    assert s == PageSkip(page, perPageLimit);
    assert Wrap64(s) == s;
  }

  /** With at least one per page, the offset has the sign of page - 1. */
  lemma PageSkipSign(page: int, perPageLimit: int)
    requires perPageLimit >= 1
    ensures page >= 1 ==> PageSkip(page, perPageLimit) >= 0
    ensures page < 1 ==> PageSkip(page, perPageLimit) <= page - 1
  {
    if page < 1 {
      assert (page - 1) * perPageLimit <= (page - 1) * 1;
    }
  }

  /** `$skip` then `$limit` over a sequence. */
  function Window<T>(s: seq<T>, skip: nat, limit: nat): (r: seq<T>)
    ensures |r| <= limit
    ensures skip >= |s| ==> r == []
    ensures skip < |s| ==> |r| == if skip + limit <= |s| then limit else |s| - skip
    ensures forall k :: 0 <= k < |r| ==> skip + k < |s| && r[k] == s[skip + k]
  {
    if skip >= |s| then [] else s[skip..if skip + limit <= |s| then skip + limit else |s|]
  }

  /**
   * GetVideos: the stored videos from the page's offset, at most
   * perPageLimit of them. The store rejects a negative skip, and the source
   * then returns nil (`None`).
   */
  function GetVideos(videos: seq<Video>, perPageLimit: Int64, page: Int64): (r: Option<seq<Video>>)
    requires perPageLimit >= 1
    ensures r.None? <==> WrappedSkip(page, perPageLimit) < 0
    ensures r.Some? ==> |r.value| <= perPageLimit
    ensures r.Some? && WrappedSkip(page, perPageLimit) >= |videos| ==> r.value == []
    ensures r.Some? && WrappedSkip(page, perPageLimit) < |videos| ==>
              |r.value| == if WrappedSkip(page, perPageLimit) + perPageLimit <= |videos| then perPageLimit
                           else |videos| - WrappedSkip(page, perPageLimit)
    ensures r.Some? ==> forall k :: 0 <= k < |r.value| ==>
              WrappedSkip(page, perPageLimit) + k < |videos| && r.value[k] == videos[WrappedSkip(page, perPageLimit) + k]
  {
    var skip := WrappedSkip(page, perPageLimit);
    if skip < 0 then None else Some(Window(videos, skip, perPageLimit))
  }

  /**
   * Pages whose offset fits in int64: page p holds the videos from
   * (p-1)*perPageLimit on, at most perPageLimit of them, and a page past the
   * end is empty.
   */
  lemma GetVideosPage(videos: seq<Video>, perPageLimit: Int64, page: Int64)
    requires perPageLimit >= 1 && page >= 1 && PageSkip(page, perPageLimit) <= Int64Max
    ensures var skip := PageSkip(page, perPageLimit);
      && GetVideos(videos, perPageLimit, page) == Some(Window(videos, skip, perPageLimit))
      && (skip >= |videos| ==> GetVideos(videos, perPageLimit, page) == Some([]))
  {
    WrappedSkipExact(page, perPageLimit);
    PageSkipSign(page, perPageLimit);
  }

  /** The first page is the first perPageLimit videos in insertion order. */
  lemma GetVideosFirstPage(videos: seq<Video>, perPageLimit: Int64)
    requires perPageLimit >= 1
    ensures GetVideos(videos, perPageLimit, 1)
            == Some(if |videos| <= perPageLimit then videos else videos[..perPageLimit])
  {
    WrappedSkipExact(1, perPageLimit);
    if |videos| <= perPageLimit {
      assert videos[0..|videos|] == videos;
    }
  }

  /** A page of 0 or below, when its offset does not wrap, gives a negative skip: the read fails and yields nil. */
  lemma GetVideosNonPositivePage(videos: seq<Video>, perPageLimit: Int64, page: Int64)
    requires perPageLimit >= 1 && page <= 0 && Int64Min <= PageSkip(page, perPageLimit)
    ensures GetVideos(videos, perPageLimit, page) == None
  {
    PageSkipSign(page, perPageLimit);
    WrappedSkipExact(page, perPageLimit);
  }

  /**
   * The offset overflows: page 7378697629483820648 with 5 per page wraps to
   * a skip of 3, so a page far past the end returns videos 4 to 8.
   */
  lemma HugePageWrapsIntoData(videos: seq<Video>)
    requires |videos| >= 8
    ensures PageSkip(7378697629483820648, 5) > Int64Max
    ensures WrappedSkip(7378697629483820648, 5) == 3
    ensures GetVideos(videos, 5, 7378697629483820648) == Some(videos[3..8])
  {
  }

  /**
   * GetVideos with the offset computed without overflow: a negative offset
   * still fails as the store does, every other page is the window at the
   * offset.
   */
  function GetVideosUnwrapped(videos: seq<Video>, perPageLimit: Int64, page: Int64): (r: Option<seq<Video>>)
    requires perPageLimit >= 1
    ensures r.None? <==> page < 1
    ensures r.Some? ==> |r.value| <= perPageLimit
    ensures r.Some? && PageSkip(page, perPageLimit) >= |videos| ==> r.value == []
    ensures r.Some? ==> forall k :: 0 <= k < |r.value| ==>
              PageSkip(page, perPageLimit) + k < |videos| && r.value[k] == videos[PageSkip(page, perPageLimit) + k]
  {
    var skip := PageSkip(page, perPageLimit);
    PageSkipSign(page, perPageLimit);
    if skip < 0 then None else Some(Window(videos, skip, perPageLimit))
  }

  /** Where the offset fits in int64 the two readings agree. */
  lemma GetVideosAgreesWhenNoOverflow(videos: seq<Video>, perPageLimit: Int64, page: Int64)
    requires perPageLimit >= 1 && page > Int64Min && InInt64(PageSkip(page, perPageLimit))
    ensures GetVideos(videos, perPageLimit, page) == GetVideosUnwrapped(videos, perPageLimit, page)
  {
    WrappedSkipExact(page, perPageLimit);
  }

  /** A text-search hit: the stored video and its text score. */
  datatype Scored = Scored(video: Video, score: real)

  /** The relevance floor of the `$match` stage. */
  const MinScore: real := 1.0

  /** The second `$match` stage: hits scoring at least 1, in order. */
  function Relevant(hits: seq<Scored>): (r: seq<Scored>)
    ensures forall k :: 0 <= k < |r| ==> r[k].score >= MinScore
    ensures forall h :: multiset(r)[h] == if h.score >= MinScore then multiset(hits)[h] else 0
  {
    if hits == [] then []
    else
      var front := hits[..|hits| - 1];
      var h := hits[|hits| - 1];
      assert hits == front + [h];
      if h.score >= MinScore then Relevant(front) + [h] else Relevant(front)
  }

  /** Scores never increase along the sequence. */
  predicate NonIncreasing(s: seq<Scored>)
  {
    forall i, j :: 0 <= i < j < |s| ==> s[i].score >= s[j].score
  }

  /** Places a hit before the first hit it does not score below. */
  function InsertByScore(x: Scored, sorted: seq<Scored>): seq<Scored>
  {
    if sorted == [] || x.score >= sorted[0].score then [x] + sorted
    else [sorted[0]] + InsertByScore(x, sorted[1..])
  }

  /**
   * The `$sort: {score: -1}` stage as an insertion sort. Hits with equal
   * scores keep their order from the text index.
   */
  function SortByScore(hits: seq<Scored>): seq<Scored>
  {
    if hits == [] then [] else InsertByScore(hits[0], SortByScore(hits[1..]))
  }

  /** A hit scoring at least as much as every hit of a sorted sequence can go in front of it. */
  lemma ConsSorted(y: Scored, rest: seq<Scored>)
    requires NonIncreasing(rest)
    requires forall e | e in rest :: y.score >= e.score
    ensures NonIncreasing([y] + rest)
  {
    var r := [y] + rest;
    forall i, j | 0 <= i < j < |r| ensures r[i].score >= r[j].score {
      assert r[j] == rest[j - 1];
      if i > 0 {
        assert r[i] == rest[i - 1];
      } else {
        assert rest[j - 1] in rest;
      }
    }
  }

  /** The head of a sorted sequence scores highest, and its tail is sorted. */
  lemma SortedHead(sorted: seq<Scored>)
    requires NonIncreasing(sorted) && sorted != []
    ensures forall e | e in sorted :: sorted[0].score >= e.score
    ensures NonIncreasing(sorted[1..])
  {
    forall e | e in sorted ensures sorted[0].score >= e.score {
      var j :| 0 <= j < |sorted| && sorted[j] == e;
      if j > 0 {
        assert sorted[0].score >= sorted[j].score;
      }
    }
    var tail := sorted[1..];
    forall i, j | 0 <= i < j < |tail| ensures tail[i].score >= tail[j].score {
      assert tail[i] == sorted[i + 1] && tail[j] == sorted[j + 1];
    }
  }

  /** Inserting adds exactly the inserted hit. */
  lemma {:induction false} InsertByScorePermutes(x: Scored, sorted: seq<Scored>)
    ensures multiset(InsertByScore(x, sorted)) == multiset(sorted) + multiset{x}
  {
    if sorted != [] && x.score < sorted[0].score {
      var tail := sorted[1..];
      InsertByScorePermutes(x, tail);
      assert sorted == [sorted[0]] + tail;
      assert InsertByScore(x, sorted) == [sorted[0]] + InsertByScore(x, tail);
    }
  }

  /** Inserting into a sorted sequence keeps it sorted. */
  lemma {:induction false} InsertByScoreSorted(x: Scored, sorted: seq<Scored>)
    requires NonIncreasing(sorted)
    ensures NonIncreasing(InsertByScore(x, sorted))
  {
    if sorted == [] {
      ConsSorted(x, sorted);
    } else if x.score >= sorted[0].score {
      SortedHead(sorted);
      ConsSorted(x, sorted);
    } else {
      SortedHead(sorted);
      var tail := sorted[1..];
      InsertByScoreSorted(x, tail);
      InsertByScorePermutes(x, tail);
      var rest := InsertByScore(x, tail);
      assert InsertByScore(x, sorted) == [sorted[0]] + rest;
      forall e | e in rest ensures sorted[0].score >= e.score {
        assert e in multiset(rest);
        if e != x {
          assert e in tail;
        }
      }
      ConsSorted(sorted[0], rest);
    }
  }

  /** The sort gives a non-increasing permutation of its input. */
  lemma {:induction false} SortByScoreSorted(hits: seq<Scored>)
    ensures NonIncreasing(SortByScore(hits))
    ensures multiset(SortByScore(hits)) == multiset(hits)
  {
    if hits != [] {
      SortByScoreSorted(hits[1..]);
      InsertByScoreSorted(hits[0], SortByScore(hits[1..]));
      InsertByScorePermutes(hits[0], SortByScore(hits[1..]));
      assert hits == [hits[0]] + hits[1..];
    }
  }

  /** The ranking before pagination: relevant hits, best score first. */
  function Ranked(hits: seq<Scored>): seq<Scored>
  {
    SortByScore(Relevant(hits))
  }

  /**
   * The ranking keeps exactly the hits scoring at least 1, each as often as
   * it was found, in non-increasing score order.
   */
  lemma RankedProperties(hits: seq<Scored>)
    ensures NonIncreasing(Ranked(hits))
    ensures forall k :: 0 <= k < |Ranked(hits)| ==> Ranked(hits)[k].score >= MinScore
    ensures forall h :: multiset(Ranked(hits))[h] == if h.score >= MinScore then multiset(hits)[h] else 0
  {
    SortByScoreSorted(Relevant(hits));
    var r := Ranked(hits);
    forall k | 0 <= k < |r| ensures r[k].score >= MinScore {
      assert r[k] in multiset(Relevant(hits));
    }
  }

  function VideosOf(hits: seq<Scored>): (r: seq<Video>)
    ensures |r| == |hits| && forall k :: 0 <= k < |r| ==> r[k] == hits[k].video
  {
    seq(|hits|, k requires 0 <= k < |hits| => hits[k].video)
  }

  /**
   * SearchVideos from the text-index hits on: drop hits scoring below 1,
   * sort by score, best first, then skip and limit as GetVideos does. A
   * negative skip fails in the store and the source returns nil (`None`).
   */
  function SearchVideos(hits: seq<Scored>, perPageLimit: Int64, page: Int64): (r: Option<seq<Video>>)
    requires perPageLimit >= 1
    ensures r.None? <==> WrappedSkip(page, perPageLimit) < 0
    ensures r.Some? ==> |r.value| <= perPageLimit
  {
    var skip := WrappedSkip(page, perPageLimit);
    if skip < 0 then None else Some(VideosOf(Window(Ranked(hits), skip, perPageLimit)))
  }

  /**
   * For a page whose offset fits in int64, the results are the videos of the
   * slice of the ranking that starts at (page-1)*perPageLimit: every one
   * scored at least 1, and they come in non-increasing score order.
   */
  lemma SearchVideosPage(hits: seq<Scored>, perPageLimit: Int64, page: Int64)
    requires perPageLimit >= 1 && page >= 1 && PageSkip(page, perPageLimit) <= Int64Max
    ensures var skip := PageSkip(page, perPageLimit);
            var slice := Window(Ranked(hits), skip, perPageLimit);
      && SearchVideos(hits, perPageLimit, page) == Some(VideosOf(slice))
      && NonIncreasing(slice)
      && (forall k :: 0 <= k < |slice| ==> slice[k].score >= MinScore)
  {
    WrappedSkipExact(page, perPageLimit);
    PageSkipSign(page, perPageLimit);
    RankedProperties(hits);
  }

  /** A search in which no hit scores at least 1 returns an empty page, not an error. */
  lemma SearchWithoutRelevantHits(hits: seq<Scored>, perPageLimit: Int64, page: Int64)
    requires perPageLimit >= 1 && page >= 1 && PageSkip(page, perPageLimit) <= Int64Max
    requires forall k :: 0 <= k < |hits| ==> hits[k].score < MinScore
    ensures SearchVideos(hits, perPageLimit, page) == Some([])
  {
    WrappedSkipExact(page, perPageLimit);
    PageSkipSign(page, perPageLimit);
    assert multiset(Relevant(hits)) == multiset{};
  }

  /** Two hits scoring 2.0 and 0.5: the first page holds only the 2.0 one. */
  lemma SearchKeepsOnlyRelevantHit(a: Video, b: Video)
    ensures SearchVideos([Scored(a, 2.0), Scored(b, 0.5)], 5, 1) == Some([a])
  {
    var hits := [Scored(a, 2.0), Scored(b, 0.5)];
    var best := [Scored(a, 2.0)];
    assert hits[..1] == best;
    assert best[..0] == [];
    assert Relevant(best) == best;
    assert Relevant(hits) == best;
    assert best[1..] == [];
    assert SortByScore(best) == best;
    WrappedSkipExact(1, 5);
    assert Ranked(hits) == best;
    assert Window(best, 0, 5) == best;
    assert VideosOf(best) == [a];
  }
}
