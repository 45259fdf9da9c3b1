/**
 * The fallback list of the `/recommendations` page (backend/app.py:231-248),
 * used when the stored procedure fails: the catalog movies the user has not
 * rated, best `avg_rating` first, cut to `limit`, each turned into a record
 * with the reason "Top rated fallback".
 */
module Fallback {
  import opened Wrappers
  import opened Store

  const FALLBACK_REASON: string := "Top rated fallback"

  /** One record of the list handed to the template. */
  datatype Recommendation = Recommendation(
    userId: UserId,
    movieId: MovieId,
    title: string,
    genre: Option<string>,
    avgRating: real,
    posterPath: Option<string>,
    reason: string)

  /** The sub-query `SELECT movie_id FROM ratings WHERE user_id = u`; RatedByLedger reads it as the user's ledger keys. */
  function RatedBy(rows: seq<RatingRow>, u: UserId): (s: set<MovieId>)
    ensures forall m :: m in s <==> exists i :: 0 <= i < |rows| && rows[i].userId == u && rows[i].movieId == m
  {
    set i | 0 <= i < |rows| && rows[i].userId == u :: rows[i].movieId
  }

  /** A movie is in the sub-query's result exactly when the user has a rating for it in the table. */
  lemma RatedByLedger(rows: seq<RatingRow>, u: UserId, m: MovieId)
    ensures m in RatedBy(rows, u) <==> (u, m) in Ledger(rows)
  {
    LedgerKeys(rows, (u, m));
    if (u, m) in Ledger(rows) {
      var i :| 0 <= i < |rows| && Key(rows[i]) == (u, m);
      assert rows[i].userId == u && rows[i].movieId == m;
    }
  }

  /**
   * `ORDER BY avg_rating DESC` lets `a` come before `b`. MySQL treats NULL as
   * smaller than every value, so a NULL average sorts last.
   */
  predicate RanksAtLeast(a: Movie, b: Movie) {
    b.avgRating.None? || (a.avgRating.Some? && a.avgRating.value >= b.avgRating.value)
  }

  lemma RanksAtLeastTotal(a: Movie, b: Movie)
    ensures RanksAtLeast(a, b) || RanksAtLeast(b, a)
  {
  }

  lemma RanksAtLeastTransitive(a: Movie, b: Movie, c: Movie)
    requires RanksAtLeast(a, b) && RanksAtLeast(b, c)
    ensures RanksAtLeast(a, c)
  {
  }

  /** A catalog movie with its id. */
  type Entry = (MovieId, Movie)

  ghost predicate SortedByRating(xs: seq<Entry>) {
    forall i, j :: 0 <= i < j < |xs| ==> RanksAtLeast(xs[i].1, xs[j].1)
  }

  /** No movie id occurs twice. */
  ghost predicate DistinctIds(xs: seq<Entry>) {
    forall i, j :: 0 <= i < j < |xs| ==> xs[i].0 != xs[j].0
  }

  /** `x` is the smallest id of `s`. */
  predicate IsLeast(x: MovieId, s: set<MovieId>) {
    x in s && forall y :: y in s ==> x <= y
  }

  lemma {:induction false} LeastExists(s: set<MovieId>)
    requires s != {}
    ensures exists x :: IsLeast(x, s)
    decreases |s|
  {
    if forall a :: a !in s {
      assert false;
    }
    var a :| a in s;
    if s == {a} {
      assert IsLeast(a, s);
    } else {
      LeastExists(s - {a});
      var b :| IsLeast(b, s - {a});
      var x := if a <= b then a else b;
      forall y | y in s ensures x <= y {
        if y != a {
          assert y in s - {a};
        }
      }
      assert IsLeast(x, s);
    }
  }

  /** The ids of a set in ascending order. */
  function AscendingIds(s: set<MovieId>): (r: seq<MovieId>)
    ensures forall x :: x in r <==> x in s
    ensures forall i, j :: 0 <= i < j < |r| ==> r[i] < r[j]
    decreases |s|
  {
    if s == {} then []
    else
      LeastExists(s);
      var x :| IsLeast(x, s);
      [x] + AscendingIds(s - {x})
  }

  /** The ids occurring in `ids`. */
  function Elements(ids: seq<MovieId>): (s: set<MovieId>)
    ensures forall x :: x in s <==> x in ids
  {
    if ids == [] then {} else {ids[0]} + Elements(ids[1..])
  }

  lemma ConsDistinct(x: Entry, xs: seq<Entry>)
    requires DistinctIds(xs) && forall e :: e in xs ==> e.0 != x.0
    ensures DistinctIds([x] + xs)
  {
    var r := [x] + xs;
    forall i, j | 0 <= i < j < |r| ensures r[i].0 != r[j].0 {
      if i == 0 {
        assert r[j] in xs;
      } else {
        assert r[i] == xs[i - 1] && r[j] == xs[j - 1];
      }
    }
  }

  /** Counting the unrated ids of `ids` one id at a time. */
  lemma UnratedCountStep(ids: seq<MovieId>, rated: set<MovieId>)
    requires ids != [] && ids[0] !in ids[1..]
    ensures |Elements(ids) - rated| == |Elements(ids[1..]) - rated| + (if ids[0] in rated then 0 else 1)
  {
    var tail := Elements(ids[1..]) - rated;
    if ids[0] in rated {
      assert Elements(ids) - rated == tail;
    } else {
      assert Elements(ids) - rated == tail + {ids[0]};
      assert ids[0] !in tail;
    }
  }

  /** `WHERE movie_id NOT IN (...)`: the catalog entries of `ids` that are not rated, in the order of `ids`. */
  function Unrated(ids: seq<MovieId>, movies: map<MovieId, Movie>, rated: set<MovieId>): seq<Entry>
    requires forall i :: 0 <= i < |ids| ==> ids[i] in movies
  {
    if ids == [] then []
    else if ids[0] in rated then Unrated(ids[1..], movies, rated)
    else [(ids[0], movies[ids[0]])] + Unrated(ids[1..], movies, rated)
  }

  /** The filter keeps exactly the unrated ids, each with its catalog row. */
  lemma {:induction false} UnratedMembers(ids: seq<MovieId>, movies: map<MovieId, Movie>, rated: set<MovieId>)
    requires forall i :: 0 <= i < |ids| ==> ids[i] in movies
    ensures forall e :: e in Unrated(ids, movies, rated) ==> e.0 in ids && e.0 !in rated && e.1 == movies[e.0]
    ensures forall i :: 0 <= i < |ids| && ids[i] !in rated ==> (ids[i], movies[ids[i]]) in Unrated(ids, movies, rated)
  {
    if ids != [] {
      UnratedMembers(ids[1..], movies, rated);
      forall i | 0 < i < |ids| ensures ids[i] == ids[1..][i - 1] {}
    }
  }

  /** Filtering a list of distinct ids gives distinct ids, one per unrated id. */
  lemma {:induction false} UnratedDistinct(ids: seq<MovieId>, movies: map<MovieId, Movie>, rated: set<MovieId>)
    requires forall i :: 0 <= i < |ids| ==> ids[i] in movies
    requires forall i, j :: 0 <= i < j < |ids| ==> ids[i] != ids[j]
    ensures DistinctIds(Unrated(ids, movies, rated))
    ensures |Unrated(ids, movies, rated)| == |Elements(ids) - rated|
  {
    if ids != [] {
      var rest := Unrated(ids[1..], movies, rated);
      UnratedDistinct(ids[1..], movies, rated);
      assert ids[0] !in ids[1..] by {
        forall k | 0 <= k < |ids[1..]| ensures ids[1..][k] != ids[0] {
          assert ids[1..][k] == ids[k + 1];
        }
      }
      UnratedCountStep(ids, rated);
      if ids[0] !in rated {
        UnratedMembers(ids[1..], movies, rated);
        ConsDistinct((ids[0], movies[ids[0]]), rest);
      }
    }
  }

  /** Places `x` after the entries that rank strictly above it and before the rest. */
  function Insert(x: Entry, xs: seq<Entry>): (r: seq<Entry>)
    ensures multiset(r) == multiset(xs) + multiset{x}
  {
    if xs == [] || RanksAtLeast(x.1, xs[0].1) then [x] + xs
    else
      assert xs == [xs[0]] + xs[1..];
      [xs[0]] + Insert(x, xs[1..])
  }

  /** `e` is an element of `xs`, in the sense of multiset membership. */
  lemma InMultiset(e: Entry, xs: seq<Entry>)
    ensures e in xs <==> e in multiset(xs)
  {
  }

  lemma {:induction false} InsertSorted(x: Entry, xs: seq<Entry>)
    requires SortedByRating(xs)
    ensures SortedByRating(Insert(x, xs))
  {
    if xs == [] || RanksAtLeast(x.1, xs[0].1) {
      forall j | 0 <= j < |xs| ensures RanksAtLeast(x.1, xs[j].1) {
        RanksAtLeastTransitive(x.1, xs[0].1, xs[j].1);
      }
    } else {
      RanksAtLeastTotal(x.1, xs[0].1);
      var rest := Insert(x, xs[1..]);
      InsertSorted(x, xs[1..]);
      forall j | 0 <= j < |rest| ensures RanksAtLeast(xs[0].1, rest[j].1) {
        InMultiset(rest[j], rest);
        if rest[j] != x {
          InMultiset(rest[j], xs[1..]);
          var k :| 0 <= k < |xs[1..]| && xs[1..][k] == rest[j];
          assert xs[k + 1] == rest[j];
        }
      }
      var r := [xs[0]] + rest;
      forall i, j | 0 <= i < j < |r| ensures RanksAtLeast(r[i].1, r[j].1) {
        if i > 0 {
          assert r[i] == rest[i - 1] && r[j] == rest[j - 1];
        }
      }
    }
  }

  lemma {:induction false} InsertDistinct(x: Entry, xs: seq<Entry>)
    requires DistinctIds(xs) && forall e :: e in xs ==> e.0 != x.0
    ensures DistinctIds(Insert(x, xs))
  {
    if xs == [] || RanksAtLeast(x.1, xs[0].1) {
      ConsDistinct(x, xs);
    } else {
      var rest := Insert(x, xs[1..]);
      assert DistinctIds(xs[1..]) by {
        forall i, j | 0 <= i < j < |xs[1..]| ensures xs[1..][i].0 != xs[1..][j].0 {
          assert xs[1..][i] == xs[i + 1] && xs[1..][j] == xs[j + 1];
        }
      }
      InsertDistinct(x, xs[1..]);
      forall e | e in rest ensures e.0 != xs[0].0 {
        InMultiset(e, rest);
        if e != x {
          InMultiset(e, xs[1..]);
          var k :| 0 <= k < |xs[1..]| && xs[1..][k] == e;
          assert xs[k + 1] == e;
        }
      }
      ConsDistinct(xs[0], rest);
    }
  }

  /** `ORDER BY avg_rating DESC` as a stable insertion sort: equal averages keep their input order. */
  function Sort(xs: seq<Entry>): (r: seq<Entry>)
    ensures multiset(r) == multiset(xs)
  {
    if xs == [] then []
    else
      assert xs == [xs[0]] + xs[1..];
      Insert(xs[0], Sort(xs[1..]))
  }

  lemma {:induction false} SortSorted(xs: seq<Entry>)
    ensures SortedByRating(Sort(xs))
  {
    if xs != [] {
      SortSorted(xs[1..]);
      InsertSorted(xs[0], Sort(xs[1..]));
    }
  }

  lemma {:induction false} SortDistinct(xs: seq<Entry>)
    requires DistinctIds(xs)
    ensures DistinctIds(Sort(xs))
  {
    if xs != [] {
      var rest := Sort(xs[1..]);
      assert DistinctIds(xs[1..]) by {
        forall i, j | 0 <= i < j < |xs[1..]| ensures xs[1..][i].0 != xs[1..][j].0 {
          assert xs[1..][i] == xs[i + 1] && xs[1..][j] == xs[j + 1];
        }
      }
      SortDistinct(xs[1..]);
      forall e | e in rest ensures e.0 != xs[0].0 {
        InMultiset(e, rest);
        InMultiset(e, xs[1..]);
        var k :| 0 <= k < |xs[1..]| && xs[1..][k] == e;
        assert xs[k + 1] == e;
      }
      InsertDistinct(xs[0], rest);
    }
  }

  function Min(a: int, b: int): int {
    if a <= b then a else b
  }

  /** An entry left out of the first `k` of a sorted list ranks no higher than any of them. */
  lemma LeftOutRanksLower(ranked: seq<Entry>, k: nat, e: Entry)
    requires SortedByRating(ranked) && k <= |ranked|
    requires e in ranked && forall i :: 0 <= i < k ==> ranked[i].0 != e.0
    ensures forall i :: 0 <= i < k ==> RanksAtLeast(ranked[i].1, e.1)
  {
    var j :| 0 <= j < |ranked| && ranked[j] == e;
    assert j >= k;
  }

  /** The unrated catalog entries in ascending id order, before sorting. */
  function Candidates(movies: map<MovieId, Movie>, rated: set<MovieId>): seq<Entry> {
    Unrated(AscendingIds(movies.Keys), movies, rated)
  }

  /** The candidates are exactly the unrated catalog movies, each once. */
  lemma CandidatesSpec(movies: map<MovieId, Movie>, rated: set<MovieId>)
    ensures forall e :: e in Candidates(movies, rated) ==> e.0 in movies && e.0 !in rated && e.1 == movies[e.0]
    ensures forall id :: id in movies && id !in rated ==> (id, movies[id]) in Candidates(movies, rated)
    ensures DistinctIds(Candidates(movies, rated))
    ensures |Candidates(movies, rated)| == |movies.Keys - rated|
  {
    var ids := AscendingIds(movies.Keys);
    UnratedMembers(ids, movies, rated);
    UnratedDistinct(ids, movies, rated);
    assert Elements(ids) == movies.Keys;
    forall id | id in movies && id !in rated ensures (id, movies[id]) in Candidates(movies, rated) {
      var j :| 0 <= j < |ids| && ids[j] == id;
    }
  }

  /**
   * `ORDER BY avg_rating DESC LIMIT limit` over the candidates. Movies with
   * equal averages come in ascending id order.
   */
  function TopRated(movies: map<MovieId, Movie>, rated: set<MovieId>, limit: nat): seq<Entry> {
    var ranked := Sort(Candidates(movies, rated));
    ranked[..Min(limit, |ranked|)]
  }

  /** The list has `limit` entries, or all unrated movies when there are fewer. */
  lemma TopRatedLength(movies: map<MovieId, Movie>, rated: set<MovieId>, limit: nat)
    ensures |TopRated(movies, rated, limit)| == Min(limit, |movies.Keys - rated|)
  {
    var candidates := Candidates(movies, rated);
    CandidatesSpec(movies, rated);
    assert |multiset(Sort(candidates))| == |multiset(candidates)|;
  }

  /** Every entry is an unrated catalog movie with its own row. */
  lemma TopRatedMembers(movies: map<MovieId, Movie>, rated: set<MovieId>, limit: nat)
    ensures forall e :: e in TopRated(movies, rated, limit) ==> e.0 in movies && e.0 !in rated && e.1 == movies[e.0]
  {
    var candidates := Candidates(movies, rated);
    var ranked := Sort(candidates);
    CandidatesSpec(movies, rated);
    forall e | e in TopRated(movies, rated, limit) ensures e.0 in movies && e.0 !in rated && e.1 == movies[e.0] {
      assert e in ranked;
      InMultiset(e, ranked);
      InMultiset(e, candidates);
    }
  }

  /** The list is ordered by average, best first, and names no movie twice. */
  lemma TopRatedOrdered(movies: map<MovieId, Movie>, rated: set<MovieId>, limit: nat)
    ensures SortedByRating(TopRated(movies, rated, limit))
    ensures DistinctIds(TopRated(movies, rated, limit))
  {
    var candidates := Candidates(movies, rated);
    var ranked := Sort(candidates);
    var top := TopRated(movies, rated, limit);
    assert top == ranked[..Min(limit, |ranked|)];
    CandidatesSpec(movies, rated);
    SortSorted(candidates);
    SortDistinct(candidates);
    forall i, j | 0 <= i < j < |top| ensures RanksAtLeast(top[i].1, top[j].1) && top[i].0 != top[j].0 {
      assert top[i] == ranked[i] && top[j] == ranked[j];
    }
  }

  /** No unrated movie left off the list ranks above an entry on it. */
  lemma TopRatedIsTop(movies: map<MovieId, Movie>, rated: set<MovieId>, limit: nat, id: MovieId)
    requires id in movies && id !in rated
    requires forall i :: 0 <= i < |TopRated(movies, rated, limit)| ==> TopRated(movies, rated, limit)[i].0 != id
    ensures forall i :: 0 <= i < |TopRated(movies, rated, limit)| ==> RanksAtLeast(TopRated(movies, rated, limit)[i].1, movies[id])
  {
    var candidates := Candidates(movies, rated);
    var ranked := Sort(candidates);
    var top := TopRated(movies, rated, limit);
    var k := Min(limit, |ranked|);
    var e := (id, movies[id]);
    assert top == ranked[..k];
    CandidatesSpec(movies, rated);
    SortSorted(candidates);
    InMultiset(e, candidates);
    InMultiset(e, ranked);
    forall i | 0 <= i < k ensures ranked[i].0 != id {
      assert top[i] == ranked[i];
    }
    LeftOutRanksLower(ranked, k, e);
    forall i | 0 <= i < |top| ensures RanksAtLeast(top[i].1, movies[id]) {
      assert top[i] == ranked[i];
    }
  }

  /**
   * The record built for one movie: `avg_rating` read as 0 when it is NULL.
   * The contract lists the fields; FallbackEntries and FallbackShownOrder say
   * what they mean for the list.
   */
  function ToRecommendation(userId: UserId, e: Entry): (rec: Recommendation)
    ensures rec.movieId == e.0 && rec.userId == userId && rec.reason == FALLBACK_REASON
    ensures rec.avgRating == (if e.1.avgRating.Some? then e.1.avgRating.value else 0.0)
    ensures rec.title == e.1.title && rec.genre == e.1.genre && rec.posterPath == e.1.posterPath
  {
    Recommendation(userId, e.0, e.1.title, e.1.genre, e.1.avgRating.GetOr(0.0), e.1.posterPath, FALLBACK_REASON)
  }

  /**
   * The fallback list for `userId`. MySQL refuses a negative `LIMIT`, so the
   * query raises; that is `None` here.
   */
  function FallbackList(userId: UserId, movies: map<MovieId, Movie>, rows: seq<RatingRow>, limit: int): (r: Option<seq<Recommendation>>)
    ensures r.None? <==> limit < 0
  {
    if limit < 0 then None
    else
      var top := TopRated(movies, RatedBy(rows, userId), limit);
      Some(seq(|top|, i requires 0 <= i < |top| => ToRecommendation(userId, top[i])))
  }

  /** At most `limit` records: exactly `limit` when the user has that many unrated movies, else all of them. */
  lemma FallbackLength(userId: UserId, movies: map<MovieId, Movie>, rows: seq<RatingRow>, limit: nat)
    ensures |FallbackList(userId, movies, rows, limit).value| == Min(limit, |movies.Keys - RatedBy(rows, userId)|)
    ensures |FallbackList(userId, movies, rows, limit).value| <= limit
  {
    TopRatedLength(movies, RatedBy(rows, userId), limit);
  }

  /** Each record is a catalog movie the user has not rated, tagged "Top rated fallback". */
  lemma FallbackEntries(userId: UserId, movies: map<MovieId, Movie>, rows: seq<RatingRow>, limit: nat)
    ensures var recs := FallbackList(userId, movies, rows, limit).value;
            forall i :: 0 <= i < |recs| ==>
              && recs[i].movieId in movies
              && recs[i].movieId !in RatedBy(rows, userId)
              && recs[i].reason == FALLBACK_REASON
              && recs[i] == ToRecommendation(userId, (recs[i].movieId, movies[recs[i].movieId]))
  {
    var top := TopRated(movies, RatedBy(rows, userId), limit);
    TopRatedMembers(movies, RatedBy(rows, userId), limit);
    assert forall i :: 0 <= i < |top| ==> top[i] in top;
  }

  /** The records name distinct movies, in order of average with NULL last. */
  lemma FallbackOrdered(userId: UserId, movies: map<MovieId, Movie>, rows: seq<RatingRow>, limit: nat)
    ensures var recs := FallbackList(userId, movies, rows, limit).value;
            forall i, j :: 0 <= i < j < |recs| ==>
              && recs[i].movieId != recs[j].movieId
              && recs[i].movieId in movies && recs[j].movieId in movies
              && RanksAtLeast(movies[recs[i].movieId], movies[recs[j].movieId])
  {
    var top := TopRated(movies, RatedBy(rows, userId), limit);
    TopRatedMembers(movies, RatedBy(rows, userId), limit);
    TopRatedOrdered(movies, RatedBy(rows, userId), limit);
    assert forall i :: 0 <= i < |top| ==> top[i] in top;
  }

  /** An unrated movie missing from the list ranks no higher than any movie on it. */
  lemma FallbackIsTop(userId: UserId, movies: map<MovieId, Movie>, rows: seq<RatingRow>, limit: nat, id: MovieId)
    requires id in movies && id !in RatedBy(rows, userId)
    requires forall i :: 0 <= i < |FallbackList(userId, movies, rows, limit).value| ==>
               FallbackList(userId, movies, rows, limit).value[i].movieId != id
    ensures var recs := FallbackList(userId, movies, rows, limit).value;
            forall i :: 0 <= i < |recs| ==> recs[i].movieId in movies && RanksAtLeast(movies[recs[i].movieId], movies[id])
  {
    var rated := RatedBy(rows, userId);
    var top := TopRated(movies, rated, limit);
    var recs := FallbackList(userId, movies, rows, limit).value;
    assert |recs| == |top|;
    forall i | 0 <= i < |top| ensures top[i].0 != id {
      assert recs[i] == ToRecommendation(userId, top[i]);
    }
    TopRatedMembers(movies, rated, limit);
    TopRatedIsTop(movies, rated, limit, id);
    forall i | 0 <= i < |recs| ensures recs[i].movieId in movies && RanksAtLeast(movies[recs[i].movieId], movies[id]) {
      assert recs[i] == ToRecommendation(userId, top[i]);
      assert top[i] in top;
    }
  }

  /** With no negative average in the catalog the averages shown never increase down the list. */
  lemma FallbackShownOrder(userId: UserId, movies: map<MovieId, Movie>, rows: seq<RatingRow>, limit: nat)
    requires forall id :: id in movies && movies[id].avgRating.Some? ==> movies[id].avgRating.value >= 0.0
    ensures var recs := FallbackList(userId, movies, rows, limit).value;
            forall i, j :: 0 <= i < j < |recs| ==> recs[i].avgRating >= recs[j].avgRating
  {
    FallbackOrdered(userId, movies, rows, limit);
    FallbackEntries(userId, movies, rows, limit);
  }

  /** Over a consistent store the averages shown lie in [0, 5] and never increase, and no listed pair is in the ledger. */
  lemma FallbackOverConsistentStore(userId: UserId, movies: map<MovieId, Movie>, rows: seq<RatingRow>, limit: nat)
    requires WellFormed(rows, movies) && Consistent(movies, rows)
    ensures var recs := FallbackList(userId, movies, rows, limit).value;
            && (forall i :: 0 <= i < |recs| ==> InRange(recs[i].avgRating) && (userId, recs[i].movieId) !in Ledger(rows))
            && (forall i, j :: 0 <= i < j < |recs| ==> recs[i].avgRating >= recs[j].avgRating)
  {
    var recs := FallbackList(userId, movies, rows, limit).value;
    forall id | id in movies
      ensures movies[id].avgRating.Some? && InRange(movies[id].avgRating.value)
    {
      ConsistentStatistics(movies, rows, id);
    }
    FallbackEntries(userId, movies, rows, limit);
    forall i | 0 <= i < |recs|
      ensures (userId, recs[i].movieId) !in Ledger(rows)
    {
      RatedByLedger(rows, userId, recs[i].movieId);
    }
    FallbackShownOrder(userId, movies, rows, limit);
  }
}
