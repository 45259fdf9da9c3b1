/**
 * The two tables the rating endpoint writes (backend/models.py:15-31): the
 * `ratings` table as a sequence of rows, and the movie catalog with its cached
 * statistics `ratings_count` and `avg_rating`. The SQL of the endpoint becomes
 * functions over these values: the look-up of a user's row for a movie, the
 * update-or-insert of a rating, and the recomputation of one movie's
 * aggregates from the current table.
 */
module Store {
  import opened Wrappers

  type UserId = int
  type MovieId = int

  /** A row of `movies`; `avg_rating` is a nullable column (default 0.0). */
  datatype Movie = Movie(
    title: string,
    genre: Option<string>,
    releaseYear: Option<int>,
    avgRating: Option<real>,
    ratingsCount: nat,
    posterPath: Option<string>)

  /** A row of `ratings`; the row id and the timestamp play no part in the core. */
  datatype RatingRow = RatingRow(userId: UserId, movieId: MovieId, value: real)

  /** A catalog entry as models.py creates it, with the column defaults for the statistics. */
  function NewMovie(title: string, genre: Option<string>, releaseYear: Option<int>, posterPath: Option<string>): (m: Movie)
    ensures m.avgRating == Some(0.0) && m.ratingsCount == 0
    ensures m.title == title && m.genre == genre && m.releaseYear == releaseYear && m.posterPath == posterPath
  {
    Movie(title, genre, releaseYear, Some(0.0), 0, posterPath)
  }

  function Key(r: RatingRow): (UserId, MovieId) {
    (r.userId, r.movieId)
  }

  const MIN_RATING: real := 0.0
  const MAX_RATING: real := 5.0

  predicate InRange(v: real) {
    MIN_RATING <= v <= MAX_RATING
  }

  /** No (user, movie) pair has two rows. */
  ghost predicate UniquePairs(rows: seq<RatingRow>) {
    forall i, j :: 0 <= i < j < |rows| ==> Key(rows[i]) != Key(rows[j])
  }

  ghost predicate AllInRange(rows: seq<RatingRow>) {
    forall i :: 0 <= i < |rows| ==> InRange(rows[i].value)
  }

  /** What every state reached through the endpoint satisfies; the last conjunct is the foreign key to `movies`. */
  ghost predicate WellFormed(rows: seq<RatingRow>, movies: map<MovieId, Movie>) {
    && UniquePairs(rows)
    && AllInRange(rows)
    && forall i :: 0 <= i < |rows| ==> rows[i].movieId in movies
  }

  // ---------------------------------------------------------------------------
  // The table seen as the map (user, movie) -> rating
  // ---------------------------------------------------------------------------

  /** The value each pair holds; a later row would win, but under UniquePairs there is none. */
  ghost function Ledger(rows: seq<RatingRow>): map<(UserId, MovieId), real> {
    if rows == [] then map[]
    else Ledger(rows[..|rows| - 1])[Key(rows[|rows| - 1]) := rows[|rows| - 1].value]
  }

  lemma {:induction false} LedgerKeys(rows: seq<RatingRow>, k: (UserId, MovieId))
    ensures k in Ledger(rows) <==> exists i :: 0 <= i < |rows| && Key(rows[i]) == k
  {
    if rows != [] {
      var init := rows[..|rows| - 1];
      LedgerKeys(init, k);
      if k in Ledger(init) {
        var i :| 0 <= i < |init| && Key(init[i]) == k;
        assert Key(rows[i]) == k;
      }
      if exists i :: 0 <= i < |rows| && Key(rows[i]) == k {
        var i :| 0 <= i < |rows| && Key(rows[i]) == k;
        if i < |init| {
          assert Key(init[i]) == k;
        }
      }
    }
  }

  lemma {:induction false} LedgerValue(rows: seq<RatingRow>, i: nat)
    requires UniquePairs(rows) && i < |rows|
    ensures Key(rows[i]) in Ledger(rows) && Ledger(rows)[Key(rows[i])] == rows[i].value
  {
    var init := rows[..|rows| - 1];
    if i < |init| {
      assert init[i] == rows[i];
      LedgerValue(init, i);
    }
  }

  /** Number of rows for one (user, movie) pair. */
  function PairCount(rows: seq<RatingRow>, k: (UserId, MovieId)): nat {
    if rows == [] then 0
    else PairCount(rows[..|rows| - 1], k) + (if Key(rows[|rows| - 1]) == k then 1 else 0)
  }

  /** Under UniquePairs a pair has one row if it is in the ledger and none otherwise. */
  lemma {:induction false} PairCountLedger(rows: seq<RatingRow>, k: (UserId, MovieId))
    requires UniquePairs(rows)
    ensures PairCount(rows, k) == if k in Ledger(rows) then 1 else 0
  {
    if rows != [] {
      var init := rows[..|rows| - 1];
      PairCountLedger(init, k);
      if Key(rows[|rows| - 1]) == k {
        LedgerKeys(init, k);
      }
    }
  }

  // ---------------------------------------------------------------------------
  // Aggregates: COUNT(*), SUM and ROUND(AVG(...), 2) over one movie's rows
  // ---------------------------------------------------------------------------

  /** `SELECT COUNT(*) FROM ratings WHERE movie_id = m`. */
  function CountFor(rows: seq<RatingRow>, m: MovieId): (n: nat)
    ensures n <= |rows|
  {
    if rows == [] then 0
    else CountFor(rows[..|rows| - 1], m) + (if rows[|rows| - 1].movieId == m then 1 else 0)
  }

  /** The sum of the ratings of movie `m`. */
  function SumFor(rows: seq<RatingRow>, m: MovieId): real {
    if rows == [] then 0.0
    else SumFor(rows[..|rows| - 1], m) + (if rows[|rows| - 1].movieId == m then rows[|rows| - 1].value else 0.0)
  }

  /** The users who rated movie `m`, read off the ledger. */
  ghost function RatersOf(rows: seq<RatingRow>, m: MovieId): set<(UserId, MovieId)> {
    set k | k in Ledger(rows) && k.1 == m
  }

  /** The cached count agrees with the ledger: one row per user who rated the movie. */
  lemma {:induction false} CountForRaters(rows: seq<RatingRow>, m: MovieId)
    requires UniquePairs(rows)
    ensures CountFor(rows, m) == |RatersOf(rows, m)|
  {
    if rows != [] {
      var init := rows[..|rows| - 1];
      var last := rows[|rows| - 1];
      CountForRaters(init, m);
      if last.movieId == m {
        LedgerKeys(init, Key(last));
        assert RatersOf(rows, m) == RatersOf(init, m) + {Key(last)};
      } else {
        assert RatersOf(rows, m) == RatersOf(init, m);
      }
    }
  }

  lemma {:induction false} SumForBounds(rows: seq<RatingRow>, m: MovieId)
    requires AllInRange(rows)
    ensures MIN_RATING * CountFor(rows, m) as real <= SumFor(rows, m) <= MAX_RATING * CountFor(rows, m) as real
  {
    if rows != [] {
      SumForBounds(rows[..|rows| - 1], m);
    }
  }

  /** `r` is a whole number of hundredths. */
  ghost predicate IsCents(r: real) {
    (r * 100.0).Floor as real == r * 100.0
  }

  /** `ROUND(x, 2)` on an exact value: to the nearest hundredth, half away from zero. */
  function Round2(x: real): (r: real)
    ensures IsCents(r)
    ensures -0.005 <= r - x <= 0.005
  {
    var k := (Abs(x) * 100.0 + 0.5).Floor;
    var r := if x >= 0.0 then k as real / 100.0 else (-k) as real / 100.0;
    CentsOf(if x >= 0.0 then k else -k);
    assert r - x <= 0.005 && x - r <= 0.005 by {
      assert k as real <= Abs(x) * 100.0 + 0.5 < k as real + 1.0;
    }
    r
  }

  lemma CentsOf(k: int)
    ensures IsCents(k as real / 100.0)
  {
    assert (k as real / 100.0) * 100.0 == k as real;
  }

  function Abs(x: real): real {
    if x >= 0.0 then x else -x
  }

  /** No multiple of 0.01 is closer to `x` than `Round2(x)`. */
  lemma Round2Nearest(x: real, q: real)
    requires IsCents(q)
    ensures Abs(Round2(x) - x) <= Abs(q - x)
  {
    var r := Round2(x);
    var j := (q * 100.0).Floor;
    var k := (r * 100.0).Floor;
    if j != k {
      assert j - k >= 1 || k - j >= 1;
    }
  }

  /** A multiple of 0.01 rounds to itself. */
  lemma Round2OfCents(x: real)
    requires IsCents(x)
    ensures Round2(x) == x
  {
    Round2Nearest(x, x);
  }

  /** The exact mean rating of a movie that has ratings. */
  function Mean(rows: seq<RatingRow>, m: MovieId): real
    requires CountFor(rows, m) > 0
  {
    SumFor(rows, m) / CountFor(rows, m) as real
  }

  /** `COALESCE(ROUND(AVG(rating), 2), 0)` over movie `m`'s rows. */
  function Average(rows: seq<RatingRow>, m: MovieId): (a: real)
    ensures CountFor(rows, m) == 0 ==> a == 0.0
    ensures CountFor(rows, m) > 0 ==> IsCents(a) && Abs(a - Mean(rows, m)) <= 0.005
  {
    if CountFor(rows, m) == 0 then 0.0 else Round2(Mean(rows, m))
  }

  /** With ratings in [0, 5], so is the cached average. */
  lemma AverageInRange(rows: seq<RatingRow>, m: MovieId)
    requires AllInRange(rows)
    ensures InRange(Average(rows, m))
  {
    var n := CountFor(rows, m);
    if n > 0 {
      SumForBounds(rows, m);
      QuotientBounds(SumFor(rows, m), n as real);
      Round2InRange(Mean(rows, m));
    }
  }

  lemma QuotientBounds(s: real, n: real)
    requires n > 0.0 && MIN_RATING * n <= s <= MAX_RATING * n
    ensures InRange(s / n)
  {
    var q := s / n;
    assert s == q * n;
  }

  /** Rounding a value of [0, 5] stays in [0, 5]. */
  lemma Round2InRange(x: real)
    requires InRange(x)
    ensures InRange(Round2(x))
  {
    var k := (Abs(x) * 100.0 + 0.5).Floor;
    assert k as real <= x * 100.0 + 0.5 < k as real + 1.0;
    assert 0 <= k <= 500;
  }

  // ---------------------------------------------------------------------------
  // The write: look up the user's row, then overwrite it or append a new one
  // ---------------------------------------------------------------------------

  /** `Rating.query.filter_by(user_id=u, movie_id=m).first()`: the index of the first matching row. */
  function FindRow(rows: seq<RatingRow>, u: UserId, m: MovieId): (r: Option<nat>)
    ensures r.Some? ==> r.value < |rows| && Key(rows[r.value]) == (u, m)
    ensures r.Some? ==> forall j :: 0 <= j < r.value ==> Key(rows[j]) != (u, m)
    ensures r.None? ==> forall j :: 0 <= j < |rows| ==> Key(rows[j]) != (u, m)
  {
    FindFrom(rows, u, m, 0)
  }

  function FindFrom(rows: seq<RatingRow>, u: UserId, m: MovieId, start: nat): (r: Option<nat>)
    requires start <= |rows|
    ensures r.Some? ==> start <= r.value < |rows| && Key(rows[r.value]) == (u, m)
    ensures r.Some? ==> forall j :: start <= j < r.value ==> Key(rows[j]) != (u, m)
    ensures r.None? ==> forall j :: start <= j < |rows| ==> Key(rows[j]) != (u, m)
    decreases |rows| - start
  {
    if start == |rows| then None
    else if Key(rows[start]) == (u, m) then Some(start)
    else FindFrom(rows, u, m, start + 1)
  }

  /** The rating write: `r.rating = v` on the existing row, else a new row is added. */
  function Upsert(rows: seq<RatingRow>, u: UserId, m: MovieId, v: real): seq<RatingRow> {
    match FindRow(rows, u, m)
    case Some(i) => rows[i := rows[i].(value := v)]
    case None => rows + [RatingRow(u, m, v)]
  }

  /** After the write the pair has exactly one row and it holds `v`; the table grows only when the pair was new. */
  lemma UpsertSingleRow(rows: seq<RatingRow>, u: UserId, m: MovieId, v: real)
    requires UniquePairs(rows)
    ensures UniquePairs(Upsert(rows, u, m, v))
    ensures PairCount(Upsert(rows, u, m, v), (u, m)) == 1
    ensures forall i :: 0 <= i < |Upsert(rows, u, m, v)| && Key(Upsert(rows, u, m, v)[i]) == (u, m) ==>
              Upsert(rows, u, m, v)[i].value == v
    ensures |Upsert(rows, u, m, v)| == |rows| + (if (u, m) in Ledger(rows) then 0 else 1)
  {
    var r' := Upsert(rows, u, m, v);
    LedgerKeys(rows, (u, m));
    match FindRow(rows, u, m)
    case Some(i) =>
      assert Key(r'[i]) == (u, m);
    case None =>
      assert Key(r'[|rows|]) == (u, m);
    LedgerKeys(r', (u, m));
    PairCountLedger(r', (u, m));
  }

  /** Replacing one row by a row with the same key updates that key of the ledger only. */
  lemma {:induction false} LedgerUpdateRow(rows: seq<RatingRow>, i: nat, v: real)
    requires UniquePairs(rows) && i < |rows|
    ensures UniquePairs(rows[i := rows[i].(value := v)])
    ensures Ledger(rows[i := rows[i].(value := v)]) == Ledger(rows)[Key(rows[i]) := v]
  {
    var r' := rows[i := rows[i].(value := v)];
    var n := |rows|;
    var init := rows[..n - 1];
    if i == n - 1 {
      assert r'[..n - 1] == init;
    } else {
      assert r'[..n - 1] == init[i := init[i].(value := v)];
      LedgerUpdateRow(init, i, v);
      assert Key(rows[n - 1]) != Key(rows[i]);
    }
  }

  /** The rating write as a map update: only pair (u, m) changes, and it now maps to `v`. */
  lemma UpsertLedger(rows: seq<RatingRow>, u: UserId, m: MovieId, v: real)
    requires UniquePairs(rows)
    ensures Ledger(Upsert(rows, u, m, v)) == Ledger(rows)[(u, m) := v]
  {
    match FindRow(rows, u, m)
    case Some(i) =>
      LedgerUpdateRow(rows, i, v);
    case None =>
      var r' := rows + [RatingRow(u, m, v)];
      assert r'[..|r'| - 1] == rows;
  }

  /** Overwriting a row's value changes no count and moves its movie's sum by the difference. */
  lemma {:induction false} AggregatesUpdateRow(rows: seq<RatingRow>, i: nat, v: real, m': MovieId)
    requires i < |rows|
    ensures CountFor(rows[i := rows[i].(value := v)], m') == CountFor(rows, m')
    ensures SumFor(rows[i := rows[i].(value := v)], m') ==
              SumFor(rows, m') + (if rows[i].movieId == m' then v - rows[i].value else 0.0)
  {
    var r' := rows[i := rows[i].(value := v)];
    var n := |rows|;
    var init := rows[..n - 1];
    if i == n - 1 {
      assert r'[..n - 1] == init;
    } else {
      assert r'[..n - 1] == init[i := init[i].(value := v)];
      AggregatesUpdateRow(init, i, v, m');
    }
  }

  /** How one write moves every movie's count and sum: the incremental form of the recomputation. */
  lemma UpsertAggregates(rows: seq<RatingRow>, u: UserId, m: MovieId, v: real, m': MovieId)
    ensures CountFor(Upsert(rows, u, m, v), m') ==
              CountFor(rows, m') + (if m' == m && FindRow(rows, u, m).None? then 1 else 0)
    ensures SumFor(Upsert(rows, u, m, v), m') ==
              SumFor(rows, m') + (if m' != m then 0.0
                                  else match FindRow(rows, u, m)
                                       case Some(i) => v - rows[i].value
                                       case None => v)
  {
    match FindRow(rows, u, m)
    case Some(i) =>
      AggregatesUpdateRow(rows, i, v, m');
    case None =>
      var r' := rows + [RatingRow(u, m, v)];
      assert r'[..|r'| - 1] == rows;
  }

  /** A new rating of 5 for a movie with 3 ratings summing to 12 gives count 4 and average 4.25. */
  lemma NewRatingExample(rows: seq<RatingRow>, u: UserId, m: MovieId)
    requires CountFor(rows, m) == 3 && SumFor(rows, m) == 12.0
    requires FindRow(rows, u, m).None?
    ensures CountFor(Upsert(rows, u, m, 5.0), m) == 4
    ensures Average(Upsert(rows, u, m, 5.0), m) == 4.25
  {
    UpsertAggregates(rows, u, m, 5.0, m);
    var r' := Upsert(rows, u, m, 5.0);
    assert Mean(r', m) == 4.25;
    Round2OfCents(4.25);
  }

  /** Writing an in-range value for a catalog movie keeps the table well formed. */
  lemma UpsertWellFormed(rows: seq<RatingRow>, movies: map<MovieId, Movie>, u: UserId, m: MovieId, v: real)
    requires WellFormed(rows, movies) && InRange(v) && m in movies
    ensures WellFormed(Upsert(rows, u, m, v), movies)
  {
    UpsertSingleRow(rows, u, m, v);
  }

  // ---------------------------------------------------------------------------
  // The cached statistics
  // ---------------------------------------------------------------------------

  /** Movie `m`'s cached statistics equal COUNT and the rounded AVG over the current table. */
  ghost predicate Synced(movies: map<MovieId, Movie>, rows: seq<RatingRow>, m: MovieId) {
    m in movies ==>
      movies[m].ratingsCount == CountFor(rows, m) && movies[m].avgRating == Some(Average(rows, m))
  }

  /** Every movie's cached statistics agree with the table. */
  ghost predicate Consistent(movies: map<MovieId, Movie>, rows: seq<RatingRow>) {
    forall m :: m in movies ==> Synced(movies, rows, m)
  }

  /** The movie's own columns, everything but the two cached statistics. */
  ghost predicate SameDescription(a: Movie, b: Movie) {
    a.title == b.title && a.genre == b.genre && a.releaseYear == b.releaseYear && a.posterPath == b.posterPath
  }

  /** The `UPDATE movies ... WHERE movie_id = m` that recomputes one movie's statistics. */
  function Refresh(movies: map<MovieId, Movie>, rows: seq<RatingRow>, m: MovieId): (r: map<MovieId, Movie>)
    ensures r.Keys == movies.Keys
    ensures Synced(r, rows, m)
    ensures m in movies ==> SameDescription(r[m], movies[m])
    ensures forall m' :: m' in movies && m' != m ==> r[m'] == movies[m']
  {
    if m in movies then
      movies[m := movies[m].(ratingsCount := CountFor(rows, m), avgRating := Some(Average(rows, m)))]
    else movies
  }

  /** A catalog in which every movie still has the column defaults. */
  predicate AtDefaults(movies: map<MovieId, Movie>) {
    forall id :: id in movies ==>
      movies[id] == NewMovie(movies[id].title, movies[id].genre, movies[id].releaseYear, movies[id].posterPath)
  }

  /** The column defaults (average 0.0, count 0) are exactly the statistics of an empty ratings table. */
  lemma NewCatalogConsistent(movies: map<MovieId, Movie>)
    ensures AtDefaults(movies) <==> Consistent(movies, [])
  {
    if Consistent(movies, []) {
      forall id | id in movies
        ensures movies[id] == NewMovie(movies[id].title, movies[id].genre, movies[id].releaseYear, movies[id].posterPath)
      {
        assert Synced(movies, [], id);
      }
    }
  }

  /** Running the recomputation again on the same table changes nothing. */
  lemma RefreshIdempotent(movies: map<MovieId, Movie>, rows: seq<RatingRow>, m: MovieId)
    ensures Refresh(Refresh(movies, rows, m), rows, m) == Refresh(movies, rows, m)
  {
  }

  /** A write for movie `m` followed by the recomputation of `m` keeps every movie in step with the table. */
  lemma WritePreservesConsistency(movies: map<MovieId, Movie>, rows: seq<RatingRow>, u: UserId, m: MovieId, v: real)
    requires Consistent(movies, rows)
    ensures Consistent(Refresh(movies, Upsert(rows, u, m, v), m), Upsert(rows, u, m, v))
  {
    var r' := Upsert(rows, u, m, v);
    var ms := Refresh(movies, r', m);
    forall m' | m' in ms
      ensures Synced(ms, r', m')
    {
      if m' != m {
        UpsertAggregates(rows, u, m, v, m');
        assert Synced(movies, rows, m');
      }
    }
  }

  /** In a well-formed, consistent store every cached count is the number of raters and every average lies in [0, 5]. */
  lemma ConsistentStatistics(movies: map<MovieId, Movie>, rows: seq<RatingRow>, m: MovieId)
    requires WellFormed(rows, movies) && Consistent(movies, rows) && m in movies
    ensures movies[m].ratingsCount == |RatersOf(rows, m)|
    ensures movies[m].avgRating.Some? && InRange(movies[m].avgRating.value)
  {
    assert Synced(movies, rows, m);
    CountForRaters(rows, m);
    AverageInRange(rows, m);
  }
}
