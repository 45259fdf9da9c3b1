# Movie ratings: the rating write path and the top-rated fallback

This project is a Dafny model of two parts of the movie recommender's Flask back end,
with proofs about each.

- **The `/rate` endpoint** (`backend/app.py:147-199`). A signed-in user posts a movie id
  and a rating. The endpoint checks the request, writes the rating into the
  `ratings` table, and recomputes the rated movie's cached statistics
  (`ratings_count` and `avg_rating` in `movies`) from the table.
  - There is exactly one row per (user, movie) pair: an existing row is overwritten,
    otherwise a new row is appended.
  - Each check that fails ends the request with its own status and changes nothing.
- **The top-rated fallback** of `/recommendations` (`backend/app.py:231-248`). It runs when
  the recommendation procedure fails. It lists the catalog movies the user has not rated,
  best average first, cut to `limit`. Each entry is tagged "Top rated fallback", and a
  NULL average is shown as 0.

## Modules

- `wrappers.dfy` (`Wrappers`): `Option`.
- `py_numbers.dfy` (`PyNumbers`): Python's `int(str)` and `float(str)` on ASCII text, as
  the endpoint applies them to the form fields.
- `store.dfy` (`Store`): the rows of the `ratings` table and the `movies` catalog
  (field shapes and defaults from `backend/models.py:15-31`).
  - The table is a sequence of rows. Its ghost view `Ledger` is the map
    (user, movie) -> rating.
  - `Upsert` is the write.
  - `CountFor`, `SumFor`, `Round2` and `Average` are the SQL `COUNT` and
    `COALESCE(ROUND(AVG(..), 2), 0)`.
  - `Refresh` is the `UPDATE` of one movie's cached columns.
  - `Consistent` is the invariant that every cached statistic matches the table.
- `rate_route.dfy` (`RateRoute`): the checks (`CheckRequest`) and the class `MovieStore`,
  whose method `Rate` updates the two tables in place.
- `fallback.dfy` (`Fallback`): the fallback list. It is a filter (`Unrated`), then a
  stable sort by average with NULL last (`Sort`), then a take (`TopRated`), then the
  record construction (`FallbackList`).

## Modelling decisions

- **The table is a sequence of rows.** `backend/models.py:25-31` declares no unique
  constraint on (user, movie). At-most-one-row-per-pair (`UniquePairs`) is therefore an
  invariant the write path has to keep, not a given. For the same reason, the write path
  goes through `Rating.query...first()`, modelled by `FindRow`.
- **An unknown movie id gives its own status.** The column `ratings.movie_id` is a
  foreign key to `movies` (`backend/models.py:29`). Inserting a rating for a movie that
  does not exist makes the commit at `backend/app.py:175` raise, and the request ends with
  HTTP 500. In the model this is the status `UnknownMovie`, and nothing changes.
- **`NaN` and the infinities are out of range.** `float("nan")` and `float("inf")` parse,
  but fail `0 <= rating_val <= 5`, so they end with "rating out of range".
- **Ties in the fallback order.** `ORDER BY avg_rating DESC` fixes no order among equal
  averages. The model lists equal averages in ascending movie id. Every lemma about the
  list holds for any tie order.
- **A negative `limit`.** MySQL refuses `LIMIT` with a negative count, so `FallbackList`
  returns `None` for `limit < 0`.

## Model

| member | source | states |
|---|---|---|
| RateRoute.CheckRequest | backend/app.py:149-166 | Each rejection status holds exactly when its check is the first to fail (no session; an empty or missing field; `int`/`float` failing; a value that is not a finite number in [0, 5]). An accepted request carries the session user, the parsed id and a finite rating in [0, 5]. |
| RateRoute.HttpCode | backend/app.py:150-199 | 200 exactly for success, 401 exactly for no session, 500 exactly for an unknown movie; every other rejection is a 400. |
| RateRoute.WholeStarsAccepted | backend/app.py:156-166 | A signed-in request whose movie id and rating are written as decimal integers, with the rating from 0 to 5, is accepted with exactly those numbers. |
| RateRoute.WholeStarsOutOfRange | backend/app.py:165-166 | A whole-number rating below 0 or above 5 is rejected as out of range. |
| RateRoute.ParsedRating | backend/app.py:156-166 | With a signed-in user and a numeric movie field, a rating field that `float()` reads as `f` is accepted with `f`'s value exactly when `f` is finite and in [0, 5], and is otherwise out of range. |
| RateRoute.FractionalStars | backend/app.py:161-166 | A rating written as digits, a point and digits (`4.5`) is accepted with the number it denotes when that is at most 5, and rejected as out of range otherwise. |
| RateRoute.FractionalStarsAccepted | backend/app.py:161-166 | Such a rating whose whole part is at most 4 is always accepted. |
| RateRoute.SpecialValuesOutOfRange | backend/app.py:161-166 | `inf`, `infinity` and `nan`, with an optional sign and in any letter case, get past `float()` and are rejected as out of range. |
| RateRoute.MovieStore.constructor | backend/models.py:21-31 | A store over a catalog starts with an empty ratings table and satisfies the store invariant; when the catalog holds the column defaults, its statistics are consistent with the table from the start. |
| RateRoute.MovieStore.Rate | backend/app.py:147-186 | A rejected request, or one naming a movie not in the catalog, returns its status and changes neither table. Otherwise the table becomes `Upsert` of the old one and its ledger changes only at (u, m), now v. Only movie m's statistics are recomputed over the new table. The invariant and the consistency of the cached statistics are kept. |
| Store.NewCatalogConsistent | backend/models.py:21-22 | A catalog holds the column defaults (`avg_rating` 0.0, `ratings_count` 0, as `NewMovie` builds a row) exactly when its statistics agree with an empty ratings table. |
| Store.LedgerKeys | backend/models.py:25-31 | A pair is in the ledger exactly when some row carries it. |
| Store.LedgerValue | backend/models.py:25-31 | With unique pairs, the ledger maps each row's pair to that row's rating. |
| Store.PairCountLedger | backend/models.py:25-31 | With unique pairs, a pair has one row if it is in the ledger and none otherwise. |
| Store.Upsert | backend/app.py:168-173 | Specified by UpsertSingleRow, UpsertLedger and UpsertAggregates: one row for (u, m) holding v, the ledger updated only at (u, m), counts and sums moved accordingly. |
| Store.FindRow | backend/app.py:168 | `filter_by(...).first()`: the index of the first row for the pair, or none when no row has it. |
| Store.UpsertSingleRow | backend/app.py:168-173 | After the write there is exactly one row for (u, m), holding v. Pairs stay unique, and the table grows by one row only when the pair was new. |
| Store.UpsertLedger | backend/app.py:168-175 | As a map, the write sets (u, m) to v and leaves every other pair's rating unchanged. |
| Store.UpsertAggregates | backend/app.py:168-175 | The write adds one to m's count only for a new pair. It moves m's sum by v, or by the value difference for an overwrite. Every other movie's count and sum stay the same. |
| Store.UpsertWellFormed | backend/app.py:168-175 | A write of an in-range value for a catalog movie keeps pairs unique, values in range, and every row pointing at a catalog movie. |
| Store.CountFor | backend/app.py:183 | `COUNT(*)` over the movie's rows. Specified by CountForRaters (the number of raters) and UpsertAggregates (how a write moves it). |
| Store.SumFor | backend/app.py:184 | The sum of the movie's ratings. Specified by SumForBounds and UpsertAggregates. |
| Store.Mean | backend/app.py:184 | `AVG(rating)` for a movie with ratings, `SumFor / CountFor`. Specified through Average and AverageInRange. |
| Store.CountForRaters | backend/app.py:183 | With unique pairs, the count is the number of users who rated the movie. |
| Store.SumForBounds | backend/app.py:184 | With ratings in [0, 5], the sum lies between 0 and 5 times the count. |
| Store.Round2 | backend/app.py:184 | `ROUND(x, 2)` returns a whole number of hundredths within 0.005 of x. |
| Store.Round2Nearest | backend/app.py:184 | No whole number of hundredths is nearer to x than `Round2(x)`. |
| Store.Round2OfCents | backend/app.py:184 | Rounding a whole number of hundredths returns it unchanged. |
| Store.Average | backend/app.py:184 | It is 0 when the movie has no ratings. Otherwise it is a whole number of hundredths within 0.005 of the exact mean. |
| Store.AverageInRange | backend/app.py:184 | With ratings in [0, 5], the cached average lies in [0, 5]. |
| Store.NewRatingExample | backend/app.py:168-186 | A new 5 on a movie with three ratings summing to 12 gives count 4 and average 4.25. |
| Store.Refresh | backend/app.py:180-186 | The `UPDATE ... WHERE movie_id = m` brings m's count and average in line with the table. It keeps m's other columns and the set of movies, and no other movie changes. |
| Store.RefreshIdempotent | backend/app.py:180-186 | Running the recomputation twice over the same table gives the same catalog as running it once. |
| Store.WritePreservesConsistency | backend/app.py:168-186 | If every movie's statistics matched the old table, they all match the new table after the write and m's recomputation. |
| Store.ConsistentStatistics | backend/app.py:183-184 | In a consistent store, a movie's count is the number of its raters and its average is present and in [0, 5]. |
| Fallback.RatedBy | backend/app.py:231 | The sub-query holds exactly the movie ids of the user's rows. |
| Fallback.RatedByLedger | backend/app.py:231 | A movie is in the sub-query exactly when the user has a rating for it. |
| Fallback.Unrated | backend/app.py:231-234 | `WHERE movie_id NOT IN (...)`. Specified by UnratedMembers and UnratedDistinct. |
| Fallback.Candidates | backend/app.py:231-234 | The filter applied to the whole catalog. Specified by CandidatesSpec. |
| Fallback.UnratedMembers | backend/app.py:234 | The filter keeps exactly the ids not in the sub-query, each with its catalog row. |
| Fallback.UnratedDistinct | backend/app.py:234 | Filtering distinct ids gives distinct entries, one per unrated id. |
| Fallback.Insert | backend/app.py:235 | Inserting an entry adds exactly that entry to the list's multiset. |
| Fallback.RanksAtLeast | backend/app.py:235 | `ORDER BY avg_rating DESC` with NULL last. RanksAtLeastTotal and RanksAtLeastTransitive show it is a total preorder; InsertSorted uses its totality. |
| Fallback.RanksAtLeastTotal | backend/app.py:235 | Of any two movies, one may come before the other. |
| Fallback.RanksAtLeastTransitive | backend/app.py:235 | The order is transitive. |
| Fallback.InsertSorted | backend/app.py:235 | Inserting into a list ordered by average, NULL last, keeps it ordered. |
| Fallback.Sort | backend/app.py:235 | The sort is a permutation of its input. |
| Fallback.SortSorted | backend/app.py:235 | The sorted list is ordered by average, best first, NULL last. |
| Fallback.SortDistinct | backend/app.py:235 | Sorting keeps the movie ids distinct. |
| Fallback.AscendingIds | backend/app.py:233-235 | The catalog's ids are enumerated, each once, in ascending order. |
| Fallback.CandidatesSpec | backend/app.py:231-234 | The candidates are exactly the unrated catalog movies, each once, with their own rows. |
| Fallback.TopRated | backend/app.py:231-237 | Filter, `ORDER BY`, `LIMIT`. Specified by TopRatedLength, TopRatedMembers, TopRatedOrdered and TopRatedIsTop. |
| Fallback.TopRatedLength | backend/app.py:236 | With n unrated movies the list has min(limit, n) entries. |
| Fallback.TopRatedMembers | backend/app.py:231-237 | Every entry is an unrated catalog movie with its own row. |
| Fallback.TopRatedOrdered | backend/app.py:235-237 | The list is ordered by average, NULL last, and names no movie twice. |
| Fallback.TopRatedIsTop | backend/app.py:235-236 | An unrated movie left off the list ranks no higher than any movie on it. |
| Fallback.ToRecommendation | backend/app.py:240-248 | The record carries the user, the movie's id, title, genre and poster, the reason "Top rated fallback", and the average, read as 0 when NULL. |
| Fallback.FallbackList | backend/app.py:231-248 | The list exists exactly when `limit` is not negative. |
| Fallback.FallbackLength | backend/app.py:236-248 | It has min(limit, number of unrated movies) records, so at most `limit`. |
| Fallback.FallbackEntries | backend/app.py:231-248 | Every record is a catalog movie the user has not rated, tagged "Top rated fallback", built from that movie's row. |
| Fallback.FallbackOrdered | backend/app.py:235-248 | The records name distinct movies, ordered by average with NULL last. |
| Fallback.FallbackIsTop | backend/app.py:231-248 | Every listed movie ranks at least as high as every unrated movie that is left off. |
| Fallback.FallbackShownOrder | backend/app.py:235-245 | When no average is negative, the averages shown (NULL as 0) never increase down the list. |
| Fallback.FallbackOverConsistentStore | backend/app.py:231-248 | Over a consistent store, the averages shown lie in [0, 5] and never increase, and the user has rated none of the listed movies. |
| RateRoute.Blank | backend/app.py:156 | Python's `not value` on a form field: absent or empty. Specified through CheckRequest's `MissingFields` clause. |
| PyNumbers.StripLeft | backend/app.py:160-161 | It drops exactly the leading whitespace. |
| PyNumbers.StripRight | backend/app.py:160-161 | It drops exactly the trailing whitespace. |
| PyNumbers.StripPadded | backend/app.py:160-161 | `strip()` removes the whitespace around a word and nothing of the word. |
| PyNumbers.ParseInt | backend/app.py:160 | Python's `int(s)`, `None` for the ValueError. Specified by ParseIntShowInt and ParseIntPadded. |
| PyNumbers.ParseIntPadded | backend/app.py:160 | `int()` of an integer's decimal form with whitespace around it gives back that integer. |
| PyNumbers.ParseIntShowInt | backend/app.py:160 | `int()` of an integer's decimal form gives back that integer. |
| PyNumbers.ParseFloat | backend/app.py:161 | Python's `float(s)`, `None` for the ValueError, with infinities and NaN. Specified by ParseFloatShowInt, FractionParse, SpecialParse and EmptyNotFloat, and through CheckRequest by the RateRoute lemmas above. |
| PyNumbers.ParseFloatShowInt | backend/app.py:161 | `float()` of an integer's decimal form gives that number as a finite value. |
| PyNumbers.FractionParse | backend/app.py:161 | `float()` of digits, a point at `k` and more digits is the whole part plus the fraction's digits over 10 to the power of their count. |
| PyNumbers.FractionBetween | backend/app.py:161 | Digits after the point add less than one to the whole part. |
| PyNumbers.SpecialParse | backend/app.py:161 | `float()` of an optional sign and `inf`/`infinity` in any case is the infinity of that sign; with `nan` it is NaN. |
| PyNumbers.EmptyNotFloat | backend/app.py:161 | `float("")` raises. |
| PyNumbers.ShowNatDigits | backend/app.py:160-161 | The decimal form of a natural number is a non-empty digit string whose value is the number. |

## Left out

- Flask routing, templates, `flash`, redirects and the JSON bodies (`backend/app.py:22-144`, `250-286`). `Rate` returns a status, and `HttpCode` gives its HTTP code.
- The session is a parameter to `Rate`; how a user gets into it (registration, login, password hashing) is not modelled.
- The stored procedures, including `generate_recommendations_for_user_v2` (`backend/app.py:194`, `214`). Their bodies are not part of this model. The call after a rating has its failure swallowed, so it does not change the status, and the model does not represent it.
- The SQL that reads the stored recommendations for display (`backend/app.py:217-226`, `260-269`). It only presents a table this model does not produce.
- Transactions. The rating commit and the aggregate `UPDATE` run as separate transactions. A failing `UPDATE` is printed and ignored. The model treats the whole success path as one atomic step, with no rollback and no concurrent writers.
- Floating point. Ratings and averages are exact `real`s. MySQL's behaviour on ties of approximate values depends on the platform.
- Store.Round2: rounds exact halves away from zero, but its contract promises only a multiple of 0.01 within 0.005 of the input, plus nearness. It says nothing about which way a tie goes.
- PyNumbers.ParseFloat: covers ASCII digits, a sign, an optional fraction, an exponent, and `inf`/`infinity`/`nan` in any letter case. It does not cover underscores in digit groups, non-ASCII digits or whitespace, or the rounding of a decimal string to the nearest double.
- PyNumbers.ParseInt: covers ASCII digits with an optional sign and surrounding ASCII whitespace. It does not cover underscores or non-ASCII digits. It has no length limit. CPython's `int()` raises ValueError on a string of more than 4300 digits. The endpoint then answers 400. The model parses the number, and `Rate` goes on to look it up, answering `UnknownMovie` unless the catalog holds that id.
- RateRoute.CheckRequest: compares the exact decimal value with [0, 5]. Python compares the double nearest to it. So `5.0000000000000001` (which is 5.0 as a double) and `-1e-400` (which is -0.0) pass the endpoint's range check but are `OutOfRange` in the model. Such inputs lie within one rounding step of a bound.
- `rating_id` and the `rated_at` and `created_at` timestamps. No property here depends on them.
- The `users` table. The session user is assumed to have a row in `users`. `ratings.user_id` is a foreign key to it (`backend/models.py:28`), so for a user without that row a new rating makes the commit at `backend/app.py:175` raise (HTTP 500), while `Rate` returns `Rated`.
- Store.Movie: `ratings_count` is a `nat`, although the column is nullable. Only missing averages are modelled as NULL.
- `backend/config.py`, because it only reads the environment and builds the database URI.
- The ORM declarations and `db.create_all`. They are used only for field shapes and defaults.
