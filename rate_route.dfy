/**
 * The `/rate` endpoint (backend/app.py:147-199): it checks the request, writes
 * the rating into the `ratings` table and recomputes the rated movie's cached
 * statistics. The endpoint's JSON reply is reduced to a status.
 */
module RateRoute {
  import opened Wrappers
  import opened PyNumbers
  import opened Store

  /** The outcomes of one request. */
  datatype Status =
    | Rated             // {"ok": true}
    | NotAuthenticated  // no user in the session
    | MissingFields     // `movie_id` or `rating` absent or empty
    | InvalidNumber     // `int(movie_id)` or `float(rating)` raised
    | OutOfRange        // the rating is not within [0, 5] (NaN and the infinities included)
    | UnknownMovie      // the foreign key from `ratings` to `movies` refuses the new row

  function HttpCode(s: Status): (code: nat)
    ensures s == Rated <==> code == 200
    ensures s == NotAuthenticated <==> code == 401
    ensures s == UnknownMovie <==> code == 500
    ensures s.MissingFields? || s.InvalidNumber? || s.OutOfRange? <==> code == 400
  {
    match s
    case Rated => 200
    case NotAuthenticated => 401
    case UnknownMovie => 500
    case _ => 400
  }

  /** A form field is missing for Python's `not value`: absent, or the empty string. */
  predicate Blank(field: Option<string>) {
    field.None? || field.value == ""
  }

  /** A request that passed the checks, or the status it was turned away with. */
  datatype Checked = Accepted(user: UserId, movie: MovieId, value: real) | Rejected(status: Status)

  predicate Acceptable(f: PyFloat) {
    f.Finite? && InRange(f.value)
  }

  /** The checks of backend/app.py:149-166, in the order the endpoint makes them. */
  function CheckRequest(session: Option<UserId>, movieField: Option<string>, ratingField: Option<string>): (c: Checked)
    ensures c.Rejected? ==> c.status != Rated && c.status != UnknownMovie
    ensures c == Rejected(NotAuthenticated) <==> session.None?
    ensures c == Rejected(MissingFields) <==> session.Some? && (Blank(movieField) || Blank(ratingField))
    ensures c == Rejected(InvalidNumber) <==>
              session.Some? && !Blank(movieField) && !Blank(ratingField) &&
              (ParseInt(movieField.value).None? || ParseFloat(ratingField.value).None?)
    ensures c == Rejected(OutOfRange) <==>
              session.Some? && !Blank(movieField) && !Blank(ratingField) &&
              ParseInt(movieField.value).Some? && ParseFloat(ratingField.value).Some? &&
              !Acceptable(ParseFloat(ratingField.value).value)
    ensures c.Accepted? <==>
              session.Some? && !Blank(movieField) && !Blank(ratingField) &&
              ParseInt(movieField.value).Some? && ParseFloat(ratingField.value).Some? &&
              Acceptable(ParseFloat(ratingField.value).value)
    ensures c.Accepted? ==>
              && session == Some(c.user)
              && ParseInt(movieField.value) == Some(c.movie)
              && ParseFloat(ratingField.value) == Some(Finite(c.value))
              && InRange(c.value)
  {
    if session.None? then Rejected(NotAuthenticated)
    else if Blank(movieField) || Blank(ratingField) then Rejected(MissingFields)
    else
      match (ParseInt(movieField.value), ParseFloat(ratingField.value))
      case (Some(m), Some(f)) =>
        if Acceptable(f) then Accepted(session.value, m, f.value) else Rejected(OutOfRange)
      case _ => Rejected(InvalidNumber)
  }

  /**
   * With a signed-in user and a movie field written as a number, a rating
   * field that reads as `f` is judged by `f` alone: accepted with its value
   * when it is finite and within range, out of range otherwise.
   */
  lemma ParsedRating(user: UserId, movie: MovieId, t: string, f: PyFloat)
    requires ParseFloat(t) == Some(f)
    ensures CheckRequest(Some(user), Some(ShowInt(movie)), Some(t)) ==
              if Acceptable(f) then Accepted(user, movie, f.value) else Rejected(OutOfRange)
  {
    ParseIntShowInt(movie);
    ShowNatDigits(if movie < 0 then -movie else movie);
    EmptyNotFloat();
    assert t != "";
    assert !Blank(Some(ShowInt(movie))) && !Blank(Some(t));
  }

  /** A well-formed decimal rating between 0 and 5 from a signed-in user is accepted as written. */
  lemma WholeStarsAccepted(user: UserId, movie: MovieId, stars: int)
    requires 0 <= stars <= 5
    ensures CheckRequest(Some(user), Some(ShowInt(movie)), Some(ShowInt(stars))) == Accepted(user, movie, stars as real)
  {
    ParseFloatShowInt(stars);
    ParsedRating(user, movie, ShowInt(stars), Finite(stars as real));
  }

  /** A whole number of stars above 5 or below 0 is turned away as out of range. */
  lemma WholeStarsOutOfRange(user: UserId, movie: MovieId, stars: int)
    requires stars < 0 || stars > 5
    ensures CheckRequest(Some(user), Some(ShowInt(movie)), Some(ShowInt(stars))) == Rejected(OutOfRange)
  {
    ParseFloatShowInt(stars);
    ParsedRating(user, movie, ShowInt(stars), Finite(stars as real));
  }

  /**
   * A rating written with a decimal point (`4.5`, `03.75`) is accepted with
   * the value it denotes when that value is at most 5, and is out of range otherwise.
   */
  lemma FractionalStars(user: UserId, movie: MovieId, t: string, k: nat)
    requires 0 < k < |t| - 1 && t[k] == '.'
    requires AllDigits(t[..k]) && AllDigits(t[k + 1..])
    ensures var v := PointValue(t[..k], t[k + 1..]);
            CheckRequest(Some(user), Some(ShowInt(movie)), Some(t)) ==
              if v <= MAX_RATING then Accepted(user, movie, v) else Rejected(OutOfRange)
  {
    FractionParse(t, k);
    FractionBetween(t[..k], t[k + 1..]);
    ParsedRating(user, movie, t, Finite(PointValue(t[..k], t[k + 1..])));
  }

  /** Hence four stars or fewer before the point are always accepted, whatever the fraction. */
  lemma FractionalStarsAccepted(user: UserId, movie: MovieId, t: string, k: nat)
    requires 0 < k < |t| - 1 && t[k] == '.'
    requires AllDigits(t[..k]) && AllDigits(t[k + 1..]) && DigitsValue(t[..k]) <= 4
    ensures CheckRequest(Some(user), Some(ShowInt(movie)), Some(t)).Accepted?
  {
    FractionalStars(user, movie, t, k);
    FractionBetween(t[..k], t[k + 1..]);
  }

  /** `inf`, `infinity` and `nan`, signed or not and in any case, parse but are out of range. */
  lemma SpecialValuesOutOfRange(user: UserId, movie: MovieId, sign: string, word: string)
    requires IsSign(sign) && SpecialWord(word)
    ensures CheckRequest(Some(user), Some(ShowInt(movie)), Some(sign + word)) == Rejected(OutOfRange)
  {
    SpecialParse(sign, word);
    var f := if EqualsIgnoreCase(word, "nan") then NaN else Infinite(sign == "-");
    ParsedRating(user, movie, sign + word, f);
  }

  /** The two tables the endpoint writes: `ratings` and the cached columns of `movies`. */
  class MovieStore {
    var ratings: seq<RatingRow>
    var movies: map<MovieId, Movie>

    ghost predicate Valid()
      reads this
    {
      WellFormed(ratings, movies)
    }

    /** The ratings table as the map (user, movie) -> rating. */
    ghost function Table(): map<(UserId, MovieId), real>
      reads this
    {
      Ledger(ratings)
    }

    /** A store over a movie catalog, with no ratings yet. */
    constructor (catalog: map<MovieId, Movie>)
      ensures Valid()
      ensures ratings == [] && movies == catalog
      ensures AtDefaults(catalog) ==> Consistent(movies, ratings)
    {
      ratings := [];
      movies := catalog;
      NewCatalogConsistent(catalog);
    }

    /** One POST to `/rate`: check the request, write the rating, recompute the movie's statistics. */
    method Rate(session: Option<UserId>, movieField: Option<string>, ratingField: Option<string>) returns (status: Status)
      requires Valid()
      modifies this
      ensures Valid()
      ensures match CheckRequest(session, movieField, ratingField)
              case Rejected(s) =>
                status == s && ratings == old(ratings) && movies == old(movies)
              case Accepted(u, m, v) =>
                if m !in old(movies) then
                  status == UnknownMovie && ratings == old(ratings) && movies == old(movies)
                else
                  && status == Rated
                  && ratings == Upsert(old(ratings), u, m, v)
                  && movies == Refresh(old(movies), ratings, m)
                  && Table() == old(Table())[(u, m) := v]
      ensures status != Rated ==> ratings == old(ratings) && movies == old(movies)
      ensures Consistent(old(movies), old(ratings)) ==> Consistent(movies, ratings)
    {
      var c := CheckRequest(session, movieField, ratingField);
      if c.Rejected? {
        return c.status;
      }
      var u, m, v := c.user, c.movie, c.value;
      if m !in movies {
        return UnknownMovie;
      }
      var rows := ratings;
      UpsertLedger(rows, u, m, v);
      UpsertWellFormed(rows, movies, u, m, v);
      if Consistent(movies, rows) {
        WritePreservesConsistency(movies, rows, u, m, v);
      }
      var existing := FindRow(rows, u, m);
      if existing.Some? {
        var i := existing.value;
        ratings := rows[i := rows[i].(value := v)];
      } else {
        ratings := rows + [RatingRow(u, m, v)];
      }
      assert ratings == Upsert(rows, u, m, v);
      movies := movies[m := movies[m].(ratingsCount := CountFor(ratings, m), avgRating := Some(Average(ratings, m)))];
      status := Rated;
    }
  }
}
