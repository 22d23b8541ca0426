/** The catalogue's record type, the view model the listing pages render and
    the abstract results a controller action can produce. */
module Models {
  import opened Linq

  /** A value that may be absent: the source's nullable strings and lookups. */
  datatype Option<+T> = None | Some(value: T)

  /** A catalogue entry. The release date is kept as its year and month, the
      decimal price as an exact real; nothing in the controllers computes with
      either beyond comparing the year and the month. */
  datatype Movie = Movie(
    id: int,
    title: Option<string>,
    releaseYear: int,
    releaseMonth: int,
    genre: Option<string>,
    price: real,
    rating: Option<string>)

  /** What the listing page is given: the genres for the filter control, the
      movies to show and, for the by-genre page, the genre it was asked for. */
  datatype MovieGenreViewModel = MovieGenreViewModel(
    genres: seq<Option<string>>,
    movies: seq<Movie>,
    movieGenre: Option<string>)

  /** The results an action returns, with rendering left abstract:
      NotFound(), View(model) of the list page, View(movie) of a record form or
      page (View() of an empty form is MovieView(None)), and
      RedirectToAction(Index). */
  datatype ActionResult =
    | NotFound
    | ListView(model: MovieGenreViewModel)
    | MovieView(movie: Option<Movie>)
    | RedirectToIndex

  /** An exception an action lets escape. */
  datatype Fault = DbUpdateConcurrency

  /** How an action ends: it returns a result, or an exception propagates. */
  datatype Response = Returned(result: ActionResult) | Raised(fault: Fault)

  /** What an action leaves behind: its response and the table after it. */
  datatype Step = Step(response: Response, rows: map<int, Movie>)

  /** The exact, case-sensitive genre filter x.Genre == movieGenre; a movie
      with no genre never matches a non-empty genre. */
  predicate HasGenre(m: Movie, genre: string)
  {
    m.genre == Some(genre)
  }

  /** The genre filter as the predicate handed to Where. */
  function GenreFilter(genre: string): Movie -> bool
  {
    m => HasGenre(m, genre)
  }

  /** The Genre column of a sequence of movies, in the same order. */
  function GenreColumn(movies: seq<Movie>): (gs: seq<Option<string>>)
  {
    seq(|movies|, i requires 0 <= i < |movies| => movies[i].genre)
  }

  /** The distinct genres (null included) of a sequence of movies. */
  function DistinctGenres(movies: seq<Movie>): (gs: seq<Option<string>>)
    ensures NoDuplicates(gs)
    ensures forall g :: g in gs <==> exists m :: m in movies && m.genre == g
  {
    var column := GenreColumn(movies);
    assert forall g :: g in column <==> exists m :: m in movies && m.genre == g by {
      forall g | g in column ensures exists m :: m in movies && m.genre == g {
        var i :| 0 <= i < |column| && column[i] == g;
        assert movies[i] in movies;
      }
      forall g | exists m :: m in movies && m.genre == g ensures g in column {
        var m :| m in movies && m.genre == g;
        var i :| 0 <= i < |movies| && movies[i] == m;
        assert column[i] == g;
      }
    }
    Distinct(column)
  }
}
