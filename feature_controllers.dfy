/** The refactored movies controller under the /movies route prefix, which
    goes through the movie service: the listing, the by-genre and
    by-release-date listings, the lookups, and the Create, Edit and Delete
    posts, which no longer check for missing records or mismatched Ids. */
module FeatureControllers {
  import opened Models
  import opened Text
  import opened Linq
  import opened Data

  /** The title search: a non-null title whose upper-cased form contains the
      search string, compared ignoring case. */
  predicate TitleMatches(m: Movie, searchString: string)
  {
    m.title.Some? && ContainsIgnoreCase(Upper(m.title.value), searchString)
  }

  /** The title search as the predicate handed to Where. */
  function TitleFilter(searchString: string): Movie -> bool
  {
    m => TitleMatches(m, searchString)
  }

  /** Whether the listing keeps a movie; an empty (or null) filter string
      applies no filter on its axis. */
  predicate Selected(m: Movie, movieGenre: string, searchString: string)
  {
    (searchString == "" || TitleMatches(m, searchString)) &&
    (movieGenre == "" || HasGenre(m, movieGenre))
  }

  /** The view model of GET /movies, built from GetAllAsync. */
  function IndexModel(all: seq<Movie>, movieGenre: string, searchString: string): (vm: MovieGenreViewModel)
    ensures vm.genres == DistinctGenres(all)
    ensures vm.movieGenre == None
    ensures IsSubsequence(vm.movies, all)
    ensures forall m :: m in vm.movies <==> m in all && Selected(m, movieGenre, searchString)
    ensures movieGenre == "" && searchString == "" ==> vm.movies == all
  {
    var genres := DistinctGenres(all);
    var searched := if searchString != "" then Where(all, TitleFilter(searchString)) else all;
    var movies := if movieGenre != "" then Where(searched, GenreFilter(movieGenre)) else searched;
    SubsequenceReflexive(searched);
    SubsequenceReflexive(all);
    SubsequenceTransitive(movies, searched, all);
    MovieGenreViewModel(genres, movies, None)
  }

  /** The by-genre filter: a non-null genre equal to the route value,
      ignoring case. */
  predicate GenreMatchesIgnoringCase(m: Movie, genre: string)
  {
    m.genre.Some? && EqualsIgnoreCase(m.genre.value, genre)
  }

  /** The view model of GET /movies/bygenre/{genre}. */
  function ByGenreModel(all: seq<Movie>, genre: string): (vm: MovieGenreViewModel)
    ensures vm.genres == DistinctGenres(all)
    ensures vm.movieGenre == Some(genre)
    ensures IsSubsequence(vm.movies, all)
    ensures forall m :: m in vm.movies <==> m in all && GenreMatchesIgnoringCase(m, genre)
  {
    var movies := Where(all, m => GenreMatchesIgnoringCase(m, genre));
    MovieGenreViewModel(DistinctGenres(all), movies, Some(genre))
  }

  /** The release-date filter as written: the year must match, and then
      `month == 0 ? true : ReleaseDate.Month == month` on a nullable month,
      where both comparisons are false when the month is absent. */
  predicate ReleasedIn(m: Movie, year: int, month: Option<int>)
  {
    m.releaseYear == year &&
    (if month == Some(0) then true else month.Some? && m.releaseMonth == month.value)
  }

  /** The release-date filter as the predicate handed to Where. */
  function ReleasedFilter(year: int, month: Option<int>): Movie -> bool
  {
    m => ReleasedIn(m, year, month)
  }

  /** The view model of GET /movies/released/{year}/{month?}. */
  function ReleasedModel(all: seq<Movie>, year: int, month: Option<int>): (vm: MovieGenreViewModel)
    ensures vm.genres == DistinctGenres(all)
    ensures vm.movieGenre == None
    ensures IsSubsequence(vm.movies, all)
    ensures month.Some? && month.value != 0 ==>
      forall m :: m in vm.movies <==> m in all && m.releaseYear == year && m.releaseMonth == month.value
    ensures month == Some(0) ==> forall m :: m in vm.movies <==> m in all && m.releaseYear == year
    ensures month.None? ==> vm.movies == []
  {
    var movies := Where(all, ReleasedFilter(year, month));
    assert month.None? ==> movies == [] by {
      if month.None? {
        WhereNoneIsEmpty(all, ReleasedFilter(year, month));
      }
    }
    MovieGenreViewModel(DistinctGenres(all), movies, None)
  }

  /** The Edit post over the table before the request: the route id is
      never consulted, an invalid form is shown again, and a valid one is
      handed to the service once, whatever it reports, before redirecting. */
  function EditPostStep(rows: map<int, Movie>, movie: Movie, isValid: bool, outcome: SaveOutcome): (s: Step)
    ensures s.response.Returned? && s.response.result != NotFound
    ensures s.response == Returned(RedirectToIndex) <==> isValid
    ensures !isValid ==> s == Step(Returned(MovieView(Some(movie))), rows)
    ensures s.rows != rows ==> isValid && UpdateSaves(rows, movie, outcome) && s.rows == rows[movie.id := movie]
    ensures isValid && UpdateSaves(rows, movie, outcome) ==> s.rows == rows[movie.id := movie]
    ensures s.rows.Keys == rows.Keys
  {
    if !isValid then Step(Returned(MovieView(Some(movie))), rows)
    else Step(Returned(RedirectToIndex), AfterUpdate(rows, movie, outcome))
  }

  class MoviesController {
    const movies: MovieStore

    constructor (movies: MovieStore)
      ensures this.movies == movies
    {
      this.movies := movies;
    }

    /** GET /movies. Read-only: no modifies clause. */
    method Index(movieGenre: string, searchString: string) returns (r: ActionResult)
      requires movies.Valid()
      ensures r == ListView(IndexModel(movies.All(), movieGenre, searchString))
      ensures forall m :: m in r.model.movies ==> m in movies.rows.Values
      ensures forall m :: m in movies.rows.Values ==> m.genre in r.model.genres
    {
      var all := movies.All();
      r := ListView(IndexModel(all, movieGenre, searchString));
    }

    /** GET /details/{id}: the lookup result goes to the view as it is, a
        missing record included. */
    method Details(id: int) returns (r: ActionResult)
      requires movies.Valid()
      ensures r.MovieView?
      ensures r.movie.Some? <==> id in movies.rows
      ensures r.movie.Some? ==> r.movie.value == movies.rows[id]
    {
      var movie := movies.Find(id);
      return MovieView(movie);
    }

    /** POST /movies/create: an invalid form is shown again without calling
        the service; a valid one is added once. */
    method Create(movie: Movie, isValid: bool) returns (r: ActionResult)
      requires movies.Valid()
      modifies movies
      ensures movies.Valid()
      ensures !isValid ==> r == MovieView(Some(movie)) && movies.rows == old(movies.rows)
      ensures isValid ==> r == RedirectToIndex &&
                          exists id :: id !in old(movies.rows) && movies.rows == old(movies.rows)[id := movie.(id := id)]
      ensures movies.nextId == old(movies.nextId) + (if isValid then 1 else 0)
    {
      if !isValid {
        return MovieView(Some(movie));
      }
      var id := movies.Add(movie);
      return RedirectToIndex;
    }

    /** GET /movies/edit/{id}: the lookup result goes to the view as it is. */
    method Edit(id: int) returns (r: ActionResult)
      requires movies.Valid()
      ensures r.MovieView?
      ensures r.movie.Some? <==> id in movies.rows
      ensures r.movie.Some? ==> r.movie.value == movies.rows[id]
    {
      var movie := movies.Find(id);
      return MovieView(movie);
    }

    /** POST /movies/edit/{id}: follows EditPostStep; `id` is unused. */
    method EditPost(id: int, movie: Movie, isValid: bool, outcome: SaveOutcome) returns (r: ActionResult)
      requires movies.Valid()
      modifies movies
      ensures movies.Valid()
      ensures movies.nextId == old(movies.nextId)
      ensures Step(Returned(r), movies.rows) == EditPostStep(old(movies.rows), movie, isValid, outcome)
    {
      if !isValid {
        return MovieView(Some(movie));
      }
      var _ := movies.Update(movie, outcome);
      return RedirectToIndex;
    }

    /** GET /movies/delete/{id}: the lookup result goes to the view as it is. */
    method Delete(id: int) returns (r: ActionResult)
      requires movies.Valid()
      ensures r.MovieView?
      ensures r.movie.Some? <==> id in movies.rows
      ensures r.movie.Some? ==> r.movie.value == movies.rows[id]
    {
      var movie := movies.Find(id);
      return MovieView(movie);
    }

    /** POST /movies/delete/{id}: DeleteAsync, then back to the listing;
        deleting a missing record changes nothing. */
    method DeleteConfirmed(id: int) returns (r: ActionResult)
      requires movies.Valid()
      modifies movies
      ensures movies.Valid()
      ensures movies.nextId == old(movies.nextId)
      ensures r == RedirectToIndex
      ensures movies.rows.Keys == old(movies.rows).Keys - {id}
      ensures forall k :: k in movies.rows ==> movies.rows[k] == old(movies.rows)[k]
    {
      movies.Remove(id);
      return RedirectToIndex;
    }

    /** GET /movies/bygenre/{genre}. Read-only. */
    method ByGenre(genre: string) returns (r: ActionResult)
      requires movies.Valid()
      ensures r == ListView(ByGenreModel(movies.All(), genre))
      ensures forall m :: m in r.model.movies ==> m in movies.rows.Values
    {
      var all := movies.All();
      r := ListView(ByGenreModel(all, genre));
    }

    /** GET /movies/released/{year}/{month?}. Read-only. */
    method Released(year: int, month: Option<int>) returns (r: ActionResult)
      requires movies.Valid()
      ensures r == ListView(ReleasedModel(movies.All(), year, month))
      ensures forall m :: m in r.model.movies ==> m in movies.rows.Values
    {
      var all := movies.All();
      r := ListView(ReleasedModel(all, year, month));
    }
  }
}
