/** The original movies controller, which talks to the database context
    directly: listing with a title search and a genre filter, the lookups
    behind Details, Edit and Delete, and the Create, Edit and Delete posts
    with their validation gate and optimistic-concurrency handling. */
module Controllers {
  import opened Models
  import opened Text
  import opened Linq
  import opened Data

  /** The title search: the upper-cased title contains the upper-cased search
      string. A movie without a title never matches. */
  predicate TitleMatches(m: Movie, searchString: string)
  {
    m.title.Some? && Contains(Upper(m.title.value), Upper(searchString))
  }

  /** The title search as the predicate handed to Where. */
  function TitleFilter(searchString: string): Movie -> bool
  {
    m => TitleMatches(m, searchString)
  }

  /** Whether the listing keeps a movie; an empty (or null) filter string
      applies no filter on its axis. */
  predicate Selected(m: Movie, movieGenre: string, searchString: string)
  {
    (searchString == "" || TitleMatches(m, searchString)) &&
    (movieGenre == "" || HasGenre(m, movieGenre))
  }

  /** The view model of the listing page built from the whole table. */
  function IndexModel(all: seq<Movie>, movieGenre: string, searchString: string): (vm: MovieGenreViewModel)
    ensures vm.genres == DistinctGenres(all)
    ensures vm.movieGenre == None
    ensures IsSubsequence(vm.movies, all)
    ensures forall m :: m in vm.movies <==> m in all && Selected(m, movieGenre, searchString)
    ensures movieGenre == "" && searchString == "" ==> vm.movies == all
  {
    var searched := if searchString != "" then Where(all, TitleFilter(searchString)) else all;
    var movies := if movieGenre != "" then Where(searched, GenreFilter(movieGenre)) else searched;
    SubsequenceReflexive(searched);
    SubsequenceReflexive(all);
    SubsequenceTransitive(movies, searched, all);
    MovieGenreViewModel(DistinctGenres(all), movies, None)
  }

  /** The decision tree of the Edit post, over the table before the request:
      route/record Id mismatch first, then validity, then the update, and on
      a concurrency conflict a re-check of whether the record still exists. */
  function EditPostStep(rows: map<int, Movie>, id: int, movie: Movie, isValid: bool, outcome: SaveOutcome): (s: Step)
    ensures id != movie.id ==> s == Step(Returned(NotFound), rows)
    ensures id == movie.id && !isValid ==> s == Step(Returned(MovieView(Some(movie))), rows)
    ensures s.response == Returned(RedirectToIndex) <==> id == movie.id && isValid && UpdateSaves(rows, movie, outcome)
    ensures s.response == Returned(NotFound) <==> id != movie.id || (isValid && movie.id !in rows)
    ensures s.response.Raised? <==> id == movie.id && isValid && movie.id in rows && outcome == ConcurrencyConflict
    ensures s.rows == if s.response == Returned(RedirectToIndex) then rows[movie.id := movie] else rows
    ensures KeyedById(rows) ==> KeyedById(s.rows)
  {
    if id != movie.id then Step(Returned(NotFound), rows)
    else if !isValid then Step(Returned(MovieView(Some(movie))), rows)
    else
      var after := AfterUpdate(rows, movie, outcome);
      if UpdateSaves(rows, movie, outcome) then Step(Returned(RedirectToIndex), after)
      else if movie.id !in after then Step(Returned(NotFound), after)
      else Step(Raised(DbUpdateConcurrency), after)
  }

  class MoviesController {
    const store: MovieStore

    constructor (store: MovieStore)
      ensures this.store == store
    {
      this.store := store;
    }

    /** GET Movies: the filtered listing and the genres of the whole table.
        The method has no modifies clause: the table is left as it was. */
    method Index(movieGenre: string, searchString: string) returns (r: ActionResult)
      requires store.Valid()
      ensures r == ListView(IndexModel(store.All(), movieGenre, searchString))
      ensures forall m :: m in r.model.movies ==> m in store.rows.Values
      ensures forall m :: m in store.rows.Values ==> m.genre in r.model.genres
    {
      var all := store.All();
      r := ListView(IndexModel(all, movieGenre, searchString));
    }

    /** GET Movies/Details/5: NotFound for a missing or unknown id, otherwise
        the stored record. */
    method Details(id: Option<int>) returns (r: ActionResult)
      requires store.Valid()
      ensures r == NotFound <==> id.None? || id.value !in store.rows
      ensures r != NotFound ==> r == MovieView(Some(store.rows[id.value]))
    {
      if id.None? {
        return NotFound;
      }
      store.FirstWithIdIsFind(id.value);
      var movie := FirstWithId(store.All(), id.value);
      if movie.None? {
        return NotFound;
      }
      return MovieView(movie);
    }

    /** POST Movies/Create: an invalid form is shown again with nothing
        stored; a valid one is inserted under the next identity value. */
    method Create(movie: Movie, isValid: bool) returns (r: ActionResult)
      requires store.Valid()
      modifies store
      ensures store.Valid()
      ensures !isValid ==> r == MovieView(Some(movie)) && store.rows == old(store.rows)
      ensures isValid ==> r == RedirectToIndex &&
                          exists id :: id !in old(store.rows) && store.rows == old(store.rows)[id := movie.(id := id)]
      ensures store.nextId == old(store.nextId) + (if isValid then 1 else 0)
    {
      if isValid {
        var id := store.Add(movie);
        return RedirectToIndex;
      }
      return MovieView(Some(movie));
    }

    /** GET Movies/Edit/5: like Details, through a keyed lookup. */
    method Edit(id: Option<int>) returns (r: ActionResult)
      requires store.Valid()
      ensures r == NotFound <==> id.None? || id.value !in store.rows
      ensures r != NotFound ==> r == MovieView(Some(store.rows[id.value]))
    {
      if id.None? {
        return NotFound;
      }
      var movie := store.Find(id.value);
      if movie.None? {
        return NotFound;
      }
      return MovieView(movie);
    }

    /** POST Movies/Edit/5: follows EditPostStep; a conflict on a record
        that still exists escapes as the concurrency exception. */
    method EditPost(id: int, movie: Movie, isValid: bool, outcome: SaveOutcome) returns (r: Response)
      requires store.Valid()
      modifies store
      ensures store.Valid()
      ensures store.nextId == old(store.nextId)
      ensures Step(r, store.rows) == EditPostStep(old(store.rows), id, movie, isValid, outcome)
    {
      if id != movie.id {
        return Returned(NotFound);
      }
      if !isValid {
        return Returned(MovieView(Some(movie)));
      }
      var saved := store.Update(movie, outcome);
      if !saved {
        if !MovieExists(movie.id) {
          return Returned(NotFound);
        }
        return Raised(DbUpdateConcurrency);
      }
      return Returned(RedirectToIndex);
    }

    /** GET Movies/Delete/5: the confirmation page, found as Details finds it. */
    method Delete(id: Option<int>) returns (r: ActionResult)
      requires store.Valid()
      ensures r == NotFound <==> id.None? || id.value !in store.rows
      ensures r != NotFound ==> r == MovieView(Some(store.rows[id.value]))
    {
      if id.None? {
        return NotFound;
      }
      store.FirstWithIdIsFind(id.value);
      var movie := FirstWithId(store.All(), id.value);
      if movie.None? {
        return NotFound;
      }
      return MovieView(movie);
    }

    /** POST Movies/Delete/5: removes the record if it is there and always
        goes back to the listing. */
    method DeleteConfirmed(id: int) returns (r: ActionResult)
      requires store.Valid()
      modifies store
      ensures store.Valid()
      ensures store.nextId == old(store.nextId)
      ensures r == RedirectToIndex
      ensures store.rows.Keys == old(store.rows).Keys - {id}
      ensures forall k :: k in store.rows ==> store.rows[k] == old(store.rows)[k]
    {
      var movie := store.Find(id);
      if movie.Some? {
        store.Remove(movie.value.id);
      }
      return RedirectToIndex;
    }

    /** Any(e => e.Id == id) over the table. */
    function MovieExists(id: int): (b: bool)
      reads store
      requires store.Valid()
      ensures b <==> id in store.rows
    {
      exists m | m in store.All() :: m.id == id
    }
  }
}
