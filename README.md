# MvcMovie catalogue: a Dafny model of the movies controllers

MvcMovie is a server-rendered movie catalogue. Users list movies, filter
them by title and genre, view them, and create, edit and delete them. The
repository has two versions of the same controller:

- the original `MoviesController`. It reads and writes the database context
  directly and guards each lookup and each edit.
- the refactored `MoviesController` under the `/movies` route prefix. It goes
  through a movie service, drops several of the guards, and adds listings by
  genre and by release date.

This project models both controllers over one record store.

- `models.dfy` (`Models`): the `Movie` record, with the release date kept as
  its year and month. It also holds the listing view model, an abstract
  action result (NotFound, list view, record view, redirect to the listing),
  a response that is either a returned result or a propagated exception,
  and the distinct-genre list.
- `text.dfy` (`Text`): ordinal string comparison with an ASCII case fold.
  `Contains` is proved equal to a reference definition ("`sub` occurs at some
  position").
- `linq.dfy` (`Linq`): `Where` and `Distinct`. `Where` keeps exactly the
  elements that satisfy the filter, every copy of them, in their original
  order. `Distinct` keeps every element once.
- `data.dfy` (`Data`): the record store. `MovieStore` is a class holding a
  `map<int, Movie>` keyed by Id, plus an identity counter. Each insert takes
  the counter's value and advances it, and nothing else moves it, so an Id
  is never handed out twice, even after a delete. The table is enumerated in ascending Id order. A scan for the first
  record with a given Id is proved equal to the keyed lookup. An update never
  inserts a record.
- `controllers.dfy` (`Controllers`): the original controller. The listing is
  a pure function of the table. Details, Edit (GET) and Delete (GET) return
  NotFound for a missing or unknown id. The Edit post's decision tree is a
  pure function, `EditPostStep`, and the class method is proved to follow it.
- `feature_controllers.dfy` (`FeatureControllers`): the refactored
  controller, including `ByGenre` and `Released`. It has no NotFound branch
  and never compares the route id with the posted Id.
- `refactoring.dfy` (`Refactoring`): lemmas comparing the two versions. The
  listings agree. The Edit posts differ on a mismatched id and on a write
  that is not saved.

Inputs the source gets from code that is not shown are parameters here:

- `isValid` stands for `ModelState.IsValid`.
- `SaveOutcome` (`Saved` or `ConcurrencyConflict`) stands for what
  `SaveChangesAsync` reports on an update.
- A null or empty query string is the empty string, since both are read
  through `String.IsNullOrEmpty`.
- The nullable route id of the original controller is an `Option<int>`.

Two behaviours of the code differ from what a reader of the routes would
expect. The model follows the code:

- An optional month suggests that `Released` without a month lists the
  whole year. The code compares a null month with `0` and with the release
  month. Both comparisons are false, so it returns no movies.
- The original Edit post answers NotFound when the record to update is
  gone. The refactored Edit post ignores the value `UpdateAsync` returns and
  redirects after every valid form. This holds as long as the service
  reports a failed update through its result. The service is not part of
  this model, so the model assumes it does not throw.

## Model

| member | source | states |
|---|---|---|
| `Text.Contains` | MvcMovie/Controllers/MoviesController.cs:53 | ordinal `Contains` is true exactly when the substring occurs at some position of the string (the empty string occurs everywhere) |
| `Text.Upper` | MvcMovie/Controllers/MoviesController.cs:53 | `ToUpper()` keeps the length, leaves no lower-case ASCII letter, turns each lower-case letter into the matching capital, and keeps every other character |
| `Text.EqualsIgnoreCase` | MvcMovie/Features/Movies/Controllers/MoviesController.cs:145 | `string.Equals(a, b, OrdinalIgnoreCase)` holds exactly when the strings have the same length and agree character by character once folded |
| `Text.ContainsIgnoreCase` | MvcMovie/Features/Movies/Controllers/MoviesController.cs:39 | `Contains(sub, OrdinalIgnoreCase)` holds exactly when the substring occurs at some position, comparing folded characters |
| `Linq.Where` | MvcMovie/Controllers/MoviesController.cs:50-62 | a filtered query keeps exactly the elements that satisfy the filter, as many times as each occurs in the input, and keeps them in their original order |
| `Linq.SubsequenceTransitive` | MvcMovie/Controllers/MoviesController.cs:47-62 | two filters applied one after the other still give an order-preserving selection of the table |
| `Linq.Distinct` | MvcMovie/Features/Movies/Controllers/MoviesController.cs:35 | `Distinct()` has no duplicates and holds exactly the elements of its input |
| `Models.DistinctGenres` | MvcMovie/Features/Movies/Controllers/MoviesController.cs:35 | the genre list has no duplicates and holds exactly the genres (null included) of the movies it is built from |
| `Data.Scan` | MvcMovie/Controllers/MoviesController.cs:47-48 | scanning the table yields exactly the stored records, in strictly ascending Id order |
| `Data.MovieStore.All` | MvcMovie/Features/Movies/Controllers/MoviesController.cs:33 | enumerating the store yields every stored record once, in ascending Id order |
| `Data.FirstWithId` | MvcMovie/Controllers/MoviesController.cs:87 | `FirstOrDefault(m => m.Id == id)` returns the first movie of the sequence with that Id, or null exactly when none has it |
| `Data.MovieStore.Find` | MvcMovie/Controllers/MoviesController.cs:144 | `FindAsync(id)` is null exactly when the key is not stored; otherwise it is the stored record, which on a valid store carries that Id and lies below the counter |
| `Data.MovieStore.FirstWithIdIsFind` | MvcMovie/Controllers/MoviesController.cs:215-216 | on a valid store, the first-with-Id scan returns the same record as the keyed lookup |
| `Data.AfterUpdate` | MvcMovie/Controllers/MoviesController.cs:178-179 | an update never adds or removes a key, changes only the record's own entry, and writes it only when saved |
| `Data.MovieStore.Add` | MvcMovie/Controllers/MoviesController.cs:118-119 | a valid store stays valid; the movie is inserted under the counter's current value, a key not in use before, and the counter moves one past it |
| `Data.IdNotReused` | MvcMovie/Controllers/MoviesController.cs:118-119 | after an add and a delete of that record, the next add gets a larger Id, and the deleted Id stays unused |
| `Data.MovieStore.Update` | MvcMovie/Controllers/MoviesController.cs:178-179 | the write is saved exactly when there is no conflict and the record exists; the table becomes `AfterUpdate` of the old one |
| `Data.MovieStore.Remove` | MvcMovie/Controllers/MoviesController.cs:231-239 | the table loses that key and nothing else |
| `Data.CrudRoundTrip` | Tests/MovieService_CRUDTest.cs:37-54 | add, then read, gives the record with its new Id; an update, then read, gives the new title; a delete, then read, gives null |
| `Controllers.IndexModel` | MvcMovie/Controllers/MoviesController.cs:43-68 | results are exactly the movies whose upper-cased title contains the upper-cased search (null titles never match) and whose genre equals the genre filter, in table order; empty filters return the whole table; the genre list comes from the unfiltered table |
| `Controllers.MoviesController.Index` | MvcMovie/Controllers/MoviesController.cs:29-74 | read-only: the listing is `IndexModel` of the whole table, every listed movie is stored, and every stored genre is offered |
| `Controllers.MoviesController.Details` | MvcMovie/Controllers/MoviesController.cs:77-101 | NotFound exactly when the id is null or not stored; otherwise a view of exactly the stored record |
| `Controllers.MoviesController.Create` | MvcMovie/Controllers/MoviesController.cs:114-131 | an invalid form is shown again and nothing is stored; a valid one is inserted under a fresh key, then redirects |
| `Controllers.MoviesController.Edit` | MvcMovie/Controllers/MoviesController.cs:134-157 | NotFound exactly when the id is null or not stored; otherwise a view of exactly the stored record |
| `Controllers.EditPostStep` | MvcMovie/Controllers/MoviesController.cs:164-205 | an id mismatch is NotFound before validity is looked at; an invalid form is shown again; it redirects exactly when the update is saved; NotFound after a failed save exactly when the record is gone; the exception escapes exactly on a conflict over an existing record; only a saved edit changes the table |
| `Controllers.MoviesController.EditPost` | MvcMovie/Controllers/MoviesController.cs:164-205 | the response and the new table are the ones `EditPostStep` gives for the old table |
| `Controllers.MoviesController.Delete` | MvcMovie/Controllers/MoviesController.cs:208-224 | NotFound exactly when the id is null or not stored; otherwise a view of exactly the stored record |
| `Controllers.MoviesController.DeleteConfirmed` | MvcMovie/Controllers/MoviesController.cs:229-241 | always redirects; a missing id leaves the table as it was; otherwise only that key goes and every other entry is unchanged |
| `Controllers.MoviesController.MovieExists` | MvcMovie/Controllers/MoviesController.cs:243-246 | `Any(e => e.Id == id)` over the table is true exactly when the key is stored |
| `FeatureControllers.IndexModel` | MvcMovie/Features/Movies/Controllers/MoviesController.cs:33-52 | results are exactly the movies with a non-null title containing the search, ignoring case, and the exact genre, in table order; empty filters return everything; the genre list comes from all movies |
| `FeatureControllers.MoviesController.Index` | MvcMovie/Features/Movies/Controllers/MoviesController.cs:31-56 | read-only: the listing is `IndexModel` of everything the service returns, and every stored genre is offered |
| `FeatureControllers.ByGenreModel` | MvcMovie/Features/Movies/Controllers/MoviesController.cs:142-153 | results are exactly the movies with a non-null genre equal to the route genre ignoring case, in order; the genre is echoed; the genre list comes from all movies |
| `FeatureControllers.MoviesController.ByGenre` | MvcMovie/Features/Movies/Controllers/MoviesController.cs:142-154 | read-only: the page is `ByGenreModel` of everything the service returns |
| `FeatureControllers.ReleasedModel` | MvcMovie/Features/Movies/Controllers/MoviesController.cs:157-169 | a month other than 0 gives exactly that year's movies from that month; month 0 gives the whole year; no month gives no movies |
| `FeatureControllers.MoviesController.Released` | MvcMovie/Features/Movies/Controllers/MoviesController.cs:157-169 | read-only: the page is `ReleasedModel` of everything the service returns |
| `FeatureControllers.MoviesController.Details` | MvcMovie/Features/Movies/Controllers/MoviesController.cs:60-66 | always a record view, never NotFound; it carries the stored record when there is one and null otherwise |
| `FeatureControllers.MoviesController.Create` | MvcMovie/Features/Movies/Controllers/MoviesController.cs:82-92 | an invalid form is shown again and the service is not called; a valid one is added under a fresh key, then redirects |
| `FeatureControllers.MoviesController.Edit` | MvcMovie/Features/Movies/Controllers/MoviesController.cs:96-103 | always a record view, never NotFound; it carries the stored record or null |
| `FeatureControllers.EditPostStep` | MvcMovie/Features/Movies/Controllers/MoviesController.cs:110-120 | never NotFound, given a service that does not throw; an invalid form shows the posted movie again and leaves the table alone; redirects exactly when the form is valid; the table changes only by a saved replace of the posted record, and never gains or loses a key |
| `FeatureControllers.MoviesController.EditPost` | MvcMovie/Features/Movies/Controllers/MoviesController.cs:110-120 | the result and the new table are the ones `EditPostStep` gives, whatever the route id |
| `FeatureControllers.MoviesController.Delete` | MvcMovie/Features/Movies/Controllers/MoviesController.cs:124-129 | always a record view, never NotFound; it carries the stored record or null |
| `FeatureControllers.MoviesController.DeleteConfirmed` | MvcMovie/Features/Movies/Controllers/MoviesController.cs:134-138 | always redirects; only that key leaves the table, and deleting a missing record changes nothing |
| `Refactoring.TitleSearchAgrees` | MvcMovie/Features/Movies/Controllers/MoviesController.cs:39 | the refactored ignore-case search over an upper-cased title keeps the same movies as the original upper-case-both-sides search |
| `Refactoring.IndexAgrees` | MvcMovie/Features/Movies/Controllers/MoviesController.cs:31-56 | both listings build the same view model from the same table |
| `Refactoring.SearchIgnoresCase` | MvcMovie/Controllers/MoviesController.cs:50-55 | the search "incep" matches the titles "Inception" and "INCEPTION" |
| `Refactoring.EditPostAgreesOnTheHappyPath` | MvcMovie/Features/Movies/Controllers/MoviesController.cs:110-120 | with matching ids and a write that is saved whenever the form is valid, both Edit posts give the same response and the same table |
| `Refactoring.EditPostIdMismatch` | MvcMovie/Controllers/MoviesController.cs:166-169 | on an id mismatch the original answers NotFound and stores nothing, while the refactored version stores the record and redirects |
| `Refactoring.EditPostUnsavedWrite` | MvcMovie/Controllers/MoviesController.cs:184-197 | on a valid edit that is not saved, the original answers NotFound or lets the exception escape, while the refactored version, given a service that does not throw, redirects with the table unchanged |

## Left out

- Logging: every `_logger` call is a side effect with no bearing on results.
- The `_context.Movie == null` guard and its `Problem` response: a null entity set cannot happen in a map-backed store.
- Create (GET) in both controllers: it renders the empty form and has no decision to model.
- Routing attributes, `[ValidateAntiForgeryToken]` and `[Bind]`: framework behaviour. Rendering and `SelectList` are reduced to the `ActionResult` datatype.
- The route constraints of `Released` (`year` at least 1900, `month` in 1..12) belong to routing and are not enforced. The model accepts any year and month, so the unreachable `month == 0` branch stays visible.
- `Task`/`await` and the transaction behaviour of `SaveChangesAsync`: each store operation is one atomic map update. Store-unavailable failures are not modelled.
- Concurrent requests: a concurrency conflict is an input. `MovieExists` reads the table as it is after the failed save, so a record deleted by another request is modelled as already absent.
- The legacy `orderby m.Genre` before `Distinct()`: the ordering of the genre list is not modelled. Both genre lists hold each genre once; their order is not stated.
- Table enumeration order: the source does not fix one. The model uses ascending Id, the order of an identity-keyed table scanned without ORDER BY.
- Culture-sensitive `ToUpper()` and full Unicode case folding: only ASCII letters are folded.
- `DateTime` is reduced to the year and month of the release date. The decimal price is carried as an exact real and never computed on.
- The `Movie` validation attributes: `ModelState.IsValid` is the input `isValid`.
- The legacy null-forgiving `Title!`: under SQL translation a null title never matches, and the model follows that. An in-memory evaluation would throw instead, and that is not modelled.
- The movie service implementation is not part of this model. `AddAsync` inserts under a fresh key. `UpdateAsync` is the same store update as the original, but it reports a failed write through its result, which the controller discards, instead of throwing. `DeleteAsync` removes the record if it is there. Any exception the service might throw is not modelled.
- FeatureControllers.EditPostStep: assumes `UpdateAsync` does not throw. The refactored Edit post has no try/catch, so a service that let `DbUpdateConcurrencyException` escape would fail the request instead of redirecting.
- Entity Framework's `Update` of a record whose Id is the default 0 (which it would insert) is not modelled. An update here never inserts.
- Tests/MovieService_CRUDTest.cs does not compile. Only its intended add/read/update/read/delete/read round trip is modelled, as `Data.CrudRoundTrip`.
