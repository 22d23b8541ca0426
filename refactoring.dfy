/** What changed between the original controller and the refactored one:
    the listings agree, the Edit post does not. */
module Refactoring {
  import opened Models
  import opened Text
  import opened Linq
  import opened Data
  import Controllers
  import FeatureControllers

  /** Upper-casing the title before an ignore-case search changes nothing:
      both title searches keep the same movies. */
  lemma TitleSearchAgrees(m: Movie, searchString: string)
    ensures Controllers.TitleMatches(m, searchString) == FeatureControllers.TitleMatches(m, searchString)
  {
    if m.title.Some? {
      UpperIdempotent(m.title.value);
    }
  }

  /** Both listings build the same view model from the same table. */
  lemma IndexAgrees(all: seq<Movie>, movieGenre: string, searchString: string)
    ensures Controllers.IndexModel(all, movieGenre, searchString)
         == FeatureControllers.IndexModel(all, movieGenre, searchString)
  {
    forall m | m in all
      ensures Controllers.TitleFilter(searchString)(m) == FeatureControllers.TitleFilter(searchString)(m)
    {
      TitleSearchAgrees(m, searchString);
    }
    WhereCongruent(all, Controllers.TitleFilter(searchString), FeatureControllers.TitleFilter(searchString));
  }

  /** The search is case-insensitive: "incep" finds both "Inception" and
      "INCEPTION". */
  lemma SearchIgnoresCase(m: Movie)
    requires m.title == Some("Inception") || m.title == Some("INCEPTION")
    ensures Controllers.TitleMatches(m, "incep")
  {
  }

  /** With matching Ids, a valid form and a write that goes through, both
      Edit posts store the form and redirect; an invalid form is shown again
      by both. */
  lemma EditPostAgreesOnTheHappyPath(rows: map<int, Movie>, id: int, movie: Movie, isValid: bool, outcome: SaveOutcome)
    requires id == movie.id
    requires isValid ==> UpdateSaves(rows, movie, outcome)
    ensures Controllers.EditPostStep(rows, id, movie, isValid, outcome)
         == FeatureControllers.EditPostStep(rows, movie, isValid, outcome)
  {
  }

  /** A route id that differs from the posted record's Id: the original
      answers NotFound and stores nothing, the refactored one stores the
      record and redirects. */
  lemma EditPostIdMismatch(rows: map<int, Movie>, id: int, movie: Movie, outcome: SaveOutcome)
    requires id != movie.id && UpdateSaves(rows, movie, outcome)
    ensures Controllers.EditPostStep(rows, id, movie, true, outcome) == Step(Returned(NotFound), rows)
    ensures FeatureControllers.EditPostStep(rows, movie, true, outcome)
         == Step(Returned(RedirectToIndex), rows[movie.id := movie])
  {
  }

  /** A valid edit that the store does not save: the original reports it
      (NotFound for a missing record, the concurrency exception otherwise).
      The refactored one redirects with the table unchanged, provided the
      service reports the failure through its result rather than by
      throwing. */
  lemma EditPostUnsavedWrite(rows: map<int, Movie>, movie: Movie, outcome: SaveOutcome)
    requires !UpdateSaves(rows, movie, outcome)
    ensures Controllers.EditPostStep(rows, movie.id, movie, true, outcome).response
         == (if movie.id in rows then Raised(DbUpdateConcurrency) else Returned(NotFound))
    ensures FeatureControllers.EditPostStep(rows, movie, true, outcome) == Step(Returned(RedirectToIndex), rows)
  {
  }
}
