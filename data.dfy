/** The record store behind both controllers: the Movie table of the
    database context (legacy controller) and the store the movie service
    wraps (refactored controller). Records are keyed by Id; new Ids come from
    an identity counter and are never reused. */
module Data {
  import opened Models

  /** Every record is stored under its own Id. */
  ghost predicate KeyedById(rows: map<int, Movie>)
  {
    forall k :: k in rows ==> rows[k].id == k
  }

  /** The records under keys lo, lo + 1, ..., hi - 1, in ascending key
      order: a scan of an identity-keyed table without ORDER BY. */
  function Scan(rows: map<int, Movie>, lo: int, hi: int): (s: seq<Movie>)
    ensures forall m :: m in s <==> exists k :: lo <= k < hi && k in rows && rows[k] == m
    ensures KeyedById(rows) ==> forall i :: 0 <= i < |s| ==> lo <= s[i].id < hi
    ensures KeyedById(rows) ==> forall i, j :: 0 <= i < j < |s| ==> s[i].id < s[j].id
    decreases hi - lo
  {
    if lo >= hi then []
    else
      var rest := Scan(rows, lo + 1, hi);
      if lo in rows then
        assert forall m :: m in [rows[lo]] + rest <==> m == rows[lo] || m in rest;
        [rows[lo]] + rest
      else
        rest
  }

  /** FirstOrDefault(m => m.Id == id) over a sequence of movies. */
  function FirstWithId(s: seq<Movie>, id: int): (r: Option<Movie>)
    ensures r.Some? ==> r.value in s && r.value.id == id
    ensures r.None? <==> forall m :: m in s ==> m.id != id
    ensures r.Some? ==> exists i :: 0 <= i < |s| && s[i] == r.value && forall j :: 0 <= j < i ==> s[j].id != id
    decreases |s|
  {
    if s == [] then None
    else if s[0].id == id then Some(s[0])
    else
      assert forall m :: m in s ==> m == s[0] || m in s[1..];
      var r := FirstWithId(s[1..], id);
      assert r.Some? ==> exists k :: 0 <= k < |s| && s[k] == r.value && forall j :: 0 <= j < k ==> s[j].id != id by {
        if r.Some? {
          var i :| 0 <= i < |s[1..]| && s[1..][i] == r.value && forall j :: 0 <= j < i ==> s[1..][j].id != id;
          assert s[i + 1] == r.value && forall j :: 0 <= j < i + 1 ==> s[j].id != id;
        }
      }
      r
  }

  /** What the store says when SaveChanges runs an update. */
  datatype SaveOutcome = Saved | ConcurrencyConflict

  /** An update is written only when the store reports no conflict and the
      record is there to update (a missing record is reported as a
      concurrency conflict, zero rows having been affected). */
  predicate UpdateSaves(rows: map<int, Movie>, m: Movie, outcome: SaveOutcome)
  {
    outcome == Saved && m.id in rows
  }

  /** The table after an update attempt: a whole-record replace under the
      record's own Id, or nothing at all. */
  function AfterUpdate(rows: map<int, Movie>, m: Movie, outcome: SaveOutcome): (r: map<int, Movie>)
    ensures r.Keys == rows.Keys
    ensures forall k :: k in rows && k != m.id ==> r[k] == rows[k]
    ensures m.id in rows ==> r[m.id] == (if outcome == Saved then m else rows[m.id])
    ensures KeyedById(rows) ==> KeyedById(r)
  {
    if UpdateSaves(rows, m, outcome) then rows[m.id := m] else rows
  }

  class MovieStore {
    var rows: map<int, Movie>
    var nextId: int

    /** Records sit under their own Id, and every Id is below the next one
        the identity counter hands out. */
    ghost predicate Valid()
      reads this
    {
      1 <= nextId && KeyedById(rows) && forall k :: k in rows ==> 1 <= k < nextId
    }

    constructor ()
      ensures Valid() && rows == map[]
    {
      rows := map[];
      nextId := 1;
    }

    /** Enumerating the table (GetAllAsync, or the Movie set itself): every
        stored record once, in ascending Id order. */
    function All(): (s: seq<Movie>)
      reads this
      requires Valid()
      ensures forall m :: m in s <==> m in rows.Values
      ensures forall i, j :: 0 <= i < j < |s| ==> s[i].id < s[j].id
    {
      Scan(rows, 1, nextId)
    }

    /** Lookup by key (FindAsync, GetByIdAsync): the record stored under
        id, which on a valid store carries that Id, or None when there is
        none. */
    function Find(id: int): (r: Option<Movie>)
      reads this
      ensures r.None? <==> id !in rows
      ensures r.Some? ==> r.value in rows.Values && rows[id] == r.value
      ensures Valid() && r.Some? ==> r.value.id == id && 1 <= id < nextId
    {
      if id in rows then Some(rows[id]) else None
    }

    /** A scan for the first record with a given Id finds what the keyed
        lookup finds. */
    lemma FirstWithIdIsFind(id: int)
      requires Valid()
      ensures FirstWithId(All(), id) == Find(id)
    {
    }

    /** Inserts a record under the key the identity counter hands out,
        ignoring the Id it came with; the counter moves past it. */
    method Add(m: Movie) returns (id: int)
      requires Valid()
      modifies this
      ensures Valid()
      ensures id == old(nextId) && nextId == old(nextId) + 1
      ensures id !in old(rows) && rows == old(rows)[id := m.(id := id)]
    {
      id := nextId;
      rows := rows[id := m.(id := id)];
      nextId := nextId + 1;
    }

    /** Update followed by SaveChanges; says whether the write was saved. */
    method Update(m: Movie, outcome: SaveOutcome) returns (saved: bool)
      requires Valid()
      modifies this
      ensures Valid() && nextId == old(nextId)
      ensures saved == UpdateSaves(old(rows), m, outcome)
      ensures rows == AfterUpdate(old(rows), m, outcome)
    {
      saved := UpdateSaves(rows, m, outcome);
      rows := AfterUpdate(rows, m, outcome);
    }

    /** Removes the record with the given Id, if there is one. */
    method Remove(id: int)
      requires Valid()
      modifies this
      ensures Valid() && nextId == old(nextId)
      ensures rows == old(rows) - {id}
    {
      rows := rows - {id};
    }
  }

  /** An Id freed by a delete is not handed out again: add, delete, add on
      a fresh store gives two different Ids, and the first stays unused. */
  method IdNotReused(m1: Movie, m2: Movie) returns (id1: int, id2: int, after: Option<Movie>)
    ensures id1 < id2
    ensures after == None
  {
    var store := new MovieStore();
    id1 := store.Add(m1);
    store.Remove(id1);
    id2 := store.Add(m2);
    after := store.Find(id1);
  }

  /** The add / read / update / read / delete / read round trip the service
      is meant to support, run on a fresh store. */
  method CrudRoundTrip(m: Movie, newTitle: string)
    returns (id: int, read: Option<Movie>, updated: Option<Movie>, deleted: Option<Movie>)
    ensures read == Some(m.(id := id))
    ensures updated == Some(m.(id := id, title := Some(newTitle)))
    ensures deleted == None
  {
    var store := new MovieStore();
    id := store.Add(m);
    read := store.Find(id);
    var edited := read.value.(title := Some(newTitle));
    var saved := store.Update(edited, Saved);
    updated := store.Find(id);
    store.Remove(id);
    deleted := store.Find(id);
  }
}
