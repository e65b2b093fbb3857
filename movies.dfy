/** The Movie entity, the records the controller builds from a form, and the
    rate-descending order in which the catalog is listed. */
module Movies {
  import opened Basics
  import opened Genres
  import opened Posters
  import opened MovieForms

  /** A stored movie. `id` is assigned by the store; the poster is the image's bytes. */
  datatype Movie = Movie(
    id: int,
    title: string,
    year: int,
    rate: real,
    storyLine: string,
    genreId: byte,
    poster: seq<byte>)

  /** What the store holds of every movie: the form's constraints on the copied
      fields, and a poster within the size limit. */
  predicate WellFormed(m: Movie)
  {
    !IsBlank(m.title) && |m.title| <= MaxTitleLength && RateInRange(m.rate)
    && !IsBlank(m.storyLine) && |m.storyLine| <= MaxStoryLineLength
    && |m.poster| <= MaxAllowedPosterSize
  }

  /** The record Create adds: the five scalar fields from the form, the poster
      from the uploaded bytes. */
  function NewMovie(id: int, f: MovieForm, poster: seq<byte>): Movie
  {
    Movie(id, f.title, f.year, f.rate, f.storyLine, f.genreId, poster)
  }

  /** Edit's field-by-field update of the tracked movie: the five scalar fields
      from the form, the poster only when a new one was accepted. */
  function Edited(m: Movie, f: MovieForm, newPoster: Option<seq<byte>>): Movie
  {
    m.(title := f.title, genreId := f.genreId, year := f.year, rate := f.rate, storyLine := f.storyLine,
       poster := if newPoster.Some? then newPoster.value else m.poster)
  }

  /** The form Edit (GET) fills from a stored movie, current poster included. */
  function FormOf(m: Movie, genres: seq<Genre>): MovieForm
  {
    MovieForm(m.id, m.title, m.year, m.rate, m.storyLine, Some(m.poster), m.genreId, Some(genres))
  }

  /** A record built from a valid form and an accepted poster is well formed. */
  lemma NewMovieWellFormed(id: int, f: MovieForm, poster: seq<byte>)
    requires IsValid(f) && |poster| <= MaxAllowedPosterSize
    ensures WellFormed(NewMovie(id, f, poster))
  {
  }

  /** Editing keeps the id, and keeps a record well formed when the form is
      valid and any new poster is within the limit. */
  lemma EditedWellFormed(m: Movie, f: MovieForm, newPoster: Option<seq<byte>>)
    requires WellFormed(m) && IsValid(f)
    requires newPoster.Some? ==> |newPoster.value| <= MaxAllowedPosterSize
    ensures Edited(m, f, newPoster).id == m.id
    ensures WellFormed(Edited(m, f, newPoster))
  {
  }

  /** The edit form of a stored movie passes validation, and submitting it back
      without a new file leaves the movie exactly as it was. */
  lemma EditFormRoundTrip(m: Movie, genres: seq<Genre>)
    requires WellFormed(m)
    ensures IsValid(FormOf(m, genres))
    ensures Edited(m, FormOf(m, genres), None) == m
  {
  }

  /** The edit form of a created movie shows back the submitted form, with the
      assigned id and the uploaded poster. */
  lemma FormOfNewMovie(id: int, f: MovieForm, poster: seq<byte>, genres: seq<Genre>)
    ensures FormOf(NewMovie(id, f, poster), genres) == f.(id := id, poster := Some(poster), genres := Some(genres))
  {
  }

  // ---------------------------------------------------------------------------
  // Listing order

  /** Every record is stored under its own id. */
  ghost predicate IdsMatch(store: map<int, Movie>)
  {
    forall id :: id in store ==> store[id].id == id
  }

  ghost predicate SortedByRate(s: seq<Movie>)
  {
    forall i, j :: 0 <= i < j < |s| ==> s[i].rate >= s[j].rate
  }

  lemma HasElement(ks: set<int>)
    requires ks != {}
    ensures exists k :: k in ks
  {
    if forall k :: k !in ks { assert false; }
  }

  lemma {:induction false} MinExists(ks: set<int>)
    requires ks != {}
    ensures exists k :: k in ks && forall j :: j in ks ==> k <= j
    decreases |ks|
  {
    HasElement(ks);
    var x :| x in ks;
    if ks != {x} {
      var others := ks - {x};
      MinExists(others);
      var y :| y in others && forall j :: j in others ==> y <= j;
      var m := if x < y then x else y;
      forall j | j in ks ensures m <= j {
        if j != x { assert j in others; }
      }
    } else {
      assert forall j :: j in ks ==> j == x;
    }
  }

  lemma ValueHasKey(store: map<int, Movie>, v: Movie)
    requires v in store.Values
    ensures exists j :: j in store && store[j] == v
  {
    if forall j :: j in store ==> store[j] != v { assert false; }
  }

  /** Removing one record from a store whose ids match takes exactly that
      record out of its values. */
  lemma ValuesWithout(store: map<int, Movie>, k: int)
    requires IdsMatch(store) && k in store
    ensures multiset(store.Values) == multiset((store - {k}).Values) + multiset{store[k]}
  {
    var smaller := store - {k};
    var rest := smaller.Values;
    assert store[k] !in rest by {
      if store[k] in rest {
        ValueHasKey(smaller, store[k]);
      }
    }
    assert store.Values == rest + {store[k]} by {
      forall v | v in store.Values ensures v in rest + {store[k]} {
        ValueHasKey(store, v);
        var j :| j in store && store[j] == v;
        if j != k { assert smaller[j] == v; }
      }
      forall v | v in rest ensures v in store.Values {
        ValueHasKey(smaller, v);
        var j :| j in smaller && smaller[j] == v;
        assert store[j] == v;
      }
    }
  }

  /** Every value of a store whose ids match is stored under its own id. */
  lemma ValueIdStored(store: map<int, Movie>, v: Movie)
    requires IdsMatch(store) && v in store.Values
    ensures v.id in store && store[v.id] == v
  {
    ValueHasKey(store, v);
  }

  /** The smallest of a non-empty set of ids. */
  function SmallestId(ks: set<int>): (k: int)
    requires ks != {}
    ensures k in ks && forall j :: j in ks ==> k <= j
  {
    MinExists(ks);
    var k :| k in ks && forall j :: j in ks ==> k <= j;
    k
  }

  /** The stored records in ascending id order. */
  function ByAscendingId(store: map<int, Movie>): (r: seq<Movie>)
    requires IdsMatch(store)
    ensures multiset(r) == multiset(store.Values)
    ensures forall i, j :: 0 <= i < j < |r| ==> r[i].id < r[j].id
    decreases |store|
  {
    if store == map[] then
      assert store.Values == {};
      []
    else
      HasElement(store.Keys);
      var k := SmallestId(store.Keys);
      var rest := ByAscendingId(store - {k});
      PrependSmallestId(store, k, rest);
      [store[k]] + rest
  }

  lemma PrependSmallestId(store: map<int, Movie>, k: int, rest: seq<Movie>)
    requires IdsMatch(store) && k in store && forall j :: j in store ==> k <= j
    requires multiset(rest) == multiset((store - {k}).Values)
    requires forall i, j :: 0 <= i < j < |rest| ==> rest[i].id < rest[j].id
    ensures multiset([store[k]] + rest) == multiset(store.Values)
    ensures forall i, j :: 0 <= i < j < |[store[k]] + rest| ==> ([store[k]] + rest)[i].id < ([store[k]] + rest)[j].id
  {
    ValuesWithout(store, k);
    var r := [store[k]] + rest;
    forall i, j | 0 <= i < j < |r| ensures r[i].id < r[j].id {
      if i == 0 {
        var v := rest[j - 1];
        assert v in multiset(rest);
        ValueIdStored(store - {k}, v);
        assert r[j] == v;
      } else {
        assert r[i] == rest[i - 1] && r[j] == rest[j - 1];
      }
    }
  }

  /** Puts `m` in front of the first listed movie it does not rate below. */
  function InsertByRate(m: Movie, s: seq<Movie>): (r: seq<Movie>)
    requires SortedByRate(s)
    ensures SortedByRate(r)
    ensures multiset(r) == multiset(s) + multiset{m}
    decreases |s|
  {
    if s == [] then
      [m]
    else if m.rate >= s[0].rate then
      PrependByRate(m, s);
      [m] + s
    else
      var rest := InsertByRate(m, s[1..]);
      InsertBehindByRate(m, s, rest);
      [s[0]] + rest
  }

  /** Prepending a movie rated at least as high as every listed one keeps the
      list sorted. */
  lemma PrependByRate(m: Movie, s: seq<Movie>)
    requires SortedByRate(s)
    requires s != [] ==> m.rate >= s[0].rate
    ensures SortedByRate([m] + s)
  {
  }

  lemma InsertBehindByRate(m: Movie, s: seq<Movie>, rest: seq<Movie>)
    requires SortedByRate(s) && s != [] && m.rate < s[0].rate
    requires SortedByRate(rest) && multiset(rest) == multiset(s[1..]) + multiset{m}
    ensures SortedByRate([s[0]] + rest)
    ensures multiset([s[0]] + rest) == multiset(s) + multiset{m}
  {
    var r := [s[0]] + rest;
    forall i, j | 0 <= i < j < |r| ensures r[i].rate >= r[j].rate {
      if i == 0 {
        var x := rest[j - 1];
        assert x in multiset(rest);
        if x != m {
          assert x in multiset(s[1..]);
          var k :| 0 <= k < |s[1..]| && s[1..][k] == x;
          assert s[k + 1] == x;
        }
        assert r[j] == x;
      } else {
        assert r[i] == rest[i - 1] && r[j] == rest[j - 1];
      }
    }
    assert s == [s[0]] + s[1..];
  }

  /** `OrderByDescending(x => x.Rate)`: an insertion sort, highest rate first. */
  function OrderByRateDescending(s: seq<Movie>): (r: seq<Movie>)
    ensures SortedByRate(r)
    ensures multiset(r) == multiset(s)
  {
    if s == [] then []
    else
      assert s == [s[0]] + s[1..];
      InsertByRate(s[0], OrderByRateDescending(s[1..]))
  }

  /** The listing: every stored movie exactly once, by rate, highest first. */
  function Ranked(store: map<int, Movie>): (r: seq<Movie>)
    requires IdsMatch(store)
    ensures SortedByRate(r)
    ensures multiset(r) == multiset(store.Values)
  {
    OrderByRateDescending(ByAscendingId(store))
  }

  /** Adding a record under a fresh id adds exactly it to the listing. */
  lemma RankedAfterAdd(store: map<int, Movie>, m: Movie)
    requires IdsMatch(store) && m.id !in store
    ensures IdsMatch(store[m.id := m])
    ensures multiset(Ranked(store[m.id := m])) == multiset(Ranked(store)) + multiset{m}
  {
    var bigger := store[m.id := m];
    assert bigger - {m.id} == store;
    ValuesWithout(bigger, m.id);
  }

  /** Removing a stored id takes exactly its record out of the listing. */
  lemma RankedAfterRemove(store: map<int, Movie>, id: int)
    requires IdsMatch(store) && id in store
    ensures IdsMatch(store - {id})
    ensures multiset(Ranked(store - {id})) == multiset(Ranked(store)) - multiset{store[id]}
  {
    ValuesWithout(store, id);
  }

  /** In the listing, a movie comes after every movie rated above it and before
      every movie rated below it. */
  lemma RankedPosition(store: map<int, Movie>, i: nat)
    requires IdsMatch(store) && i < |Ranked(store)|
    ensures Ranked(store)[i] in store.Values
    ensures forall j :: 0 <= j < i ==> Ranked(store)[j].rate >= Ranked(store)[i].rate
    ensures forall j :: i < j < |Ranked(store)| ==> Ranked(store)[j].rate <= Ranked(store)[i].rate
  {
    var r := Ranked(store);
    assert r[i] in multiset(r);
  }
}
