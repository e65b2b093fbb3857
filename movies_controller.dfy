/** The movie controller as a state machine over an in-memory store: each
    action is one atomic step that validates, then changes the store (or not),
    and returns an action result. */
module MoviesControllers {
  import opened Basics
  import opened Genres
  import opened Posters
  import opened MovieForms
  import opened Movies

  /** What an action returns to the web layer. */
  datatype ActionResult =
    | FormView(form: MovieForm, errors: seq<ModelError>)   // the movie form, re-rendered
    | ListView(movies: seq<Movie>)                          // the Index page
    | DetailsView(movie: Movie)                             // the Details page
    | RedirectToIndex
    | BadRequest
    | NotFound
    | Ok
    | Fault                                                 // an exception escapes the action

  class MoviesController {
    /** The genre table: reference data, never changed by these actions. */
    const genres: seq<Genre>
    /** The movie table, keyed by id. */
    var movies: map<int, Movie>
    /** The next id the store's identity column hands out. */
    var nextId: int

    /** Every movie is stored under its own id, below the next id to be
        handed out, and satisfies the form's constraints. */
    ghost predicate Valid()
      reads this
    {
      IdsMatch(movies)
      && (forall id :: id in movies ==> id < nextId && WellFormed(movies[id]))
    }

    constructor (genres: seq<Genre>)
      ensures Valid()
      ensures this.genres == genres && movies == map[] && nextId == 1
    {
      this.genres := genres;
      movies := map[];
      nextId := 1;
    }

    /** The genre list the form shows: all genres, by name. */
    function GenreList(): (r: seq<Genre>)
      ensures SortedByName(r) && multiset(r) == multiset(genres)
    {
      OrderByName(genres)
    }

    /** A form sent back to the browser, its genre list repopulated. */
    function Refilled(f: MovieForm): MovieForm
    {
      f.(genres := Some(GenreList()))
    }

    /** Index: every stored movie exactly once, highest rate first. */
    method Index() returns (r: ActionResult)
      requires Valid()
      ensures r.ListView?
      ensures SortedByRate(r.movies)
      ensures multiset(r.movies) == multiset(movies.Values)
    {
      r := ListView(Ranked(movies));
    }

    /** Create (GET): a blank form with the genre list. */
    method CreateForm() returns (r: ActionResult)
      ensures r == FormView(EmptyForm(GenreList()), [])
      ensures SortedByName(r.form.genres.value) && multiset(r.form.genres.value) == multiset(genres)
    {
      r := FormView(EmptyForm(GenreList()), []);
    }

    /** Create (POST). Four checks in order — the form's constraints, a file
        present, its extension, its size; the first that fails re-renders the
        form with its error and leaves the store alone. When all pass, exactly
        one movie is added, under a fresh id. */
    method Create(form: MovieForm, files: seq<UploadedFile>) returns (r: ActionResult)
      requires Valid()
      modifies this
      ensures Valid()
      ensures r == RedirectToIndex <==> IsValid(form) && files != [] && PosterError(files[0]) == None
      ensures r != RedirectToIndex ==> movies == old(movies) && nextId == old(nextId)
      ensures !IsValid(form) ==> r == FormView(Refilled(form), FieldErrors(form))
      ensures IsValid(form) && files == [] ==>
        r == FormView(Refilled(form), [ModelError("Poster", MissingPosterMessage)])
      ensures IsValid(form) && files != [] && PosterError(files[0]).Some? ==>
        r == FormView(Refilled(form), [ModelError("Poster", PosterError(files[0]).value)])
      ensures r == RedirectToIndex ==>
        && old(nextId) !in old(movies)
        && movies == old(movies)[old(nextId) := NewMovie(old(nextId), form, files[0].bytes)]
        && nextId == old(nextId) + 1
    {
      if !IsValid(form) {
        return FormView(Refilled(form), FieldErrors(form));
      }
      if files == [] {
        return FormView(Refilled(form), [ModelError("Poster", MissingPosterMessage)]);
      }
      var poster := files[0];
      if !HasAllowedExtension(poster.fileName) {
        return FormView(Refilled(form), [ModelError("Poster", ExtensionMessage)]);
      }
      if |poster.bytes| > MaxAllowedPosterSize {
        return FormView(Refilled(form), [ModelError("Poster", SizeMessage)]);
      }
      var movie := NewMovie(nextId, form, poster.bytes);
      movies := movies[nextId := movie];
      nextId := nextId + 1;
      r := RedirectToIndex;
    }

    /** Edit (GET): BadRequest without an id, NotFound for an unknown one,
        otherwise the form filled from the stored movie. */
    method EditForm(id: Option<int>) returns (r: ActionResult)
      requires Valid()
      ensures id == None <==> r == BadRequest
      ensures id.Some? && id.value !in movies <==> r == NotFound
      ensures id.Some? && id.value in movies ==> r == FormView(FormOf(movies[id.value], GenreList()), [])
      ensures r.FormView? ==> IsValid(r.form) && r.form.id == id.value
    {
      if id == None {
        return BadRequest;
      }
      if id.value !in movies {
        return NotFound;
      }
      var movie := movies[id.value];
      assert id.value < nextId && WellFormed(movie);
      EditFormRoundTrip(movie, GenreList());
      r := FormView(FormOf(movie, GenreList()), []);
    }

    /** Edit (POST): the form's constraints first, then the id must be stored.
        A new file, when there is one, must pass the poster checks and then
        replaces the poster; without one the poster is kept. The five scalar
        fields are overwritten; no other movie changes. */
    method Edit(form: MovieForm, files: seq<UploadedFile>) returns (r: ActionResult)
      requires Valid()
      modifies this
      ensures Valid()
      ensures nextId == old(nextId)
      ensures !IsValid(form) ==> r == FormView(Refilled(form), FieldErrors(form))
      ensures IsValid(form) && form.id !in old(movies) ==> r == NotFound
      ensures IsValid(form) && form.id in old(movies) && files != [] && PosterError(files[0]).Some? ==>
        r == FormView(Refilled(form.(poster := Some(files[0].bytes))), [ModelError("Poster", PosterError(files[0]).value)])
      ensures r != RedirectToIndex ==> movies == old(movies)
      ensures r == RedirectToIndex <==>
        IsValid(form) && form.id in old(movies) && (files != [] ==> PosterError(files[0]) == None)
      ensures r == RedirectToIndex ==>
        movies == old(movies)[form.id := Edited(old(movies)[form.id], form,
                                                if files == [] then None else Some(files[0].bytes))]
    {
      if !IsValid(form) {
        return FormView(Refilled(form), FieldErrors(form));
      }
      if form.id !in movies {
        return NotFound;
      }
      var movie := movies[form.id];
      var newPoster: Option<seq<byte>> := None;
      if files != [] {
        var poster := files[0];
        var viewModel := form.(poster := Some(poster.bytes));
        if !HasAllowedExtension(poster.fileName) {
          return FormView(Refilled(viewModel), [ModelError("Poster", ExtensionMessage)]);
        }
        if |poster.bytes| > MaxAllowedPosterSize {
          return FormView(Refilled(viewModel), [ModelError("Poster", SizeMessage)]);
        }
        newPoster := Some(poster.bytes);
      }
      EditedWellFormed(movie, form, newPoster);
      movies := movies[form.id := Edited(movie, form, newPoster)];
      r := RedirectToIndex;
    }

    /** Details: BadRequest without an id; an unknown id makes the single-row
        lookup throw, so the action faults rather than reaching NotFound. */
    method Details(id: Option<int>) returns (r: ActionResult)
      requires Valid()
      ensures id == None <==> r == BadRequest
      ensures id.Some? && id.value !in movies <==> r == Fault
      ensures id.Some? && id.value in movies ==> r == DetailsView(movies[id.value])
      ensures r != NotFound
    {
      if id == None {
        return BadRequest;
      }
      if id.value !in movies {
        return Fault;
      }
      r := DetailsView(movies[id.value]);
    }

    /** Delete: BadRequest without an id, NotFound for an unknown one (store
        unchanged); otherwise exactly that id is removed and the result is Ok. */
    method Delete(id: Option<int>) returns (r: ActionResult)
      requires Valid()
      modifies this
      ensures Valid()
      ensures nextId == old(nextId)
      ensures id == None <==> r == BadRequest
      ensures id.Some? && id.value !in old(movies) <==> r == NotFound
      ensures r != Ok ==> movies == old(movies)
      ensures r == Ok <==> id.Some? && id.value in old(movies)
      ensures r == Ok ==> movies == old(movies) - {id.value}
    {
      if id == None {
        return BadRequest;
      }
      if id.value !in movies {
        return NotFound;
      }
      movies := movies - {id.value};
      r := Ok;
    }
  }
}
