# IMDBApp movie management, modelled in Dafny

IMDBApp is a small catalogue website: it lists movies, creates and edits a
movie record with an uploaded poster image, shows details and deletes. All its
decision logic sits in `MoviesController`. This project models that logic as a
sequential state machine over an in-memory movie store. It also models the
poster rule and the form constraints of `MovieFormViewModel` as explicit
functions, and proves what each action does to the store.

Modules, one per component:

- `Basics` (basics.dfy): `Option` (a C# nullable) and `byte`.
- `Genres` (genres.dfy): the `Genre` record (`id: byte`, a name of at most 100
  characters). Also the by-name order in which every form lists genres: the
  database sorts the names under its collation, which the model stands in for
  by an ordinal (code-point) lexicographic order; an insertion sort in that
  order is proved sorted and a permutation.
- `Posters` (posters.dfy): the allowed extensions `.jpg`/`.png`, the
  1,048,576-byte limit and the three poster messages. Also ASCII lower-casing,
  a stand-in for `Path.GetExtension`, and `PosterError`, the ordered
  extension-then-size check.
- `MovieForms` (movie_form.dfy): the bound form, `IsValid` (what
  `ModelState.IsValid` says about it), the field errors it produces, and the
  `Range` finding below.
- `Movies` (movies.dfy): the `Movie` record and the records that Create and
  Edit build. Also the listing order: the store read out by id, then sorted by rate,
  highest first.
- `MoviesControllers` (movies_controller.dfy): class `MoviesController`. It
  holds the read-only genre list, `movies: map<int, Movie>` and the next
  identity value. It has one method per action.

Each action is one atomic step. `Valid()` is the store invariant:

- every record is stored under its own id, below the next id;
- every record meets the form constraints;
- every poster is within the size limit.

Every mutating action preserves `Valid()`.

Two points where the code behaves differently from what a reader may expect:

- **Details on an unknown id** returns `Fault`, not NotFound:
  `SingleAsync` (IMDBApp/Controllers/MoviesController.cs:183) throws before the
  null test at line 184 is reached. `Details` never returns NotFound.
- **Edit POST's `viewModel.Id == null`** (IMDBApp/Controllers/MoviesController.cs:134)
  tests a non-nullable `int`, so the branch is dead and is not modelled. An id
  that is not stored yields NotFound.

The rate check is the one exception to following the code: `IsValid`, the field
errors and the store invariant use the intended range [1, 10], not the range the
code accepts as written (see "## Findings").

## Model

| member | source | states |
|---|---|---|
| `MoviesControllers.MoviesController.constructor` | IMDBApp/Controllers/MoviesController.cs:17-21 | The controller starts over the given genres and an empty movie store whose first identity value is 1, and the store invariant holds |
| `MoviesControllers.MoviesController.GenreList` | IMDBApp/Controllers/MoviesController.cs:52 | The genre list given to every form is sorted by name and holds exactly the stored genres |
| `MoviesControllers.MoviesController.Index` | IMDBApp/Controllers/MoviesController.cs:23-27 | Index lists every stored movie exactly once (the multiset of the list is the set of stored records), in non-increasing rate order |
| `MoviesControllers.MoviesController.CreateForm` | IMDBApp/Controllers/MoviesController.cs:29-38 | Create (GET) shows a blank form and no errors; the form's genre list is all genres sorted by name |
| `MoviesControllers.MoviesController.Create` | IMDBApp/Controllers/MoviesController.cs:41-98 | Four checks in order: form valid, a file present, extension allowed, size within the limit. The first failure re-renders the form with the genre list refilled and that error ("Please Select Movie Poster!", the extension or the size message), and leaves the store unchanged. When all pass, exactly one movie is added under a fresh id, with the form's five fields and the uploaded bytes; every other record is unchanged and the result redirects to Index |
| `MoviesControllers.MoviesController.EditForm` | IMDBApp/Controllers/MoviesController.cs:100-122 | Edit (GET) returns BadRequest exactly when the id is null and NotFound exactly when it is not stored. Otherwise it returns the form filled from the stored movie, with its id, the five fields and its current poster; that form passes validation |
| `MoviesControllers.MoviesController.Edit` | IMDBApp/Controllers/MoviesController.cs:126-176 | An invalid form re-renders with its field errors and an unknown id gives NotFound. A new file failing the extension or size check re-renders the form carrying the new bytes with the poster error. Each of these leaves the store unchanged. Otherwise only that movie changes: its Title, GenreId, Year, Rate and StoryLine are overwritten and its poster is replaced only if a file was sent |
| `MoviesControllers.MoviesController.Details` | IMDBApp/Controllers/MoviesController.cs:178-188 | Details returns BadRequest exactly for a null id and Fault exactly for an id that is not stored (the single-row lookup throws); otherwise it returns the stored movie; it never returns NotFound |
| `MoviesControllers.MoviesController.Delete` | IMDBApp/Controllers/MoviesController.cs:190-206 | Delete returns BadRequest exactly for a null id and NotFound exactly for an id that is not stored, with the store unchanged; otherwise it removes exactly that id and returns Ok |
| `Posters.PosterError` | IMDBApp/Controllers/MoviesController.cs:64-78 | A poster is accepted if and only if its lower-cased extension is allowed and it has at most 1,048,576 bytes. A disallowed extension always gives "Only .jpg, .png images is allowed!", whatever the size. An oversized file with an allowed extension gives "Posters can't be more than 1MB!" |
| `Posters.ExtensionCaseInsensitive` | IMDBApp/Controllers/MoviesController.cs:66-71 | A name ending in a '.'-suffix is accepted exactly when that suffix, lower-cased, is `.jpg` or `.png`; the rest of the name plays no part |
| `Posters.UpperCaseJpgAccepted` | IMDBApp/Controllers/MoviesController.cs:66 | "Poster.JPG" passes the extension check |
| `Posters.MixedCasePngAccepted` | IMDBApp/Controllers/MoviesController.cs:66 | "poster.Png" passes the extension check |
| `Posters.JpegRejected` | IMDBApp/Controllers/MoviesController.cs:13 | "poster.jpeg" fails the extension check: only the exact suffixes count |
| `Posters.DoubleExtensionRejected` | IMDBApp/Controllers/MoviesController.cs:66 | "poster.png.exe" fails: only the last suffix is looked at |
| `Posters.NameWithoutDotRejected` | IMDBApp/Controllers/MoviesController.cs:66-71 | A name with no '.' has no extension and gets the extension error |
| `Posters.SizeBoundInclusive` | IMDBApp/Controllers/MoviesController.cs:73-78 | With an allowed name, a poster of exactly 1,048,576 bytes is accepted and one of 1,048,577 bytes gets the size error |
| `Posters.GetExtension` | IMDBApp/Controllers/MoviesController.cs:66 | A non-empty result is a suffix of the path that starts with '.', has at least one character after it, and contains no further '.' or separator. An empty result means no '.' in the last segment starts such a suffix |
| `Posters.ExtensionOfSuffix` | IMDBApp/Controllers/MoviesController.cs:66 | Any name made of a stem, then '.', then a non-empty run free of '.' and separators has exactly that ending as its extension |
| `Posters.ToLowerAscii` | IMDBApp/Controllers/MoviesController.cs:66 | Lower-casing keeps the length, leaves no upper-case ASCII letter, and changes only upper-case letters, each to its lower-case partner |
| `Posters.ToLowerAsciiConcat` | IMDBApp/Controllers/MoviesController.cs:66 | Lower-casing a concatenation lower-cases each part |
| `Posters.ToLowerAsciiIdempotent` | IMDBApp/Controllers/MoviesController.cs:66 | Lower-casing twice is lower-casing once |
| `MovieForms.FieldErrors` | IMDBApp/ViewModels/MovieFormViewModel.cs:10-19 | The form has no errors exactly when it is valid. Title and StoryLine, non-nullable strings, are required: a blank (empty or white-space) one gives "The <field> field is required.", and only a non-blank one is measured, giving the length error exactly when it is longer than 250 (Title) or 2500 (StoryLine). There is a Rate error exactly when Rate is outside [1, 10]. No other error arises |
| `MovieForms.TextError` | IMDBApp/ViewModels/MovieFormViewModel.cs:10-11 | A text field yields at most one error: the required error exactly when it is blank, the length error exactly when it is non-blank and too long, and none otherwise |
| `MovieForms.EmptyFormInvalid` | IMDBApp/Controllers/MoviesController.cs:31-36 | The blank create form, submitted unchanged, fails with exactly three errors: Title required, Rate out of range, StoryLine required |
| `MovieForms.RoundHalfEven` | IMDBApp/ViewModels/MovieFormViewModel.cs:15-16 | The integer `Range(1, 10)` compares against is within 0.5 of the rate, and is even when the rate lies exactly halfway |
| `MovieForms.RateAcceptedAsWrittenIff` | IMDBApp/ViewModels/MovieFormViewModel.cs:15-16 | As written, a rate passes the range check exactly when 0.5 < rate <= 10.5 |
| `MovieForms.RateAboveTenAcceptedAsWritten` | IMDBApp/ViewModels/MovieFormViewModel.cs:15-16 | As written, the rate 10.4 passes though it is above 10 |
| `MovieForms.RateInRangeStricter` | IMDBApp/ViewModels/MovieFormViewModel.cs:15-16 | The intended range [1, 10] accepts nothing the written check rejects; the two differ exactly on (0.5, 1) and (10, 10.5] |
| `Movies.NewMovieWellFormed` | IMDBApp/Controllers/MoviesController.cs:83-91 | A movie built from a valid form and an accepted poster meets the store invariant on records |
| `Movies.EditedWellFormed` | IMDBApp/Controllers/MoviesController.cs:163-170 | Editing keeps the record's id, and keeps it well formed when the form is valid and any new poster is within the limit |
| `Movies.EditFormRoundTrip` | IMDBApp/Controllers/MoviesController.cs:110-120 | The edit form of a stored movie passes validation. Posting it back without a file leaves the movie exactly as it was |
| `Movies.FormOfNewMovie` | IMDBApp/Controllers/MoviesController.cs:83-91 | The edit form of a created movie shows the submitted fields back, with the assigned id and the uploaded poster |
| `Movies.Ranked` | IMDBApp/Controllers/MoviesController.cs:25 | The listing is sorted by rate, highest first, and its multiset is exactly the set of stored records |
| `Movies.OrderByRateDescending` | IMDBApp/Controllers/MoviesController.cs:25 | Ordering by descending rate gives a sequence sorted by non-increasing rate that is a permutation of its input |
| `Movies.InsertByRate` | IMDBApp/Controllers/MoviesController.cs:25 | Inserting into a rate-sorted list keeps it sorted and adds exactly that movie |
| `Movies.ByAscendingId` | IMDBApp/Controllers/MoviesController.cs:25 | The store read out in strictly ascending id order holds every stored record exactly once |
| `Movies.RankedAfterAdd` | IMDBApp/Controllers/MoviesController.cs:93-94 | After a record is added under a fresh id, the listing holds exactly the old listing plus that record |
| `Movies.RankedAfterRemove` | IMDBApp/Controllers/MoviesController.cs:202-203 | After an id is removed, the listing holds exactly the old listing minus that record |
| `Movies.RankedPosition` | IMDBApp/Controllers/MoviesController.cs:25 | Each listed movie is stored. Every movie listed before it is rated at least as high, and every movie after it at most as high |
| `Movies.SmallestId` | IMDBApp/Controllers/MoviesController.cs:25 | The chosen id is stored and no stored id is smaller |
| `Movies.MinExists` | IMDBApp/Controllers/MoviesController.cs:25 | Every non-empty set of ids has a smallest element |
| `Genres.OrderByName` | IMDBApp/Controllers/MoviesController.cs:33-35 | Ordering genres by name gives a name-sorted permutation of the genre list |
| `Genres.InsertByName` | IMDBApp/Controllers/MoviesController.cs:33-35 | Inserting into a name-sorted list keeps it sorted and adds exactly that genre |
| `Genres.NameLeTotal` | IMDBApp/Controllers/MoviesController.cs:34 | Any two names are comparable in the name order |
| `Genres.NameLeTransitive` | IMDBApp/Controllers/MoviesController.cs:34 | The name order is transitive |

## Left out

- Entity Framework is not modelled: `AppDbContext`, `DbSet`, `FindAsync`, `SaveChanges` and async/await. The store is a map and each action is one atomic step. A failing store call (a lost connection, a failed save) is not modelled.
- The database enforces the reference from `GenreId` to an existing genre. The model does not check it, and `Details` does not load the `Genre` navigation (`Include`).
- Identity values start at 1 and grow by one. Other seeds and increments are not modelled, and neither is the database's choice of values.
- `Movies.Ranked`: the database leaves the order among equal rates open, and so does the model: no contract promises a tie order.
- Model binding is not modelled: the form arrives already bound. Binding errors (a malformed number, a missing `Year` or `GenreId`) are not part of `IsValid`. A Title or StoryLine that binds to null is modelled as its submitted blank text; the `byte[]?` and `IEnumerable<Genre>?` annotations in MovieFormViewModel.cs show that nullable reference types are on, so the implicit required rule for the two non-nullable strings is modelled.
- `MovieForms.FieldErrors`: the rate error uses the intended range [1, 10]. So `MoviesControllers.MoviesController.Create` and `MoviesControllers.MoviesController.Edit` reject rates in (0.5, 1) and (10, 10.5], which the code as written accepts and stores (see "## Findings"); the store invariant `Movies.WellFormed` likewise promises [1, 10].
- `Genres.OrderByName`: the genre list is sorted by the database under its collation. Ordinal code-point order stands in for it, so the effects of case and culture on the order are not captured (under a case-insensitive collation "action" comes before "Drama"; in the model it comes after).
- `MovieForms.FieldErrors`: lengths count Unicode scalar values, not UTF-16 code units. A title containing characters outside the Basic Multilingual Plane is measured shorter than .NET measures it.
- `Posters.ToLowerAscii`: `ToLower` is culture-sensitive; the model lowers ASCII letters only. No non-ASCII letter lowers to one of the letters in `jpg` or `png`, so the extension verdict is unaffected.
- `Posters.GetExtension` is a stand-in for `Path.GetExtension`. It treats `/` and `\` as separators and answers empty for a name ending in '.'. Invalid path characters and platform differences are not modelled.
- `Rate` is a `real`: IEEE rounding is not modelled. As written, `Convert.ToInt32` overflows on rates beyond the 32-bit range and throws. That exception is not modelled.
- HTTP and MVC machinery is not modelled: routing, view rendering, the anti-forgery attribute and multipart parsing of `Request.Form.Files`. The uploaded files arrive as a sequence of (name, bytes) pairs and only the first is used, as in the code.
- Toast notifications, `Debug.WriteLine` output and `MemoryStream` buffering are not modelled. The poster is its bytes, and its length is the number of bytes.
- The `movie == null` test in `Details` is not modelled, because `SingleAsync` never returns null.
- Concurrent requests on the same id are not modelled; the code does no coordination.
- Genre.cs is mirrored by the `Genre` datatype: the name is at most 100 characters. Its required-name rule is not checked, because no action here writes genres.
- The `Movie` entity's source file is not part of this model. Its fields are taken from the controller's use of them.

## Findings

| source | as written | input that shows it | evidently intended | confidence | as-written member | corrected member |
|---|---|---|---|---|---|---|
| IMDBApp/ViewModels/MovieFormViewModel.cs:15-16 | The `Range(1, 10)` bounds are ints, so a `double` rate is first converted with `Convert.ToInt32`, which rounds to the nearest integer with ties to even. Server-side validation therefore accepts every rate in (0.5, 10.5] | Rate 10.4 (or 0.6) passes validation | 1 <= Rate <= 10, both ends inclusive | medium; not executed | `MovieForms.RateAcceptedAsWritten` (shown by `MovieForms.RateAboveTenAcceptedAsWritten`) | `MovieForms.RateInRange` (proved stricter by `MovieForms.RateInRangeStricter`); `IsValid` uses it |
