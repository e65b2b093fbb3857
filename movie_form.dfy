/** The movie form (`MovieFormViewModel`): the values a create or edit request
    carries, and the declarative constraints that decide `ModelState.IsValid`. */
module MovieForms {
  import opened Basics
  import opened Genres

  /** The form as bound from a request. Only `poster` and `genres` are nullable;
      every other field is always present, and `genreId` is a byte. */
  datatype MovieForm = MovieForm(
    id: int,
    title: string,
    year: int,
    rate: real,
    storyLine: string,
    poster: Option<seq<byte>>,
    genreId: byte,
    genres: Option<seq<Genre>>)

  /** One entry of the model state: the field it belongs to and its message. */
  datatype ModelError = ModelError(key: string, message: string)

  const MaxTitleLength: nat := 250
  const MaxStoryLineLength: nat := 2500
  const MinRate: real := 1.0
  const MaxRate: real := 10.0

  const TitleRequiredMessage := "The Title field is required."
  const StoryLineRequiredMessage := "The StoryLine field is required."
  const TitleMessage := "The field Title must be a string with a maximum length of 250."
  const RateMessage := "The field Rate must be between 1 and 10."
  const StoryLineMessage := "The field StoryLine must be a string with a maximum length of 2500."

  /** `[Range(1, 10)]` as intended: both ends inclusive. */
  predicate RateInRange(rate: real)
  {
    MinRate <= rate <= MaxRate
  }

  /** `char.IsWhiteSpace`: the Unicode separators (categories Zs, Zl, Zp), the
      controls U+0009 to U+000D, U+0085 and U+00A0. */
  predicate IsWhiteSpace(c: char)
  {
    c == ' ' || '\t' <= c <= '\r' || c == '\U{85}' || c == '\U{A0}' || c == '\U{1680}'
    || '\U{2000}' <= c <= '\U{200A}' || c == '\U{2028}' || c == '\U{2029}'
    || c == '\U{202F}' || c == '\U{205F}' || c == '\U{3000}'
  }

  /** A submitted text that binds to null: empty or white space only. */
  predicate IsBlank(s: string)
  {
    forall i :: 0 <= i < |s| ==> IsWhiteSpace(s[i])
  }

  // With nullable reference types enabled, the non-nullable `string Title` and
  // `string StoryLine` are implicitly `[Required]`. A blank text binds to null,
  // fails that rule and is skipped by `StringLength`; any other text is measured.

  predicate TitleValid(f: MovieForm) { !IsBlank(f.title) && |f.title| <= MaxTitleLength }
  predicate RateValid(f: MovieForm) { RateInRange(f.rate) }
  predicate StoryLineValid(f: MovieForm) { !IsBlank(f.storyLine) && |f.storyLine| <= MaxStoryLineLength }

  /** `ModelState.IsValid` for a bound form. */
  predicate IsValid(f: MovieForm)
  {
    TitleValid(f) && RateValid(f) && StoryLineValid(f)
  }

  /** The error a text field raises: required when blank, too long when over
      its length, otherwise none. */
  function TextError(key: string, s: string, maxLength: nat, required: string, tooLong: string): (errs: seq<ModelError>)
    requires required != tooLong
    ensures errs == [] <==> !IsBlank(s) && |s| <= maxLength
    ensures |errs| <= 1
    ensures ModelError(key, required) in errs <==> IsBlank(s)
    ensures ModelError(key, tooLong) in errs <==> !IsBlank(s) && |s| > maxLength
  {
    if IsBlank(s) then [ModelError(key, required)]
    else if |s| > maxLength then [ModelError(key, tooLong)]
    else []
  }

  /** The model-state errors the constraints raise, in declaration order. */
  function FieldErrors(f: MovieForm): (errs: seq<ModelError>)
    ensures errs == [] <==> IsValid(f)
    ensures ModelError("Title", TitleRequiredMessage) in errs <==> IsBlank(f.title)
    ensures ModelError("Title", TitleMessage) in errs <==> !IsBlank(f.title) && |f.title| > MaxTitleLength
    ensures ModelError("Rate", RateMessage) in errs <==> !(MinRate <= f.rate <= MaxRate)
    ensures ModelError("StoryLine", StoryLineRequiredMessage) in errs <==> IsBlank(f.storyLine)
    ensures ModelError("StoryLine", StoryLineMessage) in errs <==> !IsBlank(f.storyLine) && |f.storyLine| > MaxStoryLineLength
    ensures forall e :: e in errs ==>
      e.key in {"Title", "Rate", "StoryLine"}
      && e.message in {TitleRequiredMessage, TitleMessage, RateMessage, StoryLineRequiredMessage, StoryLineMessage}
  {
    TextError("Title", f.title, MaxTitleLength, TitleRequiredMessage, TitleMessage)
    + (if RateValid(f) then [] else [ModelError("Rate", RateMessage)])
    + TextError("StoryLine", f.storyLine, MaxStoryLineLength, StoryLineRequiredMessage, StoryLineMessage)
  }

  /** The form Create (GET) shows: every field at its default, the genre list set. */
  function EmptyForm(genres: seq<Genre>): MovieForm
  {
    MovieForm(0, "", 0, 0.0, "", None, 0, Some(genres))
  }

  /** Submitting the blank form unchanged fails validation on all three
      constrained fields: Title and StoryLine are missing, and the rate, 0, is
      out of range. */
  lemma EmptyFormInvalid(genres: seq<Genre>)
    ensures FieldErrors(EmptyForm(genres)) ==
      [ModelError("Title", TitleRequiredMessage), ModelError("Rate", RateMessage),
       ModelError("StoryLine", StoryLineRequiredMessage)]
  {
  }

  // ---------------------------------------------------------------------------
  // `[Range(1, 10)]` as written on a `double`: the attribute's bounds are ints,
  // so the value is first converted with `Convert.ToInt32`, which rounds to the
  // nearest integer and sends halves to the even neighbour.

  /** The nearest integer to `r`, ties going to the even one. */
  function RoundHalfEven(r: real): (n: int)
    ensures r - 0.5 <= n as real <= r + 0.5
    ensures (n as real == r - 0.5 || n as real == r + 0.5) ==> n % 2 == 0
  {
    var f := r.Floor;
    var frac := r - f as real;
    if frac < 0.5 then f
    else if frac > 0.5 then f + 1
    else if f % 2 == 0 then f
    else f + 1
  }

  predicate RateAcceptedAsWritten(rate: real)
  {
    1 <= RoundHalfEven(rate) <= 10
  }

  /** As written, the rates that pass are exactly those in (0.5, 10.5]. */
  lemma RateAcceptedAsWrittenIff(rate: real)
    ensures RateAcceptedAsWritten(rate) <==> 0.5 < rate <= 10.5
  {
  }

  /** A rate of 10.4 passes the check as written though it exceeds 10. */
  lemma RateAboveTenAcceptedAsWritten()
    ensures RateAcceptedAsWritten(10.4) && !RateInRange(10.4)
  {
    RateAcceptedAsWrittenIff(10.4);
  }

  /** The intended range is stricter than the written one, and the two differ
      exactly on (0.5, 1) and (10, 10.5]. */
  lemma RateInRangeStricter(rate: real)
    ensures RateInRange(rate) ==> RateAcceptedAsWritten(rate)
    ensures RateAcceptedAsWritten(rate) && !RateInRange(rate) <==> (0.5 < rate < 1.0 || 10.0 < rate <= 10.5)
  {
    RateAcceptedAsWrittenIff(rate);
  }
}
