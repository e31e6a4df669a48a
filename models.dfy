/**
 * The field validators of the `Event` model and the construction of an
 * `Event`, which runs every validator and fails if any of them fails.
 * Date parsing (`dateutil`, day first, localised to EET) and the current
 * instant are not modelled: they come in as a `Clock`.
 */
module Models {
  import opened Wrappers
  import opened Text

  const MaxTitleLength := 100
  const MaxDescriptionLength := 1000

  /** The distinct messages a validator raises (their Russian wording is not modelled). */
  datatype FieldError =
    | TitleTooLong
    | TitleEmpty
    | DescriptionTooLong
    | DescriptionEmpty
    | DateInPast
    | DateFormat
      /** a parser error whose own text mentions the future-date marker is re-raised unchanged */
    | DateParserError(message: String)

  datatype Result<T> = Ok(value: T) | Err(error: FieldError)

  /** What the date parser gives back: an instant (in minutes), or a `ValueError` and its text. */
  datatype Parsed = Instant(at: int) | Unparsable(message: String)

  /** The parser and the current instant, both supplied from outside. */
  datatype Clock = Clock(parse: String -> Parsed, now: int)

  /** The words that open the future-date message; an error containing them is re-raised as is. */
  const FutureMarker: String := "Дата события"

  datatype Event = Event(title: String, description: String, date: String, imageId: Option<String>)

  /**
   * A title is accepted, unchanged and unstripped, exactly when it has at most
   * 100 characters and at least one that is not whitespace; the length check
   * comes first, so 101 spaces are "too long", not "empty".
   */
  function ValidateTitle(value: String): (r: Result<String>)
    ensures r == Ok(value) <==> |value| <= MaxTitleLength && !AllSpace(value)
    ensures r == Err(TitleTooLong) <==> |value| > MaxTitleLength
    ensures r == Err(TitleEmpty) <==> |value| <= MaxTitleLength && AllSpace(value)
  {
    StripEmptyIffBlank(value);
    if |value| > MaxTitleLength then Err(TitleTooLong)
    else if |Strip(value)| == 0 then Err(TitleEmpty)
    else Ok(value)
  }

  /** The same rule as for titles, with the limit 1000 and the description's own two messages. */
  function ValidateDescription(value: String): (r: Result<String>)
    ensures r == Ok(value) <==> |value| <= MaxDescriptionLength && !AllSpace(value)
    ensures r == Err(DescriptionTooLong) <==> |value| > MaxDescriptionLength
    ensures r == Err(DescriptionEmpty) <==> |value| <= MaxDescriptionLength && AllSpace(value)
  {
    StripEmptyIffBlank(value);
    if |value| > MaxDescriptionLength then Err(DescriptionTooLong)
    else if |Strip(value)| == 0 then Err(DescriptionEmpty)
    else Ok(value)
  }

  /**
   * A date is accepted when it parses to an instant that is not before now;
   * the original text is returned. A past instant raises the future-date
   * error, which the handler re-raises because it carries the marker; any
   * other parser failure becomes the format error.
   */
  function ValidateDate(clock: Clock, value: String): (r: Result<String>)
    ensures r.Ok? ==> r.value == value
  {
    match clock.parse(value)
    case Instant(t) => if t < clock.now then Err(DateInPast) else Ok(value)
    case Unparsable(msg) => if Contains(msg, FutureMarker) then Err(DateParserError(msg)) else Err(DateFormat)
  }

  /**
   * The outcomes of `ValidateDate`: by where the parsed instant lies
   * relative to now, or by whether the parser's message carries the marker.
   */
  lemma ValidateDateCases(clock: Clock, value: String)
    ensures clock.parse(value).Instant? && clock.parse(value).at < clock.now ==> ValidateDate(clock, value) == Err(DateInPast)
    ensures clock.parse(value).Instant? && clock.parse(value).at >= clock.now ==> ValidateDate(clock, value) == Ok(value)
    ensures clock.parse(value).Unparsable? && !Contains(clock.parse(value).message, FutureMarker)
      ==> ValidateDate(clock, value) == Err(DateFormat)
    ensures clock.parse(value).Unparsable? && Contains(clock.parse(value).message, FutureMarker)
      ==> ValidateDate(clock, value) == Err(DateParserError(clock.parse(value).message))
    ensures ValidateDate(clock, value).Ok? <==> clock.parse(value).Instant? && clock.parse(value).at >= clock.now
  {
  }

  /** The outcome of building an `Event`: every field is validated and all failures are reported. */
  datatype Validated = Accepted(event: Event) | Rejected(errors: seq<FieldError>)

  function Failures<T>(r: Result<T>): seq<FieldError> {
    if r.Err? then [r.error] else []
  }

  /**
   * `Event(title=..., description=..., date=..., image_id=...)`: accepted with
   * the fields unchanged exactly when all three validators accept; otherwise
   * the failures are listed in field order.
   */
  function NewEvent(clock: Clock, title: String, description: String, date: String, imageId: Option<String>): (r: Validated)
    ensures r.Accepted? <==> ValidateTitle(title).Ok? && ValidateDescription(description).Ok? && ValidateDate(clock, date).Ok?
    ensures r.Accepted? ==> r.event == Event(title, description, date, imageId)
    ensures r.Rejected? ==> 1 <= |r.errors| <= 3
  {
    var errors := Failures(ValidateTitle(title)) + Failures(ValidateDescription(description)) + Failures(ValidateDate(clock, date));
    if errors == [] then Accepted(Event(title, description, date, imageId)) else Rejected(errors)
  }

  /** The literal field values the wizard passes for the fields it is not checking. */
  const Placeholder: String := "test"

  /** The placeholder satisfies both text validators, so a probe fails only because of the field under test. */
  lemma PlaceholderValid()
    ensures ValidateTitle(Placeholder) == Ok(Placeholder)
    ensures ValidateDescription(Placeholder) == Ok(Placeholder)
  {
    assert !IsSpace(Placeholder[0]);
  }
}
