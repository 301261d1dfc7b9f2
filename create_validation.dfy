/** The checks and the normalisation the create handler applies to a request
    body before it reaches the database (app/api/tasks/route.ts, POST). */
module CreateValidation {
  import opened JsText
  import opened TaskTypes

  const MaxTitleLength := 255
  const MaxDescriptionLength := 1000

  /** The three ways a create request is refused. */
  datatype CreateError = TitleRequired | TitleTooLong | DescriptionTooLong

  /** The `error` text of the 400 response. */
  function Message(e: CreateError): JsString {
    match e
    case TitleRequired => FromAscii("Title is required and cannot be empty")
    case TitleTooLong => FromAscii("Title must be 255 characters or less")
    case DescriptionTooLong => FromAscii("Description must be 1000 characters or less")
  }

  /** What every record the create handler stores looks like. */
  predicate WellFormed(d: NewTask) {
    && d.title != [] && |d.title| <= MaxTitleLength && IsTrimmed(d.title)
    && (d.description.Some? ==>
          var text := d.description.value;
          text != [] && |text| <= MaxDescriptionLength && IsTrimmed(text))
  }

  /** `!body.title || body.title.trim() === ''` */
  predicate TitleMissingOrBlank(input: CreateTaskInput) {
    input.title.None? || IsBlank(input.title.value)
  }

  /** The record built from a body that passed the checks: both texts
      trimmed, an empty description dropped, the status defaulting to
      PENDING. */
  function Normalise(input: CreateTaskInput): (d: NewTask)
    requires input.title.Some?
    ensures IsTrimOf(d.title, input.title.value)
    ensures d.title != [] <==> !IsBlank(input.title.value)
    ensures d.description.None? <==> input.description.None? || IsBlank(input.description.value)
    ensures d.description.Some? ==> IsTrimOf(d.description.value, input.description.value)
    ensures input.status.Some? ==> d.status == input.status.value
    ensures input.status.None? ==> d.status == Pending
  {
    NewTask(
      Trim(input.title.value),
      match input.description {
        case None => None
        case Some(text) => if Trim(text) == [] then None else Some(Trim(text))
      },
      input.status.GetOr(Pending))
  }

  /** The create handler's checks in the order it makes them; the first that
      fails decides the message. The lengths are those of the raw strings. */
  function Validate(input: CreateTaskInput): (r: Result<NewTask, CreateError>)
    ensures r == Err(TitleRequired) <==> TitleMissingOrBlank(input)
    ensures r == Err(TitleTooLong) <==>
      !TitleMissingOrBlank(input) && |input.title.value| > MaxTitleLength
    ensures r == Err(DescriptionTooLong) <==>
      && !TitleMissingOrBlank(input) && |input.title.value| <= MaxTitleLength
      && input.description.Some? && |input.description.value| > MaxDescriptionLength
    ensures r.Ok? ==> r == Ok(Normalise(input)) && WellFormed(r.value)
  {
    if input.title.None? || input.title.value == [] || Trim(input.title.value) == [] then
      Err(TitleRequired)
    else if |input.title.value| > MaxTitleLength then
      Err(TitleTooLong)
    else if input.description.Some? && input.description.value != []
         && |input.description.value| > MaxDescriptionLength then
      Err(DescriptionTooLong)
    else
      NormaliseWellFormed(input);
      Ok(Normalise(input))
  }

  /** A body that passes the three checks normalises to a well-formed record. */
  lemma NormaliseWellFormed(input: CreateTaskInput)
    requires !TitleMissingOrBlank(input) && |input.title.value| <= MaxTitleLength
    requires input.description.Some? ==> |input.description.value| <= MaxDescriptionLength
    ensures WellFormed(Normalise(input))
  {
  }

  /** The request body that submits a record's own fields. */
  function Resubmission(d: NewTask): CreateTaskInput {
    CreateTaskInput(Some(d.title), d.description, Some(d.status))
  }

  /** Submitting a stored record's fields again yields the same record:
      normalisation is idempotent and a well-formed record passes every check. */
  lemma ResubmitIsFixedPoint(d: NewTask)
    requires WellFormed(d)
    ensures Validate(Resubmission(d)) == Ok(d)
  {
    var input := Resubmission(d);
    TrimmedIsFixed(d.title);
    assert Trim(d.title) == d.title != [];
    if d.description.Some? {
      TrimmedIsFixed(d.description.value);
    }
    assert Normalise(input) == d;
    assert !(|d.title| > MaxTitleLength);
    assert !(d.description.Some? && |d.description.value| > MaxDescriptionLength);
    assert Validate(input) == Ok(Normalise(input));
  }

  /** Every accepted body, normalised once more, is accepted unchanged. */
  lemma NormaliseIdempotent(input: CreateTaskInput)
    requires Validate(input).Ok?
    ensures Validate(Resubmission(Validate(input).value)) == Validate(input)
  {
    ResubmitIsFixedPoint(Validate(input).value);
  }

  /** The title bound is on the raw text: a 255-unit non-blank title passes,
      and a 256-unit one is refused even when it trims to far less. A
      corollary of `Validate`'s contract, kept to state the 255/256 edge. */
  lemma TitleLimitIsOnRawLength(title: JsString)
    requires !IsBlank(title)
    ensures Validate(CreateTaskInput(Some(title), None, None)).Ok? <==> |title| <= MaxTitleLength
  {
  }

  /** Likewise the description bound: 1000 raw units pass, 1001 are refused,
      even when they are all white space and would be stored as null. A
      corollary of `Validate`'s contract, kept to state the 1000/1001 edge. */
  lemma DescriptionLimitIsOnRawLength(description: JsString)
    ensures Validate(CreateTaskInput(Some(FromAscii("x")), Some(description), None)).Ok?
        <==> |description| <= MaxDescriptionLength
  {
    var title := FromAscii("x");
    assert !IsWhiteSpace(title[0]);
  }
}
