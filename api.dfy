/** The POST handler of the flashcards endpoint (app/api/flashcards/route.ts:19-41):
    validate the JSON body, default the category, call the store's create,
    and answer 400, 201 or 500. The store is a parameter. */
module FlashcardsApi {
  import opened Wrappers
  import opened Cards

  /** The category stored when the request gives none. */
  const DefaultCategory: string := "General"

  const RequiredMessage: string := "Front text and back text are required"
  const FailedMessage: string := "Failed to create flashcard"

  /** The fields read from a JSON body that is an object. A field is None
      when it is absent or null. */
  datatype CreateBody = CreateBody(
    frontText: Option<string>,
    backText: Option<string>,
    category: Option<string>)

  /** The `data` object handed to the store's create call. */
  datatype NewCard = NewCard(frontText: string, backText: string, category: string)

  /** A JSON response: the created record, or an `{ error }` object. */
  datatype Payload = Created(card: Flashcard) | Failure(error: string)
  datatype Response = Response(status: int, payload: Payload)

  /** What one request does: the response, and the data the store's create
      was called with, or None when the store was not called. */
  datatype Outcome = Outcome(response: Response, createdWith: Option<NewCard>)

  /** JavaScript truthiness of a string field: present and not empty. */
  predicate Truthy(v: Option<string>) {
    v.Some? && v.value != ""
  }

  /** `category || "General"` (app/api/flashcards/route.ts:32). */
  function CategoryOrDefault(c: Option<string>): (r: string)
    ensures r != ""
    ensures Truthy(c) ==> r == c.value
    ensures !Truthy(c) ==> r == DefaultCategory
  {
    if Truthy(c) then c.value else DefaultCategory
  }

  /** The guard at app/api/flashcards/route.ts:24 and the data built at :29-33:
      None stands for the 400 answer. */
  function Validate(body: CreateBody): (r: Option<NewCard>)
    ensures r.Some? <==> Truthy(body.frontText) && Truthy(body.backText)
    ensures r.Some? ==> r.value.frontText == body.frontText.value && r.value.backText == body.backText.value
    ensures r.Some? ==> r.value.category == CategoryOrDefault(body.category)
  {
    if !Truthy(body.frontText) || !Truthy(body.backText) then None
    else Some(NewCard(body.frontText.value, body.backText.value, CategoryOrDefault(body.category)))
  }

  /** The handler. `body` is None when `request.json()` throws or yields
      null (destructuring null throws too); `create` stands for the store's
      create call and gives the stored record, or None when it throws. */
  function Post(body: Option<CreateBody>, create: NewCard -> Option<Flashcard>): (r: Outcome)
    ensures r.response.status == 400 || r.response.status == 201 || r.response.status == 500
    ensures r.response.status == 400 <==> body.Some? && Validate(body.value).None?
    ensures r.response.status == 400 ==> r.response.payload == Failure(RequiredMessage)
    ensures r.createdWith.Some? <==> body.Some? && Validate(body.value).Some?
    ensures r.createdWith.Some? ==> r.createdWith == Validate(body.value)
    ensures r.response.status == 201 <==> r.createdWith.Some? && create(r.createdWith.value).Some?
    ensures r.response.status == 201 ==> r.response.payload == Created(create(r.createdWith.value).value)
    ensures r.response.status == 500 ==> r.response.payload == Failure(FailedMessage)
  {
    match body
    case None => Outcome(Response(500, Failure(FailedMessage)), None)
    case Some(b) =>
      match Validate(b)
      case None => Outcome(Response(400, Failure(RequiredMessage)), None)
      case Some(data) =>
        match create(data)
        case None => Outcome(Response(500, Failure(FailedMessage)), Some(data))
        case Some(card) => Outcome(Response(201, Created(card)), Some(data))
  }

  /** A missing or empty frontText is answered with 400 and nothing is stored. */
  lemma MissingFrontRejected(b: CreateBody, create: NewCard -> Option<Flashcard>)
    requires !Truthy(b.frontText)
    ensures Post(Some(b), create).response.status == 400
    ensures Post(Some(b), create).createdWith.None?
  {
  }

  /** A missing or empty backText is answered with 400 and nothing is stored. */
  lemma MissingBackRejected(b: CreateBody, create: NewCard -> Option<Flashcard>)
    requires !Truthy(b.backText)
    ensures Post(Some(b), create).response.status == 400
    ensures Post(Some(b), create).createdWith.None?
  {
  }

  /** A valid request reaches the store with both texts unchanged and the
      category given, or "General" when none is given; the answer is 201 with
      the stored record when the store succeeds and 500 when it fails. */
  lemma ValidRequestStored(b: CreateBody, create: NewCard -> Option<Flashcard>)
    requires Truthy(b.frontText) && Truthy(b.backText)
    ensures var r := Post(Some(b), create);
      && r.createdWith == Some(NewCard(b.frontText.value, b.backText.value, CategoryOrDefault(b.category)))
      && (create(r.createdWith.value).Some? ==> r.response == Response(201, Created(create(r.createdWith.value).value)))
      && (create(r.createdWith.value).None? ==> r.response == Response(500, Failure(FailedMessage)))
  {
  }
}
