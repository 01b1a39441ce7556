/**
 * The Book record of the catalog, the fields a request may carry, and the
 * part of input validation the views depend on.
 *
 * The serializer exposes every model field; `id` and `created_at` are set by
 * the server. Every writable field is required on create and on a full
 * update except `availability`, which has a model default of true; a partial
 * update requires nothing. The remaining per-field rules (maximum lengths,
 * date format) belong to the framework and reach the model as a list of
 * field errors.
 */
module Books {
  import opened Wrappers

  /** A stored book; `publishedDate` is a day number, `createdAt` a timestamp in seconds. */
  datatype Book = Book(
    id: int,
    title: string,
    author: string,
    edition: string,
    publishedDate: int,
    genre: string,
    summary: string,
    createdAt: int,
    availability: bool)

  /** The writable fields a request body supplies; None for a field left out. */
  datatype BookInput = BookInput(
    title: Option<string>,
    author: Option<string>,
    edition: Option<string>,
    publishedDate: Option<int>,
    genre: Option<string>,
    summary: Option<string>,
    availability: Option<bool>)

  /** One entry of the framework's field-error report. */
  datatype FieldError = FieldError(field: string, message: string)

  /** The three ways a serializer validates a request body. */
  datatype Mode = Create | FullUpdate | PartialUpdate

  const RequiredMessage: string := "This field is required."

  /** Every field without a default is supplied. */
  predicate Complete(input: BookInput)
  {
    && input.title.Some?
    && input.author.Some?
    && input.edition.Some?
    && input.publishedDate.Some?
    && input.genre.Some?
    && input.summary.Some?
  }

  /** The error for `field` when it is required and left out. */
  function MissingError(field: string, supplied: bool): (r: seq<FieldError>)
    ensures r == [] <==> supplied
  {
    if supplied then [] else [FieldError(field, RequiredMessage)]
  }

  /** The "required" errors for `input` under `mode`, in field order. */
  function MissingFields(input: BookInput, mode: Mode): (errs: seq<FieldError>)
    ensures mode == PartialUpdate ==> errs == []
    ensures mode != PartialUpdate ==> (errs == [] <==> Complete(input))
    ensures forall e :: e in errs ==> e.message == RequiredMessage
    ensures |errs| <= 6
    ensures mode != PartialUpdate && input.title.None? ==> FieldError("title", RequiredMessage) in errs
    ensures mode != PartialUpdate && input.author.None? ==> FieldError("author", RequiredMessage) in errs
    ensures mode != PartialUpdate && input.edition.None? ==> FieldError("edition", RequiredMessage) in errs
    ensures mode != PartialUpdate && input.publishedDate.None? ==> FieldError("published_date", RequiredMessage) in errs
    ensures mode != PartialUpdate && input.genre.None? ==> FieldError("genre", RequiredMessage) in errs
    ensures mode != PartialUpdate && input.summary.None? ==> FieldError("summary", RequiredMessage) in errs
  {
    if mode == PartialUpdate then []
    else
      MissingError("title", input.title.Some?)
      + MissingError("author", input.author.Some?)
      + MissingError("edition", input.edition.Some?)
      + MissingError("published_date", input.publishedDate.Some?)
      + MissingError("genre", input.genre.Some?)
      + MissingError("summary", input.summary.Some?)
  }

  /** The verdict of `serializer.is_valid`. */
  datatype Validation = Accepted | Rejected(errors: seq<FieldError>)

  /**
   * Validation of a request body: the "required" errors of `mode` followed by
   * `ruleErrors`, the framework's verdict on the other field rules.
   */
  function Validate(input: BookInput, mode: Mode, ruleErrors: seq<FieldError>): (v: Validation)
    ensures v.Accepted? <==> ruleErrors == [] && (mode == PartialUpdate || Complete(input))
    ensures v.Rejected? ==> v.errors != [] && forall e :: e in ruleErrors ==> e in v.errors
    ensures v.Rejected? ==> forall e :: e in MissingFields(input, mode) ==> e in v.errors
  {
    var errs := MissingFields(input, mode) + ruleErrors;
    if errs == [] then Accepted else Rejected(errs)
  }

  /** Every field the input supplies has that value in `b`. */
  predicate Reflects(input: BookInput, b: Book)
  {
    && (input.title.Some? ==> b.title == input.title.value)
    && (input.author.Some? ==> b.author == input.author.value)
    && (input.edition.Some? ==> b.edition == input.edition.value)
    && (input.publishedDate.Some? ==> b.publishedDate == input.publishedDate.value)
    && (input.genre.Some? ==> b.genre == input.genre.value)
    && (input.summary.Some? ==> b.summary == input.summary.value)
    && (input.availability.Some? ==> b.availability == input.availability.value)
  }

  /** `after` agrees with `before` on every field the input leaves out, and on the server-set ones. */
  predicate KeepsUnsupplied(before: Book, input: BookInput, after: Book)
  {
    && after.id == before.id
    && after.createdAt == before.createdAt
    && (input.title.None? ==> after.title == before.title)
    && (input.author.None? ==> after.author == before.author)
    && (input.edition.None? ==> after.edition == before.edition)
    && (input.publishedDate.None? ==> after.publishedDate == before.publishedDate)
    && (input.genre.None? ==> after.genre == before.genre)
    && (input.summary.None? ==> after.summary == before.summary)
    && (input.availability.None? ==> after.availability == before.availability)
  }

  /** The serializer's save on an existing instance: each supplied field is overwritten. */
  function Apply(b: Book, input: BookInput): (r: Book)
    ensures Reflects(input, r)
    ensures KeepsUnsupplied(b, input, r)
  {
    Book(b.id,
         input.title.GetOr(b.title),
         input.author.GetOr(b.author),
         input.edition.GetOr(b.edition),
         input.publishedDate.GetOr(b.publishedDate),
         input.genre.GetOr(b.genre),
         input.summary.GetOr(b.summary),
         b.createdAt,
         input.availability.GetOr(b.availability))
  }

  /**
   * The record the serializer creates: the server assigns `id` and `createdAt`,
   * every supplied field is taken from the input and `availability` defaults to true.
   */
  function NewBook(id: int, input: BookInput, now: int): (b: Book)
    ensures b.id == id && b.createdAt == now
    ensures Reflects(input, b)
    ensures input.availability.None? ==> b.availability
  {
    Apply(Book(id, "", "", "", 0, "", "", now, true), input)
  }

  /** Applying the same input twice stores the same record as applying it once. */
  lemma ApplyIdempotent(b: Book, input: BookInput)
    ensures Apply(Apply(b, input), input) == Apply(b, input)
  {
  }

  /**
   * A complete input replaces every required field: the result of a full
   * update depends on the old record only through `id`, `createdAt` and,
   * when the input leaves it out, `availability`.
   */
  lemma FullInputReplaces(b1: Book, b2: Book, input: BookInput)
    requires Complete(input)
    requires b1.id == b2.id && b1.createdAt == b2.createdAt
    requires input.availability.None? ==> b1.availability == b2.availability
    ensures Apply(b1, input) == Apply(b2, input)
  {
  }
}
