/**
 * The book view set: for each verb, the response envelope it builds and the
 * change it makes to the catalog.
 *
 * Every envelope is `{status, code, message, data, headers}`, where
 * `headers` holds the rate-limit report of exactly one call of the reporter.
 * Two outcomes are not envelopes: a validation failure, which the serializer
 * raises before any envelope is built, and NotFound, which `get_object`
 * raises for a missing id. Only retrieve catches NotFound and answers with a
 * 404 envelope; update and destroy let it escape to the framework.
 */
module Views {
  import opened Wrappers
  import opened Books
  import opened RateLimit

  /** The `data` entry of an envelope: left out, null, one record or a list of records. */
  datatype Payload = Omitted | Null | Single(book: Book) | Many(books: seq<Book>)

  datatype Envelope = Envelope(
    status: string,
    code: int,
    message: string,
    data: Payload,
    headers: Option<RateLimitInfo>)

  /** What a view hands back to the framework. */
  datatype Outcome =
    | Respond(envelope: Envelope)
    | NotFound
    | ValidationError(errors: seq<FieldError>)

  /** The caller's identity as the throttle keys it, and the time the request is served. */
  datatype Request = Request(clientKey: Key, now: int)

  /**
   * The book table: the records by primary key, the keys in insertion order
   * (the order an unordered query returns them in) and the next key the
   * auto-increment column hands out.
   */
  datatype Catalog = Catalog(books: map<int, Book>, ids: seq<int>, nextId: int)

  const EmptyCatalog: Catalog := Catalog(map[], [], 1)

  ghost predicate Increasing(s: seq<int>)
  {
    forall i, j :: 0 <= i < j < |s| ==> s[i] < s[j]
  }

  /** Keys are listed once each in increasing order, match the records, and lie below the counter. */
  ghost predicate WellFormed(c: Catalog)
  {
    && 1 <= c.nextId
    && Increasing(c.ids)
    && (forall id :: id in c.ids <==> id in c.books)
    && (forall id :: id in c.books ==> c.books[id].id == id && 1 <= id < c.nextId)
  }

  // ---------------------------------------------------------------------
  // The catalog as persistence changes it

  /** There are as many keys in the list as records in the table. */
  lemma {:induction false} IdsCount(ids: seq<int>, keys: set<int>)
    requires Increasing(ids)
    requires forall id :: id in ids <==> id in keys
    ensures |keys| == |ids|
    decreases |ids|
  {
    if ids == [] {
      assert forall id :: id !in keys;
      assert keys == {};
    } else {
      var last := ids[|ids| - 1];
      var init := ids[..|ids| - 1];
      assert last !in init by {
        forall i | 0 <= i < |init|
          ensures init[i] != last
        {
          assert ids[i] < ids[|ids| - 1];
        }
      }
      forall id
        ensures id in init <==> id in keys - {last}
      {
        if id in init {
          var i :| 0 <= i < |init| && init[i] == id;
          assert ids[i] == id;
        }
        if id in ids && id != last {
          var i :| 0 <= i < |ids| && ids[i] == id;
          assert init[i] == id;
        }
      }
      IdsCount(init, keys - {last});
      assert last in keys;
      assert keys == (keys - {last}) + {last};
      assert |keys| == |keys - {last}| + 1;
      assert |init| + 1 == |ids|;
    }
  }

  /** All stored records, in key order (the queryset the list view serializes). */
  function Listing(c: Catalog): (r: seq<Book>)
    requires WellFormed(c)
    ensures |r| == |c.books|
    ensures forall b :: b in r <==> b in c.books.Values
    ensures forall i, j :: 0 <= i < j < |r| ==> r[i].id < r[j].id
  {
    IdsCount(c.ids, c.books.Keys);
    var r := seq(|c.ids|, i requires 0 <= i < |c.ids| => c.books[c.ids[i]]);
    assert forall b :: b in c.books.Values ==> b in r by {
      forall b | b in c.books.Values
        ensures b in r
      {
        var id :| id in c.books && c.books[id] == b;
        var i :| 0 <= i < |c.ids| && c.ids[i] == id;
        assert r[i] == b;
      }
    }
    r
  }

  /** `get_object`: the record under `id`, or None where the framework raises NotFound. */
  function FindBook(c: Catalog, id: int): (r: Option<Book>)
    requires WellFormed(c)
    ensures r.Some? <==> id in c.books
    ensures r.Some? ==> r.value == c.books[id] && r.value.id == id
  {
    if id in c.books then Some(c.books[id]) else None
  }

  /** `perform_create`: the new record takes the next key, which no record holds. */
  function Inserted(c: Catalog, input: BookInput, now: int): (r: Catalog)
    requires WellFormed(c)
    ensures WellFormed(r)
    ensures c.nextId !in c.books
    ensures r.books == c.books[c.nextId := NewBook(c.nextId, input, now)]
    ensures r.ids == c.ids + [c.nextId] && r.nextId > c.nextId
  {
    var ids := c.ids + [c.nextId];
    forall i, j | 0 <= i < j < |ids|
      ensures ids[i] < ids[j]
    {
      assert ids[i] == c.ids[i] && c.ids[i] in c.books;
    }
    Catalog(c.books[c.nextId := NewBook(c.nextId, input, now)], ids, c.nextId + 1)
  }

  /** `perform_update`: the record under `b.id` becomes `b`. */
  function Replaced(c: Catalog, b: Book): (r: Catalog)
    requires WellFormed(c) && b.id in c.books
    ensures WellFormed(r)
    ensures r.books.Keys == c.books.Keys && r.books[b.id] == b
    ensures forall id :: id in c.books && id != b.id ==> r.books[id] == c.books[id]
    ensures r.ids == c.ids && r.nextId == c.nextId
  {
    c.(books := c.books[b.id := b])
  }

  /** `s` without `x`, in the same order. */
  function Without(s: seq<int>, x: int): (r: seq<int>)
    ensures forall y :: y in r <==> y in s && y != x
    ensures Increasing(s) ==> Increasing(r)
  {
    if s == [] then []
    else
      var rest := Without(s[1..], x);
      assert Increasing(s) ==> forall y :: y in rest ==> s[0] < y by {
        if Increasing(s) {
          forall y | y in rest
            ensures s[0] < y
          {
            var i :| 0 <= i < |s[1..]| && s[1..][i] == y;
            assert s[i + 1] == y;
          }
        }
      }
      assert Increasing(s) ==> Increasing(s[1..]);
      if s[0] == x then rest
      else
        var r := [s[0]] + rest;
        assert Increasing(s) ==> Increasing(r) by {
          if Increasing(s) {
            forall i, j | 0 <= i < j < |r|
              ensures r[i] < r[j]
            {
              assert r[j] == rest[j - 1] && rest[j - 1] in rest;
            }
          }
        }
        r
  }

  /** `perform_destroy`: the record under `id` is gone and nothing else changes. */
  function Removed(c: Catalog, id: int): (r: Catalog)
    requires WellFormed(c)
    ensures WellFormed(r)
    ensures r.books == c.books - {id}
    ensures r.nextId == c.nextId
  {
    Catalog(c.books - {id}, Without(c.ids, id), c.nextId)
  }

  // ---------------------------------------------------------------------
  // The verbs, as functions of the catalog and the rate-limit report

  /** `list`: 200 in both cases; an empty table gets its own message and an empty list. */
  function ListResponse(c: Catalog, headers: Option<RateLimitInfo>): (e: Envelope)
    requires WellFormed(c)
    ensures e.status == "success" && e.code == 200 && e.headers == headers
    ensures c.books == map[] ==> e.message == "There are no Books in the library" && e.data == Many([])
    ensures c.books != map[] ==> e.message == "Successfully retrieved all Books"
    ensures e.data == Many(Listing(c))
  {
    if c.ids == [] then
      assert forall id :: id !in c.books;
      assert c.books == map[];
      Envelope("success", 200, "There are no Books in the library", Many([]), headers)
    else
      assert c.ids[0] in c.ids && c.ids[0] in c.books;
      Envelope("success", 200, "Successfully retrieved all Books", Many(Listing(c)), headers)
  }

  /** `retrieve`: the record with 200, or NotFound caught and answered with a 404 envelope. */
  function RetrieveResponse(c: Catalog, id: int, headers: Option<RateLimitInfo>): (e: Envelope)
    requires WellFormed(c)
    ensures e.headers == headers
    ensures id !in c.books ==>
      e.status == "error" && e.code == 404 && e.message == "No Book matches the given query" && e.data == Null
    ensures id in c.books ==>
      e.status == "success" && e.code == 200 && e.message == "Successfully retrieved Book"
      && e.data == Single(c.books[id])
  {
    match FindBook(c, id)
    case Some(b) => Envelope("success", 200, "Successfully retrieved Book", Single(b), headers)
    case None => Envelope("error", 404, "No Book matches the given query", Null, headers)
  }

  /**
   * `create`: a rejected body raises before anything is stored; an accepted
   * one is stored under a fresh key and sent back with 201.
   */
  function CreateStep(c: Catalog, input: BookInput, ruleErrors: seq<FieldError>, now: int,
                      headers: Option<RateLimitInfo>): (r: (Outcome, Catalog))
    requires WellFormed(c)
    ensures WellFormed(r.1)
    ensures Validate(input, Create, ruleErrors).Rejected? ==>
      r.0 == ValidationError(Validate(input, Create, ruleErrors).errors) && r.1 == c
    ensures Validate(input, Create, ruleErrors).Accepted? ==>
      && c.nextId !in c.books
      && r.1.books == c.books[c.nextId := NewBook(c.nextId, input, now)]
      && r.0 == Respond(Envelope("success", 201, "Successfully added Book",
                                 Single(NewBook(c.nextId, input, now)), headers))
  {
    match Validate(input, Create, ruleErrors)
    case Rejected(errs) => (ValidationError(errs), c)
    case Accepted =>
      var after := Inserted(c, input, now);
      (Respond(Envelope("success", 201, "Successfully added Book", Single(after.books[c.nextId]), headers)), after)
  }

  function UpdateMode(partial: bool): Mode
  {
    if partial then PartialUpdate else FullUpdate
  }

  /**
   * `update` (PUT when `partial` is false, PATCH when true): a missing key
   * raises NotFound before validation; a rejected body raises the field
   * errors; otherwise the supplied fields are written and 200 is returned.
   * The catalog changes only on success, and only under `id`.
   */
  function UpdateStep(c: Catalog, id: int, input: BookInput, partial: bool, ruleErrors: seq<FieldError>,
                      headers: Option<RateLimitInfo>): (r: (Outcome, Catalog))
    requires WellFormed(c)
    ensures WellFormed(r.1)
    ensures id !in c.books ==> r == (NotFound, c)
    ensures id in c.books && Validate(input, UpdateMode(partial), ruleErrors).Rejected? ==>
      r == (ValidationError(Validate(input, UpdateMode(partial), ruleErrors).errors), c)
    ensures id in c.books && Validate(input, UpdateMode(partial), ruleErrors).Accepted? ==>
      && r.1.books == c.books[id := Apply(c.books[id], input)]
      && r.1.ids == c.ids && r.1.nextId == c.nextId
      && Reflects(input, r.1.books[id]) && KeepsUnsupplied(c.books[id], input, r.1.books[id])
      && r.0 == Respond(Envelope("success", 200, "Successfully updated Book", Single(r.1.books[id]), headers))
  {
    match FindBook(c, id)
    case None => (NotFound, c)
    case Some(instance) =>
      match Validate(input, UpdateMode(partial), ruleErrors)
      case Rejected(errs) => (ValidationError(errs), c)
      case Accepted =>
        var b := Apply(instance, input);
        (Respond(Envelope("success", 200, "Successfully updated Book", Single(b), headers)), Replaced(c, b))
  }

  /** `destroy`: a missing key raises NotFound; otherwise the record is removed and 204 comes without `data`. */
  function DestroyStep(c: Catalog, id: int, headers: Option<RateLimitInfo>): (r: (Outcome, Catalog))
    requires WellFormed(c)
    ensures WellFormed(r.1)
    ensures id !in c.books ==> r == (NotFound, c)
    ensures id in c.books ==>
      && r.1.books == c.books - {id} && r.1.nextId == c.nextId
      && r.0 == Respond(Envelope("success", 204, "Successfully deleted Book", Omitted, headers))
  {
    match FindBook(c, id)
    case None => (NotFound, c)
    case Some(instance) =>
      (Respond(Envelope("success", 204, "Successfully deleted Book", Omitted, headers)), Removed(c, instance.id))
  }

  /** The cache after a view: the reporter's write when an envelope was built, the old cache otherwise. */
  function CacheAfter(o: Outcome, before: Entries, rate: Option<Rate>, req: Request): Entries
  {
    if o.Respond? then Fetch(before, rate, req.clientKey, req.now).0 else before
  }

  /** The report the reporter hands to the envelope for `req`. */
  function HeadersFor(before: Entries, rate: Option<Rate>, req: Request): Option<RateLimitInfo>
  {
    Fetch(before, rate, req.clientKey, req.now).1
  }

  // ---------------------------------------------------------------------
  // The stateful side: the table and the view set

  /** The book table as the object-relational layer keeps it. */
  class BookStore {
    var books: map<int, Book>
    var ids: seq<int>
    var nextId: int

    function State(): Catalog
      reads this
    {
      Catalog(books, ids, nextId)
    }

    ghost predicate Valid()
      reads this
    {
      WellFormed(State())
    }

    constructor ()
      ensures Valid() && State() == EmptyCatalog
    {
      books, ids, nextId := map[], [], 1;
    }

    method PerformCreate(input: BookInput, now: int) returns (b: Book)
      requires Valid()
      modifies this
      ensures Valid()
      ensures State() == Inserted(old(State()), input, now)
      ensures b == NewBook(old(nextId), input, now)
    {
      ghost var before := State();
      b := NewBook(nextId, input, now);
      books := books[nextId := b];
      ids := ids + [nextId];
      nextId := nextId + 1;
      assert State() == Inserted(before, input, now);
    }

    method PerformUpdate(b: Book)
      requires Valid() && b.id in books
      modifies this
      ensures Valid()
      ensures State() == Replaced(old(State()), b)
    {
      books := books[b.id := b];
    }

    method PerformDestroy(id: int)
      requires Valid()
      modifies this
      ensures Valid()
      ensures State() == Removed(old(State()), id)
    {
      books := books - {id};
      ids := Without(ids, id);
    }
  }

  /** `BookViewSet`: the table, the shared rate-limit cache and the throttle's configured rate. */
  class BookViewSet {
    const store: BookStore
    const cache: RateCache
    const rate: Option<Rate>

    constructor (store: BookStore, cache: RateCache, rate: Option<Rate>)
      ensures this.store == store && this.cache == cache && this.rate == rate
    {
      this.store, this.cache, this.rate := store, cache, rate;
    }

    ghost predicate Valid()
      reads this, store
    {
      store.Valid()
    }

    /** `get_object`, with NotFound as None. */
    method GetObject(id: int) returns (r: Option<Book>)
      requires Valid()
      ensures r.Some? <==> id in store.books
      ensures r.Some? ==> r.value == store.books[id]
    {
      if id in store.books {
        r := Some(store.books[id]);
      } else {
        r := None;
      }
    }

    method List(req: Request) returns (o: Outcome)
      requires Valid()
      modifies cache
      ensures Valid() && store.State() == old(store.State())
      ensures cache.entries == Fetch(old(cache.entries), rate, req.clientKey, req.now).0
      ensures o == Respond(ListResponse(store.State(), HeadersFor(old(cache.entries), rate, req)))
    {
      var info := cache.FetchRateLimitInfo(rate, req.clientKey, req.now);
      var c := store.State();
      if c.ids == [] {
        o := Respond(Envelope("success", 200, "There are no Books in the library", Many([]), info));
      } else {
        o := Respond(Envelope("success", 200, "Successfully retrieved all Books", Many(Listing(c)), info));
      }
    }

    method Retrieve(req: Request, id: int) returns (o: Outcome)
      requires Valid()
      modifies cache
      ensures Valid() && store.State() == old(store.State())
      ensures cache.entries == Fetch(old(cache.entries), rate, req.clientKey, req.now).0
      ensures o == Respond(RetrieveResponse(store.State(), id, HeadersFor(old(cache.entries), rate, req)))
    {
      var instance := GetObject(id);
      var info := cache.FetchRateLimitInfo(rate, req.clientKey, req.now);
      match instance
      case Some(b) =>
        o := Respond(Envelope("success", 200, "Successfully retrieved Book", Single(b), info));
      case None =>
        o := Respond(Envelope("error", 404, "No Book matches the given query", Null, info));
    }

    method Create(req: Request, input: BookInput, ruleErrors: seq<FieldError>) returns (o: Outcome)
      requires Valid()
      modifies store, cache
      ensures Valid()
      ensures var step := CreateStep(old(store.State()), input, ruleErrors, req.now,
                                     HeadersFor(old(cache.entries), rate, req));
              o == step.0 && store.State() == step.1
      ensures cache.entries == CacheAfter(o, old(cache.entries), rate, req)
    {
      var verdict := Validate(input, Mode.Create, ruleErrors);
      if verdict.Rejected? {
        return ValidationError(verdict.errors);
      }
      var b := store.PerformCreate(input, req.now);
      var info := cache.FetchRateLimitInfo(rate, req.clientKey, req.now);
      o := Respond(Envelope("success", 201, "Successfully added Book", Single(b), info));
    }

    method Update(req: Request, id: int, input: BookInput, partial: bool, ruleErrors: seq<FieldError>)
      returns (o: Outcome)
      requires Valid()
      modifies store, cache
      ensures Valid()
      ensures var step := UpdateStep(old(store.State()), id, input, partial, ruleErrors,
                                     HeadersFor(old(cache.entries), rate, req));
              o == step.0 && store.State() == step.1
      ensures cache.entries == CacheAfter(o, old(cache.entries), rate, req)
    {
      var instance := GetObject(id);
      if instance.None? {
        return NotFound;
      }
      var verdict := Validate(input, UpdateMode(partial), ruleErrors);
      if verdict.Rejected? {
        return ValidationError(verdict.errors);
      }
      var b := Apply(instance.value, input);
      store.PerformUpdate(b);
      var info := cache.FetchRateLimitInfo(rate, req.clientKey, req.now);
      o := Respond(Envelope("success", 200, "Successfully updated Book", Single(b), info));
    }

    method Destroy(req: Request, id: int) returns (o: Outcome)
      requires Valid()
      modifies store, cache
      ensures Valid()
      ensures var step := DestroyStep(old(store.State()), id, HeadersFor(old(cache.entries), rate, req));
              o == step.0 && store.State() == step.1
      ensures cache.entries == CacheAfter(o, old(cache.entries), rate, req)
    {
      var instance := GetObject(id);
      if instance.None? {
        return NotFound;
      }
      store.PerformDestroy(instance.value.id);
      var info := cache.FetchRateLimitInfo(rate, req.clientKey, req.now);
      o := Respond(Envelope("success", 204, "Successfully deleted Book", Omitted, info));
    }
  }

  // ---------------------------------------------------------------------
  // Properties relating several requests

  /**
   * Round trip: a book created and then retrieved comes back as the very
   * record the create response carried, holding every supplied field.
   */
  lemma CreateThenRetrieve(c: Catalog, input: BookInput, now: int, h1: Option<RateLimitInfo>,
                           h2: Option<RateLimitInfo>)
    requires WellFormed(c)
    requires Validate(input, Create, []).Accepted?
    ensures var (created, after) := CreateStep(c, input, [], now, h1);
            var fetched := RetrieveResponse(after, c.nextId, h2);
            && created.Respond? && fetched.code == 200
            && fetched.data == created.envelope.data
            && fetched.data.Single? && Reflects(input, fetched.data.book)
            && fetched.data.book.id == c.nextId
  {
  }

  /** A created book shows up at the end of the next listing, after everything that was there. */
  lemma CreateThenList(c: Catalog, input: BookInput, ruleErrors: seq<FieldError>, now: int,
                       h1: Option<RateLimitInfo>, h2: Option<RateLimitInfo>)
    requires WellFormed(c)
    requires Validate(input, Create, ruleErrors).Accepted?
    ensures var after := CreateStep(c, input, ruleErrors, now, h1).1;
            ListResponse(after, h2).data == Many(Listing(c) + [NewBook(c.nextId, input, now)])
  {
  }

  /** Deleting twice: the first destroy answers 204, the second raises NotFound and changes nothing. */
  lemma DestroyTwice(c: Catalog, id: int, h1: Option<RateLimitInfo>, h2: Option<RateLimitInfo>)
    requires WellFormed(c) && id in c.books
    ensures var (first, after) := DestroyStep(c, id, h1);
            var (second, final) := DestroyStep(after, id, h2);
            first.Respond? && first.envelope.code == 204 && first.envelope.data == Omitted
            && second == NotFound && final == after
            && after.books.Keys == c.books.Keys - {id}
  {
  }

  /**
   * Repeating an accepted update stores the same catalog and builds the same
   * envelope, apart from the rate-limit report.
   */
  lemma UpdateIdempotent(c: Catalog, id: int, input: BookInput, partial: bool, ruleErrors: seq<FieldError>,
                         h1: Option<RateLimitInfo>, h2: Option<RateLimitInfo>)
    requires WellFormed(c)
    ensures var (o1, c1) := UpdateStep(c, id, input, partial, ruleErrors, h1);
            var (o2, c2) := UpdateStep(c1, id, input, partial, ruleErrors, h2);
            c2 == c1
            && (o1.Respond? <==> o2.Respond?)
            && (o1.Respond? ==> o2.envelope == o1.envelope.(headers := h2))
            && (!o1.Respond? ==> o2 == o1)
  {
  }

  /**
   * The not-found asymmetry: for a key that is not stored, retrieve answers
   * with a 404 envelope while update and destroy raise NotFound, and none of
   * them changes the catalog.
   */
  lemma MissingKeyAsymmetry(c: Catalog, id: int, input: BookInput, partial: bool, ruleErrors: seq<FieldError>,
                            h: Option<RateLimitInfo>)
    requires WellFormed(c) && id !in c.books
    ensures RetrieveResponse(c, id, h).code == 404
    ensures UpdateStep(c, id, input, partial, ruleErrors, h) == (NotFound, c)
    ensures DestroyStep(c, id, h) == (NotFound, c)
  {
  }
}
