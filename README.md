# Library catalog API: rate-limit reporter and response envelopes

This project models, in Dafny, the two pieces of the library catalog API that
hold logic of their own:

- **The sliding-log rate-limit reporter** (`fetch_rate_limit_info`). The
  shared cache maps each client key to a log of request timestamps, newest
  first. Each call drops the stale entries from the tail of the log and
  pushes `now` on the head. It then writes the log back and reports
  `{limit, remaining, reset}`. When no rate is configured it reports nothing
  and leaves the cache alone. The cache is the class `RateLimit.RateCache`,
  which holds a `map<Key, seq<int>>`. Its method `FetchRateLimitInfo` runs
  the pruning loop. The function `RateLimit.Fetch` specifies one call, and
  the lemmas prove the properties of the log.
- **The book view set** (`BookViewSet`). For each verb (list, retrieve,
  create, update, destroy) the model gives the response envelope
  `{status, code, message, data, headers}` or the exception that escapes,
  and the change to the book table. `Views.Catalog` is the table as a value.
  `Views.BookStore` is the stateful table that `perform_create`,
  `perform_update` and `perform_destroy` change. `Views.BookViewSet` holds
  the table, the rate-limit cache and the configured rate. Its methods are
  proved against the pure step functions (`ListResponse`, `RetrieveResponse`,
  `CreateStep`, `UpdateStep`, `DestroyStep`). Their postconditions also say that every
  envelope comes from exactly one reporter call, whose result is placed under
  `headers`. A view that raises leaves the cache untouched.

Files: `wrappers.dfy` (Option), `rate_limit.dfy` (LibraryAPI/utils.py),
`books.dfy` (the Book record of LibraryAPI/models.py, request bodies and the
"required field" part of validation), `views.dfy` (LibraryAPI/views.py).

Inputs that the framework or the environment supplies become parameters:
- the throttle's parsed rate is an `Option<Rate>`, where `None` means no rate is configured;
- the throttle's cache key is a `Key`;
- the clock is an integer `now`, in seconds;
- the serializer's field-rule verdict is a list of `FieldError`s;
- the request body is a `BookInput`, with one optional value per writable field.

The deployed rate of 100 requests per hour (LibraryManagement/settings.py:179)
is `RateLimit.ConfiguredRate`.

Two behaviours of the code shape the model:
- Only `retrieve` catches `NotFound` (LibraryAPI/views.py:107-119).
  `update` and `destroy` let it escape (LibraryAPI/views.py:160,
  LibraryAPI/views.py:192), so they return `Outcome.NotFound`, which is not
  an envelope, and change neither the table nor the cache. A second delete
  of the same id therefore raises NotFound (`Views.DestroyTwice`).
- No Location header is modelled: the serializer has no `url` field, so
  `get_success_headers` returns nothing.

## Model

| member | source | states |
|---|---|---|
| `RateLimit.Lookup` | LibraryAPI/utils.py:28-29 | A key missing from the cache reads as the empty log; a present key reads as its stored log. |
| `RateLimit.RateCache.History` | LibraryAPI/utils.py:29 | `cache.get(key, [])` on the cache object: the stored log, or `[]` for a missing key. |
| `RateLimit.Prune` | LibraryAPI/utils.py:35-37 | The pruned log is a prefix of the old log. It is empty or ends with an entry later than the cutoff. Every entry popped was at or before the cutoff. |
| `RateLimit.Record` | LibraryAPI/utils.py:35-40 | The written log is non-empty and its head is `now`. Behind the head is a prefix of the old log. Every dropped entry was at or before `now - duration`, and every stale tail entry is dropped: the new log is just `[now]` or ends with an entry later than `now - duration`. |
| `RateLimit.Report` | LibraryAPI/utils.py:45-56 | Limit is N and Reset is `now + duration`. Remaining is 0 once the log holds N or more entries, and `N - length` otherwise. |
| `RateLimit.Fetch` | LibraryAPI/utils.py:16-56 | With no rate, the cache is unchanged and the result is None. With a rate, only the entry under `key` is written, and it holds `Record` of the old log (empty if absent). Every other key keeps its log. The report is computed from the written log. |
| `RateLimit.RateCache.FetchRateLimitInfo` | LibraryAPI/utils.py:16-56 | The pop-from-tail loop, head insert and cache write leave the cache and result exactly as `Fetch` says. |
| `RateLimit.PruneIsWindow` | LibraryAPI/utils.py:35-37 | On a newest-first log, tail pruning equals the filter "entries later than the cutoff" (`Recent`). So every stale entry goes and every fresh one stays. |
| `RateLimit.RecordKeepsOrder` | LibraryAPI/utils.py:35-40 | Suppose the old log is newest first and `now` is not earlier than its head. Then the new log is newest first, and every entry in it is later than `now - duration`. |
| `RateLimit.FetchKeepsOrder` | LibraryAPI/utils.py:36-43 | If every stored log is newest first with no entry later than `now`, then after a call at `now` every log is still newest first, with no entry later than any later call time. |
| `RateLimit.SlidingWindowExpiry` | LibraryAPI/utils.py:36-37 | On a newest-first log, an old timestamp `t0` (including one stamped in the same second) survives a call at `now` if and only if `t0 > now - duration`. So it is dropped by the first call with `now >= t0 + duration`. |
| `RateLimit.RecordLength` | LibraryAPI/utils.py:36-43 | On a newest-first log, the new log's length is the number of old entries inside the window plus one, and at most the old length plus one. |
| `RateLimit.RemainingBound` | LibraryAPI/utils.py:46 | The reported Remaining is never negative. When N >= 1 it is at most N - 1. |
| `RateLimit.ReplayKeepsWindow` | LibraryAPI/utils.py:35-43 | Take calls at non-decreasing times that all lie within one window of the last call. After them, the log starts with every one of those calls, newest first. |
| `RateLimit.QuotaExhausted` | LibraryAPI/utils.py:46 | Once N calls fall within one window, the last of them reports Remaining 0. Every further call in that window also reports 0, never a negative value. |
| `RateLimit.HundredAndFirstRequest` | LibraryManagement/settings.py:179 | With N = 100 and a 3600-second window, the reporter alone reports Remaining 0 at the 101st call within the window. |
| `Books.MissingFields` | LibraryAPI/models.py:9-18 | On create and full update, the "required" errors are empty exactly when title, author, edition, published date, genre and summary are all supplied. Each of those fields that is left out gets its own "This field is required." error. `availability` has a default, so it is never required. A partial update requires nothing. |
| `Books.Validate` | LibraryAPI/views.py:128-129 | A body is accepted exactly when the field rules report no error and, for create or full update, no required field is missing. A rejection carries every rule error and every missing-field error. |
| `Books.Apply` | LibraryAPI/views.py:166-169 | After saving a body onto a record, every supplied field has the supplied value. Every field left out, plus `id` and `created_at`, keeps its old value. |
| `Books.NewBook` | LibraryAPI/models.py:9-18 | A created record has the server-given id and creation time. It holds every supplied field, and its availability defaults to true. |
| `Books.ApplyIdempotent` | LibraryAPI/views.py:151-154 | Saving the same body twice gives the same record as saving it once. |
| `Books.FullInputReplaces` | LibraryAPI/views.py:156-158 | A full (PUT) body replaces every required field. The result does not depend on the old record's values, apart from id, creation time and an omitted availability. |
| `Views.FindBook` | LibraryAPI/views.py:43-50 | `get_object` finds a record exactly when the id is stored, and then returns that record, whose id is the one asked for. |
| `Views.Listing` | LibraryAPI/views.py:55 | The queryset holds every stored record exactly once: same count, same set of records, in increasing id order. |
| `Views.Inserted` | LibraryAPI/views.py:131 | `perform_create` stores the new record under the next id, which no record held. Existing records are untouched, and the table stays well formed. |
| `Views.Replaced` | LibraryAPI/views.py:169 | `perform_update` changes only the record under the saved id. The key set is unchanged. |
| `Views.Removed` | LibraryAPI/views.py:194 | `perform_destroy` removes exactly that id, and the table stays well formed. |
| `Views.ListResponse` | LibraryAPI/views.py:53-83 | List gives "success" and 200 in both cases. An empty table gives "There are no Books in the library" and `[]`. A non-empty table gives "Successfully retrieved all Books" and every stored record. |
| `Views.RetrieveResponse` | LibraryAPI/views.py:86-119 | A missing id gives "error", 404, "No Book matches the given query" and null data. A stored id gives "success", 200, "Successfully retrieved Book" and that record. |
| `Views.CreateStep` | LibraryAPI/views.py:122-149 | A rejected body gives the validation error and leaves the table unchanged. An accepted body gives 201 and "Successfully added Book" with the new record. The table gains exactly that record under a fresh id. |
| `Views.UpdateStep` | LibraryAPI/views.py:155-187 | A missing id gives NotFound with no envelope and no change. Then a rejected body gives the validation error with no change. Otherwise the result is 200, "Successfully updated Book", and only that record is overwritten, in its supplied fields only. |
| `Views.DestroyStep` | LibraryAPI/views.py:190-206 | A missing id gives NotFound with no envelope and no change. A stored id is removed alone, and the result is 204 with "Successfully deleted Book" and no `data` entry. |
| `Views.BookStore.PerformCreate` | LibraryAPI/views.py:131 | The stored table becomes `Inserted` of the old one, and the returned record is the new one. |
| `Views.BookStore.PerformUpdate` | LibraryAPI/views.py:169 | The stored table becomes `Replaced` of the old one. |
| `Views.BookStore.PerformDestroy` | LibraryAPI/views.py:194 | The stored table becomes `Removed` of the old one. |
| `Views.BookViewSet.GetObject` | LibraryAPI/views.py:43-50 | Returns the stored record exactly when the id is present, and None (NotFound) otherwise. |
| `Views.BookViewSet.List` | LibraryAPI/views.py:53-83 | The table is unchanged. The cache takes one reporter write. The result is the `ListResponse` envelope carrying that call's report. |
| `Views.BookViewSet.Retrieve` | LibraryAPI/views.py:86-119 | The table is unchanged. The cache takes one reporter write on both branches, including the 404 one. The result is the `RetrieveResponse` envelope. |
| `Views.BookViewSet.Create` | LibraryAPI/views.py:122-149 | Outcome and new table as `CreateStep`. The cache is written once when an envelope is built and left alone when validation raises. |
| `Views.BookViewSet.Update` | LibraryAPI/views.py:155-187 | Outcome and new table as `UpdateStep`. The cache is written once on success and left alone when NotFound or validation raises. |
| `Views.BookViewSet.Destroy` | LibraryAPI/views.py:190-206 | Outcome and new table as `DestroyStep`. The cache is written once on success and left alone when NotFound raises. |
| `Views.CreateThenRetrieve` | LibraryAPI/views.py:86-149 | A created book, retrieved by its new id, comes back with 200 as exactly the record the create response carried. That record holds every supplied field. |
| `Views.CreateThenList` | LibraryAPI/views.py:128-139 | After a create, the listing is the old listing with the new record appended. |
| `Views.DestroyTwice` | LibraryAPI/views.py:190-206 | The first destroy gives 204 with no data and removes the id. The second raises NotFound and changes nothing. |
| `Views.UpdateIdempotent` | LibraryAPI/views.py:151-187 | Repeating an update stores the same table. It gives the same outcome, apart from the rate-limit report. |
| `Views.MissingKeyAsymmetry` | LibraryAPI/views.py:107-119 | For an id that is not stored, retrieve gives a 404 envelope while update and destroy raise NotFound. None of them changes the table. |

## Left out

- The framework's throttle class: rate parsing, cache-key derivation and
  `AnonRateThrottle.allow_request`. These are foreign calls, so the rate and
  the key are inputs. The throttle's own write to the same cache key before
  the view runs is not modelled, and neither is its 429 refusal. In the
  running application both write to the same key, so each request adds two
  timestamps, the reported Remaining falls by two per request, and the
  throttle refuses from the 51st request within an hour. The repeated-call
  lemmas describe the reporter on its own.
- Whether the framework can reach the "no rate attribute" branch at all is
  not part of this model. The model simply takes the rate as an `Option`.
- Timestamps are whole seconds. The model does not cover the float value of
  `now.timestamp()` or the `int()` truncation of the reset time.
- The cache TTL (whole-entry expiry after `duration`), the in-memory cache
  backend, and the get/set race between concurrent requests are left out.
  These are time-driven eviction and concurrency, not sequential logic.
- Serializer field rules (maximum lengths, date parsing and range) are not
  modelled. They arrive as the `ruleErrors` input. Only the "required field"
  rule, which follows from the model's defaults, is modelled.
- The order of an unordered queryset is assumed to be primary-key order.
  Auto-increment keys rise with insertion, so this is also insertion order.
- Response rendering (JSON), the HTTP status line and transport headers,
  the success-header helper, pagination, URL routing and versioning are left
  out. The envelope holds the values the views put in the body.
- Request bodies are taken to be JSON: an omitted `availability` defaults to
  true. A form-encoded body, where the framework reads an omitted boolean as
  false, is not modelled.
- The serializer's `data` is the stored record itself. The model does not
  cover the representation of dates and timestamps as strings.
- `Views.BookStore.PerformDestroy` is called with the id of the fetched
  instance. Deletion by object identity is not modelled.
