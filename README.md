# URL shortener: identifier allocator and URL table

This project models the core of a small URL-shortening service. The service maps
submitted URLs to short numeric ids and redirects an id back to its URL. The model
covers the in-memory allocation counter `urlCounter` and the table of
`{original_url, short_url}` documents. The table is the Mongo collection behind the
`Url` model, here a sequence in insertion order. Three operations act on them:

- start-up initialisation of the counter from the largest stored id;
- the POST `/api/shorturl` handler, which validates, deduplicates, or allocates and saves;
- the GET `/api/shorturl/:short` handler, which redirects or reports not-found.

Layout:

- `wrappers.dfy`: `Option`.
- `url_store.dfy` (module `UrlStore`): the stored `Record`, the three `findOne` queries
  the handlers issue, and the uniqueness predicates over the table.
- `shortener.dfy` (module `Shortener`): the state `(counter, records)`, the invariant
  `Valid`, each operation as a pure step function, and lemmas relating several steps.
- `handlers.dfy` (module `Handlers`): class `UrlShortener` with mutable `counter` and
  `records` fields. Its constructor and methods follow the branches of the JavaScript
  handlers, and each is proved equal to the matching step function.

The world outside is turned into inputs:

- `parses`: whether `new URL(submittedUrl)` succeeds.
- `resolves`: whether `dns.lookup` of the hostname succeeds.
- `findFails`: whether the store's `findOne` throws.
- `saveFails`: whether `save` throws.
- `queryFails`: whether the start-up query throws.

The parsed route parameter is an `Option<int>`. `None` stands for a value that is not a number.

## Model

| member | source | states |
|---|---|---|
| `UrlStore.FindByUrl` | index.js:68 | the lookup by URL finds a stored document with exactly that URL, and finds nothing exactly when no document has it |
| `UrlStore.FindById` | index.js:99 | the lookup by id finds a stored document with that id, and finds nothing exactly when no document has it |
| `UrlStore.MaxRecord` | index.js:40 | the query sorted by descending id finds nothing only on an empty table; otherwise it finds a stored document whose id is at least every stored id |
| `UrlStore.FindByIdFindsStored` | index.js:99 | when ids are unique, looking up a stored document's id finds that very document |
| `Shortener.InitialCounter` | index.js:35-47 | the counter is 1 when the query fails or the table is empty; otherwise it is one more than a stored id and above every stored id |
| `Shortener.CreateStep` | index.js:50-92 | a URL that fails parsing or DNS gives InvalidUrl and changes nothing. A failed lookup gives ServerError and changes nothing. A stored URL gives its stored document and changes nothing. A new URL with a good save gets the old counter, the counter moves by one, and exactly one document is appended. A failed save still increments the counter but stores nothing and gives ServerError. The counter never decreases, documents are never altered, the invariant is kept, and a new id exceeds every stored id |
| `Shortener.ResolveStep` | index.js:95-108 | a failed lookup gives ServerError. Otherwise it redirects exactly when some document has the id, and then to a URL stored under that id. With unique ids that is the only such URL. An id never allocated is NotFound |
| `Shortener.InitEstablishesValid` | index.js:38-43 | a successful start-up over a table with positive, unique ids and unique URLs leaves every id below the counter |
| `Shortener.CreateThenResolve` | index.js:77-104 | after create answers `(url, n)` from a valid state, resolving `n` redirects to `url` |
| `Shortener.CreateIdempotent` | index.js:68-82 | after a successful create, submitting the same URL again answers the same id and changes nothing |
| `Shortener.SuccessiveIdsIncrease` | index.js:79 | two different new URLs submitted in sequence and both stored get strictly increasing ids, from any state, including one left by a failed start-up |
| `Shortener.InitFailureBreaksValid` | index.js:44-46 | when the start-up query fails over a non-empty table of positive ids, the counter 1 is not above every stored id, so the invariant does not hold |
| `Shortener.InitFailureReusesIds` | index.js:44-79 | when the start-up query fails over a table with unique ids that stores id 1, the next new URL gets id 1 again, the ids are no longer unique, and resolving 1 still leads to the older URL |
| `UrlStore.FindByIdPrefix` | index.js:99 | documents appended after a matching document do not change what the lookup by id finds |
| `Handlers.UrlShortener.Start` | index.js:35-47 | start-up leaves the table as stored and the counter as `InitialCounter` gives it |
| `Handlers.UrlShortener.CreateShortUrl` | index.js:50-92 | the handler's answer and the new counter and table are those of `CreateStep` on the old state, so the invariant is kept |
| `Handlers.UrlShortener.ResolveShortUrl` | index.js:95-108 | the handler answers as `ResolveStep` and changes nothing. A redirect goes to a URL stored under the id. An id matching no document, or `None`, is NotFound |

## Left out

- Express wiring, CORS, body parsing, static files, `/api/hello`, `app.listen`, `dotenv` and the database connection (index.js:1-32, 110-112): framework set-up with no logic.
- `new URL(...)` (the WHATWG URL Standard basic URL parser) and `dns.lookup`: abstract boolean inputs, not re-specified.
- Mongo query mechanics: `findOne` is the first match in insertion order, and `sort('-short_url')` returns the first document with the largest id. Storage failure is only a flag.
- Concurrency: each handler is one atomic step. The model does not capture two requests interleaving between the lookup at line 68 and the allocation at line 79. It also does not capture requests served before the asynchronous start-up query has finished.
- `parseInt` on the route parameter: its result is an `Option<int>`, with NaN as `None` and trailing characters dropped. `None` matching nothing, and so answering NotFound, is a choice of this abstraction. If `short_url` is a Number field, Mongoose's casting would reject a NaN id and the handler would answer 500 (index.js:105-106). The schema is not part of this model; that case is covered only as `findFails`.
- HTTP status codes and JSON bodies: the `Response` datatype stands for them.
- JavaScript numbers are doubles: the model uses unbounded integers, so precision loss of the counter above 2^53 is not modelled.
- Logging of the start-up failure (index.js:45) is not modelled.
