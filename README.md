# Pastebin-lite: a Dafny model of the paste server

Pastebin-lite stores text pastes and hands out a link to each. A paste can
expire in two ways: after a time-to-live, or after a maximum number of views.
This project models the server's logic. It covers the paste document and its
schema defaults, the accessibility rule, and the guarded fetch that each read
performs. That fetch is MongoDB's `findOneAndUpdate` with a filter and
`$inc: { currentViews: 1 }`: it raises the view counter only when the paste is
still readable. The model also covers the create handler with its input
coercions, the `remaining_views` field, the HTML escaping of the view page,
and the test-mode clock override.

Modules:

- `Wrappers` (wrappers.dfy): `Option` (JavaScript `null`) and `Result`.
- `PasteSchema` (paste.dfy): the `Paste` record of `server/models/Paste.js`.
  `NewPaste` is what `Paste.create` validates and stores.
- `Guard` (guard.dfy): two forms of the accessibility rule. `IsAccessible` is
  the plain rule. `GuardFilter` is the literal query of the two GET routes,
  written in a small MongoDB query language. The lemma
  `GuardSelectsAccessible` proves that the two agree.
- `Store` (store.dfy): the class `PasteStore`. It holds the collection as a
  `map<Id, Paste>` and has the methods `Insert` and `FindOneAndUpdate`. The
  pure `Consume` specifies one guarded fetch on a collection value.
- `FetchSequences` (fetch_sequences.dfy): `Run` applies a sequence of fetches
  in order. Lemmas about it cover the view-limit invariant, the "first n
  fetches" rule, "once inaccessible, always inaccessible" and unlimited
  pastes.
- `HtmlEscape` (escape.dfy): the chain `safeContent` and its properties: no
  `<` or `>` in the output, every `&` opens an entity, and decoding recovers
  the content.
- `Routes` (routes.dfy): `getCurrentTime`, the create handler, and the JSON
  and HTML GET routes, with scenario lemmas.

Times are integer milliseconds. Request bodies arrive already parsed, with
numbers as integers; an absent value is `None`. The HTTP framework, the
database connection and the wall clock are not modelled. The handlers take
the clock reading, the `TEST_MODE` value and the `x-test-now-ms` header as
parameters (`TimeSource`). The store assigns each new paste a fresh id from a
counter. It stands in for MongoDB's `ObjectId` generation.

Some behaviour of the code worth knowing:

- The expiry is `now + ttl_seconds * 1000` milliseconds.
- `max_views` is coerced by JavaScript truthiness. A missing or zero value
  means "unlimited". A negative value is stored as it is, and such a paste is
  never readable. A positive value is a real limit.
- `remaining_views` is null when `maxViews` is null or zero (truthiness
  again). After a successful fetch `maxViews` is never zero, so it is null
  exactly for unlimited pastes.
- Content is checked twice: by the handler (`!content`, a 400 response) and
  by the schema's `required` check, which also rejects the empty string. A
  schema failure would hit the handler's catch and return 500.
  `CreateRejectsOnlyMissingContent` shows that, for times within JavaScript's
  Date range (|ms| <= 8.64e15), this 500 path is never taken.

## Model

| member | source | states |
|---|---|---|
| PasteSchema.NewPaste | server/models/Paste.js:3-8 | A document is produced exactly when `content` is present and non-empty. It keeps the given content, `maxViews` and `expiresAt`, and starts at `currentViews = 0`. |
| Guard.GuardSelectsAccessible | server/index.js:86-103 | The guard filter (the id, then an explicit `$and` of two `$or` groups) matches a stored document exactly when its key is the requested id, (`expiresAt` is null or after `now`), and (`maxViews` is null or `currentViews < maxViews`). |
| Guard.ExpiryIsStrict | server/index.js:91-94 | With an expiry set, the time clause holds exactly for instants strictly before it. At `now == expiresAt` the paste is already inaccessible. |
| Guard.NoExpiryAlwaysInTime | server/models/Paste.js:7 | A paste whose `expiresAt` is the null default passes the time clause at every instant. |
| Guard.LaterIsNoMoreAccessible | server/index.js:89-102 | A paste that is inaccessible at `t` is inaccessible at every later instant. |
| Store.Consume | server/index.js:86-106 | One guarded fetch succeeds exactly when the id is stored and the paste is accessible at `now`. It then raises only that paste's `currentViews` by one and returns the post-increment document. Otherwise it returns not-found and the collection is unchanged. |
| Store.PasteStore.Insert | server/index.js:61-65 | `Paste.create` stores the document under an id that was not in use, and changes no other entry. |
| Store.PasteStore.FindOneAndUpdate | server/index.js:86-106 | The in-place update agrees with `Consume`. On success the stored paste gets the increment and the post-increment paste is returned. On failure the collection is unchanged. |
| FetchSequences.Run | server/index.js:81-146 | A run of fetches gives one response per request and keeps the set of stored ids. |
| FetchSequences.ConsumeFrame | server/index.js:104 | A fetch never changes `content`, `maxViews` or `expiresAt`. The counter of the requested paste rises by one exactly on success. Every other paste is untouched. |
| FetchSequences.ConsumeKeepsWithinLimit | server/index.js:97-100 | A fetch keeps `currentViews <= maxViews` for a paste that satisfies it. |
| FetchSequences.RunKeepsWithinLimit | server/index.js:97-104 | Across any sequence of fetches, a paste that starts with `currentViews <= maxViews` keeps it. |
| FetchSequences.InaccessibleStaysInaccessible | server/index.js:93-104 | A paste inaccessible at `t` is left unchanged by any fetches at times at or after `t`. It stays inaccessible at every instant at or after `t`, and every request for it gets not-found. |
| FetchSequences.RepeatedFetches | server/index.js:99-104 | Repeated fetches of one paste with limit `n`, at a fixed time before its expiry, starting from `c` views: the k-th fetch succeeds exactly when `c + k < n`. It then returns the paste with `c + k + 1` views. |
| FetchSequences.UnlimitedAlwaysFound | server/index.js:92-98 | A paste with null `maxViews` and null `expiresAt` is found, with its content, by every request for it in any sequence. |
| HtmlEscape.SafeContentIsCharwise | server/index.js:152-155 | Because `&` is replaced first, the chain of three replacements is equal to escaping each character on its own. |
| HtmlEscape.SafeContentHasNoAngleBrackets | server/index.js:152-155 | The escaped content contains no `<` and no `>`. |
| HtmlEscape.SafeContentOpensEntities | server/index.js:152-155 | Every `&` in the escaped content begins `&amp;`, `&lt;` or `&gt;`. |
| HtmlEscape.UnescapeSafeContent | server/index.js:152-155 | Decoding the three entities from the escaped content gives back the original content. |
| Routes.CurrentTime | server/index.js:32-37 | The reference time differs from the wall clock only when `TEST_MODE` is exactly "1" and the header is present. In that case the time is the header's value. |
| Routes.CreateRejectsOnlyMissingContent | server/index.js:53-65 | Creation fails exactly when the content is missing or empty, and then always with the 400 error. For times within JavaScript's Date range (|ms| <= 8.64e15), the 500 path is never taken. |
| Routes.CreatedPasteIsFresh | server/index.js:61-65 | A created paste holds the submitted content and starts with zero views. |
| Routes.CreatedExpiryWindow | server/index.js:55-59 | With a positive `ttl_seconds`, the created paste is in time exactly before `now + ttl_seconds * 1000`. Otherwise it has no time limit. |
| Routes.CreatedViewLimit | server/index.js:63 | A created paste has no limit exactly when `max_views` is missing or zero. Otherwise it keeps the submitted value, and it passes the count clause exactly when that value is positive. |
| Routes.NegativeLimitNeverReadable | server/index.js:63 | A paste created with a negative `max_views` is inaccessible at every instant. |
| Routes.CreatePaste | server/index.js:50-65 | The handler fails, writing nothing, exactly when the content is missing. Otherwise it stores the created document under a fresh id, changes nothing else, and returns the id. |
| Routes.RemainingAfterFetch | server/index.js:112 | After a successful fetch, `remaining_views` is null exactly when the paste has no limit. Otherwise it is the limit minus the post-increment views, and never negative. |
| Routes.GetPasteJson | server/index.js:81-114 | The JSON route performs exactly the guarded fetch and returns its content, `remaining_views` and `expires_at`, or not-found when the fetch fails. |
| Routes.ViewPasteHtml | server/index.js:121-155 | The HTML route performs the same guarded fetch. On success the embedded text is the escaped content: it has no `<` or `>`, and it decodes back to the stored content. |
| Routes.ExactlyFirstNFetches | server/index.js:99-112 | For a freshly created paste with nonzero `max_views = n`, read repeatedly at one time before it expires, exactly the first n fetches succeed. Each success returns the submitted content, and the k-th success reports `remaining_views = n - k`. |
| Routes.CreatedUnlimitedAlwaysFound | server/index.js:55-63 | A paste created without a positive TTL and without a nonzero `max_views` is found, with its content, by every request for it. |
| Routes.HelloScenario | server/index.js:50-114 | Created with content "hello" and `max_views = 1`: the first fetch returns "hello" with `remaining_views = 0`, and the second returns not-found. |
| Routes.TtlScenario | server/index.js:55-59 | A paste created with a 60-second TTL at `T0` is found exactly by fetches before `T0 + 60000` ms. |

## Left out

- The HTTP plumbing is not modelled: Express, JSON body parsing, CORS, the database connection middleware, the health route, `app.listen`, the HTML page template and URL construction from the `x-forwarded-proto` and `host` headers. These are framework and I/O code.
- The model does not capture concurrency. MongoDB makes `findOneAndUpdate` atomic per document. The model treats each fetch as one sequential step, and `Run` orders fetches in store-commit order.
- The TTL index on `expiresAt` (`server/models/Paste.js:11`) is not modelled. It deletes expired documents in the background, by the database's wall clock. Under the test-mode clock override, a request's time can be earlier than that clock. The store may then already have deleted a paste that the model still finds. The "found" halves of Routes.TtlScenario and Routes.ExactlyFirstNFetches hold only until that deletion.
- `ObjectId` generation is replaced by a counter that never reuses an id. Malformed ids, and the handlers' catch that turns exceptions into 404, appear only as "the id is not stored".
- Dates and `parseInt` are not modelled. The header and the body fields arrive as integers, so `NaN`, invalid dates, fractional `ttl_seconds`, string inputs such as `"0"` (truthy in JavaScript) and non-string content are outside the model.
- Routes.ExpiryFor: the model does not bound `now + ttl_seconds * 1000` to JavaScript's Date range (|ms| <= 8.64e15). Outside that range the source produces an Invalid Date, `Paste.create` throws, and the handler answers 500, while the model creates the paste.
- Routes.CurrentTime: the model does not bound the `x-test-now-ms` value to JavaScript's Date range (|ms| <= 8.64e15). Outside that range the source's query cast throws and the GET routes answer 404, while `Consume` may find the paste.
- Store write failures during creation (the 500 response) are outside the model, and so are the `createdAt` and `updatedAt` timestamps.
- Routes.ExactlyFirstNFetches: states nothing for `max_views = 0`, because the create handler turns zero into "unlimited". Routes.CreatedUnlimitedAlwaysFound covers that case.
