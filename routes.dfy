/**
 The request handlers of server/index.js, minus the HTTP framework: the
 test-mode clock, paste creation, and the two GET routes that share one
 guarded fetch. Requests arrive with their JSON body already parsed, numbers
 as integers; an absent field is `None`, and so is an empty `x-test-now-ms`
 header. Empty content is `Some("")`, which the handler rejects.
 */
module Routes {
  import opened Wrappers
  import opened PasteSchema
  import opened Guard
  import opened Store
  import opened FetchSequences
  import opened HtmlEscape

  /** What `getCurrentTime` reads: `TEST_MODE`, the `x-test-now-ms` header and the wall clock. */
  datatype TimeSource = TimeSource(testMode: Option<string>, headerNowMs: Option<int>, clockMs: int)

  /**
   `getCurrentTime`: the header overrides the clock only when `TEST_MODE` is
   exactly "1" and the header is present; otherwise the wall clock is used.
   */
  function CurrentTime(ts: TimeSource): (now: int)
    ensures now != ts.clockMs ==> ts.testMode == Some("1") && ts.headerNowMs == Some(now)
    ensures ts.testMode == Some("1") && ts.headerNowMs.Some? ==> now == ts.headerNowMs.value
  {
    if ts.testMode == Some("1") && ts.headerNowMs.Some? then ts.headerNowMs.value else ts.clockMs
  }

  /** The body of `POST /api/pastes`. */
  datatype CreateRequest = CreateRequest(content: Option<string>, ttlSeconds: Option<int>, maxViews: Option<int>)

  /** `ContentMissing` is the 400 response; `ServerError` the 500 of the handler's catch. */
  datatype CreateError = ContentMissing | ServerError

  /** `max_views ? parseInt(max_views) : null`: a missing or zero value means no limit. */
  function CoerceMaxViews(maxViews: Option<int>): Option<int>
  {
    if maxViews.Some? && maxViews.value != 0 then maxViews else None
  }

  /** `ttl_seconds && ttl_seconds > 0` gives `now + ttl_seconds * 1000`; anything else no expiry. */
  function ExpiryFor(ttlSeconds: Option<int>, now: int): Option<int>
  {
    if ttlSeconds.Some? && ttlSeconds.value > 0 then Some(now + ttlSeconds.value * 1000) else None
  }

  /** The document the create handler hands to `Paste.create`, or the handler's error. */
  function CreateDocument(req: CreateRequest, now: int): Result<Paste, CreateError>
  {
    if !HasContent(req.content) then Failure(ContentMissing)
    else
      match NewPaste(req.content, CoerceMaxViews(req.maxViews), ExpiryFor(req.ttlSeconds, now))
      case Failure(_) => Failure(ServerError)
      case Success(p) => Success(p)
  }

  /** Creation fails exactly when the content is missing or empty, and then only with the 400 error. */
  lemma CreateRejectsOnlyMissingContent(req: CreateRequest, now: int)
    ensures CreateDocument(req, now).Failure? <==> !HasContent(req.content)
    ensures CreateDocument(req, now).Failure? ==> CreateDocument(req, now).error == ContentMissing
  {
  }

  /** A created paste holds the submitted content and starts with no views. */
  lemma CreatedPasteIsFresh(req: CreateRequest, now: int)
    requires HasContent(req.content)
    ensures CreateDocument(req, now).Success?
    ensures CreateDocument(req, now).value.content == req.content.value
    ensures CreateDocument(req, now).value.currentViews == 0
  {
  }

  /** With a positive TTL the paste is in time strictly before `now + ttl * 1000`; without one, always. */
  lemma CreatedExpiryWindow(req: CreateRequest, now: int, t: int)
    requires HasContent(req.content)
    ensures req.ttlSeconds.Some? && req.ttlSeconds.value > 0 ==>
              (TimeOk(CreateDocument(req, now).value, t) <==> t < now + req.ttlSeconds.value * 1000)
    ensures !(req.ttlSeconds.Some? && req.ttlSeconds.value > 0) ==> TimeOk(CreateDocument(req, now).value, t)
  {
  }

  /**
   The view limit a created paste gets: a positive `max_views` is kept; a
   missing or zero one means unlimited; a negative one makes the paste
   unreadable from the start.
   */
  lemma CreatedViewLimit(req: CreateRequest, now: int)
    requires HasContent(req.content)
    ensures var p := CreateDocument(req, now).value;
            && (p.maxViews.None? <==> req.maxViews.None? || req.maxViews == Some(0))
            && (p.maxViews.Some? ==> p.maxViews == req.maxViews)
            && (ViewsOk(p) <==> p.maxViews.None? || p.maxViews.value > 0)
  {
  }

  /** A negative `max_views` gives a paste that no fetch ever finds. */
  lemma NegativeLimitNeverReadable(req: CreateRequest, now: int, t: int)
    requires HasContent(req.content) && req.maxViews.Some? && req.maxViews.value < 0
    ensures !IsAccessible(CreateDocument(req, now).value, t)
  {
  }

  /**
   `POST /api/pastes`: validates, computes the expiry from the request's
   time, stores the new document and returns its id. A rejected request
   writes nothing.
   */
  method CreatePaste(store: PasteStore, req: CreateRequest, ts: TimeSource) returns (r: Result<Id, CreateError>)
    requires store.Valid()
    modifies store
    ensures store.Valid()
    ensures r.Failure? <==> !HasContent(req.content)
    ensures r.Failure? ==> r.error == ContentMissing && store.pastes == old(store.pastes)
    ensures r.Success? ==>
              && r.value !in old(store.pastes)
              && store.pastes == old(store.pastes)[r.value := CreateDocument(req, CurrentTime(ts)).value]
  {
    var now := CurrentTime(ts);
    var doc := CreateDocument(req, now);
    CreateRejectsOnlyMissingContent(req, now);
    match doc {
      case Failure(e) =>
        r := Failure(e);
      case Success(p) =>
        var id := store.Insert(p);
        r := Success(id);
    }
  }

  /** `maxViews ? maxViews - currentViews : null`, with JavaScript truthiness: 0 counts as absent. */
  function RemainingViews(p: Paste): Option<int>
  {
    if p.maxViews.Some? && p.maxViews.value != 0 then Some(p.maxViews.value - p.currentViews) else None
  }

  /**
   After a successful fetch, `remaining_views` is the limit minus the views
   so far (never negative), or null exactly when the paste has no limit.
   */
  lemma RemainingAfterFetch(m: map<Id, Paste>, id: Id, now: int)
    requires Consume(m, id, now).found.Some?
    ensures var q := Consume(m, id, now).found.value;
            && (RemainingViews(q).None? <==> m[id].maxViews.None?)
            && (RemainingViews(q).Some? ==>
                  RemainingViews(q).value == m[id].maxViews.value - m[id].currentViews - 1 >= 0)
  {
  }

  /** The JSON body of a successful `GET /api/pastes/:id`. */
  datatype JsonView = JsonView(content: string, remainingViews: Option<int>, expiresAt: Option<int>)

  /** `GET /api/pastes/:id`: one guarded fetch, rendered as JSON; `None` is the 404. */
  method GetPasteJson(store: PasteStore, id: Id, ts: TimeSource) returns (r: Option<JsonView>)
    requires store.Valid()
    modifies store
    ensures store.Valid()
    ensures var f := Consume(old(store.pastes), id, CurrentTime(ts));
            && store.pastes == f.after
            && (r.Some? <==> f.found.Some?)
            && (r.Some? ==> r.value == JsonView(f.found.value.content, RemainingViews(f.found.value), f.found.value.expiresAt))
  {
    var now := CurrentTime(ts);
    var found := store.FindOneAndUpdate(id, now);
    if found.None? {
      r := None;
    } else {
      var p := found.value;
      r := Some(JsonView(p.content, RemainingViews(p), p.expiresAt));
    }
  }

  /**
   `GET /p/:id`: the same guarded fetch, returning the escaped content that
   the page embeds; `None` is the 404 page. The embedded text has no tag
   characters and decodes back to the stored content.
   */
  method ViewPasteHtml(store: PasteStore, id: Id, ts: TimeSource) returns (r: Option<string>)
    requires store.Valid()
    modifies store
    ensures store.Valid()
    ensures var f := Consume(old(store.pastes), id, CurrentTime(ts));
            && store.pastes == f.after
            && (r.Some? <==> f.found.Some?)
            && (r.Some? ==> r.value == SafeContent(f.found.value.content))
    ensures r.Some? ==> '<' !in r.value && '>' !in r.value && AmpersandsOpenEntities(r.value)
    ensures r.Some? ==> Unescape(r.value) == old(store.pastes)[id].content
  {
    var now := CurrentTime(ts);
    var paste := store.FindOneAndUpdate(id, now);
    if paste.None? {
      r := None;
    } else {
      var safe := SafeContent(paste.value.content);
      SafeContentHasNoAngleBrackets(paste.value.content);
      SafeContentOpensEntities(paste.value.content);
      UnescapeSafeContent(paste.value.content);
      r := Some(safe);
    }
  }

  /**
   A paste created with a nonzero `max_views = n` (zero means unlimited) and read repeatedly at one time
   before its expiry: exactly the first n fetches succeed, each returning the
   content, and the k-th success (from 1) reports `remaining_views = n - k`.
   */
  lemma {:induction false} ExactlyFirstNFetches(m: map<Id, Paste>, id: Id, req: CreateRequest, created: int, reqs: seq<Request>, now: int, n: int)
    requires HasContent(req.content) && req.maxViews == Some(n) && n != 0
    requires id !in m
    requires TimeOk(CreateDocument(req, created).value, now)
    requires AllAt(reqs, id, now)
    ensures var run := Run(m[id := CreateDocument(req, created).value], reqs);
            forall k :: 0 <= k < |reqs| ==>
              && (run.results[k].Some? <==> k < n)
              && (run.results[k].Some? ==> run.results[k].value.content == req.content.value)
              && (run.results[k].Some? ==> RemainingViews(run.results[k].value) == Some(n - (k + 1)))
  {
    var doc := CreateDocument(req, created).value;
    CreatedPasteIsFresh(req, created);
    CreatedViewLimit(req, created);
    var m' := m[id := doc];
    RepeatedFetches(m', reqs, id, now, n);
  }

  /** A paste created with neither a TTL nor a view limit is found, with its content, by every request for it. */
  lemma CreatedUnlimitedAlwaysFound(m: map<Id, Paste>, id: Id, req: CreateRequest, created: int, reqs: seq<Request>)
    requires HasContent(req.content)
    requires req.ttlSeconds.None? || req.ttlSeconds.value <= 0
    requires req.maxViews.None? || req.maxViews == Some(0)
    requires id !in m
    ensures var run := Run(m[id := CreateDocument(req, created).value], reqs);
            forall i :: 0 <= i < |reqs| && reqs[i].id == id ==>
              run.results[i].Some? && run.results[i].value.content == req.content.value
  {
    CreatedPasteIsFresh(req, created);
    CreatedViewLimit(req, created);
    UnlimitedAlwaysFound(m[id := CreateDocument(req, created).value], reqs, id);
  }

  /** Created with content "hello" and `max_views = 1`: the first fetch returns it with 0 views left, the second finds nothing. */
  lemma HelloScenario(m: map<Id, Paste>, id: Id, created: int, t1: int, t2: int)
    requires id !in m
    ensures var doc := CreateDocument(CreateRequest(Some("hello"), None, Some(1)), created);
            && doc.Success?
            && var run := Run(m[id := doc.value], [Request(id, t1), Request(id, t2)]);
               && run.results[0].Some?
               && run.results[0].value.content == "hello"
               && RemainingViews(run.results[0].value) == Some(0)
               && run.results[1].None?
  {
  }

  /** Created with a 60-second TTL at `created`: a fetch finds it exactly when it comes before `created + 60000` ms. */
  lemma TtlScenario(m: map<Id, Paste>, id: Id, content: string, created: int, t: int)
    requires id !in m && content != ""
    ensures var doc := CreateDocument(CreateRequest(Some(content), Some(60), None), created).value;
            Consume(m[id := doc], id, t).found.Some? <==> t < created + 60000
  {
  }
}
