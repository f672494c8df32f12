/**
 * The short-identifier allocator and URL table of the shortener service as a
 * state machine: the process-wide counter plus the stored documents. Each
 * request handler is one atomic step. URL parsing, the DNS lookup and storage
 * failures are abstract boolean inputs.
 */
module Shortener {
  import opened Wrappers
  import opened UrlStore

  /** The process-wide counter `urlCounter` and the stored documents. */
  datatype State = State(counter: int, records: seq<Record>)

  /** What a handler answers. Create answers `Ok`, `InvalidUrl` or `ServerError`;
      resolve answers `Redirect`, `NotFound` or `ServerError`. */
  datatype Response =
    | Ok(originalUrl: string, shortUrl: int)
    | InvalidUrl
    | ServerError
    | Redirect(location: string)
    | NotFound

  /** The allocator's invariant once the counter was initialised from the store:
      every stored id is positive and below the counter, ids are unique and every
      URL is stored once. */
  predicate Valid(s: State)
  {
    1 <= s.counter && IdsInRange(s.records, s.counter) &&
    IdsDistinct(s.records) && UrlsDistinct(s.records)
  }

  /** The counter after start-up: 1, unless the query for the document with the
      largest id succeeds and finds one, in which case that id plus one. */
  function InitialCounter(stored: seq<Record>, queryFails: bool): (c: int)
    ensures queryFails || stored == [] ==> c == 1
    ensures !queryFails && stored != [] ==>
              (exists rec :: rec in stored && c == rec.shortUrl + 1) &&
              (forall rec :: rec in stored ==> rec.shortUrl < c)
  {
    if queryFails then 1
    else
      match MaxRecord(stored)
      case None => 1
      case Some(doc) => doc.shortUrl + 1
  }

  /** The POST handler: validate, deduplicate, else allocate the counter and save. */
  function CreateStep(s: State, url: string, parses: bool, resolves: bool,
                      findFails: bool, saveFails: bool): (r: (State, Response))
    // only the create answers
    ensures r.1.Ok? || r.1.InvalidUrl? || r.1.ServerError?
    // a URL that does not parse or whose host does not resolve is invalid, and changes nothing
    ensures r.1.InvalidUrl? <==> !parses || !resolves
    ensures r.1.InvalidUrl? ==> r.0 == s
    // a failing lookup is a server error and changes nothing
    ensures parses && resolves && findFails ==> r == (s, ServerError)
    // an already stored URL answers its stored document and changes nothing
    ensures parses && resolves && !findFails && (exists rec :: rec in s.records && rec.originalUrl == url) ==>
              r.0 == s && r.1.Ok? && Record(url, r.1.shortUrl) in s.records
    // a new URL takes the old counter, the counter moves by one, and one document is appended
    ensures parses && resolves && !findFails && !saveFails && (forall rec :: rec in s.records ==> rec.originalUrl != url) ==>
              r == (State(s.counter + 1, s.records + [Record(url, s.counter)]), Ok(url, s.counter))
    // a failed save has already consumed the id, but stores nothing
    ensures parses && resolves && !findFails && saveFails && (forall rec :: rec in s.records ==> rec.originalUrl != url) ==>
              r == (State(s.counter + 1, s.records), ServerError)
    // a successful answer echoes the submitted URL and is stored under the answered id
    ensures r.1.Ok? ==> r.1.originalUrl == url && Record(url, r.1.shortUrl) in r.0.records
    // the counter never goes back and stored documents are never changed or removed
    ensures s.counter <= r.0.counter <= s.counter + 1
    ensures s.records <= r.0.records && |r.0.records| <= |s.records| + 1
    // the invariant is kept, and a newly allocated id is above every earlier one
    ensures Valid(s) ==> Valid(r.0)
    ensures Valid(s) && r.0.records != s.records ==>
              r.1.Ok? && forall rec :: rec in s.records ==> rec.shortUrl < r.1.shortUrl
  {
    if !parses || !resolves then (s, InvalidUrl)
    else if findFails then (s, ServerError)
    else
      match FindByUrl(s.records, url)
      case Some(found) => (s, Ok(found.originalUrl, found.shortUrl))
      case None =>
        var newUrl := Record(url, s.counter);
        var s' := State(s.counter + 1, s.records);
        if saveFails then (s', ServerError)
        else (s'.(records := s.records + [newUrl]), Ok(newUrl.originalUrl, newUrl.shortUrl))
  }

  /** The GET handler: redirect to the URL stored under the id, or report that
      there is none. An id that does not parse (`None`) matches no document. */
  function ResolveStep(s: State, id: Option<int>, findFails: bool): (r: Response)
    ensures r.Redirect? || r.NotFound? || r.ServerError?
    ensures r.ServerError? <==> findFails
    ensures !findFails ==>
              (r.Redirect? <==> id.Some? && exists rec :: rec in s.records && rec.shortUrl == id.value)
    ensures r.Redirect? ==> id.Some? && Record(r.location, id.value) in s.records
    // with unique ids the redirect goes to the one document stored under the id
    ensures Valid(s) && r.Redirect? ==>
              forall rec :: rec in s.records && rec.shortUrl == id.value ==> rec.originalUrl == r.location
    // an id never allocated is not found
    ensures Valid(s) && !findFails && id.Some? && (id.value < 1 || s.counter <= id.value) ==> r == NotFound
  {
    if findFails then ServerError
    else if id.None? then NotFound
    else
      match FindById(s.records, id.value)
      case None => NotFound
      case Some(record) => Redirect(record.originalUrl)
  }

  /** A successful start-up establishes the invariant on a store whose ids are
      positive and unique and whose URLs are unique. */
  lemma InitEstablishesValid(stored: seq<Record>)
    requires forall rec :: rec in stored ==> 1 <= rec.shortUrl
    requires IdsDistinct(stored) && UrlsDistinct(stored)
    ensures Valid(State(InitialCounter(stored, false), stored))
  {
  }

  /** Round trip: once create answers `(url, n)`, resolving `n` redirects to `url`. */
  lemma CreateThenResolve(s: State, url: string, parses: bool, resolves: bool,
                          findFails: bool, saveFails: bool)
    requires Valid(s)
    requires CreateStep(s, url, parses, resolves, findFails, saveFails).1.Ok?
    ensures var (s', r) := CreateStep(s, url, parses, resolves, findFails, saveFails);
            ResolveStep(s', Some(r.shortUrl), false) == Redirect(url)
  {
  }

  /** Deduplication: submitting the same URL again answers the same document and
      changes nothing, whatever the second save would have done. */
  lemma CreateIdempotent(s: State, url: string, parses: bool, resolves: bool,
                         findFails: bool, saveFails: bool, saveFails2: bool)
    requires CreateStep(s, url, parses, resolves, findFails, saveFails).1.Ok?
    ensures var (s', r) := CreateStep(s, url, parses, resolves, findFails, saveFails);
            CreateStep(s', url, true, true, false, saveFails2) == (s', r)
  {
  }

  /** Monotonicity: two different URLs, both new, submitted one after the other
      and both stored, get increasing ids, even when the start-up query failed. */
  lemma SuccessiveIdsIncrease(s: State, u: string, v: string, saveFails: bool, saveFails2: bool)
    requires u != v
    requires forall rec :: rec in s.records ==> rec.originalUrl != u && rec.originalUrl != v
    requires CreateStep(s, u, true, true, false, saveFails).1.Ok?
    ensures var (s1, r1) := CreateStep(s, u, true, true, false, saveFails);
            var (s2, r2) := CreateStep(s1, v, true, true, false, saveFails2);
            r2.Ok? ==> r1.shortUrl < r2.shortUrl
  {
  }

  /** A failed start-up query over a non-empty store of positive ids leaves a
      counter that is not above every stored id. */
  lemma InitFailureBreaksValid(stored: seq<Record>)
    requires stored != []
    requires forall rec :: rec in stored ==> 1 <= rec.shortUrl
    ensures !Valid(State(InitialCounter(stored, true), stored))
  {
    assert stored[0] in stored;
  }

  /** A failed start-up query over a store holding id 1 leaves the counter at 1:
      the next new URL is then given id 1 again, the ids are no longer unique,
      and resolving 1 still redirects to the older document. */
  lemma InitFailureReusesIds(stored: seq<Record>, older: string, url: string)
    requires Record(older, 1) in stored && IdsDistinct(stored)
    requires forall rec :: rec in stored ==> rec.originalUrl != url
    ensures var s := State(InitialCounter(stored, true), stored);
            var (s', r) := CreateStep(s, url, true, true, false, false);
            r == Ok(url, 1) && !IdsDistinct(s'.records) &&
            ResolveStep(s', Some(1), false) == Redirect(older)
  {
    var s := State(InitialCounter(stored, true), stored);
    var (s', r) := CreateStep(s, url, true, true, false, false);
    assert s'.records == stored + [Record(url, 1)];
    var i :| 0 <= i < |stored| && stored[i] == Record(older, 1);
    assert s'.records[i].shortUrl == s'.records[|stored|].shortUrl;
    FindByIdFindsStored(stored, Record(older, 1));
    FindByIdPrefix(stored, [Record(url, 1)], 1);
  }
}
