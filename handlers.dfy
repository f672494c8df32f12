/**
 * The module-level `urlCounter` and the `Url` collection as one object whose
 * constructor runs the start-up initialisation and whose methods are the
 * POST and GET handlers, each taken as one atomic step.
 */
module Handlers {
  import opened Wrappers
  import opened UrlStore
  import opened Shortener

  class UrlShortener {
    var counter: int
    var records: seq<Record>

    /** The abstract state the handlers are specified against. */
    function Snapshot(): State
      reads this
    {
      State(counter, records)
    }

    /** Start-up over the documents already stored: the counter starts at 1 and,
        unless the query fails, becomes the largest stored id plus one. */
    constructor Start(stored: seq<Record>, queryFails: bool)
      ensures Snapshot() == State(InitialCounter(stored, queryFails), stored)
    {
      records := stored;
      counter := 1;
      if !queryFails {
        var doc := MaxRecord(stored);
        if doc.Some? {
          counter := doc.value.shortUrl + 1;
        }
      }
    }

    /** POST /api/shorturl with form field `url`. */
    method CreateShortUrl(url: string, parses: bool, resolves: bool,
                          findFails: bool, saveFails: bool) returns (res: Response)
      modifies this
      ensures (Snapshot(), res) == CreateStep(old(Snapshot()), url, parses, resolves, findFails, saveFails)
      ensures Valid(old(Snapshot())) ==> Valid(Snapshot())
    {
      if !parses {
        return InvalidUrl;
      }
      if !resolves {
        return InvalidUrl;
      }
      if findFails {
        return ServerError;
      }
      var found := FindByUrl(records, url);
      if found.Some? {
        return Ok(found.value.originalUrl, found.value.shortUrl);
      }
      var newUrl := Record(url, counter);
      counter := counter + 1;
      if saveFails {
        return ServerError;
      }
      records := records + [newUrl];
      res := Ok(newUrl.originalUrl, newUrl.shortUrl);
    }

    /** GET /api/shorturl/:short, with the parsed id (`None` when it is not a number). */
    method ResolveShortUrl(id: Option<int>, findFails: bool) returns (res: Response)
      ensures res == ResolveStep(Snapshot(), id, findFails)
      ensures !findFails && id.Some? && res.Redirect? ==> Record(res.location, id.value) in records
      ensures !findFails && (id.None? || forall rec :: rec in records ==> rec.shortUrl != id.value) ==> res == NotFound
    {
      if findFails {
        return ServerError;
      }
      var record := if id.Some? then FindById(records, id.value) else None;
      if record.None? {
        return NotFound;
      }
      res := Redirect(record.value.originalUrl);
    }
  }
}
