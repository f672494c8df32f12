/**
 * The collection of `{original_url, short_url}` documents behind the `Url`
 * model, as an in-memory sequence in insertion order. A `findOne` query
 * returns the first matching document in that order.
 */
module UrlStore {
  import opened Wrappers

  /** One stored document. */
  datatype Record = Record(originalUrl: string, shortUrl: int)

  /** No two documents carry the same `short_url`. */
  predicate IdsDistinct(t: seq<Record>)
  {
    forall i, j :: 0 <= i < |t| && 0 <= j < |t| && t[i].shortUrl == t[j].shortUrl ==> i == j
  }

  /** No two documents carry the same `original_url`. */
  predicate UrlsDistinct(t: seq<Record>)
  {
    forall i, j :: 0 <= i < |t| && 0 <= j < |t| && t[i].originalUrl == t[j].originalUrl ==> i == j
  }

  /** Every stored `short_url` lies in `[1, bound)`. */
  predicate IdsInRange(t: seq<Record>, bound: int)
  {
    forall rec :: rec in t ==> 1 <= rec.shortUrl < bound
  }

  /** `findOne({ original_url: url })`: the first document whose URL is exactly `url`. */
  function FindByUrl(t: seq<Record>, url: string): (r: Option<Record>)
    ensures r.Some? ==> r.value in t && r.value.originalUrl == url
    ensures r.None? <==> forall rec :: rec in t ==> rec.originalUrl != url
  {
    if t == [] then None
    else if t[0].originalUrl == url then Some(t[0])
    else FindByUrl(t[1..], url)
  }

  /** `findOne({ short_url: id })`: the first document whose id is `id`. */
  function FindById(t: seq<Record>, id: int): (r: Option<Record>)
    ensures r.Some? ==> r.value in t && r.value.shortUrl == id
    ensures r.None? <==> forall rec :: rec in t ==> rec.shortUrl != id
  {
    if t == [] then None
    else if t[0].shortUrl == id then Some(t[0])
    else FindById(t[1..], id)
  }

  /** `findOne().sort('-short_url')`: a document with the largest id, if any. */
  function MaxRecord(t: seq<Record>): (r: Option<Record>)
    ensures r.None? <==> t == []
    ensures r.Some? ==> r.value in t && forall rec :: rec in t ==> rec.shortUrl <= r.value.shortUrl
  {
    if t == [] then None
    else
      match MaxRecord(t[1..])
      case None => Some(t[0])
      case Some(m) => if m.shortUrl <= t[0].shortUrl then Some(t[0]) else Some(m)
  }

  /** When ids are distinct, looking a stored document up by its id finds that document. */
  lemma FindByIdFindsStored(t: seq<Record>, rec: Record)
    requires IdsDistinct(t) && rec in t
    ensures FindById(t, rec.shortUrl) == Some(rec)
  {
  }

  /** Documents appended after a match do not change what the lookup by id finds. */
  lemma {:induction false} FindByIdPrefix(a: seq<Record>, b: seq<Record>, id: int)
    requires FindById(a, id).Some?
    ensures FindById(a + b, id) == FindById(a, id)
  {
    if a[0].shortUrl != id {
      assert (a + b)[1..] == a[1..] + b;
      FindByIdPrefix(a[1..], b, id);
    }
  }
}
