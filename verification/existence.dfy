/** The existence reconciler (`handleCheckPhotoExists`): does a photo exist, when the
    bucket and the table may disagree? The bucket is asked first, at the conventional
    key `photos/{id}.jpg`; only when it has no such object is the table consulted. */
module Existence {
  import opened Catalog

  const PhotosPrefix: string := "photos/"
  const PhotoExtension: string := ".jpg"

  /** The key under which the original of photo `id` is conventionally stored. */
  function PhotoKey(id: Id): Key
  {
    PhotosPrefix + id + PhotoExtension
  }

  /** The four answers, with the HTTP status each is sent as. */
  datatype Status = Found | MetadataOnly | NotFound | Failed
  {
    function HttpStatus(): nat
    {
      match this
      case Found => 200
      case MetadataOnly => 204
      case NotFound => 404
      case Failed => 500
    }

    /** Only the drift answer carries `X-Photo-Files-Missing: true`. */
    predicate FilesMissingHeader()
    {
      MetadataOnly?
    }
  }

  function CheckExists(s: Stores, f: Faults, id: Id): (r: Status)
    // the bucket decides alone when it has the object
    ensures r == Found <==> Hit(s, f, PhotoKey(id))
    // otherwise (nothing found, or head threw) the table decides
    ensures r == MetadataOnly <==> !Hit(s, f, PhotoKey(id)) && !f.dbDown && id in s.db
    ensures r == NotFound <==> !Hit(s, f, PhotoKey(id)) && !f.dbDown && id !in s.db
    ensures r == Failed <==> !Hit(s, f, PhotoKey(id)) && f.dbDown
  {
    match Head(s, f, PhotoKey(id))
    case Object(_) => Found
    case _ =>
      if f.dbDown then Failed
      else if id in s.db then MetadataOnly
      else NotFound
  }

  /** The short-circuit: once the bucket has `photos/{id}.jpg`, the answer is Found
      whatever the table holds and whether or not it is reachable, so the table need
      not be asked. */
  lemma FoundIgnoresMetadata(s: Stores, f: Faults, id: Id, db: map<Id, PhotoRecord>, dbDown: bool)
    requires Hit(s, f, PhotoKey(id))
    ensures CheckExists(Stores(db, s.blobs), f.(dbDown := dbDown), id) == Found
  {
  }
}
