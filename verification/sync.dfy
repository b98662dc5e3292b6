/** Bulk sync (`handleSyncPhotos`): every element of the request's `photos` array is
    normalised and upserted into the table on its own; a failing element is tallied and
    reported, and the loop moves on. */
module Sync {
  import opened Catalog

  /** One element of `photos`: its string-valued and number-valued fields by name. A
      name missing from a map is a field that is undefined or null. */
  datatype PhotoInput = PhotoInput(strings: map<string, string>, numbers: map<string, real>)

  /** The descriptive text columns the upsert writes, by request field name. */
  const TextFields: set<string> :=
    {"title", "country", "area", "locality", "dateTimeOriginal", "addTimestamp",
     "lensModel", "model", "objectName", "caption"}

  /** The numeric columns the upsert writes, by request field name. */
  const NumberFields: set<string> :=
    {"starRating", "exposureTime", "fNumber", "focalLenIn35mmFilm", "focalLength",
     "isoSPEEDRatings", "altitude", "latitude", "longitude"}

  /** `photo[name] || ''`: a missing string field becomes the empty string. */
  function TextOr(p: PhotoInput, name: string): string
  {
    if name in p.strings then p.strings[name] else ""
  }

  /** `photo[name] || 0`: a missing (or zero) number field becomes 0. */
  function NumberOr(p: PhotoInput, name: string): real
  {
    if name in p.numbers then p.numbers[name] else 0.0
  }

  /** The id the row is stored under. */
  function SafeId(p: PhotoInput): Id
  {
    TextOr(p, "id")
  }

  /** The row the upsert writes for `p`: every column set, missing fields defaulted. */
  function Normalise(p: PhotoInput): PhotoRecord
  {
    PhotoRecord(
      TextOr(p, "path"),
      TextOr(p, "thumbnailPath100"),
      TextOr(p, "thumbnailPath350"),
      map c | c in TextFields :: TextOr(p, c),
      map c | c in NumberFields :: NumberOr(p, c))
  }

  /** A stored row sent back as a sync element: its id, its three paths and its
      descriptive columns under their request field names. */
  function AsInput(id: Id, r: PhotoRecord): PhotoInput
  {
    PhotoInput(
      r.text["id" := id]["path" := r.path]["thumbnailPath100" := r.thumbnailPath100]
        ["thumbnailPath350" := r.thumbnailPath350],
      r.numbers)
  }

  /** Normalisation loses nothing of a complete row: sending a row back gives the same
      row under the same id. */
  lemma NormaliseRoundTrip(id: Id, r: PhotoRecord)
    requires r.text.Keys == TextFields && r.numbers.Keys == NumberFields
    ensures SafeId(AsInput(id, r)) == id
    ensures Normalise(AsInput(id, r)) == r
  {
    var n := Normalise(AsInput(id, r));
    assert "id" !in TextFields && "path" !in TextFields;
    assert "thumbnailPath100" !in TextFields && "thumbnailPath350" !in TextFields;
    assert n.text == r.text;
    assert n.numbers == r.numbers;
  }

  /** Normalising is idempotent: the row written for an element, sent back, is written
      unchanged. */
  lemma NormaliseIdempotent(p: PhotoInput)
    ensures Normalise(AsInput(SafeId(p), Normalise(p))) == Normalise(p)
  {
    NormaliseRoundTrip(SafeId(p), Normalise(p));
  }

  /** `photo.id || 'unknown'`: the id an error entry is reported under. */
  function ErrorId(p: PhotoInput): (id: string)
    ensures SafeId(p) == "" ==> id == "unknown"
    ensures SafeId(p) != "" ==> id == SafeId(p)
  {
    if "id" in p.strings && p.strings["id"] != "" then p.strings["id"] else "unknown"
  }

  /** The request's `photos` field: not an array, or the elements given. */
  datatype SyncRequest = PhotosNotArray | Photos(items: seq<PhotoInput>)

  /** One entry of `errors`; the exception's message is not modelled. */
  datatype SyncError = SyncError(id: string)

  datatype SyncOutcome = SyncBadRequest | SyncDone(success: nat, failed: nat, errors: seq<SyncError>)

  /** Whether the element at position `k` is written: the table is up and its statements
      at that position do not throw. */
  predicate Accepted(f: Faults, rejected: set<nat>, k: nat)
  {
    !f.dbDown && k !in rejected
  }

  /** The write for one element: an UPDATE when its id already has a row, else an INSERT. */
  function Upsert(cur: Stores, p: PhotoInput): (e: Effect)
    ensures e.UpdateRow? <==> SafeId(p) in cur.db
    ensures e.InsertRow? || e.UpdateRow?
    ensures Apply(cur, e) == cur.(db := cur.db[SafeId(p) := Normalise(p)])
  {
    if SafeId(p) in cur.db then UpdateRow(SafeId(p), Normalise(p))
    else InsertRow(SafeId(p), Normalise(p))
  }

  /** The ids written by the elements before position `n`. */
  function Upserted(items: seq<PhotoInput>, f: Faults, rejected: set<nat>, n: nat): set<Id>
    requires n <= |items|
  {
    if n == 0 then {}
    else if Accepted(f, rejected, n - 1) then Upserted(items, f, rejected, n - 1) + {SafeId(items[n - 1])}
    else Upserted(items, f, rejected, n - 1)
  }

  /** An id is written exactly when some accepted element before `n` carries it. */
  lemma {:induction false} UpsertedMembers(items: seq<PhotoInput>, f: Faults, rejected: set<nat>, n: nat, id: Id)
    requires n <= |items|
    ensures id in Upserted(items, f, rejected, n) <==>
      exists k :: 0 <= k < n && Accepted(f, rejected, k) && SafeId(items[k]) == id
  {
    if n > 0 {
      UpsertedMembers(items, f, rejected, n - 1, id);
    }
  }

  /** Element `k` is the last of the first `n` elements that writes its id. */
  predicate LastWriter(items: seq<PhotoInput>, f: Faults, rejected: set<nat>, k: nat, n: nat)
    requires k < n <= |items|
  {
    Accepted(f, rejected, k)
    && forall j :: k < j < n && Accepted(f, rejected, j) ==> SafeId(items[j]) != SafeId(items[k])
  }

  /** Every write of the log is an upsert that chose UPDATE exactly when the row existed
      at that point. */
  predicate UpsertLog(s: Stores, effects: seq<Effect>)
  {
    forall j :: 0 <= j < |effects| ==>
      && (effects[j].InsertRow? || effects[j].UpdateRow?)
      && (effects[j].UpdateRow? <==> effects[j].id in ApplyAll(s, effects[..j]).db)
  }

  lemma ApplyAllSnoc(s: Stores, effects: seq<Effect>, e: Effect)
    ensures ApplyAll(s, effects + [e]) == Apply(ApplyAll(s, effects), e)
  {
    ApplyAllAppend(s, effects, [e]);
    assert [e][1..] == [];
  }

  lemma UpsertLogSnoc(s: Stores, effects: seq<Effect>, e: Effect)
    requires UpsertLog(s, effects)
    requires e.InsertRow? || e.UpdateRow?
    requires e.UpdateRow? <==> e.id in ApplyAll(s, effects).db
    ensures UpsertLog(s, effects + [e])
  {
    var es := effects + [e];
    forall j | 0 <= j < |es|
      ensures es[j].InsertRow? || es[j].UpdateRow?
      ensures es[j].UpdateRow? <==> es[j].id in ApplyAll(s, es[..j]).db
    {
      if j < |effects| {
        assert es[..j] == effects[..j];
      } else {
        assert es[..j] == effects;
      }
    }
  }

  /** The table after the first `n` elements: the old rows plus the ids written, rows
      nobody wrote unchanged, each written id holding its last writer's row. */
  predicate SyncedUpTo(s: Stores, cur: Stores, items: seq<PhotoInput>, f: Faults, rejected: set<nat>, n: nat)
    requires n <= |items|
  {
    && cur.blobs == s.blobs
    && cur.db.Keys == s.db.Keys + Upserted(items, f, rejected, n)
    && (forall id :: id in s.db && id !in Upserted(items, f, rejected, n) ==> cur.db[id] == s.db[id])
    && (forall k :: 0 <= k < n && LastWriter(items, f, rejected, k, n) ==>
          SafeId(items[k]) in cur.db && cur.db[SafeId(items[k])] == Normalise(items[k]))
  }

  /** Every written id has a last writer, so `SyncedUpTo` fixes the row of every id
      the sync wrote. */
  lemma {:induction false} LastWriterExists(items: seq<PhotoInput>, f: Faults, rejected: set<nat>, n: nat, id: Id)
    requires n <= |items| && id in Upserted(items, f, rejected, n)
    ensures exists k :: 0 <= k < n && LastWriter(items, f, rejected, k, n) && SafeId(items[k]) == id
  {
    if Accepted(f, rejected, n - 1) && SafeId(items[n - 1]) == id {
      assert LastWriter(items, f, rejected, n - 1, n);
    } else {
      LastWriterExists(items, f, rejected, n - 1, id);
      var k :| 0 <= k < n - 1 && LastWriter(items, f, rejected, k, n - 1) && SafeId(items[k]) == id;
      assert LastWriter(items, f, rejected, k, n);
    }
  }

  /** Writing element `n` keeps `SyncedUpTo`. */
  lemma SyncStepAccepted(s: Stores, cur: Stores, items: seq<PhotoInput>, f: Faults, rejected: set<nat>, n: nat)
    requires n < |items| && Accepted(f, rejected, n)
    requires SyncedUpTo(s, cur, items, f, rejected, n)
    ensures SyncedUpTo(s, Apply(cur, Upsert(cur, items[n])), items, f, rejected, n + 1)
  {
    var id := SafeId(items[n]);
    var next := Apply(cur, Upsert(cur, items[n]));
    assert next.db == cur.db[id := Normalise(items[n])];
    assert Upserted(items, f, rejected, n + 1) == Upserted(items, f, rejected, n) + {id};
    LastWritersAfterWrite(cur.db, items, f, rejected, n);
  }

  /** The last-writer part of `SyncedUpTo` across a write of element `n`. */
  lemma LastWritersAfterWrite(db: map<Id, PhotoRecord>, items: seq<PhotoInput>, f: Faults, rejected: set<nat>, n: nat)
    requires n < |items| && Accepted(f, rejected, n)
    requires forall k :: 0 <= k < n && LastWriter(items, f, rejected, k, n) ==>
      SafeId(items[k]) in db && db[SafeId(items[k])] == Normalise(items[k])
    ensures var next := db[SafeId(items[n]) := Normalise(items[n])];
      forall k :: 0 <= k < n + 1 && LastWriter(items, f, rejected, k, n + 1) ==>
        SafeId(items[k]) in next && next[SafeId(items[k])] == Normalise(items[k])
  {
    var next := db[SafeId(items[n]) := Normalise(items[n])];
    forall k | 0 <= k < n + 1 && LastWriter(items, f, rejected, k, n + 1)
      ensures SafeId(items[k]) in next && next[SafeId(items[k])] == Normalise(items[k])
    {
      if k < n {
        assert SafeId(items[k]) != SafeId(items[n]);
        assert LastWriter(items, f, rejected, k, n);
      }
    }
  }

  /** Skipping a failed element `n` keeps `SyncedUpTo`. */
  lemma SyncStepRejected(s: Stores, cur: Stores, items: seq<PhotoInput>, f: Faults, rejected: set<nat>, n: nat)
    requires n < |items| && !Accepted(f, rejected, n)
    requires SyncedUpTo(s, cur, items, f, rejected, n)
    ensures SyncedUpTo(s, cur, items, f, rejected, n + 1)
  {
    assert Upserted(items, f, rejected, n + 1) == Upserted(items, f, rejected, n);
    forall k | 0 <= k < n + 1 && LastWriter(items, f, rejected, k, n + 1)
      ensures SafeId(items[k]) in cur.db && cur.db[SafeId(items[k])] == Normalise(items[k])
    {
      assert LastWriter(items, f, rejected, k, n);
    }
  }

  /** The positions below `n` whose element fails. */
  function FailedBelow(f: Faults, rejected: set<nat>, n: nat): set<nat>
  {
    set k: nat | k < n && !Accepted(f, rejected, k)
  }

  lemma FailedBelowStep(f: Faults, rejected: set<nat>, n: nat)
    ensures |FailedBelow(f, rejected, n + 1)| ==
      |FailedBelow(f, rejected, n)| + (if Accepted(f, rejected, n) then 0 else 1)
  {
    if Accepted(f, rejected, n) {
      assert FailedBelow(f, rejected, n + 1) == FailedBelow(f, rejected, n);
    } else {
      assert FailedBelow(f, rejected, n + 1) == FailedBelow(f, rejected, n) + {n};
    }
  }

  /** Reference error list of the first `n` elements: one entry per failing element, in
      input order, naming it by `ErrorId`. */
  function SyncErrors(items: seq<PhotoInput>, f: Faults, rejected: set<nat>, n: nat): seq<SyncError>
    requires n <= |items|
  {
    if n == 0 then []
    else
      SyncErrors(items, f, rejected, n - 1)
        + (if Accepted(f, rejected, n - 1) then [] else [SyncError(ErrorId(items[n - 1]))])
  }

  /** The error list names exactly the failing elements, once per failing position. */
  lemma {:induction false} SyncErrorsMembers(items: seq<PhotoInput>, f: Faults, rejected: set<nat>, n: nat, name: string)
    requires n <= |items|
    ensures |SyncErrors(items, f, rejected, n)| == |FailedBelow(f, rejected, n)|
    ensures SyncError(name) in SyncErrors(items, f, rejected, n) <==>
      exists k :: 0 <= k < n && !Accepted(f, rejected, k) && ErrorId(items[k]) == name
  {
    if n > 0 {
      SyncErrorsMembers(items, f, rejected, n - 1, name);
      FailedBelowStep(f, rejected, n - 1);
    }
  }

  /** Reference table after the first `n` elements: their upserts applied one after
      another, failed elements skipped. */
  function SyncedDb(db: map<Id, PhotoRecord>, items: seq<PhotoInput>, f: Faults, rejected: set<nat>, n: nat)
    : map<Id, PhotoRecord>
    requires n <= |items|
  {
    if n == 0 then db
    else
      var before := SyncedDb(db, items, f, rejected, n - 1);
      if Accepted(f, rejected, n - 1) then before[SafeId(items[n - 1]) := Normalise(items[n - 1])]
      else before
  }

  /** What the reference table holds: see `SyncedUpTo`. */
  lemma {:induction false} SyncedDbMeaning(s: Stores, items: seq<PhotoInput>, f: Faults, rejected: set<nat>, n: nat)
    requires n <= |items|
    ensures SyncedUpTo(s, Stores(SyncedDb(s.db, items, f, rejected, n), s.blobs), items, f, rejected, n)
  {
    if n > 0 {
      var before := Stores(SyncedDb(s.db, items, f, rejected, n - 1), s.blobs);
      SyncedDbMeaning(s, items, f, rejected, n - 1);
      if Accepted(f, rejected, n - 1) {
        SyncStepAccepted(s, before, items, f, rejected, n - 1);
      } else {
        SyncStepRejected(s, before, items, f, rejected, n - 1);
      }
    }
  }

  /** The photo count after a sync: the ids that had rows plus the ids it wrote, each
      counted once, so writing an existing id never adds to the count. */
  lemma SyncRowCount(s: Stores, items: seq<PhotoInput>, f: Faults, rejected: set<nat>)
    requires !f.dbDown
    ensures RowCount(Stores(SyncedDb(s.db, items, f, rejected, |items|), s.blobs), f)
      == Some(|s.db.Keys + Upserted(items, f, rejected, |items|)|)
  {
    SyncedDbMeaning(s, items, f, rejected, |items|);
  }

  /** Re-running a sync whose elements fail at the same positions leaves the table as
      the first run left it. */
  lemma SyncTwiceIsSyncOnce(s: Stores, items: seq<PhotoInput>, f: Faults, rejected: set<nat>)
    ensures var once := SyncedDb(s.db, items, f, rejected, |items|);
      SyncedDb(once, items, f, rejected, |items|) == once
  {
    var n := |items|;
    var once := SyncedDb(s.db, items, f, rejected, n);
    var twice := SyncedDb(once, items, f, rejected, n);
    SyncedDbMeaning(s, items, f, rejected, n);
    SyncedDbMeaning(Stores(once, s.blobs), items, f, rejected, n);
    forall id | id in once
      ensures id in twice && twice[id] == once[id]
    {
      if id in Upserted(items, f, rejected, n) {
        LastWriterExists(items, f, rejected, n, id);
      }
    }
    assert twice.Keys == once.Keys;
  }

  /** Reference write log of the first `n` elements: each accepted element's upsert,
      choosing UPDATE or INSERT against the reference table it finds. */
  function SyncLog(s: Stores, items: seq<PhotoInput>, f: Faults, rejected: set<nat>, n: nat): seq<Effect>
    requires n <= |items|
  {
    if n == 0 then []
    else
      var before := SyncLog(s, items, f, rejected, n - 1);
      if Accepted(f, rejected, n - 1) then
        before + [Upsert(Stores(SyncedDb(s.db, items, f, rejected, n - 1), s.blobs), items[n - 1])]
      else before
  }

  /** Replaying the reference log yields the reference table, with the bucket untouched. */
  lemma {:induction false} SyncLogReplays(s: Stores, items: seq<PhotoInput>, f: Faults, rejected: set<nat>, n: nat)
    requires n <= |items|
    ensures ApplyAll(s, SyncLog(s, items, f, rejected, n)) == Stores(SyncedDb(s.db, items, f, rejected, n), s.blobs)
  {
    if n > 0 && Accepted(f, rejected, n - 1) {
      var before := SyncLog(s, items, f, rejected, n - 1);
      SyncLogReplays(s, items, f, rejected, n - 1);
      ApplyAllSnoc(s, before, Upsert(Stores(SyncedDb(s.db, items, f, rejected, n - 1), s.blobs), items[n - 1]));
    } else if n > 0 {
      SyncLogReplays(s, items, f, rejected, n - 1);
    }
  }

  /** The reference log holds one upsert per accepted element, each choosing UPDATE
      exactly when the row exists at that point. */
  lemma {:induction false} SyncLogUpserts(s: Stores, items: seq<PhotoInput>, f: Faults, rejected: set<nat>, n: nat)
    requires n <= |items|
    ensures UpsertLog(s, SyncLog(s, items, f, rejected, n))
    ensures |SyncLog(s, items, f, rejected, n)| + |FailedBelow(f, rejected, n)| == n
  {
    if n > 0 {
      var before := SyncLog(s, items, f, rejected, n - 1);
      SyncLogUpserts(s, items, f, rejected, n - 1);
      FailedBelowStep(f, rejected, n - 1);
      if Accepted(f, rejected, n - 1) {
        SyncLogReplays(s, items, f, rejected, n - 1);
        UpsertLogSnoc(s, before, Upsert(Stores(SyncedDb(s.db, items, f, rejected, n - 1), s.blobs), items[n - 1]));
      }
    }
  }

  /** `handleSyncPhotos`. `rejected` holds the positions whose statements throw. */
  method SyncPhotos(s: Stores, f: Faults, req: SyncRequest, rejected: set<nat>)
    returns (effects: seq<Effect>, after: Stores, r: SyncOutcome)
    ensures r.SyncBadRequest? <==> req.PhotosNotArray?
    ensures req.PhotosNotArray? ==> effects == [] && after == s
    // every element is tallied once; one error entry per failure
    ensures req.Photos? ==>
      && r.SyncDone?
      && r.success + r.failed == |req.items|
      && |r.errors| == r.failed
      && r.failed == |FailedBelow(f, rejected, r.success + r.failed)|
      && |effects| == r.success
    // the error entries name the failing elements, in input order
    ensures req.Photos? ==> r.errors == SyncErrors(req.items, f, rejected, |req.items|)
    // each write is an UPDATE of an existing row or an INSERT of a new one
    ensures UpsertLog(s, effects)
    // the writes are the reference log, leaving the reference table and the bucket as it was
    ensures req.Photos? ==>
      && effects == SyncLog(s, req.items, f, rejected, |req.items|)
      && after == Stores(SyncedDb(s.db, req.items, f, rejected, |req.items|), s.blobs)
  {
    if req.PhotosNotArray? {
      return [], s, SyncBadRequest;
    }
    var items := req.items;
    var success, failed := 0, 0;
    var errors: seq<SyncError> := [];
    var cur := s;
    effects := [];
    var i := 0;
    while i < |items|
      invariant 0 <= i <= |items|
      invariant success + failed == i && |errors| == failed
      invariant errors == SyncErrors(items, f, rejected, i)
      invariant failed == |FailedBelow(f, rejected, i)|
      invariant effects == SyncLog(s, items, f, rejected, i)
      invariant cur == Stores(SyncedDb(s.db, items, f, rejected, i), s.blobs)
    {
      if Accepted(f, rejected, i) {
        var e := Upsert(cur, items[i]);
        effects := effects + [e];
        cur := Apply(cur, e);
        success := success + 1;
      } else {
        failed := failed + 1;
        errors := errors + [SyncError(ErrorId(items[i]))];
      }
      FailedBelowStep(f, rejected, i);
      i := i + 1;
    }
    SyncLogUpserts(s, items, f, rejected, |items|);
    after, r := cur, SyncDone(success, failed, errors);
  }
}
