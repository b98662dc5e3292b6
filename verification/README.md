# Photo catalog consistency, in Dafny

TuiPages keeps a photo catalog in two stores that nothing links together. A SQL table
`Photos` holds one metadata row per photo id, including the three asset paths `Path`,
`ThumbnailPath100` and `ThumbnailPath350`. An R2 object bucket holds the image files. This
project models the handlers that detect disagreement between the two stores, and the
handlers that clear, upsert or delete data in bulk. It proves what each of them reports and
what it leaves behind in the stores.

Modelling choices:

- **Stores are values.** The stores are `Stores(db, blobs)`: a finite map from id to row
  and a finite map from object key to object size. An unset path column is the empty
  string, because the handlers treat NULL and `''` alike.
- **Failures are a parameter.** `Faults` says whether every SQL statement throws, and
  which keys make an R2 `head` or `delete` throw. The sync handler also takes the set of
  element positions whose statements throw. The photo delete also takes whether its
  closing row `DELETE` throws, after the lookup and the file deletes have run.
- **Writes are a log.** Handlers that write return the log of store calls they made, in
  order (`seq<Effect>`). `Catalog.ApplyAll` interprets that log. This is how "the table
  before the bucket" and "the files before the row" are stated.
- **Listings are finite.** A paged listing is a finite sequence of list-call responses. A
  call past the end of the sequence reads as an empty page without a cursor.

Modules:

- `Sequences`: small sequence helpers.
- `Catalog`: the data model and the effect log.
- `Integrity`: `handleCheckFileIntegrity`.
- `Existence`: `handleCheckPhotoExists`.
- `CollectionCount`: `handleGetR2ObjectCount`, including the key-to-id extraction.
- `FileVerify`: `handleVerifyPhotoFiles` and `handleBatchVerifyPhotos`.
- `Purge`: `clearStorage`, `clearDatabase` and `handleClearAll`.
- `Sync`: `handleSyncPhotos`.
- `Removal`: `handleDeletePhoto`.

`worker.js` declares a second copy of several verification handlers (worker.js:571-892).
Apart from comments, that copy matches the code in `verification.js`, so each handler is
modelled once, from `verification.js`. The copy does not contain the single or batch file
verifiers.

## Model

| member | source | states |
|---|---|---|
| Sequences.FirstIn | worker.js:229-244 | position of the first element in a set of failing values, or the length when there is none; every earlier element is outside the set |
| Catalog.ApplyDeletes | worker.js:533-536 | performing one `delete` per key, in order, removes exactly those objects and leaves the table untouched |
| Integrity.Probe | verification.js:63-105 | an asset is reported present, with its stored size, exactly when its path is set and `head` returns an object; an unset path or a throwing `head` reads as absent |
| Integrity.Issues | verification.js:109-124 | each issue code is listed exactly when its condition holds; codes follow the order original, 100px, 350px; at most three codes |
| Integrity.Evaluate | verification.js:63-135 | intact exactly when all three assets are found and the original is at least 10000 bytes; intact exactly when no issue is listed; missing and too-small are mutually exclusive; found assets carry their size, absent ones none |
| Integrity.CheckIntegrity | verification.js:41-149 | a failed lookup gives 500, a missing row gives 404, otherwise the evaluation of that row |
| Integrity.SizeFloorBoundary | verification.js:111-116 | with both thumbnails found, a 9999-byte original is reported too small and not intact, while a 10000-byte original is intact with no issues |
| Integrity.OnlyOriginalSizeMatters | verification.js:108-116 | changing the size of any object other than the original changes neither intactness nor the issues |
| Existence.CheckExists | verification.js:175-232 | Found exactly when `head("photos/{id}.jpg")` returns an object; otherwise a failed lookup gives 500, a row gives 204 (metadata only), no row gives 404 |
| Existence.FoundIgnoresMetadata | verification.js:180-193 | when the object is there, the answer is Found whatever the table holds and whether or not it is reachable |
| CollectionCount.BeforeDot | verification.js:266 | the result is the prefix of the name before its first dot: a prefix, free of dots, followed by a dot or by the end |
| CollectionCount.PhotoIdOf | verification.js:262-270 | a key yields an id exactly when it starts with `photos/` and the text after it is non-empty and does not start with a dot; the id is that text up to the first dot |
| CollectionCount.PhotoIdOfPhotoKey | verification.js:180 | the id read back from `photos/{id}.jpg` is `id` itself, for every non-empty id without a dot |
| CollectionCount.IdsOf | verification.js:260-271 | there are no more distinct ids than listed keys |
| CollectionCount.IdsOfMembers | verification.js:260-271 | an id is counted exactly when some listed key yields it |
| CollectionCount.ListedPhotoIsCounted | verification.js:260-271 | a photo whose original is listed under its conventional key is counted |
| CollectionCount.CollectKeys | verification.js:240-255 | the paging loop collects the keys of every page it reaches, following cursors until one is missing, and fails exactly when a list call it reaches throws |
| CollectionCount.DistinctIds | verification.js:260-271 | the id loop collects exactly the distinct ids of the listed keys |
| CollectionCount.CountCollection | verification.js:235-325 | only a failing `photos/` listing fails the call; `r2Count` is the number of distinct ids and at most `totalFiles`; the table is asked only when `r2Count` is 0, and its failure reads as 0; `count` is `r2Count` when positive, else `dbCount`; a failing thumbnails probe reads as false |
| FileVerify.FailingPaths | verification.js:450-463 | the reported paths are exactly the set paths whose `head` finds nothing or throws |
| FileVerify.FailingPathsAppend | verification.js:450-463 | the loop keeps the order of its input: the missing paths of a concatenation are those of the first part followed by those of the second |
| FileVerify.MissingFiles | verification.js:354-400 | the three unrolled checks report at most three paths, each a set path that was not found, and every set path that was not found is reported |
| FileVerify.UnrolledChecksAgreeWithLoop | verification.js:354-400 | the single verifier's three unrolled checks report the same missing files, in the same order, as the batch verifier's loop |
| FileVerify.VerifyFiles | verification.js:328-409 | a failed lookup gives 500; a missing row gives `photo_not_in_database`; otherwise `missingFiles` is exactly the set paths that were not found, in the order Path, ThumbnailPath100, ThumbnailPath350 (the batch loop's list); `exists` holds exactly when no file is missing, exactly when every set path is found; the per-file flags are true exactly for set paths that were found |
| FileVerify.TallyPartitions | verification.js:471-474 | every result is counted once, as a success or as a failure |
| FileVerify.SucceededCountsPositions | verification.js:472 | `success` is the number of result positions whose photo exists |
| FileVerify.VerifyItem | verification.js:426-465 | one batch entry carries its id; it is `photo_not_in_database` exactly when the id has no row; otherwise its missing files are exactly those the single verifier's three unrolled checks list, in column order; `exists` holds exactly when every set path is found, exactly when nothing is missing |
| FileVerify.BatchVerify | verification.js:412-482 | a non-array or empty `ids` gives 400; a failing table gives 500 for the whole batch; otherwise `total = min(\|ids\|, 100)`, one result per id in input order with duplicates kept, `photo_not_in_database` exactly for ids without a row, and `success + failed = total` |
| FileVerify.BatchAgreesWithSingle | verification.js:426-466 | each batch entry agrees with a single verification of the same id, in `exists` and in the missing files |
| Purge.PurgeSpec | worker.js:515-566 | reference purge: the deleted keys are a prefix of the listed keys with no failing delete among them, and there are at most 1000 of them; a success reports their number, with the cap flag set exactly when it is at least 1000; a success below the cap deleted every listed key; the purge fails exactly when a delete among the first 1000 keys throws, or a throwing list call is reached below the cap; a failing purge has deleted the keys before the throwing delete, or every listed key when a list call threw; a listing that offers 1000 keys with no failing delete among them purges exactly 1000 |
| Purge.DeletePage | worker.js:533-541 | the inner loop deletes a prefix of the page in order, one count per delete, and stops at a throwing delete or at the cap |
| Purge.PurgePage | worker.js:524-551 | one round of the do-while either goes on, with the deleted keys still a fault-free prefix of the listing and below the cap, or stops with exactly the reference purge's report |
| Purge.ClearStorage | worker.js:515-566 | the page loop equals the reference purge; a success never reports more than 1000 objects and sets the cap flag exactly at 1000; the deleted keys are a prefix of the listing |
| Purge.ClearDatabase | worker.js:490-512 | the report is a success exactly when the table is up; a success reports the row count `handleGetPhotoCount` (verification.js:151-171) would give, after which that count is 0 and the bucket is untouched; a failure writes nothing |
| Purge.ClearAll | worker.js:451-512 | a token other than `tui-clear-all-data` gives 401 and changes neither store; otherwise the table is cleared first and then the bucket; `recordsDeleted` is the photo count before the call and is reported exactly when the table is up; afterwards the photo count reads 0 (or the table is untouched when down) and exactly the purged objects are gone |
| Sync.ErrorId | worker.js:350-354 | an error entry carries the element's id, or `unknown` when it has none |
| Sync.NormaliseRoundTrip | worker.js:276-300 | normalisation loses nothing of a complete row: a stored row sent back as an element is written unchanged, under the same id |
| Sync.NormaliseIdempotent | worker.js:276-300 | the row written for an element, sent back, is written unchanged |
| Sync.SyncErrorsMembers | worker.js:349-355 | the reference error list has one entry per failing element, and names exactly the failing elements by `photo.id \|\| 'unknown'` |
| Sync.Upsert | worker.js:302-345 | an existing id is UPDATEd and a new one INSERTed; either way the row afterwards is the normalised element and no other row changes |
| Sync.UpsertedMembers | worker.js:272-347 | an id is written by the sync exactly when some element that did not fail carries it |
| Sync.LastWriterExists | worker.js:272-347 | every written id has a last element that wrote it |
| Sync.SyncedDbMeaning | worker.js:272-347 | the reference table (each element's upsert applied in order, failed elements skipped) holds the old rows plus the written ids; rows nobody wrote are unchanged; each written id holds its last writer's normalised row |
| Sync.SyncTwiceIsSyncOnce | worker.js:302-345 | running the same sync again, with failures at the same positions, leaves the table as the first run left it |
| Sync.SyncRowCount | worker.js:302-345 | the photo count after a sync is the number of ids that had rows or were written, so rewriting an existing id never adds to it |
| Sync.SyncLogReplays | worker.js:274-356 | replaying the reference write log (one upsert per element that did not fail, in order) yields the reference table and leaves the bucket as it was |
| Sync.SyncLogUpserts | worker.js:302-345 | the reference log holds one write per element that did not fail, each an UPDATE exactly when the id already has a row at that point and an INSERT otherwise |
| Sync.SyncPhotos | worker.js:258-363 | a non-array `photos` gives 400 with no writes; otherwise `success + failed` is the number of elements, `failed` counts the failing positions, and `errors` is the reference error list (one entry per failing element, in input order, named by `photo.id \|\| 'unknown'`); every write is an UPDATE of an existing row or an INSERT of a new one; the writes are the reference log, and the stores afterwards hold the reference table with the bucket untouched |
| Removal.SetPaths | worker.js:230-239 | the set paths of a row are exactly its non-empty paths |
| Removal.SetPathsInColumnOrder | worker.js:230-239 | the three guarded deletes visit the set paths in the order Path, ThumbnailPath100, ThumbnailPath350 |
| Removal.RemovedFiles | worker.js:229-244 | the objects removed are the set paths up to, and not including, the first one whose delete throws |
| Removal.DeletePhoto | worker.js:220-255 | a failed lookup gives 500 and an unknown id 404, both with no writes; otherwise the file deletes come first and the row delete last; the objects reached are gone; the row is gone with 200, or stays with 500 when its `DELETE` throws after the file phase |
| Removal.CleanDeleteLeavesNoFiles | worker.js:229-248 | when no file delete throws, none of the row's set paths remains in the bucket, whether or not the row delete then throws |
| Removal.FailedDeleteOrphansFile | worker.js:229-248 | when the original's delete throws, the row is deleted while the original stays in the bucket |
| Removal.RowDeleteFailureLeavesDanglingRow | worker.js:246-253 | when the row delete throws after a clean file phase, the call answers 500 and leaves a row whose original is gone, which the integrity check reports as missing |
| Removal.DeletionRowCount | worker.js:246-248 | the photo count `handleGetPhotoCount` gives afterwards is one lower after a deletion and unchanged when the row delete threw |
| Removal.DeletedPhotoNotFound | worker.js:220-255 | after a clean deletion of a photo stored at `photos/{id}.jpg`, the existence check answers 404 |

## Left out

- Routing, CORS preflight, `Response` framing and JSON serialisation (worker.js:15-103, verification.js:485-493) are plumbing. The route order also shadows some branches. The pattern at worker.js:30 catches `GET /api/photos/count` before worker.js:60. The pattern at worker.js:47 catches `/api/files/integrity/...` and `/api/files/count` before worker.js:57 and worker.js:65. Nothing here claims those endpoints are reachable.
- The import at worker.js:5-13 binds the same names as the declarations at worker.js:571 onwards. Each handler is modelled once, from `verification.js`.
- Upload and download (worker.js:366-426) are thin wrappers over R2 `put`/`get` and form parsing.
- The plain SQL handlers (worker.js:106-217) and the metadata read (verification.js:4-38) only look rows up.
- The unused `PRAGMA table_info` probe (worker.js:493-494) is left out. Its failure is covered, because a down table fails `clearDatabase` either way.
- `handleHelloWorld` (worker.js:895-907) returns a wall-clock timestamp.
- CollectionCount.CountCollection: the listing loop of verification.js:243-255 follows cursors with no bound. The model reads a finite sequence of responses and claims nothing about termination on a cursor that never ends.
- Purge.ClearStorage: the same finite-listing reading applies to the purge walk.
- FileVerify.BatchVerify: the elements of `ids` are strings. An element that the database driver cannot bind, such as an object, throws at verification.js:432 and fails the whole batch with 500; that case is not modelled.
- FileVerify.BatchVerify: the source does not isolate a database error per item (verification.js:427-432 sits outside any per-item `try`). A down table fails the whole batch, and the model says so. Only `head` failures are isolated per item.
- Sync.Normalise: descriptive fields are opaque payload. Numbers are reals, so NaN and other floating-point values are not modelled. A number field given as 0 and one that is missing both become 0, and the model treats them alike.
- Sync.Normalise: string fields hold strings only, and number fields numbers only. A truthy non-string value in a string field, and a null element of `photos`, are not modelled. A string given in a number field, such as `exposureTime: "1/125"`, passes through `photo.exposureTime || 0` (worker.js:290) unchanged in the source; the model has no string in a number field, and `NumberOr` reads such a field as missing, so as 0.
- Sync.SyncPhotos: a request body that is not JSON makes the outer `catch` answer 500, and this is not modelled. The same applies to `BatchVerify` and to the other handlers that read a body.
- Purge.ClearDatabase: `recordsDeleted` is taken to be the number of rows the statement removed, which is the photo count before the call. The source reads the `count` field of the statement's result (worker.js:502), and what the driver puts there is not part of this model.
- Purge.ClearAll: `recordsDeleted` is taken to be the number of rows the statement removed. What the driver puts in the `count` field of the statement's result is not part of this model.
- Error messages, log output (`console.*`) and any concurrency between requests are not modelled.
