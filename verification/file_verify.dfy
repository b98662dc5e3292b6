/** The file verifiers: `handleVerifyPhotoFiles` checks the assets of one photo,
    `handleBatchVerifyPhotos` checks up to 100 photos and tallies the outcome. Unlike the
    integrity evaluator, an unset path is simply skipped and sizes are not looked at. */
module FileVerify {
  import opened Catalog

  /** At most this many ids of one batch request are checked. */
  const MaxBatch: nat := 100

  /** The single verifier's three unrolled checks: a set path whose `head` finds no
      object (or throws) is reported, in column order. */
  function MissingFiles(s: Stores, f: Faults, r: PhotoRecord): (m: seq<Key>)
    ensures |m| <= 3
    ensures forall k :: 0 <= k < |m| ==> m[k] in AssetPaths(r) && m[k] != "" && !Hit(s, f, m[k])
    ensures forall p :: p in AssetPaths(r) && p != "" && !Hit(s, f, p) ==> p in m
  {
    MissingIfAbsent(s, f, r.path)
      + MissingIfAbsent(s, f, r.thumbnailPath100)
      + MissingIfAbsent(s, f, r.thumbnailPath350)
  }

  function MissingIfAbsent(s: Stores, f: Faults, path: Key): seq<Key>
  {
    if path != "" && !Hit(s, f, path) then [path] else []
  }

  /** The batch verifier's loop over a row's paths: skip unset paths, keep the ones
      whose `head` finds nothing or throws. */
  function FailingPaths(s: Stores, f: Faults, paths: seq<Key>): (m: seq<Key>)
    ensures |m| <= |paths|
    ensures forall k :: 0 <= k < |m| ==> m[k] in paths && m[k] != "" && !Hit(s, f, m[k])
    ensures forall p :: p in paths && p != "" && !Hit(s, f, p) ==> p in m
    decreases |paths|
  {
    if |paths| == 0 then []
    else
      var rest := FailingPaths(s, f, paths[1..]);
      if paths[0] != "" && !Hit(s, f, paths[0]) then [paths[0]] + rest else rest
  }

  /** The loop keeps the order of its input: the failing paths of a concatenation are
      those of the first part followed by those of the second. */
  lemma {:induction false} FailingPathsAppend(s: Stores, f: Faults, a: seq<Key>, b: seq<Key>)
    ensures FailingPaths(s, f, a + b) == FailingPaths(s, f, a) + FailingPaths(s, f, b)
    decreases |a|
  {
    if |a| == 0 {
      assert a + b == b;
    } else {
      assert (a + b)[0] == a[0];
      assert (a + b)[1..] == a[1..] + b;
      FailingPathsAppend(s, f, a[1..], b);
    }
  }

  /** Both handlers report the same missing files, in the same order. */
  lemma UnrolledChecksAgreeWithLoop(s: Stores, f: Faults, r: PhotoRecord)
    ensures MissingFiles(s, f, r) == FailingPaths(s, f, AssetPaths(r))
  {
    var ps := AssetPaths(r);
    assert ps[1..][1..] == [r.thumbnailPath350];
    assert FailingPaths(s, f, ps[1..][1..]) == MissingIfAbsent(s, f, r.thumbnailPath350) by {
      assert ps[1..][1..][1..] == [];
    }
    assert FailingPaths(s, f, ps[1..])
      == MissingIfAbsent(s, f, r.thumbnailPath100) + MissingIfAbsent(s, f, r.thumbnailPath350);
  }

  datatype Verification =
    | NotInDatabase
    | Verified(present: bool, original: bool, thumbnail100: bool, thumbnail350: bool, missingFiles: seq<Key>)
    | VerifyFailed

  /** `handleVerifyPhotoFiles`. The per-file flags are true only for a set path whose
      object was found; an unset path leaves its flag false without being missing. */
  function VerifyFiles(s: Stores, f: Faults, id: Id): (v: Verification)
    ensures v.VerifyFailed? <==> f.dbDown
    ensures v.NotInDatabase? <==> !f.dbDown && id !in s.db
    ensures v.Verified? ==> id in s.db
    ensures v.Verified? ==> (v.present <==> v.missingFiles == [])
    // missing files are exactly the set paths that were not found, in column order: the
    // batch loop's list, which keeps the order of its input (`FailingPathsAppend`)
    ensures v.Verified? ==> v.missingFiles == FailingPaths(s, f, AssetPaths(s.db[id]))
    ensures v.Verified? ==>
      (v.present <==> forall p :: p in AssetPaths(s.db[id]) && p != "" ==> Hit(s, f, p))
    ensures v.Verified? ==>
      && |v.missingFiles| <= 3
      && forall k :: 0 <= k < |v.missingFiles| ==>
        v.missingFiles[k] in AssetPaths(s.db[id]) && v.missingFiles[k] != "" && !Hit(s, f, v.missingFiles[k])
    ensures v.Verified? ==>
      var r := s.db[id];
      && (v.original <==> r.path != "" && Hit(s, f, r.path))
      && (v.thumbnail100 <==> r.thumbnailPath100 != "" && Hit(s, f, r.thumbnailPath100))
      && (v.thumbnail350 <==> r.thumbnailPath350 != "" && Hit(s, f, r.thumbnailPath350))
  {
    if f.dbDown then VerifyFailed
    else if id !in s.db then NotInDatabase
    else
      var r := s.db[id];
      UnrolledChecksAgreeWithLoop(s, f, r);
      var missing := MissingFiles(s, f, r);
      Verified(
        missing == [],
        r.path != "" && Hit(s, f, r.path),
        r.thumbnailPath100 != "" && Hit(s, f, r.thumbnailPath100),
        r.thumbnailPath350 != "" && Hit(s, f, r.thumbnailPath350),
        missing)
  }

  /** The request body's `ids` field: not an array, or the ids given. */
  datatype BatchRequest = NotAnArray | Ids(ids: seq<Id>)

  /** One entry of the batch's `results`; `present` is the JSON `exists` field. */
  datatype ItemResult = NotInDb(id: Id) | Checked(id: Id, present: bool, missingFiles: seq<Key>)
  {
    predicate Exists()
    {
      Checked? && present
    }
  }

  datatype BatchResponse =
    | BadRequest
    | BatchDone(total: nat, results: seq<ItemResult>, success: nat, failed: nat)
    | BatchFailed

  /** One pass of the batch loop, for a lookup that succeeded. */
  function VerifyItem(s: Stores, f: Faults, id: Id): (item: ItemResult)
    ensures item.id == id
    ensures item.NotInDb? <==> id !in s.db
    ensures item.Checked? ==>
      && (item.present <==> forall p :: p in AssetPaths(s.db[id]) && p != "" ==> Hit(s, f, p))
      && (item.present <==> item.missingFiles == [])
      && forall p :: p in AssetPaths(s.db[id]) && p != "" && !Hit(s, f, p) ==> p in item.missingFiles
    // the entry lists exactly what the single verifier's unrolled checks list, in column order
    ensures item.Checked? ==> item.missingFiles == MissingFiles(s, f, s.db[id])
  {
    if id !in s.db then NotInDb(id)
    else
      var missing := FailingPaths(s, f, AssetPaths(s.db[id]));
      UnrolledChecksAgreeWithLoop(s, f, s.db[id]);
      assert missing != [] ==> missing[0] in AssetPaths(s.db[id]) && !Hit(s, f, missing[0]);
      Checked(id, missing == [], missing)
  }

  /** Number of results that report the photo's files as present. */
  function Succeeded(rs: seq<ItemResult>): nat
    decreases |rs|
  {
    if |rs| == 0 then 0
    else Succeeded(rs[..|rs| - 1]) + (if rs[|rs| - 1].Exists() then 1 else 0)
  }

  /** Number of results that do not. */
  function FailedCount(rs: seq<ItemResult>): nat
    decreases |rs|
  {
    if |rs| == 0 then 0
    else FailedCount(rs[..|rs| - 1]) + (if rs[|rs| - 1].Exists() then 0 else 1)
  }

  /** Every result is tallied exactly once. */
  lemma {:induction false} TallyPartitions(rs: seq<ItemResult>)
    ensures Succeeded(rs) + FailedCount(rs) == |rs|
    decreases |rs|
  {
    if |rs| > 0 {
      TallyPartitions(rs[..|rs| - 1]);
    }
  }

  /** `success` counts exactly the positions whose result exists. */
  lemma {:induction false} SucceededCountsPositions(rs: seq<ItemResult>)
    ensures Succeeded(rs) == |set k | 0 <= k < |rs| && rs[k].Exists()|
    decreases |rs|
  {
    if |rs| > 0 {
      var init := rs[..|rs| - 1];
      SucceededCountsPositions(init);
      var before := set k | 0 <= k < |init| && init[k].Exists();
      var after := set k | 0 <= k < |rs| && rs[k].Exists();
      if rs[|rs| - 1].Exists() {
        assert after == before + {|rs| - 1};
      } else {
        assert after == before;
      }
    }
  }

  /** `handleBatchVerifyPhotos`. A failing table lookup is not isolated per item: it
      fails the whole batch. */
  function BatchVerify(s: Stores, f: Faults, req: BatchRequest): (r: BatchResponse)
    ensures r.BadRequest? <==> req.NotAnArray? || |req.ids| == 0
    ensures r.BatchFailed? <==> req.Ids? && |req.ids| > 0 && f.dbDown
    ensures r.BatchDone? ==>
      // the first min(|ids|, 100) ids, one result each, in input order, duplicates kept
      && r.total == (if |req.ids| < MaxBatch then |req.ids| else MaxBatch)
      && |r.results| == r.total
      && (forall k :: 0 <= k < r.total ==> r.results[k].id == req.ids[k])
      // an id without a row is reported as not in the database and counts as failed
      && (forall k :: 0 <= k < r.total ==> (r.results[k].NotInDb? <==> req.ids[k] !in s.db))
      && (forall k :: 0 <= k < r.total ==> r.results[k].NotInDb? ==> !r.results[k].Exists())
      // the summary
      && r.success == |set k | 0 <= k < r.total && r.results[k].Exists()|
      && r.success + r.failed == r.total
  {
    match req
    case NotAnArray => BadRequest
    case Ids(ids) =>
      if |ids| == 0 then BadRequest
      else if f.dbDown then BatchFailed
      else
        var total := if |ids| < MaxBatch then |ids| else MaxBatch;
        var results := seq(total, k requires 0 <= k < total => VerifyItem(s, f, ids[k]));
        TallyPartitions(results);
        SucceededCountsPositions(results);
        BatchDone(total, results, Succeeded(results), FailedCount(results))
  }

  /** A batch entry says the same as a single verification of the same id. */
  lemma BatchAgreesWithSingle(s: Stores, f: Faults, ids: seq<Id>, k: nat)
    requires !f.dbDown && k < |ids| && k < MaxBatch
    ensures var item := BatchVerify(s, f, Ids(ids)).results[k];
      var single := VerifyFiles(s, f, ids[k]);
      && (item.NotInDb? <==> single.NotInDatabase?)
      && (item.Checked? ==>
            && single.Verified?
            && item.present == single.present
            && item.missingFiles == single.missingFiles)
  {
    if ids[k] in s.db {
      UnrolledChecksAgreeWithLoop(s, f, s.db[ids[k]]);
    }
  }
}
