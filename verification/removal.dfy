/** Photo deletion (`handleDeletePhoto`): the bucket objects of a row are deleted first,
    best effort, and the row is deleted whatever happened to them. A delete that throws
    ends the file phase silently, so the row can go while objects stay behind. */
module Removal {
  import opened Sequences
  import opened Catalog
  import opened Existence
  import opened Integrity

  datatype DeleteOutcome = Deleted | DeleteNotFound | DeleteFailed
  {
    function HttpStatus(): nat
    {
      match this
      case Deleted => 200
      case DeleteNotFound => 404
      case DeleteFailed => 500
    }
  }

  /** The store calls one deletion made, in order, and its answer. */
  datatype Deletion = Deletion(effects: seq<Effect>, outcome: DeleteOutcome)

  /** The paths of `paths` that are set, in order: the ones the handler deletes. */
  function SetPaths(paths: seq<Key>): (ps: seq<Key>)
    ensures |ps| <= |paths|
    ensures forall k :: 0 <= k < |ps| ==> ps[k] != "" && ps[k] in paths
    ensures forall p :: p in paths && p != "" ==> p in ps
    decreases |paths|
  {
    if |paths| == 0 then []
    else if paths[0] == "" then SetPaths(paths[1..])
    else [paths[0]] + SetPaths(paths[1..])
  }

  /** The handler's three guarded deletes visit exactly the set paths, in the column
      order Path, ThumbnailPath100, ThumbnailPath350. */
  lemma {:induction false} SetPathsInColumnOrder(r: PhotoRecord)
    ensures SetPaths(AssetPaths(r)) ==
      (if r.path != "" then [r.path] else [])
      + (if r.thumbnailPath100 != "" then [r.thumbnailPath100] else [])
      + (if r.thumbnailPath350 != "" then [r.thumbnailPath350] else [])
  {
    var ps := AssetPaths(r);
    assert ps[1..][1..][1..] == [];
    assert SetPaths(ps[1..][1..]) == (if r.thumbnailPath350 != "" then [r.thumbnailPath350] else []);
    assert SetPaths(ps[1..]) == (if r.thumbnailPath100 != "" then [r.thumbnailPath100] else [])
      + (if r.thumbnailPath350 != "" then [r.thumbnailPath350] else []);
  }

  /** The objects the file phase removes: the set paths up to, and not including, the
      first one whose delete throws. */
  function RemovedFiles(r: PhotoRecord, deleteFails: set<Key>): (removed: seq<Key>)
    ensures var ps := SetPaths(AssetPaths(r));
      && |removed| <= |ps| && removed == ps[..|removed|]
      && (forall k :: 0 <= k < |removed| ==> removed[k] !in deleteFails)
      && (|removed| < |ps| ==> ps[|removed|] in deleteFails)
  {
    var ps := SetPaths(AssetPaths(r));
    ps[..FirstIn(ps, deleteFails)]
  }

  /** `handleDeletePhoto`. A failing lookup fails the call before anything is deleted.
      `rowDeleteThrows` says whether the closing `DELETE` statement throws, after the
      lookup has succeeded and the file phase has run. */
  function DeletePhoto(s: Stores, f: Faults, id: Id, rowDeleteThrows: bool): (d: Deletion)
    ensures d.outcome == DeleteFailed <==> f.dbDown || (id in s.db && rowDeleteThrows)
    ensures d.outcome == DeleteNotFound <==> !f.dbDown && id !in s.db
    ensures d.outcome == Deleted <==> !f.dbDown && id in s.db && !rowDeleteThrows
    // no lookup, or no row: nothing is written
    ensures f.dbDown || id !in s.db ==> d.effects == [] && ApplyAll(s, d.effects) == s
    // objects first, the row last; a throwing row delete comes after the file phase
    ensures !f.dbDown && id in s.db ==>
      d.effects == Deletes(RemovedFiles(s.db[id], f.deleteFails))
        + (if rowDeleteThrows then [] else [DeleteRow(id)])
    // the row is gone unless its delete threw; an object is gone exactly when its delete
    // was reached
    ensures !f.dbDown && id in s.db ==>
      var after := ApplyAll(s, d.effects);
      && after.db == (if rowDeleteThrows then s.db else s.db - {id})
      && after.blobs == s.blobs - Elements(RemovedFiles(s.db[id], f.deleteFails))
  {
    if f.dbDown then Deletion([], DeleteFailed)
    else if id !in s.db then Deletion([], DeleteNotFound)
    else
      var removed := RemovedFiles(s.db[id], f.deleteFails);
      ApplyDeletes(s, removed);
      if rowDeleteThrows then
        assert Deletes(removed) + [] == Deletes(removed);
        Deletion(Deletes(removed), DeleteFailed)
      else
        ApplyAllAppend(s, Deletes(removed), [DeleteRow(id)]);
        assert [DeleteRow(id)][1..] == [];
        Deletion(Deletes(removed) + [DeleteRow(id)], Deleted)
  }

  /** When no delete throws, none of the row's set paths is left in the bucket, whether
      or not the row delete then throws. */
  lemma CleanDeleteLeavesNoFiles(s: Stores, f: Faults, id: Id, rowDeleteThrows: bool)
    requires !f.dbDown && id in s.db
    requires forall p :: p in AssetPaths(s.db[id]) ==> p !in f.deleteFails
    ensures var after := ApplyAll(s, DeletePhoto(s, f, id, rowDeleteThrows).effects);
      forall p :: p in AssetPaths(s.db[id]) && p != "" ==> p !in after.blobs
  {
    var ps := SetPaths(AssetPaths(s.db[id]));
    var removed := RemovedFiles(s.db[id], f.deleteFails);
    assert removed == ps;
    forall p | p in AssetPaths(s.db[id]) && p != ""
      ensures p in Elements(removed)
    {
    }
  }

  /** A throwing delete can orphan an object: the row is gone while the object stays. */
  lemma FailedDeleteOrphansFile(s: Stores, f: Faults, id: Id)
    requires !f.dbDown && id in s.db
    requires var r := s.db[id]; r.path != "" && r.path in f.deleteFails && r.path in s.blobs
    ensures var after := ApplyAll(s, DeletePhoto(s, f, id, false).effects);
      id !in after.db && s.db[id].path in after.blobs
  {
    var r := s.db[id];
    var ps := SetPaths(AssetPaths(r));
    assert ps[0] == r.path;
    assert RemovedFiles(r, f.deleteFails) == [];
  }

  /** The opposite drift: when the row delete throws after a clean file phase, the call
      answers 500 and leaves a row whose original is gone, which the integrity check
      then reports missing. */
  lemma RowDeleteFailureLeavesDanglingRow(s: Stores, f: Faults, id: Id)
    requires !f.dbDown && id in s.db && s.db[id].path != ""
    requires forall p :: p in AssetPaths(s.db[id]) ==> p !in f.deleteFails
    ensures var d := DeletePhoto(s, f, id, true);
      var check := CheckIntegrity(ApplyAll(s, d.effects), f, id);
      && d.outcome == DeleteFailed
      && check.Checked?
      && OriginalMissing in check.verdict.issues && !check.verdict.isIntact
  {
    CleanDeleteLeavesNoFiles(s, f, id, true);
    assert s.db[id].path in AssetPaths(s.db[id]);
  }

  /** The photo count afterwards: one row fewer after a deletion, unchanged when the row
      delete threw. */
  lemma DeletionRowCount(s: Stores, f: Faults, id: Id, rowDeleteThrows: bool)
    requires !f.dbDown && id in s.db
    ensures var after := ApplyAll(s, DeletePhoto(s, f, id, rowDeleteThrows).effects);
      RowCount(after, f) == Some(if rowDeleteThrows then |s.db| else |s.db| - 1)
  {
    var after := ApplyAll(s, DeletePhoto(s, f, id, rowDeleteThrows).effects);
    assert after.db == (if rowDeleteThrows then s.db else s.db - {id});
    if !rowDeleteThrows {
      RemoveOneRow(s.db, id);
    }
  }

  lemma RemoveOneRow(db: map<Id, PhotoRecord>, id: Id)
    requires id in db
    ensures |db - {id}| == |db| - 1
  {
    assert (db - {id}).Keys == db.Keys - {id};
  }

  /** After a clean deletion of a photo stored at its conventional key, the existence
      check reports it gone. */
  lemma DeletedPhotoNotFound(s: Stores, f: Faults, id: Id)
    requires !f.dbDown && id in s.db && s.db[id].path == PhotoKey(id)
    requires forall p :: p in AssetPaths(s.db[id]) ==> p !in f.deleteFails
    ensures CheckExists(ApplyAll(s, DeletePhoto(s, f, id, false).effects), f, id) == NotFound
  {
    CleanDeleteLeavesNoFiles(s, f, id, false);
    assert PhotoKey(id) in AssetPaths(s.db[id]);
  }
}
