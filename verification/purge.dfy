/** The bounded purger (`clearStorage`, `clearDatabase`, `handleClearAll`): empties the
    table, then deletes bucket objects page by page, stopping after at most 1000. */
module Purge {
  import opened Sequences
  import opened Catalog

  /** Most objects one storage purge deletes; callers re-invoke to delete more. */
  const MaxDeleteCount: nat := 1000

  /** The token `handleClearAll` demands in its `token` query parameter. */
  const ClearToken: string := "tui-clear-all-data"

  /** `clearStorage`'s report. A failure carries no count, however many objects had
      already been deleted. */
  datatype PurgeResult = Purged(objectsDeleted: nat, capReached: bool) | PurgeFailed

  /** What a storage purge did: the keys it deleted, in order, and its report. */
  datatype Purge = Purge(deleted: seq<Key>, result: PurgeResult)

  /** The keys the purge walk is offered, page after page: it stops at an empty page, a
      page without cursor, a failing list call or the end of `pages` (a call past the
      end reads as an empty page). */
  function Offered(pages: seq<Listing>): seq<Key>
    decreases |pages|
  {
    if |pages| == 0 then []
    else match pages[0]
      case ListFailed => []
      case Page(keys, cursor) =>
        if |keys| == 0 || cursor == "" then keys else keys + Offered(pages[1..])
  }

  /** Whether the walk, if never cut short, ends in a list call that throws. */
  predicate WalkFails(pages: seq<Listing>)
    decreases |pages|
  {
    if |pages| == 0 then false
    else match pages[0]
      case ListFailed => true
      case Page(keys, cursor) =>
        if |keys| == 0 || cursor == "" then false else WalkFails(pages[1..])
  }

  /** Reference behaviour of a storage purge, flat: delete the offered keys in order,
      at most `MaxDeleteCount` of them; the first delete that throws, or a failing list
      call reached before the cap, turns the report into a failure. */
  function PurgeSpec(pages: seq<Listing>, deleteFails: set<Key>): (p: Purge)
    ensures |p.deleted| <= MaxDeleteCount
    ensures |p.deleted| <= |Offered(pages)| && p.deleted == Offered(pages)[..|p.deleted|]
    ensures forall k :: 0 <= k < |p.deleted| ==> p.deleted[k] !in deleteFails
    ensures p.result.Purged? ==>
      p.result.objectsDeleted == |p.deleted|
      && (p.result.capReached <==> p.result.objectsDeleted >= MaxDeleteCount)
    // a listing that offers the cap without a failing delete among the first 1000
    // keys is purged of exactly 1000 objects
    ensures |Offered(pages)| >= MaxDeleteCount
      && (forall k :: 0 <= k < MaxDeleteCount ==> Offered(pages)[k] !in deleteFails)
      ==> p.result == Purged(MaxDeleteCount, true)
    // a success below the cap deleted every key the walk offered
    ensures p.result.Purged? && !p.result.capReached ==> p.deleted == Offered(pages)
    // a failure is a throwing delete among the first 1000 offered keys, or a throwing
    // list call reached before the cap
    ensures p.result.PurgeFailed? <==>
      (exists k :: 0 <= k < |Offered(pages)| && k < MaxDeleteCount && Offered(pages)[k] in deleteFails)
      || (|Offered(pages)| < MaxDeleteCount && WalkFails(pages))
    // a failing purge stops just before the throwing delete, or has deleted every offered
    // key when the walk ends in a throwing list call
    ensures p.result.PurgeFailed? ==>
      (|p.deleted| < |Offered(pages)| && |p.deleted| < MaxDeleteCount && Offered(pages)[|p.deleted|] in deleteFails)
      || (p.deleted == Offered(pages) && WalkFails(pages))
  {
    var offered := Offered(pages);
    var n := if |offered| < MaxDeleteCount then |offered| else MaxDeleteCount;
    var k := FirstIn(offered[..n], deleteFails);
    if k < n then Purge(offered[..k], PurgeFailed)
    else if n < MaxDeleteCount && WalkFails(pages) then Purge(offered, PurgeFailed)
    else Purge(offered[..n], Purged(n, n >= MaxDeleteCount))
  }

  /** The three ways a purge ends, stated against the reference: a delete throws... */
  lemma SpecOnFault(pages: seq<Listing>, deleteFails: set<Key>, deleted: seq<Key>)
    requires |deleted| < MaxDeleteCount && |deleted| < |Offered(pages)|
    requires deleted == Offered(pages)[..|deleted|]
    requires forall k :: 0 <= k < |deleted| ==> deleted[k] !in deleteFails
    requires Offered(pages)[|deleted|] in deleteFails
    ensures PurgeSpec(pages, deleteFails) == Purge(deleted, PurgeFailed)
  {
    var offered := Offered(pages);
    var n := if |offered| < MaxDeleteCount then |offered| else MaxDeleteCount;
    assert offered[..n][..|deleted|] == deleted;
    FirstInAt(offered[..n], deleteFails, |deleted|);
  }

  /** ... the cap is reached ... */
  lemma SpecAtCap(pages: seq<Listing>, deleteFails: set<Key>, deleted: seq<Key>)
    requires |deleted| == MaxDeleteCount <= |Offered(pages)|
    requires deleted == Offered(pages)[..MaxDeleteCount]
    requires forall k :: 0 <= k < |deleted| ==> deleted[k] !in deleteFails
    ensures PurgeSpec(pages, deleteFails) == Purge(deleted, Purged(MaxDeleteCount, true))
  {
    assert FirstIn(Offered(pages)[..MaxDeleteCount], deleteFails) == MaxDeleteCount;
  }

  /** ... or the walk runs out of keys below the cap. */
  lemma SpecAtEnd(pages: seq<Listing>, deleteFails: set<Key>, deleted: seq<Key>)
    requires Offered(pages) == deleted && |deleted| < MaxDeleteCount
    requires forall k :: 0 <= k < |deleted| ==> deleted[k] !in deleteFails
    ensures PurgeSpec(pages, deleteFails) ==
      Purge(deleted, if WalkFails(pages) then PurgeFailed else Purged(|deleted|, false))
  {
    assert deleted[..|deleted|] == deleted;
    assert FirstIn(deleted, deleteFails) == |deleted|;
  }

  /** The inner loop of `clearStorage` over one page: delete each key in order, counting,
      until the page ends, a delete throws, or the running count reaches the cap. */
  method DeletePage(keys: seq<Key>, deleteFails: set<Key>, count: nat)
    returns (done: seq<Key>, failed: bool)
    requires count < MaxDeleteCount
    ensures |done| <= |keys| && done == keys[..|done|]
    ensures forall k :: 0 <= k < |done| ==> done[k] !in deleteFails
    ensures count + |done| <= MaxDeleteCount
    ensures failed ==> |done| < |keys| && keys[|done|] in deleteFails && count + |done| < MaxDeleteCount
    ensures !failed && |done| < |keys| ==> count + |done| == MaxDeleteCount
  {
    done := [];
    var deletedCount := count;
    var j := 0;
    while j < |keys|
      invariant 0 <= j <= |keys|
      invariant done == keys[..j]
      invariant deletedCount == count + j < MaxDeleteCount
      invariant forall k :: 0 <= k < |done| ==> done[k] !in deleteFails
    {
      if keys[j] in deleteFails {
        return done, true;
      }
      done := done + [keys[j]];
      deletedCount := deletedCount + 1;
      assert keys[..j + 1] == keys[..j] + [keys[j]];
      j := j + 1;
      if deletedCount >= MaxDeleteCount {
        break;
      }
    }
    failed := false;
  }

  /** One step of the walk: what the list call at position `i` contributes. */
  lemma OfferedAt(pages: seq<Listing>, i: nat)
    requires i < |pages|
    ensures pages[i].ListFailed? ==> Offered(pages[i..]) == [] && WalkFails(pages[i..])
    ensures pages[i].Page? && (|pages[i].keys| == 0 || pages[i].cursor == "") ==>
      Offered(pages[i..]) == pages[i].keys && !WalkFails(pages[i..])
    ensures pages[i].Page? && |pages[i].keys| > 0 && pages[i].cursor != "" ==>
      && Offered(pages[i..]) == pages[i].keys + Offered(pages[i + 1..])
      && WalkFails(pages[i..]) == WalkFails(pages[i + 1..])
  {
    assert pages[i..][1..] == pages[i + 1..];
  }

  /** Bookkeeping for one page: appending the page's deleted keys to those of earlier
      pages keeps them a fault-free prefix of the offered keys. */
  lemma AdvanceOverPage(offered: seq<Key>, before: seq<Key>, keys: seq<Key>, later: seq<Key>,
                        done: seq<Key>, deleteFails: set<Key>)
    requires offered == before + (keys + later)
    requires |done| <= |keys| && done == keys[..|done|]
    requires forall k :: 0 <= k < |before| ==> before[k] !in deleteFails
    requires forall k :: 0 <= k < |done| ==> done[k] !in deleteFails
    ensures |before + done| <= |offered| && offered[..|before + done|] == before + done
    ensures forall k :: 0 <= k < |before + done| ==> (before + done)[k] !in deleteFails
    ensures |done| < |keys| ==> offered[|before + done|] == keys[|done|]
    ensures done == keys ==> offered == (before + done) + later
  {
    var d := before + done;
    assert offered[..|d|] == d;
    forall k | 0 <= k < |d|
      ensures d[k] !in deleteFails
    {
      if k >= |before| {
        assert d[k] == done[k - |before|];
      }
    }
  }

  /** Whether the walk goes on to the next list call, or stops with a report. */
  datatype Step = Continue | Stop(result: PurgeResult)

  /** One round of `clearStorage`'s do-while: list the page at position `i`, delete its
      keys, then decide whether to go on. `deleted` holds the keys deleted so far. */
  method PurgePage(pages: seq<Listing>, deleteFails: set<Key>, i: nat, deleted: seq<Key>, deletedCount: nat)
    returns (deleted': seq<Key>, deletedCount': nat, step: Step)
    requires i <= |pages|
    requires deletedCount == |deleted| < MaxDeleteCount
    requires Offered(pages) == deleted + Offered(pages[i..])
    requires WalkFails(pages) == WalkFails(pages[i..])
    requires forall k :: 0 <= k < |deleted| ==> deleted[k] !in deleteFails
    ensures step.Continue? ==>
      && i < |pages|
      && deletedCount' == |deleted'| < MaxDeleteCount
      && Offered(pages) == deleted' + Offered(pages[i + 1..])
      && WalkFails(pages) == WalkFails(pages[i + 1..])
      && forall k :: 0 <= k < |deleted'| ==> deleted'[k] !in deleteFails
    ensures step.Stop? ==> Purge(deleted', step.result) == PurgeSpec(pages, deleteFails)
  {
    ghost var offered := Offered(pages);
    if i == |pages| {
      // the store has nothing more to list
      assert pages[i..] == [];
      assert offered == deleted + [];
      SpecAtEnd(pages, deleteFails, deleted);
      return deleted, deletedCount, Stop(Purged(deletedCount, false));
    }
    OfferedAt(pages, i);
    var listing := pages[i];
    if listing.ListFailed? {
      assert offered == deleted + [];
      SpecAtEnd(pages, deleteFails, deleted);
      return deleted, deletedCount, Stop(PurgeFailed);
    }
    var keys, cursor := listing.keys, listing.cursor;
    if |keys| == 0 {
      assert offered == deleted + [];
      SpecAtEnd(pages, deleteFails, deleted);
      return deleted, deletedCount, Stop(Purged(deletedCount, false));
    }
    ghost var later := if cursor == "" then [] else Offered(pages[i + 1..]);
    assert keys + [] == keys;
    var done, failed := DeletePage(keys, deleteFails, deletedCount);
    AdvanceOverPage(offered, deleted, keys, later, done, deleteFails);
    deleted' := deleted + done;
    deletedCount' := deletedCount + |done|;
    if failed {
      SpecOnFault(pages, deleteFails, deleted');
      return deleted', deletedCount', Stop(PurgeFailed);
    }
    if deletedCount' >= MaxDeleteCount {
      // the cap stops the walk whatever the cursor says
      SpecAtCap(pages, deleteFails, deleted');
      return deleted', deletedCount', Stop(Purged(deletedCount', true));
    }
    assert done == keys;
    if cursor == "" {
      assert offered == deleted' + [];
      SpecAtEnd(pages, deleteFails, deleted');
      return deleted', deletedCount', Stop(Purged(deletedCount', false));
    }
    step := Continue;
  }

  /** `clearStorage`: its page loop. `pages` are the responses of the
      bucket's successive list calls (100 keys each, no prefix). */
  method ClearStorage(pages: seq<Listing>, deleteFails: set<Key>)
    returns (deleted: seq<Key>, result: PurgeResult)
    ensures Purge(deleted, result) == PurgeSpec(pages, deleteFails)
    ensures result.Purged? ==>
      && result.objectsDeleted == |deleted| <= MaxDeleteCount
      && (result.capReached <==> result.objectsDeleted >= MaxDeleteCount)
    ensures |deleted| <= |Offered(pages)| && deleted == Offered(pages)[..|deleted|]
  {
    deleted := [];
    var deletedCount := 0;
    var i := 0;
    assert pages[0..] == pages;
    while true
      invariant 0 <= i <= |pages|
      invariant deletedCount == |deleted| < MaxDeleteCount
      invariant Offered(pages) == deleted + Offered(pages[i..])
      invariant WalkFails(pages) == WalkFails(pages[i..])
      invariant forall k :: 0 <= k < |deleted| ==> deleted[k] !in deleteFails
      decreases |pages| - i
    {
      var step;
      deleted, deletedCount, step := PurgePage(pages, deleteFails, i, deleted, deletedCount);
      if step.Stop? {
        return deleted, step.result;
      }
      i := i + 1;
    }
  }

  /** `clearDatabase`'s report: rows removed, or the statement failed (caught). */
  datatype DbPurge = DbPurged(recordsDeleted: nat) | DbPurgeFailed

  datatype ClearOutcome = Unauthorized | Cleared(database: DbPurge, storage: PurgeResult)

  /** `clearDatabase`: `DELETE FROM Photos`, whose failure is reported, not thrown. */
  function ClearDatabase(s: Stores, f: Faults): (c: (seq<Effect>, DbPurge))
    ensures c.1.DbPurged? <==> !f.dbDown
    // the report counts the rows `handleGetPhotoCount` saw, and that count is then 0
    ensures c.1.DbPurged? ==>
      && c.1.recordsDeleted == RowCount(s, f).value
      && RowCount(ApplyAll(s, c.0), f) == Some(0)
      && ApplyAll(s, c.0).blobs == s.blobs
    // a failing statement writes nothing
    ensures c.1.DbPurgeFailed? ==> ApplyAll(s, c.0) == s
  {
    if f.dbDown then ([], DbPurgeFailed) else ([DeleteAllRows], DbPurged(|s.db|))
  }

  /** `handleClearAll`. `token` is the request's `token` query parameter (None when
      absent); `pages` the bucket's list responses for the storage purge. */
  method ClearAll(s: Stores, f: Faults, token: Option<string>, pages: seq<Listing>)
    returns (effects: seq<Effect>, r: ClearOutcome)
    // the gate: a wrong or missing token touches neither store
    ensures r.Unauthorized? <==> token != Some(ClearToken)
    ensures r.Unauthorized? ==> effects == [] && ApplyAll(s, effects) == s
    // the table is purged first, then the bucket
    ensures r.Cleared? ==>
      var p := PurgeSpec(pages, f.deleteFails);
      && r.storage == p.result
      && effects == (if f.dbDown then [] else [DeleteAllRows]) + Deletes(p.deleted)
      && (r.database.DbPurged? <==> !f.dbDown)
      && (r.database.DbPurged? ==> r.database.recordsDeleted == RowCount(s, f).value)
    // a photo count taken afterwards reads 0 whenever the table is up
    ensures r.Cleared? && !f.dbDown ==> RowCount(ApplyAll(s, effects), f) == Some(0)
    ensures r.Cleared? ==>
      var after := ApplyAll(s, effects);
      && after.db == (if f.dbDown then s.db else map[])
      && after.blobs == s.blobs - Elements(PurgeSpec(pages, f.deleteFails).deleted)
  {
    if token != Some(ClearToken) {
      return [], Unauthorized;
    }
    var (dbEffects, dbResult) := ClearDatabase(s, f);
    var deleted, storage := ClearStorage(pages, f.deleteFails);
    effects := dbEffects + Deletes(deleted);
    r := Cleared(dbResult, storage);
    ApplyAllAppend(s, dbEffects, Deletes(deleted));
    var cleared := ApplyAll(s, dbEffects);
    assert cleared == (if f.dbDown then s else s.(db := map[]));
    ApplyDeletes(cleared, deleted);
  }
}
