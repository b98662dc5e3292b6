/** The collection counter (`handleGetR2ObjectCount`): counts the photos in the bucket by
    paging through `photos/`, turning each key into a photo id and counting distinct
    ids; falls back to the table's row count only when the bucket yields no id. */
module CollectionCount {
  import opened Sequences
  import opened Catalog
  import opened Existence

  /** `name.split('.')[0]`: the text of `name` before its first dot. */
  function BeforeDot(name: string): (r: string)
    ensures |r| <= |name| && r == name[..|r|]
    ensures '.' !in r
    ensures |r| == |name| || name[|r|] == '.'
    decreases |name|
  {
    if |name| == 0 || name[0] == '.' then ""
    else [name[0]] + BeforeDot(name[1..])
  }

  /** The three properties of `BeforeDot` admit a single answer. */
  lemma BeforeDotUnique(name: string, r: string)
    requires |r| <= |name| && r == name[..|r|]
    requires '.' !in r
    requires |r| == |name| || name[|r|] == '.'
    ensures BeforeDot(name) == r
  {
  }

  /** The photo id a listed key stands for: the key must start with `photos/`, and the
      id is the rest of the key up to its first dot; an empty id is dropped. */
  function PhotoIdOf(key: Key): (r: Option<Id>)
    ensures r.Some? ==> r.value != "" && '.' !in r.value
    ensures r.Some? ==>
      var n := |PhotosPrefix| + |r.value|;
      n <= |key| && key[..n] == PhotosPrefix + r.value && (n == |key| || key[n] == '.')
    ensures r.None? <==>
      !(|PhotosPrefix| <= |key| && key[..|PhotosPrefix|] == PhotosPrefix)
      || |key| == |PhotosPrefix| || key[|PhotosPrefix|] == '.'
  {
    if |PhotosPrefix| <= |key| && key[..|PhotosPrefix|] == PhotosPrefix then
      var fileName := key[|PhotosPrefix|..];
      var id := BeforeDot(fileName);
      assert key[..|PhotosPrefix| + |id|] == PhotosPrefix + id;
      if id == "" then None else Some(id)
    else None
  }

  /** The counter reads back exactly the id the existence check probes for: the id of
      `photos/{id}.jpg` is `id`, for every non-empty id without a dot. */
  lemma {:induction false} PhotoIdOfPhotoKey(id: Id)
    requires id != "" && '.' !in id
    ensures PhotoIdOf(PhotoKey(id)) == Some(id)
  {
    var key := PhotoKey(id);
    assert key[..|PhotosPrefix|] == PhotosPrefix;
    var fileName := key[|PhotosPrefix|..];
    assert fileName == id + PhotoExtension;
    assert fileName[..|id|] == id;
    assert fileName[|id|] == '.';
    BeforeDotUnique(fileName, id);
  }

  /** The distinct photo ids of a sequence of listed keys. */
  function IdsOf(keys: seq<Key>): (ids: set<Id>)
    ensures |ids| <= |keys|
    decreases |keys|
  {
    if |keys| == 0 then {}
    else
      var rest := IdsOf(keys[..|keys| - 1]);
      match PhotoIdOf(keys[|keys| - 1])
      case Some(id) => rest + {id}
      case None => rest
  }

  /** An id is counted exactly when some listed key yields it. */
  lemma {:induction false} IdsOfMembers(keys: seq<Key>, id: Id)
    ensures id in IdsOf(keys) <==> exists k :: 0 <= k < |keys| && PhotoIdOf(keys[k]) == Some(id)
    decreases |keys|
  {
    if |keys| > 0 {
      var init := keys[..|keys| - 1];
      IdsOfMembers(init, id);
      if id in IdsOf(init) {
        var k :| 0 <= k < |init| && PhotoIdOf(init[k]) == Some(id);
        assert keys[k] == init[k];
      }
      if exists k :: 0 <= k < |keys| && PhotoIdOf(keys[k]) == Some(id) {
        var k :| 0 <= k < |keys| && PhotoIdOf(keys[k]) == Some(id);
        if k < |keys| - 1 {
          assert init[k] == keys[k];
        }
      }
    }
  }

  /** A photo whose original sits at its conventional key is counted. */
  lemma ListedPhotoIsCounted(keys: seq<Key>, id: Id)
    requires id != "" && '.' !in id
    requires PhotoKey(id) in keys
    ensures id in IdsOf(keys)
  {
    PhotoIdOfPhotoKey(id);
    var k :| 0 <= k < |keys| && keys[k] == PhotoKey(id);
    IdsOfMembers(keys, id);
  }

  /** The keys the paging loop collects, following cursors until one is missing, or
      None when a list call throws. A call past the end of `pages` reads as an empty
      page without a cursor. */
  function ScanKeys(pages: seq<Listing>): Option<seq<Key>>
    decreases |pages|
  {
    if |pages| == 0 then Some([])
    else match pages[0]
      case ListFailed => None
      case Page(keys, cursor) =>
        if cursor == "" then Some(keys)
        else match ScanKeys(pages[1..])
          case None => None
          case Some(rest) => Some(keys + rest)
  }

  /** `prefix` followed by the scanned keys, when the scan succeeded. */
  function Prefixed(prefix: seq<Key>, scan: Option<seq<Key>>): Option<seq<Key>>
  {
    match scan
    case None => None
    case Some(rest) => Some(prefix + rest)
  }

  /** The paging loop over `photos/`: follow cursors, appending each page's keys, until
      a page has no cursor; a throwing list call fails the scan. */
  method CollectKeys(pages: seq<Listing>) returns (r: Option<seq<Key>>)
    ensures r == ScanKeys(pages)
  {
    var objects: seq<Key> := [];
    var i := 0;
    var more := true;
    assert pages[0..] == pages;
    match ScanKeys(pages) {
      case Some(rest) => assert [] + rest == rest;
      case None =>
    }
    while more
      invariant 0 <= i <= |pages|
      invariant more ==> ScanKeys(pages) == Prefixed(objects, ScanKeys(pages[i..]))
      invariant !more ==> ScanKeys(pages) == Some(objects)
      decreases |pages| - i + (if more then 1 else 0)
    {
      if i == |pages| {
        assert objects + [] == objects;
        more := false;
      } else {
        assert pages[i..][1..] == pages[i + 1..];
        match pages[i] {
          case ListFailed =>
            return None;
          case Page(keys, cursor) =>
            match ScanKeys(pages[i + 1..]) {
              case Some(rest) => assert objects + (keys + rest) == objects + keys + rest;
              case None =>
            }
            objects := objects + keys;
            more := cursor != "";
            i := i + 1;
        }
      }
    }
    r := Some(objects);
  }

  /** The loop that collects the distinct photo ids of the listed keys. */
  method DistinctIds(objects: seq<Key>) returns (ids: set<Id>)
    ensures ids == IdsOf(objects)
  {
    ids := {};
    var j := 0;
    while j < |objects|
      invariant 0 <= j <= |objects|
      invariant ids == IdsOf(objects[..j])
    {
      assert objects[..j + 1][..j] == objects[..j];
      match PhotoIdOf(objects[j]) {
        case Some(id) => ids := ids + {id};
        case None =>
      }
      j := j + 1;
    }
    assert objects[..|objects|] == objects;
  }

  datatype CountResult =
    | Counted(count: nat, r2Count: nat, dbCount: nat, totalFiles: nat, hasThumbnails: bool)
    | CountFailed

  /** `handleGetR2ObjectCount`. `photoPages` are the responses to the paged listing of
      `photos/`, `thumbnails` the response to the single one-object listing of
      `thumbnails/`. */
  method CountCollection(s: Stores, f: Faults, photoPages: seq<Listing>, thumbnails: Listing)
    returns (r: CountResult)
    // only a failing photos/ listing fails the whole call
    ensures r.CountFailed? <==> ScanKeys(photoPages).None?
    ensures r.Counted? ==>
      var keys := ScanKeys(photoPages).value;
      && r.totalFiles == |keys|
      && r.r2Count == |IdsOf(keys)|
      && r.r2Count <= r.totalFiles
      // the table is asked only when the bucket yields no id; its failure reads as 0
      && r.dbCount == (if r.r2Count == 0 && !f.dbDown then |s.db| else 0)
      && r.count == (if r.r2Count > 0 then r.r2Count else r.dbCount)
      // a failing thumbnails/ probe reads as "no thumbnails"
      && r.hasThumbnails == (thumbnails.Page? && |thumbnails.keys| > 0)
  {
    var scan := CollectKeys(photoPages);
    if scan.None? {
      return CountFailed;
    }
    var objects := scan.value;
    var ids := DistinctIds(objects);

    var hasThumbnails := match thumbnails
      case Page(keys, _) => |keys| > 0
      case ListFailed => false;

    var dbCount := 0;
    if |ids| == 0 {
      match RowCount(s, f) {
        case Some(n) => dbCount := n;
        case None =>
      }
    }
    var count := if |ids| > 0 then |ids| else dbCount;
    r := Counted(count, |ids|, dbCount, |objects|, hasThumbnails);
  }
}
