/** The two stores of the photo catalog, seen as plain values.

    The metadata store (the SQL `Photos` table) is a finite map from photo id to the
    row; the blob store (the R2 bucket) is a finite map from object key to object size.
    Nothing ties the two together, which is why the verification handlers exist.

    What the stores do wrong is a separate `Faults` value: whether every SQL statement
    throws, and which keys make an R2 `head` or `delete` throw. Handlers never mutate a
    store directly: they return the log of store calls they made, and `ApplyAll`
    interprets that log, so the order of writes is part of what the handlers return. */
module Catalog {
  import opened Sequences

  datatype Option<+T> = None | Some(value: T)

  /** A photo id, as used in the `Id` column. */
  type Id = string

  /** An R2 object key. */
  type Key = string

  /** A `Photos` row. The three asset paths are the columns the core reads; the empty
      string stands for an unset column (NULL and '' are both falsy to the handlers).
      The descriptive columns are carried as opaque payload: text columns and numeric
      columns, by column name. */
  datatype PhotoRecord = PhotoRecord(
    path: Key,
    thumbnailPath100: Key,
    thumbnailPath350: Key,
    text: map<string, string>,
    numbers: map<string, real>)

  datatype Stores = Stores(db: map<Id, PhotoRecord>, blobs: map<Key, nat>)

  /** How the collaborators misbehave during one call.
      `dbDown`: every SQL statement throws.
      `headFails`, `deleteFails`: the keys whose R2 `head`, resp. `delete`, throws. */
  datatype Faults = Faults(dbDown: bool, headFails: set<Key>, deleteFails: set<Key>)

  /** The asset paths of a row, in the order every handler visits them. */
  function AssetPaths(r: PhotoRecord): seq<Key>
  {
    [r.path, r.thumbnailPath100, r.thumbnailPath350]
  }

  /** Outcome of R2 `head(key)`: the object's metadata, nothing, or an exception. */
  datatype HeadResult = Object(size: nat) | NoObject | Threw

  function Head(s: Stores, f: Faults, key: Key): HeadResult
  {
    if key in f.headFails then Threw
    else if key in s.blobs then Object(s.blobs[key])
    else NoObject
  }

  /** A `head` probe that returned an object. Absence and a thrown exception are both
      "not found" to every handler that uses this predicate. */
  predicate Hit(s: Stores, f: Faults, key: Key)
  {
    Head(s, f, key).Object?
  }

  /** `SELECT COUNT(*) FROM Photos`: the number of rows, or None when the query throws. */
  function RowCount(s: Stores, f: Faults): Option<nat>
  {
    if f.dbDown then None else Some(|s.db|)
  }

  /** One response of R2 `list`: a page of keys with its continuation cursor (the empty
      string standing for a missing cursor), or a call that threw. */
  datatype Listing = Page(keys: seq<Key>, cursor: string) | ListFailed

  /** A store write that a handler performed (and that did not throw). */
  datatype Effect =
    | DeleteBlob(key: Key)
    | DeleteRow(id: Id)
    | DeleteAllRows
    | InsertRow(id: Id, row: PhotoRecord)
    | UpdateRow(id: Id, row: PhotoRecord)

  /** What one write does to the stores. An UPDATE that matches no row changes nothing;
      deleting an absent object or row is not an error. */
  function Apply(s: Stores, e: Effect): Stores
  {
    match e
    case DeleteBlob(k) => s.(blobs := s.blobs - {k})
    case DeleteRow(id) => s.(db := s.db - {id})
    case DeleteAllRows => s.(db := map[])
    case InsertRow(id, row) => s.(db := s.db[id := row])
    case UpdateRow(id, row) => if id in s.db then s.(db := s.db[id := row]) else s
  }

  function ApplyAll(s: Stores, es: seq<Effect>): Stores
    decreases |es|
  {
    if |es| == 0 then s else ApplyAll(Apply(s, es[0]), es[1..])
  }

  lemma {:induction false} ApplyAllAppend(s: Stores, a: seq<Effect>, b: seq<Effect>)
    ensures ApplyAll(s, a + b) == ApplyAll(ApplyAll(s, a), b)
    decreases |a|
  {
    if |a| == 0 {
      assert a + b == b;
    } else {
      assert (a + b)[1..] == a[1..] + b;
      ApplyAllAppend(Apply(s, a[0]), a[1..], b);
    }
  }

  /** One `delete` call per key, in order. */
  function Deletes(keys: seq<Key>): (es: seq<Effect>)
    ensures |es| == |keys|
    ensures forall j :: 0 <= j < |keys| ==> es[j] == DeleteBlob(keys[j])
    decreases |keys|
  {
    if |keys| == 0 then [] else [DeleteBlob(keys[0])] + Deletes(keys[1..])
  }

  /** Deleting a sequence of keys removes exactly those objects and leaves the rows. */
  lemma {:induction false} ApplyDeletes(s: Stores, keys: seq<Key>)
    ensures ApplyAll(s, Deletes(keys)) == Stores(s.db, s.blobs - Elements(keys))
    decreases |keys|
  {
    if |keys| == 0 {
      assert Elements(keys) == {};
      assert s.blobs - Elements(keys) == s.blobs;
    } else {
      var s1 := Apply(s, DeleteBlob(keys[0]));
      assert Deletes(keys)[1..] == Deletes(keys[1..]);
      ApplyDeletes(s1, keys[1..]);
      assert Elements(keys) == {keys[0]} + Elements(keys[1..]) by {
        forall x | x in Elements(keys)
          ensures x in {keys[0]} + Elements(keys[1..])
        {
          var j :| 0 <= j < |keys| && keys[j] == x;
          if j > 0 {
            assert keys[1..][j - 1] == x;
          }
        }
      }
      assert s1.blobs - Elements(keys[1..]) == s.blobs - Elements(keys);
    }
  }
}
