/** The integrity evaluator (`handleCheckFileIntegrity`): probes the three assets of a
    photo and decides whether the photo is intact, with an itemised list of issues and
    what was found for each asset. */
module Integrity {
  import opened Catalog

  /** Smallest size, in bytes, an original may have; a smaller one counts as corrupt. */
  const MinOriginalSize: nat := 10000

  datatype Issue = OriginalMissing | OriginalTooSmall | Thumbnail100Missing | Thumbnail350Missing

  /** Position of an issue in the fixed report order: original, 100px, 350px. */
  function Rank(i: Issue): nat
  {
    match i
    case OriginalMissing => 0
    case OriginalTooSmall => 0
    case Thumbnail100Missing => 1
    case Thumbnail350Missing => 2
  }

  /** What the probe found for one asset; an absent asset carries no size. */
  datatype FileStatus = Present(size: nat) | Absent

  datatype Verdict = Verdict(
    isIntact: bool,
    issues: seq<Issue>,
    original: FileStatus,
    thumbnail100: FileStatus,
    thumbnail350: FileStatus)

  /** The handler's answer: a verdict (200), no such row (404), or a failed query (500). */
  datatype Response = Checked(verdict: Verdict) | PhotoNotFound | CheckFailed

  /** Probe one asset path. An unset path is never probed; a `head` that throws is
      treated like a missing object. */
  function Probe(s: Stores, f: Faults, path: Key): (r: FileStatus)
    ensures r.Present? <==> Found(s, f, path)
    ensures r.Present? ==> r.size == s.blobs[path]
  {
    if path == "" then Absent
    else match Head(s, f, path)
      case Object(size) => Present(size)
      case _ => Absent
  }

  /** An asset whose path is set and whose `head` returned an object. */
  predicate Found(s: Stores, f: Faults, path: Key)
  {
    path != "" && Hit(s, f, path)
  }

  /** The issue list for the three probe results, in report order. */
  function Issues(original: FileStatus, thumbnail100: FileStatus, thumbnail350: FileStatus): (list: seq<Issue>)
    ensures OriginalMissing in list <==> original.Absent?
    ensures OriginalTooSmall in list <==> original.Present? && original.size < MinOriginalSize
    ensures Thumbnail100Missing in list <==> thumbnail100.Absent?
    ensures Thumbnail350Missing in list <==> thumbnail350.Absent?
    ensures forall i, j :: 0 <= i < j < |list| ==> Rank(list[i]) < Rank(list[j])
    ensures |list| <= 3
  {
    var originalIssues :=
      if original.Absent? then [OriginalMissing]
      else if original.size < MinOriginalSize then [OriginalTooSmall]
      else [];
    originalIssues
      + (if thumbnail100.Absent? then [Thumbnail100Missing] else [])
      + (if thumbnail350.Absent? then [Thumbnail350Missing] else [])
  }

  function Evaluate(s: Stores, f: Faults, r: PhotoRecord): (v: Verdict)
    // intact exactly when all three assets are found and the original is big enough;
    // the thumbnails' sizes play no part
    ensures v.isIntact <==>
      && Found(s, f, r.path) && s.blobs[r.path] >= MinOriginalSize
      && Found(s, f, r.thumbnailPath100)
      && Found(s, f, r.thumbnailPath350)
    ensures v.isIntact <==> |v.issues| == 0
    // each issue is reported exactly when its condition holds
    ensures OriginalMissing in v.issues <==> !Found(s, f, r.path)
    ensures OriginalTooSmall in v.issues <==>
      Found(s, f, r.path) && s.blobs[r.path] < MinOriginalSize
    ensures Thumbnail100Missing in v.issues <==> !Found(s, f, r.thumbnailPath100)
    ensures Thumbnail350Missing in v.issues <==> !Found(s, f, r.thumbnailPath350)
    // the report follows the fixed order and names each asset at most once
    ensures forall i, j :: 0 <= i < j < |v.issues| ==> Rank(v.issues[i]) < Rank(v.issues[j])
    ensures |v.issues| <= 3
    // the per-file map: found assets carry the stored size, the others nothing
    ensures v.original.Present? <==> Found(s, f, r.path)
    ensures v.original.Present? ==> v.original.size == s.blobs[r.path]
    ensures v.thumbnail100.Present? <==> Found(s, f, r.thumbnailPath100)
    ensures v.thumbnail100.Present? ==> v.thumbnail100.size == s.blobs[r.thumbnailPath100]
    ensures v.thumbnail350.Present? <==> Found(s, f, r.thumbnailPath350)
    ensures v.thumbnail350.Present? ==> v.thumbnail350.size == s.blobs[r.thumbnailPath350]
  {
    var original := Probe(s, f, r.path);
    var thumbnail100 := Probe(s, f, r.thumbnailPath100);
    var thumbnail350 := Probe(s, f, r.thumbnailPath350);
    var issues := Issues(original, thumbnail100, thumbnail350);
    var allFound := original.Present? && thumbnail100.Present? && thumbnail350.Present?;
    // a present but undersized original clears intactness after the fact
    var isIntact := if original.Present? && original.size < MinOriginalSize then false else allFound;
    Verdict(isIntact, issues, original, thumbnail100, thumbnail350)
  }

  /** `handleCheckFileIntegrity`: look the row up, then evaluate it. */
  function CheckIntegrity(s: Stores, f: Faults, id: Id): (r: Response)
    ensures r.CheckFailed? <==> f.dbDown
    ensures r.PhotoNotFound? <==> !f.dbDown && id !in s.db
    ensures r.Checked? ==> id in s.db && r.verdict == Evaluate(s, f, s.db[id])
  {
    if f.dbDown then CheckFailed
    else if id !in s.db then PhotoNotFound
    else Checked(Evaluate(s, f, s.db[id]))
  }

  /** The size floor sits exactly at 10000 bytes: an otherwise complete photo whose
      original is 9999 bytes is reported too small and not intact, while 10000 bytes
      is intact. */
  lemma SizeFloorBoundary(s: Stores, f: Faults, r: PhotoRecord)
    requires Found(s, f, r.thumbnailPath100) && Found(s, f, r.thumbnailPath350)
    requires Found(s, f, r.path)
    ensures s.blobs[r.path] == 9999 ==>
      Evaluate(s, f, r).issues == [OriginalTooSmall] && !Evaluate(s, f, r).isIntact
    ensures s.blobs[r.path] == 10000 ==>
      Evaluate(s, f, r).issues == [] && Evaluate(s, f, r).isIntact
  {
  }

  /** Changing the size of an object other than the original never changes the verdict's
      intactness or its issues. */
  lemma OnlyOriginalSizeMatters(s: Stores, f: Faults, r: PhotoRecord, key: Key, size: nat)
    requires key != r.path && key in s.blobs
    ensures var s' := s.(blobs := s.blobs[key := size]);
      Evaluate(s', f, r).isIntact == Evaluate(s, f, r).isIntact
      && Evaluate(s', f, r).issues == Evaluate(s, f, r).issues
  {
    var s' := s.(blobs := s.blobs[key := size]);
    assert Probe(s', f, r.path) == Probe(s, f, r.path);
    IssuesIgnoreThumbnailSizes(Probe(s, f, r.path),
      Probe(s', f, r.thumbnailPath100), Probe(s', f, r.thumbnailPath350),
      Probe(s, f, r.thumbnailPath100), Probe(s, f, r.thumbnailPath350));
  }

  /** The issue list depends on the thumbnails only through whether they were found. */
  lemma IssuesIgnoreThumbnailSizes(original: FileStatus, a100: FileStatus, a350: FileStatus,
                                   b100: FileStatus, b350: FileStatus)
    requires a100.Present? == b100.Present? && a350.Present? == b350.Present?
    ensures Issues(original, a100, a350) == Issues(original, b100, b350)
  {
  }
}
