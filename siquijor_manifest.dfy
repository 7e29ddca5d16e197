/**
  The image manifest of the Siquijor scraper: the records of newly downloaded
  images are appended to the records already in the manifest, skipping those
  whose local path the old manifest already lists.

  `MergeManifest` is the loop; `Merged` describes its result as the old
  records followed by a filter (`Fresh`) of the new ones.
 */
module SiquijorManifest {

  /** One downloaded image: the page it came from, its URL, its alt text, its
      location folder and the site path it was saved under. */
  datatype ImageRecord = ImageRecord(source: string, url: string, alt: string, category: string, localPath: string)

  /** The local paths listed by a manifest. */
  function PathsOf(records: seq<ImageRecord>): (paths: set<string>)
    ensures forall r | r in records :: r.localPath in paths
    ensures forall p | p in paths :: exists r | r in records :: r.localPath == p
  {
    set r | r in records :: r.localPath
  }

  /** The records of `incoming`, in order, whose local path is not in `paths`. */
  function Fresh(incoming: seq<ImageRecord>, paths: set<string>): (kept: seq<ImageRecord>)
    ensures |kept| <= |incoming|
    ensures forall k | 0 <= k < |kept| :: kept[k] in incoming && kept[k].localPath !in paths
  {
    if incoming == [] then []
    else (if incoming[0].localPath !in paths then [incoming[0]] else []) + Fresh(incoming[1..], paths)
  }

  /** The manifest after a merge: the old records, then the new records whose path the old ones lack. */
  function Merged(existing: seq<ImageRecord>, incoming: seq<ImageRecord>): (merged: seq<ImageRecord>)
    ensures existing <= merged && |merged| <= |existing| + |incoming|
    ensures forall k | |existing| <= k < |merged| ::
      merged[k] in incoming && merged[k].localPath !in PathsOf(existing)
  {
    existing + Fresh(incoming, PathsOf(existing))
  }

  /** The merge loop. The set of known paths is taken from the old manifest once, before the loop,
      so records appended during the loop do not stop later records with the same path. */
  method MergeManifest(existing: seq<ImageRecord>, incoming: seq<ImageRecord>) returns (merged: seq<ImageRecord>)
    ensures merged == Merged(existing, incoming)
    ensures existing <= merged
    ensures |merged| <= |existing| + |incoming|
  {
    var existingPaths := PathsOf(existing);
    ghost var target := existing + Fresh(incoming, existingPaths);
    merged := existing;
    for i := 0 to |incoming|
      invariant merged + Fresh(incoming[i..], existingPaths) == target
    {
      FreshStep(incoming, i, existingPaths);
      ghost var later := Fresh(incoming[i + 1..], existingPaths);
      if incoming[i].localPath !in existingPaths {
        assert (merged + [incoming[i]]) + later == merged + ([incoming[i]] + later);
        merged := merged + [incoming[i]];
      } else {
        assert [] + later == later;
      }
    }
    assert incoming[|incoming|..] == [];
    assert merged + [] == merged;
  }

  lemma FreshStep(incoming: seq<ImageRecord>, i: nat, paths: set<string>)
    requires i < |incoming|
    ensures Fresh(incoming[i..], paths)
      == (if incoming[i].localPath !in paths then [incoming[i]] else []) + Fresh(incoming[i + 1..], paths)
  {
    assert incoming[i..][1..] == incoming[i + 1..];
  }

  // ---------------------------------------------------------------------------
  // Properties of the merge

  /** A new record is kept exactly when its path is not in the old manifest. */
  lemma {:induction false} FreshMembership(incoming: seq<ImageRecord>, paths: set<string>, r: ImageRecord)
    ensures r in Fresh(incoming, paths) <==> r in incoming && r.localPath !in paths
  {
    if incoming != [] {
      FreshMembership(incoming[1..], paths, r);
      assert incoming == [incoming[0]] + incoming[1..];
    }
  }

  /** Filtering a batch piece by piece is filtering it whole: the kept records stay in input order. */
  lemma {:induction false} FreshConcat(a: seq<ImageRecord>, b: seq<ImageRecord>, paths: set<string>)
    ensures Fresh(a + b, paths) == Fresh(a, paths) + Fresh(b, paths)
  {
    if a == [] {
      assert a + b == b;
    } else {
      var head := if a[0].localPath !in paths then [a[0]] else [];
      assert (a + b)[1..] == a[1..] + b;
      FreshConcat(a[1..], b, paths);
      calc {
        Fresh(a + b, paths);
        head + Fresh(a[1..] + b, paths);
        head + (Fresh(a[1..], paths) + Fresh(b, paths));
        (head + Fresh(a[1..], paths)) + Fresh(b, paths);
      }
    }
  }

  /** When no path of the batch is known, every record is kept, so records that share a path
      within the batch are all appended. */
  lemma {:induction false} FreshKeepsUnknown(incoming: seq<ImageRecord>, paths: set<string>)
    requires forall k | 0 <= k < |incoming| :: incoming[k].localPath !in paths
    ensures Fresh(incoming, paths) == incoming
  {
    if incoming != [] {
      FreshKeepsUnknown(incoming[1..], paths);
    }
  }

  /** A batch of two records with the same new path adds both of them to the manifest. */
  lemma DuplicatesInBatchKept(existing: seq<ImageRecord>, a: ImageRecord, b: ImageRecord)
    requires a.localPath == b.localPath
    requires a.localPath !in PathsOf(existing)
    ensures Merged(existing, [a, b]) == existing + [a, b]
  {
    FreshKeepsUnknown([a, b], PathsOf(existing));
  }

  /** Records are appended in input order: the merge of two batches in one call equals their
      merges with the same old manifest, placed one after the other. */
  lemma MergedConcat(existing: seq<ImageRecord>, a: seq<ImageRecord>, b: seq<ImageRecord>)
    ensures Merged(existing, a + b) == Merged(existing, a) + Fresh(b, PathsOf(existing))
  {
    FreshConcat(a, b, PathsOf(existing));
  }

  /** Merging a batch whose paths are all known already leaves the manifest unchanged. */
  lemma KnownBatchAddsNothing(existing: seq<ImageRecord>, incoming: seq<ImageRecord>)
    requires forall k | 0 <= k < |incoming| :: incoming[k].localPath in PathsOf(existing)
    ensures Merged(existing, incoming) == existing
  {
    FreshAllKnown(incoming, PathsOf(existing));
  }

  lemma {:induction false} FreshAllKnown(incoming: seq<ImageRecord>, paths: set<string>)
    requires forall k | 0 <= k < |incoming| :: incoming[k].localPath in paths
    ensures Fresh(incoming, paths) == []
  {
    if incoming != [] {
      FreshAllKnown(incoming[1..], paths);
    }
  }

  /** Merging the same batch a second time adds nothing: every path it brought is now known. */
  lemma MergeIdempotent(existing: seq<ImageRecord>, incoming: seq<ImageRecord>)
    ensures Merged(Merged(existing, incoming), incoming) == Merged(existing, incoming)
  {
    var once := Merged(existing, incoming);
    forall k | 0 <= k < |incoming|
      ensures incoming[k].localPath in PathsOf(once)
    {
      var r := incoming[k];
      FreshMembership(incoming, PathsOf(existing), r);
      if r.localPath !in PathsOf(existing) {
        assert r in once;
      } else {
        var e :| e in existing && e.localPath == r.localPath;
        assert e in once;
      }
    }
    KnownBatchAddsNothing(once, incoming);
  }
}
