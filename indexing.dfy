/** The indexing job of service.py: the status record (service.py:87-94),
    the guarded start (service.py:155-188), the batch loop (service.py:190-283)
    and the status copy (service.py:354-362).

    Each `with self.lock` block is one atomic step and the job body runs
    sequentially after the start that launched it. The embedding model is
    opaque: whether the batch starting at position `i` embeds is the input
    `embedded(i)`. The store is the map of Store. */
module Indexing {
  import opened Common
  import Config
  import Listing
  import PosixPath
  import Search
  import Store

  type FilePath = Listing.FilePath

  const NotStarted := "Not started"
  const Starting := "Starting..."

  function FoundMessage(total: nat): string
  {
    "Found " + Decimal(total) + " images."
  }

  function ProcessedMessage(progress: nat, total: nat): string
  {
    "Processed " + Decimal(progress) + "/" + Decimal(total) + " images"
  }

  /** The summary written when the loop ends (service.py:273-276). */
  function CompletedMessage(total: int, errors: int): string
    requires 0 <= errors <= total
  {
    "Completed! Indexed " + Decimal(total - errors) + " images." + ErrorNote(errors)
  }

  /** The error count appended to the summary, present only when nonzero. */
  function ErrorNote(errors: nat): string
  {
    if errors > 0 then " (" + Decimal(errors) + " errors)" else ""
  }

  // Points written for a batch.

  /** `str(path.absolute())`. */
  function AbsolutePath(p: FilePath): string
  {
    PosixPath.Render(p)
  }

  /** `path.relative_to(BASE_IMAGE_DIR)`, component-wise; None where Python
      raises ValueError because the file is not under the base. */
  function RelativeTo(p: FilePath, base: FilePath): Option<string>
  {
    if |base| <= |p| && p[..|base|] == base then
      Some(if |p| == |base| then "." else PosixPath.Glue(p[|base|..]))
    else None
  }

  predicate AllUnder(batch: seq<FilePath>, base: FilePath)
  {
    forall k :: 0 <= k < |batch| ==> RelativeTo(batch[k], base).Some?
  }

  /** The point of one file (service.py:227-244): id from the absolute
      path, and the payload; a missing or unreadable `.txt` gives
      "No description". */
  function PointOf(p: FilePath, relative: string, descriptions: map<FilePath, string>): Store.Point
  {
    Store.Point(Store.Uuid5(AbsolutePath(p)),
      map["filename" := Listing.Name(p),
          "path" := AbsolutePath(p),
          "relative_path" := relative,
          "description" := if p in descriptions then descriptions[p] else Store.NoDescription])
  }

  /** The points of a batch, or None when building them raises. */
  function BatchPoints(batch: seq<FilePath>, base: FilePath, descriptions: map<FilePath, string>): Option<seq<Store.Point>>
  {
    if AllUnder(batch, base) then
      Some(seq(|batch|, k requires 0 <= k < |batch| =>
        PointOf(batch[k], RelativeTo(batch[k], base).GetOr("."), descriptions)))
    else None
  }

  /** The loop of service.py:224-244 that builds a batch's points. It
      stops at the first file outside the base, where Python raises. */
  method BuildPoints(batch: seq<FilePath>, base: FilePath, descriptions: map<FilePath, string>)
    returns (points: seq<Store.Point>, ok: bool)
    ensures ok <==> AllUnder(batch, base)
    ensures ok ==> BatchPoints(batch, base, descriptions) == Some(points)
    ensures ok ==> (|points| == |batch| &&
      forall k :: 0 <= k < |batch| ==> points[k].id == Store.Uuid5(AbsolutePath(batch[k])))
  {
    points := [];
    var k := 0;
    while k < |batch|
      invariant 0 <= k <= |batch|
      invariant forall j :: 0 <= j < k ==> RelativeTo(batch[j], base).Some?
      invariant |points| == k
      invariant forall j :: 0 <= j < k ==>
        points[j] == PointOf(batch[j], RelativeTo(batch[j], base).value, descriptions)
    {
      var relative := RelativeTo(batch[k], base);
      if relative.None? {
        return [], false;
      }
      points := points + [PointOf(batch[k], relative.value, descriptions)];
      k := k + 1;
    }
    ok := true;
    assert points == seq(|batch|, k requires 0 <= k < |batch| =>
      PointOf(batch[k], RelativeTo(batch[k], base).GetOr("."), descriptions));
  }

  // The job as a function of its inputs.

  /** What the batch loop reads besides the status: the snapshot of files,
      the configured image root as components, the per-batch outcome of
      the embedding step, and the text of each image's `.txt` sibling
      (already stripped) where one exists and could be read. */
  datatype Job = Job(files: seq<FilePath>, base: FilePath, embedded: nat -> bool,
                     descriptions: map<FilePath, string>)

  /** The fields a batch updates: `progress` and `message` of the status,
      the local `errors` counter, the collection, and whether an
      exception ended the job. */
  datatype JobState = JobState(progress: int, message: string, errors: int,
                               collection: Store.Collection, aborted: bool)

  /** End of the batch that starts at `i`. */
  function BatchEnd(job: Job, i: nat): nat
  {
    Min(i + Config.IndexingBatchSize, |job.files|)
  }

  /** One pass of the loop body, for the batch starting at `i`. A failed
      embedding adds the whole batch to `errors` and leaves everything
      else (service.py:219-221); otherwise the points are upserted and
      `progress` moves to the batch end (service.py:247-269). */
  function Step(job: Job, i: nat, s: JobState): JobState
    requires i < |job.files|
  {
    var stop := BatchEnd(job, i);
    var batch := job.files[i..stop];
    if !job.embedded(i) then s.(errors := s.errors + |batch|)
    else
      match BatchPoints(batch, job.base, job.descriptions)
      case None => s.(aborted := true)
      case Some(points) =>
        s.(collection := if points != [] then Store.Upsert(s.collection, points) else s.collection,
           progress := stop,
           message := ProcessedMessage(stop, |job.files|))
  }

  /** `for i in range(from, total, INDEXING_BATCH_SIZE)`, ended early by an
      exception. */
  function RunFrom(job: Job, i: nat, s: JobState): JobState
    decreases |job.files| - i
  {
    if i >= |job.files| || s.aborted then s
    else RunFrom(job, i + Config.IndexingBatchSize, Step(job, i, s))
  }

  /** The loop from its start, after `start_indexing_thread` reset
      `progress` and the listing step wrote its message. */
  function Run(job: Job, collection: Store.Collection): JobState
  {
    RunFrom(job, 0, JobState(0, FoundMessage(|job.files|), 0, collection, false))
  }

  /** Files in failed batches from `i` on: what `errors` adds up to. */
  function FailedFiles(job: Job, i: nat): nat
    decreases |job.files| - i
  {
    if i >= |job.files| then 0
    else (if job.embedded(i) then 0 else BatchEnd(job, i) - i)
         + FailedFiles(job, i + Config.IndexingBatchSize)
  }

  /** Start of the last batch of `total` files. */
  function LastBatch(total: nat): nat
    requires total > 0
  {
    (total - 1) / Config.IndexingBatchSize * Config.IndexingBatchSize
  }

  // Properties of the job.

  /** Progress only moves forward and stays within the total; errors stay
      within the files looked at. */
  lemma {:induction false} RunBounds(job: Job, i: nat, s: JobState)
    requires 0 <= s.progress <= Min(i, |job.files|)
    requires 0 <= s.errors <= Min(i, |job.files|)
    ensures var r := RunFrom(job, i, s);
      s.progress <= r.progress <= |job.files| && s.errors <= r.errors <= |job.files|
    decreases |job.files| - i
  {
    if i < |job.files| && !s.aborted {
      RunBounds(job, i + Config.IndexingBatchSize, Step(job, i, s));
    }
  }

  /** One batch moves progress forward, never past the batch end: to the
      batch end, `min(i + 128, total)`, when it embedded and did not
      raise, and not at all when its embedding failed. */
  lemma StepAdvances(job: Job, i: nat, s: JobState)
    requires i < |job.files| && s.progress <= i
    ensures var s1 := Step(job, i, s);
      s.progress <= s1.progress <= BatchEnd(job, i)
      && (job.embedded(i) && !s1.aborted ==>
            s1.progress == Min(i + Config.IndexingBatchSize, |job.files|)
            && s1.message == ProcessedMessage(s1.progress, |job.files|))
      && (!job.embedded(i) ==>
            s1.progress == s.progress && s1.message == s.message
            && s1.collection == s.collection && s1.aborted == s.aborted
            && s1.errors == s.errors + (BatchEnd(job, i) - i))
  {
  }

  /** The state after at most `n` more batches from `i`: what a status
      poll during the job can see. */
  function After(job: Job, i: nat, s: JobState, n: nat): JobState
    decreases n
  {
    if n == 0 || i >= |job.files| || s.aborted then s
    else After(job, i + Config.IndexingBatchSize, Step(job, i, s), n - 1)
  }

  /** Progress never decreases during the job: a later poll sees at least
      the progress of an earlier one. */
  lemma {:induction false} ProgressNeverDecreases(job: Job, i: nat, s: JobState, n: nat, m: nat)
    requires s.progress <= i && n <= m
    ensures s.progress <= After(job, i, s, n).progress <= After(job, i, s, m).progress
    decreases m
  {
    if i < |job.files| && !s.aborted && m > 0 {
      StepAdvances(job, i, s);
      if n == 0 {
        ProgressNeverDecreases(job, i + Config.IndexingBatchSize, Step(job, i, s), 0, m - 1);
      } else {
        ProgressNeverDecreases(job, i + Config.IndexingBatchSize, Step(job, i, s), n - 1, m - 1);
      }
    }
  }

  /** Once enough batches have run, the polled state is the job's end. */
  lemma {:induction false} AfterAllBatches(job: Job, i: nat, s: JobState, n: nat)
    requires i + n * Config.IndexingBatchSize >= |job.files|
    ensures After(job, i, s, n) == RunFrom(job, i, s)
    decreases n
  {
    if n > 0 && i < |job.files| && !s.aborted {
      AfterAllBatches(job, i + Config.IndexingBatchSize, Step(job, i, s), n - 1);
    }
  }

  /** Unless an exception ended it, the job's `errors` is the number of
      files in batches whose embedding failed: whole batches, not files. */
  lemma {:induction false} RunCountsFailedBatches(job: Job, i: nat, s: JobState)
    ensures var r := RunFrom(job, i, s);
      !r.aborted ==> r.errors == s.errors + FailedFiles(job, i)
    decreases |job.files| - i
  {
    if i < |job.files| && !s.aborted {
      RunCountsFailedBatches(job, i + Config.IndexingBatchSize, Step(job, i, s));
    }
  }

  lemma LastBatchIs(total: nat, i: nat)
    requires i % Config.IndexingBatchSize == 0
    requires i < total <= i + Config.IndexingBatchSize
    ensures LastBatch(total) == i
  {
  }

  /** A finished job reports `progress == total` exactly when its last
      batch embedded: a failed last batch leaves progress short. */
  lemma {:induction false} RunReachesTotal(job: Job, i: nat, s: JobState)
    requires i % Config.IndexingBatchSize == 0 && i < |job.files|
    requires s.progress <= i
    ensures var r := RunFrom(job, i, s);
      !r.aborted ==> (r.progress == |job.files| <==> job.embedded(LastBatch(|job.files|)))
    decreases |job.files| - i
  {
    var next := i + Config.IndexingBatchSize;
    if !s.aborted {
      if next >= |job.files| {
        LastBatchIs(|job.files|, i);
      } else {
        RunReachesTotal(job, next, Step(job, i, s));
      }
    }
  }

  /** The batch starting at `j` raises in `relative_to`: it embedded and
      holds a file outside the base. */
  predicate BatchRaises(job: Job, j: nat)
  {
    j < |job.files| && job.embedded(j) && !AllUnder(job.files[j..BatchEnd(job, j)], job.base)
  }

  /** A batch ends the job exactly when it raises. */
  lemma StepRaises(job: Job, i: nat, s: JobState)
    requires i < |job.files| && !s.aborted
    ensures Step(job, i, s).aborted <==> BatchRaises(job, i)
  {
  }

  /** Batch starts from `i` on past the first are batch starts from the next. */
  lemma NextStride(i: nat, j: nat)
    requires i + Config.IndexingBatchSize <= j
    ensures (j - i) % Config.IndexingBatchSize == 0 <==>
      (j - (i + Config.IndexingBatchSize)) % Config.IndexingBatchSize == 0
  {
  }

  /** The job ends in an exception exactly when one of its batches raises.
      A file outside the base in a batch whose embedding failed is never
      looked at (the batch is skipped before `relative_to`). */
  lemma {:induction false} RunAbortsOutsideBase(job: Job, i: nat, s: JobState)
    requires !s.aborted
    ensures RunFrom(job, i, s).aborted <==>
      exists j: nat :: i <= j && (j - i) % Config.IndexingBatchSize == 0 && BatchRaises(job, j)
    decreases |job.files| - i
  {
    var b := Config.IndexingBatchSize;
    if i < |job.files| {
      var s1 := Step(job, i, s);
      StepRaises(job, i, s);
      if BatchRaises(job, i) {
        assert (i - i) % b == 0;
      } else {
        RunAbortsOutsideBase(job, i + b, s1);
        assert RunFrom(job, i, s) == RunFrom(job, i + b, s1);
        if RunFrom(job, i, s).aborted {
          var j: nat :| i + b <= j && (j - (i + b)) % b == 0 && BatchRaises(job, j);
          NextStride(i, j);
        } else {
          forall j: nat | i <= j && (j - i) % b == 0 ensures !BatchRaises(job, j) {
            if j != i {
              assert i + b <= j;
              NextStride(i, j);
            }
          }
        }
      }
    } else {
      forall j: nat | i <= j ensures !BatchRaises(job, j) {
      }
    }
  }

  /** With every batch embedding, the job ends in an exception exactly when
      some file lies outside the base. */
  lemma {:induction false} AllEmbeddedAbortsOutsideBase(job: Job, i: nat, s: JobState)
    requires !s.aborted
    requires forall j :: job.embedded(j)
    ensures RunFrom(job, i, s).aborted <==>
      exists k :: i <= k < |job.files| && RelativeTo(job.files[k], job.base).None?
    decreases |job.files| - i
  {
    if i < |job.files| {
      var stop := BatchEnd(job, i);
      var batch := job.files[i..stop];
      if AllUnder(batch, job.base) {
        AllEmbeddedAbortsOutsideBase(job, i + Config.IndexingBatchSize, Step(job, i, s));
        forall k | i <= k < stop ensures RelativeTo(job.files[k], job.base).Some? {
          assert batch[k - i] == job.files[k];
        }
      } else {
        var k :| 0 <= k < |batch| && RelativeTo(batch[k], job.base).None?;
        assert job.files[i + k] == batch[k];
      }
    }
  }

  /** Three files outside the base in one batch whose embedding fails:
      `relative_to` is never reached, so the job completes normally with
      three errors. */
  lemma OutsideFilesInFailedBatch(job: Job, collection: Store.Collection)
    requires |job.files| == 3 && !job.embedded(0)
    requires forall k :: 0 <= k < 3 ==> RelativeTo(job.files[k], job.base).None?
    ensures var r := Run(job, collection);
      !r.aborted && r.errors == 3 && r.progress == 0 && r.collection == collection
  {
    var start := JobState(0, FoundMessage(3), 0, collection, false);
    assert job.files[0..BatchEnd(job, 0)] == job.files;
    assert Step(job, 0, start) == start.(errors := 3);
    assert Run(job, collection) == RunFrom(job, 128, start.(errors := 3));
  }

  /** One batch overrides the collection with entries that do not depend
      on what it held, and leaves the rest of the state alike. */
  lemma StepOverrides(job: Job, i: nat, s: JobState)
    requires i < |job.files|
    ensures var s1 := Step(job, i, s);
      var e1 := Step(job, i, s.(collection := map[]));
      s1.collection == s.collection + e1.collection && s1 == e1.(collection := s1.collection)
  {
    var batch := job.files[i..BatchEnd(job, i)];
    var bp := BatchPoints(batch, job.base, job.descriptions);
    if job.embedded(i) && bp.Some? && bp.value != [] {
      Store.UpsertOverrides(s.collection, bp.value);
      Store.UpsertOverrides(map[], bp.value);
    }
  }

  /** The job's effect on the collection does not depend on what the
      collection held: it overrides it with a fixed map, and everything
      else in the state comes out the same. */
  lemma {:induction false} RunOverrides(job: Job, i: nat, s: JobState)
    ensures var r := RunFrom(job, i, s);
      var w := RunFrom(job, i, s.(collection := map[]));
      r.collection == s.collection + w.collection && r == w.(collection := r.collection)
    decreases |job.files| - i
  {
    if i < |job.files| && !s.aborted {
      var next := i + Config.IndexingBatchSize;
      var e := s.(collection := map[]);
      var s1, e1 := Step(job, i, s), Step(job, i, e);
      StepOverrides(job, i, s);
      RunOverrides(job, next, s1);
      RunOverrides(job, next, e1);
      assert s1.(collection := map[]) == e1.(collection := map[]);
      var w := RunFrom(job, next, e1.(collection := map[]));
      assert RunFrom(job, i, s) == RunFrom(job, next, s1);
      assert RunFrom(job, i, e) == RunFrom(job, next, e1);
      assert s.collection + (e1.collection + w.collection) == (s.collection + e1.collection) + w.collection;
    }
  }

  /** Indexing the same files again, with the same outcomes, leaves the
      collection as the first run left it: upsert overwrites the points
      keyed by the same absolute paths instead of adding new ones. */
  lemma ReindexIsIdempotent(job: Job, collection: Store.Collection)
    ensures Run(job, Run(job, collection).collection).collection == Run(job, collection).collection
  {
    var start := JobState(0, FoundMessage(|job.files|), 0, collection, false);
    var first := Run(job, collection);
    var again := start.(collection := first.collection);
    RunOverrides(job, 0, start);
    RunOverrides(job, 0, again);
    assert again.(collection := map[]) == start.(collection := map[]);
    var w := RunFrom(job, 0, start.(collection := map[])).collection;
    assert (collection + w) + w == collection + w;
  }

  /** With every batch embedded, no file counts as failed. */
  lemma {:induction false} NoFailedFiles(job: Job, i: nat)
    requires forall j :: job.embedded(j)
    ensures FailedFiles(job, i) == 0
    decreases |job.files| - i
  {
    if i < |job.files| {
      NoFailedFiles(job, i + Config.IndexingBatchSize);
    }
  }

  /** When every batch embeds and every file lies under the base, the job
      completes with no errors and progress at the total. */
  lemma CleanRun(job: Job, collection: Store.Collection)
    requires forall j :: job.embedded(j)
    requires AllUnder(job.files, job.base)
    ensures var r := Run(job, collection);
      !r.aborted && r.errors == 0 && r.progress == |job.files|
  {
    var start := JobState(0, FoundMessage(|job.files|), 0, collection, false);
    AllEmbeddedAbortsOutsideBase(job, 0, start);
    RunCountsFailedBatches(job, 0, start);
    NoFailedFiles(job, 0);
    if |job.files| > 0 {
      RunReachesTotal(job, 0, start);
    }
  }

  /** Proper names glued together make a relative path. */
  lemma GlueOfNamesIsRelative(rest: seq<string>)
    requires |rest| >= 1 && PosixPath.Canonical(rest)
    ensures !PosixPath.IsAbsolute(PosixPath.Glue(rest))
  {
    var rel := PosixPath.Glue(rest);
    assert PosixPath.IsName(rest[0]);
    if |rest| > 1 {
      assert rel == rest[0] + "/" + PosixPath.Glue(rest[1..]);
    }
    assert rel[0] == rest[0][0];
  }

  /** The stored `relative_path` leads back to the file: joined to the base
      and normalised, as the image route does, it gives the file's own
      components. */
  lemma RelativePathLocatesFile(p: FilePath, base: FilePath)
    requires PosixPath.Canonical(p) && PosixPath.Canonical(base)
    requires |base| < |p| && p[..|base|] == base
    ensures RelativeTo(p, base).Some?
    ensures var rel := RelativeTo(p, base).value;
      !PosixPath.IsAbsolute(rel)
      && PosixPath.Components(PosixPath.Join(AbsolutePath(base), rel)) == p
  {
    var rest := p[|base|..];
    var rel := PosixPath.Glue(rest);
    assert RelativeTo(p, base) == Some(rel);
    assert PosixPath.Canonical(rest) by {
      forall k | 0 <= k < |rest| ensures PosixPath.IsName(rest[k]) {
        assert rest[k] == p[|base| + k];
      }
    }
    GlueOfNamesIsRelative(rest);
    PosixPath.JoinComponents(AbsolutePath(base), rel);
    PosixPath.ComponentsOfRender(base);
    PosixPath.SplitGlue(rest);
    PosixPath.ResolveNames(base, rest);
    assert base + rest == p;
  }

  /** Every id in `c` is the id of a file of the snapshot. */
  ghost predicate SnapshotIds(job: Job, c: Store.Collection)
  {
    forall id :: id in c ==> exists f :: f in job.files && id == Store.Uuid5(AbsolutePath(f))
  }

  lemma StepWritesSnapshotIds(job: Job, i: nat, s: JobState)
    requires i < |job.files|
    requires SnapshotIds(job, s.collection)
    ensures SnapshotIds(job, Step(job, i, s).collection)
  {
    var batch := job.files[i..BatchEnd(job, i)];
    var bp := BatchPoints(batch, job.base, job.descriptions);
    if job.embedded(i) && bp.Some? && bp.value != [] {
      var points := bp.value;
      Store.UpsertOverrides(s.collection, points);
      var c := Step(job, i, s).collection;
      assert c == s.collection + Store.Upsert(map[], points);
      forall id | id in c
        ensures exists f :: f in job.files && id == Store.Uuid5(AbsolutePath(f))
      {
        if id !in s.collection {
          assert id in Store.Ids(points);
          var k :| 0 <= k < |points| && points[k].id == id;
          assert points[k].id == Store.Uuid5(AbsolutePath(batch[k]));
          assert batch[k] == job.files[i + k];
        }
      }
    }
  }

  /** The ids the job writes are ids of files in the snapshot: one point
      per image path, and nothing else. */
  lemma {:induction false} RunWritesSnapshotIds(job: Job, i: nat, s: JobState)
    requires SnapshotIds(job, s.collection)
    ensures SnapshotIds(job, RunFrom(job, i, s).collection)
    decreases |job.files| - i
  {
    if i < |job.files| && !s.aborted {
      StepWritesSnapshotIds(job, i, s);
      RunWritesSnapshotIds(job, i + Config.IndexingBatchSize, Step(job, i, s));
    }
  }

  /** No two files share an absolute path, hence a point id. */
  predicate DistinctPaths(files: seq<FilePath>)
  {
    forall a, b :: 0 <= a < b < |files| ==> AbsolutePath(files[a]) != AbsolutePath(files[b])
  }

  /** Distinct canonical paths, as a listing yields, render distinctly. */
  lemma CanonicalPathsAreDistinct(files: seq<FilePath>)
    requires Listing.Distinct(files)
    requires forall k :: 0 <= k < |files| ==> PosixPath.Canonical(files[k])
    ensures DistinctPaths(files)
  {
    forall a, b | 0 <= a < b < |files|
      ensures AbsolutePath(files[a]) != AbsolutePath(files[b])
    {
      PosixPath.ComponentsOfRender(files[a]);
      PosixPath.ComponentsOfRender(files[b]);
    }
  }

  /** The payload the point of file `f` carries in this job. */
  function StoredPayload(job: Job, f: FilePath): Store.Payload
    requires RelativeTo(f, job.base).Some?
  {
    PointOf(f, RelativeTo(f, job.base).value, job.descriptions).payload
  }

  /** After a batch that embedded and did not raise, a file of the batch
      whose absolute path no later file of the batch repeats has its
      point's payload stored under its id: upsert keeps the last point of
      an id. */
  lemma StepStoresBatch(job: Job, i: nat, s: JobState, j: nat)
    requires i <= j < BatchEnd(job, i)
    requires job.embedded(i) && !Step(job, i, s).aborted
    requires forall m :: j < m < BatchEnd(job, i) ==>
      AbsolutePath(job.files[m]) != AbsolutePath(job.files[j])
    ensures RelativeTo(job.files[j], job.base).Some?
    ensures var id := Store.Uuid5(AbsolutePath(job.files[j]));
      var c := Step(job, i, s).collection;
      id in c && c[id] == StoredPayload(job, job.files[j])
  {
    var stop := BatchEnd(job, i);
    var batch := job.files[i..stop];
    var bp := BatchPoints(batch, job.base, job.descriptions);
    assert bp.Some?;
    var points := bp.value;
    var k := j - i;
    assert batch[k] == job.files[j];
    assert points[k] == PointOf(batch[k], RelativeTo(batch[k], job.base).GetOr("."), job.descriptions);
    forall m | k < m < |points| ensures points[m].id != points[k].id {
      assert batch[m] == job.files[i + m];
    }
    Store.UpsertStores(s.collection, points, k);
  }

  /** A batch none of whose files has the id leaves its entry alone. */
  lemma StepKeeps(job: Job, i: nat, s: JobState, id: Store.PointId)
    requires i < |job.files|
    requires forall m :: i <= m < BatchEnd(job, i) ==> Store.Uuid5(AbsolutePath(job.files[m])) != id
    ensures var c := Step(job, i, s).collection;
      (id in c <==> id in s.collection) && (id in s.collection ==> c[id] == s.collection[id])
  {
    var batch := job.files[i..BatchEnd(job, i)];
    var bp := BatchPoints(batch, job.base, job.descriptions);
    if job.embedded(i) && bp.Some? {
      forall m | 0 <= m < |bp.value| ensures bp.value[m].id != id {
        assert batch[m] == job.files[i + m];
      }
      Store.UpsertKeeps(s.collection, bp.value, id);
    }
  }

  /** Batches from `i` on, none of whose files has the id, leave its
      entry alone. */
  lemma {:induction false} RunKeeps(job: Job, i: nat, s: JobState, id: Store.PointId)
    requires forall m :: i <= m < |job.files| ==> Store.Uuid5(AbsolutePath(job.files[m])) != id
    ensures var c := RunFrom(job, i, s).collection;
      (id in c <==> id in s.collection) && (id in s.collection ==> c[id] == s.collection[id])
    decreases |job.files| - i
  {
    if i < |job.files| && !s.aborted {
      StepKeeps(job, i, s, id);
      RunKeeps(job, i + Config.IndexingBatchSize, Step(job, i, s), id);
    }
  }

  /** Start of the batch that holds file `j`, for a loop starting at `i`. */
  function BatchOf(i: nat, j: nat): nat
    requires i <= j
  {
    i + (j - i) / Config.IndexingBatchSize * Config.IndexingBatchSize
  }

  /** A job that completes leaves, for every file of a batch that
      embedded, that file's point payload under its id, when no two files
      share an absolute path: later batches never overwrite it. */
  lemma {:induction false} RunStoresEmbeddedFiles(job: Job, i: nat, s: JobState, j: nat)
    requires DistinctPaths(job.files)
    requires i <= j < |job.files| && job.embedded(BatchOf(i, j))
    ensures var r := RunFrom(job, i, s);
      var f := job.files[j];
      !r.aborted ==>
        RelativeTo(f, job.base).Some?
        && Store.Uuid5(AbsolutePath(f)) in r.collection
        && r.collection[Store.Uuid5(AbsolutePath(f))] == StoredPayload(job, f)
    decreases |job.files| - i
  {
    var b := Config.IndexingBatchSize;
    if !s.aborted {
      var s1 := Step(job, i, s);
      assert RunFrom(job, i, s) == RunFrom(job, i + b, s1);
      if j < i + b {
        assert BatchOf(i, j) == i;
        if !s1.aborted {
          StepStoresBatch(job, i, s, j);
          var id := Store.Uuid5(AbsolutePath(job.files[j]));
          RunKeeps(job, i + b, s1, id);
        }
      } else {
        assert (j - i) / b == (j - (i + b)) / b + 1;
        assert BatchOf(i + b, j) == BatchOf(i, j);
        RunStoresEmbeddedFiles(job, i + b, s1, j);
      }
    }
  }

  /** What a completed job stores for an image whose batch embedded: its
      file name, absolute path, path relative to the base, and its
      description, or "No description" when it had none. */
  lemma RunStoresDescriptions(job: Job, collection: Store.Collection, j: nat)
    requires DistinctPaths(job.files)
    requires j < |job.files| && job.embedded(j / Config.IndexingBatchSize * Config.IndexingBatchSize)
    ensures var r := Run(job, collection);
      var f := job.files[j];
      var id := Store.Uuid5(AbsolutePath(f));
      !r.aborted ==>
        RelativeTo(f, job.base).Some? && id in r.collection
        && r.collection[id] == StoredPayload(job, f)
        && r.collection[id]["filename"] == Listing.Name(f)
        && r.collection[id]["path"] == AbsolutePath(f)
        && r.collection[id]["relative_path"] == RelativeTo(f, job.base).value
        && r.collection[id]["description"] ==
             (if f in job.descriptions then job.descriptions[f] else Store.NoDescription)
  {
    var start := JobState(0, FoundMessage(|job.files|), 0, collection, false);
    assert BatchOf(0, j) == j / Config.IndexingBatchSize * Config.IndexingBatchSize;
    RunStoresEmbeddedFiles(job, 0, start, j);
  }

  /** The summary mentions errors exactly when there were some. */
  lemma CompletedMentionsErrors(total: int, errors: int)
    requires 0 <= errors <= total
    ensures EndsWith(CompletedMessage(total, errors), " errors)") <==> errors > 0
  {
    var m := CompletedMessage(total, errors);
    if errors == 0 {
      assert EndsWith(m, " images.");
      assert m[|m| - 1] == '.';
    }
  }

  /** A run of digits followed by text that does not start with a digit
      splits one way only. */
  lemma DigitsThenText(d1: string, t1: string, d2: string, t2: string)
    requires AllDigits(d1) && AllDigits(d2)
    requires t1 != [] && !IsDigit(t1[0]) && t2 != [] && !IsDigit(t2[0])
    requires d1 + t1 == d2 + t2
    ensures d1 == d2 && t1 == t2
  {
    var s := d1 + t1;
    assert forall k :: 0 <= k < |d1| ==> IsDigit(s[k]);
    assert forall k :: 0 <= k < |d2| ==> IsDigit(s[k]) by {
      assert s == d2 + t2;
    }
    assert !IsDigit(s[|d1|]);
    assert !IsDigit(s[|d2|]) by {
      assert s == d2 + t2 && s[|d2|] == t2[0];
    }
    assert |d1| == |d2|;
    assert d1 == s[..|d1|] == d2;
    assert t1 == s[|d1|..] == t2;
  }

  /** The note determines the error count. */
  lemma ErrorNoteDeterminesCount(errors1: nat, errors2: nat)
    requires ErrorNote(errors1) == ErrorNote(errors2)
    ensures errors1 == errors2
  {
    var n1, n2 := ErrorNote(errors1), ErrorNote(errors2);
    if errors1 > 0 || errors2 > 0 {
      assert n1 != [] && n2 != [];
      assert Decimal(errors1) + " errors)" == n1[2..];
      assert Decimal(errors2) + " errors)" == n2[2..];
      DigitsThenText(Decimal(errors1), " errors)", Decimal(errors2), " errors)");
      DecimalInjective(errors1, errors2);
    }
  }

  /** What follows the fixed head of the summary. */
  lemma CompletedMessageTail(total: int, errors: int)
    requires 0 <= errors <= total
    ensures |CompletedMessage(total, errors)| >= 19
    ensures CompletedMessage(total, errors)[19..] == Decimal(total - errors) + (" images." + ErrorNote(errors))
  {
    AfterHead("Completed! Indexed ", Decimal(total - errors), " images.", ErrorNote(errors));
  }

  /** Dropping the head of a message built left to right. */
  lemma AfterHead(head: string, a: string, b: string, c: string)
    ensures |head + a + b + c| >= |head|
    ensures (head + a + b + c)[|head|..] == a + (b + c)
  {
    var m := head + a + b + c;
    forall k | 0 <= k < |a + (b + c)| ensures m[|head| + k] == (a + (b + c))[k] {
    }
  }

  /** The summary determines both counts it reports. */
  lemma CompletedMessageDeterminesCounts(total1: int, errors1: int, total2: int, errors2: int)
    requires 0 <= errors1 <= total1 && 0 <= errors2 <= total2
    requires CompletedMessage(total1, errors1) == CompletedMessage(total2, errors2)
    ensures total1 - errors1 == total2 - errors2 && errors1 == errors2
  {
    var d1, d2 := Decimal(total1 - errors1), Decimal(total2 - errors2);
    var rest1, rest2 := " images." + ErrorNote(errors1), " images." + ErrorNote(errors2);
    CompletedMessageTail(total1, errors1);
    CompletedMessageTail(total2, errors2);
    DigitsThenText(d1, rest1, d2, rest2);
    DecimalInjective(total1 - errors1, total2 - errors2);
    assert ErrorNote(errors1) == ErrorNote(errors2) by {
      assert rest1[8..] == ErrorNote(errors1) && rest2[8..] == ErrorNote(errors2);
    }
    ErrorNoteDeterminesCount(errors1, errors2);
  }

  /** What follows the fixed head of the progress message. */
  lemma ProcessedMessageTail(progress: nat, total: nat)
    ensures |ProcessedMessage(progress, total)| >= 10
    ensures ProcessedMessage(progress, total)[10..] == Decimal(progress) + ("/" + (Decimal(total) + " images"))
  {
    var head := "Processed ";
    var tail := Decimal(progress) + ("/" + (Decimal(total) + " images"));
    assert ProcessedMessage(progress, total) == head + tail;
  }

  /** The progress message determines both counts it reports. */
  lemma ProcessedMessageDeterminesCounts(progress1: nat, total1: nat, progress2: nat, total2: nat)
    requires ProcessedMessage(progress1, total1) == ProcessedMessage(progress2, total2)
    ensures progress1 == progress2 && total1 == total2
  {
    ProcessedMessageTail(progress1, total1);
    ProcessedMessageTail(progress2, total2);
    var rest1, rest2 := "/" + (Decimal(total1) + " images"), "/" + (Decimal(total2) + " images");
    DigitsThenText(Decimal(progress1), rest1, Decimal(progress2), rest2);
    DecimalInjective(progress1, progress2);
    assert rest1[1..] == rest2[1..];
    DigitsThenText(Decimal(total1), " images", Decimal(total2), " images");
    DecimalInjective(total1, total2);
  }

  /** The listing message determines the total it reports. */
  lemma FoundMessageDeterminesTotal(total1: nat, total2: nat)
    requires FoundMessage(total1) == FoundMessage(total2)
    ensures total1 == total2
  {
    var m1, m2 := FoundMessage(total1), FoundMessage(total2);
    assert m1 == "Found " + (Decimal(total1) + " images.");
    assert m2 == "Found " + (Decimal(total2) + " images.");
    assert m1[6..] == Decimal(total1) + " images." && m2[6..] == Decimal(total2) + " images.";
    DigitsThenText(Decimal(total1), " images.", Decimal(total2), " images.");
    DecimalInjective(total1, total2);
  }

  /** Search reads back what indexing wrote: the record of a hit on a
      point the job built carries the file's name, its relative path and
      its description ("No description" when it had none). */
  lemma SearchReadsIndexedPoint(p: FilePath, relative: string, descriptions: map<FilePath, string>, score: real)
    ensures Search.ToRecord(Search.Hit(score, PointOf(p, relative, descriptions).payload))
         == Search.Record(score, Some(Listing.Name(p)), Some(relative),
                          if p in descriptions then descriptions[p] else Store.NoDescription)
  {
  }

  /** With no image files the loop does not run and the job reports 0. */
  lemma EmptyFolder(base: FilePath, embedded: nat -> bool, descriptions: map<FilePath, string>,
                    collection: Store.Collection)
    ensures var r := Run(Job([], base, embedded, descriptions), collection);
      !r.aborted && r.errors == 0 && r.progress == 0 && r.collection == collection
    ensures CompletedMessage(0, 0) == "Completed! Indexed 0 images."
  {
    assert Decimal(0) == "0";
  }

  /** Ten files in one batch whose embedding fails (one unreadable image
      is enough): all ten count as errors and progress stays at 0. */
  lemma OneFailedBatch(job: Job, collection: Store.Collection)
    requires |job.files| == 10 && !job.embedded(0)
    ensures var r := Run(job, collection);
      !r.aborted && r.errors == 10 && r.progress == 0 && r.collection == collection
    ensures CompletedMessage(10, 10) == "Completed! Indexed 0 images. (10 errors)"
  {
    var start := JobState(0, FoundMessage(10), 0, collection, false);
    assert job.files[0..BatchEnd(job, 0)] == job.files;
    assert Step(job, 0, start) == start.(errors := 10);
    assert Run(job, collection) == RunFrom(job, 128, start.(errors := 10));
    assert Decimal(0) == "0" && Decimal(10) == "10";
  }

  /** A snapshot of the status (`get_indexing_status`). */
  datatype Status = Status(isIndexing: bool, progress: int, total: int, message: string)

  /** The service's indexing state: the status record and the collection. */
  class ImageSearchService {
    var isIndexing: bool
    var progress: int
    var total: int
    var message: string
    var collection: Store.Collection

    ghost predicate Valid()
      reads this
    {
      0 <= progress <= total
    }

    /** `_initialize_indexing_state`; the collection persists on disk. */
    constructor (stored: Store.Collection)
      ensures Valid()
      ensures !isIndexing && progress == 0 && total == 0 && message == NotStarted
      ensures collection == stored
    {
      isIndexing, progress, total, message := false, 0, 0, NotStarted;
      collection := stored;
    }

    /** `start_indexing_thread`: refuses while a job runs, changing
        nothing; otherwise resets the status and reports that the job
        starts (the job itself is IndexImages). */
    method StartIndexingThread() returns (started: bool)
      requires Valid()
      modifies this
      ensures Valid()
      ensures started <==> !old(isIndexing)
      ensures !started ==> unchanged(this)
      ensures started ==> isIndexing && progress == 0 && total == 0 && message == Starting
      ensures collection == old(collection)
    {
      if isIndexing {
        return false;
      }
      isIndexing, progress, total, message := true, 0, 0, Starting;
      started := true;
    }

    /** `get_indexing_status`: a copy of the status. */
    method GetIndexingStatus() returns (status: Status)
      ensures status == Status(isIndexing, progress, total, message)
    {
      status := Status(isIndexing, progress, total, message);
    }

    /** `index_images`: the job a successful start launches. It takes the
        sorted snapshot, sets `total`, runs the batches and writes the
        summary. An exception (a file outside the base) ends it before the
        summary, so `isIndexing` stays true. Returns the `errors` count. */
    method IndexImages(listing: seq<FilePath>, base: FilePath, embedded: nat -> bool,
                       descriptions: map<FilePath, string>)
      returns (errors: int)
      requires Valid() && isIndexing && progress == 0
      modifies this
      ensures Valid() && 0 <= errors <= total
      ensures var job := Job(Listing.Snapshot(listing), base, embedded, descriptions);
        var r := Run(job, old(collection));
        && total == |job.files|
        && progress == r.progress && errors == r.errors && collection == r.collection
        && (r.aborted ==> isIndexing && message == r.message)
        && (!r.aborted ==> !isIndexing && message == CompletedMessage(total, errors))
    {
      var files := Listing.Snapshot(listing);
      var job := Job(files, base, embedded, descriptions);
      total, message := |files|, FoundMessage(|files|);
      var aborted;
      errors, aborted := RunBatches(job);
      if !aborted {
        isIndexing := false;
        message := CompletedMessage(total, errors);
      }
    }

    /** The batch loop of `index_images` (service.py:212-269), from the
        state the listing step left: it does what Run specifies, and
        reports whether an exception ended it. */
    method RunBatches(job: Job) returns (errors: int, aborted: bool)
      requires Valid() && isIndexing && progress == 0
      requires total == |job.files| && message == FoundMessage(total)
      modifies this
      ensures Valid() && 0 <= errors <= total
      ensures var r := Run(job, old(collection));
        && total == |job.files| && isIndexing && aborted == r.aborted
        && progress == r.progress && errors == r.errors && collection == r.collection
        && message == r.message
    {
      ghost var start := JobState(0, message, 0, collection, false);
      assert start == JobState(0, FoundMessage(|job.files|), 0, old(collection), false);
      errors, aborted := 0, false;
      var i := 0;
      while i < |job.files|
        invariant total == |job.files| && isIndexing
        invariant 0 <= progress <= Min(i, |job.files|)
        invariant 0 <= errors <= Min(i, |job.files|)
        invariant RunFrom(job, i, JobState(progress, message, errors, collection, false))
               == RunFrom(job, 0, start)
        decreases |job.files| - i
      {
        ghost var before := JobState(progress, message, errors, collection, false);
        ghost var after := Step(job, i, before);
        var stop := Min(i + Config.IndexingBatchSize, |job.files|);
        var batch := job.files[i..stop];
        if !job.embedded(i) {
          errors := errors + |batch|;
        } else {
          var points, ok := BuildPoints(batch, job.base, job.descriptions);
          if !ok {
            assert after == before.(aborted := true);
            return errors, true;
          }
          if points != [] {
            collection := Store.Upsert(collection, points);
          }
          progress := stop;
          message := ProcessedMessage(stop, |job.files|);
        }
        assert JobState(progress, message, errors, collection, false) == after;
        i := i + Config.IndexingBatchSize;
      }
    }
  }
}
