/**
 * The best-effort cleanup run after the archive is finalized: the upload is
 * unlinked in a `try` of its own; the segment files and then the directory
 * are removed inside one shared `try`, so the first removal that throws ends
 * that block and nothing after it is attempted. Which removals throw is a
 * parameter, `failing`: the paths whose deletion fails.
 */
module Cleanup {
  import opened JsText

  /** What the deferred callback removes: the upload, the discovered files of the workspace, the workspace. */
  datatype CleanupJob = CleanupJob(upload: string, dir: string, files: seq<string>)

  /** Whether the upload went, and the workspace removals that completed, in order. */
  datatype CleanupResult = CleanupResult(uploadRemoved: bool, workspaceRemoved: seq<string>)

  function SegmentPaths(dir: string, files: seq<string>): (paths: seq<string>)
    ensures |paths| == |files|
    ensures forall i :: 0 <= i < |files| ==> paths[i] == JoinPath(dir, files[i])
  {
    if files == [] then [] else [JoinPath(dir, files[0])] + SegmentPaths(dir, files[1..])
  }

  /** The removals of the shared `try` block, in order: every segment file, then the directory. */
  function WorkspaceTargets(job: CleanupJob): seq<string> {
    SegmentPaths(job.dir, job.files) + [job.dir]
  }

  /** The removals one `try` block completes: the targets before the first that throws. */
  function RemovedUntilFailure(targets: seq<string>, failing: set<string>): (done: seq<string>)
    ensures done <= targets
    ensures forall x :: x in done ==> x !in failing
    ensures |done| < |targets| ==> targets[|done|] in failing
  {
    if targets == [] || targets[0] in failing then []
    else
      var rest := RemovedUntilFailure(targets[1..], failing);
      assert targets == [targets[0]] + targets[1..];
      [targets[0]] + rest
  }

  function CleanupOutcome(job: CleanupJob, failing: set<string>): (r: CleanupResult)
    ensures r.uploadRemoved <==> job.upload !in failing
    ensures r.workspaceRemoved <= WorkspaceTargets(job)
    ensures forall t :: t in r.workspaceRemoved ==> t !in failing
  {
    CleanupResult(job.upload !in failing, RemovedUntilFailure(WorkspaceTargets(job), failing))
  }

  /** A prefix that avoids `failing` and stops at a failing target (or the end) is what the block completes. */
  lemma RemovedUntilFailureIs(targets: seq<string>, failing: set<string>, m: nat)
    requires m <= |targets|
    requires forall k :: 0 <= k < m ==> targets[k] !in failing
    requires m < |targets| ==> targets[m] in failing
    ensures RemovedUntilFailure(targets, failing) == targets[..m]
  {
    var done := RemovedUntilFailure(targets, failing);
    assert |done| == m;
  }

  /** Nothing at or after a failing target is removed. */
  lemma RemovedUntilFailureBound(targets: seq<string>, failing: set<string>, k: nat)
    requires k < |targets| && targets[k] in failing
    ensures |RemovedUntilFailure(targets, failing)| <= k
  {
  }

  /** One `try` block of removals: attempt each target in order and leave the block at the first that throws. */
  method RemoveInOrder(targets: seq<string>, failing: set<string>) returns (removed: seq<string>)
    ensures removed == RemovedUntilFailure(targets, failing)
  {
    removed := [];
    var i := 0;
    var thrown := false;
    while i < |targets| && !thrown
      invariant 0 <= i <= |targets|
      invariant removed == targets[..i]
      invariant forall k :: 0 <= k < i ==> targets[k] !in failing
      invariant thrown ==> i < |targets| && targets[i] in failing
      decreases |targets| - i, !thrown
    {
      if targets[i] in failing {
        thrown := true;
      } else {
        assert targets[..i + 1] == targets[..i] + [targets[i]];
        removed := removed + [targets[i]];
        i := i + 1;
      }
    }
    RemovedUntilFailureIs(targets, failing, i);
  }

  /**
   * The deferred callback: `unlinkSync(inPath)` in a `try` of its own, then
   * the unlink of every file followed by `rmdirSync(outDir)` in one shared `try`.
   */
  method RunCleanup(job: CleanupJob, failing: set<string>) returns (r: CleanupResult)
    ensures r == CleanupOutcome(job, failing)
  {
    var uploadRemoved := job.upload !in failing;
    var workspaceRemoved := RemoveInOrder(WorkspaceTargets(job), failing);
    r := CleanupResult(uploadRemoved, workspaceRemoved);
  }

  // ---------------------------------------------------------------------
  // Properties

  /** When no removal throws, the upload, every segment file and the directory are all removed, the files before the directory. */
  lemma EverythingRemovedWhenNothingFails(job: CleanupJob, failing: set<string>)
    requires job.upload !in failing && job.dir !in failing
    requires forall f :: f in job.files ==> JoinPath(job.dir, f) !in failing
    ensures CleanupOutcome(job, failing).uploadRemoved
    ensures CleanupOutcome(job, failing).workspaceRemoved == SegmentPaths(job.dir, job.files) + [job.dir]
  {
    var targets := WorkspaceTargets(job);
    forall k | 0 <= k < |targets| ensures targets[k] !in failing {
      if k < |job.files| {
        assert job.files[k] in job.files;
      }
    }
    RemovedUntilFailureIs(targets, failing, |targets|);
    assert targets[..|targets|] == targets;
  }

  /**
   * One failed unlink ends the shared block: no later segment file is
   * removed and the directory is not removed.
   */
  lemma FailedUnlinkSkipsTheRest(job: CleanupJob, failing: set<string>, k: nat)
    requires k < |job.files| && JoinPath(job.dir, job.files[k]) in failing
    ensures |CleanupOutcome(job, failing).workspaceRemoved| <= k
    ensures CleanupOutcome(job, failing).workspaceRemoved == SegmentPaths(job.dir, job.files)[..|CleanupOutcome(job, failing).workspaceRemoved|]
  {
    var targets := WorkspaceTargets(job);
    var paths := SegmentPaths(job.dir, job.files);
    assert targets[k] == paths[k];
    RemovedUntilFailureBound(targets, failing, k);
    var done := RemovedUntilFailure(targets, failing);
    assert done == targets[..|done|];
    assert targets[..|done|] == paths[..|done|];
  }

  /** The directory is removed exactly when every removal of the shared block succeeds. */
  lemma DirectoryRemovedOnlyAfterEveryFile(job: CleanupJob, failing: set<string>)
    ensures |CleanupOutcome(job, failing).workspaceRemoved| == |job.files| + 1
        <==> forall t :: t in WorkspaceTargets(job) ==> t !in failing
  {
    var targets := WorkspaceTargets(job);
    var done := RemovedUntilFailure(targets, failing);
    if |done| == |targets| {
      assert done == targets;
    } else {
      assert targets[|done|] in targets;
    }
  }

  /** The upload's removal depends on nothing but its own unlink. */
  lemma UploadRemovalIndependent(job: CleanupJob, failing: set<string>)
    ensures CleanupOutcome(job, failing).uploadRemoved <==> job.upload !in failing
    ensures CleanupOutcome(job, failing).workspaceRemoved == CleanupOutcome(job, failing - {job.upload}).workspaceRemoved
        || job.upload in WorkspaceTargets(job)
  {
    var targets := WorkspaceTargets(job);
    if job.upload !in targets {
      var f' := failing - {job.upload};
      var done := RemovedUntilFailure(targets, failing);
      forall k | 0 <= k < |done| ensures targets[k] !in f' {
        assert done[k] == targets[k] && done[k] in done;
      }
      if |done| < |targets| {
        assert targets[|done|] in targets;
      }
      RemovedUntilFailureIs(targets, f', |done|);
    }
  }
}
