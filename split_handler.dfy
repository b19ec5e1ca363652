/**
 * The `POST /split` route: `requireAuth`, then the handler that validates the
 * upload, plans the segment duration, runs ffmpeg, discovers the segments and
 * streams them as a zip, scheduling the cleanup afterwards.
 *
 * Everything the handler learns from the outside world is a parameter: the
 * directory `mkdtempSync` created, the stderr chunks and the `close` status of
 * the ffmpeg process, and the names `readdirSync` lists afterwards. The result
 * is a trace of what the handler did and answered.
 */
module SplitHandler {
  import opened Wrappers
  import opened JsText
  import Auth
  import opened SegmentPlanner
  import opened Transcode
  import opened Discovery
  import opened Archive
  import opened Cleanup

  const MissingFileError: string := "Missing file field 'file'"
  const NoSegmentsError: string := "No segments produced"
  const ServerError: string := "Server error"

  /** The headers set before the zip is piped to the response. */
  const ZipHeaders: seq<(string, string)> := [
    ("Content-Type", "application/zip"),
    ("Content-Disposition", "attachment; filename=\"segments.zip\"")
  ]

  /** What the client receives. */
  datatype Reply =
    | ErrorJson(status: int, error: string)                         // `res.status(status).json({ error })`
    | ZipStream(headers: seq<(string, string)>, entries: seq<Entry>) // status 200, the headers, then the zip of the entries

  /** The request as the handler sees it: the uploaded file's path, if any, and the raw `segmentSeconds` query value. */
  datatype SplitRequest = SplitRequest(upload: Option<string>, segmentSeconds: Option<string>)

  /** The answers of the outside world during one request. */
  datatype Environment = Environment(
    tempDir: string,            // the directory `mkdtempSync` creates
    stderr: seq<string>,        // ffmpeg's stderr chunks, in arrival order
    status: CloseStatus,        // the `close` event's code
    listing: seq<string>)       // `readdirSync(outDir)` after ffmpeg closed

  /** What one request did: the workspace it created, the ffmpeg arguments it spawned, its reply, and the cleanup it scheduled. */
  datatype Trace = Trace(
    workspace: Option<string>,
    spawned: Option<seq<string>>,
    reply: Reply,
    cleanup: Option<CleanupJob>)

  function StatusOf(reply: Reply): int {
    match reply
    case ErrorJson(status, _) => status
    case ZipStream(_, _) => 200
  }

  /** The `catch` block: `e.message || "Server error"`. */
  function CaughtMessage(message: string): (m: string)
    ensures m != ""
    ensures message != "" ==> m == message
    ensures message == "" ==> m == ServerError
  {
    if message == "" then ServerError else message
  }

  /** The handler's behaviour as a function of the request and the environment. */
  function Split(req: SplitRequest, env: Environment): (t: Trace)
    ensures t.workspace.Some? <==> req.upload.Some?
    ensures t.spawned.Some? <==> req.upload.Some?
    ensures t.cleanup.Some? <==> t.reply.ZipStream?
    ensures StatusOf(t.reply) in {200, 400, 500}
  {
    if req.upload.None? then
      Trace(None, None, ErrorJson(400, MissingFileError), None)
    else
      var inPath := req.upload.value;
      var args := FfmpegArgs(inPath, env.tempDir, SegmentSeconds(req.segmentSeconds));
      AfterClose(inPath, env.tempDir, args, CloseOutcome(env.status, Concat(env.stderr)), Discover(env.listing))
  }

  /**
   * What follows ffmpeg's `close`: a rejection is caught and answered 500; a
   * resolution with no segment file is answered 500; otherwise the files are
   * zipped and the cleanup is scheduled. `files` is only looked at after a
   * resolution, which is when the directory is read.
   */
  function AfterClose(inPath: string, outDir: string, args: seq<string>, outcome: TranscodeOutcome, files: seq<string>): (t: Trace)
    ensures t.workspace == Some(outDir) && t.spawned == Some(args)
    ensures t.reply.ZipStream? <==> outcome.Resolved? && |files| > 0
    ensures t.cleanup.Some? <==> t.reply.ZipStream?
    ensures t.reply.ErrorJson? ==> t.reply.status == 500
  {
    match outcome
    case Rejected(message) =>
      Trace(Some(outDir), Some(args), ErrorJson(500, CaughtMessage(message)), None)
    case Resolved =>
      if |files| == 0 then
        Trace(Some(outDir), Some(args), ErrorJson(500, NoSegmentsError), None)
      else
        Trace(Some(outDir), Some(args), ZipStream(ZipHeaders, EntriesFor(outDir, files)),
              Some(CleanupJob(inPath, outDir, files)))
  }

  /** The handler step by step: stderr is collected chunk by chunk and the archive is filled by a loop. */
  method HandleSplit(req: SplitRequest, env: Environment) returns (t: Trace)
    ensures t == Split(req, env)
  {
    if req.upload.None? {
      return Trace(None, None, ErrorJson(400, MissingFileError), None);
    }
    var seconds := SegmentSeconds(req.segmentSeconds);
    var inPath := req.upload.value;
    var outDir := env.tempDir;
    var args := FfmpegArgs(inPath, outDir, seconds);
    var err := CollectStderr(env.stderr);
    var outcome := CloseOutcome(env.status, err);
    ghost var expected := AfterClose(inPath, outDir, args, outcome, Discover(env.listing));
    assert Split(req, env) == expected;
    if outcome.Rejected? {
      return Trace(Some(outDir), Some(args), ErrorJson(500, CaughtMessage(outcome.message)), None);
    }
    var files := Discover(env.listing);
    if |files| == 0 {
      return Trace(Some(outDir), Some(args), ErrorJson(500, NoSegmentsError), None);
    }
    var archive := new ZipArchive();
    AddSegmentFiles(archive, outDir, files);
    archive.Finalize();
    assert archive.entries == EntriesFor(outDir, files);
    t := Trace(Some(outDir), Some(args), ZipStream(ZipHeaders, archive.entries),
               Some(CleanupJob(inPath, outDir, files)));
  }

  /** The whole route: a request that fails `requireAuth` is answered 401 before the upload is even read. */
  function Serve(apiToken: string, authorization: Option<string>, req: SplitRequest, env: Environment): (t: Trace)
    ensures StatusOf(t.reply) == 401 <==> !(apiToken == "" || authorization == Some(Auth.BearerPrefix + apiToken))
    ensures StatusOf(t.reply) == 401 ==> t.workspace.None? && t.spawned.None? && t.cleanup.None?
  {
    match Auth.RequireAuth(apiToken, authorization)
    case Reject(status, error) => Trace(None, None, ErrorJson(status, error), None)
    case Next => Split(req, env)
  }

  // ---------------------------------------------------------------------
  // Properties of the decision path

  /** A missing upload is answered 400 before any directory is created or process started. */
  lemma MissingUploadAnswered400(req: SplitRequest, env: Environment)
    requires req.upload.None?
    ensures Split(req, env).reply == ErrorJson(400, MissingFileError)
    ensures Split(req, env).workspace.None? && Split(req, env).spawned.None?
    ensures Split(req, env).cleanup.None?
  {
  }

  /**
   * A non-zero exit (or a signal) is answered 500 with "ffmpeg failed: ", the
   * code, a newline and all of stderr in arrival order; no zip header is set.
   */
  lemma FfmpegFailureAnswered500(req: SplitRequest, env: Environment)
    requires req.upload.Some? && env.status != Exited(0)
    ensures Split(req, env).reply == ErrorJson(500, FailureMessage(env.status, Concat(env.stderr)))
    ensures Split(req, env).spawned.Some? && Split(req, env).cleanup.None?
  {
  }

  /** A clean exit that leaves no segment file is answered 500 "No segments produced", with no zip header set. */
  lemma NoSegmentsAnswered500(req: SplitRequest, env: Environment)
    requires req.upload.Some? && env.status == Exited(0)
    requires forall f :: f in env.listing ==> !IsSegmentFile(f)
    ensures Split(req, env).reply == ErrorJson(500, NoSegmentsError)
    ensures Split(req, env).cleanup.None?
  {
    DiscoverEmptyIff(env.listing);
  }

  /**
   * Otherwise the zip headers are set and every discovered segment file
   * becomes one entry, under its own name and in discovery order, and the
   * cleanup of the upload, those files and the workspace is scheduled.
   */
  lemma SuccessStreamsEverySegment(req: SplitRequest, env: Environment)
    requires req.upload.Some? && env.status == Exited(0)
    requires |Discover(env.listing)| > 0
    ensures var t := Split(req, env);
      && t.reply.ZipStream? && t.reply.headers == ZipHeaders && StatusOf(t.reply) == 200
      && |t.reply.entries| == |Discover(env.listing)|
      && (forall i :: 0 <= i < |t.reply.entries| ==>
            t.reply.entries[i].name == Discover(env.listing)[i]
            && t.reply.entries[i].source == JoinPath(env.tempDir, Discover(env.listing)[i]))
      && t.cleanup == Some(CleanupJob(req.upload.value, env.tempDir, Discover(env.listing)))
  {
    EntriesForAt(env.tempDir, Discover(env.listing));
  }

  /** Exactly three outcomes: a zip exactly when there is an upload, ffmpeg exits 0 and a segment file exists; otherwise 400 or 500. */
  lemma ZipExactlyWhenSegmentsExist(req: SplitRequest, env: Environment)
    ensures Split(req, env).reply.ZipStream? <==>
      req.upload.Some? && env.status == Exited(0) && exists f :: f in env.listing && IsSegmentFile(f)
    ensures StatusOf(Split(req, env).reply) in {200, 400, 500}
    ensures Split(req, env).cleanup.Some? <==> Split(req, env).reply.ZipStream?
  {
    DiscoverEmptyIff(env.listing);
  }

  /**
   * ffmpeg is spawned with 18 arguments: the upload at 1 and, at 14, a
   * duration that `parseInt` reads back as the planned one, which is NaN or
   * within [60, 3600].
   */
  lemma SpawnedWithPlannedDuration(req: SplitRequest, env: Environment)
    requires Split(req, env).spawned.Some?
    ensures var args := Split(req, env).spawned.value;
      && |args| == 18 && req.upload.Some? && args[1] == req.upload.value
      && ParseInt(args[14]) == SegmentSeconds(req.segmentSeconds)
      && (ParseInt(args[14]).None? || MinSeconds <= ParseInt(args[14]).value <= MaxSeconds)
  {
    ArgsLayout(req.upload.value, env.tempDir, SegmentSeconds(req.segmentSeconds));
    ArgsCarryDuration(req.upload.value, env.tempDir, SegmentSeconds(req.segmentSeconds));
  }

  // ---------------------------------------------------------------------
  // Scenarios

  /** ffmpeg receives the planned duration as `String(segmentSeconds)` at position 14. */
  lemma SpawnedDurationText(req: SplitRequest, env: Environment)
    requires req.upload.Some?
    ensures Split(req, env).spawned.Some?
    ensures Split(req, env).spawned.value[14] == NumberToString(SegmentSeconds(req.segmentSeconds))
  {
    ArgsDurationText(req.upload.value, env.tempDir, SegmentSeconds(req.segmentSeconds));
  }

  /**
   * A 30-minute upload split at 900 seconds, given or by default: ffmpeg is
   * asked for 900-second segments, and whatever order the directory lists
   * the two segments in, the zip holds `part_000.m4a` then `part_001.m4a`.
   */
  lemma ThirtyMinutesAt900(req: SplitRequest, env: Environment)
    requires req.upload.Some? && (req.segmentSeconds == None || req.segmentSeconds == Some("900"))
    requires env.status == Exited(0)
    requires env.listing == ["part_001.m4a", "part_000.m4a"] || env.listing == ["part_000.m4a", "part_001.m4a"]
    ensures Split(req, env).spawned.Some? && Split(req, env).spawned.value[14] == "900"
    ensures Split(req, env).reply == ZipStream(ZipHeaders, EntriesFor(env.tempDir, ["part_000.m4a", "part_001.m4a"]))
  {
    RendersAs(900, "900");
    if req.segmentSeconds == None {
      DefaultWhenAbsentOrEmpty(req.segmentSeconds);
    } else {
      PlannedDurationIsFixedPoint(900);
    }
    SpawnedDurationText(req, env);
    FirstSegmentNames(env.listing, ["part_000.m4a", "part_001.m4a"]);
    TwoSegmentsExample(env.listing);
  }

  /** Below the minimum: `segmentSeconds=10` makes ffmpeg cut 60-second segments, not 10-second ones. */
  lemma TenSecondsBecomeSixty(req: SplitRequest, env: Environment)
    requires req.upload.Some? && req.segmentSeconds == Some("10")
    ensures Split(req, env).spawned.Some? && Split(req, env).spawned.value[14] == "60"
  {
    BelowMinimumExample();
    SpawnedDurationText(req, env);
    RendersAs(60, "60");
  }

  lemma RendersAs(n: int, text: string)
    requires (n == 900 && text == "900") || (n == 60 && text == "60")
    ensures NumberToString(Some(n)) == text
  {
    assert NatDigits(6) == "6" && NatDigits(9) == "9" && NatDigits(90) == "90";
  }

  lemma FirstSegmentNames(listing: seq<string>, expected: seq<string>)
    requires listing == ["part_001.m4a", "part_000.m4a"] || listing == ["part_000.m4a", "part_001.m4a"]
    requires expected == ["part_000.m4a", "part_001.m4a"]
    ensures listing == [SegmentName(1), SegmentName(0)] || listing == [SegmentName(0), SegmentName(1)]
    ensures expected == [SegmentName(0), SegmentName(1)]
  {
    assert SegmentName(0) == "part_000.m4a" && SegmentName(1) == "part_001.m4a";
  }

  // ---------------------------------------------------------------------
  // Authentication in front of the handler

  /** A request that fails the token check is answered 401 with nothing created, spawned or scheduled. */
  lemma UnauthorizedStopsEverything(apiToken: string, authorization: Option<string>, req: SplitRequest, env: Environment)
    requires apiToken != "" && authorization != Some(Auth.BearerPrefix + apiToken)
    ensures Serve(apiToken, authorization, req, env) == Trace(None, None, ErrorJson(401, Auth.UnauthorizedError), None)
  {
  }

  /** A request that passes the token check is handled exactly as if there were no check. */
  lemma AuthorizedIsHandled(apiToken: string, authorization: Option<string>, req: SplitRequest, env: Environment)
    requires apiToken == "" || authorization == Some(Auth.BearerPrefix + apiToken)
    ensures Serve(apiToken, authorization, req, env) == Split(req, env)
  {
  }
}
