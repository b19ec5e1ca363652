/**
 * The ffmpeg step of the `/split` handler: the argument vector it is started
 * with, the diagnostic text collected from its stderr chunk by chunk, and the
 * mapping from the `close` event's exit code to success or a failure message.
 */
module Transcode {
  import opened Wrappers
  import opened JsText

  /** The output name pattern; ffmpeg replaces `%03d` with the zero-padded segment ordinal. */
  const SegmentPattern: string := "part_%03d.m4a"
  const FailurePrefix: string := "ffmpeg failed: "

  /**
   * The argument vector: read `inPath`, drop video, downmix to one channel,
   * resample to 16 kHz, encode AAC at 48k, and cut into segments of `seconds`
   * with timestamps reset, written to `outDir` under `SegmentPattern`.
   */
  function FfmpegArgs(inPath: string, outDir: string, seconds: Option<int>): (args: seq<string>)
    ensures |args| == 18
  {
    [ "-i", inPath,
      "-vn",
      "-ac", "1",
      "-ar", "16000",
      "-c:a", "aac",
      "-b:a", "48k",
      "-f", "segment",
      "-segment_time", NumberToString(seconds),
      "-reset_timestamps", "1",
      JoinPath(outDir, SegmentPattern) ]
  }

  /** The positions of the vector that depend on the request. */
  predicate IsVariablePosition(i: int) {
    i == 1 || i == 14 || i == 17
  }

  /** The input sits at 1 and the output pattern last, directly inside `outDir`: one `/` between them. */
  lemma ArgsLayout(inPath: string, outDir: string, seconds: Option<int>)
    ensures FfmpegArgs(inPath, outDir, seconds)[0] == "-i"
    ensures FfmpegArgs(inPath, outDir, seconds)[1] == inPath
    ensures EndsWith(FfmpegArgs(inPath, outDir, seconds)[17], SegmentPattern)
    ensures outDir != "" ==> StartsWith(FfmpegArgs(inPath, outDir, seconds)[17], outDir)
    ensures outDir != "" ==> EndsWith(FfmpegArgs(inPath, outDir, seconds)[17], "/" + SegmentPattern)
    ensures outDir != "" ==>
      |FfmpegArgs(inPath, outDir, seconds)[17]| == |outDir| + |SegmentPattern| + (if outDir[|outDir| - 1] == '/' then 0 else 1)
    ensures outDir != "" && outDir[|outDir| - 1] != '/' ==>
      FfmpegArgs(inPath, outDir, seconds)[17] == outDir + "/" + SegmentPattern
  {
    assert FfmpegArgs(inPath, outDir, seconds)[17] == JoinPath(outDir, SegmentPattern);
    if outDir != "" {
      JoinPathLength(outDir, SegmentPattern);
      if outDir[|outDir| - 1] != '/' {
        JoinPathSingleSeparator(outDir, SegmentPattern);
      }
    }
  }

  /** The duration follows `-segment_time`, and `parseInt` reads it back as the planned value, NaN included. */
  lemma ArgsCarryDuration(inPath: string, outDir: string, seconds: Option<int>)
    ensures FfmpegArgs(inPath, outDir, seconds)[13] == "-segment_time"
    ensures ParseInt(FfmpegArgs(inPath, outDir, seconds)[14]) == seconds
  {
    assert FfmpegArgs(inPath, outDir, seconds)[14] == NumberToString(seconds);
    ParseIntOfNumberToString(seconds);
  }

  lemma ArgsDurationText(inPath: string, outDir: string, seconds: Option<int>)
    ensures FfmpegArgs(inPath, outDir, seconds)[14] == NumberToString(seconds)
  {
  }

  /** Every position other than the input, the duration and the output is the same for every request. */
  lemma ArgsFixedElsewhere(inPath: string, outDir: string, seconds: Option<int>,
                           inPath': string, outDir': string, seconds': Option<int>)
    ensures forall i :: 0 <= i < 18 && !IsVariablePosition(i) ==>
      FfmpegArgs(inPath, outDir, seconds)[i] == FfmpegArgs(inPath', outDir', seconds')[i]
  {
  }

  // ---------------------------------------------------------------------
  // stderr capture

  /** The chunks joined in arrival order. */
  function Concat(chunks: seq<string>): string {
    if chunks == [] then "" else Concat(chunks[..|chunks| - 1]) + chunks[|chunks| - 1]
  }

  /** `err += d.toString()` for each `data` event, in arrival order. */
  method CollectStderr(chunks: seq<string>) returns (err: string)
    ensures err == Concat(chunks)
  {
    err := "";
    for i := 0 to |chunks|
      invariant err == Concat(chunks[..i])
    {
      assert chunks[..i + 1][..i] == chunks[..i];
      err := err + chunks[i];
    }
    assert chunks[..|chunks|] == chunks;
  }

  lemma {:induction false} ConcatAppend(a: seq<string>, b: seq<string>)
    ensures Concat(a + b) == Concat(a) + Concat(b)
    decreases |b|
  {
    if b == [] {
      assert a + b == a;
    } else {
      var b' := b[..|b| - 1];
      var ab := a + b;
      assert ab[..|ab| - 1] == a + b';
      assert ab[|ab| - 1] == b[|b| - 1];
      ConcatAppend(a, b');
      calc {
        Concat(ab);
        Concat(a + b') + b[|b| - 1];
        Concat(a) + Concat(b') + b[|b| - 1];
      }
    }
  }

  /**
   * Nothing is lost or reordered: every chunk sits in the captured text right
   * after the chunks that arrived before it.
   */
  lemma ChunkInArrivalOrder(chunks: seq<string>, k: nat)
    requires k < |chunks|
    ensures Concat(chunks[..k]) + chunks[k] <= Concat(chunks)
    ensures |Concat(chunks[..k])| + |chunks[k]| <= |Concat(chunks)|
  {
    assert chunks == chunks[..k + 1] + chunks[k + 1..];
    ConcatAppend(chunks[..k + 1], chunks[k + 1..]);
    assert chunks[..k + 1][..k] == chunks[..k];
  }

  // ---------------------------------------------------------------------
  // exit code

  /** What the `close` event reports: an exit code, or `null` when a signal ended the process. */
  datatype CloseStatus = Exited(code: int) | Signalled

  datatype TranscodeOutcome = Resolved | Rejected(message: string)

  /** `${code}` in the template literal. */
  function CodeText(status: CloseStatus): string {
    match status
    case Exited(code) => IntToString(code)
    case Signalled => "null"
  }

  function FailureMessage(status: CloseStatus, stderr: string): (m: string)
    ensures StartsWith(m, FailurePrefix) && EndsWith(m, "\n" + stderr)
  {
    var m := FailurePrefix + CodeText(status) + "\n" + stderr;
    assert m == FailurePrefix + (CodeText(status) + ("\n" + stderr));
    ThreePieces(m, FailurePrefix, CodeText(status), "\n" + stderr);
    m
  }

  /** Exit code 0 resolves; anything else rejects with the code and the whole captured stderr. */
  function CloseOutcome(status: CloseStatus, stderr: string): (o: TranscodeOutcome)
    ensures o.Resolved? <==> status == Exited(0)
    ensures o.Rejected? ==> o.message != ""
  {
    if status == Exited(0) then Resolved else Rejected(FailureMessage(status, stderr))
  }

  /** `parseInt` reads the exit code back from its text, and NaN from `null`. */
  lemma CodeTextParses(status: CloseStatus, tail: string)
    requires tail == [] || !IsDigit(tail[0])
    ensures ParseInt(CodeText(status) + tail) == if status.Exited? then Some(status.code) else None
  {
    match status
    case Exited(code) =>
      ParseIntOfIntToString(code, tail);
    case Signalled =>
      ParseIntNaN(CodeText(status) + tail);
  }

  /**
   * The failure message gives both parts back: `parseInt` of what follows the
   * prefix is the exit code (NaN for `null`), and the message ends with a
   * newline and the captured stderr.
   */
  lemma FailureMessageDecodes(status: CloseStatus, stderr: string)
    ensures var m := FailureMessage(status, stderr);
      && StartsWith(m, FailurePrefix)
      && ParseInt(m[|FailurePrefix|..]) == (if status.Exited? then Some(status.code) else None)
      && EndsWith(m, "\n" + stderr)
  {
    var m := FailureMessage(status, stderr);
    var tail := "\n" + stderr;
    assert m == FailurePrefix + (CodeText(status) + tail);
    ThreePieces(m, FailurePrefix, CodeText(status), tail);
    CodeTextParses(status, tail);
  }

  lemma ThreePieces(m: string, head: string, middle: string, tail: string)
    requires m == head + (middle + tail)
    ensures StartsWith(m, head) && m[|head|..] == middle + tail && EndsWith(m, tail)
  {
    assert m[..|head|] == head;
    assert m[|m| - |tail|..] == tail;
  }

  /** Different exits or different stderr never produce the same failure message. */
  lemma FailureMessageInjective(s1: CloseStatus, e1: string, s2: CloseStatus, e2: string)
    requires FailureMessage(s1, e1) == FailureMessage(s2, e2)
    ensures s1 == s2 && e1 == e2
  {
    var m := FailureMessage(s1, e1);
    FailureMessageDecodes(s1, e1);
    FailureMessageDecodes(s2, e2);
    assert s1 == s2;
    var head := FailurePrefix + CodeText(s1) + "\n";
    assert m == head + e1 && m == head + e2;
    assert e1 == m[|head|..] == e2;
  }
}
