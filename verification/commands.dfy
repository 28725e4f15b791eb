/** `commands.rs`: the analysis and export commands with their I/O replaced by
    parameters. `probe` and `sampleProbe` are the outcomes of the two
    `get_video_info` calls an analysis makes, `decode` says which
    frames ffmpeg can decode and into what, `mapOk` whether the GPU read-back
    succeeds, `gpuOk` whether a GPU context can be created, and `extract`
    whether ffmpeg can write a frame to a path. */
module Commands {
  import opened Wrappers
  import opened Seqs
  import opened Image
  import Sharpness
  import GpuSharpness
  import Video

  /** `FrameData` without the floating `timestamp` and the always-`None` `path`. */
  datatype FrameData = FrameData(frameNumber: nat, sharpness: real)

  datatype AnalysisResult = AnalysisResult(
    info: Video.VideoInfo,
    frames: seq<FrameData>,
    suggestedThreshold: real,
    suggestedFrameCount: nat)

  datatype ExportOptions = ExportOptions(
    format: string,
    threshold: Option<real>,
    maxFrames: Option<nat>,
    minFrameDistance: nat)

  datatype AnalyzeError =
    | ProbeFailed(message: string)      // `get_video_info` failed
    | ZeroSampleRate                    // `step_by(0)` panics in `sample_frames`
    | GpuInitFailed                     // `GpuContext::new` failed
    | BatchExtractionFailed(chunk: nat) // decoding a batch of 50 frames failed

  /** An analysis together with the `current_frame` values of its progress events. */
  datatype Analysis = Analysis(result: AnalysisResult, progress: seq<nat>)

  function Scores(frames: seq<FrameData>): (r: seq<real>)
    ensures |r| == |frames|
    ensures forall i :: 0 <= i < |frames| ==> r[i] == frames[i].sharpness
  {
    seq(|frames|, i requires 0 <= i < |frames| => frames[i].sharpness)
  }

  function FrameNumbers(frames: seq<FrameData>): (r: seq<nat>)
    ensures |r| == |frames|
    ensures forall i :: 0 <= i < |frames| ==> r[i] == frames[i].frameNumber
  {
    seq(|frames|, i requires 0 <= i < |frames| => frames[i].frameNumber)
  }

  // ---------------------------------------------------------------------
  // Suggested threshold and count
  // ---------------------------------------------------------------------

  /** The tail of both analysis paths: `calculate_auto_threshold(scores, None)`
      and the number of scores reaching it. */
  function Summarize(info: Video.VideoInfo, frames: seq<FrameData>, sqrt: real -> real): AnalysisResult {
    var scores := Scores(frames);
    var t := Sharpness.AutoThreshold(scores, None, sqrt);
    AnalysisResult(info, frames, t, CountAtLeast(scores, t))
  }

  /** The suggested threshold is the statistical one, and the suggested count
      is the number of frames whose score reaches it: never more than the
      number of frames, and all of them exactly when every frame passes. */
  lemma SummarizeSpec(info: Video.VideoInfo, frames: seq<FrameData>, sqrt: real -> real)
    ensures Summarize(info, frames, sqrt).frames == frames
    ensures Summarize(info, frames, sqrt).suggestedThreshold == Sharpness.StatisticalThreshold(Scores(frames), sqrt)
    ensures Summarize(info, frames, sqrt).suggestedFrameCount ==
      |set i | 0 <= i < |frames| && frames[i].sharpness >= Summarize(info, frames, sqrt).suggestedThreshold|
    ensures Summarize(info, frames, sqrt).suggestedFrameCount <= |frames|
    ensures Summarize(info, frames, sqrt).suggestedFrameCount == |frames| <==>
      forall i :: 0 <= i < |frames| ==> frames[i].sharpness >= Summarize(info, frames, sqrt).suggestedThreshold
  {
    var scores := Scores(frames);
    var t := Sharpness.AutoThreshold(scores, None, sqrt);
    CountAtLeastBounded(scores, t);
    CountAtLeastIsCardinality(scores, t);
    assert (set i | 0 <= i < |scores| && scores[i] >= t) == (set i | 0 <= i < |frames| && frames[i].sharpness >= t);
  }

  // ---------------------------------------------------------------------
  // CPU path
  // ---------------------------------------------------------------------

  /** One sampled frame on the CPU path: a frame that cannot be decoded scores 0. */
  function CpuFrame(f: nat, decode: nat -> Option<Image>): FrameData {
    match decode(f)
    case None => FrameData(f, 0.0)
    case Some(img) => FrameData(f, Sharpness.LaplacianVariance(img))
  }

  function ScoreFramesCpu(numbers: seq<nat>, decode: nat -> Option<Image>): (r: seq<FrameData>)
    ensures |r| == |numbers|
  {
    seq(|numbers|, i requires 0 <= i < |numbers| => CpuFrame(numbers[i], decode))
  }

  /** One result per sampled frame, in sampled order; failures score 0 and
      every score is non-negative. */
  lemma ScoreFramesCpuSpec(numbers: seq<nat>, decode: nat -> Option<Image>)
    ensures FrameNumbers(ScoreFramesCpu(numbers, decode)) == numbers
    ensures forall i :: 0 <= i < |numbers| ==> ScoreFramesCpu(numbers, decode)[i].sharpness >= 0.0
    ensures forall i :: 0 <= i < |numbers| && decode(numbers[i]).None? ==>
      ScoreFramesCpu(numbers, decode)[i].sharpness == 0.0
    ensures forall i :: 0 <= i < |numbers| && decode(numbers[i]).Some? ==>
      ScoreFramesCpu(numbers, decode)[i].sharpness == Sharpness.LaplacianVariance(decode(numbers[i]).value)
  {
  }

  /** The CPU path's progress events count 1, 2, …, n (the counter is bumped
      and reported under one lock). */
  function CpuProgress(n: nat): (p: seq<nat>)
    ensures |p| == n
  {
    seq(n, i requires 0 <= i < n => i + 1)
  }

  // ---------------------------------------------------------------------
  // GPU path
  // ---------------------------------------------------------------------

  const BatchSize: nat := 50

  /** `slice::chunks(n)`: consecutive pieces of `n`, the last possibly shorter. */
  function Chunks(s: seq<nat>, n: nat): seq<seq<nat>>
    requires n >= 1
    decreases |s|
  {
    if |s| == 0 then [] else if |s| <= n then [s] else [s[..n]] + Chunks(s[n..], n)
  }

  /** The chunks reassemble to the input; each is non-empty and at most `n`
      long, and only the last can be shorter than `n`. */
  lemma {:induction false} ChunksSpec(s: seq<nat>, n: nat)
    requires n >= 1
    ensures Flatten(Chunks(s, n)) == s
    ensures forall k :: 0 <= k < |Chunks(s, n)| ==> 1 <= |Chunks(s, n)[k]| <= n
    ensures forall k :: 0 <= k < |Chunks(s, n)| - 1 ==> |Chunks(s, n)[k]| == n
    decreases |s|
  {
    if |s| > n {
      var rest := Chunks(s[n..], n);
      ChunksSpec(s[n..], n);
      var cs := Chunks(s, n);
      assert cs[1..] == rest;
      assert s == s[..n] + s[n..];
      forall k | 1 <= k < |cs| ensures cs[k] == rest[k - 1] {}
    }
  }

  /** After k+1 chunks, min(n·(k+1), |s|) elements have been consumed. */
  lemma {:induction false} ChunkPrefixLength(s: seq<nat>, n: nat, k: nat)
    requires n >= 1
    requires k < |Chunks(s, n)|
    ensures |Flatten(Chunks(s, n)[..k + 1])| == Min(n * (k + 1), |s|)
    decreases |s|
  {
    var cs := Chunks(s, n);
    if |s| <= n {
      assert cs[..k + 1] == [s];
      assert Flatten([s]) == s + Flatten([s][1..]);
    } else if k == 0 {
      assert cs[..1] == [s[..n]];
      assert Flatten([s[..n]]) == s[..n] + Flatten([s[..n]][1..]);
    } else {
      var rest := Chunks(s[n..], n);
      ChunkPrefixLength(s[n..], n, k - 1);
      assert cs[..k + 1][1..] == rest[..k];
      assert n * (k + 1) == n + n * k;
    }
  }

  /** The last chunk brings the count to the whole input. */
  lemma ChunksEndAtTotal(s: seq<nat>, n: nat)
    requires n >= 1 && |s| > 0
    ensures |Chunks(s, n)| > 0
    ensures |Flatten(Chunks(s, n)[..|Chunks(s, n)|])| == |s|
  {
    ChunksSpec(s, n);
    var cs := Chunks(s, n);
    assert cs[..|cs|] == cs;
  }

  /** `extract_frames_to_memory_batch`: every frame of the chunk decoded, in
      order, or nothing if any frame fails. */
  function DecodeAll(chunk: seq<nat>, decode: nat -> Option<Image>): (r: Option<seq<Image>>)
    ensures r.Some? <==> forall i :: 0 <= i < |chunk| ==> decode(chunk[i]).Some?
    ensures r.Some? ==> (|r.value| == |chunk| &&
      forall i :: 0 <= i < |chunk| ==> decode(chunk[i]) == Some(r.value[i]))
  {
    if |chunk| == 0 then Some([])
    else match decode(chunk[0])
      case None => None
      case Some(img) =>
        match DecodeAll(chunk[1..], decode)
        case None =>
          assert forall i :: 1 <= i < |chunk| ==> chunk[1..][i - 1] == chunk[i];
          None
        case Some(rest) =>
          assert forall i :: 1 <= i < |chunk| ==> chunk[1..][i - 1] == chunk[i];
          Some([img] + rest)
  }

  /** The GPU score of a frame, falling back to the CPU score when the GPU errs. */
  function GpuFrameScore(img: Image, mapOk: Image -> bool): real {
    match GpuSharpness.CalculateSharpness(img, mapOk)
    case Ok(v) => v
    case Err(_) => Sharpness.LaplacianVariance(img)
  }

  function ScoreBatchGpu(chunk: seq<nat>, images: seq<Image>, mapOk: Image -> bool): (r: seq<FrameData>)
    requires |images| == |chunk|
    ensures |r| == |chunk|
  {
    seq(|chunk|, i requires 0 <= i < |chunk| => FrameData(chunk[i], GpuFrameScore(images[i], mapOk)))
  }

  /** What the GPU path records for a frame that decoded. */
  function GpuFrame(f: nat, decode: nat -> Option<Image>, mapOk: Image -> bool): FrameData
    requires decode(f).Some?
  {
    FrameData(f, GpuFrameScore(decode(f).value, mapOk))
  }

  datatype GpuRun = GpuRun(frames: seq<FrameData>, progress: seq<nat>)

  /** The chunk loop: decode a chunk, score it, append, report the running
      count; a chunk that fails to decode aborts with its position. */
  function GpuPass(chunks: seq<seq<nat>>, done: nat, decode: nat -> Option<Image>, mapOk: Image -> bool)
    : Result<GpuRun, nat>
  {
    if |chunks| == 0 then Ok(GpuRun([], []))
    else match DecodeAll(chunks[0], decode)
      case None => Err(0)
      case Some(images) =>
        var batch := ScoreBatchGpu(chunks[0], images, mapOk);
        var current := done + |batch|;
        match GpuPass(chunks[1..], current, decode, mapOk)
        case Err(k) => Err(k + 1)
        case Ok(run) => Ok(GpuRun(batch + run.frames, [current] + run.progress))
  }

  ghost predicate AllDecode(frames: seq<nat>, decode: nat -> Option<Image>) {
    forall f :: f in frames ==> decode(f).Some?
  }

  /** The chunk loop succeeds exactly when every frame decodes; it then keeps
      one result per frame in order and reports the running count after each chunk. */
  lemma {:induction false} GpuPassSpec(chunks: seq<seq<nat>>, done: nat, decode: nat -> Option<Image>, mapOk: Image -> bool)
    ensures GpuPass(chunks, done, decode, mapOk).Ok? <==> AllDecode(Flatten(chunks), decode)
    ensures GpuPass(chunks, done, decode, mapOk).Ok? ==>
      |GpuPass(chunks, done, decode, mapOk).value.frames| == |Flatten(chunks)| &&
      forall i :: 0 <= i < |Flatten(chunks)| ==>
        decode(Flatten(chunks)[i]).Some? &&
        GpuPass(chunks, done, decode, mapOk).value.frames[i] == GpuFrame(Flatten(chunks)[i], decode, mapOk)
    ensures GpuPass(chunks, done, decode, mapOk).Ok? ==>
      |GpuPass(chunks, done, decode, mapOk).value.progress| == |chunks| &&
      forall k :: 0 <= k < |chunks| ==>
        GpuPass(chunks, done, decode, mapOk).value.progress[k] == done + |Flatten(chunks[..k + 1])|
  {
    GpuPassSucceeds(chunks, done, decode, mapOk);
    GpuPassFrames(chunks, done, decode, mapOk);
    GpuPassProgress(chunks, done, decode, mapOk);
  }

  /** Success of the chunk loop: no chunk holds a frame that fails to decode. */
  lemma {:induction false} GpuPassSucceeds(chunks: seq<seq<nat>>, done: nat, decode: nat -> Option<Image>,
                                           mapOk: Image -> bool)
    ensures GpuPass(chunks, done, decode, mapOk).Ok? <==> AllDecode(Flatten(chunks), decode)
  {
    if |chunks| > 0 {
      var c := chunks[0];
      var rest := Flatten(chunks[1..]);
      assert Flatten(chunks) == c + rest;
      AllDecodeConcat(c, rest, decode);
      match DecodeAll(c, decode)
      case None =>
        var i :| 0 <= i < |c| && decode(c[i]).None?;
        assert (c + rest)[i] == c[i];
      case Some(images) =>
        GpuPassSucceeds(chunks[1..], done + |c|, decode, mapOk);
    }
  }

  /** The frames of a successful pass, one per frame number in order. */
  lemma {:induction false} GpuPassFrames(chunks: seq<seq<nat>>, done: nat, decode: nat -> Option<Image>,
                                         mapOk: Image -> bool)
    ensures GpuPass(chunks, done, decode, mapOk).Ok? ==>
      |GpuPass(chunks, done, decode, mapOk).value.frames| == |Flatten(chunks)| &&
      forall i :: 0 <= i < |Flatten(chunks)| ==>
        decode(Flatten(chunks)[i]).Some? &&
        GpuPass(chunks, done, decode, mapOk).value.frames[i] == GpuFrame(Flatten(chunks)[i], decode, mapOk)
  {
    if |chunks| > 0 && GpuPass(chunks, done, decode, mapOk).Ok? {
      var c := chunks[0];
      var images := DecodeAll(c, decode).value;
      var current := done + |c|;
      GpuPassFrames(chunks[1..], current, decode, mapOk);
      var run := GpuPass(chunks[1..], current, decode, mapOk).value;
      assert GpuPass(chunks, done, decode, mapOk).value.frames == ScoreBatchGpu(c, images, mapOk) + run.frames;
      assert Flatten(chunks) == c + Flatten(chunks[1..]);
      GpuFramesConcat(c, images, Flatten(chunks[1..]), run.frames, decode, mapOk);
    }
  }

  /** The running counts of a successful pass. */
  lemma {:induction false} GpuPassProgress(chunks: seq<seq<nat>>, done: nat, decode: nat -> Option<Image>,
                                           mapOk: Image -> bool)
    ensures GpuPass(chunks, done, decode, mapOk).Ok? ==>
      |GpuPass(chunks, done, decode, mapOk).value.progress| == |chunks| &&
      forall k :: 0 <= k < |chunks| ==>
        GpuPass(chunks, done, decode, mapOk).value.progress[k] == done + |Flatten(chunks[..k + 1])|
  {
    if |chunks| > 0 && GpuPass(chunks, done, decode, mapOk).Ok? {
      var current := done + |chunks[0]|;
      GpuPassProgress(chunks[1..], current, decode, mapOk);
      var run := GpuPass(chunks[1..], current, decode, mapOk).value;
      assert GpuPass(chunks, done, decode, mapOk).value.progress == [current] + run.progress;
      ProgressConcat(chunks, done, run.progress, [current] + run.progress);
    }
  }

  /** A concatenation decodes exactly when both of its parts do. */
  lemma AllDecodeConcat(c: seq<nat>, rest: seq<nat>, decode: nat -> Option<Image>)
    ensures AllDecode(c + rest, decode) <==> AllDecode(c, decode) && AllDecode(rest, decode)
    ensures DecodeAll(c, decode).Some? ==> AllDecode(c, decode)
  {
    if DecodeAll(c, decode).Some? {
      forall f | f in c ensures decode(f).Some? {
        var i :| 0 <= i < |c| && c[i] == f;
      }
    }
  }

  /** The frames of one decoded chunk followed by those of the later chunks. */
  lemma GpuFramesConcat(c: seq<nat>, images: seq<Image>, rest: seq<nat>, later: seq<FrameData>,
                        decode: nat -> Option<Image>, mapOk: Image -> bool)
    requires DecodeAll(c, decode) == Some(images)
    requires |later| == |rest|
    requires forall i :: 0 <= i < |rest| ==> decode(rest[i]).Some? && later[i] == GpuFrame(rest[i], decode, mapOk)
    ensures |ScoreBatchGpu(c, images, mapOk) + later| == |c + rest|
    ensures forall i :: 0 <= i < |c + rest| ==>
      decode((c + rest)[i]).Some? && (ScoreBatchGpu(c, images, mapOk) + later)[i] == GpuFrame((c + rest)[i], decode, mapOk)
  {
    var batch := ScoreBatchGpu(c, images, mapOk);
    forall i | 0 <= i < |c + rest|
      ensures decode((c + rest)[i]).Some? && (batch + later)[i] == GpuFrame((c + rest)[i], decode, mapOk)
    {
      if i < |c| {
        assert (c + rest)[i] == c[i];
        assert (batch + later)[i] == batch[i];
      } else {
        assert (c + rest)[i] == rest[i - |c|];
        assert (batch + later)[i] == later[i - |c|];
      }
    }
  }

  /** The running count after chunk k is `done` plus the frames of chunks 0..k. */
  lemma ProgressConcat(chunks: seq<seq<nat>>, done: nat, later: seq<nat>, progress: seq<nat>)
    requires |chunks| > 0
    requires |later| == |chunks| - 1
    requires forall k :: 0 <= k < |chunks| - 1 ==>
      later[k] == done + |chunks[0]| + |Flatten(chunks[1..][..k + 1])|
    requires progress == [done + |chunks[0]|] + later
    ensures forall k :: 0 <= k < |chunks| ==> progress[k] == done + |Flatten(chunks[..k + 1])|
  {
    forall k | 0 <= k < |chunks|
      ensures progress[k] == done + |Flatten(chunks[..k + 1])|
    {
      assert Flatten(chunks[..k + 1]) == chunks[0] + Flatten(chunks[..k + 1][1..]);
      if k > 0 {
        assert chunks[..k + 1][1..] == chunks[1..][..k];
      } else {
        assert chunks[..1][1..] == [];
      }
    }
  }

  // ---------------------------------------------------------------------
  // analyze_video
  // ---------------------------------------------------------------------

  /** `analyze_video`. `probe` is its own `get_video_info` call, which supplies
      the reported `video_info`; `sampleProbe` is the second `get_video_info`
      made inside `sample_frames`, whose frame total decides the sampled frames. */
  function AnalyzeVideo(probe: Result<Video.VideoInfo, string>, sampleProbe: Result<Video.VideoInfo, string>,
                        rate: nat, useGpu: bool, gpuOk: bool,
                        decode: nat -> Option<Image>, mapOk: Image -> bool, sqrt: real -> real)
    : Result<Analysis, AnalyzeError>
  {
    match probe
    case Err(msg) => Err(ProbeFailed(msg))
    case Ok(info) =>
      match sampleProbe
      case Err(msg) => Err(ProbeFailed(msg))
      case Ok(sampled) =>
        if rate == 0 then Err(ZeroSampleRate)
        else
          var numbers := Video.SampleFrames(sampled.totalFrames, rate);
          if useGpu then
            if !gpuOk then Err(GpuInitFailed)
            else match GpuPass(Chunks(numbers, BatchSize), 0, decode, mapOk)
              case Err(k) => Err(BatchExtractionFailed(k))
              case Ok(run) => Ok(Analysis(Summarize(info, run.frames, sqrt), [0] + run.progress))
          else
            Ok(Analysis(Summarize(info, ScoreFramesCpu(numbers, decode), sqrt), CpuProgress(|numbers|)))
  }

  /** The ways analysis fails, in the order the source checks them: either
      probe failing, then a zero sample rate, then GPU initialisation; the CPU
      path cannot fail once both probes succeed. */
  lemma AnalyzeVideoErrors(probe: Result<Video.VideoInfo, string>, sampleProbe: Result<Video.VideoInfo, string>,
                           rate: nat, useGpu: bool, gpuOk: bool,
                           decode: nat -> Option<Image>, mapOk: Image -> bool, sqrt: real -> real)
    ensures probe.Err? ==>
      AnalyzeVideo(probe, sampleProbe, rate, useGpu, gpuOk, decode, mapOk, sqrt) == Err(ProbeFailed(probe.error))
    ensures probe.Ok? && sampleProbe.Err? ==>
      AnalyzeVideo(probe, sampleProbe, rate, useGpu, gpuOk, decode, mapOk, sqrt) == Err(ProbeFailed(sampleProbe.error))
    ensures probe.Ok? && sampleProbe.Ok? && rate == 0 ==>
      AnalyzeVideo(probe, sampleProbe, rate, useGpu, gpuOk, decode, mapOk, sqrt) == Err(ZeroSampleRate)
    ensures probe.Ok? && sampleProbe.Ok? && rate >= 1 && useGpu && !gpuOk ==>
      AnalyzeVideo(probe, sampleProbe, rate, useGpu, gpuOk, decode, mapOk, sqrt) == Err(GpuInitFailed)
    ensures probe.Ok? && sampleProbe.Ok? && rate >= 1 && !useGpu ==>
      AnalyzeVideo(probe, sampleProbe, rate, useGpu, gpuOk, decode, mapOk, sqrt).Ok?
    ensures AnalyzeVideo(probe, sampleProbe, rate, useGpu, gpuOk, decode, mapOk, sqrt).Ok? ==>
      probe.Ok? && sampleProbe.Ok? &&
      AnalyzeVideo(probe, sampleProbe, rate, useGpu, gpuOk, decode, mapOk, sqrt).value.result.info == probe.value
  {
  }

  /** CPU path: one result per sampled frame in sampled order, progress 1..n. */
  lemma AnalyzeCpuSpec(probe: Result<Video.VideoInfo, string>, sampleProbe: Result<Video.VideoInfo, string>,
                       rate: nat, decode: nat -> Option<Image>,
                       mapOk: Image -> bool, sqrt: real -> real)
    requires probe.Ok? && sampleProbe.Ok? && rate >= 1
    ensures AnalyzeVideo(probe, sampleProbe, rate, false, false, decode, mapOk, sqrt).Ok?
    ensures FrameNumbers(AnalyzeVideo(probe, sampleProbe, rate, false, false, decode, mapOk, sqrt).value.result.frames)
         == Video.SampleFrames(sampleProbe.value.totalFrames, rate)
    ensures forall i :: 0 <= i < |AnalyzeVideo(probe, sampleProbe, rate, false, false, decode, mapOk, sqrt).value.result.frames| ==>
      AnalyzeVideo(probe, sampleProbe, rate, false, false, decode, mapOk, sqrt).value.result.frames[i]
        == CpuFrame(Video.SampleFrames(sampleProbe.value.totalFrames, rate)[i], decode)
    ensures AnalyzeVideo(probe, sampleProbe, rate, false, false, decode, mapOk, sqrt).value.progress
         == CpuProgress(|Video.SampleFrames(sampleProbe.value.totalFrames, rate)|)
  {
    ScoreFramesCpuSpec(Video.SampleFrames(sampleProbe.value.totalFrames, rate), decode);
  }

  /** GPU path: it succeeds exactly when every sampled frame decodes, keeps one
      result per sampled frame in order, and reports 0 and then the running
      count after each chunk of 50, ending at the number of sampled frames. */
  lemma AnalyzeGpuSpec(probe: Result<Video.VideoInfo, string>, sampleProbe: Result<Video.VideoInfo, string>,
                       rate: nat, decode: nat -> Option<Image>,
                       mapOk: Image -> bool, sqrt: real -> real)
    requires probe.Ok? && sampleProbe.Ok? && rate >= 1
    ensures AnalyzeVideo(probe, sampleProbe, rate, true, true, decode, mapOk, sqrt).Ok? <==>
      AllDecode(Video.SampleFrames(sampleProbe.value.totalFrames, rate), decode)
    ensures AnalyzeVideo(probe, sampleProbe, rate, true, true, decode, mapOk, sqrt).Ok? ==>
      GpuRunFaithful(Video.SampleFrames(sampleProbe.value.totalFrames, rate), decode, mapOk,
                     AnalyzeVideo(probe, sampleProbe, rate, true, true, decode, mapOk, sqrt).value)
  {
    var numbers := Video.SampleFrames(sampleProbe.value.totalFrames, rate);
    var chunks := Chunks(numbers, BatchSize);
    ChunksSpec(numbers, BatchSize);
    GpuPassSpec(chunks, 0, decode, mapOk);
    if AnalyzeVideo(probe, sampleProbe, rate, true, true, decode, mapOk, sqrt).Ok? {
      var run := GpuPass(chunks, 0, decode, mapOk).value;
      assert AnalyzeVideo(probe, sampleProbe, rate, true, true, decode, mapOk, sqrt).value
          == Analysis(Summarize(probe.value, run.frames, sqrt), [0] + run.progress);
      GpuProgressShape(numbers, run.progress);
    }
  }

  /** The reported counts after each chunk are 50, 100, …, ending at the total. */
  lemma GpuProgressShape(numbers: seq<nat>, progress: seq<nat>)
    requires |progress| == |Chunks(numbers, BatchSize)|
    requires forall k :: 0 <= k < |progress| ==>
      progress[k] == 0 + |Flatten(Chunks(numbers, BatchSize)[..k + 1])|
    ensures forall k :: 1 <= k < |[0] + progress| ==> ([0] + progress)[k] == Min(BatchSize * k, |numbers|)
    ensures ([0] + progress)[|progress|] == |numbers|
  {
    var p := [0] + progress;
    forall k | 1 <= k < |p| ensures p[k] == Min(BatchSize * k, |numbers|) {
      ChunkPrefixLength(numbers, BatchSize, k - 1);
    }
    if |numbers| > 0 {
      ChunksEndAtTotal(numbers, BatchSize);
    } else {
      assert Chunks(numbers, BatchSize) == [];
    }
  }

  /** The facts `AnalyzeGpuSpec` establishes about a successful GPU analysis. */
  ghost predicate GpuRunFaithful(numbers: seq<nat>, decode: nat -> Option<Image>, mapOk: Image -> bool, a: Analysis) {
    && FrameNumbers(a.result.frames) == numbers
    && (forall i :: 0 <= i < |numbers| ==>
          decode(numbers[i]).Some? && a.result.frames[i] == GpuFrame(numbers[i], decode, mapOk))
    && |a.progress| >= 1 && a.progress[0] == 0
    && (forall k :: 1 <= k < |a.progress| ==> a.progress[k] == Min(BatchSize * k, |numbers|))
    && a.progress[|a.progress| - 1] == |numbers|
  }

  // ---------------------------------------------------------------------
  // export_frames
  // ---------------------------------------------------------------------

  /** The export threshold: the caller's, or else the suggested one. */
  function ExportThreshold(analysis: AnalysisResult, options: ExportOptions): real {
    options.threshold.GetOr(analysis.suggestedThreshold)
  }

  function PairScore(p: (nat, real)): real { p.1 }

  function PairIndex(p: (nat, real)): int { p.0 }

  ghost predicate IndicesBelow(idx: seq<nat>, n: nat) {
    forall k :: 0 <= k < |idx| ==> idx[k] < n
  }

  function IndexedScores(selected: seq<nat>, scores: seq<real>): (r: seq<(nat, real)>)
    requires IndicesBelow(selected, |scores|)
    ensures |r| == |selected|
    ensures forall k :: 0 <= k < |r| ==> r[k] == (selected[k], scores[selected[k]])
  {
    seq(|selected|, k requires 0 <= k < |selected| => (selected[k], scores[selected[k]]))
  }

  function Indices(ps: seq<(nat, real)>): (r: seq<nat>)
    ensures |r| == |ps|
    ensures forall k :: 0 <= k < |ps| ==> r[k] == ps[k].0
  {
    seq(|ps|, k requires 0 <= k < |ps| => ps[k].0)
  }

  /** The pairs sorted by descending score (stable), then cut to `m`. */
  function TopPairs(selected: seq<nat>, scores: seq<real>, m: nat): (r: seq<(nat, real)>)
    requires IndicesBelow(selected, |scores|)
    ensures |r| == Min(m, |selected|)
  {
    var sorted := SortDesc(IndexedScores(selected, scores), PairScore);
    sorted[..Min(m, |sorted|)]
  }

  lemma TopPairsFromSelection(selected: seq<nat>, scores: seq<real>, m: nat, k: nat)
    requires IndicesBelow(selected, |scores|)
    requires k < |TopPairs(selected, scores, m)|
    ensures TopPairs(selected, scores, m)[k].0 in selected
    ensures TopPairs(selected, scores, m)[k].1 == scores[TopPairs(selected, scores, m)[k].0]
  {
    var ps := IndexedScores(selected, scores);
    var sorted := SortDesc(ps, PairScore);
    var p := sorted[k];
    assert p in multiset(sorted);
    assert p in multiset(ps);
    var j :| 0 <= j < |ps| && ps[j] == p;
  }

  /** The `max_frames` cap: with no cap the selection passes through; with a
      cap the best `m` selected indices remain, best first. */
  function CapMaxFrames(selected: seq<nat>, scores: seq<real>, maxFrames: Option<nat>): (r: seq<nat>)
    requires IndicesBelow(selected, |scores|)
    ensures maxFrames.None? ==> r == selected
    ensures maxFrames.Some? ==> |r| == Min(maxFrames.value, |selected|)
    ensures forall k :: 0 <= k < |r| ==> r[k] in selected
    ensures IndicesBelow(r, |scores|)
  {
    match maxFrames
    case None => selected
    case Some(m) =>
      var top := TopPairs(selected, scores, m);
      var r := Indices(top);
      assert forall k :: 0 <= k < |r| ==> r[k] in selected by {
        forall k | 0 <= k < |r| ensures r[k] in selected {
          TopPairsFromSelection(selected, scores, m, k);
        }
      }
      r
  }

  /** The capped list runs from highest to lowest score, equal scores by
      ascending index (the sort is stable and the selection increases), so it
      holds no duplicates and is not in index order in general. */
  lemma CapOrderedByScore(selected: seq<nat>, scores: seq<real>, m: nat)
    requires IndicesBelow(selected, |scores|)
    requires StrictlyIncreasing(selected)
    ensures forall i, j :: 0 <= i < j < |CapMaxFrames(selected, scores, Some(m))| ==>
      var r := CapMaxFrames(selected, scores, Some(m));
      scores[r[i]] > scores[r[j]] || (scores[r[i]] == scores[r[j]] && r[i] < r[j])
    ensures NoDuplicates(CapMaxFrames(selected, scores, Some(m)))
  {
    var ps := IndexedScores(selected, scores);
    var sorted := SortDesc(ps, PairScore);
    SortDescStable(ps, PairScore, PairIndex);
    var r := CapMaxFrames(selected, scores, Some(m));
    var top := TopPairs(selected, scores, m);
    forall i, j | 0 <= i < j < |r|
      ensures scores[r[i]] > scores[r[j]] || (scores[r[i]] == scores[r[j]] && r[i] < r[j])
    {
      TopPairsFromSelection(selected, scores, m, i);
      TopPairsFromSelection(selected, scores, m, j);
      assert top[i] == sorted[i] && top[j] == sorted[j];
      assert PairScore(sorted[i]) > PairScore(sorted[j]) ||
        (PairScore(sorted[i]) == PairScore(sorted[j]) && PairIndex(sorted[i]) < PairIndex(sorted[j]));
    }
  }

  /** A kept index is read off the sorted pairs at its own position. */
  lemma CapAt(selected: seq<nat>, scores: seq<real>, m: nat, k: nat)
    requires IndicesBelow(selected, |scores|)
    requires k < |CapMaxFrames(selected, scores, Some(m))|
    ensures k < |SortDesc(IndexedScores(selected, scores), PairScore)|
    ensures CapMaxFrames(selected, scores, Some(m))[k] == SortDesc(IndexedScores(selected, scores), PairScore)[k].0
    ensures scores[CapMaxFrames(selected, scores, Some(m))[k]] ==
      SortDesc(IndexedScores(selected, scores), PairScore)[k].1
  {
    TopPairsFromSelection(selected, scores, m, k);
  }

  /** A dropped selected index sits in the sorted pairs past the cut. */
  lemma DroppedPastCut(selected: seq<nat>, scores: seq<real>, m: nat, s: nat) returns (p: nat)
    requires IndicesBelow(selected, |scores|)
    requires s in selected && s !in CapMaxFrames(selected, scores, Some(m))
    ensures |CapMaxFrames(selected, scores, Some(m))| <= p < |SortDesc(IndexedScores(selected, scores), PairScore)|
    ensures SortDesc(IndexedScores(selected, scores), PairScore)[p] == (s, scores[s])
  {
    var ps := IndexedScores(selected, scores);
    var sorted := SortDesc(ps, PairScore);
    var j :| 0 <= j < |selected| && selected[j] == s;
    assert ps[j] in multiset(sorted);
    p :| 0 <= p < |sorted| && sorted[p] == ps[j];
    if p < |CapMaxFrames(selected, scores, Some(m))| {
      CapAt(selected, scores, m, p);
      assert false;
    }
  }

  /** The cap keeps the best scores: no dropped selected index outscores a kept
      one, and on a tie at the cut the lower index is the one kept (the sort is
      stable and the selection increases). */
  lemma CapKeepsTopScores(selected: seq<nat>, scores: seq<real>, m: nat, s: nat, k: nat)
    requires IndicesBelow(selected, |scores|)
    requires StrictlyIncreasing(selected)
    requires s in selected && s !in CapMaxFrames(selected, scores, Some(m))
    requires k < |CapMaxFrames(selected, scores, Some(m))|
    ensures scores[s] < scores[CapMaxFrames(selected, scores, Some(m))[k]] ||
      (scores[s] == scores[CapMaxFrames(selected, scores, Some(m))[k]] &&
       CapMaxFrames(selected, scores, Some(m))[k] < s)
  {
    var sorted := SortDesc(IndexedScores(selected, scores), PairScore);
    SortDescStable(IndexedScores(selected, scores), PairScore, PairIndex);
    var p := DroppedPastCut(selected, scores, m, s);
    CapAt(selected, scores, m, k);
    assert PairScore(sorted[k]) > PairScore(sorted[p]) ||
      (PairScore(sorted[k]) == PairScore(sorted[p]) && PairIndex(sorted[k]) < PairIndex(sorted[p]));
  }

  /** A cap of zero exports nothing. */
  lemma CapZero(selected: seq<nat>, scores: seq<real>)
    requires IndicesBelow(selected, |scores|)
    ensures CapMaxFrames(selected, scores, Some(0)) == []
  {
  }

  /** Maps positions in the analysis to the video's frame numbers. */
  function FrameNumbersOf(frames: seq<FrameData>, idx: seq<nat>): (r: seq<nat>)
    requires IndicesBelow(idx, |frames|)
    ensures |r| == |idx|
  {
    seq(|idx|, k requires 0 <= k < |idx| => frames[idx[k]].frameNumber)
  }

  /** The frames chosen for export: smart selection, then the cap. */
  function ExportSelection(analysis: AnalysisResult, options: ExportOptions): (r: seq<nat>)
    ensures IndicesBelow(r, |analysis.frames|)
  {
    var scores := Scores(analysis.frames);
    var selected := Sharpness.SelectSmart(scores, ExportThreshold(analysis, options), options.minFrameDistance);
    Sharpness.SelectSmartSound(scores, ExportThreshold(analysis, options), options.minFrameDistance);
    CapMaxFrames(selected, scores, options.maxFrames)
  }

  /** `export_frames`: paths of the exported files, in export order. */
  function ExportFrames(analysis: AnalysisResult, options: ExportOptions, dir: string, dirOk: bool,
                        extract: (nat, Video.OutPath) -> bool): Result<seq<Video.OutPath>, Video.ExportError>
  {
    var numbers := FrameNumbersOf(analysis.frames, ExportSelection(analysis, options));
    Video.ExtractFramesBatch(numbers, dir, options.format, dirOk, extract)
  }

  /** Every chosen frame reaches the export threshold (the caller's, or the
      suggested one), and at most `max_frames` are chosen. */
  lemma ExportSelectionSpec(analysis: AnalysisResult, options: ExportOptions)
    ensures forall k :: 0 <= k < |ExportSelection(analysis, options)| ==>
      analysis.frames[ExportSelection(analysis, options)[k]].sharpness >=
        (if options.threshold.Some? then options.threshold.value else analysis.suggestedThreshold)
    ensures options.maxFrames.Some? ==> |ExportSelection(analysis, options)| <= options.maxFrames.value
    ensures options.maxFrames.None? ==>
      ExportSelection(analysis, options) ==
        Sharpness.SelectSmart(Scores(analysis.frames), ExportThreshold(analysis, options), options.minFrameDistance)
  {
    var scores := Scores(analysis.frames);
    var t := ExportThreshold(analysis, options);
    var selected := Sharpness.SelectSmart(scores, t, options.minFrameDistance);
    Sharpness.SelectSmartSound(scores, t, options.minFrameDistance);
    var r := ExportSelection(analysis, options);
    forall k | 0 <= k < |r|
      ensures analysis.frames[r[k]].sharpness >= t
    {
      var j :| 0 <= j < |selected| && selected[j] == r[k];
    }
  }

  /** A successful export writes one file per chosen frame, named after that
      frame's number, in the order of the capped selection. */
  lemma ExportFramesSpec(analysis: AnalysisResult, options: ExportOptions, dir: string, dirOk: bool,
                         extract: (nat, Video.OutPath) -> bool)
    ensures ExportFrames(analysis, options, dir, dirOk, extract).Ok? ==>
      var sel := ExportSelection(analysis, options);
      |ExportFrames(analysis, options, dir, dirOk, extract).value| == |sel| &&
      forall k :: 0 <= k < |sel| ==>
        ExportFrames(analysis, options, dir, dirOk, extract).value[k]
          == Video.OutPath(dir, Video.FileName(analysis.frames[sel[k]].frameNumber, options.format))
    ensures !dirOk ==> ExportFrames(analysis, options, dir, dirOk, extract) == Err(Video.CreateDirFailed)
  {
    var numbers := FrameNumbersOf(analysis.frames, ExportSelection(analysis, options));
    Video.ExtractFramesBatchSpec(numbers, dir, options.format, dirOk, extract);
  }

  /** When the analysed frame numbers are distinct, so are the exported files. */
  lemma ExportPathsDistinct(analysis: AnalysisResult, options: ExportOptions, dir: string, dirOk: bool,
                            extract: (nat, Video.OutPath) -> bool)
    requires NoDuplicates(FrameNumbers(analysis.frames))
    requires ExportFrames(analysis, options, dir, dirOk, extract).Ok?
    ensures NoDuplicates(ExportFrames(analysis, options, dir, dirOk, extract).value)
  {
    var sel := ExportSelection(analysis, options);
    var numbers := FrameNumbersOf(analysis.frames, sel);
    var scores := Scores(analysis.frames);
    var t := ExportThreshold(analysis, options);
    var selected := Sharpness.SelectSmart(scores, t, options.minFrameDistance);
    Sharpness.SelectSmartSound(scores, t, options.minFrameDistance);
    assert NoDuplicates(sel) by {
      match options.maxFrames
      case None =>
      case Some(m) => CapOrderedByScore(selected, scores, m);
    }
    var paths := ExportFrames(analysis, options, dir, dirOk, extract).value;
    Video.ExtractFramesBatchSpec(numbers, dir, options.format, dirOk, extract);
    forall i, j | 0 <= i < j < |paths| ensures paths[i] != paths[j] {
      assert numbers[i] == FrameNumbers(analysis.frames)[sel[i]];
      assert numbers[j] == FrameNumbers(analysis.frames)[sel[j]];
      assert numbers[i] != numbers[j] by {
        if sel[i] < sel[j] {
          assert FrameNumbers(analysis.frames)[sel[i]] != FrameNumbers(analysis.frames)[sel[j]];
        } else {
          assert FrameNumbers(analysis.frames)[sel[j]] != FrameNumbers(analysis.frames)[sel[i]];
        }
      }
      Video.ExportPathsDistinct(numbers, dir, options.format, dirOk, extract, i, j);
    }
  }

  // ---------------------------------------------------------------------
  // calculate_threshold_for_count
  // ---------------------------------------------------------------------

  /** The command never fails; it is the count branch of the automatic threshold. */
  function CalculateThresholdForCount(scores: seq<real>, target: nat): (r: Result<real, string>)
    ensures r.Ok?
    ensures |scores| > 0 ==> r.value in scores
  {
    if |scores| == 0 then Ok(Sharpness.ThresholdForCount(scores, target))
    else
      Sharpness.ThresholdForCountIsOrderStatistic(scores, target);
      Ok(Sharpness.ThresholdForCount(scores, target))
  }

  /** It agrees with `calculate_auto_threshold(scores, Some(target))` whatever
      square root the statistical branch would use, and thresholding at it
      keeps at least min(target + 1, n) frames. */
  lemma ThresholdForCountCommand(scores: seq<real>, target: nat, sqrt: real -> real)
    ensures CalculateThresholdForCount(scores, target).value == Sharpness.AutoThreshold(scores, Some(target), sqrt)
    ensures CountAtLeast(scores, CalculateThresholdForCount(scores, target).value) >= Min(target + 1, |scores|)
  {
    if |scores| > 0 {
      Sharpness.ThresholdForCountIsOrderStatistic(scores, target);
    }
  }
}
