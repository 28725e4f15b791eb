# Sharp Frame Extractor: scoring and selection, modelled in Dafny

Sharp Frame Extractor is a desktop application. It samples frames from a
video, scores each frame's sharpness, suggests a threshold, and exports the
sharpest frames as image files, for example to feed a 3D-reconstruction
pipeline. This project models the Rust back end's pure logic and proves
properties of it:

- **CPU scorer** (`sharpness.rs`):
  - the integer 4-neighbour Laplacian over interior pixels;
  - the population variance of the responses.
- **Automatic threshold** (`sharpness.rs`), with two branches:
  - an order statistic of the descending-sorted scores;
  - mean + ½·standard deviation.
- **Greedy frame selector** `select_frames_smart` (`sharpness.rs`): a
  threshold plus a minimum distance between kept frames.
- **GPU scorer** (`gpu_sharpness.rs`):
  - the WGSL compute shader as a pure per-pixel function;
  - the 16×16 workgroup dispatch;
  - the variance read back from the output buffer;
  - the batch scorer.
- **Video helpers** (`video.rs`):
  - the frame sampler `0, r, 2r, …`;
  - export file names `frame_{:06}.{fmt}`;
  - the ordered, fail-fast export loop;
  - the `r_frame_rate` split rule.
- **Commands** (`commands.rs`):
  - the CPU and GPU analysis paths, with the GPU path's chunks of 50 and its progress counts;
  - the suggested frame count;
  - the export threshold default;
  - the `max_frames` cap;
  - the index → frame-number mapping;
  - `calculate_threshold_for_count`.

Modules, one per source concern:

- `Wrappers`: `Option`, `Result`, `Min`.
- `Seqs`:
  - row-major `Flatten`;
  - threshold counts;
  - the stable descending insertion sort that stands for Rust's `sort_by`.
- `Stats`: sums, mean, population variance, and the variance identities.
- `Image`: the grayscale frame, with pixels `0..255`.
- `Sharpness`, `GpuSharpness`, `Video`, `Commands`: the four source files.

Modelling choices:

- Scores are `real`. Pixels and Laplacian responses are `int`.
- The following are parameters of the model:
  - the two video probes (`analyze_video`'s own `get_video_info` call and the one inside `sample_frames`): each a `Result<VideoInfo, string>`;
  - frame decoding: `nat -> Option<Image>`;
  - whether a GPU context can be created, and whether the GPU read-back succeeds;
  - whether ffmpeg can write a frame to a path;
  - `str::parse::<f64>`;
  - the floating square root.

The model follows the Rust code as it stands. Six of its behaviours are easy
to expect otherwise, so they are stated here as facts about the code:

- There is no time-range sampling.
- Zero sampled frames is not an error: the analysis is then empty.
- A frame that fails to decode on the CPU path scores 0.0 and does not abort the analysis.
- A minimum distance of 0 is accepted and behaves like 1.
- After the `max_frames` cap, the selection stays in descending-score order. Index order is not restored.
- Export stops at the first frame that fails to extract, rather than recording the failure and going on.

## Model

| member | source | states |
|---|---|---|
| `Stats.Variance` | src-tauri/src/sharpness.rs:127-139 | the population variance is never negative and is 0 for an empty list |
| `Stats.VarianceNumeratorNonNeg` | src-tauri/src/sharpness.rs:132-137 | without division: n·Σx² − (Σx)² ≥ 0 for every list of responses |
| `Stats.VarianceScaled` | src-tauri/src/sharpness.rs:132-137 | mean-then-squared-deviation equals the textbook formula: n²·Var = n·Σx² − (Σx)² |
| `Stats.VarianceOfConstant` | src-tauri/src/sharpness.rs:132-139 | a list of equal values has variance exactly 0 |
| `Seqs.SortDesc` | src-tauri/src/sharpness.rs:152-153 | the descending sort returns a permutation of its input (same multiset, same length) |
| `Seqs.SortDescSorted` | src-tauri/src/sharpness.rs:152-153 | the descending sort yields a sequence whose keys are non-increasing |
| `Seqs.SortDescStable` | src-tauri/src/commands.rs:231 | the sort is stable: equal scores keep their input order, so an index-ordered input comes out ordered by (score desc, index asc) |
| `Seqs.SortPreservesCounts` | src-tauri/src/sharpness.rs:152-153 | sorting does not change how many scores reach or exceed a threshold |
| `Seqs.CountAtLeastBounded` | src-tauri/src/commands.rs:122-125 | the count of scores ≥ t is at most the number of scores, and equals it exactly when all reach t |
| `Image.Abs` | sharp-frame-extractor/src-tauri/src/gpu_sharpness.rs:46-48 | `abs` returns the value or its negation, never negative |
| `Sharpness.LaplacianVariance` | src-tauri/src/sharpness.rs:101-140 | the CPU score is non-negative and is 0 for frames narrower or shorter than 3 pixels |
| `Sharpness.InteriorResponsesCount` | src-tauri/src/sharpness.rs:108-125 | exactly (w−2)·(h−2) responses are collected |
| `Sharpness.InteriorResponsesLayout` | src-tauri/src/sharpness.rs:114-123 | the response of interior pixel (x, y) is top+bottom+left+right−4·center, stored at position (y−1)(w−2)+(x−1) |
| `Sharpness.CpuResponseIsKernel4` | src-tauri/src/sharpness.rs:110-122 | the CPU response is the 4-neighbour Laplacian kernel applied at the pixel |
| `Sharpness.LaplacianVarianceNumerator` | src-tauri/src/sharpness.rs:127-139 | with n responses, n²·score = n·Σx² − (Σx)², so the score's sign follows from a division-free identity |
| `Sharpness.ConstantImageScoresZero` | src-tauri/src/sharpness.rs:203-209 | a flat frame (all pixels equal, e.g. the blank test image) scores exactly 0 |
| `Sharpness.AutoThreshold` | src-tauri/src/sharpness.rs:145-157 | no scores gives 0; with a target count the threshold is one of the scores |
| `Sharpness.ThresholdForCountIsOrderStatistic` | src-tauri/src/sharpness.rs:150-156 | the count threshold is a score; at most min(count, n−1) scores exceed it and at least min(count, n−1)+1 reach it, one more than `count` when count < n |
| `Sharpness.ThresholdForCountMonotone` | src-tauri/src/sharpness.rs:150-156 | asking for more frames never raises the threshold |
| `Sharpness.StatisticalThresholdAboveMean` | src-tauri/src/sharpness.rs:159-169 | for a non-negative square root, mean + ½·sd is at least the mean, and positive when all scores are (the unit test's claim) |
| `Sharpness.SelectSmartSound` | src-tauri/src/sharpness.rs:182-194 | selected indices are in range, have score ≥ threshold, strictly increase, and consecutive ones are at least `min_frame_distance` apart |
| `Sharpness.SelectSmartMaximal` | src-tauri/src/sharpness.rs:185-189 | a qualifying index that was skipped lies fewer than `min_frame_distance` after some kept index |
| `Sharpness.SelectSmartCharacterized` | src-tauri/src/sharpness.rs:179-196 | an index is selected iff it qualifies and lies at least `min_frame_distance` past every kept index before it |
| `Sharpness.SelectSmartKeepsFirst` | src-tauri/src/sharpness.rs:183-192 | the first qualifying index is always selected first |
| `Sharpness.SelectSmartNoDistance` | src-tauri/src/sharpness.rs:183-187 | with `min_frame_distance` ≤ 1 the result is exactly the qualifying indices in order |
| `Sharpness.SelectFramesSmart` | src-tauri/src/sharpness.rs:174-197 | the imperative scan computes the greedy selection, with the soundness and spacing guarantees |
| `GpuSharpness.WorkgroupCount` | sharp-frame-extractor/src-tauri/src/gpu_sharpness.rs:250-252 | `(n+15)/16` workgroups of 16 cover n pixels with fewer than 16 surplus invocations |
| `GpuSharpness.ShaderIsZeroPadded` | sharp-frame-extractor/src-tauri/src/gpu_sharpness.rs:30-48 | missing neighbours contribute 0: the shader stores abs(Laplacian) of the zero-extended frame |
| `GpuSharpness.ShaderMatchesCpuInterior` | sharp-frame-extractor/src-tauri/src/gpu_sharpness.rs:27-48 | at interior pixels the GPU stores the absolute value of the CPU response |
| `GpuSharpness.SurplusInvocationsIdle` | sharp-frame-extractor/src-tauri/src/gpu_sharpness.rs:22-25 | invocations with x ≥ w or y ≥ h write nothing |
| `GpuSharpness.DispatchCoversPixel` | sharp-frame-extractor/src-tauri/src/gpu_sharpness.rs:18-48 | each pixel is reached by the dispatch and writes slot y·w+x < w·h, which holds its value afterwards |
| `GpuSharpness.WriteIndexUnique` | sharp-frame-extractor/src-tauri/src/gpu_sharpness.rs:47 | distinct pixels write distinct slots |
| `GpuSharpness.EverySlotWritten` | sharp-frame-extractor/src-tauri/src/gpu_sharpness.rs:199-203 | every slot of the w·h buffer is written by some in-range pixel |
| `GpuSharpness.Normalized` | sharp-frame-extractor/src-tauri/src/gpu_sharpness.rs:157-162 | the texture holds p/255, so each stored value times 255 is the integer response |
| `GpuSharpness.CalculateSharpness` | sharp-frame-extractor/src-tauri/src/gpu_sharpness.rs:152-302 | the GPU score succeeds iff the frame is non-empty and the read-back maps, and is then non-negative |
| `GpuSharpness.GpuScoreScaled` | sharp-frame-extractor/src-tauri/src/gpu_sharpness.rs:285-295 | n²·score = n·Σv² − (Σv)² over the stored values |
| `GpuSharpness.GpuScoreCountsEveryPixel` | sharp-frame-extractor/src-tauri/src/gpu_sharpness.rs:281-287 | the variance runs over all w·h values, border pixels included |
| `GpuSharpness.BufferLength` | sharp-frame-extractor/src-tauri/src/gpu_sharpness.rs:200 | the output buffer holds w·h values |
| `GpuSharpness.ScoreEach` | sharp-frame-extractor/src-tauri/src/gpu_sharpness.rs:315-319 | all images scored in order iff each scores; otherwise the error is that of the first failing image |
| `GpuSharpness.CalculateSharpnessBatchGpu` | sharp-frame-extractor/src-tauri/src/gpu_sharpness.rs:313-322 | no GPU context gives an error; otherwise one score per image in input order, and any image's failure fails the batch |
| `Video.StepFromShape` | src-tauri/src/video.rs:202 | the k-th element of `(start..total).step_by(r)` is start + k·r < total, and the walk stops at the first step reaching total |
| `Video.SampleFramesSpec` | src-tauri/src/video.rs:197-207 | `sample_frames` yields ⌈total/r⌉ numbers, the k-th being k·r < total; none for total = 0 |
| `Video.SampleFramesIncreasing` | src-tauri/src/video.rs:201-204 | sampled frame numbers strictly increase |
| `Video.SampleFramesMembership` | src-tauri/src/video.rs:202-204 | a frame is sampled iff it is a multiple of r below total |
| `Video.DecimalValue` | src-tauri/src/video.rs:188 | the decimal numeral of n reads back as n |
| `Video.PaddedNumeral` | src-tauri/src/video.rs:188 | the `{:06}` field is all digits, at least 6 wide (exactly 6 below one million), and reads back as the frame number |
| `Video.FileNameInjective` | src-tauri/src/video.rs:188 | `frame_{:06}.{fmt}` names differ for different frame numbers or formats |
| `Video.ExtractEachSpec` | src-tauri/src/video.rs:186-193 | the loop succeeds iff every frame extracts; then one path per frame in request order; else the error names the first failing position, every earlier frame extracted |
| `Video.ExtractFramesBatchSpec` | src-tauri/src/video.rs:176-194 | `extract_frames_batch` succeeds iff the directory is created and every frame extracts; its paths are `dir/frame_{:06}.{fmt}` in request order |
| `Video.ExportPathsDistinct` | src-tauri/src/video.rs:187-191 | frames with different numbers are written to different paths |
| `Video.SplitSpec` | src-tauri/src/video.rs:54 | splitting on '/' loses nothing: the pieces join back to the input, hold no '/', and number one more than the '/'s |
| `Video.ParseFrameRateSpec` | src-tauri/src/video.rs:52-61 | exactly one '/' gives num/den (failing if either side does not parse); any other count falls back to 30 fps |
| `Commands.SummarizeSpec` | src-tauri/src/commands.rs:179-187 | the suggested threshold is the statistical one and the suggested count is the size of the set of frame positions whose score reaches it, at most the number of frames |
| `Seqs.CountAtLeastIsCardinality` | src-tauri/src/commands.rs:184-187 | the recursive count of scores `>= t` equals the number of positions whose score is `>= t` |
| `Commands.ScoreFramesCpuSpec` | src-tauri/src/commands.rs:136-156 | one result per sampled frame in sampled order; an undecodable frame scores 0.0, a decoded one its Laplacian variance |
| `Commands.CpuProgress` | src-tauri/src/commands.rs:158-173 | one progress event per frame |
| `Commands.ChunksSpec` | src-tauri/src/commands.rs:78 | `chunks(50)` pieces are non-empty, at most 50 long (only the last shorter), and reassemble to the input |
| `Commands.ChunkPrefixLength` | src-tauri/src/commands.rs:103-107 | after k+1 chunks min(50(k+1), total) frames are done |
| `Commands.ChunksEndAtTotal` | src-tauri/src/commands.rs:103-116 | after the last chunk all frames are done |
| `Commands.DecodeAll` | src-tauri/src/commands.rs:80-81 | a batch decodes iff each of its frames does, giving the images in frame order |
| `Commands.GpuPassSpec` | src-tauri/src/commands.rs:78-116 | the chunk loop succeeds iff every frame decodes; then one result per frame in order, and the count reported after chunk k is the number of frames so far |
| `Commands.AnalyzeVideoErrors` | src-tauri/src/commands.rs:44-61 | a failure of either probe (`analyze_video`'s own, then the one `sample_frames` makes at video.rs:198), a zero sample rate and GPU initialisation failure fail the analysis, in that order; the CPU path never fails once both probes succeed; a success reports the first probe's `video_info` |
| `Commands.AnalyzeCpuSpec` | src-tauri/src/commands.rs:136-177 | CPU analysis returns the frames sampled from the second probe's frame total, in order, each scored as `CpuFrame`, with progress 1..n |
| `Commands.AnalyzeGpuSpec` | src-tauri/src/commands.rs:57-133 | GPU analysis succeeds iff every frame sampled from the second probe's frame total decodes; frames come in sampled order with GPU score (CPU fallback on GPU error); progress is 0, then min(50k, n), ending at n |
| `Commands.CapMaxFrames` | src-tauri/src/commands.rs:225-236 | no cap passes the selection through unchanged; a cap m leaves min(m, len(selected)) indices, all taken from the selection |
| `Commands.TopPairsFromSelection` | src-tauri/src/commands.rs:227-232 | every kept (index, score) pair comes from the selection with that index's score |
| `Commands.CapOrderedByScore` | src-tauri/src/commands.rs:227-233 | the capped list is ordered by descending score, ties by ascending index, so it has no duplicates and is not index-ordered in general |
| `Commands.CapKeepsTopScores` | src-tauri/src/commands.rs:227-233 | no dropped selected index has a higher score than a kept one, and on a tie at the cut the kept index is the lower one (stable sort over an increasing selection) |
| `Commands.CapZero` | src-tauri/src/commands.rs:232 | a cap of 0 exports nothing |
| `Commands.ExportSelectionSpec` | src-tauri/src/commands.rs:209-236 | every exported frame reaches `options.threshold`, or the suggested threshold when absent; at most `max_frames` are exported |
| `Commands.ExportFramesSpec` | src-tauri/src/commands.rs:238-254 | a successful export returns one path per chosen frame, named after that frame's number, in capped-selection order |
| `Commands.ExportPathsDistinct` | src-tauri/src/commands.rs:238-246 | exported paths are pairwise distinct when the analysed frame numbers are |
| `Commands.CalculateThresholdForCount` | src-tauri/src/commands.rs:266-271 | the command always succeeds and returns one of the scores when there are any |
| `Commands.ThresholdForCountCommand` | src-tauri/src/commands.rs:264-271 | it equals `calculate_auto_threshold(scores, Some(target))`, and at least min(target+1, n) scores reach it |

## Left out

- FFmpeg and ffprobe subprocesses are replaced by parameters:
  - `get_video_info`'s JSON probing (width, height, duration, `nb_frames`);
  - `extract_frame`;
  - the temp files of `extract_frame_to_memory`;
  - `detect_hw_accel`.
- `extract_frames_to_memory_batch` is not part of this model. `Commands.DecodeAll` assumes it returns every frame of the chunk in order, or fails as soon as any frame cannot be decoded.
- wgpu plumbing is not modelled: device and pipeline creation, textures, buffers and asynchronous mapping. Its outcomes are the parameters `contextOk`/`gpuOk` and `mapOk`.
- rayon parallelism and the Tauri progress events are not modelled. The CPU path is a sequential map, and the events appear only as their `current_frame` counts. Percentages are floating point.
- Floating point:
  - f32/f64 rounding, NaN (including the `partial_cmp().unwrap()` panic) and infinities are not modelled;
  - timestamps (`frame / fps`) are left out of `FrameData`;
  - the `(duration · fps) as u32` frame-count fallback is left out;
  - `u32` overflow of `width * height` is not modelled.
- `Sharpness.StatisticalThreshold` takes the square root as a parameter. Its properties assume only that the root of a non-negative number is non-negative.
- `Video.ParseFrameRate` returns the pair (num, den) rather than the f64 quotient, because dividing by a zero denominator yields inf or NaN in the source.
- `Video.SampleFrames` requires a positive rate, because `step_by(0)` panics. `Commands.AnalyzeVideo` reports that case as `ZeroSampleRate` once both probes have succeeded, since `sample_frames` probes the video again (video.rs:198) before it reaches `step_by`.
- `GpuSharpness.CalculateSharpness` reports a frame with no pixels as `EmptyTexture`. The source instead hits a wgpu validation failure, or NaN from dividing by n = 0.
- `GpuSharpness.CalculateSharpness`: its score is on a different scale from the CPU score. It divides pixels by 255, takes `abs`, and includes border pixels. On the GPU path, a frame whose GPU scoring fails falls back to the CPU score, so scores of different scales can be mixed in one analysis. The model reproduces this and does not correct it.
- The `GpuContext::new` failure message says "Falling back to CPU", but the command returns the error and does not fall back. The model follows the code.
- `get_frame_preview`, `get_video_metadata` and `calculate_sharpness_gpu` are left out. They are image-library resizing and encoding, or thin wrappers over I/O.
- `settings.rs`, `build.rs` and `lib.rs` are left out. They are configuration persistence, binary download and handler registration.
