/** `video.rs`: the frame sampler, the export file names and the ordered
    fail-fast export loop, and the `r_frame_rate` split rule. The ffmpeg and
    ffprobe subprocesses are parameters: a probe result, a number parser and an
    extraction oracle. */
module Video {
  import opened Wrappers
  import Seqs

  /** Probed stream metadata (`VideoInfo`). */
  datatype VideoInfo = VideoInfo(duration: real, fps: real, width: nat, height: nat, totalFrames: nat)

  // ---------------------------------------------------------------------
  // Sampling
  // ---------------------------------------------------------------------

  /** `(start..total).step_by(rate)`. */
  function StepFrom(start: nat, total: nat, rate: nat): seq<nat>
    requires rate >= 1
    decreases total - start
  {
    if start >= total then [] else [start] + StepFrom(start + rate, total, rate)
  }

  /** `sample_frames`: frame numbers 0, r, 2r, … below `total` (`rate = 0`
      makes `step_by` panic, so callers must pass a positive rate). */
  function SampleFrames(total: nat, rate: nat): seq<nat>
    requires rate >= 1
  {
    StepFrom(0, total, rate)
  }

  /** Element k of the walk from `start` is `start + k·rate`, every element is
      below `total`, and the walk stops after the first step that reaches it. */
  lemma {:induction false} StepFromShape(start: nat, total: nat, rate: nat)
    requires rate >= 1
    ensures forall k :: 0 <= k < |StepFrom(start, total, rate)| ==>
      StepFrom(start, total, rate)[k] == start + k * rate < total
    ensures start < total ==> start + |StepFrom(start, total, rate)| * rate >= total
    ensures start >= total <==> |StepFrom(start, total, rate)| == 0
    decreases total - start
  {
    if start < total {
      var s := StepFrom(start, total, rate);
      var rest := StepFrom(start + rate, total, rate);
      assert s == [start] + rest;
      StepFromShape(start + rate, total, rate);
      forall k | 0 <= k < |s| ensures s[k] == start + k * rate < total {
        if k > 0 {
          assert s[k] == rest[k - 1];
          ShiftStep(start, rate, k);
        }
      }
      ShiftStep(start, rate, |s|);
    }
  }

  lemma ShiftStep(a: nat, r: nat, k: nat)
    requires k >= 1
    ensures a + r + (k - 1) * r == a + k * r
  {
  }

  lemma DivBetween(a: nat, r: nat, q: nat)
    requires r >= 1
    requires q * r >= a && (q == 0 || (q - 1) * r < a)
    ensures q == (a + r - 1) / r
  {
    var c := (a + r - 1) / r;
    assert c * r + (a + r - 1) % r == a + r - 1;
    if q < c {
      Seqs.MulMono(q + 1, c, r);
      assert false;
    } else if q > c {
      Seqs.MulMono(c + 1, q, r);
      assert false;
    }
  }

  /** The sampled frames are exactly the multiples of `rate` below `total`,
      in increasing order, ⌈total / rate⌉ of them. */
  lemma SampleFramesSpec(total: nat, rate: nat)
    requires rate >= 1
    ensures |SampleFrames(total, rate)| == (total + rate - 1) / rate
    ensures forall k :: 0 <= k < |SampleFrames(total, rate)| ==>
      SampleFrames(total, rate)[k] == k * rate < total
    ensures total == 0 ==> SampleFrames(total, rate) == []
  {
    var s := SampleFrames(total, rate);
    StepFromShape(0, total, rate);
    if |s| > 0 {
      assert s[|s| - 1] == (|s| - 1) * rate < total;
    }
    DivBetween(total, rate, |s|);
  }

  /** Sampled frame numbers strictly increase. */
  lemma SampleFramesIncreasing(total: nat, rate: nat)
    requires rate >= 1
    ensures forall i, j :: 0 <= i < j < |SampleFrames(total, rate)| ==>
      SampleFrames(total, rate)[i] < SampleFrames(total, rate)[j]
  {
    SampleFramesSpec(total, rate);
    forall i, j | 0 <= i < j < |SampleFrames(total, rate)|
      ensures SampleFrames(total, rate)[i] < SampleFrames(total, rate)[j]
    {
      Seqs.MulMono(i + 1, j, rate);
    }
  }

  /** A frame is sampled exactly when it is a multiple of the rate below `total`. */
  lemma SampleFramesMembership(total: nat, rate: nat, f: nat)
    requires rate >= 1
    ensures f in SampleFrames(total, rate) <==> f < total && f % rate == 0
  {
    if f < total && f % rate == 0 {
      MultipleIsSampled(total, rate, f);
    }
    if f in SampleFrames(total, rate) {
      SampledIsMultiple(total, rate, f);
    }
  }

  lemma MultipleIsSampled(total: nat, rate: nat, f: nat)
    requires rate >= 1 && f < total && f % rate == 0
    ensures f in SampleFrames(total, rate)
  {
    var s := SampleFrames(total, rate);
    StepFromShape(0, total, rate);
    var k := f / rate;
    DivExact(f, rate);
    if k >= |s| {
      Seqs.MulMono(|s|, k, rate);
      assert false;
    }
    assert s[k] == f;
  }

  lemma DivExact(f: nat, r: nat)
    requires r >= 1 && f % r == 0
    ensures (f / r) * r == f
  {
  }

  lemma SampledIsMultiple(total: nat, rate: nat, f: nat)
    requires rate >= 1 && f in SampleFrames(total, rate)
    ensures f < total && f % rate == 0
  {
    var s := SampleFrames(total, rate);
    StepFromShape(0, total, rate);
    var k :| 0 <= k < |s| && s[k] == f;
    ModOfMultiple(k, rate);
  }

  lemma ModOfMultiple(k: nat, r: nat)
    requires r >= 1
    ensures (k * r) % r == 0
  {
    var q: int, m: int := (k * r) / r, (k * r) % r;
    assert q * r + m == k * r;
    assert (k - q) * r == m;
    MultipleSign(k - q, r);
  }

  /** A non-zero multiple of `r` is at least `r` away from zero. */
  lemma MultipleSign(d: int, r: int)
    requires r >= 1
    ensures d >= 1 ==> d * r >= r
    ensures d <= -1 ==> d * r <= -r
  {
  }

  // ---------------------------------------------------------------------
  // Export file names: format!("frame_{:06}.{}", n, format)
  // ---------------------------------------------------------------------

  predicate IsDigit(c: char) {
    '0' <= c <= '9'
  }

  function DigitChar(d: nat): (c: char)
    requires d < 10
    ensures IsDigit(c)
  {
    (48 + d) as char
  }

  function DigitValue(c: char): nat
    requires IsDigit(c)
  {
    (c as int - 48) as nat
  }

  /** The decimal numeral of `n`, without leading zeros. */
  function Decimal(n: nat): (s: string)
    ensures |s| >= 1
    ensures forall i :: 0 <= i < |s| ==> IsDigit(s[i])
    decreases n
  {
    if n < 10 then [DigitChar(n)] else Decimal(n / 10) + [DigitChar(n % 10)]
  }

  /** The value of a digit string, most significant digit first. */
  function Value(s: string): nat
    requires forall i :: 0 <= i < |s| ==> IsDigit(s[i])
  {
    if |s| == 0 then 0 else 10 * Value(s[..|s| - 1]) + DigitValue(s[|s| - 1])
  }

  function Zeros(k: nat): (s: string)
    ensures |s| == k
    ensures forall i :: 0 <= i < k ==> s[i] == '0'
  {
    if k == 0 then [] else Zeros(k - 1) + ['0']
  }

  /** The `{:06}` field: zero-filled on the left to at least six characters. */
  function Pad6(s: string): (p: string)
    ensures |p| == if |s| >= 6 then |s| else 6
  {
    if |s| >= 6 then s else Zeros(6 - |s|) + s
  }

  function FileName(n: nat, format: string): string {
    "frame_" + Pad6(Decimal(n)) + "." + format
  }

  lemma {:induction false} DecimalValue(n: nat)
    ensures Value(Decimal(n)) == n
    decreases n
  {
    if n >= 10 {
      var d := Decimal(n);
      DecimalValue(n / 10);
      assert d[..|d| - 1] == Decimal(n / 10);
    }
  }

  /** Leading zeros do not change a numeral's value. */
  lemma {:induction false} ZerosValue(k: nat, s: string)
    requires forall i :: 0 <= i < |s| ==> IsDigit(s[i])
    ensures forall i :: 0 <= i < |Zeros(k) + s| ==> IsDigit((Zeros(k) + s)[i])
    ensures Value(Zeros(k) + s) == Value(s)
    decreases |s|
  {
    var t := Zeros(k) + s;
    assert forall i :: 0 <= i < |t| ==> IsDigit(t[i]) by {
      forall i | 0 <= i < |t| ensures IsDigit(t[i]) {
        if i >= k { assert t[i] == s[i - k]; }
      }
    }
    if |s| == 0 {
      assert t == Zeros(k);
      ZerosOnly(k);
    } else {
      ZerosValue(k, s[..|s| - 1]);
      assert t[..|t| - 1] == Zeros(k) + s[..|s| - 1];
    }
  }

  lemma {:induction false} ZerosOnly(k: nat)
    ensures Value(Zeros(k)) == 0
  {
    if k > 0 {
      ZerosOnly(k - 1);
      var z := Zeros(k);
      assert z == Zeros(k - 1) + ['0'];
      assert z[..k - 1] == Zeros(k - 1);
      assert Value(z) == 10 * Value(Zeros(k - 1)) + DigitValue('0');
    }
  }

  function Pow10(k: nat): nat {
    if k == 0 then 1 else 10 * Pow10(k - 1)
  }

  lemma {:induction false} DecimalShort(n: nat, k: nat)
    requires k >= 1 && n < Pow10(k)
    ensures |Decimal(n)| <= k
    decreases n
  {
    if n >= 10 {
      assert k >= 2;
      DecimalShort(n / 10, k - 1);
    }
  }

  /** The padded field is all digits, reads back as `n`, and is exactly six
      characters wide for frame numbers below one million. */
  lemma PaddedNumeral(n: nat)
    ensures |Pad6(Decimal(n))| >= 6 && |Pad6(Decimal(n))| >= |Decimal(n)|
    ensures forall i :: 0 <= i < |Pad6(Decimal(n))| ==> IsDigit(Pad6(Decimal(n))[i])
    ensures Value(Pad6(Decimal(n))) == n
    ensures n < 1000000 ==> |Pad6(Decimal(n))| == 6
  {
    var d := Decimal(n);
    DecimalValue(n);
    if |d| < 6 {
      ZerosValue(6 - |d|, d);
    }
    if n < 1000000 {
      assert Pow10(6) == 1000000;
      DecimalShort(n, 6);
    }
  }

  /** Position of the first '.' in `s` (|s| when there is none). */
  function FirstDot(s: string): (k: nat)
    ensures k <= |s|
  {
    if |s| == 0 || s[0] == '.' then 0 else 1 + FirstDot(s[1..])
  }

  lemma {:induction false} DotAfterDigits(p: string, f: string)
    requires forall i :: 0 <= i < |p| ==> IsDigit(p[i])
    ensures FirstDot(p + "." + f) == |p|
  {
    if |p| > 0 {
      DotAfterDigits(p[1..], f);
      assert (p + "." + f)[1..] == p[1..] + "." + f;
    }
  }

  /** A digit string followed by '.' can be split back at the first dot. */
  lemma SplitAtFirstDot(p1: string, f1: string, p2: string, f2: string)
    requires forall i :: 0 <= i < |p1| ==> IsDigit(p1[i])
    requires forall i :: 0 <= i < |p2| ==> IsDigit(p2[i])
    requires p1 + "." + f1 == p2 + "." + f2
    ensures p1 == p2 && f1 == f2
  {
    var t := p1 + "." + f1;
    DotAfterDigits(p1, f1);
    DotAfterDigits(p2, f2);
    assert p1 == t[..|p1|];
    assert p2 == t[..|p2|];
    assert f1 == t[|p1| + 1..];
    assert f2 == t[|p2| + 1..];
  }

  lemma DropPrefix(a: string, t1: string, t2: string)
    requires a + t1 == a + t2
    ensures t1 == t2
  {
    assert t1 == (a + t1)[|a|..];
    assert t2 == (a + t2)[|a|..];
  }

  /** Distinct frame numbers (or formats) never share a file name. */
  lemma FileNameInjective(n1: nat, f1: string, n2: nat, f2: string)
    requires FileName(n1, f1) == FileName(n2, f2)
    ensures n1 == n2 && f1 == f2
  {
    var p1, p2 := Pad6(Decimal(n1)), Pad6(Decimal(n2));
    PaddedNumeral(n1);
    PaddedNumeral(n2);
    assert FileName(n1, f1) == "frame_" + (p1 + "." + f1);
    assert FileName(n2, f2) == "frame_" + (p2 + "." + f2);
    DropPrefix("frame_", p1 + "." + f1, p2 + "." + f2);
    SplitAtFirstDot(p1, f1, p2, f2);
  }

  // ---------------------------------------------------------------------
  // extract_frames_batch
  // ---------------------------------------------------------------------

  /** `output_dir.join(name)`. */
  datatype OutPath = OutPath(dir: string, name: string)

  datatype ExportError =
    | CreateDirFailed          // `fs::create_dir_all(output_dir)` failed
    | ExtractFailed(pos: nat)  // ffmpeg failed on the frame at this position

  function ExportPath(dir: string, frame: nat, format: string): OutPath {
    OutPath(dir, FileName(frame, format))
  }

  /** The export loop: extract each frame in request order, stopping at the first failure. */
  function ExtractEach(frames: seq<nat>, dir: string, format: string, extract: (nat, OutPath) -> bool)
    : Result<seq<OutPath>, nat>
  {
    if |frames| == 0 then Ok([])
    else if !extract(frames[0], ExportPath(dir, frames[0], format)) then Err(0)
    else match ExtractEach(frames[1..], dir, format, extract)
      case Ok(rest) => Ok([ExportPath(dir, frames[0], format)] + rest)
      case Err(k) => Err(k + 1)
  }

  /** `extract_frames_batch`; `dirOk` is the outcome of creating the directory
      and `extract` says whether ffmpeg succeeds for a frame and target path. */
  function ExtractFramesBatch(frames: seq<nat>, dir: string, format: string, dirOk: bool,
                              extract: (nat, OutPath) -> bool): Result<seq<OutPath>, ExportError>
  {
    if !dirOk then Err(CreateDirFailed)
    else match ExtractEach(frames, dir, format, extract)
      case Ok(paths) => Ok(paths)
      case Err(k) => Err(ExtractFailed(k))
  }

  predicate Extracts(frames: seq<nat>, dir: string, format: string, extract: (nat, OutPath) -> bool, i: nat)
    requires i < |frames|
  {
    extract(frames[i], ExportPath(dir, frames[i], format))
  }

  /** Position i of `frames[1..]` is position i + 1 of `frames`. */
  lemma ExtractsShift(frames: seq<nat>, dir: string, format: string, extract: (nat, OutPath) -> bool)
    requires |frames| > 0
    ensures forall i :: 1 <= i < |frames| ==>
      Extracts(frames, dir, format, extract, i) == Extracts(frames[1..], dir, format, extract, i - 1)
  {
    forall i | 1 <= i < |frames|
      ensures Extracts(frames, dir, format, extract, i) == Extracts(frames[1..], dir, format, extract, i - 1)
    {
      assert frames[1..][i - 1] == frames[i];
    }
  }

  /** On success there is one path per requested frame, in request order; on
      failure the error names the first failing position, every earlier frame
      having been extracted. */
  lemma {:induction false} ExtractEachSpec(frames: seq<nat>, dir: string, format: string, extract: (nat, OutPath) -> bool)
    ensures ExtractEach(frames, dir, format, extract).Ok? <==>
      forall i :: 0 <= i < |frames| ==> Extracts(frames, dir, format, extract, i)
    ensures ExtractEach(frames, dir, format, extract).Ok? ==>
      |ExtractEach(frames, dir, format, extract).value| == |frames| &&
      forall i :: 0 <= i < |frames| ==>
        ExtractEach(frames, dir, format, extract).value[i] == ExportPath(dir, frames[i], format)
    ensures ExtractEach(frames, dir, format, extract).Err? ==>
      var k := ExtractEach(frames, dir, format, extract).error;
      k < |frames| && !Extracts(frames, dir, format, extract, k) &&
      forall i :: 0 <= i < k ==> Extracts(frames, dir, format, extract, i)
  {
    if |frames| > 0 && extract(frames[0], ExportPath(dir, frames[0], format)) {
      var tail := frames[1..];
      ExtractEachSpec(tail, dir, format, extract);
      ExtractsShift(frames, dir, format, extract);
      assert Extracts(frames, dir, format, extract, 0);
      var r := ExtractEach(frames, dir, format, extract);
      match ExtractEach(tail, dir, format, extract)
      case Ok(rest) =>
        assert r == Ok([ExportPath(dir, frames[0], format)] + rest);
        forall i | 0 <= i < |frames| ensures r.value[i] == ExportPath(dir, frames[i], format) {
          if i > 0 {
            assert r.value[i] == rest[i - 1];
            assert tail[i - 1] == frames[i];
          }
        }
      case Err(k) =>
        assert r == Err(k + 1);
        assert !Extracts(frames, dir, format, extract, k + 1);
    } else if |frames| > 0 {
      assert !Extracts(frames, dir, format, extract, 0);
    }
  }

  /** `extract_frames_batch` succeeds exactly when the directory can be created
      and every frame extracts; its paths follow the request order. */
  lemma ExtractFramesBatchSpec(frames: seq<nat>, dir: string, format: string, dirOk: bool,
                               extract: (nat, OutPath) -> bool)
    ensures ExtractFramesBatch(frames, dir, format, dirOk, extract).Ok? <==>
      dirOk && forall i :: 0 <= i < |frames| ==> Extracts(frames, dir, format, extract, i)
    ensures ExtractFramesBatch(frames, dir, format, dirOk, extract).Ok? ==>
      |ExtractFramesBatch(frames, dir, format, dirOk, extract).value| == |frames| &&
      forall i :: 0 <= i < |frames| ==>
        ExtractFramesBatch(frames, dir, format, dirOk, extract).value[i] == OutPath(dir, FileName(frames[i], format))
    ensures !dirOk ==> ExtractFramesBatch(frames, dir, format, dirOk, extract) == Err(CreateDirFailed)
  {
    ExtractEachSpec(frames, dir, format, extract);
  }

  /** Exported paths are pairwise distinct whenever the frame numbers are. */
  lemma ExportPathsDistinct(frames: seq<nat>, dir: string, format: string, dirOk: bool,
                            extract: (nat, OutPath) -> bool, i: nat, j: nat)
    requires ExtractFramesBatch(frames, dir, format, dirOk, extract).Ok?
    requires i < |frames| && j < |frames| && frames[i] != frames[j]
    ensures |ExtractFramesBatch(frames, dir, format, dirOk, extract).value| == |frames|
    ensures ExtractFramesBatch(frames, dir, format, dirOk, extract).value[i]
         != ExtractFramesBatch(frames, dir, format, dirOk, extract).value[j]
  {
    ExtractFramesBatchSpec(frames, dir, format, dirOk, extract);
    if FileName(frames[i], format) == FileName(frames[j], format) {
      FileNameInjective(frames[i], format, frames[j], format);
    }
  }

  // ---------------------------------------------------------------------
  // r_frame_rate: "num/den"
  // ---------------------------------------------------------------------

  /** `str::split` on a single character: the pieces between separators,
      including empty ones; never empty itself. */
  function Split(s: string, sep: char): (parts: seq<string>)
    ensures |parts| >= 1
    decreases |s|
  {
    if |s| == 0 then [""]
    else
      var rest := Split(s[1..], sep);
      if s[0] == sep then [""] + rest else [[s[0]] + rest[0]] + rest[1..]
  }

  function Join(parts: seq<string>, sep: char): string
    requires |parts| >= 1
  {
    if |parts| == 1 then parts[0] else parts[0] + [sep] + Join(parts[1..], sep)
  }

  function Occurrences(s: string, c: char): nat {
    if |s| == 0 then 0 else (if s[0] == c then 1 else 0) + Occurrences(s[1..], c)
  }

  /** Splitting loses nothing: joining the pieces back gives the input, no piece
      holds the separator, and there is one more piece than separators. */
  lemma {:induction false} SplitSpec(s: string, sep: char)
    ensures Join(Split(s, sep), sep) == s
    ensures |Split(s, sep)| == Occurrences(s, sep) + 1
    ensures forall i :: 0 <= i < |Split(s, sep)| ==> sep !in Split(s, sep)[i]
  {
    SplitJoin(s, sep);
    SplitCount(s, sep);
    SplitPiecesClean(s, sep);
  }

  lemma {:induction false} SplitJoin(s: string, sep: char)
    ensures Join(Split(s, sep), sep) == s
    decreases |s|
  {
    if |s| > 0 {
      var rest := Split(s[1..], sep);
      SplitJoin(s[1..], sep);
      var parts := Split(s, sep);
      if s[0] == sep {
        assert parts == [""] + rest;
        assert parts[1..] == rest;
      } else {
        assert parts == [[s[0]] + rest[0]] + rest[1..];
        if |rest| > 1 {
          assert parts[1..] == rest[1..];
        }
      }
      assert s == [s[0]] + s[1..];
    }
  }

  lemma {:induction false} SplitCount(s: string, sep: char)
    ensures |Split(s, sep)| == Occurrences(s, sep) + 1
    decreases |s|
  {
    if |s| > 0 {
      SplitCount(s[1..], sep);
    }
  }

  lemma {:induction false} SplitPiecesClean(s: string, sep: char)
    ensures forall i :: 0 <= i < |Split(s, sep)| ==> sep !in Split(s, sep)[i]
    decreases |s|
  {
    if |s| > 0 {
      var rest := Split(s[1..], sep);
      SplitPiecesClean(s[1..], sep);
      var parts := Split(s, sep);
      if s[0] == sep {
        forall i | 0 <= i < |parts| ensures sep !in parts[i] {
          if i > 0 { assert parts[i] == rest[i - 1]; }
        }
      } else {
        forall i | 0 <= i < |parts| ensures sep !in parts[i] {
          if i > 0 { assert parts[i] == rest[i]; }
          else { assert parts[0] == [s[0]] + rest[0]; }
        }
      }
    }
  }

  datatype ProbeError = BadNumber(text: string)

  /** The frame rate as the source derives it, kept as the pair `num / den`
      (30/1 when the string does not have exactly two pieces). */
  datatype FrameRate = FrameRate(num: real, den: real)

  const DefaultRate := FrameRate(30.0, 1.0)

  /** The `r_frame_rate` rule; `parse` stands for `str::parse::<f64>`. */
  function ParseFrameRate(text: string, parse: string -> Option<real>): (r: Result<FrameRate, ProbeError>)
  {
    var parts := Split(text, '/');
    if |parts| != 2 then Ok(DefaultRate)
    else match (parse(parts[0]), parse(parts[1]))
      case (None, _) => Err(BadNumber(parts[0]))
      case (Some(_), None) => Err(BadNumber(parts[1]))
      case (Some(num), Some(den)) => Ok(FrameRate(num, den))
  }

  /** Exactly one '/' selects the ratio (failing if either side does not parse);
      any other count of '/' falls back to 30 fps. */
  lemma ParseFrameRateSpec(text: string, parse: string -> Option<real>)
    ensures Occurrences(text, '/') != 1 ==> ParseFrameRate(text, parse) == Ok(DefaultRate)
    ensures Occurrences(text, '/') == 1 ==>
      |Split(text, '/')| == 2 &&
      var parts := Split(text, '/');
      && text == parts[0] + "/" + parts[1]
      && (ParseFrameRate(text, parse).Ok? <==> parse(parts[0]).Some? && parse(parts[1]).Some?)
      && (ParseFrameRate(text, parse).Ok? ==>
            ParseFrameRate(text, parse).value == FrameRate(parse(parts[0]).value, parse(parts[1]).value))
  {
    SplitSpec(text, '/');
    var parts := Split(text, '/');
    if |parts| == 2 {
      assert Join(parts, '/') == parts[0] + ['/'] + Join(parts[1..], '/');
    }
  }
}
