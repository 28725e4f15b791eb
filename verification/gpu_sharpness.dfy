/** `gpu_sharpness.rs`: the Laplacian compute shader as a pure per-pixel
    function, the 16×16 workgroup dispatch, and the variance read back from the
    output buffer. Device, texture and buffer plumbing is abstracted into the
    `contextOk` / `mapOk` parameters. */
module GpuSharpness {
  import opened Wrappers
  import opened Seqs
  import opened Stats
  import opened Image
  import Sharpness

  datatype GpuError =
    | NoAdapter        // `GpuContext::new` failed (no adapter or device)
    | EmptyTexture     // a zero-sized frame cannot become a texture
    | BufferMapFailed  // mapping the staging buffer for reading failed

  const WorkgroupSize: nat := 16

  /** `(n + 15) / 16`: enough workgroups to cover `n` pixels, with fewer than
      one workgroup's worth of surplus invocations. */
  function WorkgroupCount(n: nat): (g: nat)
    ensures n <= WorkgroupSize * g < n + WorkgroupSize
  {
    (n + 15) / 16
  }

  /** The shader body for an in-range invocation: each neighbour is added only
      when it exists, and the absolute value is stored. */
  function ShaderResponse(img: Image, x: nat, y: nat): nat
    requires x < img.width && y < img.height
  {
    var sum := -4 * Pixel(img, x, y)
      + (if x > 0 then Pixel(img, x - 1, y) else 0)
      + (if x < img.width - 1 then Pixel(img, x + 1, y) else 0)
      + (if y > 0 then Pixel(img, x, y - 1) else 0)
      + (if y < img.height - 1 then Pixel(img, x, y + 1) else 0);
    Abs(sum)
  }

  /** A store `output_buffer[index] = value`. */
  datatype Write = Write(index: nat, value: nat)

  /** The invocation with global id (gx, gy): out-of-range ids return early. */
  function Invocation(img: Image, gx: nat, gy: nat): Option<Write> {
    if gx >= img.width || gy >= img.height then None
    else Some(Write(gy * img.width + gx, ShaderResponse(img, gx, gy)))
  }

  /** The output buffer after the dispatch, `width * height` values row by row. */
  function BufferRows(img: Image): (rows: seq<seq<nat>>)
    ensures |rows| == img.height
    ensures forall y :: 0 <= y < img.height ==> |rows[y]| == img.width
  {
    seq(img.height, y requires 0 <= y < img.height =>
      seq(img.width, x requires 0 <= x < img.width => ShaderResponse(img, x, y)))
  }

  function OutputBuffer(img: Image): seq<nat> {
    Flatten(BufferRows(img))
  }

  /** Missing neighbours contribute zero: the shader computes |Laplacian| of the
      zero-extended image (not of a border-clamped one). */
  lemma ShaderIsZeroPadded(img: Image, x: nat, y: nat)
    requires x < img.width && y < img.height
    ensures ShaderResponse(img, x, y) == Abs(Kernel4(img, x, y))
  {
  }

  /** At interior pixels the GPU stores the absolute value of the CPU response. */
  lemma ShaderMatchesCpuInterior(img: Image, x: nat, y: nat)
    requires 1 <= x < img.width - 1 && 1 <= y < img.height - 1
    ensures ShaderResponse(img, x, y) == Abs(Sharpness.CpuResponse(img, x, y))
  {
    ShaderIsZeroPadded(img, x, y);
    Sharpness.CpuResponseIsKernel4(img, x, y);
  }

  lemma RowMajorBound(w: nat, h: nat, x: nat, y: nat)
    requires x < w && y < h
    ensures y * w + x < w * h
  {
    MulStep(y, w, h);
  }

  /** Every pixel is reached by the dispatch; its invocation writes only slot
      `y * width + x`, which lies inside the buffer and ends up holding its value. */
  lemma DispatchCoversPixel(img: Image, x: nat, y: nat)
    requires x < img.width && y < img.height
    ensures x < WorkgroupSize * WorkgroupCount(img.width)
    ensures y < WorkgroupSize * WorkgroupCount(img.height)
    ensures Invocation(img, x, y).Some?
    ensures Invocation(img, x, y).value.index == y * img.width + x
    ensures y * img.width + x < img.width * img.height == |OutputBuffer(img)|
    ensures OutputBuffer(img)[y * img.width + x] == Invocation(img, x, y).value.value
  {
    FlattenAt(BufferRows(img), img.width, y, x);
    RowMajorBound(img.width, img.height, x, y);
    MulComm(img.height, img.width);
  }

  /** Surplus invocations of the last workgroups write nothing. */
  lemma SurplusInvocationsIdle(img: Image, gx: nat, gy: nat)
    requires gx >= img.width || gy >= img.height
    ensures Invocation(img, gx, gy).None?
  {
  }

  /** Distinct pixels write distinct slots. */
  lemma WriteIndexUnique(w: nat, x1: nat, y1: nat, x2: nat, y2: nat)
    requires x1 < w && x2 < w
    requires y1 * w + x1 == y2 * w + x2
    ensures x1 == x2 && y1 == y2
  {
    if y1 < y2 {
      MulStep(y1, w, y2);
      assert false;
    } else if y2 < y1 {
      MulStep(y2, w, y1);
      assert false;
    }
  }

  /** Every buffer slot is written by some in-range pixel. */
  lemma EverySlotWritten(w: nat, h: nat, k: nat) returns (x: nat, y: nat)
    requires k < w * h
    ensures x < w && y < h && y * w + x == k
  {
    x, y := k % w, k / w;
    assert y * w + x == k;
    if y >= h {
      assert y * w >= h * w by { MulComm(h, w); MulMono(h, y, w); }
      MulComm(h, w);
      assert false;
    }
  }

  /** The buffer as the shader sees it: the texture holds `p / 255`, so each
      stored value is the integer response divided by 255. */
  function Normalized(vs: seq<nat>): (r: seq<real>)
    ensures |r| == |vs|
    ensures forall i :: 0 <= i < |vs| ==> r[i] * 255.0 == vs[i] as real
  {
    seq(|vs|, i requires 0 <= i < |vs| => vs[i] as real / 255.0)
  }

  /** The `calculate_sharpness` method: the population variance of all
      `width * height` stored values, border pixels included. */
  function CalculateSharpness(img: Image, mapOk: Image -> bool): (r: Result<real, GpuError>)
    ensures r.Ok? <==> img.width * img.height > 0 && mapOk(img)
    ensures r.Ok? ==> r.value >= 0.0
  {
    if img.width * img.height == 0 then Err(EmptyTexture)
    else if !mapOk(img) then Err(BufferMapFailed)
    else Ok(Variance(Normalized(OutputBuffer(img))))
  }

  /** The GPU score without division: n²·score = n·Σv² − (Σv)² over the
      n = width·height stored values. */
  lemma GpuScoreScaled(img: Image, mapOk: Image -> bool)
    requires CalculateSharpness(img, mapOk).Ok?
    ensures ScaledVariance(Normalized(OutputBuffer(img)), CalculateSharpness(img, mapOk).value)
  {
    var vs := Normalized(OutputBuffer(img));
    assert |vs| > 0 by { BufferLength(img); }
    assert CalculateSharpness(img, mapOk).value == Variance(vs);
    VarianceScaled(vs);
  }

  /** The variance is taken over all width·height stored values. */
  lemma GpuScoreCountsEveryPixel(img: Image)
    ensures Size(Normalized(OutputBuffer(img))) == (img.width * img.height) as real
  {
    BufferLength(img);
    SizeIsLength(Normalized(OutputBuffer(img)));
  }

  lemma BufferLength(img: Image)
    ensures |OutputBuffer(img)| == img.width * img.height
  {
    FlattenLength(BufferRows(img), img.width);
    MulComm(img.height, img.width);
  }

  function ScoreEach(images: seq<Image>, mapOk: Image -> bool): (r: Result<seq<real>, GpuError>)
    ensures r.Ok? <==> forall i :: 0 <= i < |images| ==> CalculateSharpness(images[i], mapOk).Ok?
    ensures r.Ok? ==> (|r.value| == |images| &&
      forall i :: 0 <= i < |images| ==> CalculateSharpness(images[i], mapOk) == Ok(r.value[i]))
    ensures r.Err? ==> exists i :: (0 <= i < |images| && CalculateSharpness(images[i], mapOk) == Err(r.error) &&
      forall j :: 0 <= j < i ==> CalculateSharpness(images[j], mapOk).Ok?)
  {
    if |images| == 0 then Ok([])
    else match CalculateSharpness(images[0], mapOk)
      case Err(e) => Err(e)
      case Ok(v) =>
        match ScoreEach(images[1..], mapOk)
        case Err(e) =>
          assert forall i :: 1 <= i < |images| ==> images[1..][i - 1] == images[i];
          Err(e)
        case Ok(vs) =>
          assert forall i :: 1 <= i < |images| ==> images[1..][i - 1] == images[i];
          Ok([v] + vs)
  }

  /** `calculate_sharpness_batch_gpu`: one score per image in input order; the
      first failing image aborts the batch with its error. */
  function CalculateSharpnessBatchGpu(images: seq<Image>, contextOk: bool, mapOk: Image -> bool)
    : (r: Result<seq<real>, GpuError>)
    ensures !contextOk ==> r == Err(NoAdapter)
    ensures r.Ok? ==> (|r.value| == |images| &&
      forall i :: 0 <= i < |images| ==> CalculateSharpness(images[i], mapOk) == Ok(r.value[i]))
    ensures contextOk ==> (r.Ok? <==> forall i :: 0 <= i < |images| ==> CalculateSharpness(images[i], mapOk).Ok?)
  {
    if !contextOk then Err(NoAdapter) else ScoreEach(images, mapOk)
  }
}
