/** `sharpness.rs`: the CPU Laplacian-variance scorer, the automatic threshold
    and the greedy threshold/distance frame selector. */
module Sharpness {
  import opened Wrappers
  import opened Seqs
  import opened Stats
  import opened Image

  // ---------------------------------------------------------------------
  // Laplacian variance (CPU)
  // ---------------------------------------------------------------------

  /** The kernel response at an interior pixel, read directly from its four neighbours. */
  function CpuResponse(img: Image, x: nat, y: nat): int
    requires 1 <= x < img.width - 1 && 1 <= y < img.height - 1
  {
    var center := Pixel(img, x, y);
    var top := Pixel(img, x, y - 1);
    var bottom := Pixel(img, x, y + 1);
    var left := Pixel(img, x - 1, y);
    var right := Pixel(img, x + 1, y);
    top + bottom + left + right - 4 * center
  }

  /** The rows of interior responses, in the order of the nested `y`, `x` loops. */
  function ResponseGrid(img: Image): (g: seq<seq<int>>)
    requires img.width >= 3 && img.height >= 3
    ensures |g| == img.height - 2
    ensures forall j :: 0 <= j < |g| ==> |g[j]| == img.width - 2
  {
    seq(img.height - 2, j requires 0 <= j < img.height - 2 =>
      seq(img.width - 2, i requires 0 <= i < img.width - 2 => CpuResponse(img, i + 1, j + 1)))
  }

  /** The `laplacian_values` vector: interior responses only, row by row. */
  function InteriorResponses(img: Image): seq<int>
    requires img.width >= 3 && img.height >= 3
  {
    Flatten(ResponseGrid(img))
  }

  /** Exactly (w-2)(h-2) responses are collected. */
  lemma InteriorResponsesCount(img: Image)
    requires img.width >= 3 && img.height >= 3
    ensures |InteriorResponses(img)| == (img.width - 2) * (img.height - 2)
  {
    var w2, h2 := img.width - 2, img.height - 2;
    FlattenLength(ResponseGrid(img), w2);
    MulComm(h2, w2);
  }

  /** The response of interior pixel (x, y) is top + bottom + left + right − 4·center
      and sits at position (y-1)(w-2) + (x-1). */
  lemma InteriorResponsesLayout(img: Image, x: nat, y: nat)
    requires img.width >= 3 && img.height >= 3
    requires 1 <= x < img.width - 1 && 1 <= y < img.height - 1
    ensures RowMajor(img.width - 2, y - 1, x - 1) < |InteriorResponses(img)|
    ensures InteriorResponses(img)[RowMajor(img.width - 2, y - 1, x - 1)]
         == Pixel(img, x, y - 1) + Pixel(img, x, y + 1) + Pixel(img, x - 1, y) + Pixel(img, x + 1, y)
            - 4 * Pixel(img, x, y)
  {
    FlattenAtIndex(ResponseGrid(img), img.width - 2, y - 1, x - 1);
    assert ResponseGrid(img)[y - 1][x - 1] == CpuResponse(img, x, y);
  }

  /** The CPU kernel is the zero-extended 4-neighbour Laplacian at interior pixels. */
  lemma CpuResponseIsKernel4(img: Image, x: nat, y: nat)
    requires 1 <= x < img.width - 1 && 1 <= y < img.height - 1
    ensures CpuResponse(img, x, y) == Kernel4(img, x, y)
  {
  }

  /** `calculate_sharpness` / `laplacian_variance` on a grayscale frame. */
  function LaplacianVariance(img: Image): (v: real)
    ensures v >= 0.0
    ensures img.width < 3 || img.height < 3 ==> v == 0.0
  {
    if img.width < 3 || img.height < 3 then 0.0
    else Variance(Reals(InteriorResponses(img)))
  }

  /** Without division: with n = (w-2)(h-2) responses x, n²·score = n·Σx² − (Σx)². */
  lemma LaplacianVarianceNumerator(img: Image)
    requires img.width >= 3 && img.height >= 3
    ensures ScaledVariance(Reals(InteriorResponses(img)), LaplacianVariance(img))
  {
    var xs := Reals(InteriorResponses(img));
    assert |xs| > 0 by {
      InteriorResponsesCount(img);
      MulPos(img.width - 2, img.height - 2);
    }
    assert LaplacianVariance(img) == Variance(xs);
    VarianceScaled(xs);
  }

  lemma {:induction false} FlattenMember<T>(rows: seq<seq<T>>, v: T)
    requires v in Flatten(rows)
    ensures exists j :: 0 <= j < |rows| && v in rows[j]
  {
    if v !in rows[0] {
      FlattenMember(rows[1..], v);
      var j :| 0 <= j < |rows[1..]| && v in rows[1..][j];
      assert rows[1..][j] == rows[j + 1];
    }
  }

  /** A flat (constant) frame scores exactly 0. */
  lemma ConstantImageScoresZero(img: Image, c: int)
    requires IsConstant(img, c)
    ensures LaplacianVariance(img) == 0.0
  {
    if img.width >= 3 && img.height >= 3 {
      var g := ResponseGrid(img);
      var rs := InteriorResponses(img);
      var xs := Reals(rs);
      forall k | 0 <= k < |xs| ensures xs[k] == 0.0 {
        assert rs[k] in Flatten(g);
        FlattenMember(g, rs[k]);
        var j :| 0 <= j < |g| && rs[k] in g[j];
        var i :| 0 <= i < |g[j]| && g[j][i] == rs[k];
        assert g[j][i] == CpuResponse(img, i + 1, j + 1);
      }
      VarianceOfConstant(xs, 0.0);
    }
  }

  // ---------------------------------------------------------------------
  // Automatic threshold (`calculate_auto_threshold`)
  // ---------------------------------------------------------------------

  /** The `Some(count)` branch: element `min(count, len-1)` of the scores sorted
      from largest to smallest; 0 for no scores. */
  function ThresholdForCount(scores: seq<real>, count: nat): real {
    if |scores| == 0 then 0.0
    else SortDesc(scores, Identity)[Min(count, |scores| - 1)]
  }

  /** The `None` branch: mean + ½·standard deviation; `sqrt` is the floating
      square root, supplied by the caller. */
  function StatisticalThreshold(scores: seq<real>, sqrt: real -> real): real {
    if |scores| == 0 then 0.0
    else Mean(scores) + 0.5 * sqrt(Variance(scores))
  }

  function AutoThreshold(scores: seq<real>, target: Option<nat>, sqrt: real -> real): (t: real)
    ensures |scores| == 0 ==> t == 0.0
    ensures target.Some? && |scores| > 0 ==> t in scores
  {
    if |scores| == 0 then 0.0
    else match target
      case Some(count) =>
        ThresholdForCountIsOrderStatistic(scores, count);
        ThresholdForCount(scores, count)
      case None => StatisticalThreshold(scores, sqrt)
  }

  /** The count threshold is one of the scores; at most `min(count, n-1)` scores
      lie strictly above it and at least `min(count, n-1) + 1` reach it, so
      thresholding at it keeps one frame more than `count` whenever count < n. */
  lemma ThresholdForCountIsOrderStatistic(scores: seq<real>, count: nat)
    requires |scores| > 0
    ensures ThresholdForCount(scores, count) in scores
    ensures CountAbove(scores, ThresholdForCount(scores, count)) <= Min(count, |scores| - 1)
    ensures CountAtLeast(scores, ThresholdForCount(scores, count)) >= Min(count, |scores| - 1) + 1
  {
    var sorted := SortDesc(scores, Identity);
    var k := Min(count, |scores| - 1);
    var t := sorted[k];
    assert t in scores by {
      assert t in multiset(sorted);
    }
    assert CountAbove(sorted, t) <= k by {
      SortedSuffixAtMost(scores, k);
      CountAboveSuffix(sorted, t, k);
    }
    assert CountAtLeast(sorted, t) >= k + 1 by {
      SortedPrefixAtLeast(scores, k);
      CountAtLeastPrefix(sorted, t, k + 1);
    }
    SortPreservesCounts(scores, t);
  }

  /** In the sorted scores, everything from position k on is at most the k-th. */
  lemma SortedSuffixAtMost(scores: seq<real>, k: nat)
    requires k < |scores|
    ensures forall i :: k <= i < |scores| ==> SortDesc(scores, Identity)[i] <= SortDesc(scores, Identity)[k]
  {
    var sorted := SortDesc(scores, Identity);
    SortDescSorted(scores, Identity);
    forall i | k <= i < |sorted| ensures sorted[i] <= sorted[k] {
      if i > k { assert Identity(sorted[k]) >= Identity(sorted[i]); }
    }
  }

  /** In the sorted scores, everything up to position k is at least the k-th. */
  lemma SortedPrefixAtLeast(scores: seq<real>, k: nat)
    requires k < |scores|
    ensures forall i :: 0 <= i < k + 1 ==> SortDesc(scores, Identity)[i] >= SortDesc(scores, Identity)[k]
  {
    var sorted := SortDesc(scores, Identity);
    SortDescSorted(scores, Identity);
    forall i | 0 <= i < k + 1 ensures sorted[i] >= sorted[k] {
      if i < k { assert Identity(sorted[i]) >= Identity(sorted[k]); }
    }
  }

  /** Asking for more frames never raises the threshold. */
  lemma ThresholdForCountMonotone(scores: seq<real>, c1: nat, c2: nat)
    requires c1 <= c2
    ensures ThresholdForCount(scores, c2) <= ThresholdForCount(scores, c1)
  {
    if |scores| > 0 {
      var sorted := SortDesc(scores, Identity);
      SortDescSorted(scores, Identity);
      var k1, k2 := Min(c1, |scores| - 1), Min(c2, |scores| - 1);
      if k1 < k2 { assert Identity(sorted[k1]) >= Identity(sorted[k2]); }
    }
  }

  lemma {:induction false} SumPositive(xs: seq<real>)
    requires |xs| > 0
    requires forall i :: 0 <= i < |xs| ==> xs[i] > 0.0
    ensures Sum(xs) > 0.0
  {
    if |xs| > 1 {
      SumPositive(xs[..|xs| - 1]);
    }
  }

  /** With a non-negative square root, the statistical threshold is at least the
      mean, hence positive for positive scores (the source's unit test). */
  lemma StatisticalThresholdAboveMean(scores: seq<real>, sqrt: real -> real)
    requires |scores| > 0
    requires forall v :: v >= 0.0 ==> sqrt(v) >= 0.0
    ensures StatisticalThreshold(scores, sqrt) >= Mean(scores)
    ensures (forall i :: 0 <= i < |scores| ==> scores[i] > 0.0) ==> StatisticalThreshold(scores, sqrt) > 0.0
  {
    assert sqrt(Variance(scores)) >= 0.0;
    if forall i :: 0 <= i < |scores| ==> scores[i] > 0.0 {
      SumPositive(scores);
      SizePositive(scores);
      assert Mean(scores) == Sum(scores) / Size(scores);
    }
  }

  // ---------------------------------------------------------------------
  // Greedy threshold/distance selection (`select_frames_smart`)
  // ---------------------------------------------------------------------

  predicate Qualifies(scores: seq<real>, t: real, i: int) {
    0 <= i < |scores| && scores[i] >= t
  }

  /** The scan from position `idx` on, `last` being the most recently kept index. */
  function SelectFrom(scores: seq<real>, t: real, d: nat, idx: nat, last: Option<nat>): seq<nat>
    requires idx <= |scores|
    requires last.Some? ==> last.value < idx
    decreases |scores| - idx
  {
    if idx == |scores| then []
    else if scores[idx] >= t && (last.None? || idx - last.value >= d) then
      [idx] + SelectFrom(scores, t, d, idx + 1, Some(idx))
    else SelectFrom(scores, t, d, idx + 1, last)
  }

  function SelectSmart(scores: seq<real>, t: real, d: nat): seq<nat> {
    SelectFrom(scores, t, d, 0, None)
  }

  /** Every kept index lies in `[idx, |scores|)` and reaches the threshold. */
  ghost predicate KeptQualify(scores: seq<real>, t: real, idx: nat, r: seq<nat>) {
    forall k :: 0 <= k < |r| ==> idx <= r[k] && Qualifies(scores, t, r[k])
  }

  /** Consecutive kept indices are at least `d` apart. */
  ghost predicate SpacedBy(r: seq<nat>, d: nat) {
    forall k :: 0 <= k < |r| - 1 ==> r[k] + d <= r[k + 1]
  }

  /** Every qualifying index from `idx` on that was skipped lies fewer than `d`
      past `last` or past some kept index before it. */
  ghost predicate SkippedOnlyWhenClose(scores: seq<real>, t: real, d: nat, idx: nat, last: Option<nat>, r: seq<nat>) {
    forall i :: idx <= i && Qualifies(scores, t, i) && i !in r ==>
      (last.Some? && i - last.value < d) || (exists k :: 0 <= k < |r| && r[k] < i < r[k] + d)
  }

  lemma {:induction false} SelectFromBounds(scores: seq<real>, t: real, d: nat, idx: nat, last: Option<nat>)
    requires idx <= |scores|
    requires last.Some? ==> last.value < idx
    ensures KeptQualify(scores, t, idx, SelectFrom(scores, t, d, idx, last))
    decreases |scores| - idx
  {
    if idx < |scores| {
      if scores[idx] >= t && (last.None? || idx - last.value >= d) {
        var rest := SelectFrom(scores, t, d, idx + 1, Some(idx));
        SelectFromBounds(scores, t, d, idx + 1, Some(idx));
        var r := [idx] + rest;
        assert SelectFrom(scores, t, d, idx, last) == r;
        forall k | 0 <= k < |r| ensures idx <= r[k] && Qualifies(scores, t, r[k]) {
          if k > 0 { assert r[k] == rest[k - 1]; }
        }
      } else {
        SelectFromBounds(scores, t, d, idx + 1, last);
      }
    }
  }

  lemma {:induction false} SelectFromOrdered(scores: seq<real>, t: real, d: nat, idx: nat, last: Option<nat>)
    requires idx <= |scores|
    requires last.Some? ==> last.value < idx
    ensures StrictlyIncreasing(SelectFrom(scores, t, d, idx, last))
    ensures SpacedBy(SelectFrom(scores, t, d, idx, last), d)
    ensures last.Some? && |SelectFrom(scores, t, d, idx, last)| > 0 ==>
      last.value + d <= SelectFrom(scores, t, d, idx, last)[0]
    decreases |scores| - idx
  {
    if idx < |scores| {
      if scores[idx] >= t && (last.None? || idx - last.value >= d) {
        var rest := SelectFrom(scores, t, d, idx + 1, Some(idx));
        SelectFromOrdered(scores, t, d, idx + 1, Some(idx));
        SelectFromBounds(scores, t, d, idx + 1, Some(idx));
        ConsIncreasingSpaced(idx, rest, d);
        assert SelectFrom(scores, t, d, idx, last) == [idx] + rest;
      } else {
        SelectFromOrdered(scores, t, d, idx + 1, last);
      }
    }
  }

  /** Putting `x` in front of an increasing, `d`-spaced list that starts at
      least `d` after `x` (and holds only larger values) keeps both properties. */
  lemma ConsIncreasingSpaced(x: nat, rest: seq<nat>, d: nat)
    requires StrictlyIncreasing(rest) && SpacedBy(rest, d)
    requires forall k :: 0 <= k < |rest| ==> x < rest[k]
    requires |rest| > 0 ==> x + d <= rest[0]
    ensures StrictlyIncreasing([x] + rest)
    ensures SpacedBy([x] + rest, d)
  {
    var r := [x] + rest;
    forall a, b | 0 <= a < b < |r| ensures r[a] < r[b] {
      assert r[b] == rest[b - 1];
      if a > 0 {
        assert r[a] == rest[a - 1];
      }
    }
    forall k | 0 <= k < |r| - 1 ensures r[k] + d <= r[k + 1] {
      assert r[k + 1] == rest[k];
      if k > 0 {
        assert r[k] == rest[k - 1];
      }
    }
  }

  lemma {:induction false} SelectFromMaximal(scores: seq<real>, t: real, d: nat, idx: nat, last: Option<nat>)
    requires idx <= |scores|
    requires last.Some? ==> last.value < idx
    ensures SkippedOnlyWhenClose(scores, t, d, idx, last, SelectFrom(scores, t, d, idx, last))
    decreases |scores| - idx
  {
    var r := SelectFrom(scores, t, d, idx, last);
    if idx < |scores| {
      if scores[idx] >= t && (last.None? || idx - last.value >= d) {
        var rest := SelectFrom(scores, t, d, idx + 1, Some(idx));
        SelectFromMaximal(scores, t, d, idx + 1, Some(idx));
        assert r == [idx] + rest;
        forall i | idx <= i && Qualifies(scores, t, i) && i !in r
          ensures exists k :: 0 <= k < |r| && r[k] < i < r[k] + d
        {
          if i - idx < d {
            assert r[0] < i < r[0] + d;
          } else {
            var k :| 0 <= k < |rest| && rest[k] < i < rest[k] + d;
            assert r[k + 1] == rest[k];
          }
        }
      } else {
        SelectFromMaximal(scores, t, d, idx + 1, last);
      }
    }
  }

  /** The kept indices are in range, reach the threshold, strictly increase, and
      consecutive ones are at least `d` apart. */
  lemma SelectSmartSound(scores: seq<real>, t: real, d: nat)
    ensures forall k :: 0 <= k < |SelectSmart(scores, t, d)| ==>
      SelectSmart(scores, t, d)[k] < |scores| && scores[SelectSmart(scores, t, d)[k]] >= t
    ensures StrictlyIncreasing(SelectSmart(scores, t, d))
    ensures SpacedBy(SelectSmart(scores, t, d), d)
  {
    SelectFromBounds(scores, t, d, 0, None);
    SelectFromOrdered(scores, t, d, 0, None);
  }

  /** Greedy maximality: a qualifying index that is not kept lies fewer than `d`
      past some kept index before it. */
  lemma SelectSmartMaximal(scores: seq<real>, t: real, d: nat, i: nat)
    requires Qualifies(scores, t, i)
    requires i !in SelectSmart(scores, t, d)
    ensures exists k :: (0 <= k < |SelectSmart(scores, t, d)| &&
      SelectSmart(scores, t, d)[k] < i < SelectSmart(scores, t, d)[k] + d)
  {
    SelectFromMaximal(scores, t, d, 0, None);
  }

  /** The kept set, characterised: `i` is kept exactly when it qualifies and is at
      least `d` past every kept index before it. */
  lemma SelectSmartCharacterized(scores: seq<real>, t: real, d: nat, i: int)
    ensures var r := SelectSmart(scores, t, d);
      i in r <==> Qualifies(scores, t, i) && forall k :: 0 <= k < |r| && r[k] < i ==> r[k] + d <= i
  {
    var r := SelectSmart(scores, t, d);
    SelectSmartSound(scores, t, d);
    SelectFromMaximal(scores, t, d, 0, None);
    if i in r {
      var m :| 0 <= m < |r| && r[m] == i;
      forall k | 0 <= k < |r| && r[k] < i ensures r[k] + d <= i {
        assert k < m;
        if k < m - 1 { assert r[k] < r[m - 1]; }
        assert r[m - 1] + d <= r[m];
      }
    }
  }

  /** The first qualifying index is always kept, as the first element. */
  lemma SelectSmartKeepsFirst(scores: seq<real>, t: real, d: nat, i: nat)
    requires Qualifies(scores, t, i)
    requires forall j :: 0 <= j < i ==> !Qualifies(scores, t, j)
    ensures |SelectSmart(scores, t, d)| > 0 && SelectSmart(scores, t, d)[0] == i
  {
    var r := SelectSmart(scores, t, d);
    SelectSmartSound(scores, t, d);
    SelectSmartCharacterized(scores, t, d, i);
    forall k | 0 <= k < |r| ensures i <= r[k] {
      if r[k] < i { assert Qualifies(scores, t, r[k]); }
    }
    assert i in r;
  }

  /** The qualifying indices from `idx` on, in order. */
  function QualifyingFrom(scores: seq<real>, t: real, idx: nat): seq<nat>
    requires idx <= |scores|
    decreases |scores| - idx
  {
    if idx == |scores| then []
    else if scores[idx] >= t then [idx] + QualifyingFrom(scores, t, idx + 1)
    else QualifyingFrom(scores, t, idx + 1)
  }

  lemma {:induction false} SelectFromNoDistance(scores: seq<real>, t: real, d: nat, idx: nat, last: Option<nat>)
    requires d <= 1
    requires idx <= |scores|
    requires last.Some? ==> last.value < idx
    ensures SelectFrom(scores, t, d, idx, last) == QualifyingFrom(scores, t, idx)
    decreases |scores| - idx
  {
    if idx < |scores| {
      if scores[idx] >= t {
        SelectFromNoDistance(scores, t, d, idx + 1, Some(idx));
      } else {
        SelectFromNoDistance(scores, t, d, idx + 1, last);
      }
    }
  }

  /** With `min_frame_distance <= 1` the selection is exactly the qualifying indices. */
  lemma SelectSmartNoDistance(scores: seq<real>, t: real, d: nat)
    requires d <= 1
    ensures SelectSmart(scores, t, d) == QualifyingFrom(scores, t, 0)
  {
    SelectFromNoDistance(scores, t, d, 0, None);
  }

  /** The single-pass loop of `select_frames_smart`. */
  method SelectFramesSmart(scores: seq<real>, t: real, d: nat) returns (selected: seq<nat>)
    ensures selected == SelectSmart(scores, t, d)
    ensures forall k :: 0 <= k < |selected| ==> selected[k] < |scores| && scores[selected[k]] >= t
    ensures StrictlyIncreasing(selected)
    ensures SpacedBy(selected, d)
  {
    selected := [];
    var last: Option<nat> := None;
    var idx: nat := 0;
    while idx < |scores|
      invariant idx <= |scores|
      invariant last.Some? ==> last.value < idx
      invariant selected + SelectFrom(scores, t, d, idx, last) == SelectSmart(scores, t, d)
    {
      if scores[idx] >= t {
        if last.Some? && idx - last.value < d {
          idx := idx + 1;
          continue;
        }
        assert SelectFrom(scores, t, d, idx, last) == [idx] + SelectFrom(scores, t, d, idx + 1, Some(idx));
        selected := selected + [idx];
        last := Some(idx);
      }
      idx := idx + 1;
    }
    SelectSmartSound(scores, t, d);
  }
}
