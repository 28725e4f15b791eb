/** Sequence utilities shared by the scoring and selection modules:
    row-major flattening of grids, counting scores against a threshold,
    and the stable descending sort that Rust's `sort_by` performs. */
module Seqs {

  ghost predicate StrictlyIncreasing(s: seq<int>) {
    forall i, j :: 0 <= i < j < |s| ==> s[i] < s[j]
  }

  ghost predicate NoDuplicates<T>(s: seq<T>) {
    forall i, j :: 0 <= i < j < |s| ==> s[i] != s[j]
  }

  // ---------------------------------------------------------------------
  // Row-major flattening (pixel grids are stored row after row)
  // ---------------------------------------------------------------------

  function Flatten<T>(rows: seq<seq<T>>): seq<T> {
    if |rows| == 0 then [] else rows[0] + Flatten(rows[1..])
  }

  lemma MulStep(j: nat, w: nat, n: nat)
    requires j < n
    ensures j * w + w <= n * w
  {
    var k := n - j - 1;
    assert n == j + 1 + k;
    assert n * w == j * w + w + k * w;
    assert k * w >= 0;
  }

  lemma MulComm(a: int, b: int)
    ensures a * b == b * a
  {
  }

  lemma MulPos(a: nat, b: nat)
    requires a >= 1 && b >= 1
    ensures a * b >= 1
  {
  }

  lemma MulMono(a: nat, b: nat, c: nat)
    requires a <= b
    ensures a * c <= b * c
  {
  }

  lemma {:induction false} FlattenLength<T>(rows: seq<seq<T>>, w: nat)
    requires forall j :: 0 <= j < |rows| ==> |rows[j]| == w
    ensures |Flatten(rows)| == |rows| * w
  {
    if |rows| > 0 {
      FlattenLength(rows[1..], w);
      assert |rows| * w == w + (|rows| - 1) * w;
    }
  }

  /** Flattening a grid of rows of equal width `w` places cell (i, j) at `j * w + i`. */
  lemma {:induction false} FlattenAt<T>(rows: seq<seq<T>>, w: nat, j: nat, i: nat)
    requires forall j :: 0 <= j < |rows| ==> |rows[j]| == w
    requires j < |rows| && i < w
    ensures |Flatten(rows)| == |rows| * w
    ensures j * w + i < |Flatten(rows)|
    ensures Flatten(rows)[j * w + i] == rows[j][i]
  {
    FlattenLength(rows, w);
    MulStep(j, w, |rows|);
    if j > 0 {
      var rest := rows[1..];
      FlattenAt(rest, w, j - 1, i);
      var k := (j - 1) * w + i;
      assert j * w + i == w + k;
      assert Flatten(rows) == rows[0] + Flatten(rest);
      assert |rows[0]| == w;
      assert rest[j - 1] == rows[j];
    }
  }

  /** Position of cell (i, j) in a row-major layout with rows of width `w`. */
  function RowMajor(w: nat, j: nat, i: nat): nat {
    j * w + i
  }

  /** `FlattenAt` phrased through `RowMajor`, which keeps the multiplication
      out of the callers' proof context. */
  lemma FlattenAtIndex<T>(rows: seq<seq<T>>, w: nat, j: nat, i: nat)
    requires forall j :: 0 <= j < |rows| ==> |rows[j]| == w
    requires j < |rows| && i < w
    ensures RowMajor(w, j, i) < |Flatten(rows)|
    ensures Flatten(rows)[RowMajor(w, j, i)] == rows[j][i]
  {
    FlattenAt(rows, w, j, i);
  }

  // ---------------------------------------------------------------------
  // Counting scores against a threshold
  // ---------------------------------------------------------------------

  /** Number of scores `s` with `s >= t` (the `filter(|&&s| s >= t).count()` idiom). */
  function CountAtLeast(s: seq<real>, t: real): nat {
    if |s| == 0 then 0 else (if s[0] >= t then 1 else 0) + CountAtLeast(s[1..], t)
  }

  /** Number of scores strictly above `t`. */
  function CountAbove(s: seq<real>, t: real): nat {
    if |s| == 0 then 0 else (if s[0] > t then 1 else 0) + CountAbove(s[1..], t)
  }

  lemma {:induction false} CountAtLeastBounded(s: seq<real>, t: real)
    ensures CountAtLeast(s, t) <= |s|
    ensures CountAtLeast(s, t) == |s| <==> forall i :: 0 <= i < |s| ==> s[i] >= t
  {
    if |s| > 0 {
      CountAtLeastBounded(s[1..], t);
      if forall i :: 0 <= i < |s| ==> s[i] >= t {
        assert forall i :: 0 <= i < |s[1..]| ==> s[1..][i] >= t by {
          forall i | 0 <= i < |s[1..]| ensures s[1..][i] >= t { assert s[1..][i] == s[i + 1]; }
        }
      } else {
        var k :| 0 <= k < |s| && s[k] < t;
        if k > 0 { assert s[1..][k - 1] == s[k]; }
      }
    }
  }

  /** The scores from position `lo` on that reach `t`, counted as a set of positions. */
  lemma {:induction false} CountAtLeastFrom(s: seq<real>, t: real, lo: nat)
    requires lo <= |s|
    ensures CountAtLeast(s[lo..], t) == |set i | lo <= i < |s| && s[i] >= t|
    decreases |s| - lo
  {
    var a := set i | lo <= i < |s| && s[i] >= t;
    if lo == |s| {
      assert a == {};
    } else {
      CountAtLeastFrom(s, t, lo + 1);
      var b := set i | lo + 1 <= i < |s| && s[i] >= t;
      assert s[lo..][1..] == s[lo + 1..];
      if s[lo] >= t {
        assert a == b + {lo};
      } else {
        assert a == b;
      }
    }
  }

  /** `CountAtLeast` is the number of positions whose score reaches `t`. */
  lemma CountAtLeastIsCardinality(s: seq<real>, t: real)
    ensures CountAtLeast(s, t) == |set i | 0 <= i < |s| && s[i] >= t|
  {
    CountAtLeastFrom(s, t, 0);
    assert s[0..] == s;
  }

  /** If the first `k` scores are all `>= t`, at least `k` scores are `>= t`. */
  lemma {:induction false} CountAtLeastPrefix(s: seq<real>, t: real, k: nat)
    requires k <= |s|
    requires forall i :: 0 <= i < k ==> s[i] >= t
    ensures CountAtLeast(s, t) >= k
  {
    if k > 0 {
      assert forall i :: 0 <= i < k - 1 ==> s[1..][i] >= t by {
        forall i | 0 <= i < k - 1 ensures s[1..][i] >= t { assert s[1..][i] == s[i + 1]; }
      }
      CountAtLeastPrefix(s[1..], t, k - 1);
    }
  }

  /** If only the first `k` scores may exceed `t`, at most `k` scores exceed `t`. */
  lemma {:induction false} CountAboveSuffix(s: seq<real>, t: real, k: nat)
    requires k <= |s|
    requires forall i :: k <= i < |s| ==> s[i] <= t
    ensures CountAbove(s, t) <= k
  {
    if |s| > 0 {
      if k == 0 {
        assert s[0] <= t;
        assert forall i :: 0 <= i < |s[1..]| ==> s[1..][i] <= t by {
          forall i | 0 <= i < |s[1..]| ensures s[1..][i] <= t { assert s[1..][i] == s[i + 1]; }
        }
        CountAboveSuffix(s[1..], t, 0);
      } else {
        assert forall i :: k - 1 <= i < |s[1..]| ==> s[1..][i] <= t by {
          forall i | k - 1 <= i < |s[1..]| ensures s[1..][i] <= t { assert s[1..][i] == s[i + 1]; }
        }
        CountAboveSuffix(s[1..], t, k - 1);
      }
    }
  }

  // ---------------------------------------------------------------------
  // Stable sort by descending key (Rust `sort_by(|a, b| key(b).cmp(key(a)))`)
  // ---------------------------------------------------------------------

  function Identity(x: real): real { x }

  ghost predicate SortedDesc<T>(s: seq<T>, key: T -> real) {
    forall i, j :: 0 <= i < j < |s| ==> key(s[i]) >= key(s[j])
  }

  /** Inserts `x` in front of the first element whose key is not larger:
      `x` precedes every element of equal key already in `ys`. */
  function Insert<T>(x: T, ys: seq<T>, key: T -> real): (r: seq<T>)
    ensures multiset(r) == multiset{x} + multiset(ys)
    ensures |r| == |ys| + 1
  {
    if |ys| == 0 || key(ys[0]) <= key(x) then [x] + ys
    else
      assert ys == [ys[0]] + ys[1..];
      [ys[0]] + Insert(x, ys[1..], key)
  }

  /** Stable insertion sort, largest key first. */
  function SortDesc<T>(s: seq<T>, key: T -> real): (r: seq<T>)
    ensures multiset(r) == multiset(s)
    ensures |r| == |s|
  {
    if |s| == 0 then []
    else
      assert s == [s[0]] + s[1..];
      Insert(s[0], SortDesc(s[1..], key), key)
  }

  lemma {:induction false} InsertSorted<T>(x: T, ys: seq<T>, key: T -> real)
    requires SortedDesc(ys, key)
    ensures SortedDesc(Insert(x, ys, key), key)
  {
    if |ys| > 0 && key(ys[0]) > key(x) {
      var tail := ys[1..];
      InsertSorted(x, tail, key);
      var r := Insert(x, ys, key);
      var rt := Insert(x, tail, key);
      assert r == [ys[0]] + rt;
      forall k | 0 <= k < |rt| ensures key(ys[0]) >= key(rt[k]) {
        assert rt[k] in multiset(rt);
        if rt[k] != x {
          assert rt[k] in multiset(tail);
          var m :| 0 <= m < |tail| && tail[m] == rt[k];
          assert tail[m] == ys[m + 1];
        }
      }
    }
  }

  /** The sort orders by non-increasing key. */
  lemma {:induction false} SortDescSorted<T>(s: seq<T>, key: T -> real)
    ensures SortedDesc(SortDesc(s, key), key)
  {
    if |s| > 0 {
      SortDescSorted(s[1..], key);
      InsertSorted(s[0], SortDesc(s[1..], key), key);
    }
  }

  /** Strict order "larger key first, then smaller rank": the order a stable
      descending sort produces from an input listed by increasing rank. */
  ghost predicate SortedDescThenRank<T>(s: seq<T>, key: T -> real, rank: T -> int) {
    forall i, j :: 0 <= i < j < |s| ==>
      key(s[i]) > key(s[j]) || (key(s[i]) == key(s[j]) && rank(s[i]) < rank(s[j]))
  }

  lemma {:induction false} InsertStable<T>(x: T, ys: seq<T>, key: T -> real, rank: T -> int)
    requires SortedDescThenRank(ys, key, rank)
    requires forall k :: 0 <= k < |ys| ==> rank(x) < rank(ys[k])
    ensures SortedDescThenRank(Insert(x, ys, key), key, rank)
  {
    if |ys| > 0 && key(ys[0]) > key(x) {
      var tail := ys[1..];
      InsertStable(x, tail, key, rank);
      var rt := Insert(x, tail, key);
      assert Insert(x, ys, key) == [ys[0]] + rt;
      forall k | 0 <= k < |rt|
        ensures key(ys[0]) > key(rt[k]) || (key(ys[0]) == key(rt[k]) && rank(ys[0]) < rank(rt[k]))
      {
        assert rt[k] in multiset(rt);
        if rt[k] != x {
          assert rt[k] in multiset(tail);
          var m :| 0 <= m < |tail| && tail[m] == rt[k];
          assert tail[m] == ys[m + 1];
        }
      }
    }
  }

  /** Stability: when the input is listed by strictly increasing rank, equal keys
      keep that order, so the output is strictly ordered by (key desc, rank asc). */
  lemma {:induction false} SortDescStable<T>(s: seq<T>, key: T -> real, rank: T -> int)
    requires forall i, j :: 0 <= i < j < |s| ==> rank(s[i]) < rank(s[j])
    ensures SortedDescThenRank(SortDesc(s, key), key, rank)
  {
    if |s| > 0 {
      var tail := s[1..];
      SortDescStable(tail, key, rank);
      var st := SortDesc(tail, key);
      forall k | 0 <= k < |st| ensures rank(s[0]) < rank(st[k]) {
        assert st[k] in multiset(tail);
        var m :| 0 <= m < |tail| && tail[m] == st[k];
        assert tail[m] == s[m + 1];
      }
      InsertStable(s[0], st, key, rank);
    }
  }

  lemma {:induction false} InsertCounts(x: real, ys: seq<real>, t: real)
    ensures CountAtLeast(Insert(x, ys, Identity), t) == CountAtLeast([x], t) + CountAtLeast(ys, t)
    ensures CountAbove(Insert(x, ys, Identity), t) == CountAbove([x], t) + CountAbove(ys, t)
  {
    var r := Insert(x, ys, Identity);
    if |ys| == 0 || ys[0] <= x {
      assert r == [x] + ys;
      assert r[1..] == ys;
    } else {
      InsertCounts(x, ys[1..], t);
      assert r[1..] == Insert(x, ys[1..], Identity);
    }
  }

  /** Sorting a multiset of scores does not change how many pass a threshold. */
  lemma {:induction false} SortPreservesCounts(s: seq<real>, t: real)
    ensures CountAtLeast(SortDesc(s, Identity), t) == CountAtLeast(s, t)
    ensures CountAbove(SortDesc(s, Identity), t) == CountAbove(s, t)
  {
    if |s| > 0 {
      SortPreservesCounts(s[1..], t);
      InsertCounts(s[0], SortDesc(s[1..], Identity), t);
    }
  }
}
