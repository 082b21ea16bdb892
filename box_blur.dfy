/**
 * The box filters of the blur engine over one row-major plane of `w * h`
 * samples: `box_blur_horizontal` (a sliding-window, edge-clamped row mean),
 * `box_blur_total` (nominally the column pass, but its cursors never move,
 * so it only rewrites the top row) and `box_blur_full`, which chains them
 * through a second plane.
 *
 * The specification functions work on `seq<int>` so that they can describe
 * accumulator values outside the byte range; the methods work on the
 * `png_byte` arrays of the source.
 */
module BoxBlur {
  import opened Numeric

  // ---------------------------------------------------------------------
  // Horizontal pass: specification
  // ---------------------------------------------------------------------

  /**
   * Sum of the `n` samples of the `w`-wide row starting at `base`, taken at
   * columns `lo, lo + 1, ..., lo + n - 1`, each column clamped into
   * `0 .. w - 1` (edge replication).
   */
  function RowWindowSum(s: seq<int>, base: int, w: int, lo: int, n: nat): (sum: int)
    requires w >= 1 && 0 <= base && base + w <= |s|
    ensures AllBytes(s) ==> 0 <= sum <= 255 * n
  {
    if n == 0 then 0
    else RowWindowSum(s, base, w, lo, n - 1) + s[base + Clamp(lo + n - 1, 0, w - 1)]
  }

  /** Moving the window one column right adds the sample entering and drops the one leaving. */
  lemma {:induction false} WindowSlide(s: seq<int>, base: int, w: int, lo: int, n: nat)
    requires w >= 1 && 0 <= base && base + w <= |s|
    ensures RowWindowSum(s, base, w, lo, n)
         == RowWindowSum(s, base, w, lo - 1, n) + s[base + Clamp(lo - 1 + n, 0, w - 1)] - s[base + Clamp(lo - 1, 0, w - 1)]
  {
    if n > 0 {
      WindowSlide(s, base, w, lo, n - 1);
    }
  }

  /** A window lying wholly at or left of column 0 sums `n` copies of the row's first sample. */
  lemma {:induction false} WindowLeftEdge(s: seq<int>, base: int, w: int, lo: int, n: nat)
    requires w >= 1 && 0 <= base && base + w <= |s| && lo + n <= 1
    ensures RowWindowSum(s, base, w, lo, n) == n * s[base]
  {
    if n > 0 {
      WindowLeftEdge(s, base, w, lo, n - 1);
    }
  }

  /** A window over a plane of equal samples sums `n` copies of that sample. */
  lemma {:induction false} WindowOfUniform(s: seq<int>, base: int, w: int, lo: int, n: nat, v: int)
    requires w >= 1 && 0 <= base && base + w <= |s|
    requires forall k :: 0 <= k < |s| ==> s[k] == v
    ensures RowWindowSum(s, base, w, lo, n) == n * v
  {
    if n > 0 {
      WindowOfUniform(s, base, w, lo, n - 1, v);
    }
  }

  /**
   * Column `c` of the horizontal blur of the row at `base`: the mean of the
   * `2r + 1` clamped samples centred on `c`, rounded to nearest.
   */
  function HorizontalCell(s: seq<int>, base: int, w: int, c: int, r: nat): (v: int)
    requires w >= 1 && 0 <= base && base + w <= |s|
    ensures AllBytes(s) ==> IsByte(v)
  {
    var sum := RowWindowSum(s, base, w, c - r, 2 * r + 1);
    RoundMeanByte(sum, r);
    RoundMean(sum, r)
  }

  /** The horizontal blur of a `w`-wide plane of `h` rows: cell `m` lies in row `m / w`, column `m % w`. */
  function HorizontalBlur(s: seq<int>, w: int, h: int, r: nat): (t: seq<int>)
    requires w >= 1 && |s| == w * h
    ensures |t| == |s|
  {
    seq(|s|, m requires 0 <= m < |s| =>
      IndexRow(m, w, h);
      CellIndex(m / w, m % w, w, h);
      HorizontalCell(s, m / w * w, w, m % w, r))
  }

  /** Cell `c` of row `i` (which starts at `base == i * w`) of the horizontal blur is the row's blurred cell `c`. */
  lemma HorizontalBlurAt(s: seq<int>, w: int, h: int, r: nat, i: int, base: int, c: int)
    requires w >= 1 && |s| == w * h && 0 <= i < h && base == i * w && 0 <= c < w
    ensures 0 <= base && base + w <= |s|
    ensures HorizontalBlur(s, w, h, r)[base + c] == HorizontalCell(s, base, w, c, r)
  {
    CellIndex(i, c, w, h);
    RowMajor(i, c, w);
  }

  /** The horizontal blur of a byte plane is a byte plane. */
  lemma HorizontalBlurBytes(s: seq<int>, w: int, h: int, r: nat)
    requires w >= 1 && |s| == w * h && AllBytes(s)
    ensures AllBytes(HorizontalBlur(s, w, h, r))
  {
    var t := HorizontalBlur(s, w, h, r);
    forall m | 0 <= m < |t|
      ensures IsByte(t[m])
    {
      IndexRow(m, w, h);
      CellIndex(m / w, m % w, w, h);
      assert t[m] == HorizontalCell(s, m / w * w, w, m % w, r);
    }
  }

  /** With radius 0 the horizontal blur is an exact copy. */
  lemma HorizontalBlurZero(s: seq<int>, w: int, h: int)
    requires w >= 1 && |s| == w * h
    ensures HorizontalBlur(s, w, h, 0) == s
  {
    var t := HorizontalBlur(s, w, h, 0);
    forall m | 0 <= m < |s|
      ensures t[m] == s[m]
    {
      IndexRow(m, w, h);
      CellIndex(m / w, m % w, w, h);
      var base := m / w * w;
      assert RowWindowSum(s, base, w, m % w, 1) == s[m];
      RoundMeanExact(s[m], 0);
    }
  }

  /** The horizontal blur of a plane of equal samples is that plane. */
  lemma HorizontalBlurUniform(s: seq<int>, w: int, h: int, r: nat, v: int)
    requires w >= 1 && |s| == w * h
    requires forall k :: 0 <= k < |s| ==> s[k] == v
    ensures HorizontalBlur(s, w, h, r) == s
  {
    var t := HorizontalBlur(s, w, h, r);
    forall m | 0 <= m < |s|
      ensures t[m] == s[m]
    {
      IndexRow(m, w, h);
      CellIndex(m / w, m % w, w, h);
      WindowOfUniform(s, m / w * w, w, m % w - r, 2 * r + 1, v);
      assert (2 * r + 1) * v == v * (2 * r + 1);
      RoundMeanExact(v, r);
    }
  }

  /**
   * One step of the row sweep for column `j`: the window sum moves right by
   * one, and its rounded mean is the blurred cell, a byte.
   */
  lemma SlideWrite(s: seq<int>, base: int, w: int, r: nat, j: int, val: int, entering: int, leaving: int)
    requires w >= 1 && 0 <= base && base + w <= |s| && AllBytes(s)
    requires val == RowWindowSum(s, base, w, j - r - 1, 2 * r + 1)
    requires entering == s[base + Clamp(j + r, 0, w - 1)] && leaving == s[base + Clamp(j - r - 1, 0, w - 1)]
    ensures val + entering - leaving == RowWindowSum(s, base, w, j + 1 - r - 1, 2 * r + 1)
    ensures RoundMean(val + entering - leaving, r) == HorizontalCell(s, base, w, j, r)
    ensures IsByte(RoundMean(val + entering - leaving, r))
  {
    WindowSlide(s, base, w, j - r, 2 * r + 1);
    assert j + 1 - r - 1 == j - r;
  }

  /**
   * The target plane `t` after the row sweep at `base` has written its first
   * `j` cells: those hold the blurred cells, every other cell is unchanged.
   */
  function RowWritten(t: seq<int>, s: seq<int>, base: int, w: int, r: nat, j: int): (u: seq<int>)
    requires w >= 1 && 0 <= base && base + w <= |s| && |t| == |s|
    ensures |u| == |t|
  {
    seq(|t|, k requires 0 <= k < |t| =>
      if base <= k < base + j then HorizontalCell(s, base, w, k - base, r) else t[k])
  }

  /** Before the sweep writes anything the target is unchanged. */
  lemma RowWrittenNone(t: seq<int>, s: seq<int>, base: int, w: int, r: nat)
    requires w >= 1 && 0 <= base && base + w <= |s| && |t| == |s|
    ensures RowWritten(t, s, base, w, r, 0) == t
  {
  }

  /** Writing cell `j` of the row extends the written prefix by one. */
  lemma RowWrittenStep(t: seq<int>, s: seq<int>, base: int, w: int, r: nat, j: int)
    requires w >= 1 && 0 <= base && base + w <= |s| && |t| == |s| && 0 <= j < w
    ensures RowWritten(t, s, base, w, r, j)[base + j := HorizontalCell(s, base, w, j, r)]
         == RowWritten(t, s, base, w, r, j + 1)
  {
  }

  // ---------------------------------------------------------------------
  // Horizontal pass: `box_blur_horizontal`
  // ---------------------------------------------------------------------

  /**
   * One row of `box_blur_horizontal`: the sweep over the row starting at
   * `ti == base`, with the running window sum `val` and the cursors `ti`
   * (write), `li` (leaving sample) and `ri` (entering sample). Writes the
   * row's `w` cells of `tcl` and nothing else. The first loop moves `ri`
   * up to `ti + 2r`, so a row must be at least `2r + 1` wide.
   */
  method BoxBlurRow(scl: array<Byte>, tcl: array<Byte>, w: int, r: int, base: int)
    requires scl != tcl && scl.Length == tcl.Length
    requires r >= 0 && 2 * r + 1 <= w && 0 <= base && base + w <= scl.Length
    modifies tcl
    ensures tcl[..] == RowWritten(old(tcl[..]), scl[..], base, w, r, w)
  {
    ghost var t0 := tcl[..];
    var firstVal := scl[base];
    var lastVal := scl[base + w - 1];
    var val := RowPrime(scl, w, r, base);
    RowWrittenNone(t0, scl[..], base, w, r);
    val := SweepEntering(scl, tcl, w, r, base, val, firstVal, t0);
    val := SweepSliding(scl, tcl, w, r, base, val, t0);
    SweepLeaving(scl, tcl, w, r, base, val, lastVal, t0);
  }

  /**
   * The first loop of the sweep: `val` starts as `r + 1` copies of the row's
   * first sample and adds the samples at `ti + 0 .. ti + r - 1`, which is the
   * clamped window sum for column `-1`.
   */
  method RowPrime(scl: array<Byte>, w: int, r: int, base: int) returns (val: int)
    requires r >= 0 && 2 * r + 1 <= w && 0 <= base && base + w <= scl.Length
    ensures val == RowWindowSum(scl[..], base, w, -r - 1, 2 * r + 1)
  {
    ghost var s := scl[..];
    var ti := base;
    val := (r + 1) * scl[ti];
    WindowLeftEdge(s, base, w, -r - 1, r + 1);
    for j := 0 to r
      invariant val == RowWindowSum(s, base, w, -r - 1, r + 1 + j)
    {
      val := val + scl[ti + j];
    }
  }

  /**
   * The second loop, columns `0 .. r`: the sample at `ri` enters and the
   * replicated first sample leaves.
   */
  method SweepEntering(scl: array<Byte>, tcl: array<Byte>, w: int, r: int, base: int, val0: int, firstVal: int, ghost t0: seq<int>)
      returns (val: int)
    requires scl != tcl && scl.Length == tcl.Length && |t0| == tcl.Length
    requires r >= 0 && 2 * r + 1 <= w && 0 <= base && base + w <= scl.Length
    requires firstVal == scl[base]
    requires val0 == RowWindowSum(scl[..], base, w, -r - 1, 2 * r + 1)
    requires tcl[..] == RowWritten(t0, scl[..], base, w, r, 0)
    modifies tcl
    ensures val == RowWindowSum(scl[..], base, w, 0, 2 * r + 1)
    ensures tcl[..] == RowWritten(t0, scl[..], base, w, r, r + 1)
  {
    ghost var s := scl[..];
    assert AllBytes(s);
    val := val0;
    var ti := base;
    var ri := base + r;
    for j := 0 to r + 1
      invariant ti == base + j && ri == base + r + j
      invariant val == RowWindowSum(s, base, w, j - r - 1, 2 * r + 1)
      invariant tcl[..] == RowWritten(t0, s, base, w, r, j)
    {
      SlideWrite(s, base, w, r, j, val, scl[ri], firstVal);
      val := val + scl[ri] - firstVal;
      ri := ri + 1;
      RowWrittenStep(t0, s, base, w, r, j);
      tcl[ti] := RoundMean(val, r);
      ti := ti + 1;
    }
  }

  /**
   * The third loop, columns `r + 1 .. w - r - 1`: the sample at `ri` enters
   * and the one at `li` leaves.
   */
  method SweepSliding(scl: array<Byte>, tcl: array<Byte>, w: int, r: int, base: int, val0: int, ghost t0: seq<int>)
      returns (val: int)
    requires scl != tcl && scl.Length == tcl.Length && |t0| == tcl.Length
    requires r >= 0 && 2 * r + 1 <= w && 0 <= base && base + w <= scl.Length
    requires val0 == RowWindowSum(scl[..], base, w, 0, 2 * r + 1)
    requires tcl[..] == RowWritten(t0, scl[..], base, w, r, r + 1)
    modifies tcl
    ensures val == RowWindowSum(scl[..], base, w, w - 2 * r - 1, 2 * r + 1)
    ensures tcl[..] == RowWritten(t0, scl[..], base, w, r, w - r)
  {
    ghost var s := scl[..];
    assert AllBytes(s);
    val := val0;
    var ti := base + r + 1;
    var li := base;
    var ri := base + 2 * r + 1;
    for j := r + 1 to w - r
      invariant ti == base + j && li == base + j - r - 1 && ri == base + r + j
      invariant val == RowWindowSum(s, base, w, j - r - 1, 2 * r + 1)
      invariant tcl[..] == RowWritten(t0, s, base, w, r, j)
    {
      SlideWrite(s, base, w, r, j, val, scl[ri], scl[li]);
      val := val + scl[ri] - scl[li];
      ri := ri + 1;
      li := li + 1;
      RowWrittenStep(t0, s, base, w, r, j);
      tcl[ti] := RoundMean(val, r);
      ti := ti + 1;
    }
  }

  /**
   * The fourth loop, columns `w - r .. w - 1`: the replicated last sample
   * enters and the one at `li` leaves.
   */
  method SweepLeaving(scl: array<Byte>, tcl: array<Byte>, w: int, r: int, base: int, val0: int, lastVal: int, ghost t0: seq<int>)
    requires scl != tcl && scl.Length == tcl.Length && |t0| == tcl.Length
    requires r >= 0 && 2 * r + 1 <= w && 0 <= base && base + w <= scl.Length
    requires lastVal == scl[base + w - 1]
    requires val0 == RowWindowSum(scl[..], base, w, w - 2 * r - 1, 2 * r + 1)
    requires tcl[..] == RowWritten(t0, scl[..], base, w, r, w - r)
    modifies tcl
    ensures tcl[..] == RowWritten(t0, scl[..], base, w, r, w)
  {
    ghost var s := scl[..];
    assert AllBytes(s);
    var val := val0;
    var ti := base + w - r;
    var li := base + w - 2 * r - 1;
    for j := w - r to w
      invariant ti == base + j && li == base + j - r - 1
      invariant val == RowWindowSum(s, base, w, j - r - 1, 2 * r + 1)
      invariant tcl[..] == RowWritten(t0, s, base, w, r, j)
    {
      SlideWrite(s, base, w, r, j, val, lastVal, scl[li]);
      val := val + lastVal - scl[li];
      li := li + 1;
      RowWrittenStep(t0, s, base, w, r, j);
      tcl[ti] := RoundMean(val, r);
      ti := ti + 1;
    }
  }

  /** The target plane once the sweeps have written its first `n` cells: those are blurred, the rest unchanged. */
  function PlaneWritten(t: seq<int>, s: seq<int>, w: int, h: int, r: nat, n: int): (u: seq<int>)
    requires w >= 1 && |s| == w * h && |t| == |s|
    ensures |u| == |t|
  {
    var blurred := HorizontalBlur(s, w, h, r);
    seq(|t|, k requires 0 <= k < |t| => if k < n then blurred[k] else t[k])
  }

  /** Nothing written leaves the target as it was; all `h` rows written make it the horizontal blur. */
  lemma PlaneWrittenEnds(t: seq<int>, s: seq<int>, w: int, h: int, r: nat)
    requires w >= 1 && |s| == w * h && |t| == |s|
    ensures PlaneWritten(t, s, w, h, r, 0) == t
    ensures PlaneWritten(t, s, w, h, r, h * w) == HorizontalBlur(s, w, h, r)
  {
    assert h * w == |s|;
  }

  /** Sweeping the row at `base == i * w` of a plane blurred up to `base` blurs it up to `base + w`. */
  lemma PlaneWrittenStep(t: seq<int>, s: seq<int>, w: int, h: int, r: nat, i: int, base: int)
    requires w >= 1 && |s| == w * h && |t| == |s| && 0 <= i < h && base == i * w
    ensures 0 <= base && base + w <= |s| && base + w == (i + 1) * w
    ensures RowWritten(PlaneWritten(t, s, w, h, r, base), s, base, w, r, w) == PlaneWritten(t, s, w, h, r, (i + 1) * w)
  {
    HorizontalBlurAt(s, w, h, r, i, base, 0);
    var u := RowWritten(PlaneWritten(t, s, w, h, r, base), s, base, w, r, w);
    var v := PlaneWritten(t, s, w, h, r, base + w);
    forall k | base <= k < base + w
      ensures u[k] == v[k]
    {
      HorizontalBlurAt(s, w, h, r, i, base, k - base);
    }
    assert u == v;
  }

  /**
   * `box_blur_horizontal(scl, tcl, w, h, r)`: one sweep per row `i`, from
   * `ti = i * w`. Writes all `w * h` cells of `tcl` with the horizontal blur
   * of `scl`, and reads `scl` only.
   */
  method BoxBlurHorizontal(scl: array<Byte>, tcl: array<Byte>, w: int, h: int, r: int)
    requires scl != tcl
    requires w >= 1 && h >= 0 && r >= 0 && 2 * r + 1 <= w
    requires scl.Length == w * h && tcl.Length == w * h
    modifies tcl
    ensures tcl[..] == HorizontalBlur(scl[..], w, h, r)
  {
    ghost var s := scl[..];
    ghost var t0 := tcl[..];
    PlaneWrittenEnds(t0, s, w, h, r);
    for i := 0 to h
      invariant tcl[..] == PlaneWritten(t0, s, w, h, r, i * w)
    {
      var ti := i * w;
      PlaneWrittenStep(t0, s, w, h, r, i, ti);
      BoxBlurRow(scl, tcl, w, r, ti);
    }
  }

  // ---------------------------------------------------------------------
  // "Column" pass: specification
  // ---------------------------------------------------------------------

  /** Column `i` of a `w`-wide plane of `h` rows: its `j`-th sample is `scl[i + j * w]`. */
  function Column(s: seq<int>, w: int, h: int, i: int): (col: seq<int>)
    requires w >= 1 && |s| == w * h && 0 <= i < w
    ensures |col| == h
  {
    seq(h, j requires 0 <= j < h => CellIndex(j, i, w, h); s[j * w + i])
  }

  /** Sum of the first `n` samples of `col`. */
  function HeadSum(col: seq<int>, n: nat): int
    requires n <= |col|
  {
    if n == 0 then 0 else HeadSum(col, n - 1) + col[n - 1]
  }

  /**
   * Number of updates of `val` (and writes of `tcl[ti]`) while `ri` is the
   * entering cursor: the `r + 1` of the first loop and the `h - 2r - 1`
   * (none if negative) of the second.
   */
  function TotalLeading(h: int, r: nat): nat
  {
    r + 1 + Max(0, h - 2 * r - 1)
  }

  /** Number of updates of `val` for one column: the third loop adds `r` more. */
  function TotalUpdates(h: int, r: nat): nat
  {
    TotalLeading(h, r) + r
  }

  /** The sample that enters at update `k` (counted from 0) of a column's accumulator. */
  function EnteringSample(col: seq<int>, r: nat, k: nat): int
    requires r < |col|
  {
    if k < TotalLeading(|col|, r) then col[r] else col[|col| - 1]
  }

  /**
   * The accumulator of `box_blur_total` for a column `col` after `k`
   * updates. It starts as `(r + 1) * col[0]` plus the column's first `r`
   * samples. Since `ti`, `li` and `ri` never move, every update of the
   * first two loops adds `col[r]` and every update of the third adds
   * `col[h - 1]`, and every update drops `col[0]`.
   */
  function ColumnAccumulator(col: seq<int>, r: nat, k: nat): int
    requires r < |col|
  {
    if k == 0 then (r + 1) * col[0] + HeadSum(col, r)
    else ColumnAccumulator(col, r, k - 1) + EnteringSample(col, r, k - 1) - col[0]
  }

  /**
   * Closed form of the accumulator: `k` updates (up to `m`, the number with
   * `ri` entering) move it by `k * (col[r] - col[0])`, later ones by
   * `col[h - 1] - col[0]` each.
   */
  lemma {:induction false} ColumnAccumulatorClosed(col: seq<int>, r: nat, k: nat)
    requires r < |col|
    ensures var a, b, z, m := col[0], col[r], col[|col| - 1], TotalLeading(|col|, r);
      ColumnAccumulator(col, r, k)
        == ColumnAccumulator(col, r, 0) + Min(k, m) * (b - a) + Max(0, k - m) * (z - a)
  {
    if k > 0 {
      ColumnAccumulatorClosed(col, r, k - 1);
      var a, b, z, m := col[0], col[r], col[|col| - 1], TotalLeading(|col|, r);
      var lead, trail := Min(k - 1, m), Max(0, k - 1 - m);
      if k - 1 < m {
        assert Min(k, m) == lead + 1 && Max(0, k - m) == trail;
        assert (lead + 1) * (b - a) == lead * (b - a) + (b - a);
      } else {
        assert Min(k, m) == lead && Max(0, k - m) == trail + 1;
        assert (trail + 1) * (z - a) == trail * (z - a) + (z - a);
      }
    }
  }

  /** Every value written for the column is a byte (otherwise the `png_byte` narrowing is undefined). */
  predicate ColumnInRange(col: seq<int>, r: nat)
    requires r < |col|
  {
    forall k :: 1 <= k <= TotalUpdates(|col|, r) ==> IsByte(RoundMean(ColumnAccumulator(col, r, k), r))
  }

  /** The `k`-th value written for a column in range is a byte. */
  lemma ColumnWriteInRange(col: seq<int>, r: nat, k: nat)
    requires r < |col| && ColumnInRange(col, r) && 1 <= k <= TotalUpdates(|col|, r)
    ensures IsByte(RoundMean(ColumnAccumulator(col, r, k), r))
  {
  }

  /** The value the last write leaves in the column's top cell. */
  function ColumnResult(col: seq<int>, r: nat): (c: int)
    requires r < |col|
    ensures ColumnInRange(col, r) ==> IsByte(c)
  {
    RoundMean(ColumnAccumulator(col, r, TotalUpdates(|col|, r)), r)
  }

  /** Every value `box_blur_total` narrows into a `png_byte`, in every column, is in 0..255. */
  predicate TotalInRange(s: seq<int>, w: int, h: int, r: nat)
    requires w >= 1 && |s| == w * h && r < h
  {
    forall i :: 0 <= i < w ==> ColumnInRange(Column(s, w, h, i), r)
  }

  /** The top row `box_blur_total` leaves in `tcl`. */
  function TotalTopRow(s: seq<int>, w: int, h: int, r: nat): (top: seq<int>)
    requires w >= 1 && |s| == w * h && r < h
    ensures |top| == w
    ensures TotalInRange(s, w, h, r) ==> AllBytes(top)
  {
    seq(w, i requires 0 <= i < w => ColumnResult(Column(s, w, h, i), r))
  }

  /**
   * The narrowing leaves 0..255 on an ordinary column: on the column
   * `0, 255, 255, 255, 255` with radius 1, the fourth update has added
   * `255 - 0` four times, and `round(1020 / 3)` is 340.
   */
  lemma TotalNarrowingOutOfRange()
    ensures var col := [0, 255, 255, 255, 255];
      ColumnAccumulator(col, 1, 4) == 1020 && RoundMean(1020, 1) == 340 && !ColumnInRange(col, 1)
      && !TotalInRange(col, 1, 5, 1)
  {
    var col := [0, 255, 255, 255, 255];
    ColumnAccumulatorClosed(col, 1, 4);
    assert TotalLeading(5, 1) == 4;
    assert Column(col, 1, 5, 0) == col;
  }

  /** The first `n` samples of a column of equal samples sum to `n * v`. */
  lemma {:induction false} HeadSumUniform(col: seq<int>, n: nat, v: int)
    requires n <= |col| && forall j :: 0 <= j < |col| ==> col[j] == v
    ensures HeadSum(col, n) == n * v
  {
    if n > 0 {
      HeadSumUniform(col, n - 1, v);
      assert (n - 1) * v + v == n * v;
    }
  }

  /** On a column of equal bytes every accumulator is `(2r + 1) * v`, so the top cell stays `v`. */
  lemma ColumnUniform(col: seq<int>, r: nat, v: int)
    requires r < |col| && IsByte(v) && forall j :: 0 <= j < |col| ==> col[j] == v
    ensures ColumnInRange(col, r) && ColumnResult(col, r) == v
  {
    HeadSumUniform(col, r, v);
    assert (r + 1) * v + r * v == v * (2 * r + 1);
    forall k: nat
      ensures ColumnAccumulator(col, r, k) == v * (2 * r + 1)
    {
      ColumnAccumulatorClosed(col, r, k);
      assert col[r] - col[0] == 0 && col[|col| - 1] - col[0] == 0;
    }
    RoundMeanExact(v, r);
  }

  /** With radius 0 every accumulator of a column is its top sample. */
  lemma ColumnZero(col: seq<int>)
    requires 0 < |col| && IsByte(col[0])
    ensures ColumnInRange(col, 0) && ColumnResult(col, 0) == col[0]
  {
    forall k: nat | k <= TotalUpdates(|col|, 0)
      ensures ColumnAccumulator(col, 0, k) == col[0]
    {
      ColumnAccumulatorClosed(col, 0, k);
      assert Max(0, k - TotalLeading(|col|, 0)) == 0;
    }
    RoundMeanExact(col[0], 0);
  }

  /** On a plane of equal bytes `box_blur_total` is defined and writes back the top row unchanged. */
  lemma TotalUniform(s: seq<int>, w: int, h: int, r: nat, v: int)
    requires w >= 1 && |s| == w * h && r < h && IsByte(v)
    requires forall k :: 0 <= k < |s| ==> s[k] == v
    ensures TotalInRange(s, w, h, r)
    ensures TotalTopRow(s, w, h, r) == s[..w]
  {
    CellIndex(0, 0, w, h);
    forall i | 0 <= i < w
      ensures ColumnInRange(Column(s, w, h, i), r) && ColumnResult(Column(s, w, h, i), r) == v
    {
      var col := Column(s, w, h, i);
      forall j | 0 <= j < h
        ensures col[j] == v
      {
        CellIndex(j, i, w, h);
      }
      ColumnUniform(col, r, v);
    }
    assert TotalTopRow(s, w, h, r) == s[..w];
  }

  /** With radius 0 `box_blur_total` is defined on a byte plane and writes back the top row unchanged. */
  lemma TotalZero(s: seq<int>, w: int, h: int)
    requires w >= 1 && |s| == w * h && 0 < h && AllBytes(s)
    ensures TotalInRange(s, w, h, 0)
    ensures TotalTopRow(s, w, h, 0) == s[..w]
  {
    CellIndex(0, 0, w, h);
    forall i | 0 <= i < w
      ensures ColumnInRange(Column(s, w, h, i), 0) && ColumnResult(Column(s, w, h, i), 0) == s[i]
    {
      var col := Column(s, w, h, i);
      CellIndex(0, i, w, h);
      assert col[0] == s[i];
      ColumnZero(col);
    }
  }

  // ---------------------------------------------------------------------
  // "Column" pass: `box_blur_total`
  // ---------------------------------------------------------------------

  /**
   * One column of `box_blur_total` as written: `ti = li = i` and
   * `ri = i + r*w` never advance, so all `TotalUpdates(h, r)` writes go to
   * `tcl[i]`. The reads stay in bounds as long as `r < h`.
   */
  method BoxBlurColumn(scl: array<Byte>, tcl: array<Byte>, w: int, h: int, r: int, i: int)
    requires scl != tcl
    requires w >= 1 && 0 <= r < h && 0 <= i < w
    requires scl.Length == w * h && tcl.Length == w * h
    requires ColumnInRange(Column(scl[..], w, h, i), r)
    modifies tcl
    ensures tcl[i] == ColumnResult(Column(scl[..], w, h, i), r)
    ensures tcl[..] == old(tcl[..])[i := tcl[i]]
  {
    ghost var col := Column(scl[..], w, h, i);
    CellIndex(0, i, w, h);
    CellIndex(r, i, w, h);
    CellIndex(h - 1, i, w, h);
    var ti := i;
    var li := ti;
    var ri := ti + r * w;
    var firstVal := scl[ti];
    var lastVal := scl[ti + w * (h - 1)];
    assert firstVal == col[0] && scl[ri] == col[r] && scl[li] == col[0];
    assert lastVal == col[h - 1];
    var val := ColumnPrime(scl, w, h, r, i);
    val := ColumnEntering(scl, tcl, w, h, r, ti, ri, firstVal, val, col);
    val := ColumnSliding(scl, tcl, w, h, r, ti, li, ri, val, col);
    val := ColumnLeaving(scl, tcl, w, h, r, ti, li, lastVal, val, col);
  }

  /**
   * The first loop of a column: `val` starts as `r + 1` copies of the
   * column's top sample and adds the samples at `ti + j * w` for `j < r`.
   */
  method ColumnPrime(scl: array<Byte>, w: int, h: int, r: int, i: int) returns (val: int)
    requires w >= 1 && 0 <= r < h && 0 <= i < w && scl.Length == w * h
    ensures val == ColumnAccumulator(Column(scl[..], w, h, i), r, 0)
  {
    ghost var col := Column(scl[..], w, h, i);
    var ti := i;
    CellIndex(0, i, w, h);
    assert scl[ti] == col[0];
    val := (r + 1) * scl[ti];
    for j := 0 to r
      invariant val == (r + 1) * col[0] + HeadSum(col, j)
    {
      CellIndex(j, i, w, h);
      assert scl[ti + j * w] == col[j];
      val := val + scl[ti + j * w];
    }
  }

  /** The second loop of a column, `r + 1` updates: `scl[ri]` enters and the first sample leaves. */
  method ColumnEntering(scl: array<Byte>, tcl: array<Byte>, w: int, h: int, r: int, ti: int, ri: int,
                        firstVal: int, val0: int, ghost col: seq<int>) returns (val: int)
    requires scl != tcl && 0 <= r < |col| == h && 0 <= ti < tcl.Length && 0 <= ri < scl.Length
    requires scl[ri] == col[r] && firstVal == col[0]
    requires ColumnInRange(col, r) && val0 == ColumnAccumulator(col, r, 0)
    modifies tcl
    ensures val == ColumnAccumulator(col, r, r + 1)
    ensures tcl[ti] == RoundMean(val, r) && tcl[..] == old(tcl[..])[ti := tcl[ti]]
  {
    ghost var t0 := tcl[..];
    assert tcl[..] == t0[ti := tcl[ti]];
    val := val0;
    ghost var n: nat := 0;
    for j := 0 to r + 1
      invariant n == j && val == ColumnAccumulator(col, r, n)
      invariant n > 0 ==> tcl[ti] == RoundMean(val, r)
      invariant tcl[..] == t0[ti := tcl[ti]]
    {
      val := val + scl[ri] - firstVal;
      n := n + 1;
      ColumnWriteInRange(col, r, n);
      tcl[ti] := RoundMean(val, r);
    }
  }

  /** The third loop of a column, `h - 2r - 1` updates (if any): `scl[ri]` enters and `scl[li]` leaves. */
  method ColumnSliding(scl: array<Byte>, tcl: array<Byte>, w: int, h: int, r: int, ti: int, li: int, ri: int,
                       val0: int, ghost col: seq<int>) returns (val: int)
    requires scl != tcl && 0 <= r < |col| == h && 0 <= ti < tcl.Length && 0 <= li < scl.Length && 0 <= ri < scl.Length
    requires scl[ri] == col[r] && scl[li] == col[0]
    requires ColumnInRange(col, r) && val0 == ColumnAccumulator(col, r, r + 1) && tcl[ti] == RoundMean(val0, r)
    modifies tcl
    ensures val == ColumnAccumulator(col, r, TotalLeading(h, r))
    ensures tcl[ti] == RoundMean(val, r) && tcl[..] == old(tcl[..])[ti := tcl[ti]]
  {
    val := val0;
    var j := r + 1;
    ghost var n: nat := r + 1;
    while j < h - r
      invariant r + 1 <= j <= Max(r + 1, h - r)
      invariant n == j && val == ColumnAccumulator(col, r, n)
      invariant tcl[ti] == RoundMean(val, r) && tcl[..] == old(tcl[..])[ti := tcl[ti]]
    {
      val := val + scl[ri] - scl[li];
      n := n + 1;
      ColumnWriteInRange(col, r, n);
      tcl[ti] := RoundMean(val, r);
      j := j + 1;
    }
  }

  /** The fourth loop of a column, `r` updates: the last sample enters and `scl[li]` leaves. */
  method ColumnLeaving(scl: array<Byte>, tcl: array<Byte>, w: int, h: int, r: int, ti: int, li: int,
                       lastVal: int, val0: int, ghost col: seq<int>) returns (val: int)
    requires scl != tcl && 0 <= r < |col| == h && 0 <= ti < tcl.Length && 0 <= li < scl.Length
    requires lastVal == col[h - 1] && scl[li] == col[0]
    requires ColumnInRange(col, r) && val0 == ColumnAccumulator(col, r, TotalLeading(h, r)) && tcl[ti] == RoundMean(val0, r)
    modifies tcl
    ensures val == ColumnAccumulator(col, r, TotalUpdates(h, r))
    ensures tcl[ti] == RoundMean(val, r) && tcl[..] == old(tcl[..])[ti := tcl[ti]]
  {
    val := val0;
    ghost var n: nat := TotalLeading(h, r);
    for j := h - r to h
      invariant n == TotalLeading(h, r) + (j - (h - r)) && val == ColumnAccumulator(col, r, n)
      invariant tcl[ti] == RoundMean(val, r) && tcl[..] == old(tcl[..])[ti := tcl[ti]]
    {
      val := val + lastVal - scl[li];
      n := n + 1;
      ColumnWriteInRange(col, r, n);
      tcl[ti] := RoundMean(val, r);
    }
  }

  /**
   * `box_blur_total(scl, tcl, w, h, r)`: one pass per column `i`. Only the
   * top row of `tcl` changes; rows `1 .. h - 1` keep their old contents.
   */
  method BoxBlurTotal(scl: array<Byte>, tcl: array<Byte>, w: int, h: int, r: int)
    requires scl != tcl
    requires w >= 1 && 0 <= r < h
    requires scl.Length == w * h && tcl.Length == w * h
    requires TotalInRange(scl[..], w, h, r)
    modifies tcl
    ensures tcl[..] == TotalTopRow(scl[..], w, h, r) + old(tcl[..])[w..]
  {
    ghost var top := TotalTopRow(scl[..], w, h, r);
    CellIndex(0, 0, w, h);
    for i := 0 to w
      invariant forall k :: 0 <= k < i ==> tcl[k] == top[k]
      invariant forall k :: w <= k < tcl.Length ==> tcl[k] == old(tcl[k])
    {
      BoxBlurColumn(scl, tcl, w, h, r, i);
    }
    assert tcl[..] == top + old(tcl[..])[w..];
  }

  // ---------------------------------------------------------------------
  // Two-pass blur: `box_blur_full`
  // ---------------------------------------------------------------------

  /**
   * What `box_blur_full` needs of its radius and plane: both passes' reads
   * stay in bounds and every value `box_blur_total` narrows is a byte.
   */
  predicate FullPassDefined(s: seq<int>, w: int, h: int, r: int)
  {
    w >= 1 && 0 <= r && 2 * r + 1 <= w && r < h && |s| == w * h &&
    TotalInRange(HorizontalBlur(s, w, h, r), w, h, r)
  }

  /**
   * The plane `box_blur_full(scl, tcl, ...)` leaves in `tcl`: the original
   * plane, except that its top row is `box_blur_total`'s top row computed
   * from the horizontal blur.
   */
  function FullTarget(s: seq<int>, w: int, h: int, r: int): (t: seq<int>)
    requires FullPassDefined(s, w, h, r)
    ensures |t| == |s|
  {
    CellIndex(0, 0, w, h);
    TotalTopRow(HorizontalBlur(s, w, h, r), w, h, r) + s[w..]
  }

  /**
   * `box_blur_full(scl, tcl, w, h, r)`: copies `scl` into `tcl`, blurs the
   * rows of `tcl` back into `scl`, then runs `box_blur_total` from `scl`
   * into `tcl`. The old contents of `tcl` play no part.
   */
  method BoxBlurFull(scl: array<Byte>, tcl: array<Byte>, w: int, h: int, r: int)
    requires scl != tcl
    requires scl.Length == w * h && tcl.Length == w * h
    requires FullPassDefined(scl[..], w, h, r)
    modifies scl, tcl
    ensures scl[..] == HorizontalBlur(old(scl[..]), w, h, r)
    ensures tcl[..] == FullTarget(old(scl[..]), w, h, r)
  {
    for i := 0 to w * h
      modifies tcl
      invariant forall k :: 0 <= k < i ==> tcl[k] == scl[k]
    {
      tcl[i] := scl[i];
    }
    assert tcl[..] == old(scl[..]);
    BoxBlurHorizontal(tcl, scl, w, h, r);
    BoxBlurTotal(scl, tcl, w, h, r);
  }

  /** A plane of equal bytes passes through `box_blur_full` unchanged, in both buffers. */
  lemma FullPassUniform(s: seq<int>, w: int, h: int, r: int, v: int)
    requires w >= 1 && 0 <= r && 2 * r + 1 <= w && r < h && |s| == w * h && IsByte(v)
    requires forall k :: 0 <= k < |s| ==> s[k] == v
    ensures FullPassDefined(s, w, h, r)
    ensures HorizontalBlur(s, w, h, r) == s && FullTarget(s, w, h, r) == s
  {
    HorizontalBlurUniform(s, w, h, r, v);
    TotalUniform(s, w, h, r, v);
    CellIndex(0, 0, w, h);
    assert s == s[..w] + s[w..];
  }

  /** With radius 0 `box_blur_full` leaves a byte plane unchanged, in both buffers. */
  lemma FullPassZero(s: seq<int>, w: int, h: int)
    requires w >= 1 && 0 < h && |s| == w * h && AllBytes(s)
    ensures FullPassDefined(s, w, h, 0)
    ensures HorizontalBlur(s, w, h, 0) == s && FullTarget(s, w, h, 0) == s
  {
    HorizontalBlurZero(s, w, h);
    TotalZero(s, w, h);
    CellIndex(0, 0, w, h);
    assert s == s[..w] + s[w..];
  }
}
