/**
 * `gaussian_blur`: one `box_blur_full` pass at the radius of the first of
 * three boxes, or, with `sb` set, three passes that ping-pong between the
 * channel plane and the scratch plane.
 */
module Gaussian {
  import opened Numeric
  import opened BoxPlanner
  import opened BoxBlur

  /** What `gaussian_blur` leaves in its two buffers: the channel plane `scl` and the scratch plane `tcl`. */
  datatype Planes = Planes(channel: seq<int>, scratch: seq<int>)

  /** The radius `(boxes[k] - 1) / 2` of pass `k` for standard deviation `sigma`. */
  function PassRadius(sigma: int, k: int): (r: int)
    requires 0 <= k < 3
    ensures r >= 0 && 2 * r + 1 == BoxWidths(sigma, 3)[k]
  {
    HalfWidthExact(sigma, 3, k);
    (BoxWidths(sigma, 3)[k] - 1) / 2
  }

  /**
   * What `gaussian_blur` needs: the width formula does not overflow and
   * every `box_blur_full` it runs is defined on the plane it is given.
   */
  predicate GaussianDefined(c: seq<int>, w: int, h: int, sigma: int, strong: bool)
  {
    NoOverflow(sigma, 3) &&
    FullPassDefined(c, w, h, PassRadius(sigma, 0)) &&
    (strong ==>
      var t0 := FullTarget(c, w, h, PassRadius(sigma, 0));
      FullPassDefined(t0, w, h, PassRadius(sigma, 1)) &&
      FullPassDefined(FullTarget(t0, w, h, PassRadius(sigma, 1)), w, h, PassRadius(sigma, 2)))
  }

  /**
   * The two buffers after `gaussian_blur(c, ...)`. One pass leaves the
   * horizontal blur in the channel plane and its `box_blur_full` target in
   * the scratch plane. With `sb` set, the second pass runs from the scratch
   * plane into the channel plane, so the channel plane then holds that
   * pass's target, from which the third pass runs back.
   */
  function GaussianResult(c: seq<int>, w: int, h: int, sigma: int, strong: bool): (p: Planes)
    requires GaussianDefined(c, w, h, sigma, strong)
    ensures |p.channel| == |p.scratch| == |c|
  {
    var r0 := PassRadius(sigma, 0);
    if !strong then
      Planes(HorizontalBlur(c, w, h, r0), FullTarget(c, w, h, r0))
    else
      var r1, r2 := PassRadius(sigma, 1), PassRadius(sigma, 2);
      var s1 := FullTarget(FullTarget(c, w, h, r0), w, h, r1);
      Planes(HorizontalBlur(s1, w, h, r2), FullTarget(s1, w, h, r2))
  }

  /**
   * `gaussian_blur(scl, tcl, w, h, r, sb)`: computes the three box widths
   * for `r` and runs the passes.
   */
  method GaussianBlur(scl: array<Byte>, tcl: array<Byte>, w: int, h: int, r: int, sb: int)
    requires scl != tcl && scl.Length == w * h && tcl.Length == w * h
    requires GaussianDefined(scl[..], w, h, r, sb != 0)
    modifies scl, tcl
    ensures scl[..] == GaussianResult(old(scl[..]), w, h, r, sb != 0).channel
    ensures tcl[..] == GaussianResult(old(scl[..]), w, h, r, sb != 0).scratch
  {
    ghost var c := scl[..];
    var boxes := BoxesForGauss(r, 3);
    assert (boxes[0] - 1) / 2 == PassRadius(r, 0);
    BoxBlurFull(scl, tcl, w, h, (boxes[0] - 1) / 2);
    if sb != 0 {
      ghost var t0 := FullTarget(c, w, h, PassRadius(r, 0));
      assert (boxes[1] - 1) / 2 == PassRadius(r, 1) && tcl[..] == t0;
      BoxBlurFull(tcl, scl, w, h, (boxes[1] - 1) / 2);
      assert (boxes[2] - 1) / 2 == PassRadius(r, 2) && scl[..] == FullTarget(t0, w, h, PassRadius(r, 1));
      BoxBlurFull(scl, tcl, w, h, (boxes[2] - 1) / 2);
    }
  }

  /** Pass `k`'s radius fits a `w`-wide, `h`-high plane. */
  predicate PassFits(sigma: int, k: int, w: int, h: int)
    requires 0 <= k < 3
  {
    2 * PassRadius(sigma, k) + 1 <= w && PassRadius(sigma, k) < h
  }

  /**
   * A plane of equal bytes stays unchanged in both buffers, with one pass
   * or three, as long as the radius of every pass that runs fits the plane.
   */
  lemma GaussianUniform(c: seq<int>, w: int, h: int, sigma: int, strong: bool, v: int)
    requires NoOverflow(sigma, 3) && IsByte(v) && |c| == w * h
    requires PassFits(sigma, 0, w, h)
    requires strong ==> PassFits(sigma, 1, w, h) && PassFits(sigma, 2, w, h)
    requires forall k :: 0 <= k < |c| ==> c[k] == v
    ensures GaussianDefined(c, w, h, sigma, strong)
    ensures GaussianResult(c, w, h, sigma, strong) == Planes(c, c)
  {
    FullPassUniform(c, w, h, PassRadius(sigma, 0), v);
    if strong {
      FullPassUniform(c, w, h, PassRadius(sigma, 1), v);
      FullPassUniform(c, w, h, PassRadius(sigma, 2), v);
    }
  }

  /** With `sigma == 0` every pass has radius 0, so a byte plane is unchanged in both buffers. */
  lemma GaussianZeroSigma(c: seq<int>, w: int, h: int, strong: bool)
    requires w >= 1 && h >= 1 && |c| == w * h && AllBytes(c)
    ensures GaussianDefined(c, w, h, 0, strong)
    ensures GaussianResult(c, w, h, 0, strong) == Planes(c, c)
  {
    ZeroSigmaWidths(3);
    assert NoOverflow(0, 3);
    assert PassRadius(0, 0) == 0 && PassRadius(0, 1) == 0 && PassRadius(0, 2) == 0;
    FullPassZero(c, w, h);
  }
}
