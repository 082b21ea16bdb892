/**
 * `boxes_for_gauss`: the odd box widths whose repeated box filters
 * approximate a Gaussian of standard deviation `sigma`.
 */
module BoxPlanner {
  import opened Numeric

  /** `12 * sigma * sigma`, the variance term of the width formula. */
  function Variance12(sigma: int): (v: nat)
  {
    SquareNonNegative(sigma);
    12 * sigma * sigma
  }

  lemma SquareNonNegative(x: int)
    ensures 12 * x * x >= 0
  {
    if x < 0 {
      assert x * x == (-x) * (-x);
    }
  }

  /**
   * `wfloor`: the floor of `sqrt(12*sigma*sigma/num + 1)` (integer division
   * inside the root), stepped down to the odd number below when even.
   */
  function SmallWidth(sigma: int, num: int): (wl: int)
    requires num >= 1
    ensures wl >= 1 && wl % 2 == 1
  {
    var n := Variance12(sigma) / num + 1;
    var root := IntSqrt(n);
    assert root != 0;
    if root % 2 == 0 then root - 1 else root
  }

  /**
   * `med_round`: the number of leading boxes that take the small width,
   * `(12*sigma*sigma - num*wl*wl - 4*num*wl - 3*num) / (-4*wl - 4)` with the
   * quotient truncated toward zero (`round` of an `int` changes nothing).
   * It always lies in `0..num`: the dividend is negative and at least `num`
   * times the divisor.
   */
  function SmallCount(sigma: int, num: int): (m: int)
    requires num >= 1
    ensures 0 <= m <= num
  {
    var v := Variance12(sigma);
    var wl := SmallWidth(sigma, num);
    var a := v - num * wl * wl - 4 * num * wl - 3 * num;
    var b := -4 * wl - 4;
    CountTerms(v, num, wl);
    var q := TruncDiv(a, b);
    CountInRange(a, b, num, q);
    q
  }

  /** The dividend of `med_ideal` is negative and at least `num` times its divisor. */
  lemma CountTerms(v: nat, num: int, wl: int)
    requires num >= 1 && wl >= 1
    requires var root := IntSqrt(v / num + 1); wl == root || wl == root - 1
    ensures var a, b := v - num * wl * wl - 4 * num * wl - 3 * num, -4 * wl - 4;
      b < 0 && num * b <= a < 0
  {
    WidthTerms(v, num, wl);
    Expand(num, wl);
  }

  /**
   * With `q = v / num` and `root` the integer root of `q + 1`, the small
   * width `wl` (the root or the odd number just below it) satisfies
   * `num * (wl*wl - 1) <= v < num * (wl + 1) * (wl + 3)`.
   */
  lemma WidthTerms(v: nat, num: int, wl: int)
    requires num >= 1 && wl >= 1
    requires var root := IntSqrt(v / num + 1); wl == root || wl == root - 1
    ensures num * wl * wl - num <= v < num * wl * wl + 4 * num * wl + 3 * num
  {
    var q := v / num;
    var root := IntSqrt(q + 1);
    DivBounds(v, num);
    var big := (wl + 1) * (wl + 3);
    WidthProduct(wl, root);
    MulLeft(num, q + 1, big);
    Expand(num, q);
    Expand(num, wl);
    SquareMonotone(wl, root);
    MulLeft(num, wl * wl - 1, q);
  }

  /** `(wl + 1) * (wl + 3)` reaches `(root + 1)^2 - 1` when `wl` is `root` or `root - 1`. */
  lemma WidthProduct(wl: int, root: int)
    requires wl >= 1 && (wl == root || wl == root - 1)
    ensures (wl + 1) * (wl + 3) >= (root + 1) * (root + 1) - 1
  {
    if wl == root {
      assert (wl + 1) * (wl + 3) == (root + 1) * (root + 1) + 2 * root + 2;
    } else {
      assert (wl + 1) * (wl + 3) == (root + 1) * (root + 1) - 1;
    }
  }

  lemma MulLeft(c: int, a: int, b: int)
    requires c >= 0 && a <= b
    ensures c * a <= c * b
  {
    assert c * b - c * a == c * (b - a);
  }

  lemma Expand(num: int, wl: int)
    ensures num * ((wl + 1) * (wl + 3)) == num * wl * wl + 4 * num * wl + 3 * num
    ensures num * (wl * wl - 1) == num * wl * wl - num
    ensures num * (-4 * wl - 4) == -(4 * num * wl) - 4 * num
    ensures num * (wl + 1) == wl * num + num
  {
  }

  /** A truncated quotient of a negative `a` by a negative `b` with `a >= num * b` is in `0..num`. */
  lemma CountInRange(a: int, b: int, num: int, q: int)
    requires b < 0 && num * b <= a < 0
    requires a <= q * b <= 0
    ensures 0 <= q <= num
  {
  }

  /**
   * The widths `boxes_for_gauss(sigma, num)` returns: exactly `num` odd
   * positive widths, non-decreasing by index and spread by at most 2.
   */
  function BoxWidths(sigma: int, num: int): (sizes: seq<int>)
    requires num >= 1
    ensures |sizes| == num
    ensures forall i :: 0 <= i < num ==> sizes[i] >= 1 && sizes[i] % 2 == 1
    ensures forall i, j :: 0 <= i <= j < num ==> sizes[i] <= sizes[j] <= sizes[i] + 2
  {
    var wl := SmallWidth(sigma, num);
    var m := SmallCount(sigma, num);
    seq(num, i requires 0 <= i < num => if i < m then wl else wl + 2)
  }

  /**
   * Every intermediate of the width formula fits a 32-bit `int`: the
   * product `12 * sigma * sigma` and the subtracted term
   * `num*wl*wl + 4*num*wl + 3*num` (the difference of two values in
   * `0..Int32Max` is in range too).
   */
  predicate NoOverflow(sigma: int, num: int)
    requires num >= 1
  {
    var wl := SmallWidth(sigma, num);
    Variance12(sigma) <= Int32Max && num * wl * wl + 4 * num * wl + 3 * num <= Int32Max
  }

  /**
   * `boxes_for_gauss(sigma, num)`: computes `wfloor`, `wu` and `med_round`
   * and fills a fresh array of `num` widths.
   */
  method BoxesForGauss(sigma: int, num: int) returns (sizes: array<int>)
    requires num >= 1 && NoOverflow(sigma, num)
    ensures fresh(sizes)
    ensures sizes[..] == BoxWidths(sigma, num)
  {
    var avgFilterWidth := IntSqrt(12 * sigma * sigma / num + 1);
    var wfloor: int := avgFilterWidth;
    if wfloor % 2 == 0 {
      wfloor := wfloor - 1;
    }
    assert wfloor == SmallWidth(sigma, num);
    var wu := wfloor + 2;
    var constA := 12 * sigma * sigma - num * wfloor * wfloor - 4 * num * wfloor - 3 * num;
    var constB := -4 * wfloor - 4;
    var medIdeal := TruncDiv(constA, constB);
    var medRound := medIdeal;
    assert medRound == SmallCount(sigma, num);
    sizes := new int[num];
    var i := 0;
    while i < num
      invariant 0 <= i <= num
      invariant forall k :: 0 <= k < i ==> sizes[k] == BoxWidths(sigma, num)[k]
    {
      sizes[i] := if i < medRound then wfloor else wu;
      i := i + 1;
    }
  }

  /** The half-width `(width - 1) / 2` of a box is exact: `width == 2 * radius + 1`. */
  lemma HalfWidthExact(sigma: int, num: int, k: int)
    requires num >= 1 && 0 <= k < num
    ensures var width := BoxWidths(sigma, num)[k];
      (width - 1) / 2 >= 0 && 2 * ((width - 1) / 2) + 1 == width
  {
  }

  /** With `sigma == 0` every box has width 1, so every pass has radius 0. */
  lemma {:induction false} ZeroSigmaWidths(num: int)
    requires num >= 1
    ensures forall k :: 0 <= k < num ==> BoxWidths(0, num)[k] == 1
  {
    assert Variance12(0) == 0;
    IntSqrtUnique(1, 1);
    assert SmallWidth(0, num) == 1;
    TruncDivUnique(-8 * num, -8, num);
    assert SmallCount(0, num) == num;
  }

  /**
   * `boxes_for_gauss(1, 3)` is `[1, 3, 3]`: the root of 5 floors to 2, is
   * stepped down to 1, and `-12 / -8` truncates to 1 (Dafny's Euclidean
   * `/` would give 2).
   */
  lemma WidthsForSigmaOne()
    ensures BoxWidths(1, 3) == [1, 3, 3]
  {
    assert Variance12(1) == 12;
    IntSqrtUnique(5, 2);
    assert SmallWidth(1, 3) == 1;
    TruncDivUnique(-12, -8, 1);
    assert SmallCount(1, 3) == 1;
  }

  /**
   * For three boxes the widths have a closed form in `a = |sigma|`: all 1
   * for `a == 0`, otherwise one box of `2a - 1` followed by two of `2a + 1`
   * (the root of `4a*a + 1` is `2a`, stepped down to `2a - 1`, and
   * `-12a / -8a` truncates to 1).
   */
  lemma WidthsForThree(sigma: int)
    ensures var a := Abs(sigma);
      BoxWidths(sigma, 3) == if a == 0 then [1, 1, 1] else [2 * a - 1, 2 * a + 1, 2 * a + 1]
  {
    if sigma == 0 {
      ZeroSigmaWidths(3);
    } else {
      ThreeSmallWidth(sigma);
      ThreeSmallCount(sigma);
    }
  }

  /** For three boxes and `sigma != 0`, the root of `4a*a + 1` is `2a`, so `wfloor` is `2a - 1`. */
  lemma ThreeSmallWidth(sigma: int)
    requires sigma != 0
    ensures SmallWidth(sigma, 3) == 2 * Abs(sigma) - 1
  {
    var a: int := Abs(sigma);
    VarianceOfAbs(sigma);
    RootOfFourSquares(a);
  }

  /** `12 * sigma * sigma` is `12 * a * a` for `a = |sigma|`, and a third of it is `4 * a * a`. */
  lemma VarianceOfAbs(sigma: int)
    ensures var a := Abs(sigma);
      Variance12(sigma) == 12 * (a * a) && Variance12(sigma) / 3 == 4 * (a * a)
  {
    var a := Abs(sigma);
    assert sigma * sigma == a * a;
    assert 12 * sigma * sigma == 3 * (4 * (a * a));
  }

  /** The integer root of `4a*a + 1` is `2a` for `a >= 1`. */
  lemma RootOfFourSquares(a: int)
    requires a >= 1
    ensures IntSqrt(4 * (a * a) + 1) == 2 * a
  {
    var t := 2 * a;
    SquareSteps(a, t);
    IntSqrtUnique(4 * (a * a) + 1, t);
  }

  lemma SquareSteps(a: int, t: int)
    requires t == 2 * a
    ensures a * a >= 0 && t * t == 4 * (a * a) && (t + 1) * (t + 1) == t * t + 2 * t + 1
  {
  }

  /** With `wl = 2a - 1` and three boxes, the dividend of `med_ideal` is `-12a`. */
  lemma ThreeDividend(a: int)
    requires a >= 1
    ensures var wl := 2 * a - 1; 12 * (a * a) - 3 * wl * wl - 4 * 3 * wl - 3 * 3 == -12 * a
  {
    var wl := 2 * a - 1;
    assert 3 * wl * wl == 12 * (a * a) - 12 * a + 3;
  }

  /** For three boxes and `sigma != 0`, `med_ideal` is `-12a / -8a`, which truncates to 1. */
  lemma ThreeSmallCount(sigma: int)
    requires sigma != 0
    ensures SmallCount(sigma, 3) == 1
  {
    var a: int := Abs(sigma);
    VarianceOfAbs(sigma);
    ThreeSmallWidth(sigma);
    ThreeDividend(a);
    TruncDivUnique(-12 * a, -8 * a, 1);
  }

  /** For three boxes, every width grows (weakly) with the standard deviation. */
  lemma WidthsMonotoneInSigma(s: nat, t: nat, k: int)
    requires s <= t && 0 <= k < 3
    ensures BoxWidths(s, 3)[k] <= BoxWidths(t, 3)[k]
  {
    WidthsForThree(s);
    WidthsForThree(t);
  }
}
