/**
 * Integer stand-ins for the arithmetic of the blur engine: 8-bit samples,
 * the C++ `int` range, `floor(sqrt(n))`, C++ truncating division, the
 * `round(val * iarr)` of the box filters, edge clamping, and row-major
 * index arithmetic.
 */
module Numeric {

  /** One 8-bit sample (`png_byte`). */
  type Byte = x: int | 0 <= x < 256

  /** Largest value of a 32-bit C++ `int`. */
  const Int32Max: int := 0x7fff_ffff

  predicate IsByte(x: int) { 0 <= x < 256 }

  predicate AllBytes(s: seq<int>) { forall k :: 0 <= k < |s| ==> IsByte(s[k]) }

  function Abs(x: int): nat { if x < 0 then -x else x }

  function Min(a: int, b: int): int { if a <= b then a else b }

  function Max(a: int, b: int): int { if a >= b then a else b }

  /** `k` moved into `lo..hi`: the edge replication of the box filters. */
  function Clamp(k: int, lo: int, hi: int): (c: int)
    requires lo <= hi
    ensures lo <= c <= hi
    ensures lo <= k <= hi ==> c == k
    ensures k < lo ==> c == lo
    ensures hi < k ==> c == hi
  {
    if k < lo then lo else if k > hi then hi else k
  }

  /**
   * `floor(sqrt(n))` of a non-negative integer `n`. The source takes the
   * square root of an `int` as a double; for arguments in the `int` range the
   * floor of the correctly rounded root is exactly the integer square root.
   */
  function IntSqrt(n: nat): (r: nat)
    ensures r * r <= n < (r + 1) * (r + 1)
  {
    if n == 0 then 0
    else
      var s := IntSqrt(n - 1);
      assert (s + 1) * (s + 1) < (s + 2) * (s + 2);
      if (s + 1) * (s + 1) <= n then s + 1 else s
  }

  lemma SquareMonotone(a: nat, b: nat)
    requires a <= b
    ensures a * a <= b * b
  {
    assert a * a <= a * b <= b * b;
  }

  /** The integer square root is determined by its defining inequalities. */
  lemma IntSqrtUnique(n: nat, r: nat)
    requires r * r <= n < (r + 1) * (r + 1)
    ensures IntSqrt(n) == r
  {
    var s := IntSqrt(n);
    if s < r {
      SquareMonotone(s + 1, r);
    } else if r < s {
      SquareMonotone(r + 1, s);
    }
  }

  /** `k * d` strictly between `-d` and `d` forces `k == 0`. */
  lemma MulSmall(k: int, d: int)
    requires d > 0 && -d < k * d < d
    ensures k == 0
  {
  }

  /** Euclidean division of a non-negative number by a positive one. */
  lemma DivBounds(n: nat, m: int)
    requires m > 0
    ensures 0 <= n / m && (n / m) * m <= n < (n / m) * m + m
  {
  }

  /**
   * C++ `a / b` on `int`: the quotient truncated toward zero. `q * b` is the
   * multiple of `b` nearest to `a` on the side of zero.
   */
  function TruncDiv(a: int, b: int): (q: int)
    requires b != 0
    ensures 0 <= a ==> 0 <= q * b <= a && a - q * b < Abs(b)
    ensures a < 0 ==> a <= q * b <= 0 && q * b - a < Abs(b)
  {
    var m := Abs(a) / Abs(b);
    DivBounds(Abs(a), Abs(b));
    TruncDivSigns(a, b, m);
    if (a < 0) == (b < 0) then m else -m
  }

  lemma TruncDivSigns(a: int, b: int, m: int)
    requires b != 0 && m >= 0
    requires m * Abs(b) <= Abs(a) < m * Abs(b) + Abs(b)
    ensures (a < 0) == (b < 0) ==> m * b == (if a < 0 then -(m * Abs(b)) else m * Abs(b))
    ensures (a < 0) != (b < 0) ==> -m * b == (if a < 0 then -(m * Abs(b)) else m * Abs(b))
  {
    if b < 0 {
      assert Abs(b) == -b;
      assert m * Abs(b) == -(m * b);
    } else {
      assert Abs(b) == b;
    }
  }

  /** The truncated quotient is determined by the inequalities above. */
  lemma TruncDivUnique(a: int, b: int, q: int)
    requires b != 0
    requires 0 <= a ==> 0 <= q * b <= a && a - q * b < Abs(b)
    requires a < 0 ==> a <= q * b <= 0 && q * b - a < Abs(b)
    ensures TruncDiv(a, b) == q
  {
    var p := TruncDiv(a, b);
    assert p * b - q * b < Abs(b) && q * b - p * b < Abs(b);
    MulGap(p, q, b);
  }

  /** Two multiples of `b` less than `|b|` apart are the same multiple. */
  lemma MulGap(p: int, q: int, b: int)
    requires b != 0 && p * b - q * b < Abs(b) && q * b - p * b < Abs(b)
    ensures p == q
  {
    if b > 0 {
      assert (p - q) * b == p * b - q * b;
      MulSmall(p - q, b);
    } else {
      assert (q - p) * (-b) == p * b - q * b;
      MulSmall(q - p, -b);
    }
  }

  /**
   * `round(x * iarr)` with `iarr = 1.f / (r + r + 1)`: the integer nearest to
   * `x / (2r + 1)`, halves rounded away from zero. The divisor is odd, so no
   * half occurs (see `RoundMeanNearest`).
   */
  function RoundMean(x: int, r: nat): (m: int)
    ensures x >= 0 ==> m >= 0
    ensures x < 0 ==> m <= 0
  {
    var d := 2 * r + 1;
    var p := (2 * Abs(x) + d) / (2 * d);
    DivBounds(2 * Abs(x) + d, 2 * d);
    if x >= 0 then p else -p
  }

  /** Halves rounded up: `(2n + d) / (2d)` is within half of `d` of `n / d`. */
  lemma HalfUpBounds(n: nat, d: int, p: int)
    requires d > 0 && p == (2 * n + d) / (2 * d)
    ensures p >= 0 && -d <= 2 * (n - p * d) < d
  {
    DivBounds(2 * n + d, 2 * d);
    assert p * (2 * d) == 2 * (p * d);
  }

  /** `RoundMean(x, r)` is the integer nearest to `x / (2r + 1)`, and is not negative for `x >= 0`. */
  lemma RoundMeanNearest(x: int, r: nat)
    ensures var q := RoundMean(x, r);
      -(2 * r + 1) < 2 * (x - q * (2 * r + 1)) < 2 * r + 1 && (x >= 0 ==> q >= 0)
  {
    var d := 2 * r + 1;
    var n := Abs(x);
    var p := (2 * n + d) / (2 * d);
    HalfUpBounds(n, d, p);
    var pd := p * d;
    if x < 0 {
      assert RoundMean(x, r) == -p;
      assert -p * d == -pd;
    } else {
      assert RoundMean(x, r) == p;
    }
  }

  /** The rounded mean is determined by its nearest-integer property. */
  lemma RoundMeanUnique(x: int, r: nat, q: int)
    requires -(2 * r + 1) < 2 * (x - q * (2 * r + 1)) < 2 * r + 1
    ensures RoundMean(x, r) == q
  {
    var d := 2 * r + 1;
    var p := RoundMean(x, r);
    RoundMeanNearest(x, r);
    var k := p - q;
    assert k * d == p * d - q * d;
    assert -d < k * d < d;
    MulSmall(k, d);
  }

  /** The mean of `2r + 1` copies of `v` is `v`. */
  lemma RoundMeanExact(v: int, r: nat)
    ensures RoundMean(v * (2 * r + 1), r) == v
  {
    RoundMeanUnique(v * (2 * r + 1), r, v);
  }

  /** A product with a positive factor has the sign of the other factor. */
  lemma MulSign(k: int, d: int)
    requires d > 0
    ensures (k * d < 0) == (k < 0)
  {
  }

  /** The rounded mean of `2r + 1` bytes is a byte. */
  lemma RoundMeanByte(x: int, r: nat)
    ensures 0 <= x <= 255 * (2 * r + 1) ==> IsByte(RoundMean(x, r))
  {
    var d := 2 * r + 1;
    var q := RoundMean(x, r);
    RoundMeanNearest(x, r);
    assert (2 * q - 511) * d == 2 * (q * d - x) + 2 * x - 511 * d;
    MulSign(2 * q - 511, d);
  }

  /** Row `i`, column `c` of a `w`-wide, `h`-high row-major plane is in range. */
  lemma CellIndex(i: int, c: int, w: int, h: int)
    requires 0 <= i < h && 0 <= c < w
    ensures 0 <= i * w + c < w * h
    ensures i * w + w <= w * h
  {
    assert (h - i - 1) * w >= 0;
    assert w * h == i * w + w + (h - i - 1) * w;
  }

  /** Row `i` of a `w`-wide, `h`-high row-major plane ends where row `i + 1` starts, within the plane. */
  lemma NextRow(i: int, w: int, h: int)
    requires 0 <= i < h && w >= 1
    ensures 0 <= i * w && i * w + w == (i + 1) * w <= w * h
  {
    CellIndex(i, 0, w, h);
  }

  /** Row and column of a row-major index recovered by division. */
  lemma RowMajor(i: int, c: int, w: int)
    requires 0 <= i && 0 <= c < w
    ensures (i * w + c) / w == i && (i * w + c) % w == c
  {
    var n := i * w + c;
    var q, m := n / w, n % w;
    assert q * w + m == i * w + c;
    assert (q - i) * w == c - m;
    MulSmall(q - i, w);
  }

  /** Every index of a `w * h` plane lies in some row below `h`. */
  lemma IndexRow(n: int, w: int, h: int)
    requires w >= 1 && 0 <= n < w * h
    ensures 0 <= n / w < h && 0 <= n % w < w
    ensures n == (n / w) * w + n % w
  {
    DivBounds(n, w);
  }
}
