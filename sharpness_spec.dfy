/**
 * What `calculateAdvancedPerceptualSharpness` (webapp/src/sharpness.worker.js,
 * lines 12-123) computes, stated pixel by pixel.
 *
 * Every stage is kept in integers by scaling the grayscale by 3: the grey
 * level `(r + g + b) / 3` is represented by `r + g + b`. The median is
 * order-preserving and the Sobel sums are linear, so the smoothed image and
 * both gradients are exactly 3 times those of the source, and the squared
 * gradient `Mag2` is 9 times `gx * gx + gy * gy`. The edge test
 * `sqrt(gx * gx + gy * gy) > 40` is `Mag2 > 9 * 1600`; the magnitude itself
 * is `sqrt(Mag2) / 3` and the 5 by 5 local mean is `WindowSum / 75`, both
 * over `real` with the square root a parameter.
 */
module SharpnessSpec {
  import opened Median

  newtype Byte = x: int | 0 <= x < 256

  /** The size guard: images narrower or lower than this score 0. */
  const MIN_SIDE: int := 5
  /** `EDGE_STRENGTH_THRESHOLD` squared and scaled by 9. */
  const EDGE_THRESHOLD_SQUARED: int := 14400
  /** `LOCAL_WINDOW_RADIUS`. */
  const LOCAL_WINDOW_RADIUS: int := 2
  /** `epsilon`: local means at or below it fall back to the raw magnitude. */
  const MEAN_EPSILON: real := 0.00001

  const GX_KERNEL: seq<seq<int>> := [[-1, 0, 1], [-2, 0, 2], [-1, 0, 1]]
  const GY_KERNEL: seq<seq<int>> := [[-1, -2, -1], [0, 0, 0], [1, 2, 1]]

  /** An RGBA buffer of `w` by `h` pixels, row after row. */
  predicate Image(d: seq<Byte>, w: int, h: int) {
    w >= 0 && h >= 0 && |d| == 4 * w * h
  }

  /** The RGBA quad of pixel `(x, y)` starts at byte `(y * w + x) * 4`, inside the buffer. */
  lemma PixelOffset(w: int, h: int, y: int, x: int)
    requires 0 <= y < h && 0 <= x < w
    ensures 0 <= (y * w + x) * 4 && (y * w + x) * 4 + 3 < 4 * w * h
  {
    MulNonNegative(y, w);
    MulNonNegative(h - 1 - y, w);
    MulDistributes(h - 1 - y, y + 1, w);
    MulNonNegative(4, w * h);
  }

  lemma MulNonNegative(a: int, b: int)
    requires a >= 0 && b >= 0
    ensures a * b >= 0
  {
  }

  lemma MulDistributes(a: int, b: int, c: int)
    ensures (a + b) * c == a * c + b * c && (b - 1) * c + c == b * c && 4 * c * (a + b) == 4 * ((a + b) * c)
  {
  }

  /** `toGrayscale` of pixel `(x, y)`, times 3: red, green and blue added, alpha ignored. */
  function Gray3(d: seq<Byte>, w: int, h: int, y: int, x: int): (g: int)
    requires Image(d, w, h) && 0 <= y < h && 0 <= x < w
    ensures 0 <= g <= 765
  {
    PixelOffset(w, h, y, x);
    var i := (y * w + x) * 4;
    d[i] as int + d[i + 1] as int + d[i + 2] as int
  }

  predicate Interior(w: int, h: int, y: int, x: int) {
    1 <= y < h - 1 && 1 <= x < w - 1
  }

  /** The 3 by 3 neighbourhood of an interior pixel, row by row. */
  function Neighbors(d: seq<Byte>, w: int, h: int, y: int, x: int): (n: seq<int>)
    requires Image(d, w, h) && Interior(w, h, y, x)
    ensures |n| == 9
    ensures forall v :: v in n ==> 0 <= v <= 765
  {
    [Gray3(d, w, h, y - 1, x - 1), Gray3(d, w, h, y - 1, x), Gray3(d, w, h, y - 1, x + 1),
     Gray3(d, w, h, y, x - 1), Gray3(d, w, h, y, x), Gray3(d, w, h, y, x + 1),
     Gray3(d, w, h, y + 1, x - 1), Gray3(d, w, h, y + 1, x), Gray3(d, w, h, y + 1, x + 1)]
  }

  /** `smoothedGrayscale`, times 3: border pixels copied, interior pixels the median of their neighbourhood. */
  function Smooth3(d: seq<Byte>, w: int, h: int, y: int, x: int): int
    requires Image(d, w, h) && 0 <= y < h && 0 <= x < w
  {
    if Interior(w, h, y, x) then MedianOf(Neighbors(d, w, h, y, x)) else Gray3(d, w, h, y, x)
  }

  /** The smoothed values stay grey levels: the median is one of its neighbours. */
  lemma SmoothRange(d: seq<Byte>, w: int, h: int, y: int, x: int)
    requires Image(d, w, h) && 0 <= y < h && 0 <= x < w
    ensures 0 <= Smooth3(d, w, h, y, x) <= 765
  {
    if Interior(w, h, y, x) {
      MedianBounds(Neighbors(d, w, h, y, x));
    }
  }

  /** The smoothed image as rows of pixel values. */
  function SmoothImage(d: seq<Byte>, w: int, h: int): (img: seq<seq<int>>)
    requires Image(d, w, h)
    ensures Rect(img, w, h)
  {
    seq(h, y requires 0 <= y < h => seq(w, x requires 0 <= x < w => Smooth3(d, w, h, y, x)))
  }

  /** `h` rows of `w` values each. */
  predicate Rect(img: seq<seq<int>>, w: int, h: int) {
    |img| == h && forall y :: 0 <= y < h ==> |img[y]| == w
  }

  /** A 3 by 3 kernel, as the `Gx_kernel` and `Gy_kernel` tables. */
  predicate Kernel(k: seq<seq<int>>) {
    |k| == 3 && forall r :: 0 <= r < 3 ==> |k[r]| == 3
  }

  /** The first `n` terms of kernel row `ky` (from -1 to 1) applied at `(x, y)`. */
  function KernelRow(img: seq<seq<int>>, w: int, h: int, y: int, x: int, k: seq<seq<int>>, ky: int, n: int): int
    requires Rect(img, w, h) && Interior(w, h, y, x) && Kernel(k) && -1 <= ky <= 1 && 0 <= n <= 3
  {
    if n == 0 then 0
    else KernelRow(img, w, h, y, x, k, ky, n - 1) + img[y + ky][x + n - 2] * k[ky + 1][n - 1]
  }

  /** The first `m` kernel rows applied at `(x, y)`; `m = 3` gives the whole Sobel sum. */
  function Conv(img: seq<seq<int>>, w: int, h: int, y: int, x: int, k: seq<seq<int>>, m: int): int
    requires Rect(img, w, h) && Interior(w, h, y, x) && Kernel(k) && 0 <= m <= 3
  {
    if m == 0 then 0
    else Conv(img, w, h, y, x, k, m - 1) + KernelRow(img, w, h, y, x, k, m - 2, 3)
  }

  /** The squared gradient, times 9; 0 on the border, where the Sobel loop never writes. */
  function Mag2(img: seq<seq<int>>, w: int, h: int, y: int, x: int): int
    requires Rect(img, w, h) && 0 <= y < h && 0 <= x < w
  {
    if Interior(w, h, y, x) then
      var gx := Conv(img, w, h, y, x, GX_KERNEL, 3);
      var gy := Conv(img, w, h, y, x, GY_KERNEL, 3);
      gx * gx + gy * gy
    else 0
  }

  /** The pixels the final pass visits: `3 <= x < w - 3` and `3 <= y < h - 3`. */
  predicate Scanned(w: int, h: int, y: int, x: int) {
    LOCAL_WINDOW_RADIUS + 1 <= y < h - LOCAL_WINDOW_RADIUS - 1 &&
    LOCAL_WINDOW_RADIUS + 1 <= x < w - LOCAL_WINDOW_RADIUS - 1
  }

  /** The first `n` pixels of window row `wy` (from -2 to 2) around `(x, y)`. */
  function WindowRow(img: seq<seq<int>>, w: int, h: int, y: int, x: int, wy: int, n: int): int
    requires Rect(img, w, h) && Scanned(w, h, y, x) && -2 <= wy <= 2 && 0 <= n <= 5
  {
    if n == 0 then 0 else WindowRow(img, w, h, y, x, wy, n - 1) + img[y + wy][x + n - 3]
  }

  /** The first `m` rows of the 5 by 5 window around `(x, y)`; `m = 5` gives the whole window. */
  function WindowSum(img: seq<seq<int>>, w: int, h: int, y: int, x: int, m: int): int
    requires Rect(img, w, h) && Scanned(w, h, y, x) && 0 <= m <= 5
  {
    if m == 0 then 0 else WindowSum(img, w, h, y, x, m - 1) + WindowRow(img, w, h, y, x, m - 3, 5)
  }

  /** A pixel on a strong edge: its gradient magnitude exceeds 40. */
  predicate Edge(img: seq<seq<int>>, w: int, h: int, y: int, x: int)
    requires Rect(img, w, h) && 0 <= y < h && 0 <= x < w
  {
    Mag2(img, w, h, y, x) > EDGE_THRESHOLD_SQUARED
  }

  /** What an edge pixel adds: its magnitude over its local mean, or the bare magnitude in a dark patch. */
  function Contribution(img: seq<seq<int>>, w: int, h: int, root: real -> real, y: int, x: int): real
    requires Rect(img, w, h) && Scanned(w, h, y, x)
  {
    if Edge(img, w, h, y, x) then
      var mag := root(Mag2(img, w, h, y, x) as real) / 3.0;
      var mean := WindowSum(img, w, h, y, x, 5) as real / 75.0;
      if mean > MEAN_EPSILON then mag / mean else mag
    else 0.0
  }

  /** How many columns and rows the final pass visits. */
  function Cols(w: int): nat { if w >= 6 then w - 6 else 0 }
  function Rows(h: int): nat { if h >= 6 then h - 6 else 0 }

  /** The scanned columns `3 .. 3 + n - 1` of row `y`: their contribution and their number of edge pixels. */
  function RowTotal(img: seq<seq<int>>, w: int, h: int, root: real -> real, y: int, n: int): (real, int)
    requires Rect(img, w, h) && LOCAL_WINDOW_RADIUS + 1 <= y < h - LOCAL_WINDOW_RADIUS - 1
    requires 0 <= n <= Cols(w)
  {
    if n == 0 then (0.0, 0)
    else
      var x := 3 + n - 1;
      var prev := RowTotal(img, w, h, root, y, n - 1);
      if Edge(img, w, h, y, x) then (prev.0 + Contribution(img, w, h, root, y, x), prev.1 + 1) else prev
  }

  /** The scanned rows `3 .. 3 + m - 1`: their contribution and their number of edge pixels. */
  function Total(img: seq<seq<int>>, w: int, h: int, root: real -> real, m: int): (real, int)
    requires Rect(img, w, h) && 0 <= m <= Rows(h)
  {
    if m == 0 then (0.0, 0)
    else
      var prev := Total(img, w, h, root, m - 1);
      var row := RowTotal(img, w, h, root, 3 + m - 1, Cols(w));
      (prev.0 + row.0, prev.1 + row.1)
  }

  /** The score of a buffer that passes the size guard: 0 without edge pixels, else the sum of their contributions. */
  function Score(d: seq<Byte>, w: int, h: int, root: real -> real): real
    requires Image(d, w, h) && w >= MIN_SIDE && h >= MIN_SIDE
  {
    var t := Total(SmoothImage(d, w, h), w, h, root, Rows(h));
    if t.1 == 0 then 0.0 else t.0
  }

  /** With the square root for `root`, the magnitude test `> 40` is the integer test on the squared gradient. */
  lemma EdgeTestMatchesThreshold(root: real -> real, g: int)
    requires g >= 0 && root(g as real) >= 0.0 && root(g as real) * root(g as real) == g as real
    ensures root(g as real) / 3.0 > 40.0 <==> g > EDGE_THRESHOLD_SQUARED
  {
    var r := root(g as real);
    if r > 120.0 {
      assert r * r > 120.0 * r > 120.0 * 120.0;
    } else {
      assert r * r <= 120.0 * r <= 120.0 * 120.0;
    }
  }

  predicate NonNegative(img: seq<seq<int>>, w: int, h: int)
    requires Rect(img, w, h)
  {
    forall y, x :: 0 <= y < h && 0 <= x < w ==> img[y][x] >= 0
  }

  lemma SmoothImageNonNegative(d: seq<Byte>, w: int, h: int)
    requires Image(d, w, h)
    ensures NonNegative(SmoothImage(d, w, h), w, h)
  {
    var img := SmoothImage(d, w, h);
    forall y, x | 0 <= y < h && 0 <= x < w ensures img[y][x] >= 0 {
      SmoothRange(d, w, h, y, x);
    }
  }

  lemma {:induction false} WindowSumNonNegative(img: seq<seq<int>>, w: int, h: int, y: int, x: int, m: int)
    requires Rect(img, w, h) && Scanned(w, h, y, x) && 0 <= m <= 5 && NonNegative(img, w, h)
    ensures WindowSum(img, w, h, y, x, m) >= 0
  {
    if m > 0 {
      WindowSumNonNegative(img, w, h, y, x, m - 1);
      WindowRowNonNegative(img, w, h, y, x, m - 3, 5);
    }
  }

  lemma {:induction false} WindowRowNonNegative(img: seq<seq<int>>, w: int, h: int, y: int, x: int, wy: int, n: int)
    requires Rect(img, w, h) && Scanned(w, h, y, x) && -2 <= wy <= 2 && 0 <= n <= 5 && NonNegative(img, w, h)
    ensures WindowRow(img, w, h, y, x, wy, n) >= 0
  {
    if n > 0 {
      WindowRowNonNegative(img, w, h, y, x, wy, n - 1);
      assert img[y + wy][x + n - 3] >= 0;
    }
  }

  /** Every edge pixel adds a positive amount when the root of a positive number is positive. */
  lemma ContributionPositive(img: seq<seq<int>>, w: int, h: int, root: real -> real, y: int, x: int)
    requires Rect(img, w, h) && Scanned(w, h, y, x) && NonNegative(img, w, h)
    requires forall v :: v > 0.0 ==> root(v) > 0.0
    ensures Edge(img, w, h, y, x) ==> Contribution(img, w, h, root, y, x) > 0.0
    ensures !Edge(img, w, h, y, x) ==> Contribution(img, w, h, root, y, x) == 0.0
  {
    WindowSumNonNegative(img, w, h, y, x, 5);
    if Edge(img, w, h, y, x) {
      assert root(Mag2(img, w, h, y, x) as real) > 0.0;
    }
  }

  /** A row's sum is positive exactly when the row has an edge pixel, and 0 otherwise. */
  lemma {:induction false} RowTotalSign(img: seq<seq<int>>, w: int, h: int, root: real -> real, y: int, n: int)
    requires Rect(img, w, h) && LOCAL_WINDOW_RADIUS + 1 <= y < h - LOCAL_WINDOW_RADIUS - 1
    requires 0 <= n <= Cols(w) && NonNegative(img, w, h)
    requires forall v :: v > 0.0 ==> root(v) > 0.0
    ensures RowTotal(img, w, h, root, y, n).1 >= 0
    ensures RowTotal(img, w, h, root, y, n).1 > 0 <==> exists x :: 3 <= x < 3 + n && Edge(img, w, h, y, x)
    ensures RowTotal(img, w, h, root, y, n).1 == 0 ==> RowTotal(img, w, h, root, y, n).0 == 0.0
    ensures RowTotal(img, w, h, root, y, n).1 > 0 ==> RowTotal(img, w, h, root, y, n).0 > 0.0
  {
    if n > 0 {
      RowTotalSign(img, w, h, root, y, n - 1);
      ContributionPositive(img, w, h, root, y, 3 + n - 1);
    }
  }

  /** The same over the first `m` scanned rows. */
  lemma {:induction false} TotalSign(img: seq<seq<int>>, w: int, h: int, root: real -> real, m: int)
    requires Rect(img, w, h) && 0 <= m <= Rows(h) && NonNegative(img, w, h)
    requires forall v :: v > 0.0 ==> root(v) > 0.0
    ensures Total(img, w, h, root, m).1 >= 0
    ensures Total(img, w, h, root, m).1 > 0 <==>
      exists y, x :: 3 <= y < 3 + m && 3 <= x < 3 + Cols(w) && Edge(img, w, h, y, x)
    ensures Total(img, w, h, root, m).1 == 0 ==> Total(img, w, h, root, m).0 == 0.0
    ensures Total(img, w, h, root, m).1 > 0 ==> Total(img, w, h, root, m).0 > 0.0
  {
    if m > 0 {
      TotalSign(img, w, h, root, m - 1);
      RowTotalSign(img, w, h, root, 3 + m - 1, Cols(w));
    }
  }

  /**
   * The score is never negative, and it is positive exactly when some
   * scanned pixel is on a strong edge (given that the root of a positive
   * number is positive, as `Math.sqrt`'s is).
   */
  lemma ScoreSign(d: seq<Byte>, w: int, h: int, root: real -> real)
    requires Image(d, w, h) && w >= MIN_SIDE && h >= MIN_SIDE
    requires forall v :: v > 0.0 ==> root(v) > 0.0
    ensures Score(d, w, h, root) >= 0.0
    ensures Score(d, w, h, root) > 0.0 <==>
      exists y, x :: Scanned(w, h, y, x) && Edge(SmoothImage(d, w, h), w, h, y, x)
  {
    var img := SmoothImage(d, w, h);
    SmoothImageNonNegative(d, w, h);
    TotalSign(img, w, h, root, Rows(h));
    if exists y, x :: Scanned(w, h, y, x) && Edge(img, w, h, y, x) {
      var y, x :| Scanned(w, h, y, x) && Edge(img, w, h, y, x);
      assert 3 <= y < 3 + Rows(h) && 3 <= x < 3 + Cols(w);
    }
  }

  /** Without edge pixels no row counts a contributor, whatever the root. */
  lemma {:induction false} NoEdgeRowCountsNothing(img: seq<seq<int>>, w: int, h: int, root: real -> real, y: int, n: int)
    requires Rect(img, w, h) && LOCAL_WINDOW_RADIUS + 1 <= y < h - LOCAL_WINDOW_RADIUS - 1
    requires 0 <= n <= Cols(w)
    requires forall x :: 3 <= x < 3 + n ==> !Edge(img, w, h, y, x)
    ensures RowTotal(img, w, h, root, y, n) == (0.0, 0)
  {
    if n > 0 {
      NoEdgeRowCountsNothing(img, w, h, root, y, n - 1);
    }
  }

  lemma {:induction false} NoEdgeCountsNothing(img: seq<seq<int>>, w: int, h: int, root: real -> real, m: int)
    requires Rect(img, w, h) && 0 <= m <= Rows(h)
    requires forall y, x :: 3 <= y < 3 + m && 3 <= x < 3 + Cols(w) ==> !Edge(img, w, h, y, x)
    ensures Total(img, w, h, root, m) == (0.0, 0)
  {
    if m > 0 {
      NoEdgeCountsNothing(img, w, h, root, m - 1);
      NoEdgeRowCountsNothing(img, w, h, root, 3 + m - 1, Cols(w));
    }
  }

  /** A 3 by 3 neighbourhood of one grey level has that level as its median. */
  lemma UniformMedian(d: seq<Byte>, w: int, h: int, y: int, x: int, c: int)
    requires Image(d, w, h) && Interior(w, h, y, x)
    requires forall yy, xx :: 0 <= yy < h && 0 <= xx < w ==> Gray3(d, w, h, yy, xx) == c
    ensures Smooth3(d, w, h, y, x) == c
  {
    var n := Neighbors(d, w, h, y, x);
    MedianBounds(n);
    assert forall v :: v in n ==> v == c;
  }

  /** On an image of one grey level both Sobel sums vanish at every interior pixel. */
  lemma UniformGradient(img: seq<seq<int>>, w: int, h: int, y: int, x: int, c: int)
    requires Rect(img, w, h) && Interior(w, h, y, x)
    requires forall yy, xx :: 0 <= yy < h && 0 <= xx < w ==> img[yy][xx] == c
    ensures Mag2(img, w, h, y, x) == 0
  {
    var gx := Conv(img, w, h, y, x, GX_KERNEL, 3);
    var gy := Conv(img, w, h, y, x, GY_KERNEL, 3);
    UniformRow(img, w, h, y, x, GX_KERNEL, -1, c);
    UniformRow(img, w, h, y, x, GX_KERNEL, 0, c);
    UniformRow(img, w, h, y, x, GX_KERNEL, 1, c);
    UniformRow(img, w, h, y, x, GY_KERNEL, -1, c);
    UniformRow(img, w, h, y, x, GY_KERNEL, 0, c);
    UniformRow(img, w, h, y, x, GY_KERNEL, 1, c);
    assert Conv(img, w, h, y, x, GX_KERNEL, 1) == KernelRow(img, w, h, y, x, GX_KERNEL, -1, 3);
    assert Conv(img, w, h, y, x, GX_KERNEL, 2) == Conv(img, w, h, y, x, GX_KERNEL, 1) + KernelRow(img, w, h, y, x, GX_KERNEL, 0, 3);
    assert gx == KernelRow(img, w, h, y, x, GX_KERNEL, -1, 3) + KernelRow(img, w, h, y, x, GX_KERNEL, 0, 3)
      + KernelRow(img, w, h, y, x, GX_KERNEL, 1, 3);
    assert Conv(img, w, h, y, x, GY_KERNEL, 1) == KernelRow(img, w, h, y, x, GY_KERNEL, -1, 3);
    assert Conv(img, w, h, y, x, GY_KERNEL, 2) == Conv(img, w, h, y, x, GY_KERNEL, 1) + KernelRow(img, w, h, y, x, GY_KERNEL, 0, 3);
    assert gy == KernelRow(img, w, h, y, x, GY_KERNEL, -1, 3) + KernelRow(img, w, h, y, x, GY_KERNEL, 0, 3)
      + KernelRow(img, w, h, y, x, GY_KERNEL, 1, 3);
  }

  lemma UniformRow(img: seq<seq<int>>, w: int, h: int, y: int, x: int, k: seq<seq<int>>, ky: int, c: int)
    requires Rect(img, w, h) && Interior(w, h, y, x) && Kernel(k) && -1 <= ky <= 1
    requires forall yy, xx :: 0 <= yy < h && 0 <= xx < w ==> img[yy][xx] == c
    ensures KernelRow(img, w, h, y, x, k, ky, 3) == c * (k[ky + 1][0] + k[ky + 1][1] + k[ky + 1][2])
  {
    assert KernelRow(img, w, h, y, x, k, ky, 1) == c * k[ky + 1][0];
    assert KernelRow(img, w, h, y, x, k, ky, 2) == c * k[ky + 1][0] + c * k[ky + 1][1];
  }

  /** A frame of one grey level everywhere, whatever its colour, scores 0. */
  lemma UniformImageScoresZero(d: seq<Byte>, w: int, h: int, root: real -> real, c: int)
    requires Image(d, w, h) && w >= MIN_SIDE && h >= MIN_SIDE
    requires forall y, x :: 0 <= y < h && 0 <= x < w ==> Gray3(d, w, h, y, x) == c
    ensures Score(d, w, h, root) == 0.0
  {
    var img := SmoothImage(d, w, h);
    forall y, x | 0 <= y < h && 0 <= x < w ensures img[y][x] == c {
      if Interior(w, h, y, x) {
        UniformMedian(d, w, h, y, x, c);
      }
    }
    forall y, x | 3 <= y < 3 + Rows(h) && 3 <= x < 3 + Cols(w) ensures !Edge(img, w, h, y, x) {
      UniformGradient(img, w, h, y, x, c);
    }
    NoEdgeCountsNothing(img, w, h, root, Rows(h));
  }
}
