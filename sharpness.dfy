/**
 * The stages of `calculateAdvancedPerceptualSharpness`
 * (webapp/src/sharpness.worker.js, lines 12-123) as the nested loops that fill
 * one image buffer after another, each proved to produce the pixel values
 * `SharpnessSpec` describes. Grey levels are kept times 3, as integers, and
 * the buffers are two-dimensional arrays indexed `[y, x]`.
 */
module Sharpness {
  import opened Median
  import opened SharpnessSpec

  /** Step 1: the grayscale buffer, one value per pixel from its RGBA quad. */
  method Grayscale(data: array<Byte>, width: int, height: int) returns (gray: array2<int>)
    requires Image(data[..], width, height)
    ensures fresh(gray) && gray.Length0 == height && gray.Length1 == width
    ensures forall y, x :: 0 <= y < height && 0 <= x < width ==>
      gray[y, x] == Gray3(data[..], width, height, y, x)
  {
    gray := new int[height, width];
    var y := 0;
    while y < height
      invariant 0 <= y <= height
      invariant forall yy, xx :: 0 <= yy < y && 0 <= xx < width ==>
        gray[yy, xx] == Gray3(data[..], width, height, yy, xx)
    {
      var x := 0;
      while x < width
        invariant 0 <= x <= width
        invariant forall yy, xx :: 0 <= yy < y && 0 <= xx < width ==>
          gray[yy, xx] == Gray3(data[..], width, height, yy, xx)
        invariant forall xx :: 0 <= xx < x ==> gray[y, xx] == Gray3(data[..], width, height, y, xx)
      {
        PixelOffset(width, height, y, x);
        var i := (y * width + x) * 4;
        gray[y, x] := data[i] as int + data[i + 1] as int + data[i + 2] as int;
        x := x + 1;
      }
      y := y + 1;
    }
  }

  /** Step 2: the 3 by 3 median filter; border pixels are copied. */
  method MedianFilter(gray: array2<int>, ghost d: seq<Byte>, width: int, height: int)
    returns (smoothed: array2<int>)
    requires Image(d, width, height)
    requires gray.Length0 == height && gray.Length1 == width
    requires forall y, x :: 0 <= y < height && 0 <= x < width ==> gray[y, x] == Gray3(d, width, height, y, x)
    ensures fresh(smoothed) && smoothed.Length0 == height && smoothed.Length1 == width
    ensures forall y, x :: 0 <= y < height && 0 <= x < width ==>
      smoothed[y, x] == Smooth3(d, width, height, y, x)
  {
    smoothed := new int[height, width];
    var y := 0;
    while y < height
      invariant 0 <= y <= height
      invariant forall yy, xx :: 0 <= yy < y && 0 <= xx < width ==>
        smoothed[yy, xx] == Smooth3(d, width, height, yy, xx)
    {
      var x := 0;
      while x < width
        invariant 0 <= x <= width
        invariant forall yy, xx :: 0 <= yy < y && 0 <= xx < width ==>
          smoothed[yy, xx] == Smooth3(d, width, height, yy, xx)
        invariant forall xx :: 0 <= xx < x ==> smoothed[y, xx] == Smooth3(d, width, height, y, xx)
      {
        if x == 0 || x == width - 1 || y == 0 || y == height - 1 {
          smoothed[y, x] := gray[y, x];
        } else {
          var neighbors := new int[9] [
            gray[y - 1, x - 1], gray[y - 1, x], gray[y - 1, x + 1],
            gray[y, x - 1], gray[y, x], gray[y, x + 1],
            gray[y + 1, x - 1], gray[y + 1, x], gray[y + 1, x + 1]];
          assert neighbors[..] == Neighbors(d, width, height, y, x);
          var m := GetMedian(neighbors);
          smoothed[y, x] := m;
        }
        x := x + 1;
      }
      y := y + 1;
    }
  }

  /** The kernel loops at one interior pixel: both Sobel sums over the smoothed image. */
  method SobelAt(smoothed: array2<int>, ghost img: seq<seq<int>>, width: int, height: int, y: int, x: int)
    returns (gx: int, gy: int)
    requires Rect(img, width, height) && Interior(width, height, y, x)
    requires smoothed.Length0 == height && smoothed.Length1 == width
    requires forall yy, xx :: 0 <= yy < height && 0 <= xx < width ==> smoothed[yy, xx] == img[yy][xx]
    ensures gx == Conv(img, width, height, y, x, GX_KERNEL, 3)
    ensures gy == Conv(img, width, height, y, x, GY_KERNEL, 3)
  {
    gx, gy := 0, 0;
    var ky := -1;
    while ky <= 1
      invariant -1 <= ky <= 2
      invariant gx == Conv(img, width, height, y, x, GX_KERNEL, ky + 1)
      invariant gy == Conv(img, width, height, y, x, GY_KERNEL, ky + 1)
    {
      ghost var gx0, gy0 := gx, gy;
      var kx := -1;
      while kx <= 1
        invariant -1 <= kx <= 2
        invariant gx == gx0 + KernelRow(img, width, height, y, x, GX_KERNEL, ky, kx + 1)
        invariant gy == gy0 + KernelRow(img, width, height, y, x, GY_KERNEL, ky, kx + 1)
      {
        var pixelVal := smoothed[y + ky, x + kx];
        gx := gx + pixelVal * GX_KERNEL[ky + 1][kx + 1];
        gy := gy + pixelVal * GY_KERNEL[ky + 1][kx + 1];
        kx := kx + 1;
      }
      ky := ky + 1;
    }
  }

  /** Step 3: the squared gradient of every interior pixel; the border keeps its initial 0. */
  method SobelMagnitudes(smoothed: array2<int>, ghost img: seq<seq<int>>, width: int, height: int)
    returns (mags: array2<int>)
    requires Rect(img, width, height)
    requires smoothed.Length0 == height && smoothed.Length1 == width
    requires forall y, x :: 0 <= y < height && 0 <= x < width ==> smoothed[y, x] == img[y][x]
    ensures fresh(mags) && mags.Length0 == height && mags.Length1 == width
    ensures forall y, x :: 0 <= y < height && 0 <= x < width ==> mags[y, x] == Mag2(img, width, height, y, x)
  {
    mags := new int[height, width]((_, _) => 0);
    var y := 1;
    while y < height - 1
      invariant 1 <= y <= if height >= 1 then height else 1
      invariant forall yy, xx :: 0 <= yy < height && 0 <= xx < width ==>
        mags[yy, xx] == if yy < y then Mag2(img, width, height, yy, xx) else 0
    {
      var x := 1;
      while x < width - 1
        invariant 1 <= x <= if width >= 1 then width else 1
        invariant forall yy, xx :: 0 <= yy < height && 0 <= xx < width ==>
          mags[yy, xx] == if yy < y || (yy == y && xx < x) then Mag2(img, width, height, yy, xx) else 0
      {
        var gx, gy := SobelAt(smoothed, img, width, height, y, x);
        mags[y, x] := gx * gx + gy * gy;
        x := x + 1;
      }
      y := y + 1;
    }
  }

  /** The local mean's loops: the sum over the 5 by 5 window around `(x, y)` and the number of pixels in it. */
  method WindowSumAt(smoothed: array2<int>, ghost img: seq<seq<int>>, width: int, height: int, y: int, x: int)
    returns (localSum: int, localPixelCount: int)
    requires Rect(img, width, height) && Scanned(width, height, y, x)
    requires smoothed.Length0 == height && smoothed.Length1 == width
    requires forall yy, xx :: 0 <= yy < height && 0 <= xx < width ==> smoothed[yy, xx] == img[yy][xx]
    ensures localSum == WindowSum(img, width, height, y, x, 5)
    ensures localPixelCount == 25
  {
    localSum, localPixelCount := 0, 0;
    var wy := -LOCAL_WINDOW_RADIUS;
    while wy <= LOCAL_WINDOW_RADIUS
      invariant -2 <= wy <= 3
      invariant localPixelCount == 5 * (wy + 2)
      invariant localSum == WindowSum(img, width, height, y, x, wy + 2)
    {
      ghost var sum0 := localSum;
      var wx := -LOCAL_WINDOW_RADIUS;
      while wx <= LOCAL_WINDOW_RADIUS
        invariant -2 <= wx <= 3
        invariant localPixelCount == 5 * (wy + 2) + (wx + 2)
        invariant localSum == sum0 + WindowRow(img, width, height, y, x, wy, wx + 2)
      {
        localSum := localSum + smoothed[y + wy, x + wx];
        localPixelCount := localPixelCount + 1;
        wx := wx + 1;
      }
      wy := wy + 1;
    }
  }

  /** One row of the final pass, added onto the running score and count. */
  method AccumulateRow(smoothed: array2<int>, mags: array2<int>, ghost img: seq<seq<int>>,
                       width: int, height: int, root: real -> real, y: int,
                       score0: real, count0: int)
    returns (overallSharpnessScore: real, contributingPixels: int)
    requires Rect(img, width, height) && LOCAL_WINDOW_RADIUS + 1 <= y < height - LOCAL_WINDOW_RADIUS - 1
    requires smoothed.Length0 == height && smoothed.Length1 == width
    requires mags.Length0 == height && mags.Length1 == width
    requires forall yy, xx :: 0 <= yy < height && 0 <= xx < width ==> smoothed[yy, xx] == img[yy][xx]
    requires forall yy, xx :: 0 <= yy < height && 0 <= xx < width ==> mags[yy, xx] == Mag2(img, width, height, yy, xx)
    ensures overallSharpnessScore == score0 + RowTotal(img, width, height, root, y, Cols(width)).0
    ensures contributingPixels == count0 + RowTotal(img, width, height, root, y, Cols(width)).1
  {
    overallSharpnessScore, contributingPixels := score0, count0;
    var x := LOCAL_WINDOW_RADIUS + 1;
    while x < width - LOCAL_WINDOW_RADIUS - 1
      invariant 3 <= x <= 3 + Cols(width)
      invariant overallSharpnessScore == score0 + RowTotal(img, width, height, root, y, x - 3).0
      invariant contributingPixels == count0 + RowTotal(img, width, height, root, y, x - 3).1
    {
      var currentGradientMagnitude := mags[y, x];
      if currentGradientMagnitude > EDGE_THRESHOLD_SQUARED {
        var localSum, localPixelCount := WindowSumAt(smoothed, img, width, height, y, x);
        var localMeanIntensity := if localPixelCount > 0 then localSum as real / (3.0 * localPixelCount as real) else 0.0;
        var magnitude := root(currentGradientMagnitude as real) / 3.0;
        if localMeanIntensity > MEAN_EPSILON {
          overallSharpnessScore := overallSharpnessScore + magnitude / localMeanIntensity;
        } else {
          overallSharpnessScore := overallSharpnessScore + magnitude;
        }
        contributingPixels := contributingPixels + 1;
      }
      x := x + 1;
    }
  }

  /**
   * Step 4: over the scanned pixels with a squared gradient above the
   * threshold, the sum of magnitude over local mean (the bare magnitude where
   * the mean is at most `epsilon`), and the number of such pixels.
   */
  method Accumulate(smoothed: array2<int>, mags: array2<int>, ghost img: seq<seq<int>>,
                    width: int, height: int, root: real -> real)
    returns (overallSharpnessScore: real, contributingPixels: int)
    requires Rect(img, width, height)
    requires smoothed.Length0 == height && smoothed.Length1 == width
    requires mags.Length0 == height && mags.Length1 == width
    requires forall y, x :: 0 <= y < height && 0 <= x < width ==> smoothed[y, x] == img[y][x]
    requires forall y, x :: 0 <= y < height && 0 <= x < width ==> mags[y, x] == Mag2(img, width, height, y, x)
    ensures (overallSharpnessScore, contributingPixels) == Total(img, width, height, root, Rows(height))
  {
    overallSharpnessScore, contributingPixels := 0.0, 0;
    var y := LOCAL_WINDOW_RADIUS + 1;
    while y < height - LOCAL_WINDOW_RADIUS - 1
      invariant 3 <= y <= 3 + Rows(height)
      invariant (overallSharpnessScore, contributingPixels) == Total(img, width, height, root, y - 3)
    {
      overallSharpnessScore, contributingPixels :=
        AccumulateRow(smoothed, mags, img, width, height, root, y, overallSharpnessScore, contributingPixels);
      y := y + 1;
    }
  }

  /**
   * `calculateAdvancedPerceptualSharpness`: 0 for a missing buffer or an
   * image narrower or lower than 5 pixels; otherwise the four stages in
   * turn, and 0 again when no pixel contributes.
   */
  method CalculateSharpness(data: array?<Byte>, width: int, height: int, root: real -> real)
    returns (score: real)
    requires data != null && width >= MIN_SIDE && height >= MIN_SIDE ==> Image(data[..], width, height)
    ensures data == null || width < MIN_SIDE || height < MIN_SIDE ==> score == 0.0
    ensures data != null && width >= MIN_SIDE && height >= MIN_SIDE ==> score == Score(data[..], width, height, root)
  {
    if data == null || width < MIN_SIDE || height < MIN_SIDE {
      return 0.0;
    }
    var gray := Grayscale(data, width, height);
    var smoothed := MedianFilter(gray, data[..], width, height);
    ghost var img := SmoothImage(data[..], width, height);
    var mags := SobelMagnitudes(smoothed, img, width, height);
    var total, contributingPixels := Accumulate(smoothed, mags, img, width, height, root);
    if contributingPixels == 0 {
      return 0.0;
    }
    score := total;
  }
}
