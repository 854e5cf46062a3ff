/** The Laplacian convolution: the per-pixel formula with toroidal
    wrap-around, and the slice worker that writes a band of rows of the
    result buffer (compute_laplacian_threadfn). */
module Convolution {
  import opened Pixels

  /** The fixed 3x3 kernel, indexed [filter row][filter column]. */
  const Laplacian: seq<seq<int>> := [[-1, -1, -1], [-1, 8, -1], [-1, -1, -1]]

  /** The kernel entry in filter row fy, filter column fx: 8 at the centre,
      -1 elsewhere (KernelIsLaplacian checks it against the matrix). */
  function Kernel(fy: nat, fx: nat): int
    requires fy < 3 && fx < 3
  {
    if fy == 1 && fx == 1 then 8 else -1
  }

  lemma KernelIsLaplacian(fy: nat, fx: nat)
    requires fy < 3 && fx < 3
    ensures Kernel(fy, fx) == Laplacian[fy][fx]
  {
  }

  /** The weight of kernel cell k, cells numbered row by row as the two
      filter loops of compute_laplacian_threadfn visit them: cell 4 is the
      centre. */
  function Weight(k: nat): int
    requires k < 9
  {
    if k == 4 then 8 else -1
  }

  /** Cell 3 * fy + fx of the row-by-row numbering carries the kernel entry
      of filter row fy, filter column fx. */
  lemma WeightIsKernel(fy: nat, fx: nat)
    requires fy < 3 && fx < 3
    ensures Weight(3 * fy + fx) == Kernel(fy, fx)
  {
  }

  /** The filter row of kernel cell k (k / 3). */
  function CellRow(k: nat): (fy: nat)
    requires k < 9
    ensures fy < 3
  {
    if k < 3 then 0 else if k < 6 then 1 else 2
  }

  /** The filter column of kernel cell k (k % 3). */
  function CellColumn(k: nat): (fx: nat)
    requires k < 9
    ensures fx < 3 && k == 3 * CellRow(k) + fx
  {
    k - 3 * CellRow(k)
  }

  /** The sample coordinate for filter offset off (0, 1 or 2, standing for
      -1, 0 and +1) around c on an axis of length n: (c - 1 + off + n) % n. */
  function Wrap(c: nat, off: nat, n: nat): (r: nat)
    requires c < n && off < 3
    ensures r < n
  {
    (c + off + n - 1) % n
  }

  /** Multiplying by a natural number keeps the order. */
  lemma MulLe(a: int, b: int, w: nat)
    requires a <= b
    ensures a * w <= b * w
  {
    assert (b - a) * w >= 0;
  }

  /** Quotient and remainder are determined by i = q * w + r, 0 <= r < w. */
  lemma DivModUnique(i: int, w: int, q: int, r: int)
    requires w > 0 && 0 <= r < w && i == q * w + r
    ensures i / w == q && i % w == r
  {
    var q0, r0 := i / w, i % w;
    assert i == q0 * w + r0;
    if q0 < q {
      MulLe(q0 + 1, q, w);
    } else if q < q0 {
      MulLe(q + 1, q0, w);
    }
  }

  /** The buffer index of cell (x, y) in a row-major buffer of width w. */
  function Index(w: nat, x: nat, y: nat): nat
  {
    y * w + x
  }

  /** Row-major layout: cell (x, y) of a w x h grid lies inside the buffer,
      and its index gives back x and y. */
  lemma RowMajor(w: nat, h: nat, x: nat, y: nat)
    requires x < w && y < h
    ensures Index(w, x, y) < w * h
    ensures Index(w, x, y) / w == y && Index(w, x, y) % w == x
  {
    MulLe(y + 1, h, w);
    DivModUnique(y * w + x, w, y, x);
  }

  /** The index of a cell in rows [start, end) lies in [start * w, end * w). */
  lemma InRows(w: nat, h: nat, start: nat, end: nat, x: nat, y: nat)
    requires start <= y < end <= h && x < w
    ensures start * w <= Index(w, x, y) < end * w
  {
    RowMajor(w, h, x, y);
    MulLe(start, y, w);
    MulLe(y + 1, end, w);
  }

  /** Every index below w * h is the row-major index of some cell. */
  lemma RowMajorInverse(w: nat, h: nat, i: nat)
    requires i < w * h
    ensures w > 0 && i % w < w && i / w < h && (i / w) * w + i % w == i
  {
    assert w > 0;
  }

  /** The wrapped coordinates are the toroidal neighbours: offset 1 is the
      coordinate itself, offset 0 the previous one and offset 2 the next one,
      where the predecessor of 0 is n - 1 and the successor of n - 1 is 0. */
  lemma WrapNeighbours(c: nat, n: nat)
    requires c < n
    ensures Wrap(c, 1, n) == c
    ensures Wrap(c, 0, n) == if c == 0 then n - 1 else c - 1
    ensures Wrap(c, 2, n) == if c == n - 1 then 0 else c + 1
  {
    DivModUnique(c + n, n, 1, c);
    if c == 0 {
      DivModUnique(n - 1, n, 0, n - 1);
    } else {
      DivModUnique(c + n - 1, n, 1, c - 1);
    }
    if c == n - 1 {
      DivModUnique(c + n + 1, n, 2, 0);
    } else {
      DivModUnique(c + n + 1, n, 1, c + 1);
    }
  }

  /** The buffer index of the sample under kernel cell k for the pixel at
      (x, y): it always lies inside the image, whatever the size, 1 x 1
      included, so no read is ever out of bounds. */
  function SampleIndex(w: nat, h: nat, x: nat, y: nat, k: nat): (i: nat)
    requires x < w && y < h && k < 9
    ensures i < w * h
  {
    RowMajor(w, h, Wrap(x, CellColumn(k), w), Wrap(y, CellRow(k), h));
    Index(w, Wrap(x, CellColumn(k), w), Wrap(y, CellRow(k), h))
  }

  /** The value of channel c of the sample under kernel cell k. */
  function Sample(img: seq<Pixel>, w: nat, h: nat, x: nat, y: nat, c: Channel, k: nat): int
    requires |img| == w * h && x < w && y < h && k < 9
  {
    Chan(img[SampleIndex(w, h, x, y, k)], c) as int
  }

  /** The accumulator of one channel after the first n kernel cells. */
  function Conv(img: seq<Pixel>, w: nat, h: nat, x: nat, y: nat, c: Channel, n: nat): int
    requires |img| == w * h && x < w && y < h && n <= 9
  {
    if n == 0 then 0
    else Conv(img, w, h, x, y, c, n - 1) + Sample(img, w, h, x, y, c, n - 1) * Weight(n - 1)
  }

  /** Every partial sum of a channel lies in [-2040, 2040]: the first four
      cells and the last four each subtract a sample in [0, 255], and the
      centre adds eight times one. These are all the values an accumulator
      of compute_laplacian_threadfn ever holds, so a 32-bit int suffices. */
  lemma ConvBound(img: seq<Pixel>, w: nat, h: nat, x: nat, y: nat, c: Channel, n: nat)
    requires |img| == w * h && x < w && y < h && n <= 9
    ensures -2040 <= Conv(img, w, h, x, y, c, n) <= 2040
  {
    ConvPartialBound(img, w, h, x, y, c, n);
  }

  /** The exact range of the partial sum after n cells: n negative cells
      before the centre, n - 1 after it, and the centre's 8 * 255 at most. */
  lemma {:induction false} ConvPartialBound(img: seq<Pixel>, w: nat, h: nat, x: nat, y: nat, c: Channel, n: nat)
    requires |img| == w * h && x < w && y < h && n <= 9
    ensures -255 * (if n > 4 then n - 1 else n) <= Conv(img, w, h, x, y, c, n) <= (if n > 4 then 2040 else 0)
  {
    if n > 0 {
      ConvPartialBound(img, w, h, x, y, c, n - 1);
    }
  }

  /** The raw (unclamped) filter response of one channel at (x, y). */
  function Response(img: seq<Pixel>, w: nat, h: nat, x: nat, y: nat, c: Channel): int
    requires |img| == w * h && x < w && y < h
  {
    Conv(img, w, h, x, y, c, 9)
  }

  /** The response is eight times the centre minus the eight wrapped
      neighbours, and it lies in [-2040, 2040]. */
  lemma ResponseIsLaplacian(img: seq<Pixel>, w: nat, h: nat, x: nat, y: nat, c: Channel)
    requires |img| == w * h && x < w && y < h
    ensures Response(img, w, h, x, y, c) ==
      8 * Sample(img, w, h, x, y, c, 4)
      - Sample(img, w, h, x, y, c, 0) - Sample(img, w, h, x, y, c, 1) - Sample(img, w, h, x, y, c, 2)
      - Sample(img, w, h, x, y, c, 3) - Sample(img, w, h, x, y, c, 5)
      - Sample(img, w, h, x, y, c, 6) - Sample(img, w, h, x, y, c, 7) - Sample(img, w, h, x, y, c, 8)
    ensures -2040 <= Response(img, w, h, x, y, c) <= 2040
  {
    forall k | 0 <= k < 9
      ensures Conv(img, w, h, x, y, c, k + 1) ==
        Conv(img, w, h, x, y, c, k) + (if k == 4 then 8 else -1) * Sample(img, w, h, x, y, c, k)
    {
      assert Weight(k) == if k == 4 then 8 else -1;
    }
  }

  /** In an image of one colour every sample equals the centre, so the
      response is zero. */
  lemma UniformResponse(img: seq<Pixel>, w: nat, h: nat, x: nat, y: nat, c: Channel)
    requires |img| == w * h && x < w && y < h
    requires forall i :: 0 <= i < |img| ==> img[i] == img[0]
    ensures Response(img, w, h, x, y, c) == 0
  {
    ResponseIsLaplacian(img, w, h, x, y, c);
    forall k | 0 <= k < 9
      ensures Sample(img, w, h, x, y, c, k) == Chan(img[0], c)
    {
      assert img[SampleIndex(w, h, x, y, k)] == img[0];
    }
  }

  /** The output pixel at (x, y): each channel's response, clamped. */
  function FilteredPixel(img: seq<Pixel>, w: nat, h: nat, x: nat, y: nat): Pixel
    requires |img| == w * h && x < w && y < h
  {
    Pixel(Clamp(Response(img, w, h, x, y, Red)),
          Clamp(Response(img, w, h, x, y, Green)),
          Clamp(Response(img, w, h, x, y, Blue)))
  }

  /** The output pixel at buffer index i. */
  function FilteredAt(img: seq<Pixel>, w: nat, h: nat, i: nat): Pixel
    requires |img| == w * h && i < w * h
  {
    RowMajorInverse(w, h, i);
    FilteredPixel(img, w, h, i % w, i / w)
  }

  /** The whole filtered image, as one pass over every pixel would give it. */
  function FilterImage(img: seq<Pixel>, w: nat, h: nat): (r: seq<Pixel>)
    requires |img| == w * h
    ensures |r| == w * h
  {
    seq(w * h, i requires 0 <= i < w * h => FilteredAt(img, w, h, i))
  }

  /** The filtered image holds at y * w + x the clamped response at (x, y). */
  lemma FilterImageAt(img: seq<Pixel>, w: nat, h: nat, x: nat, y: nat)
    requires |img| == w * h && x < w && y < h
    ensures Index(w, x, y) < w * h
    ensures FilterImage(img, w, h)[Index(w, x, y)] == FilteredPixel(img, w, h, x, y)
  {
    RowMajor(w, h, x, y);
  }

  /** The kernel weights sum to zero, so an image of one colour filters to
      an all-black image. */
  lemma UniformIsBlack(img: seq<Pixel>, w: nat, h: nat)
    requires |img| == w * h
    requires forall i :: 0 <= i < |img| ==> img[i] == img[0]
    ensures forall i :: 0 <= i < w * h ==> FilterImage(img, w, h)[i] == Black
  {
    forall i | 0 <= i < w * h
      ensures FilterImage(img, w, h)[i] == Black
    {
      RowMajorInverse(w, h, i);
      UniformResponse(img, w, h, i % w, i / w, Red);
      UniformResponse(img, w, h, i % w, i / w, Green);
      UniformResponse(img, w, h, i % w, i / w, Blue);
    }
  }

  /** A 1 x 1 image is its own whole neighbourhood: it filters to black. */
  lemma OnePixelIsBlack(img: seq<Pixel>)
    requires |img| == 1
    ensures FilterImage(img, 1, 1) == [Black]
  {
    UniformIsBlack(img, 1, 1);
  }

  /** The result buffer res after the pixels at indices [lo, hi) have been
      written with their filtered values; every other index keeps res. */
  function PaintRange(res: seq<Pixel>, img: seq<Pixel>, w: nat, h: nat, lo: nat, hi: nat): (r: seq<Pixel>)
    requires |res| == w * h && |img| == w * h
    ensures |r| == w * h
  {
    seq(w * h, i requires 0 <= i < w * h =>
      if lo <= i < hi then FilteredAt(img, w, h, i) else res[i])
  }

  /** Painting [lo, mid) and then [mid, hi) paints [lo, hi). */
  lemma PaintRangeCompose(res: seq<Pixel>, img: seq<Pixel>, w: nat, h: nat, lo: nat, mid: nat, hi: nat)
    requires |res| == w * h && |img| == w * h
    requires lo <= mid <= hi
    ensures PaintRange(PaintRange(res, img, w, h, lo, mid), img, w, h, mid, hi)
         == PaintRange(res, img, w, h, lo, hi)
  {
  }

  /** One more write extends the painted range by one index. */
  lemma PaintStep(res: seq<Pixel>, img: seq<Pixel>, w: nat, h: nat, lo: nat, i: nat)
    requires |res| == w * h && |img| == w * h
    requires lo <= i < w * h
    ensures PaintRange(res, img, w, h, lo, i)[i := FilteredAt(img, w, h, i)]
         == PaintRange(res, img, w, h, lo, i + 1)
  {
  }

  /** Every pixel (x, y) of rows [start, end) of r holds its filtered value. */
  ghost predicate RowsFiltered(r: seq<Pixel>, img: seq<Pixel>, w: nat, h: nat, start: nat, end: nat)
    requires |img| == w * h
  {
    forall y, x :: start <= y < end && 0 <= x < w ==>
      y < h && Index(w, x, y) < |r| && r[Index(w, x, y)] == FilteredPixel(img, w, h, x, y)
  }

  /** Painting the indices of rows [start, end) writes at y * w + x the
      filtered pixel (x, y) of each of those rows. */
  lemma PaintRangeRows(res: seq<Pixel>, img: seq<Pixel>, w: nat, h: nat, start: nat, end: nat)
    requires |res| == w * h && |img| == w * h
    requires start <= end <= h
    ensures RowsFiltered(PaintRange(res, img, w, h, start * w, end * w), img, w, h, start, end)
  {
    forall y, x | start <= y < end && 0 <= x < w
      ensures Index(w, x, y) < w * h &&
        PaintRange(res, img, w, h, start * w, end * w)[Index(w, x, y)] == FilteredPixel(img, w, h, x, y)
    {
      RowMajor(w, h, x, y);
      InRows(w, h, start, end, x, y);
      var i := Index(w, x, y);
      assert PaintRange(res, img, w, h, start * w, end * w)[i] == FilteredAt(img, w, h, i);
    }
  }

  /** Painting every index gives the filtered image, whatever res held. */
  lemma PaintAllIsFilter(res: seq<Pixel>, img: seq<Pixel>, w: nat, h: nat, hi: nat)
    requires |res| == w * h && |img| == w * h
    requires hi >= w * h
    ensures PaintRange(res, img, w, h, 0, hi) == FilterImage(img, w, h)
  {
  }

  /** The coordinate arithmetic of compute_laplacian_threadfn for filter
      cell (fy, fx) computes the sample index of kernel cell 3 * fy + fx. */
  lemma SampleIndexAt(w: nat, h: nat, x: nat, y: nat, fy: nat, fx: nat)
    requires x < w && y < h && fy < 3 && fx < 3
    ensures SampleIndex(w, h, x, y, 3 * fy + fx) == Index(w, (x - 1 + fx + w) % w, (y - 1 + fy + h) % h)
  {
    assert CellRow(3 * fy + fx) == fy;
  }

  /** One more kernel cell, in the order the filter loops of
      compute_laplacian_threadfn visit them: the coordinate arithmetic for
      filter cell (fy, fx) reads the sample of kernel cell 3 * fy + fx,
      inside the buffer. */
  lemma ConvStep(img: seq<Pixel>, w: nat, h: nat, x: nat, y: nat, fy: nat, fx: nat)
    requires |img| == w * h && x < w && y < h && fy < 3 && fx < 3
    ensures Index(w, (x - 1 + fx + w) % w, (y - 1 + fy + h) % h) < |img|
    ensures var p := img[Index(w, (x - 1 + fx + w) % w, (y - 1 + fy + h) % h)];
      && Conv(img, w, h, x, y, Red, 3 * fy + fx + 1) == Conv(img, w, h, x, y, Red, 3 * fy + fx) + p.r * Kernel(fy, fx)
      && Conv(img, w, h, x, y, Green, 3 * fy + fx + 1) == Conv(img, w, h, x, y, Green, 3 * fy + fx) + p.g * Kernel(fy, fx)
      && Conv(img, w, h, x, y, Blue, 3 * fy + fx + 1) == Conv(img, w, h, x, y, Blue, 3 * fy + fx) + p.b * Kernel(fy, fx)
  {
    SampleIndexAt(w, h, x, y, fy, fx);
    WeightIsKernel(fy, fx);
  }

  /** The innermost loop of compute_laplacian_threadfn: add the three
      kernel cells of filter row fy to the accumulators. */
  method AccumulateRow(image: array<Pixel>, w: nat, h: nat, x: nat, y: nat, fy: nat,
                       red0: int, green0: int, blue0: int) returns (red: int, green: int, blue: int)
    requires image.Length == w * h && x < w && y < h && fy < 3
    requires red0 == Conv(image[..], w, h, x, y, Red, 3 * fy)
    requires green0 == Conv(image[..], w, h, x, y, Green, 3 * fy)
    requires blue0 == Conv(image[..], w, h, x, y, Blue, 3 * fy)
    ensures red == Conv(image[..], w, h, x, y, Red, 3 * fy + 3)
    ensures green == Conv(image[..], w, h, x, y, Green, 3 * fy + 3)
    ensures blue == Conv(image[..], w, h, x, y, Blue, 3 * fy + 3)
    ensures -2040 <= red <= 2040 && -2040 <= green <= 2040 && -2040 <= blue <= 2040
  {
    ghost var img := image[..];
    red, green, blue := red0, green0, blue0;
    for fx := 0 to 3
      invariant red == Conv(img, w, h, x, y, Red, 3 * fy + fx)
      invariant green == Conv(img, w, h, x, y, Green, 3 * fy + fx)
      invariant blue == Conv(img, w, h, x, y, Blue, 3 * fy + fx)
    {
      var xCoord: nat := (x - 1 + fx + w) % w;
      var yCoord: nat := (y - 1 + fy + h) % h;
      var index := Index(w, xCoord, yCoord);
      ConvStep(img, w, h, x, y, fy, fx);
      var p := image[index];
      assert p == img[index];
      red := red + p.r * Kernel(fy, fx);
      green := green + p.g * Kernel(fy, fx);
      blue := blue + p.b * Kernel(fy, fx);
    }
    ConvBound(img, w, h, x, y, Red, 3 * fy + 3);
    ConvBound(img, w, h, x, y, Green, 3 * fy + 3);
    ConvBound(img, w, h, x, y, Blue, 3 * fy + 3);
  }

  /** The two filter loops of compute_laplacian_threadfn: accumulate the
      kernel-weighted samples of the pixel at (x, y), channel by channel
      (the innermost loop is AccumulateRow). */
  method Convolve(image: array<Pixel>, w: nat, h: nat, x: nat, y: nat) returns (red: int, green: int, blue: int)
    requires image.Length == w * h && x < w && y < h
    ensures red == Response(image[..], w, h, x, y, Red)
    ensures green == Response(image[..], w, h, x, y, Green)
    ensures blue == Response(image[..], w, h, x, y, Blue)
    ensures -2040 <= red <= 2040 && -2040 <= green <= 2040 && -2040 <= blue <= 2040
  {
    red, green, blue := 0, 0, 0;
    for fy := 0 to 3
      invariant red == Conv(image[..], w, h, x, y, Red, 3 * fy)
      invariant green == Conv(image[..], w, h, x, y, Green, 3 * fy)
      invariant blue == Conv(image[..], w, h, x, y, Blue, 3 * fy)
      invariant -2040 <= red <= 2040 && -2040 <= green <= 2040 && -2040 <= blue <= 2040
    {
      red, green, blue := AccumulateRow(image, w, h, x, y, fy, red, green, blue);
    }
  }

  /** compute_laplacian_threadfn: the worker for the rows [start, start + size).
      It writes exactly the pixels of those rows, each with its filtered value,
      leaves every other pixel of result as it was, and only reads image. */
  method ComputeSlice(image: array<Pixel>, result: array<Pixel>, w: nat, h: nat, start: nat, size: nat)
    requires image != result
    requires image.Length == w * h && result.Length == w * h
    requires start + size <= h
    modifies result
    ensures image[..] == old(image[..])
    ensures result[..] == PaintRange(old(result[..]), image[..], w, h, start * w, (start + size) * w)
    ensures forall i :: 0 <= i < result.Length && !(start * w <= i < (start + size) * w) ==>
      result[i] == old(result[i])
    ensures RowsFiltered(result[..], image[..], w, h, start, start + size)
  {
    ghost var img := image[..];
    ghost var res0 := result[..];
    var end := start + size;
    for y := start to end
      invariant result[..] == PaintRange(res0, img, w, h, start * w, Index(w, 0, y))
    {
      for x := 0 to w
        invariant result[..] == PaintRange(res0, img, w, h, start * w, Index(w, x, y))
      {
        var red, green, blue := Convolve(image, w, h, x, y);
        red, green, blue := TruncateValues(red, green, blue);
        var resultIndex := Index(w, x, y);
        RowMajor(w, h, x, y);
        InRows(w, h, start, end, x, y);
        assert FilteredAt(img, w, h, resultIndex) == Pixel(red, green, blue);
        PaintStep(res0, img, w, h, start * w, resultIndex);
        result[resultIndex] := Pixel(red, green, blue);
      }
      assert Index(w, w, y) == Index(w, 0, y + 1);
    }
    PaintRangeRows(res0, img, w, h, start, end);
  }
}
