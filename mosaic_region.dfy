/**
 * mosaic_region (emotion_mosaic.py): pixelates the rectangle of an image whose
 * top-left corner is (x, y) and whose size is w x h, in place.
 *
 * The image is a height x width grid of pixels; the region is taken with
 * NumPy's slicing rules (img[y:y+h, x:x+w]), which clamp the bounds and count a
 * negative start from the end of the axis. The region is shrunk to
 * mw x mh pixels and enlarged back with nearest-neighbour sampling, so every
 * pixel of a block takes the value of one shrunk pixel. Whatever raises inside
 * the `try` (a division by a zero level, a region whose slice is empty or
 * smaller than w x h) leaves the image as it was.
 */
module MosaicRegion {

  /** One BGR pixel. */
  datatype Pixel = Pixel(b: int, g: int, r: int)

  /** An image as rows of pixels (NumPy's first axis is y). */
  type Grid = seq<seq<Pixel>>

  /**
   * cv2.resize(roi, (mw, mh), INTER_LINEAR) at shrunk pixel (i, j): the
   * interpolation itself is not modelled, only that it reads the region.
   */
  type Sampler = (Grid, nat, nat, nat, nat) -> Pixel

  /** The rows of a pixelated region that is still inside the image. */
  datatype Region = Region(top: nat, left: nat, height: nat, width: nat)

  const MOSAIC_LEVEL := 15

  ghost predicate IsGrid(g: Grid, rows: nat, cols: nat)
  {
    |g| == rows && forall r :: 0 <= r < rows ==> |g[r]| == cols
  }

  function Width(g: Grid): nat
  {
    if g == [] then 0 else |g[0]|
  }

  /** Python's adjustment of a slice bound `i` on an axis of length `n`. */
  function AdjustIndex(i: int, n: nat): (j: nat)
    ensures j <= n
    ensures 0 <= i <= n ==> j == i
  {
    if i < 0 then (if i + n < 0 then 0 else i + n)
    else if i >= n then n
    else i
  }

  /** Number of elements of a[start:stop] on an axis of length `n`. */
  function SliceLength(start: int, stop: int, n: nat): nat
  {
    var lo := AdjustIndex(start, n);
    var hi := AdjustIndex(stop, n);
    if hi < lo then 0 else hi - lo
  }

  /**
   * The body of the `try` runs to completion: the size is positive, the level
   * is not zero and the slice has exactly h rows and w columns (a shorter or
   * empty slice makes cv2.resize or the slice assignment raise).
   */
  predicate Applies(g: Grid, x: int, y: int, w: int, h: int, level: int)
  {
    w > 0 && h > 0 && level != 0 &&
    SliceLength(y, y + h, |g|) == h && SliceLength(x, x + w, Width(g)) == w
  }

  /** The part of the image the slice img[y:y+h, x:x+w] covers. */
  function SliceRegion(g: Grid, x: int, y: int, w: nat, h: nat): Region
  {
    Region(AdjustIndex(y, |g|), AdjustIndex(x, Width(g)), h, w)
  }

  predicate InRegion(reg: Region, r: int, c: int)
  {
    reg.top <= r < reg.top + reg.height && reg.left <= c < reg.left + reg.width
  }

  ghost predicate Inside(g: Grid, reg: Region)
  {
    reg.top + reg.height <= |g| && reg.left + reg.width <= Width(g)
  }

  /** int(n / level) floored at 1: the number of shrunk pixels along one side. */
  function BlockDim(n: nat, level: int): nat
    requires level != 0
  {
    if level > 0 && n / level > 1 then n / level else 1
  }

  /** The region's pixels, copied out of the image. */
  function Crop(g: Grid, reg: Region): (roi: Grid)
    requires IsGrid(g, |g|, Width(g)) && Inside(g, reg)
    ensures IsGrid(roi, reg.height, reg.width)
  {
    seq(reg.height, i requires 0 <= i < reg.height => g[reg.top + i][reg.left .. reg.left + reg.width])
  }

  /**
   * The enlarged block pixel for image position (r, c) inside the region:
   * nearest-neighbour enlargement reads shrunk pixel (r' * mh / h, c' * mw / w)
   * for the region-relative position (r', c').
   */
  function BlockPixel(roi: Grid, reg: Region, mh: nat, mw: nat, sample: Sampler, r: int, c: int): Pixel
    requires InRegion(reg, r, c)
  {
    sample(roi, mh, mw, NearestIndex(r - reg.top, reg.height, mh), NearestIndex(c - reg.left, reg.width, mw))
  }

  /**
   * Nearest-neighbour enlargement from m to n pixels: target index k reads
   * source index k * m / n, which is below m.
   */
  function NearestIndex(k: nat, n: nat, m: nat): (i: nat)
    requires k < n
    ensures m > 0 ==> i < m
  {
    DivBelow(k * m, n, m);
    k * m / n
  }

  /** The image mosaic_region leaves behind. */
  function Mosaicked(g: Grid, x: int, y: int, w: int, h: int, level: int, sample: Sampler): (g': Grid)
    requires IsGrid(g, |g|, Width(g))
    ensures IsGrid(g', |g|, Width(g))
  {
    if !Applies(g, x, y, w, h, level) then g
    else
      var reg := SliceRegion(g, x, y, w, h);
      var roi := Crop(g, reg);
      var mh, mw := BlockDim(h, level), BlockDim(w, level);
      seq(|g|, r requires 0 <= r < |g| =>
        seq(Width(g), c requires 0 <= c < Width(g) =>
          if InRegion(reg, r, c) then BlockPixel(roi, reg, mh, mw, sample, r, c) else g[r][c]))
  }

  /** The image held by an array, row by row. */
  function Snapshot(img: array2<Pixel>): (g: Grid)
    reads img
    ensures IsGrid(g, img.Length0, img.Length1)
    ensures IsGrid(g, |g|, Width(g))
  {
    seq(img.Length0, r requires 0 <= r < img.Length0 reads img =>
      seq(img.Length1, c requires 0 <= c < img.Length1 reads img => img[r, c]))
  }

  lemma SliceFits(g: Grid, x: int, y: int, w: int, h: int, level: int)
    requires IsGrid(g, |g|, Width(g)) && Applies(g, x, y, w, h, level)
    ensures Inside(g, SliceRegion(g, x, y, w, h))
  {
  }

  /** The pixel a region position receives: the enlarged block pixel, or the old value outside. */
  function Target(roi: Grid, reg: Region, mh: nat, mw: nat, sample: Sampler, before: Pixel, r: int, c: int): Pixel
  {
    if InRegion(reg, r, c) then BlockPixel(roi, reg, mh, mw, sample, r, c) else before
  }

  /** img[y:y+h, x:x+w] = mosaic, pixel by pixel, for a region inside the image. */
  method WriteBlocks(img: array2<Pixel>, reg: Region, roi: Grid, mh: nat, mw: nat, sample: Sampler)
    requires reg.top + reg.height <= img.Length0 && reg.left + reg.width <= img.Length1
    modifies img
    ensures forall r, c :: 0 <= r < img.Length0 && 0 <= c < img.Length1 ==>
      img[r, c] == Target(roi, reg, mh, mw, sample, old(img[r, c]), r, c)
  {
    var i := 0;
    while i < reg.height
      invariant 0 <= i <= reg.height
      invariant forall r, c :: 0 <= r < img.Length0 && 0 <= c < img.Length1 ==>
        img[r, c] == if r < reg.top + i then Target(roi, reg, mh, mw, sample, old(img[r, c]), r, c) else old(img[r, c])
    {
      var j := 0;
      while j < reg.width
        invariant 0 <= j <= reg.width
        invariant forall r, c :: 0 <= r < img.Length0 && 0 <= c < img.Length1 ==>
          img[r, c] == if r < reg.top + i || (r == reg.top + i && c < reg.left + j)
                       then Target(roi, reg, mh, mw, sample, old(img[r, c]), r, c) else old(img[r, c])
      {
        img[reg.top + i, reg.left + j] := BlockPixel(roi, reg, mh, mw, sample, reg.top + i, reg.left + j);
        j := j + 1;
      }
      i := i + 1;
    }
  }

  /** mosaic_region: the in-place slice assignment of the pixelated region. */
  method MosaicRegion(img: array2<Pixel>, x: int, y: int, w: int, h: int, level: int, sample: Sampler)
    modifies img
    ensures Snapshot(img) == Mosaicked(old(Snapshot(img)), x, y, w, h, level, sample)
  {
    var g0 := Snapshot(img);
    assert img.Length0 > 0 ==> Width(g0) == img.Length1 by {
      if img.Length0 > 0 { assert |g0[0]| == img.Length1; }
    }
    if !(w > 0 && h > 0 && level != 0) {
      return;
    }
    if SliceLength(y, y + h, |g0|) != h || SliceLength(x, x + w, Width(g0)) != w {
      return;
    }
    var reg := SliceRegion(g0, x, y, w, h);
    SliceFits(g0, x, y, w, h, level);
    var roi := Crop(g0, reg);
    var mh, mw := BlockDim(h, level), BlockDim(w, level);
    WriteBlocks(img, reg, roi, mh, mw, sample);
    ghost var g1 := Mosaicked(g0, x, y, w, h, level, sample);
    assert Snapshot(img) == g1 by {
      forall r | 0 <= r < img.Length0
        ensures Snapshot(img)[r] == g1[r]
      {
        assert |Snapshot(img)[r]| == |g1[r]|;
      }
    }
  }

  // ---------------------------------------------------------------------------
  // What mosaic_region guarantees
  // ---------------------------------------------------------------------------

  /** A region with a non-positive side, a zero level or a slice other than h x w leaves the image unchanged. */
  lemma NoopUnlessApplies(g: Grid, x: int, y: int, w: int, h: int, level: int, sample: Sampler)
    requires IsGrid(g, |g|, Width(g))
    ensures w <= 0 || h <= 0 ==> Mosaicked(g, x, y, w, h, level, sample) == g
    ensures level == 0 ==> Mosaicked(g, x, y, w, h, level, sample) == g
    ensures !Applies(g, x, y, w, h, level) ==> Mosaicked(g, x, y, w, h, level, sample) == g
  {
  }

  /**
   * For a corner inside the image (the only kind the face pipeline passes),
   * the pixelation happens exactly when the whole w x h rectangle lies inside
   * the image, the sides are positive and the level is not zero.
   */
  lemma AppliesInBounds(g: Grid, x: int, y: int, w: int, h: int, level: int)
    requires IsGrid(g, |g|, Width(g))
    requires 0 <= x && 0 <= y
    ensures Applies(g, x, y, w, h, level) <==>
      w > 0 && h > 0 && level != 0 && y + h <= |g| && x + w <= Width(g)
    ensures Applies(g, x, y, w, h, level) ==> SliceRegion(g, x, y, w, h) == Region(y, x, h, w)
  {
  }

  /** For level >= 1 and positive sides the shrunk size is max(1, side / level), between 1 and the side. */
  lemma BlockDims(n: int, level: int)
    requires level >= 1 && n >= 1
    ensures BlockDim(n, level) == if n / level > 1 then n / level else 1
    ensures 1 <= BlockDim(n, level) <= n
  {
  }

  /** Pixels outside the covered region keep their values. */
  lemma OutsideUnchanged(g: Grid, x: int, y: int, w: int, h: int, level: int, sample: Sampler, r: int, c: int)
    requires IsGrid(g, |g|, Width(g))
    requires 0 <= r < |g| && 0 <= c < Width(g)
    requires w <= 0 || h <= 0 || !InRegion(SliceRegion(g, x, y, w, h), r, c)
    ensures Mosaicked(g, x, y, w, h, level, sample)[r][c] == g[r][c]
  {
  }

  /** For a corner inside the image, nothing outside [x, x+w) x [y, y+h) changes. */
  lemma OutsideRectUnchanged(g: Grid, x: int, y: int, w: int, h: int, level: int, sample: Sampler, r: int, c: int)
    requires IsGrid(g, |g|, Width(g))
    requires 0 <= x && 0 <= y && 0 <= r < |g| && 0 <= c < Width(g)
    requires !(y <= r < y + h && x <= c < x + w)
    ensures Mosaicked(g, x, y, w, h, level, sample)[r][c] == g[r][c]
  {
    AppliesInBounds(g, x, y, w, h, level);
    if w > 0 && h > 0 && !InRegion(SliceRegion(g, x, y, w, h), r, c) {
      OutsideUnchanged(g, x, y, w, h, level, sample, r, c);
    }
  }

  /**
   * Inside the region every pixel is a copy of one of the mh x mw shrunk
   * pixels, and two pixels of the same block are equal: the region holds at
   * most mh * mw distinct values afterwards.
   */
  lemma InsideIsBlocky(g: Grid, x: int, y: int, w: int, h: int, level: int, sample: Sampler, r: int, c: int)
    requires IsGrid(g, |g|, Width(g)) && Applies(g, x, y, w, h, level)
    requires InRegion(SliceRegion(g, x, y, w, h), r, c)
    ensures
      var reg := SliceRegion(g, x, y, w, h);
      var mh, mw := BlockDim(h, level), BlockDim(w, level);
      var i, j := NearestIndex(r - reg.top, h, mh), NearestIndex(c - reg.left, w, mw);
      i < mh && j < mw &&
      Mosaicked(g, x, y, w, h, level, sample)[r][c] == sample(Crop(g, reg), mh, mw, i, j)
  {
    var reg := SliceRegion(g, x, y, w, h);
    var mh, mw := BlockDim(h, level), BlockDim(w, level);
    SliceFits(g, x, y, w, h, level);
  }

  lemma DivBelow(a: nat, n: nat, m: nat)
    requires n > 0 && a <= (n - 1) * m
    ensures a / n < m || m == 0
  {
    var q := a / n;
    assert q * n <= a;
    if m > 0 {
      assert q * n < n * m;
      LessTimes(q, m, n);
    }
  }

  lemma LessTimes(q: nat, m: nat, n: nat)
    requires n > 0 && q * n < m * n
    ensures q < m
  {
  }

  lemma SameBlockSameValue(g: Grid, x: int, y: int, w: int, h: int, level: int, sample: Sampler,
                           r1: int, c1: int, r2: int, c2: int)
    requires IsGrid(g, |g|, Width(g)) && Applies(g, x, y, w, h, level)
    requires InRegion(SliceRegion(g, x, y, w, h), r1, c1) && InRegion(SliceRegion(g, x, y, w, h), r2, c2)
    requires
      var reg := SliceRegion(g, x, y, w, h);
      var mh, mw := BlockDim(h, level), BlockDim(w, level);
      NearestIndex(r1 - reg.top, h, mh) == NearestIndex(r2 - reg.top, h, mh) &&
      NearestIndex(c1 - reg.left, w, mw) == NearestIndex(c2 - reg.left, w, mw)
    ensures Mosaicked(g, x, y, w, h, level, sample)[r1][c1] == Mosaicked(g, x, y, w, h, level, sample)[r2][c2]
  {
    SliceFits(g, x, y, w, h, level);
  }
}
