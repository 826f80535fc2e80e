/** `crop_image`: the axis-aligned crop of an image between two corners. */
module Crop {
  import opened Geometry
  import opened PySemantics

  /** An image as rows of pixels (`image[y][x]`); a pixel may be a grey
      value or a colour triple alike. */
  type Image<T> = seq<seq<T>>

  /** Every row is `w` pixels wide, as in a numpy array. */
  ghost predicate Rectangular<T>(img: Image<T>, w: nat)
  {
    forall i :: 0 <= i < |img| ==> |img[i]| == w
  }

  /** Python's `min` and `max` on two floats. */
  function Min(a: real, b: real): real { if b < a then b else a }

  function Max(a: real, b: real): real { if b > a then b else a }

  /** The integer crop window, before any slicing: half-open on both axes. */
  datatype Bounds = Bounds(minX: int, maxX: int, minY: int, maxY: int)

  /** The truncated coordinates of the two corners, sorted per axis. */
  function CropBounds(c1: Point, c2: Point): (b: Bounds)
    ensures b.minX <= b.maxX && b.minY <= b.maxY
    ensures (b.minX, b.maxX) == (TruncToZero(c1.x), TruncToZero(c2.x))
         || (b.minX, b.maxX) == (TruncToZero(c2.x), TruncToZero(c1.x))
    ensures (b.minY, b.maxY) == (TruncToZero(c1.y), TruncToZero(c2.y))
         || (b.minY, b.maxY) == (TruncToZero(c2.y), TruncToZero(c1.y))
  {
    TruncToZeroMonotone(Min(c1.x, c2.x), Max(c1.x, c2.x));
    TruncToZeroMonotone(Min(c1.y, c2.y), Max(c1.y, c2.y));
    Bounds(TruncToZero(Min(c1.x, c2.x)), TruncToZero(Max(c1.x, c2.x)),
           TruncToZero(Min(c1.y, c2.y)), TruncToZero(Max(c1.y, c2.y)))
  }

  /** `r` is the block of rows of `img` starting at row `top`, each row of
      `r` a contiguous run of its source row. */
  ghost predicate RowsFrom<T>(r: Image<T>, img: Image<T>, top: nat)
  {
    top + |r| <= |img| && forall i :: 0 <= i < |r| ==> IsWindow(r[i], img[top + i])
  }

  /** `r` is a piece of `img`: consecutive rows, each cut to a contiguous
      run of pixels. */
  ghost predicate IsSubImage<T>(r: Image<T>, img: Image<T>)
  {
    exists top: nat :: RowsFrom(r, img, top)
  }

  /** `image[minY:maxY, minX:maxX]` for an integer window, with the Python
      slice rules on both axes. */
  function CropWindow<T>(img: Image<T>, b: Bounds): (r: Image<T>)
    ensures |r| <= |img|
    ensures IsSubImage(r, img)
  {
    var rows := PySlice(img, b.minY, b.maxY);
    var r := seq(|rows|, i requires 0 <= i < |rows| => PySlice(rows[i], b.minX, b.maxX));
    assert RowsFrom(r, img, SliceIndex(b.minY, |img|)) by {
      forall i | 0 <= i < |r|
        ensures IsWindow(r[i], img[SliceIndex(b.minY, |img|) + i])
      {
        PySliceIsWindow(rows[i], b.minX, b.maxX);
      }
    }
    r
  }

  /** The length of `[lo, hi) ∩ [0, n)`. */
  function Overlap(lo: int, hi: int, n: nat): nat
  {
    var a := if lo < 0 then 0 else lo;
    var b := if hi > n then n else hi;
    if a < b then b - a else 0
  }

  /** A window with no negative bound picks exactly the pixels of the image inside it: as many rows
      and columns as `[min, max)` shares with the image, and cell `(i, j)` is
      pixel `(minY + i, minX + j)`. Bounds past the far edges clamp. */
  lemma CropWindowNonNegative<T>(img: Image<T>, b: Bounds, w: nat)
    requires Rectangular(img, w)
    requires 0 <= b.minX && 0 <= b.maxX && 0 <= b.minY && 0 <= b.maxY
    ensures var r := CropWindow(img, b);
            && |r| == Overlap(b.minY, b.maxY, |img|)
            && Rectangular(r, Overlap(b.minX, b.maxX, w))
            && forall i, j :: 0 <= i < |r| && 0 <= j < |r[i]| ==> r[i][j] == img[b.minY + i][b.minX + j]
  {
    var r := CropWindow(img, b);
    var rows := PySlice(img, b.minY, b.maxY);
    assert |rows| == Overlap(b.minY, b.maxY, |img|);
    assert |r| == |rows|;
    forall i | 0 <= i < |r|
      ensures |r[i]| == Overlap(b.minX, b.maxX, w)
      ensures forall j :: 0 <= j < |r[i]| ==> r[i][j] == img[b.minY + i][b.minX + j]
    {
      assert rows[i] == img[b.minY + i];
      assert |img[b.minY + i]| == w;
      assert r[i] == PySlice(img[b.minY + i], b.minX, b.maxX);
    }
  }

  /** Any window, negative bounds included, on a `w`-wide image: the crop
      has as many rows and columns as Python's slice rules give each axis,
      and cell `(i, j)` is the image pixel at the resolved and clamped
      starts plus `(i, j)`. A start from `-h` to `-1` on an image `h` rows
      high therefore begins `|start|` rows above the bottom edge. */
  lemma CropWindowExact<T>(img: Image<T>, b: Bounds, w: nat)
    requires Rectangular(img, w)
    ensures var r := CropWindow(img, b);
            && |r| == SliceLength(b.minY, b.maxY, |img|)
            && Rectangular(r, SliceLength(b.minX, b.maxX, w))
            && forall i, j :: 0 <= i < |r| && 0 <= j < |r[i]| ==>
                 r[i][j] == img[SliceIndex(b.minY, |img|) + i][SliceIndex(b.minX, w) + j]
  {
    var r := CropWindow(img, b);
    var rows := PySlice(img, b.minY, b.maxY);
    var top := SliceIndex(b.minY, |img|);
    assert |r| == |rows|;
    forall i | 0 <= i < |r|
      ensures |r[i]| == SliceLength(b.minX, b.maxX, w)
      ensures forall j :: 0 <= j < |r[i]| ==> r[i][j] == img[top + i][SliceIndex(b.minX, w) + j]
    {
      assert rows[i] == img[top + i];
      assert |img[top + i]| == w;
      assert r[i] == PySlice(rows[i], b.minX, b.maxX);
    }
  }

  /** `crop_image`. Total: whatever the corners, the result is a piece of
      `img`. */
  function CropImage<T>(img: Image<T>, c1: Point, c2: Point): (r: Image<T>)
    ensures |r| <= |img|
    ensures IsSubImage(r, img)
  {
    CropWindow(img, CropBounds(c1, c2))
  }

  /** The two corners may be given in either order. */
  lemma CropImageOrderIndependent<T>(img: Image<T>, c1: Point, c2: Point)
    ensures CropImage(img, c1, c2) == CropImage(img, c2, c1)
  {
  }

  /** With the truncated window inside a `w`-wide image, the crop has
      `maxY - minY` rows of `maxX - minX` pixels, and cell `(i, j)` is image
      pixel `(minY + i, minX + j)`. */
  lemma CropImageInBounds<T>(img: Image<T>, c1: Point, c2: Point, w: nat)
    requires Rectangular(img, w)
    requires 0 <= CropBounds(c1, c2).minY && CropBounds(c1, c2).maxY <= |img|
    requires 0 <= CropBounds(c1, c2).minX && CropBounds(c1, c2).maxX <= w
    ensures var b, r := CropBounds(c1, c2), CropImage(img, c1, c2);
            && |r| == b.maxY - b.minY
            && Rectangular(r, b.maxX - b.minX)
            && forall i, j :: 0 <= i < |r| && 0 <= j < |r[i]| ==> r[i][j] == img[b.minY + i][b.minX + j]
  {
    CropWindowNonNegative(img, CropBounds(c1, c2), w);
  }

  /** A rectangular image crops to a rectangular image, whatever the
      corners. */
  lemma CropImageRectangular<T>(img: Image<T>, c1: Point, c2: Point, w: nat)
    requires Rectangular(img, w)
    ensures Rectangular(CropImage(img, c1, c2), SliceLength(CropBounds(c1, c2).minX, CropBounds(c1, c2).maxX, w))
  {
    CropWindowExact(img, CropBounds(c1, c2), w);
  }

  /** Corners that truncate to the same row (column) give no rows (only
      empty rows) rather than an error. */
  lemma CropImageDegenerate<T>(img: Image<T>, c1: Point, c2: Point)
    ensures TruncToZero(c1.y) == TruncToZero(c2.y) ==> CropImage(img, c1, c2) == []
    ensures TruncToZero(c1.x) == TruncToZero(c2.x) ==>
              forall i :: 0 <= i < |CropImage(img, c1, c2)| ==> CropImage(img, c1, c2)[i] == []
  {
  }

  // ---------------------------------------------------------------------
  // The crop as evidently intended: the part of the image inside the
  // rectangle, with a negative bound meaning "from the image edge".

  function ClipInt(n: int): nat { if n < 0 then 0 else n }

  /** Clipping both ends of an interval at zero does not change how much
      of `[0, n)` it covers. */
  lemma OverlapOfClipped(lo: int, hi: int, n: nat)
    ensures Overlap(ClipInt(lo), ClipInt(hi), n) == Overlap(lo, hi, n)
  {
  }

  /** The window with every bound clipped at zero. */
  function ClipAtZero(b: Bounds): (c: Bounds)
    ensures 0 <= c.minX && 0 <= c.maxX && 0 <= c.minY && 0 <= c.maxY
    ensures 0 <= b.minX && 0 <= b.maxX && 0 <= b.minY && 0 <= b.maxY ==> c == b
  {
    Bounds(ClipInt(b.minX), ClipInt(b.maxX), ClipInt(b.minY), ClipInt(b.maxY))
  }

  /** The clipped window picks exactly the pixels of the image inside the
      original window. */
  lemma ClippedWindow<T>(img: Image<T>, b: Bounds, w: nat)
    requires Rectangular(img, w)
    ensures var r := CropWindow(img, ClipAtZero(b));
            && |r| == Overlap(b.minY, b.maxY, |img|)
            && Rectangular(r, Overlap(b.minX, b.maxX, w))
            && forall i, j :: 0 <= i < |r| && 0 <= j < |r[i]| ==>
                 r[i][j] == img[ClipInt(b.minY) + i][ClipInt(b.minX) + j]
  {
    CropWindowNonNegative(img, ClipAtZero(b), w);
    OverlapOfClipped(b.minY, b.maxY, |img|);
    OverlapOfClipped(b.minX, b.maxX, w);
  }

  /** `image[max(min_y, 0):max(max_y, 0), max(min_x, 0):max(max_x, 0)]`:
      a corner above or left of the image no longer wraps round to the far
      edge. On a
      `w`-wide image the result is exactly the pixels of the image inside
      the truncated rectangle. */
  function CropImageClipped<T>(img: Image<T>, c1: Point, c2: Point, ghost w: nat): (r: Image<T>)
    requires Rectangular(img, w)
    ensures var b := CropBounds(c1, c2);
            && |r| == Overlap(b.minY, b.maxY, |img|)
            && Rectangular(r, Overlap(b.minX, b.maxX, w))
            && forall i, j :: 0 <= i < |r| && 0 <= j < |r[i]| ==>
                 r[i][j] == img[ClipInt(b.minY) + i][ClipInt(b.minX) + j]
  {
    var b := CropBounds(c1, c2);
    ClippedWindow(img, b, w);
    CropWindow(img, ClipAtZero(b))
  }

  /** Where the window does not start left of or above the image, the
      crop as written already is the intended one. */
  lemma CropImageAgreesWhenNonNegative<T>(img: Image<T>, c1: Point, c2: Point, w: nat)
    requires Rectangular(img, w)
    requires 0 <= CropBounds(c1, c2).minX && 0 <= CropBounds(c1, c2).minY
    ensures CropImage(img, c1, c2) == CropImageClipped(img, c1, c2, w)
  {
  }

  /** The source as written on a 4x4 image whose rectangle spans rows -1.5
      to 2: `int(-1.5)` is -1, Python reads `image[-1:2]` as `image[3:2]`,
      and the crop is empty although two rows of the image lie inside the
      rectangle. The clipped crop returns those two rows. */
  lemma NegativeCornerWrapsRound()
    ensures var img := seq(4, i => seq(4, j => 4 * i + j));
            var c1, c2 := Point(0.0, -1.5), Point(4.0, 2.0);
            && CropImage(img, c1, c2) == []
            && CropImageClipped(img, c1, c2, 4) == [img[0], img[1]]
  {
    var img := seq(4, i => seq(4, j => 4 * i + j));
    var c1, c2 := Point(0.0, -1.5), Point(4.0, 2.0);
    assert TruncToZero(-1.5) == -1;
    assert TruncToZero(2.0) == 2 && TruncToZero(0.0) == 0 && TruncToZero(4.0) == 4;
    assert CropBounds(c1, c2) == Bounds(0, 4, -1, 2);
    var r := CropImageClipped(img, c1, c2, 4);
    assert |r| == 2;
    assert r[0] == img[0];
    assert r[1] == img[1];
  }
}
