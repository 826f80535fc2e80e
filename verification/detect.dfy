/** The binarisation and threshold retry of `find_corners`, over a corner
    detector that stays abstract. */
module Detect {
  import opened Wrappers
  import opened Geometry

  /** An 8-bit grey value (`np.uint8`). */
  type Byte = v: int | 0 <= v < 256

  /** A single-channel 8-bit image, `gray[y][x]`. */
  type GrayImage = seq<seq<Byte>>

  /** The two corners a successful detection yields. */
  type Corners = (Point, Point)

  /** A chessboard detector on a binary image: the corners of a 7x7
      inner-corner pattern, or `None` when no pattern is found. */
  type Detector = GrayImage -> Option<Corners>

  const Foreground: Byte := 255
  const Background: Byte := 0

  /** The thresholds tried, in order. */
  const Thresholds: seq<int> := [160, 192]

  /** `(gray < t).astype(np.uint8) * 255`: same shape, every pixel 0 or
      255, and 255 exactly where the grey value is below `t`. */
  function Binarize(gray: GrayImage, t: int): (b: GrayImage)
    ensures |b| == |gray|
    ensures forall i :: 0 <= i < |b| ==> |b[i]| == |gray[i]|
    ensures forall i, j :: 0 <= i < |b| && 0 <= j < |b[i]| ==>
              (b[i][j] == Foreground || b[i][j] == Background)
              && (b[i][j] == Foreground <==> gray[i][j] < t)
  {
    seq(|gray|, i requires 0 <= i < |gray| =>
      seq(|gray[i]|, j requires 0 <= j < |gray[i]| =>
        if gray[i][j] < t then Foreground else Background))
  }

  /** Raising the threshold only adds foreground: every pixel white at 160
      is white at 192. */
  lemma BinarizeMonotone(gray: GrayImage, t1: int, t2: int)
    requires t1 <= t2
    ensures forall i, j :: 0 <= i < |gray| && 0 <= j < |gray[i]| && Binarize(gray, t1)[i][j] == Foreground ==>
              Binarize(gray, t2)[i][j] == Foreground
  {
  }

  /** Tries the thresholds of `ts` in order and returns the first detection
      that succeeds; `None` exactly when every threshold fails. */
  function FirstDetection(gray: GrayImage, detect: Detector, ts: seq<int>): (r: Option<Corners>)
    ensures r.None? <==> forall k :: 0 <= k < |ts| ==> detect(Binarize(gray, ts[k])).None?
    ensures r.Some? ==> exists k :: 0 <= k < |ts| && detect(Binarize(gray, ts[k])) == r
                           && forall m :: 0 <= m < k ==> detect(Binarize(gray, ts[m])).None?
  {
    if |ts| == 0 then None
    else match detect(Binarize(gray, ts[0]))
      case Some(c) => Some(c)
      case None =>
        var r := FirstDetection(gray, detect, ts[1..]);
        assert forall k :: 1 <= k < |ts| ==> ts[k] == ts[1..][k - 1];
        r
  }

  /** `find_corners` after resizing and grey conversion: the detection at
      threshold 160 if it succeeds, otherwise the one at 192, and `None`
      only when both fail. */
  function FindCorners(gray: GrayImage, detect: Detector): (r: Option<Corners>)
    ensures detect(Binarize(gray, 160)).Some? ==> r == detect(Binarize(gray, 160))
    ensures detect(Binarize(gray, 160)).None? ==> r == detect(Binarize(gray, 192))
    ensures r.None? <==> detect(Binarize(gray, 160)).None? && detect(Binarize(gray, 192)).None?
  {
    var r := FirstDetection(gray, detect, Thresholds);
    assert Thresholds[0] == 160 && Thresholds[1] == 192;
    r
  }
}
