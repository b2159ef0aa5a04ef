/**
 The frame-slicing geometry of the zoetrope player's draw effect.

 The strip image is cut into `frameCount` equal slices along one axis, the
 split axis: the height for a VERTICAL strip, the width for a HORIZONTAL
 one. Frame `f` is the `f`-th slice counted from the top or the left edge.
 The canvas is resized to one slice and the whole slice is drawn onto the
 whole canvas. Divisions are exact (`real`); the source divides in
 floating point.
 */
module Geometry {
  import opened Types

  /** An axis-aligned rectangle: top-left corner and size. */
  datatype Rect = Rect(x: real, y: real, width: real, height: real)

  /** The source rectangle of frame `frame` in an image of the given size. */
  function SliceRect(imgWidth: nat, imgHeight: nat, frameCount: int, o: Orientation, frame: nat): (r: Rect)
    requires frameCount >= 1
    ensures SplitLength(r, o) * (frameCount as real) == SplitExtent(imgWidth, imgHeight, o)
    ensures SplitStart(r, o) == (frame as real) * SplitLength(r, o)
    ensures CrossStart(r, o) == 0.0
    ensures CrossLength(r, o) == CrossExtent(imgWidth, imgHeight, o)
  {
    match o
    case Vertical =>
      var sliceHeight := (imgHeight as real) / (frameCount as real);
      Rect(0.0, (frame as real) * sliceHeight, imgWidth as real, sliceHeight)
    case Horizontal =>
      var sliceWidth := (imgWidth as real) / (frameCount as real);
      Rect((frame as real) * sliceWidth, 0.0, sliceWidth, imgHeight as real)
  }

  /** Offset of a rectangle along the split axis. */
  function SplitStart(r: Rect, o: Orientation): real
  {
    if o == Vertical then r.y else r.x
  }

  /** Size of a rectangle along the split axis. */
  function SplitLength(r: Rect, o: Orientation): real
  {
    if o == Vertical then r.height else r.width
  }

  /** Offset of a rectangle across the split axis. */
  function CrossStart(r: Rect, o: Orientation): real
  {
    if o == Vertical then r.x else r.y
  }

  /** Size of a rectangle across the split axis. */
  function CrossLength(r: Rect, o: Orientation): real
  {
    if o == Vertical then r.width else r.height
  }

  /** Size of the image along the split axis. */
  function SplitExtent(imgWidth: nat, imgHeight: nat, o: Orientation): real
  {
    if o == Vertical then imgHeight as real else imgWidth as real
  }

  /** Size of the image across the split axis. */
  function CrossExtent(imgWidth: nat, imgHeight: nat, o: Orientation): real
  {
    if o == Vertical then imgWidth as real else imgHeight as real
  }

  /** The rectangle lies within `[0, imgWidth] x [0, imgHeight]`. */
  predicate InsideImage(r: Rect, imgWidth: nat, imgHeight: nat)
  {
    && 0.0 <= r.x && r.x + r.width <= imgWidth as real
    && 0.0 <= r.y && r.y + r.height <= imgHeight as real
  }

  /** The point `p` of the split axis falls in the half-open slice of `r`. */
  predicate SplitContains(r: Rect, o: Orientation, p: real)
  {
    SplitStart(r, o) <= p < SplitStart(r, o) + SplitLength(r, o)
  }

  /** The size of a slice depends only on the image, the frame count and the
      orientation, never on which frame is shown. */
  lemma SliceSizeIndependentOfFrame(imgWidth: nat, imgHeight: nat, frameCount: int, o: Orientation, f: nat, g: nat)
    requires frameCount >= 1
    ensures SliceRect(imgWidth, imgHeight, frameCount, o, f).width == SliceRect(imgWidth, imgHeight, frameCount, o, g).width
    ensures SliceRect(imgWidth, imgHeight, frameCount, o, f).height == SliceRect(imgWidth, imgHeight, frameCount, o, g).height
  {
  }

  /** The slice of frame `f + 1` begins exactly where the slice of frame `f`
      ends, and both span the same band across the split axis. */
  lemma ConsecutiveSlicesAdjacent(imgWidth: nat, imgHeight: nat, frameCount: int, o: Orientation, f: nat)
    requires frameCount >= 1
    ensures var a := SliceRect(imgWidth, imgHeight, frameCount, o, f);
            var b := SliceRect(imgWidth, imgHeight, frameCount, o, f + 1);
            && SplitStart(b, o) == SplitStart(a, o) + SplitLength(a, o)
            && CrossStart(b, o) == CrossStart(a, o)
            && CrossLength(b, o) == CrossLength(a, o)
  {
    var a := SliceRect(imgWidth, imgHeight, frameCount, o, f);
    var b := SliceRect(imgWidth, imgHeight, frameCount, o, f + 1);
    assert SplitStart(b, o) == (f as real) * SplitLength(a, o) + SplitLength(a, o);
  }

  /** Restates `InsideImage` axis by axis, along and across the split axis. */
  lemma InsideImageByAxis(r: Rect, imgWidth: nat, imgHeight: nat, o: Orientation)
    ensures InsideImage(r, imgWidth, imgHeight) <==>
            && 0.0 <= SplitStart(r, o) && SplitStart(r, o) + SplitLength(r, o) <= SplitExtent(imgWidth, imgHeight, o)
            && 0.0 <= CrossStart(r, o) && CrossStart(r, o) + CrossLength(r, o) <= CrossExtent(imgWidth, imgHeight, o)
  {
  }

  /** For a non-empty image, the source rectangle lies inside the image
      exactly when the frame index is below the frame count. */
  lemma SliceInsideImageIff(imgWidth: nat, imgHeight: nat, frameCount: int, o: Orientation, frame: nat)
    requires frameCount >= 1
    requires imgWidth > 0 && imgHeight > 0
    ensures InsideImage(SliceRect(imgWidth, imgHeight, frameCount, o, frame), imgWidth, imgHeight)
            <==> frame < frameCount
  {
    var r := SliceRect(imgWidth, imgHeight, frameCount, o, frame);
    var len := SplitLength(r, o);
    var ext := SplitExtent(imgWidth, imgHeight, o);
    InsideImageByAxis(r, imgWidth, imgHeight, o);
    BandLengthPositive(frameCount, len, ext);
    BandInsideIff(frame, frameCount, len, SplitStart(r, o), ext);
  }

  /** Slices of two different frames share no point of the split axis. */
  lemma SlicesDisjoint(imgWidth: nat, imgHeight: nat, frameCount: int, o: Orientation, f: nat, g: nat, p: real)
    requires frameCount >= 1
    requires f != g
    ensures !(SplitContains(SliceRect(imgWidth, imgHeight, frameCount, o, f), o, p)
              && SplitContains(SliceRect(imgWidth, imgHeight, frameCount, o, g), o, p))
  {
    var len := SplitLength(SliceRect(imgWidth, imgHeight, frameCount, o, f), o);
    SliceSizeIndependentOfFrame(imgWidth, imgHeight, frameCount, o, f, g);
    BandsDisjoint(f, g, len, p);
  }

  /** Every point of the image's split axis belongs to the slice of some
      frame in `[0, frameCount)`: the slices cover the whole image. */
  lemma SlicesCover(imgWidth: nat, imgHeight: nat, frameCount: int, o: Orientation, p: real)
    requires frameCount >= 1
    requires 0.0 <= p < SplitExtent(imgWidth, imgHeight, o)
    ensures exists f: nat :: f < frameCount && SplitContains(SliceRect(imgWidth, imgHeight, frameCount, o, f), o, p)
  {
    var len := SplitLength(SliceRect(imgWidth, imgHeight, frameCount, o, 0), o);
    BandLengthPositive(frameCount, len, SplitExtent(imgWidth, imgHeight, o));
    assert len * (frameCount as real) == (frameCount as real) * len;
    var f := BandContaining(frameCount, len, p);
    assert (f as real) * len + len == ((f + 1) as real) * len;
    SliceSizeIndependentOfFrame(imgWidth, imgHeight, frameCount, o, 0, f);
    assert SplitContains(SliceRect(imgWidth, imgHeight, frameCount, o, f), o, p);
  }

  /** Total length along the split axis of the slices of frames `0 .. k-1`. */
  function CoveredLength(imgWidth: nat, imgHeight: nat, frameCount: int, o: Orientation, k: nat): real
    requires frameCount >= 1
  {
    if k == 0 then 0.0
    else CoveredLength(imgWidth, imgHeight, frameCount, o, k - 1)
         + SplitLength(SliceRect(imgWidth, imgHeight, frameCount, o, k - 1), o)
  }

  /** Laying the slices of frames `0 .. k-1` end to end reaches exactly the
      start of frame `k`'s slice. */
  lemma {:induction false} CoveredLengthReachesSlice(imgWidth: nat, imgHeight: nat, frameCount: int, o: Orientation, k: nat)
    requires frameCount >= 1
    ensures CoveredLength(imgWidth, imgHeight, frameCount, o, k)
            == SplitStart(SliceRect(imgWidth, imgHeight, frameCount, o, k), o)
  {
    if k > 0 {
      var prev := SliceRect(imgWidth, imgHeight, frameCount, o, k - 1);
      CoveredLengthReachesSlice(imgWidth, imgHeight, frameCount, o, k - 1);
      assert CoveredLength(imgWidth, imgHeight, frameCount, o, k)
             == SplitStart(prev, o) + SplitLength(prev, o);
      ConsecutiveSlicesAdjacent(imgWidth, imgHeight, frameCount, o, k - 1);
    } else {
      var first := SliceRect(imgWidth, imgHeight, frameCount, o, 0);
      assert SplitStart(first, o) == 0.0 * SplitLength(first, o);
    }
  }

  /** All `frameCount` slices laid end to end span exactly the image's
      extent along the split axis: they tile it without gap or overlap. */
  lemma SlicesTileSplitAxis(imgWidth: nat, imgHeight: nat, frameCount: int, o: Orientation)
    requires frameCount >= 1
    ensures CoveredLength(imgWidth, imgHeight, frameCount, o, frameCount) == SplitExtent(imgWidth, imgHeight, o)
  {
    CoveredLengthReachesSlice(imgWidth, imgHeight, frameCount, o, frameCount);
    var r := SliceRect(imgWidth, imgHeight, frameCount, o, frameCount);
    Commute(SplitLength(r, o), frameCount as real, SplitStart(r, o), SplitExtent(imgWidth, imgHeight, o));
  }

  /** `start == n * len` and `len * n == ext` give `start == ext`. */
  lemma Commute(len: real, n: real, start: real, ext: real)
    requires start == n * len && len * n == ext
    ensures start == ext
  {
  }

  // One-dimensional facts about bands `[f * len, (f + 1) * len)`.

  /** A band of an extent split `n` ways is positive when the extent is. */
  lemma BandLengthPositive(n: int, len: real, ext: real)
    requires n >= 1 && len * (n as real) == ext && ext > 0.0
    ensures len > 0.0
  {
    if len <= 0.0 {
      MulMonotone(len, 0.0, n as real);
    }
  }

  /** A band of length `len` starting at `start == f * len` lies within
      `[0, ext]`, where `ext == n * len`, exactly when `f < n`. */
  lemma BandInsideIff(f: nat, n: int, len: real, start: real, ext: real)
    requires n >= 1 && len > 0.0
    requires start == (f as real) * len && ext == len * (n as real)
    ensures 0.0 <= start
    ensures start + len <= ext <==> f < n
  {
    MulMonotone(0.0, f as real, len);
    var end := NextBandStart(f as real, len, start);
    var m := (n as real) * len;
    Commute(len, n as real, m, ext);
    if f < n {
      MulMonotone((f as real) + 1.0, n as real, len);
      assert end <= m;
    } else {
      MulStrictMonotone(n as real, (f as real) + 1.0, len);
      assert m < end;
    }
  }

  /** The band after the one starting at `start == f * len` starts at
      `(f + 1) * len == start + len`. */
  lemma NextBandStart(f: real, len: real, start: real) returns (end: real)
    requires start == f * len
    ensures end == (f + 1.0) * len && end == start + len
  {
    end := (f + 1.0) * len;
  }

  /** Two different bands share no point. */
  lemma BandsDisjoint(f: nat, g: nat, len: real, p: real)
    requires f != g
    ensures !(&& (f as real) * len <= p < (f as real) * len + len
              && (g as real) * len <= p < (g as real) * len + len)
  {
    var a := (f as real) * len;
    var b := (g as real) * len;
    if len >= 0.0 {
      if f < g {
        assert a + len == ((f + 1) as real) * len;
        MulMonotone((f + 1) as real, g as real, len);
        assert a + len <= b;
      } else {
        assert b + len == ((g + 1) as real) * len;
        MulMonotone((g + 1) as real, f as real, len);
        assert b + len <= a;
      }
    }
  }

  /** The band, among the first `k`, that contains a point of `[0, k * len)`:
      the last band whose start is at or before the point. */
  lemma {:induction false} BandContaining(k: nat, len: real, p: real) returns (f: nat)
    requires k >= 1 && len > 0.0
    requires 0.0 <= p < (k as real) * len
    ensures f < k
    ensures (f as real) * len <= p < ((f + 1) as real) * len
  {
    var start := ((k - 1) as real) * len;
    if p >= start {
      f := k - 1;
    } else {
      f := BandContaining(k - 1, len, p);
    }
  }

  /** `a <= b` and `c >= 0` give `a * c <= b * c`. */
  lemma MulMonotone(a: real, b: real, c: real)
    requires a <= b && c >= 0.0
    ensures a * c <= b * c
  {
    assert b * c - a * c == (b - a) * c;
  }

  /** `a < b` and `c > 0` give `a * c < b * c`. */
  lemma MulStrictMonotone(a: real, b: real, c: real)
    requires a < b && c > 0.0
    ensures a * c < b * c
  {
    assert b * c - a * c == (b - a) * c;
  }

  /** What one run of the draw effect does with the canvas: its new size,
      the area it clears, and the `drawImage` source and destination
      rectangles. */
  datatype DrawCall = DrawCall(canvasWidth: real, canvasHeight: real, cleared: Rect, source: Rect, dest: Rect)

  /** What the draw effect finds when it runs: whether the canvas, its 2D
      context and the stage container are mounted, and the loaded image
      element's size, if it has finished loading. */
  datatype Surface = Surface(hasCanvas: bool, hasContext: bool, hasContainer: bool, image: Option<(nat, nat)>)

  predicate Ready(s: Surface)
  {
    s.hasCanvas && s.hasContext && s.image.Some? && s.hasContainer
  }

  /** One run of the draw effect. It draws nothing when anything it needs is
      missing; otherwise the canvas takes the slice's size and the whole
      slice is drawn onto the whole canvas. */
  function DrawFrame(surface: Surface, settings: ZoetropeSettings, currentFrame: nat): (d: Option<DrawCall>)
    requires settings.frameCount >= 1
    ensures d.None? <==> !Ready(surface)
    ensures d.Some? ==>
              && d.value.source == SliceRect(surface.image.value.0, surface.image.value.1,
                                             settings.frameCount, settings.orientation, currentFrame)
              && d.value.canvasWidth == d.value.source.width
              && d.value.canvasHeight == d.value.source.height
              && d.value.cleared == Rect(0.0, 0.0, d.value.canvasWidth, d.value.canvasHeight)
              && d.value.dest == d.value.cleared
  {
    if !surface.hasCanvas || !surface.hasContext || surface.image.None? || !surface.hasContainer then None
    else
      var (w, h) := surface.image.value;
      var src := SliceRect(w, h, settings.frameCount, settings.orientation, currentFrame);
      var whole := Rect(0.0, 0.0, src.width, src.height);
      Some(DrawCall(src.width, src.height, whole, src, whole))
  }

  /** The canvas size chosen by the draw effect does not depend on the frame
      being shown, so the animation never changes the output size. */
  lemma CanvasSizeIndependentOfFrame(surface: Surface, settings: ZoetropeSettings, f: nat, g: nat)
    requires settings.frameCount >= 1
    requires Ready(surface)
    ensures DrawFrame(surface, settings, f).value.canvasWidth == DrawFrame(surface, settings, g).value.canvasWidth
    ensures DrawFrame(surface, settings, f).value.canvasHeight == DrawFrame(surface, settings, g).value.canvasHeight
    ensures DrawFrame(surface, settings, f).value.dest == DrawFrame(surface, settings, g).value.dest
  {
    var (w, h) := surface.image.value;
    SliceSizeIndependentOfFrame(w, h, settings.frameCount, settings.orientation, f, g);
  }

  /** A 120 x 1200 vertical strip of twelve frames: each frame is 120 x 100,
      the first at the top and the last starting at row 1100. */
  lemma VerticalStripExample()
    ensures SliceRect(120, 1200, 12, Vertical, 0) == Rect(0.0, 0.0, 120.0, 100.0)
    ensures SliceRect(120, 1200, 12, Vertical, 11) == Rect(0.0, 1100.0, 120.0, 100.0)
  {
  }

  /** A 1200 x 100 horizontal strip of twelve frames: frame 5 is the
      100 x 100 square starting at column 500. */
  lemma HorizontalStripExample()
    ensures SliceRect(1200, 100, 12, Horizontal, 5) == Rect(500.0, 0.0, 100.0, 100.0)
  {
  }
}
