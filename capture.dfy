/** Capture geometry of one timer tick: the screen rectangle requested around
    the (possibly snapped) cursor, and the rectangle cropped out of a buffered
    sample to make a recorded frame. Pixels are not modelled: an image is its
    size plus an opaque identity for its contents. */
module Capture {
  import opened CppInt

  datatype Point = Point(x: int, y: int)

  /** A rectangle given by its top-left corner and its size, as QRect. */
  datatype Rect = Rect(x: int, y: int, width: int, height: int)

  /** A pixmap: its size and an opaque stand-in for its pixels. */
  datatype Image = Image(width: int, height: int, content: nat)

  /** The settings read fresh at the start of every tick. The divider is the
      viewport scale (capture pixels per viewport pixel) and backBuffer the
      look-ahead depth in ticks. */
  datatype Settings = Settings(
    viewportWidth: int,
    viewportHeight: int,
    grabWidth: int,
    grabHeight: int,
    divider: int,
    backBuffer: int)

  /** The coordinate the capture is centred on: with pixel snap on, `p`
      minus its C++ remainder by the divider; with snap off, `p` itself. */
  function SnapCoord(p: int, d: int, snap: bool): (s: int)
    requires d >= 1
    ensures snap ==> s % d == 0
    ensures snap ==> -d < p - s < d
    ensures snap && p >= 0 ==> 0 <= s <= p
    ensures snap && p < 0 ==> p <= s <= 0
    ensures !snap ==> s == p
  {
    if snap then p - TruncRem(p, d) else p
  }

  /** Snapping the same coordinate a second time changes nothing. */
  lemma SnapIdempotent(p: int, d: int)
    requires d >= 1
    ensures SnapCoord(SnapCoord(p, d, true), d, true) == SnapCoord(p, d, true)
  {
    var s := SnapCoord(p, d, true);
    var k := s / d;
    assert s == k * d;
    TruncDivExactMultiple(k, d);
  }

  /** The rectangle handed to the screen grabber: the viewport size times the
      divider, placed so that the snapped cursor is at its centre. The left
      edge is the double `snapped - width / 2.0` converted to int, that is
      truncated toward zero, which is C++ integer division of
      `2 * snapped - width` by 2. */
  function CaptureRect(pos: Point, snap: bool, cfg: Settings): (r: Rect)
    requires cfg.divider >= 1
    ensures r.width == cfg.viewportWidth * cfg.divider
    ensures r.height == cfg.viewportHeight * cfg.divider
    ensures -1 <= 2 * r.x + r.width - 2 * SnapCoord(pos.x, cfg.divider, snap) <= 1
    ensures -1 <= 2 * r.y + r.height - 2 * SnapCoord(pos.y, cfg.divider, snap) <= 1
    // the left and top edges are truncated toward zero, never floored
    ensures var e := 2 * SnapCoord(pos.x, cfg.divider, snap) - r.width;
      (e >= 0 ==> 0 <= 2 * r.x <= e) && (e < 0 ==> e <= 2 * r.x <= 0)
    ensures var e := 2 * SnapCoord(pos.y, cfg.divider, snap) - r.height;
      (e >= 0 ==> 0 <= 2 * r.y <= e) && (e < 0 ==> e <= 2 * r.y <= 0)
  {
    var d := cfg.divider;
    var w, h := cfg.viewportWidth * d, cfg.viewportHeight * d;
    Rect(TruncDiv(2 * SnapCoord(pos.x, d, snap) - w, 2),
         TruncDiv(2 * SnapCoord(pos.y, d, snap) - h, 2),
         w, h)
  }

  /** With an even capture width the snapped cursor is exactly the centre. */
  lemma CaptureRectCentred(pos: Point, snap: bool, cfg: Settings)
    requires cfg.divider >= 1
    requires (cfg.viewportWidth * cfg.divider) % 2 == 0
    ensures var r := CaptureRect(pos, snap, cfg);
      r.x + r.width / 2 == SnapCoord(pos.x, cfg.divider, snap)
  {
    var r := CaptureRect(pos, snap, cfg);
    var s := SnapCoord(pos.x, cfg.divider, snap);
    var half := r.width / 2;
    assert 2 * s - r.width == (s - half) * 2;
    TruncDivExactMultiple(s - half, 2);
  }

  /** Pixel snap with an even viewport width keeps the left edge of the
      capture on the divider grid. */
  lemma CaptureRectAligned(pos: Point, cfg: Settings)
    requires cfg.divider >= 1
    requires cfg.viewportWidth % 2 == 0
    ensures CaptureRect(pos, true, cfg).x % cfg.divider == 0
  {
    var d := cfg.divider;
    var r := CaptureRect(pos, true, cfg);
    var s := SnapCoord(pos.x, d, true);
    var k := s / d;
    assert s == k * d;
    var halfView := cfg.viewportWidth / 2;
    var hd := halfView * d;
    assert cfg.viewportWidth == 2 * halfView;
    DoubleProduct(halfView, d);
    assert r.width == 2 * hd;
    MultipleMod(hd, 2);
    assert (cfg.viewportWidth * d) % 2 == 0;
    CaptureRectCentred(pos, true, cfg);
    assert r.x == s - hd;
    ProductDifference(k, halfView, d);
    MultipleMod(k - halfView, d);
  }

  lemma DoubleProduct(h: int, d: int)
    ensures (2 * h) * d == 2 * (h * d)
  {
  }

  lemma ProductDifference(a: int, b: int, d: int)
    ensures a * d - b * d == (a - b) * d
  {
  }

  /** One coordinate of the crop origin in the oldest buffered sample: the
      grab-centred offset in the viewport, corrected by the cursor movement
      since that sample was taken, scaled down by the divider. The halves
      are C++ integer divisions; the correction is a double and the sum is
      truncated toward zero when passed to the crop. */
  function CropOrigin(view: int, grab: int, cur: int, past: int, d: int): (o: int)
    requires d >= 1
    ensures var exact := (TruncDiv(view, 2) - TruncDiv(grab, 2)) * d + (cur - past);
      -d < o * d - exact < d
    ensures var exact := (TruncDiv(view, 2) - TruncDiv(grab, 2)) * d + (cur - past);
      (exact >= 0 ==> 0 <= o * d <= exact) && (exact < 0 ==> exact <= o * d <= 0)
  {
    TruncDiv((TruncDiv(view, 2) - TruncDiv(grab, 2)) * d + (cur - past), d)
  }

  /** When the cursor has not moved since the sample, the crop is centred. */
  lemma CropOriginStill(view: int, grab: int, p: int, d: int)
    requires d >= 1
    ensures CropOrigin(view, grab, p, p, d) == TruncDiv(view, 2) - TruncDiv(grab, 2)
  {
    TruncDivExactMultiple(TruncDiv(view, 2) - TruncDiv(grab, 2), d);
  }

  /** A movement by whole multiples of the divider shifts the crop by
      exactly that many viewport pixels, in either direction. */
  lemma CropOriginFollowsCursor(view: int, grab: int, cur: int, past: int, d: int)
    requires d >= 1
    requires (cur - past) % d == 0
    ensures CropOrigin(view, grab, cur, past, d)
         == TruncDiv(view, 2) - TruncDiv(grab, 2) + (cur - past) / d
  {
    var c := TruncDiv(view, 2) - TruncDiv(grab, 2);
    var k := (cur - past) / d;
    assert cur - past == k * d;
    assert c * d + (cur - past) == (c + k) * d;
    TruncDivExactMultiple(c + k, d);
  }

  /** The rectangle cropped out of the oldest sample: grab-sized, and
      centred in the viewport when the cursor has not moved since. */
  function CropRect(cfg: Settings, cur: Point, past: Point): (r: Rect)
    requires cfg.divider >= 1
    ensures r.width == cfg.grabWidth && r.height == cfg.grabHeight
    ensures cur == past ==>
      r.x == TruncDiv(cfg.viewportWidth, 2) - TruncDiv(cfg.grabWidth, 2) &&
      r.y == TruncDiv(cfg.viewportHeight, 2) - TruncDiv(cfg.grabHeight, 2)
  {
    CropOriginStill(cfg.viewportWidth, cfg.grabWidth, cur.x, cfg.divider);
    CropOriginStill(cfg.viewportHeight, cfg.grabHeight, cur.y, cfg.divider);
    Rect(CropOrigin(cfg.viewportWidth, cfg.grabWidth, cur.x, past.x, cfg.divider),
         CropOrigin(cfg.viewportHeight, cfg.grabHeight, cur.y, past.y, cfg.divider),
         cfg.grabWidth, cfg.grabHeight)
  }

  /** A crop is kept only when it has exactly the configured grab size. */
  predicate HasGrabSize(img: Image, cfg: Settings)
  {
    img.width == cfg.grabWidth && img.height == cfg.grabHeight
  }
}
