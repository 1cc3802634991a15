/** Where the image sits inside the fixed 400 x 250 preview container
    (`object-fit: contain`), and the two mappings between container pixels
    and coordinates normalised to the displayed image. */
module Geometry {

  const CONTAINER_WIDTH: real := 400.0
  const CONTAINER_HEIGHT: real := 250.0

  /** A point in container pixels or in normalised image coordinates. */
  datatype Vec = Vec(x: real, y: real)

  /** The displayed image rectangle, in container pixels. */
  datatype Rect = Rect(x: real, y: real, width: real, height: real)

  predicate Proper(r: Rect) {
    r.width > 0.0 && r.height > 0.0
  }

  /** A natural image size of 0 (no image decoded yet) counts as 1. */
  function OrOne(n: nat): (m: nat)
    ensures m > 0 && (n > 0 ==> m == n)
  {
    if n == 0 then 1 else n
  }

  lemma DivTimes(a: real, b: real)
    requires b != 0.0
    ensures (a / b) * b == a
  {
  }

  lemma TimesMonotone(x: real, y: real, a: real)
    requires x >= y && a > 0.0
    ensures x * a >= y * a
  {
  }

  /** What a letterboxed rectangle for an image of natural size `w` x `h`
      satisfies: it lies inside the container, is centred in it, keeps the
      image's aspect ratio, and fills the container's width when the image is
      relatively wider than the container and its height otherwise. */
  ghost predicate Letterboxed(r: Rect, w: real, h: real)
    requires h > 0.0
  {
    && Proper(r)
    && 0.0 <= r.x && r.x + r.width <= CONTAINER_WIDTH
    && 0.0 <= r.y && r.y + r.height <= CONTAINER_HEIGHT
    && 2.0 * r.x + r.width == CONTAINER_WIDTH
    && 2.0 * r.y + r.height == CONTAINER_HEIGHT
    && r.width * h == r.height * w
    && (w / h > CONTAINER_WIDTH / CONTAINER_HEIGHT ==> r.width == CONTAINER_WIDTH && r.x == 0.0)
    && (w / h <= CONTAINER_WIDTH / CONTAINER_HEIGHT ==> r.height == CONTAINER_HEIGHT && r.y == 0.0)
  }

  /** Width-constrained case. */
  lemma WideFit(w: real, h: real)
    requires w > 0.0 && h > 0.0 && w / h > CONTAINER_WIDTH / CONTAINER_HEIGHT
    ensures var height := CONTAINER_WIDTH / (w / h);
      Letterboxed(Rect(0.0, (CONTAINER_HEIGHT - height) / 2.0, CONTAINER_WIDTH, height), w, h)
  {
    var a := w / h;
    var height := CONTAINER_WIDTH / a;
    DivTimes(w, h);
    DivTimes(CONTAINER_WIDTH, a);
    assert height * w == (height * a) * h;
    if height >= CONTAINER_HEIGHT {
      TimesMonotone(height, CONTAINER_HEIGHT, a);
    }
  }

  /** Height-constrained case. */
  lemma TallFit(w: real, h: real)
    requires w > 0.0 && h > 0.0 && w / h <= CONTAINER_WIDTH / CONTAINER_HEIGHT
    ensures var width := CONTAINER_HEIGHT * (w / h);
      Letterboxed(Rect((CONTAINER_WIDTH - width) / 2.0, 0.0, width, CONTAINER_HEIGHT), w, h)
  {
    var a := w / h;
    DivTimes(w, h);
    assert (CONTAINER_HEIGHT * a) * h == CONTAINER_HEIGHT * (a * h);
  }

  /** The display rectangle `_getImageDisplayInfo` computes for an image of
      the given natural size. */
  function DisplayInfo(naturalWidth: nat, naturalHeight: nat): (r: Rect)
    ensures Letterboxed(r, OrOne(naturalWidth) as real, OrOne(naturalHeight) as real)
  {
    var w := OrOne(naturalWidth) as real;
    var h := OrOne(naturalHeight) as real;
    var imgAspect := w / h;
    var containerAspect := CONTAINER_WIDTH / CONTAINER_HEIGHT;
    if imgAspect > containerAspect then
      var height := CONTAINER_WIDTH / imgAspect;
      WideFit(w, h);
      Rect(0.0, (CONTAINER_HEIGHT - height) / 2.0, CONTAINER_WIDTH, height)
    else
      var width := CONTAINER_HEIGHT * imgAspect;
      TallFit(w, h);
      Rect((CONTAINER_WIDTH - width) / 2.0, 0.0, width, CONTAINER_HEIGHT)
  }

  /** The inclusive bounds test a click must pass to create a point. */
  predicate InDisplay(r: Rect, p: Vec) {
    r.x <= p.x <= r.x + r.width && r.y <= p.y <= r.y + r.height
  }

  predicate InUnitSquare(n: Vec) {
    0.0 <= n.x <= 1.0 && 0.0 <= n.y <= 1.0
  }

  /** Container pixels to coordinates relative to the displayed image. */
  function ToNormalized(r: Rect, p: Vec): Vec
    requires Proper(r)
  {
    Vec((p.x - r.x) / r.width, (p.y - r.y) / r.height)
  }

  /** Normalised image coordinates to container pixels (a marker's position). */
  function ToPixel(r: Rect, n: Vec): Vec {
    Vec(r.x + n.x * r.width, r.y + n.y * r.height)
  }

  /** A click lands on the displayed image exactly when its normalised
      coordinates lie in the unit square. */
  lemma InDisplayIffUnit(r: Rect, p: Vec)
    requires Proper(r)
    ensures InDisplay(r, p) <==> InUnitSquare(ToNormalized(r, p))
  {
    var n := ToNormalized(r, p);
    assert n.x * r.width == p.x - r.x;
    assert n.y * r.height == p.y - r.y;
    if InUnitSquare(n) {
      assert n.x * r.width <= r.width;
      assert n.y * r.height <= r.height;
    }
  }

  lemma PixelOfNormalized(r: Rect, p: Vec)
    requires Proper(r)
    ensures ToPixel(r, ToNormalized(r, p)) == p
  {
    DivTimes(p.x - r.x, r.width);
    DivTimes(p.y - r.y, r.height);
  }

  lemma NormalizedOfPixel(r: Rect, n: Vec)
    requires Proper(r)
    ensures ToNormalized(r, ToPixel(r, n)) == n
  {
    var p := ToPixel(r, n);
    assert (p.x - r.x) == n.x * r.width;
    assert (p.y - r.y) == n.y * r.height;
  }

  /** A marker at a point of the unit square is drawn on the displayed image. */
  lemma MarkerOnImage(r: Rect, n: Vec)
    requires Proper(r) && InUnitSquare(n)
    ensures InDisplay(r, ToPixel(r, n))
  {
    NormalizedOfPixel(r, n);
    InDisplayIffUnit(r, ToPixel(r, n));
  }

  /** `Math.max(0, Math.min(1, v))`. */
  function Clamp01(v: real): (c: real)
    ensures 0.0 <= c <= 1.0
    ensures 0.0 <= v <= 1.0 ==> c == v
    ensures v < 0.0 ==> c == 0.0
    ensures v > 1.0 ==> c == 1.0
  {
    if v < 0.0 then 0.0 else if v > 1.0 then 1.0 else v
  }

  /** The letterbox of a square image in the 400 x 250 container, and the
      click at the container's centre hitting the image's centre. */
  lemma SquareImageExample()
    ensures DisplayInfo(800, 800) == Rect(75.0, 0.0, 250.0, 250.0)
    ensures ToNormalized(DisplayInfo(800, 800), Vec(200.0, 125.0)) == Vec(0.5, 0.5)
  {
  }
}
