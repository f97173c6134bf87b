/** The distance and containment helpers of quickdraw.js.

    Canvas coordinates come from mouse events (`layerX`, `layerY`), which are
    whole pixels, so points, drag rectangles and drag offsets are integers. The
    two quantities the source computes by division, the projection parameter of
    a point on a segment and the normalised ellipse sum, are exact `real`s.
    IEEE-754 rounding is not modelled; the one place where the source relies on
    IEEE-754 special values (a zero ellipse radius) is written out explicitly. */
module Geometry {

  /** A canvas point; also used for drag offsets. */
  datatype Point = Point(x: int, y: int)

  /** A rectangle as produced by a drag: the corner where the drag started and
      signed extents, so width and height may be negative. */
  datatype Rect = Rect(x: int, y: int, width: int, height: int)

  function Abs(a: int): nat { if a < 0 then -a else a }

  function Min(a: int, b: int): int { if a <= b then a else b }

  function Max(a: int, b: int): int { if a <= b then b else a }

  /** `Math.pow(a, 2)` on whole numbers. */
  function Square(a: int): (r: nat)
    ensures r == 0 <==> a == 0
  {
    a * a
  }

  /** `Math.pow(a, 2)` on exact fractions. */
  function RealSquare(a: real): (r: real)
    ensures r >= 0.0
  {
    a * a
  }

  /** The corner a drag started from. */
  function Start(r: Rect): Point { Point(r.x, r.y) }

  /** The opposite corner, where the drag ended. */
  function End(r: Rect): Point { Point(r.x + r.width, r.y + r.height) }

  /** The same rectangle described from its opposite corner. */
  function Flip(r: Rect): Rect { Rect(r.x + r.width, r.y + r.height, -r.width, -r.height) }

  /** Squared Euclidean distance. */
  function DistanceSquared(v: Point, w: Point): (r: nat)
    ensures r == 0 <==> v == w
  {
    Square(v.x - w.x) + Square(v.y - w.y)
  }

  /** `Math.max(0, Math.min(1, t))`. */
  function Clamp01(t: real): (r: real)
    ensures 0.0 <= r <= 1.0
    ensures 0.0 <= t <= 1.0 ==> r == t
    ensures t < 0.0 ==> r == 0.0
    ensures 1.0 < t ==> r == 1.0
  {
    if 1.0 < t then 1.0 else if t < 0.0 then 0.0 else t
  }

  /** The numerator of the projection parameter of `p` on the segment of `r`:
      the dot product of `p - Start(r)` with `End(r) - Start(r)`. */
  function Dot(p: Point, r: Rect): int
  {
    (p.x - r.x) * r.width + (p.y - r.y) * r.height
  }

  /** Squared distance from `p` to the point of the segment of `r` at parameter
      `t` (`t == 0` is `Start(r)`, `t == 1` is `End(r)`). */
  function DistanceToSegmentPoint(p: Point, r: Rect, t: real): real
  {
    RealSquare(p.x as real - (r.x as real + t * r.width as real))
      + RealSquare(p.y as real - (r.y as real + t * r.height as real))
  }

  /** Squared distance from `p` to the segment from `Start(r)` to `End(r)`: the
      projection parameter is clamped to [0, 1], and a zero-length segment falls
      back to the distance to its single point. */
  function DistanceToSegmentSquared(p: Point, r: Rect): (d: real)
    ensures d >= 0.0
    ensures Start(r) == End(r) ==> d == DistanceSquared(p, Start(r)) as real
  {
    var v := Start(r);
    var w := End(r);
    var l2 := DistanceSquared(v, w);
    if l2 == 0 then
      DistanceSquared(p, v) as real
    else
      DistanceToSegmentPoint(p, r, Clamp01(Dot(p, r) as real / l2 as real))
  }

  /** Inclusive containment in the rectangle after normalising the signs of its
      extents. It holds exactly when, on each axis, the point lies between the
      drag's start and end coordinates, whatever the signs of the extents. */
  predicate RectContainsPoint(p: Point, r: Rect)
    ensures RectContainsPoint(p, r)
        <==> (p.x - r.x) * (p.x - (r.x + r.width)) <= 0 && (p.y - r.y) * (p.y - (r.y + r.height)) <= 0
  {
    BetweenIffProduct(p.x, r.x, r.x + r.width);
    BetweenIffProduct(p.y, r.y, r.y + r.height);
    var minX := Min(r.x, r.x + r.width);
    var maxX := Max(r.x, r.x + r.width);
    var minY := Min(r.y, r.y + r.height);
    var maxY := Max(r.y, r.y + r.height);
    p.x >= minX && p.x <= maxX && p.y >= minY && p.y <= maxY
  }

  /** The point lies within `m` of the rectangle on both axes. */
  predicate NearRect(p: Point, r: Rect, m: nat)
  {
    && Min(r.x, r.x + r.width) - m <= p.x <= Max(r.x, r.x + r.width) + m
    && Min(r.y, r.y + r.height) - m <= p.y <= Max(r.y, r.y + r.height) + m
  }

  /** The normalised sum of squares of the ellipse test: the offsets from the
      rectangle's centre divided by the radii, half the absolute extents. */
  function EllipseSum(p: Point, r: Rect): real
    requires r.width != 0 && r.height != 0
  {
    var cx := r.x as real + r.width as real * 0.5;
    var cy := r.y as real + r.height as real * 0.5;
    var rx := Abs(r.width) as real * 0.5;
    var ry := Abs(r.height) as real * 0.5;
    RealSquare(p.x as real - cx) / RealSquare(rx) + RealSquare(p.y as real - cy) / RealSquare(ry)
  }

  /** The ellipse test with its denominators cleared: `X^2 h^2 + Y^2 w^2 <=
      w^2 h^2`, where `X` and `Y` are twice the offsets from the centre. */
  predicate EllipseInequality(p: Point, r: Rect)
  {
    Square(OffsetX(p, r)) * Square(r.height) + Square(OffsetY(p, r)) * Square(r.width)
      <= Square(r.width) * Square(r.height)
  }

  /** Containment in the ellipse inscribed in the rectangle: inside when the
      normalised sum is at most 1. In the source a zero radius makes a term NaN
      or Infinity and the comparison false; that outcome is written here as an
      explicit test. So a degenerate ellipse contains nothing, a proper one
      contains exactly the points of the whole-number inequality, and every
      point it contains lies in its rectangle. */
  predicate EllipseContainsPoint(p: Point, r: Rect)
    ensures EllipseContainsPoint(p, r) <==> r.width != 0 && r.height != 0 && EllipseInequality(p, r)
    ensures EllipseContainsPoint(p, r) ==> RectContainsPoint(p, r)
  {
    var rx := Abs(r.width) as real * 0.5;
    var ry := Abs(r.height) as real * 0.5;
    if rx == 0.0 || ry == 0.0 then
      false
    else
      EllipseWholeNumberForm(p, r);
      InequalityWithinRect(p, r);
      EllipseSum(p, r) <= 1.0
  }

  // ---------------------------------------------------------------------------
  // Arithmetic helpers: each states one non-linear fact over plain variables

  lemma CastProduct(a: int, b: int)
    ensures (a * b) as real == a as real * b as real
  {
  }

  /** The squared distance written with exact fractions. */
  lemma CastDistance(v: Point, w: Point)
    ensures DistanceSquared(v, w) as real
         == RealSquare((v.x - w.x) as real) + RealSquare((v.y - w.y) as real)
  {
    CastProduct(v.x - w.x, v.x - w.x);
    CastProduct(v.y - w.y, v.y - w.y);
  }

  lemma QuadraticExpansion(qx: real, qy: real, dx: real, dy: real, s: real)
    ensures (qx - s * dx) * (qx - s * dx) + (qy - s * dy) * (qy - s * dy)
         == (qx * qx + qy * qy) - 2.0 * s * (qx * dx + qy * dy) + s * s * (dx * dx + dy * dy)
  {
  }

  lemma ProductNonPositive(a: real, b: real)
    requires (a >= 0.0 && b <= 0.0) || (a <= 0.0 && b >= 0.0)
    ensures a * b <= 0.0
  {
  }

  /** `q - 2 t dot + t^2 l`: the squared distance to the point at parameter
      `t` of a segment, in terms of three whole-number quantities. */
  function Quadratic(q: real, dot: real, l: real, t: real): real
  {
    q - 2.0 * t * dot + t * t * l
  }

  /** For `l > 0`, the parameter `dot / l` clamped to [0, 1] minimises the
      quadratic over [0, 1]. */
  lemma ClampedMinimum(q: real, dot: real, l: real, s: real)
    requires l > 0.0 && 0.0 <= s <= 1.0
    ensures Quadratic(q, dot, l, Clamp01(dot / l)) <= Quadratic(q, dot, l, s)
  {
    var t0 := dot / l;
    var tc := Clamp01(t0);
    assert dot == t0 * l;
    assert (q - 2.0 * tc * dot + tc * tc * l) - (q - 2.0 * s * dot + s * s * l)
        == (tc - s) * ((tc + s) * l - 2.0 * dot);
    var e := tc + s - 2.0 * t0;
    assert (tc + s) * l - 2.0 * dot == l * e;
    var k := (tc - s) * e;
    if t0 < 0.0 {
      ProductNonPositive(tc - s, e);
    } else if 1.0 < t0 {
      ProductNonPositive(tc - s, e);
    } else {
      assert k == -((t0 - s) * (t0 - s));
    }
    ProductNonPositive(l, k);
    assert (tc - s) * (l * e) == l * k;
  }

  // ---------------------------------------------------------------------------
  // Segment distance

  /** The squared distance to the point at parameter `s` as a quadratic in `s`
      whose coefficients are the whole-number quantities of the segment. */
  lemma SegmentPointExpansion(p: Point, r: Rect, s: real)
    ensures DistanceToSegmentPoint(p, r, s)
         == Quadratic(DistanceSquared(p, Start(r)) as real, Dot(p, r) as real,
                      DistanceSquared(Start(r), End(r)) as real, s)
  {
    var qx, qy := (p.x - r.x) as real, (p.y - r.y) as real;
    var dx, dy := r.width as real, r.height as real;
    assert p.x as real - (r.x as real + s * dx) == qx - s * dx;
    assert p.y as real - (r.y as real + s * dy) == qy - s * dy;
    QuadraticExpansion(qx, qy, dx, dy, s);
    CastDistance(p, Start(r));
    CastDistance(Start(r), End(r));
    assert (r.x - (r.x + r.width)) as real == -dx;
    assert (r.y - (r.y + r.height)) as real == -dy;
    CastProduct(p.x - r.x, r.width);
    CastProduct(p.y - r.y, r.height);
  }

  /** Parameter 0 is the start corner and parameter 1 the end corner. */
  lemma SegmentPointEnds(p: Point, r: Rect)
    ensures DistanceToSegmentPoint(p, r, 0.0) == DistanceSquared(p, Start(r)) as real
    ensures DistanceToSegmentPoint(p, r, 1.0) == DistanceSquared(p, End(r)) as real
  {
    CastDistance(p, Start(r));
    CastDistance(p, End(r));
  }

  /** A zero-length segment is a single point: every parameter gives it. */
  lemma DegenerateSegmentPoint(p: Point, r: Rect, t: real)
    requires Start(r) == End(r)
    ensures DistanceToSegmentPoint(p, r, t) == DistanceSquared(p, Start(r)) as real
  {
    assert r.width == 0 && r.height == 0;
    CastDistance(p, Start(r));
  }

  /** No point of a segment of positive length is closer than the clamped one. */
  lemma ClampedPointIsClosest(p: Point, r: Rect, s: real)
    requires Start(r) != End(r) && 0.0 <= s <= 1.0
    ensures DistanceToSegmentSquared(p, r) <= DistanceToSegmentPoint(p, r, s)
  {
    var q := DistanceSquared(p, Start(r)) as real;
    var dot := Dot(p, r) as real;
    var l := DistanceSquared(Start(r), End(r)) as real;
    var tc := Clamp01(dot / l);
    SegmentPointExpansion(p, r, tc);
    SegmentPointExpansion(p, r, s);
    ClampedMinimum(q, dot, l, s);
  }

  /** `DistanceToSegmentSquared` is the minimum of the squared distance from `p`
      over the points of the segment: some point of the segment attains it and
      no point of the segment is closer. */
  lemma SegmentDistanceIsMinimum(p: Point, r: Rect)
    ensures exists t :: 0.0 <= t <= 1.0 && DistanceToSegmentSquared(p, r) == DistanceToSegmentPoint(p, r, t)
    ensures forall t :: 0.0 <= t <= 1.0 ==> DistanceToSegmentSquared(p, r) <= DistanceToSegmentPoint(p, r, t)
  {
    if Start(r) == End(r) {
      forall t | 0.0 <= t <= 1.0
        ensures DistanceToSegmentSquared(p, r) == DistanceToSegmentPoint(p, r, t)
      {
        DegenerateSegmentPoint(p, r, t);
      }
      assert DistanceToSegmentSquared(p, r) == DistanceToSegmentPoint(p, r, 0.0);
    } else {
      var tc := Clamp01(Dot(p, r) as real / DistanceSquared(Start(r), End(r)) as real);
      assert DistanceToSegmentSquared(p, r) == DistanceToSegmentPoint(p, r, tc);
      forall s | 0.0 <= s <= 1.0
        ensures DistanceToSegmentSquared(p, r) <= DistanceToSegmentPoint(p, r, s)
      {
        ClampedPointIsClosest(p, r, s);
      }
    }
  }

  /** The segment distance never exceeds the distance to either endpoint. */
  lemma SegmentDistanceAtMostEndpoints(p: Point, r: Rect)
    ensures DistanceToSegmentSquared(p, r) <= DistanceSquared(p, Start(r)) as real
    ensures DistanceToSegmentSquared(p, r) <= DistanceSquared(p, End(r)) as real
  {
    SegmentDistanceIsMinimum(p, r);
    SegmentPointEnds(p, r);
  }

  /** Both endpoints lie on the segment. */
  lemma SegmentDistanceZeroAtEndpoints(r: Rect)
    ensures DistanceToSegmentSquared(Start(r), r) == 0.0
    ensures DistanceToSegmentSquared(End(r), r) == 0.0
  {
    SegmentDistanceAtMostEndpoints(Start(r), r);
    SegmentDistanceAtMostEndpoints(End(r), r);
  }

  /** Walking the flipped segment at `1 - t` visits the same point. */
  lemma FlipSegmentPoint(p: Point, r: Rect, t: real)
    ensures DistanceToSegmentPoint(p, Flip(r), 1.0 - t) == DistanceToSegmentPoint(p, r, t)
  {
    var f := Flip(r);
    assert f.x as real + (1.0 - t) * f.width as real == r.x as real + t * r.width as real;
    assert f.y as real + (1.0 - t) * f.height as real == r.y as real + t * r.height as real;
  }

  /** Describing the segment from its other end does not change the distance. */
  lemma SegmentDistanceFlipInvariant(p: Point, r: Rect)
    ensures DistanceToSegmentSquared(p, Flip(r)) == DistanceToSegmentSquared(p, r)
  {
    var f := Flip(r);
    var a, b := DistanceToSegmentSquared(p, r), DistanceToSegmentSquared(p, f);
    SegmentDistanceIsMinimum(p, r);
    SegmentDistanceIsMinimum(p, f);
    var t :| 0.0 <= t <= 1.0 && a == DistanceToSegmentPoint(p, r, t);
    var u :| 0.0 <= u <= 1.0 && b == DistanceToSegmentPoint(p, f, u);
    FlipSegmentPoint(p, r, t);
    FlipSegmentPoint(p, r, 1.0 - u);
    assert b <= DistanceToSegmentPoint(p, f, 1.0 - t) == a;
    assert a <= DistanceToSegmentPoint(p, r, 1.0 - u) == b;
  }

  // ---------------------------------------------------------------------------
  // Rectangle containment

  lemma IntProductPositive(a: int, b: int)
    requires (a > 0 && b > 0) || (a < 0 && b < 0)
    ensures a * b > 0
  {
  }

  lemma IntProductNonPositive(a: int, b: int)
    requires (a >= 0 && b <= 0) || (a <= 0 && b >= 0)
    ensures a * b <= 0
  {
  }

  /** A coordinate lies between two bounds exactly when its offsets from the two
      bounds do not have the same strict sign. */
  lemma BetweenIffProduct(c: int, a: int, b: int)
    ensures Min(a, b) <= c <= Max(a, b) <==> (c - a) * (c - b) <= 0
  {
    if c < Min(a, b) || c > Max(a, b) {
      IntProductPositive(c - a, c - b);
    } else {
      IntProductNonPositive(c - a, c - b);
    }
  }

  /** Containment does not depend on which corner the rectangle is described from. */
  lemma RectContainsFlipInvariant(p: Point, r: Rect)
    ensures RectContainsPoint(p, Flip(r)) == RectContainsPoint(p, r)
  {
  }

  // ---------------------------------------------------------------------------
  // Ellipse containment

  /** Containment does not depend on which corner the rectangle is described from. */
  lemma EllipseContainsFlipInvariant(p: Point, r: Rect)
    ensures EllipseContainsPoint(p, Flip(r)) == EllipseContainsPoint(p, r)
  {
    var f := Flip(r);
    assert f.x as real + f.width as real * 0.5 == r.x as real + r.width as real * 0.5;
    assert f.y as real + f.height as real * 0.5 == r.y as real + r.height as real * 0.5;
    assert Abs(f.width) == Abs(r.width) && Abs(f.height) == Abs(r.height);
  }

  lemma ClearDenominators(a: real, b: real, w: real, h: real)
    requires w > 0.0 && h > 0.0
    ensures a / w + b / h <= 1.0 <==> a * h + b * w <= w * h
  {
  }

  lemma QuarterProducts(x: real, y: real, u: real, v: real)
    ensures (x * 0.25) * (v * 0.25) + (y * 0.25) * (u * 0.25) <= (u * 0.25) * (v * 0.25)
        <==> x * v + y * u <= u * v
  {
  }

  /** Squaring a half discards the sign and leaves a quarter of the square. */
  lemma HalfSquare(a: real, b: real)
    requires b == a || b == -a
    ensures RealSquare(b * 0.5) == (a * a) * 0.25
  {
  }

  /** Twice the horizontal offset of `p` from the centre of `r`, a whole number. */
  function OffsetX(p: Point, r: Rect): int { 2 * (p.x - r.x) - r.width }

  /** Twice the vertical offset of `p` from the centre of `r`, a whole number. */
  function OffsetY(p: Point, r: Rect): int { 2 * (p.y - r.y) - r.height }

  /** One term of the normalised sum, in whole-number squares. */
  lemma HalfTerm(num: int, ext: int)
    ensures RealSquare(num as real * 0.5) == Square(num) as real * 0.25
    ensures RealSquare(Abs(ext) as real * 0.5) == Square(ext) as real * 0.25
  {
    HalfSquare(num as real, num as real);
    HalfSquare(ext as real, Abs(ext) as real);
    CastProduct(num, num);
    CastProduct(ext, ext);
  }

  /** The source's normalised sum with both halvings made explicit. */
  lemma EllipseQuarterForm(p: Point, r: Rect)
    requires r.width != 0 && r.height != 0
    ensures var sx, sy := Square(OffsetX(p, r)) as real, Square(OffsetY(p, r)) as real;
            var sw, sh := Square(r.width) as real, Square(r.height) as real;
            EllipseSum(p, r) == (sx * 0.25) / (sw * 0.25) + (sy * 0.25) / (sh * 0.25)
  {
    assert p.x as real - (r.x as real + r.width as real * 0.5) == OffsetX(p, r) as real * 0.5;
    assert p.y as real - (r.y as real + r.height as real * 0.5) == OffsetY(p, r) as real * 0.5;
    HalfTerm(OffsetX(p, r), r.width);
    HalfTerm(OffsetY(p, r), r.height);
  }

  lemma NormalisedSum(sx: real, sy: real, sw: real, sh: real)
    requires sw > 0.0 && sh > 0.0
    ensures (sx * 0.25) / (sw * 0.25) + (sy * 0.25) / (sh * 0.25) <= 1.0 <==> sx * sh + sy * sw <= sw * sh
  {
    ClearDenominators(sx * 0.25, sy * 0.25, sw * 0.25, sh * 0.25);
    QuarterProducts(sx, sy, sw, sh);
  }

  lemma CastInequality(a: int, b: int, c: int, d: int, e: int, f: int)
    ensures a as real * b as real + c as real * d as real <= e as real * f as real
        <==> a * b + c * d <= e * f
  {
    CastProduct(a, b);
    CastProduct(c, d);
    CastProduct(e, f);
  }

  /** For a non-degenerate ellipse the source's fractional test is the
      whole-number inequality obtained by clearing its denominators. */
  lemma EllipseWholeNumberForm(p: Point, r: Rect)
    requires r.width != 0 && r.height != 0
    ensures EllipseSum(p, r) <= 1.0 <==> EllipseInequality(p, r)
  {
    var sx, sy, sw, sh := Square(OffsetX(p, r)), Square(OffsetY(p, r)), Square(r.width), Square(r.height);
    EllipseQuarterForm(p, r);
    NormalisedSum(sx as real, sy as real, sw as real, sh as real);
    CastInequality(sx, sh, sy, sw, sw, sh);
  }

  lemma CancelPositive(a: int, b: int, c: int)
    requires c > 0 && a * c <= b * c
    ensures a <= b
  {
    if a > b {
      IntProductPositive(a - b, c);
    }
  }

  lemma IntProductNonNegative(a: nat, b: nat)
    ensures a * b >= 0
  {
  }

  /** A whole number whose square is at most `w * w` lies within `|w|` of zero. */
  lemma SquareBound(o: int, w: int)
    requires Square(o) <= Square(w)
    ensures -(Abs(w) as int) <= o <= Abs(w)
  {
    var aw: int := Abs(w);
    assert Square(w) == aw * aw;
    if o > aw {
      assert o * o - aw * aw == (o - aw) * (o + aw);
      IntProductPositive(o - aw, o + aw);
    } else if o < -aw {
      assert o * o - aw * aw == (o - aw) * (o + aw);
      IntProductPositive(o - aw, o + aw);
    }
  }

  /** Every point of a proper ellipse lies in the rectangle it is inscribed in. */
  lemma InequalityWithinRect(p: Point, r: Rect)
    ensures r.width != 0 && r.height != 0 && EllipseInequality(p, r) ==> RectContainsPoint(p, r)
  {
    if r.width == 0 || r.height == 0 || !EllipseInequality(p, r) {
      return;
    }
    var ox, oy := OffsetX(p, r), OffsetY(p, r);
    var sw, sh := Square(r.width), Square(r.height);
    IntProductNonNegative(Square(oy), sw);
    IntProductNonNegative(Square(ox), sh);
    CancelPositive(Square(ox), sw, sh);
    assert Square(oy) * sw <= sh * sw;
    CancelPositive(Square(oy), sh, sw);
    SquareBound(ox, r.width);
    SquareBound(oy, r.height);
  }

  // ---------------------------------------------------------------------------
  // Nearness of a segment hit

  lemma SquareBelowFour(a: real)
    requires a * a < 4.0
    ensures -2.0 < a < 2.0
  {
    if a >= 2.0 {
      ProductNonNegative(a - 2.0, a + 2.0);
    } else if a <= -2.0 {
      ProductNonNegative(2.0 - a, -2.0 - a);
    }
  }

  lemma SquaresBelowFour(a: real, b: real)
    requires RealSquare(a) + RealSquare(b) < 4.0
    ensures -2.0 < a < 2.0 && -2.0 < b < 2.0
  {
    SquareBelowFour(a);
    SquareBelowFour(b);
  }

  lemma ProductNonNegative(a: real, b: real)
    requires a >= 0.0 && b >= 0.0
    ensures a * b >= 0.0
  {
  }

  /** The point at parameter `t` of `[x, x + w]` lies between the two ends. */
  lemma BetweenEnds(x: int, w: int, t: real)
    requires 0.0 <= t <= 1.0
    ensures Min(x, x + w) as real <= x as real + t * w as real <= Max(x, x + w) as real
  {
    var wr := w as real;
    assert wr - t * wr == (1.0 - t) * wr;
    if w >= 0 {
      ProductNonNegative(t, wr);
      ProductNonNegative(1.0 - t, wr);
    } else {
      ProductNonPositive(t, wr);
      ProductNonPositive(1.0 - t, wr);
    }
  }

  /** A whole-number coordinate less than 2 away from a value between two
      whole-number bounds lies within 1 of those bounds. */
  lemma NearAxis(c: int, lo: int, hi: int, s: real)
    requires lo as real <= s <= hi as real
    requires -2.0 < c as real - s < 2.0
    ensures lo - 1 <= c <= hi + 1
  {
  }

  /** A point within squared distance 4 of some point of the rectangle lies
      within one pixel of it on both axes. */
  lemma NearPoint(p: Point, r: Rect, sx: real, sy: real)
    requires Min(r.x, r.x + r.width) as real <= sx <= Max(r.x, r.x + r.width) as real
    requires Min(r.y, r.y + r.height) as real <= sy <= Max(r.y, r.y + r.height) as real
    requires RealSquare(p.x as real - sx) + RealSquare(p.y as real - sy) < 4.0
    ensures NearRect(p, r, 1)
  {
    SquaresBelowFour(p.x as real - sx, p.y as real - sy);
    NearAxis(p.x, Min(r.x, r.x + r.width), Max(r.x, r.x + r.width), sx);
    NearAxis(p.y, Min(r.y, r.y + r.height), Max(r.y, r.y + r.height), sy);
  }

  lemma NearSegmentPoint(p: Point, r: Rect, t: real)
    requires 0.0 <= t <= 1.0 && DistanceToSegmentPoint(p, r, t) < 4.0
    ensures NearRect(p, r, 1)
  {
    BetweenEnds(r.x, r.width, t);
    BetweenEnds(r.y, r.height, t);
    NearPoint(p, r, r.x as real + t * r.width as real, r.y as real + t * r.height as real);
  }

  /** A point within squared distance 4 of a segment lies within one pixel of
      the segment's rectangle on both axes. */
  lemma SegmentHitNearRect(p: Point, r: Rect)
    ensures DistanceToSegmentSquared(p, r) < 4.0 ==> NearRect(p, r, 1)
  {
    var d := DistanceToSegmentSquared(p, r);
    if d < 4.0 {
      SegmentDistanceIsMinimum(p, r);
      var t :| 0.0 <= t <= 1.0 && d == DistanceToSegmentPoint(p, r, t);
      NearSegmentPoint(p, r, t);
    }
  }
}
