/**
 * The geometry of the points-of-interest service (src/app/services/refuges-info.ts):
 * the planar projection of a point onto a segment, and the bounding box of a route.
 * Coordinates are treated as a flat Euclidean plane, exactly as the service does.
 */
module RefugesInfo {
  import opened Hike

  // ---------------------------------------------------------------------------
  // Planar geometry
  // ---------------------------------------------------------------------------

  /** The vector from `v` to `u`. */
  function Sub(u: Coords, v: Coords): Coords
  {
    (u.0 - v.0, u.1 - v.1)
  }

  /** The planar dot product. */
  function Dot(u: Coords, v: Coords): real
  {
    u.0 * v.0 + u.1 * v.1
  }

  /** The point `a + t·(b − a)` of the line through `a` and `b`. */
  function Lerp(a: Coords, b: Coords, t: real): Coords
  {
    (a.0 + t * (b.0 - a.0), a.1 + t * (b.1 - a.1))
  }

  /** `q` lies on the closed segment [a, b]. */
  ghost predicate OnSegment(q: Coords, a: Coords, b: Coords)
  {
    exists t: real :: 0.0 <= t <= 1.0 && q == Lerp(a, b, t)
  }

  /** `x` lies between `u` and `v`, whichever of the two is smaller. */
  predicate Between(x: real, u: real, v: real)
  {
    (u <= x <= v) || (v <= x <= u)
  }

  /** Squared planar distance between two positions. */
  function Dist2(p: Coords, q: Coords): real
  {
    Dot(Sub(p, q), Sub(p, q))
  }

  /** The parameter `t` clamped into [0, 1], as the two `if`s of the projection do. */
  function Clamp01(t: real): real
  {
    var t1 := if t < 0.0 then 0.0 else t;
    if t1 > 1.0 then 1.0 else t1
  }

  /**
   * The projection of `p` onto the segment [a, b]: the orthogonal projection onto the
   * line through `a` and `b`, with its parameter clamped to [0, 1]; a segment of length
   * zero projects everything onto `a`. The component keeps a verbatim copy of this
   * function (src/app/hike-map/hike-map.ts:281-315), which this definition also models.
   */
  function ProjectPointOnSegment(p: Coords, a: Coords, b: Coords): (q: Coords)
    ensures OnSegment(q, a, b)
    ensures Between(q.0, a.0, b.0) && Between(q.1, a.1, b.1)
    ensures a == b ==> q == a
  {
    var ab := Sub(b, a);
    var ap := Sub(p, a);
    var ab2 := Dot(ab, ab);
    if ab2 == 0.0 then
      assert Lerp(a, b, 0.0) == a;
      a
    else
      var t := Clamp01(Dot(ap, ab) / ab2);
      LerpBetween(a, b, t);
      Lerp(a, b, t)
  }

  // ---------------------------------------------------------------------------
  // Arithmetic helpers. Products are named through `Mul` so that a fact about a
  // square stays attached to a single term.
  // ---------------------------------------------------------------------------

  /** `x · y`. */
  function Mul(x: real, y: real): real
  {
    x * y
  }

  /** A product of two numbers of the same sign is not negative. */
  lemma MulSameSign(x: real, y: real)
    requires (x >= 0.0 && y >= 0.0) || (x <= 0.0 && y <= 0.0)
    ensures Mul(x, y) >= 0.0
  {
    if x <= 0.0 && y <= 0.0 {
      assert Mul(x, y) == Mul(-x, -y);
    }
  }

  /** A product of two positive numbers is positive. */
  lemma MulPositive(x: real, y: real)
    requires x > 0.0 && y > 0.0
    ensures Mul(x, y) > 0.0
  {
  }

  /** A non-zero number has a positive square. */
  lemma SquarePositive(x: real)
    requires x != 0.0
    ensures Mul(x, x) > 0.0
  {
    if x > 0.0 {
      MulPositive(x, x);
    } else {
      MulPositive(-x, -x);
      assert Mul(x, x) == Mul(-x, -x);
    }
  }

  /** A non-zero vector has a positive squared length. */
  lemma DotSelfPositive(u: Coords)
    requires u != (0.0, 0.0)
    ensures Dot(u, u) > 0.0
  {
    MulSameSign(u.0, u.0);
    MulSameSign(u.1, u.1);
    if u.0 != 0.0 {
      SquarePositive(u.0);
    } else {
      SquarePositive(u.1);
    }
  }

  /** A fraction in [0, 1] of the way from `u` to `v` lies between `u` and `v`. */
  lemma ScaleBetween(t: real, u: real, v: real)
    requires 0.0 <= t <= 1.0
    ensures Between(u + t * (v - u), u, v)
  {
    if u <= v {
      MulSameSign(t, v - u);
      MulSameSign(1.0 - t, v - u);
    } else {
      MulSameSign(t, u - v);
      MulSameSign(1.0 - t, u - v);
    }
  }

  /** Every point of the segment lies, coordinate by coordinate, between its ends. */
  lemma LerpBetween(a: Coords, b: Coords, t: real)
    requires 0.0 <= t <= 1.0
    ensures Between(Lerp(a, b, t).0, a.0, b.0) && Between(Lerp(a, b, t).1, a.1, b.1)
  {
    ScaleBetween(t, a.0, b.0);
    ScaleBetween(t, a.1, b.1);
  }

  /** `(u − s·w)² = u² − 2·s·(u·w) + s²·w²`. */
  lemma SquareOfDifference(u: real, w: real, s: real)
    ensures (u - s * w) * (u - s * w) == u * u - 2.0 * s * (u * w) + s * s * (w * w)
  {
  }

  /** One coordinate of the gap between `u` and the point of parameter `s` from `v` to `w`, squared. */
  lemma CoordGap(u: real, v: real, w: real, s: real)
    ensures (u - (v + s * (w - v))) * (u - (v + s * (w - v)))
            == (u - v) * (u - v) - 2.0 * s * ((u - v) * (w - v)) + s * s * ((w - v) * (w - v))
  {
    var x, y := u - v, w - v;
    assert u - (v + s * (w - v)) == x - s * y;
    SquareOfDifference(x, y, s);
  }

  /** The squared distance from `p` to the point of parameter `s` is a quadratic in `s`. */
  lemma Dist2ToLerp(p: Coords, a: Coords, b: Coords, s: real)
    ensures Dist2(p, Lerp(a, b, s))
              == Dot(Sub(p, a), Sub(p, a)) - 2.0 * s * Dot(Sub(p, a), Sub(b, a)) + s * s * Dot(Sub(b, a), Sub(b, a))
  {
    CoordGap(p.0, a.0, b.0, s);
    CoordGap(p.1, a.1, b.1, s);
  }

  /** For a proper segment, the projection is the point of parameter `(AP·AB) / |AB|²` clamped into [0, 1]. */
  lemma ProjectionAsLerp(p: Coords, a: Coords, b: Coords)
    requires a != b
    ensures Dot(Sub(b, a), Sub(b, a)) > 0.0
    ensures ProjectPointOnSegment(p, a, b) == Lerp(a, b, Clamp01(Dot(Sub(p, a), Sub(b, a)) / Dot(Sub(b, a), Sub(b, a))))
  {
    DotSelfPositive(Sub(b, a));
  }

  /** Over [0, 1], the quadratic `s ↦ s²·n − 2·s·d` (with `n > 0`) is least at its vertex `d / n` clamped into [0, 1]. */
  lemma ClampedVertexIsMinimum(n: real, d: real, s: real)
    requires n > 0.0
    requires 0.0 <= s <= 1.0
    ensures var t := Clamp01(d / n); t * t * n - 2.0 * t * d <= s * s * n - 2.0 * s * d
  {
    var t0 := d / n;
    var t := Clamp01(t0);
    assert d == t0 * n;
    var gap := (s * s * n - 2.0 * s * d) - (t * t * n - 2.0 * t * d);
    assert gap == Mul(s - t, (s + t) * n - 2.0 * d);
    if t0 < 0.0 {
      assert t == 0.0;
      assert d < 0.0 by {
        MulPositive(-t0, n);
      }
      MulSameSign(s, n);
      MulSameSign(s, (s + t) * n - 2.0 * d);
    } else if t0 > 1.0 {
      assert t == 1.0;
      assert d > n by {
        MulPositive(t0 - 1.0, n);
      }
      MulSameSign(1.0 - s, n);
      MulSameSign(s - t, (s + t) * n - 2.0 * d);
    } else {
      assert t == t0;
      assert (s + t) * n - 2.0 * d == (s - t) * n;
      MulSameSign(s - t, s - t);
      MulSameSign(Mul(s - t, s - t), n);
      assert gap == Mul(Mul(s - t, s - t), n);
    }
  }

  /**
   * The projection is the point of the segment closest to `p`: no point of [a, b]
   * is at a smaller planar distance from `p`.
   */
  lemma ProjectionIsClosest(p: Coords, a: Coords, b: Coords, s: real)
    requires 0.0 <= s <= 1.0
    ensures Dist2(p, ProjectPointOnSegment(p, a, b)) <= Dist2(p, Lerp(a, b, s))
  {
    if a == b {
      LerpOfPoint(a, s);
    } else {
      ProjectionAsLerp(p, a, b);
      var n, d := Dot(Sub(b, a), Sub(b, a)), Dot(Sub(p, a), Sub(b, a));
      ClampedVertexIsMinimum(n, d, s);
      Dist2ToLerp(p, a, b, s);
      Dist2ToLerp(p, a, b, Clamp01(d / n));
    }
  }

  /** On a segment of length zero every parameter gives its one point. */
  lemma LerpOfPoint(a: Coords, s: real)
    ensures Lerp(a, a, s) == a
  {
    assert a.0 - a.0 == 0.0 && a.1 - a.1 == 0.0;
    assert s * 0.0 == 0.0;
  }

  /** The dot product is linear in its first argument. */
  lemma DotScaled(s: real, x: real, y: real, v: Coords)
    ensures Dot((s * x, s * y), v) == s * Dot((x, y), v)
  {
  }

  /** The offset of the point of parameter `s` from `a`, dotted with the segment, is `s·|AB|²`. */
  lemma DotOfSegmentPoint(a: Coords, b: Coords, s: real)
    ensures Dot(Sub(Lerp(a, b, s), a), Sub(b, a)) == s * Dot(Sub(b, a), Sub(b, a))
  {
    var p := Lerp(a, b, s);
    assert p.0 - a.0 == s * (b.0 - a.0) && p.1 - a.1 == s * (b.1 - a.1);
    assert Sub(p, a) == (s * (b.0 - a.0), s * (b.1 - a.1));
    DotScaled(s, b.0 - a.0, b.1 - a.1, Sub(b, a));
  }

  /** Dividing `s·n` by a non-zero `n` gives back `s`. */
  lemma CancelFactor(s: real, n: real)
    requires n != 0.0
    ensures (s * n) / n == s
  {
  }

  /** A point that already lies on the segment [a, b] is its own projection. */
  lemma ProjectionFixesSegmentPoints(a: Coords, b: Coords, s: real)
    requires 0.0 <= s <= 1.0
    ensures ProjectPointOnSegment(Lerp(a, b, s), a, b) == Lerp(a, b, s)
  {
    if a == b {
      LerpOfPoint(a, s);
    } else {
      var p := Lerp(a, b, s);
      ProjectionAsLerp(p, a, b);
      var n := Dot(Sub(b, a), Sub(b, a));
      DotOfSegmentPoint(a, b, s);
      CancelFactor(s, n);
      var d := Dot(Sub(p, a), Sub(b, a));
      assert d == s * n;
      assert d / n == s;
      assert Clamp01(s) == s;
    }
  }

  /** Both ends of a segment project onto themselves. */
  lemma ProjectionFixesEndpoints(a: Coords, b: Coords)
    ensures ProjectPointOnSegment(a, a, b) == a
    ensures ProjectPointOnSegment(b, a, b) == b
  {
    assert Lerp(a, b, 0.0) == a;
    assert Lerp(a, b, 1.0) == b;
    ProjectionFixesSegmentPoints(a, b, 0.0);
    ProjectionFixesSegmentPoints(a, b, 1.0);
  }

  /** Projecting twice is projecting once. */
  lemma ProjectionIdempotent(p: Coords, a: Coords, b: Coords)
    ensures ProjectPointOnSegment(ProjectPointOnSegment(p, a, b), a, b) == ProjectPointOnSegment(p, a, b)
  {
    var q := ProjectPointOnSegment(p, a, b);
    var t :| 0.0 <= t <= 1.0 && q == Lerp(a, b, t);
    ProjectionFixesSegmentPoints(a, b, t);
  }

  // ---------------------------------------------------------------------------
  // Bounding box
  // ---------------------------------------------------------------------------

  /** A JavaScript number restricted to what the bounding box can hold: a real or an infinity. */
  datatype Ext = NegInf | Finite(v: real) | PosInf

  /** `Math.min(e, x)` for a finite `x`. */
  function MathMin(e: Ext, x: real): Ext
  {
    match e
    case NegInf => NegInf
    case Finite(v) => Finite(if x < v then x else v)
    case PosInf => Finite(x)
  }

  /** `Math.max(e, x)` for a finite `x`. */
  function MathMax(e: Ext, x: real): Ext
  {
    match e
    case NegInf => Finite(x)
    case Finite(v) => Finite(if x > v then x else v)
    case PosInf => PosInf
  }

  /** The box `{ min: [minLat, minLng], max: [maxLat, maxLng] }`. */
  datatype Bbox = Bbox(minLat: Ext, minLng: Ext, maxLat: Ext, maxLng: Ext)

  /** The four running values before any point has been seen. */
  const EmptyBbox := Bbox(PosInf, PosInf, NegInf, NegInf)

  /** The box after one more point has been taken into account. */
  function Widen(box: Bbox, p: HikePoint): Bbox
  {
    Bbox(MathMin(box.minLat, p.latitude), MathMin(box.minLng, p.longitude),
         MathMax(box.maxLat, p.latitude), MathMax(box.maxLng, p.longitude))
  }

  /** The box of a point list, accumulated from first point to last. */
  function BoundsOf(points: seq<HikePoint>): Bbox
  {
    if points == [] then EmptyBbox
    else Widen(BoundsOf(points[..|points| - 1]), points[|points| - 1])
  }

  /**
   * The bounding box of a route: one pass keeps the running minimum and maximum
   * of the latitudes and of the longitudes, starting from +∞ and −∞.
   */
  method CreateBbox(points: seq<HikePoint>) returns (box: Bbox)
    ensures box == BoundsOf(points)
  {
    var minLat, minLng, maxLat, maxLng := PosInf, PosInf, NegInf, NegInf;
    for i := 0 to |points|
      invariant Bbox(minLat, minLng, maxLat, maxLng) == BoundsOf(points[..i])
    {
      var p := points[i];
      minLat := MathMin(minLat, p.latitude);
      minLng := MathMin(minLng, p.longitude);
      maxLat := MathMax(maxLat, p.latitude);
      maxLng := MathMax(maxLng, p.longitude);
      assert points[..i + 1][..i] == points[..i];
    }
    assert points[..|points|] == points;
    box := Bbox(minLat, minLng, maxLat, maxLng);
  }

  /**
   * The box of a non-empty list is finite, encloses every point and is tight:
   * each of its four bounds is the coordinate of some point of the list.
   */
  lemma {:induction false} BoundsOfIsTight(points: seq<HikePoint>)
    requires points != []
    ensures var box := BoundsOf(points);
            box.minLat.Finite? && box.minLng.Finite? && box.maxLat.Finite? && box.maxLng.Finite?
    ensures var box := BoundsOf(points);
            forall p :: p in points ==>
              box.minLat.v <= p.latitude <= box.maxLat.v && box.minLng.v <= p.longitude <= box.maxLng.v
    ensures var box := BoundsOf(points);
            (exists p :: p in points && p.latitude == box.minLat.v) &&
            (exists p :: p in points && p.longitude == box.minLng.v) &&
            (exists p :: p in points && p.latitude == box.maxLat.v) &&
            (exists p :: p in points && p.longitude == box.maxLng.v)
  {
    var init, last := points[..|points| - 1], points[|points| - 1];
    assert points == init + [last];
    if init == [] {
      assert BoundsOf(init) == EmptyBbox;
    } else {
      BoundsOfIsTight(init);
      var b := BoundsOf(init);
      assert forall p :: p in init ==> p in points;
      if last.latitude < b.minLat.v {
        assert last in points;
      } else {
        var w :| w in init && w.latitude == b.minLat.v;
        assert w in points;
      }
      if last.longitude < b.minLng.v {
        assert last in points;
      } else {
        var w :| w in init && w.longitude == b.minLng.v;
        assert w in points;
      }
      if last.latitude > b.maxLat.v {
        assert last in points;
      } else {
        var w :| w in init && w.latitude == b.maxLat.v;
        assert w in points;
      }
      if last.longitude > b.maxLng.v {
        assert last in points;
      } else {
        var w :| w in init && w.longitude == b.maxLng.v;
        assert w in points;
      }
    }
  }

  /** The box keeps its infinite starting values exactly when there is no point at all. */
  lemma BoundsOfEmptyIffNoPoints(points: seq<HikePoint>)
    ensures BoundsOf(points) == EmptyBbox <==> points == []
  {
    if points != [] {
      BoundsOfIsTight(points);
    }
  }

  /** The box depends only on which points are listed, not on their order or repetition. */
  lemma BoundsOfDependsOnlyOnElements(ps: seq<HikePoint>, qs: seq<HikePoint>)
    requires forall x :: x in ps <==> x in qs
    ensures BoundsOf(ps) == BoundsOf(qs)
  {
    if ps != [] {
      assert ps[0] in qs;
    }
    if qs != [] {
      assert qs[0] in ps;
    }
    if ps != [] {
      BoundsOfIsTight(ps);
      BoundsOfIsTight(qs);
    }
  }

  /** In particular, reordering the points leaves the box unchanged. */
  lemma BoundsOfPermutation(ps: seq<HikePoint>, qs: seq<HikePoint>)
    requires multiset(ps) == multiset(qs)
    ensures BoundsOf(ps) == BoundsOf(qs)
  {
    forall x
      ensures x in ps <==> x in qs
    {
      assert x in ps <==> x in multiset(ps);
      assert x in qs <==> x in multiset(qs);
    }
    BoundsOfDependsOnlyOnElements(ps, qs);
  }
}
