/**
 * The waypoint editing of the map component (src/app/hike-map/hike-map.ts): inserting a
 * clicked position after the nearest route segment, deleting a waypoint, moving one, and
 * clearing the route summary when no more than one waypoint remains.
 */
module HikeMap {
  import opened Wrappers
  import opened Hike
  import opened RefugesInfo

  /**
   * Leaflet's `LatLng.distanceTo`, a great-circle distance computed by a library whose code
   * is not part of this model; every operation that needs it takes it as a parameter.
   */
  type Distance = (Coords, Coords) -> real

  // ---------------------------------------------------------------------------
  // Splicing a route
  // ---------------------------------------------------------------------------

  /** `s.splice(k, 0, x)`: `x` placed at index `k`, the elements from `k` on shifted by one. */
  function Inserted(s: seq<HikePoint>, k: nat, x: HikePoint): (r: seq<HikePoint>)
    requires k <= |s|
    ensures |r| == |s| + 1
    ensures forall j :: 0 <= j < k ==> r[j] == s[j]
    ensures r[k] == x
    ensures forall j :: k <= j < |s| ==> r[j + 1] == s[j]
  {
    s[..k] + [x] + s[k..]
  }

  /** `s.filter((point, index) => id !== index)`, scanning from the first element to the last. */
  function WithoutIndex(s: seq<HikePoint>, id: int): seq<HikePoint>
  {
    if s == [] then []
    else WithoutIndex(s[..|s| - 1], id) + (if |s| - 1 != id then [s[|s| - 1]] else [])
  }

  /**
   * The filter drops exactly the element at `id` and keeps the others in order; an index
   * outside the list removes nothing.
   */
  lemma {:induction false} WithoutIndexRemovesOne(s: seq<HikePoint>, id: int)
    ensures 0 <= id < |s| ==> WithoutIndex(s, id) == s[..id] + s[id + 1..]
    ensures !(0 <= id < |s|) ==> WithoutIndex(s, id) == s
  {
    if s != [] {
      var init := s[..|s| - 1];
      WithoutIndexRemovesOne(init, id);
      if 0 <= id < |s| - 1 {
        assert init[..id] == s[..id];
        assert init[id + 1..] + [s[|s| - 1]] == s[id + 1..];
      } else if id == |s| - 1 {
        assert init == s[..id];
        assert s[id + 1..] == [];
      } else {
        assert init + [s[|s| - 1]] == s;
      }
    }
  }

  /** Deleting the point that was just inserted gives back the route as it was. */
  lemma DeleteUndoesInsert(s: seq<HikePoint>, k: nat, x: HikePoint)
    requires k <= |s|
    ensures WithoutIndex(Inserted(s, k, x), k) == s
  {
    var r := Inserted(s, k, x);
    WithoutIndexRemovesOne(r, k);
    assert r[..k] == s[..k];
    assert r[k + 1..] == s[k..];
    assert s[..k] + s[k..] == s;
  }

  // ---------------------------------------------------------------------------
  // Choosing where a new point goes
  // ---------------------------------------------------------------------------

  /**
   * The end the insertion scan uses for the segment that finishes at `q`: the code
   * builds it from the latitude twice (src/app/hike-map/hike-map.ts:171).
   */
  function SegmentEndAsWritten(q: HikePoint): Coords
  {
    (q.latitude, q.latitude)
  }

  /**
   * The distance from `c` to its projection on segment `i`, the segment starting at
   * waypoint `i` and ending at `segEnd(points[i + 1])`.
   */
  function SegmentDistance(points: seq<HikePoint>, c: Coords, dist: Distance,
                           segEnd: HikePoint -> Coords, i: nat): real
    requires i + 1 < |points|
  {
    dist(c, ProjectPointOnSegment(c, WaypointCoords(points[i]), segEnd(points[i + 1])))
  }

  /**
   * The winner among the first `n` segments: the nearest one, and of several equally
   * near ones the first, because a later segment replaces it only when strictly nearer.
   */
  function NearestSegment(points: seq<HikePoint>, c: Coords, dist: Distance,
                          segEnd: HikePoint -> Coords, n: nat): (k: nat)
    requires 1 <= n < |points|
    ensures k < n
    ensures forall j :: 0 <= j < n ==>
              SegmentDistance(points, c, dist, segEnd, k) <= SegmentDistance(points, c, dist, segEnd, j)
    ensures forall j :: 0 <= j < k ==>
              SegmentDistance(points, c, dist, segEnd, k) < SegmentDistance(points, c, dist, segEnd, j)
  {
    if n == 1 then 0
    else
      var k := NearestSegment(points, c, dist, segEnd, n - 1);
      if SegmentDistance(points, c, dist, segEnd, n - 1) < SegmentDistance(points, c, dist, segEnd, k)
      then n - 1
      else k
  }

  /**
   * Where `addPoint` puts a new point: right after the nearest segment, or at index 0
   * when there are fewer than two waypoints and so no segment at all.
   */
  function InsertionIndexWith(points: seq<HikePoint>, c: Coords, dist: Distance,
                              segEnd: HikePoint -> Coords): (k: nat)
    ensures |points| < 2 ==> k == 0
    ensures |points| >= 2 ==> 1 <= k < |points|
    ensures |points| >= 2 ==> forall j :: 0 <= j < |points| - 1 ==>
              SegmentDistance(points, c, dist, segEnd, k - 1) <= SegmentDistance(points, c, dist, segEnd, j)
    ensures |points| >= 2 ==> forall j :: 0 <= j < k - 1 ==>
              SegmentDistance(points, c, dist, segEnd, k - 1) < SegmentDistance(points, c, dist, segEnd, j)
  {
    if |points| < 2 then 0 else NearestSegment(points, c, dist, segEnd, |points| - 1) + 1
  }

  /** The insertion index the component computes, with its segment ends as written. */
  function InsertionIndex(points: seq<HikePoint>, c: Coords, dist: Distance): nat
  {
    InsertionIndexWith(points, c, dist, SegmentEndAsWritten)
  }

  /** The insertion index with each segment ending at the next waypoint, as evidently intended. */
  function IntendedInsertionIndex(points: seq<HikePoint>, c: Coords, dist: Distance): nat
  {
    InsertionIndexWith(points, c, dist, WaypointCoords)
  }

  /**
   * The state of `addPoint`'s scan after the first `i` segments: nothing chosen yet
   * (`-1`, `null`) before the first one, afterwards the winner so far and its distance.
   */
  predicate ScanSoFar(points: seq<HikePoint>, c: Coords, dist: Distance, i: nat,
                      minimalSegmentIndex: int, minimalDistance: Option<real>)
  {
    if i == 0 then minimalSegmentIndex == -1 && minimalDistance == None
    else
      i < |points| &&
      minimalSegmentIndex == NearestSegment(points, c, dist, SegmentEndAsWritten, i) &&
      minimalDistance == Some(SegmentDistance(points, c, dist, SegmentEndAsWritten, minimalSegmentIndex))
  }

  /** One more segment of the scan: it takes over when nothing is chosen yet or when it is strictly nearer. */
  lemma ScanStep(points: seq<HikePoint>, c: Coords, dist: Distance, i: nat,
                 minimalSegmentIndex: int, minimalDistance: Option<real>)
    requires i + 1 < |points|
    requires ScanSoFar(points, c, dist, i, minimalSegmentIndex, minimalDistance)
    ensures var d := SegmentDistance(points, c, dist, SegmentEndAsWritten, i);
            (minimalDistance.None? || d < minimalDistance.value) ==> ScanSoFar(points, c, dist, i + 1, i, Some(d))
    ensures var d := SegmentDistance(points, c, dist, SegmentEndAsWritten, i);
            !(minimalDistance.None? || d < minimalDistance.value) ==>
              ScanSoFar(points, c, dist, i + 1, minimalSegmentIndex, minimalDistance)
  {
  }

  /** When the scan has seen every segment, the index after its winner is `InsertionIndex`. */
  lemma ScanResult(points: seq<HikePoint>, c: Coords, dist: Distance, i: nat,
                   minimalSegmentIndex: int, minimalDistance: Option<real>)
    requires i == 0 || i == |points| - 1
    requires !(i < |points| - 1)
    requires ScanSoFar(points, c, dist, i, minimalSegmentIndex, minimalDistance)
    ensures minimalSegmentIndex + 1 == InsertionIndex(points, c, dist)
  {
  }

  /** The waypoint `addPoint` creates for a clicked position. */
  function NewPoint(c: Coords): HikePoint
  {
    HikePoint(c.0, c.1, 0.0)
  }

  /**
   * An idealised distance: never negative, and zero exactly between equal coordinate pairs.
   * The great-circle distance falls short of this where different pairs name the same place
   * (the poles, longitudes 360 apart).
   */
  ghost predicate ZeroExactlyOnEqual(dist: Distance)
  {
    (forall x, y :: dist(x, y) >= 0.0) &&
    (forall x :: dist(x, x) == 0.0) &&
    (forall x, y :: dist(x, y) == 0.0 ==> x == y)
  }

  /**
   * With segments that really end at the next waypoint, a click lying on the route is
   * inserted between two consecutive waypoints whose segment contains it, whenever the
   * distance is zero exactly between equal positions.
   */
  lemma IntendedInsertionKeepsClickOnRoute(points: seq<HikePoint>, c: Coords, dist: Distance, k: nat, s: real)
    requires ZeroExactlyOnEqual(dist)
    requires k + 1 < |points| && 0.0 <= s <= 1.0
    requires c == Lerp(WaypointCoords(points[k]), WaypointCoords(points[k + 1]), s)
    ensures var r := IntendedInsertionIndex(points, c, dist);
            1 <= r < |points| && OnSegment(c, WaypointCoords(points[r - 1]), WaypointCoords(points[r]))
  {
    var r := IntendedInsertionIndex(points, c, dist);
    ProjectionFixesSegmentPoints(WaypointCoords(points[k]), WaypointCoords(points[k + 1]), s);
    assert SegmentDistance(points, c, dist, WaypointCoords, k) == 0.0;
    var q := ProjectPointOnSegment(c, WaypointCoords(points[r - 1]), WaypointCoords(points[r]));
    assert dist(c, q) == 0.0;
  }

  /** A route along the parallel of latitude 0, from longitude 0 to `2 * step` in two equal legs. */
  function ParallelRoute(step: real): seq<HikePoint>
  {
    [HikePoint(0.0, 0.0, 0.0), HikePoint(0.0, step, 0.0), HikePoint(0.0, 2.0 * step, 0.0)]
  }

  /** A click half way along the first leg of `ParallelRoute(step)`. */
  function MidFirstLeg(step: real): Coords
  {
    (0.0, step / 2.0)
  }

  /** Segment `i` read off as the segment from `a` to `b`, on which `c` projects to `q`. */
  lemma SegmentDistanceOf(points: seq<HikePoint>, c: Coords, dist: Distance,
                          segEnd: HikePoint -> Coords, i: nat, a: Coords, b: Coords, q: Coords)
    requires i + 1 < |points|
    requires WaypointCoords(points[i]) == a && segEnd(points[i + 1]) == b
    requires ProjectPointOnSegment(c, a, b) == q
    ensures SegmentDistance(points, c, dist, segEnd, i) == dist(c, q)
  {
  }

  /** As written, the first segment runs from (0, 0) to (0, 0), so it is as far as (0, 0) from the click. */
  lemma AsWrittenFirstSegment(step: real, dist: Distance)
    ensures SegmentDistance(ParallelRoute(step), MidFirstLeg(step), dist, SegmentEndAsWritten, 0) == dist(MidFirstLeg(step), (0.0, 0.0))
  {
    var o := (0.0, 0.0);
    assert ProjectPointOnSegment(MidFirstLeg(step), o, o) == o;
    SegmentDistanceOf(ParallelRoute(step), MidFirstLeg(step), dist, SegmentEndAsWritten, 0, o, o, o);
  }

  /** As written, the second segment runs from (0, step) back to (0, 0), through the click. */
  lemma AsWrittenSecondSegment(step: real, dist: Distance)
    ensures SegmentDistance(ParallelRoute(step), MidFirstLeg(step), dist, SegmentEndAsWritten, 1)
            == dist(MidFirstLeg(step), MidFirstLeg(step))
  {
    var o, w1 := (0.0, 0.0), (0.0, step);
    assert MidFirstLeg(step) == Lerp(w1, o, 0.5);
    ProjectionFixesSegmentPoints(w1, o, 0.5);
    SegmentDistanceOf(ParallelRoute(step), MidFirstLeg(step), dist, SegmentEndAsWritten, 1, w1, o, MidFirstLeg(step));
  }

  /** As intended, the first segment runs from (0, 0) to (0, step), through the click. */
  lemma IntendedFirstSegment(step: real, dist: Distance)
    ensures SegmentDistance(ParallelRoute(step), MidFirstLeg(step), dist, WaypointCoords, 0)
            == dist(MidFirstLeg(step), MidFirstLeg(step))
  {
    var o, w1 := (0.0, 0.0), (0.0, step);
    assert MidFirstLeg(step) == Lerp(o, w1, 0.5);
    ProjectionFixesSegmentPoints(o, w1, 0.5);
    SegmentDistanceOf(ParallelRoute(step), MidFirstLeg(step), dist, WaypointCoords, 0, o, w1, MidFirstLeg(step));
  }

  /** As intended, the second segment runs from (0, step) to (0, 2 step); the click, behind it, projects onto its start. */
  lemma IntendedSecondSegment(step: real, dist: Distance)
    requires step > 0.0
    ensures SegmentDistance(ParallelRoute(step), MidFirstLeg(step), dist, WaypointCoords, 1)
            == dist(MidFirstLeg(step), (0.0, step))
  {
    var c, w1, w2 := MidFirstLeg(step), (0.0, step), (0.0, 2.0 * step);
    ProjectionAsLerp(c, w1, w2);
    assert Sub(c, w1) == (0.0, -(step / 2.0)) && Sub(w2, w1) == (0.0, step);
    MulPositive(step / 2.0, step);
    assert Dot(Sub(c, w1), Sub(w2, w1)) == -Mul(step / 2.0, step);
    assert Clamp01(Dot(Sub(c, w1), Sub(w2, w1)) / Dot(Sub(w2, w1), Sub(w2, w1))) == 0.0;
    assert Lerp(w1, w2, 0.0) == w1;
    SegmentDistanceOf(ParallelRoute(step), c, dist, WaypointCoords, 1, w1, w2, w1);
  }

  /**
   * The component inserts a click that lies on the first leg of `ParallelRoute(step)` after
   * the second waypoint (index 2), between two waypoints whose segment does not contain it,
   * so the edited route doubles back from `step` to `step / 2` and on to `2 * step`; with
   * the intended segment ends the click goes to index 1, between the ends of its own leg.
   * Of the distance it needs only that the click is at distance 0 from itself, at a positive
   * distance from (0, 0) and at no negative distance from (0, step); the great-circle
   * distance meets these for every `step` in (0, 720).
   */
  lemma AsWrittenInsertionDetours(step: real, dist: Distance)
    requires step > 0.0
    requires dist(MidFirstLeg(step), MidFirstLeg(step)) == 0.0
    requires dist(MidFirstLeg(step), (0.0, 0.0)) > 0.0
    requires dist(MidFirstLeg(step), (0.0, step)) >= 0.0
    ensures OnSegment(MidFirstLeg(step), WaypointCoords(ParallelRoute(step)[0]), WaypointCoords(ParallelRoute(step)[1]))
    ensures InsertionIndex(ParallelRoute(step), MidFirstLeg(step), dist) == 2
    ensures !OnSegment(MidFirstLeg(step), WaypointCoords(ParallelRoute(step)[1]), WaypointCoords(ParallelRoute(step)[2]))
    ensures IntendedInsertionIndex(ParallelRoute(step), MidFirstLeg(step), dist) == 1
  {
    var w0, w1, w2 := (0.0, 0.0), (0.0, step), (0.0, 2.0 * step);
    var c := MidFirstLeg(step);
    assert c == Lerp(w0, w1, 0.5);
    AsWrittenFirstSegment(step, dist);
    AsWrittenSecondSegment(step, dist);
    IntendedFirstSegment(step, dist);
    IntendedSecondSegment(step, dist);
    if OnSegment(c, w1, w2) {
      var t :| 0.0 <= t <= 1.0 && c == Lerp(w1, w2, t);
      LerpBetween(w1, w2, t);
      assert false;
    }
  }

  // ---------------------------------------------------------------------------
  // The component
  // ---------------------------------------------------------------------------

  /** The state of `HikeMapComponent` that its editing operations read and write. */
  class HikeMapComponent {
    var points: seq<HikePoint>
    var positiveElevationGain: real
    var negativeElevationGain: real
    var distance: real

    /** The component starts with three waypoints near Annecy and an empty summary. */
    constructor ()
      ensures points == [HikePoint(45.621093, 6.052332, 0.0),
                         HikePoint(45.694522, 6.252326, 0.0),
                         HikePoint(45.755622, 6.252326, 0.0)]
      ensures positiveElevationGain == 0.0 && negativeElevationGain == 0.0 && distance == 0.0
    {
      points := [HikePoint(45.621093, 6.052332, 0.0),
                 HikePoint(45.694522, 6.252326, 0.0),
                 HikePoint(45.755622, 6.252326, 0.0)];
      positiveElevationGain := 0.0;
      negativeElevationGain := 0.0;
      distance := 0.0;
    }

    /** `deletePoint`: keeps every waypoint whose index differs from `id`. */
    method DeletePoint(id: int)
      modifies this`points
      ensures points == WithoutIndex(old(points), id)
      ensures 0 <= id < |old(points)| ==> points == old(points)[..id] + old(points)[id + 1..]
      ensures !(0 <= id < |old(points)|) ==> points == old(points)
    {
      WithoutIndexRemovesOne(points, id);
      points := WithoutIndex(points, id);
    }

    /**
     * `addPoint`: a null position changes nothing; otherwise the position, with elevation 0,
     * is spliced in right after the segment nearest to it.
     */
    method AddPoint(coordinates: Option<Coords>, dist: Distance)
      modifies this`points
      ensures coordinates.None? ==> points == old(points)
      ensures coordinates.Some? ==>
                points == Inserted(old(points), InsertionIndex(old(points), coordinates.value, dist),
                                   NewPoint(coordinates.value))
    {
      if coordinates.Some? {
        var c := coordinates.value;
        var point := NewPoint(c);

        var minimalSegmentIndex := -1;
        var minimalDistance: Option<real> := None;

        var i := 0;
        while i < |points| - 1
          invariant points == old(points)
          invariant 0 <= i && (i == 0 || i <= |points| - 1)
          invariant ScanSoFar(points, c, dist, i, minimalSegmentIndex, minimalDistance)
        {
          var pointOnSegment := ProjectPointOnSegment(
            c,
            (points[i].latitude, points[i].longitude),
            (points[i + 1].latitude, points[i + 1].latitude));
          var d := dist(c, pointOnSegment);
          assert d == SegmentDistance(points, c, dist, SegmentEndAsWritten, i);
          ScanStep(points, c, dist, i, minimalSegmentIndex, minimalDistance);

          if minimalDistance.None? {
            minimalDistance := Some(d);
            minimalSegmentIndex := i;
          } else {
            if d < minimalDistance.value {
              minimalDistance := Some(d);
              minimalSegmentIndex := i;
            }
          }
          i := i + 1;
        }
        ScanResult(points, c, dist, i, minimalSegmentIndex, minimalDistance);

        points := points[..minimalSegmentIndex + 1] + [point] + points[minimalSegmentIndex + 1..];
      }
    }

    /** `updatePoint`: moves waypoint `index` to a new position and keeps its elevation. */
    method UpdatePoint(index: nat, newPosition: Coords)
      requires index < |points|
      modifies this`points
      ensures |points| == |old(points)|
      ensures points[index] == old(points)[index].(latitude := newPosition.0, longitude := newPosition.1)
      ensures forall j :: 0 <= j < |points| && j != index ==> points[j] == old(points)[j]
    {
      points := points[index := points[index].(latitude := newPosition.0)];
      points := points[index := points[index].(longitude := newPosition.1)];
    }

    /**
     * The synchronous part of `onDeleteButtonClick`: no id, no change; otherwise the waypoint
     * is deleted and, when at most one waypoint is left, the summary is cleared. With more
     * waypoints left the summary is refreshed later, by the route request's callback.
     */
    method OnDeleteButtonClick(id: Option<int>)
      modifies this
      ensures id.None? ==> points == old(points)
      ensures id.Some? ==> points == WithoutIndex(old(points), id.value)
      ensures id.Some? && |points| <= 1 ==>
                distance == 0.0 && positiveElevationGain == 0.0 && negativeElevationGain == 0.0
      ensures id.None? || |points| > 1 ==>
                distance == old(distance) &&
                positiveElevationGain == old(positiveElevationGain) &&
                negativeElevationGain == old(negativeElevationGain)
    {
      if id.None? {
        return;
      }
      DeletePoint(id.value);

      if |points| <= 1 {
        distance := 0.0;
        positiveElevationGain := 0.0;
        negativeElevationGain := 0.0;
      }
    }
  }
}
