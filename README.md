# Hike map waypoint editing, modelled in Dafny

This project models the waypoint-editing core of the hike planner's map component
(`HikeMapComponent`) and the planar geometry it relies on.

- **Route state.** A route is an ordered list of waypoints (`HikePoint`: latitude,
  longitude, elevation). The component also keeps a route summary: distance, positive and
  negative elevation gain.
- **Adding a point.** The scan runs over consecutive waypoint pairs. For each pair, the
  clicked position is projected onto a segment that starts at the first waypoint. That
  segment ends at the point built from the next waypoint's latitude taken twice, not at the
  next waypoint itself (see "## Findings"). The map library's distance (Leaflet's
  `distanceTo`) measures how far each projection is. The new waypoint, with elevation 0, is
  spliced in right after the first of the nearest such segments. With fewer than two
  waypoints there is no segment, and it goes to index 0.
- **Deleting, moving, clearing.** A waypoint can be deleted by index or moved. When a
  deletion leaves at most one waypoint, the summary is cleared.
- **Geometry service.** The projection of a point onto a segment (clamped orthogonal
  projection, in a flat plane). The bounding box of a route (running minimum and maximum
  from +∞ / −∞).

Files:

- `hike.dfy`: `Wrappers` (the `Option` used where TypeScript passes `T | null`) and `Hike`
  (the waypoint type).
- `refuges_info.dfy`: module `RefugesInfo`, the projection with its optimality, fixed-point
  and idempotence lemmas, and `createBbox` as a loop proved against the function `BoundsOf`.
- `hike_map.dfy`: module `HikeMap`, the component as a class whose methods reassign its
  `points` and summary fields. It also holds the insertion planner as functions (the
  specification of `addPoint`'s loop) and the splice/filter lemmas.

Numbers are idealised as mathematical reals. The map library's great-circle distance is a
parameter `dist` of every operation that uses it.

## Model

| member | source | states |
|---|---|---|
| RefugesInfo.ProjectPointOnSegment | src/app/services/refuges-info.ts:40-74 | the result lies on the closed segment [a, b], each coordinate between those of the two ends, and a zero-length segment yields `a`; the component's private copy (src/app/hike-map/hike-map.ts:281-315) is the same computation and is modelled by this definition |
| RefugesInfo.ProjectionAsLerp | src/app/services/refuges-info.ts:56-73 | for a proper segment, AB·AB > 0 and the result is A + t·AB with t = (AP·AB)/(AB·AB) clamped into [0, 1] |
| RefugesInfo.ProjectionIsClosest | src/app/services/refuges-info.ts:40-74 | no point of the segment is nearer to p (planar squared distance) than the returned point: it is the nearest point of the segment |
| RefugesInfo.ProjectionFixesSegmentPoints | src/app/services/refuges-info.ts:62-73 | a point already on the segment is returned unchanged |
| RefugesInfo.ProjectionFixesEndpoints | src/app/services/refuges-info.ts:57-73 | each end of the segment projects onto itself |
| RefugesInfo.ProjectionIdempotent | src/app/services/refuges-info.ts:40-74 | projecting the projection again gives the same point |
| RefugesInfo.CreateBbox | src/app/services/refuges-info.ts:76-86 | the loop's four running values equal `BoundsOf(points)`, the box folded over the points from first to last starting at (+∞, +∞, −∞, −∞) |
| RefugesInfo.BoundsOfIsTight | src/app/services/refuges-info.ts:77-85 | for a non-empty list all four bounds are finite, every point lies inside the box, and each bound is the coordinate of some listed point |
| RefugesInfo.BoundsOfEmptyIffNoPoints | src/app/services/refuges-info.ts:77-85 | the box is (+∞, +∞, −∞, −∞) if and only if the list is empty |
| RefugesInfo.BoundsOfDependsOnlyOnElements | src/app/services/refuges-info.ts:79-84 | two lists with the same points (in any order, with any repetition) have the same box |
| RefugesInfo.BoundsOfPermutation | src/app/services/refuges-info.ts:79-84 | reordering the points leaves the box unchanged |
| HikeMap.Inserted | src/app/hike-map/hike-map.ts:195 | `splice(k, 0, x)`: one element longer, elements before `k` kept, `x` at `k`, the rest shifted by one |
| HikeMap.WithoutIndexRemovesOne | src/app/hike-map/hike-map.ts:149-152 | the index filter removes exactly the element at `id` and keeps the others in order; an out-of-range `id` removes nothing |
| HikeMap.DeleteUndoesInsert | src/app/hike-map/hike-map.ts:149-152 | deleting the index a point was just spliced in at restores the route |
| HikeMap.NearestSegment | src/app/hike-map/hike-map.ts:164-191 | the scan's winner among the first `n` segments is at least as near as each of them and strictly nearer than every earlier one (ties keep the first) |
| HikeMap.InsertionIndexWith | src/app/hike-map/hike-map.ts:164-195 | with fewer than two waypoints the point goes to index 0; otherwise to an index in [1, length), right after a nearest segment that is strictly nearer than all segments before it |
| HikeMap.ScanStep | src/app/hike-map/hike-map.ts:179-187 | one more segment of the scan keeps the scan's state: the segment takes over when nothing is chosen yet or when it is strictly nearer than the current winner, and otherwise the winner stays |
| HikeMap.ScanResult | src/app/hike-map/hike-map.ts:164-195 | once every segment has been seen, the splice index `minimalSegmentIndex + 1` is `InsertionIndex`: 0 when there is no segment, otherwise one past the first nearest segment |
| HikeMap.IntendedInsertionKeepsClickOnRoute | src/app/hike-map/hike-map.ts:167-195 | with segments ending at the next waypoint, a click lying on the route is inserted between two consecutive waypoints whose segment contains it |
| HikeMap.AsWrittenInsertionDetours | src/app/hike-map/hike-map.ts:171 | on a straight two-leg route, a click in the middle of the first leg is inserted after the second waypoint, between two waypoints whose segment does not contain it, while the intended segment ends put it at index 1; this holds for every distance that is 0 from the click to itself, positive from the click to the route's start and non-negative from the click to the second waypoint |
| HikeMap.HikeMapComponent.constructor | src/app/hike-map/hike-map.ts:54-62 | three initial waypoints at the listed coordinates with elevation 0, and a zero summary |
| HikeMap.HikeMapComponent.DeletePoint | src/app/hike-map/hike-map.ts:149-154 | the waypoints become the old list without index `id`; an out-of-range `id` changes nothing |
| HikeMap.HikeMapComponent.AddPoint | src/app/hike-map/hike-map.ts:156-200 | a null position changes nothing; otherwise the new waypoint (elevation 0) is spliced in at `InsertionIndex`, the index the nearest-segment scan chooses with the segment ends as written |
| HikeMap.HikeMapComponent.UpdatePoint | src/app/hike-map/hike-map.ts:235-238 | waypoint `index` gets the new latitude and longitude and keeps its elevation; every other waypoint and the length are unchanged |
| HikeMap.HikeMapComponent.OnDeleteButtonClick | src/app/hike-map/hike-map.ts:129-147 | a null id changes nothing; otherwise the waypoint is deleted, the summary is zeroed when at most one waypoint is left, and is otherwise left for the route callback |

## Left out

- Leaflet rendering: the map, markers, polyline, `refreshMarkers`, `drawRoute` and the context menu signals. They only display the route.
- The routing requests (`getRoute`, `RoutingService`) and their asynchronous callbacks. They set the summary from a remote service's reply some time later, so races between overlapping requests are not modelled.
- HikeMap.HikeMapComponent.OnDeleteButtonClick: with more than one waypoint left, the model only states that the summary is unchanged when the method returns. The later update by the route callback is not modelled.
- `distanceTo` is a parameter. The great-circle formula of the map library is not part of this model.
- HikeMap.IntendedInsertionKeepsClickOnRoute: assumes a distance that is never negative and is 0 only between equal coordinate pairs. This is an idealisation. The great-circle distance is also 0 between different pairs that name the same place: any two points at latitude ±90, or longitudes 360 apart. The lemma does not cover routes or clicks that involve such pairs.
- JavaScript doubles (rounding, NaN, overflow) are idealised as reals. `ab2 === 0` is therefore exact: a segment whose squared length underflows to 0 is not distinguished.
- HikeMap.HikeMapComponent.UpdatePoint: requires an index in range. With an out-of-range index the source would throw a `TypeError`; the component only calls it with marker indices.
- Aliasing: the source mutates the shared `HikePoint` object in place. The model treats waypoints as values, so another holder of the same object would not see the change.
- HikeMap.HikeMapComponent.DeletePoint: ids are integers. A non-integer JavaScript number never equals an index, so it would remove nothing; that case is not modelled.
- `getDataFromBbox` and the HTTP services (`HikeService`, the refuges.info request) do network I/O and are not part of this model.
- The callers of the modelled operations are left out. `onAddButtonClick` (src/app/hike-map/hike-map.ts:118-127) calls `addPoint`, hides the context menu and requests a new route. The template's delete button (line 17) calls `onDeleteButtonClick`. `onMarkerDragEnd` (lines 224-233) calls `updatePoint` and requests a new route. Each of these requests is an asynchronous route call, as above.
- `ngAfterViewInit` (lines 66-79) creates the map and requests the route of the initial waypoints. Its callback writes the summary fields. It calls none of the modelled operations and is left out with the other route requests.
- The map's `contextmenu` handler (line 85) only opens the context menu and is left out with the rest of the user interface.

## Findings

| source | as written | input that shows it | evidently intended | confidence | as-written member | corrected member |
|---|---|---|---|---|---|---|
| src/app/hike-map/hike-map.ts:171 | each segment's end is `[latitude, latitude]` of the next waypoint | waypoints (0, 0), (0, s), (0, 2s) with 0 < s < 720 and a click at (0, s/2): the click is inserted at index 2, so the route goes (0, s) → (0, s/2) → (0, 2s) and doubles back | segment end `[latitude, longitude]`, which inserts the click at index 1, on its own segment | not executed | HikeMap.AsWrittenInsertionDetours | HikeMap.IntendedInsertionKeepsClickOnRoute |

The counterexample needs three facts about the distance: the click is at distance 0 from
itself, at a positive distance from (0, 0), and at no negative distance from (0, s). The
great-circle distance meets them for 0 < s < 720. At s = 720 the click (0, 360) is the same
place as (0, 0), so both as-written segments tie at 0 and the click goes to index 1. The
component's `AddPoint` keeps the behaviour as written. The corrected planner is
`HikeMap.IntendedInsertionIndex`, the same scan with segments ending at the next waypoint.
