/** The optional value the component receives where TypeScript passes `T | null`. */
module Wrappers {
  datatype Option<+T> = None | Some(value: T)
}

/** Waypoints of a hike, as declared in src/app/services/hike.ts. */
module Hike {

  /** A position as the component and Leaflet pass it around: `[latitude, longitude]`. */
  type Coords = (real, real)

  /** One waypoint of a route; JavaScript doubles are idealised as reals. */
  datatype HikePoint = HikePoint(latitude: real, longitude: real, elevation: real)

  /** The `[latitude, longitude]` pair of a waypoint. */
  function WaypointCoords(q: HikePoint): Coords
  {
    (q.latitude, q.longitude)
  }
}
