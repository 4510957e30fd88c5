/**
 Rally waypoints (package `waypoint`): the seven typed constructors, each
 fixing a visibility and validation policy, and `Validate`, which decides
 whether a position fix reaches a waypoint by comparing coordinates rounded
 to three decimals.
 */
module Waypoints {
  import Maths

  /** haversine.Coord: a latitude and a longitude in decimal degrees. */
  datatype Coord = Coord(lat: real, lon: real)

  /** waypoint.Waypoint, its fields in the order of the Go struct. Radii are in meters. */
  datatype Waypoint = Waypoint(
    id: int,
    visibleId: bool,
    coordinates: Coord,
    visibleCoords: bool,
    visibilityRadius: int,
    validated: bool,
    validationRadius: int)

  /** The radius invariant every constructor establishes. */
  predicate WellFormed(w: Waypoint) {
    w.validationRadius > 0 && w.visibilityRadius >= 0
  }

  /** A freshly built waypoint: the given identity and position, not yet validated, well formed. */
  predicate FreshFrom(w: Waypoint, id: int, coordinates: Coord) {
    w.id == id && w.coordinates == coordinates && !w.validated && WellFormed(w)
  }

  // ---------------------------------------------------------------------
  // Constructors
  // ---------------------------------------------------------------------

  /** WPV: everything shown on the GPS at all times; validated within 200 m. */
  function NewVisibleWaypoint(id: int, coordinates: Coord): (w: Waypoint)
    ensures FreshFrom(w, id, coordinates)
    ensures w.visibleId && w.visibleCoords
    ensures w.visibilityRadius == 0 && w.validationRadius == 200
  {
    Waypoint(id, true, coordinates, true, 0, false, 200)
  }

  /** WPE: hidden, revealed within 1000 m; validated within 90 m. */
  function NewEclipseWaypoint(id: int, coordinates: Coord): (w: Waypoint)
    ensures FreshFrom(w, id, coordinates)
    ensures !w.visibleId && !w.visibleCoords
    ensures w.visibilityRadius == 1000 && w.validationRadius == 90
  {
    Waypoint(id, false, coordinates, false, 1000, false, 90)
  }

  /** WPM: hidden, directed to within 800 m; validated within 90 m. */
  function NewMaskedWaypoint(id: int, coordinates: Coord): (w: Waypoint)
    ensures FreshFrom(w, id, coordinates)
    ensures !w.visibleId && !w.visibleCoords
    ensures w.visibilityRadius == 800 && w.validationRadius == 90
  {
    Waypoint(id, false, coordinates, false, 800, false, 90)
  }

  /** WPS: safety point, hidden, directed to within 1000 m; validated within 30 m. */
  function NewSecurityWaypoint(id: int, coordinates: Coord): (w: Waypoint)
    ensures FreshFrom(w, id, coordinates)
    ensures !w.visibleId && !w.visibleCoords
    ensures w.visibilityRadius == 1000 && w.validationRadius == 30
  {
    Waypoint(id, false, coordinates, false, 1000, false, 30)
  }

  /** WPC: order and name shown, no navigation aid; validated within 300 m. */
  function NewControlWaypoint(id: int, coordinates: Coord): (w: Waypoint)
    ensures FreshFrom(w, id, coordinates)
    ensures w.visibleId && !w.visibleCoords
    ensures w.visibilityRadius == 0 && w.validationRadius == 300
  {
    Waypoint(id, true, coordinates, false, 0, false, 300)
  }

  /** WPP: number shown only in the road book's list; validated within 300 m. */
  function NewPreciseWaypoint(id: int, coordinates: Coord): (w: Waypoint)
    ensures FreshFrom(w, id, coordinates)
    ensures w.visibleId && !w.visibleCoords
    ensures w.visibilityRadius == 0 && w.validationRadius == 300
  {
    Waypoint(id, true, coordinates, false, 0, false, 300)
  }

  /** WPN: hidden, directed to within 800 m; validated within 200 m. */
  function NewNavigationWaypoint(id: int, coordinates: Coord): (w: Waypoint)
    ensures FreshFrom(w, id, coordinates)
    ensures !w.visibleId && !w.visibleCoords
    ensures w.visibilityRadius == 800 && w.validationRadius == 200
  {
    Waypoint(id, false, coordinates, false, 800, false, 200)
  }

  /** The seven waypoint types, one per constructor. */
  datatype Kind = Visible | Eclipse | Masked | Security | Control | Precise | Navigation

  /** Dispatch to the constructor of the given type. */
  function New(kind: Kind, id: int, coordinates: Coord): (w: Waypoint) {
    match kind
    case Visible => NewVisibleWaypoint(id, coordinates)
    case Eclipse => NewEclipseWaypoint(id, coordinates)
    case Masked => NewMaskedWaypoint(id, coordinates)
    case Security => NewSecurityWaypoint(id, coordinates)
    case Control => NewControlWaypoint(id, coordinates)
    case Precise => NewPreciseWaypoint(id, coordinates)
    case Navigation => NewNavigationWaypoint(id, coordinates)
  }

  /** Every constructor copies the identity and position, starts unvalidated and keeps the radius invariant. */
  lemma NewIsFresh(kind: Kind, id: int, coordinates: Coord)
    ensures FreshFrom(New(kind, id, coordinates), id, coordinates)
  {
  }

  /** Only ID-visible waypoints may show their coordinates, and only they are directed from any distance. */
  lemma NewVisibilityPolicy(kind: Kind, id: int, coordinates: Coord)
    ensures New(kind, id, coordinates).visibleCoords ==> New(kind, id, coordinates).visibleId
    ensures New(kind, id, coordinates).visibleId <==> New(kind, id, coordinates).visibilityRadius == 0
  {
  }

  /**
   Two types give the same record exactly when they are the same type or are
   Control and Precise, whose policies coincide.
   */
  lemma NewDistinguishesKinds(k1: Kind, k2: Kind, id: int, coordinates: Coord)
    ensures New(k1, id, coordinates) == New(k2, id, coordinates)
      <==> k1 == k2 || {k1, k2} == {Control, Precise}
  {
  }

  // ---------------------------------------------------------------------
  // Validate
  // ---------------------------------------------------------------------

  /** The 3-decimal rounded positions agree on both axes. */
  predicate SameRoundedPosition(a: Coord, b: Coord, roundTo3Decimals: Coord -> Coord) {
    roundTo3Decimals(a).lat == roundTo3Decimals(b).lat
    && roundTo3Decimals(a).lon == roundTo3Decimals(b).lon
  }

  /**
   (*Waypoint).Validate. `roundTo3Decimals` stands for
   coordinates.RoundTo3Decimals, whose package is not part of this model.
   The result is a new record holding only the id, the coordinates and the
   verdict; every other field takes Go's zero value.
   */
  function Validate(w: Waypoint, coords: Coord, roundTo3Decimals: Coord -> Coord): (r: Waypoint)
    ensures r.validated <==> SameRoundedPosition(coords, w.coordinates, roundTo3Decimals)
    ensures r.id == w.id && r.coordinates == w.coordinates
    ensures !r.visibleId && !r.visibleCoords && r.visibilityRadius == 0 && r.validationRadius == 0
  {
    var roundedRefCoords := roundTo3Decimals(w.coordinates);
    var roundedCoords := roundTo3Decimals(coords);
    if roundedCoords.lat == roundedRefCoords.lat && roundedCoords.lon == roundedRefCoords.lon then
      Waypoint(w.id, false, w.coordinates, false, 0, true, 0)
    else
      Waypoint(w.id, false, w.coordinates, false, 0, false, 0)
  }

  /** A fix at the waypoint's own coordinates always validates it, whatever the rounding. */
  lemma ValidateAtOwnCoordinates(w: Waypoint, roundTo3Decimals: Coord -> Coord)
    ensures Validate(w, w.coordinates, roundTo3Decimals).validated
  {
  }

  /** The verdict is symmetric: swapping the reference and the fix does not change it. */
  lemma ValidateSymmetric(w: Waypoint, coords: Coord, roundTo3Decimals: Coord -> Coord)
    ensures Validate(w, coords, roundTo3Decimals).validated
        == Validate(w.(coordinates := coords), w.coordinates, roundTo3Decimals).validated
  {
  }

  /** Two fixes that round alike get the same result. */
  lemma ValidateDependsOnRoundedFix(w: Waypoint, c1: Coord, c2: Coord, roundTo3Decimals: Coord -> Coord)
    requires roundTo3Decimals(c1) == roundTo3Decimals(c2)
    ensures Validate(w, c1, roundTo3Decimals) == Validate(w, c2, roundTo3Decimals)
  {
  }

  /**
   The result depends on the receiver only through its id and coordinates, so
   validating an already validated record again simply re-decides: a later
   failing fix resets the verdict to false, and repeating a fix changes nothing.
   */
  lemma RevalidateForgetsVerdict(w: Waypoint, c1: Coord, c2: Coord, roundTo3Decimals: Coord -> Coord)
    ensures Validate(Validate(w, c1, roundTo3Decimals), c2, roundTo3Decimals) == Validate(w, c2, roundTo3Decimals)
    ensures Validate(Validate(w, c1, roundTo3Decimals), c1, roundTo3Decimals) == Validate(w, c1, roundTo3Decimals)
  {
  }

  // ---------------------------------------------------------------------
  // Validate under a rounding rule of bounded error
  // ---------------------------------------------------------------------

  /** Every coordinate moves by at most `e` degrees on each axis under the rule. */
  ghost predicate MovesAtMost(roundTo3Decimals: Coord -> Coord, e: real) {
    forall c :: Maths.Abs(roundTo3Decimals(c).lat - c.lat) <= e
             && Maths.Abs(roundTo3Decimals(c).lon - c.lon) <= e
  }

  /**
   For any rounding rule that moves a coordinate by at most `e`, a fix that
   validates lies within `2e` of the waypoint on each axis: both round to the
   same point, and each is within `e` of it.
   */
  lemma ValidatedFixIsNear(w: Waypoint, coords: Coord, roundTo3Decimals: Coord -> Coord, e: real)
    requires MovesAtMost(roundTo3Decimals, e)
    requires Validate(w, coords, roundTo3Decimals).validated
    ensures Maths.Abs(coords.lat - w.coordinates.lat) <= 2.0 * e
    ensures Maths.Abs(coords.lon - w.coordinates.lon) <= 2.0 * e
  {
    var a, b := roundTo3Decimals(coords), roundTo3Decimals(w.coordinates);
    assert a.lat == b.lat && a.lon == b.lon;
  }

  /*
   The rule of coordinates.RoundTo3Decimals is not part of this model. Two
   candidate rules follow, maths.Round and maths.Truncate to three decimals
   on each axis; every lemma below is proved for both.
   */

  /** Rounding each axis to the nearest thousandth of a degree. */
  function RoundCoordTo3Decimals(c: Coord): (r: Coord)
    ensures Maths.Abs(r.lat - c.lat) <= 0.0005 && Maths.Abs(r.lon - c.lon) <= 0.0005
  {
    Maths.RoundError(c.lat, 3);
    Maths.RoundError(c.lon, 3);
    assert Maths.Pow10(3) == 1000.0;
    Coord(Maths.Round(c.lat, 3), Maths.Round(c.lon, 3))
  }

  /** Cutting each axis down, toward zero, to a whole thousandth of a degree. */
  function TruncateCoordTo3Decimals(c: Coord): (r: Coord)
    ensures Maths.Abs(r.lat - c.lat) < 0.001 && Maths.Abs(r.lon - c.lon) < 0.001
  {
    Maths.TruncateTowardZero(c.lat, 0.001);
    Maths.TruncateTowardZero(c.lon, 0.001);
    Coord(Maths.Truncate(c.lat, 0.001), Maths.Truncate(c.lon, 0.001))
  }

  /** Under either rule a validating fix is close: 0.001 degree when rounding, 0.002 when truncating. */
  lemma ValidatedFixIsNearUnderBothRules(w: Waypoint, coords: Coord)
    ensures Validate(w, coords, RoundCoordTo3Decimals).validated ==>
      Maths.Abs(coords.lat - w.coordinates.lat) <= 0.001 && Maths.Abs(coords.lon - w.coordinates.lon) <= 0.001
    ensures Validate(w, coords, TruncateCoordTo3Decimals).validated ==>
      Maths.Abs(coords.lat - w.coordinates.lat) <= 0.002 && Maths.Abs(coords.lon - w.coordinates.lon) <= 0.002
  {
    if Validate(w, coords, RoundCoordTo3Decimals).validated {
      ValidatedFixIsNear(w, coords, RoundCoordTo3Decimals, 0.0005);
    }
    if Validate(w, coords, TruncateCoordTo3Decimals).validated {
      ValidatedFixIsNear(w, coords, TruncateCoordTo3Decimals, 0.001);
    }
  }

  /** The example of waypoint_test.go: (1.123456, 78.901234) is validated by the fix (1.123, 78.901), under either rule. */
  lemma ValidateTestExample()
    ensures Validate(Waypoint(0, false, Coord(1.123456, 78.901234), false, 0, false, 0),
                     Coord(1.123, 78.901), RoundCoordTo3Decimals).validated
    ensures Validate(Waypoint(0, false, Coord(1.123456, 78.901234), false, 0, false, 0),
                     Coord(1.123, 78.901), TruncateCoordTo3Decimals).validated
  {
    assert Maths.Pow10(3) == 1000.0;
  }

  /**
   A fix that rounds to the same (47.123, 73.123) validates the waypoint at
   (47.123456, 73.123456); one a thousandth of a degree north does not. Both
   hold under either rule.
   */
  lemma ValidateNearbyExamples()
    ensures Validate(NewVisibleWaypoint(0, Coord(47.123456, 73.123456)),
                     Coord(47.123499, 73.123401), RoundCoordTo3Decimals).validated
    ensures !Validate(NewVisibleWaypoint(0, Coord(47.123456, 73.123456)),
                      Coord(47.124, 73.123456), RoundCoordTo3Decimals).validated
    ensures Validate(NewVisibleWaypoint(0, Coord(47.123456, 73.123456)),
                     Coord(47.123499, 73.123401), TruncateCoordTo3Decimals).validated
    ensures !Validate(NewVisibleWaypoint(0, Coord(47.123456, 73.123456)),
                      Coord(47.124, 73.123456), TruncateCoordTo3Decimals).validated
  {
    assert Maths.Pow10(3) == 1000.0;
  }

  // ---------------------------------------------------------------------
  // Validate keeping the waypoint's policy
  // ---------------------------------------------------------------------

  /**
   Validate as written does not keep the radius invariant the constructors
   establish: validating a fresh WPV yields a record with validation radius 0
   and with its ID and coordinates no longer shown.
   */
  lemma ValidateDropsPolicy(id: int, c: Coord, roundTo3Decimals: Coord -> Coord)
    ensures WellFormed(NewVisibleWaypoint(id, c))
    ensures !WellFormed(Validate(NewVisibleWaypoint(id, c), c, roundTo3Decimals))
    ensures Validate(NewVisibleWaypoint(id, c), c, roundTo3Decimals)
         != NewVisibleWaypoint(id, c).(validated := true)
  {
  }

  /** The intended update: the same verdict as Validate, every other field of the receiver kept. */
  function ValidateKeepingPolicy(w: Waypoint, coords: Coord, roundTo3Decimals: Coord -> Coord): (r: Waypoint)
    ensures r.validated <==> SameRoundedPosition(coords, w.coordinates, roundTo3Decimals)
    ensures r.(validated := w.validated) == w
  {
    w.(validated := SameRoundedPosition(coords, w.coordinates, roundTo3Decimals))
  }

  /** It agrees with Validate on everything Validate keeps, and it preserves the radius invariant. */
  lemma ValidateKeepingPolicyAgrees(w: Waypoint, coords: Coord, roundTo3Decimals: Coord -> Coord)
    ensures var r := ValidateKeepingPolicy(w, coords, roundTo3Decimals);
      var v := Validate(w, coords, roundTo3Decimals);
      r.id == v.id && r.coordinates == v.coordinates && r.validated == v.validated
    ensures WellFormed(w) ==> WellFormed(ValidateKeepingPolicy(w, coords, roundTo3Decimals))
  {
  }
}
