/** The observer's position as shown to the user: the compass direction of
    an azimuth, in eight sectors of 45 degrees starting at north, and the
    hemisphere letters of a latitude and a longitude. Degrees are exact
    reals here. */
module ObserverHelper {

  /** The eight compass points, in clockwise order from north; the first,
      fifth, third and seventh also name the hemispheres. */
  datatype Direction = North | NorthEast | East | SouthEast | South | SouthWest | West | NorthWest

  const Directions: seq<Direction> := [North, NorthEast, East, SouthEast, South, SouthWest, West, NorthWest]

  /** `degrees % 360` with Ruby's floored modulo: the result is in [0, 360)
      and differs from `degrees` by whole turns. */
  function Mod360(degrees: real): (r: real)
    ensures 0.0 <= r < 360.0
    ensures (degrees - r) / 360.0 == ((degrees - r) / 360.0).Floor as real
  {
    var turns := (degrees / 360.0).Floor;
    degrees - 360.0 * turns as real
  }

  /** `((degrees % 360) / 45).to_i % 8`: the sector of 45 degrees, counted
      clockwise from north, that holds the azimuth. Sectors start at their
      compass point rather than being centred on it. */
  function SectorIndex(degrees: real): (k: int)
    ensures 0 <= k < 8
    ensures 45.0 * k as real <= Mod360(degrees) < 45.0 * (k + 1) as real
  {
    (Mod360(degrees) / 45.0).Floor % 8
  }

  /** `cardinal_direction`. */
  function CardinalDirection(degrees: real): (d: Direction)
    ensures exists k :: (0 <= k < 8 && d == Directions[k] &&
                        45.0 * k as real <= Mod360(degrees) < 45.0 * (k + 1) as real)
  {
    Directions[SectorIndex(degrees)]
  }

  /** The sector is the one whose 45 degrees hold the azimuth, after
      removing whole turns; no other. */
  lemma SectorIff(degrees: real, k: int)
    requires 0 <= k < 8
    ensures CardinalDirection(degrees) == Directions[k] <==>
      45.0 * k as real <= Mod360(degrees) < 45.0 * (k + 1) as real
  {
    var j := SectorIndex(degrees);
    if j < k {
      assert 45.0 * (j + 1) as real <= 45.0 * k as real;
    } else if k < j {
      assert 45.0 * (k + 1) as real <= 45.0 * j as real;
    }
  }

  /** A whole turn does not change the direction. */
  lemma FullTurn(degrees: real)
    ensures Mod360(degrees + 360.0) == Mod360(degrees)
    ensures CardinalDirection(degrees + 360.0) == CardinalDirection(degrees)
  {
    var t := (degrees / 360.0).Floor;
    assert (degrees + 360.0) / 360.0 == degrees / 360.0 + 1.0;
    assert ((degrees + 360.0) / 360.0).Floor == t + 1;
  }

  /** North from 0 up to 45 degrees, 22.5 included; north-east from 45;
      north-west at 337.5; north again at 360. */
  lemma DirectionExamples()
    ensures CardinalDirection(0.0) == North && CardinalDirection(22.5) == North
    ensures CardinalDirection(45.0) == NorthEast && CardinalDirection(67.5) == NorthEast
    ensures CardinalDirection(337.5) == NorthWest && CardinalDirection(360.0) == North
  {
    assert Mod360(0.0) == 0.0;
    assert Mod360(22.5) == 22.5;
    assert Mod360(45.0) == 45.0;
    assert Mod360(67.5) == 67.5;
    assert Mod360(337.5) == 337.5;
    assert (360.0 / 360.0).Floor == 1;
    assert Mod360(360.0) == 0.0;
  }

  /** A coordinate as printed: its magnitude and a hemisphere letter. */
  datatype Coordinate = Coordinate(magnitude: real, direction: Direction)

  /** The latitude and longitude of `format_observer_coordinates`: north
      for a latitude from 0 up, south below; east for a longitude from 0
      up, west below; the magnitudes are absolute values. */
  function ObserverCoordinates(latitude: real, longitude: real): (c: (Coordinate, Coordinate))
    ensures c.0.magnitude >= 0.0 && c.1.magnitude >= 0.0
    ensures c.0.direction == North <==> latitude >= 0.0
    ensures c.0.direction == North || c.0.direction == South
    ensures c.1.direction == East <==> longitude >= 0.0
    ensures c.1.direction == East || c.1.direction == West
  {
    var lat := if latitude >= 0.0 then Coordinate(latitude, North) else Coordinate(-latitude, South);
    var lon := if longitude >= 0.0 then Coordinate(longitude, East) else Coordinate(-longitude, West);
    (lat, lon)
  }

  /** The signed degrees a printed coordinate stands for. */
  function SignedDegrees(c: Coordinate): real {
    if c.direction == South || c.direction == West then -c.magnitude else c.magnitude
  }

  /** Magnitude and hemisphere together lose nothing: they give the latitude
      and the longitude back. */
  lemma CoordinatesRoundTrip(latitude: real, longitude: real)
    ensures SignedDegrees(ObserverCoordinates(latitude, longitude).0) == latitude
    ensures SignedDegrees(ObserverCoordinates(latitude, longitude).1) == longitude
  {
  }
}
