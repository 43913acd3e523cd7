/** Local decoding agrees with global decoding and inverts the encoder near the reference. */
module CprAgreement {
  import opened CprArithmetic
  import opened CprLattice
  import opened Cpr
  import opened CprGlobal
  import opened Zones
  import opened CprSurface
  import opened CprRelative

  lemma InZoneAround(n: int, surface: bool, z: int, y: int, k: int)
    requires n > 0
    ensures InZone(Cell(n, surface), z + n * k, y) == InZone(Cell(n, surface), z, y) + Span(surface) * k as real
  {
    hide Point;
    InZoneIsPoint(Cell(n, surface), z, y);
    InZoneIsPoint(Cell(n, surface), z + n * k, y);
    assert SCALE * (z + n * k) + y == SCALE * z + y + SCALE * (n * k);
    PointAround(n, surface, SCALE * z + y, k);
  }

  /** A reference that is itself a candidate is found again. */
  lemma CandidateIsFound(cell: real, z: int, y: int)
    requires cell > 0.0
    ensures Nearest(InZone(cell, z, y), cell, y) == InZone(cell, z, y)
  {
    hide InZone, RelativeIndex;
    NearestIsNearest(InZone(cell, z, y), cell, y, z);
  }

  /** Decoding relative to a position with candidate coordinates returns that position. */
  lemma SelfReference(lat: real, z: int, cprlat: int, lon: real, m: int, cprlon: int, odd: bool, surface: bool)
    requires IsLatitude(lat) && lat == InZone(Cell(LatZones(odd), surface), z, cprlat)
    requires lon < 180.0 && lon == InZone(Dlon(lat, odd, surface), m, cprlon)
    ensures DecodeRelative(lat, lon, cprlat, cprlon, odd, surface) == Found(lat, lon)
  {
    hide Cell, NL, InZone, Nearest, DecodeRelative;
    CandidateIsFound(Cell(LatZones(odd), surface), z, cprlat);
    CandidateIsFound(Dlon(lat, odd, surface), m, cprlon);
    RelativeExactly(lat, lon, cprlat, cprlon, odd, surface);
  }

  /** Global airborne and local decoding agree: decoding the last frame around the position that
      global decoding produced returns that position. */
  lemma AirborneAgrees(lat0: int, lon0: int, lat1: int, lon1: int, odd: bool)
    ensures var d := DecodeAirborne(lat0, lon0, lat1, lon1, odd);
      d.Position? ==>
        DecodeRelative(d.lat, d.lon, if odd then lat1 else lat0, if odd then lon1 else lon0, odd, false)
             == Found(d.lat, d.lon)
  {
    hide Cell, NL, InZone, DecodeRelative, ModInt, Renormalize;
    var d := DecodeAirborne(lat0, lon0, lat1, lon1, odd);
    if d.Position? {
      var j := ((59 * lat0 - 60 * lat1) as real / SCALE as real + 0.5).Floor;
      var n, cprlat, cprlon := LatZones(odd), if odd then lat1 else lat0, if odd then lon1 else lon0;
      InZoneAround(n, false, ModInt(j, n), cprlat, -1);
      var z := if InZone(Cell(n, false), ModInt(j, n), cprlat) >= 270.0 then ModInt(j, n) - n else ModInt(j, n);
      assert d.lat == InZone(Cell(n, false), z, cprlat);
      var m := AirborneLongitudeIsCandidate(d.lat, lon0, lon1, odd);
      SelfReference(d.lat, z, cprlat, d.lon, m, cprlon, odd, false);
    }
  }

  lemma AirborneLongitudeIsCandidate(rlat: real, lon0: int, lon1: int, odd: bool) returns (m: int)
    ensures var lon := Renormalize(Longitude(rlat, lon0, lon1, odd, false));
      lon < 180.0 && lon == InZone(Dlon(rlat, odd, false), m, if odd then lon1 else lon0)
  {
    hide Cell, NL, N, InZone, ModInt, Renormalize;
    var nl := NL(rlat);
    var zone := ModInt(((lon0 * (nl - 1) - lon1 * nl) as real / SCALE as real + 0.5).Floor, N(rlat, odd));
    var turns := RenormalizeTurns(Longitude(rlat, lon0, lon1, odd, false));
    InZoneAround(N(rlat, odd), false, zone, if odd then lon1 else lon0, -turns);
    m := zone + N(rlat, odd) * -turns;
  }

  lemma QuadrantShifts(rlat: real, reflat: real) returns (q: int)
    ensures Quadrant(rlat, reflat) == Shifted(rlat, q)
  {
    q := if Quadrant(rlat, reflat) < rlat then -1 else if Quadrant(rlat, reflat) > rlat then 1 else 0;
  }

  /** Global surface and local decoding agree, whatever the reference of the global decoding. */
  lemma SurfaceAgrees(reflat: real, reflon: real, lat0: int, lon0: int, lat1: int, lon1: int, odd: bool)
    ensures var d := DecodeSurface(reflat, reflon, lat0, lon0, lat1, lon1, odd);
      d.Position? ==>
        DecodeRelative(d.lat, d.lon, if odd then lat1 else lat0, if odd then lon1 else lon0, odd, true)
             == Found(d.lat, d.lon)
  {
    hide Cell, NL, InZone, DecodeRelative, ModInt, Renormalize, MoveToward, Quadrant;
    var d := DecodeSurface(reflat, reflon, lat0, lon0, lat1, lon1, odd);
    if d.Position? {
      var j := ((59 * lat0 - 60 * lat1) as real / SCALE as real + 0.5).Floor;
      var n, cprlat, cprlon := LatZones(odd), if odd then lat1 else lat0, if odd then lon1 else lon0;
      var q := QuadrantShifts(InZone(Cell(n, true), ModInt(j, n), cprlat), reflat);
      InZoneAround(n, true, ModInt(j, n), cprlat, q);
      var m := SurfaceLongitudeIsCandidate(d.lat, reflon, lon0, lon1, odd);
      SelfReference(d.lat, ModInt(j, n) + n * q, cprlat, d.lon, m, cprlon, odd, true);
    }
  }

  lemma SurfaceLongitudeIsCandidate(rlat: real, reflon: real, lon0: int, lon1: int, odd: bool) returns (m: int)
    ensures var lon := Renormalize(MoveToward(reflon, Longitude(rlat, lon0, lon1, odd, true)));
      lon < 180.0 && lon == InZone(Dlon(rlat, odd, true), m, if odd then lon1 else lon0)
  {
    hide Cell, NL, N, InZone, ModInt, Renormalize, MoveToward;
    var nl := NL(rlat);
    var zone := ModInt(((lon0 * (nl - 1) - lon1 * nl) as real / SCALE as real + 0.5).Floor, N(rlat, odd));
    var raw := Longitude(rlat, lon0, lon1, odd, true);
    var q := MoveTowardIsNear(reflon, raw);
    var turns := RenormalizeTurns(MoveToward(reflon, raw));
    InZoneAround(N(rlat, odd), true, zone, if odd then lon1 else lon0, q - 4 * turns);
    m := zone + N(rlat, odd) * (q - 4 * turns);
  }

  /** The grid point that was meant is one of the candidates. */
  lemma MeantIsCandidate(v: real, n: int, surface: bool)
    requires n > 0
    ensures Meant(v, n, surface) == InZone(Cell(n, surface), Lattice(v, n, surface) / SCALE, Encode(v, n, surface))
  {
    hide Lattice, Encode, Cell;
    EncodeIsLattice(v, n, surface);
    var a := Lattice(v, n, surface);
    InZoneIsPoint(Cell(n, surface), a / SCALE, a % SCALE);
  }

  /** Local decoding inverts the encoder for every reference less than half a zone from the
      position that was meant, if and only if that position is not beyond the antimeridian. */
  lemma RelativeInvertsEncoder(lat: real, lon: real, reflat: real, reflon: real, odd: bool, surface: bool)
    requires IsLatitude(lat)
    requires var mlat := MeantLat(lat, odd, surface);
      && Abs(mlat - reflat) < Cell(LatZones(odd), surface) / 2.0
      && Abs(Meant(lon, ZonesFor(mlat, odd), surface) - reflon) < ZoneWidth(mlat, odd, surface) / 2.0
    ensures var f := EncodeFrame(lat, lon, odd, surface);
      var mlat := MeantLat(lat, odd, surface);
      var mlon := Meant(lon, ZonesFor(mlat, odd), surface);
      DecodeRelative(reflat, reflon, f.lat, f.lon, odd, surface) == if mlon <= 180.0 then Found(mlat, mlon) else GiveUp
  {
    hide Cell, NL, N, ZonesFor, InZone, Meant, Lattice, Encode, DecodeRelative, RelativeIndex;
    var f := EncodeFrame(lat, lon, odd, surface);
    var n := LatZones(odd);
    var mlat := MeantLat(lat, odd, surface);
    var ni := N(mlat, odd);
    SameZones(mlat, odd, surface);
    MeantLatitude(lat, n, surface);
    MeantIsCandidate(lat, n, surface);
    MeantIsCandidate(lon, ni, surface);
    NearestIsNearest(reflat, Cell(n, surface), f.lat, Lattice(lat, n, surface) / SCALE);
    NearestIsNearest(reflon, Cell(ni, surface), f.lon, Lattice(lon, ni, surface) / SCALE);
    RelativeExactly(reflat, reflon, f.lat, f.lon, odd, surface);
    CellIsSmall(ni, surface);
  }
}
