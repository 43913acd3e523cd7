/** Global surface decoding: quadrants, and the inverse of the encoder near a reference. */
module CprSurface {
  import opened CprArithmetic
  import opened CprLattice
  import opened Cpr
  import opened CprGlobal
  import opened Zones

  /** rlat moved by k quadrants. */
  function Shifted(x: real, k: int): real {
    x + 90.0 * k as real
  }

  lemma InZoneWithin(n: int, surface: bool, z: int, y: int)
    requires 0 <= z < n && 0 <= y < SCALE
    ensures 0.0 <= InZone(Cell(n, surface), z, y) < Span(surface)
  {
    var c, f := Cell(n, surface), z as real + y as real / SCALE as real;
    assert c * n as real == Span(surface);
    SignOfProduct(c, f);
    SignOfProduct(c, n as real - f);
    Distribute(c, n as real, f);
    assert n as real - f > 0.0;
    assert c * (n as real - f) > 0.0;
  }

  /** The latitude that is chosen is a latitude in a valid quadrant, and no other quadrant is
      closer to the reference. */
  lemma QuadrantIsNearest(rlat: real, reflat: real) returns (q: int)
    requires 0.0 <= rlat < 90.0
    ensures Quadrant(rlat, reflat) == Shifted(rlat, q) && IsLatitude(Quadrant(rlat, reflat))
    ensures forall k: int :: IsLatitude(Shifted(rlat, k)) ==>
      Abs(Quadrant(rlat, reflat) - reflat) <= Abs(Shifted(rlat, k) - reflat)
  {
    q := if Quadrant(rlat, reflat) < rlat then -1 else if Quadrant(rlat, reflat) > rlat then 1 else 0;
    forall k: int | IsLatitude(Shifted(rlat, k))
      ensures Abs(Quadrant(rlat, reflat) - reflat) <= Abs(Shifted(rlat, k) - reflat)
    {
      assert -1 <= k <= 1;
    }
  }

  /** A latitude less than 45 degrees from the reference is the one that is chosen. */
  lemma QuadrantOfNear(rlat: real, reflat: real, k: int)
    requires 0.0 <= rlat < 90.0 && IsLatitude(Shifted(rlat, k)) && Abs(Shifted(rlat, k) - reflat) < 45.0
    ensures Quadrant(rlat, reflat) == Shifted(rlat, k)
  {
    var q := QuadrantIsNearest(rlat, reflat);
    assert Abs(Shifted(rlat, q) - Shifted(rlat, k)) < 90.0;
    assert q == k;
  }

  /** The longitude is moved to within 45 degrees of the reference. */
  lemma MoveTowardIsNear(reflon: real, rlon: real) returns (q: int)
    ensures MoveToward(reflon, rlon) == Shifted(rlon, q)
    ensures -45.0 < MoveToward(reflon, rlon) - reflon <= 45.0
    ensures forall k: int :: Abs(MoveToward(reflon, rlon) - reflon) <= Abs(Shifted(rlon, k) - reflon)
  {
    q := ((reflon - rlon + 45.0) / 90.0).Floor;
    forall k: int ensures Abs(MoveToward(reflon, rlon) - reflon) <= Abs(Shifted(rlon, k) - reflon) {
      if k < q {
        assert (k + 1) as real <= q as real;
      }
    }
  }

  lemma MoveTowardOfNear(reflon: real, rlon: real, k: int)
    requires Abs(Shifted(rlon, k) - reflon) < 45.0
    ensures MoveToward(reflon, rlon) == Shifted(rlon, k)
  {
    var q := MoveTowardIsNear(reflon, rlon);
    assert Abs(Shifted(rlon, q) - Shifted(rlon, k)) < 90.0;
    assert q == k;
  }

  /** For any frames: surface decoding never reports bad data, and finds a position with
      longitude in [-180, 180) that is within 45 degrees of the reference longitude up to whole
      turns. */
  lemma SurfaceFindsNearest(reflat: real, reflon: real, lat0: int, lon0: int, lat1: int, lon1: int, odd: bool)
    requires 0 <= lat0 < SCALE && 0 <= lat1 < SCALE
    ensures var r := DecodeSurface(reflat, reflon, lat0, lon0, lat1, lon1, odd);
      && r != BadData
      && (r.Position? ==>
           && IsLatitude(r.lat) && -180.0 <= r.lon < 180.0
           && SameMeridian(r.lon, reflon, 45.0))
  {
    hide NL, Cell, ModInt, InZone, Quadrant, MoveToward, Longitude, Renormalize;
    var j := ((59 * lat0 - 60 * lat1) as real / SCALE as real + 0.5).Floor;
    InZoneWithin(60, true, ModInt(j, 60), lat0);
    InZoneWithin(59, true, ModInt(j, 59), lat1);
    var rlat0, rlat1 := InZone(Cell(60, true), ModInt(j, 60), lat0), InZone(Cell(59, true), ModInt(j, 59), lat1);
    var q0 := QuadrantIsNearest(rlat0, reflat);
    var q1 := QuadrantIsNearest(rlat1, reflat);
    var rlat := Quadrant(if odd then rlat1 else rlat0, reflat);
    var raw := Longitude(rlat, lon0, lon1, odd, true);
    var q := MoveTowardIsNear(reflon, raw);
    var moved := MoveToward(reflon, raw);
    var turns := RenormalizeTurns(moved);
    assert Turned(Renormalize(moved), turns) == moved;
  }

  lemma SurfaceLatitude(lat: real, reflat: real, n: int)
    requires IsLatitude(lat) && 59 <= n <= 60
    requires Abs(Meant(lat, n, true) - reflat) < 45.0
    ensures var a := Lattice(lat, n, true);
      Quadrant(InZone(Cell(n, true), (a / SCALE) % n, a % SCALE), reflat) == Meant(lat, n, true)
  {
    hide Cell, Lattice, Meant, InZone, Quadrant;
    var a := Lattice(lat, n, true);
    FoundIsMeant(lat, n, true);
    MeantLatitude(lat, n, true);
    var found := InZone(Cell(n, true), (a / SCALE) % n, a % SCALE);
    InZoneWithin(n, true, (a / SCALE) % n, a % SCALE);
    assert Meant(lat, n, true) == Shifted(found, a / SCALE / n);
    QuadrantOfNear(found, reflat, a / SCALE / n);
  }

  lemma SurfaceLongitude(rlat0: real, rlat1: real, lon: real, reflon: real, turns: int, odd: bool)
    requires NL(rlat0) == NL(rlat1)
    requires var rlat := if odd then rlat1 else rlat0;
      Abs(Turned(Meant(lon, N(rlat, odd), true), turns) - reflon) < 45.0
    ensures var rlat := if odd then rlat1 else rlat0;
      var raw := Longitude(rlat, Encode(lon, N(rlat0, false), true), Encode(lon, N(rlat1, true), true), odd, true);
      var r := Renormalize(MoveToward(reflon, raw));
      -180.0 <= r < 180.0 && SameMeridian(r, lon, Dlon(rlat, odd, true) / 262144.0)
  {
    hide NL, Cell, Encode, Meant, Longitude, Renormalize, MoveToward;
    var rlat := if odd then rlat1 else rlat0;
    var raw := Longitude(rlat, Encode(lon, N(rlat0, false), true), Encode(lon, N(rlat1, true), true), odd, true);
    var m := Meant(lon, N(rlat, odd), true);
    var k := LongitudeRecovered(rlat, lon, odd, true);
    assert Shifted(raw, k + 4 * turns) == Turned(m, turns);
    MoveTowardOfNear(reflon, raw, k + 4 * turns);
    var t := RenormalizeTurns(Turned(m, turns));
    MeantIsNear(lon, N(rlat, odd), true);
    assert Turned(Renormalize(Turned(m, turns)), t - turns) == m;
  }

  /** Global surface decoding inverts the encoder for every position that is less than 45 degrees
      from the reference in latitude and, up to whole turns, in longitude. */
  lemma SurfaceInvertsEncoder(lat: real, lon: real, reflat: real, reflon: real, turns: int, odd: bool)
    requires IsLatitude(lat)
    requires Abs(MeantLat(lat, false, true) - reflat) < 45.0 && Abs(MeantLat(lat, true, true) - reflat) < 45.0
    requires Abs(Turned(Meant(lon, ZonesFor(MeantLat(lat, odd, true), odd), true), turns) - reflon) < 45.0
    ensures var e, o := EncodeFrame(lat, lon, false, true), EncodeFrame(lat, lon, true, true);
      var r := DecodeSurface(reflat, reflon, e.lat, e.lon, o.lat, o.lon, odd);
      && r != BadData
      && (r == CrossedZone <==> ZoneCount(MeantLat(lat, false, true)) != ZoneCount(MeantLat(lat, true, true)))
      && (r.Position? ==>
           && r.lat == MeantLat(lat, odd, true)
           && Abs(r.lat - lat) <= Cell(LatZones(odd), true) / 262144.0
           && -180.0 <= r.lon < 180.0
           && SameMeridian(r.lon, lon, ZoneWidth(r.lat, odd, true) / 262144.0))
  {
    hide Cell, NL, N, ZoneCount, ZonesFor, Meant, Encode, Lattice, ModInt, Longitude, Renormalize, Quadrant, MoveToward;
    EncodeIsLattice(lat, 60, true);
    EncodeIsLattice(lat, 59, true);
    ZonesRecovered(lat, 60, true);
    SurfaceLatitude(lat, reflat, 60);
    SurfaceLatitude(lat, reflat, 59);
    MeantLatitude(lat, 60, true);
    MeantLatitude(lat, 59, true);
    MeantIsNear(lat, LatZones(odd), true);
    var rlat0, rlat1 := Meant(lat, 60, true), Meant(lat, 59, true);
    SameZones(rlat0, false, true);
    SameZones(rlat1, true, true);
    SameZones(MeantLat(lat, odd, true), odd, true);
    if NL(rlat0) == NL(rlat1) {
      SurfaceLongitude(rlat0, rlat1, lon, reflon, turns, odd);
    }
  }
}
