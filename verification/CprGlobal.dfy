/** Global decoding inverts the encoder. */
module CprGlobal {
  import opened CprArithmetic
  import opened CprLattice
  import opened Cpr
  import opened Zones
  import opened ZoneTable

  /** What the standard's encoder transmits for a position: the latitude first, then the
      longitude in as many zones as there are at the latitude that was meant. */
  datatype Frame = Frame(lat: int, lon: int)

  function LatZones(odd: bool): int {
    if odd then 59 else 60
  }

  function MeantLat(lat: real, odd: bool, surface: bool): real {
    Meant(lat, LatZones(odd), surface)
  }

  function EncodeFrame(lat: real, lon: real, odd: bool, surface: bool): Frame {
    Frame(Encode(lat, LatZones(odd), surface), Encode(lon, ZonesFor(MeantLat(lat, odd, surface), odd), surface))
  }

  /** The width of a longitude zone. */
  function ZoneWidth(lat: real, odd: bool, surface: bool): real {
    Cell(ZonesFor(lat, odd), surface)
  }

  /** The decoder has the zones of the encoder. */
  lemma SameZones(lat: real, odd: bool, surface: bool)
    ensures NL(lat) == ZoneCount(lat) && N(lat, odd) == ZonesFor(lat, odd)
    ensures Dlon(lat, odd, surface) == ZoneWidth(lat, odd, surface)
  {
    hide NL, N, ZoneCount, ZonesFor;
    NLIsZones(lat);
    NIsZonesFor(lat, odd);
  }

  // ---- Latitude ---------------------------------------------------------------------------

  lemma InZoneIsPoint(cell: real, z: int, y: int)
    ensures InZone(cell, z, y) == Point(cell, SCALE * z + y)
  {
    assert (SCALE * z + y) as real / SCALE as real == z as real + y as real / SCALE as real;
  }

  /** Both zone numbers of a coordinate are recovered from its two encodings, up to whole spans. */
  lemma ZonesRecovered(v: real, n: int, surface: bool)
    requires 2 <= n <= 60
    ensures var j := ZoneIndex(n, Encode(v, n, surface), Encode(v, n - 1, surface));
      && ModInt(j, n) == (Lattice(v, n, surface) / SCALE) % n
      && ModInt(j, n - 1) == (Lattice(v, n - 1, surface) / SCALE) % (n - 1)
  {
    hide Encode, Lattice, ZoneIndex, ModInt;
    EncodeIsLattice(v, n, surface);
    EncodeIsLattice(v, n - 1, surface);
    EncodedIndexes(v, n, surface);
    ZoneRecovery(n, Lattice(v, n, surface), Lattice(v, n - 1, surface));
  }

  /** The grid point a decoder finds differs from the one that was meant by whole spans. */
  lemma FoundIsMeant(v: real, n: int, surface: bool)
    requires n > 0
    ensures var a := Lattice(v, n, surface);
      InZone(Cell(n, surface), (a / SCALE) % n, a % SCALE)
           == Meant(v, n, surface) - Span(surface) * (a / SCALE / n) as real
  {
    hide Lattice, Point, InZone;
    var a := Lattice(v, n, surface);
    var z, k := (a / SCALE) % n, a / SCALE / n;
    InZoneIsPoint(Cell(n, surface), z, a % SCALE);
    PointAround(n, surface, SCALE * z + a % SCALE, k);
    assert a == SCALE * (z + n * k) + a % SCALE;
  }

  function Quarter(n: int, surface: bool): int {
    if surface then n * SCALE else n * 32768
  }

  lemma QuarterOfSpan(n: int, surface: bool)
    requires n > 0
    ensures Cell(n, surface) * (Quarter(n, surface) as real / SCALE as real) == 90.0
  {
    var c := Cell(n, surface);
    assert c * n as real == Span(surface);
    if !surface {
      assert Quarter(n, surface) as real / SCALE as real == 0.25 * n as real;
      assert c * (0.25 * n as real) == 0.25 * (c * n as real);
    }
  }

  /** A latitude has its grid point between the poles. */
  lemma LatticeOfLatitude(lat: real, n: int, surface: bool)
    requires IsLatitude(lat) && n > 0
    ensures -Quarter(n, surface) <= Lattice(lat, n, surface) <= Quarter(n, surface)
  {
    hide Cell, Round;
    CellsPerSpan(lat, n, surface);
    var u := lat / Span(surface);
    ProductBound(n as real, u, if surface then 1.0 else 0.25);
    var q := Quarter(n, surface);
    RoundWithin(SCALE as real * (lat / Cell(n, surface)), -q, q);
  }

  lemma MeantLatitude(lat: real, n: int, surface: bool)
    requires IsLatitude(lat) && n > 0
    ensures IsLatitude(Meant(lat, n, surface))
    ensures Lattice(lat, n, surface) >= 0 <==> Meant(lat, n, surface) >= 0.0
  {
    hide Cell, Lattice, Quarter;
    LatticeOfLatitude(lat, n, surface);
    QuarterOfSpan(n, surface);
    var c, a, q := Cell(n, surface), Lattice(lat, n, surface), Quarter(n, surface);
    ProductBound(c, a as real / SCALE as real, q as real / SCALE as real);
    SignOfProduct(c, a as real / SCALE as real);
  }

  lemma SignOfProduct(c: real, x: real)
    requires c > 0.0
    ensures c * x >= 0.0 <==> x >= 0.0
  {
    if x < 0.0 {
      NegativeProduct(c, -x);
    }
  }

  /** The latitude an airborne decoder computes is the one that was meant. */
  lemma AirborneLatitude(lat: real, n: int)
    requires IsLatitude(lat) && 59 <= n <= 60
    ensures var a := Lattice(lat, n, false);
      SouthIfHigh(InZone(Cell(n, false), (a / SCALE) % n, a % SCALE)) == Meant(lat, n, false)
  {
    hide Cell, Lattice, Meant, InZone;
    var a := Lattice(lat, n, false);
    FoundIsMeant(lat, n, false);
    LatticeOfLatitude(lat, n, false);
    MeantLatitude(lat, n, false);
    assert -15 <= a / SCALE <= 15;
    if a < 0 {
      assert a / SCALE / n == -1;
    } else {
      assert a / SCALE / n == 0;
    }
  }

  // ---- Longitude --------------------------------------------------------------------------

  /** The longitude both decoders compute is the one that was meant, up to whole spans. */
  lemma LongitudeRecovered(rlat: real, lon: real, odd: bool, surface: bool)
    returns (k: int)
    ensures Longitude(rlat, Encode(lon, N(rlat, false), surface), Encode(lon, N(rlat, true), surface), odd, surface)
         == Meant(lon, N(rlat, odd), surface) - Span(surface) * k as real
  {
    hide NL, N, Cell, Lattice, Meant, InZone, Encode, ModInt, ZoneIndex;
    var n, nl := N(rlat, odd), NL(rlat);
    var y0, y1 := Encode(lon, N(rlat, false), surface), Encode(lon, N(rlat, true), surface);
    EncodeIsLattice(lon, n, surface);
    FoundIsMeant(lon, n, surface);
    LongitudeZone(rlat, lon, odd, surface);
    IndexCommutes(nl, y0, y1);
    k := Lattice(lon, n, surface) / SCALE / n;
  }

  lemma IndexCommutes(n: int, y0: int, y1: int)
    ensures ((y0 * (n - 1) - y1 * n) as real / SCALE as real + 0.5).Floor == ZoneIndex(n, y0, y1)
  {
    assert y0 * (n - 1) - y1 * n == (n - 1) * y0 - n * y1;
  }

  lemma LongitudeZone(rlat: real, lon: real, odd: bool, surface: bool)
    ensures var n := N(rlat, odd);
      var m := ZoneIndex(NL(rlat), Encode(lon, N(rlat, false), surface), Encode(lon, N(rlat, true), surface));
      ModInt(m, n) == (Lattice(lon, n, surface) / SCALE) % n
  {
    hide NL, Lattice, Encode, ZoneIndex;
    if NL(rlat) > 1 {
      ZonesRecovered(lon, NL(rlat), surface);
    }
  }

  lemma RenormalizeTurns(lon: real) returns (k: int)
    ensures -180.0 <= Renormalize(lon) < 180.0
    ensures Renormalize(lon) == lon - 360.0 * k as real
  {
    k := ((lon + 180.0) / 360.0).Floor;
  }

  // ---- Airborne positions -----------------------------------------------------------------

  /** lon and rlon are the same meridian up to an error. */
  ghost predicate SameMeridian(rlon: real, lon: real, err: real) {
    exists k: int :: Abs(Turned(rlon, k) - lon) <= err
  }

  function Turned(lon: real, k: int): real {
    lon + 360.0 * k as real
  }

  /** Global airborne decoding inverts the encoder: the latitude is the grid point that was
      meant, at most half a step away, the longitude is within half a step up to whole turns,
      and decoding fails only when the two latitudes lie in different longitude zones. */
  lemma AirborneInvertsEncoder(lat: real, lon: real, odd: bool)
    requires IsLatitude(lat)
    ensures var e, o := EncodeFrame(lat, lon, false, false), EncodeFrame(lat, lon, true, false);
      var r := DecodeAirborne(e.lat, e.lon, o.lat, o.lon, odd);
      && r != BadData
      && (r == CrossedZone <==> ZoneCount(MeantLat(lat, false, false)) != ZoneCount(MeantLat(lat, true, false)))
      && (r.Position? ==>
           && r.lat == MeantLat(lat, odd, false) && IsLatitude(r.lat)
           && Abs(r.lat - lat) <= Cell(LatZones(odd), false) / 262144.0
           && -180.0 <= r.lon < 180.0
           && SameMeridian(r.lon, lon, ZoneWidth(r.lat, odd, false) / 262144.0))
  {
    hide Cell, NL, N, ZoneCount, ZonesFor, Meant, Encode, Lattice, ModInt, Longitude, Renormalize, SouthIfHigh;
    EncodeIsLattice(lat, 60, false);
    EncodeIsLattice(lat, 59, false);
    ZonesRecovered(lat, 60, false);
    AirborneLatitude(lat, 60);
    AirborneLatitude(lat, 59);
    MeantLatitude(lat, 60, false);
    MeantLatitude(lat, 59, false);
    MeantIsNear(lat, LatZones(odd), false);
    var rlat0, rlat1 := Meant(lat, 60, false), Meant(lat, 59, false);
    SameZones(rlat0, false, false);
    SameZones(rlat1, true, false);
    SameZones(MeantLat(lat, odd, false), odd, false);
    if NL(rlat0) == NL(rlat1) {
      AirborneLongitude(rlat0, rlat1, lon, odd);
    }
  }

  lemma AirborneLongitude(rlat0: real, rlat1: real, lon: real, odd: bool)
    requires NL(rlat0) == NL(rlat1)
    ensures var rlat := if odd then rlat1 else rlat0;
      var r := Renormalize(Longitude(rlat, Encode(lon, N(rlat0, false), false),
        Encode(lon, N(rlat1, true), false), odd, false));
      -180.0 <= r < 180.0 && SameMeridian(r, lon, Dlon(rlat, odd, false) / 262144.0)
  {
    hide NL, Cell, Encode, Meant, Longitude, Renormalize;
    var rlat := if odd then rlat1 else rlat0;
    var raw := Longitude(rlat, Encode(lon, N(rlat0, false), false), Encode(lon, N(rlat1, true), false), odd, false);
    var k := LongitudeRecovered(rlat, lon, odd, false);
    var turns := RenormalizeTurns(raw);
    MeantIsNear(lon, N(rlat, odd), false);
    assert Turned(Renormalize(raw), k + turns) == Meant(lon, N(rlat, odd), false);
  }
}
