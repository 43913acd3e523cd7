/** The position decoders (cpr.c), over exact reals. */
module Cpr {
  import opened CprArithmetic
  import opened CprLattice

  /** cprNLFunction: the number of longitude zones at a latitude. */
  function NL(lat: real): (nl: int)
    ensures 1 <= nl <= 59
  {
    var l := Abs(lat);
    if l < 10.47047130 then 59
    else if l < 14.82817437 then 58
    else if l < 18.18626357 then 57
    else if l < 21.02939493 then 56
    else if l < 23.54504487 then 55
    else if l < 25.82924707 then 54
    else if l < 27.93898710 then 53
    else if l < 29.91135686 then 52
    else if l < 31.77209708 then 51
    else if l < 33.53993436 then 50
    else if l < 35.22899598 then 49
    else if l < 36.85025108 then 48
    else if l < 38.41241892 then 47
    else if l < 39.92256684 then 46
    else if l < 41.38651832 then 45
    else if l < 42.80914012 then 44
    else if l < 44.19454951 then 43
    else if l < 45.54626723 then 42
    else if l < 46.86733252 then 41
    else if l < 48.16039128 then 40
    else if l < 49.42776439 then 39
    else if l < 50.67150166 then 38
    else if l < 51.89342469 then 37
    else if l < 53.09516153 then 36
    else if l < 54.27817472 then 35
    else if l < 55.44378444 then 34
    else if l < 56.59318756 then 33
    else if l < 57.72747354 then 32
    else if l < 58.84763776 then 31
    else if l < 59.95459277 then 30
    else if l < 61.04917774 then 29
    else if l < 62.13216659 then 28
    else if l < 63.20427479 then 27
    else if l < 64.26616523 then 26
    else if l < 65.31845310 then 25
    else if l < 66.36171008 then 24
    else if l < 67.39646774 then 23
    else if l < 68.42322022 then 22
    else if l < 69.44242631 then 21
    else if l < 70.45451075 then 20
    else if l < 71.45986473 then 19
    else if l < 72.45884545 then 18
    else if l < 73.45177442 then 17
    else if l < 74.43893416 then 16
    else if l < 75.42056257 then 15
    else if l < 76.39684391 then 14
    else if l < 77.36789461 then 13
    else if l < 78.33374083 then 12
    else if l < 79.29428225 then 11
    else if l < 80.24923213 then 10
    else if l < 81.19801349 then 9
    else if l < 82.13956981 then 8
    else if l < 83.07199445 then 7
    else if l < 83.99173563 then 6
    else if l < 84.89166191 then 5
    else if l < 85.75541621 then 4
    else if l < 86.53536998 then 3
    else if l < 87.00000000 then 2
    else 1
  }

  /** There are fewer zones toward the poles. */
  lemma NLDecreasesPoleward(a: real, b: real)
    requires Abs(a) <= Abs(b)
    ensures NL(a) >= NL(b)
  {
  }

  /** cprNFunction */
  function N(lat: real, odd: bool): (n: int)
    ensures 1 <= n <= 59
  {
    var nl := NL(lat) - if odd then 1 else 0;
    if nl < 1 then 1 else nl
  }

  /** cprDlonFunction */
  function Dlon(lat: real, odd: bool, surface: bool): real {
    Cell(N(lat, odd), surface)
  }

  datatype Decoded =
    | Position(lat: real, lon: real)
    | CrossedZone  // -1
    | BadData      // -2

  /** A latitude or longitude in zone z, at fraction y of the zone. */
  function InZone(cell: real, z: int, y: int): real {
    cell * (z as real + y as real / SCALE as real)
  }

  /** The zone arithmetic for the longitude, from the frame that was received last. */
  function Longitude(rlat: real, lon0: int, lon1: int, odd: bool, surface: bool): real {
    var nl := NL(rlat);
    var m := ((lon0 * (nl - 1) - lon1 * nl) as real / SCALE as real + 0.5).Floor;
    InZone(Dlon(rlat, odd, surface), ModInt(m, N(rlat, odd)), if odd then lon1 else lon0)
  }

  function Renormalize(lon: real): real {
    lon - ((lon + 180.0) / 360.0).Floor as real * 360.0
  }

  function SouthIfHigh(rlat: real): real {
    if rlat >= 270.0 then rlat - 360.0 else rlat
  }

  predicate IsLatitude(lat: real) {
    -90.0 <= lat <= 90.0
  }

  function DecodeAirborne(lat0: int, lon0: int, lat1: int, lon1: int, odd: bool): Decoded {
    var j := ((59 * lat0 - 60 * lat1) as real / SCALE as real + 0.5).Floor;
    var rlat0 := SouthIfHigh(InZone(Cell(60, false), ModInt(j, 60), lat0));
    var rlat1 := SouthIfHigh(InZone(Cell(59, false), ModInt(j, 59), lat1));
    if !IsLatitude(rlat0) || !IsLatitude(rlat1) then BadData
    else if NL(rlat0) != NL(rlat1) then CrossedZone
    else
      var rlat := if odd then rlat1 else rlat0;
      Position(rlat, Renormalize(Longitude(rlat, lon0, lon1, odd, false)))
  }

  /** Of the latitudes rlat + 90k, the one closest to the reference. */
  function Quadrant(rlat: real, reflat: real): real {
    if rlat == 0.0 then
      if reflat < -45.0 then -90.0 else if reflat > 45.0 then 90.0 else rlat
    else if rlat - reflat > 45.0 then rlat - 90.0
    else rlat
  }

  function MoveToward(reflon: real, rlon: real): real {
    rlon + ((reflon - rlon + 45.0) / 90.0).Floor as real * 90.0
  }

  function DecodeSurface(reflat: real, reflon: real, lat0: int, lon0: int, lat1: int, lon1: int, odd: bool): Decoded {
    var j := ((59 * lat0 - 60 * lat1) as real / SCALE as real + 0.5).Floor;
    var rlat0 := Quadrant(InZone(Cell(60, true), ModInt(j, 60), lat0), reflat);
    var rlat1 := Quadrant(InZone(Cell(59, true), ModInt(j, 59), lat1), reflat);
    if !IsLatitude(rlat0) || !IsLatitude(rlat1) then BadData
    else if NL(rlat0) != NL(rlat1) then CrossedZone
    else
      var rlat := if odd then rlat1 else rlat0;
      Position(rlat, Renormalize(MoveToward(reflon, Longitude(rlat, lon0, lon1, odd, true))))
  }

  /** The index of the zone in which fraction y is closest to the reference. */
  function RelativeIndex(ref: real, cell: real, y: int): int
    requires cell > 0.0
  {
    (ref / cell).Floor + (0.5 + ModDouble(ref, cell) / cell - y as real / SCALE as real).Floor
  }

  datatype Relative = Found(lat: real, lon: real) | GiveUp

  function DecodeRelative(reflat: real, reflon: real, cprlat: int, cprlon: int, odd: bool, surface: bool): Relative {
    var dlat := Cell(if odd then 59 else 60, surface);
    var rlat := SouthIfHigh(InZone(dlat, RelativeIndex(reflat, dlat, cprlat), cprlat));
    if !IsLatitude(rlat) || Abs(rlat - reflat) > dlat / 2.0 then GiveUp
    else
      var dlon := Dlon(rlat, odd, surface);
      var lon := InZone(dlon, RelativeIndex(reflon, dlon, cprlon), cprlon);
      var rlon := if lon > 180.0 then lon - 360.0 else lon;
      if Abs(rlon - reflon) > dlon / 2.0 then GiveUp else Found(rlat, rlon)
  }
}
