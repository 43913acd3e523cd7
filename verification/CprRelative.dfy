/** Decoding relative to a reference position: what it finds, when it gives up, and its
    agreement with global decoding. */
module CprRelative {
  import opened CprArithmetic
  import opened CprLattice
  import opened Cpr
  import opened CprGlobal

  /** The candidate position the index selects. */
  function Nearest(ref: real, cell: real, y: int): real
    requires cell > 0.0
  {
    InZone(cell, RelativeIndex(ref, cell, y), y)
  }

  /** The floor and the fraction of ref / cell are put together again. */
  lemma IndexIsRound(ref: real, cell: real, y: int)
    requires cell > 0.0
    ensures RelativeIndex(ref, cell, y) == Round(ref / cell - y as real / SCALE as real)
  {
    hide ModDouble;
    var q, f := (ref / cell).Floor, y as real / SCALE as real;
    FractionOfZone(ref, cell, q);
    FloorOfSum(0.5 + (ref / cell - q as real) - f, q);
  }

  /** The candidate lies within half a cell of the reference. */
  lemma NearestIsClose(ref: real, cell: real, y: int)
    requires cell > 0.0
    ensures -cell / 2.0 < Nearest(ref, cell, y) - ref <= cell / 2.0
  {
    hide RelativeIndex;
    IndexIsRound(ref, cell, y);
    var x, f, j := ref / cell, y as real / SCALE as real, RelativeIndex(ref, cell, y);
    assert ref == cell * x;
    var d := j as real + f - x;
    assert -0.5 < d <= 0.5;
    Distribute(cell, j as real + f, x);
    assert Nearest(ref, cell, y) - ref == cell * d;
    HalfCell(cell, d);
  }

  lemma HalfCell(c: real, d: real)
    requires c > 0.0 && -0.5 < d <= 0.5
    ensures -c / 2.0 < c * d <= c / 2.0
  {
    assert c * (d + 0.5) > 0.0;
    assert c * (0.5 - d) >= 0.0;
  }

  lemma InZoneDifference(cell: real, i: int, j: int, y: int)
    ensures InZone(cell, i, y) - InZone(cell, j, y) == cell * (i - j) as real
  {
    var f := y as real / SCALE as real;
    Distribute(cell, i as real + f, j as real + f);
    assert (i - j) as real == (i as real + f) - (j as real + f);
  }

  /** Two candidates are at least one cell apart. */
  lemma FarApart(cell: real, i: int, j: int, y: int)
    requires cell > 0.0 && i != j
    ensures Abs(InZone(cell, i, y) - InZone(cell, j, y)) >= cell
  {
    hide InZone;
    InZoneDifference(cell, i, j, y);
    var d := (i - j) as real;
    if i > j {
      ProductBound(cell, 0.0, d - 1.0);
    } else {
      ProductBound(cell, 0.0, -d - 1.0);
    }
  }

  /** The local index always picks the candidate nearest the reference. */
  lemma NearestIsNearest(ref: real, cell: real, y: int, k: int)
    requires cell > 0.0
    ensures Abs(Nearest(ref, cell, y) - ref) <= Abs(InZone(cell, k, y) - ref)
    ensures Abs(InZone(cell, k, y) - ref) < cell / 2.0 ==> RelativeIndex(ref, cell, y) == k
  {
    hide RelativeIndex, InZone;
    var j := RelativeIndex(ref, cell, y);
    NearestIsClose(ref, cell, y);
    if k != j {
      FarApart(cell, k, j, y);
    }
  }

  /** Exactly when local decoding finds a position, for every reference and frame: the nearest
      candidate latitude must be a latitude, and the nearest candidate longitude must not lie
      beyond the antimeridian, except exactly half a turn from the reference where there is only
      one longitude zone. It then finds those nearest candidates. */
  lemma RelativeExactly(reflat: real, reflon: real, cprlat: int, cprlon: int, odd: bool, surface: bool)
    ensures var nlat := Nearest(reflat, Cell(LatZones(odd), surface), cprlat);
      var dlon := Dlon(nlat, odd, surface);
      var nlon := Nearest(reflon, dlon, cprlon);
      var r := DecodeRelative(reflat, reflon, cprlat, cprlon, odd, surface);
      if !IsLatitude(nlat) then r == GiveUp
      else if nlon <= 180.0 then r == Found(nlat, nlon)
      else if dlon == 360.0 && nlon - reflon == 180.0 then r == Found(nlat, nlon - 360.0)
      else r == GiveUp
  {
    hide Cell, NL, N, RelativeIndex, InZone;
    var dlat := Cell(LatZones(odd), surface);
    NearestIsClose(reflat, dlat, cprlat);
    var nlat := Nearest(reflat, dlat, cprlat);
    CellIsSmall(LatZones(odd), surface);
    var dlon := Dlon(nlat, odd, surface);
    CellIsSmall(N(nlat, odd), surface);
    NearestIsClose(reflon, dlon, cprlon);
  }

  lemma CellIsSmall(n: int, surface: bool)
    requires n > 0
    ensures Cell(n, surface) <= 360.0 && (n >= 2 ==> Cell(n, surface) <= 180.0)
  {
    var c := Cell(n, surface);
    assert c * n as real == Span(surface);
    ProductBound(c, 0.0, n as real - 1.0);
    if n >= 2 {
      ProductBound(c, 0.0, n as real - 2.0);
    }
  }

  /** The longitude found never exceeds 180 degrees; it lies in [-180, 180] exactly if the nearest
      candidate is not west of the antimeridian, as it is for every reference that is at least half
      a zone east of it. */
  lemma RelativeRange(reflat: real, reflon: real, cprlat: int, cprlon: int, odd: bool, surface: bool)
    requires -180.0 <= reflon <= 180.0
    ensures var r := DecodeRelative(reflat, reflon, cprlat, cprlon, odd, surface);
      r.Found? ==>
        var dlon := Dlon(r.lat, odd, surface);
        && r.lon <= 180.0
        && (r.lon >= -180.0 <==> Nearest(reflon, dlon, cprlon) >= -180.0)
        && (reflon >= -180.0 + dlon / 2.0 ==> r.lon >= -180.0)
  {
    hide Cell, NL, N, RelativeIndex, InZone, DecodeRelative;
    RelativeExactly(reflat, reflon, cprlat, cprlon, odd, surface);
    var nlat := Nearest(reflat, Cell(LatZones(odd), surface), cprlat);
    NearestIsClose(reflon, Dlon(nlat, odd, surface), cprlon);
    CellIsSmall(N(nlat, odd), surface);
  }

  /** A reference just east of the antimeridian for which the longitude found is below -180. */
  lemma FindsBelowAntimeridian()
    ensures Encode(0.0, 60, false) == 0 && Encode(179.9999, 59, false) == 65534
    ensures var r := DecodeRelative(0.0, -179.9, 0, 65534, false, false); r.Found? && r.lon < -180.0
  {
    hide NL, RelativeIndex, Encode, ModDouble;
    var c := 360.0 / 59.0;
    assert Cell(60, false) == 6.0 && Cell(59, false) == c;
    EncodeIsLattice(0.0, 60, false);
    EncodeIsLattice(179.9999, 59, false);
    IndexIsRound(0.0, 6.0, 0);
    IndexIsRound(-179.9, c, 65534);
    NLAtEquator();
    RelativeExactly(0.0, -179.9, 0, 65534, false, false);
  }

  /** Near the antimeridian local decoding gives up although the position is a tenth of a degree
      from the reference. */
  lemma GivesUpAtAntimeridian()
    ensures Encode(0.0, 60, false) == 0 && Encode(-179.9999, 59, false) == 65538
    ensures DecodeRelative(0.0, 179.9, 0, 65538, false, false) == GiveUp
  {
    hide NL, RelativeIndex, Encode, ModDouble;
    var c := 360.0 / 59.0;
    assert Cell(60, false) == 6.0 && Cell(59, false) == c;
    EncodeIsLattice(0.0, 60, false);
    EncodeIsLattice(-179.9999, 59, false);
    IndexIsRound(0.0, 6.0, 0);
    IndexIsRound(179.9, c, 65538);
    NLAtEquator();
    RelativeExactly(0.0, 179.9, 0, 65538, false, false);
  }

  lemma NLAtEquator()
    ensures NL(0.0) == 59
  {
  }
}
