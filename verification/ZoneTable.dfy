/** The table of the decoder is the zone count of the standard. */
module ZoneTable {
  import opened Cpr
  import opened CprArithmetic
  import opened Zones

  /** The table puts a latitude between two neighbouring transitions. */
  lemma Bracketed(lat: real)
    ensures var n := NL(lat);
      (n > 1 ==> Abs(lat) < Transition(n)) && (n < 59 ==> Transition(n + 1) <= Abs(lat))
  {
    hide Abs;
  }

  lemma {:induction false} TransitionsDescendTo(m: int, n: int)
    requires 2 <= m <= n <= 59
    ensures Transition(n) <= Transition(m)
    decreases n
  {
    hide Transition;
    if m < n {
      TransitionsDescendTo(m, n - 1);
      TransitionsDescend(n - 1);
    }
  }

  /** The table has at least n zones exactly below the n-th transition. */
  lemma NLAtLeast(lat: real, n: int)
    requires 2 <= n <= 59
    ensures NL(lat) >= n <==> Abs(lat) < Transition(n)
  {
    hide NL, Transition, Abs;
    Bracketed(lat);
    if NL(lat) >= n {
      TransitionsDescendTo(n, NL(lat));
    } else {
      TransitionsDescendTo(NL(lat) + 1, n);
    }
  }

  lemma {:induction false} TransitionsAboveIs(lat: real, n: int)
    requires 1 <= n <= 59
    ensures TransitionsAbove(lat, n) == if NL(lat) < n then NL(lat) - 1 else n - 1
    decreases n
  {
    hide NL, Transition, Abs;
    if n > 1 {
      TransitionsAboveIs(lat, n - 1);
      NLAtLeast(lat, n);
    }
  }

  /** The decoder and the standard's encoder count the same zones at every latitude. */
  lemma NLIsZones(lat: real)
    ensures NL(lat) == ZoneCount(lat)
  {
    hide NL;
    TransitionsAboveIs(lat, 59);
  }

  lemma NIsZonesFor(lat: real, odd: bool)
    ensures N(lat, odd) == ZonesFor(lat, odd)
  {
    hide NL, ZoneCount;
    NLIsZones(lat);
  }
}
