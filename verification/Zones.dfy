/** The longitude zones of the standard, by the latitudes at which their number changes. */
module Zones {
  import opened CprArithmetic

  /** The latitude beyond which there are fewer than n longitude zones (1090-WP-9-14). */
  function Transition(n: int): real
    requires 2 <= n <= 59
  {
    if n == 2 then 87.00000000 else if n == 3 then 86.53536998 else if n == 4 then 85.75541621 else
    if n == 5 then 84.89166191 else if n == 6 then 83.99173563 else if n == 7 then 83.07199445 else
    if n == 8 then 82.13956981 else if n == 9 then 81.19801349 else if n == 10 then 80.24923213 else
    if n == 11 then 79.29428225 else if n == 12 then 78.33374083 else if n == 13 then 77.36789461 else
    if n == 14 then 76.39684391 else if n == 15 then 75.42056257 else if n == 16 then 74.43893416 else
    if n == 17 then 73.45177442 else if n == 18 then 72.45884545 else if n == 19 then 71.45986473 else
    if n == 20 then 70.45451075 else if n == 21 then 69.44242631 else if n == 22 then 68.42322022 else
    if n == 23 then 67.39646774 else if n == 24 then 66.36171008 else if n == 25 then 65.31845310 else
    if n == 26 then 64.26616523 else if n == 27 then 63.20427479 else if n == 28 then 62.13216659 else
    if n == 29 then 61.04917774 else if n == 30 then 59.95459277 else if n == 31 then 58.84763776 else
    if n == 32 then 57.72747354 else if n == 33 then 56.59318756 else if n == 34 then 55.44378444 else
    if n == 35 then 54.27817472 else if n == 36 then 53.09516153 else if n == 37 then 51.89342469 else
    if n == 38 then 50.67150166 else if n == 39 then 49.42776439 else if n == 40 then 48.16039128 else
    if n == 41 then 46.86733252 else if n == 42 then 45.54626723 else if n == 43 then 44.19454951 else
    if n == 44 then 42.80914012 else if n == 45 then 41.38651832 else if n == 46 then 39.92256684 else
    if n == 47 then 38.41241892 else if n == 48 then 36.85025108 else if n == 49 then 35.22899598 else
    if n == 50 then 33.53993436 else if n == 51 then 31.77209708 else if n == 52 then 29.91135686 else
    if n == 53 then 27.93898710 else if n == 54 then 25.82924707 else if n == 55 then 23.54504487 else
    if n == 56 then 21.02939493 else if n == 57 then 18.18626357 else if n == 58 then 14.82817437 else
    10.47047130
  }

  /** How many transitions, of those to 2 up to n zones, lie above the latitude. */
  function TransitionsAbove(lat: real, n: int): (k: int)
    requires 1 <= n <= 59
    ensures 0 <= k < n
  {
    if n == 1 then 0 else TransitionsAbove(lat, n - 1) + if Abs(lat) < Transition(n) then 1 else 0
  }

  /** The number of longitude zones at a latitude. */
  function ZoneCount(lat: real): (n: int)
    ensures 1 <= n <= 59
  {
    1 + TransitionsAbove(lat, 59)
  }

  /** The number of zones the standard's encoder uses: one less for an odd frame. */
  function ZonesFor(lat: real, odd: bool): (n: int)
    ensures 1 <= n <= 59
  {
    if odd && ZoneCount(lat) > 1 then ZoneCount(lat) - 1 else ZoneCount(lat)
  }

  lemma TransitionsDescend(n: int)
    requires 2 <= n < 59
    ensures Transition(n + 1) < Transition(n)
  {
  }
}
