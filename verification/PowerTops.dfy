/** The powers of x without their 7 lowest coefficients: no two of those with others are equal, and
    no three add up to 0. */
module PowerTops {
  import opened PowerTable

  // The bits 0x1400 of three powers that add up to 0 are all different, or are 0 for one of them and
  // equal for the others.

  lemma AllZero(u: bv24, v: bv24, w: bv24)
    requires IsPower(u) && IsPower(v) && IsPower(w) && u & 0x1400 == 0 && v & 0x1400 == 0
    requires u & 0xffff80 != 0 && v & 0xffff80 != 0 && w & 0xffff80 != 0
    ensures (u ^ v ^ w) & 0xffff80 != 0
  {
  }

  lemma ZeroAndUpper(u: bv24, v: bv24, w: bv24)
    requires IsPower(u) && IsPower(v) && IsPower(w) && u & 0x1400 == 0 && v & 0x1400 == 0x1000
    requires u & 0xffff80 != 0 && v & 0xffff80 != 0 && w & 0xffff80 != 0
    ensures (u ^ v ^ w) & 0xffff80 != 0
  {
  }

  lemma ZeroAndLower(u: bv24, v: bv24, w: bv24)
    requires IsPower(u) && IsPower(v) && IsPower(w) && u & 0x1400 == 0 && v & 0x400 == 0x400
    requires u & 0xffff80 != 0 && v & 0xffff80 != 0 && w & 0xffff80 != 0
    ensures (u ^ v ^ w) & 0xffff80 != 0
  {
  }

  lemma AllDifferent(u: bv24, v: bv24, w: bv24)
    requires IsPower(u) && IsPower(v) && IsPower(w) && u & 0x1400 == 0x400 && v & 0x1400 == 0x1000
    requires u & 0xffff80 != 0 && v & 0xffff80 != 0 && w & 0xffff80 != 0
    ensures (u ^ v ^ w) & 0xffff80 != 0
  {
  }

  lemma BitsRaw(u: bv24)
    ensures u & 0x1400 == 0 || u & 0x1400 == 0x400 || u & 0x1400 == 0x1000 || u & 0x1400 == 0x1400
    ensures u & 0x400 == 0x400 <==> u & 0x1400 == 0x400 || u & 0x1400 == 0x1400
  {
  }

  lemma ExchangeRaw(u: bv24, v: bv24, w: bv24)
    ensures u ^ v ^ w == v ^ u ^ w == w ^ u ^ v
    ensures u ^ v ^ w == u ^ w ^ v == v ^ w ^ u == w ^ v ^ u
  {
  }

  lemma UnequalRaw(u: bv24, v: bv24, w: bv24)
    requires u & 0x1400 != 0 && v & 0x1400 != 0 && w & 0x1400 != 0
    requires (u ^ v ^ w) & 0xffff80 == 0
    ensures u & 0x1400 != v & 0x1400 && v & 0x1400 != w & 0x1400 && u & 0x1400 != w & 0x1400
  {
  }

  lemma WithZero(u: bv24, v: bv24, w: bv24)
    requires IsPower(u) && IsPower(v) && IsPower(w) && u & 0x1400 == 0
    requires u & 0xffff80 != 0 && v & 0xffff80 != 0 && w & 0xffff80 != 0
    ensures (u ^ v ^ w) & 0xffff80 != 0
  {
    hide IsPower;
    BitsRaw(v);
    if v & 0x1400 == 0 {
      AllZero(u, v, w);
    } else if v & 0x1400 == 0x1000 {
      ZeroAndUpper(u, v, w);
    } else {
      ZeroAndLower(u, v, w);
    }
  }

  lemma WithLower(u: bv24, v: bv24, w: bv24)
    requires IsPower(u) && IsPower(v) && IsPower(w) && u & 0x1400 == 0x400
    requires v & 0x1400 != 0 && w & 0x1400 != 0
    requires u & 0xffff80 != 0 && v & 0xffff80 != 0 && w & 0xffff80 != 0
    ensures (u ^ v ^ w) & 0xffff80 != 0
  {
    hide IsPower;
    BitsRaw(v);
    BitsRaw(w);
    ExchangeRaw(u, v, w);
    if v & 0x1400 == 0x1000 {
      AllDifferent(u, v, w);
    } else if w & 0x1400 == 0x1000 {
      AllDifferent(u, w, v);
    } else if (u ^ v ^ w) & 0xffff80 == 0 {
      UnequalRaw(u, v, w);
    }
  }

  /** The tops of three powers do not cancel, unless one of them is 0. */
  lemma ThreeTops(u: bv24, v: bv24, w: bv24)
    requires IsPower(u) && IsPower(v) && IsPower(w)
    requires u & 0xffff80 != 0 && v & 0xffff80 != 0 && w & 0xffff80 != 0
    ensures (u ^ v ^ w) & 0xffff80 != 0
  {
    hide IsPower;
    ExchangeRaw(u, v, w);
    BitsRaw(u);
    BitsRaw(v);
    BitsRaw(w);
    if u & 0x1400 == 0 {
      WithZero(u, v, w);
    } else if v & 0x1400 == 0 {
      WithZero(v, u, w);
    } else if w & 0x1400 == 0 {
      WithZero(w, u, v);
    } else if u & 0x1400 == 0x400 {
      WithLower(u, v, w);
    } else if v & 0x1400 == 0x400 {
      WithLower(v, u, w);
    } else if w & 0x1400 == 0x400 {
      WithLower(w, u, v);
    } else if (u ^ v ^ w) & 0xffff80 == 0 {
      UnequalRaw(u, v, w);
    }
  }

  lemma TwoTops(u: bv24, v: bv24)
    requires IsPower(u) && IsPower(v) && u & 0xffff80 != 0 && u != v
    ensures (u ^ v) & 0xffff80 != 0
  {
  }

  lemma NoTop(r: bv24)
    requires IsPower(r) && r & 0xffff80 == 0
    ensures r == 0x01 || r == 0x02 || r == 0x04 || r == 0x08 || r == 0x10 || r == 0x20 || r == 0x40
  {
  }
}
