/** `decimal` of src/strtod.c: the three ways from decimal digits to a binary number. */
module StrtodDecimal {
  import opened Powers
  import opened Rounding

  const MAX_DIGITS := 800

  type Digit = x: int | 0 <= x < 10

  /** The integer that digits spell, most significant first. */
  function Dec(s: seq<Digit>): nat { if s == [] then 0 else Dec(s[..|s| - 1]) * 10 + s[|s| - 1] }

  lemma DecSnoc(s: seq<Digit>, x: Digit)
    ensures Dec(s + [x]) == Dec(s) * 10 + x
  {
    assert (s + [x])[..|s|] == s;
  }

  /** Without leading zeros, nd digits spell a number of magnitude nd. */
  lemma {:induction false} DecBounds(s: seq<Digit>)
    ensures Dec(s) < Pow(10, |s|)
    ensures s != [] && s[0] != 0 ==> Dec(s) >= Pow(10, |s| - 1)
    decreases |s|
  {
    if s != [] {
      DecBounds(s[..|s| - 1]);
      if |s| == 1 { assert s[..0] == []; }
    }
  }

  /** The decimal v * 10^q as a fraction of F's units. */
  function DecimalX(F: Format, v: nat, q: int): nat
    requires F.Valid()
  {
    (if q >= 0 then v * Pow(10, q) else v) * F.One()
  }

  function DecimalD(q: int): (d: nat)
    ensures d > 0
  {
    if q >= 0 then 1 else Pow(10, -q)
  }

  /** v * 10^q, correctly rounded, in units. */
  function Rounded(F: Format, v: nat, q: int): nat
    requires F.Valid()
  {
    Round(F, DecimalX(F, v, q), DecimalD(q))
  }

  predicate IsFormat(F: Format) { F == FLT || F == DBL || F == LDBL }

  // ---- sizes of powers of ten ----

  /** 10^k < 2^(10 ceil(k/3)). */
  lemma {:induction false} TenBelow(k: nat)
    ensures Pow(10, k) <= Pow2(10 * ((k + 2) / 3))
  {
    var j := (k + 2) / 3;
    PowMono(10, k, 3 * j);
    PowPow(10, 3, j);
    assert Pow(10, 3) == 1000 && Pow2(10) == 1024;
    PowBaseMono(1000, 1024, j);
    PowPow(2, 10, j);
  }

  /** 10^(28j) >= 2^(93j). */
  lemma TenAbove(j: nat)
    ensures 28 * j >= 0 && 93 * j >= 0 && Pow(10, 28 * j) >= Pow2(93 * j)
  {
    TenTo28();
    PowPow(10, 28, j);
    PowPow(2, 93, j);
    PowBaseMono(Pow2(93), Pow(10, 28), j);
  }

  lemma TenTo28()
    ensures Pow(10, 28) >= Pow2(93)
  {
    assert Pow(10, 7) == 10000000 && Pow2(7) == 128 && Pow2(8) == 256;
    PowAdd(10, 7, 7); PowAdd(10, 14, 14);
    PowAdd(2, 8, 8); PowAdd(2, 16, 8); PowAdd(2, 24, 7); PowAdd(2, 31, 31); PowAdd(2, 62, 31);
  }

  /** 10^i >= 2^(3i). */
  lemma TenEight(i: nat)
    ensures Pow(10, i) >= Pow2(3 * i)
  {
    assert Pow2(3) == 8;
    PowPow(2, 3, i);
    PowBaseMono(8, 10, i);
  }

  /** 10^(28j + i) >= 2^(93j + 3i). */
  lemma TenAtLeast(j: nat, i: nat, k: nat, n: nat)
    requires k >= 28 * j + i && n <= 93 * j + 3 * i
    ensures Pow(10, k) >= Pow2(n)
  {
    hide Pow;
    TenAbove(j);
    TenEight(i);
    PowAdd(10, 28 * j, i); PowAdd(2, 93 * j, 3 * i);
    MulMono(Pow2(93 * j), Pow(10, 28 * j), Pow2(3 * i), Pow(10, i));
    PowMono(10, 28 * j + i, k);
    PowMono(2, n, 93 * j + 3 * i);
  }

  /** Each format's decimal limits lie beyond its range. */
  lemma Limits(F: Format)
    requires IsFormat(F)
    ensures F.Valid() && F.dmax >= 0 && F.dmin < 0
    ensures Pow(10, F.dmax) >= Pow2(F.p + F.emax)
    ensures Pow(10, 1 - F.dmin) >= Pow2(1 - F.emin)
  {
    hide Pow;
    if F == FLT {
      TenAtLeast(1, 12, 40, 128); TenAtLeast(1, 20, 48, 150);
    } else if F == DBL {
      TenAtLeast(11, 2, 310, 1024); TenAtLeast(11, 18, 326, 1075);
    } else {
      TenAtLeast(176, 6, 4934, 16384); TenAtLeast(176, 26, 4954, 16446);
    }
  }

  // ---- out of range ----

  /** At or beyond 2^j units (j at least p), rounding stays there. */
  lemma RoundBeyond(F: Format, x: nat, d: nat, j: nat)
    requires F.Valid() && d > 0 && x >= d * Pow2(j) && j >= F.p
    ensures Round(F, x, d) >= Pow2(j)
  {
    hide Pow; hide BitLen; hide RoundInt;
    var f := x / d;
    DivBounds(x, d, Pow2(j));
    BitLenBounds(f);
    var b := BitLen(f);
    if b <= j { PowMono(2, b, j); assert false; }
    var k := b - F.p;
    var g := Pow2(k);
    DivDiv(x, d, g);
    GridBelow(F, f);
    RoundIntNearest(x, d * g);
    MulMono(f / g, RoundInt(x, d * g), g, g);
    PowMono(2, j, k + F.p - 1);
  }

  /** Below half a unit, rounding gives zero. */
  lemma RoundTiny(F: Format, x: nat, d: nat)
    requires d > 0 && 2 * x < d
    ensures Round(F, x, d) == 0
  {
    DivUnique(x, d, 0, x);
  }

  /** A number of nd digits and an exponent q with nd - 1 + q >= k make at least 10^k. */
  lemma AtLeastTen(v: nat, nd: nat, q: int, k: nat, P: nat)
    requires nd > 0 && v >= Pow(10, nd - 1) && nd - 1 + q >= k && Pow(10, k) >= P
    ensures q >= 0 ==> v * Pow(10, q) >= P
    ensures q < 0 ==> v >= Pow(10, -q) * P
  {
    hide Pow;
    PowMono(10, k, nd - 1 + q);
    if q >= 0 {
      PowAdd(10, nd - 1, q);
      MulMono(Pow(10, nd - 1), v, Pow(10, q), Pow(10, q));
    } else {
      PowAdd(10, -q, nd - 1 + q);
      MulMono(Pow(10, -q), Pow(10, -q), P, Pow(10, nd - 1 + q));
    }
  }

  /** From 10^dmax on, numbers overflow. */
  lemma Overflows(F: Format, v: nat, nd: nat, q: int)
    requires IsFormat(F) && nd > 0 && v >= Pow(10, nd - 1) && q + nd > F.dmax
    ensures F.Valid() && Rounded(F, v, q) >= F.Limit()
  {
    hide Pow; hide Round;
    Limits(F);
    var P, one := Pow2(F.p + F.emax), F.One();
    AtLeastTen(v, nd, q, F.dmax, P);
    PowAdd(2, F.p + F.emax, -F.emin);
    OverArith(v, if q >= 0 then Pow(10, q) else 1, DecimalD(q), P, one);
    RoundBeyond(F, DecimalX(F, v, q), DecimalD(q), F.p + F.emax - F.emin);
  }

  lemma OverArith(v: nat, t: nat, d: nat, P: nat, one: nat)
    requires v * t >= d * P
    ensures v * t * one >= d * (P * one)
  {
    MulMono(d * P, v * t, one, one);
    MulAssoc(d, P, one);
  }

  /** Below 10^dmin they round to zero. */
  lemma Underflows(F: Format, v: nat, nd: nat, q: int)
    requires IsFormat(F) && v < Pow(10, nd) && q + nd < F.dmin
    ensures F.Valid() && Rounded(F, v, q) == 0
  {
    hide Pow; hide Round;
    Limits(F);
    TwoOnes(F);
    PowAdd(10, nd, -q - nd); PowMono(10, 1 - F.dmin, -q - nd);
    UnderArith(v, Pow(10, nd), Pow(10, -q - nd), F.One());
    RoundTiny(F, v * F.One(), Pow(10, -q));
  }

  lemma TwoOnes(F: Format)
    requires F.Valid()
    ensures Pow2(1 - F.emin) == 2 * F.One()
  {
  }

  lemma UnderArith(v: nat, a: nat, b: nat, one: nat)
    requires v < a && b >= 2 * one && one > 0
    ensures 2 * (v * one) < a * b
  {
    MulMono(a, a, 2 * one, b);
    MulStrict(2 * one, v, a); MulComm(2 * one, v); MulComm(2 * one, a);
    assert v * (2 * one) == 2 * (v * one);
  }
}
