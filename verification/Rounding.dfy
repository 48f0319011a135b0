/** Rounding to a binary floating-point format: to nearest, ties to even (section 4.3.1 of
    IEEE 754-2008). Values are counted in units of the format's smallest subnormal, so that
    every finite value of the format is a natural number of units. */
module Rounding {
  import opened Powers

  /** p mantissa bits; emin and emax are the exponents of the last bit of a subnormal and of the
      largest normal numbers; values >= 10^dmax overflow, values < 10^dmin underflow. */
  datatype Format = Format(p: nat, emin: int, emax: int, dmax: int, dmin: int)
  {
    predicate Valid() { p >= 2 && emin <= 0 <= emax }
    /** One in units. */
    function One(): nat requires Valid() { Pow2(-emin) }
    /** The first power of two too large for the format, in units. */
    function Limit(): nat requires Valid() { Pow2(p + emax - emin) }
  }

  const FLT := Format(24, -149, 104, 40, -47)
  const DBL := Format(53, -1074, 971, 310, -325)
  const LDBL := Format(64, -16445, 16320, 4934, -4953)

  /** The formats are those of p bits with an exponent field of w bits (section 3.3 of IEEE 754-2008, and the
      extended format of the x87): the last bit of the largest numbers, and of the smallest. */
  lemma FormatsAre()
    ensures HasField(FLT, 24, 8) && HasField(DBL, 53, 11) && HasField(LDBL, 64, 15)
  {
    assert Pow2(7) == 128;
    PowAdd(2, 7, 3); PowAdd(2, 7, 7);
    assert Pow2(3) == 8;
  }

  predicate HasField(F: Format, p: nat, w: nat)
    requires w > 0
  {
    var bias := Pow2(w - 1) - 1;
    F.p == p && F.emax == bias - (p - 1) && F.emin == 1 - bias - (p - 1)
  }

  // ---- lengths ----

  function BitLen(n: nat): nat { if n == 0 then 0 else 1 + BitLen(n / 2) }

  lemma {:induction false} BitLenBounds(n: nat)
    requires n > 0
    ensures BitLen(n) > 0 && Pow2(BitLen(n) - 1) <= n < Pow2(BitLen(n))
    decreases n
  {
    if n > 1 { BitLenBounds(n / 2); }
  }

  lemma BitLenIs(n: nat, b: nat)
    requires n < Pow2(b) && (b > 0 ==> Pow2(b - 1) <= n)
    ensures BitLen(n) == b
  {
    if n > 0 {
      BitLenBounds(n);
      if BitLen(n) < b { PowMono(2, BitLen(n), b - 1); }
      if BitLen(n) > b { PowMono(2, b, BitLen(n) - 1); }
    }
  }

  // ---- rounding to an integer ----

  /** n / d to the nearest integer, ties to even. */
  function RoundInt(n: nat, d: nat): nat
    requires d > 0
  {
    var q, r := n / d, n % d;
    if 2 * r > d || (2 * r == d && q % 2 == 1) then q + 1 else q
  }

  lemma RoundIntScale(n: nat, d: nat, c: nat)
    requires d > 0 && c > 0
    ensures c * d > 0 && RoundInt(c * n, c * d) == RoundInt(n, d)
  {
    DivCancel(n, d, c);
    MulStrict(c, 2 * (n % d), d); MulStrict(c, d, 2 * (n % d));
    assert 2 * (c * (n % d)) == c * (2 * (n % d));
  }

  /** Only the ratio matters. */
  lemma RoundIntRatio(n: nat, d: nat, n': nat, d': nat)
    requires d > 0 && d' > 0 && n * d' == n' * d
    ensures RoundInt(n, d) == RoundInt(n', d')
  {
    RoundIntScale(n, d, d'); RoundIntScale(n', d', d);
    MulComm(n, d'); MulComm(n', d); MulComm(d, d');
  }

  // ---- rounding to a format ----

  /** The exponent (above emin) of the last mantissa bit of a number of f units. */
  function Quantum(F: Format, f: nat): nat {
    if BitLen(f) > F.p then BitLen(f) - F.p else 0
  }

  /** x / d units, rounded to F's precision as if its exponent range had no upper end. */
  function Round(F: Format, x: nat, d: nat): nat
    requires d > 0
  {
    var k := Quantum(F, x / d);
    RoundInt(x, d * Pow2(k)) * Pow2(k)
  }

  lemma RoundRatio(F: Format, x: nat, d: nat, x': nat, d': nat)
    requires d > 0 && d' > 0 && x * d' == x' * d
    ensures Round(F, x, d) == Round(F, x', d')
  {
    assert x / d == x' / d' by {
      DivCancel(x, d, d'); DivCancel(x', d', d);
      MulComm(x, d'); MulComm(x', d); MulComm(d, d');
    }
    var c := Pow2(Quantum(F, x / d));
    assert x * (d' * c) == x' * (d * c) by { MulAssoc(x, d', c); MulAssoc(x', d, c); }
    RoundIntRatio(x, d * c, x', d' * c);
  }

  /** A number of units that p bits can hold. */
  ghost predicate Holds(F: Format, v: nat) { exists m: nat, k: nat :: HoldsAs(F, v, m, k) }

  predicate HoldsAs(F: Format, v: nat, m: nat, k: nat) { m < Pow2(F.p) && v == m * Pow2(k) }

  function Dist(a: nat, b: nat): nat { if a < b then b - a else a - b }

  /** The last mantissa bit of v is zero. */
  predicate EvenLast(F: Format, v: nat) { v / Pow2(Quantum(F, v)) % 2 == 0 }

  /** v is the nearest number the format can hold to x / d, and of two equally near ones the
      one with an even mantissa. */
  ghost predicate NearestEven(F: Format, x: nat, d: nat, v: nat) {
    && Holds(F, v)
    && forall w: nat | Holds(F, w) ::
        Dist(x, v * d) <= Dist(x, w * d) && (Dist(x, v * d) == Dist(x, w * d) && w != v ==> EvenLast(F, v))
  }

  /** RoundInt picks the nearer of the two integers around n / d. */
  lemma RoundIntNearest(n: nat, d: nat)
    requires d > 0
    ensures var q, r := n / d, RoundInt(n, d);
            && q <= r <= q + 1 && q * d <= n < (q + 1) * d
            && Dist(n, r * d) <= Dist(n, q * d) && Dist(n, r * d) <= Dist(n, (q + 1) * d)
            && (Dist(n, q * d) == Dist(n, (q + 1) * d) ==> r % 2 == 0)
            && (r == q + 1 ==> n > q * d)
  {
    var q := n / d;
    DivMod(n, d);
    MulComm(d, q); MulDistr(d, q, 1); MulComm(d, q + 1);
  }

  /** Below 2^b units, and from 2^(b-1) on, everything the format holds is a multiple of the quantum. */
  lemma HeldMultiple(F: Format, w: nat, m: nat, j: nat, k: nat)
    requires HoldsAs(F, w, m, j) && F.p > 0 && (k == 0 || w >= Pow2(k + F.p - 1))
    ensures w % Pow2(k) == 0
  {
    if j < k {
      PowAdd(2, F.p, j);
      MulMono(m + 1, Pow2(F.p), Pow2(j), Pow2(j));
      MulDistr(Pow2(j), m, 1); MulComm(Pow2(j), m); MulComm(Pow2(j), m + 1);
      PowMono(2, F.p + j, k + F.p - 1);
      assert false;
    } else {
      PowAdd(2, k, j - k);
      MulAssoc(m, Pow2(k), Pow2(j - k)); MulComm(m, Pow2(k)); MulAssoc(Pow2(k), m, Pow2(j - k));
      DivUnique(w, Pow2(k), m * Pow2(j - k), 0);
    }
  }

  /** Between neighbouring multiples of g there is no multiple of g. */
  lemma NoMultipleBetween(w: nat, g: nat, q: nat)
    requires g > 0 && w % g == 0
    ensures w <= q * g || w >= (q + 1) * g
  {
    DivMod(w, g);
    var t := w / g;
    MulComm(g, t);
    if t <= q { MulMono(t, q, g, g); } else { MulMono(q + 1, t, g, g); }
  }

  /** The grid point below f, in terms of f's own length. */
  lemma GridBelow(F: Format, f: nat)
    requires F.p >= 2
    ensures var k := Quantum(F, f); var q := f / Pow2(k);
            q < Pow2(F.p) && q * Pow2(k) <= f < (q + 1) * Pow2(k)
                && (k > 0 ==> q >= Pow2(F.p - 1) && q * Pow2(k) >= Pow2(k + F.p - 1))
  {
    var k := Quantum(F, f); var g := Pow2(k); var q := f / g;
    DivMod(f, g); MulComm(g, q); MulDistr(g, q, 1); MulComm(g, q + 1);
    if f > 0 { BitLenBounds(f); }
    PowMono(2, BitLen(f), F.p + k);
    PowAdd(2, F.p, k);
    if q >= Pow2(F.p) { MulMono(Pow2(F.p), q, g, g); assert false; }
    if k > 0 {
      PowAdd(2, F.p - 1, k);
      DivBounds(f, g, Pow2(F.p - 1));
      MulComm(g, Pow2(F.p - 1));
      MulMono(Pow2(F.p - 1), q, g, g);
    }
  }

  /** Nothing that the format holds lies strictly between the grid points around x / d. */
  lemma GridNeighbours(F: Format, x: nat, d: nat, w: nat)
    requires F.p >= 2 && d > 0 && Holds(F, w)
    ensures var g := Pow2(Quantum(F, x / d)); var q := x / (d * g); w <= q * g || w >= (q + 1) * g
  {
    var f := x / d;
    var k := Quantum(F, f); var g := Pow2(k); var q := x / (d * g);
    DivDiv(x, d, g);
    GridBelow(F, f);
    if q * g < w {
      var m: nat, j: nat :| HoldsAs(F, w, m, j);
      HeldMultiple(F, w, m, j, k);
      NoMultipleBetween(w, g, q);
    }
  }

  /** Every result of Round is a number the format holds (with an unbounded exponent). */
  lemma RoundHolds(F: Format, x: nat, d: nat)
    requires F.p >= 2 && d > 0
    ensures var k := Quantum(F, x / d); RoundInt(x, d * Pow2(k)) <= Pow2(F.p)
    ensures Holds(F, Round(F, x, d))
  {
    var f := x / d;
    var k := Quantum(F, f); var g := Pow2(k);
    DivDiv(x, d, g);
    GridBelow(F, f);
    var r := RoundInt(x, d * g);
    if r < Pow2(F.p) {
      assert HoldsAs(F, r * g, r, k);
    } else {
      PowAdd(2, F.p - 1, k + 1);
      PowAdd(2, F.p, k);
      PowStrict(2, F.p - 1, F.p);
      assert HoldsAs(F, r * g, Pow2(F.p - 1), k + 1);
    }
  }

  /** The quantum of a grid point: the grid's own, except at the next power of two. */
  lemma PointQuantum(F: Format, k: nat, r: nat)
    requires F.p >= 2 && r <= Pow2(F.p) && (k > 0 ==> r >= Pow2(F.p - 1))
    ensures Quantum(F, r * Pow2(k)) == if r == Pow2(F.p) then k + 1 else k
  {
    if r == Pow2(F.p) {
      PowAdd(2, F.p, k);
      PowStrict(2, F.p + k, F.p + k + 1);
      BitLenIs(r * Pow2(k), F.p + k + 1);
    } else if k == 0 {
      ShortEnough(F, r);
    } else {
      InnerQuantum(F, k, r);
    }
  }

  lemma InnerQuantum(F: Format, k: nat, r: nat)
    requires F.p >= 2 && k > 0 && Pow2(F.p - 1) <= r < Pow2(F.p)
    ensures Quantum(F, r * Pow2(k)) == k
  {
    hide Pow;
    var g := Pow2(k);
    PowAdd(2, F.p, k); PowAdd(2, F.p - 1, k);
    MulMono(r + 1, Pow2(F.p), g, g);
    MulMono(Pow2(F.p - 1), r, g, g);
    BitLenIs(r * g, F.p + k);
  }

  lemma ShortEnough(F: Format, v: nat)
    requires v < Pow2(F.p)
    ensures Quantum(F, v) == 0
  {
    if v > 0 {
      BitLenBounds(v);
      if BitLen(v) > F.p { PowMono(2, F.p, BitLen(v) - 1); assert false; }
    }
  }

  /** A tie goes to the neighbour with an even mantissa. */
  lemma TieEven(F: Format, f: nat, r: nat)
    requires F.p >= 2
    requires var q := f / Pow2(Quantum(F, f)); q <= r <= q + 1 && r % 2 == 0
    ensures EvenLast(F, r * Pow2(Quantum(F, f)))
  {
    hide Quantum; hide Pow;
    var k := Quantum(F, f); var g := Pow2(k);
    GridBelow(F, f);
    PointQuantum(F, k, r);
    if r == Pow2(F.p) {
      HalvePower(F.p, k);
    } else {
      DivUnique(r * g, g, r, 0);
    }
  }

  lemma HalvePower(p: nat, k: nat)
    requires p >= 2
    ensures Pow2(p) * Pow2(k) / Pow2(k + 1) % 2 == 0
  {
    assert Pow2(p - 1) == 2 * Pow2(p - 2);
    hide Pow;
    PowAdd(2, p, k); PowAdd(2, p - 1, k + 1);
    MulComm(Pow2(p - 1), Pow2(k + 1));
    DivUnique(Pow2(p) * Pow2(k), Pow2(k + 1), Pow2(p - 1), 0);
  }

  /** Round is rounding to nearest, ties to even. */
  lemma RoundIsNearest(F: Format, x: nat, d: nat)
    requires F.p >= 2 && d > 0
    ensures NearestEven(F, x, d, Round(F, x, d))
  {
    var k := Quantum(F, x / d); var g := Pow2(k);
    var q, r, v := x / (d * g), RoundInt(x, d * g), Round(F, x, d);
    RoundHolds(F, x, d);
    DivDiv(x, d, g);
    RoundIntNearest(x, d * g);
    forall w: nat | Holds(F, w)
      ensures Dist(x, v * d) <= Dist(x, w * d) && (Dist(x, v * d) == Dist(x, w * d) && w != v ==> EvenLast(F, v))
    {
      GridNeighbours(F, x, d, w);
      Farther(x, d, g, q, w);
      Regroup(r, d, g); Regroup(q, d, g); Regroup(q + 1, d, g);
      if Dist(x, v * d) == Dist(x, w * d) && w != v {
        TieOnGrid(x, d, g, q, r, w);
        TieEven(F, x / d, r);
      }
    }
  }

  lemma Regroup(r: nat, d: nat, g: nat)
    ensures r * g * d == r * (d * g)
  {
    MulAssoc(r, g, d); MulComm(g, d);
  }

  /** A point outside the grid cell around x / d is no nearer than the cell's end on its side. */
  lemma Farther(x: nat, d: nat, g: nat, q: nat, w: nat)
    requires d > 0 && g > 0 && q * (d * g) <= x < (q + 1) * (d * g) && (w <= q * g || w >= (q + 1) * g)
    ensures w <= q * g ==>
        Dist(x, w * d) >= Dist(x, q * (d * g)) && (Dist(x, w * d) == Dist(x, q * (d * g)) ==> w == q * g)
    ensures w >= (q + 1) * g ==>
        Dist(x, w * d) >= Dist(x, (q + 1) * (d * g))
            && (Dist(x, w * d) == Dist(x, (q + 1) * (d * g)) ==> w == (q + 1) * g)
  {
    Regroup(q, d, g); Regroup(q + 1, d, g);
    MulStrict(d, w, q * g); MulStrict(d, (q + 1) * g, w);
    MulComm(d, w); MulComm(d, q * g); MulComm(d, (q + 1) * g);
  }

  /** If another held point is as near as the chosen one, the cell's ends tie and the choice is even. */
  lemma TieOnGrid(x: nat, d: nat, g: nat, q: nat, r: nat, w: nat)
    requires d > 0 && g > 0 && q * (d * g) <= x < (q + 1) * (d * g) && (w <= q * g || w >= (q + 1) * g)
    requires r == RoundInt(x, d * g) && q == x / (d * g) && w != r * g && Dist(x, r * (d * g)) == Dist(x, w * d)
    ensures r % 2 == 0
  {
    RoundIntNearest(x, d * g);
    Farther(x, d, g, q, w);
    if r == q {
      assert w > q * g;
    }
  }

  // ---- order ----

  /** Of two numbers held, the one chosen is on its side of the middle. */
  lemma Nearer(x: nat, d: nat, v: nat, w: nat)
    requires d > 0 && Dist(x, v * d) <= Dist(x, w * d)
    ensures v > w ==> 2 * x >= (v + w) * d
    ensures v < w ==> 2 * x <= (v + w) * d
  {
    MulStrict(d, w, v); MulStrict(d, v, w); MulComm(d, v); MulComm(d, w);
    MulDistr(d, v, w); MulComm(d, v + w);
  }

  /** Rounding keeps the order. */
  lemma RoundMono(F: Format, x: nat, d: nat, x': nat, d': nat)
    requires F.p >= 2 && d > 0 && d' > 0 && x * d' <= x' * d
    ensures Round(F, x, d) <= Round(F, x', d')
  {
    hide Round; hide Holds; hide EvenLast; hide Dist;
    var v, v' := Round(F, x, d), Round(F, x', d');
    if v > v' {
      RoundIsNearest(F, x, d); RoundIsNearest(F, x', d');
      Nearer(x, d, v, v'); Nearer(x', d', v', v);
      MiddleTwice(x, d, x', d', v + v');
      RoundRatio(F, x, d, x', d');
    }
  }

  lemma MiddleTwice(x: nat, d: nat, x': nat, d': nat, s: nat)
    requires d > 0 && d' > 0 && x * d' <= x' * d && 2 * x >= s * d && 2 * x' <= s * d'
    ensures x * d' == x' * d
  {
    MulMono(s * d, 2 * x, d', d'); MulMono(2 * x', s * d', d, d);
    MulAssoc(s, d, d'); MulAssoc(s, d', d); MulComm(d, d');
    MulAssoc(2, x, d'); MulAssoc(2, x', d);
  }

  /** What the format holds is rounded to itself. */
  lemma HeldRounds(F: Format, v: nat)
    requires F.p >= 2 && Holds(F, v)
    ensures Round(F, v, 1) == v
  {
    hide Round; hide Holds; hide EvenLast;
    RoundIsNearest(F, v, 1);
    assert v * 1 == v;
  }

  /** Four times as much or more, unless it rounds to zero, rounds to more. */
  lemma RoundGrows(F: Format, x: nat, d: nat, x': nat, d': nat)
    requires F.p >= 2 && d > 0 && d' > 0 && 4 * x * d' <= x' * d
    ensures Round(F, x, d) <= Round(F, x', d')
    ensures Round(F, x, d) > 0 ==> Round(F, x, d) < Round(F, x', d')
  {
    hide Round; hide Holds; hide EvenLast; hide Dist;
    MulAssoc(4, x, d');
    RoundMono(F, x, d, x', d');
    var v := Round(F, x, d);
    if v > 0 {
      RoundIsNearest(F, x, d);
      ZeroHeld(F);
      DoubleHeld(F, v);
      HeldRounds(F, 2 * v);
      Nearer(x, d, v, 0);
      TwiceBelow(x, d, x', d', v);
      RoundMono(F, 2 * v, 1, x', d');
    }
  }

  lemma TwiceBelow(x: nat, d: nat, x': nat, d': nat, v: nat)
    requires d > 0 && d' > 0 && 4 * x * d' <= x' * d && 2 * x >= v * d
    ensures 2 * v * d' <= x' * 1
  {
    MulMono(2 * (v * d), 4 * x, d', d');
    assert 2 * (v * d) * d' == d * (2 * v * d') by {
      MulAssoc(2, v, d); MulComm(2 * v, d); MulAssoc(d, 2 * v, d');
    }
    MulComm(x', d);
    MulStrict(d, 2 * v * d', x');
  }

  lemma ZeroHeld(F: Format)
    ensures Holds(F, 0)
  {
    assert HoldsAs(F, 0, 0, 0);
  }

  lemma DoubleHeld(F: Format, v: nat)
    requires Holds(F, v)
    ensures Holds(F, 2 * v)
  {
    var m: nat, k: nat :| HoldsAs(F, v, m, k);
    PowNext(2, k);
    MulComm(m, 2 * Pow2(k)); MulAssoc(2, Pow2(k), m); MulComm(m, Pow2(k));
    assert HoldsAs(F, 2 * v, m, k + 1);
  }
}
