/** The hardware-float paths of `decimal` (src/strtod.c), with a floating-point operation modelled
    as rounding the exact result once, and `decimal` itself. */
module StrtodPaths {
  import opened Powers
  import opened Rounding
  import opened StrtodRound
  import opened StrtodExact

  // ---- hardware operations ----

  /** The float that is v units of F. */
  function FromUnits(F: Format, v: nat, neg: bool): Float
    requires F.Valid()
  {
    if v >= F.Limit() then Inf(neg) else Fin(neg, v / Pow2(Quantum(F, v)), F.emin + Quantum(F, v))
  }

  lemma FromUnitsOk(F: Format, v: nat, neg: bool)
    requires F.Valid() && Holds(F, v)
    ensures IsUnits(F, FromUnits(F, v, neg), v, neg)
  {
    if v < F.Limit() {
      hide Pow; hide BitLen;
      var m: nat, j: nat :| HoldsAs(F, v, m, j);
      var k := Quantum(F, v);
      GridBelow(F, v);
      if v > 0 { BitLenBounds(v); }
      HeldMultiple(F, v, m, j, k);
      DivMod(v, Pow2(k));
      MulComm(Pow2(k), v / Pow2(k));
      BitsBelow(v, F.p + F.emax - F.emin);
    }
  }

  /** (n / d) * 2^E rounded once. */
  function Hw(F: Format, n: nat, d: nat, E: int, neg: bool): Float
    requires F.Valid() && d > 0
  {
    FromUnits(F, Round(F, UnitsNum(F, n, E), UnitsDen(F, d, E)), neg)
  }

  function HwFromInt(F: Format, v: nat): Float requires F.Valid() { Hw(F, v, 1, 0, false) }

  function HwMul(F: Format, a: Float, b: Float): Float
    requires F.Valid() && a.Fin? && b.Fin?
  {
    Hw(F, a.m * b.m, 1, a.e + b.e, false)
  }

  function HwDiv(F: Format, a: Float, b: Float): Float
    requires F.Valid() && a.Fin? && b.Fin? && b.m > 0
  {
    Hw(F, a.m, b.m, a.e - b.e, false)
  }

  /** Conversion between formats. */
  function HwConvert(F: Format, a: Float, neg: bool): Float
    requires F.Valid()
  {
    if a.Inf? then Inf(neg) else Hw(F, a.m, 1, a.e, neg)
  }

  /** The constant 10^k, as 5^k * 2^k. */
  function Ten(k: nat): Float { Fin(false, Pow(5, k), k) }

  /** The tables hold their powers of ten exactly. */
  lemma TablesExact(k: nat)
    ensures k <= 22 ==> Pow(5, k) < Pow2(53)
    ensures k <= 27 ==> Pow(5, k) < Pow2(64)
  {
    if k <= 27 {
      FiveBound();
      if k <= 22 { PowMono(5, k, 22); }
      PowMono(5, k, 27);
    }
  }

  lemma FiveBound()
    ensures Pow(5, 22) < Pow2(53) && Pow(5, 27) < Pow2(64)
  {
    TwoPowers();
    FivePowers();
  }

  lemma TwoPowers()
    ensures Pow2(53) == 0x20_0000_0000_0000 && Pow2(64) == 0x1_0000_0000_0000_0000
  {
    hide Pow;
    SmallPowers();
    PowAdd(2, 4, 4); PowAdd(2, 8, 8); PowAdd(2, 16, 16); PowAdd(2, 32, 16); PowAdd(2, 48, 5); PowAdd(2, 32, 32);
  }

  lemma SmallPowers()
    ensures Pow2(4) == 16 && Pow2(5) == 32 && Pow(5, 4) == 625 && Pow(5, 5) == 3125
  {
  }

  lemma FivePowers()
    ensures Pow(5, 22) == 2384185791015625 && Pow(5, 27) == 7450580596923828125
  {
    hide Pow;
    SmallPowers();
    PowAdd(5, 4, 5); PowAdd(5, 9, 9); PowAdd(5, 18, 4); PowAdd(5, 22, 5);
  }

  // ---- values ----

  /** (n / d) * 2^E == N / D, scaled by 2^K to stay within the natural numbers. */
  predicate SameValue(n: nat, d: nat, E: int, N: nat, D: nat, K: nat) {
    E + K >= 0 && n * D * Pow2(E + K) == N * d * Pow2(K)
  }

  lemma SameValueRounds(F: Format, n: nat, d: nat, E: int, N: nat, D: nat, K: nat)
    requires F.Valid() && d > 0 && D > 0 && SameValue(n, d, E, N, D, K)
    ensures Round(F, UnitsNum(F, n, E), UnitsDen(F, d, E)) == Round(F, N * F.One(), D)
  {
    hide Round; hide Pow;
    if E >= F.emin {
      SameValueUp(n, d, E, N, D, K, -F.emin);
    } else {
      SameValueDown(n, d, E, N, D, K, -F.emin);
    }
    RoundRatio(F, UnitsNum(F, n, E), UnitsDen(F, d, E), N * F.One(), D);
  }

  lemma SameValueUp(n: nat, d: nat, E: int, N: nat, D: nat, K: nat, o: nat)
    requires SameValue(n, d, E, N, D, K) && E + o >= 0
    ensures n * Pow2(E + o) * D == N * Pow2(o) * d
  {
    hide Pow;
    var x, y, z, w := Pow2(E + K), Pow2(K), Pow2(o), Pow2(E + o);
    PowAdd(2, E + K, o); PowAdd(2, E + o, K);
    UpArith(n, d, N, D, x, y, z, w);
  }

  lemma UpArith(n: nat, d: nat, N: nat, D: nat, x: nat, y: nat, z: nat, w: nat)
    requires y > 0 && x * z == w * y && n * D * x == N * d * y
    ensures n * w * D == N * z * d
  {
    Swap3(n, w, D); Swap3(N, z, d);
    // y (n D w) == (n D x) z == (N d y) z == y (N d z)
    MulComm(y, n * D * w); MulAssoc(n * D, w, y); MulAssoc(n * D, x, z);
    MulAssoc(N * d, y, z); MulComm(y, z); MulAssoc(N * d, z, y); MulComm(N * d * z, y);
    MulStrict(y, n * D * w, N * d * z);
  }

  lemma Swap3(a: nat, b: nat, c: nat)
    ensures a * b * c == a * c * b
  {
    MulAssoc(a, b, c); MulComm(b, c); MulAssoc(a, c, b);
  }

  lemma SameValueDown(n: nat, d: nat, E: int, N: nat, D: nat, K: nat, o: nat)
    requires SameValue(n, d, E, N, D, K) && E + o < 0
    ensures n * D == N * Pow2(o) * (d * Pow2(-E - o))
  {
    hide Pow;
    var x, y, g := Pow2(E + K), Pow2(K), Pow2(-E);
    PowAdd(2, -E, E + K); PowAdd(2, o, -E - o);
    // y == g x
    calc {
      x * (n * D);
      { MulComm(x, n * D); }
      N * d * (g * x);
      { MulAssoc(N * d, g, x); MulComm(N * d * g, x); }
      x * (N * d * g);
    }
    MulStrict(x, n * D, N * d * g);
    calc {
      N * d * g;
      N * d * (Pow2(o) * Pow2(-E - o));
      { MulAssoc(N, d, Pow2(o) * Pow2(-E - o));
          MulAssoc(d, Pow2(o), Pow2(-E - o)); MulComm(d, Pow2(o)); MulAssoc(Pow2(o), d, Pow2(-E - o)); }
      N * (Pow2(o) * (d * Pow2(-E - o)));
      { MulAssoc(N, Pow2(o), d * Pow2(-E - o)); }
      N * Pow2(o) * (d * Pow2(-E - o));
    }
  }

  /** What the format holds, rounding leaves alone. */
  lemma RoundExact(F: Format, w: nat, c: nat)
    requires F.Valid() && Holds(F, w) && c > 0
    ensures Round(F, w * c, c) == w
  {
    hide Pow; hide BitLen;
    var m: nat, j: nat :| HoldsAs(F, w, m, j);
    MulComm(w, c);
    DivUnique(w * c, c, w, 0);
    var k := Quantum(F, w);
    GridBelow(F, w);
    HeldMultiple(F, w, m, j, k);
    DivMod(w, Pow2(k));
    var t := w / Pow2(k);
    // w c = (c 2^k) t
    MulAssoc(c, Pow2(k), t);
    MulStrict(c, 0, Pow2(k));
    DivUnique(w * c, c * Pow2(k), t, 0);
    MulComm(Pow2(k), t);
  }

  /** An integer of at most p bits converts exactly. */
  lemma IntExact(F: Format, v: nat)
    requires F.Valid() && v < Pow2(F.p) && v > 0
    ensures var a := HwFromInt(F, v); a.Fin? && a.m > 0 && a.e >= F.emin && SameValue(a.m, 1, a.e, v, 1, -F.emin)
  {
    hide Pow; hide Round;
    assert HoldsAs(F, v * F.One(), v, -F.emin);
    RoundExact(F, v * F.One(), 1);
    FromUnitsOk(F, v * F.One(), false);
    PowAdd(2, F.p, -F.emin);
    MulStrict(F.One(), v, Pow2(F.p)); MulComm(F.One(), v); MulComm(F.One(), Pow2(F.p));
    PowMono(2, F.p - F.emin, F.p + F.emax - F.emin);
    MulStrict(v, 0, F.One());
  }

  lemma MulExact(F: Format, a: Float, v: nat, q: nat)
    requires F.Valid() && a.Fin? && SameValue(a.m, 1, a.e, v, 1, -F.emin)
    ensures SameValue(a.m * Pow(5, q), 1, a.e + q, v * Pow(10, q), 1, -F.emin)
  {
    hide Pow;
    var K := -F.emin;
    PowAdd(2, a.e + K, q);
    PowTimes(2, 5, q);
    var f, x, g, y := Pow(5, q), Pow2(a.e + K), Pow2(q), Pow2(K);
    calc {
      a.m * f * (x * g);
      { MulAssoc(a.m, f, x * g);
          MulAssoc(f, x, g); MulComm(f, x); MulAssoc(x, f, g); MulAssoc(a.m, x, f * g); MulComm(f, g); }
      a.m * x * (g * f);
      v * y * (g * f);
      { MulAssoc(v, y, g * f); MulComm(y, g * f); MulAssoc(v, g * f, y); }
      v * (g * f) * y;
    }
  }

  lemma DivExact(F: Format, a: Float, v: nat, k: nat)
    requires F.Valid() && a.Fin? && SameValue(a.m, 1, a.e, v, 1, -F.emin)
    ensures SameValue(a.m, Pow(5, k), a.e - k, v, Pow(10, k), -F.emin + k)
  {
    hide Pow;
    PowAdd(2, -F.emin, k);
    PowTimes(2, 5, k);
    var f, x, g, y := Pow(5, k), Pow2(a.e - F.emin), Pow2(k), Pow2(-F.emin);
    calc {
      a.m * (g * f) * x;
      { MulAssoc(a.m, g * f, x); MulComm(g * f, x); MulAssoc(a.m, x, g * f); }
      a.m * x * (g * f);
      v * y * (g * f);
      { MulAssoc(v, y, g * f);
          MulComm(g, f); MulAssoc(y, f, g); MulComm(y, f); MulAssoc(f, y, g); MulAssoc(v, f, y * g); }
      v * f * (y * g);
    }
  }

  // ---- rounding twice ----

  /** If rounding n / d to an integer does not land half way between multiples of g, rounding
      that integer on to a multiple of g is rounding n / d to one. */
  lemma HalfwaySafe(n: nat, d: nat, g: nat, h: nat)
    requires d > 0 && h > 0 && g == 2 * h && RoundInt(n, d) % g != h
    ensures d * g > 0 && RoundInt(n, d * g) == RoundInt(RoundInt(n, d), g)
  {
    hide RoundInt;
    var a, b := Split(RoundInt(n, d), g);
    RoundIntWithin(n, d);
    HalfwayCases(n, d, g, h, RoundInt(n, d), a, b);
  }

  lemma Split(m: nat, g: nat) returns (a: nat, b: nat)
    requires g > 0
    ensures m == g * a + b && b < g && b == m % g
  {
    DivMod(m, g);
    a, b := m / g, m % g;
  }

  lemma HalfwayCases(n: nat, d: nat, g: nat, h: nat, m: nat, a: nat, b: nat)
    requires d > 0 && h > 0 && g == 2 * h && m == g * a + b && b < g && b != h
    requires 2 * (d * m) - d <= 2 * n <= 2 * (d * m) + d
    ensures d * g > 0 && RoundInt(n, d * g) == RoundInt(m, g)
  {
    hide RoundInt;
    RoundIntOf(m, g, a, b);
    MulStrict(d, 0, g);
    MulDistr(d, g * a, b); MulAssoc(d, g, a);
    if b > h {
      AbovePart(n, d, g, h, a, b, m);
    } else if b == 0 && n < d * m {
      JustBelow(n, d, g, h, a, m);
    } else {
      BelowPart(n, d, g, h, a, b, m);
    }
  }

  lemma RoundIntWithin(n: nat, d: nat)
    requires d > 0
    ensures var m := RoundInt(n, d); 2 * (d * m) - d <= 2 * n <= 2 * (d * m) + d
  {
    DivMod(n, d);
    MulDistr(d, n / d, 1);
  }

  lemma RoundIntOf(m: nat, g: nat, a: nat, b: nat)
    requires g > 0 && m == g * a + b && b < g && 2 * b != g
    ensures RoundInt(m, g) == if 2 * b > g then a + 1 else a
  {
    DivUnique(m, g, a, b);
  }

  lemma AbovePart(n: nat, d: nat, g: nat, h: nat, a: nat, b: nat, m: nat)
    requires d > 0 && h > 0 && g == 2 * h && h < b < g && d * g > 0
    requires d * m == d * g * a + d * b && 2 * (d * m) - d <= 2 * n <= 2 * (d * m) + d
    ensures RoundInt(n, d * g) == a + 1
  {
    MulMono(d, d, b + 1, g); MulDistr(d, b, 1);
    MulMono(d, d, h + 1, b); MulDistr(d, h, 1);
    assert d * g == 2 * (d * h);
    DivUnique(n, d * g, a, n - d * g * a);
  }

  lemma BelowPart(n: nat, d: nat, g: nat, h: nat, a: nat, b: nat, m: nat)
    requires d > 0 && h > 0 && g == 2 * h && b < h && d * g > 0 && (b > 0 || n >= d * m)
    requires d * m == d * g * a + d * b && 2 * (d * m) - d <= 2 * n <= 2 * (d * m) + d
    ensures RoundInt(n, d * g) == a
  {
    MulMono(d, d, b + 1, h); MulDistr(d, b, 1);
    if b > 0 { MulMono(d, d, 1, b); }
    assert d * g == 2 * (d * h);
    DivUnique(n, d * g, a, n - d * g * a);
  }

  lemma JustBelow(n: nat, d: nat, g: nat, h: nat, a: nat, m: nat)
    requires d > 0 && h > 0 && g == 2 * h && d * g > 0 && n < d * m
    requires d * m == d * g * a && 2 * (d * m) - d <= 2 * n
    ensures RoundInt(n, d * g) == a
  {
    MulMono(d, d, 1, h);
    assert d * g == 2 * (d * h);
    assert a > 0;
    MulDistr(d * g, a - 1, 1);
    DivUnique(n, d * g, a - 1, n - d * g * (a - 1));
  }

  /** The quantum of the same number in a format with smaller units. */
  lemma QuantumShift(x: nat, d: nat, s: nat, y: nat)
    requires d > 0 && x / d > 0 && y == x * Pow2(s)
    ensures BitLen(y / d) == BitLen(x / d) + s
  {
    hide Pow; hide BitLen;
    BitLenBounds(x / d);
    var b := BitLen(x / d);
    DivBounds(x, d, Pow2(b - 1)); DivBounds(x, d, Pow2(b));
    ShiftedRange(x, d, Pow2(b - 1), Pow2(b), Pow2(s));
    PowAdd(2, b - 1, s); PowAdd(2, b, s);
    BitLenIs(y / d, b + s);
  }

  lemma ShiftedRange(x: nat, d: nat, lo: nat, hi: nat, g: nat)
    requires d > 0 && g > 0 && d * lo <= x < d * hi
    ensures lo * g <= x * g / d < hi * g
  {
    MulMono(d * lo, x, g, g); MulAssoc(d, lo, g);
    MulStrict(g, x, d * hi); MulComm(g, x); MulComm(g, d * hi); MulAssoc(d, hi, g);
    DivBounds(x * g, d, lo * g); DivBounds(x * g, d, hi * g);
  }

  /** The mantissa, at 64 bits, of the value x / d units of LDBL. */
  function Mantissa64(x: nat, d: nat): nat
    requires d > 0
  {
    RoundInt(x, d * Pow2(Quantum(LDBL, x / d)))
  }

  /** Rounding to 64 bits and on to F gives what rounding once gives, unless the 64-bit mantissa
      ends in exactly half a unit of F. x / d is in units of F, s the shift to units of LDBL. */
  lemma DoubleRounding(F: Format, x: nat, d: nat, s: nat)
    requires F.Valid() && F.p < 64 && d > 0 && BitLen(x / d) > F.p && BitLen(x / d) + s > 64
    requires Mantissa64(x * Pow2(s), d) % Pow2(64 - F.p) != Pow2(63 - F.p)
    ensures Round(F, x, d) == Round(F, Round(LDBL, x * Pow2(s), d), Pow2(s))
  {
    hide Pow; hide BitLen; hide RoundInt; hide Mantissa64; hide Round; hide Quantum;
    var b := BitLen(x / d);
    var kF, kL, drop := b - F.p, b + s - 64, 64 - F.p;
    var y, m := x * Pow2(s), Mantissa64(x * Pow2(s), d);
    HalfPower(drop);
    DoubleQuanta(F, x, d, s, y, kF, kL);
    RoundAt(F, x, d, kF);
    MantissaDef(y, d, kL);
    HalfwaySafe(y, d * Pow2(kL), Pow2(drop), Pow2(drop - 1));
    FineRound(x, d, s, kF, kL, drop);
    CoarseRound(F, y, d, m, kF, kL, s);
  }

  lemma DoubleQuanta(F: Format, x: nat, d: nat, s: nat, y: nat, kF: nat, kL: nat)
    requires d > 0 && y == x * Pow2(s) && kF > 0 && kL > 0 && BitLen(x / d) == F.p + kF && F.p + kF + s == 64 + kL
    ensures Quantum(F, x / d) == kF && Quantum(LDBL, y / d) == kL
  {
    hide Pow; hide BitLen; hide Quantum;
    BitLenPos(x / d);
    QuantumShift(x, d, s, y);
    QuantaOf(F, x / d, y / d, kF, kL);
  }

  lemma QuantaOf(F: Format, f: nat, g: nat, kF: nat, kL: nat)
    requires kF > 0 && kL > 0 && BitLen(f) == F.p + kF && BitLen(g) == 64 + kL
    ensures Quantum(F, f) == kF && Quantum(LDBL, g) == kL
  {
    hide BitLen;
  }

  lemma QuantumIs(F: Format, f: nat)
    requires BitLen(f) > F.p
    ensures Quantum(F, f) == BitLen(f) - F.p
  {
  }

  lemma RoundAt(F: Format, x: nat, d: nat, k: nat)
    requires d > 0 && Quantum(F, x / d) == k
    ensures d * Pow2(k) > 0 && Round(F, x, d) == RoundInt(x, d * Pow2(k)) * Pow2(k)
  {
  }

  lemma BitLenPos(f: nat)
    ensures BitLen(f) > 0 ==> f > 0
  {
  }

  lemma MantissaDef(y: nat, d: nat, k: nat)
    requires d > 0 && Quantum(LDBL, y / d) == k
    ensures d * Pow2(k) > 0 && Mantissa64(y, d) == RoundInt(y, d * Pow2(k))
        && Round(LDBL, y, d) == Mantissa64(y, d) * Pow2(k)
    ensures k > 0 ==> Pow2(63) <= Mantissa64(y, d) <= Pow2(64)
  {
    hide Pow; hide BitLen; hide RoundInt;
    RoundHolds(LDBL, y, d);
    GridBelow(LDBL, y / d);
    DivDiv(y, d, Pow2(k));
    RoundIntNearest(y, d * Pow2(k));
  }

  lemma FineRound(x: nat, d: nat, s: nat, kF: nat, kL: nat, drop: nat)
    requires d > 0 && kF + s == kL + drop
    ensures d * Pow2(kF) > 0 && d * Pow2(kL) * Pow2(drop) > 0
    ensures RoundInt(x, d * Pow2(kF)) == RoundInt(x * Pow2(s), d * Pow2(kL) * Pow2(drop))
  {
    hide Pow; hide RoundInt;
    PowAdd(2, kF, s); PowAdd(2, kL, drop);
    MulStrict(d, 0, Pow2(kF));
    RoundIntScale(x, d * Pow2(kF), Pow2(s));
    MulComm(Pow2(s), x); MulComm(Pow2(s), d * Pow2(kF)); MulAssoc(d, Pow2(kF), Pow2(s));
    MulAssoc(d, Pow2(kL), Pow2(drop));
  }

  /** Rounding the 64-bit result m * 2^kL on to F. */
  lemma CoarseRound(F: Format, y: nat, d: nat, m: nat, kF: nat, kL: nat, s: nat)
    requires F.Valid() && F.p < 64 && kF + s == kL + 64 - F.p && Pow2(63) <= m <= Pow2(64) && kF > 0
    ensures Round(F, m * Pow2(kL), Pow2(s)) == RoundInt(m, Pow2(64 - F.p)) * Pow2(kF)
  {
    var drop := 64 - F.p;
    HalfPower(64); HalfPower(drop);
    hide Pow; hide BitLen; hide RoundInt;
    if m == Pow2(64) {
      PowerRounds(F, kF, kL, s);
    } else {
      CoarseQuantum(F, m, kL, s, kF);
      PowAdd(2, kF, s); PowAdd(2, kL, drop);
      RoundIntScale(m, Pow2(drop), Pow2(kL));
      MulComm(Pow2(kL), m); MulComm(Pow2(kL), Pow2(drop)); MulComm(Pow2(s), Pow2(kF));
    }
  }

  lemma CoarseQuantum(F: Format, m: nat, kL: nat, s: nat, kF: nat)
    requires F.Valid() && F.p < 64 && kF + s == kL + 64 - F.p && Pow2(63) <= m < Pow2(64) && kF > 0
    ensures Quantum(F, m * Pow2(kL) / Pow2(s)) == kF
  {
    hide Pow; hide BitLen;
    var b := kF + F.p;
    PowAdd(2, 63, kL); PowAdd(2, 64, kL);
    MulMono(Pow2(63), m, Pow2(kL), Pow2(kL));
    MulStrict(Pow2(kL), m, Pow2(64)); MulComm(Pow2(kL), m); MulComm(Pow2(kL), Pow2(64));
    PowAdd(2, s, b - 1); PowAdd(2, s, b);
    DivBounds(m * Pow2(kL), Pow2(s), Pow2(b - 1)); DivBounds(m * Pow2(kL), Pow2(s), Pow2(b));
    BitLenIs(m * Pow2(kL) / Pow2(s), b);
  }

  lemma PowerRounds(F: Format, kF: nat, kL: nat, s: nat)
    requires F.Valid() && F.p < 64 && kF + s == kL + 64 - F.p
    ensures Round(F, Pow2(64) * Pow2(kL), Pow2(s)) == RoundInt(Pow2(64), Pow2(64 - F.p)) * Pow2(kF)
  {
    hide Pow; hide BitLen; hide Round;
    PowAdd(2, 64, kL); PowAdd(2, F.p + kF, s); PowAdd(2, F.p, kF);
    PowAdd(2, F.p - 1, kF + 1); PowStrict(2, F.p - 1, F.p);
    assert HoldsAs(F, Pow2(F.p + kF), Pow2(F.p - 1), kF + 1);
    RoundExact(F, Pow2(F.p + kF), Pow2(s));
    PowAdd(2, 64 - F.p, F.p);
    DivUnique(Pow2(64), Pow2(64 - F.p), Pow2(F.p), 0);
  }
}
