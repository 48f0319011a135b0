/** Decimals of more than MAX_DIGITS digits (src/strtod.c): the digits kept and one flag for the
    rest decide the rounding to float and double, because no number of those formats and no point
    half way between two of them needs that many digits. */
module StrtodSticky {
  import opened Powers
  import opened Rounding
  import opened StrtodRound
  import opened StrtodDecimal
  import opened StrtodExact

  // ---- what decides a rounding ----

  /** A point above lo = x0 / d0 and below the next multiple of half lo's quantum rounds to a
      value that lo alone decides. */
  lemma InsideRounds(F: Format, x0: nat, d0: nat, x: nat, d: nat, k: nat, t: nat)
    requires F.p >= 2 && d0 > 0 && d > 0 && k == Quantum(F, x0 / d0) && t == 2 * x0 / (d0 * Pow2(k))
    requires x0 * d < x * d0 && 2 * x < (t + 1) * (d * Pow2(k))
    ensures Round(F, x, d) == (t + 1) / 2 * Pow2(k)
  {
    hide Pow; hide BitLen; hide RoundInt; hide Quantum;
    AboveStart(x0, d0, x, d, Pow2(k), t);
    InsideQuantum(F, x0, d0, x, d, k, t);
    InsideRoundInt(x, d * Pow2(k), t);
  }

  lemma AboveStart(x0: nat, d0: nat, x: nat, d: nat, g: nat, t: nat)
    requires d0 > 0 && d > 0 && g > 0 && d0 * g > 0 && t == 2 * x0 / (d0 * g) && x0 * d < x * d0
    ensures t * (d * g) < 2 * x
  {
    DivMod(2 * x0, d0 * g);
    // t d0 g <= 2 x0, so t d0 g d <= 2 x0 d < 2 x d0
    MulComm(d0 * g, t);
    AboveArith(t, d0, g, d, x0, x);
  }

  lemma AboveArith(t: nat, d0: nat, g: nat, d: nat, x0: nat, x: nat)
    requires d0 > 0 && d > 0 && t * (d0 * g) <= 2 * x0 && x0 * d < x * d0
    ensures t * (d * g) < 2 * x
  {
    MulMono(t * (d0 * g), 2 * x0, d, d);
    MulAssoc(2, x0, d);
    AboveGroup(t, d0, g, d);
    MulComm(x, d0); MulAssoc(2, x, d0); MulComm(2 * x, d0);
    MulStrict(d0, t * (d * g), 2 * x);
  }

  lemma AboveGroup(t: nat, d0: nat, g: nat, d: nat)
    ensures t * (d0 * g) * d == d0 * (t * (d * g))
  {
    MulAssoc(t, d0 * g, d); MulAssoc(d0, g, d); MulComm(g, d); MulAssoc(t, d0, d * g); MulComm(t, d0);
    MulAssoc(d0, t, d * g);
  }

  lemma InsideRoundInt(x: nat, D: nat, t: nat)
    requires D > 0 && t * D < 2 * x < (t + 1) * D
    ensures RoundInt(x, D) == (t + 1) / 2
  {
    var r := t / 2;
    if t % 2 == 0 {
      assert t * D == 2 * (D * r);
      MulDistr(D, t, 1); MulComm(D, t); MulComm(D, t + 1);
      DivUnique(x, D, r, x - D * r);
    } else {
      assert (2 * r + 1) * D == 2 * (D * r) + D;
      assert (2 * r + 2) * D == 2 * (D * r) + 2 * D;
      DivUnique(x, D, r, x - D * r);
    }
  }

  /** The point has lo's quantum too. */
  lemma InsideQuantum(F: Format, x0: nat, d0: nat, x: nat, d: nat, k: nat, t: nat)
    requires F.p >= 2 && d0 > 0 && d > 0 && k == Quantum(F, x0 / d0) && t == 2 * x0 / (d0 * Pow2(k))
    requires x0 * d < x * d0 && 2 * x < (t + 1) * (d * Pow2(k))
    ensures Quantum(F, x / d) == k
  {
    hide Pow; hide BitLen;
    TopIndex(F, x0, d0, k, t);
    PowAdd(2, F.p, k);
    BelowTop(x, d, t, Pow2(F.p), Pow2(k));
    DivBounds(x, d, Pow2(F.p + k));
    FloorMono(x0, d0, x, d);
    QuantumBetween(F, x0 / d0, x / d, k);
  }

  /** The index of a half-quantum step stays below 2^(p + 1). */
  lemma TopIndex(F: Format, x0: nat, d0: nat, k: nat, t: nat)
    requires F.p >= 2 && d0 > 0 && k == Quantum(F, x0 / d0) && d0 * Pow2(k) > 0 && t == 2 * x0 / (d0 * Pow2(k))
    ensures t + 1 <= 2 * Pow2(F.p)
  {
    hide Pow; hide BitLen; hide Quantum;
    var D := d0 * Pow2(k);
    GridBelow(F, x0 / d0);
    DivDiv(x0, d0, Pow2(k));
    DivMod(x0, D);
    var q := x0 / D;
    MulDistr(D, q, 1);
    assert 2 * (D * (q + 1)) == D * (2 * (q + 1));
    DivBounds(2 * x0, D, 2 * (q + 1));
  }

  lemma BelowTop(x: nat, d: nat, t: nat, P: nat, g: nat)
    requires d > 0 && 2 * x < (t + 1) * (d * g) && t + 1 <= 2 * P
    ensures x < d * (P * g)
  {
    MulMono(t + 1, 2 * P, d * g, d * g);
    assert 2 * P * (d * g) == 2 * (d * (P * g)) by {
      MulAssoc(2, P, d * g);
      MulAssoc(P, d, g);
      MulComm(P, d);
      MulAssoc(d, P, g);
    }
  }

  lemma FloorMono(x0: nat, d0: nat, x: nat, d: nat)
    requires d0 > 0 && d > 0 && x0 * d <= x * d0
    ensures x0 / d0 <= x / d
  {
    var f := x0 / d0;
    DivMod(x0, d0);
    MulMono(d0 * f, x0, d, d); MulAssoc(d0, f, d); MulComm(f, d); MulComm(x, d0);
    MulStrict(d0, d * f, x);
    DivBounds(x, d, f);
  }

  lemma QuantumBetween(F: Format, f0: nat, f: nat, k: nat)
    requires k == Quantum(F, f0) && f0 <= f < Pow2(F.p + k)
    ensures Quantum(F, f) == k
  {
    hide Pow; hide BitLen;
    BitsBelow(f, F.p + k);
    if k > 0 {
      BitLenFrom(f0, f);
    }
  }

  lemma BitLenFrom(f0: nat, f: nat)
    requires f0 <= f
    ensures BitLen(f0) <= BitLen(f)
  {
    hide Pow; hide BitLen;
    if f0 == 0 {
      BitLenZero();
    } else {
      BitLenBounds(f0); BitLenBounds(f);
      if BitLen(f) < BitLen(f0) { PowMono(2, BitLen(f), BitLen(f0) - 1); assert false; }
    }
  }

  lemma BitLenZero()
    ensures BitLen(0) == 0
  {
  }

  // ---- decimals ----

  /** 2^53 * 5^1074 < 10^799. */
  lemma HalfwayDigits(p: nat, a: nat)
    requires p <= 53 && a <= 1074
    ensures Pow2(p) * Pow(5, a) <= Pow(10, 799)
  {
    hide Pow;
    PowMono(2, p, 53); PowMono(5, a, 1074);
    MulMono(Pow2(p), Pow2(53), Pow(5, a), Pow(5, 1074));
    PowAdd(5, 799, 275); FiveBelow(); PowMono(2, 746, 746); PowAdd(2, 53, 746); PowTimes(2, 5, 799);
    MulMono(Pow(5, 799), Pow(5, 799), Pow(5, 275), Pow2(746));
    MulMono(Pow2(53), Pow2(53), Pow(5, 1074), Pow(5, 799) * Pow2(746));
    MulComm(Pow(5, 799), Pow2(746)); MulAssoc(Pow2(53), Pow2(746), Pow(5, 799));
  }

  lemma FiveBelow()
    ensures Pow(5, 275) <= Pow2(746)
  {
    assert Pow(5, 3) == 125 && Pow2(7) == 128;
    hide Pow;
    PowPow(5, 3, 92); PowPow(2, 7, 92); PowBaseMono(125, 128, 92);
    PowMono(5, 275, 276); PowMono(2, 644, 746);
  }

  /** The next step of half a quantum above an 800-digit decimal V * 10^-c is at least one unit
      of its last digit away. */
  lemma NextStep(F: Format, V: nat, c: nat, k: nat, t: nat)
    requires F.Valid() && F.p <= 53 && -F.emin <= 1074 && V >= Pow(10, 799)
    requires t + 1 <= 2 * Pow2(F.p) && 2 * (V * F.One()) < (t + 1) * (Pow(10, c) * Pow2(k))
    ensures 2 * ((V + 1) * F.One()) <= (t + 1) * (Pow(10, c) * Pow2(k))
  {
    hide Pow;
    var o := -F.emin;
    StepPower(t + 1, c, k);
    TwoTimes(V, o); TwoTimes(V + 1, o);
    if k + c >= o + 1 {
      PowAdd(2, o + 1, k + c - o - 1);
      StepDivides(V, t + 1, Pow2(o + 1), Pow2(k + c - o - 1), Pow(5, c));
    } else {
      HalfwayDigits(F.p, c);
      FarBelow(V, t + 1, o, k + c, Pow2(F.p), Pow(5, c), Pow(10, 799));
    }
  }

  lemma StepPower(u: nat, c: nat, k: nat)
    ensures u * (Pow(10, c) * Pow2(k)) == u * (Pow2(k + c) * Pow(5, c))
  {
    hide Pow;
    PowTimes(2, 5, c); PowAdd(2, k, c);
    MulComm(Pow2(c) * Pow(5, c), Pow2(k)); MulAssoc(Pow2(k), Pow2(c), Pow(5, c));
  }

  lemma TwoTimes(v: nat, o: nat)
    ensures 2 * (v * Pow2(o)) == v * Pow2(o + 1)
  {
    assert Pow2(o + 1) == 2 * Pow2(o);
    hide Pow;
    MulAssoc(v, 2, Pow2(o)); MulComm(v, 2); MulAssoc(2, v, Pow2(o));
  }

  lemma StepDivides(V: nat, u: nat, g: nat, h: nat, f: nat)
    requires g > 0 && V * g < u * (g * h * f)
    ensures (V + 1) * g <= u * (g * h * f)
  {
    assert u * (g * h * f) == g * (u * (h * f)) by {
      MulAssoc(g, h, f);
      MulAssoc(u, g, h * f);
      MulComm(u, g);
      MulAssoc(g, u, h * f);
    }
    MulComm(V, g); MulComm(V + 1, g);
    MulStrict(g, V, u * (h * f));
    MulStrict(g, V + 1, u * (h * f));
  }

  /** Otherwise the decimal would be larger than the step. */
  lemma FarBelow(V: nat, u: nat, o: nat, j: nat, P: nat, f: nat, T: nat)
    requires j <= o && u <= 2 * P && P * f <= T <= V
    ensures u * (Pow2(j) * f) <= V * Pow2(o + 1)
  {
    assert Pow2(o + 1) == 2 * Pow2(o);
    hide Pow;
    PowMono(2, j, o);
    FarArith(u, P, Pow2(j), f, V, Pow2(o));
  }

  lemma FarArith(u: nat, P: nat, g: nat, f: nat, V: nat, h: nat)
    requires u <= 2 * P && g <= h && P * f <= V
    ensures u * (g * f) <= V * (2 * h)
  {
    MulMono(g, h, f, f);
    MulMono(u, 2 * P, g * f, h * f);
    assert 2 * P * (h * f) == P * f * (2 * h) by {
      MulComm(2, P); MulAssoc(P, 2, h * f); MulAssoc(2, h, f); MulComm(2 * h, f); MulAssoc(P, f, 2 * h);
    }
    MulMono(P * f, V, 2 * h, 2 * h);
  }

  // ---- the flag stands for the rest of the digits ----

  /** What a point just above x0 / d0 rounds to. */
  function JustAbove(F: Format, x0: nat, d0: nat): nat
    requires d0 > 0
  {
    var k := Quantum(F, x0 / d0);
    PositiveProduct(d0, Pow2(k));
    (2 * x0 / (d0 * Pow2(k)) + 1) / 2 * Pow2(k)
  }

  lemma PositiveProduct(a: nat, b: nat)
    requires a > 0 && b > 0
    ensures a * b > 0
  {
  }

  lemma JustAboveRatio(F: Format, x: nat, d: nat, x': nat, d': nat)
    requires d > 0 && d' > 0 && x * d' == x' * d
    ensures JustAbove(F, x, d) == JustAbove(F, x', d')
  {
    hide Pow; hide Quantum;
    SameFloor(x, d, x', d');
    var c := Pow2(Quantum(F, x / d));
    MulStrict(d, 0, c); MulStrict(d', 0, c);
    MulAssoc(2, x, d' * c); MulAssoc(2, x', d * c); MulAssoc(x, d', c); MulAssoc(x', d, c);
    SameFloor(2 * x, d * c, 2 * x', d' * c);
  }

  lemma SameFloor(x: nat, d: nat, x': nat, d': nat)
    requires d > 0 && d' > 0 && x * d' == x' * d
    ensures x / d == x' / d'
  {
    FloorMono(x, d, x', d'); FloorMono(x', d', x, d);
  }

  /** The decimal N * 10^(Q - j), whose first 800 digits are V and whose others are not all zero. */
  lemma TailRounds(F: Format, V: nat, Q: int, N: nat, j: nat)
    requires F.Valid() && F.p <= 53 && -F.emin <= 1074 && V >= Pow(10, 799) && Q < 0
    requires V * Pow(10, j) < N < (V + 1) * Pow(10, j)
    ensures Rounded(F, N, Q - j) == JustAbove(F, DecimalX(F, V, Q), DecimalD(Q))
  {
    hide Pow; hide Round; hide Quantum;
    var one, c := F.One(), -Q;
    var x0, d0, x, d := V * one, Pow(10, c), N * one, Pow(10, c + j);
    var k := Quantum(F, x0 / d0);
    MulStrict(d0, 0, Pow2(k));
    var t := 2 * x0 / (d0 * Pow2(k));
    PowAdd(10, c, j);
    TailAbove(V, N, one, d0, Pow(10, j));
    TopIndex(F, x0, d0, k, t);
    NextUp(2 * x0, d0 * Pow2(k), t);
    NextStep(F, V, c, k, t);
    TailBelow(V, N, one, d0, Pow(10, j), Pow2(k), t + 1);
    InsideRounds(F, x0, d0, x, d, k, t);
  }

  lemma NextUp(a: nat, b: nat, t: nat)
    requires b > 0 && t == a / b
    ensures a < (t + 1) * b
  {
    DivMod(a, b);
    MulDistr(b, t, 1); MulComm(b, t + 1);
  }

  lemma TailAbove(V: nat, N: nat, one: nat, a: nat, b: nat)
    requires one > 0 && a > 0 && V * b < N
    ensures V * one * (a * b) < N * one * a
  {
    MulStrict(one * a, V * b, N); MulStrict(one, 0, a);
    MulAssoc(N, one, a); MulComm(N, one * a);
    MulComm(a, b); MulAssoc(V, one, b * a); MulAssoc(one, b, a); MulComm(one, b); MulAssoc(b, one, a);
    MulAssoc(V, b, one * a); MulComm(V * b, one * a);
  }

  lemma TailBelow(V: nat, N: nat, one: nat, a: nat, b: nat, g: nat, u: nat)
    requires b > 0 && one > 0 && N < (V + 1) * b && 2 * ((V + 1) * one) <= u * (a * g)
    ensures 2 * (N * one) < u * (a * b * g)
  {
    MulStrict(one, N, (V + 1) * b); MulComm(one, N);
    // 2 N one < 2 one (V + 1) b <= u a g b
    MulMono(2 * ((V + 1) * one), u * (a * g), b, b);
    assert 2 * ((V + 1) * one) * b == 2 * (one * ((V + 1) * b)) by {
      MulAssoc(2, (V + 1) * one, b);
      MulComm(V + 1, one);
      MulAssoc(one, V + 1, b);
    }
    assert u * (a * g) * b == u * (a * b * g) by {
      MulAssoc(u, a * g, b);
      MulAssoc(a, g, b);
      MulComm(g, b);
      MulAssoc(a, b, g);
    }
  }

  /** The point the exact path rounds when the flag is set. */
  lemma FlagRounds(F: Format, n: nat, d: nat, E: int)
    requires F.Valid() && d > 0 && BitLen(n / d) > F.p
    ensures Round(F, UnitsNum(F, 2 * n + 1, E), UnitsDen(F, 2 * d, E))
        == JustAbove(F, UnitsNum(F, n, E), UnitsDen(F, d, E))
  {
    hide Pow; hide Round; hide Quantum; hide BitLen; hide UnitsNum; hide UnitsDen;
    var x0, d0 := UnitsNum(F, n, E), UnitsDen(F, d, E);
    var k := Quantum(F, x0 / d0);
    FlagDrop(F, n, d, E);
    MulStrict(d0, 0, Pow2(k));
    var t := 2 * x0 / (d0 * Pow2(k));
    NextUp(2 * x0, d0 * Pow2(k), t);
    FlagInside(F, n, d, E, Drop(F, n / d, E), k, t);
    InsideRounds(F, x0, d0, UnitsNum(F, 2 * n + 1, E), UnitsDen(F, 2 * d, E), k, t);
  }

  /** It lies above what was kept and below the next half step. */
  lemma FlagInside(F: Format, n: nat, d: nat, E: int, drop: nat, k: nat, t: nat)
    requires d > 0 && drop > 0 && k == E + drop - F.emin
    requires 2 * UnitsNum(F, n, E) < (t + 1) * (UnitsDen(F, d, E) * Pow2(k))
    ensures UnitsNum(F, n, E) * UnitsDen(F, 2 * d, E) < UnitsNum(F, 2 * n + 1, E) * UnitsDen(F, d, E)
    ensures 2 * UnitsNum(F, 2 * n + 1, E) < (t + 1) * (UnitsDen(F, 2 * d, E) * Pow2(k))
  {
    hide Pow;
    HalfPower(drop);
    if E >= F.emin {
      PowAdd(2, E - F.emin, drop);
      FlagUp(n, d, Pow2(E - F.emin), Pow2(drop - 1), t + 1);
    } else {
      PowAdd(2, F.emin - E, k);
      FlagDown(n, d, Pow2(F.emin - E), Pow2(k), Pow2(drop - 1), t + 1);
    }
  }

  lemma FlagDrop(F: Format, n: nat, d: nat, E: int)
    requires F.Valid() && d > 0 && BitLen(n / d) > F.p
    ensures Drop(F, n / d, E) > 0
    ensures Quantum(F, UnitsNum(F, n, E) / UnitsDen(F, d, E)) == E + Drop(F, n / d, E) - F.emin
  {
    hide Pow; hide Quantum; hide UnitsNum; hide UnitsDen;
    BitLenZero();
    UnitsQuantum(F, n, d, E);
  }

  lemma FlagUp(n: nat, d: nat, g: nat, h: nat, u: nat)
    requires g > 0 && d > 0 && 2 * (n * g) < u * (d * (g * (2 * h)))
    ensures n * g * (2 * d) < (2 * n + 1) * g * d
    ensures 2 * ((2 * n + 1) * g) < u * (2 * d * (g * (2 * h)))
  {
    assert u * (d * (g * (2 * h))) == 2 * (g * (u * (d * h))) by { Regroup4(u, d, g, h); }
    MulComm(n, g);
    MulStrict(g, n, u * (d * h));
    MulMono(g, g, n + 1, u * (d * h)); MulDistr(g, n, 1);
    assert (2 * n + 1) * g == 2 * (g * n) + g by { MulComm(2 * n + 1, g); MulDistr(g, 2 * n, 1); }
    assert 2 * d * (g * (2 * h)) == 2 * (d * (g * (2 * h))) by { MulAssoc(2, d, g * (2 * h)); }
    assert u * (2 * (d * (g * (2 * h)))) == 2 * (u * (d * (g * (2 * h)))) by {
      MulAssoc(u, 2, d * (g * (2 * h)));
      MulComm(u, 2);
      MulAssoc(2, u, d * (g * (2 * h)));
    }
    FlagOrder(n, g, d);
  }

  lemma FlagOrder(n: nat, g: nat, d: nat)
    requires g > 0 && d > 0
    ensures n * g * (2 * d) < (2 * n + 1) * g * d
  {
    assert n * g * (2 * d) == 2 * n * (g * d) by {
      MulAssoc(n, g, 2 * d);
      MulAssoc(g, 2, d);
      MulComm(g, 2);
      MulAssoc(2, g, d);
      MulAssoc(n, 2, g * d);
      MulComm(n, 2);
    }
    MulAssoc(2 * n + 1, g, d);
    MulStrict(g, 0, d);
    MulStrict(g * d, 2 * n, 2 * n + 1); MulComm(g * d, 2 * n); MulComm(g * d, 2 * n + 1);
  }

  lemma Regroup4(u: nat, d: nat, g: nat, h: nat)
    ensures u * (d * (g * (2 * h))) == 2 * (g * (u * (d * h)))
  {
    assert g * (2 * h) == 2 * (g * h) by { MulAssoc(g, 2, h); MulComm(g, 2); MulAssoc(2, g, h); }
    assert d * (2 * (g * h)) == 2 * (g * (d * h)) by {
      MulAssoc(d, 2, g * h);
      MulComm(d, 2);
      MulAssoc(2, d, g * h);
      MulAssoc(d, g, h);
      MulComm(d, g);
      MulAssoc(g, d, h);
    }
    assert u * (2 * (g * (d * h))) == 2 * (g * (u * (d * h))) by {
      MulAssoc(u, 2, g * (d * h));
      MulComm(u, 2);
      MulAssoc(2, u, g * (d * h));
      MulAssoc(u, g, d * h);
      MulComm(u, g);
      MulAssoc(g, u, d * h);
    }
  }

  lemma FlagDown(n: nat, d: nat, w: nat, g: nat, h: nat, u: nat)
    requires w > 0 && d > 0 && w * g == 2 * h && 2 * n < u * (d * w * g)
    ensures n * (2 * d * w) < (2 * n + 1) * (d * w)
    ensures 2 * (2 * n + 1) < u * (2 * d * w * g)
  {
    MulAssoc(d, w, g); MulAssoc(2 * d, w, g);
    assert d * (2 * h) == 2 * (d * h) by { MulAssoc(d, 2, h); MulComm(d, 2); MulAssoc(2, d, h); }
    assert u * (2 * (d * h)) == 2 * (u * (d * h)) by { MulAssoc(u, 2, d * h); MulComm(u, 2); MulAssoc(2, u, d * h); }
    assert 2 * d * (2 * h) == 2 * (2 * (d * h)) by { MulAssoc(2, d, 2 * h); }
    assert u * (2 * (2 * (d * h))) == 2 * (2 * (u * (d * h))) by {
      MulAssoc(u, 2, 2 * (d * h));
      MulComm(u, 2);
      MulAssoc(2, u, 2 * (d * h));
    }
    assert n * (2 * d * w) == 2 * n * (d * w) by { MulAssoc(2, d, w); MulAssoc(n, 2, d * w); MulComm(n, 2); }
    MulStrict(d, 0, w);
    MulStrict(d * w, 2 * n, 2 * n + 1); MulComm(d * w, 2 * n); MulComm(d * w, 2 * n + 1);
  }

  /** Trailing zeros can move between the digits and the exponent. */
  lemma SameDecimal(F: Format, v: nat, q: int, z: nat)
    requires F.Valid()
    ensures DecimalX(F, v * Pow(10, z), q - z) * DecimalD(q) == DecimalX(F, v, q) * DecimalD(q - z)
  {
    hide Pow;
    var one := F.One();
    if q - z >= 0 {
      PowAdd(10, z, q - z);
      MulAssoc(v, Pow(10, z), Pow(10, q - z));
    } else if q >= 0 {
      PowAdd(10, q, z - q);
      MulAssoc(v, Pow(10, q), Pow(10, z - q));
      MulAssoc(v * Pow(10, q), Pow(10, z - q), one); MulComm(Pow(10, z - q), one);
      MulAssoc(v * Pow(10, q), one, Pow(10, z - q));
    } else {
      PowAdd(10, z, -q);
      MulAssoc(v, Pow(10, z), one); MulComm(Pow(10, z), one); MulAssoc(v, one, Pow(10, z));
      MulAssoc(v * one, Pow(10, z), Pow(10, -q));
    }
  }

  lemma SameRounded(F: Format, v: nat, q: int, z: nat)
    requires F.Valid()
    ensures Rounded(F, v * Pow(10, z), q - z) == Rounded(F, v, q)
  {
    hide Pow; hide Round;
    SameDecimal(F, v, q, z);
    RoundRatio(F, DecimalX(F, v * Pow(10, z), q - z), DecimalD(q - z), DecimalX(F, v, q), DecimalD(q));
  }

  /** With the flag set, the exact path rounds a point just above the digits kept. */
  lemma PathIsFlagged(F: Format, v: nat, q: int, z: nat)
    requires F.Valid() && ScaledDen(F, v, q) > 0 && Scaled(F, ScaledNum(F, v, q), ScaledDen(F, v, q))
    ensures var e := ScaleExp(F, v, q);
            Round(F, UnitsNum(F, PathNum(F, v, q, true), e), UnitsDen(F, PathDen(F, v, q, true), e))
            == JustAbove(F, DecimalX(F, v * Pow(10, z), q - z), DecimalD(q - z))
  {
    hide Pow; hide Round; hide BitLen; hide UnitsNum; hide UnitsDen; hide ScaleExp; hide ScaledNum; hide ScaledDen;
    hide JustAbove; hide Scaled; hide DecimalX; hide DecimalD;
    var n, d, e := ScaledNum(F, v, q), ScaledDen(F, v, q), ScaleExp(F, v, q);
    QuotientBits(F, n, d);
    FlagRounds(F, n, d, e);
    ScaledSame(F, v, q);
    JustAboveRatio(F, UnitsNum(F, n, e), UnitsDen(F, d, e), DecimalX(F, v, q), DecimalD(q));
    SameDecimal(F, v, q, z);
    JustAboveRatio(F, DecimalX(F, v * Pow(10, z), q - z), DecimalD(q - z), DecimalX(F, v, q), DecimalD(q));
  }

  lemma ScaledSame(F: Format, v: nat, q: int)
    requires F.Valid()
    ensures var e := ScaleExp(F, v, q);
            UnitsNum(F, ScaledNum(F, v, q), e) * DecimalD(q) == DecimalX(F, v, q) * UnitsDen(F, ScaledDen(F, v, q), e)
  {
    hide Pow; hide BitLen; hide Num0; hide DecimalD; hide DecimalX;
    ScaledRatio(F, Num0(v, q), DecimalD(q), ScaleExp(F, v, q));
    XIsNum0(F, v, q);
  }
}
