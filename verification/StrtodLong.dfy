/** Decimals of more than MAX_DIGITS digits in any format (src/strtod.c): what the digits kept and the flag
    round to, and exactly when that is not what the whole decimal rounds to. */
module StrtodLong {
  import opened Powers
  import opened Rounding
  import opened StrtodDecimal
  import opened StrtodExact
  import opened StrtodSticky

  /** The half-quantum steps up to V * 10^Q, in units of F. */
  function Steps(F: Format, V: nat, Q: int): nat
    requires F.Valid()
  {
    StepsOf(DecimalX(F, V, Q), DecimalD(Q), StepSize(F, V, Q))
  }

  function StepsOf(x: nat, d: nat, k: nat): nat
    requires d > 0
  {
    PositiveProduct(d, Pow2(k));
    2 * x / (d * Pow2(k))
  }

  function StepSize(F: Format, V: nat, Q: int): nat
    requires F.Valid()
  {
    Quantum(F, DecimalX(F, V, Q) / DecimalD(Q))
  }

  /** The point half way between two numbers next above V * 10^Q is passed by N * 10^(Q - j), or met by it and
      rounded up from. */
  predicate Crosses(F: Format, V: nat, Q: int, N: nat, j: nat)
    requires F.Valid()
  {
    var t, half := Steps(F, V, Q), (Steps(F, V, Q) + 1) * (DecimalD(Q - j) * Pow2(StepSize(F, V, Q)));
    var x := 2 * DecimalX(F, N, Q - j);
    t % 2 == 0 && (x > half || (x == half && t / 2 % 2 == 1))
  }

  // ---- where the whole decimal lies ----

  lemma PerUnit(F: Format, v: nat, q: int)
    requires F.Valid()
    ensures DecimalX(F, v, q) == v * DecimalX(F, 1, q) && DecimalX(F, 1, q) > 0
  {
    hide Pow;
    var one := F.One();
    if q >= 0 {
      MulAssoc(v, Pow(10, q), one);
      PositiveProduct(Pow(10, q), one);
    }
  }

  lemma TailBetween(F: Format, V: nat, Q: int, N: nat, j: nat)
    requires F.Valid() && V * Pow(10, j) < N < (V + 1) * Pow(10, j)
    ensures var x0, d0, x, d := DecimalX(F, V, Q), DecimalD(Q), DecimalX(F, N, Q - j), DecimalD(Q - j);
            x0 * d < x * d0 && x * d0 < (x0 + DecimalX(F, 1, Q)) * d
  {
    hide Pow; hide DecimalX; hide DecimalD;
    var d0, d, u, c := DecimalD(Q), DecimalD(Q - j), DecimalX(F, 1, Q), DecimalX(F, 1, Q - j);
    var g := Pow(10, j);
    SameDecimal(F, V, Q, j); SameDecimal(F, V + 1, Q, j);
    PerUnit(F, V, Q); PerUnit(F, V + 1, Q); PerUnit(F, V * g, Q - j); PerUnit(F, (V + 1) * g, Q - j);
    PerUnit(F, N, Q - j);
    Ordered(V * g, N, c, d0); Ordered(N, (V + 1) * g, c, d0);
    MulDistr(u, V, 1); MulComm(u, V); MulComm(u, V + 1);
  }

  lemma Ordered(a: nat, b: nat, c: nat, d: nat)
    requires a < b && c > 0 && d > 0
    ensures a * c * d < b * c * d
  {
    MulStrict(c, a, b); MulComm(c, a); MulComm(c, b);
    MulStrict(d, a * c, b * c); MulComm(d, a * c); MulComm(d, b * c);
  }

  /** One unit of the last digit kept is at most half a step. */
  lemma SmallTail(F: Format, V: nat, Q: int)
    requires F.Valid() && F.p <= 64 && V >= Pow(10, 799)
    ensures 4 * DecimalX(F, 1, Q) <= DecimalD(Q) * Pow2(StepSize(F, V, Q))
  {
    hide Pow; hide DecimalX; hide DecimalD; hide BitLen;
    var u, x0, d0, k := DecimalX(F, 1, Q), DecimalX(F, V, Q), DecimalD(Q), StepSize(F, V, Q);
    PerUnit(F, V, Q);
    var f := x0 / d0;
    BelowBits(f, F.p + k);
    PowAdd(2, F.p, k);
    DivBounds(x0, d0, Pow2(F.p + k));
    ManyTens(F.p);
    SmallArith(u, V, d0, Pow2(F.p), Pow2(k), Pow(10, 799));
  }

  lemma ManyTens(p: nat)
    requires p <= 64
    ensures 4 * Pow2(p) <= Pow(10, 799)
  {
    assert Pow2(4) == 16 && Pow2(2) == 4;
    hide Pow;
    PowAdd(2, 2, p); PowMono(2, 2 + p, 799); PowBaseMono(2, 10, 799);
  }

  lemma SmallArith(u: nat, V: nat, d0: nat, P: nat, g: nat, T: nat)
    requires P > 0 && V >= T >= 4 * P && V * u < d0 * (P * g)
    ensures 4 * u <= d0 * g
  {
    MulMono(4 * P, V, u, u);
    assert 4 * P * u == P * (4 * u) by { MulComm(4, P); MulAssoc(P, 4, u); }
    assert d0 * (P * g) == P * (d0 * g) by { MulAssoc(d0, P, g); MulComm(d0, P); MulAssoc(P, d0, g); }
    MulStrict(P, 4 * u, d0 * g);
  }

  // ---- on either side of the next step ----

  /** The exact condition: the digits kept and the flag round as the whole decimal does unless the whole
      decimal crosses a half-way point that the digits kept are below. */
  lemma LongTail(F: Format, V: nat, Q: int, N: nat, j: nat)
    requires F.Valid() && F.p <= 64 && V >= Pow(10, 799) && V * Pow(10, j) < N < (V + 1) * Pow(10, j)
    ensures Rounded(F, N, Q - j) == JustAbove(F, DecimalX(F, V, Q), DecimalD(Q)) <==> !Crosses(F, V, Q, N, j)
  {
    hide Pow; hide Round; hide Quantum; hide DecimalX; hide DecimalD;
    var x0, d0, x, d := DecimalX(F, V, Q), DecimalD(Q), DecimalX(F, N, Q - j), DecimalD(Q - j);
    var k, t := StepSize(F, V, Q), Steps(F, V, Q);
    var g := Pow2(k);
    PositiveProduct(d0, g);
    TailBetween(F, V, Q, N, j);
    SmallTail(F, V, Q);
    NextUp(2 * x0, d0 * g, t);
    TopIndex(F, x0, d0, k, t);
    if 2 * x < (t + 1) * (d * g) {
      InsideRounds(F, x0, d0, x, d, k, t);
    } else {
      WithinNext(x0, d0, x, d, DecimalX(F, 1, Q), g, t);
      FloorMono(x0, d0, x, d);
      Beyond(F, x0 / d0, x, d, k, t);
    }
  }

  lemma WithinNext(x0: nat, d0: nat, x: nat, d: nat, u: nat, g: nat, t: nat)
    requires d0 > 0 && d > 0 && x * d0 < (x0 + u) * d && 2 * x0 < (t + 1) * (d0 * g) && 4 * u <= d0 * g
    ensures 4 * x < (2 * t + 3) * (d * g)
  {
    var D := d0 * g;
    assert 4 * (x0 + u) <= (2 * t + 3) * D by {
      MulDistr(D, 2 * (t + 1), 1);
      MulComm(D, 2 * (t + 1));
      MulComm(D, 2 * t + 3);
      MulAssoc(2, t + 1, D);
    }
    MulMono(4 * (x0 + u), (2 * t + 3) * D, d, d);
    assert 4 * (x * d0) < (2 * t + 3) * D * d by { MulAssoc(4, x0 + u, d); }
    assert (2 * t + 3) * D * d == d0 * ((2 * t + 3) * (d * g)) by { TimesAround(2 * t + 3, d0, g, d); }
    assert 4 * (x * d0) == d0 * (4 * x) by { MulComm(x, d0); MulAssoc(4, d0, x); MulComm(4, d0); MulAssoc(d0, 4, x); }
    if 4 * x >= (2 * t + 3) * (d * g) { MulMono(d0, d0, (2 * t + 3) * (d * g), 4 * x); }
  }

  lemma TimesAround(a: nat, d0: nat, g: nat, d: nat)
    ensures a * (d0 * g) * d == d0 * (a * (d * g))
  {
    MulAssoc(a, d0, g); MulComm(a, d0); MulAssoc(d0, a, g); MulAssoc(d0, a * g, d); MulAssoc(a, g, d); MulComm(g, d);
  }

  /** Between the next half-quantum step and the middle of the one after. */
  lemma Beyond(F: Format, f0: nat, x: nat, d: nat, k: nat, t: nat)
    requires F.p >= 2 && d > 0 && k == Quantum(F, f0) && f0 <= x / d && t + 1 <= 2 * Pow2(F.p)
    requires (t + 1) * (d * Pow2(k)) <= 2 * x && 4 * x < (2 * t + 3) * (d * Pow2(k))
    ensures var half := (t + 1) * (d * Pow2(k));
            Round(F, x, d) == (t + 1) / 2 * Pow2(k) <==>
                !(t % 2 == 0 && (2 * x > half || (2 * x == half && t / 2 % 2 == 1)))
  {
    hide Pow; hide BitLen; hide RoundInt;
    var G := d * Pow2(k);
    PositiveProduct(d, Pow2(k));
    if t + 1 < 2 * Pow2(F.p) {
      LowQuantum(F, f0, x, d, k, t);
      HalfUp(x, G, t, Pow2(k));
    } else {
      HighQuantum(F, x, d, k, t);
      PowNext(2, k);
      MulAssoc(d, 2, Pow2(k)); MulComm(d, 2); MulAssoc(2, d, Pow2(k));
      HalfPower(F.p);
      OnTop(x, G, Pow2(F.p - 1));
      MulAssoc(Pow2(F.p - 1), 2, Pow2(k)); MulComm(Pow2(F.p - 1), 2);
    }
  }

  lemma LowQuantum(F: Format, f0: nat, x: nat, d: nat, k: nat, t: nat)
    requires F.p >= 2 && d > 0 && k == Quantum(F, f0) && f0 <= x / d && t + 1 < 2 * Pow2(F.p)
    requires 4 * x < (2 * t + 3) * (d * Pow2(k))
    ensures Quantum(F, x / d) == k
  {
    hide Pow; hide BitLen; hide Quantum;
    var P, g := Pow2(F.p), Pow2(k);
    MulMono(2 * t + 3, 4 * P, d * g, d * g);
    assert 4 * P * (d * g) == 4 * (d * (P * g)) by {
      MulAssoc(4, P, d * g);
      MulAssoc(P, d, g);
      MulComm(P, d);
      MulAssoc(d, P, g);
    }
    PowAdd(2, F.p, k);
    DivBounds(x, d, Pow2(F.p + k));
    QuantumBetween(F, f0, x / d, k);
  }

  lemma HighQuantum(F: Format, x: nat, d: nat, k: nat, t: nat)
    requires F.p >= 2 && d > 0 && t + 1 == 2 * Pow2(F.p)
    requires (t + 1) * (d * Pow2(k)) <= 2 * x && 4 * x < (2 * t + 3) * (d * Pow2(k))
    ensures Quantum(F, x / d) == k + 1
  {
    hide Pow; hide BitLen;
    var P, g := Pow2(F.p), Pow2(k);
    assert (t + 1) * (d * g) == 2 * (d * (P * g)) by {
      MulAssoc(2, P, d * g);
      MulAssoc(P, d, g);
      MulComm(P, d);
      MulAssoc(d, P, g);
    }
    MulMono(2 * t + 3, 8 * P, d * g, d * g);
    assert 8 * P * (d * g) == 8 * (d * (P * g)) by {
      MulAssoc(8, P, d * g);
      MulAssoc(P, d, g);
      MulComm(P, d);
      MulAssoc(d, P, g);
    }
    PowAdd(2, F.p, k); PowNext(2, F.p + k);
    DivBounds(x, d, Pow2(F.p + k)); DivBounds(x, d, Pow2(F.p + k + 1));
    assert d * Pow2(F.p + k + 1) == 2 * (d * (P * g)) by {
      MulAssoc(d, 2, P * g);
      MulComm(d, 2);
      MulAssoc(2, d, P * g);
    }
    BitLenIs(x / d, F.p + k + 1);
  }

  lemma HalfUp(x: nat, G: nat, t: nat, g: nat)
    requires G > 0 && g > 0 && (t + 1) * G <= 2 * x && 4 * x < (2 * t + 3) * G
    ensures RoundInt(x, G) * g == (t + 1) / 2 * g <==>
        !(t % 2 == 0 && (2 * x > (t + 1) * G || (2 * x == (t + 1) * G && t / 2 % 2 == 1)))
  {
    var q := (t + 1) / 2;
    assert 2 * ((2 * t + 3) * G) == (4 * t + 6) * G by { MulAssoc(2, 2 * t + 3, G); }
    if t % 2 == 0 {
      assert (t + 1) * G == 2 * (G * q) + G by { OddSteps(G, q, t); }
      assert (2 * t + 3) * G == 4 * (G * q) + 3 * G by { TwiceSteps(G, q, t); }
      DivUnique(x, G, q, x - G * q);
      assert RoundInt(x, G) == q || RoundInt(x, G) == q + 1;
      Cancel(q + 1, q, g);
    } else {
      assert (t + 1) * G == 2 * (G * q) by { EvenSteps(G, q, t); }
      assert (2 * t + 3) * G == 4 * (G * q) + G by { EvenTwice(G, q, t); }
      DivUnique(x, G, q, x - G * q);
    }
  }

  lemma Cancel(a: nat, b: nat, g: nat)
    requires a > b && g > 0
    ensures a * g != b * g
  {
    MulStrict(g, b, a); MulComm(g, a); MulComm(g, b);
  }

  lemma OddSteps(G: nat, q: nat, t: nat)
    requires t == 2 * q
    ensures (t + 1) * G == 2 * (G * q) + G
  {
  }

  lemma TwiceSteps(G: nat, q: nat, t: nat)
    requires t == 2 * q
    ensures (2 * t + 3) * G == 4 * (G * q) + 3 * G
  {
  }

  lemma EvenSteps(G: nat, q: nat, t: nat)
    requires t + 1 == 2 * q
    ensures (t + 1) * G == 2 * (G * q)
  {
  }

  lemma EvenTwice(G: nat, q: nat, t: nat)
    requires t + 1 == 2 * q
    ensures (2 * t + 3) * G == 4 * (G * q) + G
  {
  }

  lemma OnTop(x: nat, G: nat, h: nat)
    requires G > 0 && 2 * (2 * h) * G <= 2 * x && 4 * x < (2 * (4 * h - 1) + 3) * G && h > 0
    ensures RoundInt(x, 2 * G) == h
  {
    assert 2 * (2 * h) * G == 4 * (G * h) && (2 * (4 * h - 1) + 3) * G == 8 * (G * h) + G;
    assert 2 * G * h == 2 * (G * h);
    DivUnique(x, 2 * G, h, x - 2 * G * h);
  }

  /** A point just above x0 / d0 rounds to no less than that, and to no more than what is above it. */
  lemma AboveBetween(F: Format, x0: nat, d0: nat, x: nat, d: nat)
    requires F.p >= 2 && d0 > 0 && d > 0 && x0 * d < x * d0
    ensures Round(F, x0, d0) <= JustAbove(F, x0, d0) <= Round(F, x, d)
  {
    hide Pow; hide Round; hide Quantum;
    var k := Quantum(F, x0 / d0);
    var g := Pow2(k);
    PositiveProduct(d0, g);
    var t, c := 2 * x0 / (d0 * g), d + 3;
    var x1, d1 := c * x0 + 1, c * d0;
    NextUp(2 * x0, d0 * g, t);
    PositiveProduct(c, d0);
    JustOver(x0, d0, x, d, c, g, t);
    InsideRounds(F, x0, d0, x1, d1, k, t);
    RoundMono(F, x0, d0, x1, d1); RoundMono(F, x1, d1, x, d);
  }

  lemma JustOver(x0: nat, d0: nat, x: nat, d: nat, c: nat, g: nat, t: nat)
    requires d0 > 0 && x0 * d < x * d0 && c == d + 3 && 2 * x0 < (t + 1) * (d0 * g)
    ensures var x1, d1 := c * x0 + 1, c * d0;
            x0 * d1 < x1 * d0 && 2 * x1 < (t + 1) * (d1 * g) && x1 * d <= x * d1
  {
    var D := (t + 1) * (d0 * g);
    MulMono(c, c, 2 * x0 + 1, D); MulDistr(c, 2 * x0, 1); MulAssoc(c, 2, x0); MulComm(c, 2); MulAssoc(2, c, x0);
    assert c * D == (t + 1) * (c * d0 * g) by {
      MulAssoc(c, t + 1, d0 * g); MulComm(c, t + 1); MulAssoc(t + 1, c, d0 * g); MulAssoc(c, d0, g);
    }
    MulMono(c, c, x0 * d + 1, x * d0); MulDistr(c, x0 * d, 1);
    assert c * (x * d0) == x * (c * d0) by { MulAssoc(c, x, d0); MulComm(c, x); MulAssoc(x, c, d0); }
    assert (c * x0 + 1) * d == c * (x0 * d) + d by { MulDistr(d, c * x0, 1); MulComm(d, c * x0); MulAssoc(c, x0, d); }
    assert (c * x0 + 1) * d0 == x0 * (c * d0) + d0 by {
      MulDistr(d0, c * x0, 1); MulComm(d0, c * x0); MulComm(c, x0); MulAssoc(x0, c, d0);
    }
  }

  /** What is read of a decimal of which V was kept lies between V and the whole, rounded. */
  lemma TailOrder(F: Format, V: nat, Q: int, N: nat, j: nat)
    requires F.Valid() && V * Pow(10, j) < N < (V + 1) * Pow(10, j)
    ensures Rounded(F, V, Q) <= JustAbove(F, DecimalX(F, V, Q), DecimalD(Q)) <= Rounded(F, N, Q - j)
  {
    hide Pow; hide Round; hide JustAbove; hide DecimalX; hide DecimalD;
    TailBetween(F, V, Q, N, j);
    AboveBetween(F, DecimalX(F, V, Q), DecimalD(Q), DecimalX(F, N, Q - j), DecimalD(Q - j));
  }

  // ---- it does happen ----

  /** A decimal of more than 800 digits that a long double is read from wrongly: a little more than half the
      smallest number, whose first 800 digits are a little less. It rounds to one unit and is read as zero. */
  lemma Misread() returns (V: nat, Q: int, N: nat, j: nat)
    ensures Pow(10, 799) <= V < Pow(10, 800) && V * Pow(10, j) < N < (V + 1) * Pow(10, j)
        && LDBL.dmin <= Q + 800 <= LDBL.dmax
    ensures Crosses(LDBL, V, Q, N, j)
    ensures Rounded(LDBL, N, Q - j) == 1 && JustAbove(LDBL, DecimalX(LDBL, V, Q), DecimalD(Q)) == 0
  {
    hide Pow; hide Round; hide Crosses; hide JustAbove;
    var h := Pow(5, 16446);
    N := 10 * h + 1;
    Large(h);
    j := Leading(N);
    V := N / Pow(10, j);
    Q := j - 16447;
    FiveOdd(16446);
    Apart(h, V, N, j);
    HalfUnit(h);
    Range(N, j);
    MisreadWhole(h, N);
    MisreadKept(h, V, j);
    MisreadCrosses(V, Q, N, j);
  }

  /** 10^16447 is 20 h times 2^16445. */
  lemma HalfUnit(h: nat)
    requires h == Pow(5, 16446)
    ensures Pow(10, 16447) == 20 * h * Pow2(16445) && h > 0 && Pow2(16445) >= 1 && 10 * h + 1 < Pow(10, 16447)
  {
    hide Pow;
    PowNext(10, 16446); PowTimes(2, 5, 16446); PowNext(2, 16445);
    var one := Pow2(16445);
    MulAssoc(2, one, h); MulComm(one, h); MulAssoc(20, h, one);
    MulMono(20 * h, 20 * h, 1, one);
  }

  /** A little more than half a unit. */
  lemma MisreadWhole(h: nat, N: nat)
    requires N == 10 * h + 1 && h > 0 && Pow(10, 16447) == 20 * h * Pow2(16445) && Pow2(16445) >= 1
    ensures LDBL.Valid() && Rounded(LDBL, N, -16447) == 1
    ensures 2 * DecimalX(LDBL, N, -16447) > DecimalD(-16447)
  {
    hide Pow; hide Round;
    var one, D := Pow2(16445), Pow(10, 16447);
    var x := DecimalX(LDBL, N, -16447);
    assert x == N * one && DecimalD(-16447) == D;
    TwentyTimes(h, one, x, D);
    OverHalf(LDBL, x, D);
  }

  lemma OverHalf(F: Format, x: nat, D: nat)
    requires x < D < 2 * x
    ensures Round(F, x, D) == 1
  {
    NoQuantum();
    hide Pow; hide Quantum;
    DivUnique(x, D, 0, x);
    assert D * 1 == D;
  }

  lemma UnderHalf(F: Format, x: nat, D: nat)
    requires 2 * x < D
    ensures Quantum(F, x / D) == 0 && StepsOf(x, D, 0) == 0 && JustAbove(F, x, D) == 0
  {
    NoQuantum();
    hide Pow; hide Quantum;
    DivUnique(x, D, 0, x);
    DivUnique(2 * x, D, 0, 2 * x);
    assert D * 1 == D;
  }

  lemma TwentyTimes(h: nat, one: nat, x: nat, D: nat)
    requires x == (10 * h + 1) * one && D == 20 * h * one && h > 0 && one >= 1
    ensures D < 2 * x && x < D
  {
    MulAssoc(10, h, one); MulAssoc(20, h, one); MulDistr(one, 10 * h, 1); MulComm(one, 10 * h + 1);
    MulComm(one, 10 * h);
    MulMono(1, h, one, one);
  }

  lemma NoQuantum()
    ensures Pow2(0) == 1 && forall F: Format :: Quantum(F, 0) == 0
  {
  }

  /** The digits kept are less. */
  lemma MisreadKept(h: nat, V: nat, j: nat)
    requires V * Pow(10, j) < 10 * h && Pow(10, 16447) == 20 * h * Pow2(16445) && Pow2(16445) >= 1 && j < 16447
    ensures LDBL.Valid() && 2 * DecimalX(LDBL, V, j - 16447) < DecimalD(j - 16447)
    ensures StepSize(LDBL, V, j - 16447) == 0 && Steps(LDBL, V, j - 16447) == 0
    ensures JustAbove(LDBL, DecimalX(LDBL, V, j - 16447), DecimalD(j - 16447)) == 0
  {
    hide Pow; hide Quantum; hide StepsOf; hide JustAbove;
    var one, g, d0 := Pow2(16445), Pow(10, j), Pow(10, 16447 - j);
    PowAdd(10, 16447 - j, j);
    var x0 := DecimalX(LDBL, V, j - 16447);
    assert x0 == V * one && DecimalD(j - 16447) == d0;
    KeptBelow(V, g, h, one, d0);
    UnderHalf(LDBL, x0, d0);
  }

  lemma KeptBelow(V: nat, g: nat, h: nat, one: nat, d0: nat)
    requires V * g < 10 * h && d0 * g == 20 * h * one && one >= 1 && g > 0
    ensures 2 * (V * one) < d0
  {
    MulStrict(one, V * g, 10 * h);
    assert 2 * (V * one) * g == 2 * (one * (V * g)) by {
      MulAssoc(2, V * one, g);
      MulComm(V, one);
      MulAssoc(one, V, g);
    }
    assert 2 * (one * (10 * h)) == 20 * h * one by { MulComm(one, 10 * h); MulAssoc(2, 10 * h, one); }
    if 2 * (V * one) >= d0 { MulMono(d0, 2 * (V * one), g, g); }
  }

  lemma MisreadCrosses(V: nat, Q: int, N: nat, j: nat)
    requires LDBL.Valid() && StepSize(LDBL, V, Q) == 0 && Steps(LDBL, V, Q) == 0
        && 2 * DecimalX(LDBL, N, Q - j) > DecimalD(Q - j)
    ensures Crosses(LDBL, V, Q, N, j)
  {
    NoQuantum();
    hide Steps; hide StepSize; hide DecimalX; hide DecimalD;
    assert (0 + 1) * (DecimalD(Q - j) * Pow2(0)) == DecimalD(Q - j);
  }

  /** j digits off the end leave 800. */
  lemma Leading(N: nat) returns (j: nat)
    requires N >= Pow(10, 801)
    ensures j >= 2 && Pow(10, 799) <= N / Pow(10, j) < Pow(10, 800) && Pow(10, 799 + j) <= N < Pow(10, 800 + j)
  {
    hide Pow;
    j := 2;
    while N >= Pow(10, 800 + j)
      invariant j >= 2 && N >= Pow(10, 799 + j)
      decreases N - j
    {
      Linear(800 + j);
      j := j + 1;
    }
    PowAdd(10, j, 799); PowAdd(10, j, 800);
    DivBounds(N, Pow(10, j), Pow(10, 799)); DivBounds(N, Pow(10, j), Pow(10, 800));
  }

  lemma {:induction false} Linear(n: nat)
    ensures Pow(10, n) > n
  {
    if n > 0 { Linear(n - 1); }
  }

  /** 10 * 5^16446 has at least 11494 digits. */
  lemma Large(h: nat)
    requires h == Pow(5, 16446)
    ensures 10 * h >= Pow(10, 11493) >= Pow(10, 801)
  {
    FiveAndTwo();
    hide Pow;
    PowAdd(5, 4954, 11492);
    PowTimes(2, 5, 11492);
    MulMono(Pow2(11492), Pow(5, 4954), Pow(5, 11492), Pow(5, 11492));
    PowMono(10, 801, 11493); PowNext(10, 11492);
  }

  /** 2^11492 <= 5^4954. */
  lemma FiveAndTwo()
    ensures Pow2(11492) <= Pow(5, 4954)
  {
    SmallFives();
    hide Pow;
    PowPow(5, 28, 176); PowPow(2, 65, 176); PowBaseMono(Pow2(65), Pow(5, 28), 176);
    PowAdd(5, 4928, 26); PowAdd(2, 11440, 60);
    MulMono(Pow2(11440), Pow(5, 4928), Pow2(60), Pow(5, 26));
    PowMono(2, 11492, 11500);
  }

  lemma SmallFives()
    ensures Pow2(65) <= Pow(5, 28) && Pow2(60) <= Pow(5, 26)
  {
    Thirteen(); Thirty();
    assert Pow2(5) == 32 && Pow(5, 2) == 25;
    hide Pow;
    PowAdd(5, 13, 13); PowAdd(2, 30, 30); PowAdd(5, 26, 2); PowAdd(2, 60, 5);
  }

  lemma Thirteen()
    ensures Pow(5, 13) == 1220703125
  {
    assert Pow(5, 3) == 125 && Pow(5, 1) == 5;
    hide Pow;
    PowAdd(5, 3, 3); PowAdd(5, 6, 6); PowAdd(5, 12, 1);
  }

  lemma Thirty()
    ensures Pow2(30) == 1073741824
  {
    assert Pow2(5) == 32;
    hide Pow;
    PowAdd(2, 5, 5); PowAdd(2, 10, 10); PowAdd(2, 20, 10);
  }

  /** The digits kept are below 10 h, the whole decimal above. */
  lemma Apart(h: nat, V: nat, N: nat, j: nat)
    requires N == 10 * h + 1 && h % 2 == 1 && j >= 2 && V == N / Pow(10, j)
    ensures V * Pow(10, j) < 10 * h && N < (V + 1) * Pow(10, j)
  {
    hide Pow;
    var g := Pow(10, j);
    PowAdd(10, 2, j - 2);
    assert Pow(10, 2) == 100 by { Hundred(); }
    DivMod(N, g);
    MulDistr(g, V, 1); MulComm(g, V); MulComm(g, V + 1);
    var y := V * Pow(10, j - 2);
    assert V * g == 100 * y by { MulAssoc(V, 100, Pow(10, j - 2)); MulComm(V, 100); MulAssoc(100, V, Pow(10, j - 2)); }
    assert V * g <= N;
    OddTens(y, h);
  }

  lemma OddTens(y: nat, h: nat)
    requires h % 2 == 1
    ensures 100 * y != 10 * h && 100 * y != 10 * h + 1
  {
  }

  lemma Hundred()
    ensures Pow(10, 2) == 100
  {
  }

  lemma {:induction false} FiveOdd(n: nat)
    ensures Pow(5, n) % 2 == 1
  {
    if n > 0 { FiveOdd(n - 1); }
  }

  lemma Range(N: nat, j: nat)
    requires Pow(10, 799 + j) <= N < Pow(10, 800 + j) && N >= Pow(10, 11493) && N < Pow(10, 16447)
    ensures 11493 < 800 + j && 799 + j < 16447
  {
    hide Pow;
    if 800 + j <= 11493 { PowMono(10, 800 + j, 11493); }
    if 799 + j >= 16447 { PowMono(10, 16447, 799 + j); }
  }
}
