/** Printing and reading back: %.16e and `strtod` (src/vfprintf.c, src/strtod.c). */
module RoundTrip {
  import opened Powers
  import opened Rounding
  import opened StrtodRound
  import opened LongDouble
  import opened StrtodDecimal
  import opened StrtodExact
  import opened StrtodSticky
  import opened StrtodText
  import opened StrtodMain
  import opened StrtodParse
  import C = StrtodClip
  import opened PrintfDec
  import opened PrintfFormat

  // ---- how close two numbers of a format can be ----

  /** Different numbers x and v of a format are at least x / 2^p apart. */
  lemma Gap(F: Format, x: nat, v: nat)
    requires F.p >= 2 && Holds(F, x) && Holds(F, v) && x != v
    ensures x <= Pow2(F.p) * Dist(x, v)
  {
    hide Pow; hide BitLen;
    var m: nat, j: nat :| HoldsAs(F, x, m, j);
    var n: nat, i: nat :| HoldsAs(F, v, n, i);
    var k := Quantum(F, x);
    GridBelow(F, x);
    HeldMultiple(F, x, m, j, k);
    if k == 0 {
      TwoZero();
      MulMono(Pow2(F.p), Pow2(F.p), 1, Dist(x, v));
      BitLenSmall(F, x);
    } else {
      QuantumRange(F, x, k);
      PowAdd(2, F.p, k);
      if v >= Pow2(k + F.p - 1) {
        HeldMultiple(F, v, n, i, k);
        MultiplesApart(x, v, Pow2(k));
        MulMono(Pow2(F.p), Pow2(F.p), Pow2(k), Dist(x, v));
      } else {
        GapBelow(F, x, v, n, i, k);
      }
    }
  }

  lemma BitLenSmall(F: Format, x: nat)
    requires Quantum(F, x) == 0
    ensures x < Pow2(F.p)
  {
    BelowBits(x, F.p);
  }

  lemma QuantumRange(F: Format, x: nat, k: nat)
    requires k == Quantum(F, x) && k > 0
    ensures Pow2(k + F.p - 1) <= x < Pow2(F.p + k)
  {
    BitLenZeroOnly(x);
    BitLenBounds(x);
  }

  lemma BitLenZeroOnly(x: nat)
    ensures BitLen(x) > 0 ==> x > 0
  {
  }

  lemma MultiplesApart(x: nat, v: nat, g: nat)
    requires g > 0 && x % g == 0 && v % g == 0 && x != v
    ensures Dist(x, v) >= g
  {
    DivMod(x, g); DivMod(v, g);
    var a, b := x / g, v / g;
    if a < b { MulMono(g, g, a + 1, b); MulDistr(g, a, 1); }
    if b < a { MulMono(g, g, b + 1, a); MulDistr(g, b, 1); }
  }

  /** v below x's binade: the gap may be half a quantum, but only under a power of two. */
  lemma GapBelow(F: Format, x: nat, v: nat, n: nat, i: nat, k: nat)
    requires F.p >= 2 && k > 0 && x % Pow2(k) == 0 && Pow2(k + F.p - 1) <= x < Pow2(F.p + k)
    requires HoldsAs(F, v, n, i) && v < Pow2(k + F.p - 1)
    ensures x <= Pow2(F.p) * Dist(x, v)
  {
    var P := Pow2(k + F.p - 1);
    HalfPower(k); HalfPower(k + F.p - 1);
    hide Pow;
    PowAdd(2, F.p, k); PowAdd(2, F.p, k - 1);
    if x > P {
      PowAdd(2, k, F.p - 1);
      DivUnique(P, Pow2(k), Pow2(F.p - 1), 0);
      MultiplesApart(x, P, Pow2(k));
      MulMono(Pow2(F.p), Pow2(F.p), Pow2(k), Dist(x, v));
    } else {
      // x == 2^(k + p - 1) == 2^p 2^(k - 1)
      PowAdd(2, k - 1, F.p);
      DivUnique(P, Pow2(k - 1), Pow2(F.p), 0);
      PowMono(2, k - 1, k - 1 + F.p - 1);
      if v >= Pow2(k - 1 + F.p - 1) {
        HeldMultiple(F, v, n, i, k - 1);
        MultiplesApart(x, v, Pow2(k - 1));
      }
      MulMono(Pow2(F.p), Pow2(F.p), Pow2(k - 1), Dist(x, v));
    }
  }

  // ---- enough digits bring a number back ----

  /** A fraction y / d nearer to x than x / (2 * 2^p) rounds to x. */
  lemma NearRounds(F: Format, x: nat, y: nat, d: nat)
    requires F.p >= 2 && Holds(F, x) && x > 0 && d > 0 && 2 * (Pow2(F.p) * Dist(y, x * d)) < x * d
    ensures Round(F, y, d) == x
  {
    hide Pow; hide Round;
    RoundIsNearest(F, y, d);
    var v := Round(F, y, d);
    if v != x {
      Gap(F, x, v);
      NearArith(x, v, y, d, Pow2(F.p));
    }
  }

  lemma NearArith(x: nat, v: nat, y: nat, d: nat, P: nat)
    requires d > 0 && x <= P * Dist(x, v) && Dist(y, v * d) <= Dist(y, x * d)
    ensures 2 * (P * Dist(y, x * d)) >= x * d
  {
    // |x d - v d| <= 2 |y - x d|
    var g := Dist(x, v);
    assert Dist(x * d, v * d) == g * d by {
      if x < v {
        MulDistr(d, v, x);
        MulComm(d, v);
        MulComm(d, x);
        MulComm(d, v - x);
      } else {
        MulDistr(d, x, v);
        MulComm(d, v);
        MulComm(d, x);
        MulComm(d, x - v);
      }
    }
    MulMono(x, P * g, d, d); MulAssoc(P, g, d);
    MulMono(P, P, g * d, 2 * Dist(y, x * d));
    MulAssoc(P, 2, Dist(y, x * d)); MulComm(P, 2); MulAssoc(2, P, Dist(y, x * d));
  }

  /** x = m * 2^e is u units of F. */
  predicate SameUnits(F: Format, m: nat, e: int, u: nat)
    requires F.Valid()
  {
    XNum(m, e) * F.One() == u * XDen(e)
  }

  /** Reading back p + 1 digits gives the number they were printed from, if 10^p > 2^F.p. */
  lemma DigitsComeBack(F: Format, u: nat, m: nat, e: int, p: nat, ds: seq<Digit>, X: int, E: int)
    requires F.Valid() && Holds(F, u) && SameUnits(F, m, e, u) && PrintsE(m, e, p, ds, X, E) && Pow(10, p) > Pow2(F.p)
    ensures Rounded(F, Dec(ds), X - p) == u
  {
    hide Pow; hide Dec; hide Rounded; hide Round; hide ScaledRound; hide Magnitude;
    if m == 0 {
      ZeroUnits(F, e, u);
      ZeroRounded(F, X - p);
    } else {
      var k := p + 1 - E;
      RoundClose(m, e, k);
      CloseComesBack(F, u, m, e, p, k, ScaledRound(m, e, k), 1);
      if X == E {
        PowNext(10, p);
        MulComm(Pow(10, p), 10);
        TenOne();
        SameRounded(F, Pow(10, p), X - p, 1);
      }
    }
  }

  /** And so does what is read of them, however many there are. */
  lemma DigitsReadBack(F: Format, u: nat, m: nat, e: int, p: nat, ds: seq<Digit>, X: int, E: int)
    requires IsFormat(F) && F.Valid() && Holds(F, u) && SameUnits(F, m, e, u) && PrintsE(m, e, p, ds, X, E)
        && Pow(10, p) > Pow2(F.p)
    ensures ReadValue(F, Dec(ds), X - p) == u
  {
    hide Pow; hide Dec; hide Rounded; hide Round; hide ScaledRound; hide Magnitude; hide Above; hide Cut; hide Excess;
    hide SameUnits; hide Holds;
    DigitsComeBack(F, u, m, e, p, ds, X, E);
    var N := Dec(ds);
    if F == LDBL && Cut(N) {
      PowersUncut(p);
      ZeroUncut();
      var j := Excess(N);
      var V := N / Pow(10, j);
      C.CutParts(N);
      LongTailAbove(V, X - p + j, N, j);
      CutComesBack(u, m, e, p, N, V, j, E);
    }
  }

  lemma CutComesBack(u: nat, m: nat, e: int, p: nat, N: nat, V: nat, j: nat, E: int)
    requires Holds(LDBL, u) && SameUnits(LDBL, m, e, u) && m > 0 && Magnitude(m, e, E)
    requires N == ScaledRound(m, e, p + 1 - E) < Pow(10, p + 1)
    requires V >= Pow(10, 799) && V * Pow(10, j) < N < (V + 1) * Pow(10, j)
    ensures Rounded(LDBL, V, E - p - 1 + j) == u
  {
    hide Pow; hide Rounded; hide Round; hide ScaledRound; hide Magnitude; hide Close; hide SameUnits; hide Holds;
    RoundClose(m, e, p + 1 - E);
    CutClose(m, e, p + 1 - E, N, V, j);
    DigitsLeft(V, j, p, N);
    PowMono(10, 799, p - j);
    EnoughTens();
    CloseComesBack(LDBL, u, m, e, p - j, p + 1 - E - j, V, 4);
  }

  lemma EnoughTens()
    ensures Pow(10, 799) > 4 * Pow2(64)
  {
    hide Pow;
    PowNext(2, 64); PowNext(2, 65);
    PowStrict(2, 66, 799); PowBaseMono(2, 10, 799);
  }

  lemma DigitsLeft(V: nat, j: nat, p: nat, N: nat)
    requires V >= Pow(10, 799) && V * Pow(10, j) < N < Pow(10, p + 1)
    ensures 799 + j <= p
  {
    hide Pow;
    PowAdd(10, 799, j);
    MulMono(Pow(10, 799), V, Pow(10, j), Pow(10, j));
    if 799 + j >= p + 1 { PowMono(10, p + 1, 799 + j); }
  }

  lemma PowersUncut(p: nat)
    ensures !Cut(Pow(10, p))
  {
    hide Pow;
    TenZero();
    PowStrict(10, 0, MAX_DIGITS);
    Uncut(1, p);
  }

  lemma ZeroUncut()
    ensures !Cut(0)
  {
    hide Pow;
    TenPositive(MAX_DIGITS);
    TenZero();
    Uncut(0, 0);
  }

  lemma TenOne()
    ensures Pow(10, 1) == 10
  {
  }

  lemma ZeroUnits(F: Format, e: int, u: nat)
    requires F.Valid() && SameUnits(F, 0, e, u)
    ensures u == 0
  {
    hide Pow;
    assert XNum(0, e) * F.One() == 0;
    if u > 0 { MulMono(1, u, 1, XDen(e)); }
  }

  /** R is x * 10^k give or take c / 2. */
  predicate Close(m: nat, e: int, k: int, R: nat, c: nat) {
    2 * Dist(XNum(m, e) * Pow(10, Plus(k)), R * (XDen(e) * Pow(10, Neg(k)))) <= XDen(e) * (c * Pow(10, Neg(k)))
  }

  /** x * 10^k, at least 10^p, to an integer close by and scaled back. */
  lemma CloseComesBack(F: Format, u: nat, m: nat, e: int, p: nat, k: int, R: nat, c: nat)
    requires F.Valid() && Holds(F, u) && SameUnits(F, m, e, u) && m > 0 && Magnitude(m, e, p + 1 - k)
        && Pow(10, p) > c * Pow2(F.p) && Close(m, e, k, R, c)
    ensures Rounded(F, R, -k) == u
  {
    hide Pow; hide Round; hide RoundInt;
    var N, D, one, A, B := XNum(m, e), XDen(e), F.One(), Pow(10, Plus(k)), Pow(10, Neg(k));
    AtLeastDigits(N, D, p, k);
    TenZero();
    BackDecimal(F, R, k);
    NearUnits(N, D, one, A, B, R, u, Pow2(F.p), Pow(10, p), c);
    NearRounds(F, u, R * B * one, A);
  }

  lemma RoundClose(m: nat, e: int, k: int)
    ensures Close(m, e, k, ScaledRound(m, e, k), 1)
  {
    hide Pow; hide RoundInt;
    ScaledDenPos(e, k);
    WithinHalf(XNum(m, e) * Pow(10, Plus(k)), XDen(e) * Pow(10, Neg(k)));
  }

  /** So is what is left of it without its last j digits. */
  lemma CutClose(m: nat, e: int, k: int, R: nat, V: nat, j: nat)
    requires Close(m, e, k, R, 1) && V * Pow(10, j) < R < (V + 1) * Pow(10, j)
    ensures Close(m, e, k - j, V, 4)
  {
    hide Pow; hide Dist;
    var N, D, g := XNum(m, e), XDen(e), Pow(10, j);
    var A, B, a, b := Pow(10, Plus(k)), Pow(10, Neg(k)), Pow(10, Plus(k - j)), Pow(10, Neg(k - j));
    TenScales(k, j);
    CutArith(N, D, A, B, a, b, g, R, V);
  }

  lemma TenScales(k: int, j: nat)
    ensures Pow(10, Plus(k)) * Pow(10, Neg(k - j)) == Pow(10, Plus(k - j)) * Pow(10, Neg(k)) * Pow(10, j)
  {
    TenZero();
    hide Pow;
    if k >= j {
      PowAdd(10, k - j, j);
    } else if k >= 0 {
      PowAdd(10, k, j - k);
    } else {
      PowAdd(10, -k, j);
    }
  }

  lemma CutArith(N: nat, D: nat, A: nat, B: nat, a: nat, b: nat, g: nat, R: nat, V: nat)
    requires D > 0 && B > 0 && b > 0 && g > 0 && A * b == a * B * g
    requires 2 * Dist(N * A, R * (D * B)) <= D * (1 * B) && V * g < R < (V + 1) * g
    ensures 2 * Dist(N * a, V * (D * b)) <= D * (4 * b)
  {
    // everything times B g
    var G := B * g;
    var x, y, z := N * A * b, R * (D * B) * b, V * g * (D * B) * b;
    assert N * a * G == x by { Reorder(N, a, B, g); MulAssoc(N, A, b); }
    assert V * (D * b) * G == z by { Reorder2(V, D, b, B, g); }
    assert 2 * Dist(x, y) <= D * B * b by {
      DistTimes(N * A, R * (D * B), b);
      MulMono(2 * Dist(N * A, R * (D * B)), D * B, b, b);
      MulAssoc(2, Dist(N * A, R * (D * B)), b);
    }
    assert Dist(y, z) <= g * (D * B) * b by {
      MulMono(V * g, R, D * B, D * B); MulMono(V * g * (D * B), R * (D * B), b, b);
      MulMono(R, V * g + g, D * B, D * B); MulDistr(D * B, V * g, g); MulComm(D * B, V * g + g);
      MulComm(D * B, V * g); MulComm(D * B, g);
      MulDistr(g, V, 1); MulComm(g, V + 1); MulComm(g, V);
      MulMono(R * (D * B), V * g * (D * B) + g * (D * B), b, b);
      MulDistr(b, V * g * (D * B), g * (D * B)); MulComm(b, V * g * (D * B) + g * (D * B));
      MulComm(b, V * g * (D * B)); MulComm(b, g * (D * B));
    }
    assert D * B * b <= g * (D * B) * b by { MulMono(1, g, D * B, D * B); MulMono(D * B, g * (D * B), b, b); }
    assert 2 * Dist(x, z) <= 4 * (g * (D * B) * b);
    assert 4 * (g * (D * B) * b) == D * (4 * b) * G by { Reorder3(g, D, B, b); }
    DistTimes(N * a, V * (D * b), G);
    MulStrict(B, 0, g);
    MulAssoc(2, Dist(N * a, V * (D * b)), G);
    MulComm(G, 2 * Dist(N * a, V * (D * b))); MulComm(G, D * (4 * b));
    MulStrict(G, 2 * Dist(N * a, V * (D * b)), D * (4 * b));
  }

  lemma DistTimes(a: nat, b: nat, c: nat)
    ensures Dist(a * c, b * c) == Dist(a, b) * c
  {
    DistScale(c, a, b);
    MulComm(a, c); MulComm(b, c); MulComm(Dist(a, b), c);
  }

  lemma Reorder(N: nat, a: nat, B: nat, g: nat)
    ensures N * a * (B * g) == N * (a * B * g)
  {
    MulAssoc(N, a, B * g); MulAssoc(a, B, g);
  }

  lemma Reorder2(V: nat, D: nat, b: nat, B: nat, g: nat)
    ensures V * (D * b) * (B * g) == V * g * (D * B) * b
  {
    var s := D * B;
    MulComm(B, g); MulAssoc(V * (D * b), g, B);
    MulAssoc(V, D * b, g); MulComm(D * b, g); MulAssoc(V, g, D * b);
    MulAssoc(V * g, D * b, B); MulAssoc(D, b, B); MulComm(b, B); MulAssoc(D, B, b); MulAssoc(V * g, s, b);
  }

  lemma Reorder3(g: nat, D: nat, B: nat, b: nat)
    ensures 4 * (g * (D * B) * b) == D * (4 * b) * (B * g)
  {
    Reorder2(1, D, b, B, g);
    MulAssoc(D, 4, b); MulComm(D, 4); MulAssoc(4, D, b);
    MulAssoc(4, D * b, B * g);
  }

  lemma BackDecimal(F: Format, R: nat, k: int)
    requires F.Valid()
    ensures DecimalX(F, R, -k) == R * Pow(10, Neg(k)) * F.One() && DecimalD(-k) == Pow(10, Plus(k))
  {
    TenZero();
  }

  lemma WithinHalf(n: nat, d: nat)
    requires d > 0
    ensures 2 * Dist(n, RoundInt(n, d) * d) <= d
  {
    DivMod(n, d);
    MulDistr(d, n / d, 1); MulComm(d, n / d); MulComm(d, n / d + 1);
  }

  lemma AtLeastDigits(N: nat, D: nat, p: nat, k: int)
    requires var j := p - k; N * Pow(10, Neg(j)) >= D * Pow(10, Plus(j))
    ensures N * Pow(10, Plus(k)) >= D * (Pow(10, p) * Pow(10, Neg(k)))
  {
    TenZero();
    hide Pow;
    var j := p - k;
    if k < 0 {
      PowAdd(10, p, -k);
    } else if j >= 0 {
      PowAdd(10, j, k);
      MulMono(D * Pow(10, j), N, Pow(10, k), Pow(10, k));
      MulAssoc(D, Pow(10, j), Pow(10, k));
    } else {
      PowAdd(10, -j, p);
      MulMono(D, N * Pow(10, -j), Pow(10, p), Pow(10, p));
      MulAssoc(N, Pow(10, -j), Pow(10, p));
    }
  }

  lemma NearUnits(N: nat, D: nat, one: nat, A: nat, B: nat, R: nat, u: nat, P: nat, T: nat, c: nat)
    requires D > 0 && one > 0 && A > 0 && B > 0 && N * one == u * D && N * A >= D * (T * B) && T > c * P
    requires 2 * Dist(N * A, R * (D * B)) <= D * (c * B)
    ensures u > 0 && 2 * (P * Dist(R * B * one, u * A)) < u * A
  {
    var y, x := R * B * one, u * A;
    // D |y - x| == one |R D B - N A| <= one D c B / 2, and D x == one N A >= one D T B
    assert D * x == one * (N * A) by { MulAssoc(D, u, A); MulComm(D, u); MulComm(N, one); MulAssoc(one, N, A); }
    assert D * y == one * (R * (D * B)) by { ScaleY(D, R, B, one); }
    DistScale(D, y, x);
    DistScale(one, R * (D * B), N * A);
    CloseArith(D, one, Dist(y, x), Dist(R * (D * B), N * A), c * B);
    FarArith2(D, one, x, N * A, T, B);
    MulStrict(one, 0, B);
    // 2 P |y - x| <= P one c B < T one B <= x
    MulMono(P, P, 2 * Dist(y, x), one * (c * B));
    assert P * (2 * Dist(y, x)) == 2 * (P * Dist(y, x)) by {
      MulAssoc(P, 2, Dist(y, x));
      MulComm(P, 2);
      MulAssoc(2, P, Dist(y, x));
    }
    assert P * (one * (c * B)) == c * P * (one * B) by {
      MulAssoc(one, c, B); MulComm(one, c); MulAssoc(c, one, B); MulAssoc(P, c, one * B); MulComm(P, c);
    }
    MulStrict(one * B, c * P, T); MulComm(one * B, c * P); MulComm(one * B, T);
  }

  lemma ScaleY(D: nat, R: nat, B: nat, one: nat)
    ensures D * (R * B * one) == one * (R * (D * B))
  {
    MulComm(R * B, one); MulAssoc(D, one, R * B); MulComm(D, one); MulAssoc(one, D, R * B);
    MulAssoc(D, R, B); MulComm(D, R); MulAssoc(R, D, B);
  }

  lemma DistScale(c: nat, a: nat, b: nat)
    ensures Dist(c * a, c * b) == c * Dist(a, b)
  {
    if a < b { MulDistr(c, b, a); MulMono(c, c, a, b); } else { MulDistr(c, a, b); MulMono(c, c, b, a); }
  }

  lemma CloseArith(D: nat, one: nat, s: nat, t: nat, B: nat)
    requires D > 0 && D * s == one * t && 2 * t <= D * B
    ensures 2 * s <= one * B
  {
    MulMono(one, one, 2 * t, D * B);
    assert one * (2 * t) == D * (2 * s) by {
      MulAssoc(one, 2, t);
      MulComm(one, 2);
      MulAssoc(2, one, t);
      MulAssoc(D, 2, s);
      MulComm(D, 2);
      MulAssoc(2, D, s);
    }
    assert one * (D * B) == D * (one * B) by { MulAssoc(one, D, B); MulComm(one, D); MulAssoc(D, one, B); }
    MulStrict(D, 2 * s, one * B);
  }

  lemma FarArith2(D: nat, one: nat, x: nat, na: nat, T: nat, B: nat)
    requires D > 0 && D * x == one * na && na >= D * (T * B)
    ensures x >= T * (one * B)
  {
    MulMono(one, one, D * (T * B), na);
    assert one * (D * (T * B)) == D * (T * (one * B)) by {
      MulAssoc(one, D, T * B); MulComm(one, D); MulAssoc(D, one, T * B);
      MulAssoc(one, T, B); MulComm(one, T); MulAssoc(T, one, B);
    }
    MulStrict(D, T * (one * B), x);
  }

  // ---- the text in between ----

  lemma {:induction false} DigitsAppend(a: string, b: string)
    ensures Digits(a + b) == Digits(a) + Digits(b)
    ensures HexDigits(a + b) == HexDigits(a) + HexDigits(b)
    decreases |b|
  {
    if b == [] {
      assert a + b == a && Digits(b) == [] && HexDigits(b) == [];
    } else {
      var c, t := b[|b| - 1], b[..|b| - 1];
      DigitsAppend(a, t);
      assert a + b == (a + t) + [c] && b == t + [c];
      hide Digits, HexDigits, Frac, IsDigit, IsHex, DigitOf, HexOf;
      DigitsSnoc(a + t, c); DigitsSnoc(t, c);
      if IsDigit(c) { Assoc(Digits(a), Digits(t), [DigitOf(c)]); }
      if IsHex(c) { Assoc(HexDigits(a), HexDigits(t), [HexOf(c)]); }
    }
  }

  lemma Assoc<T>(a: seq<T>, b: seq<T>, c: seq<T>)
    ensures (a + b) + c == a + (b + c)
  {
  }

  lemma {:induction false} FracAfter(a: string, b: string)
    requires '.' !in b
    ensures Frac(a + "." + b) == |b|
    decreases |b|
  {
    if b == [] {
      assert a + "." + b == a + ['.'];
      DigitsSnoc(a, '.');
    } else {
      var c, t := b[|b| - 1], b[..|b| - 1];
      FracAfter(a, t);
      assert a + "." + b == (a + "." + t) + [c];
      DigitsSnoc(a + "." + t, c);
      assert (a + "." + t)[|a|] == '.';
    }
  }

  /** Digits, a point and digits. */
  lemma PointedText(a: string, b: string, hex: bool)
    requires OfDigits(a, hex) && OfDigits(b, hex)
    ensures Significand(a + "." + b, hex) && Frac(a + "." + b) == |b|
    ensures Digits(a + "." + b) == Digits(a) + Digits(b) && HexDigits(a + "." + b) == HexDigits(a) + HexDigits(b)
  {
    var m := a + "." + b;
    assert m[..|a|] == a && m[|a| + 1..] == b;
    assert PointAt(m, hex, |a|);
    FracAfter(a, b);
    DigitsAppend(a + ".", b);
    DigitsSnoc(a, '.');
    assert m == (a + ".") + b;
  }

  lemma MantissaText(ds: seq<Digit>)
    requires ds != []
    ensures Significand(Mantissa(ds), false) && Digits(Mantissa(ds)) == ds && Frac(Mantissa(ds)) == |ds| - 1
    ensures IsDigit(Mantissa(ds)[0]) && (|ds| > 1 ==> Mantissa(ds)[1] == '.')
    ensures |Mantissa(ds)| == if |ds| > 1 then |ds| + 1 else 1
  {
    hide Digits; hide HexDigits; hide Frac; hide Significand; hide Spell;
    SpellDigits(ds[..1]);
    if |ds| > 1 {
      SpellDigits(ds[1..]);
      PointedText(Spell(ds[..1]), Spell(ds[1..]), false);
      assert ds[..1] + ds[1..] == ds;
      PlusAssoc(Spell(ds[..1]), ".", Spell(ds[1..]));
    } else {
      assert ds[..1] == ds;
      PlainText(Spell(ds));
      assert Spell(ds) + "" == Spell(ds);
    }
  }

  lemma PlusAssoc(a: string, b: string, c: string)
    ensures a + (b + c) == a + b + c
  {
  }

  lemma PlainText(m: string)
    requires OfDigits(m, false)
    ensures Significand(m, false) && Frac(m) == 0
  {
    assert '.' !in m;
    if m != [] { assert '.' !in m[..|m| - 1]; }
  }

  /** A significand text at i, followed by an exponent letter, is read as such. */
  lemma SignificandFound(s: string, i: nat, m: string, rest: string, hex: bool)
    requires i <= |s| && s[i..] == m + rest && Significand(m, hex) && rest != [] && !Continues(m, hex, rest[0])
    ensures SignificandAt(s, i, i + |m|, hex) && s[i..i + |m|] == m
  {
    assert s[i..][..|m|] == m && s[i..][|m|] == rest[0];
    assert s[i..i + |m|] == m;
  }

  /** The exponent text, at the end. */
  lemma ExpFound(s: string, k: nat, letter: char, X: int, xs: seq<Digit>)
    requires k <= |s| && s[k..] == [letter, if X < 0 then '-' else '+'] + Spell(xs) && 'a' <= letter <= 'z'
    requires xs != [] && Dec(xs) == if X < 0 then -X else X
    ensures ExpAt(s, k, letter, |s|, X)
  {
    hide Dec; hide Digits; hide Spell;
    var t := s[k..];
    SpellDigits(xs);
    assert t[0] == s[k] && t[1] == s[k + 1] && t[2] == s[k + 2] && t[2] == Spell(xs)[0];
    assert s[k + 2..|s|] == t[2..] == Spell(xs);
  }

  /** What `strtod` reads from the text of %e. */
  lemma ReadsBack(s: string, neg: bool, ds: seq<Digit>, X: int, xs: seq<Digit>, F: Format, r: Float, end: nat, b: nat,
      i: nat, neg': bool, k: nat, X': int)
    requires F.Valid() && ds != [] && xs != [] && Dec(xs) == (if X < 0 then -X else X) && |xs| <= 5
    requires s == SignText(neg) + Mantissa(ds) + (['e', if X < 0 then '-' else '+'] + Spell(xs))
    requires StartsAt(s, b, i, neg')
    ensures i <= |s| && neg' == neg && !WordAt(s, i, "inf") && !WordAt(s, i, "nan") && !HexAt(s, i)
    ensures ReadsNumber(s, i, F, neg', r, end, k, X') ==> IsUnits(F, r, ReadValue(F, Dec(ds), X - (|ds| - 1)), neg)
  {
    hide Dec; hide Digits; hide Frac; hide Significand; hide Mantissa; hide Spell; hide IsUnits; hide Rounded;
    hide ExpAt; hide ReadValue; hide Clipped; hide StartsAt; hide WordAt; hide HexAt; hide ReadsNumber;
    var m, rest := Mantissa(ds), ['e', if X < 0 then '-' else '+'] + Spell(xs);
    MantissaText(ds);
    StartFound(s, neg, m, rest, b, i, neg');
    if ReadsNumber(s, i, F, neg', r, end, k, X') { NumberBack(s, i, neg, ds, X, xs, F, r, end, k, X'); }
  }

  lemma NumberBack(s: string, i: nat, neg: bool, ds: seq<Digit>, X: int, xs: seq<Digit>, F: Format, r: Float, end: nat,
      k: nat, X': int)
    requires F.Valid() && ds != [] && xs != [] && Dec(xs) == (if X < 0 then -X else X) && |xs| <= 5
        && i <= |s|
    requires s[i..] == Mantissa(ds) + (['e', if X < 0 then '-' else '+'] + Spell(xs)) && !HexAt(s, i)
    requires ReadsNumber(s, i, F, neg, r, end, k, X')
    ensures IsUnits(F, r, ReadValue(F, Dec(ds), X - (|ds| - 1)), neg)
  {
    hide Dec; hide Digits; hide Frac; hide Significand; hide Mantissa; hide Spell; hide IsUnits; hide Rounded;
    hide ExpAt; hide ReadValue; hide Clipped; hide HexAt; hide EndsAt; hide Continues;
    var any: bool :| DecimalRead(s, i, neg, F, r, end, any, k, X') && (any || (end == 0 && r == Fin(false, 0, 0)));
    var m, rest := Mantissa(ds), ['e', if X < 0 then '-' else '+'] + Spell(xs);
    MantissaText(ds);
    NoContinue(m);
    SignificandFound(s, i, m, rest, false);
    SignificandUnique(s, i, k, i + |m|, false);
    RestOf(s, i, m, rest);
    ExpFound(s, k, 'e', X, xs);
    ExpUnique(s, k, 'e', |s|, X, end, X');
    ShortExponent(xs, X);
  }

  lemma NoContinue(m: string)
    ensures !Continues(m, false, 'e') && !Continues(m, true, 'p')
  {
  }

  lemma RestOf(s: string, i: nat, m: string, rest: string)
    requires i <= |s| && s[i..] == m + rest
    ensures i + |m| <= |s| && s[i + |m|..] == rest
  {
    assert s[i + |m|..] == s[i..][|m|..] == rest;
  }

  lemma ShortExponent(xs: seq<Digit>, X: int)
    requires |xs| <= 5 && Dec(xs) == if X < 0 then -X else X
    ensures Clipped(X) == X
  {
    DecBounds(xs);
    PowMono(10, |xs|, 5);
    assert Pow(10, 5) == 100000;
  }

  lemma StartFound(s: string, neg: bool, m: string, rest: string, b: nat, i: nat, neg': bool)
    requires s == SignText(neg) + m + rest && m != [] && IsDigit(m[0]) && (|m| > 1 ==> m[1] == '.') && rest != []
        && rest[0] == 'e'
    requires StartsAt(s, b, i, neg')
    ensures i == |SignText(neg)| && neg' == neg && s[i..] == m + rest
    ensures !WordAt(s, i, "inf") && !WordAt(s, i, "nan") && !HexAt(s, i)
  {
    var j := |SignText(neg)|;
    assert s[j..] == m + rest;
    assert s[j] == m[0] && s[j + 1] == (if |m| > 1 then '.' else 'e');
    assert !IsSpace(s[0]);
    assert b == 0;
    assert Lower(s[j + 0]) != "inf"[0] && Lower(s[j + 0]) != "nan"[0];
  }

  // ---- the round trip ----

  lemma WidenUnits(F: Format, m: nat, e: int, M: nat, E: int)
    requires F.Valid() && e >= F.emin && E <= e && M == m * Pow2(e - E)
    ensures SameUnits(F, M, E, Units(F, m, e))
  {
    hide Pow;
    TwoZero();
    var one := F.One();
    if E >= 0 {
      PowAdd(2, e - E, E); PowAdd(2, e, -F.emin);
      MulAssoc(m, Pow2(e - E), Pow2(E)); MulAssoc(m, Pow2(e), one);
    } else {
      PowAdd(2, e - E, -F.emin); PowAdd(2, e - F.emin, -E);
      MulAssoc(m, Pow2(e - E), one); MulAssoc(m, Pow2(e - F.emin), Pow2(-E));
    }
  }

  /** The long double passed to `printf` is the number. */
  lemma PassedOn(F: Format, m: nat, e: int, neg: bool)
    requires IsFormat(F) && F.Valid() && Canonical(F, m, e)
    ensures m < Pow2(64) && var v := LdSplit(MakeLd(m, e, neg));
            !v.inf && !v.nan && v.neg == neg && v.m < Pow2(64) && -16445 <= v.e <= 16320
                && SameUnits(F, v.m, v.e, Units(F, m, e))
  {
    hide Pow; hide SameUnits; hide MakeLd; hide LdSplit;
    FormatRepresentable(F, m, e);
    SplitMake(m, e, neg);
    var v := LdSplit(MakeLd(m, e, neg));
    if m == 0 { ZeroPassedOn(F, e, v.e); } else { WidenUnits(F, m, e, v.m, v.e); }
  }

  lemma ZeroPassedOn(F: Format, e: int, e': int)
    requires F.Valid() && e >= F.emin
    ensures SameUnits(F, 0, e', Units(F, 0, e))
  {
    hide Pow;
    assert XNum(0, e') * F.One() == 0;
    assert Units(F, 0, e) == 0;
  }

  /** Whatever text is m * 2^e to p + 1 significant digits, and whatever that text is read as, it is the
      same number with the same sign. For float p = 8 is enough, for double p = 16, for long double
      p = 20. */
  lemma RoundTripE(neg: bool, m: nat, e: int, F: Format, p: nat, v: Parts, s: string, r: Parsed, end: nat)
    requires IsFormat(F) && F.Valid() && Canonical(F, m, e) && Pow(10, p) > Pow2(F.p)
    requires m < Pow2(64) && v == LdSplit(MakeLd(m, e, neg)) && PrintedE(s, v.neg, v.m, v.e, p)
        && ParsedAs(s, F, r, end)
    ensures r.Number? && IsUnits(F, r.r, Units(F, m, e), neg)
  {
    hide Pow; hide IsUnits; hide ReadValue; hide PrintsE; hide SameUnits; hide ReadsNumber; hide Spell; hide Dec;
    hide Mantissa; hide MakeLd; hide LdSplit;
    PassedOn(F, m, e, neg);
    var u := Units(F, m, e);
    assert HoldsAs(F, u, m, e - F.emin);
    var ds: seq<Digit>, X: int, xs: seq<Digit>, E: int :| PrintsE(v.m, v.e, p, ds, X, E) && TextE(s, v.neg, ds, X, xs);
    LengthIs(v.m, v.e, p, ds, X, E);
    DigitsReadBack(F, u, v.m, v.e, p, ds, X, E);
    var b: nat, i: nat, neg': bool, k: nat, X': int :| Reads(s, F, r, end, b, i, neg', k, X');
    ReadsBack(s, neg, ds, X, xs, F, if r.Number? then r.r else Inf(neg), end, b, i, neg', k, X');
  }

  /** %e, then strtof, strtod or strtold. */
  method PrintThenRead(neg: bool, m: nat, e: int, F: Format, p: nat) returns (s: string, r: Parsed)
    requires IsFormat(F) && Canonical(F, m, e) && Pow(10, p) > Pow2(F.p)
    ensures F.Valid() && r.Number? && IsUnits(F, r.r, Units(F, m, e), neg)
  {
    hide Pow; hide IsUnits; hide PrintsE; hide TextE; hide Mantissa; hide MakeLd; hide LdSplit; hide ParsedAs;
    hide Units;
    FormatValid(F);
    PassedOn(F, m, e, neg);
    var v := LdSplit(MakeLd(m, e, neg));
    s := FmtE(v.neg, v.m, v.e, p);
    var end;
    r, end := Parse(s, F);
    RoundTripE(neg, m, e, F, p, v, s, r, end);
  }

  /** The numbers of digits that are enough. */
  lemma EnoughDigits()
    ensures Pow(10, 8) > Pow2(24) && Pow(10, 16) > Pow2(53) && Pow(10, 20) > Pow2(64)
  {
    hide Pow;
    SmallValues();
    PowAdd(10, 4, 4); PowAdd(10, 8, 8); PowAdd(10, 16, 4);
    PowAdd(2, 8, 8); PowAdd(2, 16, 8); PowAdd(2, 24, 24); PowAdd(2, 48, 5); PowAdd(2, 48, 16);
  }

  lemma SmallValues()
    ensures Pow(10, 4) == 10000 && Pow2(8) == 256 && Pow2(5) == 32
  {
  }

  lemma LengthIs(m: nat, e: int, p: nat, ds: seq<Digit>, X: int, E: int)
    requires PrintsE(m, e, p, ds, X, E)
    ensures |ds| == p + 1
  {
  }
}
