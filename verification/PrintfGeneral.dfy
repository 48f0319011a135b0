/** The %g conversion of src/vfprintf.c: the digits of %e, laid out as %e or %f, without trailing zeros. */
module PrintfGeneral {
  import opened Powers
  import opened Rounding
  import opened StrtodDecimal
  import opened PrintfDec
  import opened PrintfFormat

  // ---- trailing zeros ----

  /** f without the zeros at its end. */
  function Stripped(f: seq<Digit>): (t: seq<Digit>)
    ensures t <= f && (t == [] || t[|t| - 1] != 0)
  {
    if f == [] || f[|f| - 1] != 0 then f else Stripped(f[..|f| - 1])
  }

  /** They do not count. */
  lemma {:induction false} StrippedValue(a: seq<Digit>, f: seq<Digit>)
    ensures Dec(a + f) == Dec(a + Stripped(f)) * Pow(10, |f| - |Stripped(f)|)
    decreases |f|
  {
    hide Dec; hide Pow;
    TenZero();
    if f != [] && f[|f| - 1] == 0 {
      var t := f[..|f| - 1];
      StrippedValue(a, t);
      assert a + f == (a + t) + [0];
      DecSnoc(a + t, 0);
      var k := |t| - |Stripped(t)|;
      PowNext(10, k);
      var x := Dec(a + Stripped(t));
      MulAssoc(x, 10, Pow(10, k)); MulComm(x * Pow(10, k), 10); MulAssoc(10, x, Pow(10, k)); MulComm(x, 10);
    }
  }

  method Strip(f: seq<Digit>, strip: bool) returns (t: seq<Digit>)
    ensures t == if strip then Stripped(f) else f
  {
    t := f;
    if strip {
      while |t| > 0 && t[|t| - 1] == 0
        invariant Stripped(t) == Stripped(f)
      {
        t := t[..|t| - 1];
      }
    }
  }

  // ---- the digits of either style ----

  /** In the style of %f the digits are those of %e: when rounding ran over into the next power of ten, one
      digit less is asked for, and rounds over as well. */
  lemma SameDigits(m: nat, e: int, P: nat, ds: seq<Digit>, X: int, E: int)
    requires P > 0 && PrintsE(m, e, P - 1, ds, X, E) && P > X
    ensures ScaledRound(m, e, P - 1 - X) == Dec(ds)
  {
    hide Dec; hide Pow; hide Magnitude; hide ScaledRound;
    if m == 0 {
      ZeroScaled(e, P - 1);
    } else if X == E {
      Coarser(m, e, P, E);
    }
  }

  lemma Coarser(m: nat, e: int, P: nat, E: int)
    requires P > 0 && Magnitude(m, e, E) && ScaledRound(m, e, P - E) == Pow(10, P)
    ensures ScaledRound(m, e, P - 1 - E) == Pow(10, P - 1)
  {
    hide Pow; hide RoundInt; hide Magnitude;
    var k := P - E;
    var A, B := XNum(m, e), XDen(e);
    var N, D, N', D' := A * Pow(10, Plus(k)), B * Pow(10, Neg(k)), A * Pow(10, Plus(k - 1)), B * Pow(10, Neg(k - 1));
    ScaledDenPos(e, k); ScaledDenPos(e, k - 1);
    BelowPower(m, e, P, E);
    PowNext(10, P - 1);
    TenthRatio(A, B, k);
    RoundIntRatio(N', D', N, 10 * D);
    RoundCoarser(N, D, Pow(10, P - 1));
  }

  lemma TenthRatio(A: nat, B: nat, k: int)
    ensures A * Pow(10, Plus(k - 1)) * (10 * (B * Pow(10, Neg(k)))) == A * Pow(10, Plus(k)) * (B * Pow(10, Neg(k - 1)))
  {
    hide Pow;
    TenZero();
    if k >= 1 {
      PowNext(10, k - 1);
      var x := Pow(10, k - 1);
      assert A * (10 * x) == 10 * (A * x) by { MulAssoc(A, 10, x); MulComm(A, 10); MulAssoc(10, A, x); }
      MulAssoc(A * x, 10, B); MulComm(A * x, 10);
    } else {
      PowNext(10, -k);
      var x := Pow(10, -k);
      assert B * (10 * x) == 10 * (B * x) by { MulAssoc(B, 10, x); MulComm(B, 10); MulAssoc(10, B, x); }
    }
  }

  /** x < 10^E, scaled. */
  lemma BelowPower(m: nat, e: int, P: nat, E: int)
    requires Magnitude(m, e, E)
    ensures var k := P - E; XNum(m, e) * Pow(10, Plus(k)) < Pow(10, P) * (XDen(e) * Pow(10, Neg(k)))
  {
    hide Pow;
    TenZero();
    var k := P - E;
    var A, B := XNum(m, e), XDen(e);
    if E < 0 {
      PowAdd(10, P, -E);
      Scaled(A * Pow(10, -E), B, Pow(10, P));
      MulAssoc(A, Pow(10, P), Pow(10, -E)); MulComm(Pow(10, P), Pow(10, -E)); MulAssoc(A, Pow(10, -E), Pow(10, P));
    } else if k >= 0 {
      PowAdd(10, k, E);
      Scaled(A, B * Pow(10, E), Pow(10, k));
      MulAssoc(B, Pow(10, E), Pow(10, k)); MulComm(Pow(10, E), Pow(10, k)); MulComm(B, Pow(10, P));
    } else {
      PowAdd(10, P, -k);
      MulAssoc(Pow(10, P), B, Pow(10, -k)); MulComm(Pow(10, P), B); MulAssoc(B, Pow(10, P), Pow(10, -k));
    }
  }

  lemma Scaled(a: nat, b: nat, g: nat)
    requires a < b && g > 0
    ensures a * g < b * g
  {
    MulStrict(g, a, b); MulComm(g, a); MulComm(g, b);
  }

  /** What rounds up to a power of ten rounds up to it with a digit less. */
  lemma RoundCoarser(N: nat, D: nat, T: nat)
    requires D > 0 && N < 10 * T * D && RoundInt(N, D) == 10 * T
    ensures RoundInt(N, 10 * D) == T
  {
    var q, r := N / D, N % D;
    assert N == q * D + r by { MulComm(D, q); }
    DivBounds(N, D, 10 * T); MulComm(D, 10 * T);
    assert q == 10 * T - 1 && 2 * r >= D;
    assert q * D == 10 * T * D - D by { MulDistr(D, 10 * T, 0); Less(10 * T, D); }
    assert T > 0;
    var s := N - (T - 1) * (10 * D);
    assert (T - 1) * (10 * D) == 10 * T * D - 10 * D by { Regroup10(T, D); }
    DivUnique(N, 10 * D, T - 1, s);
  }

  lemma Less(a: nat, d: nat)
    requires a > 0
    ensures (a - 1) * d == a * d - d
  {
  }

  lemma Regroup10(T: nat, D: nat)
    requires T > 0
    ensures (T - 1) * (10 * D) == 10 * T * D - 10 * D
  {
    Less(T, 10 * D);
    MulAssoc(T, 10, D); MulComm(T, 10);
  }

  // ---- %g ----

  /** A point and digits, or nothing. */
  function AfterPoint(f: seq<Digit>, alt: bool): string { if f != [] || alt then "." + Spell(f) else "" }

  function Kept(f: seq<Digit>, alt: bool): seq<Digit> { if alt then f else Stripped(f) }

  ghost predicate GeneralE(s: string, neg: bool, ds: seq<Digit>, X: int, alt: bool, xs: seq<Digit>) {
    && ds != [] && |xs| <= 5 && Exponent(X, 2, xs)
    && s == SignText(neg) + (Spell(ds[..1]) + AfterPoint(Kept(ds[1..], alt), alt))
        + (['e', if X < 0 then '-' else '+'] + Spell(xs))
  }

  ghost predicate GeneralF(s: string, neg: bool, ds: seq<Digit>, p: nat, alt: bool, ints: seq<Digit>,
      fracs: seq<Digit>) {
    Placed(p, ints, fracs) && Dec(ints + fracs) == Dec(ds)
        && s == SignText(neg) + Spell(ints) + AfterPoint(Kept(fracs, alt), alt)
  }

  ghost predicate LaidF(s: string, neg: bool, ds: seq<Digit>, p: nat, alt: bool) {
    exists ints: seq<Digit>, fracs: seq<Digit> :: GeneralF(s, neg, ds, p, alt, ints, fracs)
  }

  ghost predicate LaidE(s: string, neg: bool, ds: seq<Digit>, X: int, alt: bool) {
    exists xs: seq<Digit> :: GeneralE(s, neg, ds, X, alt, xs)
  }

  /** s is m * 2^e to p + 1 significant digits, with an exponent if that is below -4 or there are too few
      digits to reach the point. */
  ghost predicate PrintedG(s: string, neg: bool, m: nat, e: int, p: nat, alt: bool) {
    exists ds: seq<Digit>, X: int, E: int ::
      PrintsE(m, e, p, ds, X, E) && if p >= X >= -4 then LaidF(s, neg, ds, p - X, alt) else LaidE(s, neg, ds, X, alt)
  }

  method FmtG(neg: bool, m: nat, e: int, p: nat, alt: bool) returns (s: string)
    requires m < Pow2(64) && -16445 <= e <= 16320
    ensures PrintedG(s, neg, m, e, if p == 0 then 0 else p - 1, alt)
  {
    hide Dec; hide Pow; hide Spell; hide PrintsE; hide ScaledRound; hide Stripped;
    var P := if p == 0 then 1 else p;
    var ds, X;
    ghost var E;
    ds, X, E := DigitsE(m, e, P - 1);
    EnoughDigitsE(m, e, P - 1, ds, X, E);
    if P > X && X >= -4 {
      var ints, fracs := DigitsF(m, e, P - 1 - X);
      SameDigits(m, e, P, ds, X, E);
      var f := Strip(fracs, !alt);
      s := SignText(neg) + Spell(ints) + AfterPoint(f, alt);
      assert GeneralF(s, neg, ds, P - 1 - X, alt, ints, fracs);
    } else {
      var f := Strip(ds[1..], !alt);
      var es := ExpStr(X, 'e', 2);
      ghost var xs: seq<Digit> :| ExpText(es, X, 'e', 2, xs);
      FiveDigits(|xs|);
      s := SignText(neg) + (Spell(ds[..1]) + AfterPoint(f, alt)) + es;
      assert GeneralE(s, neg, ds, X, alt, xs);
    }
    assert PrintsE(m, e, P - 1, ds, X, E);
  }

  lemma EnoughDigitsE(m: nat, e: int, p: nat, ds: seq<Digit>, X: int, E: int)
    requires PrintsE(m, e, p, ds, X, E)
    ensures |ds| == p + 1
  {
  }
}
