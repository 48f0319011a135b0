/** The texts of %g (src/vfprintf.c): which style, and how they end. */
module PrintfLaws {
  import opened Powers
  import opened Rounding
  import opened StrtodDecimal
  import opened PrintfDec
  import opened PrintfFormat
  import opened PrintfGeneral
  import G = StrtodGrammar

  /** m * 2^e is 10^K or more. */
  predicate AtLeast(m: nat, e: int, K: int) { XNum(m, e) * Pow(10, Neg(K)) >= XDen(e) * Pow(10, Plus(K)) }

  /** m * 2^e is at most half of 10^-4. */
  predicate Tiny(m: nat, e: int) { 2 * XNum(m, e) * 10000 <= XDen(e) }

  lemma OneLess(m: nat, e: int, K: int)
    requires AtLeast(m, e, K)
    ensures AtLeast(m, e, K - 1)
  {
    var N, D := XNum(m, e), XDen(e);
    if K > 0 {
      assert Pow(10, K) == 10 * Pow(10, K - 1);
      assert D * (10 * Pow(10, K - 1)) == 10 * (D * Pow(10, K - 1));
      MulMono(0, D, 0, Pow(10, K - 1));
    } else {
      assert Pow(10, 1 - K) == 10 * Pow(10, 0 - K);
      assert N * (10 * Pow(10, 0 - K)) == 10 * (N * Pow(10, 0 - K));
    }
  }

  lemma {:induction false} Less(m: nat, e: int, K: int, K': int)
    requires AtLeast(m, e, K) && K' <= K
    ensures AtLeast(m, e, K')
    decreases K - K'
  {
    hide AtLeast;
    if K' < K { OneLess(m, e, K); Less(m, e, K - 1, K'); }
  }

  lemma MagnitudeIs(m: nat, e: int, E: int)
    ensures Magnitude(m, e, E) <==> AtLeast(m, e, E - 1) && !AtLeast(m, e, E)
  {
    hide Pow; hide XNum; hide XDen;
  }

  lemma ExponentRange(m: nat, e: int, E: int, K: int)
    requires Magnitude(m, e, E)
    ensures AtLeast(m, e, K) <==> E > K
  {
    hide Pow; hide AtLeast; hide Magnitude;
    MagnitudeIs(m, e, E);
    if E > K { Less(m, e, E - 1, K); } else if AtLeast(m, e, K) { Less(m, e, K, E); }
  }

  /** Half of 10^-4 does not round up to 10^-4, to any number of digits. */
  lemma TinyStays(m: nat, e: int, p: nat)
    requires Tiny(m, e)
    ensures ScaledRound(m, e, p + 5) < Pow(10, p + 1)
  {
    hide Pow; hide XNum; hide XDen; hide RoundInt;
    var N, D, T := XNum(m, e), XDen(e), Pow(10, p);
    TenZero();
    PowAdd(10, p, 5); PowAdd(10, p, 1);
    SmallTens();
    assert Pow(10, p + 5) == T * 100000 && Pow(10, p + 1) == T * 10;
    assert 2 * (N * (T * 100000)) == 2 * N * 10000 * (T * 10) by { TimesTen(N, T); }
    MulMono(2 * N * 10000, D, T * 10, T * 10);
    HalfRounds(N * (T * 100000), D, T);
    assert D * 1 == D;
  }

  lemma SmallTens()
    ensures Pow(10, 1) == 10 && Pow(10, 5) == 100000
  {
    assert Pow(10, 3) == 1000;
  }

  lemma TimesTen(N: nat, T: nat)
    ensures 2 * (N * (T * 100000)) == 2 * N * 10000 * (T * 10)
  {
    assert N * (T * 100000) == N * T * 100000;
    assert 2 * N * 10000 * (T * 10) == N * T * 200000;
  }

  lemma HalfRounds(n: nat, d: nat, T: nat)
    requires d > 0 && T > 0 && 2 * n <= d * (T * 10)
    ensures RoundInt(n, d) < T * 10
  {
    hide RoundInt;
    RoundIntNearest(n, d);
    Spread(d, T);
    if n / d > 5 * T { MulMono(5 * T + 1, n / d, d, d); }
  }

  lemma Spread(d: nat, T: nat)
    ensures (5 * T + 1) * d == 5 * (d * T) + d && d * (T * 10) == 10 * (d * T)
  {
  }

  lemma StyleOf(m: nat, e: int, p: nat, ds: seq<Digit>, X: int, E: int)
    requires PrintsE(m, e, p, ds, X, E)
    ensures m == 0 || (AtLeast(m, e, -4) && !AtLeast(m, e, p)) ==> p >= X >= -4
    ensures m > 0 && AtLeast(m, e, p + 1) ==> X > p
    ensures m > 0 && Tiny(m, e) ==> X < -4
  {
    hide Pow; hide Dec; hide Magnitude; hide ScaledRound; hide AtLeast; hide Tiny;
    if m > 0 {
      ExponentRange(m, e, E, -4); ExponentRange(m, e, E, p); ExponentRange(m, e, E, p + 1);
      if Tiny(m, e) {
        TinyBelow(m, e);
        if E == -4 { TinyStays(m, e, p); }
      }
    }
  }

  lemma TinyBelow(m: nat, e: int)
    requires m > 0 && Tiny(m, e)
    ensures !AtLeast(m, e, -4)
  {
    hide XDen; hide Pow;
    MulMono(1, m, 1, Pow2(Plus(e)));
    assert Pow(10, 4) == 10000 by { FourTens(); }
    assert Pow(10, 0) == 1 by { TenZero(); }
  }

  lemma FourTens()
    ensures Pow(10, 4) == 10000
  {
    assert Pow(10, 2) == 100;
  }

  /** From 10^-4 on up to the digits asked for %g writes no exponent; beyond them, and below, it does. */
  lemma StyleLaw(s: string, neg: bool, m: nat, e: int, p: nat, alt: bool)
    requires PrintedG(s, neg, m, e, p, alt)
    ensures m == 0 || (AtLeast(m, e, -4) && !AtLeast(m, e, p)) ==> 'e' !in s
    ensures m > 0 && (AtLeast(m, e, p + 1) || Tiny(m, e)) ==> 'e' in s
  {
    hide PrintsE; hide AtLeast; hide Tiny; hide LaidF; hide LaidE;
    var ds: seq<Digit>, X: int, E: int :|
      PrintsE(m, e, p, ds, X, E) && if p >= X >= -4 then LaidF(s, neg, ds, p - X, alt) else LaidE(s, neg, ds, X, alt);
    StyleOf(m, e, p, ds, X, E);
    if p >= X >= -4 { FixedHasNone(s, neg, ds, p - X, alt); } else { ExponentShown(s, neg, ds, X, alt); }
  }

  lemma FixedHasNone(s: string, neg: bool, ds: seq<Digit>, q: nat, alt: bool)
    requires LaidF(s, neg, ds, q, alt)
    ensures 'e' !in s
    ensures !alt && '.' in s ==> s[|s| - 1] != '.' && s[|s| - 1] != '0'
  {
    hide Dec; hide Spell;
    var ints: seq<Digit>, fracs: seq<Digit> :| GeneralF(s, neg, ds, q, alt, ints, fracs);
    var f := Kept(fracs, alt);
    G.SpellChars(ints); G.SpellChars(f);
    var a, b := SignText(neg) + Spell(ints), AfterPoint(f, alt);
    assert s == a + b;
    assert 'e' !in a && 'e' !in b && '.' !in a;
    if b != [] { assert s[|s| - 1] == b[|b| - 1]; }
  }

  lemma ExponentShown(s: string, neg: bool, ds: seq<Digit>, X: int, alt: bool)
    requires LaidE(s, neg, ds, X, alt)
    ensures 'e' in s
  {
    hide Dec; hide Spell; hide Exponent;
    var xs: seq<Digit> :| GeneralE(s, neg, ds, X, alt, xs);
    var a := SignText(neg) + (Spell(ds[..1]) + AfterPoint(Kept(ds[1..], alt), alt));
    assert s[|a|] == 'e';
  }

  /** Without the # flag a text without an exponent does not end in a point or in a zero behind it. */
  lemma NoTrailingZero(s: string, neg: bool, m: nat, e: int, p: nat)
    requires PrintedG(s, neg, m, e, p, false)
    ensures 'e' in s || '.' !in s || (s[|s| - 1] != '.' && s[|s| - 1] != '0')
  {
    hide PrintsE; hide LaidF; hide LaidE;
    var ds: seq<Digit>, X: int, E: int :|
      PrintsE(m, e, p, ds, X, E)
      && if p >= X >= -4 then LaidF(s, neg, ds, p - X, false) else LaidE(s, neg, ds, X, false);
    if p >= X >= -4 { FixedHasNone(s, neg, ds, p - X, false); } else { ExponentShown(s, neg, ds, X, false); }
  }
}
