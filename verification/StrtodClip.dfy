/** When `parse` of src/strtod.c reads exactly what a text says. It keeps 800 digits of a decimal and nine of an
    exponent: for each of these, the condition under which the result is the correctly rounded one. */
module StrtodClip {
  import opened Powers
  import opened Rounding
  import opened StrtodRound
  import opened StrtodDecimal
  import opened StrtodExact
  import opened StrtodSticky
  import opened StrtodMain
  import opened StrtodText
  import opened StrtodParse
  import L = StrtodLong

  // ---- exponents ----

  lemma {:induction false} LeadingIs(n: nat)
    ensures if n < 1_000_000_000 then Leading(n) == n else 100_000_000 <= Leading(n) && 10 * Leading(n) <= n
  {
    if n >= 1_000_000_000 { LeadingIs(n / 10); }
  }

  /** An exponent that is clipped is far from what remains of it. */
  lemma ClippedIs(X: int)
    ensures if -1_000_000_000 < X < 1_000_000_000 then Clipped(X) == X
        else if X > 0 then 100_000_000 <= Clipped(X) <= X - 100_000_000
        else X + 100_000_000 <= Clipped(X) <= -100_000_000
  {
    LeadingIs(if X < 0 then -X else X);
  }

  // ---- decimals in order ----

  lemma RoundedGrows(F: Format, N: nat, M: nat, q: int)
    requires F.Valid() && 4 * N <= M
    ensures Rounded(F, N, q) <= Rounded(F, M, q) && (Rounded(F, N, q) > 0 ==> Rounded(F, N, q) < Rounded(F, M, q))
  {
    hide Pow; hide Round; hide DecimalX; hide DecimalD;
    var u, d := DecimalX(F, 1, q), DecimalD(q);
    L.PerUnit(F, N, q); L.PerUnit(F, M, q);
    MulMono(4 * N, M, u, u); MulMono(4 * N * u, M * u, d, d);
    MulAssoc(4, N, u);
    RoundGrows(F, DecimalX(F, N, q), d, DecimalX(F, M, q), d);
  }

  /** More than ten times as much rounds to more. */
  lemma Later(F: Format, N: nat, q: int, k: nat)
    requires F.Valid() && k > 0
    ensures Rounded(F, N, q) <= Rounded(F, N, q + k)
    ensures Rounded(F, N, q) > 0 ==> Rounded(F, N, q) < Rounded(F, N, q + k)
  {
    hide Pow; hide Rounded;
    SameRounded(F, N, q + k, k);
    TenOrMore(k);
    MulMono(N, N, 4, Pow(10, k));
    RoundedGrows(F, N, N * Pow(10, k), q);
  }

  lemma TenOrMore(k: nat)
    requires k > 0
    ensures Pow(10, k) >= 10
  {
    PowMono(10, 1, k);
    assert Pow(10, 1) == 10;
  }

  /** The first 800 digits of a decimal with more. */
  lemma CutParts(N: nat)
    requires Cut(N)
    ensures var e := Excess(N); var V := N / Pow(10, e);
            Pow(10, 799) <= V && V * Pow(10, e) < N < (V + 1) * Pow(10, e)
  {
    hide Pow; hide Excess;
    var e := Excess(N);
    var g := Pow(10, e);
    ExcessBounds(N);
    if e == 0 {
      TenZero();
      assert false;
    }
    PowAdd(10, e, 799);
    DivBounds(N, g, Pow(10, 799));
    DivMod(N, g);
    MulDistr(g, N / g, 1); MulComm(g, N / g); MulComm(g, N / g + 1);
  }

  /** What is read is no more than the decimal rounded, and no less than a tenth of it rounded. */
  lemma ReadOrder(F: Format, N: nat, q: int, k: nat)
    requires F.Valid() && k > 0
    ensures Rounded(F, N, q - k) <= ReadValue(F, N, q) <= Rounded(F, N, q)
    ensures Rounded(F, N, q - k) > 0 ==> Rounded(F, N, q - k) < ReadValue(F, N, q)
  {
    hide Pow; hide Rounded; hide Above; hide Excess; hide Cut;
    if F == LDBL && Cut(N) {
      var e := Excess(N);
      var V := N / Pow(10, e);
      CutParts(N);
      LongTailAbove(V, q + e, N, e);
      SameRounded(F, V, q + e, e);
      var W := V * Pow(10, e);
      SameRounded(F, W, q, k);
      TenOrMore(k);
      TenPositive(799);
      AlmostAll(N, V, Pow(10, e), Pow(10, k));
      RoundedGrows(F, N, W * Pow(10, k), q - k);
    } else {
      Later(F, N, q - k, k);
    }
  }

  lemma AlmostAll(N: nat, V: nat, g: nat, t: nat)
    requires V > 0 && N < (V + 1) * g && t >= 10
    ensures 4 * N <= V * g * t
  {
    MulMono(V + 1, 2 * V, g, g); MulAssoc(2, V, g);
    MulMono(V * g, V * g, 10, t);
  }

  // ---- the exact conditions ----

  /** The decimal crosses a half-way point above its first 800 digits, which only a long double has need of. */
  predicate TailLost(F: Format, N: nat, q: int)
    requires F.Valid()
  {
    F == LDBL && Cut(N) && L.Crosses(F, N / Pow(10, Excess(N)), q + Excess(N), N, Excess(N))
        && ReadValue(F, N, q) < F.Limit()
  }

  lemma TailExact(F: Format, N: nat, q: int)
    requires F.Valid()
    ensures Same(F, ReadValue(F, N, q), Rounded(F, N, q)) <==> !TailLost(F, N, q)
  {
    hide Pow; hide Rounded; hide Above; hide Excess; hide Cut; hide L.Crosses;
    if F == LDBL && Cut(N) {
      var e := Excess(N);
      CutParts(N);
      LongTailAbove(N / Pow(10, e), q + e, N, e);
    }
  }

  /** An exponent of ten digits or more does no harm to a number that is zero, to one that the exponent's first
      nine digits already take out of range, nor to one that the whole exponent leaves out of range on the
      other side. */
  lemma ClipExact(F: Format, N: nat, f: nat, X: int)
    requires F.Valid() && Clipped(X) != X
    ensures var a, b := ReadValue(F, N, Clipped(X) - f), Rounded(F, N, X - f);
            Same(F, a, b) <==>
                if X > 0 then a >= F.Limit() || b == 0 else a == 0 || b >= F.Limit()
  {
    hide Rounded; hide ReadValue; hide Clipped; hide Pow;
    var x := Clipped(X);
    ClippedIs(X);
    if X > 0 {
      ReadOrder(F, N, x - f, 1);
      Later(F, N, x - f, X - x);
    } else {
      ReadOrder(F, N, x - f, x - X);
    }
  }

  /** What a caller has to know of a decimal, its exponent and its digits behind the point. */
  ghost predicate RightlyRead(F: Format, N: nat, f: nat, X: int)
    requires F.Valid()
  {
    var q, a, b := Clipped(X) - f, ReadValue(F, N, Clipped(X) - f), Rounded(F, N, X - f);
    if Clipped(X) == X then !TailLost(F, N, q)
    else if X > 0 then a >= F.Limit() || b == 0
    else a == 0 || b >= F.Limit()
  }

  /** A decimal is read as it says, correctly rounded, if and only if that holds. */
  lemma DecimalRight(s: string, i: nat, neg: bool, F: Format, r: Float, end: nat, k: nat, X: int)
    requires F.Valid() && i <= |s| && DecimalRead(s, i, neg, F, r, end, true, k, X)
    ensures var N, f := Dec(Digits(s[i..k])), Frac(s[i..k]);
            IsUnits(F, r, Rounded(F, N, X - f), neg) <==> RightlyRead(F, N, f, X)
  {
    hide Rounded; hide ReadValue; hide Clipped; hide Digits; hide Dec; hide Frac; hide IsUnits; hide TailLost;
    var N, f := Dec(Digits(s[i..k])), Frac(s[i..k]);
    OneFloat(F, r, ReadValue(F, N, Clipped(X) - f), Rounded(F, N, X - f), neg);
    if Clipped(X) == X { TailExact(F, N, X - f); } else { ClipExact(F, N, f, X); }
  }

  /** A text can say one and be read as zero: a billion digits behind the point, of which only the last is not
      zero, and the exponent that makes up for them. */
  lemma ClipMisread(F: Format)
    requires IsFormat(F)
    ensures F.Valid() && !RightlyRead(F, 1, 1_000_000_000, 1_000_000_000)
    ensures Rounded(F, 1, 0) == F.One() && ReadValue(F, 1, Clipped(1_000_000_000) - 1_000_000_000) == 0
  {
    FormatValid(F);
    assert Clipped(1_000_000_000) == 100_000_000;
    hide Pow; hide ReadValue; hide Clipped; hide Round;
    Underflows(F, 1, 1, -900_000_000) by { assert Pow(10, 1) == 10 by { TenOne(); } }
    ReadOrder(F, 1, -900_000_000, 1);
    TenZero();
    OneHeld(F);
    HeldRounds(F, F.One());
    LimitPositive(F);
  }

  lemma TenOne()
    ensures Pow(10, 1) == 10
  {
  }

  lemma OneHeld(F: Format)
    requires F.Valid()
    ensures Holds(F, F.One()) && F.One() > 0
  {
    PowMono(2, 1, F.p);
    assert Pow2(1) == 2;
    assert HoldsAs(F, F.One(), 1, -F.emin);
  }

  lemma LimitPositive(F: Format)
    requires F.Valid()
    ensures F.Limit() > 0
  {
  }

  // ---- texts that are short enough ----

  /** Texts too short for their digits to make up for an exponent of ten digits. */
  const MAX_TEXT := 24_000_000

  lemma ShortText(s: string, i: nat, neg: bool, F: Format, r: Float, end: nat, k: nat, X: int)
    requires IsFormat(F) && F.Valid() && i <= |s| < MAX_TEXT && DecimalRead(s, i, neg, F, r, end, true, k, X)
    ensures var N, f := Dec(Digits(s[i..k])), Frac(s[i..k]);
            IsUnits(F, r, Rounded(F, N, X - f), neg) <==> !(Clipped(X) == X && TailLost(F, N, X - f))
  {
    hide Rounded; hide ReadValue; hide Clipped; hide Digits; hide Dec; hide Frac; hide IsUnits; hide TailLost;
    hide Significand;
    var N, f := Dec(Digits(s[i..k])), Frac(s[i..k]);
    DecimalRight(s, i, neg, F, r, end, k, X);
    TextBounds(s[i..k]);
    if Clipped(X) != X { OutOfRange(F, N, |Digits(s[i..k])|, f, X); }
  }

  lemma OutOfRange(F: Format, N: nat, n: nat, f: nat, X: int)
    requires IsFormat(F) && F.Valid() && N < Pow(10, n) && n < MAX_TEXT && f < MAX_TEXT && Clipped(X) != X
    ensures RightlyRead(F, N, f, X)
  {
    hide Pow; hide Rounded; hide ReadValue; hide Clipped;
    var x := Clipped(X);
    ClippedIs(X);
    ReadOrder(F, N, x - f, 1);
    if X < 0 {
      Underflows(F, N, n, x - f);
    } else if N == 0 {
      ZeroRounded(F, X - f);
    } else {
      TenZero();
      Overflows(F, N, 1, x - f - 1);
    }
  }

  lemma TextBounds(m: string)
    ensures Dec(Digits(m)) < Pow(10, |Digits(m)|) && |Digits(m)| <= |m| && Frac(m) <= |m|
  {
    DecBounds(Digits(m));
    FracBound(m);
    DigitCount(m);
  }

  lemma {:induction false} DigitCount(m: string)
    ensures |Digits(m)| <= |m|
  {
    if m != [] { DigitCount(m[..|m| - 1]); }
  }

  // ---- hexadecimal ----

  lemma SameBits(F: Format, n: nat, E: int, k: nat)
    requires F.Valid()
    ensures BinaryRounded(F, n * Pow2(k), E) == BinaryRounded(F, n, E + k)
  {
    hide Pow; hide Round;
    if E >= F.emin {
      PowAdd(2, k, E - F.emin);
      MulAssoc(n, Pow2(k), Pow2(E - F.emin));
    } else if E + k >= F.emin {
      PowAdd(2, E + k - F.emin, F.emin - E);
      MulAssoc(n, Pow2(E + k - F.emin), Pow2(F.emin - E));
    } else {
      PowAdd(2, k, F.emin - E - k);
      MulAssoc(n, Pow2(k), Pow2(F.emin - E - k));
    }
    RoundRatio(F, UnitsNum(F, n * Pow2(k), E), UnitsDen(F, 1, E), UnitsNum(F, n, E + k), UnitsDen(F, 1, E + k));
  }

  lemma BitsLater(F: Format, n: nat, E: int, k: nat)
    requires F.Valid() && k >= 2
    ensures BinaryRounded(F, n, E) <= BinaryRounded(F, n, E + k)
    ensures BinaryRounded(F, n, E) > 0 ==> BinaryRounded(F, n, E) < BinaryRounded(F, n, E + k)
  {
    hide Round;
    SameBits(F, n, E, k);
    PowMono(2, 2, k);
    assert Pow2(2) == 4;
    hide Pow;
    var m, d := n * Pow2(k), UnitsDen(F, 1, E);
    MulMono(n, n, 4, Pow2(k));
    assert 4 * UnitsNum(F, n, E) <= UnitsNum(F, m, E) by {
      if E >= F.emin { MulMono(4 * n, m, Pow2(E - F.emin), Pow2(E - F.emin)); MulAssoc(4, n, Pow2(E - F.emin)); }
    }
    MulMono(4 * UnitsNum(F, n, E), UnitsNum(F, m, E), d, d);
    RoundGrows(F, UnitsNum(F, n, E), d, UnitsNum(F, m, E), d);
  }

  /** A hexadecimal number is read as it says, correctly rounded, if and only if its exponent has at most nine
      digits, or those already take it out of range, or all of them leave it out of range on the other side. */
  lemma HexRight(s: string, i: nat, neg: bool, F: Format, r: Float, end: nat, k: nat, X: int)
    requires F.Valid() && i <= |s| && HexRead(s, i, neg, F, r, end, k, X)
    ensures var n, f := Hex(HexDigits(s[i..k])), 4 * Frac(s[i..k]);
            var a, b := BinaryRounded(F, n, Clipped(X) - f), BinaryRounded(F, n, X - f);
            IsUnits(F, r, b, neg) <==>
                || Clipped(X) == X
                || (if X > 0 then a >= F.Limit() || b == 0 else a == 0 || b >= F.Limit())
  {
    hide BinaryRounded; hide Clipped; hide HexDigits; hide Hex; hide Frac; hide IsUnits; hide Pow;
    var n, f, x := Hex(HexDigits(s[i..k])), 4 * Frac(s[i..k]), Clipped(X);
    OneFloat(F, r, BinaryRounded(F, n, x - f), BinaryRounded(F, n, X - f), neg);
    ClippedIs(X);
    if x < X { BitsLater(F, n, x - f, X - x); } else if X < x { BitsLater(F, n, X - f, x - X); }
  }
}
