/** Printing with %f and %g and reading back (src/vfprintf.c, src/strtod.c). */
module RoundTripG {
  import opened Powers
  import opened Rounding
  import opened StrtodRound
  import opened LongDouble
  import opened StrtodDecimal
  import opened StrtodExact
  import opened StrtodSticky
  import opened StrtodMain
  import opened StrtodParse
  import opened PrintfFormat
  import opened PrintfGeneral
  import G = StrtodGrammar
  import R = RoundTrip

  // ---- zeros at the end ----

  lemma CutZeros(N: nat, z: nat)
    ensures Cut(N * Pow(10, z)) == Cut(N)
    ensures Cut(N) ==>
        Excess(N * Pow(10, z)) == Excess(N) + z && N * Pow(10, z) / Pow(10, Excess(N) + z) == N / Pow(10, Excess(N))
  {
    hide Pow; hide Excess;
    if N < Pow(10, MAX_DIGITS) {
      TenZero();
      Uncut(N, 0); Uncut(N, z);
    } else {
      MoreZeros(N, z);
    }
  }

  lemma MoreZeros(N: nat, z: nat)
    requires N >= Pow(10, MAX_DIGITS)
    ensures Excess(N * Pow(10, z)) == Excess(N) + z && Cut(N * Pow(10, z)) == Cut(N)
    ensures N * Pow(10, z) / Pow(10, Excess(N) + z) == N / Pow(10, Excess(N))
  {
    hide Pow; hide Excess;
    var e, g := Excess(N), Pow(10, z);
    ExcessBounds(N);
    if e == 0 { assert false; }
    PowAdd(10, 800 + e, z); PowAdd(10, 799 + e, z); PowAdd(10, e, z);
    MulStrict(g, N, Pow(10, 800 + e)); MulMono(g, g, Pow(10, 799 + e), N);
    MulComm(g, N); MulComm(g, Pow(10, 800 + e)); MulComm(g, Pow(10, 799 + e)); MulComm(g, Pow(10, e));
    ExcessIs(N * g, e + z);
    DivCancel(N, Pow(10, e), g);
    NoRemainder(g, N % Pow(10, e));
  }

  lemma NoRemainder(g: nat, x: nat)
    requires g > 0
    ensures g * x == 0 <==> x == 0
  {
    MulStrict(g, 0, x);
  }

  /** They do not change what is read. */
  lemma ZerosRead(F: Format, N: nat, q: int, z: nat)
    requires F.Valid()
    ensures ReadValue(F, N * Pow(10, z), q - z) == ReadValue(F, N, q)
  {
    hide Pow; hide Excess; hide Above; hide Rounded; hide Cut;
    CutZeros(N, z);
    SameRounded(F, N, q, z);
  }

  // ---- the texts ----

  /** The text of %f is read as the number it shows. */
  lemma ReadsF(s: string, neg: bool, m: nat, e: int, p: nat, F: Format, r: Parsed, end: nat)
    requires F.Valid() && PrintedF(s, neg, m, e, p) && ParsedAs(s, F, r, end)
    ensures r.Number? && IsUnits(F, r.r, ReadValue(F, ScaledRound(m, e, p), 0 - p), neg) && end == |s|
  {
    hide Spell; hide Dec; hide ScaledRound; hide ParsedAs; hide IsUnits; hide ReadValue;
    var ints: seq<Digit>, fracs: seq<Digit> :| TextF(s, neg, p, ints, fracs)
        && Dec(ints + fracs) == ScaledRound(m, e, p);
    FixedRead(s, neg, ints, fracs, false, F, r, end);
  }

  /** A number without an exponent as %g lays it out. */
  function Fixed(neg: bool, ints: seq<Digit>, f: seq<Digit>, alt: bool): G.Number {
    G.Number(if neg then G.Minus else G.Absent, ints, f != [] || alt, f, false, G.Absent, [])
  }

  function Scientific(neg: bool, ints: seq<Digit>, f: seq<Digit>, alt: bool, X: int, xs: seq<Digit>): G.Number {
    G.Number(if neg then G.Minus else G.Absent, ints, f != [] || alt, f, true, if X < 0 then G.Minus else G.Plus, xs)
  }

  lemma FixedRead(s: string, neg: bool, ints: seq<Digit>, f: seq<Digit>, alt: bool, F: Format, r: Parsed, end: nat)
    requires F.Valid() && ints != [] && s == SignText(neg) + Spell(ints) + AfterPoint(f, alt) && ParsedAs(s, F, r, end)
    ensures r.Number? && IsUnits(F, r.r, ReadValue(F, Dec(ints + f), 0 - |f|), neg) && end == |s|
  {
    hide Spell; hide Dec; hide ParsedAs; hide IsUnits; hide ReadValue; hide AfterPoint;
    var n := Fixed(neg, ints, f, alt);
    FixedText(n, s, neg, ints, f, alt);
    assert "" + n.Text() == s;
    assert n.Power() == 0 && Clipped(0) == 0;
    assert "" + n.Text() + "" == n.Text();
    G.NumberRead("", n, "", F, r, end);
  }

  lemma FixedText(n: G.Number, s: string, neg: bool, ints: seq<Digit>, f: seq<Digit>, alt: bool)
    requires n == Fixed(neg, ints, f, alt) && s == SignText(neg) + Spell(ints) + AfterPoint(f, alt)
    ensures n.Text() == s
  {
    var b := Spell(ints) + AfterPoint(f, alt);
    assert n.Significand() == b && n.Exponent() == "";
    hide *;
    Empty(b);
    R.Assoc(SignText(neg), Spell(ints), AfterPoint(f, alt));
    assert n.Text() == G.SignOf(n.sign) + (n.Significand() + n.Exponent()) by { TextIs(n); }
    SignIs(neg);
  }

  lemma Empty(b: string)
    ensures b + "" == b
  {
  }

  lemma TextIs(n: G.Number)
    ensures n.Text() == G.SignOf(n.sign) + (n.Significand() + n.Exponent())
  {
  }

  lemma SignIs(neg: bool)
    ensures SignText(neg) == G.SignOf(if neg then G.Minus else G.Absent)
  {
  }

  lemma ScientificRead(s: string, neg: bool, ints: seq<Digit>, f: seq<Digit>, alt: bool, X: int, xs: seq<Digit>,
      F: Format, r: Parsed, end: nat)
    requires F.Valid() && ints != [] && |xs| <= 5 && Exponent(X, 2, xs) && ParsedAs(s, F, r, end)
    requires s == SignText(neg) + (Spell(ints) + AfterPoint(f, alt)) + (['e', if X < 0 then '-' else '+'] + Spell(xs))
    ensures r.Number? && IsUnits(F, r.r, ReadValue(F, Dec(ints + f), X - |f|), neg) && end == |s|
  {
    hide Spell; hide Dec; hide ParsedAs; hide IsUnits; hide ReadValue; hide Clipped; hide Pow;
    var n := Scientific(neg, ints, f, alt, X, xs);
    ScientificText(n, s, neg, ints, f, alt, X, xs);
    assert "" + n.Text() == s;
    assert n.Power() == X;
    assert "" + n.Text() + "" == n.Text();
    G.NumberRead("", n, "", F, r, end);
    R.ShortExponent(xs, X);
  }

  lemma ReadsLaidF(s: string, neg: bool, ds: seq<Digit>, p: nat, alt: bool, F: Format, r: Parsed, end: nat)
    requires F.Valid() && LaidF(s, neg, ds, p, alt) && ParsedAs(s, F, r, end)
    ensures r.Number? && IsUnits(F, r.r, ReadValue(F, Dec(ds), 0 - p), neg) && end == |s|
  {
    hide Spell; hide Dec; hide ParsedAs; hide IsUnits; hide ReadValue; hide Stripped; hide Pow; hide AfterPoint;
    hide PrintfGeneral.Kept;
    var ints: seq<Digit>, fracs: seq<Digit> :| GeneralF(s, neg, ds, p, alt, ints, fracs);
    var f := PrintfGeneral.Kept(fracs, alt);
    KeptValue(ints, fracs, alt);
    FixedRead(s, neg, ints, f, alt, F, r, end);
    ZerosRead(F, Dec(ints + f), 0 - |f|, |fracs| - |f|);
  }

  lemma KeptValue(a: seq<Digit>, f: seq<Digit>, alt: bool)
    ensures |PrintfGeneral.Kept(f, alt)| <= |f|
        && Dec(a + f) == Dec(a + PrintfGeneral.Kept(f, alt)) * Pow(10, |f| - |PrintfGeneral.Kept(f, alt)|)
  {
    hide Dec; hide Pow; hide Stripped;
    if alt { TenZero(); } else { StrippedValue(a, f); }
  }

  lemma ReadsLaidE(s: string, neg: bool, ds: seq<Digit>, X: int, alt: bool, F: Format, r: Parsed, end: nat)
    requires F.Valid() && LaidE(s, neg, ds, X, alt) && ParsedAs(s, F, r, end)
    ensures r.Number? && IsUnits(F, r.r, ReadValue(F, Dec(ds), X - (|ds| - 1)), neg) && end == |s|
  {
    hide Spell; hide Dec; hide ParsedAs; hide IsUnits; hide ReadValue; hide Stripped; hide Pow; hide AfterPoint;
    hide PrintfGeneral.Kept; hide Exponent;
    var xs: seq<Digit> :| GeneralE(s, neg, ds, X, alt, xs);
    var a, fracs := ds[..1], ds[1..];
    var f := PrintfGeneral.Kept(fracs, alt);
    KeptValue(a, fracs, alt);
    assert a + fracs == ds;
    ScientificRead(s, neg, a, f, alt, X, xs, F, r, end);
    ZerosRead(F, Dec(a + f), X - |f|, |fracs| - |f|);
  }

  lemma ScientificText(n: G.Number, s: string, neg: bool, a: seq<Digit>, f: seq<Digit>, alt: bool, X: int,
      xs: seq<Digit>)
    requires n == Scientific(neg, a, f, alt, X, xs)
    requires s == SignText(neg) + (Spell(a) + AfterPoint(f, alt)) + (['e', if X < 0 then '-' else '+'] + Spell(xs))
    ensures n.Text() == s
  {
    hide Spell;
    var b, c := Spell(a) + AfterPoint(f, alt), ['e', if X < 0 then '-' else '+'] + Spell(xs);
    assert n.Significand() == b;
    assert "e" + G.SignOf(n.expSign) == ['e', if X < 0 then '-' else '+'];
    assert n.Exponent() == c;
    assert SignText(neg) + b + c == SignText(neg) + (b + c);
  }

  /** Whatever text is x to p + 1 significant digits in the style of %g, and whatever that is read as, it is x. */
  lemma RoundTripGeneral(neg: bool, m: nat, e: int, F: Format, p: nat, alt: bool, v: Parts, s: string, r: Parsed,
      end: nat)
    requires IsFormat(F) && F.Valid() && Canonical(F, m, e) && Pow(10, p) > Pow2(F.p)
    requires m < Pow2(64) && v == LdSplit(MakeLd(m, e, neg)) && PrintedG(s, v.neg, v.m, v.e, p, alt)
        && ParsedAs(s, F, r, end)
    ensures r.Number? && IsUnits(F, r.r, Units(F, m, e), neg) && end == |s|
  {
    hide Pow; hide IsUnits; hide ReadValue; hide PrintsE; hide R.SameUnits; hide ParsedAs; hide Dec; hide LaidF;
    hide LaidE;
    hide MakeLd; hide LdSplit;
    R.PassedOn(F, m, e, neg);
    var u := Units(F, m, e);
    assert HoldsAs(F, u, m, e - F.emin);
    var ds: seq<Digit>, X: int, E: int :| PrintsE(v.m, v.e, p, ds, X, E)
        && if p >= X >= -4 then LaidF(s, v.neg, ds, p - X, alt) else LaidE(s, v.neg, ds, X, alt);
    R.LengthIs(v.m, v.e, p, ds, X, E);
    R.DigitsReadBack(F, u, v.m, v.e, p, ds, X, E);
    if p >= X >= -4 {
      ReadsLaidF(s, v.neg, ds, p - X, alt, F, r, end);
    } else {
      ReadsLaidE(s, v.neg, ds, X, alt, F, r, end);
    }
  }

  /** %g, then strtof, strtod or strtold. */
  method PrintThenReadG(neg: bool, m: nat, e: int, F: Format, P: nat, alt: bool)
    returns (s: string, r: Parsed, end: nat)
    requires IsFormat(F) && Canonical(F, m, e) && P > 0 && Pow(10, P - 1) > Pow2(F.p)
    ensures F.Valid() && r.Number? && IsUnits(F, r.r, Units(F, m, e), neg) && end == |s|
  {
    hide Pow; hide IsUnits; hide PrintedG; hide MakeLd; hide LdSplit; hide ParsedAs; hide Units;
    FormatValid(F);
    R.PassedOn(F, m, e, neg);
    var v := LdSplit(MakeLd(m, e, neg));
    s := FmtG(v.neg, v.m, v.e, P, alt);
    r, end := Parse(s, F);
    RoundTripGeneral(neg, m, e, F, P - 1, alt, v, s, r, end);
  }
}
