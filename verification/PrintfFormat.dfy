/** The %e and %f conversions of src/vfprintf.c, without flags or width. */
module PrintfFormat {
  import opened Powers
  import opened Rounding
  import opened StrtodDecimal
  import opened StrtodText
  import opened PrintfDec

  // ---- what is to be printed ----

  /** x = m * 2^e as a fraction. */
  function XNum(m: nat, e: int): nat { m * Pow2(Plus(e)) }

  function XDen(e: int): (d: nat)
    ensures d > 0
  {
    Pow2(Neg(e))
  }

  /** 10^(E - 1) <= x < 10^E. */
  predicate Magnitude(m: nat, e: int, E: int) {
    && XNum(m, e) * Pow(10, Neg(E)) < XDen(e) * Pow(10, Plus(E))
    && XNum(m, e) * Pow(10, Neg(E - 1)) >= XDen(e) * Pow(10, Plus(E - 1))
  }

  /** x * 10^k rounded to an integer, ties to even. */
  function ScaledRound(m: nat, e: int, k: int): nat {
    ScaledDenPos(e, k);
    RoundInt(XNum(m, e) * Pow(10, Plus(k)), XDen(e) * Pow(10, Neg(k)))
  }

  lemma ScaledDenPos(e: int, k: int)
    ensures XDen(e) * Pow(10, Neg(k)) > 0
  {
    MulStrict(XDen(e), 0, Pow(10, Neg(k)));
  }

  /** The expansion's rounding is the rounding of x. */
  lemma RoundedIsScaled(V: nat, dexp: int, nd: nat, m: nat, e: int, K: int)
    requires Exact(V, dexp, m, e)
    ensures RoundedTo(V, nd, K) == ScaledRound(m, e, K - nd - dexp)
  {
    hide Pow; hide RoundInt;
    var k := K - nd - dexp;
    ScaledDenPos(e, k);
    TenZero();
    var N, D, T := XNum(m, e), XDen(e), Pow(10, -dexp);
    // V D == N T, and V / 10^(nd - K) == N 10^k / D
    if K >= nd {
      RoundIntWhole(V * Pow(10, K - nd));
      ScaleUp(V, D, N, T, K - nd, dexp, k);
      RoundIntRatio(V * Pow(10, K - nd), 1, N * Pow(10, Plus(k)), D * Pow(10, Neg(k)));
    } else {
      ScaleDown(V, D, N, T, nd - K, dexp, k);
      RoundIntRatio(V, Pow(10, nd - K), N * Pow(10, Plus(k)), D * Pow(10, Neg(k)));
    }
  }

  lemma RoundIntWhole(v: nat)
    ensures RoundInt(v, 1) == v
  {
  }

  lemma ScaleUp(V: nat, D: nat, N: nat, T: nat, j: nat, dexp: int, k: int)
    requires V * D == N * T && dexp <= 0 && T == Pow(10, -dexp) && k == j - dexp
    ensures V * Pow(10, j) * (D * Pow(10, Neg(k))) == N * Pow(10, Plus(k)) * 1
  {
    TenZero();
    hide Pow;
    PowAdd(10, j, -dexp);
    var g := Pow(10, j);
    MulComm(V, g); MulAssoc(g, V, D); MulComm(g, N * T); MulAssoc(N, T, g); MulComm(T, g);
  }

  lemma ScaleDown(V: nat, D: nat, N: nat, T: nat, j: nat, dexp: int, k: int)
    requires V * D == N * T && dexp <= 0 && T == Pow(10, -dexp) && k == 0 - j - dexp
    ensures V * (D * Pow(10, Neg(k))) == N * Pow(10, Plus(k)) * Pow(10, j)
  {
    TenZero();
    hide Pow;
    if k >= 0 {
      PowAdd(10, k, j);
      MulAssoc(N, Pow(10, k), Pow(10, j));
    } else {
      PowAdd(10, -dexp, -k);
      MulAssoc(V, D, Pow(10, -k)); MulAssoc(N, T, Pow(10, -k));
    }
  }

  /** nd + dexp is x's decimal exponent. */
  lemma ExpansionMagnitude(V: nat, dexp: int, nd: nat, m: nat, e: int)
    requires Exact(V, dexp, m, e) && nd > 0 && Pow(10, nd - 1) <= V < Pow(10, nd)
    ensures Magnitude(m, e, nd + dexp)
  {
    hide Pow;
    var N, D := XNum(m, e), XDen(e);
    MagnitudeSide(V, D, N, nd, dexp);
    MagnitudeSide(V, D, N, nd - 1, dexp);
  }

  /** V against 10^j is x against 10^(j + dexp). */
  lemma MagnitudeSide(V: nat, D: nat, N: nat, j: nat, dexp: int)
    requires D > 0 && dexp <= 0 && V * D == N * Pow(10, -dexp)
    ensures V < Pow(10, j) <==> N * Pow(10, Neg(j + dexp)) < D * Pow(10, Plus(j + dexp))
  {
    TenZero();
    hide Pow;
    var k, T := j + dexp, Pow(10, -dexp);
    MulStrict(D, V, Pow(10, j)); MulComm(D, V);
    if k >= 0 {
      PowAdd(10, k, -dexp);
      MulAssoc(D, Pow(10, k), T);
      MulStrict(T, N, D * Pow(10, k)); MulComm(T, N); MulComm(T, D * Pow(10, k));
    } else {
      PowAdd(10, -k, j);
      MulAssoc(N, Pow(10, -k), Pow(10, j));
      MulStrict(Pow(10, j), N * Pow(10, -k), D); MulComm(Pow(10, j), N * Pow(10, -k)); MulComm(Pow(10, j), D);
    }
  }

  // ---- text ----

  function Spell(ds: seq<Digit>): (s: string)
    ensures |s| == |ds| && forall i | 0 <= i < |s| :: s[i] == DigitChar(ds[i])
  {
    if ds == [] then [] else Spell(ds[..|ds| - 1]) + [DigitChar(ds[|ds| - 1])]
  }

  lemma {:induction false} SpellDigits(ds: seq<Digit>)
    ensures Digits(Spell(ds)) == ds && OfDigits(Spell(ds), false)
    decreases |ds|
  {
    if ds != [] {
      SpellDigits(ds[..|ds| - 1]);
      DigitsSnoc(Spell(ds[..|ds| - 1]), DigitChar(ds[|ds| - 1]));
      assert ds == ds[..|ds| - 1] + [ds[|ds| - 1]];
    }
  }

  /** The exponent x as ds spells it after the letter: at least min digits, and no more zeros in front
      than those ask for. */
  ghost predicate ExpText(s: string, x: int, letter: char, min: nat, ds: seq<Digit>) {
    && s == [letter, if x < 0 then '-' else '+'] + Spell(ds)
    && |ds| >= 1 && Exponent(x, min, ds)
  }

  ghost predicate Exponent(x: int, min: nat, ds: seq<Digit>) {
    var a := if x < 0 then -x else x;
    |ds| >= min && Dec(ds) == a && (|ds| <= 1 || |ds| <= min || Pow(10, |ds| - 1) <= a)
  }

  /** `exp_str`: letter, sign and at least min digits. */
  method ExpStr(x: int, letter: char, min: nat) returns (s: string)
    ensures exists ds: seq<Digit> :: ExpText(s, x, letter, min, ds)
  {
    hide Dec; hide Pow; hide Spell;
    var ux: nat := if x < 0 then -x else x;
    ghost var u := ux;
    var n := 0;
    var body: seq<Digit> := [];
    ExpStart0(u);
    while true
      invariant n == |body| && ExpHeld(u, ux, body) && (n > 0 ==> ux > 0)
      decreases ux, n == 0
    {
      ExpDigit(u, ux, body);
      TopDigit(ux);
      body := [ux % 10] + body;
      n := n + 1;
      ux := ux / 10;
      if ux == 0 { break; }
    }
    ExpDone(u, body);
    DecBounds(body);
    while n < min
      invariant n == |body| && n >= 1 && Dec(body) == u && (n == 1 || n <= min || Pow(10, n - 1) <= u)
    {
      PadZero(body);
      body := [0] + body;
      n := n + 1;
    }
    s := [letter, if x < 0 then '-' else '+'] + Spell(body);
    assert ExpText(s, x, letter, min, body);
  }

  lemma TopDigit(ux: nat)
    ensures ux > 0 && ux / 10 == 0 ==> ux % 10 != 0
  {
  }

  ghost predicate ExpHeld(u: nat, rest: nat, body: seq<Digit>) { u == rest * Pow(10, |body|) + Dec(body) }

  lemma ExpStart0(u: nat)
    ensures ExpHeld(u, u, [])
  {
  }

  lemma ExpDigit(u: nat, rest: nat, body: seq<Digit>)
    requires ExpHeld(u, rest, body)
    ensures ExpHeld(u, rest / 10, [rest % 10] + body)
  {
    hide Dec; hide Pow;
    DecCons(rest % 10, body);
    PowNext(10, |body|);
    var g := Pow(10, |body|);
    DivMod(rest, 10);
    MulAssoc(rest / 10, 10, g);
    MulDistr(g, rest / 10 * 10, rest % 10); MulComm(g, rest / 10 * 10); MulComm(g, rest % 10); MulComm(g, rest);
  }

  lemma {:induction false} DecCons(x: Digit, s: seq<Digit>)
    ensures Dec([x] + s) == x * Pow(10, |s|) + Dec(s)
    decreases |s|
  {
    if s == [] {
      assert [x] + s == [x] && [x][..0] == [];
    } else {
      var t, y := s[..|s| - 1], s[|s| - 1];
      DecCons(x, t);
      assert [x] + s == ([x] + t) + [y] && s == t + [y];
      DecSnoc([x] + t, y); DecSnoc(t, y);
      PowNext(10, |t|);
      hide Pow; hide Dec;
      MulAssoc(x, Pow(10, |t|), 10); MulComm(Pow(10, |t|), 10);
    }
  }

  lemma ExpDone(u: nat, body: seq<Digit>)
    requires ExpHeld(u, 0, body)
    ensures Dec(body) == u
  {
  }

  lemma PadZero(body: seq<Digit>)
    ensures Dec([0] + body) == Dec(body)
  {
    DecCons(0, body);
  }

  /** The significand of %e. */
  function Mantissa(ds: seq<Digit>): string
    requires ds != []
  {
    Spell(ds[..1]) + if |ds| > 1 then "." + Spell(ds[1..]) else ""
  }

  function SignText(neg: bool): string { if neg then "-" else "" }

  // ---- %e ----

  /** x to p + 1 significant digits: either they spell x scaled and rounded, or rounding ran over
      into the next power of ten. */
  ghost predicate PrintsE(m: nat, e: int, p: nat, ds: seq<Digit>, X: int, E: int) {
    |ds| == p + 1 &&
    if m == 0 then Dec(ds) == 0 && X == 0
    else Magnitude(m, e, E) && var R := ScaledRound(m, e, p + 1 - E);
         if X == E - 1 then Dec(ds) == R < Pow(10, p + 1) else X == E && R == Pow(10, p + 1) && Dec(ds) == Pow(10, p)
  }

  /** The digits and the exponent of %e. */
  method DigitsE(m: nat, e: int, p: nat) returns (ds: seq<Digit>, X: int, ghost E: int)
    requires m < Pow2(64) && -16445 <= e <= 16320
    ensures PrintsE(m, e, p, ds, X, E) && -20000 < X < 20000
  {
    hide Dec; hide Pow; hide Num; hide Exact; hide RoundState; hide Shown; hide PrintsE; hide RDigAt;
    var d := new Expansion();
    ghost var dexp := d.Init(m, e);
    d.Round(p + 1);
    X := if m != 0 then d.E - 1 else 0;
    E := d.E0;
    EDigits(m, e, p, d.V(), d.nd, dexp, d.r, d.carry, d.E0);
    ds := Collect(d, 0, p + 1);
    WholeSlice(Shown(d.V(), d.nd, d.K, d.r, d.carry, p + 1));
  }

  lemma WholeSlice(s: seq<Digit>)
    ensures s[0..|s|] == s
  {
  }

  /** Sign, digits with a point after the first, and the exponent in two to five digits. */
  ghost predicate TextE(s: string, neg: bool, ds: seq<Digit>, X: int, xs: seq<Digit>) {
    && ds != [] && s == SignText(neg) + Mantissa(ds) + (['e', if X < 0 then '-' else '+'] + Spell(xs))
    && |xs| <= 5 && Exponent(X, 2, xs)
  }

  /** s is m * 2^e to p + 1 significant digits. */
  ghost predicate PrintedE(s: string, neg: bool, m: nat, e: int, p: nat) {
    exists ds: seq<Digit>, X: int, xs: seq<Digit>, E: int :: PrintsE(m, e, p, ds, X, E) && TextE(s, neg, ds, X, xs)
  }

  method FmtE(neg: bool, m: nat, e: int, p: nat) returns (s: string)
    requires m < Pow2(64) && -16445 <= e <= 16320
    ensures PrintedE(s, neg, m, e, p)
  {
    hide Dec; hide Pow; hide Spell; hide Magnitude; hide ScaledRound;
    var ds, X;
    ghost var E;
    ds, X, E := DigitsE(m, e, p);
    var text := Spell(ds[..1]);
    if p > 0 { text := text + ("." + Spell(ds[1..])); }
    var es := ExpStr(X, 'e', 2);
    ghost var xs: seq<Digit> :| ExpText(es, X, 'e', 2, xs);
    FiveDigits(|xs|);
    s := SignText(neg) + text + es;
    assert PrintsE(m, e, p, ds, X, E) && TextE(s, neg, ds, X, xs);
  }

  lemma FiveDigits(n: nat)
    ensures n > 5 ==> Pow(10, n - 1) >= 20000
  {
    if n > 5 {
      PowMono(10, 5, n - 1);
      assert Pow(10, 5) == 100000;
    }
  }

  /** The digits shown from i up to k. */
  method Collect(d: Expansion, i: nat, k: nat) returns (t: seq<Digit>)
    requires d.Valid() && RoundState(d.V(), d.nd, d.K, d.r, d.carry) && i <= k
    ensures t == Shown(d.V(), d.nd, d.K, d.r, d.carry, k)[i..k]
  {
    hide Num; hide RoundState; hide Shown; hide RDigAt; hide Pow;
    t := [];
    ghost var all := Shown(d.V(), d.nd, d.K, d.r, d.carry, k);
    for j := i to k
      invariant t == all[i..j]
    {
      RDigIsDigit(d.V(), d.nd, d.K, d.r, d.carry, j);
      t := t + [d.RDig(j)];
    }
  }

  /** What the digits shown mean. */
  lemma EDigits(m: nat, e: int, p: nat, V: nat, nd: nat, dexp: int, r: int, carry: bool, E0: int)
    requires Exact(V, dexp, m, e) && RoundState(V, nd, p + 1, r, carry) && nd > 0 && V < Pow(10, nd)
    requires if m == 0 then nd == 1 && E0 == 1 && V == 0 else E0 == nd + dexp && V >= Pow(10, nd - 1)
    ensures var ds := Shown(V, nd, p + 1, r, carry, p + 1);
            PrintsE(m, e, p, ds, if m != 0 then E0 - 1 + (if carry then 1 else 0) else 0, E0)
  {
    hide Pow; hide Dec; hide Shown; hide RoundState; hide Exact; hide Magnitude; hide ScaledRound; hide RoundedTo;
    ShownIs(V, nd, p + 1, r, carry, p + 1);
    TenZero();
    var ds := Shown(V, nd, p + 1, r, carry, p + 1);
    DecBounds(ds);
    if m == 0 {
      NoCarryAtZero(nd, p + 1, r, carry);
    } else {
      RoundedIsScaled(V, dexp, nd, m, e, p + 1);
      ExpansionMagnitude(V, dexp, nd, m, e);
      if carry { CarryValue(V, nd, p + 1, r); }
    }
  }

  lemma CarryValue(V: nat, nd: nat, K: int, r: int)
    requires RoundState(V, nd, K, r, true)
    ensures K >= 0 && RoundedTo(V, nd, K) == Pow(10, K)
  {
  }

  lemma NoCarryAtZero(nd: nat, K: nat, r: int, carry: bool)
    requires RoundState(0, nd, K, r, carry) && nd == 1 && K > 0
    ensures !carry && RoundedTo(0, nd, K) == 0
  {
  }

  // ---- %f ----

  /** Digits before and after the point: no zeros in front but one before the point. */
  ghost predicate Placed(p: nat, ints: seq<Digit>, fracs: seq<Digit>) {
    |ints| >= 1 && (|ints| == 1 || ints[0] != 0) && |fracs| == p
  }

  ghost predicate TextF(s: string, neg: bool, p: nat, ints: seq<Digit>, fracs: seq<Digit>) {
    Placed(p, ints, fracs) && s == SignText(neg) + Spell(ints) + if p > 0 then "." + Spell(fracs) else ""
  }

  /** The digits of s spell m * 2^e * 10^p rounded to an integer, the last p of them after the point. */
  ghost predicate PrintedF(s: string, neg: bool, m: nat, e: int, p: nat) {
    exists ints: seq<Digit>, fracs: seq<Digit> ::
        TextF(s, neg, p, ints, fracs) && Dec(ints + fracs) == ScaledRound(m, e, p)
  }

  /** The digits of %f. */
  method DigitsF(m: nat, e: int, p: nat) returns (ints: seq<Digit>, fracs: seq<Digit>)
    requires m < Pow2(64) && -16445 <= e <= 16320
    ensures Placed(p, ints, fracs) && Dec(ints + fracs) == ScaledRound(m, e, p)
  {
    hide Dec; hide Pow; hide Num; hide Exact; hide RoundState; hide Shown; hide RDigAt; hide ScaledRound;
    hide RoundedTo;
    var d := new Expansion();
    ghost var dexp := d.Init(m, e);
    var K := if m == 0 || d.E0 + p < 0 then -1 else if d.E0 + p > 0x7fff_ffff then 0x7fff_ffff else d.E0 + p;
    d.Round(K);
    ghost var v := d.V();
    FRounded(v, d.nd, dexp, m, e, p, K, d.E0, d.r, d.carry);
    ints, fracs := PlaceDigits(d, p);
    FState(v, d.nd, K, d.r, d.carry);
    if m != 0 && d.E > 0 { FirstDigit(v, d.nd, K, d.r, d.carry); }
  }

  lemma FirstDigit(V: nat, nd: nat, K: int, r: int, carry: bool)
    requires RoundState(V, nd, K, r, carry) && nd > 0 && Pow(10, nd - 1) <= V < Pow(10, nd) && (carry || K >= 1)
    ensures RDigAt(V, nd, K, r, carry, 0) != 0
  {
    hide Pow; hide RoundedTo;
    var g := Pow(10, nd - 1);
    PowNext(10, nd - 1);
    LeadingDigit(V, g);
  }

  lemma LeadingDigit(V: nat, g: nat)
    requires 0 < g <= V < 10 * g
    ensures 1 <= V / g < 10
  {
    DivBounds(V, g, 1); DivBounds(V, g, 10);
  }

  method FmtF(neg: bool, m: nat, e: int, p: nat) returns (s: string)
    requires m < Pow2(64) && -16445 <= e <= 16320
    ensures PrintedF(s, neg, m, e, p)
  {
    hide Dec; hide Spell; hide ScaledRound;
    var ints, fracs := DigitsF(m, e, p);
    s := SignText(neg) + Spell(ints);
    if p > 0 { s := s + ("." + Spell(fracs)); }
    assert TextF(s, neg, p, ints, fracs) && Dec(ints + fracs) == ScaledRound(m, e, p);
  }

  /** The digits before and after the point: those with index below E, and the next p. */
  method PlaceDigits(d: Expansion, p: nat) returns (a: seq<Digit>, f: seq<Digit>)
    requires d.Valid() && RoundState(d.V(), d.nd, d.K, d.r, d.carry)
    ensures |a| >= 1 && |f| == p && (if d.E > 0 then |a| == d.E && a[0] == RDigAt(d.V(), d.nd, d.K, d.r, d.carry, 0)
        else |a| == 1)
    ensures Dec(a + f) == if d.E + p <= 0 then 0 else Dec(Shown(d.V(), d.nd, d.K, d.r, d.carry, d.E + p))
  {
    hide Dec; hide Pow; hide Num; hide RoundState; hide Shown; hide RDigAt;
    var E := d.E;
    if E > 0 {
      a := Collect(d, 0, E);
      f := Collect(d, E, E + p);
      ShownPrefix(d.V(), d.nd, d.K, d.r, d.carry, E, E + p);
      assert a + f == Shown(d.V(), d.nd, d.K, d.r, d.carry, E + p);
    } else {
      a := [0];
      var z := if p < -E then p else -E;
      var t: seq<Digit> := [];
      if z < p {
        t := Collect(d, 0, E + p);
        WholeSlice(Shown(d.V(), d.nd, d.K, d.r, d.carry, E + p));
      }
      f := seq(z, _ => 0) + t;
      NoDigitsZero();
      LeadingZeros(z + 1, t);
      assert a + f == seq(z + 1, _ => 0) + t;
    }
  }

  lemma NoDigitsZero()
    ensures Dec([]) == 0
  {
  }

  lemma {:induction false} LeadingZeros(z: nat, t: seq<Digit>)
    ensures Dec(seq(z, _ => 0) + t) == Dec(t)
  {
    if z == 0 {
      assert seq<Digit>(0, _ => 0) + t == t;
    } else {
      LeadingZeros(z - 1, t);
      PadZero(seq<Digit>(z - 1, _ => 0) + t);
      assert [0] + (seq<Digit>(z - 1, _ => 0) + t) == seq<Digit>(z, _ => 0) + t;
    }
  }

  lemma {:induction false} ShownPrefix(V: nat, nd: nat, K: int, r: int, carry: bool, j: nat, k: nat)
    requires RoundState(V, nd, K, r, carry) && j <= k
    ensures Shown(V, nd, K, r, carry, k)[..j] == Shown(V, nd, K, r, carry, j)
  {
  }

  /** The first E + p digits shown spell the rounded number. */
  lemma FRounded(V: nat, nd: nat, dexp: int, m: nat, e: int, p: nat, K: int, E0: int, r: int, carry: bool)
    requires Exact(V, dexp, m, e) && RoundState(V, nd, K, r, carry) && 0 < nd <= 9 * MAX_LIMBS && V < Pow(10, nd)
    requires if m == 0 then nd == 1 && E0 == 1 && V == 0 else E0 == nd + dexp && V >= Pow(10, nd - 1)
    requires K == if m == 0 || E0 + p < 0 then -1 else if E0 + p > 0x7fff_ffff then 0x7fff_ffff else E0 + p
    ensures var k := E0 + p + if carry then 1 else 0;
            ScaledRound(m, e, p) == if k <= 0 then 0 else Dec(Shown(V, nd, K, r, carry, k))
  {
    hide Pow; hide Dec; hide Shown; hide Exact; hide ScaledRound; hide RoundedTo; hide RoundState; hide DigAt;
    FState(V, nd, K, r, carry);
    if m == 0 {
      ZeroScaled(e, p);
      ShownIs(V, nd, K, r, carry, E0 + p);
    } else {
      RoundedIsScaled(V, dexp, nd, m, e, E0 + p);
      var k := E0 + p + if carry then 1 else 0;
      if E0 + p < 0 {
        RoundAway(V, nd, E0 + p);
      } else {
        if K < E0 + p { FBeyond(V, nd, K, E0 + p); }
        if k > 0 { ShownIs(V, nd, K, r, carry, k); }
        if k == 0 { FNone(V, nd, r); }
        TenZero();
      }
    }
  }

  lemma FState(V: nat, nd: nat, K: int, r: int, carry: bool)
    requires RoundState(V, nd, K, r, carry)
    ensures carry ==> 0 <= K < nd && RoundedTo(V, nd, K) == Pow(10, K)
  {
  }

  lemma ZeroScaled(e: int, p: nat)
    ensures ScaledRound(0, e, p) == 0
  {
    hide Pow;
    ScaledDenPos(e, p);
    assert XNum(0, e) * Pow(10, Plus(p)) == 0;
    DivUnique(0, XDen(e) * Pow(10, Neg(p)), 0, 0);
  }

  lemma FBeyond(V: nat, nd: nat, K: int, k: int)
    requires nd <= K <= k
    ensures RoundedTo(V, nd, K) * Pow(10, k - K) == RoundedTo(V, nd, k)
  {
    hide Pow;
    PowAdd(10, K - nd, k - K);
    MulAssoc(V, Pow(10, K - nd), Pow(10, k - K));
  }

  lemma FNone(V: nat, nd: nat, r: int)
    requires RoundState(V, nd, 0, r, false) && V < Pow(10, nd) && nd > 0
    ensures RoundedTo(V, nd, 0) == 0
  {
    hide Pow; hide RoundedTo;
    DivUnique(V, Pow(10, nd), 0, V);
  }
}
