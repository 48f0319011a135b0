/** The exact path of `decimal` (src/strtod.c): big-integer division with a truncated quotient
    estimate that is corrected upwards. */
module StrtodExact {
  import opened Powers
  import opened Limbs
  import opened Rounding
  import opened StrtodRound
  import opened StrtodBig
  import opened StrtodDecimal

  // ---- everything fits in BL limbs ----

  const MAX_BITS := 19200

  lemma Roomy(v: nat, b: nat)
    requires v < Pow2(b) && b <= 32 * BL
    ensures v < Pow(B32, BL)
  {
    hide Pow;
    B32Pow(BL);
    PowMono(2, b, 32 * BL);
  }

  /** A number of at most b bits takes at most b / 32 + 1 limbs. */
  lemma LimbCount(s: seq<Limb>, b: nat)
    requires Normal(s) && Num(s) < Pow2(b)
    ensures |s| <= b / 32 + 1
  {
    hide Pow; hide BitLen; hide Val;
    if s != [] {
      TopBits(s);
      ValNormal(B32, s);
      BitLenBounds(Num(s));
      BitLenPositive(s[|s| - 1]);
      if BitLen(Num(s)) > b { PowMono(2, b, BitLen(Num(s)) - 1); assert false; }
    }
  }

  lemma BitLenPositive(x: nat)
    requires x > 0
    ensures BitLen(x) > 0
  {
  }

  /** The numerator and the denominator of the decimal, before scaling. */
  function Num0(v: nat, q: int): nat { if q >= 0 then v * Pow(10, q) else v }

  lemma Sizes(F: Format, s: seq<Digit>, q: int)
    requires IsFormat(F) && |s| <= MAX_DIGITS && F.dmin <= q + |s| <= F.dmax
    ensures Num0(Dec(s), q) < Pow2(MAX_BITS - 10) && DecimalD(q) < Pow2(MAX_BITS - 10)
    ensures Dec(s) < Pow2(MAX_BITS - 10)
  {
    hide Dec; hide Pow;
    DecBounds(s);
    Below10(|s|, 5753);
    if q >= 0 {
      PowAdd(10, |s|, q);
      MulStrict(Pow(10, q), Dec(s), Pow(10, |s|)); MulComm(Pow(10, q), Dec(s)); MulComm(Pow(10, q), Pow(10, |s|));
      Below10(|s| + q, 5753);
      PowStrict(2, 0, MAX_BITS - 10);
      TwoZero();
    } else {
      Below10(-q, 5753);
    }
  }

  lemma Below10(k: nat, m: nat)
    requires k <= m && m == 5753
    ensures Pow(10, k) < Pow2(MAX_BITS - 10)
  {
    hide Pow;
    TenBelow(m);
    PowMono(10, k, m);
    PowStrict(2, 10 * ((m + 2) / 3), MAX_BITS - 10);
  }

  // ---- reading the digits ----

  /** A chunk of up to nine digits and its power of ten. */
  method Chunk(digits: seq<Digit>, i: nat) returns (chunk: Limb, mul: Limb, j: nat)
    requires i < |digits|
    ensures i < j <= i + 9 && j <= |digits| && (j < i + 9 ==> j == |digits|)
    ensures mul == Pow(10, j - i) && Dec(digits[..j]) == Dec(digits[..i]) * mul + chunk
    ensures i == 0 ==> chunk == Dec(digits[..j])
  {
    hide Pow; hide Dec;
    var c: nat, m: nat := 0, 1;
    j := i;
    ChunkStart(digits, i);
    while j < |digits| && j < i + 9
      invariant i <= j <= |digits| && j <= i + 9
      invariant m == Pow(10, j - i) && Dec(digits[..j]) == Dec(digits[..i]) * m + c && c < m
    {
      ChunkStep(digits, i, j, c, m);
      c := c * 10 + digits[j];
      m := m * 10;
      j := j + 1;
    }
    ChunkSmall(j - i, digits);
    chunk, mul := c, m;
  }

  lemma ChunkStart(digits: seq<Digit>, i: nat)
    requires i <= |digits|
    ensures Pow(10, 0) == 1 && Dec(digits[..i]) == Dec(digits[..i]) * 1 + 0
  {
  }

  lemma ChunkStep(digits: seq<Digit>, i: nat, j: nat, c: nat, m: nat)
    requires i <= j < |digits| && m == Pow(10, j - i) && Dec(digits[..j]) == Dec(digits[..i]) * m + c && c < m
    ensures m * 10 == Pow(10, j + 1 - i) && c * 10 + digits[j] < m * 10
    ensures Dec(digits[..j + 1]) == Dec(digits[..i]) * (m * 10) + (c * 10 + digits[j])
  {
    assert digits[..j + 1] == digits[..j] + [digits[j]];
    DecSnoc(digits[..j], digits[j]);
    assert Pow(10, j + 1 - i) == 10 * Pow(10, j - i);
    hide Pow; hide Dec;
    MulAssoc(Dec(digits[..i]), m, 10);
  }

  lemma ChunkSmall(k: nat, digits: seq<Digit>)
    requires k <= 9
    ensures Pow(10, k) < B32 && Dec(digits[..0]) == 0
  {
    PowMono(10, k, 9);
    Pow10Table();
  }

  /** The digits as a big integer. */
  method ReadDigits(num: Big, digits: seq<Digit>)
    requires num.d.Length == BL && |digits| <= MAX_DIGITS && digits != [] && digits[0] != 0
    modifies num, num.d
    ensures num.Valid() && num.V() == Dec(digits)
  {
    hide Pow; hide Dec; hide Val; hide Num; hide Normal;
    num.Small(0);
    var i: nat := 0;
    NoDigits(digits);
    while i < |digits|
      invariant 0 <= i <= |digits| && num.Valid() && num.V() == Dec(digits[..i])
    {
      var chunk, mul, j := Chunk(digits, i);
      DigitsFit(digits, j);
      MulComm(Dec(digits[..i]), mul);
      if num.n == 0 {
        EmptyIsZero(num.d[..num.n]);
        num.Small(chunk);
      } else {
        Pow10Positive(j - i);
        num.MulAdd(mul, chunk);
      }
      i := j;
    }
    assert digits[..i] == digits;
  }

  lemma NoDigits(digits: seq<Digit>)
    ensures Dec(digits[..0]) == 0
  {
  }

  lemma EmptyIsZero(s: seq<Limb>)
    requires s == []
    ensures Num(s) == 0
  {
  }

  lemma Pow10Positive(k: nat)
    ensures Pow(10, k) > 0
  {
  }

  lemma DigitsFit(digits: seq<Digit>, j: nat)
    requires j <= |digits| <= MAX_DIGITS
    ensures Dec(digits[..j]) < Pow(B32, BL)
  {
    hide Pow; hide Dec;
    DecBounds(digits[..j]);
    Below10(j, 5753);
    Roomy(Dec(digits[..j]), MAX_BITS - 10);
  }

  // ---- scaling and the quotient ----

  /** num and den scaled so that num has exactly p + 2 more bits than den. */
  ghost predicate Scaled(F: Format, n: nat, d: nat) { n > 0 && d > 0 && BitLen(n) == BitLen(d) + F.p + 2 }

  /** Then the quotient has p + 2 or p + 3 bits. */
  lemma QuotientBits(F: Format, n: nat, d: nat)
    requires Scaled(F, n, d) && F.Valid()
    ensures Pow2(F.p + 1) <= n / d < Pow2(F.p + 3) && BitLen(n / d) > F.p
  {
    hide Pow; hide BitLen;
    var a, b := BitLen(n), BitLen(d);
    BitLenBounds(n); BitLenBounds(d);
    PowAdd(2, b, F.p + 1); PowAdd(2, b - 1, F.p + 3);
    MulMono(d, Pow2(b), Pow2(F.p + 1), Pow2(F.p + 1));
    MulMono(Pow2(b - 1), d, Pow2(F.p + 3), Pow2(F.p + 3));
    DivBounds(n, d, Pow2(F.p + 1)); DivBounds(n, d, Pow2(F.p + 3));
    BitLenBounds(n / d);
    if BitLen(n / d) <= F.p { PowMono(2, BitLen(n / d), F.p + 1); assert false; }
  }

  /** Truncating the dividend and rounding the divisor up can only undershoot: with
      N <= n / 2^sn and D + 1 > d / 2^sd, (N / (D + 1)) * 2^(sn - sd) <= n / d. */
  lemma Undershoot(n: nat, d: nat, N: nat, D: nat, x: nat, y: nat, z: nat, w: nat)
    requires d > 0 && x > 0 && y > 0 && z > 0 && w > 0
    requires N * x <= n * z          // N <= n * z / x
    requires d * w < (D + 1) * y     // d * w / y < D + 1
    ensures N / (D + 1) * (x * w) * d <= n * (z * y)
  {
    DivMod(N, D + 1);
    MulComm(D + 1, N / (D + 1));
    UndershootStep(n, d, N, D + 1, N / (D + 1), x, y, z, w);
  }

  lemma UndershootStep(n: nat, d: nat, N: nat, D: nat, q: nat, x: nat, y: nat, z: nat, w: nat)
    requires q * D <= N && N * x <= n * z && d * w <= D * y
    ensures q * (x * w) * d <= n * (z * y)
  {
    // q (x w) d == (q x) (d w) <= (q x) (D y) == (q D) (x y) <= N (x y) <= n (z y)
    Pair(q, x, w, d);
    MulMono(q * x, q * x, d * w, D * y);
    Pair2(q, x, D, y);
    MulMono(q * D, N, x * y, x * y);
    MulAssoc(N, x, y);
    MulMono(N * x, n * z, y, y);
    MulAssoc(n, z, y);
  }

  lemma Pair(q: nat, x: nat, w: nat, d: nat)
    ensures q * (x * w) * d == q * x * (d * w)
  {
    MulAssoc(q, x, w); MulAssoc(q * x, w, d); MulComm(w, d);
  }

  lemma Pair2(q: nat, x: nat, D: nat, y: nat)
    ensures q * x * (D * y) == q * D * (x * y)
  {
    MulAssoc(q * x, D, y); MulAssoc(q, x, D); MulComm(x, D); MulAssoc(q, D, x); MulAssoc(q * D, x, y);
  }

  function TopOf(v: nat, shift: int): nat { if shift >= 0 then v / Pow2(shift) else v * Pow2(-shift) }

  function Pos(x: int): nat { if x >= 0 then x else 0 }

  lemma TopBelow(n: nat, s: int)
    ensures TopOf(n, s) * Pow2(Pos(s)) <= n * Pow2(Pos(-s)) < (TopOf(n, s) + 1) * Pow2(Pos(s))
  {
    if s >= 0 {
      TwoZero();
      hide Pow;
      DivMod(n, Pow2(s));
      MulComm(Pow2(s), n / Pow2(s)); MulDistr(Pow2(s), n / Pow2(s), 1); MulComm(Pow2(s), n / Pow2(s) + 1);
    }
  }

  /** The estimate, shifted into place. */
  function Estimate(N: nat, D: nat, sh: int): nat {
    var q := N / (D + 1);
    if sh >= 0 then q * Pow2(sh) else q / Pow2(-sh)
  }

  lemma EstimateBelow(n: nat, d: nat, sn: int, sd: int)
    requires d > 0
    ensures Estimate(TopOf(n, sn), TopOf(d, sd), sn - sd) * d <= n
  {
    var N, D := TopOf(n, sn), TopOf(d, sd);
    hide Pow; hide TopOf;
    TopBelow(n, sn); TopBelow(d, sd);
    var x, z, y, w := Pow2(Pos(sn)), Pow2(Pos(-sn)), Pow2(Pos(sd)), Pow2(Pos(-sd));
    Undershoot(n, d, N, D, x, y, z, w);
    PowAdd(2, Pos(sn), Pos(-sd)); PowAdd(2, Pos(-sn), Pos(sd));
    var q, sh := N / (D + 1), sn - sd;
    if sh >= 0 {
      PowAdd(2, sh, Pos(-sn) + Pos(sd));
      ShiftedUp(q, d, n, Pow2(sh), z * y);
    } else {
      PowAdd(2, -sh, Pos(sn) + Pos(-sd));
      ShiftedDown(q, d, n, Pow2(-sh), x * w);
    }
  }

  lemma ShiftedUp(q: nat, d: nat, n: nat, g: nat, b: nat)
    requires b > 0 && q * (g * b) * d <= n * b
    ensures q * g * d <= n
  {
    assert q * (g * b) * d == b * (q * g * d) by { MulAssoc(q, g, b); MulComm(q * g, b); MulAssoc(b, q * g, d); }
    MulComm(n, b);
    MulStrict(b, q * g * d, n);
  }

  lemma ShiftedDown(q: nat, d: nat, n: nat, g: nat, a: nat)
    requires a > 0 && g > 0 && q * a * d <= n * (g * a)
    ensures q / g * d <= n
  {
    CancelShift(q, d, n, g, a);
    DivMod(q, g);
    ScaleBelow(q / g, q, d, n, g);
  }

  lemma CancelShift(q: nat, d: nat, n: nat, g: nat, a: nat)
    requires a > 0 && q * a * d <= n * (g * a)
    ensures q * d <= n * g
  {
    MulComm(q, a); MulAssoc(a, q, d);
    MulAssoc(n, g, a); MulComm(n * g, a);
    MulStrict(a, q * d, n * g);
  }

  lemma ScaleBelow(t: nat, q: nat, d: nat, n: nat, g: nat)
    requires g > 0 && g * t <= q && q * d <= n * g
    ensures t * d <= n
  {
    MulMono(g * t, q, d, d);
    MulAssoc(g, t, d); MulComm(n, g);
    MulStrict(g, t * d, n);
  }

  /** The quotient of num by den; num is left with the remainder. */
  method Divide(num: Big, den: Big, t: Big, F: Format) returns (Q: nat)
    requires num.Valid() && den.Valid() && num.d.Length == den.d.Length == t.d.Length == BL && F.Valid() && F.p <= 64
    requires num != den && num != t && den != t && num.d != den.d && num.d != t.d && den.d != t.d
    requires Scaled(F, num.V(), den.V()) && den.V() < Pow2(MAX_BITS)
    modifies num, num.d, t, t.d
    ensures num.Valid() && den.Valid() && Q == old(num.V()) / den.V() && num.V() == old(num.V()) % den.V()
        && den.V() == old(den.V())
  {
    hide Pow; hide BitLen; hide Val; hide Num; hide Normal; hide Scaled;
    ghost var n, d := num.V(), den.V();
    ScaledPositive(F, n, d);
    var N, sn := num.Top(128);
    var D, sd := den.Top(64);
    var sh := sn - sd;
    Q := N / (D + 1);
    EstimateBelow(n, d, sn, sd);
    Q := if sh >= 0 then Q * Pow2(sh) else Q / Pow2(-sh);
    QuotientFits(F, n, d, Q);
    DenLimbs(den.d[..den.n]);
    t.Mul128(den, Q);
    MulComm(d, Q);
    num.Sub(t);
    var c := num.Cmp(den);
    while c >= 0
      invariant num.Valid() && den.Valid() && den.V() == d && num.V() == n - d * Q && n >= d * Q
      invariant c >= 0 <==> num.V() >= d
      decreases num.V()
    {
      MulDistr(d, Q, 1);
      num.Sub(den);
      Q := Q + 1;
      c := num.Cmp(den);
    }
    DivUnique(n, d, Q, num.V());
  }

  lemma ScaledPositive(F: Format, n: nat, d: nat)
    requires Scaled(F, n, d)
    ensures n > 0 && d > 0
  {
  }

  lemma QuotientFits(F: Format, n: nat, d: nat, Q: nat)
    requires Scaled(F, n, d) && F.Valid() && F.p <= 64 && Q * d <= n
    ensures Q <= n / d && Q < Pow(B32, 4)
  {
    hide Pow; hide BitLen;
    QuotientBits(F, n, d);
    MulComm(Q, d);
    DivBounds(n, d, Q);
    B32Pow(4);
    PowMono(2, F.p + 3, 128);
  }

  lemma DenLimbs(s: seq<Limb>)
    requires Normal(s) && Num(s) < Pow2(MAX_BITS)
    ensures |s| + 4 <= BL
  {
    hide Pow; hide Val;
    LimbCount(s, MAX_BITS);
  }

  // ---- the whole path ----

  /** The binary exponent that gives the quotient p + 2 or p + 3 bits. */
  function ScaleExp(F: Format, v: nat, q: int): int { BitLen(Num0(v, q)) - BitLen(DecimalD(q)) - F.p - 2 }

  function ScaledNum(F: Format, v: nat, q: int): nat { Pow2(Pos(-ScaleExp(F, v, q))) * Num0(v, q) }

  function ScaledDen(F: Format, v: nat, q: int): nat { Pow2(Pos(ScaleExp(F, v, q))) * DecimalD(q) }

  lemma ShiftBits(v: nat, k: nat)
    requires v > 0
    ensures Pow2(k) * v > 0 && BitLen(Pow2(k) * v) == BitLen(v) + k
  {
    BitLenBounds(v);
    hide Pow; hide BitLen;
    var b := BitLen(v);
    PowAdd(2, k, b - 1); PowAdd(2, k, b);
    MulMono(Pow2(k), Pow2(k), Pow2(b - 1), v);
    MulStrict(Pow2(k), v, Pow2(b));
    MulStrict(Pow2(k), 0, v);
    BitLenIs(Pow2(k) * v, b + k);
  }

  lemma ScalingWorks(F: Format, v: nat, q: int)
    requires F.Valid() && F.p <= 64 && Num0(v, q) > 0 && Num0(v, q) < Pow2(MAX_BITS - 10)
        && DecimalD(q) < Pow2(MAX_BITS - 10)
    ensures Scaled(F, ScaledNum(F, v, q), ScaledDen(F, v, q))
    ensures ScaledDen(F, v, q) < Pow2(MAX_BITS) && ScaledNum(F, v, q) < Pow(B32, BL)
        && ScaledDen(F, v, q) < Pow(B32, BL)
  {
    hide Pow; hide BitLen; hide Num0; hide DecimalD;
    var n, d, e := Num0(v, q), DecimalD(q), ScaleExp(F, v, q);
    ShiftBits(n, Pos(-e)); ShiftBits(d, Pos(e));
    BitsBelow(n, MAX_BITS - 10); BitsBelow(d, MAX_BITS - 10);
    BelowBits(ScaledDen(F, v, q), MAX_BITS); BelowBits(ScaledNum(F, v, q), MAX_BITS + 66);
    Roomy(ScaledDen(F, v, q), MAX_BITS); Roomy(ScaledNum(F, v, q), MAX_BITS + 66);
  }

  lemma BitsBelow(n: nat, b: nat)
    requires n < Pow2(b)
    ensures BitLen(n) <= b
  {
    hide Pow;
    if n > 0 {
      BitLenBounds(n);
      if BitLen(n) > b { PowMono(2, b, BitLen(n) - 1); assert false; }
    }
  }

  lemma BelowBits(n: nat, b: nat)
    requires BitLen(n) <= b
    ensures n < Pow2(b)
  {
    if n > 0 { BitLenBounds(n); PowMono(2, BitLen(n), b); }
  }

  /** The exact path's numerator and denominator: the scaled ones, or, when digits were cut off
      beyond the last one kept, a point just above. */
  function PathNum(F: Format, v: nat, q: int, sticky: bool): nat {
    if sticky then 2 * ScaledNum(F, v, q) + 1 else ScaledNum(F, v, q)
  }

  function PathDen(F: Format, v: nat, q: int, sticky: bool): nat {
    if sticky then 2 * ScaledDen(F, v, q) else ScaledDen(F, v, q)
  }

  lemma StickyQuotient(n: nat, d: nat)
    requires d > 0
    ensures (2 * n + 1) / (2 * d) == n / d && (2 * n + 1) % (2 * d) != 0
  {
    DivMod(n, d);
    assert 2 * d * (n / d) == 2 * (d * (n / d));
    DivUnique(2 * n + 1, 2 * d, n / d, 2 * (n % d) + 1);
  }

  /** `decimal` from the big integers on. */
  method ExactPath(digits: seq<Digit>, q: int, sticky: bool, F: Format, neg: bool) returns (r: Float, erange: bool)
    requires IsFormat(F) && digits != [] && digits[0] != 0 && |digits| <= MAX_DIGITS && F.dmin <= q + |digits| <= F.dmax
    ensures F.Valid()
    ensures var v := Dec(digits);
            ScaledDen(F, v, q) > 0 && Scaled(F, ScaledNum(F, v, q), ScaledDen(F, v, q)) && var e := ScaleExp(F, v, q);
            IsUnits(F, r, Round(F, UnitsNum(F, PathNum(F, v, q, sticky), e), UnitsDen(F, PathDen(F, v, q, sticky), e)),
                neg)
  {
    hide Pow; hide BitLen; hide Val; hide Num; hide Normal; hide Dec; hide IsUnits; hide Round; hide UnitsNum;
    hide UnitsDen;
    hide Scaled; hide ScaleExp; hide ScaledNum; hide ScaledDen;
    ghost var v := Dec(digits);
    FormatValid(F);
    var num, den, e := ScaleBoth(digits, q, F);
    ghost var n, d := num.V(), den.V();
    ScaledPositive(F, n, d);
    var t := new Big();
    var Q := Divide(num, den, t, F);
    RemainderFlag(num.d[..num.n]);
    StickyQuotient(n, d);
    QuotientBits(F, n, d);
    Wide(F.p + 3);
    r, erange := RoundTo(Q, e, sticky || num.n != 0, F, neg, PathNum(F, v, q, sticky), PathDen(F, v, q, sticky));
  }

  /** The numerator and denominator as big integers, shifted so that the quotient is wide enough. */
  method ScaleBoth(digits: seq<Digit>, q: int, F: Format) returns (num: Big, den: Big, e: int)
    requires IsFormat(F) && digits != [] && digits[0] != 0 && |digits| <= MAX_DIGITS && F.dmin <= q + |digits| <= F.dmax
    ensures fresh(num) && fresh(den) && fresh(num.d) && fresh(den.d) && num != den && num.d != den.d
    ensures num.d.Length == den.d.Length == BL && num.Valid() && den.Valid()
    ensures e == ScaleExp(F, Dec(digits), q)
    ensures num.V() == ScaledNum(F, Dec(digits), q) && den.V() == ScaledDen(F, Dec(digits), q) < Pow2(MAX_BITS)
    ensures Scaled(F, num.V(), den.V())
  {
    hide Pow; hide BitLen; hide Val; hide Num; hide Normal; hide Dec;
    hide Scaled; hide ScaleExp; hide Num0; hide DecimalD; hide ScaledNum; hide ScaledDen;
    ghost var v := Dec(digits);
    FormatValid(F);
    Sizes(F, digits, q);
    NonZero(digits, q);
    ScalingWorks(F, v, q);
    num := new Big();
    den := new Big();
    ReadDigits(num, digits);
    den.Small(1);
    PowersFit(F, v, q);
    if q >= 0 { num.MulPow10(q); } else { den.MulPow10(-q); }
    var bn := num.Bits();
    var bd := den.Bits();
    e := bn - bd - F.p - 2;
    ScaleStep(F, v, q, e, num.V(), den.V());
    if e < 0 { num.Shl(-e); } else { den.Shl(e); }
  }

  lemma FormatValid(F: Format)
    requires IsFormat(F)
    ensures F.Valid() && F.p <= 64
  {
  }

  lemma NonZero(digits: seq<Digit>, q: int)
    requires digits != [] && digits[0] != 0
    ensures Num0(Dec(digits), q) > 0
  {
    DecBounds(digits);
    hide Pow; hide Dec;
    if q >= 0 { MulStrict(Dec(digits), 0, Pow(10, q)); }
  }

  lemma PowersFit(F: Format, v: nat, q: int)
    requires Num0(v, q) < Pow2(MAX_BITS - 10) && DecimalD(q) < Pow2(MAX_BITS - 10)
    ensures q >= 0 ==> Pow(10, q) * v == Num0(v, q) < Pow(B32, BL) && DecimalD(q) == 1
    ensures q < 0 ==> Pow(10, -q) * 1 == DecimalD(q) < Pow(B32, BL) && Num0(v, q) == v
  {
    hide Pow;
    Roomy(Num0(v, q), MAX_BITS - 10); Roomy(DecimalD(q), MAX_BITS - 10);
    if q >= 0 { MulComm(v, Pow(10, q)); }
  }

  lemma ScaleStep(F: Format, v: nat, q: int, e: int, n: nat, d: nat)
    requires n == Num0(v, q) && d == DecimalD(q) && e == BitLen(n) - BitLen(d) - F.p - 2
    ensures e == ScaleExp(F, v, q)
    ensures e < 0 ==> Pow2(-e) * n == ScaledNum(F, v, q) && d == ScaledDen(F, v, q)
    ensures e >= 0 ==> Pow2(e) * d == ScaledDen(F, v, q) && n == ScaledNum(F, v, q)
  {
    hide Pow; hide BitLen; hide Num0; hide DecimalD;
    TwoZero();
  }

  lemma RemainderFlag(s: seq<Limb>)
    requires Normal(s)
    ensures |s| != 0 <==> Num(s) != 0
  {
    if s != [] { ValNormal(B32, s); }
  }

  lemma Wide(b: nat)
    requires b <= 128
    ensures Pow2(b) <= Pow2(128)
  {
    PowMono(2, b, 128);
  }

  /** Scaling does not change the value: without cut-off digits the path rounds v * 10^q. */
  lemma PathIsExact(F: Format, v: nat, q: int)
    requires F.Valid()
    ensures ScaledDen(F, v, q) > 0
    ensures var e := ScaleExp(F, v, q);
            Round(F, UnitsNum(F, ScaledNum(F, v, q), e), UnitsDen(F, ScaledDen(F, v, q), e)) == Rounded(F, v, q)
  {
    hide Pow; hide BitLen; hide Round; hide Num0; hide DecimalD;
    var n, d, e := Num0(v, q), DecimalD(q), ScaleExp(F, v, q);
    MulStrict(Pow2(Pos(e)), 0, d);
    ScaledRatio(F, n, d, e);
    XIsNum0(F, v, q);
    RoundRatio(F, UnitsNum(F, Pow2(Pos(-e)) * n, e), UnitsDen(F, Pow2(Pos(e)) * d, e), n * F.One(), d);
  }

  lemma XIsNum0(F: Format, v: nat, q: int)
    requires F.Valid()
    ensures DecimalX(F, v, q) == Num0(v, q) * F.One()
  {
  }

  lemma ScaledRatio(F: Format, n: nat, d: nat, e: int)
    requires F.Valid() && d > 0
    ensures UnitsNum(F, Pow2(Pos(-e)) * n, e) * d == n * F.One() * UnitsDen(F, Pow2(Pos(e)) * d, e)
  {
    TwoZero();
    hide Pow;
    var a, b, one := Pow2(Pos(-e)), Pow2(Pos(e)), F.One();
    if e >= F.emin {
      var c := Pow2(e - F.emin);
      // a c = 2^(max(-e,0) + e - emin), one b = 2^(-emin + max(e,0)): equal
      PowAdd(2, Pos(-e), e - F.emin); PowAdd(2, -F.emin, Pos(e));
      RatioArith(a, n, c, d, one, b);
    } else {
      var c := Pow2(F.emin - e);
      PowAdd(2, -F.emin, F.emin - e);
      RatioArith2(a, n, d, one, b, c);
    }
  }

  lemma RatioArith(a: nat, n: nat, c: nat, d: nat, one: nat, b: nat)
    requires a * c == one * b
    ensures a * n * c * d == n * one * (b * d)
  {
    calc {
      a * n * c * d;
      { MulComm(a, n); MulAssoc(n, a, c); }
      n * (a * c) * d;
      n * (one * b) * d;
      { MulAssoc(n, one, b); MulAssoc(n * one, b, d); }
      n * one * (b * d);
    }
  }

  lemma RatioArith2(a: nat, n: nat, d: nat, one: nat, b: nat, c: nat)
    requires a == one * c && b == 1
    ensures a * n * d == n * one * (b * d * c)
  {
    calc {
      one * c * n * d;
      { MulComm(one * c, n); MulAssoc(n, one, c); MulAssoc(n * one, c, d); MulComm(c, d); }
      n * one * (d * c);
    }
  }
}
