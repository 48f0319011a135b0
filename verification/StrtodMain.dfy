/** `decimal` of src/strtod.c: cut-offs, the two hardware-float paths and the exact path. */
module StrtodMain {
  import opened Powers
  import opened Rounding
  import opened StrtodRound
  import opened StrtodDecimal
  import opened StrtodExact
  import opened StrtodPaths
  import opened StrtodLong
  import opened StrtodSticky

  /** The digits as a machine integer. */
  method Accumulate(digits: seq<Digit>) returns (v: nat)
    requires |digits| <= 19
    ensures v == Dec(digits) < Pow2(64)
  {
    hide Pow; hide Dec;
    v := 0;
    NoDigits(digits);
    for i := 0 to |digits|
      invariant v == Dec(digits[..i])
    {
      assert digits[..i + 1] == digits[..i] + [digits[i]];
      DecSnoc(digits[..i], digits[i]);
      v := v * 10 + digits[i];
    }
    assert digits[..|digits|] == digits;
    SmallDigits(digits);
  }

  lemma SmallDigits(digits: seq<Digit>)
    ensures |digits| <= 15 ==> Dec(digits) < Pow2(53)
    ensures |digits| <= 19 ==> Dec(digits) < Pow2(64)
  {
    hide Pow; hide Dec;
    DecBounds(digits);
    TenPowers();
    if |digits| <= 15 { PowMono(10, |digits|, 15); }
    if |digits| <= 19 { PowMono(10, |digits|, 19); }
  }

  lemma TenPowers()
    ensures Pow(10, 15) < Pow2(53) && Pow(10, 19) < Pow2(64)
  {
    hide Pow;
    TwoPowers();
    TenSmall();
    PowAdd(10, 5, 5); PowAdd(10, 10, 5); PowAdd(10, 15, 4);
  }

  lemma TenSmall()
    ensures Pow(10, 4) == 10000 && Pow(10, 5) == 100000
  {
  }

  /** v, converted exactly, times or divided by an exact power of ten: one rounding. */
  method OneOperation(F: Format, v: nat, q: int) returns (r: Float)
    requires F.Valid() && 0 < v < Pow2(F.p)
    ensures r == FromUnits(F, Rounded(F, v, q), false)
  {
    hide Pow; hide Round; hide Dec; hide FromUnits; hide HwFromInt;
    IntExact(F, v);
    var a := HwFromInt(F, v);
    if q < 0 {
      DivExact(F, a, v, -q);
      SameValueRounds(F, a.m, Pow(5, -q), a.e + q, v, Pow(10, -q), -F.emin - q);
      r := HwDiv(F, a, Ten(-q));
    } else {
      MulExact(F, a, v, q);
      SameValueRounds(F, a.m * Pow(5, q), 1, a.e + q, v * Pow(10, q), 1, -F.emin);
      r := HwMul(F, a, Ten(q));
    }
  }

  /** The fast path (Clinger): both operands exact in double, so one operation rounds correctly. */
  method FastPath(digits: seq<Digit>, q: int, neg: bool) returns (r: Float)
    requires digits != [] && digits[0] != 0 && |digits| <= 15 && -22 <= q <= 22
    ensures IsUnits(DBL, r, Rounded(DBL, Dec(digits), q), neg)
  {
    hide Pow; hide Round; hide Dec; hide IsUnits;
    var v := Accumulate(digits);
    SmallDigits(digits);
    NonZeroDigits(digits);
    TablesExact(if q < 0 then -q else q);
    r := OneOperation(DBL, v, q);
    RoundHolds(DBL, DecimalX(DBL, v, q), DecimalD(q));
    FromUnitsOk(DBL, Rounded(DBL, v, q), false);
    r := Negate(r, neg);
    NegateUnits(DBL, FromUnits(DBL, Rounded(DBL, v, q), false), Rounded(DBL, v, q), neg);
  }

  function Negate(r: Float, neg: bool): Float { if r.Inf? then Inf(neg) else Fin(neg, r.m, r.e) }

  lemma NegateUnits(F: Format, r: Float, v: nat, neg: bool)
    requires F.Valid() && IsUnits(F, r, v, false)
    ensures IsUnits(F, Negate(r, neg), v, neg)
  {
    hide Pow;
  }

  lemma NonZeroDigits(digits: seq<Digit>)
    requires digits != [] && digits[0] != 0
    ensures Dec(digits) > 0
  {
    DecBounds(digits);
  }

  /** The middle path: one rounding to 64 bits, then one to the target, unless the 64-bit
      mantissa lies exactly half way. */
  method MiddlePath(digits: seq<Digit>, q: int, F: Format, neg: bool) returns (taken: bool, res: Float)
    requires (F == FLT || F == DBL) && digits != [] && digits[0] != 0 && |digits| <= 19 && -27 <= q <= 27
    ensures taken ==> IsUnits(F, res, Rounded(F, Dec(digits), q), neg)
  {
    hide Pow; hide Round; hide Dec; hide IsUnits; hide FromUnits; hide Rounded; hide HwConvert;
    var v := Accumulate(digits);
    SmallDigits(digits);
    NonZeroDigits(digits);
    TablesExact(if q < 0 then -q else q);
    var r := OneOperation(LDBL, v, q);
    MiddleFinite(F, v, q);
    var drop := 64 - F.p;
    var low := r.m % Pow2(drop);
    var X := r.e + 63;
    var maxX, minX := F.emax + F.p - 1, F.emin + F.p - 1;
    taken, res := false, Inf(neg);
    if low != Pow2(drop - 1) && minX <= X <= maxX {
      MiddleRounds(F, v, q, neg);
      res := HwConvert(F, r, neg);
      taken := true;
    }
  }

  /** Values of the middle path are well inside the formats' ranges. */
  lemma MiddleRange(F: Format, v: nat, q: int)
    requires (F == FLT || F == DBL || F == LDBL) && 0 < v < Pow2(64) && -27 <= q <= 27
    ensures DecimalX(F, v, q) >= DecimalD(q) * Pow2(F.p + 1)
    ensures DecimalX(F, v, q) < DecimalD(q) * Pow2(154 - F.emin)
  {
    hide Pow;
    var one := F.One();
    TenBelow(27);
    PowAdd(2, 90, 59); PowMono(2, F.p + 1, 65);
    if q >= 0 {
      TenMono(q);
      PowAdd(2, 64, 90); PowAdd(2, 154, -F.emin);
      PowMono(2, F.p + 1, -F.emin);
      MiddleUp(v, Pow(10, q), one, Pow2(64), Pow2(90), Pow2(154), Pow2(F.p + 1));
    } else {
      TenMono(-q);
      PowAdd(2, 90, F.p + 1); PowMono(2, 90 + F.p + 1, -F.emin);
      MulMono(Pow(10, -q), Pow2(90), Pow2(F.p + 1), Pow2(F.p + 1));
      MulMono(1, v, one, one);
      PowAdd(2, 64, -F.emin); PowMono(2, 64 - F.emin, 154 - F.emin);
      MulStrict(one, v, Pow2(64)); MulComm(one, v); MulComm(one, Pow2(64));
      MulMono(1, Pow(10, -q), Pow2(154 - F.emin), Pow2(154 - F.emin));
    }
  }

  lemma TenMono(k: nat)
    requires k <= 27
    ensures 1 <= Pow(10, k) <= Pow(10, 27)
  {
    PowMono(10, k, 27);
  }

  lemma MiddleUp(v: nat, t: nat, one: nat, a: nat, b: nat, c: nat, f: nat)
    requires 0 < v < a && 0 < t <= b && c == a * b && f <= one
    ensures v * t * one >= 1 * f && (one > 0 ==> v * t * one < 1 * (c * one))
  {
    MulMono(1, v, 1, t); MulMono(1, v * t, one, one);
    MulStrict(t, v, a); MulComm(t, v); MulComm(t, a);
    MulMono(a, a, t, b);
    if one > 0 { MulStrict(one, v * t, c); MulComm(one, v * t); MulComm(one, c); }
  }

  lemma MiddleFinite(F: Format, v: nat, q: int)
    requires (F == FLT || F == DBL) && 0 < v < Pow2(64) && -27 <= q <= 27
    ensures FromUnits(LDBL, Rounded(LDBL, v, q), false).Fin?
  {
    hide Pow;
    MiddleRange(LDBL, v, q);
    var x, d := DecimalX(LDBL, v, q), DecimalD(q);
    RoundBelow(LDBL, x, d, 154 + 16445);
    PowStrict(2, 154 + 16445, 64 + 16320 + 16445);
  }

  /** Below 2^j units, rounding does not pass 2^j. */
  lemma RoundBelow(F: Format, x: nat, d: nat, j: nat)
    requires F.Valid() && d > 0 && x < d * Pow2(j)
    ensures Round(F, x, d) <= Pow2(j)
  {
    hide Pow; hide BitLen; hide RoundInt;
    var f := x / d;
    DivBounds(x, d, Pow2(j));
    BitsBelow(f, j);
    var k := Quantum(F, f);
    RoundHolds(F, x, d);
    DivDiv(x, d, Pow2(k));
    GridBelow(F, f);
    RoundIntNearest(x, d * Pow2(k));
    var r := RoundInt(x, d * Pow2(k));
    if k > 0 {
      PowAdd(2, F.p, k); PowMono(2, F.p + k, j);
      MulMono(r, Pow2(F.p), Pow2(k), Pow2(k));
    } else {
      TwoZero();
    }
  }

  /** The two roundings of the middle path make one. */
  lemma MiddleRounds(F: Format, v: nat, q: int, neg: bool)
    requires (F == FLT || F == DBL) && 0 < v < Pow2(64) && -27 <= q <= 27
    requires var r := FromUnits(LDBL, Rounded(LDBL, v, q), false); r.Fin? && r.m % Pow2(64 - F.p) != Pow2(63 - F.p)
    ensures IsUnits(F, HwConvert(F, FromUnits(LDBL, Rounded(LDBL, v, q), false), neg), Rounded(F, v, q), neg)
  {
    hide Pow; hide Round; hide BitLen; hide IsUnits; hide Mantissa64; hide FromUnits; hide Quantum;
    var x, d, s := DecimalX(F, v, q), DecimalD(q), F.emin + 16445;
    var R := Rounded(LDBL, v, q);
    var r := FromUnits(LDBL, R, false);
    MiddleUnits(F, v, q, s);
    MiddleRange(F, v, q); MiddleRange(LDBL, v, q);
    BitsAbove(x, d, F.p + 1); BitsAbove(x * Pow2(s), d, 65);
    BitLenPos(x / d);
    QuantumShift(x, d, s, x * Pow2(s));
    MantissaOf(x * Pow2(s), d, r);
    LowBitsOf(x * Pow2(s), d, r, 64 - F.p);
    DoubleRounding(F, x, d, s);
    RoundHolds(LDBL, x * Pow2(s), d);
    FromUnitsOk(LDBL, R, false);
    ConvertRounds(F, r, R, s);
    RoundHolds(F, x, d);
    FromUnitsOk(F, Round(F, R, Pow2(s)), neg);
  }

  lemma MiddleUnits(F: Format, v: nat, q: int, s: nat)
    requires (F == FLT || F == DBL) && s == F.emin + 16445
    ensures DecimalX(LDBL, v, q) == DecimalX(F, v, q) * Pow2(s)
  {
    hide Pow;
    PowAdd(2, -F.emin, s);
    MulAssoc(if q >= 0 then v * Pow(10, q) else v, F.One(), Pow2(s));
  }

  lemma BitsAbove(x: nat, d: nat, b: nat)
    requires d > 0 && x >= d * Pow2(b)
    ensures BitLen(x / d) > b
  {
    hide Pow;
    DivBounds(x, d, Pow2(b));
    if x / d > 0 { BitLenBounds(x / d); }
    if BitLen(x / d) <= b { PowMono(2, BitLen(x / d), b); assert false; }
  }

  /** The mantissa of the 64-bit result: what rounding gave, or 2^63 after a carry. */
  lemma MantissaOf(y: nat, d: nat, r: Float)
    requires d > 0 && BitLen(y / d) > 64 && r == FromUnits(LDBL, Round(LDBL, y, d), false) && r.Fin?
    ensures var m := Mantissa64(y, d); m <= Pow2(64) && r.m == if m == Pow2(64) then Pow2(63) else m
  {
    hide Pow; hide BitLen; hide RoundInt; hide Round; hide Mantissa64;
    var k := Quantum(LDBL, y / d);
    QuantumIs(LDBL, y / d);
    MantissaDef(y, d, k);
    var m := Mantissa64(y, d);
    PointQuantum(LDBL, k, m);
    if m == Pow2(64) {
      PowAdd(2, 64, k); PowAdd(2, 63, k + 1);
      MulComm(Pow2(63), Pow2(k + 1));
      DivUnique(m * Pow2(k), Pow2(k + 1), Pow2(63), 0);
    } else {
      MulComm(m, Pow2(k));
      DivUnique(m * Pow2(k), Pow2(k), m, 0);
    }
  }

  lemma LowBitsOf(y: nat, d: nat, r: Float, drop: nat)
    requires d > 0 && 0 < drop < 64 && r.Fin?
    requires var m := Mantissa64(y, d); m <= Pow2(64) && r.m == if m == Pow2(64) then Pow2(63) else m
    requires r.m % Pow2(drop) != Pow2(drop - 1)
    ensures Mantissa64(y, d) % Pow2(drop) != Pow2(drop - 1)
  {
    hide Pow; hide Mantissa64;
    PowAdd(2, drop, 64 - drop);
    DivUnique(Pow2(64), Pow2(drop), Pow2(64 - drop), 0);
  }

  lemma ConvertRounds(F: Format, r: Float, R: nat, s: nat)
    requires F.Valid() && s == F.emin + 16445 && r.Fin? && IsUnits(LDBL, r, R, false)
    ensures Round(F, UnitsNum(F, r.m, r.e), UnitsDen(F, 1, r.e)) == Round(F, R, Pow2(s))
  {
    hide Pow; hide Round;
    if r.e >= F.emin {
      PowAdd(2, r.e - F.emin, s);
      MulAssoc(r.m, Pow2(r.e - F.emin), Pow2(s));
    } else {
      PowAdd(2, r.e + 16445, F.emin - r.e);
      MulAssoc(r.m, Pow2(r.e + 16445), Pow2(F.emin - r.e));
    }
    RoundRatio(F, UnitsNum(F, r.m, r.e), UnitsDen(F, 1, r.e), R, Pow2(s));
  }

  /** What the digits keep of a decimal whose digits spell N: all of it but z + j trailing zeros,
      or, with the flag set, the first 800 digits of it but z trailing zeros among those. */
  ghost predicate Kept(digits: seq<Digit>, sticky: bool, N: nat, z: nat, j: nat) {
    && (digits != [] ==> digits[0] != 0)
    && (if sticky then digits != [] && |digits| + z == MAX_DIGITS && Between(Dec(digits) * Pow(10, z), N, Pow(10, j))
        else |digits| <= MAX_DIGITS && N == Dec(digits) * Pow(10, z) * Pow(10, j))
  }

  predicate Between(V: nat, N: nat, g: nat) { V * g < N < (V + 1) * g }

  lemma KeptBounds(digits: seq<Digit>, sticky: bool, N: nat, z: nat, j: nat)
    requires Kept(digits, sticky, N, z, j) && digits != []
    ensures Pow(10, |digits| + z + j - 1) <= N < Pow(10, |digits| + z + j)
    ensures sticky ==> Dec(digits) * Pow(10, z) >= Pow(10, 799)
  {
    DecBounds(digits);
    hide Pow; hide Dec;
    var nd := |digits|;
    PowAdd(10, nd, z); PowAdd(10, nd - 1, z);
    PowAdd(10, nd + z, j); PowAdd(10, nd - 1 + z, j);
    KeptArith(Dec(digits), Pow(10, nd - 1), Pow(10, nd), Pow(10, z), Pow(10, j), N);
  }

  lemma KeptArith(v: nat, lo: nat, hi: nat, a: nat, b: nat, N: nat)
    requires lo <= v < hi && a > 0 && b > 0 && v * a * b <= N < (v * a + 1) * b
    ensures lo * a * b <= N < hi * a * b && lo * a <= v * a
  {
    MulMono(lo, v, a, a); MulMono(lo * a, v * a, b, b);
    MulStrict(a, v, hi); MulComm(a, v); MulComm(a, hi);
    MulMono(v * a + 1, hi * a, b, b);
  }

  /** Without the flag only trailing zeros are gone. */
  lemma KeptExact(F: Format, digits: seq<Digit>, q: int, N: nat, z: nat, j: nat)
    requires F.Valid() && Kept(digits, false, N, z, j)
    ensures Rounded(F, N, q - z - j) == Rounded(F, Dec(digits), q)
  {
    hide Pow; hide Dec; hide Rounded;
    PowAdd(10, z, j); MulAssoc(Dec(digits), Pow(10, z), Pow(10, j));
    SameRounded(F, Dec(digits), q, z + j);
  }

  /** The same number of the format: beyond its range all are infinity. */
  predicate Same(F: Format, u: nat, v: nat)
    requires F.Valid()
  {
    u == v || (u >= F.Limit() && v >= F.Limit())
  }

  lemma OneFloat(F: Format, r: Float, u: nat, v: nat, neg: bool)
    requires F.Valid() && IsUnits(F, r, u, neg)
    ensures IsUnits(F, r, v, neg) <==> Same(F, u, v)
  {
  }

  /** What a decimal is read as of which V * 10^Q was kept, and not all. */
  function Above(F: Format, V: nat, Q: int): nat
    requires F.Valid()
  {
    JustAbove(F, DecimalX(F, V, Q), DecimalD(Q))
  }

  /** `decimal`: the whole decimal N * 10^(q - z - j), correctly rounded, whichever path is taken. Only a
      long double whose digits were not all kept can come out otherwise: it is rounded as if just above
      those kept, which is wrong exactly when the whole decimal crosses a half-way point above them and
      they are in range. */
  method Decimal(digits: seq<Digit>, q: int, sticky: bool, F: Format, neg: bool, ghost N: nat, ghost z: nat,
      ghost j: nat)
    returns (r: Float)
    requires IsFormat(F) && Kept(digits, sticky, N, z, j)
    ensures F.Valid()
    ensures var V := Dec(digits) * Pow(10, z);
            IsUnits(F, r, if F == LDBL && sticky then Above(F, V, q - z) else Rounded(F, N, q - z - j), neg)
    ensures var V := Dec(digits) * Pow(10, z);
            IsUnits(F, r, Rounded(F, N, q - z - j), neg) <==>
                !(F == LDBL && sticky && Crosses(F, V, q - z, N, j) && Above(F, V, q - z) < F.Limit())
  {
    hide Pow; hide Round; hide Dec; hide IsUnits; hide Rounded; hide Crosses; hide Above;
    FormatValid(F);
    ghost var V := Dec(digits) * Pow(10, z);
    r := Reach(digits, q, sticky, F, neg, N, z, j);
    if F == LDBL && sticky {
      KeptBounds(digits, sticky, N, z, j);
      LongTailAbove(V, q - z, N, j);
      OneFloat(F, r, Above(F, V, q - z), Rounded(F, N, q - z - j), neg);
    }
  }

  lemma LongTailAbove(V: nat, Q: int, N: nat, j: nat)
    requires V >= Pow(10, 799) && V * Pow(10, j) < N < (V + 1) * Pow(10, j)
    ensures Rounded(LDBL, V, Q) <= Above(LDBL, V, Q) <= Rounded(LDBL, N, Q - j)
    ensures Above(LDBL, V, Q) == Rounded(LDBL, N, Q - j) <==> !Crosses(LDBL, V, Q, N, j)
  {
    hide Pow; hide Round; hide JustAbove; hide DecimalX; hide DecimalD; hide Crosses; hide Rounded;
    LongTail(LDBL, V, Q, N, j);
    TailOrder(LDBL, V, Q, N, j);
  }

  /** The paths of `decimal`. */
  method Reach(digits: seq<Digit>, q: int, sticky: bool, F: Format, neg: bool, ghost N: nat, ghost z: nat,
      ghost j: nat)
    returns (r: Float)
    requires IsFormat(F) && Kept(digits, sticky, N, z, j)
    ensures F.Valid()
    ensures var V := Dec(digits) * Pow(10, z);
            IsUnits(F, r, if F == LDBL && sticky then Above(F, V, q - z) else Rounded(F, N, q - z - j), neg)
  {
    hide Pow; hide Round; hide Dec; hide IsUnits; hide Rounded; hide BitLen; hide UnitsNum; hide UnitsDen;
    hide ScaleExp; hide ScaledDen; hide ScaledNum; hide Scaled; hide JustAbove; hide DecimalX; hide DecimalD;
    FormatValid(F);
    if !sticky { KeptExact(F, digits, q, N, z, j); }
    if digits == [] {
      ZeroResult(F, digits, q, neg);
      return Fin(neg, 0, 0);
    }
    KeptBounds(digits, sticky, N, z, j);
    ghost var V := Dec(digits) * Pow(10, z);
    ghost var tail := F == LDBL && sticky;
    if tail { LongTailAbove(V, q - z, N, j); }
    if q + |digits| > F.dmax {
      Overflows(F, N, |digits| + z + j, q - z - j);
      if tail {
        Overflows(F, V, MAX_DIGITS, q - z);
        InfResult(F, Above(F, V, q - z), neg);
      }
      InfResult(F, Rounded(F, N, q - z - j), neg);
      return Inf(neg);
    }
    if q + |digits| < F.dmin {
      Underflows(F, N, |digits| + z + j, q - z - j);
      ZeroFloat(F, neg);
      return Fin(neg, 0, 0);
    }
    if F == DBL && |digits| <= 15 && !sticky && -22 <= q <= 22 {
      r := FastPath(digits, q, neg);
      return;
    }
    if F != LDBL && |digits| <= 19 && !sticky && -27 <= q <= 27 {
      var taken, res := MiddlePath(digits, q, F, neg);
      if taken { return res; }
    }
    var erange;
    r, erange := ExactPath(digits, q, sticky, F, neg);
    if !sticky {
      PathIsExact(F, Dec(digits), q);
    } else {
      PathIsFlagged(F, Dec(digits), q, z);
      if F != LDBL { TailRounds(F, V, q - z, N, j); }
    }
  }

  lemma ZeroFloat(F: Format, neg: bool)
    requires F.Valid()
    ensures IsUnits(F, Fin(neg, 0, 0), 0, neg)
  {
  }

  lemma InfResult(F: Format, v: nat, neg: bool)
    requires F.Valid() && v >= F.Limit()
    ensures IsUnits(F, Inf(neg), v, neg)
  {
  }

  lemma ZeroResult(F: Format, digits: seq<Digit>, q: int, neg: bool)
    requires F.Valid() && digits == []
    ensures IsUnits(F, Fin(neg, 0, 0), Rounded(F, Dec(digits), q), neg)
  {
    hide Pow;
    assert Dec(digits) == 0;
    RoundTiny(F, 0, DecimalD(q));
    ZeroFloat(F, neg);
    assert DecimalX(F, 0, q) == 0;
  }
}
