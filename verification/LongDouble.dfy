/** The bits of an x87 long double: `make_ld` of src/strtod.c and `ld_split` of src/vfprintf.c. */
module LongDouble {
  import opened Powers
  import opened Rounding

  /** A 64-bit mantissa with explicit leading bit, and sign and exponent field. */
  datatype Bits = Bits(m: nat, se: nat)

  /** `make_ld`: M * 2^E. */
  function MakeLd(M: nat, E: int, neg: bool): Bits
    requires M < Pow2(64)
  {
    BitLenLimit(M);
    var sign := if neg then 0x8000 else 0;
    if M == 0 then Bits(0, sign)
    else
      var s := 64 - BitLen(M);
      var field := E - s + 63 + 16383;
      if field >= 1 then Bits(M * Pow2(s) % Pow2(64), field % 0x8000 + sign)
      else Bits(M, sign)
  }

  lemma BitLenLimit(M: nat)
    requires M < Pow2(64)
    ensures BitLen(M) <= 64
  {
    hide Pow;
    if M > 0 {
      BitLenBounds(M);
      if BitLen(M) > 64 { PowMono(2, 64, BitLen(M) - 1); assert false; }
    }
  }

  datatype Parts = Parts(m: nat, e: int, neg: bool, inf: bool, nan: bool)

  /** `ld_split`. */
  function LdSplit(b: Bits): Parts {
    var ex := b.se % 0x8000;
    var neg := b.se / 0x8000 % 2 == 1;
    if ex == 0x7fff then
      if b.m * 2 % Pow2(64) != 0 then Parts(b.m, 0, neg, false, true) else Parts(b.m, 0, neg, true, false)
    else if ex == 0 then Parts(b.m, 1 - 16383 - 63, neg, false, false)
    else Parts(b.m, ex - 16383 - 63, neg, false, b.m / Pow2(63) == 0)
  }

  /** A number of one of the three formats, as `round_to` leaves it. */
  predicate Representable(M: nat, E: int) {
    M < Pow2(64) && -16445 <= E <= 16320 && (M == 0 || E - 64 + BitLen(M) >= -16445 || E == -16445)
  }

  /** `make_ld` is exact: splitting what it makes gives the number and the sign back. */
  lemma SplitMake(M: nat, E: int, neg: bool)
    requires Representable(M, E)
    ensures var p := LdSplit(MakeLd(M, E, neg));
            && !p.inf && !p.nan && p.neg == neg && p.m < Pow2(64) && -16445 <= p.e <= 16320
            && (M == 0 ==> p.m == 0)
            && (M > 0 ==> p.e <= E && p.m == M * Pow2(E - p.e) && (p.m >= Pow2(63) || p.e == -16445))
  {
    hide Pow; hide BitLen;
    BitLenLimit(M);
    if M > 0 {
      BitLenBounds(M);
      var s := 64 - BitLen(M);
      ShiftToTop(M, s);
      TwoZero();
      var field := E - s + 63 + 16383;
      if field >= 1 {
        HalfPower(64);
        DivBounds(M * Pow2(s), Pow2(63), 1);
      }
    }
  }

  /** The fields mean what they mean in the x87 extended format: a sign, an exponent with bias 16383 (and 1 for 0), and
      a mantissa of which the first bit counts as one. */
  lemma MakeMeans(M: nat, E: int, neg: bool)
    requires Representable(M, E)
    ensures var b := MakeLd(M, E, neg);
            var ex := if b.se % 0x8000 == 0 then 1 else b.se % 0x8000;
            && b.m < Pow2(64) && b.se < 0x10000 && (b.se >= 0x8000 <==> neg)
            && (M == 0 ==> b.m == 0 && b.se % 0x8000 == 0)
            && (M > 0 ==> ex - 16383 - 63 <= E && b.m == M * Pow2(E - (ex - 16383 - 63)))
            && (b.se % 0x8000 > 0 ==> b.m >= Pow2(63))
  {
    hide Pow; hide BitLen;
    SplitMake(M, E, neg);
    BitLenLimit(M);
    if M > 0 {
      BitLenBounds(M);
      ShiftToTop(M, 64 - BitLen(M));
      TwoZero();
    }
  }

  lemma ShiftToTop(M: nat, s: nat)
    requires M > 0 && BitLen(M) + s == 64
    ensures Pow2(63) <= M * Pow2(s) < Pow2(64) && M * Pow2(s) % Pow2(64) == M * Pow2(s)
  {
    hide Pow; hide BitLen;
    BitLenBounds(M);
    var b := BitLen(M);
    PowAdd(2, b - 1, s); PowAdd(2, b, s);
    MulMono(Pow2(b - 1), M, Pow2(s), Pow2(s));
    MulStrict(Pow2(s), M, Pow2(b)); MulComm(Pow2(s), M); MulComm(Pow2(s), Pow2(b));
    DivUnique(M * Pow2(s), Pow2(64), 0, M * Pow2(s));
  }

  /** A finite number of a format, in its one form with the fewest leading zero bits. */
  predicate Canonical(F: Format, m: nat, e: int) {
    m < Pow2(F.p) && F.emin <= e <= F.emax && (e == F.emin || (F.p > 0 && m >= Pow2(F.p - 1)))
  }

  /** A number of any of the three formats can be stored. */
  lemma FormatRepresentable(F: Format, m: nat, e: int)
    requires (F == FLT || F == DBL || F == LDBL) && Canonical(F, m, e)
    ensures Representable(m, e)
  {
    hide Pow; hide BitLen;
    PowMono(2, F.p, 64);
    if m > 0 {
      BitLenBounds(m);
      if e > F.emin && BitLen(m) < F.p { PowMono(2, BitLen(m), F.p - 1); assert false; }
    }
  }
}
