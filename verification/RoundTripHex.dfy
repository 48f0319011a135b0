/** Printing with %a and reading back (src/vfprintf.c, src/strtod.c): exact in every format. */
module RoundTripHex {
  import opened Powers
  import opened Rounding
  import opened StrtodRound
  import opened LongDouble
  import opened StrtodDecimal
  import opened StrtodExact
  import opened StrtodPaths
  import opened StrtodText
  import opened StrtodParse
  import opened PrintfFormat
  import opened PrintfHex
  import opened RoundTrip

  /** Equal values round to the number they are. */
  lemma ExactBinary(F: Format, v: nat, E: int, m: nat, e: int)
    requires F.Valid() && SameBinary(v, E, m, e) && m < Pow2(F.p) && e >= F.emin
    ensures BinaryRounded(F, v, E) == Units(F, m, e)
  {
    hide Pow; hide Round;
    var u := Units(F, m, e);
    assert HoldsAs(F, u, m, e - F.emin);
    if E >= F.emin {
      if E >= e {
        PowAdd(2, E - e, e - F.emin);
        MulAssoc(v, Pow2(E - e), Pow2(e - F.emin));
      } else {
        PowAdd(2, e - E, E - F.emin);
        MulAssoc(m, Pow2(e - E), Pow2(E - F.emin));
      }
    } else {
      PowAdd(2, e - F.emin, F.emin - E);
      MulAssoc(m, Pow2(e - F.emin), Pow2(F.emin - E));
    }
    assert UnitsNum(F, v, E) == u * UnitsDen(F, 1, E);
    RoundExact(F, u, UnitsDen(F, 1, E));
  }

  /** The parts of the long double stand for the same number. */
  lemma PartsSame(v: nat, E: int, M: nat, E': int, m: nat, e: int)
    requires SameBinary(v, E, M, E') && if m == 0 then M == 0 else E' <= e && M == m * Pow2(e - E')
    ensures SameBinary(v, E, m, e)
  {
    hide Pow;
    TwoZero();
    if m == 0 {
      ZeroSame(v, E, E', e);
    } else if E >= E' {
      if E >= e {
        PowAdd(2, E - e, e - E');
        MulAssoc(v, Pow2(E - e), Pow2(e - E'));
        MulStrict(Pow2(e - E'), v * Pow2(E - e), m); MulComm(Pow2(e - E'), v * Pow2(E - e)); MulComm(Pow2(e - E'), m);
      } else {
        PowAdd(2, e - E, E - E');
        MulAssoc(m, Pow2(e - E), Pow2(E - E'));
        MulStrict(Pow2(E - E'), v, m * Pow2(e - E)); MulComm(Pow2(E - E'), v); MulComm(Pow2(E - E'), m * Pow2(e - E));
      }
    } else {
      PowAdd(2, e - E', E' - E);
      MulAssoc(m, Pow2(e - E'), Pow2(E' - E));
    }
  }

  lemma ZeroSame(v: nat, E: int, E': int, e: int)
    requires SameBinary(v, E, 0, E')
    ensures v == 0 && SameBinary(0, E, 0, e)
  {
    hide Pow;
    if v > 0 && E >= E' { MulMono(1, v, 1, Pow2(E - E')); }
  }

  lemma HexMantissaText(lead: HexDigit, hs: seq<HexDigit>)
    ensures var m := HexMantissa(lead, hs);
            m != [] && IsHex(m[0]) && Significand(m, true) && HexDigits(m) == [lead] + hs && Frac(m) == |hs|
                && |m| <= |hs| + 2
  {
    hide HexDigits; hide Frac; hide Significand; hide HexSpell; hide Digits;
    LeadText(lead);
    if hs != [] {
      HexSpellDigits(hs);
      PointedText([HexChar(lead)], HexSpell(hs), true);
      PlusAssoc([HexChar(lead)], ".", HexSpell(hs));
    } else {
      assert [lead] + hs == [lead];
    }
  }

  lemma LeadText(lead: HexDigit)
    ensures var m := [HexChar(lead)];
            OfDigits(m, true) && Significand(m, true) && HexDigits(m) == [lead] && Frac(m) == 0
  {
    assert HexSpell([lead]) == [HexChar(lead)];
    HexSpellDigits([lead]);
  }

  lemma HexStartFound(s: string, neg: bool, m: string, rest: string, b: nat, i: nat, neg': bool)
    requires s == SignText(neg) + "0x" + m + rest && m != [] && IsHex(m[0])
    requires StartsAt(s, b, i, neg')
    ensures i + 2 <= |s| && neg' == neg && s[i + 2..] == m + rest && HexAt(s, i)
    ensures !WordAt(s, i, "inf") && !WordAt(s, i, "nan")
  {
    var j := |SignText(neg)|;
    assert s[j + 2..] == m + rest;
    assert s[j] == '0' && s[j + 1] == 'x' && s[j + 2] == m[0];
    assert !IsSpace(s[0]);
    assert b == 0;
    assert Lower(s[j + 0]) != "inf"[0] && Lower(s[j + 0]) != "nan"[0];
  }

  /** The parts of the text of %a are found where they are. */
  lemma HexParts(s: string, i: nat, lead: HexDigit, hs: seq<HexDigit>, X: int, xs: seq<Digit>, end: nat, k: nat,
      X': int)
    requires xs != [] && Dec(xs) == (if X < 0 then -X else X) && i <= |s|
    requires s[i..] == HexMantissa(lead, hs) + (['p', if X < 0 then '-' else '+'] + Spell(xs))
    requires SignificandAt(s, i, k, true) && ExpAt(s, k, 'p', end, X')
    ensures X' == X && i <= k <= |s| && HexDigits(s[i..k]) == [lead] + hs && Frac(s[i..k]) == |hs|
  {
    hide Dec; hide HexDigits; hide Digits; hide Frac; hide Significand; hide HexMantissa; hide Spell;
    hide ExpAt; hide EndsAt; hide Continues;
    var m, rest := HexMantissa(lead, hs), ['p', if X < 0 then '-' else '+'] + Spell(xs);
    HexMantissaText(lead, hs);
    NoContinue(m);
    SignificandFound(s, i, m, rest, true);
    SignificandUnique(s, i, k, i + |m|, true);
    RestOf(s, i, m, rest);
    ExpFound(s, k, 'p', X, xs);
    ExpUnique(s, k, 'p', |s|, X, end, X');
    assert s[i..k] == s[i..][..|m|] == m;
  }

  lemma HexBranch(s: string, i: nat, F: Format, neg: bool, r: Float, end: nat, k: nat, X: int)
    requires F.Valid() && i + 2 <= |s| && HexAt(s, i) && ReadsNumber(s, i, F, neg, r, end, k, X)
    ensures HexRead(s, i + 2, neg, F, r, end, k, X)
  {
    hide HexRead; hide DecimalRead; hide HexAt; hide Pow;
  }

  lemma HexNumberBack(s: string, i: nat, neg: bool, lead: HexDigit, hs: seq<HexDigit>, X: int, xs: seq<Digit>,
      F: Format, r: Float, end: nat, k: nat, X': int)
    requires F.Valid() && xs != [] && Dec(xs) == (if X < 0 then -X else X) && i + 2 <= |s| && |xs| <= 5
    requires s[i + 2..] == HexMantissa(lead, hs) + (['p', if X < 0 then '-' else '+'] + Spell(xs)) && HexAt(s, i)
    requires ReadsNumber(s, i, F, neg, r, end, k, X')
    ensures IsUnits(F, r, BinaryRounded(F, Hex([lead] + hs), X - 4 * |hs|), neg)
  {
    hide Dec; hide HexDigits; hide Hex; hide Frac; hide SignificandAt; hide HexMantissa; hide Spell; hide Pow;
    hide IsUnits; hide BinaryRounded; hide ExpAt; hide Clipped; hide HexAt; hide ReadsNumber;
    HexBranch(s, i, F, neg, r, end, k, X');
    HexParts(s, i + 2, lead, hs, X, xs, end, k, X');
    ShortExponent(xs, X);
  }

  /** Whatever text is m * 2^e in hexadecimal, and whatever that text is read as, it is the same number
      with the same sign, in every format. */
  lemma RoundTripA(neg: bool, m: nat, e: int, F: Format, v: Parts, s: string, r: Parsed, end: nat)
    requires IsFormat(F) && F.Valid() && Canonical(F, m, e)
    requires m < Pow2(64) && v == LdSplit(MakeLd(m, e, neg)) && PrintedHex(s, v.neg, v.m, v.e, -1)
        && ParsedAs(s, F, r, end)
    ensures r.Number? && IsUnits(F, r.r, Units(F, m, e), neg)
  {
    hide Pow; hide IsUnits; hide BinaryRounded; hide ReadsNumber; hide Spell; hide Dec; hide Hex; hide HexMantissa;
    hide MakeLd; hide LdSplit; hide SameBinary; hide HexAt; hide WordAt; hide StartsAt; hide BitLen; hide LeadingBits;
    FormatRepresentable(F, m, e);
    SplitMake(m, e, neg);
    var lead: HexDigit, hs: seq<HexDigit>, X: int, xs: seq<Digit> :| HexDigitsOf(v.m, v.e, -1, lead, hs, X)
        && TextHex(s, v.neg, lead, hs, X, xs);
    HexMantissaText(lead, hs);
    PartsSame(Hex([lead] + hs), X - 4 * |hs|, v.m, v.e, m, e);
    ExactBinary(F, Hex([lead] + hs), X - 4 * |hs|, m, e);
    var b: nat, i: nat, neg': bool, k: nat, X': int :| Reads(s, F, r, end, b, i, neg', k, X');
    HexStartFound(s, neg, HexMantissa(lead, hs), ['p', if X < 0 then '-' else '+'] + Spell(xs), b, i, neg');
    HexNumberBack(s, i, neg, lead, hs, X, xs, F, r.r, end, k, X');
  }

  /** %a, then strtof, strtod or strtold. */
  method HexPrintThenRead(neg: bool, m: nat, e: int, F: Format) returns (s: string, r: Parsed)
    requires IsFormat(F) && Canonical(F, m, e)
    ensures F.Valid() && r.Number? && IsUnits(F, r.r, Units(F, m, e), neg)
  {
    hide Pow; hide IsUnits; hide TextHex; hide HexDigitsOf; hide MakeLd; hide LdSplit; hide ParsedAs; hide Units;
    FormatValid(F);
    FormatRepresentable(F, m, e);
    SplitMake(m, e, neg);
    var v := LdSplit(MakeLd(m, e, neg));
    s := FmtHex(v.neg, v.m, v.e, -1);
    var end;
    r, end := Parse(s, F);
    RoundTripA(neg, m, e, F, v, s, r, end);
  }
}
