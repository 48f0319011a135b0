/** The %a conversion of src/vfprintf.c (`fmt_hex`), without flags or width. */
module PrintfHex {
  import opened Powers
  import opened Rounding
  import opened StrtodDecimal
  import opened StrtodText
  import opened LongDouble
  import opened PrintfFormat

  const W64: nat := 0x1_0000_0000_0000_0000

  lemma W64IsPow2()
    ensures W64 == Pow2(64)
  {
    hide Pow;
    ByteIsPow2();
    PowAdd(2, 8, 8); PowAdd(2, 16, 16); PowAdd(2, 32, 32);
  }

  lemma ByteIsPow2()
    ensures Pow2(8) == 256
  {
  }

  // ---- hexadecimal digits of a word ----

  /** Digit i, from the top, of a 64-bit word. */
  function NibbleAt(f: nat, i: nat): HexDigit
    requires i < 16
  {
    f / Pow(16, 15 - i) % 16
  }

  function Nibbles(f: nat, n: nat): (s: seq<HexDigit>)
    requires n <= 16
    ensures |s| == n
  {
    if n == 0 then [] else Nibbles(f, n - 1) + [NibbleAt(f, n - 1)]
  }

  /** The leading digits spell the quotient. */
  lemma {:induction false} NibblesSpell(f: nat, n: nat)
    requires n <= 16 && f < Pow(16, 16)
    ensures Hex(Nibbles(f, n)) == f / Pow(16, 16 - n)
  {
    hide Pow;
    if n == 0 {
      DivUnique(f, Pow(16, 16), 0, f);
    } else {
      NibblesSpell(f, n - 1);
      HexSnoc(Nibbles(f, n - 1), NibbleAt(f, n - 1));
      PowNext(16, 16 - n);
      NibbleArith(f, Pow(16, 16 - n));
    }
  }

  lemma NibbleArith(f: nat, g: nat)
    requires g > 0
    ensures 16 * g > 0 && f / g == f / (16 * g) * 16 + f / g % 16
  {
    MulComm(16, g);
    DivDiv(f, g, 16);
    DivMod(f / g, 16);
  }

  lemma {:induction false} HexCons(x: HexDigit, s: seq<HexDigit>)
    ensures Hex([x] + s) == x * Pow(16, |s|) + Hex(s)
    decreases |s|
  {
    if s == [] {
      assert [x] + s == [x] && [x][..0] == [];
    } else {
      var t, y := s[..|s| - 1], s[|s| - 1];
      HexCons(x, t);
      assert [x] + s == ([x] + t) + [y] && s == t + [y];
      HexSnoc([x] + t, y); HexSnoc(t, y);
      PowNext(16, |t|);
      hide Pow; hide Hex;
      MulAssoc(x, Pow(16, |t|), 16); MulComm(Pow(16, |t|), 16);
    }
  }

  function HexChar(x: HexDigit): (c: char)
    ensures IsHex(c) && HexOf(c) == x
  {
    if x < 10 then ('0' as int + x) as char else ('a' as int + x - 10) as char
  }

  function HexSpell(hs: seq<HexDigit>): (s: string)
    ensures |s| == |hs| && forall i | 0 <= i < |s| :: s[i] == HexChar(hs[i])
  {
    if hs == [] then [] else HexSpell(hs[..|hs| - 1]) + [HexChar(hs[|hs| - 1])]
  }

  lemma {:induction false} HexSpellDigits(hs: seq<HexDigit>)
    ensures HexDigits(HexSpell(hs)) == hs && OfDigits(HexSpell(hs), true)
    decreases |hs|
  {
    if hs != [] {
      HexSpellDigits(hs[..|hs| - 1]);
      hide HexDigits, Digits, Frac;
      DigitsSnoc(HexSpell(hs[..|hs| - 1]), HexChar(hs[|hs| - 1]));
      assert hs == hs[..|hs| - 1] + [hs[|hs| - 1]];
    }
  }

  // ---- values ----

  /** v * 2^a == w * 2^b. */
  predicate SameBinary(v: nat, a: int, w: nat, b: int) {
    if a >= b then v * Pow2(a - b) == w else v == w * Pow2(b - a)
  }

  /** m with its leading bit moved to bit 63, and the exponent of that bit. */
  function Top(m: nat): nat
    requires m < Pow2(64)
  {
    BitLenLimit(m);
    m * Pow2(64 - BitLen(m))
  }

  lemma TopRange(m: nat)
    requires 0 < m < Pow2(64)
    ensures Pow2(63) <= Top(m) < Pow2(64)
  {
    BitLenLimit(m);
    ShiftToTop(m, 64 - BitLen(m));
  }

  /** The number printed exactly: a leading digit and the fraction digits that are needed. */
  method DigitsExact(m: nat, e: int) returns (lead: HexDigit, hs: seq<HexDigit>, X: int)
    requires m < Pow2(64) && -16445 <= e <= 16320
    ensures |hs| <= 16 && lead == (if m == 0 then 0 else 1) && SameBinary(Hex([lead] + hs), X - 4 * |hs|, m, e)
    ensures (hs != [] ==> hs[|hs| - 1] != 0) && (m == 0 ==> X == 0 && hs == [] && Hex([lead] + hs) == 0)
    ensures m > 0 ==> X == e + BitLen(m) - 1
    ensures -20000 < X < 20000
  {
    hide Pow; hide BitLen; hide Hex; hide SameBinary;
    W64IsPow2();
    if m == 0 {
      ZeroHex(e);
      return 0, [], 0;
    }
    BitLenLimit(m);
    TopRange(m);
    var M := Top(m);
    X := e + BitLen(m) - 1;
    var frac := 2 * M % W64;
    lead := 1;
    FracOf(M, frac);
    var nd := 16;
    FracStart(frac);
    while nd > 0 && NibbleAt(frac, nd - 1) == 0
      invariant 0 <= nd <= 16 && frac % Pow(16, 16 - nd) == 0
    {
      StripNibble(frac, nd);
      nd := nd - 1;
    }
    hs := Nibbles(frac, nd);
    LastNibble(frac, nd);
    ExactHex(m, e, M, frac, nd);
  }

  lemma LastNibble(f: nat, n: nat)
    requires n <= 16
    ensures n > 0 ==> Nibbles(f, n)[n - 1] == NibbleAt(f, n - 1)
  {
  }

  lemma ZeroHex(e: int)
    ensures SameBinary(Hex([0] + []), 0, 0, e) && Hex([0] + []) == 0
  {
    assert [0] + [] == [0];
    assert Hex([0]) == 0 by { assert [0][..0] == []; }
  }

  lemma FracOf(M: nat, frac: nat)
    requires Pow2(63) <= M < Pow2(64) && frac == 2 * M % W64
    ensures 2 * M == Pow2(64) + frac && frac < Pow2(64)
  {
    hide Pow;
    W64IsPow2();
    HalfPower(64);
  }

  lemma FracStart(frac: nat)
    ensures frac % Pow(16, 0) == 0
  {
    assert Pow(16, 0) == 1;
  }

  lemma StripNibble(f: nat, nd: nat)
    requires 0 < nd <= 16 && NibbleAt(f, nd - 1) == 0 && f % Pow(16, 16 - nd) == 0
    ensures f % Pow(16, 17 - nd) == 0
  {
    hide Pow;
    PowNext(16, 16 - nd);
    var g := Pow(16, 16 - nd);
    MulComm(16, g);
    DivDiv(f, g, 16);
  }

  /** 2 M == 2^64 + frac, with the low digits of frac zero. */
  lemma ExactHex(m: nat, e: int, M: nat, frac: nat, nd: nat)
    requires 0 < m < Pow2(64) && M == Top(m) && 2 * M == Pow2(64) + frac && frac < Pow2(64)
    requires nd <= 16 && frac % Pow(16, 16 - nd) == 0
    ensures SameBinary(Hex([1] + Nibbles(frac, nd)), e + BitLen(m) - 1 - 4 * nd, m, e)
  {
    hide Pow; hide BitLen; hide Hex;
    BitLenLimit(m);
    Pow16(16); Pow16(nd); Pow16(16 - nd);
    NibblesSpell(frac, nd);
    HexCons(1, Nibbles(frac, nd));
    var v, g := Hex([1] + Nibbles(frac, nd)), Pow2(4 * (16 - nd));
    DivMod(frac, g);
    PowAdd(2, 4 * nd, 4 * (16 - nd));
    // v g == 2^64 + frac == 2 m 2^(64 - b)
    assert v * g == 2 * M by { MulDistr(g, Pow2(4 * nd), frac / g); MulComm(g, Pow2(4 * nd)); MulComm(g, v); }
    var b := BitLen(m);
    HalfPower(65 - b);
    assert 2 * M == m * Pow2(65 - b) by { MulAssoc(m, 2, Pow2(64 - b)); MulComm(m, 2); MulAssoc(2, m, Pow2(64 - b)); }
    CancelPowers(v, 4 * (16 - nd), m, 65 - b);
  }

  /** v 2^i == m 2^j: divide by the smaller power. */
  lemma CancelPowers(v: nat, i: nat, m: nat, j: nat)
    requires v * Pow2(i) == m * Pow2(j)
    ensures i >= j ==> v * Pow2(i - j) == m
    ensures i < j ==> v == m * Pow2(j - i)
  {
    hide Pow;
    if i >= j {
      PowAdd(2, i - j, j);
      MulAssoc(v, Pow2(i - j), Pow2(j));
      MulStrict(Pow2(j), v * Pow2(i - j), m); MulComm(Pow2(j), v * Pow2(i - j)); MulComm(Pow2(j), m);
    } else {
      PowAdd(2, j - i, i);
      MulAssoc(m, Pow2(j - i), Pow2(i));
      MulStrict(Pow2(i), v, m * Pow2(j - i)); MulComm(Pow2(i), v); MulComm(Pow2(i), m * Pow2(j - i));
    }
  }

  // ---- a given number of digits ----

  /** m * 2^(4 p + 1 - b), b its number of bits, rounded to an integer: the leading 4 p + 1 bits. */
  function LeadingBits(m: nat, p: nat): nat { RoundInt(m * Pow2(4 * p + 1), Pow2(BitLen(m))) }

  method DigitsRounded(m: nat, e: int, p: nat) returns (lead: HexDigit, hs: seq<HexDigit>, X: int)
    requires m < Pow2(64) && -16445 <= e <= 16320
    ensures |hs| == p && lead == (if m == 0 then 0 else 1) && -20000 < X < 20000
    ensures m == 0 ==> X == 0 && Hex([lead] + hs) == 0
    ensures 0 < m && p < 16 ==> SameBinary(Hex([lead] + hs), X - 4 * p, LeadingBits(m, p), e + BitLen(m) - 1 - 4 * p)
    ensures 0 < m && p >= 16 ==> SameBinary(Hex([lead] + hs), X - 4 * p, m, e)
  {
    hide Pow; hide BitLen; hide Hex; hide SameBinary; hide LeadingBits;
    W64IsPow2();
    if m == 0 {
      lead, hs, X := 0, seq(p, _ => 0), 0;
      ZeroDigits(p);
      return;
    }
    BitLenLimit(m);
    TopRange(m);
    var M := Top(m);
    X := e + BitLen(m) - 1;
    var frac := 2 * M % W64;
    lead := 1;
    FracOf(M, frac);
    if p < 16 {
      var keep, carry := RoundKept(m, p, M, frac);
      if carry { X := X + 1; }
      frac := keep * Pow(16, 16 - p);
      hs := Nibbles(frac, p);
      ShownBits(keep, p, frac);
      RoundedHex(lead, hs, keep, p, X, e + BitLen(m) - 1, LeadingBits(m, p));
    } else {
      FracStart(frac);
      ExactHex(m, e, M, frac, 16);
      hs := Nibbles(frac, 16) + seq(p - 16, _ => 0);
      PaddedHex([lead] + Nibbles(frac, 16), p - 16, X - 64, m, e);
      assert [lead] + hs == ([lead] + Nibbles(frac, 16)) + seq(p - 16, _ => 0);
    }
  }

  /** The kept fraction bits after rounding; a carry into the leading digit leaves none and raises
      the exponent. */
  method RoundKept(m: nat, p: nat, M: nat, frac: nat) returns (keep: nat, carry: bool)
    requires 0 < m < Pow2(64) && p < 16 && M == Top(m) && 2 * M == Pow2(64) + frac && frac < Pow2(64)
    ensures keep < Pow(16, p)
    ensures if carry then keep == 0 && LeadingBits(m, p) == 2 * Pow(16, p) else LeadingBits(m, p) == Pow(16, p) + keep
  {
    hide Pow; hide LeadingBits; hide Top;
    var lead := 1;
    var up;
    keep, up := Drop(frac, p, lead);
    RoundedBits(m, p, M, frac, keep, up);
    KeepRange(frac, p);
    if up {
      keep := keep + 1;
      if p == 0 || keep >= Pow(16, p) {
        OnlyOne(p);
        keep := 0;
        lead := lead + 1;
      }
    }
    carry := lead == 2;
  }

  lemma OnlyOne(p: nat)
    ensures p == 0 ==> Pow(16, p) == 1
  {
  }

  lemma {:induction false} HexZeros(s: seq<HexDigit>, z: nat)
    ensures Hex(s + seq(z, _ => 0)) == Hex(s) * Pow(16, z)
  {
    if z == 0 {
      assert s + seq<HexDigit>(0, _ => 0) == s;
    } else {
      HexZeros(s, z - 1);
      var t := s + seq<HexDigit>(z - 1, _ => 0);
      assert s + seq<HexDigit>(z, _ => 0) == t + [0];
      HexSnoc(t, 0);
      PowNext(16, z - 1);
      hide Pow; hide Hex;
      MulAssoc(Hex(s), Pow(16, z - 1), 16); MulComm(Pow(16, z - 1), 16);
    }
  }

  lemma ZeroDigits(p: nat)
    ensures Hex([0] + seq(p, _ => 0)) == 0
  {
    HexZeros([0], p);
    assert Hex([0]) == 0 by { assert [0][..0] == []; }
  }

  lemma PaddedHex(s: seq<HexDigit>, z: nat, a: int, m: nat, e: int)
    requires SameBinary(Hex(s), a, m, e)
    ensures SameBinary(Hex(s + seq(z, _ => 0)), a - 4 * z, m, e)
  {
    hide Pow; hide Hex;
    HexZeros(s, z);
    Pow16(z);
    var v, c := Hex(s), a - 4 * z;
    if c >= e {
      PowAdd(2, 4 * z, c - e);
      MulAssoc(v, Pow2(4 * z), Pow2(c - e));
    } else if a >= e {
      PowAdd(2, a - e, e - c);
      MulAssoc(v, Pow2(a - e), Pow2(e - c));
    } else {
      PowAdd(2, e - a, 4 * z);
      MulAssoc(m, Pow2(e - a), Pow2(4 * z));
    }
  }

  /** Cutting the fraction to p digits: what is kept, and whether to round it up. */
  method Drop(frac: nat, p: nat, lead: HexDigit) returns (keep: nat, up: bool)
    requires frac < Pow2(64) && p < 16 && lead == 1
    ensures keep == frac / Pow2(64 - 4 * p)
    ensures var low := frac % Pow2(64 - 4 * p);
            up <==> low > Pow2(63 - 4 * p) || (low == Pow2(63 - 4 * p) && (if p > 0 then keep else lead) % 2 == 1)
  {
    hide Pow;
    W64IsPow2();
    var drop := 64 - 4 * p;
    keep := if drop == 64 then 0 else frac / Pow2(drop);
    var rem := if drop == 64 then frac else frac * Pow2(64 - drop) % W64;
    var half := Pow2(63);
    DropArith(frac, drop, rem);
    up := rem > half || (rem == half && (if p > 0 then keep else lead) % 2 == 1);
  }

  lemma DropArith(f: nat, drop: nat, rem: nat)
    requires 0 < drop <= 64 && f < Pow2(64) && rem == if drop == 64 then f else f * Pow2(64 - drop) % W64
    ensures var low := f % Pow2(drop);
            (rem > Pow2(63) <==> low > Pow2(drop - 1)) && (rem == Pow2(63) <==> low == Pow2(drop - 1))
    ensures drop == 64 ==> f / Pow2(64) == 0
  {
    hide Pow;
    W64IsPow2();
    if drop == 64 {
      DivUnique(f, Pow2(64), 0, f);
    } else {
      var g, d := Pow2(64 - drop), Pow2(drop);
      PowAdd(2, 64 - drop, drop); PowAdd(2, 64 - drop, drop - 1);
      DivCancel(f, d, g); MulComm(g, f);
      MulStrict(g, f % d, Pow2(drop - 1)); MulStrict(g, Pow2(drop - 1), f % d);
    }
  }

  lemma KeepRange(frac: nat, p: nat)
    requires frac < Pow2(64) && p < 16
    ensures frac / Pow2(64 - 4 * p) < Pow(16, p)
  {
    hide Pow;
    Pow16(p);
    PowAdd(2, 64 - 4 * p, 4 * p);
    DivBounds(frac, Pow2(64 - 4 * p), Pow2(4 * p));
  }

  /** The kept bits below the leading one, plus the rounding, are the number's leading bits. */
  lemma RoundedBits(m: nat, p: nat, M: nat, frac: nat, keep: nat, up: bool)
    requires 0 < m < Pow2(64) && p < 16 && M == Top(m) && 2 * M == Pow2(64) + frac && frac < Pow2(64)
        && keep == frac / Pow2(64 - 4 * p)
    requires var low := frac % Pow2(64 - 4 * p);
             up <==> low > Pow2(63 - 4 * p) || (low == Pow2(63 - 4 * p) && (if p > 0 then keep else 1) % 2 == 1)
    ensures LeadingBits(m, p) == Pow(16, p) + keep + if up then 1 else 0
  {
    hide Pow; hide BitLen; hide RoundInt;
    BitLenLimit(m);
    var drop := 64 - 4 * p;
    Pow16(p);
    PowAdd(2, drop, 4 * p);
    HalfPower(drop);
    TopRatio(m, p, M);
    KeptParity(p, keep, frac);
    CutAt(2 * M, Pow2(drop), Pow2(4 * p), frac, keep, Pow2(drop - 1), up);
  }

  lemma TopRatio(m: nat, p: nat, M: nat)
    requires 0 < m < Pow2(64) && p < 16 && M == Top(m)
    ensures LeadingBits(m, p) == RoundInt(2 * M, Pow2(64 - 4 * p))
  {
    hide Pow; hide BitLen; hide RoundInt;
    BitLenLimit(m);
    var b := BitLen(m);
    HalfPower(65 - b);
    MulAssoc(m, 2, Pow2(64 - b)); MulComm(m, 2); MulAssoc(2, m, Pow2(64 - b));
    SameRatio(m, b, p);
    RoundIntRatio(m * Pow2(4 * p + 1), Pow2(b), 2 * M, Pow2(64 - 4 * p));
  }

  lemma CutAt(T: nat, d: nat, q: nat, frac: nat, keep: nat, half: nat, up: bool)
    requires d == 2 * half && half > 0 && T == d * q + frac && keep == frac / d
    requires up <==> frac % d > half || (frac % d == half && (q + keep) % 2 == 1)
    ensures RoundInt(T, d) == q + keep + if up then 1 else 0
  {
    DivAddMultiple(d, q, frac);
    RoundIntParts(T, d, q + keep, frac % d);
  }

  lemma SameRatio(m: nat, b: nat, p: nat)
    requires b <= 64 && p < 16
    ensures m * Pow2(4 * p + 1) * Pow2(64 - 4 * p) == m * Pow2(65 - b) * Pow2(b)
  {
    hide Pow;
    PowAdd(2, 4 * p + 1, 64 - 4 * p); PowAdd(2, 65 - b, b);
    MulAssoc(m, Pow2(4 * p + 1), Pow2(64 - 4 * p)); MulAssoc(m, Pow2(65 - b), Pow2(b));
  }

  lemma KeptParity(p: nat, keep: nat, frac: nat)
    requires p < 16 && frac < Pow2(64) && keep == frac / Pow2(64 - 4 * p)
    ensures (Pow2(4 * p) + keep) % 2 == (if p > 0 then keep else 1) % 2
  {
    hide Pow;
    if p > 0 {
      HalfPower(4 * p);
    } else {
      TwoZero();
      DivUnique(frac, Pow2(64), 0, frac);
    }
  }

  lemma RoundIntParts(n: nat, d: nat, q: nat, r: nat)
    requires d > 0 && n / d == q && n % d == r
    ensures RoundInt(n, d) == q + if 2 * r > d || (2 * r == d && q % 2 == 1) then 1 else 0
  {
  }

  /** The digits shown for the kept bits. */
  lemma ShownBits(keep: nat, p: nat, frac: nat)
    requires p < 16 && keep < Pow(16, p) && frac == keep * Pow(16, 16 - p)
    ensures Hex(Nibbles(frac, p)) == keep
  {
    hide Pow; hide Hex;
    PowAdd(16, p, 16 - p);
    var g := Pow(16, 16 - p);
    MulStrict(g, keep, Pow(16, p)); MulComm(g, keep); MulComm(g, Pow(16, p));
    NibblesSpell(frac, p);
    DivUnique(frac, g, keep, 0);
  }

  /** A carry out of the leading digit shows in the exponent. */
  lemma RoundedHex(lead: HexDigit, hs: seq<HexDigit>, keep: nat, p: nat, X: int, X0: int, R: nat)
    requires lead == 1 && |hs| == p && Hex(hs) == keep
    requires (X == X0 && R == Pow(16, p) + keep) || (X == X0 + 1 && keep == 0 && R == 2 * Pow(16, p))
    ensures SameBinary(Hex([lead] + hs), X - 4 * p, R, X0 - 4 * p)
  {
    hide Pow; hide Hex;
    HexCons(lead, hs);
    TwoZero();
    HalfPower(1);
  }

  // ---- the text ----

  ghost predicate TextHex(s: string, neg: bool, lead: HexDigit, hs: seq<HexDigit>, X: int, xs: seq<Digit>) {
    && s == SignText(neg) + "0x" + HexMantissa(lead, hs) + (['p', if X < 0 then '-' else '+'] + Spell(xs))
    && |xs| <= 5 && Exponent(X, 1, xs)
  }

  /** The digits of m * 2^e, the first of them 1 unless m is 0: without trailing zeros when p < 0, else p after
      the point, the last one rounded. */
  ghost predicate HexDigitsOf(m: nat, e: int, p: int, lead: HexDigit, hs: seq<HexDigit>, X: int) {
    && lead == (if m == 0 then 0 else 1) && (m == 0 ==> X == 0 && Hex([lead] + hs) == 0)
    && if p < 0 then
         && |hs| <= 16 && (hs != [] ==> hs[|hs| - 1] != 0) && (m == 0 ==> hs == [])
         && SameBinary(Hex([lead] + hs), X - 4 * |hs|, m, e)
       else
         && |hs| == p
         && (0 < m && p < 16 ==>
             SameBinary(Hex([lead] + hs), X - 4 * p, LeadingBits(m, p), e + BitLen(m) - 1 - 4 * p))
         && (0 < m && p >= 16 ==> SameBinary(Hex([lead] + hs), X - 4 * p, m, e))
  }

  ghost predicate PrintedHex(s: string, neg: bool, m: nat, e: int, p: int) {
    exists lead: HexDigit, hs: seq<HexDigit>, X: int, xs: seq<Digit> ::
        HexDigitsOf(m, e, p, lead, hs, X) && TextHex(s, neg, lead, hs, X, xs)
  }

  method FmtHex(neg: bool, m: nat, e: int, p: int) returns (s: string)
    requires m < Pow2(64) && -16445 <= e <= 16320
    ensures PrintedHex(s, neg, m, e, p)
  {
    hide Hex; hide SameBinary; hide LeadingBits; hide Pow; hide BitLen; hide Spell; hide HexSpell; hide Dec;
    var lead, hs, X;
    if p < 0 { lead, hs, X := DigitsExact(m, e); } else { lead, hs, X := DigitsRounded(m, e, p); }
    var body := [HexChar(lead)];
    if hs != [] { body := body + ("." + HexSpell(hs)); }
    var es := ExpStr(X, 'p', 1);
    ghost var xs: seq<Digit> :| ExpText(es, X, 'p', 1, xs);
    FiveDigits(|xs|);
    s := SignText(neg) + "0x" + body + es;
    assert HexDigitsOf(m, e, p, lead, hs, X) && TextHex(s, neg, lead, hs, X, xs);
  }

  function HexMantissa(lead: HexDigit, hs: seq<HexDigit>): string {
    if hs != [] then [HexChar(lead)] + ("." + HexSpell(hs)) else [HexChar(lead)]
  }
}
