/** Result assembly in src/strtod.c: `round_to`, `make_ld`, and `ld_split` of src/vfprintf.c. */
module StrtodRound {
  import opened Powers
  import opened Rounding

  /** A parsed result: m * 2^e with a sign, or an infinity. */
  datatype Float = Fin(neg: bool, m: nat, e: int) | Inf(neg: bool)

  /** The exact value (n / d) * 2^E as a fraction of F's units. */
  function UnitsNum(F: Format, n: nat, E: int): nat { if E >= F.emin then n * Pow2(E - F.emin) else n }

  function UnitsDen(F: Format, d: nat, E: int): (r: nat)
    ensures d > 0 ==> r > 0
  {
    if E >= F.emin then d else d * Pow2(F.emin - E)
  }

  /** m * 2^e in units. */
  function Units(F: Format, m: nat, e: int): nat
    requires e >= F.emin
  {
    m * Pow2(e - F.emin)
  }

  /** r is the finite number of F that is v units, or infinity if v is beyond F's range. */
  predicate IsUnits(F: Format, r: Float, v: nat, neg: bool)
    requires F.Valid()
  {
    r.neg == neg &&
    if v >= F.Limit() then r.Inf?
    else r.Fin? && F.emin <= r.e && r.m < Pow2(F.p) && Units(F, r.m, r.e) == v
         && (r.m == 0 || (r.e <= F.emax && (r.e == F.emin || r.m >= Pow2(F.p - 1))))
  }

  /** How many low bits of Q * 2^E a format drops. */
  function Drop(F: Format, Q: nat, E: int): int {
    var drop := BitLen(Q) - F.p;
    if E + drop < F.emin then F.emin - E else drop
  }

  /** The quantum of (n / d) * 2^E, read off the integer part of n / d. */
  lemma UnitsQuantum(F: Format, n: nat, d: nat, E: int)
    requires F.Valid() && d > 0 && n / d > 0
    ensures Quantum(F, UnitsNum(F, n, E) / UnitsDen(F, d, E)) == E + Drop(F, n / d, E) - F.emin
  {
    hide Pow; hide BitLen;
    var b := BitLen(n / d);
    BitLenBounds(n / d);
    var lo, hi := Pow2(b - 1), Pow2(b);
    DivBounds(n, d, lo); DivBounds(n, d, hi);
    if E >= F.emin {
      UnitsQuantumUp(F, n, d, b, E - F.emin);
    } else {
      UnitsQuantumDown(F, n, d, b, F.emin - E);
    }
  }

  lemma UnitsQuantumUp(F: Format, n: nat, d: nat, b: nat, s: nat)
    requires F.Valid() && d > 0 && b > 0 && d * Pow2(b - 1) <= n < d * Pow2(b)
    ensures Quantum(F, n * Pow2(s) / d) == if b + s > F.p then b + s - F.p else 0
  {
    hide Pow; hide BitLen;
    var g := Pow2(s); var x := n * g;
    PowAdd(2, b - 1, s); PowAdd(2, b, s);
    MulMono(d * Pow2(b - 1), n, g, g); MulAssoc(d, Pow2(b - 1), g);
    MulStrict(g, n, d * Pow2(b)); MulComm(g, n); MulComm(g, d * Pow2(b)); MulAssoc(d, Pow2(b), g);
    DivBounds(x, d, Pow2(b - 1 + s)); DivBounds(x, d, Pow2(b + s));
    BitLenIs(x / d, b + s);
  }

  lemma UnitsQuantumDown(F: Format, n: nat, d: nat, b: nat, s: nat)
    requires F.Valid() && d > 0 && b > 0 && d * Pow2(b - 1) <= n < d * Pow2(b)
    ensures d * Pow2(s) > 0
    ensures Quantum(F, n / (d * Pow2(s))) == if b - s > F.p then b - s - F.p else 0
  {
    hide Pow; hide BitLen;
    MulStrict(d, 0, Pow2(s));
    if b > s { DownLong(n, d, b, s); } else { DownShort(n, d, b, s); }
  }

  lemma DownLong(n: nat, d: nat, b: nat, s: nat)
    requires d > 0 && b > s && d * Pow2(b - 1) <= n < d * Pow2(b) && d * Pow2(s) > 0
    ensures BitLen(n / (d * Pow2(s))) == b - s
  {
    hide Pow; hide BitLen;
    var y := d * Pow2(s);
    PowAdd(2, s, b - 1 - s); PowAdd(2, s, b - s);
    MulAssoc(d, Pow2(s), Pow2(b - 1 - s)); MulAssoc(d, Pow2(s), Pow2(b - s));
    DivBounds(n, y, Pow2(b - 1 - s)); DivBounds(n, y, Pow2(b - s));
    BitLenIs(n / y, b - s);
  }

  lemma DownShort(n: nat, d: nat, b: nat, s: nat)
    requires d > 0 && b <= s && n < d * Pow2(b) && d * Pow2(s) > 0
    ensures BitLen(n / (d * Pow2(s))) == 0
  {
    PowMono(2, b, s); MulMono(d, d, Pow2(b), Pow2(s));
    DivUnique(n, d * Pow2(s), 0, n);
  }

  /** Rounding to the format is rounding the fraction after dropping bits. */
  lemma UnitsRound(F: Format, n: nat, d: nat, E: int, drop: int)
    requires F.Valid() && d > 0 && n / d > 0 && drop == Drop(F, n / d, E)
    ensures E + drop >= F.emin
    ensures drop >= 0 ==>
        Round(F, UnitsNum(F, n, E), UnitsDen(F, d, E)) == Units(F, RoundInt(n, d * Pow2(drop)), E + drop)
    ensures drop <= 0 && n % d == 0 ==>
        Round(F, UnitsNum(F, n, E), UnitsDen(F, d, E)) == Units(F, n / d * Pow2(-drop), E + drop)
  {
    UnitsQuantum(F, n, d, E);
    var k := E + drop - F.emin;
    var x, y := UnitsNum(F, n, E), UnitsDen(F, d, E);
    if drop >= 0 { ScaledFraction(F, n, d, E, drop); }
    if drop <= 0 && n % d == 0 { ExactFraction(F, n, d, E, drop); }
  }

  lemma ScaledFraction(F: Format, n: nat, d: nat, E: int, drop: nat)
    requires d > 0 && E + drop >= F.emin
    ensures UnitsDen(F, d, E) * Pow2(E + drop - F.emin) > 0 && d * Pow2(drop) > 0
    ensures RoundInt(UnitsNum(F, n, E), UnitsDen(F, d, E) * Pow2(E + drop - F.emin)) == RoundInt(n, d * Pow2(drop))
  {
    hide Pow;
    var k := E + drop - F.emin;
    MulStrict(d, 0, Pow2(drop)); MulStrict(d, 0, Pow2(k));
    if E >= F.emin {
      var g := Pow2(E - F.emin);
      PowAdd(2, E - F.emin, drop);
      RoundIntScale(n, d * Pow2(drop), g);
      MulComm(g, n); MulAssoc(d, g, Pow2(drop)); MulComm(g, d); MulAssoc(g, d, Pow2(drop));
    } else {
      PowAdd(2, F.emin - E, k);
      MulAssoc(d, Pow2(F.emin - E), Pow2(k));
    }
  }

  lemma ExactFraction(F: Format, n: nat, d: nat, E: int, drop: int)
    requires d > 0 && drop <= 0 && E + drop >= F.emin && n % d == 0
    ensures UnitsDen(F, d, E) * Pow2(E + drop - F.emin) > 0
    ensures RoundInt(UnitsNum(F, n, E), UnitsDen(F, d, E) * Pow2(E + drop - F.emin)) == n / d * Pow2(-drop)
  {
    hide Pow;
    var k := E + drop - F.emin;
    var q, g, h := n / d, Pow2(-drop), Pow2(k);
    MulStrict(d, 0, h);
    PowAdd(2, k, -drop);
    DivMod(n, d);
    // n * 2^(k - drop) = d * 2^k * (q * 2^-drop)
    calc {
      n * (h * g);
      d * q * (h * g);
      { MulAssoc(d, q, h * g); MulAssoc(q, h, g); MulComm(q, h); MulAssoc(h, q, g); }
      d * (h * (q * g));
      { MulAssoc(d, h, q * g); }
      d * h * (q * g);
    }
    DivUnique(n * (h * g), d * h, q * g, 0);
  }

  /** Rounding up is decided by the dropped bits and the sticky flag. */
  lemma RoundingBit(n: nat, d: nat, drop: nat, Q: nat, k: nat, rem: nat, half: nat)
    requires d > 0 && drop > 0 && Q == n / d && Pow2(drop) == 2 * half && half > 0
    requires k == Q / Pow2(drop) && rem == Q % Pow2(drop)
    ensures d * Pow2(drop) > 0
    ensures RoundInt(n, d * Pow2(drop)) == if rem > half
        || (rem == half && (n % d != 0 || k % 2 == 1)) then k + 1 else k
  {
    hide Pow;
    var g := Pow2(drop);
    DivDiv(n, d, g);
    DivMod(n, d);
    var r := d * rem + n % d;
    if rem > half {
      MulMono(d, d, half + 1, rem); MulDistr(d, half, 1);
    } else if rem < half {
      MulMono(d, d, rem + 1, half); MulDistr(d, rem, 1);
    }
    assert d * g == 2 * (d * half);
  }

  /** Drop low bits of Q, rounding to nearest, ties to even. */
  method DropBits(Q: nat, drop: nat, sticky: bool, ghost n: nat, ghost d: nat) returns (k: nat, inexact: bool)
    requires drop > 0 && Q < Pow2(128) && d > 0 && Q == n / d && (sticky <==> n % d != 0)
    ensures d * Pow2(drop) > 0 && k == RoundInt(n, d * Pow2(drop))
    ensures inexact <==> Q % Pow2(drop) != 0 || sticky
  {
    hide Pow; hide RoundInt;
    k := if drop >= 128 then 0 else Q / Pow2(drop);
    var rem := if drop >= 128 then Q else Q % Pow2(drop);
    Shifted(Q, drop);
    inexact := false;
    var up := false;
    if rem != 0 || sticky {
      inexact := true;
      if drop <= 128 {
        var half := Pow2(drop - 1);
        up := rem > half || (rem == half && (sticky || k % 2 == 1));
      }
    }
    RoundUp(n, d, drop, Q, k, rem, up, sticky);
    if up { k := k + 1; }
  }

  /** A mantissa that rounding has carried to 2^p moves to the next exponent. */
  method Carry(F: Format, k0: nat, E0: int) returns (k: nat, E: int)
    requires F.Valid() && E0 >= F.emin && k0 <= Pow2(F.p) && (E0 > F.emin ==> k0 >= Pow2(F.p - 1))
    ensures k < Pow2(F.p) && E >= F.emin && (E > F.emin ==> k >= Pow2(F.p - 1)) && Units(F, k, E) == Units(F, k0, E0)
  {
    hide Pow; hide Units;
    k, E := k0, E0;
    NoCarry(F, k);
    if k / Pow2(F.p) != 0 {
      CarryValue(F, k, E);
      k := k / 2;
      E := E + 1;
    }
  }

  /** `round_to`. The exact value is (n / d) * 2^E with Q its integer part and `sticky` telling
      whether anything lies below Q; a sticky value must have more bits than the format. */
  method RoundTo(Q: nat, E0: int, sticky: bool, F: Format, neg: bool, ghost n: nat, ghost d: nat)
    returns (r: Float, erange: bool)
    requires F.Valid() && F.p <= 64 && Q < Pow2(128)
    requires d > 0 && Q == n / d && (sticky <==> n % d != 0) && (sticky ==> BitLen(Q) > F.p)
    ensures IsUnits(F, r, Round(F, UnitsNum(F, n, E0), UnitsDen(F, d, E0)), neg)
    ensures r.Inf? ==> erange
  {
    assert BitLen(0) == 0;
    hide Pow; hide BitLen; hide Round; hide Quantum; hide RoundInt; hide Units; hide UnitsNum; hide UnitsDen;
    erange := false;
    if Q == 0 {
      ZeroRounds(F, n, d, E0);
      return Fin(neg, 0, 0), false;
    }
    var E := E0;
    var bl := BitLen(Q);
    var drop := bl - F.p;
    if E + drop < F.emin { drop := F.emin - E; }
    UnitsRound(F, n, d, E, drop);
    var keep: nat, inexact := 0, sticky;
    if drop > 0 {
      keep, inexact := DropBits(Q, drop, sticky, n, d);
      E := E + drop;
      KeepBound(F, n, d, E0, drop, keep);
      keep, E := Carry(F, keep, E);
    } else {
      ShiftUp(F, Q, drop, E);
      keep := Q * Pow2(-drop);
      E := E + drop;
    }
    FinalRange(F, keep, E);
    if keep != 0 && E > F.emax {
      return Inf(neg), true;
    }
    erange := inexact && keep < Pow2(F.p - 1);
    r := Fin(neg, keep, E);
  }

  lemma ZeroRounds(F: Format, n: nat, d: nat, E: int)
    requires F.Valid() && d > 0 && n / d == 0 && n % d == 0
    ensures Round(F, UnitsNum(F, n, E), UnitsDen(F, d, E)) == 0 < F.Limit()
    ensures 0 < Pow2(F.p) && Units(F, 0, 0) == 0
  {
    DivMod(n, d);
    assert n == 0;
  }

  lemma Shifted(Q: nat, drop: nat)
    requires Q < Pow2(128)
    ensures drop >= 128 ==> Q / Pow2(drop) == 0 && Q % Pow2(drop) == Q
    ensures drop > 0 ==> Pow2(drop) == 2 * Pow2(drop - 1)
    ensures drop > 128 ==> Q < Pow2(drop - 1)
  {
    if drop >= 128 { PowMono(2, 128, drop); DivUnique(Q, Pow2(drop), 0, Q); }
    if drop > 128 { PowMono(2, 128, drop - 1); }
  }

  lemma RoundUp(n: nat, d: nat, drop: nat, Q: nat, k: nat, rem: nat, up: bool, sticky: bool)
    requires d > 0 && drop > 0 && Q == n / d && Q < Pow2(128) && (sticky <==> n % d != 0)
    requires k == Q / Pow2(drop) && rem == Q % Pow2(drop)
    requires up <==>
        (rem != 0 || sticky) && drop <= 128
            && (rem > Pow2(drop - 1) || (rem == Pow2(drop - 1) && (sticky || k % 2 == 1)))
    ensures d * Pow2(drop) > 0
    ensures RoundInt(n, d * Pow2(drop)) == if up then k + 1 else k
  {
    Shifted(Q, drop);
    hide Pow;
    RoundingBit(n, d, drop, Q, k, rem, Pow2(drop - 1));
  }

  /** The kept part has at most p bits, or is 2^p; above the subnormals it has exactly p. */
  lemma KeepBound(F: Format, n: nat, d: nat, E: int, drop: int, k: nat)
    requires F.Valid() && d > 0 && n / d > 0 && drop == Drop(F, n / d, E) && drop > 0
    requires d * Pow2(drop) > 0 && k == RoundInt(n, d * Pow2(drop))
    ensures k <= Pow2(F.p) && (E + drop > F.emin ==> k >= Pow2(F.p - 1))
  {
    hide Pow; hide BitLen; hide RoundInt; hide UnitsNum; hide UnitsDen;
    UnitsQuantum(F, n, d, E);
    ScaledFraction(F, n, d, E, drop);
    var x, y := UnitsNum(F, n, E), UnitsDen(F, d, E);
    RoundHolds(F, x, y);
    GridBelow(F, x / y);
    DivDiv(x, y, Pow2(E + drop - F.emin));
    RoundIntNearest(x, y * Pow2(E + drop - F.emin));
  }

  lemma CarryValue(F: Format, k: nat, E: int)
    requires F.Valid() && E >= F.emin && k <= Pow2(F.p) && k / Pow2(F.p) != 0
    ensures k / 2 == Pow2(F.p - 1) && k / 2 < Pow2(F.p) && Units(F, k / 2, E + 1) == Units(F, k, E)
  {
    NoCarry(F, k);
    assert Pow2(F.p) == 2 * Pow2(F.p - 1) && Pow2(E + 1 - F.emin) == 2 * Pow2(E - F.emin);
    hide Pow;
    MulAssoc(Pow2(F.p - 1), 2, Pow2(E - F.emin));
  }

  lemma NoCarry(F: Format, k: nat)
    requires k <= Pow2(F.p)
    ensures k / Pow2(F.p) == 0 <==> k < Pow2(F.p)
  {
    hide Pow;
    if k < Pow2(F.p) { DivUnique(k, Pow2(F.p), 0, k); } else { DivUnique(k, Pow2(F.p), 1, 0); }
  }

  lemma ShiftUp(F: Format, Q: nat, drop: int, E: int)
    requires F.Valid() && Q > 0 && drop <= 0 && drop == Drop(F, Q, E)
    ensures Q * Pow2(-drop) < Pow2(F.p) && Q * Pow2(-drop) > 0
    ensures E + drop > F.emin ==> Q * Pow2(-drop) >= Pow2(F.p - 1)
  {
    BitLenBounds(Q);
    var b := BitLen(Q);
    hide Pow; hide BitLen;
    PowAdd(2, b, -drop); PowAdd(2, b - 1, -drop);
    MulStrict(Pow2(-drop), Q, Pow2(b)); MulComm(Pow2(-drop), Q); MulComm(Pow2(-drop), Pow2(b));
    MulMono(Pow2(b - 1), Q, Pow2(-drop), Pow2(-drop));
    MulStrict(Q, 0, Pow2(-drop));
    PowMono(2, b - drop, F.p);
  }

  lemma FinalRange(F: Format, keep: nat, E: int)
    requires F.Valid() && E >= F.emin && keep < Pow2(F.p) && (E > F.emin ==> keep >= Pow2(F.p - 1))
    ensures Units(F, keep, E) >= F.Limit() <==> E > F.emax && keep != 0
  {
    hide Pow;
    var g := Pow2(E - F.emin);
    if E > F.emax {
      if keep != 0 {
        PowAdd(2, F.p - 1, E - F.emin);
        MulMono(Pow2(F.p - 1), keep, g, g);
        PowMono(2, F.p + F.emax - F.emin, F.p - 1 + E - F.emin);
      }
    } else {
      PowAdd(2, F.p, E - F.emin);
      MulStrict(g, keep, Pow2(F.p)); MulComm(g, keep); MulComm(g, Pow2(F.p));
      PowMono(2, F.p + E - F.emin, F.p + F.emax - F.emin);
    }
  }
}
