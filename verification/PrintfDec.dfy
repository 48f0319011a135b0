/** The exact decimal expansion of src/vfprintf.c (`struct dec`) and its rounding to any number of
    digits. */
module PrintfDec {
  import opened Powers
  import opened Limbs
  import opened Rounding
  import opened StrtodDecimal

  const LIMB: nat := 1_000_000_000
  const MAX_LIMBS := 1841

  type DecLimb = x: int | 0 <= x < LIMB

  function Num(s: seq<DecLimb>): nat { Val(LIMB, s) }

  predicate Normal(s: seq<DecLimb>) { s != [] ==> s[|s| - 1] != 0 }

  // ---- sizes ----

  lemma LimbPow(i: nat)
    ensures Pow(LIMB, i) == Pow(10, 9 * i)
  {
    TenNine();
    PowPow(10, 9, i);
  }

  lemma TenNine()
    ensures Pow(10, 9) == LIMB
  {
    assert Pow(10, 4) == 10000 && Pow(10, 5) == 100000;
    PowAdd(10, 4, 5);
  }

  /** Whatever has at most 49707 bits fits. */
  lemma Fits(v: nat, b: nat)
    requires v < Pow2(b) && b <= 49707
    ensures v < Pow(LIMB, MAX_LIMBS)
  {
    hide Pow;
    LimbPow(MAX_LIMBS);
    TenEight(9 * MAX_LIMBS);
    PowMono(2, b, 3 * (9 * MAX_LIMBS));
  }

  lemma FiveEight(k: nat)
    ensures Pow(5, k) <= Pow2(3 * k)
  {
    assert Pow2(3) == 8;
    PowPow(2, 3, k);
    PowBaseMono(5, 8, k);
  }

  // ---- digits of a number ----

  /** Digit i, from the top, of a number of nd digits. */
  function DigAt(V: nat, nd: nat, i: int): Digit { if 0 <= i < nd then V / Pow(10, nd - 1 - i) % 10 else 0 }

  /** Does any digit after i differ from zero? */
  predicate NonzeroAfter(V: nat, nd: nat, i: nat) { i < nd && V % Pow(10, nd - 1 - i) != 0 }

  lemma SplitDigit(V: nat, j: nat)
    ensures V / Pow(10, j) == V / Pow(10, j + 1) * 10 + V / Pow(10, j) % 10
    ensures V % Pow(10, j + 1) == V / Pow(10, j) % 10 * Pow(10, j) + V % Pow(10, j)
  {
    hide Pow;
    PowNext(10, j);
    MulComm(10, Pow(10, j));
    SplitArith(V, Pow(10, j));
  }

  lemma SplitArith(V: nat, g: nat)
    requires g > 0
    ensures g * 10 > 0 && V / g == V / (g * 10) * 10 + V / g % 10 && V % (g * 10) == V / g % 10 * g + V % g
  {
    DivDiv(V, g, 10);
    MulComm(g, V / g % 10);
  }

  /** A limb's digit is the number's digit. */
  lemma LimbDigit(s: seq<DecLimb>, j: nat)
    requires j < 9 * |s|
    ensures s[j / 9] / Pow(10, j % 9) % 10 == Num(s) / Pow(10, j) % 10
  {
    hide Val; hide Pow;
    var q, t := j / 9, j % 9;
    LimbAt(LIMB, s, q);
    LimbPow(q);
    PowAdd(10, 9 * q, t);
    DivDiv(Num(s), Pow(10, 9 * q), Pow(10, t));
    LimbParts(t);
    InnerDigit(Num(s) / Pow(10, 9 * q), Pow(10, t), Pow(10, 8 - t));
  }

  lemma LimbParts(t: nat)
    requires t < 9
    ensures Pow(10, t) * (10 * Pow(10, 8 - t)) == LIMB
  {
    hide Pow;
    TenNine();
    PowAdd(10, t, 9 - t);
    PowNext(10, 8 - t);
  }

  lemma InnerDigit(X: nat, a: nat, b: nat)
    requires a > 0 && b > 0 && a * (10 * b) > 0
    ensures X % (a * (10 * b)) / a % 10 == X / a % 10
  {
    DivDiv(X, a, 10 * b);
    var y := X / a;
    // X % (a 10 b) == a (y % (10 b)) + X % a
    DivMod(X, a);
    DivUnique(X % (a * (10 * b)), a, y % (10 * b), X % a);
    DivDiv(y, 10, b);
    DivUnique(y % (10 * b), 10, y / 10 % b, y % 10);
  }

  /** The leading digits spell the quotient. */
  lemma {:induction false} LeadingDigits(V: nat, nd: nat, k: nat)
    requires V < Pow(10, nd) && k <= nd
    ensures Dec(Leading(V, nd, k)) == V / Pow(10, nd - k)
  {
    hide Pow;
    if k == 0 {
      DivUnique(V, Pow(10, nd), 0, V);
    } else {
      LeadingDigits(V, nd, k - 1);
      DecSnoc(Leading(V, nd, k - 1), DigAt(V, nd, k - 1));
      SplitDigit(V, nd - k);
    }
  }

  function Leading(V: nat, nd: nat, k: nat): (s: seq<Digit>)
    ensures |s| == k
  {
    if k == 0 then [] else Leading(V, nd, k - 1) + [DigAt(V, nd, k - 1)]
  }

  // ---- rounding to K digits ----

  /** V * 10^-nd rounded to K digits, in units of 10^-K: to nearest, ties to even. */
  function RoundedTo(V: nat, nd: nat, K: int): nat {
    if K >= nd then V * Pow(10, K - nd) else RoundInt(V, Pow(10, nd - K))
  }

  /** What `dec_round` leaves: nothing, an increment at digit r, or a carry out of the top. */
  ghost predicate RoundState(V: nat, nd: nat, K: int, r: int, carry: bool) {
    var R := RoundedTo(V, nd, K);
    if carry then 0 <= K < nd && r == -1 && R == Pow(10, K)
    else if r >= 0 then r < K < nd && DigAt(V, nd, r) != 9 && R == (V / Pow(10, nd - 1 - r) + 1) * Pow(10, K - 1 - r)
    else K >= nd || (K < 0 && R == 0) || (0 <= K < nd && R == V / Pow(10, nd - K))
  }

  function RDigAt(V: nat, nd: nat, K: int, r: int, carry: bool, i: int): int {
    if carry then (if i == 0 then 1 else 0)
    else if i < 0 || i >= K then 0
    else if r >= 0 && i >= r then (if i == r then DigAt(V, nd, i) + 1 else 0)
    else DigAt(V, nd, i)
  }

  lemma RDigIsDigit(V: nat, nd: nat, K: int, r: int, carry: bool, i: int)
    requires RoundState(V, nd, K, r, carry)
    ensures 0 <= RDigAt(V, nd, K, r, carry, i) < 10
  {
  }

  /** The first k digits shown. */
  function Shown(V: nat, nd: nat, K: int, r: int, carry: bool, k: nat): (s: seq<Digit>)
    requires RoundState(V, nd, K, r, carry)
    ensures |s| == k && forall i | 0 <= i < k :: s[i] == RDigAt(V, nd, K, r, carry, i)
  {
    if k == 0 then [] else
      RDigIsDigit(V, nd, K, r, carry, k - 1);
      Shown(V, nd, K, r, carry, k - 1) + [RDigAt(V, nd, K, r, carry, k - 1)]
  }

  /** The digits shown spell the rounded number: after a carry, a one followed by zeros, with the
      exponent one higher; otherwise the K digits, followed by zeros. */
  lemma ShownIs(V: nat, nd: nat, K: int, r: int, carry: bool, k: nat)
    requires RoundState(V, nd, K, r, carry) && V < Pow(10, nd) && k >= K && k > 0
    ensures Dec(Shown(V, nd, K, r, carry, k)) == if carry then Pow(10, k - 1)
        else if K < 0 then 0 else RoundedTo(V, nd, K) * Pow(10, k - K)
  {
    hide Pow; hide Dec; hide Shown;
    if carry {
      ShownCarry(V, nd, K, k);
    } else if K < 0 {
      ShownZeros(V, nd, K, r, carry, 0, k);
      ShownNone(V, nd, K, r, carry);
    } else if r >= 0 {
      ShownUp(V, nd, K, r, k);
    } else if K < nd {
      ShownLeading(V, nd, K, r, K);
      ShownZeros(V, nd, K, r, carry, K, k);
    } else {
      ShownAll(V, nd, K, r, k);
    }
  }

  lemma ShownNone(V: nat, nd: nat, K: int, r: int, carry: bool)
    requires RoundState(V, nd, K, r, carry)
    ensures Dec(Shown(V, nd, K, r, carry, 0)) == 0
  {
  }

  lemma ShownUp(V: nat, nd: nat, K: int, r: int, k: nat)
    requires RoundState(V, nd, K, r, false) && V < Pow(10, nd) && k >= K && r >= 0
    ensures Dec(Shown(V, nd, K, r, false, k)) == RoundedTo(V, nd, K) * Pow(10, k - K)
  {
    hide Pow; hide Dec; hide Shown; hide RoundedTo;
    ShownIncremented(V, nd, K, r);
    ShownZeros(V, nd, K, r, false, r + 1, k);
    PowAdd(10, K - 1 - r, k - K);
    MulAssoc(V / Pow(10, nd - 1 - r) + 1, Pow(10, K - 1 - r), Pow(10, k - K));
  }

  lemma ShownAll(V: nat, nd: nat, K: int, r: int, k: nat)
    requires RoundState(V, nd, K, r, false) && V < Pow(10, nd) && k >= K >= nd && r < 0
    ensures Dec(Shown(V, nd, K, r, false, k)) == RoundedTo(V, nd, K) * Pow(10, k - K)
  {
    hide Pow; hide Dec; hide Shown;
    ShownLeading(V, nd, K, r, nd);
    TenZero();
    ShownZeros(V, nd, K, r, false, nd, k);
    PowAdd(10, K - nd, k - K);
    MulAssoc(V, Pow(10, K - nd), Pow(10, k - K));
  }

  lemma {:induction false} ShownZeros(V: nat, nd: nat, K: int, r: int, carry: bool, j: nat, k: nat)
    requires RoundState(V, nd, K, r, carry) && j <= k
    requires forall i | j <= i < k :: RDigAt(V, nd, K, r, carry, i) == 0
    ensures Dec(Shown(V, nd, K, r, carry, k)) == Dec(Shown(V, nd, K, r, carry, j)) * Pow(10, k - j)
  {
    hide Pow; hide Dec; hide RoundState; hide RDigAt; hide Shown;
    if k == j {
      TenZero();
    } else {
      ShownZeros(V, nd, K, r, carry, j, k - 1);
      ShownSnoc(V, nd, K, r, carry, k - 1);
      DecSnoc(Shown(V, nd, K, r, carry, k - 1), 0);
      PowNext(10, k - 1 - j);
      MulComm(Pow(10, k - 1 - j), 10);
      MulAssoc(Dec(Shown(V, nd, K, r, carry, j)), Pow(10, k - 1 - j), 10);
    }
  }

  lemma ShownSnoc(V: nat, nd: nat, K: int, r: int, carry: bool, k: nat)
    requires RoundState(V, nd, K, r, carry)
    ensures 0 <= RDigAt(V, nd, K, r, carry, k) < 10
    ensures Shown(V, nd, K, r, carry, k + 1) == Shown(V, nd, K, r, carry, k) + [RDigAt(V, nd, K, r, carry, k)]
  {
    RDigIsDigit(V, nd, K, r, carry, k);
  }

  lemma ShownCarry(V: nat, nd: nat, K: int, k: nat)
    requires RoundState(V, nd, K, -1, true) && k > 0
    ensures Dec(Shown(V, nd, K, -1, true, k)) == Pow(10, k - 1)
  {
    ShownZeros(V, nd, K, -1, true, 1, k);
    assert Shown(V, nd, K, -1, true, 1) == [1];
    assert Dec([1]) == 1;
  }

  lemma {:induction false} ShownLeading(V: nat, nd: nat, K: int, r: int, j: nat)
    requires RoundState(V, nd, K, r, false) && V < Pow(10, nd) && j <= nd && j <= K && (r >= 0 ==> j <= r)
    ensures Dec(Shown(V, nd, K, r, false, j)) == V / Pow(10, nd - j)
  {
    LeadingDigits(V, nd, j);
    SameLeading(V, nd, K, r, j);
  }

  lemma {:induction false} SameLeading(V: nat, nd: nat, K: int, r: int, j: nat)
    requires RoundState(V, nd, K, r, false) && j <= nd && j <= K && (r >= 0 ==> j <= r)
    ensures Shown(V, nd, K, r, false, j) == Leading(V, nd, j)
  {
    if j > 0 { SameLeading(V, nd, K, r, j - 1); }
  }

  lemma ShownIncremented(V: nat, nd: nat, K: int, r: int)
    requires RoundState(V, nd, K, r, false) && V < Pow(10, nd) && r >= 0
    ensures Dec(Shown(V, nd, K, r, false, r + 1)) == V / Pow(10, nd - 1 - r) + 1
  {
    hide Pow;
    ShownLeading(V, nd, K, r, r);
    RDigIsDigit(V, nd, K, r, false, r);
    DecSnoc(Shown(V, nd, K, r, false, r), DigAt(V, nd, r) + 1);
    SplitDigit(V, nd - 1 - r);
  }

  /** Rounding by the digit after the last, the digits beyond it, and the parity of the last. */
  lemma RoundDecision(V: nat, nd: nat, K: nat)
    requires K < nd && V < Pow(10, nd)
    ensures var h := DigAt(V, nd, K);
            var up := h > 5 || (h == 5 && (NonzeroAfter(V, nd, K) || (K > 0 && DigAt(V, nd, K - 1) % 2 == 1)));
            RoundedTo(V, nd, K) == V / Pow(10, nd - K) + if up then 1 else 0
  {
    hide Pow; hide RoundInt; hide DigAt;
    var j := nd - 1 - K;
    LastParity(V, nd, K);
    DigitParts(V, nd, K);
    PowNext(10, j);
    RoundByDigit(V, Pow(10, j), DigAt(V, nd, K), V % Pow(10, j));
  }

  lemma DigitParts(V: nat, nd: nat, K: nat)
    requires K < nd
    ensures V % Pow(10, nd - K) == DigAt(V, nd, K) * Pow(10, nd - 1 - K) + V % Pow(10, nd - 1 - K)
  {
    SplitDigit(V, nd - 1 - K);
  }

  lemma LastParity(V: nat, nd: nat, K: nat)
    requires K < nd && V < Pow(10, nd)
    ensures V / Pow(10, nd - K) % 2 == 1 <==> K > 0 && DigAt(V, nd, K - 1) % 2 == 1
  {
    hide Pow;
    if K > 0 {
      SplitDigit(V, nd - K);
      TenParity(V / Pow(10, nd - K), V / Pow(10, nd - K + 1), V / Pow(10, nd - K) % 10);
    } else {
      DivUnique(V, Pow(10, nd), 0, V);
    }
  }

  lemma TenParity(a: nat, b: nat, c: nat)
    requires a == b * 10 + c
    ensures a % 2 == c % 2
  {
  }

  lemma RoundByDigit(V: nat, g: nat, h: nat, low: nat)
    requires g > 0 && low < g && V % (10 * g) == h * g + low
    ensures var q := V / (10 * g);
            RoundInt(V, 10 * g) == q + if h > 5 || (h == 5 && (low != 0 || q % 2 == 1)) then 1 else 0
  {
    DecideArith(h, g, low);
  }

  lemma DecideArith(h: nat, g: nat, low: nat)
    requires low < g
    ensures 2 * (h * g + low) > 10 * g <==> h > 5 || (h == 5 && low != 0)
    ensures 2 * (h * g + low) == 10 * g <==> h == 5 && low == 0
  {
    if h > 5 { MulMono(6, h, g, g); }
    if h < 5 { MulMono(h, 4, g, g); }
  }

  lemma RoundAway(V: nat, nd: nat, K: int)
    requires K < 0 && V < Pow(10, nd)
    ensures RoundedTo(V, nd, K) == 0
  {
    hide Pow;
    PowNext(10, nd - K - 1);
    PowMono(10, nd, nd - K - 1);
    DivUnique(V, Pow(10, nd - K), 0, V);
  }

  /** Rounding to K digits is truncating, plus one if up. */
  ghost predicate RoundsBy(V: nat, nd: nat, K: nat, up: bool) {
    K < nd && RoundedTo(V, nd, K) == V / Pow(10, nd - K) + if up then 1 else 0
  }

  /** Nines up to digit K - 1 carry into digit i. */
  ghost predicate Nines(V: nat, nd: nat, K: nat, i: int) {
    -1 <= i < K <= nd && V / Pow(10, nd - K) + 1 == (V / Pow(10, nd - 1 - i) + 1) * Pow(10, K - 1 - i)
  }

  lemma NinesStart(V: nat, nd: nat, K: nat)
    requires K <= nd
    ensures Nines(V, nd, K, K - 1)
  {
  }

  lemma NinesStep(V: nat, nd: nat, K: nat, i: nat)
    requires Nines(V, nd, K, i) && DigAt(V, nd, i) == 9
    ensures Nines(V, nd, K, i - 1)
  {
    hide Pow;
    SplitDigit(V, nd - 1 - i);
    PowNext(10, K - 1 - i);
    var t := V / Pow(10, nd - i) + 1;
    MulAssoc(t, 10, Pow(10, K - 1 - i));
  }

  lemma NinesCarry(V: nat, nd: nat, K: nat)
    requires Nines(V, nd, K, -1) && V < Pow(10, nd)
    ensures V / Pow(10, nd - K) + 1 == Pow(10, K)
  {
    hide Pow;
    DivUnique(V, Pow(10, nd), 0, V);
  }

  // ---- building the expansion ----

  /** V * 10^dexp is m * 2^e. */
  ghost predicate Exact(V: nat, dexp: int, m: nat, e: int) {
    dexp <= 0 && V * Pow2(Neg(e)) == m * Pow2(Plus(e)) * Pow(10, -dexp)
  }

  function Plus(x: int): nat { if x >= 0 then x else 0 }

  function Neg(x: int): nat { if x >= 0 then 0 else -x }

  /** Removing trailing zero bits. */
  method StripZeros(m0: nat, e0: int) returns (m: nat, e: int)
    requires m0 > 0
    ensures m > 0 && m <= m0 && e >= e0 && m0 == m * Pow2(e - e0)
  {
    m, e := m0, e0;
    while m % 2 == 0
      invariant m > 0 && m <= m0 && e >= e0 && m0 == m * Pow2(e - e0)
      decreases m
    {
      HalveArith(m, e - e0, m0);
      m, e := m / 2, e + 1;
    }
  }

  lemma HalveArith(m: nat, k: nat, m0: nat)
    requires m % 2 == 0 && m0 == m * Pow2(k)
    ensures m0 == m / 2 * Pow2(k + 1)
  {
    assert Pow2(k + 1) == 2 * Pow2(k);
    hide Pow;
    assert m == m / 2 * 2;
    MulAssoc(m / 2, 2, Pow2(k));
  }

  lemma ExactUp(V: nat, m: nat, e: int, m0: nat, e0: int)
    requires e >= e0 && e >= 0 && m0 == m * Pow2(e - e0) && V == m * Pow2(e)
    ensures Exact(V, 0, m0, e0)
  {
    hide Pow;
    TenZero();
    TwoZero();
    if e0 >= 0 {
      PowAdd(2, e - e0, e0);
      MulAssoc(m, Pow2(e - e0), Pow2(e0));
    } else {
      PowAdd(2, e, -e0);
      MulAssoc(m, Pow2(e), Pow2(-e0));
    }
  }

  lemma ExactDown(V: nat, m: nat, k: nat, m0: nat, e0: int)
    requires e0 + k <= 0 && k > 0 && m0 == m * Pow2(0 - e0 - k) && V == m * Pow(5, k)
    ensures Exact(V, 0 - k, m0, e0)
  {
    hide Pow;
    TwoZero();
    PowTimes(2, 5, k);
    PowAdd(2, k, 0 - e0 - k);
    DownArith(m, Pow(5, k), Pow2(k), Pow2(0 - e0 - k));
  }

  lemma DownArith(m: nat, f: nat, g: nat, h: nat)
    ensures m * f * (g * h) == m * h * (g * f)
  {
    MulAssoc(m, f, g * h); MulAssoc(f, g, h); MulComm(f, g); MulComm(g * f, h); MulAssoc(m, h, g * f);
  }

  /** Carrying on past the top limb. */
  ghost predicate Carrying(r: seq<DecLimb>, c: nat, total: nat) { Num(r) + c * Pow(LIMB, |r|) == total }

  lemma CarryingStep(r: seq<DecLimb>, c: nat, total: nat, len: nat)
    requires Carrying(r, c, total) && c > 0 && total < Pow(LIMB, len)
    ensures |r| < len && Carrying(r + [c % LIMB], c / LIMB, total) && c / LIMB < c
    ensures c / LIMB == 0 ==> Normal(r + [c % LIMB])
  {
    hide Val; hide Pow;
    MulMono(1, c, Pow(LIMB, |r|), Pow(LIMB, |r|));
    if |r| >= len { PowMono(LIMB, len, |r|); assert false; }
    ValSnoc(LIMB, r, c % LIMB);
    PowNext(LIMB, |r|);
    CarryArith(LIMB, Num(r), c, Pow(LIMB, |r|), 0, 0, 0, total, c);
  }

  lemma CarryingEnd(r: seq<DecLimb>, total: nat)
    requires Carrying(r, 0, total)
    ensures Num(r) == total
  {
  }

  lemma CarryingStart(r: seq<DecLimb>, c: nat, s: seq<DecLimb>, m: nat)
    requires Multiplied(LIMB, r, c, s, m, 0) && m > 0 && Normal(s)
    ensures Carrying(r, c, m * Num(s)) && (c == 0 ==> Normal(r))
  {
    hide Val; hide Pow;
    if c == 0 && s != [] {
      ValNormal(LIMB, s);
      MulAtLeast(Num(s), m);
      TopNonzero(LIMB, r);
    }
  }

  /** The expansion that src/vfprintf.c prints from. */
  class Expansion {
    var L: array<DecLimb>
    var n: nat
    var nd: nat
    var E0: int
    var E: int
    var K: int
    var r: int
    var carry: bool

    constructor ()
      ensures fresh(L) && L.Length == MAX_LIMBS && n == 0
    {
      L := new DecLimb[MAX_LIMBS](_ => 0);
      n, nd, E0, E, K, r, carry := 0, 0, 0, 0, 0, -1, false;
    }

    ghost function V(): nat
      requires n <= L.Length
      reads this, L
    {
      Num(L[..n])
    }

    /** nd counts the digits. */
    ghost predicate Valid()
      reads this, L
    {
      L.Length == MAX_LIMBS && n <= L.Length && nd <= 9 * n && nd > 0 && V() < Pow(10, nd)
    }

    /** `big_mul`. */
    method Mul(m: nat)
      requires n <= L.Length && 0 < m < 0x1_0000_0000 && m * V() < Pow(LIMB, L.Length) && Normal(L[..n])
      modifies this`n, L
      ensures n <= L.Length && V() == m * old(V()) && Normal(L[..n])
    {
      hide Pow; hide Val; hide Num; hide Multiplied; hide Carrying; hide Normal;
      ghost var s := L[..n];
      ghost var k := n;
      var c: nat := 0;
      MultipliedStart(LIMB, m, 0);
      assert L[..0] == s[..0] == [];
      for i := 0 to n
        invariant n == k && |s| == k <= L.Length && L[i..k] == s[i..]
        invariant Multiplied(LIMB, L[..i], c, s[..i], m, 0)
      {
        assert L[i] == L[i..k][0] == s[i];
        var t: nat := TimesPlus(L[i], m, c);
        MultipliedStep(LIMB, L[..i], c, s[..i], m, 0, L[i], t);
        Put(L, i, t % LIMB, s);
        c := t / LIMB;
      }
      assert s[..k] == s;
      CarryingStart(L[..n], c, s, m);
      while c != 0
        invariant n <= L.Length && Carrying(L[..n], c, m * old(V())) && (c == 0 ==> Normal(L[..n]))
        decreases c
      {
        CarryingStep(L[..n], c, m * old(V()), L.Length);
        ghost var low := L[..n];
        L[n] := c % LIMB;
        n := n + 1;
        assert L[..n] == low + [L[n - 1]];
        c := c / LIMB;
      }
      CarryingEnd(L[..n], m * old(V()));
    }

    /** The limbs of a machine word. */
    method Load(m0: nat)
      requires L.Length == MAX_LIMBS && 0 < m0 < Pow2(64)
      modifies this`n, L
      ensures n <= L.Length && V() == m0 && Normal(L[..n])
    {
      hide Pow; hide Val; hide Num; hide Carrying; hide Normal;
      n := 0;
      var m: nat := m0;
      LoadStart(m0);
      assert L[..n] == [];
      Fits(m0, 64);
      while m != 0
        invariant n <= L.Length && Carrying(L[..n], m, m0) && (m == 0 ==> Normal(L[..n]))
        decreases m
      {
        CarryingStep(L[..n], m, m0, L.Length);
        ghost var low := L[..n];
        L[n] := m % LIMB;
        n := n + 1;
        assert L[..n] == low + [L[n - 1]];
        m := m / LIMB;
      }
      CarryingEnd(L[..n], m0);
    }

    /** Multiply by b^k, in steps of b^j. */
    method MulPower(b: nat, j: nat, k0: nat)
      requires n <= L.Length && Normal(L[..n]) && 0 < b && 0 < j && Pow(b, j) < 0x1_0000_0000
      requires Pow(b, k0) * V() < Pow(LIMB, L.Length)
      modifies this`n, L
      ensures n <= L.Length && Normal(L[..n]) && V() == Pow(b, k0) * old(V())
    {
      hide Pow; hide Val; hide Num; hide Normal;
      var k := k0;
      ghost var v0 := V();
      PowerStart(b, v0);
      while k >= j
        invariant 0 <= k <= k0 && n <= L.Length && Normal(L[..n]) && V() == Pow(b, k0 - k) * v0
      {
        PowerStep(b, k0 - k, j, k0, v0, Pow(LIMB, L.Length));
        Mul(Pow(b, j));
        k := k - j;
      }
      PowerStep(b, k0 - k, k, k0, v0, Pow(LIMB, L.Length));
      PowMono(b, k, j);
      Mul(Pow(b, k));
    }

    /** `dec_init`: the expansion of m0 * 2^e0, exactly, in the limbs there are. */
    method Init(m0: nat, e0: int) returns (ghost dexp: int)
      requires L.Length == MAX_LIMBS && m0 < Pow2(64) && -16445 <= e0 <= 16320
      modifies this, L
      ensures L == old(L) && Valid() && Exact(V(), dexp, m0, e0) && -16445 <= dexp <= 0
      ensures if m0 == 0 then nd == 1 && E0 == 1 && V() == 0 else E0 == nd + dexp && V() >= Pow(10, nd - 1)
      ensures E == E0 && r == -1 && !carry && K >= nd
    {
      hide Pow; hide Val; hide Num; hide Exact; hide Normal;
      r, carry := -1, false;
      if m0 == 0 {
        L[0] := 0;
        n, nd, E0, E := 1, 1, 1, 1;
        K := 0x7fff_ffff;
        assert L[..1] == [0];
        ZeroExpansion(e0);
        return 0;
      }
      var m, e := StripZeros(m0, e0);
      Load(m);
      var d := 0;
      if e >= 0 {
        InitUp(m, e, m0, e0);
        TwoSmall();
        MulPower(2, 29, e);
        MulComm(Pow2(e), m);
        ExactUp(V(), m, e, m0, e0);
      } else {
        d := e;
        InitDown(m, -e);
        FiveSmall();
        MulPower(5, 13, -e);
        MulComm(Pow(5, -e), m);
        ExactDown(V(), m, -e, m0, e0);
      }
      dexp := d;
      NonEmpty(L[..n], m, if e >= 0 then Pow2(e) else Pow(5, -e));
      nd := CountDigits();
      E0 := nd + d;
      E := E0;
      K := 0x7fff_ffff;
    }

    /** The number of digits, from the top limb. */
    method CountDigits() returns (nd: nat)
      requires 0 < n <= L.Length && Normal(L[..n])
      ensures 0 < nd <= 9 * n && Pow(10, nd - 1) <= V() < Pow(10, nd)
    {
      hide Pow; hide Val;
      var top := 1;
      TenZero();
      while top < 9 && L[n - 1] >= Pow(10, top)
        invariant 1 <= top <= 9 && L[n - 1] >= Pow(10, top - 1)
      {
        top := top + 1;
      }
      TenNine();
      nd := top + 9 * (n - 1);
      CountedDigits(L[..n], top);
    }

    /** `dig`: digit i from the top, zero outside the number. */
    function Dig(i: int): (x: Digit)
      requires Valid()
      reads this, L
      ensures x == DigAt(V(), nd, i)
    {
      if i < 0 || i >= nd then 0
      else
        var j := nd - 1 - i;
        LimbDigit(L[..n], j);
        L[j / 9] / Pow(10, j % 9) % 10
    }

    /** `sticky_after`. */
    method StickyAfter(i: nat) returns (b: bool)
      requires Valid() && i < nd
      ensures b == NonzeroAfter(V(), nd, i)
    {
      hide Pow; hide Val; hide Num; hide NonzeroAfter; hide Dig;
      LastDigit(V(), nd);
      var k := i + 1;
      while k < nd
        invariant i < k <= nd && (NonzeroAfter(V(), nd, i) <==> NonzeroAfter(V(), nd, k - 1))
      {
        NextDigit(V(), nd, k);
        if Dig(k) != 0 { return true; }
        k := k + 1;
      }
      b := false;
    }

    /** Does dropping the digits from K0 on round up? */
    method RoundsUp(K0: nat) returns (up: bool)
      requires Valid() && K0 < nd
      ensures RoundsBy(V(), nd, K0, up)
    {
      hide Pow; hide Val; hide Num; hide RoundedTo; hide DigAt; hide NonzeroAfter; hide Dig;
      RoundDecision(V(), nd, K0);
      var h := Dig(K0);
      var sticky := StickyAfter(K0);
      up := h > 5 || (h == 5 && (sticky || (K0 > 0 && Dig(K0 - 1) % 2 == 1)));
    }

    /** `dec_round`: keep K significant digits. */
    method Round(K0: int)
      requires Valid()
      modifies this`K, this`r, this`carry, this`E
      ensures Valid() && K == K0 && RoundState(V(), nd, K, r, carry) && E == E0 + if carry then 1 else 0
    {
      hide Pow; hide Val; hide Num; hide RoundState; hide RoundedTo; hide DigAt; hide Nines; hide Dig; hide RoundsBy;
      ghost var v, s := V(), L[..n];
      K, r, carry, E := K0, -1, false, E0;
      assert L[..n] == s && V() == v && Valid();
      if K0 >= nd { RoundNothing(v, nd, K0); return; }
      if K0 < 0 { RoundAway(v, nd, K0); RoundToZero(v, nd, K0); return; }
      var up := RoundsUp(K0);
      if !up { RoundDown(v, nd, K0); return; }
      var i := LastBelowNine(K0);
      RoundUp(v, nd, K0, i);
      if i < 0 {
        carry, E := true, E + 1;
      } else {
        r := i;
      }
      assert L[..n] == s && V() == v;
    }

    /** The last digit before K0 that is not a nine, or -1. */
    method LastBelowNine(K0: nat) returns (i: int)
      requires Valid() && K0 < nd
      ensures Nines(V(), nd, K0, i) && (i >= 0 ==> DigAt(V(), nd, i) != 9)
    {
      hide Pow; hide Val; hide Num; hide DigAt; hide Nines; hide Dig;
      i := K0 - 1;
      NinesStart(V(), nd, K0);
      while i >= 0 && Dig(i) == 9
        invariant -1 <= i < K0 && Nines(V(), nd, K0, i)
      {
        NinesStep(V(), nd, K0, i);
        i := i - 1;
      }
    }

    /** `rdig`: digit i of the rounded value. */
    function RDig(i: int): (x: int)
      requires Valid()
      reads this, L
      ensures x == RDigAt(V(), nd, K, r, carry, i)
    {
      if carry then (if i == 0 then 1 else 0)
      else if i < 0 || i >= K then 0
      else if r >= 0 && i >= r then (if i == r then Dig(i) + 1 else 0)
      else Dig(i)
    }
  }

  function TimesPlus(x: nat, m: nat, c: nat): nat { x * m + c }

  lemma LoadStart(m: nat)
    ensures Carrying([], m, m)
  {
  }

  lemma PowerStart(b: nat, v: nat)
    ensures v == Pow(b, 0) * v
  {
  }

  lemma PowerStep(b: nat, i: nat, j: nat, k: nat, v: nat, top: nat)
    requires b > 0 && i + j <= k && Pow(b, k) * v < top
    ensures Pow(b, j) * (Pow(b, i) * v) == Pow(b, i + j) * v < top
  {
    hide Pow;
    PowAdd(b, j, i);
    MulAssoc(Pow(b, j), Pow(b, i), v);
    PowMono(b, i + j, k);
    MulMono(Pow(b, i + j), Pow(b, k), v, v);
  }

  lemma NonEmpty(s: seq<DecLimb>, m: nat, g: nat)
    requires Num(s) == g * m && g > 0 && m > 0
    ensures s != []
  {
    MulStrict(g, 0, m);
  }

  lemma ZeroExpansion(e0: int)
    ensures Num([0]) == 0 < Pow(10, 1) && Exact(0, 0, 0, e0)
  {
    assert [0][..0] == [];
  }

  /** Scaling up: at most 64 + 16320 bits. */
  lemma InitUp(m: nat, e: nat, m0: nat, e0: int)
    requires 0 < m && e >= e0 && m0 == m * Pow2(e - e0) && m0 < Pow2(64) && e0 <= 16320
    ensures Pow2(e) * m < Pow(LIMB, MAX_LIMBS)
  {
    hide Pow;
    if e0 >= 0 {
      PowAdd(2, e - e0, e0);
      MulComm(Pow2(e), m); MulAssoc(m, Pow2(e - e0), Pow2(e0));
      PowAdd(2, 64, e0);
      MulStrict(Pow2(e0), m0, Pow2(64)); MulComm(Pow2(e0), m0); MulComm(Pow2(e0), Pow2(64));
      Fits(m0 * Pow2(e0), 64 + e0);
    } else {
      PowMono(2, e, e - e0);
      MulMono(m, m, Pow2(e), Pow2(e - e0)); MulComm(Pow2(e), m);
      Fits(Pow2(e) * m, 64);
    }
  }

  /** Scaling down: m * 5^k with k at most 16445. */
  lemma InitDown(m: nat, k: nat)
    requires m < Pow2(64) && k <= 16445
    ensures Pow(5, k) * m < Pow(LIMB, MAX_LIMBS)
  {
    hide Pow;
    FiveEight(k);
    PowMono(2, 3 * k, 49335);
    PowAdd(2, 49335, 64);
    MulMono(Pow(5, k), Pow2(49335), m, m);
    MulStrict(Pow2(49335), m, Pow2(64));
    Fits(Pow(5, k) * m, 49399);
  }

  lemma TwoSmall()
    ensures Pow2(29) < 0x1_0000_0000
  {
    assert Pow2(8) == 256 && Pow2(5) == 32;
    PowAdd(2, 8, 8); PowAdd(2, 16, 8); PowAdd(2, 24, 5);
  }

  lemma FiveSmall()
    ensures Pow(5, 13) == 1220703125
  {
    assert Pow(5, 4) == 625 && Pow(5, 5) == 3125;
    PowAdd(5, 4, 4); PowAdd(5, 8, 5);
  }

  lemma CountedDigits(s: seq<DecLimb>, top: nat)
    requires s != [] && 1 <= top <= 9 && Pow(10, top - 1) <= s[|s| - 1] < Pow(10, top)
    ensures var nd := top + 9 * (|s| - 1); Pow(10, nd - 1) <= Num(s) < Pow(10, nd)
  {
    var n, t := |s| - 1, s[|s| - 1];
    assert Num(s) == Num(s[..n]) + t * Pow(LIMB, n);
    hide Pow; hide Val;
    ValBound(LIMB, s[..n]);
    LimbPow(n);
    PowAdd(10, top - 1, 9 * n); PowAdd(10, top, 9 * n);
    MulMono(Pow(10, top - 1), t, Pow(LIMB, n), Pow(LIMB, n));
    TopBound(Pow(10, top), Num(s[..n]), t, Pow(LIMB, n));
  }

  lemma LastDigit(V: nat, nd: nat)
    requires nd > 0
    ensures !NonzeroAfter(V, nd, nd - 1)
  {
    assert Pow(10, 0) == 1;
  }

  lemma NextDigit(V: nat, nd: nat, k: nat)
    requires 0 < k < nd
    ensures NonzeroAfter(V, nd, k - 1) <==> DigAt(V, nd, k) != 0 || NonzeroAfter(V, nd, k)
  {
    hide Pow;
    SplitDigit(V, nd - 1 - k);
    var g, x := Pow(10, nd - 1 - k), DigAt(V, nd, k);
    if x != 0 { MulMono(1, x, g, g); }
  }

  lemma RoundNothing(V: nat, nd: nat, K: int)
    requires K >= nd
    ensures RoundState(V, nd, K, -1, false)
  {
  }

  lemma RoundToZero(V: nat, nd: nat, K: int)
    requires K < 0 && RoundedTo(V, nd, K) == 0
    ensures RoundState(V, nd, K, -1, false)
  {
  }

  lemma RoundDown(V: nat, nd: nat, K: nat)
    requires RoundsBy(V, nd, K, false)
    ensures RoundState(V, nd, K, -1, false)
  {
  }

  lemma RoundUp(V: nat, nd: nat, K: nat, i: int)
    requires V < Pow(10, nd) && RoundsBy(V, nd, K, true)
    requires Nines(V, nd, K, i) && (i >= 0 ==> DigAt(V, nd, i) != 9)
    ensures if i < 0 then RoundState(V, nd, K, -1, true) else RoundState(V, nd, K, i, false)
  {
    hide Pow; hide RoundedTo;
    if i < 0 { NinesCarry(V, nd, K); }
  }
}
