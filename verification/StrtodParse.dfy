/** `parse` of src/strtod.c: from text to a correctly rounded number. */
module StrtodParse {
  import opened Powers
  import opened Rounding
  import opened StrtodRound
  import opened StrtodDecimal
  import opened StrtodExact
  import opened StrtodMain
  import opened StrtodText

  // ---- decimal significands ----

  /** What the scanner holds of the digits A: the first 800 that count, and a flag for the rest. */
  ghost predicate Scanned(A: seq<Digit>, kept: seq<Digit>, sticky: bool, j: nat) {
    && |kept| <= MAX_DIGITS && (kept != [] ==> kept[0] != 0) && (j > 0 ==> |kept| == MAX_DIGITS) && (sticky ==> j > 0)
    && HeldPart(Dec(A), Dec(kept), Pow(10, j), sticky)
  }

  predicate HeldPart(N: nat, v: nat, g: nat, sticky: bool) {
    if sticky then v * g < N < (v + 1) * g else N == v * g
  }

  lemma ScanZero(A: seq<Digit>)
    requires Scanned(A, [], false, 0)
    ensures Scanned(A + [0], [], false, 0)
  {
    DecSnoc(A, 0);
  }

  lemma ScanKeep(A: seq<Digit>, kept: seq<Digit>, sticky: bool, j: nat, x: Digit)
    requires Scanned(A, kept, sticky, j) && |kept| < MAX_DIGITS && (kept == [] ==> x != 0)
    ensures j == 0 && Scanned(A + [x], kept + [x], sticky, j)
  {
    DecSnoc(A, x); DecSnoc(kept, x);
  }

  lemma ScanDrop(A: seq<Digit>, kept: seq<Digit>, sticky: bool, j: nat, x: Digit)
    requires Scanned(A, kept, sticky, j) && |kept| == MAX_DIGITS
    ensures Scanned(A + [x], kept, sticky || x != 0, j + 1)
  {
    DecSnoc(A, x);
    assert Pow(10, j + 1) == 10 * Pow(10, j);
    hide Pow; hide Dec;
    DropArith(Dec(A), Dec(kept), Pow(10, j), sticky, x, 10);
  }

  lemma DropArith(N: nat, v: nat, g: nat, sticky: bool, x: nat, b: nat)
    requires g > 0 && x < b && HeldPart(N, v, g, sticky)
    ensures HeldPart(N * b + x, v, b * g, sticky || x != 0)
  {
    assert v * (b * g) == b * (v * g) by { MulAssoc(v, b, g); MulComm(v, b); MulAssoc(b, v, g); }
    assert (v + 1) * (b * g) == b * ((v + 1) * g) by {
      MulAssoc(v + 1, b, g);
      MulComm(v + 1, b);
      MulAssoc(b, v + 1, g);
    }
    MulComm(N, b);
    if sticky {
      MulStrict(b, v * g, N);
    } else {
      MulDistr(g, v, 1); MulComm(g, v); MulComm(g, v + 1);
    }
    MulMono(b, b, N + 1, (v + 1) * g); MulDistr(b, N, 1);
  }

  /** The scanning loop: digits into the buffer, the scale and the flag. */
  method ScanSignificand(s: string, i: nat)
    returns (digits: array<Digit>, nd: nat, q: int, sticky: bool, k: nat, any: bool, ghost j: nat)
    requires i <= |s|
    ensures fresh(digits) && digits.Length == MAX_DIGITS && nd <= MAX_DIGITS && SignificandAt(s, i, k, false)
    ensures Scanned(Digits(s[i..k]), digits[..nd], sticky, j) && q == j - Frac(s[i..k])
    ensures any <==> Digits(s[i..k]) != []
  {
    hide Significand; hide Scanned; hide Digits; hide Frac;
    digits := new Digit[MAX_DIGITS];
    nd, q, sticky, any, k, j := 0, 0, false, false, i, 0;
    var dot := false;
    ghost var kept: seq<Digit> := [];
    ScanStart(s, i);
    while k < |s| && ((s[k] == '.' && !dot) || IsDigit(s[k]))
      invariant i <= k <= |s| && nd <= MAX_DIGITS && (dot <==> '.' in s[i..k]) && Significand(s[i..k], false)
      invariant kept == digits[..nd]
      invariant Scanned(Digits(s[i..k]), kept, sticky, j) && q == j - Frac(s[i..k])
      invariant any <==> Digits(s[i..k]) != []
      decreases |s| - k
    {
      ghost var m, A := s[i..k], Digits(s[i..k]);
      assert s[i..k + 1] == m + [s[k]];
      DigitsSnoc(m, s[k]);
      SignificandGrows(m, false, s[k]);
      NoPoint(m);
      if s[k] == '.' {
        dot := true;
      } else {
        var x := DigitOf(s[k]);
        any := true;
        ScannedFacts(A, kept, sticky, j);
        if x == 0 && nd == 0 {
          ScanZero(A);
          if dot { q := q - 1; }
        } else if nd < MAX_DIGITS {
          ScanKeep(A, kept, sticky, j, x);
          digits[nd] := x;
          nd := nd + 1;
          assert digits[..nd] == kept + [x];
          kept := kept + [x];
          if dot { q := q - 1; }
        } else {
          ScanDrop(A, kept, sticky, j, x);
          sticky := sticky || x != 0;
          j := j + 1;
          if !dot { q := q + 1; }
        }
      }
      k := k + 1;
    }
  }

  lemma ScanStart(s: string, i: nat)
    requires i <= |s|
    ensures s[i..i] == [] && Significand(s[i..i], false) && Significand(s[i..i], true)
    ensures Digits(s[i..i]) == [] && HexDigits(s[i..i]) == [] && Frac(s[i..i]) == 0 && Scanned([], [], false, 0)
  {
    assert s[i..i] == [];
    assert OfDigits([], false) && OfDigits([], true);
  }

  lemma NoPoint(m: string)
    ensures '.' !in m ==> Frac(m) == 0
  {
  }

  lemma ScannedFacts(A: seq<Digit>, kept: seq<Digit>, sticky: bool, j: nat)
    requires Scanned(A, kept, sticky, j)
    ensures |kept| < MAX_DIGITS ==> !sticky && j == 0
    ensures kept != [] ==> kept[0] != 0
  {
  }

  // ---- exponents ----

  /** The scanner stops accumulating an exponent beyond 10^8: nine digits of it remain. */
  function Clipped(X: int): int { if X < 0 then -Leading(-X) else Leading(X) }

  function Leading(n: nat): int { if n < 1_000_000_000 then n else Leading(n / 10) }

  method ScanExponent(s: string, k: nat, letter: char) returns (x: int, e: nat)
    requires k <= |s|
    ensures exists X: int :: ExpAt(s, k, letter, e, X) && x == Clipped(X)
  {
    hide Digits; hide Dec;
    x, e := 0, k;
    ghost var X: int := 0;
    if k < |s| && Lower(s[k]) == letter {
      var p := k + 1;
      var eneg := false;
      if p < |s| && IsSign(s[p]) {
        eneg := s[p] == '-';
        p := p + 1;
      }
      if p < |s| && IsDigit(s[p]) {
        var a, p' := ScanExpDigits(s, p);
        X := Dec(Digits(s[p..p']));
        x := a;
        if eneg { x, X := -x, -X; }
        e := p';
      }
    }
    assert ExpAt(s, k, letter, e, X) && x == Clipped(X);
  }

  method ScanExpDigits(s: string, b: nat) returns (a: nat, p: nat)
    requires b < |s| && IsDigit(s[b])
    ensures b < p <= |s| && OfDigits(s[b..p], false) && (p < |s| ==> !IsDigit(s[p]))
    ensures a == Leading(Dec(Digits(s[b..p])))
  {
    hide Digits; hide Dec;
    a, p := 0, b;
    NoExpDigits(s, b);
    while p < |s| && IsDigit(s[p])
      invariant b <= p <= |s| && OfDigits(s[b..p], false)
      invariant a == Leading(Dec(Digits(s[b..p])))
    {
      assert s[b..p + 1] == s[b..p] + [s[p]];
      DigitsSnoc(s[b..p], s[p]);
      DecSnoc(Digits(s[b..p]), DigitOf(s[p]));
      LeadingStep(Dec(Digits(s[b..p])), DigitOf(s[p]));
      if a < 100_000_000 { a := a * 10 + DigitOf(s[p]); }
      p := p + 1;
    }
  }

  lemma {:induction false} LeadingStep(n: nat, x: Digit)
    ensures Leading(n) >= 100_000_000 <==> n >= 100_000_000
    ensures Leading(n * 10 + x) == if Leading(n) < 100_000_000 then Leading(n) * 10 + x else Leading(n)
  {
    if n >= 1_000_000_000 { LeadingStep(n / 10, n % 10); }
    assert (n * 10 + x) / 10 == n;
  }

  lemma NoExpDigits(s: string, b: nat)
    requires b <= |s|
    ensures s[b..b] == [] && Dec(Digits(s[b..b])) == 0
  {
    assert s[b..b] == [];
    assert Digits(s[b..b]) == [];
  }

  // ---- the decimal branch ----

  /** The digits of N beyond the first 800. */
  function Excess(N: nat): nat { if N < Pow(10, MAX_DIGITS) then 0 else 1 + Excess(N / 10) }

  /** Not all of these are zero. */
  predicate Cut(N: nat) { N % Pow(10, Excess(N)) != 0 }

  /** What N * 10^q is read as, in units: a long double is rounded as if just above the first 800 digits. */
  function ReadValue(F: Format, N: nat, q: int): nat
    requires F.Valid()
  {
    if F == LDBL && Cut(N) then Above(F, N / Pow(10, Excess(N)), q + Excess(N)) else Rounded(F, N, q)
  }

  lemma {:induction false} ExcessBounds(N: nat)
    ensures var e := Excess(N); N < Pow(10, 800 + e) && (e > 0 ==> N >= Pow(10, 799 + e))
    decreases N
  {
    hide Pow;
    TenPositive(MAX_DIGITS);
    if N >= Pow(10, MAX_DIGITS) {
      var e := Excess(N / 10);
      ExcessBounds(N / 10);
      PowNext(10, 800 + e); PowNext(10, 799 + e); PowNext(10, 799);
      if e == 0 { DivBounds(N, 10, Pow(10, 799)); }
      MulMono(10, 10, N / 10 + 1, Pow(10, 800 + e));
    }
  }

  lemma TenPositive(k: nat)
    ensures Pow(10, k) > 0
  {
  }

  lemma ExcessIs(N: nat, j: nat)
    requires N < Pow(10, 800 + j) && (j > 0 ==> N >= Pow(10, 799 + j))
    ensures Excess(N) == j
  {
    hide Pow; hide Excess;
    ExcessBounds(N);
    var e := Excess(N);
    if e < j { PowMono(10, 800 + e, 799 + j); } else if e > j { PowMono(10, 800 + j, 799 + e); }
  }

  /** Up to 800 digits and zeros are not cut. */
  lemma Uncut(w: nat, y: nat)
    requires w < Pow(10, MAX_DIGITS)
    ensures !Cut(w * Pow(10, y))
  {
    hide Pow; hide Excess;
    var N := w * Pow(10, y);
    var e := Excess(N);
    ExcessBounds(N);
    PowAdd(10, 800, y);
    MulStrict(Pow(10, y), w, Pow(10, 800)); MulComm(Pow(10, y), w); MulComm(Pow(10, y), Pow(10, 800));
    if e > y { PowMono(10, 800 + y, 799 + e); }
    PowAdd(10, y - e, e);
    MulAssoc(w, Pow(10, y - e), Pow(10, e)); MulComm(w * Pow(10, y - e), Pow(10, e));
    DivUnique(N, Pow(10, e), w * Pow(10, y - e), 0);
  }

  /** What was scanned says what is cut. */
  lemma ScannedValue(digits: seq<Digit>, sticky: bool, F: Format, N: nat, z: nat, j: nat, q: int)
    requires F.Valid() && Kept(digits, sticky, N, z, j)
    ensures ReadValue(F, N, q) ==
            if F == LDBL && sticky then Above(F, Dec(digits) * Pow(10, z), q + j) else Rounded(F, N, q)
  {
    hide Pow; hide Excess; hide Above; hide Rounded; hide Dec;
    var V, g := Dec(digits) * Pow(10, z), Pow(10, j);
    if sticky {
      KeptBounds(digits, sticky, N, z, j);
      ExcessIs(N, j);
      MulDistr(g, V, 1); MulComm(g, V); MulComm(g, V + 1);
      DivUnique(N, g, V, N - g * V);
    } else {
      FewDigits(digits);
      PowAdd(10, z, j); MulAssoc(Dec(digits), Pow(10, z), g);
      Uncut(Dec(digits), z + j);
    }
  }

  lemma FewDigits(digits: seq<Digit>)
    requires |digits| <= MAX_DIGITS
    ensures Dec(digits) < Pow(10, MAX_DIGITS)
  {
    hide Pow; hide Dec;
    DecBounds(digits);
    PowMono(10, |digits|, MAX_DIGITS);
  }

  /** Dropping the trailing zeros of the kept digits. */
  method DropZeros(digits: array<Digit>, nd0: nat) returns (nd: nat, z: nat)
    requires nd0 <= digits.Length && (nd0 > 0 ==> digits[0] != 0)
    ensures nd <= nd0 && nd + z == nd0 && (nd0 > 0 ==> nd > 0) && Dec(digits[..nd]) * Pow(10, z) == Dec(digits[..nd0])
  {
    hide Pow; hide Dec;
    nd, z := nd0, 0;
    TenZero();
    while nd > 0 && digits[nd - 1] == 0
      invariant nd <= nd0 && nd + z == nd0 && (nd0 > 0 ==> nd > 0)
          && Dec(digits[..nd]) * Pow(10, z) == Dec(digits[..nd0])
    {
      ZeroDropped(digits[..nd], z);
      assert digits[..nd][..nd - 1] == digits[..nd - 1];
      nd, z := nd - 1, z + 1;
    }
  }

  lemma ZeroDropped(s: seq<Digit>, z: nat)
    requires s != [] && s[|s| - 1] == 0
    ensures Dec(s[..|s| - 1]) * Pow(10, z + 1) == Dec(s) * Pow(10, z)
  {
    var v := Dec(s[..|s| - 1]);
    assert Dec(s) == v * 10;
    assert Pow(10, z + 1) == 10 * Pow(10, z);
    hide Dec; hide Pow;
    MulAssoc(v, 10, Pow(10, z));
  }

  /** r is the decimal whose significand is s[i..k] and whose exponent, X, ends at end, as it is read. */
  ghost predicate DecimalRead(s: string, i: nat, neg: bool, F: Format, r: Float, end: nat, any: bool, k: nat, X: int)
    requires F.Valid() && i <= |s|
  {
    && SignificandAt(s, i, k, false) && (any <==> Digits(s[i..k]) != [])
    && (any ==>
          && ExpAt(s, k, 'e', end, X)
          && IsUnits(F, r, ReadValue(F, Dec(Digits(s[i..k])), Clipped(X) - Frac(s[i..k])), neg))
  }

  method ParseDecimal(s: string, i: nat, neg: bool, F: Format) returns (r: Float, end: nat, any: bool)
    requires IsFormat(F) && i <= |s|
    ensures F.Valid() && exists k: nat, X: int :: DecimalRead(s, i, neg, F, r, end, any, k, X)
  {
    hide Significand; hide Scanned; hide Digits; hide Frac; hide Dec; hide Pow; hide IsUnits; hide Rounded;
    hide Clipped;
    hide ReadValue; hide Above;
    FormatValid(F);
    var digits, nd0, q, sticky, k, any', j := ScanSignificand(s, i);
    r, end, any := Fin(false, 0, 0), 0, any';
    ghost var X: int := 0;
    if any {
      ghost var A, f := Digits(s[i..k]), Frac(s[i..k]);
      var x;
      x, end := ScanExponent(s, k, 'e');
      X :| ExpAt(s, k, 'e', end, X) && x == Clipped(X);
      ScannedFacts(A, digits[..nd0], sticky, j);
      assert nd0 > 0 ==> digits[..nd0][0] == digits[0];
      var nd, z := DropZeros(digits, nd0);
      assert nd > 0 ==> digits[..nd][0] == digits[0];
      ScannedKept(A, digits[..nd0], sticky, j, digits[..nd], z);
      r := Decimal(digits[..nd], q + z + x, sticky, F, neg, Dec(A), z, j);
      ScannedValue(digits[..nd], sticky, F, Dec(A), z, j, x - f);
    }
    assert DecimalRead(s, i, neg, F, r, end, any, k, X);
  }

  lemma ScannedKept(A: seq<Digit>, kept: seq<Digit>, sticky: bool, j: nat, digits: seq<Digit>, z: nat)
    requires Scanned(A, kept, sticky, j) && (digits != [] ==> digits[0] != 0) && |digits| + z == |kept|
    requires (kept != [] ==> digits != []) && Dec(digits) * Pow(10, z) == Dec(kept)
    ensures Kept(digits, sticky, Dec(A), z, j)
  {
    hide Pow; hide Dec;
  }

  lemma ZeroRounded(F: Format, q: int)
    requires F.Valid()
    ensures Rounded(F, 0, q) == 0
  {
    hide Pow;
    RoundTiny(F, 0, DecimalD(q));
    assert DecimalX(F, 0, q) == 0;
  }

  // ---- the hexadecimal branch ----

  /** n * 2^E, correctly rounded, in units. */
  function BinaryRounded(F: Format, n: nat, E: int): nat
    requires F.Valid()
  {
    Round(F, UnitsNum(F, n, E), UnitsDen(F, 1, E))
  }

  /** What the scanner holds of the digits: up to 31 of them in Q, and a flag for the rest. */
  ghost predicate HexScanned(H: seq<HexDigit>, Q: nat, c: nat, sticky: bool, j: nat) {
    && c <= 31 && Q < Pow(16, c) && (c > 0 ==> Q >= Pow(16, c - 1)) && (j > 0 ==> c == 31) && (sticky ==> j > 0)
    && HeldPart(Hex(H), Q, Pow(16, j), sticky)
  }

  lemma HexZero(H: seq<HexDigit>)
    requires HexScanned(H, 0, 0, false, 0)
    ensures HexScanned(H + [0], 0, 0, false, 0)
  {
    HexSnoc(H, 0);
  }

  lemma HexKeep(H: seq<HexDigit>, Q: nat, c: nat, sticky: bool, j: nat, x: HexDigit)
    requires HexScanned(H, Q, c, sticky, j) && c < 31 && (Q == 0 ==> x != 0)
    ensures j == 0 && HexScanned(H + [x], Q * 16 + x, c + 1, sticky, j)
  {
    HexSnoc(H, x);
  }

  lemma HexDrop(H: seq<HexDigit>, Q: nat, c: nat, sticky: bool, j: nat, x: HexDigit)
    requires HexScanned(H, Q, c, sticky, j) && c == 31
    ensures HexScanned(H + [x], Q, c, sticky || x != 0, j + 1)
  {
    HexSnoc(H, x);
    assert Pow(16, j + 1) == 16 * Pow(16, j);
    hide Pow; hide Hex;
    DropArith(Hex(H), Q, Pow(16, j), sticky, x, 16);
  }

  lemma HexFacts(H: seq<HexDigit>, Q: nat, c: nat, sticky: bool, j: nat)
    requires HexScanned(H, Q, c, sticky, j)
    ensures Q == 0 <==> c == 0
    ensures c == 0 ==> !sticky && j == 0 && Hex(H) == 0
    ensures c < 31 ==> j == 0
  {
  }

  lemma HexStart()
    ensures HexScanned([], 0, 0, false, 0)
  {
  }

  method ScanHex(s: string, i: nat) returns (Q: nat, bits: nat, e: int, sticky: bool, k: nat, ghost j: nat)
    requires i <= |s|
    ensures SignificandAt(s, i, k, true) && bits % 4 == 0 && HexScanned(HexDigits(s[i..k]), Q, bits / 4, sticky, j)
    ensures e == 4 * j - 4 * Frac(s[i..k])
  {
    hide Significand; hide HexScanned; hide HexDigits; hide Frac; hide Hex;
    Q, bits, e, sticky, k, j := 0, 0, 0, false, i, 0;
    var dot := false;
    ScanStart(s, i);
    HexStart();
    while k < |s| && ((s[k] == '.' && !dot) || IsHex(s[k]))
      invariant i <= k <= |s| && (dot <==> '.' in s[i..k]) && Significand(s[i..k], true)
      invariant bits % 4 == 0 && HexScanned(HexDigits(s[i..k]), Q, bits / 4, sticky, j)
          && e == 4 * j - 4 * Frac(s[i..k])
      decreases |s| - k
    {
      ghost var m, H := s[i..k], HexDigits(s[i..k]);
      assert s[i..k + 1] == m + [s[k]];
      DigitsSnoc(m, s[k]);
      SignificandGrows(m, true, s[k]);
      NoPoint(m);
      if s[k] == '.' {
        dot := true;
      } else {
        Q, bits, e, sticky, j := TakeHex(Q, bits, e, sticky, dot, HexOf(s[k]), H, j);
      }
      k := k + 1;
    }
  }

  /** One more digit. */
  method TakeHex(Q: nat, bits: nat, e: int, sticky: bool, dot: bool, x: HexDigit, ghost H: seq<HexDigit>, ghost j: nat)
    returns (Q': nat, bits': nat, e': int, sticky': bool, ghost j': nat)
    requires bits % 4 == 0 && HexScanned(H, Q, bits / 4, sticky, j)
    ensures bits' % 4 == 0 && HexScanned(H + [x], Q', bits' / 4, sticky', j')
    ensures e' - 4 * j' == e - 4 * j - if dot then 4 else 0
  {
    hide HexScanned;
    Q', bits', e', sticky', j' := Q, bits, e, sticky, j;
    HexFacts(H, Q, bits / 4, sticky, j);
    if Q == 0 && x == 0 {
      HexZero(H);
      if dot { e' := e - 4; }
    } else if bits < 124 {
      HexKeep(H, Q, bits / 4, sticky, j, x);
      Q', bits' := Q * 16 + x, bits + 4;
      if dot { e' := e - 4; }
    } else {
      HexBits(bits, H, Q, sticky, j);
      HexDrop(H, Q, bits / 4, sticky, j, x);
      sticky', j' := sticky || x != 0, j + 1;
      if !dot { e' := e + 4; }
    }
  }

  lemma HexBits(bits: nat, H: seq<HexDigit>, Q: nat, sticky: bool, j: nat)
    requires bits >= 124 && HexScanned(H, Q, bits / 4, sticky, j)
    ensures bits / 4 == 31
  {
  }

  /** n / 16^j times 2^(E + 4 j) is n * 2^E. */
  lemma HexRatio(F: Format, n: nat, j: nat, E: int)
    requires F.Valid()
    ensures Round(F, UnitsNum(F, n, E + 4 * j), UnitsDen(F, Pow2(4 * j), E + 4 * j)) == BinaryRounded(F, n, E)
  {
    hide Pow; hide Round;
    var g := Pow2(4 * j);
    if E >= F.emin {
      PowAdd(2, E - F.emin, 4 * j);
      MulAssoc(n, Pow2(E - F.emin), g);
    } else if E + 4 * j >= F.emin {
      PowAdd(2, E + 4 * j - F.emin, F.emin - E);
      MulAssoc(n, Pow2(E + 4 * j - F.emin), Pow2(F.emin - E));
    } else {
      PowAdd(2, 4 * j, F.emin - E - 4 * j);
    }
    RoundRatio(F, UnitsNum(F, n, E + 4 * j), UnitsDen(F, g, E + 4 * j), UnitsNum(F, n, E), UnitsDen(F, 1, E));
  }

  lemma HexOver(F: Format, n: nat, Q: nat, j: nat, E: int)
    requires IsFormat(F) && F.Valid() && Q > 0 && n >= Q * Pow(16, j) && E + 4 * j > 100_000
    ensures BinaryRounded(F, n, E) >= F.Limit()
  {
    hide Pow; hide Round;
    Pow16(j);
    HexRatio(F, n, j, E);
    var s := E + 4 * j - F.emin;
    PowMono(2, F.p + F.emax - F.emin, s);
    MulMono(1, Q, Pow(16, j), Pow(16, j));
    MulMono(Pow2(4 * j), n, Pow2(F.p + F.emax - F.emin), Pow2(s));
    RoundBeyond(F, n * Pow2(s), Pow2(4 * j), F.p + F.emax - F.emin);
  }

  lemma HexUnder(F: Format, n: nat, j: nat, E: int)
    requires IsFormat(F) && F.Valid() && n < Pow2(124) * Pow(16, j) && E + 4 * j < -100_000
    ensures BinaryRounded(F, n, E) == 0
  {
    hide Pow; hide Round;
    Pow16(j);
    HexRatio(F, n, j, E);
    var w := F.emin - E - 4 * j;
    HalfPower(w);
    PowMono(2, 124, w - 1);
    MulMono(Pow2(124), Pow2(w - 1), Pow2(4 * j), Pow2(4 * j));
    MulComm(Pow2(4 * j), 2 * Pow2(w - 1)); MulAssoc(2, Pow2(w - 1), Pow2(4 * j));
    RoundTiny(F, n, Pow2(4 * j) * Pow2(w));
  }

  /** r is the hexadecimal number whose significand is s[i..k] and whose exponent, X, ends at end, as it
      is read: with nine digits of its exponent, correctly rounded. */
  ghost predicate HexRead(s: string, i: nat, neg: bool, F: Format, r: Float, end: nat, k: nat, X: int)
    requires F.Valid() && i <= |s|
  {
    && SignificandAt(s, i, k, true) && ExpAt(s, k, 'p', end, X)
    && IsUnits(F, r, BinaryRounded(F, Hex(HexDigits(s[i..k])), Clipped(X) - 4 * Frac(s[i..k])), neg)
  }

  method ParseHex(s: string, i: nat, neg: bool, F: Format) returns (r: Float, end: nat)
    requires IsFormat(F) && i <= |s|
    ensures F.Valid() && exists k: nat, X: int :: HexRead(s, i, neg, F, r, end, k, X)
  {
    hide Significand; hide HexScanned; hide HexDigits; hide Frac; hide Hex; hide Pow; hide IsUnits; hide BinaryRounded;
    hide Round; hide UnitsNum; hide UnitsDen; hide BitLen; hide Clipped;
    FormatValid(F);
    var Q, bits, e0, sticky, k, j := ScanHex(s, i);
    ghost var H, f := HexDigits(s[i..k]), Frac(s[i..k]);
    var x;
    x, end := ScanExponent(s, k, 'p');
    ghost var X: int :| ExpAt(s, k, 'p', end, X) && x == Clipped(X);
    var e := e0 + x;
    ghost var n := Hex(H);
    HexQuotient(H, Q, bits / 4, sticky, j);
    if e > 100_000 {
      if Q == 0 {
        ZeroBinary(F, x - 4 * f);
        ZeroFloat(F, neg);
        r := Fin(neg, 0, 0);
      } else {
        HexOver(F, n, Q, j, x - 4 * f);
        InfResult(F, BinaryRounded(F, n, x - 4 * f), neg);
        r := Inf(neg);
      }
    } else if e < -100_000 {
      HexUnder(F, n, j, x - 4 * f);
      ZeroFloat(F, neg);
      r := Fin(neg, 0, 0);
    } else {
      HexRatio(F, n, j, x - 4 * f);
      var erange;
      r, erange := RoundTo(Q, e, sticky, F, neg, n, Pow2(4 * j));
    }
    assert HexRead(s, i, neg, F, r, end, k, X);
  }

  lemma HexQuotient(H: seq<HexDigit>, Q: nat, c: nat, sticky: bool, j: nat)
    requires HexScanned(H, Q, c, sticky, j)
    ensures Pow(16, j) == Pow2(4 * j) && Q == Hex(H) / Pow2(4 * j) && (sticky <==> Hex(H) % Pow2(4 * j) != 0)
    ensures Q < Pow2(128) && Hex(H) >= Q * Pow(16, j) && Hex(H) < Pow2(124) * Pow(16, j)
    ensures sticky ==> BitLen(Q) > 64
    ensures Q == 0 ==> Hex(H) == 0
  {
    hide Hex; hide BitLen; hide Pow;
    HexFacts(H, Q, c, sticky, j);
    Pow16(j); Pow16(c);
    PowMono(2, 4 * c, 124); PowMono(2, 124, 128);
    HeldQuotient(Hex(H), Q, Pow2(4 * j), sticky, Pow2(124));
    if sticky { Pow16(30); WideQuotient(Q); }
  }

  lemma HeldQuotient(n: nat, Q: nat, g: nat, sticky: bool, P: nat)
    requires g > 0 && HeldPart(n, Q, g, sticky) && Q < P
    ensures Q == n / g && (sticky <==> n % g != 0) && n >= Q * g && n < P * g
  {
    MulDistr(g, Q, 1); MulComm(g, Q); MulComm(g, Q + 1);
    DivUnique(n, g, Q, n - g * Q);
    MulMono(Q + 1, P, g, g);
  }

  lemma WideQuotient(Q: nat)
    requires Q >= Pow2(120)
    ensures BitLen(Q) > 64
  {
    hide Pow; hide BitLen;
    PowMono(2, 64, 120);
    if BitLen(Q) <= 64 { BelowBits(Q, 64); assert false; }
  }

  lemma ZeroBinary(F: Format, E: int)
    requires F.Valid()
    ensures BinaryRounded(F, 0, E) == 0
  {
    hide Pow;
    RoundTiny(F, 0, UnitsDen(F, 1, E));
    assert UnitsNum(F, 0, E) == 0;
  }

  // ---- the whole of it ----

  datatype Parsed = Number(r: Float) | Nan(neg: bool)

  predicate IsSpace(c: char) { c == ' ' || '\t' <= c <= '\r' }

  /** word, in any case, at i. */
  predicate WordAt(s: string, i: nat, word: string) {
    i + |word| <= |s| && forall j | 0 <= j < |word| :: Lower(s[i + j]) == word[j]
  }

  /** Where the number starts: after white space and a sign. */
  predicate StartsAt(s: string, b: nat, i: nat, neg: bool) {
    && b <= |s| && (forall j | 0 <= j < b :: IsSpace(s[j])) && (b < |s| ==> !IsSpace(s[b]))
    && i == (if b < |s| && IsSign(s[b]) then b + 1 else b) && (neg <==> b < |s| && s[b] == '-')
  }

  predicate HexAt(s: string, i: nat) {
    && i + 2 < |s| && s[i] == '0' && Lower(s[i + 1]) == 'x'
    && (IsHex(s[i + 2]) || (s[i + 2] == '.' && i + 3 < |s| && IsHex(s[i + 3])))
  }

  /** The number at i, in units of F, when it is neither an infinity nor a NaN; k and X delimit its
      parts. No digits at all count as zero and consume nothing. */
  ghost predicate ReadsNumber(s: string, i: nat, F: Format, neg: bool, r: Float, end: nat, k: nat, X: int)
    requires F.Valid() && i <= |s|
  {
    if HexAt(s, i) then HexRead(s, i + 2, neg, F, r, end, k, X)
    else
      exists any: bool :: DecimalRead(s, i, neg, F, r, end, any, k, X) && (any || (end == 0 && r == Fin(false, 0, 0)))
  }

  /** What the text says, its parts delimited by b, i, k and X. */
  ghost predicate Reads(s: string, F: Format, r: Parsed, end: nat, b: nat, i: nat, neg: bool, k: nat, X: int)
    requires F.Valid()
  {
    && StartsAt(s, b, i, neg)
    && if WordAt(s, i, "inf") then r == Number(Inf(neg)) && end == if WordAt(s, i, "infinity") then i + 8 else i + 3
       else if WordAt(s, i, "nan") then r == Nan(neg) && NanEnds(s, i + 3, end)
       else r.Number? && ReadsNumber(s, i, F, neg, r.r, end, k, X)
  }

  ghost predicate ParsedAs(s: string, F: Format, r: Parsed, end: nat)
    requires F.Valid()
  {
    exists b: nat, i: nat, neg: bool, k: nat, X: int :: Reads(s, F, r, end, b, i, neg, k, X)
  }

  /** strtof, strtod and strtold: what the text says, correctly rounded. */
  method Parse(s: string, F: Format) returns (r: Parsed, end: nat)
    requires IsFormat(F)
    ensures F.Valid() && ParsedAs(s, F, r, end)
  {
    hide DecimalRead; hide HexRead;
    FormatValid(F);
    var p := 0;
    while p < |s| && IsSpace(s[p])
      invariant p <= |s| && forall j | 0 <= j < p :: IsSpace(s[j])
    {
      p := p + 1;
    }
    ghost var b, k: nat, X: int := p, 0, 0;
    var neg := false;
    if p < |s| && IsSign(s[p]) {
      neg := s[p] == '-';
      p := p + 1;
    }
    assert StartsAt(s, b, p, neg);
    if WordAt(s, p, "inf") {
      end := p + 3;
      if WordAt(s, p + 3, "inity") { end := p + 8; }
      InfinityAt(s, p);
      r := Number(Inf(neg));
    } else if WordAt(s, p, "nan") {
      end := NanTail(s, p + 3);
      r := Nan(neg);
    } else if HexAt(s, p) {
      var f;
      f, end := ParseHex(s, p + 2, neg, F);
      r := Number(f);
      k, X :| HexRead(s, p + 2, neg, F, f, end, k, X);
    } else {
      var f, any;
      f, end, any := ParseDecimal(s, p, neg, F);
      k, X :| DecimalRead(s, p, neg, F, f, end, any, k, X);
      if !any {
        NoDigits(s, p, neg, F, f, end, k, X);
        f, end := Fin(false, 0, 0), 0;
      }
      r := Number(f);
      assert DecimalRead(s, p, neg, F, f, end, any, k, X) && (any || (end == 0 && f == Fin(false, 0, 0)));
      assert ReadsNumber(s, p, F, neg, f, end, k, X);
    }
    assert Reads(s, F, r, end, b, p, neg, k, X);
  }

  lemma NoDigits(s: string, i: nat, neg: bool, F: Format, r: Float, end: nat, k: nat, X: int)
    requires F.Valid() && i <= |s| && DecimalRead(s, i, neg, F, r, end, false, k, X)
    ensures DecimalRead(s, i, neg, F, Fin(false, 0, 0), 0, false, k, X)
  {
  }

  lemma InfinityAt(s: string, p: nat)
    requires WordAt(s, p, "inf")
    ensures WordAt(s, p, "infinity") <==> WordAt(s, p + 3, "inity")
    ensures !WordAt(s, p, "nan")
  {
    assert Lower(s[p + 0]) == "inf"[0] != "nan"[0];
    if WordAt(s, p + 3, "inity") {
      forall j | 0 <= j < 8 ensures Lower(s[p + j]) == "infinity"[j] {
        if j < 3 {
          assert "inf"[j] == "infinity"[j];
        } else {
          assert "inity"[j - 3] == "infinity"[j] && s[p + j] == s[p + 3 + (j - 3)];
        }
      }
    }
    if WordAt(s, p, "infinity") {
      forall j | 0 <= j < 5 ensures Lower(s[p + 3 + j]) == "inity"[j] {
        assert "inity"[j] == "infinity"[j + 3] && s[p + (j + 3)] == s[p + 3 + j];
      }
    }
  }

  /** Letters, digits and underscores in parentheses, from p to e. */
  predicate Parenthesised(s: string, p: nat, e: nat) {
    p < e < |s| && s[p] == '(' && s[e] == ')' && forall j | p < j < e :: IsWordChar(s[j])
  }

  /** A NaN ends with what is in parentheses behind it, if that is well-formed. */
  ghost predicate NanEnds(s: string, p: nat, end: nat) {
    if end == p then !exists e: nat :: Parenthesised(s, p, e) else end > p && Parenthesised(s, p, end - 1)
  }

  method NanTail(s: string, p: nat) returns (end: nat)
    requires p <= |s|
    ensures NanEnds(s, p, end)
  {
    end := p;
    if p < |s| && s[p] == '(' {
      var e := p + 1;
      while e < |s| && IsWordChar(s[e])
        invariant p < e <= |s| && forall j | p < j < e :: IsWordChar(s[j])
      {
        e := e + 1;
      }
      if e < |s| && s[e] == ')' { end := e + 1; }
      assert forall e': nat | Parenthesised(s, p, e') :: e' == e;
    }
  }

  predicate IsWordChar(c: char) { IsDigit(c) || 'a' <= c <= 'z' || 'A' <= c <= 'Z' || c == '_' }
}
