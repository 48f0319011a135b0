/** Numbers as they are written (section 7.24.1.5 of the C23 standard), put together from their parts, and what
    src/strtod.c reads them as. */
module StrtodGrammar {
  import opened Rounding
  import opened StrtodRound
  import opened StrtodDecimal
  import opened StrtodText
  import opened StrtodParse
  import opened PrintfFormat
  import P = PrintfHex
  import R = RoundTrip

  /** A sign, or none. */
  datatype Sign = Absent | Plus | Minus

  function SignOf(g: Sign): string { match g case Absent => "" case Plus => "+" case Minus => "-" }

  /** A decimal number: digits, perhaps a point and more digits, perhaps an exponent. */
  datatype Number = Number(sign: Sign, ints: seq<Digit>, point: bool, fracs: seq<Digit>, exp: bool, expSign: Sign,
      exps: seq<Digit>)
  {
    predicate Valid() { ints + fracs != [] && (fracs != [] ==> point) && (exp ==> exps != []) }
    function Significand(): string { Spell(ints) + if point then "." + Spell(fracs) else "" }
    function Exponent(): string { ExponentText('e', exp, expSign, exps) }
    function Text(): string { SignOf(sign) + (Significand() + Exponent()) }
    /** The exponent that is written. */
    function Power(): int { ExponentValue(exp, expSign, exps) }
    /** What may stand behind it: nothing that would be part of it. */
    predicate Ends(z: string) {
      && StopsExponent('e', exp, z)
      && (!exp && z != [] ==>
            !IsDigit(z[0]) && (z[0] == '.' ==> point) && !(ints == [0] && !point && HexAt("0" + z, 0)))
    }
  }

  function ExponentText(letter: char, exp: bool, g: Sign, xs: seq<Digit>): string {
    if exp then [letter] + SignOf(g) + Spell(xs) else ""
  }

  function ExponentValue(exp: bool, g: Sign, xs: seq<Digit>): int {
    if !exp then 0 else if g.Minus? then 0 - Dec(xs) else Dec(xs)
  }

  predicate StopsExponent(letter: char, exp: bool, z: string) {
    if exp then z == [] || !IsDigit(z[0]) else !HasExp(z, 0, letter)
  }

  predicate Spaces(w: string) { forall i | 0 <= i < |w| :: IsSpace(w[i]) }

  // ---- where the parts are found ----

  lemma SignificandIs(n: Number)
    requires n.Valid()
    ensures var m := n.Significand();
            && Significand(m, false) && Digits(m) == n.ints + n.fracs && Frac(m) == |n.fracs|
            && m != [] && (IsDigit(m[0]) || m[0] == '.') && ('.' in m <==> n.point)
            && (|m| > 1 ==> IsDigit(m[1]) || m[1] == '.')
  {
    hide Digits; hide HexDigits; hide Frac; hide Significand; hide Spell;
    SpellDigits(n.ints); SpellDigits(n.fracs);
    SpellChars(n.ints); SpellChars(n.fracs);
    var m := n.Significand();
    if n.point {
      R.PointedText(Spell(n.ints), Spell(n.fracs), false);
      assert Spell(n.ints) + ("." + Spell(n.fracs)) == Spell(n.ints) + "." + Spell(n.fracs);
      assert m[|n.ints|] == '.';
      Characters(n, m);
    } else {
      assert n.ints + n.fracs == n.ints && m == Spell(n.ints);
      NoPointIn(m);
    }
  }

  lemma Characters(n: Number, m: string)
    requires n.Valid() && n.point && m == Spell(n.ints) + ("." + Spell(n.fracs))
    ensures m != [] && (IsDigit(m[0]) || m[0] == '.') && (|m| > 1 ==> IsDigit(m[1]) || m[1] == '.')
  {
    SpellChars(n.ints); SpellChars(n.fracs);
    hide Spell;
    var a, b := Spell(n.ints), Spell(n.fracs);
    assert |a| >= 1 ==> m[0] == a[0];
    assert |a| >= 2 ==> m[1] == a[1];
    assert |a| == 1 ==> m[1] == '.';
    assert |a| == 0 ==> m[0] == '.' && (|m| > 1 ==> m[1] == b[0]);
  }

  lemma SpellChars(ds: seq<Digit>)
    ensures |Spell(ds)| == |ds| && forall i | 0 <= i < |ds| :: IsDigit(Spell(ds)[i]) && Spell(ds)[i] == DigitChar(ds[i])
  {
  }

  lemma NoPointIn(m: string)
    requires OfDigits(m, false)
    ensures Significand(m, false) && '.' !in m && Frac(m) == 0
  {
    NoPoint(m);
  }

  lemma FoundHere(s: string, i: nat, m: string, rest: string, hex: bool, k: nat)
    requires i <= |s| && s[i..] == m + rest && Significand(m, hex) && (rest != [] ==> !Continues(m, hex, rest[0]))
    requires SignificandAt(s, i, k, hex)
    ensures k == i + |m| && s[i..k] == m && s[k..] == rest
  {
    hide Significand;
    R.RestOf(s, i, m, rest);
    assert s[i..i + |m|] == s[i..][..|m|] == m;
    if rest != [] { assert s[i + |m|] == s[i..][|m|]; }
    assert SignificandAt(s, i, i + |m|, hex);
    SignificandUnique(s, i, k, i + |m|, hex);
  }

  lemma SignificandHere(s: string, i: nat, n: Number, z: string, k: nat)
    requires n.Valid() && n.Ends(z) && i <= |s| && s[i..] == n.Significand() + (n.Exponent() + z)
    requires SignificandAt(s, i, k, false)
    ensures k == i + |n.Significand()| && s[i..k] == n.Significand() && s[k..] == n.Exponent() + z
  {
    hide Significand; hide Spell; hide Digits; hide HexAt; hide HasExp; hide EndsAt; hide Frac;
    var m, rest := n.Significand(), n.Exponent() + z;
    SignificandIs(n);
    if rest != [] { assert rest[0] == if n.exp then 'e' else z[0]; }
    FoundHere(s, i, m, rest, false, k);
  }

  lemma ExponentHere(s: string, k: nat, letter: char, exp: bool, g: Sign, xs: seq<Digit>, z: string, e: nat, X: int)
    requires 'a' <= letter <= 'z' && (exp ==> xs != []) && StopsExponent(letter, exp, z)
    requires k <= |s| && s[k..] == ExponentText(letter, exp, g, xs) + z && ExpAt(s, k, letter, e, X)
    ensures e == |s| - |z| && X == ExponentValue(exp, g, xs)
  {
    hide Dec; hide Digits; hide Spell;
    if exp {
      SomeExponent(s, k, letter, g, xs, z);
      ExpUnique(s, k, letter, e, X, |s| - |z|, ExponentValue(exp, g, xs));
    } else {
      assert s[k..] == z;
      NoExponent(s, k, letter, z);
    }
  }

  lemma SomeExponent(s: string, k: nat, letter: char, g: Sign, xs: seq<Digit>, z: string)
    requires 'a' <= letter <= 'z' && xs != [] && StopsExponent(letter, true, z)
    requires k <= |s| && s[k..] == ExponentText(letter, true, g, xs) + z
    ensures |z| <= |s| && ExpAt(s, k, letter, |s| - |z|, ExponentValue(true, g, xs))
  {
    hide Dec; hide Digits; hide Spell;
    var t, c := s[k..], 1 + |SignOf(g)|;
    var b, e := k + c, |s| - |z|;
    SpellDigits(xs);
    SpellChars(xs);
    assert t == [letter] + SignOf(g) + Spell(xs) + z;
    assert |t| == c + |xs| + |z|;
    assert s[k] == t[0] == letter && s[k + 1] == t[1];
    assert s[b..e] == t[c..c + |xs|] == Spell(xs);
    assert s[b] == s[b..e][0];
    assert z != [] ==> s[e] == t[c + |xs|] == z[0];
    assert g.Absent? ==> IsDigit(s[k + 1]);
    assert HasExp(s, k, letter) && ExpStart(s, k, letter) == b;
  }

  lemma NoExponent(s: string, k: nat, letter: char, z: string)
    requires k <= |s| && s[k..] == z
    ensures HasExp(s, k, letter) <==> HasExp(z, 0, letter)
  {
    assert forall j | k <= j < |s| :: s[j] == z[j - k];
  }

  lemma StartHere(s: string, w: string, n: Number, z: string, b: nat, i: nat, neg: bool)
    requires n.Valid() && n.Ends(z) && Spaces(w) && s == w + n.Text() + z && StartsAt(s, b, i, neg)
    ensures i <= |s| && s[i..] == n.Significand() + (n.Exponent() + z) && (neg <==> n.sign.Minus?)
    ensures !WordAt(s, i, "inf") && !WordAt(s, i, "nan") && !HexAt(s, i)
  {
    hide Spell; hide Significand; hide Digits; hide Frac; hide HexAt; hide WordAt; hide HasExp; hide ExponentText;
    SignificandIs(n);
    var m, g := n.Significand(), SignOf(n.sign);
    var t := g + (m + (n.Exponent() + z));
    assert n.Text() + z == t;
    SignFound(s, w, n.sign, m, n.Exponent() + z, b, i, neg);
    SecondChar(n, m, s, z, i);
  }

  /** White space and the sign are passed over. */
  lemma SignFound(s: string, w: string, g: Sign, m: string, rest: string, b: nat, i: nat, neg: bool)
    requires Spaces(w) && s == w + (SignOf(g) + (m + rest)) && StartsAt(s, b, i, neg)
    requires m != [] && !IsSpace(m[0]) && !IsSign(m[0])
    ensures i <= |s| && s[i..] == m + rest && (neg <==> g.Minus?)
  {
    var t := SignOf(g) + (m + rest);
    assert t[0] == (if SignOf(g) != "" then SignOf(g)[0] else m[0]);
    assert forall j | 0 <= j < |w| :: s[j] == w[j];
    assert s[|w|..] == t && s[|w|] == t[0] && !IsSpace(t[0]);
    assert b == |w| && i == |w| + |SignOf(g)|;
    assert s[i..] == t[|SignOf(g)|..] == m + rest;
  }

  lemma SecondChar(n: Number, m: string, s: string, z: string, i: nat)
    requires n.Valid() && n.Ends(z) && i < |s| && s[i..] == m + (n.Exponent() + z) && m == n.Significand()
    requires m != [] && (IsDigit(m[0]) || m[0] == '.') && (|m| > 1 ==> IsDigit(m[1]) || m[1] == '.')
    ensures !WordAt(s, i, "inf") && !WordAt(s, i, "nan") && !HexAt(s, i)
  {
    hide Spell;
    assert s[i] == s[i..][0] == m[0];
    assert Lower(s[i + 0]) != "inf"[0] && Lower(s[i + 0]) != "nan"[0];
    if i + 1 < |s| { assert s[i + 1] == s[i..][1]; }
    if |m| == 1 {
      SingleChar(n);
      if n.exp { assert s[i..][1] == 'e'; } else if HexAt(s, i) { ZeroThen(s, i, m, z); }
    }
  }

  lemma SingleChar(n: Number)
    requires n.Valid() && |n.Significand()| == 1
    ensures !n.point && |n.ints| == 1 && n.Significand()[0] == DigitChar(n.ints[0])
  {
    SpellChars(n.ints); SpellChars(n.fracs);
    hide Spell;
  }

  lemma ZeroThen(s: string, i: nat, m: string, z: string)
    requires i < |s| && s[i..] == m + ("" + z) && |m| == 1 && HexAt(s, i)
    ensures HexAt("0" + z, 0) && m == "0"
  {
    var t := s[i..];
    assert t == m + z;
    assert s[i] == t[0] && s[i + 1] == t[1] && s[i + 2] == t[2] && (i + 3 < |s| ==> s[i + 3] == t[3]);
    assert m == "0";
  }

  /** White space, a decimal number, and then something that is no part of it: what is read, and that it ends where
      the number ends. */
  lemma NumberRead(w: string, n: Number, z: string, F: Format, r: Parsed, end: nat)
    requires F.Valid() && n.Valid() && Spaces(w) && n.Ends(z) && ParsedAs(w + n.Text() + z, F, r, end)
    ensures r.Number? && end == |w + n.Text()|
    ensures IsUnits(F, r.r, ReadValue(F, Dec(n.ints + n.fracs), Clipped(n.Power()) - |n.fracs|), n.sign.Minus?)
  {
    hide Spell; hide Significand; hide Digits; hide Frac; hide Dec; hide IsUnits; hide ReadValue; hide Clipped;
    hide StartsAt; hide WordAt; hide HexAt; hide ExpAt; hide EndsAt; hide HasExp; hide ExponentText;
    var s := w + n.Text() + z;
    var b: nat, i: nat, neg: bool, k: nat, X: int :| Reads(s, F, r, end, b, i, neg, k, X);
    StartHere(s, w, n, z, b, i, neg);
    var any: bool :| DecimalRead(s, i, neg, F, r.r, end, any, k, X) && (any || (end == 0 && r.r == Fin(false, 0, 0)));
    SignificandHere(s, i, n, z, k);
    SignificandIs(n);
    Positive(s, i, k);
    ExponentHere(s, k, 'e', n.exp, n.expSign, n.exps, z, end, X);
  }

  lemma Positive(s: string, i: nat, k: nat)
    requires SignificandAt(s, i, k, false)
    ensures k <= |s|
  {
  }

  // ---- hexadecimal numbers ----

  datatype HexNumber = HexNumber(sign: Sign, ints: seq<HexDigit>, point: bool, fracs: seq<HexDigit>, exp: bool,
      expSign: Sign, exps: seq<Digit>)
  {
    predicate Valid() { ints + fracs != [] && (fracs != [] ==> point) && (exp ==> exps != []) }
    function Significand(): string { P.HexSpell(ints) + if point then "." + P.HexSpell(fracs) else "" }
    function Text(): string { SignOf(sign) + ("0x" + (Significand() + ExponentText('p', exp, expSign, exps))) }
    predicate Ends(z: string) {
      StopsExponent('p', exp, z) && (!exp && z != [] ==> !IsHex(z[0]) && (z[0] == '.' ==> point))
    }
  }

  lemma HexSignificandIs(n: HexNumber)
    requires n.Valid()
    ensures var m := n.Significand();
            && Significand(m, true) && HexDigits(m) == n.ints + n.fracs && Frac(m) == |n.fracs|
            && ('.' in m <==> n.point) && m != []
            && (IsHex(m[0]) || (m[0] == '.' && |m| > 1 && IsHex(m[1])))
  {
    hide Digits; hide HexDigits; hide Frac; hide Significand; hide P.HexSpell;
    P.HexSpellDigits(n.ints); P.HexSpellDigits(n.fracs);
    var m, a, b := n.Significand(), P.HexSpell(n.ints), P.HexSpell(n.fracs);
    assert a != [] ==> m[0] == a[0];
    if n.point {
      R.PointedText(a, b, true);
      assert a + ("." + b) == a + "." + b;
      assert m[|a|] == '.';
      assert a == [] ==> m[1] == b[0];
    } else {
      assert n.ints + n.fracs == n.ints && m == a;
      NoHexPoint(m);
    }
  }

  lemma NoHexPoint(m: string)
    requires OfDigits(m, true)
    ensures Significand(m, true) && '.' !in m && Frac(m) == 0
  {
    NoPoint(m);
  }

  lemma HexSignificandHere(s: string, i: nat, n: HexNumber, z: string, k: nat)
    requires n.Valid() && n.Ends(z) && SignificandAt(s, i, k, true)
    requires i <= |s| && s[i..] == n.Significand() + (ExponentText('p', n.exp, n.expSign, n.exps) + z)
    ensures k == i + |n.Significand()| && s[i..k] == n.Significand()
    ensures s[k..] == ExponentText('p', n.exp, n.expSign, n.exps) + z
  {
    hide Significand; hide Spell; hide HexDigits; hide HasExp; hide P.HexSpell; hide EndsAt; hide Frac;
    var m, rest := n.Significand(), ExponentText('p', n.exp, n.expSign, n.exps) + z;
    HexSignificandIs(n);
    if rest != [] { assert rest[0] == if n.exp then 'p' else z[0]; }
    FoundHere(s, i, m, rest, true, k);
  }

  lemma HexStart(s: string, w: string, n: HexNumber, z: string, b: nat, i: nat, neg: bool)
    requires n.Valid() && Spaces(w) && s == w + n.Text() + z && StartsAt(s, b, i, neg)
    ensures i + 2 <= |s| && s[i + 2..] == n.Significand() + (ExponentText('p', n.exp, n.expSign, n.exps) + z)
    ensures (neg <==> n.sign.Minus?) && !WordAt(s, i, "inf") && !WordAt(s, i, "nan") && HexAt(s, i)
  {
    hide Significand; hide HexDigits; hide Frac; hide ExponentText; hide P.HexSpell; hide StartsAt;
    HexSignificandIs(n);
    var m, rest := n.Significand(), ExponentText('p', n.exp, n.expSign, n.exps) + z;
    assert n.Text() + z == SignOf(n.sign) + ("0x" + (m + rest));
    SignFound(s, w, n.sign, "0x", m + rest, b, i, neg);
    var t := s[i..];
    assert t[0] == '0' && t[1] == 'x' && t[2..] == m + rest && t[2] == m[0] && (|m| > 1 ==> t[3] == m[1]);
    assert s[i] == t[0] && s[i + 1] == t[1] && s[i + 2] == t[2] && (|m| > 1 ==> s[i + 3] == t[3]);
    assert s[i + 2..] == t[2..];
    assert Lower(s[i + 0]) != "inf"[0] && Lower(s[i + 0]) != "nan"[0];
  }

  /** The same of a hexadecimal number. */
  lemma HexNumberRead(w: string, n: HexNumber, z: string, F: Format, r: Parsed, end: nat)
    requires F.Valid() && n.Valid() && Spaces(w) && n.Ends(z) && ParsedAs(w + n.Text() + z, F, r, end)
    ensures r.Number? && end == |w + n.Text()|
    ensures IsUnits(F, r.r, BinaryRounded(F, Hex(n.ints + n.fracs),
        Clipped(ExponentValue(n.exp, n.expSign, n.exps)) - 4 * |n.fracs|), n.sign.Minus?)
  {
    hide Spell; hide Significand; hide HexDigits; hide Frac; hide Hex; hide IsUnits; hide BinaryRounded; hide Clipped;
    hide StartsAt; hide WordAt; hide HexAt; hide ExpAt; hide EndsAt; hide HasExp; hide ExponentText; hide ExponentValue;
    hide P.HexSpell;
    var s := w + n.Text() + z;
    var b: nat, i: nat, neg: bool, k: nat, X: int :| Reads(s, F, r, end, b, i, neg, k, X);
    HexStart(s, w, n, z, b, i, neg);
    HexSignificandHere(s, i + 2, n, z, k);
    HexSignificandIs(n);
    ExponentHere(s, k, 'p', n.exp, n.expSign, n.exps, z, end, X);
  }

  // ---- no number ----

  /** A text with no digit and no letter that a word begins with: nothing is read. */
  lemma NothingRead(s: string, F: Format, r: Parsed, end: nat)
    requires F.Valid() && ParsedAs(s, F, r, end)
    requires forall j | 0 <= j < |s| :: !IsDigit(s[j]) && Lower(s[j]) != 'i' && Lower(s[j]) != 'n'
    ensures r == StrtodParse.Parsed.Number(Fin(false, 0, 0)) && end == 0
  {
    hide Dec; hide IsUnits; hide ReadValue; hide Significand; hide ExpAt; hide Frac; hide HexRead;
    var b: nat, i: nat, neg: bool, k: nat, X: int :| Reads(s, F, r, end, b, i, neg, k, X);
    if i < |s| { assert Lower(s[i + 0]) != "inf"[0] && Lower(s[i + 0]) != "nan"[0]; }
    var any: bool :| DecimalRead(s, i, neg, F, r.r, end, any, k, X) && (any || (end == 0 && r.r == Fin(false, 0, 0)));
    NoDigits(s[i..k]);
  }

  lemma {:induction false} NoDigits(m: string)
    requires forall j | 0 <= j < |m| :: !IsDigit(m[j])
    ensures Digits(m) == []
  {
    if m != [] { NoDigits(m[..|m| - 1]); }
  }

  // ---- infinities and NaNs ----

  lemma WordHere(s: string, w: string, g: Sign, word: string, b: nat, i: nat, neg: bool)
    requires Spaces(w) && word in ["inf", "infinity", "nan"] && s == w + (SignOf(g) + word) && StartsAt(s, b, i, neg)
    ensures i + |word| == |s| && (neg <==> g.Minus?) && s[i..] == word
  {
    var t := SignOf(g) + word;
    FirstLetter(word);
    assert forall j | 0 <= j < |w| :: s[j] == w[j];
    assert s[|w|..] == t && s[|w|] == t[0] && !IsSpace(t[0]);
    assert b == |w| && i == |w| + |SignOf(g)|;
    assert s[i..] == t[|SignOf(g)|..] == word;
  }

  lemma FirstLetter(word: string)
    requires word in ["inf", "infinity", "nan"]
    ensures word != [] && 'a' <= word[0] <= 'z' && !IsSpace(word[0]) && !IsSign(word[0])
  {
  }

  /** The words, with any sign and after any white space; in any case, as `CaseDoesNotMatter` says. */
  lemma WordsRead(w: string, g: Sign, F: Format, r: Parsed, end: nat)
    requires F.Valid() && Spaces(w)
    ensures ParsedAs(w + (SignOf(g) + "inf"), F, r, end) ==>
        r == StrtodParse.Parsed.Number(Inf(g.Minus?)) && end == |w + (SignOf(g) + "inf")|
    ensures ParsedAs(w + (SignOf(g) + "infinity"), F, r, end) ==>
        r == StrtodParse.Parsed.Number(Inf(g.Minus?)) && end == |w + (SignOf(g) + "infinity")|
    ensures ParsedAs(w + (SignOf(g) + "nan"), F, r, end) ==>
        r == Nan(g.Minus?) && end == |w + (SignOf(g) + "nan")|
  {
    if ParsedAs(w + (SignOf(g) + "inf"), F, r, end) { ShortInf(w, g, F, r, end); }
    if ParsedAs(w + (SignOf(g) + "infinity"), F, r, end) { LongInf(w, g, F, r, end); }
    if ParsedAs(w + (SignOf(g) + "nan"), F, r, end) { NanRead(w, g, F, r, end); }
  }

  lemma ShortInf(w: string, g: Sign, F: Format, r: Parsed, end: nat)
    requires F.Valid() && Spaces(w) && ParsedAs(w + (SignOf(g) + "inf"), F, r, end)
    ensures r == StrtodParse.Parsed.Number(Inf(g.Minus?)) && end == |w + (SignOf(g) + "inf")|
  {
    hide ReadsNumber; hide NanEnds; hide StartsAt; hide WordAt; hide SignOf;
    var s := w + (SignOf(g) + "inf");
    var b: nat, i: nat, neg: bool, k: nat, X: int :| Reads(s, F, r, end, b, i, neg, k, X);
    WordHere(s, w, g, "inf", b, i, neg);
    IsWordAt(s, i, "inf");
    TooLong(s, i, "infinity");
  }

  lemma LongInf(w: string, g: Sign, F: Format, r: Parsed, end: nat)
    requires F.Valid() && Spaces(w) && ParsedAs(w + (SignOf(g) + "infinity"), F, r, end)
    ensures r == StrtodParse.Parsed.Number(Inf(g.Minus?)) && end == |w + (SignOf(g) + "infinity")|
  {
    hide ReadsNumber; hide NanEnds; hide StartsAt; hide WordAt; hide SignOf;
    var s := w + (SignOf(g) + "infinity");
    var b: nat, i: nat, neg: bool, k: nat, X: int :| Reads(s, F, r, end, b, i, neg, k, X);
    WordHere(s, w, g, "infinity", b, i, neg);
    IsWordAt(s, i, "infinity");
    ShorterWord(s, i, "infinity", 3);
    assert "infinity"[..3] == "inf";
  }

  lemma TooLong(s: string, i: nat, word: string)
    requires i + |word| > |s|
    ensures !WordAt(s, i, word)
  {
  }

  /** The rest of the text is a word in small letters. */
  lemma IsWordAt(s: string, i: nat, word: string)
    requires i <= |s| && s[i..] == word && forall j | 0 <= j < |word| :: Lower(word[j]) == word[j]
    ensures WordAt(s, i, word)
  {
    forall j | 0 <= j < |word| ensures Lower(s[i + j]) == word[j] { assert s[i + j] == s[i..][j]; }
  }

  lemma ShorterWord(s: string, i: nat, word: string, k: nat)
    requires WordAt(s, i, word) && k <= |word|
    ensures WordAt(s, i, word[..k])
  {
  }

  lemma NanRead(w: string, g: Sign, F: Format, r: Parsed, end: nat)
    requires F.Valid() && Spaces(w) && ParsedAs(w + (SignOf(g) + "nan"), F, r, end)
    ensures r == Nan(g.Minus?) && end == |w + (SignOf(g) + "nan")|
  {
    hide ReadsNumber; hide StartsAt;
    var s := w + (SignOf(g) + "nan");
    var b: nat, i: nat, neg: bool, k: nat, X: int :| Reads(s, F, r, end, b, i, neg, k, X);
    WordHere(s, w, g, "nan", b, i, neg);
    forall j | 0 <= j < 3 ensures Lower(s[i + j]) == "nan"[j] { assert s[i + j] == s[i..][j]; }
    assert Lower(s[i + 0]) != "inf"[0];
  }

  /** A NaN with something in parentheses behind it, and anything behind that. */
  lemma TaggedNanRead(w: string, g: Sign, c: string, z: string, F: Format, r: Parsed, end: nat)
    requires F.Valid() && Spaces(w) && ParsedAs(w + (SignOf(g) + ("nan(" + (c + (")" + z)))), F, r, end)
    requires forall j | 0 <= j < |c| :: IsWordChar(c[j])
    ensures r == Nan(g.Minus?) && end == |w| + |SignOf(g)| + |c| + 5
  {
    hide ReadsNumber; hide StartsAt; hide NanEnds; hide IsWordChar; hide WordAt; hide SignOf;
    var rest := c + (")" + z);
    var s := w + (SignOf(g) + ("nan(" + rest));
    var b: nat, i: nat, neg: bool, k: nat, X: int :| Reads(s, F, r, end, b, i, neg, k, X);
    SignFound(s, w, g, "nan(", rest, b, i, neg);
    TagHere(s, i, c, z);
    TagEnds(s, i + 3, c, end);
  }

  lemma TagHere(s: string, i: nat, c: string, z: string)
    requires i <= |s| && s[i..] == "nan(" + (c + (")" + z))
    ensures !WordAt(s, i, "inf") && WordAt(s, i, "nan") && i + |c| + 4 < |s| && s[i + 3] == '('
    ensures s[i + 4 + |c|] == ')' && forall j | 0 <= j < |c| :: s[i + 4 + j] == c[j]
  {
    var t := s[i..];
    assert forall j | 0 <= j < |t| :: s[i + j] == t[j];
    assert t[0] == 'n' && t[1] == 'a' && t[2] == 'n' && t[3] == '(' && t[4 + |c|] == ')';
    assert forall j | 0 <= j < |c| :: t[4 + j] == c[j];
    assert Lower(s[i + 0]) != "inf"[0];
  }

  lemma TagEnds(s: string, p: nat, c: string, end: nat)
    requires p + |c| + 1 < |s| && s[p] == '(' && s[p + 1 + |c|] == ')' && NanEnds(s, p, end)
    requires forall j | 0 <= j < |c| :: IsWordChar(c[j]) && s[p + 1 + j] == c[j]
    ensures end == p + |c| + 2
  {
    var e := p + 1 + |c|;
    assert forall j | p < j < e :: s[j] == c[j - p - 1];
    assert Parenthesised(s, p, e);
  }

  /** `fmt_fp` of an infinity or a NaN, without flags or width. */
  method FmtSpecial(neg: bool, nan: bool) returns (s: string)
    ensures forall F: Format, r: Parsed, end: nat | F.Valid() && ParsedAs(s, F, r, end) ::
              r == (if nan then Nan(neg) else StrtodParse.Parsed.Number(Inf(neg))) && end == |s|
    ensures |s| == if neg then 4 else 3
  {
    hide ParsedAs;
    s := "";
    if neg { s := s + "-"; }
    s := s + if nan then "nan" else "inf";
    ghost var g := if neg then Minus else Absent;
    assert s == "" + (SignOf(g) + if nan then "nan" else "inf");
    forall F: Format, r: Parsed, end: nat | F.Valid() && ParsedAs(s, F, r, end)
      ensures r == (if nan then Nan(neg) else StrtodParse.Parsed.Number(Inf(neg))) && end == |s|
    {
      WordsRead("", g, F, r, end);
    }
  }
}
