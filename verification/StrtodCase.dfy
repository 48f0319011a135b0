/** The characters of numbers (src/strtod.c): which they are, what they are worth, and that case does not matter. */
module StrtodCase {
  import opened Rounding
  import opened StrtodRound
  import opened StrtodDecimal
  import opened StrtodText
  import opened StrtodParse
  import P = PrintfHex

  const DIGITS := "0123456789"
  const LOWER := "0123456789abcdef"
  const UPPER := "0123456789ABCDEF"
  const SPACES := " \t\n\U{b}\U{c}\r"
  const LETTERS := "abcdefghijklmnopqrstuvwxyz"

  /** Digits are worth their place in the row of digits. */
  lemma DigitValues(i: nat)
    ensures i < 10 ==> IsDigit(DIGITS[i]) && DigitOf(DIGITS[i]) == i && DigitChar(i) == DIGITS[i]
    ensures i < 16 ==> IsHex(LOWER[i]) && HexOf(LOWER[i]) == i && P.HexChar(i) == LOWER[i]
    ensures i < 16 ==> IsHex(UPPER[i]) && HexOf(UPPER[i]) == i
  {
  }

  /** Nothing else is a digit. */
  lemma OnlyDigits(c: char)
    ensures IsDigit(c) ==> c in DIGITS
    ensures IsHex(c) ==> c in LOWER || c in UPPER
  {
    if IsDigit(c) { assert c == DIGITS[c as int - '0' as int]; }
    if IsHex(c) {
      if IsDigit(c) { assert c == LOWER[c as int - '0' as int]; }
      else if 'a' <= c <= 'f' { assert c == LOWER[c as int - 'a' as int + 10]; }
      else { assert c == UPPER[c as int - 'A' as int + 10]; }
    }
  }

  /** White space is what `isspace` says in the C locale. */
  lemma SpaceIs(c: char)
    ensures IsSpace(c) <==> c in SPACES
  {
    if IsSpace(c) && c != ' ' { assert c == SPACES[c as int - '\t' as int + 1]; }
  }

  /** What may stand in parentheses behind "nan". */
  lemma WordCharIs(c: char)
    ensures IsWordChar(c) <==> IsDigit(c) || c == '_' || Lower(c) in LETTERS
  {
    if 'a' <= Lower(c) <= 'z' { assert Lower(c) == LETTERS[Lower(c) as int - 'a' as int]; }
    LettersOnly(Lower(c));
  }

  lemma LettersOnly(c: char)
    ensures c in LETTERS ==> 'a' <= c <= 'z'
  {
    if c in LETTERS {
      var i :| 0 <= i < |LETTERS| && LETTERS[i] == c;
    }
  }

  // ---- case ----

  /** The same but for the case of letters. */
  predicate Caseless(s: string, t: string) { |s| == |t| && forall j | 0 <= j < |s| :: Lower(s[j]) == Lower(t[j]) }

  lemma SameClass(a: char, b: char)
    requires Lower(a) == Lower(b)
    ensures IsDigit(a) == IsDigit(b) && IsHex(a) == IsHex(b) && IsSpace(a) == IsSpace(b) && IsSign(a) == IsSign(b)
        && IsWordChar(a) == IsWordChar(b)
    ensures IsDigit(a) || a in ".+-()0" || b in ".+-()0" ==> a == b
    ensures IsHex(a) ==> HexOf(a) == HexOf(b)
  {
  }

  lemma {:induction false} SameDigits(m: string, n: string)
    requires Caseless(m, n)
    ensures Digits(m) == Digits(n) && HexDigits(m) == HexDigits(n) && Frac(m) == Frac(n) && ('.' in m <==> '.' in n)
    decreases |m|
  {
    if m != [] {
      var k := |m| - 1;
      SameClass(m[k], n[k]);
      assert Caseless(m[..k], n[..k]);
      SameDigits(m[..k], n[..k]);
      assert m == m[..k] + [m[k]] && n == n[..k] + [n[k]];
    }
  }

  lemma SameOfDigits(m: string, n: string, hex: bool)
    requires Caseless(m, n) && OfDigits(m, hex)
    ensures OfDigits(n, hex)
  {
    forall i | 0 <= i < |n| ensures if hex then IsHex(n[i]) else IsDigit(n[i]) { SameClass(m[i], n[i]); }
  }

  lemma SameSignificand(m: string, n: string, hex: bool)
    requires Caseless(m, n) && Significand(m, hex)
    ensures Significand(n, hex)
  {
    if OfDigits(m, hex) {
      SameOfDigits(m, n, hex);
    } else {
      var p: nat :| PointAt(m, hex, p);
      SameClass(m[p], n[p]);
      SameOfDigits(m[..p], n[..p], hex); SameOfDigits(m[p + 1..], n[p + 1..], hex);
      assert PointAt(n, hex, p);
    }
  }

  lemma SameSignificandAt(s: string, t: string, i: nat, k: nat, hex: bool)
    requires Caseless(s, t) && SignificandAt(s, i, k, hex)
    ensures SignificandAt(t, i, k, hex) && Caseless(s[i..k], t[i..k])
  {
    hide Significand;
    SameSignificand(s[i..k], t[i..k], hex);
    SameDigits(s[i..k], t[i..k]);
    if k < |s| { SameClass(s[k], t[k]); }
  }

  lemma SameExp(s: string, t: string, k: nat, letter: char, e: nat, X: int)
    requires Caseless(s, t) && ExpAt(s, k, letter, e, X)
    ensures ExpAt(t, k, letter, e, X)
  {
    hide Dec; hide Digits;
    if k < |s| { SameClass(s[k], t[k]); }
    if k + 1 < |s| { SameClass(s[k + 1], t[k + 1]); }
    var b := ExpStart(s, k, letter);
    assert ExpStart(t, k, letter) == b;
    if b < |s| { SameClass(s[b], t[b]); }
    if HasExp(s, k, letter) {
      SameOfDigits(s[b..e], t[b..e], false);
      SameDigits(s[b..e], t[b..e]);
      if e < |s| { SameClass(s[e], t[e]); }
    }
  }

  lemma SameStart(s: string, t: string, b: nat, i: nat, neg: bool)
    requires Caseless(s, t) && StartsAt(s, b, i, neg)
    ensures StartsAt(t, b, i, neg)
  {
    forall j | 0 <= j < b ensures IsSpace(t[j]) { SameClass(s[j], t[j]); }
    if b < |s| { SameClass(s[b], t[b]); }
  }

  lemma SameHexAt(s: string, t: string, i: nat)
    requires Caseless(s, t) && HexAt(s, i)
    ensures HexAt(t, i)
  {
    SameClass(s[i], t[i]); SameClass(s[i + 1], t[i + 1]); SameClass(s[i + 2], t[i + 2]);
    if i + 3 < |s| { SameClass(s[i + 3], t[i + 3]); }
  }

  lemma SameParentheses(s: string, t: string, p: nat, e: nat)
    requires Caseless(s, t) && Parenthesised(s, p, e)
    ensures Parenthesised(t, p, e)
  {
    forall j | p <= j <= e ensures IsWordChar(s[j]) == IsWordChar(t[j]) { SameClass(s[j], t[j]); }
    SameClass(s[p], t[p]); SameClass(s[e], t[e]);
  }

  lemma SameNanEnds(s: string, t: string, p: nat, end: nat)
    requires Caseless(s, t) && NanEnds(s, p, end)
    ensures NanEnds(t, p, end)
  {
    hide Parenthesised;
    forall e: nat | Parenthesised(t, p, e) ensures Parenthesised(s, p, e) { SameParentheses(t, s, p, e); }
    if end > p { SameParentheses(s, t, p, end - 1); }
  }

  lemma SameNumber(s: string, t: string, i: nat, F: Format, neg: bool, r: Float, end: nat, k: nat, X: int)
    requires F.Valid() && i <= |s| && Caseless(s, t) && ReadsNumber(s, i, F, neg, r, end, k, X)
    ensures ReadsNumber(t, i, F, neg, r, end, k, X)
  {
    hide HexAt; hide SignificandAt; hide ExpAt; hide IsUnits; hide Caseless; hide Digits; hide HexDigits; hide Frac;
    hide ReadValue; hide Clipped; hide BinaryRounded; hide Dec; hide Hex;
    Symmetric(s, t);
    if HexAt(s, i) {
      SameHexAt(s, t, i);
      HexLonger(s, i);
      SameSignificandAt(s, t, i + 2, k, true);
      SameExp(s, t, k, 'p', end, X);
      Inside(s, i + 2, k, true);
      SameDigits(s[i + 2..k], t[i + 2..k]);
    } else {
      if HexAt(t, i) { SameHexAt(t, s, i); }
      var any: bool :| DecimalRead(s, i, neg, F, r, end, any, k, X) && (any || (end == 0 && r == Fin(false, 0, 0)));
      SameSignificandAt(s, t, i, k, false);
      Inside(s, i, k, false);
      SameDigits(s[i..k], t[i..k]);
      if any { SameExp(s, t, k, 'e', end, X); }
      assert DecimalRead(t, i, neg, F, r, end, any, k, X);
    }
  }

  lemma Symmetric(s: string, t: string)
    requires Caseless(s, t)
    ensures Caseless(t, s) && |s| == |t|
  {
  }

  lemma HexLonger(s: string, i: nat)
    requires HexAt(s, i)
    ensures i + 2 <= |s|
  {
  }

  lemma Inside(s: string, i: nat, k: nat, hex: bool)
    requires SignificandAt(s, i, k, hex)
    ensures i <= k <= |s|
  {
  }

  lemma CaselessOneWay(s: string, t: string, F: Format, r: Parsed, end: nat)
    requires F.Valid() && Caseless(s, t) && ParsedAs(s, F, r, end)
    ensures ParsedAs(t, F, r, end)
  {
    hide HexAt; hide ReadsNumber; hide NanEnds; hide StartsAt;
    var b: nat, i: nat, neg: bool, k: nat, X: int :| Reads(s, F, r, end, b, i, neg, k, X);
    SameStart(s, t, b, i, neg);
    SameWord(s, t, i, "inf"); SameWord(s, t, i, "infinity"); SameWord(s, t, i, "nan");
    StartInside(s, b, i, neg);
    if !WordAt(s, i, "inf") {
      if WordAt(s, i, "nan") { SameNanEnds(s, t, i + 3, end); } else { SameNumber(s, t, i, F, neg, r.r, end, k, X); }
    }
    assert Reads(t, F, r, end, b, i, neg, k, X);
  }

  lemma SameWord(s: string, t: string, i: nat, word: string)
    requires Caseless(s, t)
    ensures WordAt(s, i, word) == WordAt(t, i, word)
  {
  }

  lemma StartInside(s: string, b: nat, i: nat, neg: bool)
    requires StartsAt(s, b, i, neg)
    ensures i <= |s|
  {
  }

  /** Numbers are read without regard to case. */
  lemma CaseDoesNotMatter(s: string, t: string, F: Format, r: Parsed, end: nat)
    requires F.Valid() && Caseless(s, t)
    ensures ParsedAs(s, F, r, end) <==> ParsedAs(t, F, r, end)
  {
    hide ParsedAs;
    Symmetric(s, t);
    if ParsedAs(s, F, r, end) { CaselessOneWay(s, t, F, r, end); }
    if ParsedAs(t, F, r, end) { CaselessOneWay(t, s, F, r, end); }
  }
}
