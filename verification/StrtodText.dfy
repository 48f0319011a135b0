/** Texts of numbers (section 7.24.1.5 of the C23 standard): a significand with at most one point,
    and an optional exponent. */
module StrtodText {
  import opened StrtodDecimal

  // ---- characters ----

  predicate IsDigit(c: char) { '0' <= c <= '9' }

  function DigitOf(c: char): Digit
    requires IsDigit(c)
  {
    c as int - '0' as int
  }

  function DigitChar(x: Digit): (c: char)
    ensures IsDigit(c) && DigitOf(c) == x
  {
    ('0' as int + x) as char
  }

  type HexDigit = x: int | 0 <= x < 16

  predicate IsHex(c: char) { IsDigit(c) || 'a' <= c <= 'f' || 'A' <= c <= 'F' }

  function HexOf(c: char): HexDigit
    requires IsHex(c)
  {
    if IsDigit(c) then c as int - '0' as int
    else if 'a' <= c <= 'f' then c as int - 'a' as int + 10
    else c as int - 'A' as int + 10
  }

  /** The digits of a text, whatever else it holds. */
  function Digits(m: string): seq<Digit> {
    if m == [] then [] else
      var c := m[|m| - 1];
      Digits(m[..|m| - 1]) + if IsDigit(c) then [DigitOf(c)] else []
  }

  function HexDigits(m: string): seq<HexDigit> {
    if m == [] then [] else
      var c := m[|m| - 1];
      HexDigits(m[..|m| - 1]) + if IsHex(c) then [HexOf(c)] else []
  }

  /** The number that hexadecimal digits spell. */
  function Hex(s: seq<HexDigit>): nat { if s == [] then 0 else Hex(s[..|s| - 1]) * 16 + s[|s| - 1] }

  /** The number of characters after the point. */
  function Frac(m: string): nat {
    if m == [] || m[|m| - 1] == '.' || '.' !in m[..|m| - 1] then 0 else Frac(m[..|m| - 1]) + 1
  }

  // ---- significands ----

  predicate OfDigits(m: string, hex: bool) { forall i | 0 <= i < |m| :: if hex then IsHex(m[i]) else IsDigit(m[i]) }

  /** Digits with at most one point among them. */
  ghost predicate Significand(m: string, hex: bool) {
    OfDigits(m, hex) || exists p: nat :: PointAt(m, hex, p)
  }

  predicate PointAt(m: string, hex: bool, p: nat) {
    p < |m| && m[p] == '.' && OfDigits(m[..p], hex) && OfDigits(m[p + 1..], hex)
  }

  /** m goes no further than it must: c, the next character, would continue it. */
  predicate Continues(m: string, hex: bool, c: char) {
    (if hex then IsHex(c) else IsDigit(c)) || (c == '.' && '.' !in m)
  }

  predicate EndsAt(s: string, i: nat, k: nat, hex: bool)
  {
    i <= k <= |s| && (k < |s| ==> !Continues(s[i..k], hex, s[k]))
  }

  /** s[i..k] is the longest significand at i. */
  ghost predicate SignificandAt(s: string, i: nat, k: nat, hex: bool) {
    EndsAt(s, i, k, hex) && Significand(s[i..k], hex)
  }

  lemma SignificandGrows(m: string, hex: bool, c: char)
    requires Significand(m, hex) && Continues(m, hex, c)
    ensures Significand(m + [c], hex)
  {
    var n := m + [c];
    if c == '.' && '.' !in m {
      assert OfDigits(m, hex);
      assert n[..|m|] == m && n[|m| + 1..] == [];
      assert PointAt(n, hex, |m|);
    } else if OfDigits(m, hex) {
      assert OfDigits(n, hex);
    } else {
      var p: nat :| PointAt(m, hex, p);
      assert n[..p] == m[..p] && n[p + 1..] == m[p + 1..] + [c];
      assert PointAt(n, hex, p);
    }
  }

  lemma SignificandChars(m: string, hex: bool, i: nat)
    requires Significand(m, hex) && i < |m|
    ensures m[i] == '.' || (if hex then IsHex(m[i]) else IsDigit(m[i]))
    ensures m[i] == '.' ==> '.' !in m[..i] && '.' !in m[i + 1..]
  {
    if OfDigits(m, hex) {
    } else {
      var p: nat :| PointAt(m, hex, p);
      if i < p { assert m[..p][i] == m[i]; } else if i > p { assert m[p + 1..][i - p - 1] == m[i]; }
    }
  }

  /** The longest significand is unique: A is it when what follows does not continue A. */
  lemma SignificandUnique(s: string, i: nat, k: nat, k': nat, hex: bool)
    requires SignificandAt(s, i, k, hex) && SignificandAt(s, i, k', hex)
    ensures k == k'
  {
    if k <= k' { NotShorter(s, i, k, k', hex); } else { NotShorter(s, i, k', k, hex); }
  }

  lemma NotShorter(s: string, i: nat, k: nat, k': nat, hex: bool)
    requires SignificandAt(s, i, k, hex) && SignificandAt(s, i, k', hex) && k <= k'
    ensures k == k'
  {
    if k < k' {
      var m := s[i..k'];
      assert m[..k - i] == s[i..k] && m[k - i] == s[k];
      SignificandChars(m, hex, k - i);
      assert false;
    }
  }

  lemma DigitsSnoc(m: string, c: char)
    ensures Digits(m + [c]) == if IsDigit(c) then Digits(m) + [DigitOf(c)] else Digits(m)
    ensures HexDigits(m + [c]) == if IsHex(c) then HexDigits(m) + [HexOf(c)] else HexDigits(m)
    ensures Frac(m + [c]) == if c == '.' || '.' !in m then 0 else Frac(m) + 1
  {
    assert (m + [c])[..|m|] == m;
  }

  lemma HexSnoc(s: seq<HexDigit>, x: HexDigit)
    ensures Hex(s + [x]) == Hex(s) * 16 + x
  {
    assert (s + [x])[..|s|] == s;
  }

  lemma {:induction false} FracBound(m: string)
    ensures Frac(m) <= |m|
  {
    if m != [] { FracBound(m[..|m| - 1]); }
  }

  // ---- exponents ----

  predicate IsSign(c: char) { c == '+' || c == '-' }

  /** An exponent letter at k, perhaps a sign, and a digit: where the digits start. */
  function ExpStart(s: string, k: nat, letter: char): (r: nat) {
    if k + 1 < |s| && Lower(s[k]) == letter && IsSign(s[k + 1]) then k + 2 else k + 1
  }

  function Lower(c: char): char { if 'A' <= c <= 'Z' then (c as int + 32) as char else c }

  predicate HasExp(s: string, k: nat, letter: char) {
    k < |s| && Lower(s[k]) == letter && ExpStart(s, k, letter) < |s| && IsDigit(s[ExpStart(s, k, letter)])
  }

  /** s[k..e] is the exponent part (empty when there is none) and X its value. */
  predicate ExpAt(s: string, k: nat, letter: char, e: nat, X: int) {
    if HasExp(s, k, letter) then
      var b := ExpStart(s, k, letter);
      && b < e <= |s| && OfDigits(s[b..e], false) && (e < |s| ==> !IsDigit(s[e]))
      && X == if s[k + 1] == '-' then 0 - Dec(Digits(s[b..e])) else Dec(Digits(s[b..e]))
    else e == k && X == 0
  }

  lemma ExpUnique(s: string, k: nat, letter: char, e: nat, X: int, e': nat, X': int)
    requires ExpAt(s, k, letter, e, X) && ExpAt(s, k, letter, e', X')
    ensures e == e' && X == X'
  {
    if HasExp(s, k, letter) {
      var b := ExpStart(s, k, letter);
      if e < e' { assert false; }
      if e' < e { assert false; }
    }
  }
}
