/** The subject text of the regular-expression matcher (src/regex.c): bytes decoded as UTF-8,
    where an undecodable byte stands for itself, and the tests that instructions make on it.
    Wide-character classification and case mapping are parameters of the subject. */
module RegexText {
  import Utf8

  type Byte = Utf8.Byte

  const BAD := 0x200000

  /** What `dec` returns: a code point (or BAD + byte) and the number of bytes it takes. */
  datatype Decoded = Decoded(c: int, n: nat)

  predicate Continuation(b: Byte) { 0x80 <= b < 0xc0 }

  /** The loop of `dec`: six more bits from each continuation byte. */
  function Gather(s: seq<Byte>, v: int, i: nat, n: nat): int
    requires i <= n <= |s|
    decreases n - i
  {
    if i == n then v else Gather(s, v * 64 + s[i] as int % 64, i + 1, n)
  }

  function CodePoint(s: seq<Byte>, n: nat): int
    requires 1 <= n <= |s|
  {
    Gather(s, Utf8.LeadBits(s[0], n), 1, n)
  }

  lemma {:induction false} GatherPrefix(s: seq<Byte>, k: nat, v: int, i: nat, n: nat)
    requires i <= n <= k <= |s|
    ensures Gather(s[..k], v, i, n) == Gather(s, v, i, n)
    decreases n - i
  {
    if i < n { GatherPrefix(s, k, v * 64 + s[i] as int % 64, i + 1, n); }
  }

  predicate Overlong(n: nat, v: int) {
    || (n == 3 && v < 0x800)
    || (n == 4 && (v < 0x10000 || v > 0x10ffff))
    || 0xd800 <= v <= 0xdfff
  }

  predicate Complete(s: seq<Byte>, n: nat)
    requires |s| > 0
  {
    2 <= n <= 4 && n <= |s| && (forall i | 1 <= i < n :: Continuation(s[i])) && !Overlong(n, CodePoint(s, n))
  }

  function Dec(s: seq<Byte>): (d: Decoded)
    requires |s| > 0
    ensures 1 <= d.n <= |s| && d.n <= 4
  {
    if s[0] < 0x80 then Decoded(s[0], 1)
    else
      var n := Utf8.Announced(s[0]);
      if Complete(s, n) then Decoded(CodePoint(s, n), n) else Decoded(BAD + s[0], 1)
  }

  datatype AssertKind = Bol | Eol | WordB | NWordB | WBeg | WEnd | BufBeg | BufEnd

  /** One-character tests: the operands of I_CHAR, I_ANY and I_SET. */
  datatype Test = TChar(c: int) | TAny | TSet(set_: nat)

  /** The subject and flags of one execution (`struct vm`). `inSet` is the raw membership of a
      bracket expression, `neg` whether it is negated. */
  datatype Subject = Subject(
    s: seq<Byte>, beg: nat, end: nat,
    notBol: bool, notEol: bool, icase: bool, newline: bool,
    alnum: int -> bool, lower: int -> int, upper: int -> int,
    inSet: (nat, int) -> bool, neg: nat -> bool)
  {
    ghost predicate Valid() { beg <= end <= |s| }
  }

  const NEWLINE := 10
  const UNDERSCORE := 95

  function CharAt(v: Subject, pos: nat): (d: Decoded)
    requires v.Valid()
    ensures d.n == 0 <==> pos >= v.end
    ensures pos + d.n <= v.end || pos > v.end
  {
    if pos >= v.end then Decoded(-1, 0) else Dec(v.s[pos..v.end])
  }

  /** The start of the last character before pos, looking back over at most three continuation
      bytes (the loop of `char_before`). */
  function BackUp(v: Subject, pos: nat, q: nat): (r: nat)
    requires v.Valid() && v.beg <= q < pos <= v.end
    ensures v.beg <= r <= q
    decreases q
  {
    if q > v.beg && pos - q < 4 && Continuation(v.s[q]) then BackUp(v, pos, q - 1) else q
  }

  function CharBefore(v: Subject, pos: nat): int
    requires v.Valid() && pos <= v.end
  {
    if pos <= v.beg then -1
    else
      var q := BackUp(v, pos, pos - 1);
      var d := Dec(v.s[q..pos]);
      if q + d.n != pos then Dec(v.s[pos - 1..pos]).c else d.c
  }

  predicate IsWord(v: Subject, c: int) { 0 <= c < BAD && (c == UNDERSCORE || v.alnum(c)) }

  predicate AssertOk(v: Subject, kind: AssertKind, pos: nat, prev: int, next: int) {
    match kind
    case Bol => (pos == v.beg && !v.notBol) || (v.newline && prev == NEWLINE)
    case Eol => (pos == v.end && !v.notEol) || (v.newline && next == NEWLINE)
    case WordB => IsWord(v, prev) != IsWord(v, next)
    case NWordB => IsWord(v, prev) == IsWord(v, next)
    case WBeg => !IsWord(v, prev) && IsWord(v, next)
    case WEnd => IsWord(v, prev) && !IsWord(v, next)
    case BufBeg => pos == v.beg
    case BufEnd => pos == v.end
  }

  predicate CharOk(v: Subject, t: Test, c: int) {
    c >= 0 &&
    match t
    case TChar(x) => x == c || (v.icase && c < BAD && x == v.lower(c))
    case TAny => c < BAD && !(v.newline && c == NEWLINE)
    case TSet(k) =>
      c < BAD && !(v.neg(k) && v.newline && c == NEWLINE) &&
      (v.inSet(k, c) || (v.icase && (v.inSet(k, v.lower(c)) || v.inSet(k, v.upper(c))))) != v.neg(k)
  }

  /** The assertion as the backtracker evaluates it, looking around from pos alone. */
  predicate AssertAt(v: Subject, kind: AssertKind, pos: nat)
    requires v.Valid() && pos <= v.end
  {
    AssertOk(v, kind, pos, CharBefore(v, pos), CharAt(v, pos).c)
  }

  /** pos is where the character at q ends. */
  predicate EndsAt(v: Subject, q: nat, pos: nat)
    requires v.Valid()
  {
    q < v.end && q + CharAt(v, q).n == pos
  }

  /** Character boundaries: the positions reached by decoding forward from the start. */
  ghost predicate Boundary(v: Subject, pos: nat)
    requires v.Valid()
    decreases pos
  {
    pos == v.beg || exists q | v.beg <= q < pos :: Boundary(v, q) && EndsAt(v, q, pos)
  }

  lemma BoundaryInRange(v: Subject, pos: nat)
    requires v.Valid() && Boundary(v, pos)
    ensures v.beg <= pos <= v.end
  {
  }

  lemma BoundaryNext(v: Subject, pos: nat)
    requires v.Valid() && Boundary(v, pos) && pos < v.end
    ensures Boundary(v, pos + CharAt(v, pos).n)
  {
    assert EndsAt(v, pos, pos + CharAt(v, pos).n);
    BoundaryInRange(v, pos);
  }

  /** A character is one byte, or a lead byte and continuation bytes. */
  lemma CharShape(v: Subject, q: nat, i: nat)
    requires v.Valid() && q < v.end && q < i < q + CharAt(v, q).n
    ensures Continuation(v.s[i]) && !Continuation(v.s[q])
  {
    var s := v.s[q..v.end];
    assert s[0] == v.s[q] && s[i - q] == v.s[i];
  }

  /** Decoding does not depend on what follows a complete character. */
  lemma DecPrefix(s: seq<Byte>, k: nat)
    requires |s| > 0 && 1 <= Dec(s).n <= k <= |s|
    ensures Dec(s[..k]) == Dec(s)
  {
    var n := Utf8.Announced(s[0]);
    if 2 <= n <= k { CompletePrefix(s, k, n); }
  }

  lemma CompletePrefix(s: seq<Byte>, k: nat, n: nat)
    requires 2 <= n <= k <= |s|
    ensures Complete(s[..k], n) == Complete(s, n) && CodePoint(s[..k], n) == CodePoint(s, n)
  {
    GatherPrefix(s, k, Utf8.LeadBits(s[0], n), 1, n);
    assert forall i | 1 <= i < n :: s[..k][i] == s[i];
  }

  lemma DecExtends(s: seq<Byte>, k: nat)
    requires 1 <= k <= |s| && Dec(s[..k]).n > 1
    ensures Dec(s).n == Dec(s[..k]).n
  {
    CompletePrefix(s, k, Utf8.Announced(s[0]));
  }

  lemma PrecedingChar(v: Subject, pos: nat) returns (r: nat)
    requires v.Valid() && Boundary(v, pos) && pos != v.beg
    ensures v.beg <= r < pos && Boundary(v, r) && EndsAt(v, r, pos)
  {
    r :| v.beg <= r < pos && Boundary(v, r) && EndsAt(v, r, pos);
  }

  /** A byte that is not a continuation byte always starts a character: a boundary beyond it
      implies a boundary at it. */
  lemma {:induction false} LeadIsBoundary(v: Subject, q: nat, pos: nat)
    requires v.Valid() && Boundary(v, pos) && v.beg <= q < pos && q < v.end
    requires q == v.beg || !Continuation(v.s[q])
    ensures Boundary(v, q)
    decreases pos
  {
    if q != v.beg {
      var r := PrecedingChar(v, pos);
      if q < r {
        LeadIsBoundary(v, q, r);
      } else if r < q {
        CharShape(v, r, q);
        assert false;
      }
    }
  }

  /** No boundary lies inside a character. */
  lemma {:induction false} NoBoundaryInside(v: Subject, q: nat, e: nat, pos: nat)
    requires v.Valid() && Boundary(v, q) && Boundary(v, pos) && q < pos && EndsAt(v, q, e)
    ensures e <= pos
    decreases pos
  {
    BoundaryInRange(v, q);
    var r := PrecedingChar(v, pos);
    if q < r {
      NoBoundaryInside(v, q, e, r);
    } else if r < q {
      NoBoundaryInside(v, r, pos, q);
    }
  }

  lemma {:induction false} BackUpShape(v: Subject, pos: nat, q: nat)
    requires v.Valid() && v.beg <= q < pos <= v.end
    ensures var r := BackUp(v, pos, q);
            r == v.beg || !Continuation(v.s[r]) || pos - r >= 4
    decreases q
  {
    if q > v.beg && pos - q < 4 && Continuation(v.s[q]) { BackUpShape(v, pos, q - 1); }
  }

  lemma {:induction false} BackUpStops(v: Subject, pos: nat, q: nat, r: nat)
    requires v.Valid() && v.beg <= r <= q < pos <= v.end && pos - r <= 4
    requires forall i | r < i <= q :: Continuation(v.s[i])
    requires r == v.beg || !Continuation(v.s[r])
    ensures BackUp(v, pos, q) == r
    decreases q
  {
    if r < q { BackUpStops(v, pos, q - 1, r); }
  }

  lemma SliceOfSlice<T>(s: seq<T>, a: nat, b: nat, c: nat)
    requires a <= b <= c <= |s|
    ensures s[a..c][..b - a] == s[a..b]
  {
  }

  /** Looking back from a boundary finds the very character that decoding forward produced, for
      every byte string, valid UTF-8 or not. So the Pike machine, which remembers the previous
      character, and the backtracker, which looks back, evaluate assertions alike. */
  lemma LookBehind(v: Subject, r: nat)
    requires v.Valid() && Boundary(v, r) && r < v.end
    ensures CharBefore(v, r + CharAt(v, r).n) == CharAt(v, r).c
  {
    hide Boundary; hide BackUp; hide Dec;
    BoundaryInRange(v, r);
    var d := CharAt(v, r);
    SliceOfSlice(v.s, r, r + d.n, v.end);
    DecPrefix(v.s[r..v.end], d.n);
    if d.n > 1 {
      LookBehindWide(v, r);
    } else {
      LookBehindByte(v, r);
    }
  }

  lemma LookBehindWide(v: Subject, r: nat)
    requires v.Valid() && v.beg <= r < v.end && CharAt(v, r).n > 1
    ensures BackUp(v, r + CharAt(v, r).n, r + CharAt(v, r).n - 1) == r
  {
    var pos := r + CharAt(v, r).n;
    CharShape(v, r, r + 1);
    forall i | r < i <= pos - 1 ensures Continuation(v.s[i]) { CharShape(v, r, i); }
    BackUpStops(v, pos, pos - 1, r);
  }

  /** A byte decoded on its own is not the end of a longer complete character. */
  lemma LookBehindByte(v: Subject, r: nat)
    requires v.Valid() && Boundary(v, r) && v.beg <= r < v.end && CharAt(v, r).n == 1
    ensures CharBefore(v, r + 1) == Dec(v.s[r..r + 1]).c
  {
    hide Boundary; hide BackUp; hide Dec;
    var pos := r + 1;
    var q := BackUp(v, pos, r);
    if q != r && q + Dec(v.s[q..pos]).n == pos {
      BackUpShape(v, pos, r);
      NotMidCharacter(v, q, r);
      assert false;
    }
  }

  lemma NotMidCharacter(v: Subject, q: nat, r: nat)
    requires v.Valid() && Boundary(v, r) && v.beg <= q < r < v.end
    requires q == v.beg || !Continuation(v.s[q]) || r + 1 - q >= 4
    ensures q + Dec(v.s[q..r + 1]).n != r + 1
  {
    hide Boundary; hide BackUp;
    var d := Dec(v.s[q..r + 1]);
    if q + d.n == r + 1 {
      assert v.s[q..r + 1][0] == v.s[q];
      LeadIsBoundary(v, q, r);
      SliceOfSlice(v.s, q, r + 1, v.end);
      DecExtends(v.s[q..v.end], r + 1 - q);
      NoBoundaryInside(v, q, r + 1, r);
      assert false;
    }
  }
}
