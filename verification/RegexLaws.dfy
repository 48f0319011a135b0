/** What single-character tests, assertions, groups and literals of src/regex.c match, said of the bytes of the
    text. */
module RegexLaws {
  import Utf8
  import opened RegexText
  import opened RegexProgram
  import opened RegexMeaning
  import opened RegexRefer

  // ---- characters ----

  /** From i to j the text is the character c. */
  predicate IsChar(v: Subject, c: int, i: nat, j: nat)
    requires v.Valid()
  {
    Utf8.Scalar(c) && i <= j <= v.end && v.s[i..j] == Utf8.Encode(c)
  }

  lemma CharIs(v: Subject, c: int, i: nat, j: nat)
    requires v.Valid() && i <= v.end && 0 <= c < BAD
    ensures IsChar(v, c, i, j) <==> CharAt(v, i).c == c && j == i + CharAt(v, i).n
  {
    hide Dec; hide Utf8.Encode;
    if i < v.end {
      var t := v.s[i..v.end];
      DecBytes(t);
      if CharAt(v, i).c == c { assert t[..Dec(t).n] == v.s[i..i + Dec(t).n]; }
      if IsChar(v, c, i, j) {
        assert t[..j - i] == v.s[i..j];
        DecEncoded(c, t);
      }
    }
  }

  /** A character matches itself; without regard to case, a small letter matches whatever becomes it. */
  lemma CharLaw(v: Subject, x: int, i: nat, j: nat)
    requires v.Valid() && i <= v.end && Utf8.Scalar(x)
    ensures !v.icase ==> (Consumes(v, TChar(x), i, j) <==> IsChar(v, x, i, j))
    ensures v.icase && v.lower(x) == x ==>
        (Consumes(v, TChar(x), i, j) <==> exists c :: IsChar(v, c, i, j) && v.lower(c) == x)
  {
    hide CharAt;
    CharIs(v, x, i, j);
    var c := CharAt(v, i).c;
    if 0 <= c < BAD { CharIs(v, c, i, j); }
    if exists c' :: IsChar(v, c', i, j) && v.lower(c') == x {
      var c' :| IsChar(v, c', i, j) && v.lower(c') == x;
      CharIs(v, c', i, j);
    }
  }

  /** The period matches every well-formed character, but not the end of a line where lines matter. */
  lemma AnyLaw(v: Subject, i: nat, j: nat)
    requires v.Valid() && i <= v.end
    ensures Consumes(v, TAny, i, j) <==> exists c :: IsChar(v, c, i, j) && !(v.newline && c == 10)
  {
    hide CharAt;
    var c := CharAt(v, i).c;
    if 0 <= c < BAD { CharIs(v, c, i, j); }
    if exists c' :: IsChar(v, c', i, j) && !(v.newline && c' == 10) {
      var c' :| IsChar(v, c', i, j) && !(v.newline && c' == 10);
      CharIs(v, c', i, j);
    }
  }

  /** A bracket expression matches the well-formed characters in it; negated, those that it would not, but not the
      end of a line where lines matter. */
  lemma SetLaw(v: Subject, k: nat, i: nat, j: nat)
    requires v.Valid() && i <= v.end
    ensures Consumes(v, TSet(k), i, j) <==>
        exists c ::
            IsChar(v, c, i, j) && if v.neg(k) then !(v.newline && c == 10) && !Inside(v, k, c) else Inside(v, k, c)
  {
    hide CharAt;
    var c := CharAt(v, i).c;
    if 0 <= c < BAD { CharIs(v, c, i, j); }
    if exists c' :: IsChar(v, c', i, j)
        && if v.neg(k) then !(v.newline && c' == 10) && !Inside(v, k, c') else Inside(v, k, c') {
      var c' :| IsChar(v, c', i, j)
          && if v.neg(k) then !(v.newline && c' == 10) && !Inside(v, k, c') else Inside(v, k, c');
      CharIs(v, c', i, j);
    }
  }

  /** In the set, in any case if that is not to matter. */
  predicate Inside(v: Subject, k: nat, c: int) {
    v.inSet(k, c) || (v.icase && (v.inSet(k, v.lower(c)) || v.inSet(k, v.upper(c))))
  }

  // ---- assertions ----

  /** A letter, a digit or an underscore is at pos. */
  predicate WordHere(v: Subject, pos: nat)
    requires v.Valid()
  {
    pos < v.end && CharAt(v, pos).c < BAD && (CharAt(v, pos).c == 0x5f || v.alnum(CharAt(v, pos).c))
  }

  /** One ends at pos. */
  ghost predicate WordBefore(v: Subject, pos: nat)
    requires v.Valid()
  {
    exists q :: Boundary(v, q) && EndsAt(v, q, pos) && WordHere(v, q)
  }

  lemma BeforeIs(v: Subject, pos: nat)
    requires v.Valid() && Boundary(v, pos)
    ensures pos <= v.end && (IsWord(v, CharBefore(v, pos)) <==> WordBefore(v, pos))
  {
    hide Boundary; hide CharBefore; hide CharAt;
    BoundaryInRange(v, pos);
    if pos == v.beg {
      NothingBefore(v);
    } else {
      var q := PrecedingChar(v, pos);
      LookBehind(v, q);
      CharAtEnd(v, q);
      forall p | Boundary(v, p) && EndsAt(v, p, pos) ensures CharAt(v, p).c == CharAt(v, q).c { LookBehind(v, p); }
      assert WordHere(v, q) ==> WordBefore(v, pos);
    }
  }

  lemma NothingBefore(v: Subject)
    requires v.Valid()
    ensures CharBefore(v, v.beg) == -1 && !WordBefore(v, v.beg)
  {
    hide CharAt;
    if WordBefore(v, v.beg) {
      var q :| Boundary(v, q) && EndsAt(v, q, v.beg) && WordHere(v, q);
      BoundaryInRange(v, q);
      Longer(v, q);
    }
  }

  lemma Longer(v: Subject, q: nat)
    requires v.Valid() && q < v.end
    ensures CharAt(v, q).n > 0
  {
  }

  lemma WordAt(v: Subject, pos: nat)
    requires v.Valid()
    ensures IsWord(v, CharAt(v, pos).c) <==> WordHere(v, pos)
  {
    hide Dec;
    CharAtEnd(v, pos);
  }

  /** Assertions about words are about what ends and what begins at a place. */
  lemma WordLaw(v: Subject, pos: nat)
    requires v.Valid() && Boundary(v, pos)
    ensures Asserts(v, WordB, pos) <==> WordBefore(v, pos) != WordHere(v, pos)
    ensures Asserts(v, NWordB, pos) <==> WordBefore(v, pos) == WordHere(v, pos)
    ensures Asserts(v, WBeg, pos) <==> !WordBefore(v, pos) && WordHere(v, pos)
    ensures Asserts(v, WEnd, pos) <==> WordBefore(v, pos) && !WordHere(v, pos)
  {
    hide Boundary; hide CharBefore; hide CharAt; hide WordBefore; hide WordHere; hide IsWord;
    BeforeIs(v, pos);
    WordAt(v, pos);
  }

  /** A newline, as a byte, is at i. */
  predicate NewlineAt(v: Subject, i: int) { v.beg <= i < v.end && i < |v.s| && v.s[i] == 10 }

  lemma NewlineBefore(v: Subject, pos: nat)
    requires v.Valid() && v.beg <= pos <= v.end
    ensures CharBefore(v, pos) == 10 <==> NewlineAt(v, pos - 1)
  {
    hide Dec;
    if pos > v.beg {
      var q := BackUp(v, pos, pos - 1);
      TenIs(v.s[q..pos]); TenIs(v.s[pos - 1..pos]);
      if v.s[pos - 1] == 10 { assert q == pos - 1; }
    }
  }

  /** Only the byte is the newline. */
  lemma TenIs(s: seq<Byte>)
    requires s != []
    ensures Dec(s).c == 10 <==> s[0] == 10
    ensures Dec(s).c == 10 ==> Dec(s).n == 1
  {
    hide Dec;
    DecBytes(s);
    if Dec(s).c == 10 { assert s[..Dec(s).n][0] == s[0]; }
    if s[0] == 10 {
      assert Utf8.Encode(10) <= s;
      DecEncoded(10, s);
    }
  }

  /** Assertions about lines and the whole text. */
  lemma LineLaw(v: Subject, pos: nat)
    requires v.Valid() && v.beg <= pos <= v.end
    ensures Asserts(v, Bol, pos) <==> (pos == v.beg && !v.notBol) || (v.newline && NewlineAt(v, pos - 1))
    ensures Asserts(v, Eol, pos) <==> (pos == v.end && !v.notEol) || (v.newline && NewlineAt(v, pos))
    ensures Asserts(v, BufBeg, pos) <==> pos == v.beg
    ensures Asserts(v, BufEnd, pos) <==> pos == v.end
  {
    hide CharBefore; hide Dec;
    NewlineBefore(v, pos);
    if pos < v.end { TenIs(v.s[pos..v.end]); }
  }

  // ---- literals ----

  /** A text written out. */
  function Literal(cs: seq<int>): Node { if cs == [] then Empty else Cat(One(TChar(cs[0])), Literal(cs[1..])) }

  /** A pattern without special characters matches exactly its own text. */
  lemma {:induction false} LiteralLaw(v: Subject, cs: seq<int>, i: nat, j: nat)
    requires v.Valid() && i <= v.end && Utf8.Scalars(cs) && !v.icase
    ensures Matches(v, Literal(cs), i, j) <==> i <= j <= v.end && v.s[i..j] == Utf8.EncodeAll(cs)
    decreases |cs|
  {
    hide Matches; hide Utf8.Encode;
    if cs == [] {
      EmptyMatches(v, i, j);
      if i <= j <= v.end && v.s[i..j] == [] { assert j - i == |v.s[i..j]| == 0; }
    } else {
      if Matches(v, Literal(cs), i, j) {
        var m := CatSplit(v, Literal(cs), i, j);
        LiteralChar(v, cs[0], i, m);
        LiteralLaw(v, cs[1..], m, j);
        assert v.s[i..j] == v.s[i..m] + v.s[m..j];
      }
      if i <= j <= v.end && v.s[i..j] == Utf8.EncodeAll(cs) {
        var e := Utf8.Encode(cs[0]);
        var m := i + |e|;
        assert v.s[i..m] == v.s[i..j][..|e|] && v.s[m..j] == v.s[i..j][|e|..];
        LiteralChar(v, cs[0], i, m);
        LiteralLaw(v, cs[1..], m, j);
        CatJoin(v, Literal(cs), i, m, j);
      }
    }
  }

  function Repeated(s: seq<Byte>, k: nat): seq<Byte> { if k == 0 then [] else s + Repeated(s, k - 1) }

  /** A literal that is repeated matches its text so many times over. */
  lemma {:induction false} RepeatLaw(v: Subject, cs: seq<int>, k: nat, i: nat, j: nat)
    requires v.Valid() && i <= v.end && Utf8.Scalars(cs) && !v.icase
    ensures Repeats(v, Literal(cs), k, i, j) <==> i <= j <= v.end && v.s[i..j] == Repeated(Utf8.EncodeAll(cs), k)
  {
    hide Matches;
    var t, e := Literal(cs), Utf8.EncodeAll(cs);
    if k == 0 {
      if i <= j <= v.end && v.s[i..j] == [] { assert j - i == |v.s[i..j]| == 0; }
    } else {
      if Repeats(v, t, k, i, j) {
        var m := RoundsSplit(v, t, k, i, j);
        LiteralLaw(v, cs, i, m);
        RepeatLaw(v, cs, k - 1, m, j);
        assert v.s[i..j] == v.s[i..m] + v.s[m..j];
      }
      if i <= j <= v.end && v.s[i..j] == Repeated(e, k) {
        var m := i + |e|;
        assert v.s[i..m] == v.s[i..j][..|e|] && v.s[m..j] == v.s[i..j][|e|..];
        LiteralLaw(v, cs, i, m);
        RepeatLaw(v, cs, k - 1, m, j);
        assert Matches(v, t, i, m) && Repeats(v, t, k - 1, m, j);
      }
    }
  }

  /** {m,n} of a literal, and {m,} for n < 0. */
  lemma BoundsLaw(v: Subject, cs: seq<int>, mn: nat, mx: int, i: nat, j: nat)
    requires v.Valid() && i <= v.end && Utf8.Scalars(cs) && !v.icase
    ensures Matches(v, Rep(Literal(cs), mn, mx), i, j) <==>
        i <= j <= v.end && exists k: nat ::
            mn <= k && (mx < 0 || k <= mx) && v.s[i..j] == Repeated(Utf8.EncodeAll(cs), k)
  {
    hide Matches; hide Repeats;
    var r := Rep(Literal(cs), mn, mx);
    if Matches(v, r, i, j) {
      var k := RepSplit(v, r, i, j);
      RepeatLaw(v, cs, k, i, j);
    }
    if i <= j <= v.end {
      forall k: nat | mn <= k && (mx < 0 || k <= mx) && v.s[i..j] == Repeated(Utf8.EncodeAll(cs), k)
        ensures Matches(v, r, i, j)
      {
        RepeatLaw(v, cs, k, i, j);
        RepJoin(v, r, k, i, j);
      }
    }
  }

  lemma RepSplit(v: Subject, t: Node, i: nat, j: nat) returns (k: nat)
    requires v.Valid() && t.Rep? && Matches(v, t, i, j)
    ensures t.mn <= k && (t.mx < 0 || k <= t.mx) && Repeats(v, t.a, k, i, j)
  {
    k :| t.mn <= k && (t.mx < 0 || k <= t.mx) && Repeats(v, t.a, k, i, j);
  }

  lemma RepJoin(v: Subject, t: Node, k: nat, i: nat, j: nat)
    requires v.Valid() && t.Rep? && t.mn <= k && (t.mx < 0 || k <= t.mx) && Repeats(v, t.a, k, i, j)
    ensures Matches(v, t, i, j)
  {
  }

  lemma RoundsSplit(v: Subject, t: Node, k: nat, i: nat, j: nat) returns (m: nat)
    requires v.Valid() && k > 0 && Repeats(v, t, k, i, j)
    ensures Matches(v, t, i, m) && Repeats(v, t, k - 1, m, j)
  {
    m :| Matches(v, t, i, m) && Repeats(v, t, k - 1, m, j);
  }

  lemma EmptyMatches(v: Subject, i: nat, j: nat)
    requires v.Valid()
    ensures Matches(v, Empty, i, j) <==> i == j
  {
  }

  lemma LiteralChar(v: Subject, x: int, i: nat, m: nat)
    requires v.Valid() && i <= v.end && Utf8.Scalar(x) && !v.icase
    ensures Matches(v, One(TChar(x)), i, m) <==> i <= m <= v.end && v.s[i..m] == Utf8.Encode(x)
  {
    hide Consumes; hide Utf8.Encode;
    CharLaw(v, x, i, m);
  }

  lemma CatSplit(v: Subject, t: Node, i: nat, j: nat) returns (m: nat)
    requires v.Valid() && t.Cat? && Matches(v, t, i, j)
    ensures Matches(v, t.a, i, m) && Matches(v, t.b, m, j)
  {
    match t
    case Cat(a, b) =>
      var n: nat :| Matches(v, a, i, n) && Matches(v, b, n, j);
      m := n;
  }

  lemma CatJoin(v: Subject, t: Node, i: nat, m: nat, j: nat)
    requires v.Valid() && t.Cat? && Matches(v, t.a, i, m) && Matches(v, t.b, m, j)
    ensures Matches(v, t, i, j)
  {
  }

  // ---- groups ----

  predicate NoGroup(t: Node, k: nat) {
    match t
    case Cat(a, b) => NoGroup(a, k) && NoGroup(b, k)
    case Alt(a, b) => NoGroup(a, k) && NoGroup(b, k)
    case Rep(a, _, _) => NoGroup(a, k)
    case Group(a, n) => n != k && NoGroup(a, k)
    case _ => true
  }

  /** What no group inside a tree is numbered, the tree does not touch. */
  lemma {:induction false} Untouched(v: Subject, strict: bool, t: Node, a: St, b: St, k: nat)
    requires v.Valid() && Rel(v, strict, t, a, b) && NoGroup(t, k)
    ensures |b.caps| == |a.caps| && Get(b.caps, 2 * k) == Get(a.caps, 2 * k)
        && Get(b.caps, 2 * k + 1) == Get(a.caps, 2 * k + 1)
    decreases t, 2, 0
  {
    match t
    case Cat(x, y) =>
      assert RelCat(v, strict, x, y, a, b);
      var m :| Rel(v, strict, x, a, m) && Rel(v, strict, y, m, b);
      Untouched(v, strict, x, a, m, k); Untouched(v, strict, y, m, b, k);
    case Alt(x, y) =>
      if Rel(v, strict, x, a, b) { Untouched(v, strict, x, a, b, k); } else { Untouched(v, strict, y, a, b, k); }
    case Group(x, n) =>
      assert RelGroup(v, strict, x, n, a, b);
      var m :| Rel(v, strict, x, Save(a, 2 * n), m) && b == Save(m, 2 * n + 1);
      Untouched(v, strict, x, Save(a, 2 * n), m, k);
    case Rep(x, mn, mx) =>
      if mx < 0 {
        assert RelAtLeast(v, strict, x, mn, a, b);
        var m :| Power(v, strict, x, Straight(mn), a, m) && Rounds(v, strict, x, mn == 0, m, b);
        PowerUntouched(v, strict, x, Straight(mn), a, m, k);
        assert Rounds(v, strict, x, mn == 0, m, b);
        if !(mn == 0 && m == b) {
          var n: nat :| Iterates(v, strict, x, n, m, b);
          IteratesUntouched(v, strict, x, n, m, b, k);
        }
      } else {
        assert RelBetween(v, strict, x, mn, mx, a, b);
        var n: nat :| mn <= n <= mx && Power(v, strict, x, n, a, b);
        PowerUntouched(v, strict, x, n, a, b, k);
      }
    case _ =>
  }

  lemma {:induction false} PowerUntouched(v: Subject, strict: bool, x: Node, n: nat, a: St, b: St, k: nat)
    requires v.Valid() && Power(v, strict, x, n, a, b) && NoGroup(x, k)
    ensures |b.caps| == |a.caps| && Get(b.caps, 2 * k) == Get(a.caps, 2 * k)
        && Get(b.caps, 2 * k + 1) == Get(a.caps, 2 * k + 1)
    decreases x, 3, n
  {
    if n > 0 {
      var m :| Rel(v, strict, x, a, m) && Power(v, strict, x, n - 1, m, b);
      Untouched(v, strict, x, a, m, k); PowerUntouched(v, strict, x, n - 1, m, b, k);
    }
  }

  lemma {:induction false} IteratesUntouched(v: Subject, strict: bool, x: Node, n: nat, a: St, b: St, k: nat)
    requires v.Valid() && Iterates(v, strict, x, n, a, b) && NoGroup(x, k)
    ensures |b.caps| == |a.caps| && Get(b.caps, 2 * k) == Get(a.caps, 2 * k)
        && Get(b.caps, 2 * k + 1) == Get(a.caps, 2 * k + 1)
    decreases x, 3, n
  {
    if n == 0 { Untouched(v, strict, x, a, b, k); } else {
      var m :| Rel(v, strict, x, a, m) && (strict ==> m.pos != a.pos) && Iterates(v, strict, x, n - 1, m, b);
      Untouched(v, strict, x, a, m, k); IteratesUntouched(v, strict, x, n - 1, m, b, k);
    }
  }

  /** A group remembers where what it matched begins and ends. */
  lemma GroupLaw(v: Subject, strict: bool, x: Node, k: Pos, a: St, b: St)
    requires v.Valid() && Rel(v, strict, Group(x, k), a, b) && NoGroup(x, k) && 2 * k + 1 < |a.caps|
    ensures |b.caps| == |a.caps| && b.caps[2 * k] == a.pos && b.caps[2 * k + 1] == b.pos
  {
    hide Rel;
    assert RelGroup(v, strict, x, k, a, b) by { GroupRel(v, strict, x, k, a, b); }
    var m :| Rel(v, strict, x, Save(a, 2 * k), m) && b == Save(m, 2 * k + 1);
    Untouched(v, strict, x, Save(a, 2 * k), m, k);
  }

  lemma GroupRel(v: Subject, strict: bool, x: Node, k: Pos, a: St, b: St)
    requires v.Valid() && Rel(v, strict, Group(x, k), a, b)
    ensures RelGroup(v, strict, x, k, a, b)
  {
  }
}
