/** What a parse tree means: first as a relation between positions, as section 9 of XBD in
    POSIX.1 describes matching, then as a relation between positions together with captures,
    which back-references need. */
module RegexMeaning {
  import opened RegexText
  import opened RegexProgram

  function Get(s: seq<int>, i: int): int { if 0 <= i < |s| then s[i] else -1 }

  function Set(s: seq<int>, i: int, x: int): (r: seq<int>)
    ensures |r| == |s|
  {
    if 0 <= i < |s| then s[i := x] else s
  }

  // ---- positions only ----

  /** The character at i passes the test and ends at j. */
  predicate Consumes(v: Subject, test: Test, i: nat, j: nat)
    requires v.Valid()
  {
    CharOk(v, test, CharAt(v, i).c) && j == i + CharAt(v, i).n
  }

  predicate Asserts(v: Subject, kind: AssertKind, i: nat)
    requires v.Valid()
  {
    i <= v.end && AssertAt(v, kind, i)
  }

  /** t matches the text from i to j. A tree with back-references has no meaning here. */
  ghost predicate Matches(v: Subject, t: Node, i: nat, j: nat)
    requires v.Valid()
    decreases t, 0
  {
    match t
    case Empty => i == j
    case One(test) => Consumes(v, test, i, j)
    case Assert(kind) => i == j && Asserts(v, kind, i)
    case Cat(a, b) => exists m: nat :: Matches(v, a, i, m) && Matches(v, b, m, j)
    case Alt(a, b) => Matches(v, a, i, j) || Matches(v, b, i, j)
    case Group(a, _) => Matches(v, a, i, j)
    case Rep(a, mn, mx) => exists k: nat :: mn <= k && (mx < 0 || k <= mx) && Repeats(v, a, k, i, j)
    case BackRef(_) => false
  }

  /** Exactly k consecutive matches of a. */
  ghost predicate Repeats(v: Subject, a: Node, k: nat, i: nat, j: nat)
    requires v.Valid()
    decreases a, 1, k
  {
    if k == 0 then i == j else exists m: nat :: Matches(v, a, i, m) && Repeats(v, a, k - 1, m, j)
  }

  // ---- positions and captures ----

  datatype St = St(pos: nat, caps: seq<int>)

  function Save(a: St, slot: nat): St { a.(caps := Set(a.caps, slot, a.pos)) }

  /** Compare the captured text q..e with the text at pos, character by character, folding case
      if asked; -1 if it differs, otherwise where the repeated text ends. */
  function Compare(v: Subject, q: nat, e: nat, pos: nat): (r: int)
    requires v.Valid()
    ensures -1 <= r && (r < 0 || r >= pos)
    ensures pos <= v.end ==> r <= v.end
    decreases e - q
  {
    if q >= e then pos
    else if e > |v.s| then -1
    else
      var c1, c2 := Dec(v.s[q..e]), CharAt(v, pos);
      if c2.c < 0 || (c1.c != c2.c && !(v.icase && c1.c < BAD && c2.c < BAD && v.lower(c1.c) == v.lower(c2.c)))
      then -1
      else Compare(v, q + c1.n, e, pos + c2.n)
  }

  /** Where a back-reference to group k ends, or -1. */
  function Refer(v: Subject, k: Pos, a: St): (r: int)
    requires v.Valid()
    ensures -1 <= r && (r < 0 || r >= a.pos)
    ensures a.pos <= v.end ==> r <= v.end
  {
    var so, eo := Get(a.caps, 2 * k), Get(a.caps, 2 * k + 1);
    if so < 0 || eo < 0 then -1 else Compare(v, so, eo, a.pos)
  }

  /** t leads from state a to state b. With `strict`, an iteration of an unbounded repetition
      that consumes nothing is the last one. */
  ghost predicate Rel(v: Subject, strict: bool, t: Node, a: St, b: St)
    requires v.Valid()
    decreases t, 1
  {
    match t
    case Empty => a == b
    case One(test) => Consumes(v, test, a.pos, b.pos) && b.caps == a.caps
    case Assert(kind) => a == b && Asserts(v, kind, a.pos)
    case Cat(x, y) => RelCat(v, strict, x, y, a, b)
    case Alt(x, y) => Rel(v, strict, x, a, b) || Rel(v, strict, y, a, b)
    case Group(x, k) => RelGroup(v, strict, x, k, a, b)
    case Rep(x, mn, mx) => if mx < 0 then RelAtLeast(v, strict, x, mn, a, b) else RelBetween(v, strict, x, mn, mx, a, b)
    case BackRef(k) => b.pos == Refer(v, k, a) && b.caps == a.caps
  }

  ghost predicate RelCat(v: Subject, strict: bool, x: Node, y: Node, a: St, b: St)
    requires v.Valid()
    decreases Cat(x, y), 0
  {
    exists m :: Rel(v, strict, x, a, m) && Rel(v, strict, y, m, b)
  }

  ghost predicate RelGroup(v: Subject, strict: bool, x: Node, k: Pos, a: St, b: St)
    requires v.Valid()
    decreases x, 2
  {
    exists m :: Rel(v, strict, x, Save(a, 2 * k), m) && b == Save(m, 2 * k + 1)
  }

  ghost predicate RelAtLeast(v: Subject, strict: bool, x: Node, mn: nat, a: St, b: St)
    requires v.Valid()
    decreases x, 4
  {
    exists m :: Power(v, strict, x, Straight(mn), a, m) && Rounds(v, strict, x, mn == 0, m, b)
  }

  ghost predicate RelBetween(v: Subject, strict: bool, x: Node, mn: nat, mx: int, a: St, b: St)
    requires v.Valid()
    decreases x, 4
  {
    exists k: nat :: mn <= k <= mx && Power(v, strict, x, k, a, b)
  }

  /** Exactly k consecutive copies of x. */
  ghost predicate Power(v: Subject, strict: bool, x: Node, k: nat, a: St, b: St)
    requires v.Valid()
    decreases x, 2, k
  {
    if k == 0 then a == b else exists m :: Rel(v, strict, x, a, m) && Power(v, strict, x, k - 1, m, b)
  }

  /** At least one iteration of x (or none, if it may be skipped). */
  ghost predicate Rounds(v: Subject, strict: bool, x: Node, skip: bool, a: St, b: St)
    requires v.Valid()
    decreases x, 3
  {
    (skip && a == b) || exists k: nat :: Iterates(v, strict, x, k, a, b)
  }

  /** k + 1 iterations of x, the first k consuming something if `strict`. */
  ghost predicate Iterates(v: Subject, strict: bool, x: Node, k: nat, a: St, b: St)
    requires v.Valid()
    decreases x, 2, k
  {
    if k == 0 then Rel(v, strict, x, a, b)
    else exists m :: Rel(v, strict, x, a, m) && (strict ==> m.pos != a.pos) && Iterates(v, strict, x, k - 1, m, b)
  }

  // ---- matching moves forward and stays on character boundaries ----

  /** A position that a match from a boundary can reach. */
  ghost predicate After(v: Subject, i: nat, j: nat)
    requires v.Valid()
  {
    Boundary(v, j) && i <= j <= v.end
  }

  lemma {:induction false} MatchesForward(v: Subject, t: Node, i: nat, j: nat)
    requires v.Valid() && Boundary(v, i) && Matches(v, t, i, j)
    ensures After(v, i, j)
    decreases t, 0
  {
    BoundaryInRange(v, i);
    match t
    case One(test) => BoundaryNext(v, i);
    case Cat(a, b) =>
      var m: nat :| Matches(v, a, i, m) && Matches(v, b, m, j);
      MatchesForward(v, a, i, m); MatchesForward(v, b, m, j);
    case Alt(a, b) => if Matches(v, a, i, j) { MatchesForward(v, a, i, j); } else { MatchesForward(v, b, i, j); }
    case Group(a, _) => MatchesForward(v, a, i, j);
    case Rep(a, mn, mx) =>
      var k: nat :| mn <= k && (mx < 0 || k <= mx) && Repeats(v, a, k, i, j);
      RepeatsForward(v, a, k, i, j);
    case _ =>
  }

  lemma {:induction false} RepeatsForward(v: Subject, a: Node, k: nat, i: nat, j: nat)
    requires v.Valid() && Boundary(v, i) && Repeats(v, a, k, i, j)
    ensures After(v, i, j)
    decreases a, 1, k
  {
    BoundaryInRange(v, i);
    if k > 0 {
      var m: nat :| Matches(v, a, i, m) && Repeats(v, a, k - 1, m, j);
      MatchesForward(v, a, i, m); RepeatsForward(v, a, k - 1, m, j);
    }
  }

  // ---- the two meanings agree when there are no back-references ----

  /** Forgetting captures: whatever the relation allows, the positions match. */
  lemma {:induction false} RelMatches(v: Subject, strict: bool, t: Node, a: St, b: St)
    requires v.Valid() && NoBackRefs(t) && Rel(v, strict, t, a, b)
    ensures Matches(v, t, a.pos, b.pos)
    decreases t, 0
  {
    match t
    case Cat(x, y) =>
      assert RelCat(v, strict, x, y, a, b);
      var m :| Rel(v, strict, x, a, m) && Rel(v, strict, y, m, b);
      RelMatches(v, strict, x, a, m); RelMatches(v, strict, y, m, b);
    case Alt(x, y) =>
        if Rel(v, strict, x, a, b) { RelMatches(v, strict, x, a, b); } else { RelMatches(v, strict, y, a, b); }
    case Group(x, k) =>
      assert RelGroup(v, strict, x, k, a, b);
      var m :| Rel(v, strict, x, Save(a, 2 * k), m) && b == Save(m, 2 * k + 1);
      RelMatches(v, strict, x, Save(a, 2 * k), m);
    case Rep(x, mn, mx) =>
      if mx < 0 {
        assert RelAtLeast(v, strict, x, mn, a, b);
        var m :| Power(v, strict, x, Straight(mn), a, m) && Rounds(v, strict, x, mn == 0, m, b);
        PowerMatches(v, strict, x, Straight(mn), a, m);
        RoundsMatches(v, strict, x, mn == 0, m, b, Straight(mn), a.pos);
      } else {
        assert RelBetween(v, strict, x, mn, mx, a, b);
        var k: nat :| mn <= k <= mx && Power(v, strict, x, k, a, b);
        PowerMatches(v, strict, x, k, a, b);
      }
    case _ =>
  }

  lemma {:induction false} PowerMatches(v: Subject, strict: bool, x: Node, k: nat, a: St, b: St)
    requires v.Valid() && NoBackRefs(x) && Power(v, strict, x, k, a, b)
    ensures Repeats(v, x, k, a.pos, b.pos)
    decreases x, 1, k
  {
    if k > 0 {
      var m :| Rel(v, strict, x, a, m) && Power(v, strict, x, k - 1, m, b);
      RelMatches(v, strict, x, a, m); PowerMatches(v, strict, x, k - 1, m, b);
    }
  }

  lemma {:induction false} IteratesMatches(v: Subject, strict: bool, x: Node, k: nat, a: St, b: St)
    requires v.Valid() && NoBackRefs(x) && Iterates(v, strict, x, k, a, b)
    ensures Repeats(v, x, k + 1, a.pos, b.pos)
    decreases x, 1, k
  {
    if k == 0 {
      RelMatches(v, strict, x, a, b);
      assert Repeats(v, x, 0, b.pos, b.pos);
    } else {
      var m :| Rel(v, strict, x, a, m) && (strict ==> m.pos != a.pos) && Iterates(v, strict, x, k - 1, m, b);
      RelMatches(v, strict, x, a, m); IteratesMatches(v, strict, x, k - 1, m, b);
    }
  }

  lemma {:induction false} RoundsMatches(v: Subject, strict: bool, x: Node, skip: bool, a: St, b: St, pre: nat, i: nat)
    requires v.Valid() && NoBackRefs(x) && Rounds(v, strict, x, skip, a, b) && Repeats(v, x, pre, i, a.pos)
    ensures exists k: nat :: k >= pre + (if skip then 0 else 1) && Repeats(v, x, k, i, b.pos)
    decreases x, 2, 0
  {
    if !(skip && a == b) {
      var k: nat :| Iterates(v, strict, x, k, a, b);
      IteratesMatches(v, strict, x, k, a, b);
      RepeatsAppend(v, x, pre, k + 1, i, a.pos, b.pos);
    }
  }

  lemma {:induction false} RepeatsAppend(v: Subject, x: Node, j: nat, k: nat, a: nat, b: nat, c: nat)
    requires v.Valid() && Repeats(v, x, j, a, b) && Repeats(v, x, k, b, c)
    ensures Repeats(v, x, j + k, a, c)
    decreases j
  {
    hide Matches;
    if j > 0 {
      var m: nat :| Matches(v, x, a, m) && Repeats(v, x, j - 1, m, b);
      RepeatsAppend(v, x, j - 1, k, m, b, c);
      assert Matches(v, x, a, m) && Repeats(v, x, j + k - 1, m, c);
    }
  }

  lemma {:induction false} RepeatsSplit(v: Subject, x: Node, j: nat, k: nat, a: nat, c: nat) returns (b: nat)
    requires v.Valid() && Repeats(v, x, j + k, a, c)
    ensures Repeats(v, x, j, a, b) && Repeats(v, x, k, b, c)
    decreases j
  {
    b := a;
    if j > 0 {
      var m: nat :| Matches(v, x, a, m) && Repeats(v, x, j + k - 1, m, c);
      b := RepeatsSplit(v, x, j - 1, k, m, c);
    }
  }

  /** Every match of positions is realised by captures, from whatever captures it starts and in
      either mode: dropping the empty iterations of a loop loses no match. */
  lemma {:induction false} MatchesRel(v: Subject, strict: bool, t: Node, a: St, j: nat) returns (b: St)
    requires v.Valid() && NoBackRefs(t) && Matches(v, t, a.pos, j)
    ensures b.pos == j && Rel(v, strict, t, a, b)
    decreases t, 0
  {
    b := St(j, a.caps);
    match t
    case Cat(x, y) =>
      var i: nat :| Matches(v, x, a.pos, i) && Matches(v, y, i, j);
      var m := MatchesRel(v, strict, x, a, i);
      b := MatchesRel(v, strict, y, m, j);
    case Alt(x, y) =>
      if Matches(v, x, a.pos, j) { b := MatchesRel(v, strict, x, a, j); } else { b := MatchesRel(v, strict, y, a, j); }
    case Group(x, k) =>
      var m := MatchesRel(v, strict, x, Save(a, 2 * k), j);
      b := Save(m, 2 * k + 1);
    case Rep(x, mn, mx) =>
      var k: nat :| mn <= k && (mx < 0 || k <= mx) && Repeats(v, x, k, a.pos, j);
      if mx < 0 {
        var pre := Straight(mn);
        var i := RepeatsSplit(v, x, pre, k - pre, a.pos, j);
        var m := RepeatsPower(v, strict, x, pre, a, i);
        b := RepeatsRounds(v, strict, x, mn == 0, k - pre, m, j);
      } else {
        b := RepeatsPower(v, strict, x, k, a, j);
      }
    case _ =>
  }

  lemma {:induction false} RepeatsPower(v: Subject, strict: bool, x: Node, k: nat, a: St, j: nat) returns (b: St)
    requires v.Valid() && NoBackRefs(x) && Repeats(v, x, k, a.pos, j)
    ensures b.pos == j && Power(v, strict, x, k, a, b)
    decreases x, 1, k
  {
    b := a;
    if k > 0 {
      var i: nat :| Matches(v, x, a.pos, i) && Repeats(v, x, k - 1, i, j);
      var m := MatchesRel(v, strict, x, a, i);
      b := RepeatsPower(v, strict, x, k - 1, m, j);
    }
  }

  lemma {:induction false} RepeatsRounds(v: Subject, strict: bool, x: Node, skip: bool, k: nat, a: St, j: nat)
    returns (b: St)
    requires v.Valid() && NoBackRefs(x) && Repeats(v, x, k, a.pos, j) && (skip || k > 0)
    ensures b.pos == j && Rounds(v, strict, x, skip, a, b)
    decreases x, 1, k
  {
    b := a;
    if k > 0 {
      var i: nat :| Matches(v, x, a.pos, i) && Repeats(v, x, k - 1, i, j);
      if i == a.pos && k > 1 {
        b := RepeatsRounds(v, strict, x, skip, k - 1, a, j);
      } else {
        b := MatchesRel(v, strict, x, a, i);
        assert Iterates(v, strict, x, 0, a, b);
        if i != a.pos && k > 1 {
          var m := b;
          b := RepeatsRounds(v, strict, x, false, k - 1, m, j);
          var n: nat :| Iterates(v, strict, x, n, m, b);
          assert Iterates(v, strict, x, n + 1, a, b);
        } else {
          assert Repeats(v, x, 0, i, j) || k > 1;
        }
      }
    }
  }
}
