/** `emit`, `gen` and the code-generating half of `regcomp` (src/regex.c), which append to a
    preallocated instruction array and patch jump targets as they become known. */
module RegexGen {
  import opened RegexProgram

  // ---- assigning one operand of an instruction ----

  function WithX(i: Inst, v: int): Inst {
    match i
    case ISplit(_, y) => ISplit(v, y)
    case IJmp(_) => IJmp(v)
    case ICheck(_, y, id) => ICheck(v, y, id)
    case _ => i
  }

  function WithY(i: Inst, v: int): Inst {
    match i
    case ISplit(x, _) => ISplit(x, v)
    case ICheck(x, _, id) => ICheck(x, v, id)
    case _ => i
  }

  function WithId(i: Inst, v: nat): Inst {
    match i
    case ICheck(x, y, _) => ICheck(x, y, v)
    case _ => i
  }

  function Exit(i: Inst): int {
    match i
    case ISplit(_, y) => y
    case ICheck(_, y, _) => y
    case _ => 0
  }

  // ---- code depends only on its own addresses ----

  predicate SameRange(p: seq<Inst>, q: seq<Inst>, lo: int, hi: int) {
    |p| == |q| && forall i | lo <= i < hi && 0 <= i < |p| :: p[i] == q[i]
  }

  lemma SameRangeTrans(p: seq<Inst>, q: seq<Inst>, r: seq<Inst>, i: nat, j: nat)
    requires i <= j
    ensures SameRange(p, q, 0, i) && SameRange(q, r, 0, j) ==> SameRange(p, r, 0, i)
    ensures SameRange(p, p, 0, i)
  {
  }

  lemma {:induction false} HoldsFrame(p: seq<Inst>, q: seq<Inst>, t: Node, at: nat, id: nat)
    requires Holds(p, t, at, id) && SameRange(p, q, at, at + Size(t))
    ensures Holds(q, t, at, id)
    decreases t, 2, 0
  {
    hide Holds; hide Size; hide Loops; hide Copies; hide Optionals; hide Times; hide AtLeast; hide Between;
    SizeShape(t); HoldsShape(p, t, at, id); HoldsShape(q, t, at, id);
    match t
    case Cat(a, b) => HoldsFrame(p, q, a, at, id); HoldsFrame(p, q, b, at + Size(a), id + Loops(a));
    case Alt(a, b) => AltFrame(p, q, a, b, at, id);
    case Group(a, _) => HoldsFrame(p, q, a, at + 1, id);
    case Rep(a, mn, mx) =>
      if mx < 0 { AtLeastFrame(p, q, a, mn, at, id); } else { BetweenFrame(p, q, a, mn, Excess(mn, mx), at, id); }
    case _ => LeafFrame(p, q, t, at, id);
  }

  lemma LeafFrame(p: seq<Inst>, q: seq<Inst>, t: Node, at: nat, id: nat)
    requires Leaf(t) && Holds(p, t, at, id) && SameRange(p, q, at, at + Size(t))
    ensures Holds(q, t, at, id)
  {
  }

  lemma {:induction false} AltFrame(p: seq<Inst>, q: seq<Inst>, a: Node, b: Node, at: nat, id: nat)
    requires HoldsAlt(p, a, b, at, id) && SameRange(p, q, at, at + Size(a) + Size(b) + 2)
    ensures HoldsAlt(q, a, b, at, id)
    decreases Alt(a, b), 1, 0
  {
    hide Holds; hide Size; hide Loops;
    HoldsFrame(p, q, a, at + 1, id);
    HoldsFrame(p, q, b, at + 2 + Size(a), id + Loops(a));
  }

  lemma {:induction false} CopiesFrame(p: seq<Inst>, q: seq<Inst>, a: Node, k: nat, at: nat, id: nat)
    requires Copies(p, a, k, at, id) && SameRange(p, q, at, at + Times(k, Size(a)))
    ensures Copies(q, a, k, at, id)
    decreases a, 3, k
  {
    hide Holds; hide Size; hide Loops;
    if k > 0 {
      CopiesFrame(p, q, a, k - 1, at, id);
      HoldsFrame(p, q, a, at + Times(k - 1, Size(a)), id + Times(k - 1, Loops(a)));
    }
  }

  lemma {:induction false} AtLeastFrame(p: seq<Inst>, q: seq<Inst>, a: Node, mn: nat, at: nat, id: nat)
    requires AtLeast(p, a, mn, at, id) && SameRange(p, q, at, at + AtLeastSize(a, mn))
    ensures AtLeast(q, a, mn, at, id)
    decreases a, 4, 0
  {
    hide Holds; hide Size; hide Loops;
    AtLeastShape(a, mn);
    hide Times; hide AtLeastSize; hide AtLeastLoops; hide Copies; hide Loop;
    CopiesFrame(p, q, a, Straight(mn), at, id);
    LoopFrame(p, q, a, mn == 0, at + Times(Straight(mn), Size(a)), id + Times(Straight(mn), Loops(a)));
  }

  lemma {:induction false} LoopFrame(p: seq<Inst>, q: seq<Inst>, a: Node, skip: bool, at: nat, id: nat)
    requires Loop(p, a, skip, at, id) && SameRange(p, q, at, at + BodyOffset(skip) + Size(a) + 1)
    ensures Loop(q, a, skip, at, id)
    decreases a, 3, 0
  {
    hide Holds; hide Size; hide Loops;
    HoldsFrame(p, q, a, at + BodyOffset(skip), id + 1);
  }

  lemma {:induction false} BetweenFrame(p: seq<Inst>, q: seq<Inst>, a: Node, mn: nat, d: nat, at: nat, id: nat)
    requires Between(p, a, mn, d, at, id) && SameRange(p, q, at, at + Times(mn, Size(a)) + Times(d, Size(a) + 1))
    ensures Between(q, a, mn, d, at, id)
    decreases a, 4, 0
  {
    hide Holds; hide Size; hide Loops;
    var opt := at + Times(mn, Size(a));
    CopiesFrame(p, q, a, mn, at, id);
    OptionalsFrame(p, q, a, d, opt, id + Times(mn, Loops(a)), opt + Times(d, Size(a) + 1));
  }

  lemma {:induction false} OptionalsFrame(p: seq<Inst>, q: seq<Inst>, a: Node, d: nat, at: nat, id: nat, end: nat)
    requires Optionals(p, a, d, at, id, end) && SameRange(p, q, at, at + Times(d, Size(a) + 1))
    ensures Optionals(q, a, d, at, id, end)
    decreases a, 3, d
  {
    hide Holds; hide Size; hide Loops;
    if d > 0 {
      HoldsFrame(p, q, a, at + 1, id);
      OptionalsFrame(p, q, a, d - 1, at + 1 + Size(a), id + Loops(a), end);
    }
  }

  // ---- optional copies whose exits are still chained ----

  /** The address of the i-th optional copy. */
  function OptAt(a: Node, at: nat, i: nat): nat { at + Times(i, Size(a) + 1) }

  /** d optional copies, built but with exits not yet known. */
  predicate Bodies(p: seq<Inst>, a: Node, d: nat, at: nat, id: nat) {
    forall i | 0 <= i < d :: Body(p, a, i, at, id)
  }

  predicate Body(p: seq<Inst>, a: Node, i: nat, at: nat, id: nat) {
    && OptAt(a, at, i) < |p|
    && p[OptAt(a, at, i)].ISplit? && p[OptAt(a, at, i)].x == OptAt(a, at, i) + 1
    && Holds(p, a, OptAt(a, at, i) + 1, id + Times(i, Loops(a)))
  }

  /** Copies from..d leave to `end`. */
  predicate Resolved(p: seq<Inst>, a: Node, from: nat, d: nat, at: nat, end: int) {
    forall i | from <= i < d :: ExitIs(p, a, i, at, end)
  }

  predicate ExitIs(p: seq<Inst>, a: Node, i: nat, at: nat, y: int) {
    OptAt(a, at, i) < |p| && p[OptAt(a, at, i)].ISplit? && p[OptAt(a, at, i)].y == y
  }

  /** The link of copy i: the previous copy, or -1. */
  function Link(a: Node, at: nat, i: nat): int { if i == 0 then -1 else OptAt(a, at, i - 1) }

  predicate Chained(p: seq<Inst>, a: Node, d: nat, at: nat) {
    forall i | 0 <= i < d :: ExitIs(p, a, i, at, Link(a, at, i))
  }

  lemma {:induction false} OptAtOrder(a: Node, at: nat, i: nat, j: nat)
    requires i < j
    ensures OptAt(a, at, i) + Size(a) + 1 <= OptAt(a, at, j)
    decreases j
  {
    hide Size;
    if i < j - 1 { OptAtOrder(a, at, i, j - 1); }
  }

  /** Once every exit is known, the copies are the optional part of the repetition. */
  lemma {:induction false} ResolvedOptionals(p: seq<Inst>, a: Node, i: nat, d: nat, at: nat, id: nat, end: nat)
    requires i <= d && Bodies(p, a, d, at, id) && Resolved(p, a, 0, d, at, end)
    ensures Optionals(p, a, d - i, OptAt(a, at, i), id + Times(i, Loops(a)), end)
    decreases d - i
  {
    hide Size; hide Loops; hide Holds;
    if i < d {
      assert Body(p, a, i, at, id) && ExitIs(p, a, i, at, end);
      ResolvedOptionals(p, a, i + 1, d, at, id, end);
    }
  }

  // ---- the generator ----

  class Generator {
    const code: array<Inst>
    var n: nat
    var nloops: nat

    constructor (capacity: nat)
      ensures n == 0 && nloops == 0 && code.Length == capacity && fresh(code)
    {
      code := new Inst[capacity](_ => IMatch);
      n, nloops := 0, 0;
    }

    /** What a call may do: append `size` instructions and take `loops` registers. */
    twostate predicate Appended(size: nat, loops: nat)
      reads this, code
    {
      && n == old(n) + size && n <= code.Length
      && nloops == old(nloops) + loops
      && SameRange(old(code[..]), code[..], 0, old(n))
    }

    method Emit(i: Inst) returns (at: nat)
      requires n < code.Length
      modifies this, code
      ensures at == old(n) && code[..] == old(code[..])[at := i]
      ensures n == at + 1 && nloops == old(nloops)
    {
      code[n] := i;
      at := n;
      n := n + 1;
    }

    method Gen(t: Node)
      requires WellFormed(t) && n + Size(t) <= code.Length
      modifies this, code
      ensures Appended(Size(t), Loops(t))
      ensures Holds(code[..], t, old(n), old(nloops))
      decreases t, 2, 0
    {
      hide Size; hide Loops; hide Holds; hide Copies; hide Optionals; hide Times;
      SizeShape(t);
      match t {
        case Cat(a, b) =>
          Gen(a);
          ghost var p := code[..];
          Gen(b);
          HoldsFrame(p, code[..], a, old(n), old(nloops));
        case Alt(a, b) => GenAlt(a, b);
        case Group(a, k) => GenGroup(a, k);
        case Rep(a, mn, mx) => if mx < 0 { GenAtLeast(a, mn); } else { GenBetween(a, mn, mx); }
        case _ => GenLeaf(t);
      }
      HoldsShape(code[..], t, old(n), old(nloops));
    }

    method GenLeaf(t: Node)
      requires Leaf(t) && n + Size(t) <= code.Length
      modifies this, code
      ensures Appended(Size(t), 0)
      ensures Holds(code[..], t, old(n), old(nloops))
    {
      match t
      case One(test) => var i := Emit(ITest(test));
      case Assert(kind) => var i := Emit(IAssert(kind));
      case BackRef(k) => var i := Emit(IBackRef(k));
      case _ =>
    }

    method GenGroup(a: Node, k: Pos)
      requires WellFormed(a) && n + Size(a) + 2 <= code.Length
      modifies this, code
      ensures Appended(Size(a) + 2, Loops(a))
      ensures HoldsGroup(code[..], a, k, old(n), old(nloops))
      decreases a, 3, 0
    {
      hide Size; hide Loops; hide Holds;
      var i := Emit(ISave(2 * k));
      Gen(a);
      ghost var p := code[..];
      i := Emit(ISave(2 * k + 1));
      HoldsFrame(p, code[..], a, old(n) + 1, old(nloops));
    }

    method GenAlt(a: Node, b: Node)
      requires WellFormed(a) && WellFormed(b) && n + Size(a) + Size(b) + 2 <= code.Length
      modifies this, code
      ensures Appended(Size(a) + Size(b) + 2, Loops(a) + Loops(b))
      ensures HoldsAlt(code[..], a, b, old(n), old(nloops))
      decreases Alt(a, b), 1, 0
    {
      hide Size; hide Loops; hide Holds;
      var j := GenLeft(a);
      ghost var p := code[..];
      Gen(b);
      ghost var q := code[..];
      code[j] := WithX(code[j], n);
      HoldsFrame(p, code[..], a, old(n) + 1, old(nloops));
      HoldsFrame(q, code[..], b, j + 1, old(nloops) + Loops(a));
    }

    /** The first alternative, with the SPLIT before it and a JMP after it still to be patched. */
    method GenLeft(a: Node) returns (j: nat)
      requires WellFormed(a) && n + Size(a) + 2 <= code.Length
      modifies this, code
      ensures Appended(Size(a) + 2, Loops(a)) && j == old(n) + 1 + Size(a)
      ensures code[old(n)] == ISplit(old(n) + 1, j + 1) && code[j] == IJmp(0)
      ensures Holds(code[..], a, old(n) + 1, old(nloops))
      decreases a, 3, 0
    {
      hide Size; hide Loops; hide Holds;
      var sp := Emit(ISplit(0, 0));
      code[sp] := WithX(code[sp], n);
      Gen(a);
      ghost var p := code[..];
      j := Emit(IJmp(0));
      code[sp] := WithY(code[sp], n);
      HoldsFrame(p, code[..], a, old(n) + 1, old(nloops));
    }

    method GenCopies(a: Node, k: nat)
      requires WellFormed(a) && n + Times(k, Size(a)) <= code.Length
      modifies this, code
      ensures Appended(Times(k, Size(a)), Times(k, Loops(a)))
      ensures Copies(code[..], a, k, old(n), old(nloops))
      decreases a, 3, 0
    {
      hide Size; hide Loops; hide Holds;
      var i := 0;
      while i < k
        invariant 0 <= i <= k
        invariant Appended(Times(i, Size(a)), Times(i, Loops(a)))
        invariant Copies(code[..], a, i, old(n), old(nloops))
      {
        TimesMonotone(i + 1, k, Size(a));
        ghost var p := code[..];
        Gen(a);
        CopiesFrame(p, code[..], a, i, old(n), old(nloops));
        i := i + 1;
      }
    }

    method GenAtLeast(a: Node, mn: nat)
      requires WellFormed(a) && n + AtLeastSize(a, mn) <= code.Length
      modifies this, code
      ensures Appended(AtLeastSize(a, mn), AtLeastLoops(a, mn))
      ensures AtLeast(code[..], a, mn, old(n), old(nloops))
      decreases a, 4, 0
    {
      hide Size; hide Loops; hide Holds;
      AtLeastShape(a, mn);
      hide Times; hide AtLeastSize; hide AtLeastLoops; hide Copies;
      GenCopies(a, Straight(mn));
      ghost var p := code[..];
      GenLoop(a, mn == 0);
      CopiesFrame(p, code[..], a, Straight(mn), old(n), old(nloops));
    }

    method GenLoop(a: Node, skip: bool)
      requires WellFormed(a) && n + BodyOffset(skip) + Size(a) + 1 <= code.Length
      modifies this, code
      ensures Appended(BodyOffset(skip) + Size(a) + 1, 1 + Loops(a))
      ensures Loop(code[..], a, skip, old(n), old(nloops))
      decreases a, 3, 0
    {
      hide Size; hide Loops; hide Holds;
      var id, top := GenEnter(skip);
      var body := n;
      Gen(a);
      ghost var p := code[..];
      var chk := Emit(ICheck(body, 0, 0));
      code[chk] := WithId(code[chk], id);
      code[chk] := WithY(code[chk], n);
      if top >= 0 { code[top] := WithY(code[top], n); }
      HoldsFrame(p, code[..], a, body, id + 1);
    }

    /** ENTER and, if the body may be skipped, a SPLIT whose exit is not yet known. */
    method GenEnter(skip: bool) returns (id: nat, top: int)
      requires n + BodyOffset(skip) <= code.Length
      modifies this, code
      ensures Appended(BodyOffset(skip), 1)
      ensures id == old(nloops) && code[old(n)] == IEnter(id)
      ensures if skip then top == old(n) + 1 && code[top] == ISplit(n, 0) else top == -1
    {
      id := nloops;
      nloops := nloops + 1;
      var i := Emit(IEnter(id));
      top := -1;
      if skip { top := Emit(ISplit(0, 0)); }
      if top >= 0 { code[top] := WithX(code[top], n); }
    }

    /** One optional copy: SPLIT next, link; copy. */
    method GenOptional(a: Node, link: int) returns (sp: nat)
      requires WellFormed(a) && n + Size(a) + 1 <= code.Length
      modifies this, code
      ensures Appended(Size(a) + 1, Loops(a))
      ensures sp == old(n) && code[sp] == ISplit(sp + 1, link) && Holds(code[..], a, sp + 1, old(nloops))
      decreases a, 3, 0
    {
      hide Size; hide Loops; hide Holds;
      sp := Emit(ISplit(0, link));
      code[sp] := WithX(code[sp], n);
      Gen(a);
    }

    /** The optional copies, with their exits chained, last first. */
    method GenChain(a: Node, d: nat) returns (chain: int)
      requires WellFormed(a) && n + Times(d, Size(a) + 1) <= code.Length
      modifies this, code
      ensures Appended(Times(d, Size(a) + 1), Times(d, Loops(a)))
      ensures Bodies(code[..], a, d, old(n), old(nloops)) && Chained(code[..], a, d, old(n))
      ensures chain == Link(a, old(n), d)
      decreases a, 4, 0
    {
      hide Size; hide Loops; hide Holds; hide Bodies; hide Chained;
      chain := -1;
      var i := 0;
      assert Bodies(code[..], a, 0, n, nloops) && Chained(code[..], a, 0, n) by { NoBodies(code[..], a, n, nloops); }
      TimesZero(Size(a) + 1, Loops(a));
      hide Times; hide SameRange;
      SameRangeTrans(code[..], code[..], code[..], n, n);
      while i < d
        invariant 0 <= i <= d
        invariant Appended(Times(i, Size(a) + 1), Times(i, Loops(a)))
        invariant Bodies(code[..], a, i, old(n), old(nloops)) && Chained(code[..], a, i, old(n))
        invariant chain == Link(a, old(n), i)
      {
        TimesMonotone(i + 1, d, Size(a) + 1);
        TimesNext(i, Size(a) + 1); TimesNext(i, Loops(a));
        ghost var p, m := code[..], n;
        chain := GenOptional(a, chain);
        SameRangeTrans(old(code[..]), p, code[..], old(n), m);
        ChainExtend(p, code[..], a, i, old(n), old(nloops));
        i := i + 1;
      }
    }

    /** Point every chained exit to the current end. */
    method Unchain(ghost a: Node, ghost d: nat, ghost at: nat, ghost id: nat, last: int)
      requires n == at + Times(d, Size(a) + 1) <= code.Length && last == Link(a, at, d)
      requires Bodies(code[..], a, d, at, id) && Chained(code[..], a, d, at)
      modifies code
      ensures SameRange(old(code[..]), code[..], 0, at)
      ensures Bodies(code[..], a, d, at, id) && Resolved(code[..], a, 0, d, at, n)
    {
      hide Size; hide Loops; hide Holds;
      var chain := last;
      ghost var i: nat := d;
      while chain >= 0
        invariant i <= d && chain == Link(a, at, i)
        invariant SameRange(old(code[..]), code[..], 0, at)
        invariant Bodies(code[..], a, d, at, id) && Chained(code[..], a, i, at) && Resolved(code[..], a, i, d, at, n)
        decreases i
      {
        i := i - 1;
        assert ExitIs(code[..], a, i, at, Link(a, at, i));
        ghost var p := code[..];
        var nx := Exit(code[chain]);
        code[chain] := WithY(code[chain], n);
        chain := nx;
        PatchFrame(p, code[..], a, i, d, at, id, n);
      }
    }

    method GenBetween(a: Node, mn: nat, mx: int)
      requires WellFormed(a) && mn <= mx
      requires n + Times(mn, Size(a)) + Times(Excess(mn, mx), Size(a) + 1) <= code.Length
      modifies this, code
      ensures Appended(Times(mn, Size(a)) + Times(Excess(mn, mx), Size(a) + 1),
                       Times(mn, Loops(a)) + Times(Excess(mn, mx), Loops(a)))
      ensures Between(code[..], a, mn, Excess(mn, mx), old(n), old(nloops))
      decreases a, 5, 0
    {
      hide Size; hide Loops; hide Holds;
      var d := Excess(mn, mx);
      GenCopies(a, mn);
      ghost var p, at, id := code[..], n, nloops;
      var chain := GenChain(a, d);
      Unchain(a, d, at, id, chain);
      CopiesFrame(p, code[..], a, mn, old(n), old(nloops));
      ResolvedOptionals(code[..], a, 0, d, at, id, n);
    }
  }

  lemma {:induction false} TimesMonotone(j: nat, k: nat, x: nat)
    requires j <= k
    ensures Times(j, x) <= Times(k, x)
    decreases k
  {
    if j < k { TimesMonotone(j, k - 1, x); }
  }

  lemma TimesNext(k: nat, x: nat)
    ensures Times(k + 1, x) == Times(k, x) + x
  {
  }

  lemma TimesZero(x: nat, y: nat)
    ensures Times(0, x) == 0 && Times(0, y) == 0
  {
  }

  lemma NoBodies(p: seq<Inst>, a: Node, at: nat, id: nat)
    ensures Bodies(p, a, 0, at, id) && Chained(p, a, 0, at)
  {
  }

  lemma ChainExtend(p: seq<Inst>, q: seq<Inst>, a: Node, d: nat, at: nat, id: nat)
    requires Bodies(p, a, d, at, id) && Chained(p, a, d, at) && SameRange(p, q, 0, OptAt(a, at, d))
    requires Body(q, a, d, at, id) && ExitIs(q, a, d, at, Link(a, at, d))
    ensures Bodies(q, a, d + 1, at, id) && Chained(q, a, d + 1, at)
  {
    hide Size; hide Loops; hide Holds; hide Body; hide ExitIs;
    ChainFrame(p, q, a, d, at, id);
    forall i | 0 <= i < d + 1 ensures Body(q, a, i, at, id) && ExitIs(q, a, i, at, Link(a, at, i)) { }
  }

  lemma ChainFrame(p: seq<Inst>, q: seq<Inst>, a: Node, d: nat, at: nat, id: nat)
    requires Bodies(p, a, d, at, id) && Chained(p, a, d, at) && SameRange(p, q, 0, OptAt(a, at, d))
    ensures Bodies(q, a, d, at, id) && Chained(q, a, d, at)
  {
    hide Size; hide Loops; hide Holds;
    forall i | 0 <= i < d ensures Body(q, a, i, at, id) && ExitIs(q, a, i, at, Link(a, at, i)) {
      assert Body(p, a, i, at, id) && ExitIs(p, a, i, at, Link(a, at, i));
      OptAtOrder(a, at, i, d);
      HoldsFrame(p, q, a, OptAt(a, at, i) + 1, id + Times(i, Loops(a)));
    }
  }

  /** Patching the exit of copy k leaves the others and every body alone. */
  lemma PatchFrame(p: seq<Inst>, q: seq<Inst>, a: Node, k: nat, d: nat, at: nat, id: nat, end: int)
    requires k < d && Bodies(p, a, d, at, id) && Chained(p, a, k + 1, at) && Resolved(p, a, k + 1, d, at, end)
    requires OptAt(a, at, k) < |p| && p[OptAt(a, at, k)].ISplit?
    requires q == p[OptAt(a, at, k) := WithY(p[OptAt(a, at, k)], end)]
    ensures Bodies(q, a, d, at, id) && Chained(q, a, k, at) && Resolved(q, a, k, d, at, end)
  {
    hide Size; hide Loops; hide Holds;
    forall i | 0 <= i < d
      ensures Body(q, a, i, at, id) && (i < k ==> ExitIs(q, a, i, at, Link(a, at, i)))
          && (i >= k ==> ExitIs(q, a, i, at, end))
    {
      assert Body(p, a, i, at, id);
      if i < k { OptAtOrder(a, at, i, k); assert ExitIs(p, a, i, at, Link(a, at, i)); }
      if i > k { OptAtOrder(a, at, k, i); assert ExitIs(p, a, i, at, end); }
      HoldsFrame(p, q, a, OptAt(a, at, i) + 1, id + Times(i, Loops(a)));
    }
  }

  /** Compile a tree: the program, or nothing when it is too large (REG_ESPACE). */
  method Compile(t: Node) returns (ok: bool, p: seq<Inst>, nloops: nat)
    requires WellFormed(t)
    ensures ok <==> Size(t) + 3 <= MAX_INST
    ensures ok ==> IsProgram(p, t) && nloops == Loops(t)
  {
    hide Holds; hide Loops;
    var sz := SizeOf(t) + 3;
    SaturationExact(t);
    p, nloops := [], 0;
    ok := sz <= MAX_INST;
    if ok {
      var g := new Generator(sz);
      var i := g.Emit(ISave(0));
      g.Gen(t);
      ghost var q := g.code[..];
      i := g.Emit(ISave(1));
      i := g.Emit(IMatch);
      HoldsFrame(q, g.code[..], t, 1, 0);
      p, nloops := g.code[..], g.nloops;
    }
  }
}
