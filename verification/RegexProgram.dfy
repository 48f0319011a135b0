/** The parse tree of a pattern, the code generator of src/regex.c and the code it produces. */
module RegexProgram {
  import Powers
  import opened RegexText

  /** Groups are numbered from 1. */
  type Pos = k: int | k >= 1 witness 1

  datatype Node =
    | Empty
    | One(test: Test)
    | Assert(kind: AssertKind)
    | Cat(a: Node, b: Node)
    | Alt(a: Node, b: Node)
    | Rep(a: Node, mn: nat, mx: int)   // mx < 0: no upper bound
    | Group(a: Node, k: Pos)
    | BackRef(k: Pos)

  datatype Inst =
    | ITest(test: Test)
    | IAssert(kind: AssertKind)
    | ISplit(x: int, y: int)
    | IJmp(x: int)
    | ISave(slot: nat)
    | IMatch
    | IBackRef(k: Pos)
    | IEnter(id: nat)
    | ICheck(x: int, y: int, id: nat)

  const MAX_INST := 50000

  /** What the parser guarantees of its trees: the bounds of a repetition are ordered. */
  predicate WellFormed(t: Node) {
    match t
    case Cat(a, b) => WellFormed(a) && WellFormed(b)
    case Alt(a, b) => WellFormed(a) && WellFormed(b)
    case Rep(a, mn, mx) => WellFormed(a) && (mx < 0 || mn <= mx)
    case Group(a, _) => WellFormed(a)
    case _ => true
  }

  predicate Leaf(t: Node) { t.Empty? || t.One? || t.Assert? || t.BackRef? }

  predicate NoBackRefs(t: Node) {
    match t
    case Cat(a, b) => NoBackRefs(a) && NoBackRefs(b)
    case Alt(a, b) => NoBackRefs(a) && NoBackRefs(b)
    case Rep(a, _, _) => NoBackRefs(a)
    case Group(a, _) => NoBackRefs(a)
    case BackRef(_) => false
    case _ => true
  }

  // ---- sizes ----

  /** k times x, by repeated addition: the sizes of k copies. */
  function Times(k: nat, x: nat): nat { if k == 0 then 0 else Times(k - 1, x) + x }

  lemma {:induction false} TimesIsProduct(k: nat, x: nat)
    ensures Times(k, x) == k * x
  {
    if k > 0 { TimesIsProduct(k - 1, x); }
  }

  lemma {:induction false} TimesAdd(j: nat, k: nat, x: nat)
    ensures Times(j + k, x) == Times(j, x) + Times(k, x)
  {
    if k > 0 { TimesAdd(j, k - 1, x); }
  }

  /** The number of optional copies in {mn,mx}. */
  function Excess(mn: nat, mx: int): nat { if mx > mn then mx - mn else 0 }

  /** The number of instructions a tree really needs. */
  function Size(t: Node): nat
  {
    match t
    case Empty => 0
    case Cat(a, b) => Size(a) + Size(b)
    case Alt(a, b) => Size(a) + Size(b) + 2
    case Group(a, _) => Size(a) + 2
    case Rep(a, mn, mx) =>
      if mx < 0 then (if mn == 0 then Size(a) + 3 else Times(mn, Size(a)) + 2)
      else Times(mn, Size(a)) + Times(Excess(mn, mx), Size(a) + 1)
    case _ => 1
  }

  function Saturate(s: int): int { if s > MAX_INST then MAX_INST + 1 else s }

  /** `size_of`: saturates at every level so that the arithmetic cannot overflow. */
  function SizeOf(t: Node): int
  {
    match t
    case Empty => 0
    case Cat(a, b) => Saturate(SizeOf(a) + SizeOf(b))
    case Alt(a, b) => Saturate(SizeOf(a) + SizeOf(b) + 2)
    case Group(a, _) => Saturate(SizeOf(a) + 2)
    case Rep(a, mn, mx) =>
      Saturate(RepSize(mn, mx, SizeOf(a)))
    case _ => 1
  }

  /** Saturating in subtrees never changes the verdict: size_of is the true size whenever that
      is within MAX_INST, and MAX_INST + 1 otherwise. */
  lemma {:induction false} SaturationExact(t: Node)
    requires WellFormed(t)
    ensures SizeOf(t) == Saturate(Size(t))
  {
    match t
    case Cat(a, b) => SaturationExact(a); SaturationExact(b);
    case Alt(a, b) => SaturationExact(a); SaturationExact(b);
    case Group(a, _) => SaturationExact(a);
    case Rep(a, mn, mx) =>
      SaturationExact(a);
      TimesIsProduct(mn, Size(a));
      if mx >= 0 { TimesIsProduct(Excess(mn, mx), Size(a) + 1); }
      SaturatedRep(mn, mx, Size(a));
    case _ =>
  }

  /** size_of's formula for a repetition of something of size c. */
  function RepSize(mn: nat, mx: int, c: int): int {
    if mx < 0 then (if mn != 0 then mn * c + 2 else c + 3) else mn * c + (mx - mn) * (c + 1)
  }

  lemma SaturatedRep(mn: nat, mx: int, s: nat)
    requires mx < 0 || mn <= mx
    ensures Saturate(RepSize(mn, mx, Saturate(s))) == Saturate(RepSize(mn, mx, s))
  {
    if s > MAX_INST {
      if mx >= 0 {
        SaturatedProduct(mn, mx - mn, s, MAX_INST + 1);
      } else if mn > 0 {
        Powers.MulAtLeast(s, mn); Powers.MulAtLeast(MAX_INST + 1, mn);
      }
    }
  }

  lemma SaturatedProduct(m: nat, d: nat, s: nat, c: nat)
    requires s > MAX_INST && c > MAX_INST
    ensures Saturate(m * s + d * (s + 1)) == Saturate(m * c + d * (c + 1))
  {
    if m > 0 { Powers.MulAtLeast(s, m); Powers.MulAtLeast(c, m); }
    if d > 0 { Powers.MulAtLeast(s + 1, d); Powers.MulAtLeast(c + 1, d); }
  }

  /** The number of loop registers a tree uses. */
  function Loops(t: Node): nat
  {
    match t
    case Cat(a, b) => Loops(a) + Loops(b)
    case Alt(a, b) => Loops(a) + Loops(b)
    case Group(a, _) => Loops(a)
    case Rep(a, mn, mx) =>
      if mx < 0 then 1 + (if mn == 0 then Loops(a) else Times(mn, Loops(a))) else Times(mn + Excess(mn, mx), Loops(a))
    case _ => 0
  }

  function AtLeastSize(a: Node, mn: nat): nat { if mn == 0 then Size(a) + 3 else Times(mn, Size(a)) + 2 }

  function AtLeastLoops(a: Node, mn: nat): nat { 1 + if mn == 0 then Loops(a) else Times(mn, Loops(a)) }

  // ---- the generated code ----

  /** p holds the code of t at address `at`, using loop registers from `id` on. */
  predicate Holds(p: seq<Inst>, t: Node, at: nat, id: nat)
    decreases t, 2, 0
  {
    match t
    case Empty => at <= |p|
    case One(test) => at < |p| && p[at] == ITest(test)
    case Assert(kind) => at < |p| && p[at] == IAssert(kind)
    case BackRef(k) => at < |p| && p[at] == IBackRef(k)
    case Cat(a, b) => at + Size(t) <= |p| && Holds(p, a, at, id) && Holds(p, b, at + Size(a), id + Loops(a))
    case Alt(a, b) => HoldsAlt(p, a, b, at, id)
    case Group(a, k) => HoldsGroup(p, a, k, at, id)
    case Rep(a, mn, mx) =>
      && at + Size(t) <= |p|
      && if mx < 0 then AtLeast(p, a, mn, at, id) else Between(p, a, mn, Excess(mn, mx), at, id)
  }

  /** SPLIT a, b; a; JMP out; b. */
  predicate HoldsAlt(p: seq<Inst>, a: Node, b: Node, at: nat, id: nat)
    decreases Alt(a, b), 1, 0
  {
    var mid := at + 1 + Size(a);
    && mid + 1 + Size(b) <= |p|
    && p[at] == ISplit(at + 1, mid + 1)
    && Holds(p, a, at + 1, id)
    && p[mid] == IJmp(mid + 1 + Size(b))
    && Holds(p, b, mid + 1, id + Loops(a))
  }

  /** SAVE 2k; a; SAVE 2k + 1. */
  predicate HoldsGroup(p: seq<Inst>, a: Node, k: Pos, at: nat, id: nat)
    decreases a, 3, 0
  {
    && at + Size(a) + 2 <= |p|
    && p[at] == ISave(2 * k)
    && Holds(p, a, at + 1, id)
    && p[at + 1 + Size(a)] == ISave(2 * k + 1)
  }

  /** {m,}: m - 1 copies, then the loop. */
  predicate AtLeast(p: seq<Inst>, a: Node, mn: nat, at: nat, id: nat)
    decreases a, 4, 0
  {
    var pre := Straight(mn);
    && Copies(p, a, pre, at, id)
    && Loop(p, a, mn == 0, at + Times(pre, Size(a)), id + Times(pre, Loops(a)))
  }

  /** The copies of {m,} that precede the loop. */
  function Straight(mn: nat): nat { if mn == 0 then 0 else mn - 1 }

  /** {m,m+d}: m copies, then d optional ones that all leave to the same end. */
  predicate Between(p: seq<Inst>, a: Node, mn: nat, d: nat, at: nat, id: nat)
    decreases a, 4, 0
  {
    var opt := at + Times(mn, Size(a));
    && Copies(p, a, mn, at, id)
    && Optionals(p, a, d, opt, id + Times(mn, Loops(a)), opt + Times(d, Size(a) + 1))
  }

  /** k consecutive copies of a. */
  predicate Copies(p: seq<Inst>, a: Node, k: nat, at: nat, id: nat)
    decreases a, 3, k
  {
    k == 0 || (Copies(p, a, k - 1, at, id) && Holds(p, a, at + Times(k - 1, Size(a)), id + Times(k - 1, Loops(a))))
  }

  function BodyOffset(skip: bool): nat { if skip then 2 else 1 }

  /** ENTER; SPLIT body, out (only if the body may be skipped); body; CHECK body, out. */
  predicate Loop(p: seq<Inst>, a: Node, skip: bool, at: nat, id: nat)
    decreases a, 3, 0
  {
    var body := at + BodyOffset(skip);
    var out := body + Size(a) + 1;
    && out <= |p|
    && p[at] == IEnter(id)
    && (skip ==> p[at + 1] == ISplit(body, out))
    && Holds(p, a, body, id + 1)
    && p[out - 1] == ICheck(body, out, id)
  }

  /** d optional copies of a, each SPLIT next, end; copy. */
  predicate Optionals(p: seq<Inst>, a: Node, d: nat, at: nat, id: nat, end: nat)
    decreases a, 3, d
  {
    d == 0 ||
    (&& at < |p|
     && p[at] == ISplit(at + 1, end)
     && Holds(p, a, at + 1, id)
     && Optionals(p, a, d - 1, at + 1 + Size(a), id + Loops(a), end))
  }

  /** The whole program for a pattern. */
  predicate IsProgram(p: seq<Inst>, t: Node) {
    && |p| == Size(t) + 3
    && p[0] == ISave(0)
    && Holds(p, t, 1, 0)
    && p[|p| - 2] == ISave(1)
    && p[|p| - 1] == IMatch
  }

  // ---- one level of each definition ----

  lemma {:induction false} SizeShape(t: Node)
    ensures match t
            case Cat(x, y) => Size(t) == Size(x) + Size(y) && Loops(t) == Loops(x) + Loops(y)
            case Alt(x, y) => Size(t) == Size(x) + Size(y) + 2 && Loops(t) == Loops(x) + Loops(y)
            case Group(x, _) => Size(t) == Size(x) + 2 && Loops(t) == Loops(x)
            case Rep(x, mn, mx) => SizeRep(t)
            case _ => Loops(t) == 0
  {
    if t.Rep? && t.mx >= 0 { TimesAdd(t.mn, Excess(t.mn, t.mx), Loops(t.a)); }
  }

  predicate SizeRep(t: Node)
    requires t.Rep?
  {
    if t.mx < 0 then Size(t) == AtLeastSize(t.a, t.mn) && Loops(t) == AtLeastLoops(t.a, t.mn)
    else
      && Size(t) == Times(t.mn, Size(t.a)) + Times(Excess(t.mn, t.mx), Size(t.a) + 1)
      && Loops(t) == Times(t.mn, Loops(t.a)) + Times(Excess(t.mn, t.mx), Loops(t.a))
  }

  lemma {:induction false} HoldsShape(p: seq<Inst>, t: Node, at: nat, id: nat)
    ensures match t
            case Cat(x, y) =>
              Holds(p, t, at, id) == (at + Size(t) <= |p| && Holds(p, x, at, id)
                  && Holds(p, y, at + Size(x), id + Loops(x)))
            case Alt(x, y) => Holds(p, t, at, id) == HoldsAlt(p, x, y, at, id)
            case Group(x, k) => Holds(p, t, at, id) == HoldsGroup(p, x, k, at, id)
            case Rep(x, mn, mx) => Holds(p, t, at, id) == (at + Size(t) <= |p| &&
              if mx < 0 then AtLeast(p, x, mn, at, id) else Between(p, x, mn, Excess(mn, mx), at, id))
            case _ => true
  {
    hide Size; hide Loops; hide HoldsAlt; hide HoldsGroup; hide AtLeast; hide Between;
  }

  lemma AtLeastShape(a: Node, mn: nat)
    ensures AtLeastSize(a, mn) == Times(Straight(mn), Size(a)) + BodyOffset(mn == 0) + Size(a) + 1
    ensures AtLeastLoops(a, mn) == Times(Straight(mn), Loops(a)) + 1 + Loops(a)
  {
    hide Size; hide Loops;
  }

  // ---- every jump stays inside the code ----

  predicate Targets(i: Inst, lo: int, hi: int) {
    match i
    case ISplit(x, y) => lo <= x <= hi && lo <= y <= hi
    case IJmp(x) => lo <= x <= hi
    case ICheck(x, y, _) => lo <= x <= hi && lo <= y <= hi
    case _ => true
  }

  /** A range of addresses and of loop registers. */
  datatype Box = Box(lo: int, hi: int, id0: nat, ids: nat)

  /** Code of `size` instructions at `at`, using `loops` registers from `id`, lies in a box. */
  predicate Fits(x: Box, at: nat, size: nat, id: nat, loops: nat) {
    x.lo <= at && at + size <= x.hi && x.id0 <= id && id + loops <= x.ids
  }

  /** Instructions that may occur inside a tree's code: no MATCH and no SAVE of slots 0 and 1,
      which belong to the whole match; jumps and loop registers within the box. */
  predicate Inner(i: Inst, x: Box) {
    && Targets(i, x.lo, x.hi)
    && i != IMatch
    && (i.ISave? ==> i.slot >= 2)
    && (i.IEnter? || i.ICheck? ==> x.id0 <= i.id < x.ids)
  }

  /** Jump targets lie between a fragment's own start and the address just past it. */
  lemma {:induction false} HoldsInner(p: seq<Inst>, t: Node, at: nat, id: nat, x: Box, pc: nat)
    requires Holds(p, t, at, id) && Fits(x, at, Size(t), id, Loops(t)) && at <= pc < at + Size(t)
    ensures pc < |p| && Inner(p[pc], x)
    decreases t, 2, 0
  {
    hide Holds; hide Size; hide Loops; hide Copies; hide Optionals; hide Times; hide AtLeast; hide Between; hide Inner;
    SizeShape(t); HoldsShape(p, t, at, id);
    match t
    case Cat(a, b) =>
      if pc < at + Size(a) { HoldsInner(p, a, at, id, x, pc); }
      else { HoldsInner(p, b, at + Size(a), id + Loops(a), x, pc); }
    case Alt(a, b) => AltInner(p, a, b, at, id, x, pc);
    case Group(a, k) => GroupInner(p, a, k, at, id, x, pc);
    case Rep(a, mn, mx) =>
      if mx < 0 {
        AtLeastInner(p, a, mn, at, id, x, pc);
      } else {
        BetweenInner(p, a, mn, Excess(mn, mx), at, id, x, pc);
      }
    case _ => LeafInner(p, t, at, id, x, pc);
  }

  lemma LeafInner(p: seq<Inst>, t: Node, at: nat, id: nat, x: Box, pc: nat)
    requires Leaf(t) && Holds(p, t, at, id) && at <= pc < at + Size(t)
    ensures pc < |p| && Inner(p[pc], x)
  {
  }

  lemma {:induction false} GroupInner(p: seq<Inst>, a: Node, k: Pos, at: nat, id: nat, x: Box, pc: nat)
    requires HoldsGroup(p, a, k, at, id) && at <= pc < at + Size(a) + 2 && Fits(x, at, Size(a) + 2, id, Loops(a))
    ensures pc < |p| && Inner(p[pc], x)
    decreases a, 3, 0
  {
    hide Holds; hide Size; hide Loops;
    if at < pc < at + 1 + Size(a) { HoldsInner(p, a, at + 1, id, x, pc); }
  }

  lemma {:induction false} AltInner(p: seq<Inst>, a: Node, b: Node, at: nat, id: nat, x: Box, pc: nat)
    requires HoldsAlt(p, a, b, at, id) && at <= pc < at + Size(a) + Size(b) + 2
    requires Fits(x, at, Size(a) + Size(b) + 2, id, Loops(a) + Loops(b))
    ensures pc < |p| && Inner(p[pc], x)
    decreases Alt(a, b), 1, 0
  {
    hide Holds; hide Size; hide Loops;
    if at < pc < at + 1 + Size(a) { HoldsInner(p, a, at + 1, id, x, pc); }
    else if pc > at + 1 + Size(a) { HoldsInner(p, b, at + 2 + Size(a), id + Loops(a), x, pc); }
  }

  lemma {:induction false} AtLeastInner(p: seq<Inst>, a: Node, mn: nat, at: nat, id: nat, x: Box, pc: nat)
    requires AtLeast(p, a, mn, at, id) && at <= pc < at + AtLeastSize(a, mn)
    requires Fits(x, at, AtLeastSize(a, mn), id, AtLeastLoops(a, mn))
    ensures pc < |p| && Inner(p[pc], x)
    decreases a, 4, 0
  {
    hide Holds; hide Size; hide Loops; hide Copies; hide Inner;
    AtLeastShape(a, mn);
    hide Times; hide AtLeastSize; hide AtLeastLoops;
    var pre := Straight(mn);
    if pc < at + Times(pre, Size(a)) { CopiesInner(p, a, pre, at, id, x, pc); }
    else { LoopInner(p, a, mn == 0, at + Times(pre, Size(a)), id + Times(pre, Loops(a)), x, pc); }
  }

  lemma {:induction false} BetweenInner(p: seq<Inst>, a: Node, mn: nat, d: nat, at: nat, id: nat, x: Box, pc: nat)
    requires Between(p, a, mn, d, at, id) && at <= pc < at + Times(mn, Size(a)) + Times(d, Size(a) + 1)
    requires Fits(x, at, Times(mn, Size(a)) + Times(d, Size(a) + 1), id, Times(mn, Loops(a)) + Times(d, Loops(a)))
    ensures pc < |p| && Inner(p[pc], x)
    decreases a, 4, 0
  {
    hide Holds; hide Size; hide Loops; hide Inner;
    var opt := at + Times(mn, Size(a));
    if pc < opt { CopiesInner(p, a, mn, at, id, x, pc); }
    else { OptionalsInner(p, a, d, opt, id + Times(mn, Loops(a)), opt + Times(d, Size(a) + 1), x, pc); }
  }

  lemma {:induction false} CopiesInner(p: seq<Inst>, a: Node, k: nat, at: nat, id: nat, x: Box, pc: nat)
    requires Copies(p, a, k, at, id) && Fits(x, at, Times(k, Size(a)), id, Times(k, Loops(a)))
    requires at <= pc < at + Times(k, Size(a))
    ensures pc < |p| && Inner(p[pc], x)
    decreases a, 3, k
  {
    hide Holds; hide Size; hide Loops; hide Inner;
    if pc < at + Times(k - 1, Size(a)) { CopiesInner(p, a, k - 1, at, id, x, pc); }
    else { HoldsInner(p, a, at + Times(k - 1, Size(a)), id + Times(k - 1, Loops(a)), x, pc); }
  }

  lemma {:induction false} LoopInner(p: seq<Inst>, a: Node, skip: bool, at: nat, id: nat, x: Box, pc: nat)
    requires Loop(p, a, skip, at, id) && Fits(x, at, BodyOffset(skip) + Size(a) + 1, id, 1 + Loops(a))
    requires at <= pc < at + BodyOffset(skip) + Size(a) + 1
    ensures Inner(p[pc], x)
    decreases a, 3, 0
  {
    hide Holds; hide Size; hide Loops;
    var body := at + BodyOffset(skip);
    if body <= pc < body + Size(a) { HoldsInner(p, a, body, id + 1, x, pc); }
  }

  lemma {:induction false} OptionalsInner(p: seq<Inst>, a: Node, d: nat, at: nat, id: nat, end: nat, x: Box, pc: nat)
    requires Optionals(p, a, d, at, id, end) && x.lo <= end <= x.hi
    requires Fits(x, at, Times(d, Size(a) + 1), id, Times(d, Loops(a)))
    requires at <= pc < at + Times(d, Size(a) + 1)
    ensures pc < |p| && Inner(p[pc], x)
    decreases a, 3, d
  {
    hide Holds; hide Size; hide Loops;
    if at < pc < at + 1 + Size(a) { HoldsInner(p, a, at + 1, id, x, pc); }
    else if pc > at { OptionalsInner(p, a, d - 1, at + 1 + Size(a), id + Loops(a), end, x, pc); }
  }

  /** Every jump of a whole program lands on one of its instructions, never on the first. */
  lemma ProgramTargets(p: seq<Inst>, t: Node, pc: nat)
    requires IsProgram(p, t) && pc < |p|
    ensures Targets(p[pc], 1, |p| - 2)
    ensures p[pc] == IMatch <==> pc == |p| - 1
    ensures p[pc].ISave? && p[pc].slot == 0 <==> pc == 0
    ensures p[pc].ISave? && p[pc].slot == 1 <==> pc == |p| - 2
    ensures p[pc].IEnter? || p[pc].ICheck? ==> p[pc].id < Loops(t)
  {
    if 1 <= pc <= Size(t) { HoldsInner(p, t, 1, 0, Box(1, 1 + Size(t), 0, Loops(t)), pc); }
  }

  // ---- captures and back-references ----

  /** Back-references only if `refs`; groups numbered at most g, unless g is negative. */
  predicate TreeTame(t: Node, refs: bool, g: int) {
    match t
    case Cat(a, b) => TreeTame(a, refs, g) && TreeTame(b, refs, g)
    case Alt(a, b) => TreeTame(a, refs, g) && TreeTame(b, refs, g)
    case Rep(a, _, _) => TreeTame(a, refs, g)
    case Group(a, k) => TreeTame(a, refs, g) && (g < 0 || k <= g)
    case BackRef(k) => refs && (g < 0 || k <= g)
    case _ => true
  }

  predicate Tame(i: Inst, refs: bool, g: int) {
    && (i.IBackRef? ==> refs && (g < 0 || i.k <= g))
    && (i.ISave? ==> g < 0 || i.slot <= 2 * g + 1)
  }

  lemma {:induction false} NoBackRefsTame(t: Node)
    ensures NoBackRefs(t) ==> TreeTame(t, false, -1)
  {
    match t
    case Cat(a, b) => NoBackRefsTame(a); NoBackRefsTame(b);
    case Alt(a, b) => NoBackRefsTame(a); NoBackRefsTame(b);
    case Rep(a, _, _) => NoBackRefsTame(a);
    case Group(a, _) => NoBackRefsTame(a);
    case _ =>
  }

  /** Code has back-references and capture slots only where its tree has them. */
  lemma {:induction false} HoldsTame(p: seq<Inst>, t: Node, at: nat, id: nat, pc: nat, refs: bool, g: int)
    requires TreeTame(t, refs, g) && Holds(p, t, at, id) && at <= pc < at + Size(t)
    ensures pc < |p| && Tame(p[pc], refs, g)
    decreases t, 2, 0
  {
    hide Holds; hide Size; hide Loops; hide Copies; hide Optionals; hide Times; hide AtLeast; hide Between;
    SizeShape(t); HoldsShape(p, t, at, id);
    match t
    case Cat(a, b) =>
      if pc < at + Size(a) { HoldsTame(p, a, at, id, pc, refs, g); }
      else { HoldsTame(p, b, at + Size(a), id + Loops(a), pc, refs, g); }
    case Alt(a, b) =>
      if at < pc < at + 1 + Size(a) { HoldsTame(p, a, at + 1, id, pc, refs, g); }
      else if pc > at + 1 + Size(a) { HoldsTame(p, b, at + 2 + Size(a), id + Loops(a), pc, refs, g); }
    case Group(a, k) => if at < pc < at + 1 + Size(a) { HoldsTame(p, a, at + 1, id, pc, refs, g); }
    case Rep(a, mn, mx) => RepTame(p, a, mn, mx, at, id, pc, refs, g);
    case _ => LeafTame(p, t, at, id, pc, refs, g);
  }

  lemma LeafTame(p: seq<Inst>, t: Node, at: nat, id: nat, pc: nat, refs: bool, g: int)
    requires Leaf(t) && TreeTame(t, refs, g) && Holds(p, t, at, id) && at <= pc < at + Size(t)
    ensures pc < |p| && Tame(p[pc], refs, g)
  {
  }

  lemma {:induction false} RepTame(p: seq<Inst>, a: Node, mn: nat, mx: int, at: nat, id: nat, pc: nat, refs: bool,
      g: int)
    requires TreeTame(a, refs, g) && at <= pc
    requires if mx < 0 then AtLeast(p, a, mn, at, id) && pc < at + AtLeastSize(a, mn)
             else Between(p, a, mn, Excess(mn, mx), at, id)
                  && pc < at + Times(mn, Size(a)) + Times(Excess(mn, mx), Size(a) + 1)
    ensures pc < |p| && Tame(p[pc], refs, g)
    decreases a, 4, 0
  {
    hide Holds; hide Size; hide Loops;
    AtLeastShape(a, mn);
    hide Times; hide AtLeastSize; hide Copies; hide Optionals;
    var k := if mx < 0 then Straight(mn) else mn;
    var at', id' := at + Times(k, Size(a)), id + Times(k, Loops(a));
    if pc < at' {
      CopiesTame(p, a, k, at, id, pc, refs, g);
    } else if mx >= 0 {
      OptionalsTame(p, a, Excess(mn, mx), at', id', at' + Times(Excess(mn, mx), Size(a) + 1), pc, refs, g);
    } else {
      var body := at' + BodyOffset(mn == 0);
      if body <= pc < body + Size(a) { HoldsTame(p, a, body, id' + 1, pc, refs, g); }
    }
  }

  lemma {:induction false} CopiesTame(p: seq<Inst>, a: Node, k: nat, at: nat, id: nat, pc: nat, refs: bool, g: int)
    requires TreeTame(a, refs, g) && Copies(p, a, k, at, id) && at <= pc < at + Times(k, Size(a))
    ensures pc < |p| && Tame(p[pc], refs, g)
    decreases a, 3, k
  {
    hide Holds; hide Size; hide Loops;
    if pc < at + Times(k - 1, Size(a)) { CopiesTame(p, a, k - 1, at, id, pc, refs, g); }
    else { HoldsTame(p, a, at + Times(k - 1, Size(a)), id + Times(k - 1, Loops(a)), pc, refs, g); }
  }

  lemma {:induction false} OptionalsTame(p: seq<Inst>, a: Node, d: nat, at: nat, id: nat, end: nat, pc: nat,
      refs: bool, g: int)
    requires TreeTame(a, refs, g) && Optionals(p, a, d, at, id, end) && at <= pc < at + Times(d, Size(a) + 1)
    ensures pc < |p| && Tame(p[pc], refs, g)
    decreases a, 3, d
  {
    hide Holds; hide Size; hide Loops;
    if at < pc < at + 1 + Size(a) { HoldsTame(p, a, at + 1, id, pc, refs, g); }
    else if pc > at { OptionalsTame(p, a, d - 1, at + 1 + Size(a), id + Loops(a), end, pc, refs, g); }
  }

  lemma ProgramLong(p: seq<Inst>, t: Node)
    requires IsProgram(p, t)
    ensures |p| >= 3
  {
  }
}
