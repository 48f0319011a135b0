/** The instruction set of src/regex.c as a branching machine, and the correctness of compiled
    code: a tree's code runs from its first address to just past its last exactly as the tree's
    meaning relates states. */
module RegexMachine {
  import opened RegexText
  import opened RegexProgram
  import opened RegexMeaning

  /** A program and its subject. In `strict` mode loop registers stop a loop after an iteration
      that consumed nothing, as in the backtracker; otherwise CHECK always offers both ways, as
      in the Pike machine. */
  datatype Machine = Machine(p: seq<Inst>, v: Subject, strict: bool)
  {
    ghost predicate Valid() { v.Valid() }
  }

  datatype Cfg = Cfg(pc: int, st: St, loops: seq<int>)

  function Mark(m: Machine, loops: seq<int>, id: nat, pos: nat): (r: seq<int>)
    ensures |r| == |loops|
  {
    if m.strict then Set(loops, id, pos) else loops
  }

  /** The configurations that can follow c, the preferred one first. */
  function Next(m: Machine, c: Cfg): (r: seq<Cfg>)
    requires m.Valid()
    ensures |r| <= 2
  {
    if !(0 <= c.pc < |m.p|) then []
    else
      match m.p[c.pc]
      case ITest(test) =>
        var d := CharAt(m.v, c.st.pos);
        if CharOk(m.v, test, d.c) then [c.(pc := c.pc + 1, st := St(c.st.pos + d.n, c.st.caps))] else []
      case IAssert(kind) => if Asserts(m.v, kind, c.st.pos) then [c.(pc := c.pc + 1)] else []
      case ISplit(x, y) => [c.(pc := x), c.(pc := y)]
      case IJmp(x) => [c.(pc := x)]
      case ISave(slot) => [c.(pc := c.pc + 1, st := Save(c.st, slot))]
      case IEnter(id) => [c.(pc := c.pc + 1, loops := Mark(m, c.loops, id, c.st.pos))]
      case ICheck(x, y, id) =>
        if m.strict && Get(c.loops, id) == c.st.pos then [c.(pc := y)]
        else [c.(pc := x, loops := Mark(m, c.loops, id, c.st.pos)), c.(pc := y)]
      case IBackRef(k) =>
        var e := Refer(m.v, k, c.st);
        if e < 0 then [] else [c.(pc := c.pc + 1, st := St(e, c.st.caps))]
      case IMatch => []
  }

  /** d is reached from c in n steps. */
  ghost predicate Run(m: Machine, n: nat, c: Cfg, d: Cfg)
    requires m.Valid()
  {
    if n == 0 then c == d else exists e | e in Next(m, c) :: Run(m, n - 1, e, d)
  }

  lemma {:induction false} RunAppend(m: Machine, j: nat, k: nat, c: Cfg, d: Cfg, e: Cfg)
    requires m.Valid() && Run(m, j, c, d) && Run(m, k, d, e)
    ensures Run(m, j + k, c, e)
    decreases j
  {
    hide Next;
    if j > 0 {
      var c' :| c' in Next(m, c) && Run(m, j - 1, c', d);
      RunAppend(m, j - 1, k, c', d, e);
      assert c' in Next(m, c) && Run(m, j + k - 1, c', e);
    }
  }

  lemma RunStep(m: Machine, c: Cfg, c': Cfg, k: nat, d: Cfg)
    requires m.Valid() && c' in Next(m, c) && Run(m, k, c', d)
    ensures Run(m, k + 1, c, d)
  {
  }

  lemma RunNone(m: Machine, c: Cfg)
    requires m.Valid()
    ensures Run(m, 0, c, c)
  {
  }

  lemma RunOne(m: Machine, c: Cfg, d: Cfg)
    requires m.Valid() && d in Next(m, c)
    ensures Run(m, 1, c, d)
  {
    assert Run(m, 0, d, d);
  }

  /** Only the registers id..ids may differ. */
  predicate Agree(l: seq<int>, r: seq<int>, id: nat, ids: nat) {
    |l| == |r| && forall i | 0 <= i < |l| && !(id <= i < ids) :: l[i] == r[i]
  }

  lemma RelShape(v: Subject, strict: bool, t: Node, a: St, b: St)
    requires v.Valid()
    ensures match t
            case Cat(x, y) => Rel(v, strict, t, a, b) == RelCat(v, strict, x, y, a, b)
            case Alt(x, y) => Rel(v, strict, t, a, b) == (Rel(v, strict, x, a, b) || Rel(v, strict, y, a, b))
            case Group(x, k) => Rel(v, strict, t, a, b) == RelGroup(v, strict, x, k, a, b)
            case Rep(x, mn, mx) =>
              Rel(v, strict, t, a, b) ==
              if mx < 0 then RelAtLeast(v, strict, x, mn, a, b) else RelBetween(v, strict, x, mn, mx, a, b)
            case _ => true
  {
  }

  // ---- compiled code does everything the tree allows ----

  predicate Room(m: Machine, loops: seq<int>, ids: nat) { m.strict ==> ids <= |loops| }

  /** Whatever the meaning of t relates, its code can run. */
  lemma {:induction false} RelRuns(m: Machine, t: Node, at: nat, id: nat, a: St, b: St, l: seq<int>)
    returns (n: nat, r: seq<int>)
    requires m.Valid() && Holds(m.p, t, at, id) && Rel(m.v, m.strict, t, a, b) && Room(m, l, id + Loops(t))
    ensures Run(m, n, Cfg(at, a, l), Cfg(at + Size(t), b, r)) && Agree(l, r, id, id + Loops(t))
    decreases t, 2, 0
  {
    hide Run; hide Next; hide Holds; hide Size; hide Loops; hide Rel; hide Power; hide Times; hide Copies;
    hide Optionals;
    SizeShape(t); HoldsShape(m.p, t, at, id); RelShape(m.v, m.strict, t, a, b);
    match t
    case Cat(x, y) => n, r := CatRuns(m, x, y, at, id, a, b, l);
    case Alt(x, y) => n, r := AltRuns(m, x, y, at, id, a, b, l);
    case Group(x, k) => n, r := GroupRuns(m, x, k, at, id, a, b, l);
    case Rep(x, mn, mx) =>
      if mx < 0 {
        n, r := AtLeastRuns(m, x, mn, at, id, a, b, l);
      } else {
        var k: nat :| mn <= k <= mx && Power(m.v, m.strict, x, k, a, b);
        n, r := BetweenRuns(m, x, mn, Excess(mn, mx), k, at, id, a, b, l);
      }
    case _ => n, r := LeafRuns(m, t, at, id, a, b, l);
  }

  lemma LeafRuns(m: Machine, t: Node, at: nat, id: nat, a: St, b: St, l: seq<int>) returns (n: nat, r: seq<int>)
    requires m.Valid() && Leaf(t) && Holds(m.p, t, at, id) && Rel(m.v, m.strict, t, a, b)
    ensures Run(m, n, Cfg(at, a, l), Cfg(at + Size(t), b, r)) && r == l
  {
    hide Run;
    n, r := 1, l;
    if t.Empty? { n := 0; RunNone(m, Cfg(at, a, l)); } else { RunOne(m, Cfg(at, a, l), Cfg(at + 1, b, l)); }
  }

  lemma {:induction false} CatRuns(m: Machine, x: Node, y: Node, at: nat, id: nat, a: St, b: St, l: seq<int>)
    returns (n: nat, r: seq<int>)
    requires m.Valid() && Holds(m.p, x, at, id) && Holds(m.p, y, at + Size(x), id + Loops(x))
    requires RelCat(m.v, m.strict, x, y, a, b)
    requires Room(m, l, id + Loops(x) + Loops(y))
    ensures Run(m, n, Cfg(at, a, l), Cfg(at + Size(x) + Size(y), b, r)) && Agree(l, r, id, id + Loops(x) + Loops(y))
    decreases Cat(x, y), 1, 0
  {
    hide Run; hide Holds; hide Size; hide Loops; hide Rel;
    var c :| Rel(m.v, m.strict, x, a, c) && Rel(m.v, m.strict, y, c, b);
    var n1, l1 := RelRuns(m, x, at, id, a, c, l);
    var n2, l2 := RelRuns(m, y, at + Size(x), id + Loops(x), c, b, l1);
    RunAppend(m, n1, n2, Cfg(at, a, l), Cfg(at + Size(x), c, l1), Cfg(at + Size(x) + Size(y), b, l2));
    n, r := n1 + n2, l2;
  }

  lemma {:induction false} GroupRuns(m: Machine, x: Node, k: Pos, at: nat, id: nat, a: St, b: St, l: seq<int>)
    returns (n: nat, r: seq<int>)
    requires m.Valid() && HoldsGroup(m.p, x, k, at, id) && Room(m, l, id + Loops(x))
    requires RelGroup(m.v, m.strict, x, k, a, b)
    ensures Run(m, n, Cfg(at, a, l), Cfg(at + Size(x) + 2, b, r)) && Agree(l, r, id, id + Loops(x))
    decreases Group(x, k), 1, 0
  {
    hide Run; hide Holds; hide Size; hide Loops; hide Rel;
    var c :| Rel(m.v, m.strict, x, Save(a, 2 * k), c) && b == Save(c, 2 * k + 1);
    n, r := RelRuns(m, x, at + 1, id, Save(a, 2 * k), c, l);
    var close := Cfg(at + 1 + Size(x), c, r);
    RunStep(m, Cfg(at, a, l), Cfg(at + 1, Save(a, 2 * k), l), n, close);
    RunOne(m, close, Cfg(at + Size(x) + 2, b, r));
    RunAppend(m, n + 1, 1, Cfg(at, a, l), close, Cfg(at + Size(x) + 2, b, r));
    n := n + 2;
  }

  lemma {:induction false} AltRuns(m: Machine, x: Node, y: Node, at: nat, id: nat, a: St, b: St, l: seq<int>)
    returns (n: nat, r: seq<int>)
    requires m.Valid() && HoldsAlt(m.p, x, y, at, id) && Room(m, l, id + Loops(x) + Loops(y))
    requires Rel(m.v, m.strict, x, a, b) || Rel(m.v, m.strict, y, a, b)
    ensures Run(m, n, Cfg(at, a, l), Cfg(at + Size(x) + Size(y) + 2, b, r)) && Agree(l, r, id, id + Loops(x) + Loops(y))
    decreases Alt(x, y), 1, 0
  {
    hide Run; hide Holds; hide Size; hide Loops; hide Rel;
    var mid := at + 1 + Size(x);
    var end := Cfg(mid + 1 + Size(y), b, l);
    if Rel(m.v, m.strict, x, a, b) {
      n, r := RelRuns(m, x, at + 1, id, a, b, l);
      RunStep(m, Cfg(at, a, l), Cfg(at + 1, a, l), n, Cfg(mid, b, r));
      RunOne(m, Cfg(mid, b, r), end.(loops := r));
      RunAppend(m, n + 1, 1, Cfg(at, a, l), Cfg(mid, b, r), end.(loops := r));
      n := n + 2;
    } else {
      n, r := RelRuns(m, y, mid + 1, id + Loops(x), a, b, l);
      RunStep(m, Cfg(at, a, l), Cfg(mid + 1, a, l), n, end.(loops := r));
      n := n + 1;
    }
  }

  lemma {:induction false} CopiesRun(m: Machine, x: Node, k: nat, at: nat, id: nat, a: St, b: St, l: seq<int>)
    returns (n: nat, r: seq<int>)
    requires m.Valid() && Copies(m.p, x, k, at, id) && Power(m.v, m.strict, x, k, a, b)
        && Room(m, l, id + Times(k, Loops(x)))
    ensures Run(m, n, Cfg(at, a, l), Cfg(at + Times(k, Size(x)), b, r)) && Agree(l, r, id, id + Times(k, Loops(x)))
    decreases x, 3, k
  {
    hide Run; hide Holds; hide Size; hide Loops; hide Rel;
    n, r := 0, l;
    RunNone(m, Cfg(at, a, l));
    if k > 0 {
      var c := PowerLast(m, x, k, a, b);
      var at', id' := at + Times(k - 1, Size(x)), id + Times(k - 1, Loops(x));
      var n1, l1 := CopiesRun(m, x, k - 1, at, id, a, c, l);
      var n2, l2 := RelRuns(m, x, at', id', c, b, l1);
      RunAppend(m, n1, n2, Cfg(at, a, l), Cfg(at', c, l1), Cfg(at' + Size(x), b, l2));
      n, r := n1 + n2, l2;
    }
  }

  lemma {:induction false} PowerLast(m: Machine, x: Node, k: nat, a: St, b: St) returns (c: St)
    requires m.Valid() && k > 0 && Power(m.v, m.strict, x, k, a, b)
    ensures Power(m.v, m.strict, x, k - 1, a, c) && Rel(m.v, m.strict, x, c, b)
    decreases k
  {
    c := a;
    var d :| Rel(m.v, m.strict, x, a, d) && Power(m.v, m.strict, x, k - 1, d, b);
    if k > 1 { c := PowerLast(m, x, k - 1, d, b); }
  }

  lemma {:induction false} PowerSplit(m: Machine, x: Node, j: nat, k: nat, a: St, b: St) returns (c: St)
    requires m.Valid() && Power(m.v, m.strict, x, j + k, a, b)
    ensures Power(m.v, m.strict, x, j, a, c) && Power(m.v, m.strict, x, k, c, b)
    decreases j
  {
    c := a;
    if j > 0 {
      var d :| Rel(m.v, m.strict, x, a, d) && Power(m.v, m.strict, x, j + k - 1, d, b);
      c := PowerSplit(m, x, j - 1, k, d, b);
    }
  }

  lemma {:induction false} AtLeastRuns(m: Machine, x: Node, mn: nat, at: nat, id: nat, a: St, b: St, l: seq<int>)
    returns (n: nat, r: seq<int>)
    requires m.Valid() && AtLeast(m.p, x, mn, at, id)
    requires RelAtLeast(m.v, m.strict, x, mn, a, b)
    requires Room(m, l, id + AtLeastLoops(x, mn))
    ensures Run(m, n, Cfg(at, a, l), Cfg(at + AtLeastSize(x, mn), b, r)) && Agree(l, r, id, id + AtLeastLoops(x, mn))
    decreases x, 5, 0
  {
    hide Run; hide Holds; hide Size; hide Loops; hide Rel; hide Power; hide Copies;
    AtLeastShape(x, mn);
    hide Times; hide AtLeastSize; hide AtLeastLoops;
    var pre := Straight(mn);
    var at', id' := at + Times(pre, Size(x)), id + Times(pre, Loops(x));
    var c :| Power(m.v, m.strict, x, pre, a, c) && Rounds(m.v, m.strict, x, mn == 0, c, b);
    var n1, l1 := CopiesRun(m, x, pre, at, id, a, c, l);
    var n2, l2 := LoopRuns(m, x, mn == 0, at', id', c, b, l1);
    RunAppend(m, n1, n2, Cfg(at, a, l), Cfg(at', c, l1), Cfg(at' + BodyOffset(mn == 0) + Size(x) + 1, b, l2));
    n, r := n1 + n2, l2;
  }

  lemma {:induction false} LoopRuns(m: Machine, x: Node, skip: bool, at: nat, id: nat, a: St, b: St, l: seq<int>)
    returns (n: nat, r: seq<int>)
    requires m.Valid() && Loop(m.p, x, skip, at, id) && Rounds(m.v, m.strict, x, skip, a, b)
    requires Room(m, l, id + 1 + Loops(x))
    ensures Run(m, n, Cfg(at, a, l), Cfg(at + BodyOffset(skip) + Size(x) + 1, b, r))
        && Agree(l, r, id, id + 1 + Loops(x))
    decreases x, 4, 0
  {
    hide Run; hide Holds; hide Size; hide Loops; hide Rel;
    var body := at + BodyOffset(skip);
    var l1 := Mark(m, l, id, a.pos);
    var end := Cfg(body + Size(x) + 1, b, l1);
    if skip && a == b {
      RunOne(m, Cfg(at + 1, a, l1), end);
      RunStep(m, Cfg(at, a, l), Cfg(at + 1, a, l1), 1, end);
      n, r := 2, l1;
    } else {
      var k: nat :| Iterates(m.v, m.strict, x, k, a, b);
      n, r := BodyRuns(m, x, k, body, id, a, b, l1);
      end := end.(loops := r);
      if skip {
        RunStep(m, Cfg(at + 1, a, l1), Cfg(body, a, l1), n, end);
        n := n + 1;
      }
      RunStep(m, Cfg(at, a, l), Cfg(at + 1, a, l1), n, end);
      n := n + 1;
    }
  }

  /** The loop from its body on: k + 1 iterations and out. */
  lemma {:induction false} BodyRuns(m: Machine, x: Node, k: nat, body: nat, id: nat, a: St, b: St, l: seq<int>)
    returns (n: nat, r: seq<int>)
    requires m.Valid() && Holds(m.p, x, body, id + 1) && body + Size(x) < |m.p|
    requires m.p[body + Size(x)] == ICheck(body, body + Size(x) + 1, id)
    requires Iterates(m.v, m.strict, x, k, a, b) && Room(m, l, id + 1 + Loops(x))
    requires m.strict ==> l[id] == a.pos
    ensures Run(m, n, Cfg(body, a, l), Cfg(body + Size(x) + 1, b, r)) && Agree(l, r, id, id + 1 + Loops(x))
    decreases x, 3, k
  {
    hide Run; hide Holds; hide Size; hide Loops; hide Rel;
    var chk := body + Size(x);
    var c := b;
    if k > 0 {
      c :| Rel(m.v, m.strict, x, a, c) && (m.strict ==> c.pos != a.pos) && Iterates(m.v, m.strict, x, k - 1, c, b);
    }
    var n1, l1 := RelRuns(m, x, body, id + 1, a, c, l);
    if k == 0 {
      n, r := 1, l1;
      RunOne(m, Cfg(chk, c, l1), Cfg(chk + 1, b, r));
    } else {
      var l2 := Mark(m, l1, id, c.pos);
      n, r := BodyRuns(m, x, k - 1, body, id, c, b, l2);
      RunStep(m, Cfg(chk, c, l1), Cfg(body, c, l2), n, Cfg(chk + 1, b, r));
      n := n + 1;
    }
    RunAppend(m, n1, n, Cfg(body, a, l), Cfg(chk, c, l1), Cfg(chk + 1, b, r));
    n := n1 + n;
  }

  lemma {:induction false} BetweenRuns(m: Machine, x: Node, mn: nat, d: nat, k: nat, at: nat, id: nat, a: St, b: St,
      l: seq<int>)
    returns (n: nat, r: seq<int>)
    requires m.Valid() && Between(m.p, x, mn, d, at, id) && mn <= k <= mn + d && Power(m.v, m.strict, x, k, a, b)
    requires at + Times(mn, Size(x)) + Times(d, Size(x) + 1) <= |m.p|
    requires Room(m, l, id + Times(mn, Loops(x)) + Times(d, Loops(x)))
    ensures Run(m, n, Cfg(at, a, l), Cfg(at + Times(mn, Size(x)) + Times(d, Size(x) + 1), b, r))
    ensures Agree(l, r, id, id + Times(mn, Loops(x)) + Times(d, Loops(x)))
    decreases x, 4, 0
  {
    hide Run; hide Holds; hide Size; hide Loops; hide Rel;
    var at', id' := at + Times(mn, Size(x)), id + Times(mn, Loops(x));
    var c := PowerSplit(m, x, mn, k - mn, a, b);
    var n1, l1 := CopiesRun(m, x, mn, at, id, a, c, l);
    var n2, l2 := OptionalsRun(m, x, d, k - mn, at', id', c, b, l1);
    RunAppend(m, n1, n2, Cfg(at, a, l), Cfg(at', c, l1), Cfg(at' + Times(d, Size(x) + 1), b, l2));
    n, r := n1 + n2, l2;
  }

  lemma {:induction false} OptionalsRun(m: Machine, x: Node, d: nat, k: nat, at: nat, id: nat, a: St, b: St,
      l: seq<int>)
    returns (n: nat, r: seq<int>)
    requires m.Valid() && k <= d && Power(m.v, m.strict, x, k, a, b)
    requires Optionals(m.p, x, d, at, id, at + Times(d, Size(x) + 1))
    requires Room(m, l, id + Times(d, Loops(x)))
    ensures Run(m, n, Cfg(at, a, l), Cfg(at + Times(d, Size(x) + 1), b, r)) && Agree(l, r, id, id + Times(d, Loops(x)))
    decreases x, 3, d
  {
    hide Run; hide Holds; hide Size; hide Loops; hide Rel;
    var end := Cfg(at + Times(d, Size(x) + 1), b, l);
    n, r := 0, l;
    RunNone(m, Cfg(at, a, l));
    if k == 0 {
      if d > 0 { RunOne(m, Cfg(at, a, l), end); n := 1; }
    } else {
      var c :| Rel(m.v, m.strict, x, a, c) && Power(m.v, m.strict, x, k - 1, c, b);
      var n1, l1 := RelRuns(m, x, at + 1, id, a, c, l);
      var at' := at + 1 + Size(x);
      n, r := OptionalsRun(m, x, d - 1, k - 1, at', id + Loops(x), c, b, l1);
      RunAppend(m, n1, n, Cfg(at + 1, a, l), Cfg(at', c, l1), end.(loops := r));
      RunStep(m, Cfg(at, a, l), Cfg(at + 1, a, l), n1 + n, end.(loops := r));
      n := n1 + n + 1;
    }
  }

  // ---- compiled code does nothing else ----

  /** A run that leaves t's code leaves it at its end, having done what t means. */
  lemma {:induction false} RunsRel(m: Machine, t: Node, at: nat, id: nat, a: St, l: seq<int>, n: nat, f: Cfg)
    returns (b: St, r: seq<int>, k: nat)
    requires m.Valid() && WellFormed(t) && Holds(m.p, t, at, id) && Room(m, l, id + Loops(t))
    requires Run(m, n, Cfg(at, a, l), f) && !(at <= f.pc < at + Size(t))
    ensures k <= n && Run(m, k, Cfg(at + Size(t), b, r), f)
    ensures Rel(m.v, m.strict, t, a, b) && Agree(l, r, id, id + Loops(t))
    decreases t, 2, n
  {
    hide Run; hide Next; hide Holds; hide Size; hide Loops; hide Rel; hide Power; hide Times; hide Copies;
    hide Optionals;
    SizeShape(t); HoldsShape(m.p, t, at, id);
    match t {
      case Cat(x, y) =>
        var c, l1, k1 := RunsRel(m, x, at, id, a, l, n, f);
        b, r, k := RunsRel(m, y, at + Size(x), id + Loops(x), c, l1, k1, f);
        assert RelCat(m.v, m.strict, x, y, a, b);
      case Alt(x, y) => b, r, k := RunsAlt(m, x, y, at, id, a, l, n, f);
      case Group(x, g) => b, r, k := RunsGroup(m, x, g, at, id, a, l, n, f);
      case Rep(x, mn, mx) =>
        if mx < 0 {
          b, r, k := RunsAtLeast(m, x, mn, at, id, a, l, n, f);
        } else {
          var e: nat;
          b, r, k, e := RunsBetween(m, x, mn, Excess(mn, mx), at, id, a, l, n, f);
          assert RelBetween(m.v, m.strict, x, mn, mx, a, b);
        }
      case _ => b, k := RunsLeaf(m, t, at, id, a, l, n, f); r := l;
    }
    RelShape(m.v, m.strict, t, a, b);
  }

  lemma RunsLeaf(m: Machine, t: Node, at: nat, id: nat, a: St, l: seq<int>, n: nat, f: Cfg) returns (b: St, k: nat)
    requires m.Valid() && Leaf(t) && Holds(m.p, t, at, id)
    requires Run(m, n, Cfg(at, a, l), f) && !(at <= f.pc < at + Size(t))
    ensures k <= n && Run(m, k, Cfg(at + Size(t), b, l), f) && Rel(m.v, m.strict, t, a, b)
  {
    hide Run;
    b, k := a, n;
    if !t.Empty? { var c := TakeStep(m, n, Cfg(at, a, l), f); b, k := c.st, n - 1; }
  }

  lemma {:induction false} RunsGroup(m: Machine, x: Node, g: Pos, at: nat, id: nat, a: St, l: seq<int>, n: nat, f: Cfg)
    returns (b: St, r: seq<int>, k: nat)
    requires m.Valid() && WellFormed(x) && HoldsGroup(m.p, x, g, at, id) && Room(m, l, id + Loops(x))
    requires Run(m, n, Cfg(at, a, l), f) && !(at <= f.pc < at + Size(x) + 2)
    ensures k <= n && Run(m, k, Cfg(at + Size(x) + 2, b, r), f)
    ensures RelGroup(m.v, m.strict, x, g, a, b) && Agree(l, r, id, id + Loops(x))
    decreases Group(x, g), 1, n
  {
    hide Run; hide Holds; hide Size; hide Loops; hide Rel;
    var c := TakeStep(m, n, Cfg(at, a, l), f);
    var d, l1, k1 := RunsRel(m, x, at + 1, id, Save(a, 2 * g), l, n - 1, f);
    var e := TakeStep(m, k1, Cfg(at + 1 + Size(x), d, l1), f);
    b, r, k := e.st, l1, k1 - 1;
  }

  lemma TakeStep(m: Machine, n: nat, c: Cfg, f: Cfg) returns (c': Cfg)
    requires m.Valid() && Run(m, n, c, f) && f.pc != c.pc
    ensures n > 0 && c' in Next(m, c) && Run(m, n - 1, c', f)
  {
    c' :| c' in Next(m, c) && Run(m, n - 1, c', f);
  }

  lemma {:induction false} RunsAlt(m: Machine, x: Node, y: Node, at: nat, id: nat, a: St, l: seq<int>, n: nat, f: Cfg)
    returns (b: St, r: seq<int>, k: nat)
    requires m.Valid() && WellFormed(x) && WellFormed(y) && HoldsAlt(m.p, x, y, at, id)
        && Room(m, l, id + Loops(x) + Loops(y))
    requires Run(m, n, Cfg(at, a, l), f) && !(at <= f.pc < at + Size(x) + Size(y) + 2)
    ensures k <= n && Run(m, k, Cfg(at + Size(x) + Size(y) + 2, b, r), f)
    ensures (Rel(m.v, m.strict, x, a, b) || Rel(m.v, m.strict, y, a, b)) && Agree(l, r, id, id + Loops(x) + Loops(y))
    decreases Alt(x, y), 1, n
  {
    hide Run; hide Holds; hide Size; hide Loops; hide Rel;
    var mid := at + 1 + Size(x);
    var c := TakeStep(m, n, Cfg(at, a, l), f);
    if c.pc == at + 1 {
      b, r, k := RunsRel(m, x, at + 1, id, a, l, n - 1, f);
      var d := TakeStep(m, k, Cfg(mid, b, r), f);
      k := k - 1;
    } else {
      b, r, k := RunsRel(m, y, mid + 1, id + Loops(x), a, l, n - 1, f);
    }
  }

  lemma {:induction false} RunsCopies(m: Machine, x: Node, k: nat, at: nat, id: nat, a: St, l: seq<int>, n: nat, f: Cfg)
    returns (b: St, r: seq<int>, e: nat)
    requires m.Valid() && WellFormed(x) && Copies(m.p, x, k, at, id) && Room(m, l, id + Times(k, Loops(x)))
    requires Run(m, n, Cfg(at, a, l), f) && !(at <= f.pc < at + Times(k, Size(x)))
    ensures e <= n && Run(m, e, Cfg(at + Times(k, Size(x)), b, r), f)
    ensures Power(m.v, m.strict, x, k, a, b) && Agree(l, r, id, id + Times(k, Loops(x)))
    decreases x, 3, k
  {
    hide Run; hide Holds; hide Size; hide Loops; hide Rel;
    b, r, e := a, l, n;
    if k > 0 {
      var c, l1, k1 := RunsCopies(m, x, k - 1, at, id, a, l, n, f);
      b, r, e := RunsRel(m, x, at + Times(k - 1, Size(x)), id + Times(k - 1, Loops(x)), c, l1, k1, f);
      PowerExtend(m, x, k - 1, a, c, b);
    }
  }

  lemma {:induction false} PowerExtend(m: Machine, x: Node, k: nat, a: St, b: St, c: St)
    requires m.Valid() && Power(m.v, m.strict, x, k, a, b) && Rel(m.v, m.strict, x, b, c)
    ensures Power(m.v, m.strict, x, k + 1, a, c)
    decreases k
  {
    if k == 0 {
      assert Power(m.v, m.strict, x, 0, c, c);
    } else {
      var d :| Rel(m.v, m.strict, x, a, d) && Power(m.v, m.strict, x, k - 1, d, b);
      PowerExtend(m, x, k - 1, d, b, c);
    }
  }

  lemma {:induction false} PowerAppend(m: Machine, x: Node, j: nat, k: nat, a: St, b: St, c: St)
    requires m.Valid() && Power(m.v, m.strict, x, j, a, b) && Power(m.v, m.strict, x, k, b, c)
    ensures Power(m.v, m.strict, x, j + k, a, c)
    decreases j
  {
    if j > 0 {
      var d :| Rel(m.v, m.strict, x, a, d) && Power(m.v, m.strict, x, j - 1, d, b);
      PowerAppend(m, x, j - 1, k, d, b, c);
    }
  }

  lemma {:induction false} RunsAtLeast(m: Machine, x: Node, mn: nat, at: nat, id: nat, a: St, l: seq<int>, n: nat,
      f: Cfg)
    returns (b: St, r: seq<int>, k: nat)
    requires m.Valid() && WellFormed(x) && AtLeast(m.p, x, mn, at, id) && Room(m, l, id + AtLeastLoops(x, mn))
    requires Run(m, n, Cfg(at, a, l), f) && !(at <= f.pc < at + AtLeastSize(x, mn))
    ensures k <= n && Run(m, k, Cfg(at + AtLeastSize(x, mn), b, r), f)
    ensures RelAtLeast(m.v, m.strict, x, mn, a, b)
    ensures Agree(l, r, id, id + AtLeastLoops(x, mn))
    decreases x, 4, n
  {
    hide Run; hide Holds; hide Size; hide Loops; hide Rel; hide Power; hide Copies;
    AtLeastShape(x, mn);
    hide Times; hide AtLeastSize; hide AtLeastLoops;
    var pre := Straight(mn);
    var c, l1, k1 := RunsCopies(m, x, pre, at, id, a, l, n, f);
    b, r, k := RunsLoop(m, x, mn == 0, at + Times(pre, Size(x)), id + Times(pre, Loops(x)), c, l1, k1, f);
  }

  lemma {:induction false} RunsLoop(m: Machine, x: Node, skip: bool, at: nat, id: nat, a: St, l: seq<int>, n: nat,
      f: Cfg)
    returns (b: St, r: seq<int>, k: nat)
    requires m.Valid() && WellFormed(x) && Loop(m.p, x, skip, at, id) && Room(m, l, id + 1 + Loops(x))
    requires Run(m, n, Cfg(at, a, l), f) && !(at <= f.pc < at + BodyOffset(skip) + Size(x) + 1)
    ensures k <= n && Run(m, k, Cfg(at + BodyOffset(skip) + Size(x) + 1, b, r), f)
    ensures Rounds(m.v, m.strict, x, skip, a, b) && Agree(l, r, id, id + 1 + Loops(x))
    decreases x, 3, n + 1
  {
    hide Run; hide Holds; hide Size; hide Loops; hide Rel;
    var body := at + BodyOffset(skip);
    var c := TakeStep(m, n, Cfg(at, a, l), f);
    var d, n1 := c, n - 1;
    if skip { d := TakeStep(m, n - 1, c, f); n1 := n - 2; }
    if d.pc == body {
      var i: nat;
      b, r, k, i := RunsBody(m, x, body, id, a, c.loops, n1, f);
    } else {
      b, r, k := a, c.loops, n1;
    }
  }

  lemma {:induction false} RunsBody(m: Machine, x: Node, body: nat, id: nat, a: St, l: seq<int>, n: nat, f: Cfg)
    returns (b: St, r: seq<int>, k: nat, i: nat)
    requires m.Valid() && WellFormed(x) && Holds(m.p, x, body, id + 1) && body + Size(x) < |m.p|
        && Room(m, l, id + 1 + Loops(x))
    requires m.p[body + Size(x)] == ICheck(body, body + Size(x) + 1, id)
    requires m.strict ==> l[id] == a.pos
    requires Run(m, n, Cfg(body, a, l), f) && !(body <= f.pc < body + Size(x) + 1)
    ensures k <= n && Run(m, k, Cfg(body + Size(x) + 1, b, r), f)
    ensures Iterates(m.v, m.strict, x, i, a, b) && Agree(l, r, id, id + 1 + Loops(x))
    decreases x, 3, n
  {
    hide Run; hide Holds; hide Size; hide Loops; hide Rel;
    var chk := body + Size(x);
    var c, l1, k1 := RunsRel(m, x, body, id + 1, a, l, n, f);
    var d := TakeStep(m, k1, Cfg(chk, c, l1), f);
    if d.pc == body {
      b, r, k, i := RunsBody(m, x, body, id, c, d.loops, k1 - 1, f);
      i := i + 1;
    } else {
      b, r, k, i := c, l1, k1 - 1, 0;
    }
  }

  lemma {:induction false} RunsBetween(m: Machine, x: Node, mn: nat, d: nat, at: nat, id: nat, a: St, l: seq<int>,
      n: nat, f: Cfg)
    returns (b: St, r: seq<int>, k: nat, e: nat)
    requires m.Valid() && WellFormed(x) && Between(m.p, x, mn, d, at, id)
    requires Room(m, l, id + Times(mn, Loops(x)) + Times(d, Loops(x)))
    requires Run(m, n, Cfg(at, a, l), f) && !(at <= f.pc < at + Times(mn, Size(x)) + Times(d, Size(x) + 1))
    ensures k <= n && Run(m, k, Cfg(at + Times(mn, Size(x)) + Times(d, Size(x) + 1), b, r), f)
    ensures mn <= e <= mn + d && Power(m.v, m.strict, x, e, a, b)
    ensures Agree(l, r, id, id + Times(mn, Loops(x)) + Times(d, Loops(x)))
    decreases x, 4, n
  {
    hide Run; hide Holds; hide Size; hide Loops; hide Rel;
    var c, l1, k1 := RunsCopies(m, x, mn, at, id, a, l, n, f);
    b, r, k, e := RunsOptionals(m, x, d, at + Times(mn, Size(x)), id + Times(mn, Loops(x)), c, l1, k1, f);
    PowerAppend(m, x, mn, e, a, c, b);
    e := mn + e;
  }

  lemma {:induction false} RunsOptionals(m: Machine, x: Node, d: nat, at: nat, id: nat, a: St, l: seq<int>, n: nat,
      f: Cfg)
    returns (b: St, r: seq<int>, k: nat, e: nat)
    requires m.Valid() && WellFormed(x) && Optionals(m.p, x, d, at, id, at + Times(d, Size(x) + 1))
        && Room(m, l, id + Times(d, Loops(x)))
    requires Run(m, n, Cfg(at, a, l), f) && !(at <= f.pc < at + Times(d, Size(x) + 1))
    ensures k <= n && Run(m, k, Cfg(at + Times(d, Size(x) + 1), b, r), f)
    ensures e <= d && Power(m.v, m.strict, x, e, a, b) && Agree(l, r, id, id + Times(d, Loops(x)))
    decreases x, 3, d
  {
    hide Run; hide Holds; hide Size; hide Loops; hide Rel;
    b, r, k, e := a, l, n, 0;
    if d > 0 {
      var c := TakeStep(m, n, Cfg(at, a, l), f);
      k := n - 1;
      if c.pc == at + 1 {
        var g, l1, k1 := RunsRel(m, x, at + 1, id, a, l, n - 1, f);
        b, r, k, e := RunsOptionals(m, x, d - 1, at + 1 + Size(x), id + Loops(x), g, l1, k1, f);
        e := e + 1;
      }
    }
  }

  // ---- whole programs ----

  /** The state in which t itself starts and, from t's final state, the final configuration. */
  function Begun(a: St): St { Save(a, 0) }

  function Ended(b: St): St { Save(b, 1) }

  /** A whole program started in state a can reach MATCH in state f. */
  ghost predicate Accepts(m: Machine, a: St, loops: seq<int>, f: St)
    requires m.Valid()
  {
    exists n: nat, e :: Run(m, n, Cfg(0, a, loops), e) && e.pc == |m.p| - 1 && e.st == f
  }

  /** A program accepts exactly what its tree means. */
  lemma Compiled(m: Machine, t: Node, a: St, loops: seq<int>, f: St)
    requires m.Valid() && WellFormed(t) && IsProgram(m.p, t) && Room(m, loops, Loops(t))
    ensures Accepts(m, a, loops, f) <==> exists b :: Rel(m.v, m.strict, t, Begun(a), b) && f == Ended(b)
  {
    hide Holds; hide Size; hide Loops; hide Rel;
    if Accepts(m, a, loops, f) {
      var n: nat, e :| Run(m, n, Cfg(0, a, loops), e) && e.pc == |m.p| - 1 && e.st == f;
      var b := CompiledSound(m, t, a, loops, n, f, e.loops);
    }
    if exists b :: Rel(m.v, m.strict, t, Begun(a), b) && f == Ended(b) {
      var b :| Rel(m.v, m.strict, t, Begun(a), b) && f == Ended(b);
      CompiledComplete(m, t, a, loops, b);
    }
  }

  lemma CompiledSound(m: Machine, t: Node, a: St, loops: seq<int>, n: nat, f: St, r: seq<int>) returns (b: St)
    requires m.Valid() && WellFormed(t) && IsProgram(m.p, t) && Room(m, loops, Loops(t))
    requires Run(m, n, Cfg(0, a, loops), Cfg(|m.p| - 1, f, r))
    ensures Rel(m.v, m.strict, t, Begun(a), b) && f == Ended(b)
  {
    hide Holds; hide Size; hide Loops; hide Rel; hide Run;
    var end := Cfg(|m.p| - 1, f, r);
    var c := TakeStep(m, n, Cfg(0, a, loops), end);
    var l1, k;
    b, l1, k := RunsRel(m, t, 1, 0, Begun(a), loops, n - 1, end);
    var d := TakeStep(m, k, Cfg(1 + Size(t), b, l1), end);
    AtMatch(m, k - 1, d, end);
  }

  lemma AtMatch(m: Machine, n: nat, c: Cfg, d: Cfg)
    requires m.Valid() && Run(m, n, c, d) && 0 <= c.pc < |m.p| && m.p[c.pc] == IMatch
    ensures c == d
  {
  }

  lemma CompiledComplete(m: Machine, t: Node, a: St, loops: seq<int>, b: St)
    requires m.Valid() && IsProgram(m.p, t) && Room(m, loops, Loops(t)) && Rel(m.v, m.strict, t, Begun(a), b)
    ensures Accepts(m, a, loops, Ended(b))
  {
    hide Holds; hide Size; hide Loops; hide Rel; hide Run;
    var n, r := RelRuns(m, t, 1, 0, Begun(a), b, loops);
    var last := Cfg(1 + Size(t), b, r);
    RunStep(m, Cfg(0, a, loops), Cfg(1, Begun(a), loops), n, last);
    RunOne(m, last, Cfg(|m.p| - 1, Ended(b), r));
    RunAppend(m, n + 1, 1, Cfg(0, a, loops), last, Cfg(|m.p| - 1, Ended(b), r));
  }
}
