/** The Pike machine of src/regex.c: `add_thread` and `pike_run`. All threads advance in lock
    step; a per-position mark keeps one thread per instruction. */
module RegexPike {
  import opened RegexText
  import opened RegexProgram
  import opened RegexMeaning
  import opened RegexMachine

  datatype Thread = Thread(pc: nat, caps: seq<int>)

  /** An entry of the exploration stack: an address to visit or a capture to put back. */
  datatype Frame = Visit(pc: int) | Restore(slot: nat, saved: int)

  predicate IsLeaf(i: Inst) { i.ITest? || i.IMatch? || i.IBackRef? }

  /** The addresses that follow pc without consuming text. */
  function Eps(m: Machine, pos: nat, pc: int): (r: seq<int>)
    requires m.Valid()
  {
    if !(0 <= pc < |m.p|) then []
    else
      match m.p[pc]
      case IJmp(x) => [x]
      case ISplit(x, y) => [x, y]
      case ICheck(x, y, _) => [x, y]
      case ISave(_) => [pc + 1]
      case IEnter(_) => [pc + 1]
      case IAssert(kind) => if Asserts(m.v, kind, pos) then [pc + 1] else []
      case _ => []
  }

  // ---- marks ----

  /** Everything marked leads only to marked addresses or to addresses waiting on the stack. */
  ghost predicate Closed(m: Machine, pos: nat, mark: seq<nat>, gen: nat, stack: seq<Frame>)
    requires m.Valid()
  {
    forall pc, q | 0 <= pc < |mark| && mark[pc] == gen && q in Eps(m, pos, pc) :: Awaited(mark, gen, stack, q)
  }

  predicate Awaited(mark: seq<nat>, gen: nat, stack: seq<Frame>, q: int) {
    0 <= q < |mark| && (mark[q] == gen || Visit(q) in stack)
  }

  /** The thread list holds one thread for each marked leaf. */
  ghost predicate Listed(m: Machine, mark: seq<nat>, gen: nat, l: seq<Thread>) {
    && |mark| == |m.p|
    && (forall pc | 0 <= pc < |mark| && mark[pc] == gen && IsLeaf(m.p[pc]) :: Holder(l, pc))
    && (forall i | 0 <= i < |l| :: l[i].pc < |mark| && mark[l[i].pc] == gen && IsLeaf(m.p[l[i].pc]))
    && (forall i, j | 0 <= i < j < |l| :: l[i].pc != l[j].pc)
  }

  ghost predicate Holder(l: seq<Thread>, pc: int) { exists i | 0 <= i < |l| :: l[i].pc == pc }

  /** The addresses marked in generation gen. */
  function Marked(mark: seq<nat>, gen: nat): (s: set<int>)
    ensures forall i :: i in s <==> 0 <= i < |mark| && mark[i] == gen
  {
    set i | 0 <= i < |mark| && mark[i] == gen
  }

  // ---- soundness of threads ----

  function Seed(ncap: nat): seq<int> { seq(ncap, _ => -1) }

  /** The machine, started at s, can be at pc with these captures, having consumed up to pos. */
  ghost predicate Reached(m: Machine, ncap: nat, s: nat, pos: nat, pc: int, caps: seq<int>)
    requires m.Valid()
  {
    exists n: nat :: Run(m, n, Cfg(0, St(s, Seed(ncap)), []), Cfg(pc, St(pos, caps), []))
  }

  /** The same, with the start that capture 0 names (or pos, before SAVE 0 has run). */
  ghost predicate Sound(m: Machine, ncap: nat, s: nat, pos: nat, pc: int, caps: seq<int>)
    requires m.Valid()
  {
    && |caps| == ncap
    && Reached(m, ncap, s, pos, pc, caps)
    && 0 <= pc < |m.p|
    && (if pc == 0 then s == pos && caps == Seed(ncap) else ncap > 0 && caps[0] == s)
  }

  /** Every address on the stack is sound with the captures that unwinding the frames above it
      will have put back. */
  ghost predicate StackSound(m: Machine, ncap: nat, s: nat, pos: nat, stack: seq<Frame>, work: seq<int>)
    requires m.Valid()
  {
    if stack == [] then true
    else
      var rest, top := stack[..|stack| - 1], stack[|stack| - 1];
      if top.Visit? then Sound(m, ncap, s, pos, top.pc, work) && StackSound(m, ncap, s, pos, rest, work)
      else StackSound(m, ncap, s, pos, rest, Set(work, top.slot, top.saved))
  }

  lemma StackPush(m: Machine, ncap: nat, s: nat, pos: nat, stack: seq<Frame>, pc: int, work: seq<int>)
    requires m.Valid() && StackSound(m, ncap, s, pos, stack, work) && Sound(m, ncap, s, pos, pc, work)
    ensures StackSound(m, ncap, s, pos, stack + [Visit(pc)], work)
  {
    hide Sound;
    assert (stack + [Visit(pc)])[..|stack|] == stack;
  }

  lemma StackPushRestore(m: Machine, ncap: nat, s: nat, pos: nat, stack: seq<Frame>, slot: nat, work: seq<int>, x: int)
    requires m.Valid() && StackSound(m, ncap, s, pos, stack, work)
    ensures StackSound(m, ncap, s, pos, stack + [Restore(slot, Get(work, slot))], Set(work, slot, x))
  {
    hide Sound;
    assert (stack + [Restore(slot, Get(work, slot))])[..|stack|] == stack;
    assert Set(Set(work, slot, x), slot, Get(work, slot)) == work;
  }

  /** A program as the Pike machine runs it: compiled, without back-references. */
  ghost predicate Ready(m: Machine, t: Node) {
    m.Valid() && !m.strict && WellFormed(t) && NoBackRefs(t) && IsProgram(m.p, t)
  }

  /** Following one instruction keeps soundness. */
  lemma SoundStep(m: Machine, t: Node, ncap: nat, s: nat, pos: nat, pc: int, caps: seq<int>, q: int, caps': seq<int>)
    requires Ready(m, t) && ncap >= 2 && Sound(m, ncap, s, pos, pc, caps) && q in Eps(m, pos, pc)
    requires caps' == if m.p[pc].ISave? then Set(caps, m.p[pc].slot, pos) else caps
    ensures Sound(m, ncap, s, pos, q, caps') && q != 0
  {
    hide Run; hide IsProgram;
    ProgramTargets(m.p, t, pc);
    var c, d := Cfg(pc, St(pos, caps), []), Cfg(q, St(pos, caps'), []);
    assert d in Next(m, c);
    var n: nat :| Run(m, n, Cfg(0, St(s, Seed(ncap)), []), c);
    RunOne(m, c, d);
    RunAppend(m, n, 1, Cfg(0, St(s, Seed(ncap)), []), c, d);
    InProgram(m, t, pc);
  }

  lemma InProgram(m: Machine, t: Node, pc: int)
    requires m.Valid() && IsProgram(m.p, t) && 0 <= pc < |m.p| && m.p[pc] != IMatch
    ensures pc + 1 < |m.p| && |m.p| >= 3
  {
    hide Holds;
  }

  lemma SoundConsume(m: Machine, t: Node, ncap: nat, s: nat, pos: nat, pc: int, caps: seq<int>)
    requires Ready(m, t) && ncap >= 2 && Sound(m, ncap, s, pos, pc, caps)
    requires m.p[pc].ITest? && CharOk(m.v, m.p[pc].test, CharAt(m.v, pos).c)
    ensures Sound(m, ncap, s, pos + CharAt(m.v, pos).n, pc + 1, caps) && pc != 0
  {
    hide Run; hide Holds;
    var c, d := Cfg(pc, St(pos, caps), []), Cfg(pc + 1, St(pos + CharAt(m.v, pos).n, caps), []);
    var n: nat :| Run(m, n, Cfg(0, St(s, Seed(ncap)), []), c);
    RunOne(m, c, d);
    RunAppend(m, n, 1, Cfg(0, St(s, Seed(ncap)), []), c, d);
  }

  // ---- completeness: what a position leads to ----

  /** From pc at pos the program can reach MATCH at e. */
  ghost predicate Leads(m: Machine, pc: int, pos: nat, e: nat)
    requires m.Valid()
  {
    exists n: nat, d :: LeadsIn(m, n, pc, pos, e, d)
  }

  ghost predicate LeadsIn(m: Machine, n: nat, pc: int, pos: nat, e: nat, d: Cfg)
    requires m.Valid()
  {
    Run(m, n, Cfg(pc, St(pos, []), []), d) && d.pc == |m.p| - 1 && d.st.pos == e
  }

  /** Whatever a marked address leads to, some thread in the list leads to: marking an address
      never discards a match. */
  lemma {:induction false} MarkedLeads(m: Machine, t: Node, pos: nat, mark: seq<nat>, gen: nat, l: seq<Thread>,
      pc: int, e: nat, n: nat, d: Cfg)
    returns (i: nat)
    requires Ready(m, t) && Closed(m, pos, mark, gen, []) && Listed(m, mark, gen, l)
    requires 0 <= pc < |mark| && mark[pc] == gen && LeadsIn(m, n, pc, pos, e, d)
    ensures i < |l| && Leads(m, l[i].pc, pos, e)
    decreases n
  {
    hide Holds;
    if IsLeaf(m.p[pc]) {
      assert Holder(l, pc);
      i :| 0 <= i < |l| && l[i].pc == pc;
    } else {
      var c := FollowEps(m, pos, pc, n, e, d);
      assert Awaited(mark, gen, [], c);
      i := MarkedLeads(m, t, pos, mark, gen, l, c, e, n - 1, d);
    }
  }

  lemma FollowEps(m: Machine, pos: nat, pc: int, n: nat, e: nat, d: Cfg) returns (q: int)
    requires m.Valid() && !m.strict && 0 <= pc < |m.p| && !IsLeaf(m.p[pc]) && LeadsIn(m, n, pc, pos, e, d)
    requires m.p[|m.p| - 1] == IMatch
    ensures q in Eps(m, pos, pc) && n > 0 && LeadsIn(m, n - 1, q, pos, e, d)
  {
    hide Run;
    var c := TakeStep(m, n, Cfg(pc, St(pos, []), []), d);
    q := c.pc;
  }

  /** What a waiting thread leads to: MATCH here, or past the next character. */
  lemma LeafLeads(m: Machine, t: Node, pc: int, pos: nat, e: nat)
    requires Ready(m, t) && 0 <= pc < |m.p| && IsLeaf(m.p[pc]) && Leads(m, pc, pos, e)
    ensures if m.p[pc] == IMatch then e == pos
            else m.p[pc].ITest? && CharOk(m.v, m.p[pc].test, CharAt(m.v, pos).c)
                 && Leads(m, pc + 1, pos + CharAt(m.v, pos).n, e)
  {
    var n: nat, d :| LeadsIn(m, n, pc, pos, e, d);
    var c := Cfg(pc, St(pos, []), []);
    if m.p[pc] == IMatch {
      AtMatch(m, n, c, d);
    } else {
      hide Run; hide Holds;
      ProgramNoBackRefs(m.p, t, pc);
      var c' := TakeStep(m, n, c, d);
      assert LeadsIn(m, n - 1, pc + 1, pos + CharAt(m.v, pos).n, e, d);
    }
  }

  lemma ProgramNoBackRefs(p: seq<Inst>, t: Node, pc: nat)
    requires NoBackRefs(t) && IsProgram(p, t) && pc < |p|
    ensures !p[pc].IBackRef?
  {
    hide Holds; hide Size;
    NoBackRefsTame(t);
    if 1 <= pc <= Size(t) { HoldsTame(p, t, 1, 0, pc, false, -1); }
  }

  // ---- leftmost, then longest ----

  /** s..e is the longest match at the leftmost place where t matches at all. */
  ghost predicate LeftmostLongest(v: Subject, t: Node, s: int, e: int)
    requires v.Valid()
  {
    && 0 <= s && 0 <= e && MatchesAt(v, t, s, e)
    && forall s': nat, e': nat | MatchesAt(v, t, s', e') :: s < s' || (s == s' && e' <= e)
  }

  ghost predicate MatchesSomewhere(v: Subject, t: Node)
    requires v.Valid()
  {
    exists s: nat, e: nat :: MatchesAt(v, t, s, e)
  }

  /** t matches s..e, with s at the start of a character. */
  ghost predicate MatchesAt(v: Subject, t: Node, s: nat, e: nat)
    requires v.Valid()
  {
    Boundary(v, s) && Matches(v, t, s, e)
  }

  /** Matches from s to e are what leads from address 0 at s to MATCH at e. */
  lemma MatchesLeads(m: Machine, t: Node, s: nat, e: nat)
    requires Ready(m, t) && Matches(m.v, t, s, e)
    ensures Leads(m, 0, s, e)
  {
    hide Holds; hide Rel; hide Matches; hide Run; hide Size; hide Loops;
    var a := St(s, []);
    var b := MatchesRel(m.v, false, t, Begun(a), e);
    CompiledComplete(m, t, a, [], b);
    var n: nat, d :| Run(m, n, Cfg(0, a, []), d) && d.pc == |m.p| - 1 && d.st == Ended(b);
    assert LeadsIn(m, n, 0, s, e, d);
  }

  /** A thread at MATCH has found a match, and its captures are those of a run. */
  ghost predicate Found(m: Machine, t: Node, ncap: nat, s: nat, e: nat, caps: seq<int>)
    requires m.Valid()
  {
    && Matches(m.v, t, s, e)
    && exists b :: Rel(m.v, false, t, Begun(St(s, Seed(ncap))), b) && b.pos == e && caps == Ended(b).caps
  }

  lemma SoundMatch(m: Machine, t: Node, ncap: nat, s: nat, pos: nat, pc: int, caps: seq<int>)
    requires Ready(m, t) && ncap >= 2 && Sound(m, ncap, s, pos, pc, caps) && m.p[pc] == IMatch
    ensures Found(m, t, ncap, s, pos, caps) && caps[0] == s && caps[1] == pos
  {
    hide Holds; hide Rel; hide Matches; hide Run; hide Size; hide Loops;
    ProgramTargets(m.p, t, pc);
    ProgramLong(m.p, t);
    var n: nat :| Run(m, n, Cfg(0, St(s, Seed(ncap)), []), Cfg(pc, St(pos, caps), []));
    var b := CompiledSound(m, t, St(s, Seed(ncap)), [], n, St(pos, caps), []);
    RelMatches(m.v, false, t, Begun(St(s, Seed(ncap))), b);
  }

  // ---- steps of the exploration ----

  lemma {:induction false} MarkedBound(mark: seq<nat>, gen: nat)
    ensures |Marked(mark, gen)| <= |mark|
    decreases |mark|
  {
    if mark == [] {
      assert Marked(mark, gen) == {};
    } else {
      var n := |mark| - 1;
      MarkedBound(mark[..n], gen);
      assert Marked(mark, gen) == Marked(mark[..n], gen) + (if mark[n] == gen then {n} else {});
    }
  }

  lemma MarkedOneMore(mark: seq<nat>, gen: nat, pc: nat)
    requires pc < |mark| && mark[pc] != gen
    ensures |Marked(mark[pc := gen], gen)| == |Marked(mark, gen)| + 1
  {
    assert Marked(mark[pc := gen], gen) == Marked(mark, gen) + {pc};
  }

  /** A list with one thread per marked leaf is never longer than the program. */
  lemma {:induction false} ListBound(l: seq<Thread>, n: nat)
    requires forall i | 0 <= i < |l| :: l[i].pc < n
    requires forall i, j | 0 <= i < j < |l| :: l[i].pc != l[j].pc
    ensures |l| <= n
  {
    var pcs := set i | 0 <= i < |l| :: l[i].pc;
    DistinctCount(l);
    Below(pcs, n);
  }

  lemma {:induction false} DistinctCount(l: seq<Thread>)
    requires forall i, j | 0 <= i < j < |l| :: l[i].pc != l[j].pc
    ensures |(set i | 0 <= i < |l| :: l[i].pc)| == |l|
    decreases |l|
  {
    if l != [] {
      var k := l[..|l| - 1];
      DistinctCount(k);
      assert (set i | 0 <= i < |l| :: l[i].pc) == (set i | 0 <= i < |k| :: k[i].pc) + {l[|l| - 1].pc};
    }
  }

  lemma {:induction false} Below(s: set<nat>, n: nat)
    requires forall x | x in s :: x < n
    ensures |s| <= n
    decreases n
  {
    if n > 0 { Below(s - {n - 1}, n - 1); } else { assert s == {}; }
  }

  /** Marking pc and pushing its successors keeps the marks closed. */
  lemma ClosedMark(m: Machine, pos: nat, mark: seq<nat>, gen: nat, stack: seq<Frame>, pc: nat, stack': seq<Frame>)
    requires m.Valid() && pc < |mark| && Closed(m, pos, mark, gen, stack + [Visit(pc)])
    requires stack <= stack'
    requires forall q | q in Eps(m, pos, pc) :: 0 <= q < |mark| && Visit(q) in stack'
    ensures Closed(m, pos, mark[pc := gen], gen, stack')
  {
    hide Eps;
    var mark' := mark[pc := gen];
    forall c, q | 0 <= c < |mark'| && mark'[c] == gen && q in Eps(m, pos, c) ensures Awaited(mark', gen, stack', q) {
      if c != pc { assert Awaited(mark, gen, stack + [Visit(pc)], q); }
    }
  }

  lemma ClosedPop(m: Machine, pos: nat, mark: seq<nat>, gen: nat, stack: seq<Frame>, f: Frame)
    requires m.Valid() && Closed(m, pos, mark, gen, stack + [f])
    requires f.Visit? ==> 0 <= f.pc < |mark| && mark[f.pc] == gen
    ensures Closed(m, pos, mark, gen, stack)
  {
    hide Eps;
    forall c, q | 0 <= c < |mark| && mark[c] == gen && q in Eps(m, pos, c) ensures Awaited(mark, gen, stack, q) {
      assert Awaited(mark, gen, stack + [f], q);
    }
  }

  lemma ListedMark(m: Machine, mark: seq<nat>, gen: nat, l: seq<Thread>, pc: nat, caps: seq<int>)
    requires Listed(m, mark, gen, l) && pc < |mark| && mark[pc] != gen
    ensures Listed(m, mark[pc := gen], gen, if IsLeaf(m.p[pc]) then l + [Thread(pc, caps)] else l)
  {
    hide IsLeaf;
    var l' := if IsLeaf(m.p[pc]) then l + [Thread(pc, caps)] else l;
    var mark' := mark[pc := gen];
    forall c | 0 <= c < |mark'| && mark'[c] == gen && IsLeaf(m.p[c]) ensures Holder(l', c) {
      if c == pc {
        assert l'[|l|].pc == c;
      } else {
        assert Holder(l, c);
        var i :| 0 <= i < |l| && l[i].pc == c;
        assert l'[i].pc == c;
      }
    }
  }

  /** What add_thread knows of its surroundings. */
  ghost predicate Looking(m: Machine, pos: nat, prev: int, next: int)
    requires m.Valid()
  {
    pos <= m.v.end && prev == CharBefore(m.v, pos) && next == CharAt(m.v, pos).c
  }

  /** The threads from index k on are sound threads started at s. */
  ghost predicate SoundFrom(m: Machine, ncap: nat, s: nat, pos: nat, l: seq<Thread>, k: nat)
    requires m.Valid()
  {
    forall i | k <= i < |l| :: Sound(m, ncap, s, pos, l[i].pc, l[i].caps)
  }

  class Pike {
    const m: Machine
    const ncap: nat
    var mark: seq<nat>
    var gen: nat
    var work: seq<int>
    var stack: seq<Frame>

    constructor (m: Machine, ncap: nat)
      ensures this.m == m && this.ncap == ncap
      ensures gen == 0 && mark == seq(|m.p|, _ => 0) && stack == []
    {
      this.m, this.ncap := m, ncap;
      mark, gen := seq(|m.p|, _ => 0), 0;
      work, stack := [], [];
    }

    /** The stack has room for two entries for each instruction and two more. */
    method Push(f: Frame)
      requires |stack| < 2 * |m.p| + 2
      modifies this`stack
      ensures stack == old(stack) + [f]
    {
      stack := stack + [f];
    }

    /** The switch of add_thread, for an address that has just been marked. */
    method Expand(l: seq<Thread>, pc: nat, pos: nat, prev: int, next: int, ghost t: Node, ghost s: nat,
        ghost old0: seq<nat>)
      returns (l': seq<Thread>)
      requires Ready(m, t) && ncap >= 2 && Looking(m, pos, prev, next) && |old0| == |mark| == |m.p|
      requires pc < |mark| && old0[pc] != gen && mark == old0[pc := gen]
      requires Sound(m, ncap, s, pos, pc, work) && StackSound(m, ncap, s, pos, stack, work)
      requires Closed(m, pos, old0, gen, stack + [Visit(pc)]) && Listed(m, old0, gen, l) && |stack| <= 2 * |m.p|
      modifies this`work, this`stack
      ensures StackSound(m, ncap, s, pos, stack, work)
      ensures Closed(m, pos, mark, gen, stack) && Listed(m, mark, gen, l')
      ensures old(stack) <= stack && |stack| <= |old(stack)| + 2
      ensures l <= l' && SoundFrom(m, ncap, s, pos, l', |l|)
    {
      hide Holds; hide Run; hide Reached; hide Sound; hide StackSound; hide Closed; hide Listed;
      hide IsProgram; hide CharBefore; hide CharAt; hide Next;
      ListedMark(m, old0, gen, l, pc, work);
      ghost var stack0 := stack;
      l' := l;
      match m.p[pc] {
        case IJmp(x) => PushOne(x, pc, pos, t, s);
        case ISplit(x, y) => PushTwo(x, y, pc, pos, t, s);
        case ICheck(x, y, _) => PushTwo(x, y, pc, pos, t, s);
        case IEnter(_) => PushOne(pc + 1, pc, pos, t, s);
        case IAssert(kind) => if AssertOk(m.v, kind, pos, prev, next) { PushOne(pc + 1, pc, pos, t, s); }
        case ISave(slot) => PushSave(slot, pc, pos, t, s);
        case _ => l' := l + [Thread(pc, work)];
      }
      ClosedMark(m, pos, old0, gen, stack0, pc, stack);
    }

    method PushOne(x: int, ghost pc: nat, ghost pos: nat, ghost t: Node, ghost s: nat)
      requires Ready(m, t) && ncap >= 2 && pc < |m.p| && Eps(m, pos, pc) == [x] && !m.p[pc].ISave?
      requires Sound(m, ncap, s, pos, pc, work) && StackSound(m, ncap, s, pos, stack, work) && |stack| <= 2 * |m.p|
      modifies this`stack
      ensures stack == old(stack) + [Visit(x)] && StackSound(m, ncap, s, pos, stack, work)
      ensures Visit(x) in stack && 0 <= x < |m.p|
    {
      SoundStep(m, t, ncap, s, pos, pc, work, x, work);
      StackPush(m, ncap, s, pos, stack, x, work);
      hide *;
      Push(Visit(x));
      assert stack[|stack| - 1] == Visit(x);
    }

    /** The second alternative is pushed first, so that the first is explored first. */
    method PushTwo(x: int, y: int, ghost pc: nat, ghost pos: nat, ghost t: Node, ghost s: nat)
      requires Ready(m, t) && ncap >= 2 && pc < |m.p| && Eps(m, pos, pc) == [x, y] && !m.p[pc].ISave?
      requires Sound(m, ncap, s, pos, pc, work) && StackSound(m, ncap, s, pos, stack, work) && |stack| <= 2 * |m.p|
      modifies this`stack
      ensures stack == old(stack) + [Visit(y)] + [Visit(x)] && StackSound(m, ncap, s, pos, stack, work)
      ensures Visit(x) in stack && Visit(y) in stack && 0 <= x < |m.p| && 0 <= y < |m.p|
    {
      SoundStep(m, t, ncap, s, pos, pc, work, y, work);
      SoundStep(m, t, ncap, s, pos, pc, work, x, work);
      StackPush(m, ncap, s, pos, stack, y, work);
      Push(Visit(y));
      StackPush(m, ncap, s, pos, stack, x, work);
      hide *;
      Push(Visit(x));
      assert stack[|stack| - 1] == Visit(x) && stack[|stack| - 2] == Visit(y);
    }

    method PushSave(slot: nat, pc: nat, pos: nat, ghost t: Node, ghost s: nat)
      requires Ready(m, t) && ncap >= 2 && pc < |m.p| && m.p[pc] == ISave(slot)
      requires Sound(m, ncap, s, pos, pc, work) && StackSound(m, ncap, s, pos, stack, work) && |stack| <= 2 * |m.p|
      modifies this`work, this`stack
      ensures StackSound(m, ncap, s, pos, stack, work)
      ensures old(stack) <= stack && |stack| <= |old(stack)| + 2
      ensures Visit(pc + 1) in stack && pc + 1 < |m.p|
    {
      hide Run; hide Reached; hide IsProgram;
      SoundStep(m, t, ncap, s, pos, pc, work, pc + 1, Set(work, slot, pos));
      if slot < ncap {
        StackPushRestore(m, ncap, s, pos, stack, slot, work, pos);
        Push(Restore(slot, work[slot]));
        work := work[slot := pos];
      }
      StackPush(m, ncap, s, pos, stack, pc + 1, work);
      Push(Visit(pc + 1));
      assert stack[|stack| - 1] == Visit(pc + 1);
    }

    /** `add_thread`: explore from pc0 everything reachable without consuming text, adding a
        thread for each leaf not yet marked at this position. */
    method AddThread(l: seq<Thread>, pc0: nat, caps: seq<int>, pos: nat, prev: int, next: int, ghost t: Node,
        ghost s: nat)
      returns (l': seq<Thread>)
      requires Ready(m, t) && ncap >= 2 && Looking(m, pos, prev, next)
      requires Sound(m, ncap, s, pos, pc0, caps)
      requires |mark| == |m.p| && Closed(m, pos, mark, gen, []) && Listed(m, mark, gen, l) && Fresh(mark, gen)
      modifies this`mark, this`work, this`stack
      ensures |mark| == |m.p| && Closed(m, pos, mark, gen, []) && Listed(m, mark, gen, l') && Fresh(mark, gen)
      ensures pc0 < |mark| && mark[pc0] == gen
      ensures l <= l' && SoundFrom(m, ncap, s, pos, l', |l|)
    {
      hide Holds; hide Run; hide Reached; hide StackSound; hide Closed; hide Listed; hide IsProgram; hide CharBefore;
      hide CharAt;
      l' := l;
      work := caps;
      stack := [];
      Push(Visit(pc0));
      assert stack == [Visit(pc0)];
      StackStart(m, ncap, s, pos, pc0, caps);
      ClosedStart(m, pos, mark, gen, pc0);
      ghost var marked0 := |Marked(mark, gen)|;
      while stack != []
        invariant |mark| == |m.p| && Fresh(mark, gen)
        invariant StackSound(m, ncap, s, pos, stack, work)
        invariant Closed(m, pos, mark, gen, stack) && Listed(m, mark, gen, l')
        invariant Awaited(mark, gen, stack, pc0)
        invariant l <= l' && SoundFrom(m, ncap, s, pos, l', |l|)
        invariant |stack| + marked0 <= 1 + |Marked(mark, gen)| && |stack| <= 2 * |m.p| + 2
        decreases |m.p| - |Marked(mark, gen)|, |stack|
      {
        var f := stack[|stack| - 1];
        ghost var stack0, mark0 := stack, mark;
        stack := stack[..|stack| - 1];
        assert stack0 == stack + [f];
        StackPop(m, ncap, s, pos, stack, f, work);
        MarkedBound(mark, gen);
        if f.Restore? {
          ClosedPop(m, pos, mark, gen, stack, f);
          work := Set(work, f.slot, f.saved);
        } else if mark[f.pc] == gen {
          ClosedPop(m, pos, mark, gen, stack, f);
        } else {
          MarkedOneMore(mark, gen, f.pc);
          mark := mark[f.pc := gen];
          MarkedBound(mark, gen);
          var l0 := l';
          l' := Expand(l0, f.pc, pos, prev, next, t, s, mark0);
          SoundExtend(m, ncap, s, pos, l0, l', |l|);
        }
      }
    }

    /** Start a new generation in which exactly the leaves in l are marked. */
    method Remark(l: seq<Thread>, ghost pos: nat)
      requires m.Valid() && |mark| == |m.p| && Fresh(mark, gen)
      requires forall i | 0 <= i < |l| :: l[i].pc < |m.p| && IsLeaf(m.p[l[i].pc])
      requires forall i, j | 0 <= i < j < |l| :: l[i].pc != l[j].pc
      modifies this`mark, this`gen
      ensures |mark| == |m.p| && Fresh(mark, gen) && gen == old(gen) + 1
      ensures Closed(m, pos, mark, gen, []) && Listed(m, mark, gen, l)
    {
      hide IsLeaf;
      gen := gen + 1;
      var i := 0;
      while i < |l|
        invariant 0 <= i <= |l| && |mark| == |m.p| && Fresh(mark, gen) && gen == old(gen) + 1
        invariant forall pc | 0 <= pc < |mark| && mark[pc] == gen :: Holder(l[..i], pc)
        invariant forall j | 0 <= j < i :: mark[l[j].pc] == gen
      {
        ghost var mark0 := mark;
        mark := mark[l[i].pc := gen];
        forall pc | 0 <= pc < |mark| && mark[pc] == gen ensures Holder(l[..i + 1], pc) {
          if pc == l[i].pc { assert l[..i + 1][i].pc == pc; } else {
            assert Holder(l[..i], pc);
            var j :| 0 <= j < i && l[..i][j].pc == pc;
            assert l[..i + 1][j].pc == pc;
          }
        }
        i := i + 1;
      }
      assert l[..i] == l;
      LeavesClosed(m, pos, mark, gen, l);
    }

    /** The loop over the current threads at pos: record matches, advance the others. */
    method Step(cl: seq<Thread>, matched0: bool, best0: seq<int>, pos: nat, c: Decoded, nc: int, ghost t: Node,
        ghost lim: nat)
      returns (nl: seq<Thread>, matched: bool, best: seq<int>)
      requires Ready(m, t) && ncap >= 2 && |mark| == |m.p| && Fresh(mark, gen)
      requires Boundary(m.v, pos) && pos <= m.v.end && c == CharAt(m.v, pos)
      requires c.n > 0 ==> nc == CharAt(m.v, pos + c.n).c
      requires Threads(m, t, ncap, pos, cl, pos + 1) && BestOk(m, t, ncap, pos + 1, matched0, best0)
      requires AllCovered(m, t, cl, pos, matched0, best0, lim)
      modifies this`mark, this`gen, this`work, this`stack
      ensures |mark| == |m.p| && Fresh(mark, gen)
      ensures BestOk(m, t, ncap, pos + 1, matched, best)
      ensures c.n > 0 ==>
          Threads(m, t, ncap, pos + c.n, nl, pos + 1) && AllCovered(m, t, nl, pos + c.n, matched, best, lim)
      ensures c.n == 0 ==> AllCovered(m, t, [], pos, matched, best, lim)
      ensures matched0 ==> matched
    {
      hide Holds; hide Matches; hide Rel; hide Run; hide Closed; hide Listed; hide IsProgram; hide Leads; hide Reached;
      hide Boundary;
      hide CharBefore; hide CharAt; hide Threads; hide Found; hide CharOk; hide MidCovered; hide AllCovered;
      hide NotAfter; hide UpTo;
      hide Seed; hide SoundFrom;
      NotAfterNone(cl);
      matched, best, nl := matched0, best0, [];
      var npos := pos + c.n;
      Remark(nl, npos);
      var i := 0;
      NoThreads(m, t, ncap, npos, pos + 1);
      AllCoveredStart(m, t, cl, pos, matched0, best0, lim, npos);
      while i < |cl|
        invariant 0 <= i <= |cl| && |mark| == |m.p| && Fresh(mark, gen)
        invariant Closed(m, npos, mark, gen, []) && Listed(m, mark, gen, nl)
        invariant BestOk(m, t, ncap, pos + 1, matched, best) && (matched0 ==> matched)
        invariant c.n > 0 ==> Threads(m, t, ncap, npos, nl, pos + 1)
        invariant c.n == 0 ==> nl == []
        invariant NotAfter(nl, cl, i)
        invariant MidCovered(m, t, cl, i, pos, nl, npos, matched, best, lim)
      {
        ThreadAt(m, t, ncap, pos, cl, pos + 1, i);
        var tc := cl[i].caps;
        var inst := m.p[cl[i].pc];
        if matched && tc[0] > best[0] {
          MidSkip(m, t, cl, i, pos, nl, npos, matched, best, lim);
          NotAfterNext(nl, cl, i);
        } else if inst == IMatch {
          SoundMatch(m, t, ncap, tc[0], pos, cl[i].pc, tc);
          ghost var b0, m0 := best, matched;
          if !matched || tc[0] < best[0] || (tc[0] == best[0] && tc[1] > best[1]) {
            best := tc;
            matched := true;
          }
          MidMatch(m, t, cl, i, pos, nl, npos, m0, b0, best, lim);
          NotAfterNext(nl, cl, i);
        } else if c.n > 0 && inst.ITest? && CharOk(m.v, inst.test, c.c) {
          SoundConsume(m, t, ncap, tc[0], pos, cl[i].pc, tc);
          BoundaryNextHere(m.v, pos);
          LookBehind(m.v, pos);
          var nl0 := nl;
          nl := AddThread(nl0, cl[i].pc + 1, tc, npos, c.c, nc, t, tc[0]);
          ThreadsGrow(m, t, ncap, npos, nl0, nl, cl, pos, pos + 1, i, mark, gen);
          MidConsume(m, t, ncap, cl, i, pos, nl0, nl, npos, matched, best, lim, mark, gen);
        } else {
          MidStuck(m, t, cl, i, pos, nl, npos, matched, best, lim);
          NotAfterNext(nl, cl, i);
        }
        i := i + 1;
      }
      MidEnd(m, t, cl, pos, nl, npos, matched, best, lim);
      if c.n == 0 { AllCoveredNone(m, t, nl, npos, matched, best, lim); }
    }
  }

  /** No mark is ahead of the generation. */
  ghost predicate Fresh(mark: seq<nat>, gen: nat) { forall i | 0 <= i < |mark| :: mark[i] <= gen }

  lemma SoundExtend(m: Machine, ncap: nat, s: nat, pos: nat, l0: seq<Thread>, l1: seq<Thread>, k: nat)
    requires m.Valid() && SoundFrom(m, ncap, s, pos, l0, k) && l0 <= l1 && SoundFrom(m, ncap, s, pos, l1, |l0|)
    ensures SoundFrom(m, ncap, s, pos, l1, k)
  {
    hide Sound;
    forall i | k <= i < |l1| ensures Sound(m, ncap, s, pos, l1[i].pc, l1[i].caps) {
      if i < |l0| { assert l1[i] == l0[i]; }
    }
  }

  lemma StackStart(m: Machine, ncap: nat, s: nat, pos: nat, pc: int, work: seq<int>)
    requires m.Valid() && Sound(m, ncap, s, pos, pc, work)
    ensures StackSound(m, ncap, s, pos, [Visit(pc)], work)
  {
    hide Sound;
    assert [Visit(pc)][..0] == [];
  }

  lemma ClosedStart(m: Machine, pos: nat, mark: seq<nat>, gen: nat, pc: int)
    requires m.Valid() && Closed(m, pos, mark, gen, [])
    ensures Closed(m, pos, mark, gen, [Visit(pc)])
  {
    hide Eps;
    forall c, q | 0 <= c < |mark| && mark[c] == gen && q in Eps(m, pos, c) ensures Awaited(mark, gen, [Visit(pc)], q) {
      assert Awaited(mark, gen, [], q);
    }
  }

  lemma StackPop(m: Machine, ncap: nat, s: nat, pos: nat, stack: seq<Frame>, f: Frame, work: seq<int>)
    requires m.Valid() && StackSound(m, ncap, s, pos, stack + [f], work)
    ensures f.Visit? ==> Sound(m, ncap, s, pos, f.pc, work) && StackSound(m, ncap, s, pos, stack, work)
    ensures f.Restore? ==> StackSound(m, ncap, s, pos, stack, Set(work, f.slot, f.saved))
  {
    hide Sound;
    assert (stack + [f])[..|stack|] == stack;
  }

  // ---- the lists of threads ----

  /** A thread waiting at pos, started at a boundary before lim. */
  ghost predicate ThreadOk(m: Machine, t: Node, ncap: nat, pos: nat, th: Thread, lim: nat)
    requires m.Valid()
  {
    && |th.caps| == ncap && ncap >= 2 && 0 <= th.caps[0] < lim && Boundary(m.v, th.caps[0])
    && Sound(m, ncap, th.caps[0], pos, th.pc, th.caps)
    && IsLeaf(m.p[th.pc])
  }

  /** Threads in order of their start, one per address. */
  ghost predicate Threads(m: Machine, t: Node, ncap: nat, pos: nat, l: seq<Thread>, lim: nat)
    requires m.Valid()
  {
    && (forall i | 0 <= i < |l| :: ThreadOk(m, t, ncap, pos, l[i], lim))
    && (forall i, j | 0 <= i < j < |l| :: l[i].caps[0] <= l[j].caps[0])
    && (forall i, j | 0 <= i < j < |l| :: l[i].pc != l[j].pc)
  }

  lemma ThreadAt(m: Machine, t: Node, ncap: nat, pos: nat, l: seq<Thread>, lim: nat, i: nat)
    requires m.Valid() && Threads(m, t, ncap, pos, l, lim) && i < |l|
    ensures ThreadOk(m, t, ncap, pos, l[i], lim)
  {
    hide ThreadOk;
  }

  lemma NoThreads(m: Machine, t: Node, ncap: nat, pos: nat, lim: nat)
    requires m.Valid()
    ensures Threads(m, t, ncap, pos, [], lim)
  {
  }

  lemma BoundaryNextHere(v: Subject, pos: nat)
    requires v.Valid() && Boundary(v, pos) && pos < v.end
    ensures Boundary(v, pos + CharAt(v, pos).n) && pos + CharAt(v, pos).n <= v.end
  {
    BoundaryNext(v, pos);
    BoundaryInRange(v, pos + CharAt(v, pos).n);
  }

  lemma LeavesClosed(m: Machine, pos: nat, mark: seq<nat>, gen: nat, l: seq<Thread>)
    requires m.Valid() && |mark| == |m.p|
    requires forall i | 0 <= i < |l| :: l[i].pc < |m.p| && IsLeaf(m.p[l[i].pc])
    requires forall pc | 0 <= pc < |mark| && mark[pc] == gen :: Holder(l, pc)
    ensures Closed(m, pos, mark, gen, [])
  {
    forall pc | 0 <= pc < |mark| && mark[pc] == gen ensures Eps(m, pos, pc) == [] {
      assert Holder(l, pc);
    }
  }

  /** Every thread of nl started no later than the threads of cl from i on. */
  ghost predicate NotAfter(nl: seq<Thread>, cl: seq<Thread>, i: nat) {
    forall j, k | 0 <= j < |nl| && i <= k < |cl| && |nl[j].caps| > 0
        && |cl[k].caps| > 0 :: nl[j].caps[0] <= cl[k].caps[0]
  }

  ghost predicate UpTo(l: seq<Thread>, s: int) { forall j | 0 <= j < |l| :: |l[j].caps| > 0 && l[j].caps[0] <= s }

  lemma NotAfterNone(cl: seq<Thread>)
    ensures NotAfter([], cl, 0)
  {
  }

  lemma NotAfterNext(nl: seq<Thread>, cl: seq<Thread>, i: nat)
    requires NotAfter(nl, cl, i)
    ensures NotAfter(nl, cl, i + 1)
  {
  }

  lemma ThreadsGrow(m: Machine, t: Node, ncap: nat, npos: nat, nl0: seq<Thread>, nl: seq<Thread>, cl: seq<Thread>,
      pos: nat, lim: nat, i: nat, mark: seq<nat>, gen: nat)
    requires Ready(m, t) && Threads(m, t, ncap, npos, nl0, lim) && Threads(m, t, ncap, pos, cl, lim) && i < |cl|
    requires |cl[i].caps| == ncap && ncap >= 2 && 0 <= cl[i].caps[0] < lim && Boundary(m.v, cl[i].caps[0])
    requires nl0 <= nl && SoundFrom(m, ncap, cl[i].caps[0], npos, nl, |nl0|) && NotAfter(nl0, cl, i)
    requires Listed(m, mark, gen, nl)
    ensures Threads(m, t, ncap, npos, nl, lim) && NotAfter(nl, cl, i + 1) && UpTo(nl, cl[i].caps[0])
  {
    hide Holds; hide Run; hide Reached; hide Boundary; hide IsProgram;
    var s := cl[i].caps[0];
    forall j | 0 <= j < |nl| ensures ThreadOk(m, t, ncap, npos, nl[j], lim) && nl[j].caps[0] <= s
        && (j >= |nl0| ==> nl[j].caps[0] == s) {
      if j < |nl0| {
        assert nl[j] == nl0[j];
        assert ThreadOk(m, t, ncap, npos, nl0[j], lim);
      } else {
        assert Sound(m, ncap, s, npos, nl[j].pc, nl[j].caps);
        LeafNotFirst(m, t, nl[j].pc);
      }
    }
    forall k | i + 1 <= k < |cl| ensures ThreadOk(m, t, ncap, pos, cl[k], lim) && s <= cl[k].caps[0] { }
  }

  lemma LeafNotFirst(m: Machine, t: Node, pc: nat)
    requires Ready(m, t) && pc < |m.p| && IsLeaf(m.p[pc])
    ensures pc != 0
  {
  }

  // ---- which matches are still within reach ----

  predicate Better(best: seq<int>, s: int, e: int) { |best| >= 2 && (best[0] < s || (best[0] == s && e <= best[1])) }

  ghost predicate Covers(m: Machine, th: Thread, pos: nat, s: nat, e: nat)
    requires m.Valid()
  {
    |th.caps| > 0 && th.caps[0] <= s && Leads(m, th.pc, pos, e)
  }

  ghost predicate CoveredBy(m: Machine, l: seq<Thread>, from: nat, pos: nat, s: nat, e: nat)
    requires m.Valid()
  {
    exists i | from <= i < |l| :: Covers(m, l[i], pos, s, e)
  }

  ghost predicate Candidate(m: Machine, t: Node, s: nat, e: nat, lim: nat)
    requires m.Valid()
  {
    s < lim && Boundary(m.v, s) && Matches(m.v, t, s, e)
  }

  /** Every match that starts before lim is found already, or no better than the one found, or
      some thread will still find one at least as good. */
  ghost predicate AllCovered(m: Machine, t: Node, l: seq<Thread>, pos: nat, matched: bool, best: seq<int>, lim: nat)
    requires m.Valid()
  {
    forall s: nat, e: nat | Candidate(m, t, s, e, lim) ::
        (matched && Better(best, s, e)) || CoveredBy(m, l, 0, pos, s, e)
  }

  ghost predicate MidCovered(m: Machine, t: Node, cl: seq<Thread>, i: nat, pos: nat, nl: seq<Thread>, npos: nat,
      matched: bool, best: seq<int>, lim: nat)
    requires m.Valid()
  {
    forall s: nat, e: nat | Candidate(m, t, s, e, lim) ::
      (matched && Better(best, s, e)) || CoveredBy(m, cl, i, pos, s, e) || CoveredBy(m, nl, 0, npos, s, e)
  }

  /** The match recorded so far is one. */
  ghost predicate BestOk(m: Machine, t: Node, ncap: nat, lim: nat, matched: bool, best: seq<int>)
    requires m.Valid()
  {
    |best| == ncap &&
    (matched ==>
        ncap >= 2 && 0 <= best[0] < lim && 0 <= best[1] && Boundary(m.v, best[0])
            && Found(m, t, ncap, best[0], best[1], best))
  }

  lemma AllCoveredStart(m: Machine, t: Node, cl: seq<Thread>, pos: nat, matched: bool, best: seq<int>, lim: nat,
      npos: nat)
    requires m.Valid() && AllCovered(m, t, cl, pos, matched, best, lim)
    ensures MidCovered(m, t, cl, 0, pos, [], npos, matched, best, lim)
  {
    hide CoveredBy; hide Candidate;
  }

  lemma AllCoveredNone(m: Machine, t: Node, nl: seq<Thread>, npos: nat, matched: bool, best: seq<int>, lim: nat)
    requires m.Valid() && AllCovered(m, t, nl, npos, matched, best, lim) && nl == []
    ensures AllCovered(m, t, [], npos, matched, best, lim)
  {
  }

  lemma MidEnd(m: Machine, t: Node, cl: seq<Thread>, pos: nat, nl: seq<Thread>, npos: nat, matched: bool,
      best: seq<int>, lim: nat)
    requires m.Valid() && MidCovered(m, t, cl, |cl|, pos, nl, npos, matched, best, lim)
    ensures AllCovered(m, t, nl, npos, matched, best, lim)
  {
    hide Candidate; hide Covers;
    forall s: nat, e: nat | Candidate(m, t, s, e, lim) ensures (matched && Better(best, s, e))
        || CoveredBy(m, nl, 0, npos, s, e) {
      assert !CoveredBy(m, cl, |cl|, pos, s, e);
    }
  }

  lemma CoveredNext(m: Machine, cl: seq<Thread>, i: nat, pos: nat, s: nat, e: nat)
    requires m.Valid() && i < |cl| && CoveredBy(m, cl, i, pos, s, e)
    ensures Covers(m, cl[i], pos, s, e) || CoveredBy(m, cl, i + 1, pos, s, e)
  {
    hide Covers;
  }

  lemma MidSkip(m: Machine, t: Node, cl: seq<Thread>, i: nat, pos: nat, nl: seq<Thread>, npos: nat, matched: bool,
      best: seq<int>, lim: nat)
    requires m.Valid() && MidCovered(m, t, cl, i, pos, nl, npos, matched, best, lim) && i < |cl|
    requires matched && |best| >= 2 && |cl[i].caps| > 0 && cl[i].caps[0] > best[0]
    ensures MidCovered(m, t, cl, i + 1, pos, nl, npos, matched, best, lim)
  {
    hide Candidate; hide CoveredBy; hide Leads;
    forall s: nat, e: nat | Candidate(m, t, s, e, lim)
      ensures (matched && Better(best, s, e)) || CoveredBy(m, cl, i + 1, pos, s, e) || CoveredBy(m, nl, 0, npos, s, e)
    {
      if CoveredBy(m, cl, i, pos, s, e) { CoveredNext(m, cl, i, pos, s, e); }
    }
  }

  /** The thread at i stands at MATCH; b1 is the better of b0 and what it found. */
  lemma MidMatch(m: Machine, t: Node, cl: seq<Thread>, i: nat, pos: nat, nl: seq<Thread>, npos: nat, m0: bool,
      b0: seq<int>, b1: seq<int>, lim: nat)
    requires Ready(m, t) && MidCovered(m, t, cl, i, pos, nl, npos, m0, b0, lim) && i < |cl|
    requires cl[i].pc < |m.p| && m.p[cl[i].pc] == IMatch
    requires |b0| >= 2 && |cl[i].caps| >= 2 && cl[i].caps[1] == pos
    requires b1 == if !m0 || cl[i].caps[0] < b0[0]
        || (cl[i].caps[0] == b0[0] && cl[i].caps[1] > b0[1]) then cl[i].caps else b0
    ensures MidCovered(m, t, cl, i + 1, pos, nl, npos, true, b1, lim)
  {
    hide Candidate; hide CoveredBy; hide Leads; hide Holds;
    forall s: nat, e: nat | Candidate(m, t, s, e, lim)
      ensures Better(b1, s, e) || CoveredBy(m, cl, i + 1, pos, s, e) || CoveredBy(m, nl, 0, npos, s, e)
    {
      if CoveredBy(m, cl, i, pos, s, e) {
        CoveredNext(m, cl, i, pos, s, e);
        if Covers(m, cl[i], pos, s, e) { LeafLeads(m, t, cl[i].pc, pos, e); }
      }
    }
  }

  lemma MidStuck(m: Machine, t: Node, cl: seq<Thread>, i: nat, pos: nat, nl: seq<Thread>, npos: nat, matched: bool,
      best: seq<int>, lim: nat)
    requires Ready(m, t) && MidCovered(m, t, cl, i, pos, nl, npos, matched, best, lim) && i < |cl|
    requires cl[i].pc < |m.p| && IsLeaf(m.p[cl[i].pc]) && m.p[cl[i].pc] != IMatch
    requires m.p[cl[i].pc].ITest? ==> CharAt(m.v, pos).n == 0 || !CharOk(m.v, m.p[cl[i].pc].test, CharAt(m.v, pos).c)
    ensures MidCovered(m, t, cl, i + 1, pos, nl, npos, matched, best, lim)
  {
    hide Candidate; hide CoveredBy; hide Leads; hide Holds;
    forall s: nat, e: nat | Candidate(m, t, s, e, lim)
      ensures (matched && Better(best, s, e)) || CoveredBy(m, cl, i + 1, pos, s, e) || CoveredBy(m, nl, 0, npos, s, e)
    {
      if CoveredBy(m, cl, i, pos, s, e) {
        CoveredNext(m, cl, i, pos, s, e);
        if Covers(m, cl[i], pos, s, e) { LeafLeads(m, t, cl[i].pc, pos, e); }
      }
    }
  }

  /** The thread at i consumed a character: whatever it led to, a thread of nl leads to. */
  lemma MidConsume(m: Machine, t: Node, ncap: nat, cl: seq<Thread>, i: nat, pos: nat, nl0: seq<Thread>,
      nl: seq<Thread>, npos: nat,
                   matched: bool, best: seq<int>, lim: nat, mark: seq<nat>, gen: nat)
    requires Ready(m, t) && MidCovered(m, t, cl, i, pos, nl0, npos, matched, best, lim) && i < |cl|
    requires cl[i].pc + 1 < |m.p| && IsLeaf(m.p[cl[i].pc]) && m.p[cl[i].pc] != IMatch && |cl[i].caps| > 0
    requires npos == pos + CharAt(m.v, pos).n && nl0 <= nl
    requires Closed(m, npos, mark, gen, []) && Listed(m, mark, gen, nl) && mark[cl[i].pc + 1] == gen
    requires UpTo(nl, cl[i].caps[0])
    ensures MidCovered(m, t, cl, i + 1, pos, nl, npos, matched, best, lim)
  {
    hide Candidate; hide CoveredBy; hide Leads; hide Holds; hide Closed;
    forall s: nat, e: nat | Candidate(m, t, s, e, lim)
      ensures (matched && Better(best, s, e)) || CoveredBy(m, cl, i + 1, pos, s, e) || CoveredBy(m, nl, 0, npos, s, e)
    {
      if CoveredBy(m, nl0, 0, npos, s, e) { CoveredGrow(m, nl0, nl, npos, s, e); }
      if CoveredBy(m, cl, i, pos, s, e) {
        CoveredNext(m, cl, i, pos, s, e);
        if Covers(m, cl[i], pos, s, e) {
          LeafLeads(m, t, cl[i].pc, pos, e);
          var j := Relayed(m, t, npos, mark, gen, nl, cl[i].pc + 1, e);
          CoveredIntro(m, nl, j, npos, s, e);
        }
      }
    }
  }

  lemma Relayed(m: Machine, t: Node, pos: nat, mark: seq<nat>, gen: nat, l: seq<Thread>, pc: int, e: nat)
    returns (i: nat)
    requires Ready(m, t) && Closed(m, pos, mark, gen, []) && Listed(m, mark, gen, l)
    requires 0 <= pc < |mark| && mark[pc] == gen && Leads(m, pc, pos, e)
    ensures i < |l| && Leads(m, l[i].pc, pos, e)
  {
    hide LeadsIn;
    var n: nat, d :| LeadsIn(m, n, pc, pos, e, d);
    i := MarkedLeads(m, t, pos, mark, gen, l, pc, e, n, d);
  }

  lemma CoveredIntro(m: Machine, l: seq<Thread>, j: nat, pos: nat, s: nat, e: nat)
    requires m.Valid() && j < |l| && Covers(m, l[j], pos, s, e)
    ensures CoveredBy(m, l, 0, pos, s, e)
  {
    hide Covers;
  }

  lemma CoveredGrow(m: Machine, l0: seq<Thread>, l: seq<Thread>, pos: nat, s: nat, e: nat)
    requires m.Valid() && l0 <= l && CoveredBy(m, l0, 0, pos, s, e)
    ensures CoveredBy(m, l, 0, pos, s, e)
  {
    hide Covers;
    var i :| 0 <= i < |l0| && Covers(m, l0[i], pos, s, e);
    assert l[i] == l0[i];
  }

  // ---- the whole search ----

  /** Nothing beats the match found. */
  ghost predicate Settled(m: Machine, t: Node, matched: bool, best: seq<int>)
    requires m.Valid()
  {
    forall s: nat, e: nat | MatchesAt(m.v, t, s, e) :: matched && Better(best, s, e)
  }

  lemma SeedCovered(m: Machine, t: Node, ncap: nat, cl0: seq<Thread>, cl: seq<Thread>, pos: nat, best: seq<int>,
      mark: seq<nat>, gen: nat)
    requires Ready(m, t) && cl0 <= cl && AllCovered(m, t, cl0, pos, false, best, pos) && UpTo(cl, pos)
    requires Closed(m, pos, mark, gen, []) && Listed(m, mark, gen, cl) && |mark| > 0 && mark[0] == gen
    ensures AllCovered(m, t, cl, pos, false, best, pos + 1)
  {
    hide Holds; hide Matches; hide CoveredBy; hide Closed; hide Listed; hide Boundary; hide Leads; hide IsProgram;
    forall s: nat, e: nat | Candidate(m, t, s, e, pos + 1) ensures CoveredBy(m, cl, 0, pos, s, e) {
      if s < pos {
        assert Candidate(m, t, s, e, pos);
        CoveredGrow(m, cl0, cl, pos, s, e);
      } else {
        MatchesLeads(m, t, s, e);
        var i := Relayed(m, t, pos, mark, gen, cl, 0, e);
        CoveredIntro(m, cl, i, pos, s, e);
      }
    }
  }

  lemma SeedThreads(m: Machine, t: Node, ncap: nat, pos: nat, l0: seq<Thread>, l: seq<Thread>, mark: seq<nat>, gen: nat)
    requires Ready(m, t) && ncap >= 2 && Threads(m, t, ncap, pos, l0, pos) && Boundary(m.v, pos)
    requires l0 <= l && SoundFrom(m, ncap, pos, pos, l, |l0|) && Listed(m, mark, gen, l)
    ensures Threads(m, t, ncap, pos, l, pos + 1) && UpTo(l, pos)
  {
    hide Holds; hide Run; hide Reached; hide Boundary; hide IsProgram;
    forall j | 0 <= j < |l| ensures ThreadOk(m, t, ncap, pos, l[j], pos + 1) && l[j].caps[0] <= pos
        && (j >= |l0| ==> l[j].caps[0] == pos) {
      if j < |l0| {
        assert l[j] == l0[j];
        assert ThreadOk(m, t, ncap, pos, l0[j], pos);
      } else {
        assert Sound(m, ncap, pos, pos, l[j].pc, l[j].caps);
        LeafNotFirst(m, t, l[j].pc);
      }
    }
  }

  lemma ThreadsLater(m: Machine, t: Node, ncap: nat, pos: nat, l: seq<Thread>, lim: nat, lim': nat)
    requires m.Valid() && Threads(m, t, ncap, pos, l, lim) && lim <= lim'
    ensures Threads(m, t, ncap, pos, l, lim')
  {
    hide Sound; hide Boundary; hide IsLeaf;
    forall i | 0 <= i < |l| ensures ThreadOk(m, t, ncap, pos, l[i], lim') {
      assert ThreadOk(m, t, ncap, pos, l[i], lim);
    }
  }

  lemma MatchedCovered(m: Machine, t: Node, l: seq<Thread>, pos: nat, best: seq<int>, lim: nat, lim': nat)
    requires m.Valid() && AllCovered(m, t, l, pos, true, best, lim) && |best| >= 2 && best[0] < lim
    ensures AllCovered(m, t, l, pos, true, best, lim')
  {
    hide CoveredBy; hide Matches; hide Boundary;
    forall s: nat, e: nat | Candidate(m, t, s, e, lim') ensures Better(best, s, e) || CoveredBy(m, l, 0, pos, s, e) {
      if s < lim { assert Candidate(m, t, s, e, lim); }
    }
  }

  lemma SettledBy(m: Machine, t: Node, matched: bool, best: seq<int>, pos: nat)
    requires m.Valid() && AllCovered(m, t, [], pos, matched, best, pos + 1)
    requires pos == m.v.end || (matched && |best| >= 2 && best[0] < pos + 1)
    ensures Settled(m, t, matched, best)
  {
    hide Matches; hide Boundary;
    forall s: nat, e: nat | MatchesAt(m.v, t, s, e) ensures matched && Better(best, s, e) {
      BoundaryInRange(m.v, s);
      if s <= pos {
        assert Candidate(m, t, s, e, pos + 1);
        assert !CoveredBy(m, [], 0, pos, s, e);
      }
    }
  }

  lemma StartSound(m: Machine, t: Node, ncap: nat, pos: nat)
    requires Ready(m, t)
    ensures Sound(m, ncap, pos, pos, 0, Seed(ncap))
  {
    hide Holds;
    RunNone(m, Cfg(0, St(pos, Seed(ncap)), []));
  }

  /** `pike_run`: for every tree without back-references and every text, the code generated for
      the tree reports a match exactly when the tree matches somewhere, and then reports the
      leftmost match, the longest one there; its captures are those of an actual run. */
  method PikeRun(m: Machine, ncap: nat, ghost t: Node) returns (matched: bool, best: seq<int>)
    requires Ready(m, t) && ncap >= 2
    ensures matched <==> MatchesSomewhere(m.v, t)
    ensures matched ==>
        |best| == ncap && LeftmostLongest(m.v, t, best[0], best[1]) && Found(m, t, ncap, best[0], best[1], best)
  {
    hide Holds; hide Matches; hide Run; hide Closed; hide Listed; hide Reached; hide Boundary; hide IsProgram;
    hide Leads;
    hide CharBefore; hide CharAt; hide Threads; hide Found; hide AllCovered; hide Sound; hide UpTo; hide SoundFrom;
    hide Settled;
    var k := new Pike(m, ncap);
    matched, best := false, Seed(ncap);
    var cl: seq<Thread> := [];
    var pos := m.v.beg;
    var prev, c := CharBefore(m.v, pos), CharAt(m.v, pos);
    StartBoundary(m, t, ncap, best);
    while true
      invariant k.m == m && k.ncap == ncap && fresh(k) && |k.mark| == |m.p| && Fresh(k.mark, k.gen)
      invariant Boundary(m.v, pos) && pos <= m.v.end && prev == CharBefore(m.v, pos) && c == CharAt(m.v, pos)
      invariant Threads(m, t, ncap, pos, cl, pos) && BestOk(m, t, ncap, pos, matched, best)
      invariant AllCovered(m, t, cl, pos, matched, best, pos)
      decreases m.v.end - pos
    {
      ThreadPcs(m, t, ncap, pos, cl, pos);
      k.Remark(cl, pos);
      if !matched {
        StartSound(m, t, ncap, pos);
        var cl0 := cl;
        cl := k.AddThread(cl0, 0, Seed(ncap), pos, prev, c.c, t, pos);
        SeedThreads(m, t, ncap, pos, cl0, cl, k.mark, k.gen);
        SeedCovered(m, t, ncap, cl0, cl, pos, best, k.mark, k.gen);
      } else {
        ThreadsLater(m, t, ncap, pos, cl, pos, pos + 1);
        MatchedCovered(m, t, cl, pos, best, pos, pos + 1);
      }
      if |cl| == 0 && matched {
        SettledBy(m, t, matched, best, pos);
        break;
      }
      var npos := pos + c.n;
      var nc := if c.n > 0 then CharAt(m.v, npos) else Decoded(-1, 0);
      var nl;
      nl, matched, best := k.Step(cl, matched, best, pos, c, nc.c, t, pos + 1);
      cl := nl;
      if c.n == 0 {
        SettledBy(m, t, matched, best, pos);
        break;
      }
      BoundaryNextHere(m.v, pos);
      LookBehind(m.v, pos);
      ThreadsLater(m, t, ncap, npos, cl, pos + 1, npos);
      Onward(m, t, ncap, cl, pos, npos, matched, best);
      prev, c, pos := c.c, nc, npos;
    }
    Verdict(m, t, ncap, matched, best);
  }

  lemma StartBoundary(m: Machine, t: Node, ncap: nat, best: seq<int>)
    requires m.Valid()
    ensures Boundary(m.v, m.v.beg) && Threads(m, t, ncap, m.v.beg, [], m.v.beg)
    ensures AllCovered(m, t, [], m.v.beg, false, best, m.v.beg)
  {
    hide Matches;
    forall s: nat, e: nat ensures !Candidate(m, t, s, e, m.v.beg) {
      if Boundary(m.v, s) { BoundaryInRange(m.v, s); }
    }
  }

  lemma ThreadPcs(m: Machine, t: Node, ncap: nat, pos: nat, l: seq<Thread>, lim: nat)
    requires m.Valid() && Threads(m, t, ncap, pos, l, lim)
    ensures forall i | 0 <= i < |l| :: l[i].pc < |m.p| && IsLeaf(m.p[l[i].pc])
    ensures forall i, j | 0 <= i < j < |l| :: l[i].pc != l[j].pc
    ensures |l| <= |m.p|
  {
    hide Boundary; hide Reached;
    forall i | 0 <= i < |l| ensures l[i].pc < |m.p| && IsLeaf(m.p[l[i].pc]) {
      assert ThreadOk(m, t, ncap, pos, l[i], lim);
    }
    ListBound(l, |m.p|);
  }

  /** No boundary lies strictly between two neighbouring ones. */
  lemma Onward(m: Machine, t: Node, ncap: nat, l: seq<Thread>, pos: nat, npos: nat, matched: bool, best: seq<int>)
    requires m.Valid() && Boundary(m.v, pos) && pos < m.v.end && npos == pos + CharAt(m.v, pos).n
    requires AllCovered(m, t, l, npos, matched, best, pos + 1)
    requires BestOk(m, t, ncap, pos + 1, matched, best)
    ensures AllCovered(m, t, l, npos, matched, best, npos)
    ensures BestOk(m, t, ncap, npos, matched, best)
  {
    hide Matches; hide CoveredBy; hide Found; hide Boundary;
    forall s: nat, e: nat | Candidate(m, t, s, e, npos) ensures (matched && Better(best, s, e))
        || CoveredBy(m, l, 0, npos, s, e) {
      if s > pos { NoBoundaryInside(m.v, pos, npos, s); }
      assert Candidate(m, t, s, e, pos + 1);
    }
  }

  lemma Verdict(m: Machine, t: Node, ncap: nat, matched: bool, best: seq<int>)
    requires m.Valid() && Settled(m, t, matched, best) && |best| == ncap
    requires matched ==>
        ncap >= 2 && 0 <= best[0] && 0 <= best[1] && Boundary(m.v, best[0]) && Found(m, t, ncap, best[0], best[1], best)
    ensures matched <==> MatchesSomewhere(m.v, t)
    ensures matched ==> LeftmostLongest(m.v, t, best[0], best[1])
  {
    if matched {
      assert MatchesAt(m.v, t, best[0], best[1]);
    }
  }
}
