/** The backtracking matcher of src/regex.c, `bt_run`, for patterns with back-references. It
    keeps one set of captures and loop registers, and a stack of frames that either resume an
    alternative or put an overwritten value back. */
module RegexBacktrack {
  import opened RegexText
  import opened RegexProgram
  import opened RegexMeaning
  import opened RegexMachine

  const BT_BUDGET := 20000000
  const MAX_FRAMES := 0x4000000

  datatype Frame = Branch(pc: int, pos: nat) | RestoreCap(slot: nat, saved: int) | RestoreLoop(id: nat, saved: int)

  /** The configurations that the branch frames stand for: each with the captures and registers
      that unwinding the frames above it puts back. */
  function Pending(st: seq<Frame>, cap: seq<int>, loops: seq<int>): seq<Cfg> {
    if st == [] then []
    else
      var rest, top := st[..|st| - 1], st[|st| - 1];
      if top.Branch? then Pending(rest, cap, loops) + [Cfg(top.pc, St(top.pos, cap), loops)]
      else if top.RestoreCap? then Pending(rest, Set(cap, top.slot, top.saved), loops)
      else Pending(rest, cap, Set(loops, top.id, top.saved))
  }

  lemma PendingBranch(st: seq<Frame>, cap: seq<int>, loops: seq<int>, pc: int, pos: nat)
    ensures Pending(st + [Branch(pc, pos)], cap, loops) == Pending(st, cap, loops) + [Cfg(pc, St(pos, cap), loops)]
  {
    assert (st + [Branch(pc, pos)])[..|st|] == st;
  }

  lemma PendingCap(st: seq<Frame>, cap: seq<int>, loops: seq<int>, slot: nat, x: int)
    ensures Pending(st + [RestoreCap(slot, Get(cap, slot))], Set(cap, slot, x), loops) == Pending(st, cap, loops)
  {
    assert (st + [RestoreCap(slot, Get(cap, slot))])[..|st|] == st;
    assert Set(Set(cap, slot, x), slot, Get(cap, slot)) == cap;
  }

  lemma PendingLoop(st: seq<Frame>, cap: seq<int>, loops: seq<int>, id: nat, x: int)
    ensures Pending(st + [RestoreLoop(id, Get(loops, id))], cap, Set(loops, id, x)) == Pending(st, cap, loops)
  {
    assert (st + [RestoreLoop(id, Get(loops, id))])[..|st|] == st;
    assert Set(Set(loops, id, x), id, Get(loops, id)) == loops;
  }

  // ---- what a search from one start has to find ----

  /** The tree, its program and the sizes of the capture and register arrays. */
  datatype Task = Task(m: Machine, t: Node, nsub: nat, start: nat)
  {
    ghost predicate Valid() {
      m.Valid() && m.strict && WellFormed(t) && TreeTame(t, true, nsub) && IsProgram(m.p, t) && start <= m.v.end
    }
    function Ncap(): nat { 2 * (nsub + 1) }
    function First(): Cfg { Cfg(0, St(start, seq(Ncap(), _ => -1)), seq(Loops(t), _ => -1)) }
  }

  ghost predicate Reaches(m: Machine, c: Cfg, d: Cfg)
    requires m.Valid()
  {
    exists n: nat :: Run(m, n, c, d)
  }

  ghost predicate Accepted(k: Task, d: Cfg)
    requires k.Valid()
  {
    Reaches(k.m, k.First(), d) && d.pc == |k.m.p| - 1
  }

  /** A configuration that the search may be in. */
  ghost predicate Sound(k: Task, c: Cfg)
    requires k.Valid()
  {
    && Reaches(k.m, k.First(), c)
    && 0 <= c.pc < |k.m.p| && c.st.pos <= k.m.v.end
    && |c.st.caps| == k.Ncap() && |c.loops| == Loops(k.t)
    && forall i | 0 <= i < |c.st.caps| :: c.st.caps[i] <= k.m.v.end
  }

  lemma SoundNext(k: Task, c: Cfg, d: Cfg)
    requires k.Valid() && Sound(k, c) && d in Next(k.m, c)
    ensures Sound(k, d)
  {
    hide Run; hide IsProgram; hide Loops; hide CharAt; hide CharOk; hide Asserts; hide Refer;
    ProgramTargets(k.m.p, k.t, c.pc);
    ProgramEnd(k.m.p, k.t, c.pc);
    var n: nat :| Run(k.m, n, k.First(), c);
    RunOne(k.m, c, d);
    RunAppend(k.m, n, 1, k.First(), c, d);
    if k.m.p[c.pc].ITest? { ConsumeInRange(k.m.v, k.m.p[c.pc].test, c.st.pos); }
  }

  lemma ConsumeInRange(v: Subject, test: Test, pos: nat)
    requires v.Valid() && pos <= v.end && CharOk(v, test, CharAt(v, pos).c)
    ensures pos + CharAt(v, pos).n <= v.end
  {
  }

  lemma ProgramEnd(p: seq<Inst>, t: Node, pc: int)
    requires IsProgram(p, t) && 0 <= pc < |p|
    ensures |p| >= 3 && (p[pc] != IMatch ==> pc + 1 < |p|) && p[|p| - 1] == IMatch
  {
    hide Holds;
  }

  lemma SoundFirst(k: Task)
    requires k.Valid()
    ensures Sound(k, k.First())
  {
    RunNone(k.m, k.First());
    ProgramLong(k.m.p, k.t);
  }

  /** The best end so far is at least that of d. */
  predicate Beats(found: bool, best: seq<int>, d: Cfg) { found && |best| >= 2 && d.st.pos <= best[1] }

  ghost predicate ViaAny(m: Machine, w: seq<Cfg>, d: Cfg)
    requires m.Valid()
  {
    exists i | 0 <= i < |w| :: Reaches(m, w[i], d)
  }

  /** Every accepting run is beaten already or still continues one of the configurations in w. */
  ghost predicate Exhaustive(k: Task, w: seq<Cfg>, found: bool, best: seq<int>)
    requires k.Valid()
  {
    forall d | Accepted(k, d) :: Beats(found, best, d) || ViaAny(k.m, w, d)
  }

  ghost predicate AllSound(k: Task, w: seq<Cfg>)
    requires k.Valid()
  {
    forall i | 0 <= i < |w| :: Sound(k, w[i])
  }

  /** The recorded captures are those of an accepting run. */
  ghost predicate Recorded(k: Task, found: bool, best: seq<int>)
    requires k.Valid()
  {
    |best| == k.Ncap() && (found ==> exists d :: Accepted(k, d) && d.st.caps == best && best[1] == d.st.pos)
  }

  lemma AllSoundPush(k: Task, w: seq<Cfg>, c: Cfg)
    requires k.Valid() && AllSound(k, w) && Sound(k, c)
    ensures AllSound(k, w + [c])
  {
    hide Sound;
  }

  lemma AllSoundPop(k: Task, w: seq<Cfg>, c: Cfg)
    requires k.Valid() && AllSound(k, w + [c])
    ensures AllSound(k, w) && Sound(k, c)
  {
    hide Sound;
    assert (w + [c])[|w|] == c;
    forall i | 0 <= i < |w| ensures Sound(k, w[i]) { assert (w + [c])[i] == w[i]; }
  }

  /** Replacing a configuration by all its successors loses no accepting run. */
  lemma ExhaustiveNext(k: Task, w: seq<Cfg>, c: Cfg, found: bool, best: seq<int>, w': seq<Cfg>)
    requires k.Valid() && Exhaustive(k, w + [c], found, best)
    requires 0 <= c.pc < |k.m.p| && k.m.p[c.pc] != IMatch
    requires w <= w' && forall d | d in Next(k.m, c) :: d in w'
    ensures Exhaustive(k, w', found, best)
  {
    hide Next; hide IsProgram; hide Run;
    forall d | Accepted(k, d) ensures Beats(found, best, d) || ViaAny(k.m, w', d) {
      if ViaAny(k.m, w + [c], d) {
        var i :| 0 <= i < |w + [c]| && Reaches(k.m, (w + [c])[i], d);
        if i < |w| {
          assert w'[i] == w[i];
        } else {
          var n: nat :| Run(k.m, n, c, d);
          ProgramEnd(k.m.p, k.t, c.pc);
          var e := TakeStep(k.m, n, c, d);
          assert Reaches(k.m, e, d);
          var j :| 0 <= j < |w'| && w'[j] == e;
        }
      }
    }
  }

  /** At MATCH the only run is the one that is complete. */
  lemma ExhaustiveMatch(k: Task, w: seq<Cfg>, c: Cfg, found: bool, best: seq<int>, best': seq<int>)
    requires k.Valid() && Exhaustive(k, w + [c], found, best) && Sound(k, c) && k.m.p[c.pc] == IMatch
    requires Recorded(k, found, best)
    requires best' == if !found || c.st.caps[1] > best[1] then c.st.caps else best
    ensures Exhaustive(k, w, true, best') && Recorded(k, true, best')
  {
    hide Next; hide IsProgram; hide Run;
    ProgramTargets(k.m.p, k.t, c.pc);
    AcceptedEnd(k, c);
    forall d | Accepted(k, d) ensures Beats(true, best', d) || ViaAny(k.m, w, d) {
      if ViaAny(k.m, w + [c], d) {
        var i :| 0 <= i < |w + [c]| && Reaches(k.m, (w + [c])[i], d);
        if i < |w| {
          assert Reaches(k.m, w[i], d);
        } else {
          var n: nat :| Run(k.m, n, c, d);
          AtMatch(k.m, n, c, d);
        }
      }
    }
  }

  /** An accepting run ends with capture 1 at the current position. */
  lemma AcceptedEnd(k: Task, c: Cfg)
    requires k.Valid() && Sound(k, c) && k.m.p[c.pc] == IMatch
    ensures Accepted(k, c) && c.st.caps[1] == c.st.pos
  {
    hide Next; hide Run; hide Holds; hide Rel; hide Size;
    ProgramTargets(k.m.p, k.t, c.pc);
    var f := k.First();
    var n: nat :| Run(k.m, n, f, c);
    var b := CompiledSound(k.m, k.t, f.st, f.loops, n, c.st, c.loops);
  }

  // ---- the search ----

  datatype Outcome = Match | NoMatch | Exhausted

  /** The comparison loop of a back-reference. */
  method CompareLoop(v: Subject, so: nat, eo: nat, pos0: nat) returns (r: int)
    requires v.Valid() && pos0 <= v.end && eo <= |v.s|
    ensures r == Compare(v, so, eo, pos0)
  {
    hide Dec; hide CharAt;
    var q: nat, pos: nat := so, pos0;
    while q < eo
      invariant Compare(v, so, eo, pos0) == Compare(v, q, eo, pos)
      decreases eo - q
    {
      var c1, c2 := Dec(v.s[q..eo]), CharAt(v, pos);
      if c2.c < 0 || (c1.c != c2.c && !(v.icase && c1.c < BAD && c2.c < BAD && v.lower(c1.c) == v.lower(c2.c))) {
        return -1;
      }
      q, pos := q + c1.n, pos + c2.n;
    }
    r := pos;
  }

  /** The budget of steps or the room for frames is used up. */
  predicate Spent(steps: nat, frames: nat) { steps > BT_BUDGET || frames + 2 >= MAX_FRAMES }

  class Backtracker {
    const m: Machine
    const ncap: nat
    var cap: seq<int>
    var loops: seq<int>
    var st: seq<Frame>
    var scap: nat
    var steps: nat
    var found: bool
    var best: seq<int>
    /** One entry for each branch frame on the stack: the configuration that was to be resumed, with
        the captures and registers at the moment the frame was pushed. */
    ghost var pushed: seq<Cfg>

    constructor (m: Machine, ncap: nat)
      ensures this.m == m && this.ncap == ncap && steps == 0 && scap == 1024 && !found && |best| == ncap
    {
      this.m, this.ncap := m, ncap;
      cap, loops, st, pushed := [], [], [], [];
      scap, steps := 1024, 0;
      found, best := false, seq(ncap, _ => -1);
    }

    /** Unwinding the frames puts everything back as it was when each branch was pushed. */
    ghost predicate Kept()
      reads this
    {
      Pending(st, cap, loops) == pushed
    }

    /** Push a branch frame, and record the configuration it is to resume. */
    method PushBranch(pc: int, pos: nat)
      requires Kept()
      modifies this`st, this`pushed
      ensures Kept() && st == old(st) + [Branch(pc, pos)] && pushed == old(pushed) + [Cfg(pc, St(pos, cap), loops)]
    {
      hide Pending;
      PendingBranch(st, cap, loops, pc, pos);
      st := st + [Branch(pc, pos)];
      pushed := pushed + [Cfg(pc, St(pos, cap), loops)];
    }

    /** Overwrite a capture, with its old value on the stack. */
    method SaveCap(slot: nat, x: int)
      requires Kept() && slot < |cap|
      modifies this`st, this`cap
      ensures Kept() && |st| == |old(st)| + 1 && cap == old(cap)[slot := x]
    {
      hide Pending;
      PendingCap(st, cap, loops, slot, x);
      st := st + [RestoreCap(slot, cap[slot])];
      cap := cap[slot := x];
    }

    /** Overwrite a loop register, with its old value on the stack. */
    method SaveLoop(id: nat, x: int)
      requires Kept() && id < |loops|
      modifies this`st, this`loops
      ensures Kept() && |st| == |old(st)| + 1 && loops == old(loops)[id := x]
    {
      hide Pending;
      PendingLoop(st, cap, loops, id, x);
      st := st + [RestoreLoop(id, loops[id])];
      loops := loops[id := x];
    }

    /** Pop a frame. A branch resumes at exactly the configuration recorded when it was pushed: by
        then every capture and register overwritten since is back. */
    method Pop() returns (resume: bool, pc: int, pos: nat)
      requires Kept() && st != []
      modifies this`st, this`cap, this`loops, this`pushed
      ensures Kept() && |st| == |old(st)| - 1
      ensures resume ==> old(pushed) == pushed + [Cfg(pc, St(pos, cap), loops)]
      ensures !resume ==> pushed == old(pushed)
    {
      hide Pending;
      PendingPop(st, cap, loops);
      var f := st[|st| - 1];
      st := st[..|st| - 1];
      resume, pc, pos := false, 0, 0;
      if f.RestoreCap? {
        cap := Set(cap, f.slot, f.saved);
      } else if f.RestoreLoop? {
        loops := Set(loops, f.id, f.saved);
      } else {
        resume, pc, pos := true, f.pc, f.pos;
        pushed := pushed[..|pushed| - 1];
      }
    }

    /** The state of a search between two frames. */
    ghost predicate Paused(k: Task)
      requires k.Valid()
      reads this
    {
      && m == k.m && ncap == k.Ncap() && Kept() && AllSound(k, pushed)
      && Recorded(k, found, best) && |best| == k.Ncap() && steps <= BT_BUDGET && 1024 <= scap && |st| <= scap
    }

    /** One step of the budget and room for two more frames; false on exhaustion. */
    method Budget() returns (ok: bool)
      requires steps <= BT_BUDGET && 1024 <= scap && |st| <= scap
      modifies this`steps, this`scap
      ensures ok ==> steps == old(steps) + 1 && steps <= BT_BUDGET && |st| + 2 < scap && 1024 <= scap
      ensures !ok <==> old(steps) == BT_BUDGET || (old(scap) >= MAX_FRAMES && |st| + 2 >= old(scap))
      ensures !ok ==> Spent(steps, |st|)
    {
      steps := steps + 1;
      if steps > BT_BUDGET { return false; }
      if |st| + 2 >= scap {
        if scap >= MAX_FRAMES { return false; }
        scap := 2 * scap;
      }
      ok := true;
    }

    /** Execute the instruction at pc. Either the search goes on at pc', pos', or this branch is
        done. */
    method Execute(pc: int, pos: nat, ghost k: Task) returns (go: bool, pc': int, pos': nat)
      requires k.Valid() && Paused(k) && |st| + 2 < scap && Sound(k, Cfg(pc, St(pos, cap), loops))
      requires Exhaustive(k, pushed + [Cfg(pc, St(pos, cap), loops)], found, best)
      modifies this`cap, this`loops, this`st, this`pushed, this`found, this`best
      ensures Paused(k) && old(pushed) <= pushed
      ensures go ==> Sound(k, Cfg(pc', St(pos', cap), loops))
      ensures go ==> Exhaustive(k, pushed + [Cfg(pc', St(pos', cap), loops)], found, best)
      ensures !go ==> Exhaustive(k, pushed, found, best)
    {
      hide IsProgram; hide Holds; hide Run; hide Reaches; hide AllSound; hide Exhaustive; hide Recorded; hide Loops;
      hide CharAt; hide CharOk; hide CharBefore; hide Pending; hide Asserts; hide Compare;
      ghost var cur := Cfg(pc, St(pos, cap), loops);
      ghost var w := pushed;
      go, pc', pos' := true, pc + 1, pos;
      ProgramTargets(m.p, k.t, pc);
      match m.p[pc] {
        case ITest(test) =>
          var d := CharAt(m.v, pos);
          if CharOk(m.v, test, d.c) {
            pos' := pos + d.n;
            GoOn(k, w, cur, Cfg(pc', St(pos', cap), loops), found, best);
          } else {
            go := false;
            GiveUp(k, w, cur, found, best);
          }
        case IAssert(kind) =>
          if AssertOkHere(m.v, kind, pos) {
            GoOn(k, w, cur, Cfg(pc', St(pos', cap), loops), found, best);
          } else {
            go := false;
            GiveUp(k, w, cur, found, best);
          }
        case IJmp(x) =>
          pc' := x;
          GoOn(k, w, cur, Cfg(pc', St(pos', cap), loops), found, best);
        case IBackRef(g) =>
          SlotInRange(k, pc);
          var so, eo := cap[2 * g], cap[2 * g + 1];
          var e := -1;
          if so >= 0 && eo >= 0 { e := CompareLoop(m.v, so, eo, pos); }
          if e < 0 {
            go := false;
            GiveUp(k, w, cur, found, best);
          } else {
            pos' := e;
            GoOn(k, w, cur, Cfg(pc', St(pos', cap), loops), found, best);
          }
        case IMatch =>
          go := false;
          ExhaustiveMatch(k, w, cur, found, best, if !found || cap[1] > best[1] then cap else best);
          if !found || cap[1] > best[1] {
            best := cap;
            found := true;
          }
        case _ =>
          pc' := ExecutePush(pc, pos, k);
      }
    }

    /** The instructions that push frames: SPLIT, SAVE, ENTER and CHECK. */
    method ExecutePush(pc: int, pos: nat, ghost k: Task) returns (pc': int)
      requires k.Valid() && Paused(k) && |st| + 2 < scap && Sound(k, Cfg(pc, St(pos, cap), loops))
      requires Exhaustive(k, pushed + [Cfg(pc, St(pos, cap), loops)], found, best)
      requires m.p[pc].ISplit? || m.p[pc].ISave? || m.p[pc].IEnter? || m.p[pc].ICheck?
      modifies this`cap, this`loops, this`st, this`pushed
      ensures Paused(k) && Sound(k, Cfg(pc', St(pos, cap), loops))
      ensures Exhaustive(k, pushed + [Cfg(pc', St(pos, cap), loops)], found, best)
      ensures if m.p[pc].ISplit? || (m.p[pc].ICheck? && Get(old(loops), m.p[pc].id) != pos)
              then pushed == old(pushed) + [Cfg(m.p[pc].y, St(pos, old(cap)), old(loops))]
              else pushed == old(pushed)
    {
      hide IsProgram; hide Holds; hide Run; hide Reaches; hide AllSound; hide Exhaustive; hide Recorded; hide Loops;
      hide CharAt; hide CharOk; hide CharBefore; hide Pending; hide Asserts; hide Compare;
      ghost var cur, w := Cfg(pc, St(pos, cap), loops), pushed;
      pc' := pc + 1;
      ProgramTargets(m.p, k.t, pc);
      match m.p[pc] {
        case ISplit(x, y) =>
          PushBranch(y, pos);
          pc' := x;
          Fork(k, w, cur, Cfg(x, St(pos, cap), loops), Cfg(y, St(pos, cap), loops), found, best);
        case ISave(slot) =>
          SlotInRange(k, pc);
          SaveCap(slot, pos);
          GoOn(k, w, cur, Cfg(pc', St(pos, cap), loops), found, best);
        case IEnter(id) =>
          SaveLoop(id, pos);
          GoOn(k, w, cur, Cfg(pc', St(pos, cap), loops), found, best);
        case ICheck(x, y, id) =>
          if loops[id] == pos {
            pc' := y;
            GoOn(k, w, cur, Cfg(pc', St(pos, cap), loops), found, best);
          } else {
            PushBranch(y, pos);
            SaveLoop(id, pos);
            pc' := x;
            Fork(k, w, cur, Cfg(x, St(pos, cap), loops), Cfg(y, St(pos, cap), cur.loops), found, best);
          }
        case _ =>
      }
    }

    /** From a popped branch until this branch is done (the inner loop). No frame below it is touched. */
    method Follow(pc0: int, pos0: nat, ghost k: Task) returns (ok: bool)
      requires k.Valid() && Paused(k) && Sound(k, Cfg(pc0, St(pos0, cap), loops))
      requires Exhaustive(k, pushed + [Cfg(pc0, St(pos0, cap), loops)], found, best)
      modifies this`cap, this`loops, this`st, this`pushed, this`found, this`best, this`steps, this`scap
      ensures ok ==> Paused(k) && Exhaustive(k, pushed, found, best) && steps > old(steps) && old(pushed) <= pushed
      ensures !ok ==> Spent(steps, |st|)
    {
      hide IsProgram; hide Holds; hide Run; hide Sound; hide AllSound; hide Exhaustive; hide Recorded; hide Loops;
      hide Pending;
      var pc, pos := pc0, pos0;
      var go := true;
      while go
        invariant Paused(k) && (go || steps > old(steps)) && steps >= old(steps) && old(pushed) <= pushed
        invariant go ==> Sound(k, Cfg(pc, St(pos, cap), loops))
        invariant go ==> Exhaustive(k, pushed + [Cfg(pc, St(pos, cap), loops)], found, best)
        invariant !go ==> Exhaustive(k, pushed, found, best)
        decreases BT_BUDGET - steps, go
      {
        ok := Budget();
        if !ok { return; }
        go, pc, pos := Execute(pc, pos, k);
      }
      ok := true;
    }

    /** Everything reachable from one start (the middle loop). */
    method Search(start: nat, nloops: nat, ghost k: Task) returns (ok: bool)
      requires k.Valid() && m == k.m && ncap == k.Ncap() && nloops == Loops(k.t) && start == k.start
      requires !found && |best| == ncap && steps <= BT_BUDGET && 1024 <= scap
      modifies this`cap, this`loops, this`st, this`pushed, this`found, this`best, this`steps, this`scap
      ensures ok ==>
          Exhaustive(k, [], found, best) && Recorded(k, found, best) && |best| == ncap && steps <= BT_BUDGET
              && 1024 <= scap
      ensures !ok ==> Spent(steps, |st|)
    {
      hide IsProgram; hide Holds; hide Run; hide Sound; hide AllSound; hide Exhaustive; hide Recorded; hide Loops;
      hide Pending;
      cap := seq(ncap, _ => -1);
      loops := seq(nloops, _ => -1);
      st := [Branch(0, start)];
      pushed := [k.First()];
      SearchStart(k, st, cap, loops, found, best);
      while st != []
        invariant Paused(k) && Exhaustive(k, pushed, found, best)
        decreases BT_BUDGET - steps, |st|
      {
        var resume, pc, pos := Pop();
        if resume {
          AllSoundPop(k, pushed, Cfg(pc, St(pos, cap), loops));
          ok := Follow(pc, pos, k);
          if !ok { return; }
        }
      }
      PendingNone(cap, loops);
      ok := true;
    }
  }

  lemma PendingNone(cap: seq<int>, loops: seq<int>)
    ensures Pending([], cap, loops) == []
  {
  }

  /** What the frames stand for, less the last of them. */
  lemma PendingPop(st: seq<Frame>, cap: seq<int>, loops: seq<int>)
    requires st != []
    ensures var rest, f := st[..|st| - 1], st[|st| - 1];
            && (f.Branch? ==> Pending(st, cap, loops) == Pending(rest, cap, loops) + [Cfg(f.pc, St(f.pos, cap), loops)])
            && (f.RestoreCap? ==> Pending(st, cap, loops) == Pending(rest, Set(cap, f.slot, f.saved), loops))
            && (f.RestoreLoop? ==> Pending(st, cap, loops) == Pending(rest, cap, Set(loops, f.id, f.saved)))
  {
  }

  lemma SearchStart(k: Task, st: seq<Frame>, cap: seq<int>, loops: seq<int>, found: bool, best: seq<int>)
    requires k.Valid() && !found && |best| == k.Ncap()
    requires st == [Branch(0, k.start)] && cap == k.First().st.caps && loops == k.First().loops
    ensures Pending(st, cap, loops) == [k.First()] && AllSound(k, [k.First()])
    ensures Exhaustive(k, [k.First()], found, best) && Recorded(k, found, best)
  {
    hide IsProgram; hide Run;
    SoundFirst(k);
    assert st[..0] == [];
    PendingNone(cap, loops);
    assert Pending(st, cap, loops) == Pending([], cap, loops) + [k.First()];
    forall d | Accepted(k, d) ensures ViaAny(k.m, [k.First()], d) { assert Reaches(k.m, [k.First()][0], d); }
  }

  lemma SlotInRange(k: Task, pc: nat)
    requires k.Valid() && pc < |k.m.p|
    ensures k.m.p[pc].ISave? ==> k.m.p[pc].slot < k.Ncap()
    ensures k.m.p[pc].IBackRef? ==> 2 * k.m.p[pc].k + 1 < k.Ncap()
  {
    hide Holds; hide Size;
    if 1 <= pc <= Size(k.t) { HoldsTame(k.m.p, k.t, 1, 0, pc, true, k.nsub); }
  }

  predicate AssertOkHere(v: Subject, kind: AssertKind, pos: nat)
    requires v.Valid() && pos <= v.end
    ensures AssertOkHere(v, kind, pos) == Asserts(v, kind, pos)
  {
    AssertOk(v, kind, pos, CharBefore(v, pos), CharAt(v, pos).c)
  }

  lemma GoOn(k: Task, w: seq<Cfg>, c: Cfg, d: Cfg, found: bool, best: seq<int>)
    requires k.Valid() && Sound(k, c) && Exhaustive(k, w + [c], found, best) && Next(k.m, c) == [d]
    ensures Sound(k, d) && Exhaustive(k, w + [d], found, best)
  {
    hide Sound; hide Exhaustive; hide IsProgram; hide Run; hide Loops;
    SoundNext(k, c, d);
    SoundPc(k, c);
    ExhaustiveNext(k, w, c, found, best, w + [d]);
  }

  lemma GiveUp(k: Task, w: seq<Cfg>, c: Cfg, found: bool, best: seq<int>)
    requires k.Valid() && Sound(k, c) && Exhaustive(k, w + [c], found, best) && Next(k.m, c) == []
        && k.m.p[c.pc] != IMatch
    ensures Exhaustive(k, w, found, best)
  {
    hide Exhaustive; hide IsProgram; hide Run;
    ExhaustiveNext(k, w, c, found, best, w);
  }

  lemma Fork(k: Task, w: seq<Cfg>, c: Cfg, x: Cfg, y: Cfg, found: bool, best: seq<int>)
    requires k.Valid() && Sound(k, c) && AllSound(k, w) && Exhaustive(k, w + [c], found, best) && Next(k.m, c) == [x, y]
    ensures Sound(k, x) && AllSound(k, w + [y]) && Exhaustive(k, w + [y] + [x], found, best)
  {
    hide Sound; hide Exhaustive; hide IsProgram; hide Run; hide Loops;
    SoundNext(k, c, x);
    SoundNext(k, c, y);
    SoundPc(k, c);
    AllSoundPush(k, w, y);
    assert (w + [y] + [x])[|w|] == y && (w + [y] + [x])[|w| + 1] == x;
    ExhaustiveNext(k, w, c, found, best, w + [y] + [x]);
  }

  lemma SoundPc(k: Task, c: Cfg)
    requires k.Valid() && Sound(k, c) && Next(k.m, c) != []
    ensures 0 <= c.pc < |k.m.p| && k.m.p[c.pc] != IMatch
  {
  }

  // ---- all starts ----

  /** From start s, the tree leads to position e with these captures. */
  ghost predicate MatchesWith(v: Subject, t: Node, nsub: nat, s: nat, e: nat, caps: seq<int>)
    requires v.Valid()
  {
    exists b :: Rel(v, true, t, Begun(St(s, seq(2 * (nsub + 1), _ => -1))), b) && b.pos == e && caps == Ended(b).caps
  }

  /** best holds the captures of the longest match at the first start that has any. */
  ghost predicate FirstLongest(v: Subject, t: Node, nsub: nat, best: seq<int>)
    requires v.Valid()
  {
    && |best| >= 2 && 0 <= best[0] && 0 <= best[1]
    && Boundary(v, best[0]) && MatchesWith(v, t, nsub, best[0], best[1], best)
    && forall s: nat, e: nat, caps | Boundary(v, s) && MatchesWith(v, t, nsub, s, e, caps) ::
         best[0] < s || (best[0] == s && e <= best[1])
  }

  ghost predicate NoneBefore(v: Subject, t: Node, nsub: nat, lim: nat)
    requires v.Valid()
  {
    forall s: nat, e: nat, caps | Boundary(v, s) && MatchesWith(v, t, nsub, s, e, caps) :: s >= lim
  }

  lemma MatchesAccepted(k: Task, e: nat, caps: seq<int>) returns (d: Cfg)
    requires k.Valid() && MatchesWith(k.m.v, k.t, k.nsub, k.start, e, caps)
    ensures Accepted(k, d) && d.st == St(e, caps)
  {
    hide Rel; hide Run; hide Holds; hide Size; hide Loops;
    var f := k.First();
    var b :| Rel(k.m.v, true, k.t, Begun(f.st), b) && b.pos == e && caps == Ended(b).caps;
    CompiledComplete(k.m, k.t, f.st, f.loops, b);
    var n: nat, x :| Run(k.m, n, f, x) && x.pc == |k.m.p| - 1 && x.st == Ended(b);
    d := x;
  }

  lemma AcceptedMatches(k: Task, d: Cfg)
    requires k.Valid() && Accepted(k, d)
    ensures MatchesWith(k.m.v, k.t, k.nsub, k.start, d.st.pos, d.st.caps)
    ensures |d.st.caps| == k.Ncap() && d.st.caps[0] == k.start
  {
    hide Rel; hide Run; hide Holds; hide Size; hide Loops;
    var f := k.First();
    var n: nat :| Run(k.m, n, f, d);
    var b := CompiledSound(k.m, k.t, f.st, f.loops, n, d.st, d.loops);
    RelSlot0(k.m.v, true, k.t, Begun(f.st), b);
  }

  /** A tree never writes captures 0 and 1, which belong to the whole match. */
  lemma {:induction false} RelSlot0(v: Subject, strict: bool, t: Node, a: St, b: St)
    requires v.Valid() && Rel(v, strict, t, a, b)
    ensures |b.caps| == |a.caps| && (|a.caps| > 0 ==> b.caps[0] == a.caps[0])
    decreases t, 2, 0
  {
    match t
    case Cat(x, y) =>
      assert RelCat(v, strict, x, y, a, b);
      var m :| Rel(v, strict, x, a, m) && Rel(v, strict, y, m, b);
      RelSlot0(v, strict, x, a, m); RelSlot0(v, strict, y, m, b);
    case Alt(x, y) =>
        if Rel(v, strict, x, a, b) { RelSlot0(v, strict, x, a, b); } else { RelSlot0(v, strict, y, a, b); }
    case Group(x, k) =>
      assert RelGroup(v, strict, x, k, a, b);
      var m :| Rel(v, strict, x, Save(a, 2 * k), m) && b == Save(m, 2 * k + 1);
      RelSlot0(v, strict, x, Save(a, 2 * k), m);
    case Rep(x, mn, mx) =>
      if mx < 0 {
        assert RelAtLeast(v, strict, x, mn, a, b);
        var m :| Power(v, strict, x, Straight(mn), a, m) && Rounds(v, strict, x, mn == 0, m, b);
        PowerSlot0(v, strict, x, Straight(mn), a, m);
        assert Rounds(v, strict, x, mn == 0, m, b);
        if !(mn == 0 && m == b) {
          var k: nat :| Iterates(v, strict, x, k, m, b);
          IteratesSlot0(v, strict, x, k, m, b);
        }
      } else {
        assert RelBetween(v, strict, x, mn, mx, a, b);
        var k: nat :| mn <= k <= mx && Power(v, strict, x, k, a, b);
        PowerSlot0(v, strict, x, k, a, b);
      }
    case _ =>
  }

  lemma {:induction false} PowerSlot0(v: Subject, strict: bool, x: Node, k: nat, a: St, b: St)
    requires v.Valid() && Power(v, strict, x, k, a, b)
    ensures |b.caps| == |a.caps| && (|a.caps| > 0 ==> b.caps[0] == a.caps[0])
    decreases x, 3, k
  {
    if k > 0 {
      var m :| Rel(v, strict, x, a, m) && Power(v, strict, x, k - 1, m, b);
      RelSlot0(v, strict, x, a, m); PowerSlot0(v, strict, x, k - 1, m, b);
    }
  }

  lemma {:induction false} IteratesSlot0(v: Subject, strict: bool, x: Node, k: nat, a: St, b: St)
    requires v.Valid() && Iterates(v, strict, x, k, a, b)
    ensures |b.caps| == |a.caps| && (|a.caps| > 0 ==> b.caps[0] == a.caps[0])
    decreases x, 3, k
  {
    if k == 0 { RelSlot0(v, strict, x, a, b); } else {
      var m :| Rel(v, strict, x, a, m) && (strict ==> m.pos != a.pos) && Iterates(v, strict, x, k - 1, m, b);
      RelSlot0(v, strict, x, a, m); IteratesSlot0(v, strict, x, k - 1, m, b);
    }
  }

  /** `bt_run`: unless the budget runs out, the first start with any match, the longest match
      there, or no match only when there is none. */
  method BtRun(m: Machine, nsub: nat, nloops: nat, ghost t: Node)
    returns (r: Outcome, best: seq<int>, steps: nat, frames: nat)
    requires m.Valid() && m.strict && WellFormed(t) && TreeTame(t, true, nsub) && IsProgram(m.p, t)
        && nloops == Loops(t)
    ensures r == Match ==> FirstLongest(m.v, t, nsub, best)
    ensures r == NoMatch ==> forall s: nat, e: nat, caps | Boundary(m.v, s) :: !MatchesWith(m.v, t, nsub, s, e, caps)
    ensures r == Exhausted ==> Spent(steps, frames)
  {
    hide IsProgram; hide Rel; hide Run; hide Loops; hide Exhaustive; hide Recorded; hide Boundary; hide MatchesWith;
    hide FirstLongest;
    hide NoneBefore; hide CharAt;
    var ncap := 2 * (nsub + 1);
    var k := new Backtracker(m, ncap);
    best := k.best;
    var start := m.v.beg;
    r := NoMatch;
    FirstStart(m.v, t, nsub);
    while start <= m.v.end
      invariant fresh(k) && k.m == m && k.ncap == ncap && !k.found && |k.best| == ncap && k.steps <= BT_BUDGET
          && 1024 <= k.scap
      invariant start <= m.v.end && Boundary(m.v, start) && NoneBefore(m.v, t, nsub, start)
      decreases m.v.end - start
    {
      ghost var task := Task(m, t, nsub, start);
      var ok := k.Search(start, nloops, task);
      if !ok { r := Exhausted; break; }
      if k.found {
        r, best := Match, k.best;
        FoundHere(task, best);
        break;
      }
      NoneHere(task, k.best);
      if start == m.v.end { NoneAtAll(m.v, t, nsub); break; }
      NextStart(m.v, t, nsub, start);
      start := start + CharAt(m.v, start).n;
    }
    steps, frames := k.steps, |k.st|;
  }

  lemma NoneAtAll(v: Subject, t: Node, nsub: nat)
    requires v.Valid() && NoneBefore(v, t, nsub, v.end + 1)
    ensures forall s: nat, e: nat, caps | Boundary(v, s) :: !MatchesWith(v, t, nsub, s, e, caps)
  {
    hide MatchesWith;
    forall s: nat, e: nat, caps | Boundary(v, s) ensures !MatchesWith(v, t, nsub, s, e, caps) { BoundaryInRange(v, s); }
  }

  lemma FirstStart(v: Subject, t: Node, nsub: nat)
    requires v.Valid()
    ensures Boundary(v, v.beg) && NoneBefore(v, t, nsub, v.beg)
  {
    hide MatchesWith;
    forall s: nat, e: nat, caps | Boundary(v, s) && MatchesWith(v, t, nsub, s, e, caps) ensures s >= v.beg {
      BoundaryInRange(v, s);
    }
  }

  lemma NextStart(v: Subject, t: Node, nsub: nat, start: nat)
    requires v.Valid() && Boundary(v, start) && start < v.end && NoneBefore(v, t, nsub, start + 1)
    ensures var next := start + CharAt(v, start).n; next <= v.end && Boundary(v, next) && NoneBefore(v, t, nsub, next)
  {
    hide MatchesWith; hide Boundary;
    var next := start + CharAt(v, start).n;
    BoundaryNext(v, start);
    BoundaryInRange(v, next);
    forall s: nat, e: nat, caps | Boundary(v, s) && MatchesWith(v, t, nsub, s, e, caps) ensures s >= next {
      NoBoundaryInside(v, start, next, s);
    }
  }

  lemma NoneHere(k: Task, best: seq<int>)
    requires k.Valid() && Exhaustive(k, [], false, best) && NoneBefore(k.m.v, k.t, k.nsub, k.start)
    ensures NoneBefore(k.m.v, k.t, k.nsub, k.start + 1)
  {
    hide MatchesWith; hide Boundary; hide Accepted; hide IsProgram; hide Reaches;
    forall s: nat, e: nat, caps | Boundary(k.m.v, s)
        && MatchesWith(k.m.v, k.t, k.nsub, s, e, caps) ensures s >= k.start + 1 {
      if s == k.start {
        var d := MatchesAccepted(k, e, caps);
        assert false;
      }
    }
  }

  lemma FoundHere(k: Task, best: seq<int>)
    requires k.Valid() && Exhaustive(k, [], true, best) && Recorded(k, true, best)
    requires Boundary(k.m.v, k.start) && NoneBefore(k.m.v, k.t, k.nsub, k.start)
    ensures FirstLongest(k.m.v, k.t, k.nsub, best)
  {
    hide MatchesWith; hide Boundary; hide Accepted; hide IsProgram; hide Reaches; hide Loops;
    var d :| Accepted(k, d) && d.st.caps == best && best[1] == d.st.pos;
    AcceptedMatches(k, d);
    forall s: nat, e: nat, caps | Boundary(k.m.v, s) && MatchesWith(k.m.v, k.t, k.nsub, s, e, caps)
      ensures k.start < s || (k.start == s && e <= best[1])
    {
      if s == k.start {
        var d' := MatchesAccepted(k, e, caps);
        assert Beats(true, best, d') || ViaAny(k.m, [], d');
      }
    }
  }
}
