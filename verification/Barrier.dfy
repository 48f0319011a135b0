/** Barriers (`pthread_barrier_wait` of src/pthread_sync.c) as a transition system over a mutex, taken
    as one atomic lock, and a condition variable; any number of threads, cycles unbounded. */
module Barrier {
  import opened Basics
  import opened Threads

  /** Where a thread is; c is the cycle it arrived in, q the sequence number its wait read. */
  datatype PC =
    | Ready
    | Want | Arrive
    | Close(c: nat) | BroadcastInc(c: nat) | BroadcastWake(c: nat) | Serial(c: nat)
    | Check(c: nat) | CondSeq(c: nat) | CondUnlock(c: nat, q: int) | FutexWait(c: nat, q: int) | Asleep(c: nat,
        q: int) | Relock(c: nat)
    | Leave(c: nat)

  /** What has happened in a cycle: arrivals, returns of the serial value, returns in all. */
  datatype Tally = Tally(arrived: nat, serial: nat, left: nat)

  /** The barrier's fields; log[c] is cycle c's tally. */
  datatype State = State(target: nat, count: nat, cycle: nat, locked: bool, seq_: int, log: seq<Tally>, pcs: seq<PC>)

  /** The places in which a thread has the mutex. */
  predicate InLock(pc: PC) {
    pc.Arrive? || pc.Close? || pc.BroadcastInc? || pc.BroadcastWake? || pc.Serial? || pc.Check?
    || pc.CondSeq? || pc.CondUnlock? || pc.Leave?
  }

  predicate HasTicket(pc: PC) { !pc.Ready? && !pc.Want? && !pc.Arrive? }

  predicate IsIn(pc: PC, c: nat) { HasTicket(pc) && pc.c == c }

  /** The thread that will return the serial value for cycle c. */
  predicate IsSerial(pc: PC, c: nat) { (pc.BroadcastInc? || pc.BroadcastWake? || pc.Serial?) && pc.c == c }

  function In(c: nat): PC -> bool { pc => IsIn(pc, c) }

  function Closes(c: nat): PC -> bool { pc => IsSerial(pc, c) }

  predicate Closing(pc: PC) { pc.Close? }

  predicate WillInc(pc: PC) { pc.BroadcastInc? }

  predicate WillWake(pc: PC) { pc.BroadcastWake? }

  // ---- steps ----

  function Goes(s: State, i: nat, pc: PC): State
    requires i < |s.pcs|
  {
    s.(pcs := s.pcs[i := pc])
  }

  function Noted(s: State, c: nat, y: Tally): State
    requires c < |s.log|
  {
    s.(log := s.log[c := y])
  }

  function Left(y: Tally, serial: bool): Tally { Tally(y.arrived, y.serial + One(serial), y.left + 1) }

  ghost predicate Next(s: State, t: State, i: nat)
    requires i < |s.pcs|
  {
    match s.pcs[i]
    case Ready => t == Goes(s, i, Want)
    case Want => !s.locked && t == Goes(s, i, Arrive).(locked := true)
    case Arrive =>
      s.cycle < |s.log| &&
      t == Noted(Goes(s, i, if s.count + 1 == s.target then Close(s.cycle)
          else Check(s.cycle)), s.cycle, s.log[s.cycle].(arrived := s.log[s.cycle].arrived + 1)).(count := s.count + 1)
    case Close(c) =>
        t == Goes(s, i, BroadcastInc(c)).(count := 0, cycle := s.cycle + 1, log := s.log + [Tally(0, 0, 0)])
    case BroadcastInc(c) => t == Goes(s, i, BroadcastWake(c)).(seq_ := s.seq_ + 1)
    case BroadcastWake(c) => t == s.(pcs := Woken(s.pcs)[i := Serial(c)])
    case Serial(c) => c < |s.log| && t == Noted(Goes(s, i, Ready), c, Left(s.log[c], true)).(locked := false)
    case Check(c) => t == Goes(s, i, if c == s.cycle then CondSeq(c) else Leave(c))
    case CondSeq(c) => t == Goes(s, i, CondUnlock(c, s.seq_))
    case CondUnlock(c, q) => t == Goes(s, i, FutexWait(c, q)).(locked := false)
    case FutexWait(c, q) => t == Goes(s, i, if s.seq_ == q then Asleep(c, q) else Relock(c))
    case Asleep(c, q) => t == Goes(s, i, Relock(c)) // a signal
    case Relock(c) => !s.locked && t == Goes(s, i, Check(c)).(locked := true)
    case Leave(c) => c < |s.log| && t == Noted(Goes(s, i, Ready), c, Left(s.log[c], false)).(locked := false)
  }

  function WokenOne(pc: PC): PC { if pc.Asleep? then Relock(pc.c) else pc }

  function Woken(pcs: seq<PC>): (r: seq<PC>)
    ensures |r| == |pcs| && forall i | 0 <= i < |pcs| :: r[i] == WokenOne(pcs[i])
  {
    seq(|pcs|, i requires 0 <= i < |pcs| => WokenOne(pcs[i]))
  }

  ghost predicate Step(s: State, t: State) { exists i: nat :: i < |s.pcs| && Next(s, t, i) }

  /** `pthread_barrier_init` accepts any count but zero. */
  predicate Init(s: State) {
    s.target > 0 && s.count == 0 && s.cycle == 0 && !s.locked && s.log == [Tally(0, 0, 0)]
        && forall i | 0 <= i < |s.pcs| :: s.pcs[i].Ready?
  }

  ghost predicate Run(r: seq<State>) {
    r != [] && Init(r[0]) && forall k: nat | k + 1 < |r| :: Step(r[k], r[k + 1])
  }

  // ---- the invariant ----

  predicate Words(s: State) {
    && s.target > 0 && |s.log| == s.cycle + 1
    && Count(s.pcs, InLock) == One(s.locked)
    && s.count + One(Count(s.pcs, Closing) == 0) <= s.target && (Count(s.pcs, Closing) > 0 ==> s.count == s.target)
    && s.log[s.cycle] == Tally(s.count, 0, 0)
  }

  /** Cycle c's books balance: everybody who arrived is inside or has left; a finished cycle had
      all its arrivals, and its serial return has happened or is to come. */
  predicate Balanced(s: State, c: nat)
    requires c < |s.log|
  {
    && Count(s.pcs, In(c)) + s.log[c].left == s.log[c].arrived
    && (c < s.cycle ==> s.log[c].arrived == s.target && s.log[c].serial + Count(s.pcs, Closes(c)) == 1)
  }

  predicate Local(s: State, i: nat)
    requires i < |s.pcs|
  {
    var pc := s.pcs[i];
    && (HasTicket(pc) ==> pc.c <= s.cycle)
    && (pc.Close? || pc.CondSeq? || pc.CondUnlock? ==> pc.c == s.cycle)
    && (pc.BroadcastInc? || pc.BroadcastWake? || pc.Serial? || pc.Leave? ==> pc.c < s.cycle)
    && (pc.CondUnlock? ==> pc.q == s.seq_)
    && (pc.FutexWait? || pc.Asleep? ==> pc.q <= s.seq_)
    && ((pc.FutexWait? || pc.Asleep?) && pc.c < s.cycle && pc.q == s.seq_ ==> Count(s.pcs, WillInc) > 0)
    && (pc.Asleep? && pc.q < s.seq_ ==> Count(s.pcs, WillWake) > 0)
  }

  predicate Books(s: State) { forall c: nat | c < |s.log| :: Balanced(s, c) }

  predicate Locals(s: State) { forall i: nat | i < |s.pcs| :: Local(s, i) }

  predicate Inv(s: State) { Words(s) && Books(s) && Locals(s) }

  lemma InitInv(s: State)
    requires Init(s)
    ensures Inv(s)
  {
    CountNone(s.pcs, InLock); CountNone(s.pcs, Closing); CountNone(s.pcs, In(0));
  }

  lemma Moved(pcs: seq<PC>, i: nat, pc: PC)
    requires i < |pcs|
    ensures Count(pcs[i := pc], InLock) + One(InLock(pcs[i])) == Count(pcs, InLock) + One(InLock(pc))
    ensures Count(pcs[i := pc], Closing) + One(Closing(pcs[i])) == Count(pcs, Closing) + One(Closing(pc))
    ensures Count(pcs[i := pc], WillInc) + One(WillInc(pcs[i])) == Count(pcs, WillInc) + One(WillInc(pc))
    ensures Count(pcs[i := pc], WillWake) + One(WillWake(pcs[i])) == Count(pcs, WillWake) + One(WillWake(pc))
    ensures InLock(pcs[i]) ==> Count(pcs, InLock) > 0
    ensures Closing(pcs[i]) ==> Count(pcs, Closing) > 0
    ensures Closing(pc) ==> Count(pcs[i := pc], Closing) > 0
    ensures WillInc(pc) ==> Count(pcs[i := pc], WillInc) > 0
    ensures WillWake(pc) ==> Count(pcs[i := pc], WillWake) > 0
  {
    CountSet(pcs, i, pc, InLock); CountSet(pcs, i, pc, Closing); CountSet(pcs, i, pc, WillInc);
    CountSet(pcs, i, pc, WillWake);
    if InLock(pcs[i]) { CountHas(pcs, i, InLock); }
    if Closing(pcs[i]) { CountHas(pcs, i, Closing); }
    if Closing(pc) { CountHas(pcs[i := pc], i, Closing); }
    if WillInc(pc) { CountHas(pcs[i := pc], i, WillInc); }
    if WillWake(pc) { CountHas(pcs[i := pc], i, WillWake); }
  }

  /** Closing, announcing and waking all happen under the mutex: one thread at a time. */
  lemma OneInside(s: State, i: nat)
    requires Words(s) && i < |s.pcs| && InLock(s.pcs[i])
    ensures Count(s.pcs, Closing) == One(Closing(s.pcs[i]))
    ensures Count(s.pcs, WillInc) == One(WillInc(s.pcs[i]))
    ensures Count(s.pcs, WillWake) == One(WillWake(s.pcs[i]))
    ensures forall j | 0 <= j < |s.pcs| && InLock(s.pcs[j]) :: j == i
  {
    forall j | 0 <= j < |s.pcs| && InLock(s.pcs[j]) ensures j == i { CountOne(s.pcs, i, j, InLock); }
    var u := s.pcs[i := Ready];
    CountNone(u, Closing); CountNone(u, WillInc); CountNone(u, WillWake);
    Moved(s.pcs, i, Ready);
  }

  lemma Unlocked(s: State)
    requires Words(s) && !s.locked
    ensures Count(s.pcs, Closing) == 0 && Count(s.pcs, WillInc) == 0 && Count(s.pcs, WillWake) == 0
    ensures forall j | 0 <= j < |s.pcs| :: !InLock(s.pcs[j])
  {
    forall j | 0 <= j < |s.pcs| ensures !InLock(s.pcs[j]) { if InLock(s.pcs[j]) { CountHas(s.pcs, j, InLock); } }
    CountNone(s.pcs, Closing); CountNone(s.pcs, WillInc); CountNone(s.pcs, WillWake);
  }

  predicate OnlyMoved(s: State, t: State, i: nat) { i < |s.pcs| == |t.pcs| && t.pcs == s.pcs[i := t.pcs[i]] }

  lemma NextMoves(s: State, t: State, i: nat)
    requires i < |s.pcs| && Next(s, t, i) && !s.pcs[i].BroadcastWake?
    ensures OnlyMoved(s, t, i)
  {
  }

  lemma WordsKept(s: State, t: State, i: nat)
    requires Words(s) && i < |s.pcs| && Local(s, i) && Next(s, t, i) && !s.pcs[i].BroadcastWake?
    ensures Words(t)
  {
    hide Count;
    NextMoves(s, t, i);
    Moved(s.pcs, i, t.pcs[i]);
    if InLock(s.pcs[i]) { OneInside(s, i); }
    if !s.locked { Unlocked(s); }
  }

  lemma BalancedKept(s: State, t: State, i: nat, c: nat)
    requires Words(s) && i < |s.pcs| && Local(s, i) && Next(s, t, i) && !s.pcs[i].BroadcastWake? && c < |s.log|
        && Balanced(s, c)
    ensures c < |t.log| && Balanced(t, c)
  {
    hide Count;
    NextMoves(s, t, i);
    CountSet(s.pcs, i, t.pcs[i], In(c));
    CountSet(s.pcs, i, t.pcs[i], Closes(c));
    Moved(s.pcs, i, t.pcs[i]);
    if s.pcs[i].Close? { NoneClosesYet(s, i); }
  }

  /** Before a cycle ends, nobody returns its serial value. */
  lemma NoneClosesYet(s: State, i: nat)
    requires Words(s) && i < |s.pcs| && s.pcs[i].Close?
    ensures Count(s.pcs, Closes(s.cycle)) == 0
  {
    OneInside(s, i);
    CountNone(s.pcs, Closes(s.cycle));
  }

  /** The new cycle's books are empty. */
  lemma NewBooks(s: State, t: State, i: nat)
    requires Words(s) && Locals(s) && i < |s.pcs| && s.pcs[i].Close? && Next(s, t, i)
    ensures t.cycle < |t.log| && Balanced(t, t.cycle)
  {
    assert Local(s, i);
    forall j | 0 <= j < |t.pcs| ensures !In(t.cycle)(t.pcs[j]) { assert Local(s, j); }
    CountNone(t.pcs, In(t.cycle));
  }

  lemma OwnKept(s: State, t: State, i: nat)
    requires Words(s) && i < |s.pcs| && Local(s, i) && Next(s, t, i) && !s.pcs[i].BroadcastWake?
    ensures i < |t.pcs| && Local(t, i)
  {
    hide Count;
    NextMoves(s, t, i);
    Moved(s.pcs, i, t.pcs[i]);
  }

  lemma OtherKept(s: State, t: State, i: nat, j: nat)
    requires Words(s) && Locals(s) && i < |s.pcs| && Next(s, t, i) && !s.pcs[i].BroadcastWake? && j < |s.pcs| && j != i
    ensures j < |t.pcs| && Local(t, j)
  {
    hide Count;
    NextMoves(s, t, i);
    assert Local(s, i) && Local(s, j);
    Moved(s.pcs, i, t.pcs[i]);
    if InLock(s.pcs[i]) { OneInside(s, i); }
  }

  lemma WakeKept(s: State, t: State, i: nat)
    requires Inv(s) && i < |s.pcs| && s.pcs[i].BroadcastWake? && Next(s, t, i)
    ensures Inv(t)
  {
    WakeWords(s, t, i);
    forall c: nat | c < |t.log| ensures Balanced(t, c) { WakeBooks(s, t, i, c); }
    forall j: nat | j < |t.pcs| ensures Local(t, j) { assert Local(s, j); assert Local(s, i); }
  }

  lemma WakeWords(s: State, t: State, i: nat)
    requires Words(s) && i < |s.pcs| && s.pcs[i].BroadcastWake? && Next(s, t, i)
    ensures Words(t) && Count(t.pcs, WillInc) == Count(s.pcs, WillInc)
  {
    hide Count;
    var u := Woken(s.pcs);
    CountSame(u, s.pcs, InLock, InLock); CountSame(u, s.pcs, Closing, Closing); CountSame(u, s.pcs, WillInc, WillInc);
    Moved(u, i, Serial(s.pcs[i].c));
  }

  lemma WakeBooks(s: State, t: State, i: nat, c: nat)
    requires i < |s.pcs| && s.pcs[i].BroadcastWake? && Next(s, t, i) && c < |s.log| && Balanced(s, c)
    ensures c < |t.log| && Balanced(t, c)
  {
    hide Count;
    var u := Woken(s.pcs);
    CountSame(u, s.pcs, In(c), In(c)); CountSame(u, s.pcs, Closes(c), Closes(c));
    CountSet(u, i, t.pcs[i], In(c)); CountSet(u, i, t.pcs[i], Closes(c));
  }

  lemma StepInv(s: State, t: State)
    requires Inv(s) && Step(s, t)
    ensures Inv(t)
  {
    hide Words; hide Local; hide Balanced; hide Next;
    var i: nat :| i < |s.pcs| && Next(s, t, i);
    if s.pcs[i].BroadcastWake? {
      WakeKept(s, t, i);
    } else {
      assert Local(s, i);
      NextMoves(s, t, i);
      WordsKept(s, t, i);
      LogGrows(s, t, i);
      forall c: nat | c < |t.log| ensures Balanced(t, c) {
        if c < |s.log| { BalancedKept(s, t, i, c); } else { NewBooks(s, t, i); }
      }
      forall j: nat | j < |t.pcs| ensures Local(t, j) { if j == i { OwnKept(s, t, i); }
          else { OtherKept(s, t, i, j); } }
    }
  }

  lemma LogGrows(s: State, t: State, i: nat)
    requires Words(s) && Words(t) && i < |s.pcs| && Next(s, t, i)
    ensures |t.log| == |s.log| + One(s.pcs[i].Close?) && (|t.log| > |s.log| ==> t.cycle == |s.log|)
  {
  }

  lemma {:induction false} RunInv(r: seq<State>, k: nat)
    requires Run(r) && k < |r|
    ensures Inv(r[k])
  {
    hide Inv; hide Step;
    if k == 0 {
      InitInv(r[0]);
    } else {
      RunInv(r, k - 1);
      assert Step(r[k - 1], r[k - 1 + 1]);
      StepInv(r[k - 1], r[k]);
    }
  }

  // ---- what it means ----

  /** Nobody leaves a cycle before `target` threads have arrived in it. */
  lemma NobodyLeavesEarly(r: seq<State>, k: nat, c: nat)
    requires Run(r) && k < |r| && c < |r[k].log| && r[k].log[c].left > 0
    ensures r[k].log[c].arrived == r[k].target
  {
    RunInv(r, k);
    assert Balanced(r[k], c);
  }

  /** At most one return of a cycle has the serial value, and when all have returned, exactly one. */
  lemma OneSerial(r: seq<State>, k: nat, c: nat)
    requires Run(r) && k < |r| && c < |r[k].log|
    ensures r[k].log[c].serial <= 1
    ensures r[k].log[c].left == r[k].target ==> r[k].log[c].serial == 1
  {
    RunInv(r, k);
    var s := r[k];
    assert Balanced(s, c);
    if c < s.cycle && s.log[c].left == s.target && Count(s.pcs, Closes(c)) > 0 {
      var i := CountSome(s.pcs, Closes(c));
      CountHas(s.pcs, i, In(c));
    }
  }

  /** Cycles do not overflow: never more than `target` arrivals. */
  lemma NoExtraArrivals(r: seq<State>, k: nat, c: nat)
    requires Run(r) && k < |r| && c < |r[k].log|
    ensures r[k].log[c].left <= r[k].log[c].arrived <= r[k].target
  {
    RunInv(r, k);
    assert Balanced(r[k], c);
  }

  /** Nobody sleeps through the end of its cycle: while a thread sleeps, its cycle is still open or
      the closing thread has still to wake it. */
  lemma NoForgottenSleeper(r: seq<State>, k: nat, i: nat)
    requires Run(r) && k < |r| && i < |r[k].pcs| && r[k].pcs[i].Asleep?
    ensures r[k].pcs[i].c == r[k].cycle
        || exists j: nat :: j < |r[k].pcs| && (WillInc(r[k].pcs[j]) || WillWake(r[k].pcs[j]))
  {
    RunInv(r, k);
    var s := r[k];
    assert Local(s, i);
    if Count(s.pcs, WillInc) > 0 {
      var j := CountSome(s.pcs, WillInc);
    } else if Count(s.pcs, WillWake) > 0 {
      var j := CountSome(s.pcs, WillWake);
    }
  }
}
