/** Mutexes and condition variables (src/pthread_sync.c) as a transition system: one mutex of any
    type, one condition variable, any number of threads, one atomic operation a step, sequence
    numbers unbounded. */
module Mutex {
  import opened Basics
  import opened Threads

  datatype Kind = Normal | Recursive | ErrorCheck

  /** Why a thread locks: trylock, lock or timedlock, or the way out of a condition wait that had found
      the count at `saved`. */
  datatype How = Try | Block | Timed | Back(saved: int)

  /** Why it unlocks: on its own account, or on the way into a condition wait. */
  datatype Why = Plain | Into(q: int, saved: int)

  datatype PC =
    | Ready
    | ReadOwner(how: How) | Recur | Fast(how: How) | Exchange(how: How) | Wait(how: How) | Asleep(how: How)
    | SetOwner(how: How) | SetCount(how: How) | Restore(saved: int)
    | CheckLock(why: Why) | CheckOwner(why: Why) | Decrement(why: Why) | ClearOwner(why: Why) | ClearCount(why: Why)
    | Release(why: Why) | Wake(why: Why)
    | CondOwner | CondSeq | CondCount(q: int) | CondSleep(q: int, saved: int) | CondAsleep(q: int, saved: int)
    | SignalInc | SignalWake | BroadcastInc | BroadcastWake(b: int)

  datatype Op = NoCall | TryLock | Lock | TimedLock | Unlock | CondWait | CondTimed | Signal | Broadcast

  /** What a call returns. */
  datatype Ret = OK | EBUSY | EDEADLK | EAGAIN | EINVAL | EPERM | ETIMEDOUT

  /** A thread, whether it has the mutex, and how often it has locked it; its last call, how often it had
      locked it when it made that call, and what the call returned. */
  datatype Thread = Thread(pc: PC, holds: bool, depth: int, was: int, op: Op, ret: Ret)

  /** The mutex's words, the condition variable's, and the newest sequence number whose broadcast
      has been completed. */
  datatype State = State(kind: Kind, lock: int, owner: int, count: int, seq_: int, done: int, ts: seq<Thread>)

  function Tid(i: nat): int { i + 1 }

  // ---- steps ----

  function Goes(s: State, i: nat, pc: PC): State
    requires i < |s.ts|
  {
    s.(ts := s.ts[i := s.ts[i].(pc := pc)])
  }

  function Put(s: State, i: nat, th: Thread): State
    requires i < |s.ts|
  {
    s.(ts := s.ts[i := th])
  }

  /** A call, with the first place of it. */
  function Call(th: Thread, op: Op, pc: PC): Thread { th.(pc := pc, op := op, was := th.depth) }

  function Returns(s: State, i: nat, ret: Ret): State
    requires i < |s.ts|
  {
    Put(s, i, s.ts[i].(pc := Ready, ret := ret))
  }

  /** Starting an operation. Unlocking and waiting with a normal mutex are for its holder. A time-out that is
      not well formed is refused at once. */
  predicate Starts(kind: Kind, th: Thread, u: Thread) {
    || u == Call(th, TryLock, ReadOwner(Try)) || u == Call(th, Lock, ReadOwner(Block))
    || u == Call(th, TimedLock, ReadOwner(Timed)) || u == Call(th, TimedLock, Ready).(ret := EINVAL)
    || ((kind != Normal || th.holds) && u == Call(th, Unlock, CheckLock(Plain)))
    || ((kind != Normal || th.holds) && (u == Call(th, CondWait, CondOwner) || u == Call(th, CondTimed, CondOwner)))
    || u == Call(th, CondTimed, Ready).(ret := EINVAL)
    || u == Call(th, Signal, SignalInc) || u == Call(th, Broadcast, BroadcastInc)
  }

  ghost predicate Begins(s: State, t: State, i: nat)
    requires i < |s.ts|
  {
    exists u :: Starts(s.kind, s.ts[i], u) && t == Put(s, i, u)
  }

  /** `lock_common` and `acquire`. */
  ghost predicate Locks(s: State, t: State, i: nat)
    requires i < |s.ts|
  {
    var th := s.ts[i];
    match th.pc
    case ReadOwner(how) => t == Goes(s, i, if s.kind != Normal && s.owner == Tid(i) then Recur else Fast(how))
    case Recur =>
      if s.kind == ErrorCheck then t == Returns(s, i, EDEADLK)
      else if s.count == INT_MAX then t == Returns(s, i, EAGAIN)
      else t == Put(s, i, th.(pc := Ready, ret := OK, depth := th.depth + 1)).(count := s.count + 1)
    case Fast(how) =>
      if s.lock == 0 then t == Put(s, i, th.(pc := SetOwner(how), holds := true)).(lock := 1)
      else t == if how == Try then Returns(s, i, EBUSY) else Goes(s, i, Exchange(how))
    case Exchange(how) =>
      t == (if s.lock == 0 then Put(s, i, th.(pc := SetOwner(how), holds := true))
          else Goes(s, i, Wait(how))).(lock := 2)
    case Wait(how) => t == Goes(s, i, if s.lock == 2 then Asleep(how) else Exchange(how))
    case Asleep(how) =>
        t == Goes(s, i, Exchange(how)) || (how == Timed && t == Returns(s, i, ETIMEDOUT)) // a signal, or the time-out
    case SetOwner(how) => t == Goes(s, i, SetCount(how)).(owner := Tid(i))
    case SetCount(how) =>
        t == Put(s, i, if how.Back? then th.(pc := Restore(how.saved), depth := 1)
            else th.(pc := Ready, ret := OK, depth := 1)).(count := 1)
    case Restore(saved) => t == Put(s, i, th.(pc := Ready, depth := saved)).(count := saved)
    case _ => false
  }

  /** `pthread_mutex_unlock`. */
  ghost predicate Unlocks(s: State, t: State, i: nat)
    requires i < |s.ts|
  {
    var th := s.ts[i];
    match th.pc
    case CheckLock(why) => t == if s.lock == 0 then Put(s, i, After(th, why, EPERM)) else Goes(s, i, CheckOwner(why))
    case CheckOwner(why) =>
        t == if s.kind != Normal && s.owner != Tid(i) then Put(s, i, After(th, why, EPERM))
            else Goes(s, i, Decrement(why))
    case Decrement(why) =>
      if s.kind != Recursive then t == Goes(s, i, ClearOwner(why))
      else
        var next := th.(depth := th.depth - 1);
        t == Put(s, i, if s.count - 1 != 0 then After(next, why, OK)
            else next.(pc := ClearOwner(why))).(count := s.count - 1)
    case ClearOwner(why) => t == Goes(s, i, ClearCount(why)).(owner := 0)
    case ClearCount(why) => t == Goes(s, i, Release(why)).(count := 0)
    case Release(why) =>
      var next := th.(holds := false, depth := 0);
      t == Put(s, i, if s.lock == 2 then next.(pc := Wake(why)) else After(next, why, OK)).(lock := 0)
    case _ => false
  }

  /** After unlocking: a condition wait goes on, whatever that returned. */
  function After(th: Thread, why: Why, ret: Ret): Thread {
    if why.Into? then th.(pc := CondSleep(why.q, why.saved)) else th.(pc := Ready, ret := ret)
  }

  /** `cond_wait`, signal and broadcast. */
  ghost predicate Conds(s: State, t: State, i: nat)
    requires i < |s.ts|
  {
    var th := s.ts[i];
    match th.pc
    case CondOwner => t == if s.kind != Normal && s.owner != Tid(i) then Returns(s, i, EPERM) else Goes(s, i, CondSeq)
    case CondSeq => t == Goes(s, i, CondCount(s.seq_))
    case CondCount(q) => t == Put(s, i, th.(pc := CheckLock(Into(q, s.count)), depth := 1)).(count := 1)
    case CondSleep(q, saved) => t == if s.seq_ == q then Goes(s, i, CondAsleep(q, saved)) else Put(s, i, Rises(th, OK))
    case CondAsleep(_, _) =>
        // a signal, or the time-out
        t == Put(s, i, Rises(th, OK)) || (th.op == CondTimed && t == Put(s, i, Rises(th, ETIMEDOUT)))
    case SignalInc => t == Goes(s, i, SignalWake).(seq_ := s.seq_ + 1)
    case BroadcastInc => t == Goes(s, i, BroadcastWake(s.seq_ + 1)).(seq_ := s.seq_ + 1)
    case _ => false
  }

  /** Out of the wait on the sequence number, with what the call is going to return. */
  function Rises(th: Thread, ret: Ret): Thread
    requires th.pc.CondSleep? || th.pc.CondAsleep?
  {
    th.(pc := ReadOwner(Back(th.pc.saved)), ret := ret)
  }

  /** Wake-ups: one sleeper on the lock word, one or all on the sequence number. */
  ghost predicate Wakes(s: State, t: State, i: nat)
    requires i < |s.ts|
  {
    var th := s.ts[i];
    match th.pc
    case Wake(why) =>
      if exists j: nat :: j < |s.ts| && s.ts[j].pc.Asleep?
      then exists j: nat ::
             j < |s.ts| && s.ts[j].pc.Asleep?
                 && t == Goes(Put(s, i, After(th, why, OK)), j, Exchange(s.ts[j].pc.how))
      else t == Put(s, i, After(th, why, OK))
    case SignalWake =>
      if exists j: nat :: j < |s.ts| && s.ts[j].pc.CondAsleep?
      then exists j: nat ::
             j < |s.ts| && s.ts[j].pc.CondAsleep? && t == Put(Returns(s, i, OK), j, Rises(s.ts[j], OK))
      else t == Returns(s, i, OK)
    case BroadcastWake(b) =>
        t == s.(ts := Woken(s.ts)[i := th.(pc := Ready, ret := OK)], done := if b > s.done then b else s.done)
    case _ => false
  }

  function WokenOne(th: Thread): Thread { if th.pc.CondAsleep? then Rises(th, OK) else th }

  function Woken(ts: seq<Thread>): (r: seq<Thread>)
    ensures |r| == |ts| && forall i | 0 <= i < |ts| :: r[i] == WokenOne(ts[i])
  {
    seq(|ts|, i requires 0 <= i < |ts| => WokenOne(ts[i]))
  }

  /** s to t is a step of thread i. */
  ghost predicate Acts(s: State, t: State, i: nat) {
    i < |s.ts| && ((s.ts[i].pc.Ready? && Begins(s, t, i)) || Locks(s, t, i) || Unlocks(s, t, i) || Conds(s, t, i)
        || Wakes(s, t, i))
  }

  ghost predicate Step(s: State, t: State) { exists i: nat :: Acts(s, t, i) }

  predicate Init(s: State) {
    s.lock == 0 && s.owner == 0 && s.count == 0 && s.done <= s.seq_
        && forall i | 0 <= i < |s.ts| :: s.ts[i] == Thread(Ready, false, 0, 0, NoCall, OK)
  }

  ghost predicate Run(r: seq<State>) {
    r != [] && Init(r[0]) && forall k: nat | k + 1 < |r| :: Step(r[k], r[k + 1])
  }

  // ---- the invariant ----

  predicate Holds(th: Thread) { th.holds }

  predicate Sleeps(th: Thread) { th.pc.Asleep? }

  /** In the slow path, awake: it will exchange the word again before it sleeps or leaves. */
  predicate Looking(th: Thread) { th.pc.Exchange? || th.pc.Wait? }

  predicate WillWake(th: Thread) { th.pc.Wake? }

  /** The word and its holder, and no lost wake-up. */
  predicate Words(s: State) {
    && 0 <= s.lock <= 2 && Count(s.ts, Holds) == One(s.lock != 0)
    && (Count(s.ts, Sleeps) > 0 ==> s.lock == 2 || Count(s.ts, WillWake) > 0 || Count(s.ts, Looking) > 0)
  }

  /** The places in which a thread has the mutex without its name being in the owner field. */
  predicate Unnamed(pc: PC) { pc.SetOwner? || pc.ClearCount? || pc.Release? }

  /** The places in which only a holder can be. */
  predicate Inside(pc: PC) {
    pc.SetOwner? || pc.SetCount? || pc.Restore? || pc.Decrement? || pc.ClearOwner? || pc.ClearCount? || pc.Release?
    || pc.Recur? || pc.CondSeq? || pc.CondCount?
  }

  /** The places in which it has not yet, or no longer, its count in the count field. */
  predicate Unsettled(pc: PC) {
    pc.SetOwner? || pc.SetCount? || pc.Restore? || pc.ClearOwner? || pc.ClearCount? || pc.Release?
  }

  /** The value a condition wait saved. */
  function Saved(pc: PC): (saved: int) {
    match pc
    case ReadOwner(Back(n)) => n
    case Fast(Back(n)) => n
    case Exchange(Back(n)) => n
    case Wait(Back(n)) => n
    case Asleep(Back(n)) => n
    case SetOwner(Back(n)) => n
    case SetCount(Back(n)) => n
    case Restore(n) => n
    case CheckLock(Into(_, n)) => n
    case CheckOwner(Into(_, n)) => n
    case Decrement(Into(_, n)) => n
    case ClearOwner(Into(_, n)) => n
    case ClearCount(Into(_, n)) => n
    case Release(Into(_, n)) => n
    case Wake(Into(_, n)) => n
    case CondSleep(_, n) => n
    case CondAsleep(_, n) => n
    case _ => 0
  }

  /** In a condition wait, from saving the count to restoring it. */
  predicate Waiting(pc: PC) {
    match pc
    case ReadOwner(how) => how.Back?
    case Fast(how) => how.Back?
    case Exchange(how) => how.Back?
    case Wait(how) => how.Back?
    case Asleep(how) => how.Back?
    case SetOwner(how) => how.Back?
    case SetCount(how) => how.Back?
    case Restore(_) => true
    case CheckLock(why) => why.Into?
    case CheckOwner(why) => why.Into?
    case Decrement(why) => why.Into?
    case ClearOwner(why) => why.Into?
    case ClearCount(why) => why.Into?
    case Release(why) => why.Into?
    case Wake(why) => why.Into?
    case CondSleep(_, _) => true
    case CondAsleep(_, _) => true
    case _ => false
  }

  /** Checking on the way into a condition wait, it still holds the mutex, once. */
  predicate Leaving(pc: PC) { (pc.CheckLock? || pc.CheckOwner?) && pc.why.Into? }

  /** Who has the mutex, and whose name is in the owner field. */
  predicate HoldPart(s: State, i: nat)
    requires i < |s.ts|
  {
    var th := s.ts[i];
    && (Inside(th.pc) || Leaving(th.pc) ==> th.holds)
    && ((th.pc.Fast? || th.pc.Exchange? || th.pc.Wait? || th.pc.Asleep?) && (s.kind != Normal || th.pc.how.Back?) ==>
        !th.holds)
    && (th.pc.CondSleep? || th.pc.CondAsleep? || th.pc.Wake? || (th.pc.ReadOwner? && th.pc.how.Back?) ==> !th.holds)
    && (s.kind == Normal && (th.pc.CheckLock? || th.pc.CheckOwner? || th.pc.CondOwner?) ==> th.holds)
    && (s.kind == Normal ==> !th.pc.Recur?)
    && (th.holds && !Unnamed(th.pc) ==> s.owner == Tid(i))
    && (s.owner == Tid(i) ==> th.holds && !Unnamed(th.pc))
  }

  /** The count field, and the count that a condition wait saved. */
  predicate CountPart(s: State, i: nat)
    requires i < |s.ts|
  {
    var th := s.ts[i];
    && (th.holds && !Unsettled(th.pc) ==> s.count == th.depth && th.depth >= 1)
    && (th.holds && s.kind != Recursive && !Waiting(th.pc) ==> th.depth <= 1)
    && ((Leaving(th.pc) || (th.pc.Decrement? && th.pc.why.Into?)) ==> th.depth == 1)
    && (!th.holds ==> th.depth == 0)
    && (Waiting(th.pc) ==> Saved(th.pc) == th.was >= 1)
    && (Waiting(th.pc) && s.kind != Recursive ==> th.was <= 1)
    && ((th.pc.CondOwner? || th.pc.CondSeq? || th.pc.CondCount?) ==> th.was == th.depth)
  }

  /** The sequence number. */
  predicate SeqPart(s: State, i: nat)
    requires i < |s.ts|
  {
    var th := s.ts[i];
    && (th.pc.BroadcastWake? ==> th.pc.b <= s.seq_)
    && (th.pc.CondAsleep? ==> s.done <= th.pc.q)
  }

  predicate Local(s: State, i: nat)
    requires i < |s.ts|
  {
    HoldPart(s, i) && CountPart(s, i) && SeqPart(s, i)
  }

  predicate Locals(s: State) { s.done <= s.seq_ && forall i: nat | i < |s.ts| :: Local(s, i) }

  predicate Inv(s: State) { Words(s) && Locals(s) }

  lemma InitInv(s: State)
    requires Init(s)
    ensures Inv(s)
  {
    CountNone(s.ts, Holds); CountNone(s.ts, Sleeps);
  }

  lemma Moved(ts: seq<Thread>, i: nat, th: Thread)
    requires i < |ts|
    ensures Count(ts[i := th], Holds) + One(Holds(ts[i])) == Count(ts, Holds) + One(Holds(th))
    ensures Count(ts[i := th], Sleeps) + One(Sleeps(ts[i])) == Count(ts, Sleeps) + One(Sleeps(th))
    ensures Count(ts[i := th], WillWake) + One(WillWake(ts[i])) == Count(ts, WillWake) + One(WillWake(th))
    ensures Count(ts[i := th], Looking) + One(Looking(ts[i])) == Count(ts, Looking) + One(Looking(th))
    ensures Holds(ts[i]) ==> Count(ts, Holds) > 0
    ensures WillWake(th) ==> Count(ts[i := th], WillWake) > 0
    ensures Looking(th) ==> Count(ts[i := th], Looking) > 0
  {
    CountSet(ts, i, th, Holds); CountSet(ts, i, th, Sleeps); CountSet(ts, i, th, WillWake);
    CountSet(ts, i, th, Looking);
    if Holds(ts[i]) { CountHas(ts, i, Holds); }
    if WillWake(th) { CountHas(ts[i := th], i, WillWake); }
    if Looking(th) { CountHas(ts[i := th], i, Looking); }
  }

  ghost predicate Simple(s: State, t: State, i: nat)
    requires i < |s.ts|
  {
    (s.ts[i].pc.Ready? && Begins(s, t, i)) || Locks(s, t, i) || Unlocks(s, t, i) || Conds(s, t, i)
  }

  predicate OnlyMoved(s: State, t: State, i: nat) {
    i < |s.ts| == |t.ts| && t.ts == s.ts[i := t.ts[i]] && t.kind == s.kind && t.done == s.done
  }

  lemma SimpleMoves(s: State, t: State, i: nat)
    requires i < |s.ts| && Simple(s, t, i)
    ensures OnlyMoved(s, t, i)
  {
  }

  lemma WordsKept(s: State, t: State, i: nat)
    requires Words(s) && i < |s.ts| && Local(s, i) && Simple(s, t, i)
    ensures Words(t)
  {
    hide Count; hide Saved; hide Waiting;
    SimpleMoves(s, t, i);
    Moved(s.ts, i, t.ts[i]);
  }

  lemma OneHolder(s: State, i: nat, j: nat)
    requires Words(s) && i < |s.ts| && j < |s.ts| && s.ts[i].holds && s.ts[j].holds
    ensures i == j
  {
    CountOne(s.ts, i, j, Holds);
  }

  lemma HeldWord(s: State, i: nat)
    requires Words(s) && i < |s.ts| && s.ts[i].holds
    ensures s.lock != 0
  {
    CountHas(s.ts, i, Holds);
  }

  /** The owner and count fields change only under a holder's hand. */
  lemma OthersUntouched(s: State, t: State, i: nat)
    requires i < |s.ts| && Local(s, i) && Simple(s, t, i)
    ensures t.seq_ >= s.seq_
    ensures s.ts[i].holds || (t.owner == s.owner && t.count == s.count)
    ensures t.owner == s.owner || t.owner == 0 || t.owner == Tid(i)
  {
    hide Saved; hide Waiting;
  }

  lemma OtherKept(s: State, t: State, i: nat, j: nat)
    requires Words(s) && Locals(s) && i < |s.ts| && Simple(s, t, i) && j < |s.ts| && j != i
    ensures j < |t.ts| && Local(t, j)
  {
    hide Words; hide Simple; hide Saved; hide Waiting;
    SimpleMoves(s, t, i);
    assert Local(s, i) && Local(s, j);
    OthersUntouched(s, t, i);
    if s.ts[i].holds && s.ts[j].holds { OneHolder(s, i, j); }
  }

  lemma BeginsHold(s: State, t: State, i: nat)
    requires Words(s) && i < |s.ts| && Local(s, i) && s.done <= s.seq_ && s.ts[i].pc.Ready? && Begins(s, t, i)
    ensures i < |t.ts| && HoldPart(t, i)
  {
    hide Words; hide Saved; hide Waiting;
  }

  lemma BeginsCount(s: State, t: State, i: nat)
    requires Words(s) && i < |s.ts| && Local(s, i) && s.done <= s.seq_ && s.ts[i].pc.Ready? && Begins(s, t, i)
    ensures i < |t.ts| && CountPart(t, i) && SeqPart(t, i)
  {
    hide Words;
  }

  lemma LocksHold(s: State, t: State, i: nat)
    requires Words(s) && i < |s.ts| && Local(s, i) && s.done <= s.seq_ && Locks(s, t, i)
    ensures i < |t.ts| && HoldPart(t, i)
  {
    hide Words; hide Saved; hide Waiting;
    if s.ts[i].holds { HeldWord(s, i); }
  }

  lemma LocksCount(s: State, t: State, i: nat)
    requires Words(s) && i < |s.ts| && Local(s, i) && s.done <= s.seq_ && Locks(s, t, i)
    ensures i < |t.ts| && CountPart(t, i) && SeqPart(t, i)
  {
    hide Words;
    if s.ts[i].holds { HeldWord(s, i); }
  }

  lemma UnlocksHold(s: State, t: State, i: nat)
    requires Words(s) && i < |s.ts| && Local(s, i) && s.done <= s.seq_ && Unlocks(s, t, i)
    ensures i < |t.ts| && HoldPart(t, i)
  {
    hide Words; hide Saved; hide Waiting;
    if s.ts[i].holds { HeldWord(s, i); }
  }

  lemma UnlocksCount(s: State, t: State, i: nat)
    requires Words(s) && i < |s.ts| && Local(s, i) && s.done <= s.seq_ && Unlocks(s, t, i)
    ensures i < |t.ts| && CountPart(t, i) && SeqPart(t, i)
  {
    hide Words;
    if s.ts[i].holds { HeldWord(s, i); }
  }

  lemma CondsHold(s: State, t: State, i: nat)
    requires Words(s) && i < |s.ts| && Local(s, i) && s.done <= s.seq_ && Conds(s, t, i)
    ensures i < |t.ts| && HoldPart(t, i)
  {
    hide Words; hide Saved; hide Waiting;
  }

  lemma CondsCount(s: State, t: State, i: nat)
    requires Words(s) && i < |s.ts| && Local(s, i) && s.done <= s.seq_ && Conds(s, t, i)
    ensures i < |t.ts| && CountPart(t, i) && SeqPart(t, i)
  {
    hide Words;
  }

  // ---- wake-ups ----

  /** A move of one thread that touches no word and changes no holding. */
  predicate Sets(s: State, t: State, i: nat, pc: PC) {
    i < |s.ts| == |t.ts| && t == Put(s, i, s.ts[i].(pc := pc, ret := t.ts[i].ret))
  }

  lemma WakerReady(s: State, t: State, i: nat, pc: PC)
    requires Words(s) && Locals(s) && Sets(s, t, i, pc)
    requires (s.ts[i].pc.Wake? && pc == After(s.ts[i], s.ts[i].pc.why, OK).pc)
        || (s.ts[i].pc.SignalWake? && pc == Ready)
    ensures Locals(t)
  {
    hide Words;
    assert Local(s, i);
    forall j: nat | j < |t.ts| ensures Local(t, j) { assert Local(s, j); }
  }

  lemma SleeperWoken(s: State, t: State, j: nat, pc: PC)
    requires Locals(s) && Sets(s, t, j, pc)
    requires (s.ts[j].pc.Asleep? && pc == Exchange(s.ts[j].pc.how))
        || (s.ts[j].pc.CondAsleep? && pc == ReadOwner(Back(s.ts[j].pc.saved)))
    ensures Locals(t)
  {
    assert Local(s, j);
    forall k: nat | k < |t.ts| ensures Local(t, k) { assert Local(s, k); }
  }

  lemma WakeKept(s: State, t: State, i: nat)
    requires Inv(s) && i < |s.ts| && s.ts[i].pc.Wake? && Wakes(s, t, i)
    ensures Inv(t)
  {
    hide Count; hide Local;
    var th := After(s.ts[i], s.ts[i].pc.why, OK);
    var u := Put(s, i, th);
    WakerReady(s, u, i, th.pc);
    Moved(s.ts, i, th);
    if exists j: nat :: j < |s.ts| && s.ts[j].pc.Asleep? {
      var j: nat :| j < |s.ts| && s.ts[j].pc.Asleep? && t == Goes(u, j, Exchange(s.ts[j].pc.how));
      SleeperWoken(u, t, j, Exchange(s.ts[j].pc.how));
      Moved(u.ts, j, t.ts[j]);
    } else {
      CountNone(s.ts, Sleeps);
    }
  }

  lemma SignalKept(s: State, t: State, i: nat)
    requires Inv(s) && i < |s.ts| && s.ts[i].pc.SignalWake? && Wakes(s, t, i)
    ensures Inv(t)
  {
    hide Count; hide Local;
    var u := Returns(s, i, OK);
    WakerReady(s, u, i, Ready);
    Moved(s.ts, i, u.ts[i]);
    if exists j: nat :: j < |s.ts| && s.ts[j].pc.CondAsleep? {
      var j: nat :| j < |s.ts| && s.ts[j].pc.CondAsleep? && t == Put(u, j, Rises(s.ts[j], OK));
      SleeperWoken(u, t, j, ReadOwner(Back(s.ts[j].pc.saved)));
      Moved(u.ts, j, t.ts[j]);
    }
  }

  lemma WokenCounts(ts: seq<Thread>)
    ensures Count(Woken(ts), Holds) == Count(ts, Holds) && Count(Woken(ts), Sleeps) == Count(ts, Sleeps)
    ensures Count(Woken(ts), WillWake) == Count(ts, WillWake) && Count(Woken(ts), Looking) == Count(ts, Looking)
  {
    CountSame(Woken(ts), ts, Holds, Holds); CountSame(Woken(ts), ts, Sleeps, Sleeps);
    CountSame(Woken(ts), ts, WillWake, WillWake); CountSame(Woken(ts), ts, Looking, Looking);
  }

  lemma BroadcastKept(s: State, t: State, i: nat)
    requires Inv(s) && i < |s.ts| && s.ts[i].pc.BroadcastWake? && Wakes(s, t, i)
    ensures Inv(t)
  {
    BroadcastWords(s, t, i);
    assert Local(s, i);
    forall j: nat | j < |t.ts| ensures Local(t, j) { BroadcastLocal(s, t, i, j); }
  }

  lemma BroadcastWords(s: State, t: State, i: nat)
    requires Words(s) && i < |s.ts| && s.ts[i].pc.BroadcastWake? && Wakes(s, t, i)
    ensures Words(t)
  {
    hide Count;
    WokenCounts(s.ts);
    Moved(Woken(s.ts), i, s.ts[i].(pc := Ready, ret := OK));
  }

  lemma BroadcastLocal(s: State, t: State, i: nat, j: nat)
    requires Locals(s) && i < |s.ts| && s.ts[i].pc.BroadcastWake? && Wakes(s, t, i) && j < |t.ts|
    ensures Local(t, j)
  {
    assert Local(s, i) && Local(s, j);
  }

  lemma StepInv(s: State, t: State)
    requires Inv(s) && Step(s, t)
    ensures Inv(t)
  {
    hide Words; hide Local; hide HoldPart; hide CountPart; hide SeqPart; hide Begins; hide Locks; hide Unlocks;
    hide Conds; hide Wakes;
    var i: nat :| Acts(s, t, i);
    assert Local(s, i);
    if Simple(s, t, i) {
      SimpleMoves(s, t, i);
      WordsKept(s, t, i);
      OthersUntouched(s, t, i);
      if s.ts[i].pc.Ready? && Begins(s, t, i) { BeginsHold(s, t, i); BeginsCount(s, t, i); }
      else if Locks(s, t, i) { LocksHold(s, t, i); LocksCount(s, t, i); }
      else if Unlocks(s, t, i) { UnlocksHold(s, t, i); UnlocksCount(s, t, i); }
      else { CondsHold(s, t, i); CondsCount(s, t, i); }
      LocalOf(t, i);
      forall j: nat | j < |t.ts| ensures Local(t, j) { if j != i { OtherKept(s, t, i, j); } }
    } else {
      WakersOnly(s, t, i);
      if s.ts[i].pc.Wake? {
        WakeKept(s, t, i);
      } else if s.ts[i].pc.SignalWake? {
        SignalKept(s, t, i);
      } else {
        BroadcastKept(s, t, i);
      }
    }
  }

  lemma LocalOf(s: State, i: nat)
    requires i < |s.ts| && HoldPart(s, i) && CountPart(s, i) && SeqPart(s, i)
    ensures Local(s, i)
  {
  }

  lemma WakersOnly(s: State, t: State, i: nat)
    requires i < |s.ts| && Wakes(s, t, i)
    ensures s.ts[i].pc.Wake? || s.ts[i].pc.SignalWake? || s.ts[i].pc.BroadcastWake?
  {
  }

  lemma {:induction false} RunInv(r: seq<State>, k: nat)
    requires Run(r) && k < |r|
    ensures Inv(r[k])
  {
    hide Inv; hide Step;
    if k == 0 {
      InitInv(r[0]);
    } else {
      RunInv(r, k - 1);
      assert Step(r[k - 1], r[k - 1 + 1]);
      StepInv(r[k - 1], r[k]);
    }
  }

  // ---- what calls do and return ----

  predicate Locking(op: Op) { op.TryLock? || op.Lock? || op.TimedLock? }

  predicate CondWaits(op: Op) { op.CondWait? || op.CondTimed? }

  /** The call a thread locks for. */
  predicate Fits(op: Op, how: How) {
    match how
    case Try => op == TryLock
    case Block => op == Lock
    case Timed => op == TimedLock
    case Back(_) => CondWaits(op)
  }

  predicate FitsWhy(op: Op, why: Why) { if why.Into? then CondWaits(op) else op == Unlock }

  /** What a call has done when it returns. */
  predicate Done(kind: Kind, th: Thread) {
    match th.op
    case NoCall => th.depth == 0
    case Unlock =>
        if th.ret == OK then th.was >= 1 && th.depth == th.was - 1 else th.ret == EPERM && th.depth == th.was == 0
    case Signal => th.ret == OK && th.depth == th.was
    case Broadcast => th.ret == OK && th.depth == th.was
    case CondWait => th.depth == th.was && if th.ret == OK then th.was >= 1 else th.ret == EPERM && th.was == 0
    case CondTimed =>
      th.depth == th.was && if th.ret == OK || th.ret == ETIMEDOUT then th.was >= 1
          else th.ret == EINVAL || (th.ret == EPERM && th.was == 0)
    case _ =>
      match th.ret
      case OK => th.depth == th.was + 1 && (th.was == 0 || kind == Recursive)
      case EBUSY => th.op == TryLock && th.depth == th.was
      case EDEADLK => kind == ErrorCheck && th.depth == th.was == 1
      case EAGAIN => kind == Recursive && th.depth == th.was == INT_MAX
      case EINVAL => th.op == TimedLock && th.depth == th.was
      case ETIMEDOUT => th.op == TimedLock && th.depth == th.was
      case EPERM => false
  }

  /** What it has done so far. */
  predicate CallPart(kind: Kind, th: Thread) {
    th.was >= 0 &&
    match th.pc
    case Ready => Done(kind, th)
    case ReadOwner(how) => Doing(th, how)
    case Recur => Locking(th.op) && th.depth == th.was
    case Fast(how) => Doing(th, how)
    case Exchange(how) => Doing(th, how) && how != Try
    case Wait(how) => Doing(th, how) && how != Try
    case Asleep(how) => Doing(th, how) && how != Try
    case SetOwner(how) => Taking(th, how)
    case SetCount(how) => Taking(th, how)
    case Restore(_) => CondWaits(th.op) && Slept(th)
    case CheckLock(why) => FitsWhy(th.op, why) && (why.Plain? ==> th.depth == th.was)
    case CheckOwner(why) => FitsWhy(th.op, why) && (why.Plain? ==> th.depth == th.was)
    case Decrement(why) => FitsWhy(th.op, why) && (why.Plain? ==> th.depth == th.was)
    case ClearOwner(why) => FitsWhy(th.op, why) && (why.Plain? ==> th.was == 1)
    case ClearCount(why) => FitsWhy(th.op, why) && (why.Plain? ==> th.was == 1)
    case Release(why) => FitsWhy(th.op, why) && (why.Plain? ==> th.was == 1)
    case Wake(why) => FitsWhy(th.op, why) && (why.Plain? ==> th.was == 1 && th.depth == 0)
    case CondOwner => CondWaits(th.op) && th.depth == th.was
    case CondSeq => CondWaits(th.op)
    case CondCount(_) => CondWaits(th.op)
    case CondSleep(_, _) => CondWaits(th.op)
    case CondAsleep(_, _) => CondWaits(th.op)
    case SignalInc => th.op == Signal && th.depth == th.was
    case SignalWake => th.op == Signal && th.depth == th.was
    case BroadcastInc => th.op == Broadcast && th.depth == th.was
    case BroadcastWake(_) => th.op == Broadcast && th.depth == th.was
  }

  predicate Slept(th: Thread) { th.ret == OK || (th.op == CondTimed && th.ret == ETIMEDOUT) }

  predicate Doing(th: Thread, how: How) {
    Fits(th.op, how) && if how.Back? then Slept(th) else th.depth == th.was
  }

  predicate Taking(th: Thread, how: How) { Fits(th.op, how) && if how.Back? then Slept(th) else th.was == 0 }

  predicate AllCalls(s: State) { forall i: nat | i < |s.ts| :: CallPart(s.kind, s.ts[i]) }

  lemma BeginsCalls(s: State, t: State, i: nat)
    requires i < |s.ts| && s.ts[i].depth >= 0 && s.ts[i].pc.Ready? && Begins(s, t, i)
    ensures i < |t.ts| && CallPart(t.kind, t.ts[i])
  {
    hide Starts; hide CallPart;
    var u :| Starts(s.kind, s.ts[i], u) && t == Put(s, i, u);
    StartsCall(s.kind, s.ts[i], u);
  }

  lemma StartsCall(kind: Kind, th: Thread, u: Thread)
    requires th.depth >= 0 && Starts(kind, th, u)
    ensures CallPart(kind, u)
  {
  }

  lemma DepthAtLeastZero(s: State, i: nat)
    requires i < |s.ts| && Local(s, i) && s.ts[i].pc.Ready?
    ensures s.ts[i].depth >= 0
  {
    hide HoldPart; hide SeqPart;
  }

  lemma LocksCalls(s: State, t: State, i: nat)
    requires Words(s) && i < |s.ts| && Local(s, i) && CallPart(s.kind, s.ts[i]) && Locks(s, t, i)
    ensures i < |t.ts| && CallPart(t.kind, t.ts[i])
  {
    hide Words; hide SeqPart;
    if s.ts[i].holds { HeldWord(s, i); }
  }

  lemma UnlocksCalls(s: State, t: State, i: nat)
    requires Words(s) && i < |s.ts| && Local(s, i) && CallPart(s.kind, s.ts[i]) && Unlocks(s, t, i)
    ensures i < |t.ts| && CallPart(t.kind, t.ts[i])
  {
    hide Words; hide SeqPart;
    if s.ts[i].holds { HeldWord(s, i); }
  }

  lemma CondsCalls(s: State, t: State, i: nat)
    requires Words(s) && i < |s.ts| && Local(s, i) && CallPart(s.kind, s.ts[i]) && Conds(s, t, i)
    ensures i < |t.ts| && CallPart(t.kind, t.ts[i])
  {
    hide Words; hide Saved; hide Waiting;
  }

  lemma WakesCalls(s: State, t: State, i: nat, j: nat)
    requires i < |s.ts| && j < |s.ts| && CallPart(s.kind, s.ts[i]) && CallPart(s.kind, s.ts[j]) && Wakes(s, t, i)
    ensures j < |t.ts| && CallPart(t.kind, t.ts[j])
  {
    hide CallPart; hide Doing; hide Fits;
    var th := s.ts[i];
    WakerDone(s.kind, th); SleeperGoesOn(s.kind, s.ts[j]);
    if th.pc.Wake? && exists k: nat :: k < |s.ts| && s.ts[k].pc.Asleep? {
      var k: nat :| k < |s.ts| && s.ts[k].pc.Asleep?
          && t == Goes(Put(s, i, After(th, th.pc.why, OK)), k, Exchange(s.ts[k].pc.how));
    } else if th.pc.SignalWake? && exists k: nat :: k < |s.ts| && s.ts[k].pc.CondAsleep? {
      var k: nat :| k < |s.ts| && s.ts[k].pc.CondAsleep? && t == Put(Returns(s, i, OK), k, Rises(s.ts[k], OK));
    }
  }

  lemma WakerDone(kind: Kind, th: Thread)
    requires CallPart(kind, th)
    ensures th.pc.Wake? ==> CallPart(kind, After(th, th.pc.why, OK))
    ensures th.pc.SignalWake? || th.pc.BroadcastWake? ==> CallPart(kind, th.(pc := Ready, ret := OK))
  {
  }

  lemma SleeperGoesOn(kind: Kind, th: Thread)
    requires CallPart(kind, th)
    ensures th.pc.Asleep? ==> CallPart(kind, th.(pc := Exchange(th.pc.how)))
    ensures th.pc.CondAsleep? ==> CallPart(kind, Rises(th, OK))
  {
  }

  lemma StepCalls(s: State, t: State)
    requires Inv(s) && AllCalls(s) && Step(s, t)
    ensures AllCalls(t)
  {
    hide Words; hide Local; hide CallPart; hide Begins; hide Locks; hide Unlocks; hide Conds; hide Wakes;
    var i: nat :| Acts(s, t, i);
    assert Local(s, i) && CallPart(s.kind, s.ts[i]);
    if Simple(s, t, i) {
      SimpleMoves(s, t, i);
      if s.ts[i].pc.Ready? && Begins(s, t, i) { DepthAtLeastZero(s, i); BeginsCalls(s, t, i); }
      else if Locks(s, t, i) { LocksCalls(s, t, i); }
      else if Unlocks(s, t, i) { UnlocksCalls(s, t, i); }
      else { CondsCalls(s, t, i); }
    } else {
      WakersKeep(s, t, i);
      forall j: nat | j < |t.ts| ensures CallPart(t.kind, t.ts[j]) { WakesCalls(s, t, i, j); }
    }
  }

  lemma WakersKeep(s: State, t: State, i: nat)
    requires i < |s.ts| && Wakes(s, t, i)
    ensures |t.ts| == |s.ts| && t.kind == s.kind
  {
  }

  lemma {:induction false} RunCalls(r: seq<State>, k: nat)
    requires Run(r) && k < |r|
    ensures Inv(r[k]) && AllCalls(r[k])
  {
    hide Inv; hide Step; hide AllCalls;
    RunInv(r, k);
    if k == 0 {
      InitCalls(r[0]);
    } else {
      RunCalls(r, k - 1);
      assert Step(r[k - 1], r[k - 1 + 1]);
      StepCalls(r[k - 1], r[k]);
    }
  }

  lemma InitCalls(s: State)
    requires Init(s)
    ensures AllCalls(s)
  {
  }

  /** What every call of every thread has done when it has returned: a lock that succeeded adds one to the depth,
      an unlock that succeeded takes one off, a wait gives back what it took; a call that failed did nothing, and
      failed for the reason it gives. */
  lemma CallsDo(r: seq<State>, k: nat, i: nat)
    requires Run(r) && k < |r| && i < |r[k].ts| && r[k].ts[i].pc.Ready?
    ensures var th, kind := r[k].ts[i], r[k].kind;
            && (Locking(th.op) ==> if th.ret == OK then th.holds && th.depth == th.was + 1 else th.depth == th.was)
            && (Locking(th.op) && th.was > 0 ==>
                (th.ret == OK ==> kind == Recursive) && (kind == ErrorCheck && th.op == Lock ==> th.ret == EDEADLK)
                && (kind == Recursive && th.op == Lock && th.was < INT_MAX ==> th.ret == OK))
            && (Locking(th.op) && th.was == 0 ==>
                th.ret == OK || th.ret == EBUSY || th.ret == EINVAL || th.ret == ETIMEDOUT)
            && (th.op == Lock && th.was == 0 ==> th.ret == OK)
            && (th.op == Unlock ==> if th.was > 0 then th.ret == OK && th.depth == th.was - 1
                else th.ret == EPERM && th.depth == 0)
            && (CondWaits(th.op) ==> th.depth == th.was && (th.ret == OK || th.ret == ETIMEDOUT ==> th.holds))
            && (th.op == CondWait ==> th.ret == if th.was > 0 then OK else EPERM)
            && (th.op == Signal || th.op == Broadcast ==> th.ret == OK && th.depth == th.was)
  {
    RunCalls(r, k);
    assert Local(r[k], i) && CallPart(r[k].kind, r[k].ts[i]);
  }

  /** A trylock never sleeps; and on a mutex that knows its owner, neither does the owner. */
  lemma NeverSleep(r: seq<State>, k: nat, i: nat)
    requires Run(r) && k < |r| && i < |r[k].ts|
    requires r[k].ts[i].op == TryLock || (r[k].kind != Normal && r[k].ts[i].holds)
    ensures !r[k].ts[i].pc.Asleep? && !r[k].ts[i].pc.Wait? && !r[k].ts[i].pc.Exchange?
  {
    RunCalls(r, k);
    assert Local(r[k], i) && CallPart(r[k].kind, r[k].ts[i]);
  }

  /** EBUSY is said of a mutex that is locked at that moment, and a time-out only of a thread that slept. */
  lemma FailsForReason(r: seq<State>, k: nat, i: nat)
    requires Run(r) && k + 1 < |r| && i < |r[k].ts| && i < |r[k + 1].ts|
    requires !r[k].ts[i].pc.Ready? && r[k + 1].ts[i].pc.Ready?
    ensures r[k + 1].ts[i].ret == EBUSY ==> r[k].lock != 0
    ensures r[k + 1].ts[i].ret == ETIMEDOUT && r[k].ts[i].op == TimedLock ==> r[k].ts[i].pc.Asleep?
  {
    RunCalls(r, k);
    assert CallPart(r[k].kind, r[k].ts[i]);
    assert Step(r[k], r[k + 1]);
    ReturnStep(r[k], r[k + 1], i);
  }

  lemma ReturnStep(s: State, t: State, i: nat)
    requires Step(s, t) && i < |s.ts| && i < |t.ts| && !s.ts[i].pc.Ready? && t.ts[i].pc.Ready?
    requires CallPart(s.kind, s.ts[i])
    ensures t.ts[i].ret == EBUSY ==> s.lock != 0
    ensures t.ts[i].ret == ETIMEDOUT && s.ts[i].op == TimedLock ==> s.ts[i].pc.Asleep?
  {
    hide Begins; hide Locks; hide Unlocks; hide Conds; hide Wakes; hide CallPart;
    var j: nat :| Acts(s, t, j);
    if Simple(s, t, j) {
      SimpleMoves(s, t, j);
      if j == i { OwnReturn(s, t, i); }
    } else {
      WakersOnly(s, t, j);
      WakesReady(s, t, j, i);
    }
  }

  lemma OwnReturn(s: State, t: State, i: nat)
    requires i < |s.ts| && i < |t.ts| && !s.ts[i].pc.Ready? && t.ts[i].pc.Ready? && Simple(s, t, i)
    requires CallPart(s.kind, s.ts[i])
    ensures t.ts[i].ret == EBUSY ==> s.lock != 0
    ensures t.ts[i].ret == ETIMEDOUT && s.ts[i].op == TimedLock ==> s.ts[i].pc.Asleep?
  {
    hide Begins;
  }

  /** A wake-up makes nobody ready but the waker. */
  lemma WakesReady(s: State, t: State, j: nat, i: nat)
    requires j < |s.ts| && i < |s.ts| && Wakes(s, t, j) && i < |t.ts|
    ensures t.ts[i].pc.Ready? && !s.ts[i].pc.Ready? ==> i == j && t.ts[i].ret == OK
  {
  }

  // ---- signals ----

  predicate WaitsAsleep(th: Thread) { th.pc.CondAsleep? }

  /** A signal wakes exactly one of the threads that sleep, if there are any, and that thread returns success. */
  lemma SignalWakesOne(r: seq<State>, k: nat, i: nat) returns (j: nat)
    requires Run(r) && k + 1 < |r| && |r[k + 1].ts| == |r[k].ts| && i < |r[k].ts|
    requires r[k].ts[i].pc.SignalWake? && r[k + 1].ts[i].pc.Ready? && Count(r[k].ts, WaitsAsleep) > 0
    ensures j < |r[k].ts| && r[k].ts[j].pc.CondAsleep? && r[k + 1].ts[j].pc.ReadOwner? && r[k + 1].ts[j].ret == OK
    ensures forall n: nat | n < |r[k].ts| && n != i && n != j :: r[k + 1].ts[n] == r[k].ts[n]
    ensures Count(r[k + 1].ts, WaitsAsleep) == Count(r[k].ts, WaitsAsleep) - 1
  {
    hide Wakes; hide Begins; hide Locks; hide Unlocks; hide Conds; hide Count; hide Init;
    assert Step(r[k], r[k + 1]);
    var a: nat :| Acts(r[k], r[k + 1], a);
    SignalActs(r[k], r[k + 1], a, i);
    j := SignalPicks(r[k], r[k + 1], i);
  }

  lemma SignalPicks(s: State, t: State, i: nat) returns (j: nat)
    requires i < |s.ts| == |t.ts| && s.ts[i].pc.SignalWake? && Wakes(s, t, i) && Count(s.ts, WaitsAsleep) > 0
    ensures j < |s.ts| && s.ts[j].pc.CondAsleep? && t.ts[j].pc.ReadOwner? && t.ts[j].ret == OK
    ensures forall n: nat | n < |s.ts| && n != i && n != j :: t.ts[n] == s.ts[n]
    ensures Count(t.ts, WaitsAsleep) == Count(s.ts, WaitsAsleep) - 1
  {
    hide Count;
    var x := CountSome(s.ts, WaitsAsleep);
    j :| 0 <= j < |s.ts| && s.ts[j].pc.CondAsleep? && t == Put(Returns(s, i, OK), j, Rises(s.ts[j], OK));
    CountSet(s.ts, i, t.ts[i], WaitsAsleep);
    CountSet(s.ts[i := t.ts[i]], j, t.ts[j], WaitsAsleep);
  }

  /** Only a signal's own step ends it. */
  lemma SignalActs(s: State, t: State, a: nat, i: nat)
    requires Acts(s, t, a) && i < |s.ts| == |t.ts| && s.ts[i].pc.SignalWake? && t.ts[i].pc.Ready?
    ensures a == i && Wakes(s, t, i)
  {
    if Simple(s, t, a) {
      SimpleMoves(s, t, a);
    } else {
      WakersOnly(s, t, a);
      WakesReady(s, t, a, i);
    }
  }

  lemma SeqGrows(s: State, t: State)
    requires Step(s, t)
    ensures t.seq_ >= s.seq_
  {
  }

  lemma {:induction false} SeqMonotone(r: seq<State>, a: nat, b: nat)
    requires Run(r) && a <= b < |r|
    ensures r[a].seq_ <= r[b].seq_
    decreases b
  {
    hide Step; hide Init;
    if a < b {
      SeqMonotone(r, a, b - 1);
      assert Step(r[b - 1], r[b - 1 + 1]);
      SeqGrows(r[b - 1], r[b]);
    }
  }

  /** A waiter that has read the sequence number before a signal or a broadcast counts it up does not go to sleep
      after that. */
  lemma SignalNotMissed(r: seq<State>, a: nat, b: nat, c: nat, i: nat, n: nat)
    requires Run(r) && a < b < c && c + 1 < |r|
    requires i < |r[a].ts| && i < |r[a + 1].ts| && i < |r[c].ts| && i < |r[c + 1].ts|
    requires r[a].ts[i].pc.CondSeq? && r[a + 1].ts[i].pc.CondCount?
    requires n < |r[b].ts| && n < |r[b + 1].ts| && r[b].ts[n].pc.SignalInc? && r[b + 1].ts[n].pc.SignalWake?
    requires r[c].ts[i].pc.CondSleep? && r[c].ts[i].pc.q == r[a + 1].ts[i].pc.q
    ensures !r[c + 1].ts[i].pc.CondAsleep?
  {
    hide Step;
    assert Step(r[a], r[a + 1]); assert Step(r[b], r[b + 1]); assert Step(r[c], r[c + 1]);
    ReadsSeq(r[a], r[a + 1], i);
    CountsUp(r[b], r[b + 1], n);
    SeqMonotone(r, a, b); SeqMonotone(r, b + 1, c);
    SleepsOnCurrent(r[c], r[c + 1], i);
  }

  lemma ReadsSeq(s: State, t: State, i: nat)
    requires Step(s, t) && i < |s.ts| && i < |t.ts| && s.ts[i].pc.CondSeq? && t.ts[i].pc.CondCount?
    ensures t.ts[i].pc.q == s.seq_
  {
    var j: nat :| Acts(s, t, j);
    if Simple(s, t, j) { SimpleMoves(s, t, j); } else { WakersOnly(s, t, j); }
  }

  lemma CountsUp(s: State, t: State, i: nat)
    requires Step(s, t) && i < |s.ts| && i < |t.ts| && s.ts[i].pc.SignalInc? && t.ts[i].pc.SignalWake?
    ensures t.seq_ == s.seq_ + 1
  {
    var j: nat :| Acts(s, t, j);
    if Simple(s, t, j) { SimpleMoves(s, t, j); } else { WakersOnly(s, t, j); }
  }

  lemma SleepsOnCurrent(s: State, t: State, i: nat)
    requires Step(s, t) && i < |s.ts| && i < |t.ts| && s.ts[i].pc.CondSleep? && s.ts[i].pc.q < s.seq_
    ensures !t.ts[i].pc.CondAsleep?
  {
    var j: nat :| Acts(s, t, j);
    if Simple(s, t, j) { SimpleMoves(s, t, j); } else { WakersOnly(s, t, j); }
  }

  // ---- what it means ----

  /** At most one thread has the mutex. */
  lemma MutualExclusion(r: seq<State>, k: nat, i: nat, j: nat)
    requires Run(r) && k < |r| && i < |r[k].ts| && j < |r[k].ts| && r[k].ts[i].holds && r[k].ts[j].holds
    ensures i == j
  {
    RunInv(r, k);
    OneHolder(r[k], i, j);
  }

  /** A nonzero owner field names the holder. */
  lemma OwnerIsHolder(r: seq<State>, k: nat, i: nat)
    requires Run(r) && k < |r| && i < |r[k].ts| && r[k].owner == Tid(i)
    ensures r[k].ts[i].holds && r[k].lock != 0
  {
    RunInv(r, k);
    assert Local(r[k], i);
    HeldWord(r[k], i);
  }

  /** Between operations, the count field is how often the holder has locked the mutex; more than
      once only if it is recursive. */
  lemma CountIsDepth(r: seq<State>, k: nat, i: nat)
    requires Run(r) && k < |r| && i < |r[k].ts| && r[k].ts[i].pc.Ready?
    ensures r[k].ts[i].holds <==> r[k].ts[i].depth >= 1
    ensures r[k].ts[i].holds ==> r[k].owner == Tid(i) && r[k].count == r[k].ts[i].depth
    ensures r[k].kind != Recursive ==> r[k].ts[i].depth <= 1
  {
    RunInv(r, k);
    assert Local(r[k], i);
  }

  /** No lost wake-up: when the mutex is free and no thread is in the middle of an operation on it,
      nobody sleeps on it. */
  lemma NoLostWakeup(r: seq<State>, k: nat, i: nat)
    requires Run(r) && k < |r| && i < |r[k].ts| && r[k].lock == 0
    requires forall j | 0 <= j < |r[k].ts| :: !Looking(r[k].ts[j]) && !WillWake(r[k].ts[j])
    ensures !r[k].ts[i].pc.Asleep?
  {
    RunInv(r, k);
    CountNone(r[k].ts, WillWake); CountNone(r[k].ts, Looking);
    if r[k].ts[i].pc.Asleep? { CountHas(r[k].ts, i, Sleeps); }
  }

  /** A condition wait lets go of the mutex entirely, however often it was locked: while the thread
      waits, it holds nothing, and the next thing it restores is the count it came with. */
  lemma WaitReleases(r: seq<State>, k: nat, i: nat)
    requires Run(r) && k < |r| && i < |r[k].ts|
    requires r[k].ts[i].pc.CondSleep? || r[k].ts[i].pc.CondAsleep?
    ensures !r[k].ts[i].holds && r[k].ts[i].depth == 0 && r[k].ts[i].pc.saved == r[k].ts[i].was >= 1
  {
    RunInv(r, k);
    assert Local(r[k], i);
  }

  /** The last step of a condition wait: the thread has the mutex as often as when it called. */
  lemma WaitRestores(r: seq<State>, k: nat, i: nat)
    requires Run(r) && k + 1 < |r| && i < |r[k].ts| && i < |r[k + 1].ts|
    requires r[k].ts[i].pc.Restore? && r[k + 1].ts[i].pc.Ready?
    ensures r[k + 1].ts[i].holds && r[k + 1].ts[i].depth == r[k].ts[i].was == r[k + 1].count
  {
    RunInv(r, k);
    RunInv(r, k + 1);
    assert Local(r[k], i) && Local(r[k + 1], i);
    assert Step(r[k], r[k + 1]);
    RestoreStep(r[k], r[k + 1], i);
  }

  lemma RestoreStep(s: State, t: State, i: nat)
    requires Inv(s) && Step(s, t) && i < |s.ts| && i < |t.ts| && s.ts[i].pc.Restore? && t.ts[i].pc.Ready?
    ensures t.ts[i] == s.ts[i].(pc := Ready, depth := s.ts[i].pc.saved)
  {
    hide Words; hide Local; hide Saved; hide Waiting;
    var j: nat :| Acts(s, t, j);
    if Simple(s, t, j) {
      SimpleMoves(s, t, j);
      if j != i { assert false; }
    } else {
      WakersOnly(s, t, j);
      assert false;
    }
  }

  /** A broadcast releases every waiter that read the sequence number before it: once it is done,
      none of them sleeps, and none will go to sleep. */
  lemma BroadcastReleases(r: seq<State>, k: nat, i: nat, q: int)
    requires Run(r) && k < |r| && i < |r[k].ts| && q < r[k].done
    requires (r[k].ts[i].pc.CondSleep? || r[k].ts[i].pc.CondAsleep?) && r[k].ts[i].pc.q == q
    ensures !r[k].ts[i].pc.CondAsleep? && r[k].seq_ != q
  {
    RunInv(r, k);
    assert Local(r[k], i);
  }
}
