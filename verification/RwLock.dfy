/** Reader-writer locks (src/pthread_sync.c) as a transition system: any number of threads, one
    atomic operation a step, sequence numbers unbounded. */
module RwLock {
  import opened Basics
  import opened Threads

  /** Where a thread is; w says whether it wants to write, q is the sequence number it read (none
      in the try calls), x the value of the lock word it saw. */
  datatype PC =
    | Ready
    | Dead | DeadLock
    | SeqLoad(w: bool) | Load(w: bool, q: Option<int>) | Try(w: bool, q: Option<int>, x: int) | SetWriter
    | AddWait(w: bool, q: Option<int>) | FutexWait(w: bool, q: Option<int>) | Asleep(w: bool,
        q: Option<int>) | SubWait(w: bool)
    | Unlock | ReadWriter | ClearWriter | StoreZero | SubReader | SeqInc | LoadWait | WakeAll

  datatype Op = NoCall | TryRead | TryWrite | Read | Write | Release

  /** What a call returns. */
  datatype Ret = OK | EBUSY | EAGAIN | EDEADLK | EPERM

  /** A thread and what it holds: any number of read locks, or the write lock; its last call, what it held when
      it made that call, and what the call returned. */
  datatype Thread = Thread(pc: PC, shares: nat, owns: bool, op: Op, shared: nat, owned: bool, ret: Ret)

  /** The lock's words: readers or -1, the writer's thread number or 0, the sequence number, and
      the number of waiters. */
  datatype State = State(lock: int, writer: int, seq_: int, waiters: int, ts: seq<Thread>)

  /** Thread i is known to the lock by a number other than zero. */
  function Tid(i: nat): int { i + 1 }

  predicate Busy(w: bool, x: int) { if w then x != 0 else x < 0 }

  // ---- steps ----

  function Goes(s: State, i: nat, pc: PC): State
    requires i < |s.ts|
  {
    s.(ts := s.ts[i := s.ts[i].(pc := pc)])
  }

  function Put(s: State, i: nat, th: Thread): State
    requires i < |s.ts|
  {
    s.(ts := s.ts[i := th])
  }

  /** A call, with the first place of it. */
  function Calls(s: State, i: nat, op: Op, pc: PC): State
    requires i < |s.ts|
  {
    var th := s.ts[i];
    Put(s, i, th.(pc := pc, op := op, shared := th.shares, owned := th.owns))
  }

  function Returns(s: State, i: nat, ret: Ret): State
    requires i < |s.ts|
  {
    Put(s, i, s.ts[i].(pc := Ready, ret := ret))
  }

  /** What `rw_try` does with the value x it saw. */
  ghost predicate Tries(s: State, t: State, i: nat, w: bool, q: Option<int>, x: int)
    requires i < |s.ts|
  {
    if (if w then x != 0 else x < 0 || x == INT_MAX) then
      // EAGAIN at the limit, EBUSY otherwise; the blocking calls wait on EBUSY
      t == if x == INT_MAX then Returns(s, i, EAGAIN) else if q.None? then Returns(s, i, EBUSY)
          else Goes(s, i, AddWait(w, q))
    else
      // a weak compare-and-swap: it may fail even when the word is x
      || (s.lock == x && w && t == Put(s, i, s.ts[i].(pc := SetWriter, owns := true)).(lock := -1))
      || (s.lock == x && !w
          && t == Put(s, i, s.ts[i].(pc := Ready, ret := OK, shares := s.ts[i].shares + 1)).(lock := x + 1))
      || t == Goes(s, i, Try(w, q, s.lock))
  }

  /** Starting an operation. Unlocking is for threads that hold the lock. */
  ghost predicate Begins(s: State, t: State, i: nat)
    requires i < |s.ts|
  {
    || t == Calls(s, i, Read, SeqLoad(false)) || t == Calls(s, i, Write, Dead)
    || t == Calls(s, i, TryRead, Load(false, None)) || t == Calls(s, i, TryWrite, Load(true, None))
    || ((s.ts[i].shares > 0 || s.ts[i].owns) && t == Calls(s, i, Release, Unlock))
  }

  ghost predicate Next(s: State, t: State, i: nat)
    requires i < |s.ts|
  {
    var th := s.ts[i];
    match th.pc
    case Ready => Begins(s, t, i)
    case Dead => t == Goes(s, i, if s.writer == Tid(i) then DeadLock else SeqLoad(true))
    case DeadLock => t == if s.lock < 0 then Returns(s, i, EDEADLK) else Goes(s, i, SeqLoad(true))
    case SeqLoad(w) => t == Goes(s, i, Load(w, Some(s.seq_)))
    case Load(w, q) => t == Goes(s, i, Try(w, q, s.lock))
    case Try(w, q, x) => Tries(s, t, i, w, q, x)
    case SetWriter => t == Returns(s, i, OK).(writer := Tid(i))
    case AddWait(w, q) => t == Goes(s, i, FutexWait(w, q)).(waiters := s.waiters + 1)
    case FutexWait(w, q) => t == Goes(s, i, if q == Some(s.seq_) then Asleep(w, q) else SubWait(w))
    case Asleep(w, q) => t == Goes(s, i, SubWait(w)) // a signal
    case SubWait(w) => t == Goes(s, i, SeqLoad(w)).(waiters := s.waiters - 1)
    case Unlock =>
        t == if s.lock == 0 then Returns(s, i, EPERM) else Goes(s, i, if s.lock < 0 then ReadWriter else SubReader)
    case ReadWriter => t == if s.writer != Tid(i) then Returns(s, i, EPERM) else Goes(s, i, ClearWriter)
    case ClearWriter => t == Goes(s, i, StoreZero).(writer := 0)
    case StoreZero => t == Put(s, i, th.(pc := SeqInc, owns := false)).(lock := 0)
    case SubReader =>
      th.shares > 0 &&
      var next := th.(shares := th.shares - 1);
      t == Put(s, i, if s.lock - 1 != 0 then next.(pc := Ready, ret := OK)
          else next.(pc := SeqInc)).(lock := s.lock - 1)
    case SeqInc => t == Goes(s, i, LoadWait).(seq_ := s.seq_ + 1)
    case LoadWait => t == if s.waiters != 0 then Goes(s, i, WakeAll) else Returns(s, i, OK)
    case WakeAll => t == s.(ts := Woken(s.ts)[i := th.(pc := Ready, ret := OK)])
  }

  function WokenOne(th: Thread): Thread { if th.pc.Asleep? then th.(pc := SubWait(th.pc.w)) else th }

  function Woken(ts: seq<Thread>): (r: seq<Thread>)
    ensures |r| == |ts| && forall i | 0 <= i < |ts| :: r[i] == WokenOne(ts[i])
  {
    seq(|ts|, i requires 0 <= i < |ts| => WokenOne(ts[i]))
  }

  ghost predicate Step(s: State, t: State) { exists i: nat :: i < |s.ts| && Next(s, t, i) }

  const START := Thread(Ready, 0, false, NoCall, 0, false, OK)

  predicate Init(s: State) {
    s.lock == 0 && s.writer == 0 && s.waiters == 0 && forall i | 0 <= i < |s.ts| :: s.ts[i] == START
  }

  ghost predicate Run(r: seq<State>) {
    r != [] && Init(r[0]) && forall k: nat | k + 1 < |r| :: Step(r[k], r[k + 1])
  }

  // ---- the invariant ----

  function Reads(th: Thread): nat { th.shares }

  predicate Writes(th: Thread) { th.owns }

  predicate Counted(th: Thread) { th.pc.FutexWait? || th.pc.Asleep? || th.pc.SubWait? }

  /** Has released the lock and not yet counted the sequence number up. */
  predicate Released(th: Thread) { th.pc.SeqInc? }

  /** Has counted it up and not yet woken the sleepers. */
  predicate WillWake(th: Thread) { th.pc.LoadWait? || th.pc.WakeAll? }

  /** The lock word is the holders. */
  predicate Words(s: State) {
    && s.waiters == Count(s.ts, Counted)
    && ((s.lock == -1 && Count(s.ts, Writes) == 1 && Sum(s.ts, Reads) == 0)
        || (0 <= s.lock <= INT_MAX && Count(s.ts, Writes) == 0 && s.lock == Sum(s.ts, Reads)))
  }

  /** What a thread's place says about what it holds, and about the writer field. */
  predicate Local(s: State, i: nat)
    requires i < |s.ts|
  {
    var th := s.ts[i];
    && (th.pc.SetWriter? || th.pc.ReadWriter? || th.pc.ClearWriter? || th.pc.StoreZero? || th.pc.DeadLock? ==> th.owns)
    && (th.pc.Unlock? ==> th.shares > 0 || th.owns) && (th.pc.SubReader? ==> th.shares > 0)
    && (th.owns && !th.pc.SetWriter? && !th.pc.StoreZero? ==> s.writer == Tid(i))
    && (s.writer == Tid(i) ==> th.owns && !th.pc.SetWriter? && !th.pc.StoreZero?)
  }

  /** A waiter's sequence number: while it is current, what the waiter waits for is still held, or
      its release is still to be announced; once it is old, a wake-up is to come. */
  predicate Waits(s: State, i: nat)
    requires i < |s.ts|
  {
    var pc := s.ts[i].pc;
    && ((pc.Load? || pc.Try?) && pc.q.Some? ==> pc.q.value <= s.seq_)
    && (pc.Try? && pc.q == Some(s.seq_) && Busy(pc.w, pc.x) ==> Busy(pc.w, s.lock) || Count(s.ts, Released) > 0)
    && (pc.AddWait? || pc.FutexWait? || pc.Asleep? ==> pc.q.Some? && pc.q.value <= s.seq_)
    && ((pc.AddWait? || pc.FutexWait? || pc.Asleep?) && pc.q == Some(s.seq_) ==>
        Busy(pc.w, s.lock) || Count(s.ts, Released) > 0)
    && (pc.Asleep? && pc.q != Some(s.seq_) ==> Count(s.ts, WillWake) > 0)
  }

  predicate Locals(s: State) { forall i: nat | i < |s.ts| :: Local(s, i) }

  predicate AllWait(s: State) { forall i: nat | i < |s.ts| :: Waits(s, i) }

  predicate Inv(s: State) { Words(s) && Locals(s) && AllWait(s) }

  lemma InitInv(s: State)
    requires Init(s)
    ensures Inv(s)
  {
    CountNone(s.ts, Counted); CountNone(s.ts, Writes); SumNone(s.ts, Reads);
  }

  lemma Moved(ts: seq<Thread>, i: nat, th: Thread)
    requires i < |ts|
    ensures Count(ts[i := th], Writes) + One(Writes(ts[i])) == Count(ts, Writes) + One(Writes(th))
    ensures Count(ts[i := th], Counted) + One(Counted(ts[i])) == Count(ts, Counted) + One(Counted(th))
    ensures Count(ts[i := th], Released) + One(Released(ts[i])) == Count(ts, Released) + One(Released(th))
    ensures Count(ts[i := th], WillWake) + One(WillWake(ts[i])) == Count(ts, WillWake) + One(WillWake(th))
    ensures Sum(ts[i := th], Reads) + ts[i].shares == Sum(ts, Reads) + th.shares
    ensures Writes(ts[i]) ==> Count(ts, Writes) > 0
    ensures Released(th) ==> Count(ts[i := th], Released) > 0
    ensures WillWake(th) ==> Count(ts[i := th], WillWake) > 0
    ensures Sum(ts, Reads) >= ts[i].shares
  {
    CountSet(ts, i, th, Writes); CountSet(ts, i, th, Counted); CountSet(ts, i, th, Released);
    CountSet(ts, i, th, WillWake);
    SumSet(ts, i, th, Reads); SumHas(ts, i, Reads);
    if Writes(ts[i]) { CountHas(ts, i, Writes); }
    if Released(th) { CountHas(ts[i := th], i, Released); }
    if WillWake(th) { CountHas(ts[i := th], i, WillWake); }
  }

  /** Only thread i moved. */
  predicate OnlyMoved(s: State, t: State, i: nat) { i < |s.ts| == |t.ts| && t.ts == s.ts[i := t.ts[i]] }

  lemma NextMoves(s: State, t: State, i: nat)
    requires i < |s.ts| && Next(s, t, i) && !s.ts[i].pc.WakeAll?
    ensures OnlyMoved(s, t, i)
  {
  }

  lemma WordsKept(s: State, t: State, i: nat)
    requires Words(s) && i < |s.ts| && Local(s, i) && Next(s, t, i) && !s.ts[i].pc.WakeAll?
    ensures Words(t)
  {
    hide Words; hide Next; hide Local;
    if s.ts[i].pc.Try? { TryWords(s, t, i); } else { OtherWords(s, t, i); }
  }

  lemma TryWords(s: State, t: State, i: nat)
    requires Words(s) && i < |s.ts| && Next(s, t, i) && s.ts[i].pc.Try?
    ensures Words(t)
  {
    hide Count; hide Sum;
    NextMoves(s, t, i);
    Moved(s.ts, i, t.ts[i]);
  }

  lemma OtherWords(s: State, t: State, i: nat)
    requires Words(s) && i < |s.ts| && Local(s, i) && Next(s, t, i) && !s.ts[i].pc.WakeAll? && !s.ts[i].pc.Try?
    ensures Words(t)
  {
    hide Count; hide Sum; hide Tries;
    NextMoves(s, t, i);
    Moved(s.ts, i, t.ts[i]);
  }

  /** Two threads do not both write. */
  lemma OneWriter(s: State, i: nat, j: nat)
    requires Words(s) && i < |s.ts| && j < |s.ts| && s.ts[i].owns && s.ts[j].owns
    ensures i == j && s.lock == -1
  {
    hide Sum;
    CountHas(s.ts, i, Writes);
    CountOne(s.ts, i, j, Writes);
  }

  lemma LocalKept(s: State, t: State, i: nat, j: nat)
    requires Words(s) && Locals(s) && i < |s.ts| && Next(s, t, i) && !s.ts[i].pc.WakeAll? && j < |s.ts|
    ensures j < |t.ts| && Local(t, j)
  {
    hide Count; hide Sum; hide Words;
    NextMoves(s, t, i);
    assert Local(s, i) && Local(s, j);
    if s.ts[i].owns && s.ts[j].owns { OneWriter(s, i, j); }
    HeldWord(s, i);
  }

  /** A holder sees the word that says so. */
  lemma HeldWord(s: State, i: nat)
    requires Words(s) && i < |s.ts|
    ensures s.ts[i].owns ==> s.lock == -1 && s.ts[i].shares == 0
    ensures s.ts[i].shares > 0 ==> s.lock > 0 && !s.ts[i].owns
    ensures s.lock >= 0 ==> forall j | 0 <= j < |s.ts| :: !s.ts[j].owns
  {
    SumHas(s.ts, i, Reads);
    if s.ts[i].owns { CountHas(s.ts, i, Writes); }
    if s.lock >= 0 {
      forall j | 0 <= j < |s.ts| ensures !s.ts[j].owns { if s.ts[j].owns { CountHas(s.ts, j, Writes); } }
    }
  }

  /** A release leaves its thread announcing it. */
  lemma ReleaseAnnounced(s: State, t: State, i: nat, w: bool)
    requires Words(s) && i < |s.ts| && Local(s, i) && Next(s, t, i) && !s.ts[i].pc.WakeAll? && !s.ts[i].pc.SeqInc?
    requires Busy(w, s.lock) || Count(s.ts, Released) > 0
    ensures Busy(w, t.lock) || Count(t.ts, Released) > 0
  {
    hide Count; hide Sum; hide Words;
    NextMoves(s, t, i);
    Moved(s.ts, i, t.ts[i]);
    HeldWord(s, i);
    LockRange(s);
  }

  lemma LockRange(s: State)
    requires Words(s)
    ensures s.lock >= -1
  {
  }

  /** Nobody sleeps uncounted. */
  lemma SleepersCounted(s: State, i: nat)
    requires Words(s) && i < |s.ts| && s.ts[i].pc.Asleep?
    ensures s.waiters > 0
  {
    CountHas(s.ts, i, Counted);
  }

  /** The other threads' waits. */
  lemma WaitsKept(s: State, t: State, i: nat, j: nat)
    requires Inv(s) && i < |s.ts| && Next(s, t, i) && !s.ts[i].pc.WakeAll? && j < |s.ts| && j != i
    ensures j < |t.ts| && Waits(t, j)
  {
    hide Count; hide Sum; hide Words; hide Tries; hide Begins;
    NextMoves(s, t, i);
    assert Local(s, i) && Waits(s, j);
    Moved(s.ts, i, t.ts[i]);
    SeqKept(s, t, i);
    var pc := s.ts[j].pc;
    if s.ts[i].pc.SeqInc? {
    } else if pc.Try? || pc.AddWait? || pc.FutexWait? || pc.Asleep? {
      if Busy(pc.w, s.lock) || Count(s.ts, Released) > 0 { ReleaseAnnounced(s, t, i, pc.w); }
      if pc.Asleep? { SleepersCounted(s, j); WakersKept(s, t, i); }
    }
  }

  lemma SeqKept(s: State, t: State, i: nat)
    requires i < |s.ts| && Next(s, t, i)
    ensures t.seq_ == s.seq_ + One(s.ts[i].pc.SeqInc?)
  {
  }

  lemma WakersKept(s: State, t: State, i: nat)
    requires i < |s.ts| && Next(s, t, i) && !s.ts[i].pc.WakeAll? && s.waiters > 0
    ensures Count(t.ts, WillWake) >= Count(s.ts, WillWake)
  {
    hide Count; hide Sum; hide Tries; hide Begins;
    NextMoves(s, t, i);
    Moved(s.ts, i, t.ts[i]);
    if s.ts[i].pc.Try? { TriesAway(s, t, i); } else if s.ts[i].pc.Ready? { BeginsAway(s, t, i); }
  }

  lemma TriesAway(s: State, t: State, i: nat)
    requires i < |s.ts| && s.ts[i].pc.Try? && Next(s, t, i)
    ensures i < |t.ts| && !WillWake(t.ts[i])
  {
  }

  lemma BeginsAway(s: State, t: State, i: nat)
    requires i < |s.ts| && s.ts[i].pc.Ready? && Next(s, t, i)
    ensures i < |t.ts| && !WillWake(t.ts[i])
  {
  }

  /** The moving thread's own wait. */
  lemma OwnWaitKept(s: State, t: State, i: nat)
    requires Inv(s) && i < |s.ts| && Next(s, t, i) && !s.ts[i].pc.WakeAll?
    ensures i < |t.ts| && Waits(t, i)
  {
    hide Words; hide Next; hide Waits; hide Locals;
    assert Waits(s, i);
    var pc := s.ts[i].pc;
    if pc.Try? { TryWaits(s, t, i); } else if pc.Ready? { BeginWaits(s, t, i); }
    else if pc.SeqLoad? || pc.Load? || pc.AddWait? || pc.FutexWait? { WaitsOn(s, t, i); }
    else { NoLongerWaits(s, t, i); }
  }

  lemma WaitsOn(s: State, t: State, i: nat)
    requires i < |s.ts| && Next(s, t, i) && Waits(s, i)
    requires var pc := s.ts[i].pc; pc.SeqLoad? || pc.Load? || pc.AddWait? || pc.FutexWait?
    ensures i < |t.ts| && Waits(t, i)
  {
    hide Count; hide Sum; hide Tries; hide Begins;
    NextMoves(s, t, i);
    Moved(s.ts, i, t.ts[i]);
  }

  lemma NoLongerWaits(s: State, t: State, i: nat)
    requires i < |s.ts| && Next(s, t, i) && !s.ts[i].pc.WakeAll?
    requires var pc := s.ts[i].pc;
             !pc.Try? && !pc.Ready? && !pc.SeqLoad? && !pc.Load? && !pc.AddWait? && !pc.FutexWait?
    ensures i < |t.ts| && Waits(t, i)
  {
    hide Count; hide Sum; hide Tries; hide Begins;
  }

  lemma TryWaits(s: State, t: State, i: nat)
    requires i < |s.ts| && Waits(s, i) && s.ts[i].pc.Try? && Next(s, t, i)
    ensures i < |t.ts| && Waits(t, i)
  {
    hide Count; hide Sum;
    NextMoves(s, t, i);
    Moved(s.ts, i, t.ts[i]);
  }

  lemma BeginWaits(s: State, t: State, i: nat)
    requires i < |s.ts| && s.ts[i].pc.Ready? && Next(s, t, i)
    ensures i < |t.ts| && Waits(t, i)
  {
  }

  // ---- waking everybody ----

  lemma WakeAllKept(s: State, t: State, i: nat)
    requires Inv(s) && i < |s.ts| && s.ts[i].pc.WakeAll? && Next(s, t, i)
    ensures Inv(t)
  {
    WokenCounts(s.ts);
    WakeAllWords(s, t, i);
    forall j: nat | j < |t.ts| ensures Local(t, j) { assert Local(s, j); }
    forall j: nat | j < |t.ts| ensures Waits(t, j) { WakeAllWaits(s, t, i, j); }
  }

  lemma WokenCounts(ts: seq<Thread>)
    ensures Count(Woken(ts), Writes) == Count(ts, Writes) && Count(Woken(ts), Counted) == Count(ts, Counted)
    ensures Count(Woken(ts), Released) == Count(ts, Released) && Sum(Woken(ts), Reads) == Sum(ts, Reads)
  {
    CountSame(Woken(ts), ts, Writes, Writes); CountSame(Woken(ts), ts, Counted, Counted);
    CountSame(Woken(ts), ts, Released, Released); SumSame(Woken(ts), ts, Reads);
  }

  lemma WakeAllWords(s: State, t: State, i: nat)
    requires Words(s) && i < |s.ts| && s.ts[i].pc.WakeAll? && Next(s, t, i)
    ensures Words(t) && Count(t.ts, Released) == Count(s.ts, Released)
  {
    hide Count; hide Sum;
    WokenCounts(s.ts);
    Moved(Woken(s.ts), i, s.ts[i].(pc := Ready, ret := OK));
  }

  lemma WakeAllWaits(s: State, t: State, i: nat, j: nat)
    requires Inv(s) && i < |s.ts| && s.ts[i].pc.WakeAll? && Next(s, t, i) && j < |t.ts|
    ensures Waits(t, j)
  {
    hide Count; hide Sum; hide Words;
    WakeAllWords(s, t, i);
    assert Waits(s, j);
  }

  lemma StepInv(s: State, t: State)
    requires Inv(s) && Step(s, t)
    ensures Inv(t)
  {
    hide Words; hide Local; hide Waits; hide Next;
    var i: nat :| i < |s.ts| && Next(s, t, i);
    if s.ts[i].pc.WakeAll? {
      WakeAllKept(s, t, i);
    } else {
      NextMoves(s, t, i);
      assert Local(s, i);
      WordsKept(s, t, i);
      forall j: nat | j < |t.ts| ensures Local(t, j) { LocalKept(s, t, i, j); }
      forall j: nat | j < |t.ts| ensures Waits(t, j) { if j == i { OwnWaitKept(s, t, i); }
          else { WaitsKept(s, t, i, j); } }
    }
  }

  lemma {:induction false} RunInv(r: seq<State>, k: nat)
    requires Run(r) && k < |r|
    ensures Inv(r[k])
  {
    hide Inv; hide Step;
    if k == 0 {
      InitInv(r[0]);
    } else {
      RunInv(r, k - 1);
      assert Step(r[k - 1], r[k - 1 + 1]);
      StepInv(r[k - 1], r[k]);
    }
  }

  // ---- what calls do and return ----

  predicate Same(th: Thread) { th.shares == th.shared && th.owns == th.owned }

  /** One lock less than at the call. */
  predicate Less(th: Thread) {
    !th.owns && if th.owned then th.shares == th.shared else th.shared > 0 && th.shares == th.shared - 1
  }

  /** What a call has done when it returns. */
  predicate Done(th: Thread) {
    match th.op
    case NoCall => th.shares == 0 && !th.owns
    case Release => th.ret == OK && Less(th)
    case _ =>
      match th.ret
      case OK => if Wants(th.op) then th.owns && !th.owned && th.shares == th.shared
          else th.owns == th.owned && th.shares == th.shared + 1
      case EBUSY => (th.op == TryRead || th.op == TryWrite) && Same(th)
      case EAGAIN => Same(th) && (th.op == Write ==> !th.owned)
      case EDEADLK => th.op == Write && th.owned && Same(th)
      case EPERM => false
  }

  predicate Wants(op: Op) { op == Write || op == TryWrite }

  /** In a call that may wait. */
  predicate Blocks(th: Thread, w: bool) { th.op == (if w then Write else Read) && Same(th) && (w ==> !th.owned) }

  /** The calls that may wait read the sequence number first. */
  predicate Fits(th: Thread, w: bool, q: Option<int>) {
    if q.Some? then Blocks(th, w) else th.op == (if w then TryWrite else TryRead) && Same(th)
  }

  /** What it has done so far. */
  predicate CallPart(th: Thread) {
    match th.pc
    case Ready => Done(th)
    case Dead => th.op == Write && Same(th)
    case DeadLock => th.op == Write && Same(th)
    case SeqLoad(w) => Blocks(th, w)
    case Load(w, q) => Fits(th, w, q)
    case Try(w, q, _) => Fits(th, w, q)
    case SetWriter => Wants(th.op) && th.owns && !th.owned && th.shares == th.shared
    case AddWait(w, q) => Blocks(th, w)
    case FutexWait(w, q) => Blocks(th, w)
    case Asleep(w, q) => Blocks(th, w)
    case SubWait(w) => Blocks(th, w)
    case SeqInc => th.op == Release && Less(th)
    case LoadWait => th.op == Release && Less(th)
    case WakeAll => th.op == Release && Less(th)
    case _ => th.op == Release && Same(th)
  }

  predicate AllCalls(s: State) { forall i: nat | i < |s.ts| :: CallPart(s.ts[i]) }

  lemma NextCalls(s: State, t: State, i: nat)
    requires Words(s) && i < |s.ts| && Local(s, i) && CallPart(s.ts[i]) && Next(s, t, i) && !s.ts[i].pc.WakeAll?
    ensures i < |t.ts| && CallPart(t.ts[i])
  {
    hide Count; hide Sum; hide Words;
    HeldWord(s, i);
  }

  lemma WakeAllCalls(s: State, t: State, i: nat, j: nat)
    requires i < |s.ts| && j < |s.ts| && CallPart(s.ts[i]) && CallPart(s.ts[j]) && Next(s, t, i) && s.ts[i].pc.WakeAll?
    ensures j < |t.ts| && CallPart(t.ts[j])
  {
  }

  lemma StepCalls(s: State, t: State)
    requires Inv(s) && AllCalls(s) && Step(s, t)
    ensures AllCalls(t)
  {
    hide Words; hide Local; hide Waits; hide Next; hide CallPart;
    var i: nat :| i < |s.ts| && Next(s, t, i);
    assert Local(s, i) && CallPart(s.ts[i]);
    if s.ts[i].pc.WakeAll? {
      WakeAllSize(s, t, i);
      forall j: nat | j < |t.ts| ensures CallPart(t.ts[j]) { WakeAllCalls(s, t, i, j); }
    } else {
      NextMoves(s, t, i);
      NextCalls(s, t, i);
    }
  }

  lemma WakeAllSize(s: State, t: State, i: nat)
    requires i < |s.ts| && Next(s, t, i) && s.ts[i].pc.WakeAll?
    ensures |t.ts| == |s.ts|
  {
  }

  lemma {:induction false} RunCalls(r: seq<State>, k: nat)
    requires Run(r) && k < |r|
    ensures Inv(r[k]) && AllCalls(r[k])
  {
    hide Inv; hide Step;
    RunInv(r, k);
    if k > 0 {
      RunCalls(r, k - 1);
      assert Step(r[k - 1], r[k - 1 + 1]);
      StepCalls(r[k - 1], r[k]);
    }
  }

  /** What every call of every thread has done when it has returned: a lock that succeeded is held, one that failed
      changed nothing, and an unlock gives up exactly one. */
  lemma CallsDo(r: seq<State>, k: nat, i: nat)
    requires Run(r) && k < |r| && i < |r[k].ts| && r[k].ts[i].pc.Ready?
    ensures var th := r[k].ts[i];
            && (th.op == Read || th.op == TryRead ==>
                th.owns == th.owned && th.shares == th.shared + if th.ret == OK then 1 else 0)
            && (th.op == Write || th.op == TryWrite ==>
                th.shares == th.shared && if th.ret == OK then th.owns && !th.owned else th.owns == th.owned)
            && (th.op == Read ==> th.ret == OK || th.ret == EAGAIN)
            && (th.op == Write ==> if th.owned then th.ret == EDEADLK else th.ret == OK || th.ret == EAGAIN)
            && (th.op == TryRead || th.op == TryWrite ==> th.ret == OK || th.ret == EAGAIN || th.ret == EBUSY)
            && (th.op == Release ==>
                th.ret == OK && !th.owns && th.shares == if th.owned then th.shared else th.shared - 1)
  {
    RunCalls(r, k);
    assert CallPart(r[k].ts[i]);
  }

  /** The try calls never wait. */
  lemma NeverSleep(r: seq<State>, k: nat, i: nat)
    requires Run(r) && k < |r| && i < |r[k].ts| && (r[k].ts[i].op == TryRead || r[k].ts[i].op == TryWrite)
    ensures !r[k].ts[i].pc.AddWait? && !r[k].ts[i].pc.FutexWait? && !r[k].ts[i].pc.Asleep?
  {
    RunCalls(r, k);
    assert CallPart(r[k].ts[i]);
  }

  /** A lock is refused or waited for only when the word that the call saw was in the way of it. */
  lemma RefusedForReason(r: seq<State>, k: nat, i: nat)
    requires Run(r) && k + 1 < |r| && i < |r[k].ts| && i < |r[k + 1].ts| && r[k + 1].ts[i] != r[k].ts[i]
    ensures var pc, th := r[k].ts[i].pc, r[k + 1].ts[i];
            && (th.pc.Try? ==> th.pc.x == r[k].lock)
            && (pc.Try? && (th.pc.AddWait? || (th.pc.Ready? && th.ret == EBUSY)) ==> Busy(pc.w, pc.x))
            && (pc.Try? && th.pc.Ready? && th.ret == EAGAIN ==> pc.x == INT_MAX)
  {
    hide Init; hide Next;
    assert Step(r[k], r[k + 1]);
    var j: nat :| j < |r[k].ts| && Next(r[k], r[k + 1], j);
    if r[k].ts[j].pc.WakeAll? { OnlyWoken(r[k], r[k + 1], j, i); }
    else {
      NextMoves(r[k], r[k + 1], j);
      RefusedStep(r[k], r[k + 1], i);
    }
  }

  lemma OnlyWoken(s: State, t: State, j: nat, i: nat)
    requires j < |s.ts| && i < |s.ts| && s.ts[j].pc.WakeAll? && Next(s, t, j)
    ensures i < |t.ts| && (t.ts[i].pc.Try? ==> t.ts[i] == s.ts[i])
    ensures s.ts[i].pc.Try? ==> t.ts[i] == s.ts[i]
  {
  }

  lemma RefusedStep(s: State, t: State, i: nat)
    requires i < |s.ts| && Next(s, t, i) && !s.ts[i].pc.WakeAll? && i < |t.ts|
    ensures var pc, th := s.ts[i].pc, t.ts[i];
            && (th.pc.Try? ==> th.pc.x == s.lock)
            && (pc.Try? && (th.pc.AddWait? || (th.pc.Ready? && th.ret == EBUSY)) ==> Busy(pc.w, pc.x))
            && (pc.Try? && th.pc.Ready? && th.ret == EAGAIN ==> pc.x == INT_MAX)
  {
    hide Next;
    if s.ts[i].pc.Try? { TryRefused(s, t, i); } else { SeesWord(s, t, i); }
  }

  lemma TryRefused(s: State, t: State, i: nat)
    requires i < |s.ts| && Next(s, t, i) && s.ts[i].pc.Try? && i < |t.ts|
    ensures var pc, th := s.ts[i].pc, t.ts[i];
            && (th.pc.Try? ==> th.pc.x == s.lock)
            && (pc.Try? && (th.pc.AddWait? || (th.pc.Ready? && th.ret == EBUSY)) ==> Busy(pc.w, pc.x))
            && (pc.Try? && th.pc.Ready? && th.ret == EAGAIN ==> pc.x == INT_MAX)
  {
  }

  lemma SeesWord(s: State, t: State, i: nat)
    requires i < |s.ts| && Next(s, t, i) && !s.ts[i].pc.WakeAll? && !s.ts[i].pc.Try? && i < |t.ts|
    ensures t.ts[i].pc.Try? ==> t.ts[i].pc.x == s.lock
  {
    hide Tries;
  }

  // ---- what it means ----

  /** In every run, at every moment: the word is -1 with exactly one writer and no reader, or the
      number of read locks held with no writer. */
  lemma Exclusion(r: seq<State>, k: nat)
    requires Run(r) && k < |r|
    ensures var s := r[k];
            || (s.lock == -1 && Count(s.ts, Writes) == 1 && Sum(s.ts, Reads) == 0)
            || (0 <= s.lock <= INT_MAX && Count(s.ts, Writes) == 0 && s.lock == Sum(s.ts, Reads))
  {
    RunInv(r, k);
  }

  lemma ReadersExcludeWriters(r: seq<State>, k: nat, i: nat, j: nat)
    requires Run(r) && k < |r| && i < |r[k].ts| && j < |r[k].ts| && r[k].ts[i].owns
    ensures r[k].ts[j].shares == 0 && (r[k].ts[j].owns ==> i == j)
  {
    RunInv(r, k);
    CountHas(r[k].ts, i, Writes);
    SumHas(r[k].ts, j, Reads);
    if r[k].ts[j].owns { OneWriter(r[k], i, j); }
  }

  /** A sleeper has a reason: what it waits for is held, or the thread that released it has still
      to finish `pthread_rwlock_unlock`. */
  lemma NoForgottenSleeper(r: seq<State>, k: nat, i: nat)
    requires Run(r) && k < |r| && i < |r[k].ts| && r[k].ts[i].pc.Asleep?
    ensures var s := r[k];
            || (exists j: nat :: j < |s.ts| && s.ts[j].owns)
            || (s.ts[i].pc.w && exists j: nat :: j < |s.ts| && s.ts[j].shares > 0)
            || (exists j: nat :: j < |s.ts| && (Released(s.ts[j]) || WillWake(s.ts[j])))
  {
    RunInv(r, k);
    var s := r[k];
    assert Waits(s, i);
    if s.lock == -1 {
      var j := CountSome(s.ts, Writes);
    } else if s.lock > 0 && s.ts[i].pc.w {
      var j := SumSome(s.ts);
    } else if Count(s.ts, Released) > 0 {
      var j := CountSome(s.ts, Released);
    } else {
      var j := CountSome(s.ts, WillWake);
    }
  }

  lemma {:induction false} SumSome(ts: seq<Thread>) returns (j: nat)
    requires Sum(ts, Reads) > 0
    ensures j < |ts| && ts[j].shares > 0
    decreases |ts|
  {
    var n := |ts| - 1;
    if ts[n].shares > 0 { j := n; } else { j := SumSome(ts[..n]); }
  }

  /** EDEADLK is for the writer alone, and the writer always gets it. */
  lemma DeadlockDetected(r: seq<State>, k: nat, i: nat)
    requires Run(r) && k < |r| && i < |r[k].ts|
    ensures r[k].ts[i].pc.DeadLock? ==> r[k].ts[i].owns && r[k].lock < 0
    ensures r[k].ts[i].pc.Dead? && r[k].ts[i].owns ==> r[k].writer == Tid(i)
  {
    RunInv(r, k);
    assert Local(r[k], i);
    HeldWord(r[k], i);
  }
}
