/** Unnamed semaphores (src/semaphore.c) as a transition system: any number of threads, one atomic
    operation a step. */
module Semaphore {
  import opened Basics
  import opened Threads

  const SEM_VALUE_MAX := 0x7fff_ffff

  /** What a thread's last call returned: success of a wait or a post, or the error. */
  datatype Last = NoCall | Took | Posted | EAGAIN | EINVAL | EINTR_OR_ETIMEDOUT | EOVERFLOW

  /** Where a thread is; `valid` says whether the time-out it passed is well formed. */
  datatype PC =
    | Idle(last: Last)
    | TryRead | TryCas(v: int)
    | Read(valid: bool) | Cas(valid: bool, v: int) | Add(v: int) | Wait(v: int) | Asleep | Sub(again: bool)
    | PostRead | PostCas(v: int) | PostLoad | PostWake

  /** The count, the number of waiters, and how many posts and waits have succeeded. */
  datatype State = State(count: int, waiters: int, pcs: seq<PC>, posts: nat, waits: nat)

  predicate Sleeps(pc: PC) { pc.Asleep? }

  /** Counted in `waiters`. */
  predicate Counted(pc: PC) { pc.Wait? || pc.Asleep? || pc.Sub? }

  /** In `sem_clockwait` with a good time-out, awake: it leaves only by sleeping or by taking. */
  predicate Looking(pc: PC) {
    (pc.Read? && pc.valid) || (pc.Cas? && pc.valid) || pc.Add? || pc.Wait? || (pc.Sub? && pc.again)
  }

  /** Has posted and will look for somebody to wake. */
  predicate WillWake(pc: PC) { pc.PostLoad? || pc.PostWake? }

  /** What a thread remembers of the count. */
  predicate Local(pc: PC) {
    && (pc.TryCas? ==> pc.v > 0) && (pc.Cas? ==> pc.v > 0) && (pc.Add? ==> pc.v <= 0) && (pc.Wait? ==> pc.v <= 0)
    && (pc.PostCas? ==> pc.v < SEM_VALUE_MAX)
  }

  function Taken(s: State): State { s.(count := s.count - 1, waits := s.waits + 1) }

  /** Thread i's own next operation, other than a wake-up. */
  ghost predicate Next(s: State, pc: PC, s': State, pc': PC)
    requires s'.pcs == s.pcs
  {
    match pc
    case Idle(_) => s' == s && (pc' == TryRead || pc' == Read(true) || pc' == Read(false) || pc' == PostRead)
    case TryRead => s' == s && pc' == if s.count > 0 then TryCas(s.count) else Idle(EAGAIN)
    case TryCas(v) =>
      if s.count == v then s' == Taken(s) && pc' == Idle(Took)
      else s' == s && pc' == if s.count > 0 then TryCas(s.count) else Idle(EAGAIN)
    case Read(valid) =>
        s' == s && pc' == if s.count > 0 then Cas(valid, s.count) else if valid then Add(s.count) else Idle(EINVAL)
    case Cas(valid, v) => if s.count == v then s' == Taken(s) && pc' == Idle(Took) else s' == s && pc' == Read(valid)
    case Add(v) => s' == s.(waiters := s.waiters + 1) && pc' == Wait(v)
    case Wait(v) => s' == s && pc' == if s.count == v then Asleep else Sub(true)
    case Asleep => s' == s && pc' == Sub(false) // time-out or signal
    case Sub(again) =>
        s' == s.(waiters := s.waiters - 1) && pc' == if again then Read(true) else Idle(EINTR_OR_ETIMEDOUT)
    case PostRead => s' == s && pc' == if s.count == SEM_VALUE_MAX then Idle(EOVERFLOW) else PostCas(s.count)
    case PostCas(v) =>
      if s.count == v then s' == s.(count := v + 1, posts := s.posts + 1) && pc' == PostLoad
      else s' == s && pc' == if s.count == SEM_VALUE_MAX then Idle(EOVERFLOW) else PostCas(s.count)
    case PostLoad => s' == s && pc' == if s.waiters != 0 then PostWake else Idle(Posted)
    case PostWake => false
  }

  ghost predicate Moves(s: State, t: State, i: nat) {
    && i < |s.pcs| && |t.pcs| == |s.pcs| && t.pcs == s.pcs[i := t.pcs[i]]
    && Next(s, s.pcs[i], t.(pcs := s.pcs), t.pcs[i])
  }

  /** futex_wake(1): one sleeper, if there is any. */
  ghost predicate Wake(s: State, t: State, i: nat) {
    && i < |s.pcs| && s.pcs[i].PostWake? && t.(pcs := s.pcs) == s
    && if exists j: nat :: j < |s.pcs| && s.pcs[j].Asleep?
       then exists j: nat :: j < |s.pcs| && s.pcs[j].Asleep? && t.pcs == s.pcs[i := Idle(Posted)][j := Sub(true)]
       else t.pcs == s.pcs[i := Idle(Posted)]
  }

  ghost predicate Step(s: State, t: State) { exists i: nat :: Moves(s, t, i) || Wake(s, t, i) }

  /** `sem_init` with a value in range. */
  predicate Init(s: State, value: nat) {
    value <= SEM_VALUE_MAX && s.count == value && s.waiters == 0 && s.posts == 0 && s.waits == 0
    && forall i | 0 <= i < |s.pcs| :: s.pcs[i] == Idle(NoCall)
  }

  ghost predicate Run(r: seq<State>, value: nat) {
    r != [] && Init(r[0], value) && forall k: nat | k + 1 < |r| :: Step(r[k], r[k + 1])
  }

  // ---- the invariant ----

  predicate Locals(pcs: seq<PC>) { forall i | 0 <= i < |pcs| :: Local(pcs[i]) }

  /** The count balances the operations; the waiters are counted; and if anybody sleeps while the
      count is positive, at least as many wake-ups are to come or threads are looking. */
  predicate Inv(s: State, value: nat) {
    && 0 <= s.count <= SEM_VALUE_MAX
    && s.count == value + s.posts - s.waits
    && s.waiters == Count(s.pcs, Counted)
    && Locals(s.pcs)
    && (Count(s.pcs, Sleeps) > 0 && s.count > 0 ==> Count(s.pcs, WillWake) + Count(s.pcs, Looking) >= s.count)
  }

  lemma Moved(pcs: seq<PC>, i: nat, pc: PC)
    requires i < |pcs|
    ensures Count(pcs[i := pc], Sleeps) + One(Sleeps(pcs[i])) == Count(pcs, Sleeps) + One(Sleeps(pc))
    ensures Count(pcs[i := pc], Counted) + One(Counted(pcs[i])) == Count(pcs, Counted) + One(Counted(pc))
    ensures Count(pcs[i := pc], WillWake) + One(WillWake(pcs[i])) == Count(pcs, WillWake) + One(WillWake(pc))
    ensures Count(pcs[i := pc], Looking) + One(Looking(pcs[i])) == Count(pcs, Looking) + One(Looking(pc))
    ensures Sleeps(pcs[i]) ==> Count(pcs, Sleeps) > 0 && Count(pcs, Counted) > 0
    ensures WillWake(pc) ==> Count(pcs[i := pc], WillWake) > 0
    ensures Locals(pcs) && Local(pc) ==> Locals(pcs[i := pc])
  {
    CountSet(pcs, i, pc, Sleeps); CountSet(pcs, i, pc, Counted); CountSet(pcs, i, pc, WillWake);
    CountSet(pcs, i, pc, Looking);
    if Sleeps(pcs[i]) { CountHas(pcs, i, Sleeps); CountHas(pcs, i, Counted); }
    if WillWake(pc) { CountHas(pcs[i := pc], i, WillWake); }
  }

  lemma LocalAt(pcs: seq<PC>, i: nat)
    requires Locals(pcs) && i < |pcs|
    ensures Local(pcs[i])
  {
  }

  /** Nobody sleeps uncounted. */
  lemma SleepersCounted(pcs: seq<PC>)
    ensures Count(pcs, Counted) == 0 ==> Count(pcs, Sleeps) == 0
  {
    if Count(pcs, Sleeps) > 0 {
      var i := CountSome(pcs, Sleeps);
      CountHas(pcs, i, Counted);
    }
  }

  lemma InitInv(s: State, value: nat)
    requires Init(s, value)
    ensures Inv(s, value)
  {
    CountNone(s.pcs, Sleeps); CountNone(s.pcs, Counted);
  }

  lemma MovesInv(s: State, t: State, i: nat, value: nat)
    requires Inv(s, value) && Moves(s, t, i)
    ensures Inv(t, value)
  {
    hide Count; hide Locals;
    assert Local(s.pcs[i]) by { LocalAt(s.pcs, i); }
    Moved(s.pcs, i, t.pcs[i]);
    SleepersCounted(s.pcs);
  }

  lemma WakeInv(s: State, t: State, i: nat, value: nat)
    requires Inv(s, value) && Wake(s, t, i)
    ensures Inv(t, value)
  {
    hide Count; hide Locals;
    Moved(s.pcs, i, Idle(Posted));
    if exists j: nat :: j < |s.pcs| && s.pcs[j].Asleep? {
      var j: nat :| j < |s.pcs| && s.pcs[j].Asleep? && t.pcs == s.pcs[i := Idle(Posted)][j := Sub(true)];
      Moved(s.pcs[i := Idle(Posted)], j, Sub(true));
    } else {
      CountNone(s.pcs, Sleeps);
    }
  }

  lemma {:induction false} RunInv(r: seq<State>, value: nat, k: nat)
    requires Run(r, value) && k < |r|
    ensures Inv(r[k], value)
  {
    if k == 0 {
      InitInv(r[0], value);
    } else {
      RunInv(r, value, k - 1);
      assert Step(r[k - 1], r[k - 1 + 1]);
      var i: nat :| Moves(r[k - 1], r[k], i) || Wake(r[k - 1], r[k], i);
      if Moves(r[k - 1], r[k], i) { MovesInv(r[k - 1], r[k], i, value); } else { WakeInv(r[k - 1], r[k], i, value); }
    }
  }

  // ---- what it means ----

  /** In every run: initial value plus posts minus successful waits is the count, which stays in
      range. */
  lemma Conservation(r: seq<State>, value: nat, k: nat)
    requires Run(r, value) && k < |r|
    ensures r[k].count == value + r[k].posts - r[k].waits && 0 <= r[k].count <= SEM_VALUE_MAX
  {
    RunInv(r, value, k);
  }

  /** Nobody stays asleep while the count is positive and every other thread is idle or asleep. */
  lemma NoLostPost(r: seq<State>, value: nat, k: nat, i: nat)
    requires Run(r, value) && k < |r| && i < |r[k].pcs| && r[k].count > 0
    requires forall j | 0 <= j < |r[k].pcs| :: r[k].pcs[j].Idle? || r[k].pcs[j].Asleep?
    ensures !r[k].pcs[i].Asleep?
  {
    RunInv(r, value, k);
    CountNone(r[k].pcs, WillWake); CountNone(r[k].pcs, Looking);
    if r[k].pcs[i].Asleep? { CountHas(r[k].pcs, i, Sleeps); }
  }

  /** More than that: with a positive count and somebody asleep, the wake-ups to come and the
      threads looking are enough to use the count up. */
  lemma EnoughAwake(r: seq<State>, value: nat, k: nat, i: nat)
    requires Run(r, value) && k < |r| && i < |r[k].pcs| && r[k].count > 0 && r[k].pcs[i].Asleep?
    ensures Count(r[k].pcs, WillWake) + Count(r[k].pcs, Looking) >= r[k].count
  {
    RunInv(r, value, k);
    CountHas(r[k].pcs, i, Sleeps);
  }

  // ---- what calls do and return ----

  /** A step of thread i. */
  ghost predicate Acts(s: State, t: State, i: nat) { Moves(s, t, i) || Wake(s, t, i) }

  /** The count goes down by one in the very step in which a wait returns success, up by one in the very step after
      which a post can only return success, and in no other; and errors are reported for their reason. */
  lemma CallsDo(r: seq<State>, value: nat, k: nat)
    requires Run(r, value) && k + 1 < |r|
    ensures exists i: nat :: Acts(r[k], r[k + 1], i) && i < |r[k].pcs| == |r[k + 1].pcs|
              && CallDoes(r[k], r[k + 1], r[k].pcs[i], r[k + 1].pcs[i])
  {
    assert Step(r[k], r[k + 1]);
    var i: nat :| Moves(r[k], r[k + 1], i) || Wake(r[k], r[k + 1], i);
    RunInv(r, value, k);
    StepDoes(r[k], r[k + 1], i, value);
  }

  predicate CallDoes(s: State, t: State, pc: PC, pc': PC) {
    && t.count == s.count - One(pc' == Idle(Took)) + One(pc'.PostLoad?)
    && t.waits == s.waits + One(pc' == Idle(Took)) && t.posts == s.posts + One(pc'.PostLoad?)
    && (pc' == Idle(Took) ==> pc.TryCas? || pc.Cas?)
    && (pc' == Idle(Posted) ==> pc.PostLoad? || pc.PostWake?)
    && (pc.PostLoad? || pc.PostWake? ==> pc' == Idle(Posted) || pc'.PostWake?)
    && (pc' == Idle(EAGAIN) ==> s.count == 0 && (pc.TryRead? || pc.TryCas?))
    && (pc' == Idle(EOVERFLOW) ==> s.count == SEM_VALUE_MAX && (pc.PostRead? || pc.PostCas?))
    && (pc' == Idle(EINVAL) ==> s.count == 0 && pc == Read(false))
    && (pc'.Idle? ==> pc'.last != NoCall)
    && (pc.TryRead? || pc.TryCas? ==> pc'.TryCas? || pc' == Idle(Took) || pc' == Idle(EAGAIN))
    && (pc'.Asleep? ==> s.count == 0 && pc.Wait?)
  }

  lemma StepDoes(s: State, t: State, i: nat, value: nat)
    requires Inv(s, value) && Acts(s, t, i)
    ensures i < |s.pcs| == |t.pcs| && CallDoes(s, t, s.pcs[i], t.pcs[i])
  {
    hide Count;
    assert i < |s.pcs| && Local(s.pcs[i]) by { if i < |s.pcs| { LocalAt(s.pcs, i); } }
  }
}
