/** `__lock` and `__unlock` of src/runtime.c as a transition system: any number of threads, one
    atomic operation a step, `futex_wait` comparing and sleeping atomically. */
module FutexLock {
  import opened Basics
  import opened Threads

  /** Where a thread is. Swap and Retry are the two compare-and-swaps of the slow path; Stored is
      `__unlock` after its subtraction, Waking after its store. */
  datatype PC =
    | Idle
    | Enter
    | Swap(seen: int)
    | Wait
    | Asleep
    | Retry
    | Held
    | Stored
    | Waking

  datatype State = State(word: int, pcs: seq<PC>)

  predicate Owns(pc: PC) { pc.Held? || pc.Stored? }

  predicate Sleeps(pc: PC) { pc.Asleep? }

  /** In the slow path of `__lock`, awake: it will look at the word again before it sleeps. */
  predicate InSlowPath(pc: PC) { pc.Swap? || pc.Wait? || pc.Retry? }

  /** Has released, or is about to release, and will then wake a sleeper. */
  predicate WillWake(pc: PC) { pc.Stored? || pc.Waking? }

  /** Thread i's own next operation, other than a wake-up: the new word and place. */
  predicate Next(word: int, pc: PC, word': int, pc': PC) {
    match pc
    case Idle => word' == word && pc' == Enter
    case Enter => if word == 0 then word' == 1 && pc' == Held else word' == word && pc' == Swap(word)
    case Swap(c) =>
      if c == 2 then word' == word && pc' == Wait
      else if word == 1 then word' == 2 && pc' == Wait
      else word' == word && pc' == if word != 0 then Wait else Retry
    case Wait => word' == word && pc' == if word == 2 then Asleep else Retry
    case Asleep => word' == word && pc' == Retry // a signal
    case Retry => if word == 0 then word' == 2 && pc' == Held else word' == word && pc' == Swap(word)
    case Held => word' == word - 1 && pc' == if word != 1 then Stored else Idle
    case Stored => word' == 0 && pc' == Waking
    case Waking => false
  }

  /** futex_wake(1): one sleeper, if there is any. */
  ghost predicate Wake(s: State, t: State, i: nat) {
    && i < |s.pcs| && s.pcs[i].Waking? && t.word == s.word
    && if exists j: nat :: j < |s.pcs| && s.pcs[j].Asleep?
       then exists j: nat :: j < |s.pcs| && s.pcs[j].Asleep? && t.pcs == s.pcs[i := Idle][j := Retry]
       else t.pcs == s.pcs[i := Idle]
  }

  ghost predicate Step(s: State, t: State) {
    exists i: nat ::
        i < |s.pcs| && (Wake(s, t, i) || (|t.pcs| == |s.pcs| && t.pcs == s.pcs[i := t.pcs[i]]
            && Next(s.word, s.pcs[i], t.word, t.pcs[i])))
  }

  predicate Init(s: State) { s.word == 0 && forall i | 0 <= i < |s.pcs| :: s.pcs[i].Idle? }

  /** A run: every state but the first is a step from the one before. */
  ghost predicate Run(r: seq<State>) {
    r != [] && Init(r[0]) && forall k: nat | k + 1 < |r| :: Step(r[k], r[k + 1])
  }

  // ---- the invariant ----

  /** One owner exactly when the word is not zero; 0, 1 and 2 are its only values; and whoever
      sleeps, there is a 2 in the word, a wake-up to come, or a thread that will look again. */
  predicate Inv(s: State) {
    && 0 <= s.word <= 2
    && Count(s.pcs, Owns) == One(s.word != 0)
    && (Count(s.pcs, Sleeps) > 0 ==> s.word == 2 || Count(s.pcs, WillWake) > 0 || Count(s.pcs, InSlowPath) > 0)
  }

  lemma InitInv(s: State)
    requires Init(s)
    ensures Inv(s)
  {
    CountNone(s.pcs, Owns); CountNone(s.pcs, Sleeps);
  }

  lemma NextInv(s: State, t: State, i: nat)
    requires Inv(s) && i < |s.pcs| && |t.pcs| == |s.pcs| && t.pcs == s.pcs[i := t.pcs[i]]
        && Next(s.word, s.pcs[i], t.word, t.pcs[i])
    ensures Inv(t)
  {
    hide Count;
    Moved(s.pcs, i, t.pcs[i]);
  }

  lemma Moved(pcs: seq<PC>, i: nat, pc: PC)
    requires i < |pcs|
    ensures Count(pcs[i := pc], Owns) + One(Owns(pcs[i])) == Count(pcs, Owns) + One(Owns(pc))
    ensures Count(pcs[i := pc], Sleeps) + One(Sleeps(pcs[i])) == Count(pcs, Sleeps) + One(Sleeps(pc))
    ensures Count(pcs[i := pc], WillWake) + One(WillWake(pcs[i])) == Count(pcs, WillWake) + One(WillWake(pc))
    ensures Count(pcs[i := pc], InSlowPath) + One(InSlowPath(pcs[i])) == Count(pcs, InSlowPath) + One(InSlowPath(pc))
    ensures Owns(pcs[i]) ==> Count(pcs, Owns) >= 1
    ensures WillWake(pc) ==> Count(pcs[i := pc], WillWake) >= 1
    ensures InSlowPath(pc) ==> Count(pcs[i := pc], InSlowPath) >= 1
  {
    CountSet(pcs, i, pc, Owns); CountSet(pcs, i, pc, Sleeps); CountSet(pcs, i, pc, WillWake);
    CountSet(pcs, i, pc, InSlowPath);
    if Owns(pcs[i]) { CountHas(pcs, i, Owns); }
    if WillWake(pc) { CountHas(pcs[i := pc], i, WillWake); }
    if InSlowPath(pc) { CountHas(pcs[i := pc], i, InSlowPath); }
  }

  lemma WakeInv(s: State, t: State, i: nat)
    requires Inv(s) && Wake(s, t, i)
    ensures Inv(t)
  {
    hide Count;
    Moved(s.pcs, i, Idle);
    if exists j: nat :: j < |s.pcs| && s.pcs[j].Asleep? {
      var j: nat :| j < |s.pcs| && s.pcs[j].Asleep? && t.pcs == s.pcs[i := Idle][j := Retry];
      Moved(s.pcs[i := Idle], j, Retry);
    } else {
      CountNone(s.pcs, Sleeps);
    }
  }

  lemma StepInv(s: State, t: State)
    requires Inv(s) && Step(s, t)
    ensures Inv(t)
  {
    var i: nat :| i < |s.pcs| && (Wake(s, t, i)
        || (|t.pcs| == |s.pcs| && t.pcs == s.pcs[i := t.pcs[i]] && Next(s.word, s.pcs[i], t.word, t.pcs[i])));
    if Wake(s, t, i) { WakeInv(s, t, i); } else { NextInv(s, t, i); }
  }

  lemma {:induction false} RunInv(r: seq<State>, k: nat)
    requires Run(r) && k < |r|
    ensures Inv(r[k])
  {
    if k == 0 {
      InitInv(r[0]);
    } else {
      RunInv(r, k - 1);
      assert Step(r[k - 1], r[k - 1 + 1]);
      StepInv(r[k - 1], r[k]);
    }
  }

  // ---- what it means ----

  /** In every run, at every moment, at most one thread is between `__lock` and the end of its
      release, even while `__unlock` has put its transient value in the word. */
  lemma MutualExclusion(r: seq<State>, k: nat, i: nat, j: nat)
    requires Run(r) && k < |r| && i < |r[k].pcs| && j < |r[k].pcs|
    requires Owns(r[k].pcs[i]) && Owns(r[k].pcs[j])
    ensures i == j
  {
    RunInv(r, k);
    CountOne(r[k].pcs, i, j, Owns);
  }

  /** No lost wake-up: when the lock is free and no thread is in the middle of an operation,
      nobody sleeps. */
  lemma NoLostWakeup(r: seq<State>, k: nat, i: nat)
    requires Run(r) && k < |r| && i < |r[k].pcs| && r[k].word == 0
    requires forall j | 0 <= j < |r[k].pcs| :: r[k].pcs[j].Idle? || r[k].pcs[j].Enter? || r[k].pcs[j].Asleep?
    ensures !r[k].pcs[i].Asleep?
  {
    RunInv(r, k);
    CountNone(r[k].pcs, WillWake); CountNone(r[k].pcs, InSlowPath);
    if r[k].pcs[i].Asleep? { CountHas(r[k].pcs, i, Sleeps); }
  }

  /** The word tells whether the lock is held. */
  lemma FreeIffZero(r: seq<State>, k: nat)
    requires Run(r) && k < |r|
    ensures r[k].word == 0 <==> forall i | 0 <= i < |r[k].pcs| :: !Owns(r[k].pcs[i])
  {
    RunInv(r, k);
    if r[k].word == 0 {
      forall i | 0 <= i < |r[k].pcs| ensures !Owns(r[k].pcs[i]) {
        if Owns(r[k].pcs[i]) { CountHas(r[k].pcs, i, Owns); }
      }
    } else {
      var i := CountSome(r[k].pcs, Owns);
    }
  }

  /** The transient value is reached: a free lock can be taken, contended and released so that the
      word is 1 while the releasing thread still owns it. */
  lemma TransientOne()
    ensures exists r: seq<State> :: Run(r) && r[|r| - 1].word == 1 && r[|r| - 1].pcs == [Stored, Wait]
  {
    var r := [
      State(0, [Idle, Idle]), State(0, [Enter, Idle]), State(1, [Held, Idle]), State(1, [Held, Enter]),
      State(1, [Held, Swap(1)]), State(2, [Held, Wait]), State(1, [Stored, Wait])];
    assert Run(r) by {
      forall k: nat | k + 1 < |r| ensures Step(r[k], r[k + 1]) { TransientStep(r, k); }
    }
  }

  lemma TransientStep(r: seq<State>, k: nat)
    requires r == [State(0, [Idle, Idle]), State(0, [Enter, Idle]), State(1, [Held, Idle]), State(1, [Held, Enter]),
                   State(1, [Held, Swap(1)]), State(2, [Held, Wait]), State(1, [Stored, Wait])] && k + 1 < |r|
    ensures Step(r[k], r[k + 1])
  {
    var s, t := r[k], r[k + 1];
    var i := if k == 2 || k == 3 || k == 4 then 1 else 0;
    assert t.pcs == s.pcs[i := t.pcs[i]] && Next(s.word, s.pcs[i], t.word, t.pcs[i]);
  }
}
