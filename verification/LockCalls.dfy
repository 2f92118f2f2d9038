/**
 What Lock, Unlock and the two deadlock handlers do as whole calls, when no other thread
 steps in between.
 */
module LockCalls {
  import opened SpinLock

  // ---------------------------------------------------------------------
  // One thread alone
  // ---------------------------------------------------------------------

  /** The state after thread `t` alone has made a step for each choice. */
  function Alone(s: State, t: nat, choices: seq<Choice>): State
    decreases |choices|
  {
    if choices == [] then s else Step(Alone(s, t, choices[..|choices| - 1]), t, choices[|choices| - 1])
  }

  lemma {:induction false} AloneIsRun(s: State, t: nat, choices: seq<Choice>, schedule: Schedule)
    requires |schedule| == |choices| && forall i :: 0 <= i < |choices| ==> schedule[i] == (t, choices[i])
    ensures Alone(s, t, choices) == Run(s, schedule)
    decreases |choices|
  {
    if choices != [] {
      var last := |choices| - 1;
      AloneIsRun(s, t, choices[..last], schedule[..last]);
    }
  }

  /** The states of such a run, one after the other. */
  ghost predicate Runs(states: nat -> State, t: nat, choices: seq<Choice>) {
    forall n {:trigger Goes(states, t, choices, n)} :: 0 <= n < |choices| ==> Goes(states, t, choices, n)
  }

  ghost predicate Goes(states: nat -> State, t: nat, choices: seq<Choice>, n: nat) {
    n < |choices| && states(n + 1) == Step(states(n), t, choices[n])
  }

  lemma AloneRuns(s: State, t: nat, choices: seq<Choice>) returns (states: nat -> State)
    ensures Runs(states, t, choices) && states(0) == s && states(|choices|) == Alone(s, t, choices)
  {
    states := (n: nat) => Alone(s, t, if n <= |choices| then choices[..n] else choices);
    forall n | 0 <= n < |choices|
      ensures Goes(states, t, choices, n)
    {
      assert choices[..n + 1][..n] == choices[..n];
    }
    assert choices[..|choices|] == choices;
  }

  /** What a call can change: the thread's place, its lock, and the counters over all locks. */
  datatype Place = Place(pc: Thread, lock: Lock, locksCount: nat, forcedLockSubs: nat)

  ghost predicate Present(s: State, t: nat, l: LockId) {
    t < |s.threads| == |s.callers| && l < |s.locks|
  }

  function At(s: State, t: nat, l: LockId, p: Place): State
    requires t < |s.threads| && l < |s.locks|
  {
    s.(threads := s.threads[t := p.pc], locks := s.locks[l := p.lock],
       locksCount := p.locksCount, forcedLockSubs := p.forcedLockSubs)
  }

  /** One step on, when the thread works on that lock. */
  function Moved(s: State, name: string, p: Place, c: Choice): Place
    requires !p.pc.Idle?
  {
    var next := Next(name, p.pc, p.lock, s.timeout, c);
    Place(next.pc, next.lock, Add(p.locksCount, LocksDelta(p.pc)), p.forcedLockSubs + One(p.pc.ForcedSubLocks?))
  }

  lemma Moves(s: State, t: nat, l: LockId, states: nat -> State, choices: seq<Choice>, n: nat, p: Place, q: Place)
    requires Present(s, t, l) && !p.pc.Idle? && p.pc.lock == l && n < |choices|
    requires Runs(states, t, choices) && states(n) == At(s, t, l, p)
    requires q == Moved(s, s.callers[t], p, choices[n])
    ensures states(n + 1) == At(s, t, l, q)
  {
    assert Goes(states, t, choices, n);
    assert s.threads[t := p.pc][t := q.pc] == s.threads[t := q.pc];
    assert s.locks[l := p.lock][l := q.lock] == s.locks[l := q.lock];
  }

  // ---------------------------------------------------------------------
  // Lock and Unlock
  // ---------------------------------------------------------------------

  lemma Starts(s: State, t: nat, l: LockId, c: Choice)
    requires Present(s, t, l) && s.threads[t].Idle? && c.lock == l
    ensures Step(s, t, c) == At(s.(callers := s.callers[t := c.caller]), t, l,
                                Place(Exchange(l, c.mode, 0), s.locks[l], s.locksCount, s.forcedLockSubs))
  { }

  lemma Words(n: nat)
    requires n < WORD
    ensures Inc(n) == (n + 1) % WORD && Dec(n) == (n - 1) % WORD
  { }

  /** The way from the exchange into the lock. */
  lemma Enters(s: State, t: nat, l: LockId, states: nat -> State, choices: seq<Choice>, n: nat, mode: Mode, p: Place)
    requires Present(s, t, l) && Runs(states, t, choices) && n + 5 <= |choices| && s.timeout > 0
    requires p.pc == Exchange(l, mode, 0) && !p.lock.isLocked && states(n) == At(s, t, l, p)
    ensures var k := p.lock.(isLocked := true, count := Inc(p.lock.count), holder := s.callers[t]);
            states(n + 5) == At(s, t, l, Place(Held(l), k, Inc(p.locksCount), p.forcedLockSubs))
  {
    var won := p.(pc := Check(l, mode, 0, true), lock := p.lock.(isLocked := true));
    Moves(s, t, l, states, choices, n, p, won);
    var adding := won.(pc := AddCount(l));
    Moves(s, t, l, states, choices, n + 1, won, adding);
    var storing := won.(pc := StoreHolder(l), lock := won.lock.(count := Inc(p.lock.count)));
    Moves(s, t, l, states, choices, n + 2, adding, storing);
    var stored := storing.(pc := AddLocks(l), lock := storing.lock.(holder := s.callers[t]));
    Moves(s, t, l, states, choices, n + 3, storing, stored);
    Moves(s, t, l, states, choices, n + 4, stored, stored.(pc := Held(l), locksCount := Inc(p.locksCount)));
  }

  /** Lock on a free lock takes just that lock, for the caller, and counts it. */
  lemma LockCall(s: State, t: nat, l: LockId, choices: seq<Choice>, after: State)
    requires Present(s, t, l) && s.threads[t].Idle? && s.timeout > 0 && !s.locks[l].isLocked
    requires |choices| == 6 && choices[0].lock == l && s.locks[l].count < WORD && s.locksCount < WORD
    requires after == Alone(s, t, choices)
    ensures var k := s.locks[l];
            after ==
            s.(threads := s.threads[t := Held(l)], callers := s.callers[t := choices[0].caller],
               locks := s.locks[l := k.(isLocked := true, count := (k.count + 1) % WORD, holder := choices[0].caller)],
               locksCount := (s.locksCount + 1) % WORD)
  {
    var states := AloneRuns(s, t, choices);
    var c := choices[0];
    var p := Place(Exchange(l, c.mode, 0), s.locks[l], s.locksCount, s.forcedLockSubs);
    assert Goes(states, t, choices, 0);
    Starts(s, t, l, c);
    Enters(s.(callers := s.callers[t := c.caller]), t, l, states, choices, 1, c.mode, p);
    Words(s.locks[l].count);
    Words(s.locksCount);
  }

  /** Unlock by the holder frees just that lock, and counts it off. */
  lemma UnlockCall(s: State, t: nat, l: LockId, choices: seq<Choice>, after: State)
    requires Present(s, t, l) && s.threads[t] == Held(l)
    requires |choices| == 4 && s.locks[l].count < WORD && s.locksCount < WORD
    requires after == Alone(s, t, choices)
    ensures var k := s.locks[l];
            after ==
            s.(threads := s.threads[t := Idle],
               locks := s.locks[l := k.(isLocked := false, count := (k.count - 1) % WORD,
                                        late := if k.isLocked then k.late else k.late + 1)],
               locksCount := (s.locksCount - 1) % WORD)
  {
    var states := AloneRuns(s, t, choices);
    var k := s.locks[l];
    var p := Place(Held(l), k, s.locksCount, s.forcedLockSubs);
    assert s.threads[t := Held(l)] == s.threads && s.locks[l := k] == s.locks;
    Leaves(s, t, l, states, choices, p);
    Words(k.count);
    Words(s.locksCount);
  }

  lemma Leaves(s: State, t: nat, l: LockId, states: nat -> State, choices: seq<Choice>, p: Place)
    requires Present(s, t, l) && Runs(states, t, choices) && |choices| == 4
    requires p.pc == Held(l) && states(0) == At(s, t, l, p)
    ensures var k := p.lock.(isLocked := false, count := Dec(p.lock.count),
                             late := if p.lock.isLocked then p.lock.late else p.lock.late + 1);
            states(4) == At(s, t, l, Place(Idle, k, Dec(p.locksCount), p.forcedLockSubs))
  {
    var leaving := p.(pc := StoreFalse(l));
    Moves(s, t, l, states, choices, 0, p, leaving);
    var late := if p.lock.isLocked then p.lock.late else p.lock.late + 1;
    var freed := p.(pc := SubCount(l), lock := p.lock.(isLocked := false, late := late));
    Moves(s, t, l, states, choices, 1, leaving, freed);
    var counted := freed.(pc := SubLocks(l), lock := freed.lock.(count := Dec(p.lock.count)));
    Moves(s, t, l, states, choices, 2, freed, counted);
    Moves(s, t, l, states, choices, 3, counted, counted.(pc := Idle, locksCount := Dec(p.locksCount)));
  }

  /** Lock and then Unlock leaves everything as it was, but for the name of the last holder. */
  lemma LockThenUnlock(s: State, t: nat, l: LockId, locking: seq<Choice>, unlocking: seq<Choice>)
    requires Present(s, t, l) && s.threads[t].Idle? && s.timeout > 0 && !s.locks[l].isLocked
    requires |locking| == 6 && |unlocking| == 4 && locking[0].lock == l
    requires s.locks[l].count < WORD && s.locksCount < WORD
    ensures Alone(Alone(s, t, locking), t, unlocking) ==
            s.(threads := s.threads[t := Idle], callers := s.callers[t := locking[0].caller],
               locks := s.locks[l := s.locks[l].(holder := locking[0].caller)])
  {
    LockCall(s, t, l, locking, Alone(s, t, locking));
    UnlockIt(s, t, l, locking[0].caller, Alone(s, t, locking), unlocking);
  }

  lemma UnlockIt(s: State, t: nat, l: LockId, name: string, held: State, unlocking: seq<Choice>)
    requires Present(s, t, l) && |unlocking| == 4 && s.locks[l].count < WORD && s.locksCount < WORD
    requires var k := s.locks[l].(isLocked := true, count := (s.locks[l].count + 1) % WORD, holder := name);
             held == s.(threads := s.threads[t := Held(l)], callers := s.callers[t := name],
                        locks := s.locks[l := k], locksCount := (s.locksCount + 1) % WORD)
    requires !s.locks[l].isLocked
    ensures Alone(held, t, unlocking) ==
            s.(threads := s.threads[t := Idle], callers := s.callers[t := name],
               locks := s.locks[l := s.locks[l].(holder := name)])
  {
    var k := s.locks[l];
    RoundTheWord(k.count);
    RoundTheWord(s.locksCount);
    UnlockCall(held, t, l, unlocking, Alone(held, t, unlocking));
    assert held.threads[t := Idle] == s.threads[t := Idle];
    assert held.locks[l := k.(holder := name)] == s.locks[l := k.(holder := name)];
  }

  lemma RoundTheWord(n: nat)
    requires n < WORD
    ensures (n + 1) % WORD < WORD && ((n + 1) % WORD - 1) % WORD == n
  { }

  // ---------------------------------------------------------------------
  // A lock that is taken
  // ---------------------------------------------------------------------

  /** Where a thread goes that has spun in vain. */
  function Handler(mode: Mode, l: LockId): Thread {
    match mode
    case Plain => EnterDeadLock(l)
    case Timed => TestTimeout(l)
  }

  lemma {:induction false} Spins(
    s: State, t: nat, l: LockId, states: nat -> State, choices: seq<Choice>, mode: Mode, p: Place, n: nat)
    requires Present(s, t, l) && Runs(states, t, choices) && n < s.timeout < |choices|
    requires p.pc == Exchange(l, mode, 0) && p.lock.isLocked && states(0) == At(s, t, l, p)
    ensures states(n) == At(s, t, l, p.(pc := Exchange(l, mode, n)))
  {
    if n > 0 {
      Spins(s, t, l, states, choices, mode, p, n - 1);
      Moves(s, t, l, states, choices, n - 1, p.(pc := Exchange(l, mode, n - 1)), p.(pc := Exchange(l, mode, n)));
    }
  }

  /** On a taken lock a call tries as often as the timeout says, changes nothing, and comes to its handler. */
  lemma SpinCall(s: State, t: nat, l: LockId, mode: Mode, choices: seq<Choice>, after: State)
    requires Present(s, t, l) && s.threads[t] == Exchange(l, mode, 0) && s.locks[l].isLocked && s.timeout > 0
    requires |choices| == s.timeout + 1
    requires after == Alone(s, t, choices)
    ensures after == s.(threads := s.threads[t := Handler(mode, l)])
  {
    var states := AloneRuns(s, t, choices);
    var p := Place(Exchange(l, mode, 0), s.locks[l], s.locksCount, s.forcedLockSubs);
    assert s.threads[t := p.pc] == s.threads && s.locks[l := p.lock] == s.locks;
    var n := s.timeout;
    Spins(s, t, l, states, choices, mode, p, n - 1);
    var lost := p.(pc := Check(l, mode, n, false));
    Moves(s, t, l, states, choices, n - 1, p.(pc := Exchange(l, mode, n - 1)), lost);
    Moves(s, t, l, states, choices, n, lost, p.(pc := Handler(mode, l)));
  }

  /** A forced unlock: the lock is free, and it is counted off although no holder let it go. */
  function Forced(k: Lock): Lock {
    k.(isLocked := false, count := Dec(k.count), forced := k.forced + 1,
       taken := if k.isLocked then k.taken + 1 else k.taken, forcedSubs := k.forcedSubs + 1)
  }

  lemma Forces(s: State, t: nat, l: LockId, states: nat -> State, choices: seq<Choice>, n: nat, mode: Mode, p: Place)
    requires Present(s, t, l) && Runs(states, t, choices) && n + 3 <= |choices|
    requires p.pc == ForcedStore(l, mode) && states(n) == At(s, t, l, p)
    ensures states(n + 3) ==
            At(s, t, l, Place(Exchange(l, mode, 0), Forced(p.lock), Dec(p.locksCount), p.forcedLockSubs + 1))
  {
    var k := Forced(p.lock);
    var freed := p.(pc := ForcedSubCount(l, mode), lock := k.(count := p.lock.count, forcedSubs := p.lock.forcedSubs));
    Moves(s, t, l, states, choices, n, p, freed);
    var counted := p.(pc := ForcedSubLocks(l, mode), lock := k);
    Moves(s, t, l, states, choices, n + 1, freed, counted);
    Moves(s, t, l, states, choices, n + 2, counted,
          Place(Exchange(l, mode, 0), k, Dec(p.locksCount), p.forcedLockSubs + 1));
  }

  /** What a handler leaves: the thread tries again, and the lock is as given. */
  function Retried(s: State, t: nat, l: LockId, mode: Mode, k: Lock, forced: bool): State
    requires t < |s.threads| && l < |s.locks|
  {
    At(s, t, l, Place(Exchange(l, mode, 0), k, if forced then Dec(s.locksCount) else s.locksCount,
                      s.forcedLockSubs + One(forced)))
  }

  /** DeadLock with ForceUnlock set: forgets the deadlocks and unlocks. */
  lemma DeadLockForced(s: State, t: nat, l: LockId, choices: seq<Choice>, after: State)
    requires Present(s, t, l) && s.threads[t] == EnterDeadLock(l) && |choices| == 5 && choices[0].force
    requires after == Alone(s, t, choices)
    ensures after == Retried(s, t, l, Plain, Forced(s.locks[l]).(deadLocks := 0), true)
  {
    var states := AloneRuns(s, t, choices);
    var p := Place(EnterDeadLock(l), s.locks[l], s.locksCount, s.forcedLockSubs);
    assert s.threads[t := p.pc] == s.threads && s.locks[l := p.lock] == s.locks;
    var resetting := p.(pc := ResetDeadLocks(l));
    Moves(s, t, l, states, choices, 0, p, resetting);
    var reset := p.(pc := ForcedStore(l, Plain), lock := p.lock.(deadLocks := 0));
    Moves(s, t, l, states, choices, 1, resetting, reset);
    Forces(s, t, l, states, choices, 2, Plain, reset);
  }

  /** DeadLock without it counts a deadlock first, up to where it looks at the number. */
  lemma Bumps(s: State, t: nat, l: LockId, states: nat -> State, choices: seq<Choice>, p: Place)
    requires Present(s, t, l) && Runs(states, t, choices) && |choices| >= 2 && !choices[0].force
    requires p.pc == EnterDeadLock(l) && states(0) == At(s, t, l, p)
    ensures states(2) ==
            At(s, t, l, p.(pc := TestDeadLocks(l), lock := p.lock.(deadLocks := Inc(p.lock.deadLocks))))
  {
    var bumping := p.(pc := BumpDeadLocks(l));
    Moves(s, t, l, states, choices, 0, p, bumping);
    Moves(s, t, l, states, choices, 1, bumping,
          p.(pc := TestDeadLocks(l), lock := p.lock.(deadLocks := Inc(p.lock.deadLocks))));
  }

  /** Up to the tenth deadlock, or without Config.UnlockDeadLock, it just tries again. */
  lemma DeadLockCounted(s: State, t: nat, l: LockId, choices: seq<Choice>, after: State)
    requires Present(s, t, l) && s.threads[t] == EnterDeadLock(l) && |choices| == 3 && !choices[0].force
    requires s.locks[l].deadLocks + 1 < WORD && (choices[2].config ==> s.locks[l].deadLocks < 10)
    requires after == Alone(s, t, choices)
    ensures after ==
            Retried(s, t, l, Plain, s.locks[l].(deadLocks := s.locks[l].deadLocks + 1), false)
  {
    var states := AloneRuns(s, t, choices);
    var p := Place(EnterDeadLock(l), s.locks[l], s.locksCount, s.forcedLockSubs);
    assert s.threads[t := p.pc] == s.threads && s.locks[l := p.lock] == s.locks;
    Bumps(s, t, l, states, choices, p);
    var counted := p.(pc := TestDeadLocks(l), lock := p.lock.(deadLocks := p.lock.deadLocks + 1));
    Moves(s, t, l, states, choices, 2, counted, counted.(pc := Exchange(l, Plain, 0)));
  }

  /** With Config.UnlockDeadLock, after the eleventh it forgets them and unlocks. */
  lemma DeadLockUnlocks(s: State, t: nat, l: LockId, choices: seq<Choice>, after: State)
    requires Present(s, t, l) && s.threads[t] == EnterDeadLock(l) && |choices| == 7 && !choices[0].force
    requires 10 <= s.locks[l].deadLocks < WORD - 1 && choices[2].config
    requires after == Alone(s, t, choices)
    ensures after == Retried(s, t, l, Plain, Forced(s.locks[l]).(deadLocks := 0), true)
  {
    var states := AloneRuns(s, t, choices);
    var p := Place(EnterDeadLock(l), s.locks[l], s.locksCount, s.forcedLockSubs);
    assert s.threads[t := p.pc] == s.threads && s.locks[l := p.lock] == s.locks;
    Bumps(s, t, l, states, choices, p);
    var counted := p.(pc := TestDeadLocks(l), lock := p.lock.(deadLocks := p.lock.deadLocks + 1));
    var resetting := counted.(pc := ResetDeadLocks(l));
    Moves(s, t, l, states, choices, 2, counted, resetting);
    var reset := p.(pc := ForcedStore(l, Plain), lock := p.lock.(deadLocks := 0));
    Moves(s, t, l, states, choices, 3, resetting, reset);
    Forces(s, t, l, states, choices, 4, Plain, reset);
  }

  /** TimeoutDeadLock unlocks when the time is over, and else just tries again. */
  lemma TimeoutCall(s: State, t: nat, l: LockId, choices: seq<Choice>, after: State)
    requires Present(s, t, l) && s.threads[t] == TestTimeout(l)
    requires |choices| == if |choices| > 0 && choices[0].expired then 4 else 1
    requires after == Alone(s, t, choices)
    ensures after ==
            Retried(s, t, l, Timed, if choices[0].expired then Forced(s.locks[l]) else s.locks[l], choices[0].expired)
  {
    var states := AloneRuns(s, t, choices);
    var p := Place(TestTimeout(l), s.locks[l], s.locksCount, s.forcedLockSubs);
    assert s.threads[t := p.pc] == s.threads && s.locks[l := p.lock] == s.locks;
    if choices[0].expired {
      var forcing := p.(pc := ForcedStore(l, Timed));
      Moves(s, t, l, states, choices, 0, p, forcing);
      Forces(s, t, l, states, choices, 1, Timed, forcing);
    } else {
      Moves(s, t, l, states, choices, 0, p, p.(pc := Exchange(l, Timed, 0)));
    }
  }

  // ---------------------------------------------------------------------
  // Among other threads
  // ---------------------------------------------------------------------

  /**
   A step of one thread leaves the others where they are; it changes no lock but the one the thread
   asked for, and until the call is over the thread stays with that lock and its caller's name.
   */
  lemma StepKeeps(s: State, t: nat, c: Choice)
    requires t < |s.threads| == |s.callers|
    ensures var after := Step(s, t, c); var pc := s.threads[t]; var next := after.threads[t];
            && |after.threads| == |s.threads| && |after.locks| == |s.locks|
            && (forall u :: 0 <= u < |s.threads| && u != t ==>
                  after.threads[u] == s.threads[u] && after.callers[u] == s.callers[u])
            && (forall l :: 0 <= l < |s.locks| && (pc.Idle? || l != pc.lock) ==> after.locks[l] == s.locks[l])
            && (!pc.Idle? ==> (next.Idle? || next.lock == pc.lock) && after.callers[t] == s.callers[t])
            && (pc.Idle? && !next.Idle? ==> next.lock == c.lock && after.callers[t] == c.caller)
  { }
}
