/**
 When the spin lock excludes: exactly when nothing can make a handler force a lock open.
 */
module LockExclusion {
  import opened SpinLock

  /**
   What the steps of a run may see: ForceUnlock set, Config.UnlockDeadLock set, calls of
   TimeoutLock, and a clock past the target of such a call.
   */
  datatype Policy = Policy(force: bool, config: bool, timed: bool, expired: bool)

  predicate Allows(p: Policy, c: Choice) {
    (c.force ==> p.force) && (c.config ==> p.config) && (c.mode.Timed? ==> p.timed) && (c.expired ==> p.expired)
  }

  ghost predicate Permitted(p: Policy, schedule: Schedule) {
    forall i :: 0 <= i < |schedule| ==> Allows(p, schedule[i].1)
  }

  ghost predicate Leads(p: Policy, s: State, s': State) {
    exists schedule: Schedule :: Permitted(p, schedule) && s' == Run(s, schedule)
  }

  /** No two threads are inside one lock. */
  ghost predicate Exclusive(s: State) {
    forall l :: 0 <= l < |s.locks| ==> Count(s.threads, Inside, l) <= 1
  }

  /** Neither handler can come to a forced unlock. */
  predicate Quiet(p: Policy) {
    !p.force && !p.config && !(p.timed && p.expired)
  }

  // ---------------------------------------------------------------------
  // A quiet run never forces a lock
  // ---------------------------------------------------------------------

  predicate ModeOf(p: Policy, mode: Mode) {
    mode.Timed? ==> p.timed
  }

  /** Where a thread can be in a quiet run. */
  predicate Calm(p: Policy, pc: Thread) {
    match pc
    case Exchange(_, mode, _) => ModeOf(p, mode)
    case Check(_, mode, _, _) => ModeOf(p, mode)
    case TestTimeout(_) => p.timed
    case ResetDeadLocks(_) => false
    case ForcedStore(_, _) => false
    case ForcedSubCount(_, _) => false
    case ForcedSubLocks(_, _) => false
    case _ => true
  }

  ghost predicate AllCalm(p: Policy, s: State) {
    (forall t :: 0 <= t < |s.threads| ==> Calm(p, s.threads[t])) &&
    (forall l :: 0 <= l < |s.locks| ==> s.locks[l].forced == 0)
  }

  lemma NextCalm(p: Policy, name: string, pc: Thread, k: Lock, timeout: nat, c: Choice)
    requires Quiet(p) && Allows(p, c) && !pc.Idle? && Calm(p, pc)
    ensures var n := Next(name, pc, k, timeout, c); Calm(p, n.pc) && n.lock.forced == k.forced
  { }

  lemma StepCalm(p: Policy, s: State, t: nat, c: Choice)
    requires Quiet(p) && Allows(p, c) && AllCalm(p, s)
    ensures AllCalm(p, Step(s, t, c))
  {
    if t < |s.threads| && t < |s.callers| && !s.threads[t].Idle? && s.threads[t].lock < |s.locks| {
      NextCalm(p, s.callers[t], s.threads[t], s.locks[s.threads[t].lock], s.timeout, c);
    }
  }

  lemma {:induction false} RunCalm(p: Policy, s: State, schedule: Schedule)
    requires Quiet(p) && Permitted(p, schedule) && AllCalm(p, s)
    ensures AllCalm(p, Run(s, schedule))
    decreases |schedule|
  {
    if schedule != [] {
      var last := |schedule| - 1;
      RunCalm(p, s, schedule[..last]);
      StepCalm(p, Run(s, schedule[..last]), schedule[last].0, schedule[last].1);
    }
  }

  lemma QuietExcludes(p: Policy, threads: nat, locks: nat, timeout: nat, s: State)
    requires Quiet(p) && timeout > 0 && Leads(p, Init(threads, locks, timeout), s)
    ensures Exclusive(s)
  {
    var schedule: Schedule :| Permitted(p, schedule) && s == Run(Init(threads, locks, timeout), schedule);
    InitInv(threads, locks, timeout);
    RunInv(Init(threads, locks, timeout), schedule);
    RunCalm(p, Init(threads, locks, timeout), schedule);
    forall l | 0 <= l < |s.locks|
      ensures Count(s.threads, Inside, l) <= 1
    {
      assert InsideOk(s.threads, l, s.locks[l]) && s.locks[l].forced == 0;
    }
  }

  // ---------------------------------------------------------------------
  // Any other run can break in
  // ---------------------------------------------------------------------

  lemma {:induction false} RunAppend(s: State, a: Schedule, b: Schedule)
    ensures Run(s, a + b) == Run(Run(s, a), b)
    decreases |b|
  {
    if b == [] {
      assert a + b == a;
    } else {
      var last := |b| - 1;
      assert (a + b)[..|a + b| - 1] == a + b[..last];
      RunAppend(s, a, b[..last]);
    }
  }

  lemma LeadsTrans(p: Policy, s: State, s': State, s'': State)
    requires Leads(p, s, s') && Leads(p, s', s'')
    ensures Leads(p, s, s'')
  {
    var a: Schedule :| Permitted(p, a) && s' == Run(s, a);
    var b: Schedule :| Permitted(p, b) && s'' == Run(s', b);
    RunAppend(s, a, b);
    assert Permitted(p, a + b);
  }

  lemma LeadsStep(p: Policy, s: State, t: nat, c: Choice, s': State)
    requires s' == Step(s, t, c) && Allows(p, c)
    ensures Leads(p, s, s')
  {
    var schedule := [(t, c)];
    assert schedule[..0] == [];
    assert Run(s, schedule) == Step(s, t, c) && Permitted(p, schedule);
  }

  /** What one step sees when a handler is to force the lock: a reason that fits the kind of call. */
  predicate Forcing(c: Choice) {
    c.lock == 0 && if c.mode.Plain? then c.force || c.config else c.expired
  }

  /** The first thread is at `w` and the second at `pc`; the first lock is `k`. */
  ghost predicate Duel(s: State, w: Thread, pc: Thread, k: Lock) {
    s.timeout > 0 && |s.callers| == |s.threads| >= 2 && |s.locks| >= 1 &&
    s.threads[0] == w && s.threads[1] == pc && s.locks[0] == k
  }

  lemma SecondMoves(p: Policy, c: Choice, s: State, w: Thread, pc: Thread, k: Lock, to: Thread, k': Lock)
    returns (s': State)
    requires Allows(p, c) && Duel(s, w, pc, k) && !pc.Idle? && pc.lock == 0
    requires Next(s.callers[1], pc, k, s.timeout, c) == Local(to, k')
    ensures Duel(s', w, to, k') && Leads(p, s, s') && s'.timeout == s.timeout
  {
    s' := Step(s, 1, c);
    LeadsStep(p, s, 1, c, s');
  }

  /** The second thread uses up its exchanges. */
  lemma {:induction false} Spin(p: Policy, c: Choice, s: State, w: Thread, k: Lock, i: nat) returns (s': State)
    requires Allows(p, c) && i < s.timeout && k.isLocked && Duel(s, w, Exchange(0, c.mode, i), k)
    ensures Duel(s', w, Check(0, c.mode, s.timeout, false), k) && Leads(p, s, s') && s'.timeout == s.timeout
    decreases s.timeout - i
  {
    if i + 1 == s.timeout {
      s' := SecondMoves(p, c, s, w, Exchange(0, c.mode, i), k, Check(0, c.mode, i + 1, false), k);
    } else {
      var s1 := SecondMoves(p, c, s, w, Exchange(0, c.mode, i), k, Exchange(0, c.mode, i + 1), k);
      s' := Spin(p, c, s1, w, k, i + 1);
      LeadsTrans(p, s, s1, s');
    }
  }

  /** The deadlock handler with ForceUnlock set, up to the forced store. */
  lemma ForceGivesUp(p: Policy, c: Choice, s: State, w: Thread, k: Lock) returns (s': State, k': Lock)
    requires Allows(p, c) && c.force && Duel(s, w, EnterDeadLock(0), k)
    ensures Duel(s', w, ForcedStore(0, Plain), k') && Leads(p, s, s') && s'.timeout == s.timeout
  {
    k' := k.(deadLocks := 0);
    var s1 := SecondMoves(p, c, s, w, EnterDeadLock(0), k, ResetDeadLocks(0), k);
    s' := SecondMoves(p, c, s1, w, ResetDeadLocks(0), k, ForcedStore(0, Plain), k');
    LeadsTrans(p, s, s1, s');
  }

  /** One more deadlock is counted. */
  lemma CountsDeadLock(p: Policy, c: Choice, s: State, w: Thread, k: Lock) returns (s': State, k': Lock)
    requires Allows(p, c) && !c.force && k.deadLocks <= PATIENCE && Duel(s, w, EnterDeadLock(0), k)
    ensures k' == k.(deadLocks := k.deadLocks + 1)
    ensures Duel(s', w, TestDeadLocks(0), k') && Leads(p, s, s') && s'.timeout == s.timeout
  {
    k' := k.(deadLocks := k.deadLocks + 1);
    var s1 := SecondMoves(p, c, s, w, EnterDeadLock(0), k, BumpDeadLocks(0), k);
    s' := SecondMoves(p, c, s1, w, BumpDeadLocks(0), k, TestDeadLocks(0), k');
    LeadsTrans(p, s, s1, s');
  }

  /** With Config.UnlockDeadLock set, the handler counts more than ten deadlocks and then unlocks. */
  lemma {:induction false} ConfigGivesUp(p: Policy, c: Choice, s: State, w: Thread, k: Lock)
    returns (s': State, k': Lock)
    requires Allows(p, c) && c.mode.Plain? && !c.force && c.config && k.isLocked && k.deadLocks <= PATIENCE
    requires Duel(s, w, EnterDeadLock(0), k)
    ensures Duel(s', w, ForcedStore(0, Plain), k') && Leads(p, s, s') && s'.timeout == s.timeout
    decreases PATIENCE - k.deadLocks
  {
    var s1, k1 := CountsDeadLock(p, c, s, w, k);
    if k1.deadLocks > PATIENCE {
      s', k' := LosesPatience(p, c, s1, w, k1);
      LeadsTrans(p, s, s1, s');
    } else {
      var s2 := TriesAgain(p, c, s1, w, k1);
      LeadsTrans(p, s, s1, s2);
      s', k' := ConfigGivesUp(p, c, s2, w, k1);
      LeadsTrans(p, s, s2, s');
    }
  }

  lemma LosesPatience(p: Policy, c: Choice, s: State, w: Thread, k: Lock) returns (s': State, k': Lock)
    requires Allows(p, c) && c.config && k.deadLocks > PATIENCE && Duel(s, w, TestDeadLocks(0), k)
    ensures Duel(s', w, ForcedStore(0, Plain), k') && Leads(p, s, s') && s'.timeout == s.timeout
  {
    k' := k.(deadLocks := 0);
    var s1 := SecondMoves(p, c, s, w, TestDeadLocks(0), k, ResetDeadLocks(0), k);
    s' := SecondMoves(p, c, s1, w, ResetDeadLocks(0), k, ForcedStore(0, Plain), k');
    LeadsTrans(p, s, s1, s');
  }

  lemma TriesAgain(p: Policy, c: Choice, s: State, w: Thread, k: Lock) returns (s': State)
    requires Allows(p, c) && c.mode.Plain? && k.isLocked && k.deadLocks <= PATIENCE && Duel(s, w, TestDeadLocks(0), k)
    ensures Duel(s', w, EnterDeadLock(0), k) && Leads(p, s, s') && s'.timeout == s.timeout
  {
    var s1 := SecondMoves(p, c, s, w, TestDeadLocks(0), k, Exchange(0, Plain, 0), k);
    s' := SpinAndEnter(p, c, s1, w, k);
    LeadsTrans(p, s, s1, s');
  }

  lemma SpinAndEnter(p: Policy, c: Choice, s: State, w: Thread, k: Lock) returns (s': State)
    requires Allows(p, c) && k.isLocked && Duel(s, w, Exchange(0, c.mode, 0), k)
    ensures Duel(s', w, if c.mode.Plain? then EnterDeadLock(0) else TestTimeout(0), k)
    ensures Leads(p, s, s') && s'.timeout == s.timeout
  {
    var handler := if c.mode.Plain? then EnterDeadLock(0) else TestTimeout(0);
    var s1 := Spin(p, c, s, w, k, 0);
    s' := SecondMoves(p, c, s1, w, Check(0, c.mode, s.timeout, false), k, handler, k);
    LeadsTrans(p, s, s1, s');
  }

  /** Whatever the reason, the second thread comes to the forced store. */
  lemma GivesUp(p: Policy, c: Choice, s: State, w: Thread, k: Lock) returns (s': State, k': Lock)
    requires Allows(p, c) && Forcing(c) && k.isLocked && k.deadLocks <= PATIENCE
    requires Duel(s, w, Exchange(0, c.mode, 0), k)
    ensures Duel(s', w, ForcedStore(0, c.mode), k') && Leads(p, s, s') && s'.timeout == s.timeout
  {
    var s1 := SpinAndEnter(p, c, s, w, k);
    if c.mode.Timed? {
      k' := k;
      s' := SecondMoves(p, c, s1, w, TestTimeout(0), k, ForcedStore(0, Timed), k);
    } else if c.force {
      s', k' := ForceGivesUp(p, c, s1, w, k);
    } else {
      s', k' := ConfigGivesUp(p, c, s1, w, k);
    }
    LeadsTrans(p, s, s1, s');
  }

  /** The forced unlock, and the exchange that then wins. */
  lemma BreaksIn(p: Policy, c: Choice, s: State, w: Thread, k: Lock) returns (s': State, k': Lock)
    requires Allows(p, c) && Duel(s, w, ForcedStore(0, c.mode), k)
    ensures Duel(s', w, Check(0, c.mode, 0, true), k') && Leads(p, s, s')
  {
    var s1, k1 := Unlocks(p, c, s, w, k);
    k' := k1.(isLocked := true);
    s' := SecondMoves(p, c, s1, w, Exchange(0, c.mode, 0), k1, Check(0, c.mode, 0, true), k');
    LeadsTrans(p, s, s1, s');
  }

  lemma Unlocks(p: Policy, c: Choice, s: State, w: Thread, k: Lock) returns (s': State, k': Lock)
    requires Allows(p, c) && Duel(s, w, ForcedStore(0, c.mode), k)
    ensures Duel(s', w, Exchange(0, c.mode, 0), k') && !k'.isLocked && Leads(p, s, s')
  {
    var k1 := Next(s.callers[1], ForcedStore(0, c.mode), k, s.timeout, c).lock;
    var s1 := SecondMoves(p, c, s, w, ForcedStore(0, c.mode), k, ForcedSubCount(0, c.mode), k1);
    k' := Next(s1.callers[1], ForcedSubCount(0, c.mode), k1, s1.timeout, c).lock;
    var s2 := SecondMoves(p, c, s1, w, ForcedSubCount(0, c.mode), k1, ForcedSubLocks(0, c.mode), k');
    LeadsTrans(p, s, s1, s2);
    s' := SecondMoves(p, c, s2, w, ForcedSubLocks(0, c.mode), k', Exchange(0, c.mode, 0), k');
    LeadsTrans(p, s, s2, s');
  }

  /** One thread takes the lock, and a second one begins to wait for it. */
  lemma FirstIn(p: Policy, c: Choice, threads: nat, locks: nat, timeout: nat) returns (s': State, k: Lock)
    requires Allows(p, c) && c.lock == 0 && threads >= 2 && locks >= 1 && timeout > 0
    ensures Duel(s', Check(0, c.mode, 0, true), Exchange(0, c.mode, 0), k) && s'.timeout == timeout
    ensures k.isLocked && k.deadLocks == 0 && Leads(p, Init(threads, locks, timeout), s')
  {
    var s0 := Init(threads, locks, timeout);
    var s1 := Step(s0, 0, c);
    LeadsStep(p, s0, 0, c, s1);
    assert Duel(s1, Exchange(0, c.mode, 0), Idle, UNLOCKED);
    s', k := TakesIt(p, c, s1);
    LeadsTrans(p, s0, s1, s');
  }

  lemma TakesIt(p: Policy, c: Choice, s: State) returns (s': State, k: Lock)
    requires Allows(p, c) && c.lock == 0 && Duel(s, Exchange(0, c.mode, 0), Idle, UNLOCKED)
    ensures Duel(s', Check(0, c.mode, 0, true), Exchange(0, c.mode, 0), k) && s'.timeout == s.timeout
    ensures k.isLocked && k.deadLocks == 0 && Leads(p, s, s')
  {
    k := UNLOCKED.(isLocked := true);
    var s1 := Step(s, 0, c);
    LeadsStep(p, s, 0, c, s1);
    assert Duel(s1, Check(0, c.mode, 0, true), Idle, k);
    s' := Step(s1, 1, c);
    LeadsStep(p, s1, 1, c, s');
    LeadsTrans(p, s, s1, s');
  }

  /** With any reason for a forced unlock, two threads get inside the same lock. */
  lemma ExclusionBroken(p: Policy, threads: nat, locks: nat, timeout: nat) returns (s: State)
    requires !Quiet(p) && threads >= 2 && locks >= 1 && timeout > 0
    ensures Leads(p, Init(threads, locks, timeout), s) && !Exclusive(s)
  {
    var c := if p.force || p.config then Choice(0, "", Plain, p.force, p.config, false)
             else Choice(0, "", Timed, false, false, true);
    var w := Check(0, c.mode, 0, true);
    var s0 := Init(threads, locks, timeout);
    var s1, k1 := FirstIn(p, c, threads, locks, timeout);
    var s2, k2 := GivesUp(p, c, s1, w, k1);
    LeadsTrans(p, s0, s1, s2);
    var s3, k3 := BreaksIn(p, c, s2, w, k2);
    LeadsTrans(p, s0, s2, s3);
    s := s3;
    CountTwo(s.threads, 0, 1, Inside, 0);
  }

  // ---------------------------------------------------------------------
  // The exact condition
  // ---------------------------------------------------------------------

  lemma {:induction false} CountAtMost(ts: seq<Thread>, z: Zone, l: LockId)
    ensures Count(ts, z, l) <= |ts|
  {
    if ts != [] {
      CountAtMost(ts[1..], z, l);
    }
  }

  lemma {:induction false} RunSizes(s: State, schedule: Schedule)
    ensures |Run(s, schedule).threads| == |s.threads| && |Run(s, schedule).locks| == |s.locks|
    decreases |schedule|
  {
    if schedule != [] {
      RunSizes(s, schedule[..|schedule| - 1]);
    }
  }

  lemma TooFewToCollide(p: Policy, threads: nat, locks: nat, timeout: nat, s: State)
    requires (threads < 2 || locks == 0) && Leads(p, Init(threads, locks, timeout), s)
    ensures Exclusive(s)
  {
    var schedule: Schedule :| Permitted(p, schedule) && s == Run(Init(threads, locks, timeout), schedule);
    RunSizes(Init(threads, locks, timeout), schedule);
    forall l | 0 <= l < |s.locks|
      ensures Count(s.threads, Inside, l) <= 1
    {
      CountAtMost(s.threads, Inside, l);
    }
  }

  /**
   For every number of threads and locks and every timeout: all states that can be reached are
   exclusive exactly when no handler has a reason to force a lock open, or nothing can collide.
   */
  lemma ExclusionExact(p: Policy, threads: nat, locks: nat, timeout: nat)
    requires timeout > 0
    ensures (forall s :: Leads(p, Init(threads, locks, timeout), s) ==> Exclusive(s)) <==>
            Quiet(p) || threads < 2 || locks == 0
  {
    if Quiet(p) || threads < 2 || locks == 0 {
      forall s | Leads(p, Init(threads, locks, timeout), s)
        ensures Exclusive(s)
      {
        if Quiet(p) {
          QuietExcludes(p, threads, locks, timeout, s);
        } else {
          TooFewToCollide(p, threads, locks, timeout, s);
        }
      }
    } else {
      var s := ExclusionBroken(p, threads, locks, timeout);
    }
  }
}
