/**
 The kernel spin lock as a step system: any number of threads and locks, one step for
 each atomic operation of Lock, TimeoutLock, Unlock and the two deadlock handlers.

 A thread here is one use of a scope guard: it takes one lock and releases it before it
 takes another. A kernel thread that nests guards is several of these threads whose
 steps happen to be ordered, so every interleaving of the kernel is a run of this model.

 ForceUnlock, Config.UnlockDeadLock and the clock are read by the handlers; a step gets
 what they read from its `Choice`, so they may change at any time. DEADLOCK_TIMEOUT, which
 differs between builds, is any number above zero.
 */
module SpinLock {

  type LockId = nat

  // size_t is 64 bits wide.
  const WORD: nat := 0x1_0000_0000_0000_0000
  const PATIENCE: nat := 10

  datatype Mode = Plain | Timed

  /** Where a thread is, named after the operation it performs next. */
  datatype Thread =
    | Idle
    | Exchange(lock: LockId, mode: Mode, spins: nat)
    | Check(lock: LockId, mode: Mode, spins: nat, won: bool)
    | AddCount(lock: LockId)
    | StoreHolder(lock: LockId)
    | AddLocks(lock: LockId)
    | Held(lock: LockId)
    | StoreFalse(lock: LockId)
    | SubCount(lock: LockId)
    | SubLocks(lock: LockId)
    | EnterDeadLock(lock: LockId)
    | BumpDeadLocks(lock: LockId)
    | TestDeadLocks(lock: LockId)
    | ResetDeadLocks(lock: LockId)
    | TestTimeout(lock: LockId)
    | ForcedStore(lock: LockId, mode: Mode)
    | ForcedSubCount(lock: LockId, mode: Mode)
    | ForcedSubLocks(lock: LockId, mode: Mode)

  /**
   A lock. The last four fields are history: forced unlock stores so far, those among
   them that found the lock taken, forced decrements of `count`, and owners' unlock
   stores that found the lock already free.
   */
  datatype Lock = Lock(
    isLocked: bool, count: nat, holder: string, deadLocks: nat,
    forced: nat, taken: nat, forcedSubs: nat, late: nat)

  /** `callers` are the function names that the threads passed to Lock, one each. */
  datatype State = State(
    threads: seq<Thread>, callers: seq<string>, locks: seq<Lock>, locksCount: nat, forcedLockSubs: nat, timeout: nat)

  datatype Choice = Choice(lock: LockId, caller: string, mode: Mode, force: bool, config: bool, expired: bool)

  const UNLOCKED: Lock := Lock(false, 0, "(nul)", 0, 0, 0, 0, 0)

  function Init(threads: nat, locks: nat, timeout: nat): State {
    State(seq(threads, _ => Idle), seq(threads, _ => ""), seq(locks, _ => UNLOCKED), 0, 0, timeout)
  }

  function Inc(n: nat): nat {
    if n + 1 == WORD then 0 else n + 1
  }

  function Dec(n: nat): nat {
    if n == 0 then WORD - 1 else n - 1
  }

  /** A counter after an atomic addition of -1, 0 or 1. */
  function Add(word: nat, delta: int): nat {
    if delta == 1 then Inc(word) else if delta == -1 then Dec(word) else word
  }

  datatype Local = Local(pc: Thread, lock: Lock)

  /** One step of a thread that was called by `name`, is at `pc` and works on lock `k`. */
  function Next(name: string, pc: Thread, k: Lock, timeout: nat, c: Choice): Local
    requires !pc.Idle?
  {
    var l := pc.lock;
    match pc
    case Exchange(_, mode, i) =>
      if !k.isLocked then Local(Check(l, mode, i, true), k.(isLocked := true))
      else if i + 1 < timeout then Local(Exchange(l, mode, i + 1), k)
      else Local(Check(l, mode, i + 1, false), k)
    case Check(_, mode, i, _) =>
      if i < timeout then Local(AddCount(l), k)
      else Local(if mode.Plain? then EnterDeadLock(l) else TestTimeout(l), k)
    case AddCount(_) => Local(StoreHolder(l), k.(count := Add(k.count, 1)))
    case StoreHolder(_) => Local(AddLocks(l), k.(holder := name))
    case AddLocks(_) => Local(Held(l), k)
    case Held(_) => Local(StoreFalse(l), k)
    case StoreFalse(_) =>
      Local(SubCount(l), k.(isLocked := false, late := if k.isLocked then k.late else k.late + 1))
    case SubCount(_) => Local(SubLocks(l), k.(count := Add(k.count, -1)))
    case SubLocks(_) => Local(Idle, k)
    case EnterDeadLock(_) => Local(if c.force then ResetDeadLocks(l) else BumpDeadLocks(l), k)
    case BumpDeadLocks(_) => Local(TestDeadLocks(l), k.(deadLocks := Add(k.deadLocks, 1)))
    case TestDeadLocks(_) =>
      Local(if c.config && k.deadLocks > PATIENCE then ResetDeadLocks(l) else Exchange(l, Plain, 0), k)
    case ResetDeadLocks(_) => Local(ForcedStore(l, Plain), k.(deadLocks := 0))
    case TestTimeout(_) => Local(if c.expired then ForcedStore(l, Timed) else Exchange(l, Timed, 0), k)
    case ForcedStore(_, mode) =>
      Local(ForcedSubCount(l, mode),
            k.(isLocked := false, forced := k.forced + 1, taken := if k.isLocked then k.taken + 1 else k.taken))
    case ForcedSubCount(_, mode) =>
      Local(ForcedSubLocks(l, mode), k.(count := Add(k.count, -1), forcedSubs := k.forcedSubs + 1))
    case ForcedSubLocks(_, mode) => Local(Exchange(l, mode, 0), k)
  }

  /** What the step at `pc` adds to LocksCount. */
  function LocksDelta(pc: Thread): int {
    if pc.AddLocks? then 1 else if pc.SubLocks? || pc.ForcedSubLocks? then -1 else 0
  }

  /** One step of thread `t`; an idle thread starts on the lock it chooses. */
  function Step(s: State, t: nat, c: Choice): State {
    if t >= |s.threads| || t >= |s.callers| then s
    else
      var pc := s.threads[t];
      if pc.Idle? then
        if c.lock >= |s.locks| then s
        else s.(threads := s.threads[t := Exchange(c.lock, c.mode, 0)], callers := s.callers[t := c.caller])
      else if pc.lock >= |s.locks| then s
      else
        var next := Next(s.callers[t], pc, s.locks[pc.lock], s.timeout, c);
        s.(threads := s.threads[t := next.pc],
           locks := s.locks[pc.lock := next.lock],
           locksCount := Add(s.locksCount, LocksDelta(pc)),
           forcedLockSubs := s.forcedLockSubs + One(pc.ForcedSubLocks?))
  }

  type Schedule = seq<(nat, Choice)>

  /** The state after a schedule of steps. */
  function Run(s: State, schedule: Schedule): State
    decreases |schedule|
  {
    if schedule == [] then s
    else
      var last := |schedule| - 1;
      var before := Run(s, schedule[..last]);
      Step(before, schedule[last].0, schedule[last].1)
  }

  // ---------------------------------------------------------------------
  // Counting threads
  // ---------------------------------------------------------------------

  /** Sets of program points that the counters of the source keep track of. */
  datatype Zone =
    | Inside         // from the exchange that found the lock free to the owner's unlock store
    | Counted        // from the increment of Count to the owner's decrement
    | Owed           // between a forced unlock store and its decrement of Count
    | Registered     // from the increment of LocksCount to the owner's decrement
    | OwedLocks      // between a forced unlock store and its decrement of LocksCount

  predicate In(z: Zone, pc: Thread) {
    match z
    case Inside =>
      (pc.Check? && pc.won) || pc.AddCount? || pc.StoreHolder? || pc.AddLocks? || pc.Held? || pc.StoreFalse?
    case Counted => pc.StoreHolder? || pc.AddLocks? || pc.Held? || pc.StoreFalse? || pc.SubCount?
    case Owed => pc.ForcedSubCount?
    case Registered => pc.Held? || pc.StoreFalse? || pc.SubCount? || pc.SubLocks?
    case OwedLocks => pc.ForcedSubCount? || pc.ForcedSubLocks?
  }

  function One(b: bool): nat {
    if b then 1 else 0
  }

  /** Threads in zone `z` of lock `l`. */
  function Count(ts: seq<Thread>, z: Zone, l: LockId): nat {
    if ts == [] then 0
    else One(In(z, ts[0]) && ts[0].lock == l) + Count(ts[1..], z, l)
  }

  /** Threads in zone `z` of any lock. */
  function CountAll(ts: seq<Thread>, z: Zone): nat {
    if ts == [] then 0 else One(In(z, ts[0])) + CountAll(ts[1..], z)
  }

  lemma {:induction false} CountUpdate(ts: seq<Thread>, t: nat, pc: Thread, z: Zone, l: LockId)
    requires t < |ts|
    ensures Count(ts[t := pc], z, l) + One(In(z, ts[t]) && ts[t].lock == l)
         == Count(ts, z, l) + One(In(z, pc) && pc.lock == l)
  {
    if t == 0 {
      assert ts[t := pc][1..] == ts[1..];
    } else {
      assert ts[t := pc][1..] == ts[1..][t - 1 := pc];
      CountUpdate(ts[1..], t - 1, pc, z, l);
    }
  }

  lemma {:induction false} CountAllUpdate(ts: seq<Thread>, t: nat, pc: Thread, z: Zone)
    requires t < |ts|
    ensures CountAll(ts[t := pc], z) + One(In(z, ts[t])) == CountAll(ts, z) + One(In(z, pc))
  {
    if t == 0 {
      assert ts[t := pc][1..] == ts[1..];
    } else {
      assert ts[t := pc][1..] == ts[1..][t - 1 := pc];
      CountAllUpdate(ts[1..], t - 1, pc, z);
    }
  }

  lemma {:induction false} CountPositive(ts: seq<Thread>, t: nat, z: Zone, l: LockId)
    requires t < |ts| && In(z, ts[t]) && ts[t].lock == l
    ensures Count(ts, z, l) >= 1
  {
    if t > 0 {
      CountPositive(ts[1..], t - 1, z, l);
    }
  }

  lemma {:induction false} CountTwo(ts: seq<Thread>, t: nat, u: nat, z: Zone, l: LockId)
    requires t < u < |ts| && In(z, ts[t]) && ts[t].lock == l && In(z, ts[u]) && ts[u].lock == l
    ensures Count(ts, z, l) >= 2
  {
    if t > 0 {
      CountTwo(ts[1..], t - 1, u - 1, z, l);
    } else {
      CountPositive(ts[1..], u - 1, z, l);
    }
  }

  lemma {:induction false} CountNone(n: nat, z: Zone, l: LockId)
    ensures Count(seq(n, _ => Idle), z, l) == 0 && CountAll(seq(n, _ => Idle), z) == 0
  {
    if n > 0 {
      assert seq(n, _ => Idle)[1..] == seq(n - 1, _ => Idle);
      CountNone(n - 1, z, l);
    }
  }

  // ---------------------------------------------------------------------
  // The invariant
  // ---------------------------------------------------------------------

  /** The exit taken after the loop is the timeout exit exactly when every exchange failed. */
  ghost predicate ThreadOk(s: State, pc: Thread) {
    !pc.Idle? ==>
      && pc.lock < |s.locks|
      && (pc.Exchange? ==> pc.spins < s.timeout)
      && (pc.Check? ==> pc.spins <= s.timeout && (pc.won <==> pc.spins < s.timeout))
  }

  ghost predicate InsideOk(ts: seq<Thread>, l: LockId, k: Lock) {
    && Count(ts, Inside, l) + k.late == One(k.isLocked) + k.taken
    && k.taken <= k.forced
    && (k.taken == 0 ==> k.late == 0)
  }

  ghost predicate CountedOk(ts: seq<Thread>, l: LockId, k: Lock) {
    && k.count == (Count(ts, Counted, l) - k.forcedSubs) % WORD
    && k.forced == k.forcedSubs + Count(ts, Owed, l)
  }

  ghost predicate LocksOk(s: State) {
    && s.locksCount == (CountAll(s.threads, Registered) - s.forcedLockSubs) % WORD
    && TotalForced(s.locks) == s.forcedLockSubs + CountAll(s.threads, OwedLocks)
  }

  function TotalForced(locks: seq<Lock>): nat {
    if locks == [] then 0 else locks[0].forced + TotalForced(locks[1..])
  }

  ghost predicate Inv(s: State) {
    && s.timeout > 0 && |s.callers| == |s.threads|
    && (forall t :: 0 <= t < |s.threads| ==> ThreadOk(s, s.threads[t]))
    && (forall l :: 0 <= l < |s.locks| ==> InsideOk(s.threads, l, s.locks[l]))
    && (forall l :: 0 <= l < |s.locks| ==> CountedOk(s.threads, l, s.locks[l]))
    && LocksOk(s)
  }

  lemma InitInv(threads: nat, locks: nat, timeout: nat)
    requires timeout > 0
    ensures Inv(Init(threads, locks, timeout))
  {
    var s := Init(threads, locks, timeout);
    forall l | 0 <= l < |s.locks|
      ensures InsideOk(s.threads, l, s.locks[l]) && CountedOk(s.threads, l, s.locks[l])
    {
      CountNone(threads, Inside, l);
      CountNone(threads, Counted, l);
      CountNone(threads, Owed, l);
    }
    CountNone(threads, Registered, 0);
    CountNone(threads, OwedLocks, 0);
    TotalForcedInit(locks);
  }

  lemma {:induction false} TotalForcedInit(n: nat)
    ensures TotalForced(seq(n, _ => UNLOCKED)) == 0
  {
    var locks := seq(n, _ => UNLOCKED);
    if n > 0 {
      assert locks[1..] == seq(n - 1, _ => UNLOCKED);
      TotalForcedInit(n - 1);
    }
  }

  lemma {:induction false} TotalForcedUpdate(locks: seq<Lock>, l: LockId, k: Lock)
    requires l < |locks|
    ensures TotalForced(locks[l := k]) + locks[l].forced == TotalForced(locks) + k.forced
  {
    if l == 0 {
      assert locks[l := k][1..] == locks[1..];
    } else {
      assert locks[l := k][1..] == locks[1..][l - 1 := k];
      TotalForcedUpdate(locks[1..], l - 1, k);
    }
  }

  lemma AddMod(word: nat, n: int, delta: int)
    requires word == n % WORD && -1 <= delta <= 1
    ensures Add(word, delta) == (n + delta) % WORD
  { }

  lemma NextThread(name: string, pc: Thread, k: Lock, s: State, c: Choice)
    requires !pc.Idle? && ThreadOk(s, pc) && s.timeout > 0
    ensures var n := Next(name, pc, k, s.timeout, c);
      ThreadOk(s, n.pc) && (n.pc.Idle? || n.pc.lock == pc.lock)
  { }

  lemma NextInside(name: string, pc: Thread, k: Lock, s: State, c: Choice)
    requires !pc.Idle? && ThreadOk(s, pc)
    ensures var n := Next(name, pc, k, s.timeout, c);
      && One(In(Inside, n.pc)) + n.lock.late - One(n.lock.isLocked) - n.lock.taken
         == One(In(Inside, pc)) + k.late - One(k.isLocked) - k.taken
      && n.lock.forced - n.lock.taken >= k.forced - k.taken
      && n.lock.taken >= k.taken
      && (n.lock.late == k.late ||
          (n.lock.late == k.late + 1 && !k.isLocked && In(Inside, pc) && n.lock.taken == k.taken))
  { }

  lemma NextCounted(name: string, pc: Thread, k: Lock, timeout: nat, c: Choice)
    requires !pc.Idle?
    ensures var n := Next(name, pc, k, timeout, c);
      && (var delta := (One(In(Counted, n.pc)) - n.lock.forcedSubs) - (One(In(Counted, pc)) - k.forcedSubs);
          -1 <= delta <= 1 && n.lock.count == Add(k.count, delta))
      && n.lock.forced - n.lock.forcedSubs - One(In(Owed, n.pc)) == k.forced - k.forcedSubs - One(In(Owed, pc))
  { }

  lemma NextLocks(name: string, pc: Thread, k: Lock, timeout: nat, c: Choice)
    requires !pc.Idle?
    ensures var n := Next(name, pc, k, timeout, c);
      && LocksDelta(pc) == One(In(Registered, n.pc)) - One(In(Registered, pc)) - One(pc.ForcedSubLocks?)
      && n.lock.forced - k.forced - One(pc.ForcedSubLocks?) == One(In(OwedLocks, n.pc)) - One(In(OwedLocks, pc))
  { }

  lemma OwnLockInside(ts: seq<Thread>, t: nat, to: Thread, k: Lock, k': Lock)
    requires t < |ts| && !ts[t].Idle? && (to.Idle? || to.lock == ts[t].lock)
    requires InsideOk(ts, ts[t].lock, k)
    requires One(In(Inside, to)) + k'.late - One(k'.isLocked) - k'.taken
          == One(In(Inside, ts[t])) + k.late - One(k.isLocked) - k.taken
    requires k'.forced - k'.taken >= k.forced - k.taken && k'.taken >= k.taken
    requires k'.late == k.late || (k'.late == k.late + 1 && !k.isLocked && In(Inside, ts[t]) && k'.taken == k.taken)
    ensures InsideOk(ts[t := to], ts[t].lock, k')
  {
    CountUpdate(ts, t, to, Inside, ts[t].lock);
    if In(Inside, ts[t]) {
      CountPositive(ts, t, Inside, ts[t].lock);
    }
  }

  lemma OwnLockCounted(ts: seq<Thread>, t: nat, to: Thread, k: Lock, k': Lock, delta: int)
    requires t < |ts| && !ts[t].Idle? && (to.Idle? || to.lock == ts[t].lock)
    requires CountedOk(ts, ts[t].lock, k)
    requires delta == (One(In(Counted, to)) - k'.forcedSubs) - (One(In(Counted, ts[t])) - k.forcedSubs)
    requires -1 <= delta <= 1 && k'.count == Add(k.count, delta)
    requires k'.forced - k'.forcedSubs - One(In(Owed, to)) == k.forced - k.forcedSubs - One(In(Owed, ts[t]))
    ensures CountedOk(ts[t := to], ts[t].lock, k')
  {
    var l := ts[t].lock;
    CountUpdate(ts, t, to, Counted, l);
    CountUpdate(ts, t, to, Owed, l);
    AddMod(k.count, Count(ts, Counted, l) - k.forcedSubs, delta);
  }

  lemma OtherLock(ts: seq<Thread>, t: nat, to: Thread, l: LockId, k: Lock)
    requires t < |ts| && (ts[t].Idle? || ts[t].lock != l) && (to.Idle? || to.lock != l || to.Exchange?)
    requires InsideOk(ts, l, k) && CountedOk(ts, l, k)
    ensures InsideOk(ts[t := to], l, k) && CountedOk(ts[t := to], l, k)
  {
    CountUpdate(ts, t, to, Inside, l);
    CountUpdate(ts, t, to, Counted, l);
    CountUpdate(ts, t, to, Owed, l);
  }

  lemma StepLock(s: State, t: nat, c: Choice, l: LockId)
    requires Inv(s) && t < |s.threads| && l < |s.locks|
    ensures var s' := Step(s, t, c);
      |s'.locks| == |s.locks| && InsideOk(s'.threads, l, s'.locks[l]) && CountedOk(s'.threads, l, s'.locks[l])
  {
    var s' := Step(s, t, c);
    var pc, to, k, k' := s.threads[t], s'.threads[t], s.locks[l], s'.locks[l];
    assert ThreadOk(s, pc) && InsideOk(s.threads, l, k) && CountedOk(s.threads, l, k);
    if !pc.Idle? {
      NextThread(s.callers[t], pc, s.locks[pc.lock], s, c);
    }
    if !pc.Idle? && pc.lock == l {
      NextInside(s.callers[t], pc, k, s, c);
      NextCounted(s.callers[t], pc, k, s.timeout, c);
      OwnLockInside(s.threads, t, to, k, k');
      OwnLockCounted(s.threads, t, to, k, k',
                     (One(In(Counted, to)) - k'.forcedSubs) - (One(In(Counted, pc)) - k.forcedSubs));
    } else {
      OtherLock(s.threads, t, to, l, k);
    }
  }

  lemma LiftLocks(s: State, s': State, t: nat, delta: int, repaid: nat)
    requires LocksOk(s) && t < |s.threads| && !s.threads[t].Idle? && s.threads[t].lock < |s.locks|
    requires |s'.threads| == |s.threads| && s'.threads == s.threads[t := s'.threads[t]]
    requires var l := s.threads[t].lock; |s'.locks| == |s.locks| && s'.locks == s.locks[l := s'.locks[l]]
    requires -1 <= delta <= 1 && s'.locksCount == Add(s.locksCount, delta)
    requires s'.forcedLockSubs == s.forcedLockSubs + repaid
    requires delta == One(In(Registered, s'.threads[t])) - One(In(Registered, s.threads[t])) - repaid
    requires var l := s.threads[t].lock;
      s'.locks[l].forced - s.locks[l].forced - repaid ==
      One(In(OwedLocks, s'.threads[t])) - One(In(OwedLocks, s.threads[t]))
    ensures LocksOk(s')
  {
    var l := s.threads[t].lock;
    CountAllUpdate(s.threads, t, s'.threads[t], Registered);
    CountAllUpdate(s.threads, t, s'.threads[t], OwedLocks);
    TotalForcedUpdate(s.locks, l, s'.locks[l]);
    AddMod(s.locksCount, CountAll(s.threads, Registered) - s.forcedLockSubs, delta);
  }

  lemma StepLocks(s: State, t: nat, c: Choice)
    requires Inv(s) && t < |s.threads|
    ensures LocksOk(Step(s, t, c))
  {
    var s' := Step(s, t, c);
    var pc := s.threads[t];
    assert ThreadOk(s, pc);
    if pc.Idle? {
      CountAllUpdate(s.threads, t, s'.threads[t], Registered);
      CountAllUpdate(s.threads, t, s'.threads[t], OwedLocks);
    } else {
      NextLocks(s.callers[t], pc, s.locks[pc.lock], s.timeout, c);
      LiftLocks(s, s', t, LocksDelta(pc), One(pc.ForcedSubLocks?));
    }
  }

  lemma StepInv(s: State, t: nat, c: Choice)
    requires Inv(s)
    ensures Inv(Step(s, t, c))
  {
    if t < |s.threads| {
      var s' := Step(s, t, c);
      StepLocks(s, t, c);
      forall u | 0 <= u < |s'.threads|
        ensures ThreadOk(s', s'.threads[u])
      {
        assert ThreadOk(s, s.threads[u]);
        if u == t && !s.threads[t].Idle? {
          NextThread(s.callers[t], s.threads[t], s.locks[s.threads[t].lock], s, c);
        }
      }
      forall l | 0 <= l < |s'.locks|
        ensures InsideOk(s'.threads, l, s'.locks[l]) && CountedOk(s'.threads, l, s'.locks[l])
      {
        StepLock(s, t, c, l);
      }
    }
  }

  lemma {:induction false} RunInv(s: State, schedule: Schedule)
    requires Inv(s)
    ensures Inv(Run(s, schedule))
    decreases |schedule|
  {
    if schedule != [] {
      var last := |schedule| - 1;
      RunInv(s, schedule[..last]);
      StepInv(Run(s, schedule[..last]), schedule[last].0, schedule[last].1);
    }
  }

  // ---------------------------------------------------------------------
  // Safety of every run
  // ---------------------------------------------------------------------

  ghost predicate Reachable(s: State) {
    exists threads: nat, locks: nat, timeout: nat, schedule: Schedule ::
      timeout > 0 && s == Run(Init(threads, locks, timeout), schedule)
  }

  lemma ReachableInv(s: State)
    requires Reachable(s)
    ensures Inv(s)
  {
    var threads: nat, locks: nat, timeout: nat, schedule: Schedule :|
      timeout > 0 && s == Run(Init(threads, locks, timeout), schedule);
    InitInv(threads, locks, timeout);
    RunInv(Init(threads, locks, timeout), schedule);
  }

  /**
   How many threads are inside a lock: one if it is taken, one more for each forced unlock that
   found it taken, one less for each owner that came to unlock it and found it free.
   */
  lemma InsideExact(s: State, l: LockId)
    requires Reachable(s) && l < |s.locks|
    ensures Count(s.threads, Inside, l) == One(s.locks[l].isLocked) + s.locks[l].taken - s.locks[l].late
  {
    ReachableInv(s);
    assert InsideOk(s.threads, l, s.locks[l]);
  }

  /** Each forced unlock lets at most one more thread into the critical section. */
  lemma ExclusionBound(s: State, l: LockId)
    requires Reachable(s) && l < |s.locks|
    ensures Count(s.threads, Inside, l) <= One(s.locks[l].isLocked) + s.locks[l].forced
  {
    ReachableInv(s);
  }

  ghost predicate InsideOf(s: State, t: nat, l: LockId) {
    t < |s.threads| && In(Inside, s.threads[t]) && s.threads[t].lock == l
  }

  lemma {:induction false} CountWitness(ts: seq<Thread>, z: Zone, l: LockId) returns (t: nat)
    requires Count(ts, z, l) > 0
    ensures t < |ts| && In(z, ts[t]) && ts[t].lock == l
  {
    if In(z, ts[0]) && ts[0].lock == l {
      t := 0;
    } else {
      t := CountWitness(ts[1..], z, l);
      t := t + 1;
    }
  }

  /** Without forced unlocks, a lock is taken exactly when a thread is inside, and no other one is. */
  lemma MutualExclusion(s: State, l: LockId)
    requires Reachable(s) && l < |s.locks| && s.locks[l].forced == 0
    ensures s.locks[l].isLocked <==> exists t: nat :: InsideOf(s, t, l)
    ensures forall t: nat, u: nat :: InsideOf(s, t, l) && InsideOf(s, u, l) ==> t == u
  {
    ReachableInv(s);
    assert InsideOk(s.threads, l, s.locks[l]);
    if s.locks[l].isLocked {
      var t := CountWitness(s.threads, Inside, l);
      assert InsideOf(s, t, l);
    }
    forall t: nat | InsideOf(s, t, l)
      ensures s.locks[l].isLocked
    {
      CountPositive(s.threads, t, Inside, l);
    }
    forall t: nat, u: nat | InsideOf(s, t, l) && InsideOf(s, u, l)
      ensures t == u
    {
      if t < u {
        CountTwo(s.threads, t, u, Inside, l);
      } else if u < t {
        CountTwo(s.threads, u, t, Inside, l);
      }
    }
  }

  /** The acquire loop never takes its timeout exit after an exchange that won the lock. */
  lemma TimeoutExitLost(s: State, t: nat)
    requires Reachable(s) && t < |s.threads| && s.threads[t].Check?
    ensures s.threads[t].spins >= s.timeout <==> !s.threads[t].won
  {
    ReachableInv(s);
    assert ThreadOk(s, s.threads[t]);
  }
}
