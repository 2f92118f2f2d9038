/**
 What the counters and the holder field of the spin lock say in every run.
 */
module LockCounters {
  import opened SpinLock

  // ---------------------------------------------------------------------
  // The counters at rest
  // ---------------------------------------------------------------------

  /** No thread is inside Lock or Unlock. */
  ghost predicate AtRest(s: State) {
    forall t :: 0 <= t < |s.threads| ==> s.threads[t].Idle? || s.threads[t].Held?
  }

  function LockedCount(locks: seq<Lock>): nat {
    if locks == [] then 0 else One(locks[0].isLocked) + LockedCount(locks[1..])
  }

  lemma {:induction false} RestCounts(ts: seq<Thread>, l: LockId)
    requires forall t :: 0 <= t < |ts| ==> ts[t].Idle? || ts[t].Held?
    ensures Count(ts, Inside, l) == Count(ts, Counted, l) == Count(ts, Registered, l)
    ensures Count(ts, Owed, l) == 0 && CountAll(ts, OwedLocks) == 0
  {
    if ts != [] {
      assert ts[0].Idle? || ts[0].Held?;
      RestCounts(ts[1..], l);
    }
  }

  function SumCounts(ts: seq<Thread>, z: Zone, locks: nat): nat {
    if locks == 0 then 0 else SumCounts(ts, z, locks - 1) + Count(ts, z, locks - 1)
  }

  lemma {:induction false} SumCountsStep(ts: seq<Thread>, z: Zone, locks: nat)
    requires ts != []
    ensures SumCounts(ts, z, locks) == SumCounts(ts[1..], z, locks) + One(In(z, ts[0]) && ts[0].lock < locks)
  {
    if locks > 0 {
      SumCountsStep(ts, z, locks - 1);
    }
  }

  lemma {:induction false} SumCountsEmpty(z: Zone, locks: nat)
    ensures SumCounts([], z, locks) == 0
  {
    if locks > 0 {
      SumCountsEmpty(z, locks - 1);
    }
  }

  lemma {:induction false} SumOverLocks(ts: seq<Thread>, z: Zone, locks: nat)
    requires forall t :: 0 <= t < |ts| && !ts[t].Idle? ==> ts[t].lock < locks
    ensures CountAll(ts, z) == SumCounts(ts, z, locks)
  {
    if ts == [] {
      SumCountsEmpty(z, locks);
    } else {
      SumCountsStep(ts, z, locks);
      SumOverLocks(ts[1..], z, locks);
    }
  }

  lemma {:induction false} LockedCountStep(locks: seq<Lock>)
    requires locks != []
    ensures LockedCount(locks) == LockedCount(locks[..|locks| - 1]) + One(locks[|locks| - 1].isLocked)
  {
    if |locks| > 1 {
      LockedCountStep(locks[1..]);
      assert locks[1..][..|locks| - 2] == locks[..|locks| - 1][1..];
    }
  }

  lemma {:induction false} SumIsLocked(ts: seq<Thread>, locks: seq<Lock>)
    requires forall l :: 0 <= l < |locks| ==> Count(ts, Registered, l) == One(locks[l].isLocked)
    ensures SumCounts(ts, Registered, |locks|) == LockedCount(locks)
  {
    if locks != [] {
      var front := locks[..|locks| - 1];
      assert forall l :: 0 <= l < |front| ==> front[l] == locks[l];
      SumIsLocked(ts, front);
      LockedCountStep(locks);
    }
  }

  /** Every forced unlock leaves both counters one lower, modulo the word size. */
  lemma CountersAtRest(s: State, l: LockId)
    requires Reachable(s) && AtRest(s) && l < |s.locks|
    ensures s.locks[l].count == (Count(s.threads, Inside, l) - s.locks[l].forced) % WORD
    ensures s.locksCount == (CountAll(s.threads, Registered) - TotalForced(s.locks)) % WORD
  {
    ReachableInv(s);
    RestCounts(s.threads, l);
    RestCount(s.threads, l, s.locks[l]);
    RestLocks(s);
  }

  lemma RestLocks(s: State)
    requires LocksOk(s) && CountAll(s.threads, OwedLocks) == 0
    ensures s.locksCount == (CountAll(s.threads, Registered) - TotalForced(s.locks)) % WORD
  { }

  lemma RestCount(ts: seq<Thread>, l: LockId, k: Lock)
    requires CountedOk(ts, l, k) && Count(ts, Owed, l) == 0 && Count(ts, Inside, l) == Count(ts, Counted, l)
    ensures k.count == (Count(ts, Inside, l) - k.forced) % WORD
  { }

  lemma {:induction false} TotalForcedZero(locks: seq<Lock>, l: LockId)
    requires TotalForced(locks) == 0 && l < |locks|
    ensures locks[l].forced == 0
  {
    if l > 0 {
      TotalForcedZero(locks[1..], l - 1);
    }
  }

  lemma RestExact(s: State, l: LockId)
    requires Inv(s) && AtRest(s) && l < |s.locks| && TotalForced(s.locks) == 0
    ensures Count(s.threads, Inside, l) == Count(s.threads, Registered, l) == One(s.locks[l].isLocked)
  {
    TotalForcedZero(s.locks, l);
    RestCounts(s.threads, l);
    assert InsideOk(s.threads, l, s.locks[l]);
  }

  lemma RestLocksCount(s: State)
    requires Inv(s) && AtRest(s) && TotalForced(s.locks) == 0
    ensures CountAll(s.threads, Registered) == LockedCount(s.locks)
  {
    forall l | 0 <= l < |s.locks|
      ensures Count(s.threads, Registered, l) == One(s.locks[l].isLocked)
    {
      RestExact(s, l);
    }
    forall t | 0 <= t < |s.threads| && !s.threads[t].Idle?
      ensures s.threads[t].lock < |s.locks|
    {
      assert ThreadOk(s, s.threads[t]);
    }
    SumOverLocks(s.threads, Registered, |s.locks|);
    SumIsLocked(s.threads, s.locks);
  }

  /** Without forced unlocks, Count is the lock's own state and LocksCount the number of locks in use. */
  lemma CountersExact(s: State, l: LockId)
    requires Reachable(s) && AtRest(s) && l < |s.locks| && TotalForced(s.locks) == 0
    ensures s.locks[l].count == One(s.locks[l].isLocked)
    ensures s.locksCount == LockedCount(s.locks) % WORD
  {
    ReachableInv(s);
    CountersAtRest(s, l);
    RestExact(s, l);
    RestLocksCount(s);
    TotalForcedZero(s.locks, l);
    SmallMod(One(s.locks[l].isLocked));
  }

  lemma SmallMod(n: nat)
    requires n <= 1
    ensures n % WORD == n
  { }

  // ---------------------------------------------------------------------
  // The recorded holder
  // ---------------------------------------------------------------------

  predicate Recorded(pc: Thread) {
    pc.AddLocks? || pc.Held? || pc.StoreFalse?
  }

  ghost predicate HolderOk(s: State) {
    forall t :: 0 <= t < |s.threads| && Recorded(s.threads[t]) && s.threads[t].lock < |s.locks|
      && s.locks[s.threads[t].lock].forced == 0
      ==> t < |s.callers| && s.locks[s.threads[t].lock].holder == s.callers[t]
  }

  lemma NextHolder(name: string, pc: Thread, k: Lock, timeout: nat, c: Choice)
    requires !pc.Idle?
    ensures var n := Next(name, pc, k, timeout, c);
      && n.lock.forced >= k.forced && (n.pc.Idle? || n.pc.lock == pc.lock)
      && n.lock.holder == (if pc.StoreHolder? then name else k.holder)
      && (Recorded(n.pc) ==> Recorded(pc) || pc.StoreHolder?)
  { }

  lemma StepHolder(s: State, t: nat, c: Choice)
    requires Inv(s) && HolderOk(s)
    ensures HolderOk(Step(s, t, c))
  {
    if t < |s.threads| && !s.threads[t].Idle? {
      BusyHolder(s, t, c);
    }
  }

  lemma BusyHolder(s: State, t: nat, c: Choice)
    requires Inv(s) && HolderOk(s) && t < |s.threads| && !s.threads[t].Idle?
    ensures HolderOk(Step(s, t, c))
  {
    var s' := Step(s, t, c);
    var pc := s.threads[t];
    assert ThreadOk(s, pc);
    NextHolder(s.callers[t], pc, s.locks[pc.lock], s.timeout, c);
    forall u | 0 <= u < |s'.threads| && Recorded(s'.threads[u]) && s'.threads[u].lock < |s'.locks|
      && s'.locks[s'.threads[u].lock].forced == 0
      ensures s'.locks[s'.threads[u].lock].holder == s'.callers[u]
    {
      var l := s'.threads[u].lock;
      if u != t && pc.StoreHolder? && pc.lock == l {
        assert InsideOk(s.threads, l, s.locks[l]);
        if u < t { CountTwo(s.threads, u, t, Inside, l); } else { CountTwo(s.threads, t, u, Inside, l); }
        assert false;
      }
    }
  }

  lemma {:induction false} RunHolder(s: State, schedule: Schedule)
    requires Inv(s) && HolderOk(s)
    ensures HolderOk(Run(s, schedule))
    decreases |schedule|
  {
    if schedule != [] {
      var last := |schedule| - 1;
      var before := Run(s, schedule[..last]);
      RunHolder(s, schedule[..last]);
      RunInv(s, schedule[..last]);
      StepHolder(before, schedule[last].0, schedule[last].1);
    }
  }

  /** On a lock that was never forced open, CurrentHolder is the name that its holder passed to Lock. */
  lemma HolderRecorded(s: State, t: nat)
    requires Reachable(s) && t < |s.threads| && s.threads[t].Held?
    requires s.threads[t].lock < |s.locks| && s.locks[s.threads[t].lock].forced == 0
    ensures t < |s.callers| && s.locks[s.threads[t].lock].holder == s.callers[t]
  {
    var threads: nat, locks: nat, timeout: nat, schedule: Schedule :|
      timeout > 0 && s == Run(Init(threads, locks, timeout), schedule);
    InitInv(threads, locks, timeout);
    RunHolder(Init(threads, locks, timeout), schedule);
  }
}
