/** The recursive run lock: pthread_lock and pthread_unlock. The calling
    thread's `pthread_lock_counter` counts nested locks; the first lock walks
    the thread registry (`/var/<pid>_tid_cache`) and pins every listed thread
    to CPU 0 under SCHED_RR with the caller one priority step above the rest;
    the last unlock walks it again and puts back each thread's stored policy
    and priority. */
module RunLock {
  import opened Wrappers

  /** The largest value of the `unsigned int` counter. */
  const UINT_MAX: nat := 0xFFFF_FFFF

  /** SCHED_RR, and __sched_get_priority_min(SCHED_RR), as on Linux. */
  const SCHED_RR: int := 2
  const RR_MIN_PRIORITY: int := 1

  /** The one CPU the lock pins every thread to. */
  const LOCK_CPU: nat := 0

  /** One registry entry: the thread descriptor it names and that thread's
      scheduling state. `handleValid` is the negation of INVALID_TD_P;
      `isSelf` says the entry is THREAD_SELF; `oldPolicy` and `oldPriority`
      are the descriptor's `old_schepolicy` and `old_priority` fields. */
  datatype SchedRecord = SchedRecord(
    handleValid: bool,
    isSelf: bool,
    policy: int,
    priority: int,
    affinity: set<nat>,
    oldPolicy: int,
    oldPriority: int)

  /** What the system calls a walk makes will answer: whether the registry
      directory opens, and, by position in the walk, whether
      sched_setaffinity and pthread_setschedparam succeed. */
  datatype Syscalls = Syscalls(dirOpens: bool, affinityOk: nat -> bool, schedOk: nat -> bool)

  /** A record once the first lock has handled it. */
  function Pinned(t: SchedRecord): SchedRecord {
    t.(affinity := {LOCK_CPU},
       policy := SCHED_RR,
       priority := if t.isSelf then RR_MIN_PRIORITY + 1 else RR_MIN_PRIORITY)
  }

  /** A record once the last unlock has handled it. */
  function Restored(t: SchedRecord): SchedRecord {
    t.(policy := t.oldPolicy, priority := t.oldPriority)
  }

  /** The lock's walk stops at entry `i`: a stale handle, or a refused
      affinity or scheduling update. */
  predicate PinRefused(t: SchedRecord, i: nat, sys: Syscalls) {
    !t.handleValid || !sys.affinityOk(i) || !sys.schedOk(i)
  }

  /** First position at or after `i` where the lock's walk stops. */
  function FirstPinRefusal(ts: seq<SchedRecord>, sys: Syscalls, i: nat): (r: Option<nat>)
    requires i <= |ts|
    decreases |ts| - i
    ensures r.Some? ==> i <= r.value < |ts| && PinRefused(ts[r.value], r.value, sys)
    ensures r.Some? ==> forall j :: i <= j < r.value ==> !PinRefused(ts[j], j, sys)
    ensures r.None? <==> forall j :: i <= j < |ts| ==> !PinRefused(ts[j], j, sys)
  {
    if i == |ts| then None
    else if PinRefused(ts[i], i, sys) then Some(i)
    else FirstPinRefusal(ts, sys, i + 1)
  }

  /** First position at or after `i`, below `n`, where the unlock's
      pthread_setschedparam fails. */
  function FirstRestoreRefusal(n: nat, sys: Syscalls, i: nat): (r: Option<nat>)
    requires i <= n
    decreases n - i
    ensures r.Some? ==> i <= r.value < n && !sys.schedOk(r.value)
    ensures r.Some? ==> forall j :: i <= j < r.value ==> sys.schedOk(j)
    ensures r.None? <==> forall j :: i <= j < n ==> sys.schedOk(j)
  {
    if i == n then None
    else if !sys.schedOk(i) then Some(i)
    else FirstRestoreRefusal(n, sys, i + 1)
  }

  /** Whether a walk finished, and the registry it leaves. */
  datatype Walk = Walk(ok: bool, threads: seq<SchedRecord>)

  /** The first lock's walk: every entry before the first refusal is pinned;
      at a refusal caused by pthread_setschedparam the affinity is already
      set; nothing is rolled back. */
  function PinAll(ts: seq<SchedRecord>, sys: Syscalls): Walk {
    match FirstPinRefusal(ts, sys, 0)
    case None =>
      Walk(true, seq(|ts|, j requires 0 <= j < |ts| => Pinned(ts[j])))
    case Some(k) =>
      Walk(false, seq(|ts|, j requires 0 <= j < |ts| =>
        if j < k then Pinned(ts[j])
        else if j == k && ts[k].handleValid && sys.affinityOk(k) then ts[k].(affinity := {LOCK_CPU})
        else ts[j]))
  }

  /** The last unlock's walk: every entry before the first refusal gets its
      stored policy and priority back, stale handle or not. */
  function RestoreAll(ts: seq<SchedRecord>, sys: Syscalls): Walk {
    match FirstRestoreRefusal(|ts|, sys, 0)
    case None =>
      Walk(true, seq(|ts|, j requires 0 <= j < |ts| => Restored(ts[j])))
    case Some(k) =>
      Walk(false, seq(|ts|, j requires 0 <= j < |ts| => if j < k then Restored(ts[j]) else ts[j]))
  }

  /** The calling thread's counter and the registry's scheduling state. */
  datatype LockState = LockState(counter: nat, threads: seq<SchedRecord>)

  /** A call's return value and the state it leaves. */
  datatype Step = Step(ret: int, state: LockState)

  /** pthread_lock as a transition. */
  function LockStep(s: LockState, sys: Syscalls): Step {
    if s.counter > 0 then
      if s.counter >= UINT_MAX then Step(-1, s)
      else Step(0, s.(counter := s.counter + 1))
    else if !sys.dirOpens then Step(-1, LockState(1, s.threads))
    else
      var w := PinAll(s.threads, sys);
      Step(if w.ok then 0 else -1, LockState(1, w.threads))
  }

  /** pthread_unlock as a transition. */
  function UnlockStep(s: LockState, sys: Syscalls): Step {
    if s.counter > 1 then Step(0, s.(counter := s.counter - 1))
    else if s.counter == 1 then
      if !sys.dirOpens then Step(-1, LockState(0, s.threads))
      else
        var w := RestoreAll(s.threads, sys);
        Step(if w.ok then 0 else -1, LockState(0, w.threads))
    else Step(-1, s)
  }

  /** The state after `n` calls of pthread_lock. */
  function Locks(s: LockState, sys: Syscalls, n: nat): LockState
    decreases n
  {
    if n == 0 then s else Locks(LockStep(s, sys).state, sys, n - 1)
  }

  /** The state after `n` calls of pthread_unlock. */
  function Unlocks(s: LockState, sys: Syscalls, n: nat): LockState
    decreases n
  {
    if n == 0 then s else Unlocks(UnlockStep(s, sys).state, sys, n - 1)
  }

  /** The calling thread's lock counter together with the scheduling state
      of the threads in the registry. */
  class Process {
    /** `THREAD_SELF->pthread_lock_counter`. */
    var lockCounter: nat
    /** The registry entries in the order the walks visit them. */
    var registry: seq<SchedRecord>

    ghost predicate Valid()
      reads this
    {
      lockCounter <= UINT_MAX
    }

    constructor (registry: seq<SchedRecord>)
      ensures Valid() && lockCounter == 0 && this.registry == registry
    {
      lockCounter := 0;
      this.registry := registry;
    }

    /** pthread_lock. The counter is raised before the walk and stays raised
        when the walk fails. */
    method Lock(sys: Syscalls) returns (ret: int)
      requires Valid()
      modifies this
      ensures Valid()
      ensures Step(ret, LockState(lockCounter, registry)) == LockStep(LockState(old(lockCounter), old(registry)), sys)
    {
      if lockCounter > 0 {
        if lockCounter >= UINT_MAX {
          return -1;
        }
        lockCounter := lockCounter + 1;
        return 0;
      } else {
        lockCounter := lockCounter + 1;
      }
      if !sys.dirOpens {
        return -1;
      }
      ghost var ts := registry;
      var i := 0;
      while i < |registry|
        invariant 0 <= i <= |registry| == |ts|
        invariant lockCounter == 1
        invariant forall j :: 0 <= j < i ==> !PinRefused(ts[j], j, sys)
        invariant forall j :: 0 <= j < i ==> registry[j] == Pinned(ts[j])
        invariant forall j :: i <= j < |ts| ==> registry[j] == ts[j]
      {
        var t := registry[i];
        if !t.handleValid {
          assert FirstPinRefusal(ts, sys, 0) == Some(i);
          assert registry == PinAll(ts, sys).threads;
          return -1;
        }
        if !sys.affinityOk(i) {
          assert FirstPinRefusal(ts, sys, 0) == Some(i);
          assert registry == PinAll(ts, sys).threads;
          return -1;
        }
        registry := registry[i := t.(affinity := {LOCK_CPU})];
        var priority := if t.isSelf then RR_MIN_PRIORITY + 1 else RR_MIN_PRIORITY;
        if !sys.schedOk(i) {
          assert FirstPinRefusal(ts, sys, 0) == Some(i);
          assert registry == PinAll(ts, sys).threads;
          return -1;
        }
        registry := registry[i := registry[i].(policy := SCHED_RR, priority := priority)];
        i := i + 1;
      }
      assert registry == PinAll(ts, sys).threads;
      return 0;
    }

    /** pthread_unlock. The counter drops to 0 before the walk; the walk
        reads each descriptor's stored fields without checking the handle. */
    method Unlock(sys: Syscalls) returns (ret: int)
      requires Valid()
      modifies this
      ensures Valid()
      ensures Step(ret, LockState(lockCounter, registry)) == UnlockStep(LockState(old(lockCounter), old(registry)), sys)
    {
      if lockCounter > 1 {
        lockCounter := lockCounter - 1;
        return 0;
      } else if lockCounter == 1 {
        lockCounter := lockCounter - 1;
      } else {
        return -1;
      }
      if !sys.dirOpens {
        return -1;
      }
      ghost var ts := registry;
      var i := 0;
      while i < |registry|
        invariant 0 <= i <= |registry| == |ts|
        invariant lockCounter == 0
        invariant forall j :: 0 <= j < i ==> sys.schedOk(j)
        invariant forall j :: 0 <= j < i ==> registry[j] == Restored(ts[j])
        invariant forall j :: i <= j < |ts| ==> registry[j] == ts[j]
      {
        var t := registry[i];
        if !sys.schedOk(i) {
          assert FirstRestoreRefusal(|ts|, sys, 0) == Some(i);
          assert registry == RestoreAll(ts, sys).threads;
          return -1;
        }
        registry := registry[i := t.(policy := t.oldPolicy, priority := t.oldPriority)];
        i := i + 1;
      }
      assert registry == RestoreAll(ts, sys).threads;
      return 0;
    }
  }

  /** The counter never passes UINT_MAX: at UINT_MAX a lock is refused. */
  lemma CounterStaysBounded(s: LockState, sys: Syscalls)
    requires s.counter <= UINT_MAX
    ensures LockStep(s, sys).state.counter <= UINT_MAX
    ensures UnlockStep(s, sys).state.counter <= UINT_MAX
    ensures s.counter == UINT_MAX ==> LockStep(s, sys) == Step(-1, s)
  {
  }

  /** A nested lock only raises the counter: it returns 0 and touches no
      thread. */
  lemma NestedLockTouchesNothing(s: LockState, sys: Syscalls)
    requires 0 < s.counter < UINT_MAX
    ensures LockStep(s, sys) == Step(0, LockState(s.counter + 1, s.threads))
  {
  }

  /** Unlock without a lock held returns -1 and changes nothing. */
  lemma UnmatchedUnlockFails(s: LockState, sys: Syscalls)
    requires s.counter == 0
    ensures UnlockStep(s, sys) == Step(-1, s)
  {
  }

  /** A first lock leaves the counter at 1 even when its walk fails, so the
      next lock takes the nested path and returns 0 with no walk, though the
      registry was never fully pinned. */
  lemma FailedFirstLockStillCounts(ts: seq<SchedRecord>, sys1: Syscalls, sys2: Syscalls)
    ensures var first := LockStep(LockState(0, ts), sys1);
      && first.state.counter == 1
      && LockStep(first.state, sys2) == Step(0, LockState(2, first.state.threads))
  {
  }

  /** On success, the first lock has every registry thread on CPU 0 under
      SCHED_RR, the caller at the minimum priority plus one and every other
      thread at the minimum, so the caller outranks all of them. */
  lemma FirstLockPinsEveryone(ts: seq<SchedRecord>, sys: Syscalls)
    requires LockStep(LockState(0, ts), sys).ret == 0
    ensures var after := LockStep(LockState(0, ts), sys).state.threads;
      && |after| == |ts|
      && (forall j :: 0 <= j < |ts| ==>
            && after[j].affinity == {LOCK_CPU}
            && after[j].policy == SCHED_RR
            && after[j].priority == (if ts[j].isSelf then RR_MIN_PRIORITY + 1 else RR_MIN_PRIORITY))
      && (forall j, k :: 0 <= j < |ts| && 0 <= k < |ts| && ts[j].isSelf && !ts[k].isSelf ==>
            after[j].priority > after[k].priority)
  {
  }

  /** The first lock fails exactly when some entry is stale or refuses an
      update; every entry before the first such one is pinned, and the ones
      after it are untouched. */
  lemma FirstLockFailure(ts: seq<SchedRecord>, sys: Syscalls)
    requires sys.dirOpens
    ensures var step := LockStep(LockState(0, ts), sys);
      && (step.ret == -1 <==> exists k :: 0 <= k < |ts| && PinRefused(ts[k], k, sys))
      && (step.ret == -1 ==>
            var k := FirstPinRefusal(ts, sys, 0).value;
            && (forall j :: 0 <= j < k ==> step.state.threads[j] == Pinned(ts[j]))
            && (forall j :: k < j < |ts| ==> step.state.threads[j] == ts[j]))
  {
  }

  /** The lock's walk never writes `old_schepolicy` or `old_priority`, nor
      the handle or identity of any entry. */
  lemma LockKeepsStoredState(ts: seq<SchedRecord>, sys: Syscalls)
    ensures var after := LockStep(LockState(0, ts), sys).state.threads;
      && |after| == |ts|
      && forall j :: 0 <= j < |ts| ==>
           && after[j].oldPolicy == ts[j].oldPolicy
           && after[j].oldPriority == ts[j].oldPriority
           && after[j].handleValid == ts[j].handleValid
           && after[j].isSelf == ts[j].isSelf
  {
  }

  /** pthread_unlock itself does no validity check on a record before
      restoring it; whether the call refuses a stale handle is left to
      `Syscalls`. The walk does not give back the CPU affinity. */
  lemma UnlockRestoresWithoutCheck(ts: seq<SchedRecord>, sys: Syscalls)
    requires UnlockStep(LockState(1, ts), sys).ret == 0
    ensures var after := UnlockStep(LockState(1, ts), sys).state;
      && after.counter == 0
      && |after.threads| == |ts|
      && forall j :: 0 <= j < |ts| ==>
           && after.threads[j].policy == ts[j].oldPolicy
           && after.threads[j].priority == ts[j].oldPriority
           && after.threads[j].affinity == ts[j].affinity
  {
  }

  /** Lock then unlock, both walks succeeding: every thread ends on CPU 0
      with the policy and priority stored in its descriptor. It ends with the
      policy and priority it had before the lock exactly when those stored
      fields already held them, because no call in the lock's walk writes
      those fields; where they are filled lies outside this model. */
  lemma LockUnlockRoundTrip(ts: seq<SchedRecord>, sys1: Syscalls, sys2: Syscalls)
    requires LockStep(LockState(0, ts), sys1).ret == 0
    requires UnlockStep(LockStep(LockState(0, ts), sys1).state, sys2).ret == 0
    ensures var final := UnlockStep(LockStep(LockState(0, ts), sys1).state, sys2).state;
      && final.counter == 0
      && |final.threads| == |ts|
      && (forall j :: 0 <= j < |ts| ==>
            final.threads[j] == ts[j].(affinity := {LOCK_CPU}, policy := ts[j].oldPolicy, priority := ts[j].oldPriority))
      && ((forall j :: 0 <= j < |ts| ==>
             final.threads[j].policy == ts[j].policy && final.threads[j].priority == ts[j].priority)
          <==>
          (forall j :: 0 <= j < |ts| ==>
             ts[j].oldPolicy == ts[j].policy && ts[j].oldPriority == ts[j].priority))
  {
  }

  /** From a held lock of depth c, m more locks give depth c + m and touch
      no thread. */
  lemma {:induction false} NestedLocks(s: LockState, sys: Syscalls, m: nat)
    requires 1 <= s.counter && s.counter + m <= UINT_MAX
    ensures Locks(s, sys, m) == LockState(s.counter + m, s.threads)
    decreases m
  {
    if m > 0 {
      NestedLocks(LockState(s.counter + 1, s.threads), sys, m - 1);
    }
  }

  /** From depth c + m with c >= 1, m unlocks give depth c and touch no
      thread. */
  lemma {:induction false} NestedUnlocks(s: LockState, sys: Syscalls, m: nat, c: nat)
    requires c >= 1 && s.counter == c + m
    ensures Unlocks(s, sys, m) == LockState(c, s.threads)
    decreases m
  {
    if m > 0 {
      NestedUnlocks(LockState(s.counter - 1, s.threads), sys, m - 1, c);
    }
  }

  /** n locks from an unlocked thread leave depth n whether or not the first
      walk succeeded, and n unlocks then bring the counter back to 0. */
  lemma {:induction false} LocksAndUnlocksBalance(ts: seq<SchedRecord>, lockSys: Syscalls, unlockSys: Syscalls, n: nat)
    requires 1 <= n <= UINT_MAX
    ensures Locks(LockState(0, ts), lockSys, n).counter == n
    ensures Unlocks(Locks(LockState(0, ts), lockSys, n), unlockSys, n).counter == 0
  {
    var first := LockStep(LockState(0, ts), lockSys).state;
    NestedLocks(first, lockSys, n - 1);
    var locked := Locks(LockState(0, ts), lockSys, n);
    assert locked == LockState(n, first.threads);
    NestedUnlocks(locked, unlockSys, n - 1, 1);
    var almost := Unlocks(locked, unlockSys, n - 1);
    UnlocksSplit(locked, unlockSys, n - 1);
    assert Unlocks(locked, unlockSys, n) == UnlockStep(almost, unlockSys).state;
  }

  /** The last of m + 1 unlocks comes after the first m. */
  lemma {:induction false} UnlocksSplit(s: LockState, sys: Syscalls, m: nat)
    ensures Unlocks(s, sys, m + 1) == UnlockStep(Unlocks(s, sys, m), sys).state
    decreases m
  {
    if m > 0 {
      UnlocksSplit(UnlockStep(s, sys).state, sys, m - 1);
    }
  }
}
