/** Every interleaving of lock, tryLock and unlock calls by tasks with distinct ids. */
module MutexRuns {
  import opened Bits
  import opened Sequences
  import opened Mutex

  /** A task is outside lock(), or asleep inside it: its timeout and its sleeps so far. */
  datatype Pc = Out | Asleep(timeout: nat, elapsed: nat)

  /** `depth` counts, for each task, successful lock calls less successful unlocks. */
  datatype System = System(lock: Lock, pc: map<Task, Pc>, depth: map<Task, nat>)

  /** A call of lock (tryLock for timeout 0), the wake-up of a sleeper, a call of unlock. */
  datatype Step = Begin(t: Task, timeout: nat) | Wake(t: Task) | Release(t: Task)

  /** A holder does not take a recursive mutex 2^32 deep. */
  predicate NoWrap(l: Lock, t: Task) {
    l.recursive && l.owner == t ==> l.recursion + 1 < WORD
  }

  predicate Enabled(s: System, step: Step) {
    && step.t in s.pc && step.t in s.depth
    && match step
       case Begin(t, timeout) => s.pc[t].Out? && timeout < WORD && NoWrap(s.lock, t)
       case Wake(t) => s.pc[t].Asleep?
       case Release(t) => s.pc[t].Out?
  }

  /** The end of a locked section of lock() by t. */
  function After(s: System, t: Task, r: (Lock, Outcome), timeout: nat, elapsed: nat): System
    requires t in s.pc && t in s.depth
  {
    match r.1
    case Acquired => System(r.0, s.pc[t := Out], s.depth[t := s.depth[t] + 1])
    case Sleep => System(r.0, s.pc[t := Asleep(timeout, elapsed)], s.depth)
    case _ => System(r.0, s.pc[t := Out], s.depth)
  }

  function Next(s: System, step: Step): System
    requires Enabled(s, step)
  {
    match step
    case Begin(t, timeout) => After(s, t, Enter(s.lock, t, timeout), timeout, 0)
    case Wake(t) =>
      var elapsed := (s.pc[t].elapsed + 1) % WORD;
      After(s, t, Resume(s.lock, t, s.pc[t].timeout, elapsed), s.pc[t].timeout, elapsed)
    case Release(t) =>
      var r := Unlock(s.lock, t);
      s.(lock := r.0, depth := if r.1 then s.depth[t := Minus1(s.depth[t])] else s.depth)
  }

  function Minus1(n: nat): nat {
    if n == 0 then 0 else n - 1
  }

  // ------------------------------------------------------------------------ invariant

  /** `owner` and `recursion` are the holder and its depth; nobody else has any. */
  predicate HolderOk(s: System) {
    && (s.lock.locked <==> s.lock.owner != 0)
    && (s.lock.locked <==> s.lock.recursion != 0)
    && (s.lock.locked ==> s.lock.owner in s.depth)
    && s.lock.recursion < WORD && (!s.lock.recursive ==> s.lock.recursion <= 1)
    && forall t :: t in s.depth ==> s.depth[t] == if t == s.lock.owner then s.lock.recursion else 0
  }

  /** The wait list holds sleepers of lock(), each once. */
  predicate WaitersOk(s: System) {
    && NoRepeats(s.lock.waitList)
    && (forall t :: t in s.lock.waitList ==> t in s.pc && s.pc[t].Asleep?)
    && (forall t :: t in s.pc && s.pc[t].Asleep? ==> SleepOk(s.pc[t]))
  }

  predicate SleepOk(p: Pc)
    requires p.Asleep?
  {
    0 < p.timeout < WORD && p.elapsed < WORD && (p.timeout != WAIT_FOREVER ==> p.elapsed < p.timeout)
  }

  predicate Inv(s: System) {
    s.pc.Keys == s.depth.Keys && HolderOk(s) && WaitersOk(s)
  }

  lemma WithoutMembers(w: seq<Task>, t: Task)
    requires NoRepeats(w)
    ensures NoRepeats(Without(w, t)) && forall x :: x in Without(w, t) <==> x in w && x != t
  {
    if t in w {
      var i, r := IndexOf(w, t), Unlinked(w, t);
      forall x | x in w && x != t ensures x in r {
        var j := IndexOf(w, x);
        assert r[if j < i then j else j - 1] == x;
      }
    }
  }

  lemma AppendOnce(w: seq<Task>, t: Task)
    requires NoRepeats(w) && t !in w
    ensures NoRepeats(w + [t])
  {
  }

  /** A task outside lock() is never on the wait list, so lock() never reports deadlock. */
  lemma NeverDeadlocks(s: System, t: Task, timeout: nat)
    requires Inv(s) && Enabled(s, Begin(t, timeout))
    ensures t !in s.lock.waitList && Enter(s.lock, t, timeout).1 != Deadlock
  {
  }

  lemma AttemptKeeps(s: System, t: Task, timeout: nat, elapsed: nat)
    requires Inv(s) && t in s.pc && t !in s.lock.waitList && timeout < WORD && elapsed < WORD
    ensures Inv(After(s, t, Attempt(s.lock, t, timeout, elapsed), timeout, elapsed))
  {
    AppendOnce(s.lock.waitList, t);
  }

  lemma BeginKeeps(s: System, t: Task, timeout: nat)
    requires Inv(s) && Enabled(s, Begin(t, timeout))
    ensures Inv(Next(s, Begin(t, timeout)))
  {
    NeverDeadlocks(s, t, timeout);
    if !(s.lock.recursive && s.lock.owner == t) {
      AttemptKeeps(s, t, timeout, 0);
    }
  }

  lemma FewerWaiters(s: System, w: seq<Task>)
    requires Inv(s) && NoRepeats(w) && forall x :: x in w ==> x in s.lock.waitList
    ensures Inv(s.(lock := s.lock.(waitList := w)))
  {
  }

  lemma WakeKeeps(s: System, t: Task)
    requires Inv(s) && Enabled(s, Wake(t))
    ensures Inv(Next(s, Wake(t)))
  {
    var w, elapsed := Without(s.lock.waitList, t), (s.pc[t].elapsed + 1) % WORD;
    var s1 := s.(lock := s.lock.(waitList := w));
    WithoutMembers(s.lock.waitList, t);
    FewerWaiters(s, w);
    AttemptKeeps(s1, t, s.pc[t].timeout, elapsed);
    assert Next(s, Wake(t)) == After(s1, t, Attempt(s1.lock, t, s.pc[t].timeout, elapsed), s.pc[t].timeout, elapsed);
  }

  lemma ReleaseKeeps(s: System, t: Task)
    requires Inv(s) && Enabled(s, Release(t))
    ensures Inv(Next(s, Release(t)))
  {
  }

  lemma StepKeeps(s: System, step: Step)
    requires Inv(s) && Enabled(s, step)
    ensures Inv(Next(s, step))
  {
    match step
    case Begin(t, timeout) => BeginKeeps(s, t, timeout);
    case Wake(t) => WakeKeeps(s, t);
    case Release(t) => ReleaseKeeps(s, t);
  }

  // ----------------------------------------------------------------------------- runs

  predicate IsRun(s: System, steps: seq<Step>)
    decreases |steps|
  {
    steps == [] || (Enabled(s, steps[0]) && IsRun(Next(s, steps[0]), steps[1..]))
  }

  function Run(s: System, steps: seq<Step>): System
    requires IsRun(s, steps)
    decreases |steps|
  {
    if steps == [] then s else Run(Next(s, steps[0]), steps[1..])
  }

  predicate Initial(s: System) {
    && s.lock == Lock(false, 0, 0, s.lock.recursive, [])
    && s.pc.Keys == s.depth.Keys
    && (forall t :: t in s.pc ==> s.pc[t] == Out && s.depth[t] == 0)
  }

  lemma {:induction false} RunKeeps(s: System, steps: seq<Step>)
    requires Inv(s) && IsRun(s, steps)
    ensures Inv(Run(s, steps))
    decreases |steps|
  {
    if steps != [] {
      StepKeeps(s, steps[0]);
      RunKeeps(Next(s, steps[0]), steps[1..]);
    }
  }

  /** Mutual exclusion: in every state of every run at most one task has taken the mutex
      more often than it has let it go, and that is the recorded owner. */
  lemma MutualExclusion(s: System, steps: seq<Step>)
    requires Initial(s) && IsRun(s, steps)
    ensures Inv(Run(s, steps))
    ensures
      var s' := Run(s, steps);
      forall t, u :: t in s'.depth && u in s'.depth && s'.depth[t] > 0 && s'.depth[u] > 0 ==> t == u == s'.lock.owner
  {
    RunKeeps(s, steps);
  }

  /** What the calls return: lock succeeds exactly when the caller holds the mutex one
      deeper afterwards, unlock exactly when the caller holds it. */
  lemma ResultsMean(s: System, step: Step)
    requires Inv(s) && Enabled(s, step)
    ensures step.Begin? ==>
      (Enter(s.lock, step.t, step.timeout).1 == Acquired
       <==> (s.lock.recursive && s.depth[step.t] > 0) || forall u :: u in s.depth ==> s.depth[u] == 0)
    ensures step.Release? ==> (Unlock(s.lock, step.t).1 <==> s.depth[step.t] > 0)
    ensures step.Wake? ==> ((Next(s, step).pc[step.t].Out? && Next(s, step).depth[step.t] > s.depth[step.t])
                            <==> forall u :: u in s.depth ==> s.depth[u] == 0)
  {
    if s.lock.locked { assert s.depth[s.lock.owner] > 0; }
  }

  // -------------------------------------------------------------------------- timeouts

  /** t stays inside lock() in every state of the run. */
  predicate StaysAsleep(s: System, steps: seq<Step>, t: Task)
    requires IsRun(s, steps)
    decreases |steps|
  {
    && t in s.pc && s.pc[t].Asleep?
    && (steps == [] || StaysAsleep(Next(s, steps[0]), steps[1..], t))
  }

  function Wakes(steps: seq<Step>, t: Task): nat {
    if steps == [] then 0 else (if steps[0] == Wake(t) then 1 else 0) + Wakes(steps[1..], t)
  }

  /** Only its own wake-ups use up the sleeps of a sleeper. */
  lemma SleepStep(s: System, step: Step, t: Task)
    requires Inv(s) && Enabled(s, step) && t in s.pc && s.pc[t].Asleep? && s.pc[t].timeout != WAIT_FOREVER
    requires Next(s, step).pc[t].Asleep?
    ensures Next(s, step).pc[t].timeout == s.pc[t].timeout
    ensures Next(s, step).pc[t].elapsed == s.pc[t].elapsed + if step == Wake(t) then 1 else 0
  {
  }

  /** A call with a finite timeout sleeps at most that many times, whatever the others
      do: it is asleep for the (elapsed + 1)st time, and each wake-up uses one up. */
  lemma {:induction false} SleepsBounded(s: System, steps: seq<Step>, t: Task)
    requires Inv(s) && IsRun(s, steps) && StaysAsleep(s, steps, t) && s.pc[t].timeout != WAIT_FOREVER
    ensures s.pc[t].elapsed + Wakes(steps, t) < s.pc[t].timeout
    decreases |steps|
  {
    if steps != [] {
      StepKeeps(s, steps[0]);
      SleepStep(s, steps[0], t);
      SleepsBounded(Next(s, steps[0]), steps[1..], t);
    }
  }

  // --------------------------------------------------------------------- who waits how long

  /** Some task holds the mutex. */
  predicate Held(s: System) {
    exists u :: u in s.depth && s.depth[u] > 0
  }

  lemma HeldIsLocked(s: System)
    requires Inv(s)
    ensures Held(s) <==> s.lock.locked
  {
    if s.lock.locked { assert s.depth[s.lock.owner] > 0; }
  }

  /** The call of t has ended, without the mutex. */
  predicate Failed(s: System, s': System, t: Task) {
    t in s.depth && t in s'.pc && t in s'.depth && s'.pc[t].Out? && s'.depth[t] == s.depth[t]
  }

  /** The call of t has ended with the mutex one deeper. */
  predicate Took(s: System, s': System, t: Task) {
    t in s.depth && t in s'.pc && t in s'.depth && s'.pc[t].Out? && s'.depth[t] == s.depth[t] + 1
  }

  /** lock on a mutex that someone holds, unless it re-enters: with a timeout the task goes
      to sleep as the last waiter, without one it fails and nothing changes. */
  lemma BeginWaitsIff(s: System, t: Task, timeout: nat)
    requires Inv(s) && Enabled(s, Begin(t, timeout)) && Held(s) && !(s.lock.recursive && s.depth[t] > 0)
    ensures var s' := Next(s, Begin(t, timeout));
            && s'.depth == s.depth && (s'.pc[t].Asleep? <==> timeout != 0)
            && s' == if timeout == 0 then s
                     else s.(pc := s.pc[t := Asleep(timeout, 0)], lock := s.lock.(waitList := s.lock.waitList + [t]))
  {
    HeldIsLocked(s);
    NeverDeadlocks(s, t, timeout);
    assert s.pc[t := Out] == s.pc;
  }

  /** On a mutex that nobody holds, or that the caller re-enters, it takes it at once. */
  lemma BeginTakes(s: System, t: Task, timeout: nat)
    requires Inv(s) && Enabled(s, Begin(t, timeout)) && (!Held(s) || (s.lock.recursive && s.depth[t] > 0))
    ensures var s' := Next(s, Begin(t, timeout));
            Took(s, s', t) && s'.lock.owner == t && s'.lock.waitList == s.lock.waitList
  {
    HeldIsLocked(s);
    NeverDeadlocks(s, t, timeout);
  }

  /** A sleeper that wakes while someone holds the mutex fails if and only if its timeout is
      finite and it has now slept that many times; otherwise it sleeps once more, as the
      last waiter. If nobody holds the mutex it takes it. */
  lemma WakeFailsIff(s: System, t: Task)
    requires Inv(s) && Enabled(s, Wake(t))
    ensures var s', p := Next(s, Wake(t)), s.pc[t];
            && (!Held(s) <==> Took(s, s', t))
            && (Failed(s, s', t) <==> Held(s) && p.timeout != WAIT_FOREVER && p.elapsed + 1 == p.timeout)
            && (s'.pc[t].Asleep? ==> s'.lock.waitList != [] && s'.lock.waitList[|s'.lock.waitList| - 1] == t)
            && (s'.pc[t].Out? ==> t !in s'.lock.waitList)
            && (forall u :: u != t ==> (u in s'.lock.waitList <==> u in s.lock.waitList))
  {
    HeldIsLocked(s);
    WithoutMembers(s.lock.waitList, t);
  }

  /** A call that waits for ever never fails. */
  lemma ForeverNeverFails(s: System, step: Step, t: Task)
    requires Inv(s) && Enabled(s, step) && t in s.pc
    requires step == Begin(t, WAIT_FOREVER) || (s.pc[t].Asleep? && s.pc[t].timeout == WAIT_FOREVER)
    ensures var s' := Next(s, step); if s'.pc[t].Out? then Took(s, s', t) else s'.pc[t].timeout == WAIT_FOREVER
  {
    if step == Begin(t, WAIT_FOREVER) {
      if Held(s) && !(s.lock.recursive && s.depth[t] > 0) {
        BeginWaitsIff(s, t, WAIT_FOREVER);
      } else {
        BeginTakes(s, t, WAIT_FOREVER);
      }
    } else if step == Wake(t) {
      WakeFailsIff(s, t);
    }
  }

  lemma {:induction false} SleepsCounted(s: System, steps: seq<Step>, t: Task)
    requires Inv(s) && IsRun(s, steps) && StaysAsleep(s, steps, t) && s.pc[t].timeout != WAIT_FOREVER
    ensures t in Run(s, steps).pc && Run(s, steps).pc[t] == Asleep(s.pc[t].timeout, s.pc[t].elapsed + Wakes(steps, t))
    decreases |steps|
  {
    if steps != [] {
      StepKeeps(s, steps[0]);
      SleepStep(s, steps[0], t);
      SleepsCounted(Next(s, steps[0]), steps[1..], t);
    }
  }

  /** Over every run: a call with a finite timeout that went to sleep, and has slept through
      it so far, fails at its next wake-up if and only if the mutex is held then and that
      wake-up is the timeout-th. */
  lemma FailsAfterTimeout(s: System, timeout: nat, steps: seq<Step>, t: Task)
    requires Inv(s) && Enabled(s, Begin(t, timeout)) && timeout != WAIT_FOREVER
    requires var s1 := Next(s, Begin(t, timeout)); IsRun(s1, steps) && StaysAsleep(s1, steps, t)
    ensures var s2 := Run(Next(s, Begin(t, timeout)), steps);
            Enabled(s2, Wake(t)) &&
            (Failed(s2, Next(s2, Wake(t)), t) <==> Held(s2) && Wakes(steps, t) + 1 == timeout)
  {
    var s1 := Next(s, Begin(t, timeout));
    StepKeeps(s, Begin(t, timeout));
    RunKeeps(s1, steps);
    SleepsCounted(s1, steps, t);
    WakeFailsIff(Run(s1, steps), t);
  }

  /** The unlock that ends a hold frees the mutex and takes the first waiter off the list;
      any other leaves the list alone, and a failing one everything. */
  lemma UnlockWakesFirst(s: System, t: Task)
    requires Inv(s) && Enabled(s, Release(t))
    ensures var s', w := Next(s, Release(t)), s.lock.waitList;
            && s'.pc == s.pc
            && (s.depth[t] == 0 ==> s' == s)
            && (s.depth[t] == 1 ==> !Held(s') && s'.lock.waitList == if w == [] then [] else w[1..])
            && (s.depth[t] > 1 ==> Held(s') && s'.lock.waitList == w && s'.depth[t] == s.depth[t] - 1)
  {
    StepKeeps(s, Release(t));
    HeldIsLocked(Next(s, Release(t)));
  }

  // ------------------------------------------------------------------------ wrap-around

  /** The depth count is exact unless a holder re-enters at depth 2^32 - 1. */
  lemma DepthExactIff(s: System, t: Task, timeout: nat)
    requires Inv(s) && t in s.pc && s.pc[t].Out? && s.lock.recursive && s.lock.owner == t && timeout < WORD
    ensures HolderOk(After(s, t, Enter(s.lock, t, timeout), timeout, 0)) <==> s.depth[t] + 1 < WORD
  {
    assert s.depth[t] == s.lock.recursion;
    if s.depth[t] + 1 == WORD {
      assert After(s, t, Enter(s.lock, t, timeout), timeout, 0).lock.recursion == 0;
    } else {
      StepKeeps(s, Begin(t, timeout));
    }
  }
}
