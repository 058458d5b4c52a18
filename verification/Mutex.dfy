/** The sleeping mutex: its locked sections, and every interleaving of them. */
module Mutex {
  import opened Bits
  import opened Sequences

  const WAIT_FOREVER: nat := 0xFFFF_FFFF

  /** Task ids; 0 stands for no owner. */
  type Task = t: nat | 0 < t < WORD witness 1

  datatype Lock = Lock(locked: bool, owner: nat, recursion: nat, recursive: bool, waitList: seq<Task>)

  /** How a locked section of lock() ends: the call returns, or the task goes to sleep. */
  datatype Outcome = Acquired | Refused | Deadlock | Sleep

  // ----------------------------------------------------------------- locked sections

  /** removeWaiter: the first node of this task. */
  function Without(w: seq<Task>, t: Task): seq<Task> {
    if t in w then Unlinked(w, t) else w
  }

  predicate Expired(timeout: nat, elapsed: nat) {
    timeout == 0 || (timeout != WAIT_FOREVER && elapsed >= timeout)
  }

  /** The loop head: take the lock, give up, or queue and sleep. */
  function Attempt(l: Lock, t: Task, timeout: nat, elapsed: nat): (Lock, Outcome) {
    if !l.locked then (l.(locked := true, owner := t, recursion := 1), Acquired)
    else if Expired(timeout, elapsed) then (l, Refused)
    else (l.(waitList := l.waitList + [t]), Sleep)
  }

  /** lock() up to its return or first sleep. */
  function Enter(l: Lock, t: Task, timeout: nat): (Lock, Outcome) {
    if t in l.waitList then (l, Deadlock)
    else if l.recursive && l.owner == t then (l.(recursion := (l.recursion + 1) % WORD), Acquired)
    else Attempt(l, t, timeout, 0)
  }

  /** lock() from a wake-up to its return or next sleep; `elapsed` counts the sleeps. */
  function Resume(l: Lock, t: Task, timeout: nat, elapsed: nat): (Lock, Outcome) {
    Attempt(l.(waitList := Without(l.waitList, t)), t, timeout, elapsed)
  }

  function Unlock(l: Lock, t: Task): (Lock, bool) {
    if l.owner != t then (l, false)
    else if l.recursive && l.recursion > 1 then (l.(recursion := l.recursion - 1), true)
    else
      var rest := if l.waitList == [] then [] else l.waitList[1..];
      (Lock(false, 0, 0, l.recursive, rest), true)
  }

  // ------------------------------------------------------------------- the mutex object

  class Mutex {
    var locked: bool
    var owner: nat
    var recursion: nat
    const recursive: bool
    var waitList: seq<Task>

    constructor (recursive: bool)
      ensures Now() == Lock(false, 0, 0, recursive, [])
    {
      this.recursive := recursive;
      locked, owner, recursion, waitList := false, 0, 0, [];
    }

    ghost function Now(): Lock
      reads this
    {
      Lock(locked, owner, recursion, recursive, waitList)
    }

    method WouldDeadlock(t: Task) returns (found: bool)
      ensures found <==> t in waitList
    {
      var i := 0;
      while i < |waitList|
        invariant 0 <= i <= |waitList| && t !in waitList[..i]
      {
        if waitList[i] == t { return true; }
        i := i + 1;
      }
      assert waitList[..i] == waitList;
      return false;
    }

    method RemoveWaiter(t: Task)
      modifies `waitList
      ensures waitList == Without(old(waitList), t)
    {
      var i := 0;
      while i < |waitList| && waitList[i] != t
        invariant 0 <= i <= |waitList| && t !in waitList[..i]
        decreases |waitList| - i
        modifies {}
      {
        i := i + 1;
      }
      if i < |waitList| {
        UnlinkedAt(waitList, i);
        waitList := waitList[..i] + waitList[i + 1..];
      } else {
        assert waitList[..i] == waitList;
      }
    }

    method WakeNextWaiter() returns (woken: nat)
      modifies `waitList
      ensures old(waitList) == [] ==> waitList == [] && woken == 0
      ensures old(waitList) != [] ==> [woken] + waitList == old(waitList)
    {
      if waitList == [] { return 0; }
      woken := waitList[0];
      waitList := waitList[1..];
    }

    method Try(t: Task, timeout: nat, elapsed: nat) returns (r: Outcome)
      modifies this
      ensures (Now(), r) == Attempt(old(Now()), t, timeout, elapsed)
    {
      if locked {
        if timeout == 0 || (timeout != WAIT_FOREVER && elapsed >= timeout) { return Refused; }
        waitList := waitList + [t];
        return Sleep;
      }
      locked, owner, recursion := true, t, 1;
      return Acquired;
    }

    /** lock() up to its return or first sleep; tryLock is this with timeout 0. */
    method LockBegin(t: Task, timeout: nat) returns (r: Outcome)
      modifies this
      ensures (Now(), r) == Enter(old(Now()), t, timeout)
    {
      var waits := WouldDeadlock(t);
      if waits { return Deadlock; }
      if recursive && owner == t {
        recursion := (recursion + 1) % WORD;
        return Acquired;
      }
      r := Try(t, timeout, 0);
    }

    /** lock() from a wake-up on. */
    method LockResume(t: Task, timeout: nat, elapsed: nat) returns (r: Outcome)
      modifies this
      ensures (Now(), r) == Resume(old(Now()), t, timeout, elapsed)
    {
      RemoveWaiter(t);
      r := Try(t, timeout, elapsed);
    }

    method UnlockNow(t: Task) returns (ok: bool)
      modifies this
      ensures (Now(), ok) == Unlock(old(Now()), t)
    {
      if owner != t { return false; }
      if recursive && recursion > 1 {
        recursion := recursion - 1;
        return true;
      }
      locked, owner, recursion := false, 0, 0;
      var woken := WakeNextWaiter();
      return true;
    }
  }
}
