/** The SMP round-robin scheduler as steps of all CPUs in any interleaving; the
    atomic unit is one locked section of a run queue. */
module SmpScheduler {
  import opened Sequences

  const DEFAULT_TIME_SLICE: int := 100
  /** The least time slice, a 32-bit number. */
  const MIN_SLICE: int := -0x8000_0000

  type Task = nat

  /** Where a CPU is inside schedule(): not in it; about to look at its queue; about
      to look again after finding it empty; holding the task it picked; and past the
      requeueing of the old task, about to switch. */
  datatype Pc = Running | Picking | Balancing | Picked(next: Task) | Switching(next: Task)

  datatype Cpu = Cpu(pc: Pc, current: Task, queue: seq<Task>, nrRunning: int, idle: Task)

  /** The remaining time slice of every task there is. */
  type Slices = map<Task, int>

  datatype State = State(cpus: seq<Cpu>, slice: Slices)

  /** Steps of CPU c, and the enqueueing of a new task on CPU c by anyone. */
  datatype Step =
    | Tick(c: nat) | Pick(c: nat) | Balance(c: nat) | Requeue(c: nat) | Switch(c: nat)
    | Enqueue(c: nat, task: Task)

  /** --time_slice, which wraps around. */
  function Decrement(x: int): int {
    if x == MIN_SLICE then -MIN_SLICE - 1 else x - 1
  }

  predicate IsSlice(x: int) {
    MIN_SLICE <= x < -MIN_SLICE
  }

  // ------------------------------------------------------------------------ one CPU

  predicate CpuEnabled(cpu: Cpu, slice: Slices, step: Step) {
    match step
    case Tick(_) => cpu.pc.Running? && cpu.current in slice
    case Pick(_) => cpu.pc.Picking?
    case Balance(_) => cpu.pc.Balancing?
    case Requeue(_) => cpu.pc.Picked?
    case Switch(_) => cpu.pc.Switching?
    case Enqueue(_, t) => t !in slice
  }

  /** The picked task is the current one: nothing to do; otherwise hold it. */
  function Arrive(cpu: Cpu, next: Task): Cpu {
    cpu.(pc := if next == cpu.current then Running else Picked(next))
  }

  function TakeFirst(cpu: Cpu): Cpu
    requires cpu.queue != []
  {
    Arrive(cpu.(queue := cpu.queue[1..], nrRunning := cpu.nrRunning - 1), cpu.queue[0])
  }

  function Append(cpu: Cpu, t: Task): Cpu {
    cpu.(queue := cpu.queue + [t], nrRunning := cpu.nrRunning + 1)
  }

  function CpuNext(cpu: Cpu, slice: Slices, step: Step): Cpu
    requires CpuEnabled(cpu, slice, step)
  {
    match step
    case Tick(_) => if Decrement(slice[cpu.current]) > 0 then cpu else cpu.(pc := Picking)
    case Pick(_) => if cpu.queue == [] then cpu.(pc := Balancing) else TakeFirst(cpu)
    case Balance(_) => if cpu.queue == [] then Arrive(cpu, cpu.idle) else TakeFirst(cpu)
    case Requeue(_) => Append(cpu, cpu.current).(pc := Switching(cpu.pc.next))
    case Switch(_) => cpu.(pc := Running, current := cpu.pc.next)
    case Enqueue(_, t) => Append(cpu, t)
  }

  function SliceNext(cpu: Cpu, slice: Slices, step: Step): Slices
    requires CpuEnabled(cpu, slice, step)
  {
    match step
    case Tick(_) => slice[cpu.current := Decrement(slice[cpu.current])]
    case Requeue(_) => slice[cpu.current := DEFAULT_TIME_SLICE]
    case Enqueue(_, t) => slice[t := DEFAULT_TIME_SLICE]
    case _ => slice
  }

  /** In how many places of this CPU a task is: queued, current, or held in between. */
  function At(cpu: Cpu, t: Task): nat {
    multiset(cpu.queue)[t]
    + (if !cpu.pc.Switching? && cpu.current == t then 1 else 0)
    + (if (cpu.pc.Picked? || cpu.pc.Switching?) && cpu.pc.next == t then 1 else 0)
  }

  ghost predicate Alone(cpu: Cpu) {
    forall t :: At(cpu, t) <= 1
  }

  /** The CPU's own bookkeeping: the queue's length, its idle task, and time slices. */
  predicate CpuOk(cpu: Cpu, slice: Slices) {
    && cpu.nrRunning == |cpu.queue|
    && At(cpu, cpu.idle) == 1
    && (cpu.pc.Balancing? ==> cpu.current == cpu.idle)
    && (forall t :: t in cpu.queue ==> t in slice && slice[t] == DEFAULT_TIME_SLICE)
    && (!cpu.pc.Switching? ==> cpu.current in slice && IsSlice(slice[cpu.current]))
    && (cpu.pc.Picked? || cpu.pc.Switching? ==> cpu.pc.next in slice && slice[cpu.pc.next] == DEFAULT_TIME_SLICE)
  }

  lemma TakeFirstAt(cpu: Cpu, t: Task)
    requires cpu.queue != [] && !cpu.pc.Picked? && !cpu.pc.Switching? && At(cpu, cpu.current) == 1
    ensures cpu.queue[0] != cpu.current && At(TakeFirst(cpu), t) == At(cpu, t)
  {
    assert cpu.queue == [cpu.queue[0]] + cpu.queue[1..];
    assert cpu.queue[0] in multiset(cpu.queue);
  }

  lemma AppendAt(cpu: Cpu, x: Task, t: Task)
    ensures At(Append(cpu, x), t) == At(cpu, t) + if x == t then 1 else 0
  {
    assert multiset(cpu.queue + [x]) == multiset(cpu.queue) + multiset{x};
  }

  /** Within one CPU a step moves tasks about but neither loses nor doubles one. */
  lemma CpuAt(cpu: Cpu, slice: Slices, step: Step, t: Task)
    requires CpuEnabled(cpu, slice, step) && CpuOk(cpu, slice) && Alone(cpu)
    ensures At(CpuNext(cpu, slice, step), t) == At(cpu, t) + if step.Enqueue? && step.task == t then 1 else 0
  {
    assert At(cpu, cpu.current) <= 1;
    match step
    case Pick(_) => if cpu.queue != [] { TakeFirstAt(cpu, t); }
    case Balance(_) => if cpu.queue != [] { TakeFirstAt(cpu, t); }
    case Requeue(_) => AppendAt(cpu, cpu.current, t);
    case Enqueue(_, x) => AppendAt(cpu, x, t);
    case _ =>
  }

  lemma InQueue(cpu: Cpu)
    ensures forall t :: t in cpu.queue ==> At(cpu, t) >= 1
  {
    assert forall t :: t in cpu.queue ==> t in multiset(cpu.queue);
  }

  /** A step keeps the bookkeeping of the CPU that takes it. */
  lemma CpuKeeps(cpu: Cpu, slice: Slices, step: Step)
    requires CpuEnabled(cpu, slice, step) && CpuOk(cpu, slice) && Alone(cpu)
    ensures CpuOk(CpuNext(cpu, slice, step), SliceNext(cpu, slice, step))
  {
    CpuAt(cpu, slice, step, cpu.idle);
    assert At(cpu, cpu.current) <= 1;
    assert cpu.current in multiset(cpu.queue) <==> cpu.current in cpu.queue;
    if step.Enqueue? { assert step.task != cpu.idle by { InQueue(cpu); } }
  }

  /** And the bookkeeping of a CPU that shares no task with it. */
  lemma OtherKeeps(cpu: Cpu, slice: Slices, step: Step, other: Cpu)
    requires CpuEnabled(cpu, slice, step) && CpuOk(cpu, slice) && CpuOk(other, slice)
    requires forall t :: At(cpu, t) + At(other, t) <= 1
    ensures CpuOk(other, SliceNext(cpu, slice, step))
    ensures forall t :: At(other, t) > 0 ==> t in slice && SliceNext(cpu, slice, step)[t] == slice[t]
  {
    InQueue(other);
    assert At(cpu, cpu.current) + At(other, cpu.current) <= 1;
    forall t | At(other, t) > 0 ensures t in slice && SliceNext(cpu, slice, step)[t] == slice[t] {
      assert multiset(other.queue)[t] > 0 <==> t in other.queue;
    }
  }

  // ----------------------------------------------------------------------- all CPUs

  predicate Enabled(s: State, step: Step) {
    step.c < |s.cpus| && CpuEnabled(s.cpus[step.c], s.slice, step)
  }

  function Next(s: State, step: Step): State
    requires Enabled(s, step)
  {
    State(s.cpus[step.c := CpuNext(s.cpus[step.c], s.slice, step)], SliceNext(s.cpus[step.c], s.slice, step))
  }

  function AllAt(cpus: seq<Cpu>, t: Task): nat {
    if cpus == [] then 0 else At(cpus[0], t) + AllAt(cpus[1..], t)
  }

  lemma {:induction false} UpdateAt(cpus: seq<Cpu>, c: nat, cpu: Cpu, t: Task)
    requires c < |cpus|
    ensures AllAt(cpus[c := cpu], t) + At(cpus[c], t) == AllAt(cpus, t) + At(cpu, t)
    decreases c
  {
    if c == 0 {
      assert cpus[c := cpu][1..] == cpus[1..];
    } else {
      UpdateAt(cpus[1..], c - 1, cpu, t);
      assert cpus[c := cpu][1..] == cpus[1..][c - 1 := cpu];
    }
  }

  lemma {:induction false} OneAt(cpus: seq<Cpu>, c: nat, t: Task)
    requires c < |cpus|
    ensures At(cpus[c], t) <= AllAt(cpus, t)
    decreases c
  {
    if c > 0 {
      OneAt(cpus[1..], c - 1, t);
    }
  }

  lemma {:induction false} TwoAt(cpus: seq<Cpu>, c: nat, d: nat, t: Task)
    requires c < d < |cpus|
    ensures At(cpus[c], t) + At(cpus[d], t) <= AllAt(cpus, t)
    decreases c
  {
    if c == 0 {
      OneAt(cpus[1..], d - 1, t);
    } else {
      TwoAt(cpus[1..], c - 1, d - 1, t);
    }
  }

  /** Every task is in exactly one place of exactly one CPU. */
  ghost predicate OnePlaceEach(s: State) {
    forall t :: AllAt(s.cpus, t) == if t in s.slice then 1 else 0
  }

  ghost predicate Inv(s: State) {
    OnePlaceEach(s) && forall c :: 0 <= c < |s.cpus| ==> CpuOk(s.cpus[c], s.slice)
  }

  /** No CPU has a task twice, and no two CPUs share one. */
  lemma Apart(s: State, c: nat)
    requires OnePlaceEach(s) && c < |s.cpus|
    ensures Alone(s.cpus[c])
    ensures forall d: nat, t | d < |s.cpus| && d != c :: At(s.cpus[c], t) + At(s.cpus[d], t) <= 1
  {
    forall t ensures At(s.cpus[c], t) <= 1 {
      OneAt(s.cpus, c, t);
    }
    forall d: nat, t | d < |s.cpus| && d != c ensures At(s.cpus[c], t) + At(s.cpus[d], t) <= 1 {
      TwoAt(s.cpus, if c < d then c else d, if c < d then d else c, t);
    }
  }

  lemma StepOnePlace(s: State, step: Step)
    requires Inv(s) && Enabled(s, step)
    ensures OnePlaceEach(Next(s, step))
  {
    var c, cpu := step.c, s.cpus[step.c];
    Apart(s, c);
    forall t ensures AllAt(Next(s, step).cpus, t) == if t in Next(s, step).slice then 1 else 0 {
      CpuAt(cpu, s.slice, step, t);
      UpdateAt(s.cpus, c, CpuNext(cpu, s.slice, step), t);
    }
  }

  lemma StepKeeps(s: State, step: Step)
    requires Inv(s) && Enabled(s, step)
    ensures Inv(Next(s, step))
  {
    StepOnePlace(s, step);
    var c := step.c;
    Apart(s, c);
    forall d | 0 <= d < |s.cpus| ensures CpuOk(Next(s, step).cpus[d], Next(s, step).slice) {
      if d == c {
        CpuKeeps(s.cpus[c], s.slice, step);
      } else {
        OtherKeeps(s.cpus[c], s.slice, step, s.cpus[d]);
      }
    }
  }

  // --------------------------------------------------------------------------- runs

  predicate IsRun(s: State, steps: seq<Step>)
    decreases |steps|
  {
    steps == [] || (Enabled(s, steps[0]) && IsRun(Next(s, steps[0]), steps[1..]))
  }

  function Run(s: State, steps: seq<Step>): State
    requires IsRun(s, steps)
    decreases |steps|
  {
    if steps == [] then s else Run(Next(s, steps[0]), steps[1..])
  }

  lemma {:induction false} RunKeeps(s: State, steps: seq<Step>)
    requires Inv(s) && IsRun(s, steps)
    ensures Inv(Run(s, steps))
    decreases |steps|
  {
    if steps != [] {
      StepKeeps(s, steps[0]);
      RunKeeps(Next(s, steps[0]), steps[1..]);
    }
  }

  predicate Idles(cpu: Cpu) {
    cpu == Cpu(Running, cpu.idle, [], 0, cpu.idle)
  }

  /** SMP_Scheduler::init: every CPU runs an idle task of its own, nothing is queued. */
  predicate Boot(s: State) {
    && (forall c :: 0 <= c < |s.cpus| ==> Idles(s.cpus[c]))
    && (forall c, d :: 0 <= c < d < |s.cpus| ==> s.cpus[c].idle != s.cpus[d].idle)
    && (forall c :: 0 <= c < |s.cpus| ==> s.cpus[c].idle in s.slice)
    && (forall t :: t in s.slice ==> HasIdle(s.cpus, t) && s.slice[t] == DEFAULT_TIME_SLICE)
  }

  predicate HasIdle(cpus: seq<Cpu>, t: Task) {
    exists c :: 0 <= c < |cpus| && cpus[c].idle == t
  }

  lemma {:induction false} BootPlaces(cpus: seq<Cpu>, t: Task)
    requires forall c :: 0 <= c < |cpus| ==> Idles(cpus[c])
    requires forall c, d :: 0 <= c < d < |cpus| ==> cpus[c].idle != cpus[d].idle
    ensures AllAt(cpus, t) == if HasIdle(cpus, t) then 1 else 0
  {
    if cpus != [] {
      BootPlaces(cpus[1..], t);
      assert HasIdle(cpus, t) <==> cpus[0].idle == t || HasIdle(cpus[1..], t) by {
        assert forall c :: 0 < c < |cpus| ==> cpus[c] == cpus[1..][c - 1];
      }
      assert cpus[0].idle == t ==> !HasIdle(cpus[1..], t);
    }
  }

  /** In every state of every interleaving every task is in exactly one place, queue
      counts are exact and each CPU still has its idle task. */
  lemma FromBoot(s: State, steps: seq<Step>)
    requires Boot(s) && IsRun(s, steps)
    ensures Inv(Run(s, steps))
  {
    forall t ensures AllAt(s.cpus, t) == if t in s.slice then 1 else 0 {
      BootPlaces(s.cpus, t);
    }
    RunKeeps(s, steps);
  }

  // ---------------------------------------------------------------- bounded waiting

  predicate Waiting(cpu: Cpu, t: Task) {
    t in cpu.queue || ((cpu.pc.Picked? || cpu.pc.Switching?) && cpu.pc.next == t)
  }

  /** How many ticks it takes until a slice is used up. */
  function TicksLeft(x: int): (n: nat)
    ensures n >= 1
  {
    if x == MIN_SLICE then -MIN_SLICE else if x > 1 then x else 1
  }

  /** The ticks that the task now running, or about to, may still take. */
  function Ahead(cpu: Cpu, slice: Slices): nat
    requires CpuOk(cpu, slice)
  {
    match cpu.pc
    case Running => TicksLeft(slice[cpu.current])
    case Picking => 0
    case Balancing => 0
    case Picked(_) => DEFAULT_TIME_SLICE
    case Switching(_) => DEFAULT_TIME_SLICE
  }

  /** A bound on the ticks before a waiting task gets the CPU. */
  function Wait(cpu: Cpu, slice: Slices, t: Task): nat
    requires CpuOk(cpu, slice) && Waiting(cpu, t)
  {
    if t in cpu.queue then DEFAULT_TIME_SLICE * IndexOf(cpu.queue, t) + Ahead(cpu, slice) else 0
  }

  predicate Runs(cpu: Cpu, t: Task) {
    cpu.pc.Running? && cpu.current == t
  }

  lemma TakeFirstWait(cpu: Cpu, slice: Slices, t: Task)
    requires cpu.pc.Picking? || cpu.pc.Balancing?
    requires cpu.queue != [] && CpuOk(cpu, slice) && CpuOk(TakeFirst(cpu), slice)
    requires cpu.queue[0] != cpu.current && t in cpu.queue && At(cpu, t) <= 1
    ensures Waiting(TakeFirst(cpu), t) && Wait(TakeFirst(cpu), slice, t) <= Wait(cpu, slice, t)
  {
    if t == cpu.queue[0] {
      assert At(cpu, t) >= 2 || t !in cpu.queue[1..] by {
        assert cpu.queue == [t] + cpu.queue[1..];
      }
    }
  }

  lemma AppendWait(q: seq<Task>, x: Task, t: Task)
    requires t in q
    ensures t in q + [x] && IndexOf(q + [x], t) == IndexOf(q, t)
  {
    assert (q + [x])[IndexOf(q, t)] == t;
  }

  /** A step of the CPU never raises the bound, and a tick lowers it, unless the task
      gets the CPU. */
  lemma CpuWait(cpu: Cpu, slice: Slices, step: Step, t: Task)
    requires CpuEnabled(cpu, slice, step) && CpuOk(cpu, slice) && Alone(cpu) && Waiting(cpu, t)
    requires CpuOk(CpuNext(cpu, slice, step), SliceNext(cpu, slice, step))
    ensures
      var next, left := CpuNext(cpu, slice, step), SliceNext(cpu, slice, step);
      || Runs(next, t)
      || (Waiting(next, t) && Wait(next, left, t) + (if step.Tick? then 1 else 0) <= Wait(cpu, slice, t))
  {
    assert At(cpu, cpu.current) <= 1;
    match step
    case Pick(_) => if cpu.queue != [] { TakeFirstAt(cpu, t); TakeFirstWait(cpu, slice, t); }
    case Balance(_) => if cpu.queue != [] { TakeFirstAt(cpu, t); TakeFirstWait(cpu, slice, t); }
    case Requeue(_) => if t in cpu.queue { AppendWait(cpu.queue, cpu.current, t); }
    case Enqueue(_, x) => if t in cpu.queue { AppendWait(cpu.queue, x, t); }
    case _ =>
  }

  /** A step of another CPU leaves the bound alone. */
  lemma OtherWait(cpu: Cpu, slice: Slices, step: Step, other: Cpu, t: Task)
    requires CpuEnabled(cpu, slice, step) && CpuOk(cpu, slice) && CpuOk(other, slice) && Waiting(other, t)
    requires forall t :: At(cpu, t) + At(other, t) <= 1
    ensures CpuOk(other, SliceNext(cpu, slice, step))
    ensures Wait(other, SliceNext(cpu, slice, step), t) == Wait(other, slice, t)
  {
    OtherKeeps(cpu, slice, step, other);
    assert !other.pc.Switching? ==> At(other, other.current) > 0;
  }

  lemma StepWait(s: State, step: Step, c: nat, t: Task)
    requires Inv(s) && Enabled(s, step) && c < |s.cpus| && Waiting(s.cpus[c], t)
    ensures Inv(Next(s, step))
    ensures
      var s' := Next(s, step);
      || Runs(s'.cpus[c], t)
      || (Waiting(s'.cpus[c], t)
          && Wait(s'.cpus[c], s'.slice, t) + (if step == Tick(c) then 1 else 0) <= Wait(s.cpus[c], s.slice, t))
  {
    StepKeeps(s, step);
    Apart(s, step.c);
    if step.c == c {
      assert Next(s, step).cpus[c] == CpuNext(s.cpus[c], s.slice, step);
      CpuKeeps(s.cpus[c], s.slice, step);
      CpuWait(s.cpus[c], s.slice, step, t);
    } else {
      assert Next(s, step).cpus[c] == s.cpus[c];
      OtherWait(s.cpus[step.c], s.slice, step, s.cpus[c], t);
    }
  }

  function Ticks(steps: seq<Step>, c: nat): nat {
    if steps == [] then 0 else (if steps[0] == Tick(c) then 1 else 0) + Ticks(steps[1..], c)
  }

  /** In some state of the run, CPU c runs t. */
  predicate GetsCpu(s: State, steps: seq<Step>, c: nat, t: Task)
    requires IsRun(s, steps) && c < |s.cpus|
    decreases |steps|
  {
    Runs(s.cpus[c], t) || (steps != [] && GetsCpu(Next(s, steps[0]), steps[1..], c, t))
  }

  lemma {:induction false} TicksServe(s: State, steps: seq<Step>, c: nat, t: Task)
    requires Inv(s) && IsRun(s, steps) && c < |s.cpus| && Waiting(s.cpus[c], t)
    requires Ticks(steps, c) >= Wait(s.cpus[c], s.slice, t) && |Run(s, steps).cpus| == |s.cpus|
    requires Run(s, steps).cpus[c].pc.Running?
    ensures GetsCpu(s, steps, c, t)
    decreases |steps|
  {
    if steps != [] {
      var s' := Next(s, steps[0]);
      StepWait(s, steps[0], c, t);
      if !Runs(s'.cpus[c], t) {
        TicksServe(s', steps[1..], c, t);
      }
    }
  }

  /** The task at position i of a queue has run by the time its CPU has taken as many ticks
      as the running task has left, and 100 for each task in front, and is out of schedule()
      again. */
  lemma ServedWithin(s: State, steps: seq<Step>, c: nat, i: nat)
    requires Inv(s) && IsRun(s, steps) && c < |s.cpus| == |Run(s, steps).cpus| && i < |s.cpus[c].queue|
    requires Ticks(steps, c) >= i * DEFAULT_TIME_SLICE + Ahead(s.cpus[c], s.slice) && Run(s, steps).cpus[c].pc.Running?
    ensures GetsCpu(s, steps, c, s.cpus[c].queue[i])
  {
    var q := s.cpus[c].queue;
    FirstIndex(q, i);
    TicksServe(s, steps, c, q[i]);
  }

  lemma FirstIndex(q: seq<Task>, i: nat)
    requires i < |q|
    ensures IndexOf(q, q[i]) <= i
  {
  }

  /** In this run, the task at position i has run by the time its CPU has taken (i + 1) * 100
      ticks and is out of schedule() again. */
  ghost predicate Timely(s: State, c: nat, steps: seq<Step>, i: nat)
    requires c < |s.cpus|
  {
    IsRun(s, steps) && |Run(s, steps).cpus| == |s.cpus| && i < |s.cpus[c].queue|
    && Ticks(steps, c) >= (i + 1) * DEFAULT_TIME_SLICE && Run(s, steps).cpus[c].pc.Running? ==>
      GetsCpu(s, steps, c, s.cpus[c].queue[i])
  }

  /** The running task will use up its slice within 100 ticks. */
  predicate SliceInBounds(cpu: Cpu, slice: Slices)
    requires CpuOk(cpu, slice)
  {
    cpu.pc.Running? ==> MIN_SLICE < slice[cpu.current] <= DEFAULT_TIME_SLICE
  }

  function TickSteps(c: nat, n: nat): seq<Step> {
    if n == 0 then [] else [Tick(c)] + TickSteps(c, n - 1)
  }

  /** A CPU whose running task has more than n ticks left runs it for n ticks. */
  lemma {:induction false} HoldsOn(s: State, c: nat, n: nat, t: Task)
    requires Inv(s) && c < |s.cpus| && s.cpus[c].pc.Running? && t != s.cpus[c].current
    requires TicksLeft(s.slice[s.cpus[c].current]) > n
    ensures var steps := TickSteps(c, n);
            && IsRun(s, steps) && Ticks(steps, c) == n && Run(s, steps).cpus == s.cpus && !GetsCpu(s, steps, c, t)
    decreases n
  {
    if n > 0 {
      var s', rest := Next(s, Tick(c)), TickSteps(c, n - 1);
      StepKeeps(s, Tick(c));
      assert s'.cpus == s.cpus;
      HoldsOn(s', c, n - 1, t);
      assert TickSteps(c, n)[1..] == rest;
    }
  }

  /** Waiting is bounded by 100 ticks for each task in front and 100 more if and only if the
      slice of the running task is in bounds. */
  lemma BoundedWaitingIff(s: State, c: nat)
    requires Inv(s) && c < |s.cpus| && s.cpus[c].queue != []
    ensures (forall steps, i: nat :: Timely(s, c, steps, i)) <==> SliceInBounds(s.cpus[c], s.slice)
  {
    if SliceInBounds(s.cpus[c], s.slice) {
      forall steps, i: nat ensures Timely(s, c, steps, i) {
        if !Timely(s, c, steps, i) { ServedWithin(s, steps, c, i); }
      }
    } else {
      Apart(s, c);
      var first, n := s.cpus[c].queue[0], 100;
      assert first in multiset(s.cpus[c].queue) && At(s.cpus[c], first) <= 1;
      HoldsOn(s, c, n, first);
      assert !Timely(s, c, TickSteps(c, n), 0);
    }
  }

  // --------------------------------------------------------------- slices from boot on

  function AllTicks(steps: seq<Step>): nat {
    if steps == [] then 0 else (if steps[0].Tick? then 1 else 0) + AllTicks(steps[1..])
  }

  predicate SlicesWithin(slice: Slices, k: nat) {
    forall t :: t in slice ==> DEFAULT_TIME_SLICE - k <= slice[t] <= DEFAULT_TIME_SLICE
  }

  lemma {:induction false} TicksLower(s: State, steps: seq<Step>, k: nat)
    requires IsRun(s, steps) && SlicesWithin(s.slice, k) && k + AllTicks(steps) < DEFAULT_TIME_SLICE - MIN_SLICE
    ensures SlicesWithin(Run(s, steps).slice, k + AllTicks(steps))
    decreases |steps|
  {
    if steps != [] {
      TicksLower(Next(s, steps[0]), steps[1..], if steps[0].Tick? then k + 1 else k);
    }
  }

  /** From boot on, until the CPUs have taken 2^31 + 100 ticks together, every slice is in
      bounds, and so all waiting is bounded. */
  lemma BoundedFromBoot(s: State, steps: seq<Step>, c: nat)
    requires Boot(s) && IsRun(s, steps) && AllTicks(steps) < DEFAULT_TIME_SLICE - MIN_SLICE
    requires c < |Run(s, steps).cpus|
    ensures forall more, i: nat :: Timely(Run(s, steps), c, more, i)
  {
    var s' := Run(s, steps);
    FromBoot(s, steps);
    TicksLower(s, steps, 0);
    forall more, i: nat ensures Timely(s', c, more, i) {
      if s'.cpus[c].queue != [] { BoundedWaitingIff(s', c); }
    }
  }

  /** One CPU with nothing but its idle task, which has slice x. */
  function Lone(x: int): State {
    State([Cpu(Running, 0, [], 0, 0)], map[0 := x])
  }

  /** A call of schedule() with an empty queue lowers the slice and never refills it. */
  lemma LoneRound(x: int, tail: seq<Step>) returns (steps: seq<Step>)
    requires MIN_SLICE < x && IsRun(Lone(x - 1), tail)
    ensures IsRun(Lone(x), steps) && Run(Lone(x), steps) == Run(Lone(x - 1), tail)
  {
    if x - 1 > 0 {
      steps := [Tick(0)] + tail;
      assert Next(Lone(x), Tick(0)) == Lone(x - 1) && steps[1..] == tail;
    } else {
      var s1 := Next(Lone(x), Tick(0));
      var s2 := Next(s1, Pick(0));
      assert Next(s2, Balance(0)) == Lone(x - 1);
      var two := [Balance(0)] + tail;
      var one := [Pick(0)] + two;
      assert two[1..] == tail && one[1..] == two;
      assert IsRun(s2, two) && Run(s2, two) == Run(Lone(x - 1), tail);
      assert IsRun(s1, one) && Run(s1, one) == Run(s2, two);
      steps := [Tick(0)] + one;
      assert steps[1..] == one;
    }
  }

  lemma {:induction false} LoneRounds(x: int, n: nat, tail: seq<Step>) returns (steps: seq<Step>)
    requires MIN_SLICE + n <= x && IsRun(Lone(x - n), tail)
    ensures IsRun(Lone(x), steps) && Run(Lone(x), steps) == Run(Lone(x - n), tail)
    decreases n
  {
    if n == 0 {
      steps := tail;
    } else {
      steps := LoneRounds(x - 1, n - 1, tail);
      steps := LoneRound(x, steps);
    }
  }

  /** A lone task brings its slice down to the least, and then a task that comes in is not
      served within 100 ticks. */
  lemma LateTask() returns (s: State, steps: seq<Step>)
    ensures Boot(s) && IsRun(s, steps) && |Run(s, steps).cpus| == 1 && |Run(s, steps).cpus[0].queue| == 1
    ensures exists more, i: nat :: !Timely(Run(s, steps), 0, more, i)
  {
    s := Lone(DEFAULT_TIME_SLICE);
    var low, tail := Lone(MIN_SLICE), [Enqueue(0, 1)];
    assert tail[1..] == [] && IsRun(low, tail) && Run(low, tail) == Next(low, tail[0]);
    steps := LoneRounds(DEFAULT_TIME_SLICE, DEFAULT_TIME_SLICE - MIN_SLICE, tail);
    assert HasIdle(s.cpus, 0) by { assert s.cpus[0].idle == 0; }
    FromBoot(s, steps);
    BoundedWaitingIff(Run(s, steps), 0);
  }
}
