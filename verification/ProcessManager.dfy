/** schedule() on one CPU, run through without interruption. */
module ProcessManager {
  import opened RunQueue
  import S = SmpScheduler

  /** The pick, with the second look that load_balance takes at an empty queue. */
  function PickSpec(cpu: S.Cpu, slice: S.Slices): S.Cpu
    requires cpu.pc.Picking?
  {
    var picked := S.CpuNext(cpu, slice, S.Pick(0));
    if picked.pc.Balancing? then S.CpuNext(picked, slice, S.Balance(0)) else picked
  }

  /** The steps of one CPU from a timer tick until it is out of schedule() again. */
  function ScheduleSpec(cpu: S.Cpu, slice: S.Slices): (S.Cpu, S.Slices)
    requires cpu.pc.Running? && cpu.current in slice
  {
    var slice1 := S.SliceNext(cpu, slice, S.Tick(0));
    var cpu1 := S.CpuNext(cpu, slice, S.Tick(0));
    if cpu1.pc.Running? then (cpu1, slice1) else
      var cpu2 := PickSpec(cpu1, slice1);
      if cpu2.pc.Running? then (cpu2, slice1) else
        var slice3 := S.SliceNext(cpu2, slice1, S.Requeue(0));
        var cpu3 := S.CpuNext(cpu2, slice1, S.Requeue(0));
        (S.CpuNext(cpu3, slice3, S.Switch(0)), slice3)
  }

  // ------------------------------------------------------------ what schedule() means

  /** schedule() gives up the CPU: the slice is used up and there is another task to run. */
  predicate GivesUp(cpu: S.Cpu, slice: S.Slices)
    requires cpu.current in slice
  {
    slice[cpu.current] <= 1 && slice[cpu.current] != -0x8000_0000 && (cpu.queue != [] || cpu.current != cpu.idle)
  }

  /** The CPU and the slices around one call: the first queued task, or else the idle task,
      takes over, and the old one goes to the end of the queue with a slice of 100; or
      nothing changes but a slice. */
  predicate Rotated(cpu: S.Cpu, slice: S.Slices, cpu': S.Cpu, slice': S.Slices)
    requires cpu.current in slice
  {
    && cpu'.idle == cpu.idle && cpu'.pc.Running? && cpu'.nrRunning - |cpu'.queue| == cpu.nrRunning - |cpu.queue|
    && if GivesUp(cpu, slice) then
         && cpu'.current == (if cpu.queue == [] then cpu.idle else cpu.queue[0])
         && cpu'.queue == (if cpu.queue == [] then [] else cpu.queue[1..]) + [cpu.current]
         && slice' == slice[cpu.current := 100]
       else
         cpu'.current == cpu.current && cpu'.queue == cpu.queue
         && slice' == slice[cpu.current := if slice[cpu.current] == -0x8000_0000 then 0x7FFF_FFFF
                                           else slice[cpu.current] - 1]
  }

  lemma ScheduleRotates(cpu: S.Cpu, slice: S.Slices)
    requires cpu.pc.Running? && cpu.current in slice && (cpu.queue != [] ==> cpu.queue[0] != cpu.current)
    ensures var (cpu', slice') := ScheduleSpec(cpu, slice); Rotated(cpu, slice, cpu', slice')
  {
    var used := slice[cpu.current := S.Decrement(slice[cpu.current])];
    assert used[cpu.current := 100] == slice[cpu.current := 100];
  }

  /** No task is lost or doubled. */
  lemma ScheduleAt(cpu: S.Cpu, slice: S.Slices, t: S.Task)
    requires cpu.pc.Running? && S.CpuOk(cpu, slice) && S.Alone(cpu)
    ensures S.At(ScheduleSpec(cpu, slice).0, t) == S.At(cpu, t)
  {
    CurrentNotQueued(cpu);
    ScheduleRotates(cpu, slice);
    if cpu.queue != [] { assert cpu.queue == [cpu.queue[0]] + cpu.queue[1..]; }
  }

  lemma CurrentNotQueued(cpu: S.Cpu)
    requires cpu.pc.Running? && S.Alone(cpu)
    ensures cpu.current !in cpu.queue
  {
    assert S.At(cpu, cpu.current) <= 1;
    assert cpu.current in cpu.queue <==> cpu.current in multiset(cpu.queue);
  }

  lemma RunCons(s: S.State, step: S.Step, s1: S.State, steps: seq<S.Step>)
    requires S.Enabled(s, step) && s1 == S.Next(s, step) && S.IsRun(s1, steps)
    ensures S.IsRun(s, [step] + steps) && S.Run(s, [step] + steps) == S.Run(s1, steps)
  {
    assert ([step] + steps)[1..] == steps;
  }

  /** From picking on. */
  lemma PickIsRun(s: S.State, c: nat, cpu: S.Cpu) returns (steps: seq<S.Step>, s': S.State)
    requires c < |s.cpus| && cpu == s.cpus[c] && cpu.pc.Picking?
    ensures S.IsRun(s, steps) && s' == S.Run(s, steps)
    ensures var cpu2 := PickSpec(cpu, s.slice);
            if cpu2.pc.Running? then s' == S.State(s.cpus[c := cpu2], s.slice) else
            && cpu2.pc.Picked?
            && var slice3 := S.SliceNext(cpu2, s.slice, S.Requeue(0));
               var cpu3 := S.CpuNext(cpu2, s.slice, S.Requeue(0));
               s' == S.State(s.cpus[c := S.CpuNext(cpu3, slice3, S.Switch(0))], slice3)
  {
    var s1 := S.Next(s, S.Pick(c));
    var balances := s1.cpus[c].pc.Balancing?;
    var s2 := if balances then S.Next(s1, S.Balance(c)) else s1;
    assert s2 == S.State(s.cpus[c := PickSpec(cpu, s.slice)], s.slice);
    if s2.cpus[c].pc.Running? {
      steps, s' := [], s2;
    } else {
      var s3 := S.Next(s2, S.Requeue(c));
      s' := S.Next(s3, S.Switch(c));
      RunCons(s3, S.Switch(c), s', []);
      RunCons(s2, S.Requeue(c), s3, [S.Switch(c)] + []);
      steps := [S.Requeue(c)] + ([S.Switch(c)] + []);
      assert s'.cpus == s.cpus[c := s'.cpus[c]];
    }
    if balances {
      RunCons(s1, S.Balance(c), s2, steps);
      steps := [S.Balance(c)] + steps;
    }
    RunCons(s, S.Pick(c), s1, steps);
    steps := [S.Pick(c)] + steps;
  }

  /** In any state of the machine, an uninterrupted schedule() of CPU c is a run of steps
      of that CPU, and so keeps whatever such runs keep. */
  lemma ScheduleIsRun(s: S.State, c: nat) returns (steps: seq<S.Step>)
    requires c < |s.cpus| && s.cpus[c].pc.Running? && s.cpus[c].current in s.slice
    ensures S.IsRun(s, steps)
    ensures var (cpu', slice') := ScheduleSpec(s.cpus[c], s.slice);
            S.Run(s, steps) == S.State(s.cpus[c := cpu'], slice')
  {
    var s1 := S.Next(s, S.Tick(c));
    if s1.cpus[c].pc.Running? {
      steps := [];
    } else {
      var s';
      steps, s' := PickIsRun(s1, c, s1.cpus[c]);
      assert s1.cpus[c := s'.cpus[c]] == s.cpus[c := s'.cpus[c]];
    }
    RunCons(s, S.Tick(c), s1, steps);
    steps := [S.Tick(c)] + steps;
  }

  // ----------------------------------------------------------------------- the object

  /** No two nodes stand for one task. */
  ghost predicate Distinct(nodes: set<ListHead>) {
    forall a, b :: a in nodes && b in nodes && a.task == b.task ==> a == b
  }

  class PerCpu {
    const queue: RunQueue
    var current: ListHead
    const idle: ListHead

    constructor (idle: ListHead)
      ensures fresh(queue) && fresh(queue.head) && current == idle && this.idle == idle
      ensures Valid() && Now() == S.Cpu(S.Running, idle.task, [], 0, idle.task)
    {
      this.queue := new RunQueue();
      this.current := idle;
      this.idle := idle;
    }

    ghost function Nodes(): set<ListHead>
      reads this, queue
    {
      (set n | n in queue.nodes) + {current, idle}
    }

    ghost predicate Valid()
      reads this, queue, queue.head, queue.nodes
    {
      && queue.Valid()
      && current !in queue.nodes
      && queue.head !in Nodes()
      && Distinct(Nodes())
    }

    ghost function Now(): S.Cpu
      reads this, queue
    {
      S.Cpu(S.Running, current.task, queue.Tasks(), queue.nrRunning, idle.task)
    }

    /** pick_next_task: the first task, or the idle task of this CPU. */
    method PickNextTask(ghost slice: S.Slices) returns (next: ListHead)
      requires Valid()
      modifies queue, queue.head, queue.nodes
      ensures queue.Valid() && current !in queue.nodes && Nodes() + {next} <= old(Nodes()) && next !in queue.nodes
      ensures queue.nodes == if old(queue.nodes) == [] then [] else old(queue.nodes)[1..]
      ensures next == if old(queue.nodes) == [] then idle else old(queue.nodes)[0]
      ensures
        PickSpec(old(Now()).(pc := S.Picking), slice)
        == Now().(pc := if next == current then S.Running else S.Picked(next.task))
    {
      var first := queue.TakeFirst();
      if first != null { return first; }
      // load_balance looks at the same queue again, which nobody has touched
      first := queue.TakeFirst();
      assert first == null;
      return idle;
    }

    /** ProcessManager::schedule; `slices` holds the time_slice of every task. */
    method Schedule(slices: map<nat, int>) returns (switched: bool, left: map<nat, int>)
      requires Valid() && current.task in slices
      modifies this, queue, queue.head, queue.nodes, current
      ensures Valid()
      ensures (Now(), left) == ScheduleSpec(old(Now()), slices)
      ensures Rotated(old(Now()), slices, Now(), left)
      ensures switched == GivesUp(old(Now()), slices) == (current != old(current))
    {
      ghost var all := Nodes();
      left := slices[current.task := S.Decrement(slices[current.task])];
      if left[current.task] > 0 { return false, left; }
      var next := PickNextTask(left);
      if next == current { return false, left; }
      left := left[current.task := S.DEFAULT_TIME_SLICE];
      SwitchTo(next, all);
      switched := true;
    }

    /** The old task to the end of the queue, and the new one in its place. */
    method SwitchTo(next: ListHead, ghost all: set<ListHead>)
      requires queue.Valid() && current !in queue.nodes && next !in queue.nodes && next != current
      requires Distinct(all) && Nodes() + {next} <= all && queue.head !in all
      modifies this, queue, queue.head, queue.nodes, current
      ensures Valid() && current == next && queue.Tasks() == old(queue.Tasks()) + [old(current.task)]
    {
      queue.EnqueueTask(current);
      current := next;
    }
  }
}
