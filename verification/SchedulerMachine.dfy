/** The scheduler with the heap its queues live in: a run goes on only while the allocator can serve
    every node, and then it is the scheduler's run. */
module SchedulerMachine {
  import opened Words
  import opened Seqs
  import opened Contexts
  import opened Keyboard
  import opened Scheduler
  import opened SchedulerInvariant
  import opened SchedulerNodes
  import opened NodeMemory
  import H = HeapModel
  import T = SchedulerTheorems

  datatype Machine = Machine(s: State, mem: Mem)

  const START := Machine(BOOT, BOOT_MEM)

  predicate OutOfMemory(m: Machine) { m.mem.heap.halted }

  /** One step with its node operations; when one of them is fatal the machine stops there. */
  function MachineStep(m: Machine, step: Step): Machine {
    var mem := DoAll(m.mem, StepOps(m.s, step));
    if mem.heap.halted then m.(mem := mem) else Machine(Next(m.s, step), mem)
  }

  function MachineRun(m: Machine, steps: seq<Step>): Machine
    decreases |steps|
  {
    if steps == [] then m else MachineRun(MachineStep(m, steps[0]), steps[1..])
  }

  // ---------------------------------------------------------------- as many nodes as entries

  /** Each queue has as many nodes as entries. */
  predicate Matches(s: State, m: Mem) {
    && |m.ready| == |s.ready| && |m.running| == |s.running|
    && |m.blocking| == |s.blocking| && |m.sleeping| == |s.sleeping|
  }

  ghost predicate MachineOk(m: Machine) { Inv(m.s) && MemOk(m.mem) && Matches(m.s, m.mem) }

  lemma {:induction false} WithoutLength(s: seq<nat>, x: nat)
    requires x in s
    ensures |Without(s, x)| == |s| - 1
  {
    if s[0] != x {
      WithoutLength(s[1..], x);
    }
  }

  /** A queue entry that moves takes its place among the nodes with it. */
  lemma Moved(m: Mem, from: QueueId, queue: seq<nat>, p: nat, to: QueueId)
    requires |Addresses(m, from)| == |queue| && p in queue && from != to
    requires !DoAll(m, MoveOps(from, queue, p, to)).heap.halted
    ensures var t := DoAll(m, MoveOps(from, queue, p, to));
            forall q :: |Addresses(t, q)|
                        == |Addresses(m, q)| + (if q == to then 1 else 0) - (if q == from then 1 else 0)
  {
    var k := Position(queue, p);
    var u := Do(m, Delete(from, k));
    DoTwo(m, Delete(from, k), Insert(to));
    var (heap, node) := H.Malloc(u.heap, NodeSize(to));
    InsertIs(u, to, heap, node);
  }

  lemma WakeMatches(s: State, m: Mem, p: nat)
    requires Matches(s, m) && p in s.blocking && !DoAll(m, WakeOps(s, p)).heap.halted
    ensures Matches(Wake(s, p), DoAll(m, WakeOps(s, p)))
  {
    Moved(m, BlockingQ, s.blocking, p, ReadyQ);
    WithoutLength(s.blocking, p);
    MovedAll(DoAll(m, WakeOps(s, p)), m, BlockingQ, ReadyQ);
  }

  lemma MovedAll(t: Mem, m: Mem, from: QueueId, to: QueueId)
    requires forall q :: |Addresses(t, q)|
                         == |Addresses(m, q)| + (if q == to then 1 else 0) - (if q == from then 1 else 0)
    ensures |t.ready| == |m.ready| + (if to == ReadyQ then 1 else 0) - (if from == ReadyQ then 1 else 0)
    ensures |t.running| == |m.running| + (if to == RunningQ then 1 else 0) - (if from == RunningQ then 1 else 0)
    ensures |t.blocking| == |m.blocking| + (if to == BlockingQ then 1 else 0) - (if from == BlockingQ then 1 else 0)
    ensures |t.sleeping| == |m.sleeping| + (if to == SleepQ then 1 else 0) - (if from == SleepQ then 1 else 0)
  {
    assert Addresses(t, ReadyQ) == t.ready && Addresses(t, RunningQ) == t.running;
    assert Addresses(t, BlockingQ) == t.blocking && Addresses(t, SleepQ) == t.sleeping;
  }

  lemma LeaveMatches(s: State, m: Mem, tf: TrapFrame, status: Status)
    requires Matches(s, m) && status != Running && s.current.Some? && s.current.value in s.running
    requires !DoAll(m, LeaveOps(s, status)).heap.halted
    ensures Matches(Leave(s, tf, status), DoAll(m, LeaveOps(s, status)))
  {
    var p := s.current.value;
    Moved(m, RunningQ, s.running, p, QueueOf(status));
    WithoutLength(s.running, p);
    MovedAll(DoAll(m, LeaveOps(s, status)), m, RunningQ, QueueOf(status));
  }

  lemma NotHaltedBefore(m: Mem, ops: seq<NodeOp>)
    requires !DoAll(m, ops).heap.halted
    ensures !m.heap.halted
  {
    if m.heap.halted {
      HaltSticks(m, ops);
    }
  }

  lemma TickOneMatches(s: State, m: Mem, i: nat)
    requires i < |s.sleeping| && TickOk(s, i) && Matches(s, m) && !DoAll(m, TickOneOps(s, i)).heap.halted
    ensures Matches(TickOne(s, i), DoAll(m, TickOneOps(s, i)))
  {
    var c := s.sleeping[i];
    if c.countDown == 1 {
      WakeMatches(s.(sleeping := s.sleeping[i := Aged(c)]), m, c.process);
    }
  }

  lemma {:induction false} TickMatches(s: State, m: Mem, i: nat)
    requires TickOk(s, i) && Matches(s, m) && !DoAll(m, TickFromOps(s, i)).heap.halted
    ensures Matches(TickFrom(s, i), DoAll(m, TickFromOps(s, i)))
    decreases |s.sleeping| - i
  {
    if i < |s.sleeping| {
      var next, m' := TickOne(s, i), DoAll(m, TickOneOps(s, i));
      TickStepOps(s, m, i);
      NotHaltedBefore(m', TickFromOps(next, i + 1));
      TickOneMatches(s, m, i);
      TickOneOk(s, i);
      TickMatches(next, m', i + 1);
      TickFromStep(s, i);
    }
  }

  lemma {:induction false} DropMatches(m: Mem, clocks: seq<Clock>, k: nat)
    requires |m.sleeping| == k + |clocks| && !DoAll(m, DropOps(clocks, Counting, k)).heap.halted
    ensures var t := DoAll(m, DropOps(clocks, Counting, k));
            && |t.sleeping| == k + |Keep(clocks, Counting)|
            && t.ready == m.ready && t.running == m.running && t.blocking == m.blocking
    decreases |clocks|
  {
    if clocks != [] {
      var rest := clocks[1..];
      if Counting(clocks[0]) {
        DropMatches(m, rest, k + 1);
      } else {
        var u := Do(m, Delete(SleepQ, k));
        var ops := DropOps(rest, Counting, k);
        assert ([Delete(SleepQ, k)] + ops)[1..] == ops;
        if m.heap.halted {
          HaltSticks(m, [Delete(SleepQ, k)] + ops);
        }
        DropMatches(u, rest, k);
      }
    }
  }

  lemma TickAllMatches(s: State, m: Mem)
    requires Inv(s) && s.fault.None? && Matches(s, m) && !DoAll(m, TickOps(s)).heap.halted
    ensures Matches(Tick(s), DoAll(m, TickOps(s)))
  {
    var t, m' := TickFrom(s, 0), DoAll(m, TickFromOps(s, 0));
    TickAllOps(s, m);
    TickFromOk(s, 0);
    if m'.heap.halted {
      HaltSticks(m', DropOps(t.sleeping, Counting, 0));
    }
    TickMatches(s, m, 0);
    DropMatches(m', t.sleeping, 0);
  }

  lemma TimerMatches(s: State, m: Mem, tf: TrapFrame)
    requires Inv(s) && s.fault.None? && Matches(s, m) && !DoAll(m, TimerOps(s)).heap.halted
    ensures Matches(TimerInterrupt(s, tf), DoAll(m, TimerOps(s)))
  {
    var t, m' := Tick(s), DoAll(m, TickOps(s));
    TimerAllOps(s, m);
    TickInv(s);
    if m'.heap.halted {
      HaltSticks(m', LeaveOps(t, Ready));
    }
    TickAllMatches(s, m);
    if t.flow.ProcessThread? {
      assert t.current.value in t.running;
      LeaveMatches(t, m', tf, Ready);
    }
  }

  lemma KeyMatches(s: State, m: Mem, feed: Feed)
    requires Inv(s) && s.fault.None? && Matches(s, m) && !DoAll(m, KeyOps(s, feed)).heap.halted
    ensures Matches(OnFeed(s, feed), DoAll(m, KeyOps(s, feed)))
  {
    if feed.Event? {
      var t := Respond(s, feed.event);
      if !t.gets.enabled && t.gets.count != 0 && t.gets.waiter.Some? {
        var p := t.gets.waiter.value;
        WakeMatches(t, m, p);
        var context := ContextOf(t.procs, p).(eax := t.gets.buffer);
        WakeMatches(t.(procs := SetContext(t.procs, p, context)), m, p);
      }
    }
  }

  lemma CallMatches(s: State, m: Mem, step: Step)
    requires Inv(s) && s.fault.None? && Matches(s, m) && (step.SysGets? || step.SysSleep?)
    requires !DoAll(m, StepOps(s, step)).heap.halted
    ensures Matches(Next(s, step), DoAll(m, StepOps(s, step)))
  {
    if s.flow.ProcessThread? && !(step.SysGets? && step.tf.ecx > MAX_COPY) {
      assert s.current.value in s.running;
      if step.SysGets? {
        LeaveMatches(s.(gets := Gets(true, step.tf.ecx, 0, step.tf.ebx, s.current)), m, step.tf, Blocking);
      } else {
        SleepMatches(s, m, step.tf);
      }
    }
  }

  lemma SleepMatches(s: State, m: Mem, tf: TrapFrame)
    requires s.fault.None? && Matches(s, m) && s.flow.ProcessThread?
    requires s.current.Some? && s.current.value in s.running && !DoAll(m, SleepOps(s)).heap.halted
    ensures Matches(SleepCall(s, tf), DoAll(m, SleepOps(s)))
  {
    var u := DoAll(m, LeaveOps(s, Blocking));
    if m.heap.halted {
      HaltSticks(m, SleepOps(s));
    }
    SleepAllOps(s, m, tf);
    LeaveMatches(s, m, tf, Blocking);
    var (heap, node) := H.Malloc(u.heap, NodeSize(SleepQ));
    InsertIs(u, SleepQ, heap, node);
  }

  lemma DispatchMatches(s: State, m: Mem, kernel: Context)
    requires Inv(s) && s.fault.None? && Matches(s, m) && !DoAll(m, DispatchOps(s)).heap.halted
    ensures Matches(DispatchNext(s, kernel), DoAll(m, DispatchOps(s)))
  {
    if s.flow.KernelThread? && s.ready != [] {
      assert Position(s.ready, s.ready[0]) == 0;
      Moved(m, ReadyQ, s.ready, s.ready[0], RunningQ);
      MovedAll(DoAll(m, DispatchOps(s)), m, ReadyQ, RunningQ);
    }
  }

  lemma ExecMatches(s: State, m: Mem, file: FileSize, entry: U32, pageDirectory: U32)
    requires Inv(s) && s.fault.None? && Matches(s, m) && !DoAll(m, ExecOps(s, file)).heap.halted
    ensures Matches(ExecProcess(s, entry, pageDirectory), DoAll(m, ExecOps(s, file)))
  {
    if s.flow.KernelThread? {
      ExecAllOps(s, m, file);
      var u := Do(Do(m, Block(file)), Block(PROCESS_SIZE));
      var (heap, node) := H.Malloc(u.heap, NodeSize(ReadyQ));
      if !u.heap.halted {
        InsertIs(u, ReadyQ, heap, node);
      }
    }
  }

  lemma StepMatches(s: State, m: Mem, step: Step)
    requires Inv(s) && Matches(s, m) && !DoAll(m, StepOps(s, step)).heap.halted
    ensures Matches(Next(s, step), DoAll(m, StepOps(s, step)))
  {
    if s.fault.None? {
      match step
      case Exec(file, entry, pageDirectory) => ExecMatches(s, m, file, entry, pageDirectory);
      case Dispatch(kernel) => DispatchMatches(s, m, kernel);
      case Timer(tf) => TimerMatches(s, m, tf);
      case Key(data) => KeyMatches(s, m, FeedByte(s.scanCode, data));
      case SysGets(_) => CallMatches(s, m, step);
      case SysSleep(_) => CallMatches(s, m, step);
    }
  }

  // ---------------------------------------------------------------- only execv allocates blocks

  predicate NoBlock(ops: seq<NodeOp>) { forall op :: op in ops ==> !op.Block? }

  lemma {:induction false} DropNoBlock(clocks: seq<Clock>, k: nat)
    ensures NoBlock(DropOps(clocks, Counting, k))
    decreases |clocks|
  {
    if clocks != [] {
      DropNoBlock(clocks[1..], if Counting(clocks[0]) then k + 1 else k);
    }
  }

  lemma {:induction false} TickNoBlock(s: State, i: nat)
    requires i <= |s.sleeping|
    ensures NoBlock(TickFromOps(s, i))
    decreases |s.sleeping| - i
  {
    if s.fault.None? && i < |s.sleeping| {
      TickFromStep(s, i);
      TickNoBlock(TickOne(s, i), i + 1);
    }
  }

  lemma StepBlocks(s: State, step: Step)
    ensures !step.Exec? ==> NoBlock(StepOps(s, step))
    ensures AllSized(StepOps(s, step))
  {
    if step.Timer? {
      TickNoBlock(s, 0);
      DropNoBlock(TickFrom(s, 0).sleeping, 0);
    }
  }

  // ---------------------------------------------------------------- every run

  /** A step that the allocator serves keeps the scheduler invariant, and every queue entry has a node
      that is a live heap block of its own. */
  lemma StepOk(m: Machine, step: Step)
    requires MachineOk(m)
    ensures OutOfMemory(MachineStep(m, step)) <==> !Served(m.mem, StepOps(m.s, step))
    ensures !OutOfMemory(MachineStep(m, step)) ==>
              MachineOk(MachineStep(m, step)) && MachineStep(m, step).s == Next(m.s, step)
  {
    StepBlocks(m.s, step);
    DoAllServed(m.mem, StepOps(m.s, step));
    NextInv(m.s, step);
    if Served(m.mem, StepOps(m.s, step)) {
      StepMatches(m.s, m.mem, step);
    }
  }

  lemma {:induction false} HaltedStays(m: Machine, steps: seq<Step>)
    requires OutOfMemory(m)
    ensures MachineRun(m, steps) == m
    decreases |steps|
  {
    if steps != [] {
      HaltSticks(m.mem, StepOps(m.s, steps[0]));
      HaltedStays(MachineStep(m, steps[0]), steps[1..]);
    }
  }

  /** While the allocator serves it, the machine's run is the scheduler's run: what holds of every
      `Run` holds of the machine as long as it has not stopped. */
  lemma {:induction false} Projects(m: Machine, steps: seq<Step>)
    requires MachineOk(m) && !OutOfMemory(MachineRun(m, steps))
    ensures MachineOk(MachineRun(m, steps)) && MachineRun(m, steps).s == Run(m.s, steps)
    decreases |steps|
  {
    if steps != [] {
      var next := MachineStep(m, steps[0]);
      StepOk(m, steps[0]);
      if OutOfMemory(next) {
        HaltedStays(next, steps[1..]);
      }
      Projects(next, steps[1..]);
    }
  }

  lemma {:induction false} MachineSnoc(m: Machine, steps: seq<Step>, step: Step)
    ensures MachineRun(m, steps + [step]) == MachineStep(MachineRun(m, steps), step)
    decreases |steps|
  {
    if steps == [] {
      assert [step][1..] == [];
    } else {
      assert (steps + [step])[1..] == steps[1..] + [step];
      MachineSnoc(MachineStep(m, steps[0]), steps[1..], step);
    }
  }

  lemma StartOk()
    ensures MachineOk(START)
  {
    BootMem();
    T.BootOk();
  }

  /** The scheduler part never stops for a missing queue element or a null process, even on the way to
      an allocator halt. */
  lemma {:induction false} NeverLosesElement(m: Machine, steps: seq<Step>)
    requires MachineOk(m)
    ensures Inv(MachineRun(m, steps).s)
    decreases |steps|
  {
    if steps != [] {
      var next := MachineStep(m, steps[0]);
      StepOk(m, steps[0]);
      if OutOfMemory(next) {
        HaltedStays(next, steps[1..]);
      } else {
        NeverLosesElement(next, steps[1..]);
      }
    }
  }
}
