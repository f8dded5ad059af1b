/** The main results for the whole machine, allocator included: what holds in every run until a malloc
    or free stops it, and exactly when that is. */
module MachineTheorems {
  import opened Words
  import opened Seqs
  import opened Contexts
  import opened Keyboard
  import opened Scheduler
  import opened SchedulerInvariant
  import opened SchedulerRuns
  import opened SchedulerInput
  import opened SchedulerNodes
  import opened NodeMemory
  import opened SchedulerMachine
  import opened SchedulerTheorems
  import H = HeapModel

  /** In every run from boot, under every interleaving and any system call arguments: no `remove` ever
      misses its element and no null process is used. Until the allocator stops the machine, each
      created process is on exactly one queue, exactly once, the one its status names; the running
      queue is the current process in the process thread and empty otherwise; and the queues have as
      many nodes as entries, each a live heap block of its own. */
  lemma EachOnExactlyOneQueue(steps: seq<Step>, p: nat)
    ensures var m := MachineRun(START, steps);
            && m.s.fault != Some(ElemNotFound) && m.s.fault != Some(NullProcess)
            && (!OutOfMemory(m) ==>
                  var s := m.s;
                  && multiset(s.ready + s.running + s.blocking)[p] == (if p < |s.procs| then 1 else 0)
                  && (p < |s.procs| ==> (p in s.ready <==> s.procs[p].status == Ready)
                                        && (p in s.running <==> s.procs[p].status == Running)
                                        && (p in s.blocking <==> s.procs[p].status == Blocking))
                  && (if s.flow.ProcessThread? then s.current.Some? && s.running == [s.current.value]
                      else s.running == [])
                  && Matches(s, m.mem)
                  && forall a {:trigger Nodes(m.mem)[a]} :: Nodes(m.mem)[a] <= if H.LiveAt(m.mem.heap, a) then 1 else 0)
  {
    var m := MachineRun(START, steps);
    StartOk();
    NeverLosesElement(START, steps);
    if !OutOfMemory(m) {
      Projects(START, steps);
      OnOneQueue(m.s, p);
    }
  }

  // ---------------------------------------------------------------- exactly when a run goes on

  /** The node operations of a whole run, in order. */
  function RunOps(s: State, steps: seq<Step>): seq<NodeOp>
    decreases |steps|
  {
    if steps == [] then [] else StepOps(s, steps[0]) + RunOps(Next(s, steps[0]), steps[1..])
  }

  lemma {:induction false} RunIsOps(m: Machine, steps: seq<Step>)
    requires MachineOk(m)
    ensures MachineRun(m, steps).mem == DoAll(m.mem, RunOps(m.s, steps))
    ensures AllSized(RunOps(m.s, steps))
    decreases |steps|
  {
    if steps != [] {
      var next, ops := MachineStep(m, steps[0]), StepOps(m.s, steps[0]);
      var rest := RunOps(Next(m.s, steps[0]), steps[1..]);
      DoConcat(m.mem, ops, rest);
      StepBlocks(m.s, steps[0]);
      StepOk(m, steps[0]);
      RunSized(Next(m.s, steps[0]), steps[1..]);
      if OutOfMemory(next) {
        HaltSticks(next.mem, rest);
        HaltedStays(next, steps[1..]);
      } else {
        RunIsOps(next, steps[1..]);
      }
    }
  }

  lemma {:induction false} RunSized(s: State, steps: seq<Step>)
    ensures AllSized(RunOps(s, steps))
    decreases |steps|
  {
    if steps != [] {
      StepBlocks(s, steps[0]);
      RunSized(Next(s, steps[0]), steps[1..]);
    }
  }

  /** A run goes on exactly while each of its node operations in turn finds what it needs in the
      allocator's tables. */
  lemma RunsIffServed(m: Machine, steps: seq<Step>)
    requires MachineOk(m)
    ensures !OutOfMemory(MachineRun(m, steps)) <==> Served(m.mem, RunOps(m.s, steps))
  {
    RunIsOps(m, steps);
    DoAllServed(m.mem, RunOps(m.s, steps));
  }

  /** In particular when there are records, free-table entries and bytes for all of them. */
  lemma RunsWithRoom(m: Machine, steps: seq<Step>)
    requires MachineOk(m) && Room(m.mem.heap, RunOps(m.s, steps))
    ensures !OutOfMemory(MachineRun(m, steps)) && MachineRun(m, steps).s == Run(m.s, steps)
  {
    RunIsOps(m, steps);
    RoomServes(m.mem, RunOps(m.s, steps));
    RunsIffServed(m, steps);
    Projects(m, steps);
  }

  // ---------------------------------------------------------------- the bound on insertions

  /** Queue insertions of a run, over all four queues. */
  function Insertions(s: State, steps: seq<Step>): nat { Inserts(RunOps(s, steps)) }

  predicate Executes(s: State, step: Step) { step.Exec? && s.fault.None? && s.flow.KernelThread? }

  function Execs(s: State, steps: seq<Step>): nat
    decreases |steps|
  {
    if steps == [] then 0
    else (if Executes(s, steps[0]) then 1 else 0) + Execs(Next(s, steps[0]), steps[1..])
  }

  lemma {:induction false} NoBlocks(ops: seq<NodeOp>)
    requires NoBlock(ops)
    ensures Blocks(ops) == 0
  {
    if ops != [] {
      NoBlocks(ops[1..]);
    }
  }

  lemma ExecBlocks(s: State, file: FileSize)
    ensures Blocks(ExecOps(s, file)) == if s.flow.KernelThread? then 2 else 0
  {
    if s.flow.KernelThread? {
      var blocks := [Block(file), Block(PROCESS_SIZE)];
      var rest: seq<NodeOp> := if s.gdtIndex + 1 >= GDT_SIZE then [] else [Insert(ReadyQ)];
      CountsConcat(blocks, rest);
      assert blocks[1..] == [Block(PROCESS_SIZE)] && blocks[1..][1..] == [];
      NoBlocks(rest);
    }
  }

  lemma {:induction false} RunBlocks(s: State, steps: seq<Step>)
    ensures Blocks(RunOps(s, steps)) == 2 * Execs(s, steps)
    decreases |steps|
  {
    if steps != [] {
      CountsConcat(StepOps(s, steps[0]), RunOps(Next(s, steps[0]), steps[1..]));
      RunBlocks(Next(s, steps[0]), steps[1..]);
      StepBlocks(s, steps[0]);
      if s.fault.None? && steps[0].Exec? {
        ExecBlocks(s, steps[0].file);
      } else {
        NoBlocks(StepOps(s, steps[0]));
      }
    }
  }

  /** Every insertion uses up a record for good, freed or not, as do the five mallocs of boot and the
      two of each execv: a run that has not stopped has made at most 10240 in all. */
  lemma InsertionsBounded(steps: seq<Step>)
    ensures !OutOfMemory(MachineRun(START, steps)) ==>
              && |MachineRun(START, steps).mem.heap.records| == 5 + Insertions(BOOT, steps) + 2 * Execs(BOOT, steps)
              && 5 + Insertions(BOOT, steps) + 2 * Execs(BOOT, steps) <= 10240
    ensures 5 + Insertions(BOOT, steps) + 2 * Execs(BOOT, steps) > 10240 ==> OutOfMemory(MachineRun(START, steps))
  {
    StartOk();
    BootMem();
    RunIsOps(START, steps);
    DoAllServed(BOOT_MEM, RunOps(BOOT, steps));
    RunBlocks(BOOT, steps);
  }

  // ---------------------------------------------------------------- the timer

  lemma MoveCounts(from: QueueId, queue: seq<nat>, p: nat, to: QueueId)
    requires p in queue
    ensures Inserts(MoveOps(from, queue, p, to)) == 1 == Deletes(MoveOps(from, queue, p, to))
  {
    CountsConcat([Delete(from, Position(queue, p))], [Insert(to)]);
    assert [Delete(from, Position(queue, p))] + [Insert(to)] == MoveOps(from, queue, p, to);
    assert [Insert(to)][1..] == [] && [Delete(from, Position(queue, p))][1..] == [];
  }

  lemma {:induction false} TickCounts(s: State, i: nat)
    requires TickOk(s, i)
    ensures Inserts(TickFromOps(s, i)) == |Expiring(s.sleeping[i..])| == Deletes(TickFromOps(s, i))
    decreases |s.sleeping| - i
  {
    if i < |s.sleeping| {
      var next := TickOne(s, i);
      TickOneOk(s, i);
      TickCounts(next, i + 1);
      assert s.sleeping[i..][0] == s.sleeping[i];
      assert s.sleeping[i..][1..] == next.sleeping[i + 1..];
      CountsConcat(TickOneOps(s, i), TickFromOps(next, i + 1));
      if s.sleeping[i].countDown == 1 {
        MoveCounts(BlockingQ, s.blocking, s.sleeping[i].process, ReadyQ);
      }
    }
  }

  lemma {:induction false} DropCounts(clocks: seq<Clock>, k: nat)
    ensures Inserts(DropOps(clocks, Counting, k)) == 0
    ensures Deletes(DropOps(clocks, Counting, k)) == |clocks| - |Keep(clocks, Counting)|
    decreases |clocks|
  {
    if clocks != [] {
      if Counting(clocks[0]) {
        DropCounts(clocks[1..], k + 1);
      } else {
        DropCounts(clocks[1..], k);
        CountsConcat([Delete(SleepQ, k)], DropOps(clocks[1..], Counting, k));
        assert [Delete(SleepQ, k)][1..] == [];
      }
    }
  }

  lemma TickAllCounts(s: State)
    requires Inv(s) && s.fault.None?
    ensures Inserts(TickOps(s)) == |Expiring(s.sleeping)|
    ensures Deletes(TickOps(s)) == |Expiring(s.sleeping)| + |s.sleeping| - |Remaining(s.sleeping)|
  {
    var u := TickFrom(s, 0);
    assert s.sleeping[0..] == s.sleeping;
    TickFromOk(s, 0);
    TickCounts(s, 0);
    KeepAged(s.sleeping, u.sleeping);
    DropCounts(u.sleeping, 0);
    CountsConcat(TickFromOps(s, 0), DropOps(u.sleeping, Counting, 0));
  }

  /** What a timer interrupt asks of the allocator: one node per expired sleeper and one for the
      preempted process; and it frees as many, and the clocks that have run out. */
  lemma TimerCounts(s: State)
    requires Inv(s) && s.fault.None?
    ensures var moved := |Expiring(s.sleeping)| + if s.flow.ProcessThread? then 1 else 0;
            && Inserts(TimerOps(s)) == moved
            && Deletes(TimerOps(s)) == moved + |s.sleeping| - |Remaining(s.sleeping)|
  {
    var t := Tick(s);
    TickInv(s);
    TickAllCounts(s);
    if s.flow.ProcessThread? {
      assert t.current.value in t.running;
      CountsConcat(TickOps(s), LeaveOps(t, Ready));
      MoveCounts(RunningQ, t.running, t.current.value, ReadyQ);
    } else {
      assert TickOps(s) + [] == TickOps(s);
    }
  }

  /** A timer interrupt stops the machine exactly when the allocator cannot serve those operations in
      turn. Otherwise it wakes the sleepers whose time is up in the order they went to sleep, behind
      everyone already ready; a preempted process goes behind them, with its frame saved; the other
      clocks go down by one; nobody runs afterwards. */
  lemma TimerExactly(m: Machine, tf: TrapFrame)
    requires MachineOk(m) && m.s.fault.None?
    ensures var n, s := MachineStep(m, Timer(tf)), m.s;
            && (!OutOfMemory(n) <==> Served(m.mem, TimerOps(s)))
            && (!OutOfMemory(n) ==>
                  var t := n.s;
                  && t.ready == s.ready + Expiring(s.sleeping)
                                + (if s.flow.ProcessThread? then [s.current.value] else [])
                  && t.sleeping == Remaining(s.sleeping)
                  && t.running == [] && t.flow == KernelThread
                  && (s.flow.ProcessThread? ==>
                        && s.current.value < |s.procs| == |t.procs|
                        && t.procs[s.current.value].context == SaveContext(s.procs[s.current.value].context, tf))
                  && t.gets == s.gets && t.memory == s.memory)
  {
    StepOk(m, Timer(tf));
    TimerClosedForm(m.s, tf);
  }

  // ---------------------------------------------------------------- the bound on dispatches

  function InProcess(s: State): int { if s.flow.ProcessThread? then 1 else 0 }

  lemma LeaveCounts(s: State, step: Step)
    requires Inv(s) && s.fault.None? && s.flow.ProcessThread? && (step.SysGets? || step.SysSleep?)
    ensures Inserts(StepOps(s, step)) + InProcess(Next(s, step)) >= 1
  {
    assert s.current.value in s.running;
    MoveCounts(RunningQ, s.running, s.current.value, BlockingQ);
    CountsConcat(LeaveOps(s, Blocking), [Insert(SleepQ)]);
  }

  lemma {:induction false} TickProcs(s: State, i: nat)
    requires i <= |s.sleeping|
    ensures |TickFrom(s, i).procs| == |s.procs|
    decreases |s.sleeping| - i
  {
    if s.fault.None? && i < |s.sleeping| {
      TickFromStep(s, i);
      TickProcs(TickOne(s, i), i + 1);
    }
  }

  lemma FeedProcs(s: State, feed: Feed)
    ensures |OnFeed(s, feed).procs| == |s.procs| && OnFeed(s, feed).flow == s.flow
  {
  }

  /** Entering the process thread inserts a node, leaving it another, and a new process a third. */
  ghost predicate Pays(s: State, step: Step, t: State) {
    && |s.procs| <= |t.procs| <= |s.procs| + (if Executes(s, step) then 1 else 0)
    && (if Dispatches(s, step) then 2 else 0) + InProcess(s) + |t.procs| - |s.procs|
       <= Inserts(StepOps(s, step)) + InProcess(t)
  }

  lemma TimerPays(s: State, tf: TrapFrame)
    requires Inv(s) && s.fault.None?
    ensures Pays(s, Timer(tf), Next(s, Timer(tf)))
  {
    TimerCounts(s);
    TimerInv(s, tf);
    TimerFlow(s, tf);
    TickProcs(s, 0);
  }

  lemma TimerFlow(s: State, tf: TrapFrame)
    requires Inv(s) && s.fault.None?
    ensures Next(s, Timer(tf)).flow == KernelThread
  {
    TimerClosedForm(s, tf);
  }

  lemma ExecPays(s: State, step: Step)
    requires s.fault.None? && step.Exec?
    ensures Pays(s, step, Next(s, step))
  {
    if s.flow.KernelThread? && s.gdtIndex + 1 < GDT_SIZE {
      CountsConcat([Block(step.file), Block(PROCESS_SIZE)], [Insert(ReadyQ)]);
    }
  }

  lemma DispatchPays(s: State, step: Step)
    requires s.fault.None? && step.Dispatch?
    ensures Pays(s, step, Next(s, step))
  {
    if Dispatches(s, step) {
      assert DispatchOps(s)[1..] == [Insert(RunningQ)];
    }
  }

  lemma CallPays(s: State, step: Step)
    requires Inv(s) && s.fault.None? && (step.SysGets? || step.SysSleep?)
    ensures Pays(s, step, Next(s, step))
  {
    if s.flow.ProcessThread? {
      LeaveCounts(s, step);
    }
  }

  lemma KeyPays(s: State, data: Byte)
    requires s.fault.None?
    ensures Pays(s, Key(data), Next(s, Key(data)))
  {
    FeedProcs(s, FeedByte(s.scanCode, data));
  }

  lemma StepPays(s: State, step: Step)
    requires Inv(s)
    ensures Pays(s, step, Next(s, step))
  {
    if s.fault.None? {
      match step
      case Timer(tf) => TimerPays(s, tf);
      case Key(data) => KeyPays(s, data);
      case Dispatch(_) => DispatchPays(s, step);
      case Exec(_, _, _) => ExecPays(s, step);
      case _ => CallPays(s, step);
    }
  }

  lemma {:induction false} DispatchesInsert(s: State, steps: seq<Step>)
    requires Inv(s)
    ensures var e := Run(s, steps);
            && |s.procs| <= |e.procs| <= |s.procs| + Execs(s, steps)
            && (DispatchCount(s, steps) > 0 ==> |e.procs| > 0)
            && 2 * DispatchCount(s, steps) + InProcess(s) + |e.procs| - |s.procs| <= Insertions(s, steps) + InProcess(e)
    decreases |steps|
  {
    if steps != [] {
      CountsConcat(StepOps(s, steps[0]), RunOps(Next(s, steps[0]), steps[1..]));
      NextInv(s, steps[0]);
      StepPays(s, steps[0]);
      DispatchesInsert(Next(s, steps[0]), steps[1..]);
      if Dispatches(s, steps[0]) {
        assert s.ready[0] in s.ready;
      }
    }
  }

  /** So the kernel cannot run for ever: whatever runs, the machine has stopped by the 5117th dispatch. */
  lemma DispatchesBounded(steps: seq<Step>)
    requires DispatchCount(BOOT, steps) >= 5117
    ensures OutOfMemory(MachineRun(START, steps))
  {
    BootOk();
    DispatchesInsert(BOOT, steps);
    InsertionsBounded(steps);
  }

  // ---------------------------------------------------------------- the other steps

  /** What each other step does with nodes and blocks, in order; `GetsDelivers` has the keys. */
  lemma StepNodes(s: State, step: Step)
    requires Inv(s) && s.fault.None?
    ensures step.Dispatch? ==>
              StepOps(s, step) == if Dispatches(s, step) then [Delete(ReadyQ, 0), Insert(RunningQ)] else []
    ensures step.Exec? && s.flow.KernelThread? && |s.procs| < 254 ==>
              StepOps(s, step) == [Block(step.file), Block(80), Insert(ReadyQ)]
    ensures step.SysGets? && s.flow.ProcessThread? && step.tf.ecx <= 0x40_0000 ==>
              StepOps(s, step) == [Delete(RunningQ, 0), Insert(BlockingQ)]
    ensures step.SysSleep? && s.flow.ProcessThread? ==>
              StepOps(s, step) == [Delete(RunningQ, 0), Insert(BlockingQ), Insert(SleepQ)]
  {
    if s.flow.ProcessThread? {
      assert Position(s.running, s.current.value) == 0 && s.current.value in s.running;
    }
  }

  // ---------------------------------------------------------------- sleep

  /** A process that sleeps `sec >= 1` seconds is blocked through the next 1000 * sec - 1 timer
      interrupts, whatever else happens, as long as the machine has not stopped. The following one stops
      the machine exactly when its node operations cannot be served; otherwise the process is ready. */
  lemma SleepWakesExactly(m: Machine, call: TrapFrame, steps: seq<Step>, tf: TrapFrame)
    requires MachineOk(m) && m.s.fault.None? && m.s.flow.ProcessThread? && call.ebx >= 1
    requires Timers(steps) < 1000 * call.ebx
    requires var e := MachineRun(MachineStep(m, SysSleep(call)), steps);
             !OutOfMemory(e) && e.s.fault.None?
    ensures var p, e := m.s.current.value, MachineRun(MachineStep(m, SysSleep(call)), steps);
            var n := MachineStep(e, Timer(tf));
            && p < |e.s.procs| && e.s.procs[p].status == Blocking && p !in e.s.ready
            && Clock(1000 * call.ebx - Timers(steps), p) in e.s.sleeping
            && (Timers(steps) == 1000 * call.ebx - 1 ==>
                  && (!OutOfMemory(n) <==> Served(e.mem, TimerOps(e.s)))
                  && (!OutOfMemory(n) ==> p in n.s.ready && p !in n.s.blocking))
  {
    var t := MachineStep(m, SysSleep(call));
    if OutOfMemory(t) {
      HaltedStays(t, steps);
    }
    StepOk(m, SysSleep(call));
    Projects(t, steps);
    SleepWakes(m.s, call, steps, tf);
    StepOk(MachineRun(t, steps), Timer(tf));
  }

  // ---------------------------------------------------------------- gets

  /** A `gets` of n characters. Whatever interleaves while the machine runs, but for another `gets`:
      until the n-th typed character the caller is blocked, with all characters so far in its buffer; for
      n = 0 that is for ever. A further step stops the machine exactly when the allocator cannot serve it.
      The key that types the n-th character needs two node operations, the caller's node freed and a new
      one; if they are served, the caller is at the end of the ready queue with the buffer's address in
      `eax`, and memory differs from before exactly in the n cells of the buffer. */
  lemma GetsDelivers(m: Machine, call: TrapFrame, steps: seq<Step>, step: Step)
    requires MachineOk(m) && m.s.fault.None? && m.s.flow.ProcessThread? && call.ecx <= 0x40_0000
    requires NoGets(steps + [step])
    requires var e := MachineRun(MachineStep(m, SysGets(call)), steps);
             !OutOfMemory(e) && Next(e.s, step).fault.None?
    requires !Full(Text(m.s.scanCode, m.s.pressed, KeyBytes(steps)), call.ecx)
    ensures var p, e := m.s.current.value, MachineRun(MachineStep(m, SysGets(call)), steps);
            var n := MachineStep(e, step);
            var text := Text(m.s.scanCode, m.s.pressed, KeyBytes(steps + [step]));
            && p in e.s.blocking && e.s.gets.waiter == Some(p)
            && (!OutOfMemory(n) <==> Served(e.mem, StepOps(e.s, step)))
            && (step.Key? ==>
                  StepOps(e.s, step) == if Full(text, call.ecx)
                                        then [Delete(BlockingQ, Position(e.s.blocking, p)), Insert(ReadyQ)] else [])
            && (!OutOfMemory(n) ==> Delivered(e.s, n.s, p, call.ebx, call.ecx, m.s.memory, text))
  {
    var t := MachineStep(m, SysGets(call));
    var e := MachineRun(t, steps);
    assert (steps + [step])[|steps|] == step;
    ReaderSoFar(m, call, steps);
    RunText(t.s, steps, step);
    StepOk(e, step);
    var before := Text(m.s.scanCode, m.s.pressed, KeyBytes(steps));
    ReaderStep(e.s, step, m.s.current.value, call.ebx, call.ecx, m.s.memory, before);
    if step.Key? {
      ReaderOps(e.s, m.s.current.value, call.ebx, call.ecx, m.s.memory, before, FeedByte(e.s.scanCode, step.data));
    }
  }

  /** The reader while its buffer is not full. */
  lemma ReaderSoFar(m: Machine, call: TrapFrame, steps: seq<Step>)
    requires MachineOk(m) && m.s.fault.None? && m.s.flow.ProcessThread? && call.ecx <= 0x40_0000
    requires NoGets(steps)
    requires var e := MachineRun(MachineStep(m, SysGets(call)), steps);
             !OutOfMemory(e) && e.s.fault.None?
    requires !Full(Text(m.s.scanCode, m.s.pressed, KeyBytes(steps)), call.ecx)
    ensures var t := MachineStep(m, SysGets(call));
            var e := MachineRun(t, steps);
            && MachineOk(e) && t.s == Next(m.s, SysGets(call)) && e.s == Run(t.s, steps)
            && t.s.scanCode == m.s.scanCode && t.s.pressed == m.s.pressed
            && Reading(e.s, m.s.current.value, call.ebx, call.ecx, m.s.memory,
                       Text(m.s.scanCode, m.s.pressed, KeyBytes(steps)))
  {
    var t := MachineStep(m, SysGets(call));
    if OutOfMemory(t) {
      HaltedStays(t, steps);
    }
    StepOk(m, SysGets(call));
    Projects(t, steps);
    GetsStarts(m.s, call);
    RunStores(t.s, steps, m.s.current.value, call.ebx, call.ecx, m.s.memory);
  }

  /** Only the key that completes the reader's input touches the queues. */
  lemma ReaderOps(s: State, p: nat, at: U32, n: nat, memory: map<nat, char>, text: seq<char>, feed: Feed)
    requires Inv(s) && s.fault.None? && Reading(s, p, at, n, memory, text) && !feed.Invalid?
    ensures KeyOps(s, feed) == if Full(text + FedChar(s.pressed, feed), n)
                               then [Delete(BlockingQ, Position(s.blocking, p)), Insert(ReadyQ)] else []
  {
    if feed.Event? {
      var t := Respond(s, feed.event);
      assert t.blocking == s.blocking;
    }
  }

  /** From key strokes to memory. Since boot the keyboard sent the codes of `earlier`; a process then
      asks for n characters at `at`, and the keyboard sends the codes of `later`. Whatever else runs
      before the next `gets`, the buffer now holds the first n characters of the history's text from there
      on, or for n = 0 all of it, and no other cell has changed; until the n-th is typed the process is
      blocked, and afterwards no reader is left. */
  lemma LineFromKeys(before: seq<Step>, m: Machine, call: TrapFrame, steps: seq<Step>, e: Machine,
                     earlier: seq<Byte>, later: seq<Byte>)
    requires forall e :: e in earlier + later ==> IsListed(e) && !IsMissing(e)
    requires KeyBytes(before) == Codes(earlier) && KeyBytes(steps) == Codes(later)
    requires m == MachineRun(START, before) && !OutOfMemory(m) && m.s.fault.None?
    requires m.s.flow.ProcessThread? && call.ecx <= 0x40_0000
    requires e == MachineRun(MachineStep(m, SysGets(call)), steps) && !OutOfMemory(e) && e.s.fault.None?
    requires NoGets(steps)
    ensures var text := TextOf(earlier + later, |earlier|);
            && e.s.memory == Store(m.s.memory, call.ebx, Upto(text, call.ecx))
            && (if Full(text, call.ecx) then e.s.gets == NO_GETS
                else m.s.current.Some? && e.s.gets.waiter == m.s.current && m.s.current.value in e.s.blocking)
  {
    StartOk();
    Projects(START, before);
    KeysRead(before, earlier);
    LineTyped(m, call, steps, e);
    assert forall e :: e in later ==> e in earlier + later;
    TextAfter(earlier, later);
  }

  lemma LineTyped(m: Machine, call: TrapFrame, steps: seq<Step>, e: Machine)
    requires MachineOk(m) && m.s.fault.None?
    requires m.s.flow.ProcessThread? && call.ecx <= 0x40_0000
    requires e == MachineRun(MachineStep(m, SysGets(call)), steps) && !OutOfMemory(e) && e.s.fault.None?
    requires NoGets(steps)
    ensures m.s.current.Some?
    ensures Got(e.s, m.s.current.value, call.ebx, call.ecx, m.s.memory,
                Text(m.s.scanCode, m.s.pressed, KeyBytes(steps)))
    ensures e.s.gets.waiter.Some? ==> e.s.gets.waiter.value in e.s.blocking
  {
    var t := MachineStep(m, SysGets(call));
    if OutOfMemory(t) {
      HaltedStays(t, steps);
    }
    StepOk(m, SysGets(call));
    Projects(t, steps);
    GetsStarts(m.s, call);
    RunStores(t.s, steps, m.s.current.value, call.ebx, call.ecx, m.s.memory);
  }

  /** After whole codes the decoder is idle and the key table is the history's. */
  lemma KeysRead(before: seq<Step>, earlier: seq<Byte>)
    requires forall e :: e in earlier ==> IsListed(e) && !IsMissing(e)
    requires KeyBytes(before) == Codes(earlier) && Run(BOOT, before).fault.None?
    ensures Run(BOOT, before).scanCode == 0 && Run(BOOT, before).pressed == PressAll(NoKeys(), earlier)
  {
    RunDecoder(BOOT, before);
    DecodeInvertsCodes(earlier);
  }
}
