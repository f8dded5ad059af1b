/** Which list nodes each scheduler step allocates and frees, in the order of the code
    (src/interrupt.cpp, src/system_entry.cpp, src/schedular.cpp, src/process.cpp). */
module SchedulerNodes {
  import opened Seqs
  import opened Contexts
  import opened Keyboard
  import opened Scheduler
  import opened SchedulerInvariant
  import opened NodeMemory

  const PROCESS_SIZE := 80      // sizeof(Process)

  function QueueOf(status: Status): QueueId {
    match status
    case Ready => ReadyQ
    case Running => RunningQ
    case Blocking => BlockingQ
  }

  /** remove(p) from one queue, then push_back(p) on another. */
  function MoveOps(from: QueueId, queue: seq<nat>, p: nat, to: QueueId): seq<NodeOp> {
    if p !in queue then [] else [Delete(from, Position(queue, p)), Insert(to)]
  }

  function WakeOps(s: State, p: nat): seq<NodeOp> { MoveOps(BlockingQ, s.blocking, p, ReadyQ) }

  /** The for_each callback at clock `i`. */
  function TickOneOps(s: State, i: nat): seq<NodeOp>
    requires i < |s.sleeping|
  {
    if s.sleeping[i].countDown == 1 then WakeOps(s, s.sleeping[i].process) else []
  }

  function TickFromOps(s: State, i: nat): seq<NodeOp>
    requires i <= |s.sleeping|
    decreases |s.sleeping| - i
  {
    if s.fault.Some? || i == |s.sleeping| then []
    else TickOneOps(s, i) + TickFromOps(TickOne(s, i), i + 1)
  }

  /** for_each, then filter. */
  function TickOps(s: State): seq<NodeOp> {
    var t := TickFrom(s, 0);
    TickFromOps(s, 0) + if t.fault.Some? then [] else DropOps(t.sleeping, Counting, 0)
  }

  function LeaveOps(s: State, status: Status): seq<NodeOp> {
    match s.current
    case None => []
    case Some(p) => MoveOps(RunningQ, s.running, p, QueueOf(status))
  }

  function TimerOps(s: State): seq<NodeOp> {
    var t := Tick(s);
    TickOps(s) + if t.fault.Some? || t.flow.KernelThread? then [] else LeaveOps(t, Ready)
  }

  function CompleteOps(s: State): seq<NodeOp> {
    if s.gets.enabled || s.gets.count == 0 then []
    else match s.gets.waiter
      case None => []
      case Some(p) => WakeOps(s, p)
  }

  function KeyOps(s: State, feed: Feed): seq<NodeOp> {
    match feed
    case Partial(code) => CompleteOps(s)
    case Event(e) => CompleteOps(Respond(s, e))
    case Invalid => []
  }

  function GetsOps(s: State, tf: TrapFrame): seq<NodeOp> {
    if tf.ecx > MAX_COPY || s.flow.KernelThread? then [] else LeaveOps(s, Blocking)
  }

  function SleepOps(s: State): seq<NodeOp> {
    if s.flow.KernelThread? then []
    else
      var ops := LeaveOps(s, Blocking);
      if ops == [] then [] else ops + [Insert(SleepQ)]
  }

  function DispatchOps(s: State): seq<NodeOp> {
    if s.flow.ProcessThread? || s.ready == [] then [] else [Delete(ReadyQ, 0), Insert(RunningQ)]
  }

  /** The file's buffer and the process record come before the GDT is checked. */
  function ExecOps(s: State, file: FileSize): seq<NodeOp> {
    if s.flow.ProcessThread? then []
    else [Block(file), Block(PROCESS_SIZE)] + if s.gdtIndex + 1 >= GDT_SIZE then [] else [Insert(ReadyQ)]
  }

  function StepOps(s: State, step: Step): seq<NodeOp> {
    if s.fault.Some? then []
    else match step
      case Exec(file, _, _) => ExecOps(s, file)
      case Dispatch(_) => DispatchOps(s)
      case Timer(_) => TimerOps(s)
      case Key(data) => KeyOps(s, FeedByte(s.scanCode, data))
      case SysGets(tf) => GetsOps(s, tf)
      case SysSleep(_) => SleepOps(s)
  }

  // ---------------------------------------------------------------- one stretch at a time

  lemma TickStepOps(s: State, m: Mem, i: nat)
    requires i < |s.sleeping| && s.fault.None?
    ensures DoAll(m, TickFromOps(s, i)) == DoAll(DoAll(m, TickOneOps(s, i)), TickFromOps(TickOne(s, i), i + 1))
  {
    DoConcat(m, TickOneOps(s, i), TickFromOps(TickOne(s, i), i + 1));
  }

  lemma TickAllOps(s: State, m: Mem)
    ensures var t, m' := TickFrom(s, 0), DoAll(m, TickFromOps(s, 0));
            DoAll(m, TickOps(s)) == if t.fault.Some? then m' else DoAll(m', DropOps(t.sleeping, Counting, 0))
  {
    var t := TickFrom(s, 0);
    DoConcat(m, TickFromOps(s, 0), if t.fault.Some? then [] else DropOps(t.sleeping, Counting, 0));
  }

  lemma TimerAllOps(s: State, m: Mem)
    ensures var t, m' := Tick(s), DoAll(m, TickOps(s));
            DoAll(m, TimerOps(s))
            == if t.fault.Some? || t.flow.KernelThread? then m' else DoAll(m', LeaveOps(t, Ready))
  {
    var t := Tick(s);
    DoConcat(m, TickOps(s), if t.fault.Some? || t.flow.KernelThread? then [] else LeaveOps(t, Ready));
  }

  lemma SleepAllOps(s: State, m: Mem, tf: TrapFrame)
    requires s.flow.ProcessThread? && s.fault.None? && !m.heap.halted
    ensures var t, m' := Leave(s, tf, Blocking), DoAll(m, LeaveOps(s, Blocking));
            DoAll(m, SleepOps(s)) == if t.fault.Some? then m' else Do(m', Insert(SleepQ))
  {
    DoConcat(m, LeaveOps(s, Blocking), [Insert(SleepQ)]);
    DoOne(DoAll(m, LeaveOps(s, Blocking)), Insert(SleepQ));
  }

  lemma ExecAllOps(s: State, m: Mem, file: FileSize)
    requires s.flow.KernelThread?
    ensures var m' := Do(Do(m, Block(file)), Block(PROCESS_SIZE));
            DoAll(m, ExecOps(s, file)) == if s.gdtIndex + 1 >= GDT_SIZE then m' else Do(m', Insert(ReadyQ))
  {
    var blocks := [Block(file), Block(PROCESS_SIZE)];
    DoTwo(m, Block(file), Block(PROCESS_SIZE));
    if s.gdtIndex + 1 < GDT_SIZE {
      DoConcat(m, blocks, [Insert(ReadyQ)]);
      DoOne(DoAll(m, blocks), Insert(ReadyQ));
    } else {
      assert blocks + [] == blocks;
    }
  }
}
