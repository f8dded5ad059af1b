/** The process state machine: queues, sleep clocks, the `gets` waiter and control flow
    (src/interrupt.cpp, src/system_entry.cpp, src/schedular.cpp, src/process.cpp).

    A process pointer is an index into the process table. One step is one handler or one pass of
    the dispatch code, taken atomically. `fatal` leaves a state whose `fault` is set; such a state
    never changes again. */
module Scheduler {
  import opened Words
  import opened Seqs
  import opened Contexts
  import opened Keyboard

  datatype Status = Ready | Running | Blocking
  datatype Process = Process(status: Status, context: Context)
  datatype Flow = KernelThread | ProcessThread
  datatype Clock = Clock(countDown: int, process: nat)

  /** gets_enabled, gets_count, gets_already_count, gets_buffer, process_waiting_gets */
  datatype Gets = Gets(enabled: bool, count: int, already: nat, buffer: U32, waiter: Option<nat>)

  datatype Fatal =
    | ElemNotFound      // LinkedList::remove
    | NullProcess       // CURRENT_PROCESS dereferenced while null
    | InvalidSource     // system call while not in Process_thread
    | CountTooLarge     // copy_process_mapping
    | GdtFull           // add_to_GDT
    | InvalidScanCode   // to_event_id

  datatype State = State(
    procs: seq<Process>,
    ready: seq<nat>, running: seq<nat>, blocking: seq<nat>,
    sleeping: seq<Clock>,
    gets: Gets,
    scanCode: nat, pressed: KeyTable,
    memory: map<nat, char>,
    current: Option<nat>, flow: Flow,
    kernelContext: Context,
    gdtIndex: nat,
    fault: Option<Fatal>)

  const TICKS_PER_SECOND := 1000
  const GDT_SIZE := 512
  const MAX_COPY := 4 * 1024 * 1024
  const USER_STACK := 0x0ff0_0000
  const NO_GETS := Gets(false, 0, 0, 0, None)

  const BOOT := State([], [], [], [], [], NO_GETS, 0, NoKeys(), map[], None, KernelThread,
                      ZERO_CONTEXT, 4, None)

  // ---------------------------------------------------------------- steps

  /** A program that execv can load has at least its ELF header, and a size that malloc can round. */
  type FileSize = x: int | 52 <= x <= WORD - 8 witness 52

  datatype Step =
    | Exec(file: FileSize, entry: U32, pageDirectory: U32)
    | Dispatch(kernel: Context)
    | Timer(tf: TrapFrame)
    | Key(data: Byte)
    | SysGets(tf: TrapFrame)
    | SysSleep(tf: TrapFrame)

  function Halt(s: State, f: Fatal): State { s.(fault := Some(f)) }

  function SetStatus(procs: seq<Process>, p: nat, status: Status): seq<Process> {
    if p < |procs| then procs[p := procs[p].(status := status)] else procs
  }

  function SetContext(procs: seq<Process>, p: nat, context: Context): seq<Process> {
    if p < |procs| then procs[p := procs[p].(context := context)] else procs
  }

  function ContextOf(procs: seq<Process>, p: nat): Context {
    if p < |procs| then procs[p].context else ZERO_CONTEXT
  }

  /** blocking_queue.remove(p); ready_queue.push_back(p); p->status = Ready */
  function Wake(s: State, p: nat): State {
    if p !in s.blocking then Halt(s, ElemNotFound)
    else s.(blocking := Without(s.blocking, p), ready := s.ready + [p],
            procs := SetStatus(s.procs, p, Ready))
  }

  /** The timer's for_each over the sleep queue, from clock `i` on. */
  function TickFrom(s: State, i: nat): State
    requires i <= |s.sleeping|
    decreases |s.sleeping| - i
  {
    if s.fault.Some? || i == |s.sleeping| then s
    else
      var c := s.sleeping[i];
      var aged := s.(sleeping := s.sleeping[i := c.(countDown := c.countDown - 1)]);
      TickFrom(if c.countDown == 1 then Wake(aged, c.process) else aged, i + 1)
  }

  predicate Counting(c: Clock) { c.countDown > 0 }

  function Tick(s: State): State {
    var t := TickFrom(s, 0);
    if t.fault.Some? then t else t.(sleeping := Keep(t.sleeping, Counting))
  }

  /** From the running queue to the queue of `status`, and back to the kernel thread. */
  function Requeue(s: State, p: nat, status: Status): State
    requires status != Running
  {
    if p !in s.running then Halt(s, ElemNotFound)
    else
      s.(procs := SetStatus(s.procs, p, status), running := Without(s.running, p),
         ready := if status.Ready? then s.ready + [p] else s.ready,
         blocking := if status.Blocking? then s.blocking + [p] else s.blocking,
         flow := KernelThread)
  }

  /** Save the current process and take it off the running queue. */
  function Leave(s: State, tf: TrapFrame, status: Status): State
    requires status != Running
  {
    match s.current
    case None => Halt(s, NullProcess)
    case Some(p) =>
      var context := SaveContext(ContextOf(s.procs, p), tf);
      Requeue(s.(procs := SetContext(s.procs, p, context)), p, status)
  }

  function TimerInterrupt(s: State, tf: TrapFrame): State {
    var t := Tick(s);
    if t.fault.Some? || t.flow.KernelThread? then t else Leave(t, tf, Ready)
  }

  /** A typed character goes to the next cell of a waiting reader's buffer. */
  function StoreChar(s: State, c: char): State {
    if !s.gets.enabled then s
    else
      var already := s.gets.already + 1;
      s.(memory := s.memory[Wrap32(s.gets.buffer + s.gets.already) := c],
         gets := s.gets.(already := already, enabled := already != s.gets.count))
  }

  /** response_scancode: update the key table and feed a waiting `gets`. */
  function Respond(s: State, e: Byte): State {
    var t := s.(scanCode := 0, pressed := Press(s.pressed, e));
    match Typed(s.pressed, e)
    case None => t
    case Some(c) => StoreChar(t, c)
  }

  /** The keyboard branch after ps2_keyboard_interrupt: resume the waiter once input is complete. */
  function CompleteGets(s: State): State {
    if s.gets.enabled || s.gets.count == 0 then s
    else match s.gets.waiter
      case None => Halt(s, NullProcess)
      case Some(p) =>
        var context := ContextOf(s.procs, p).(eax := s.gets.buffer);
        var t := Wake(s.(procs := SetContext(s.procs, p, context)), p);
        if t.fault.Some? then t else t.(gets := NO_GETS)
  }

  function OnFeed(s: State, feed: Feed): State {
    match feed
    case Partial(code) => CompleteGets(s.(scanCode := code))
    case Event(e) => CompleteGets(Respond(s, e))
    case Invalid => Halt(s, InvalidScanCode)
  }

  function GetsCall(s: State, tf: TrapFrame): State {
    if tf.ecx > MAX_COPY then Halt(s, CountTooLarge)
    else if s.flow.KernelThread? then Halt(s, InvalidSource)
    else
      var t := Leave(s.(gets := Gets(true, tf.ecx, 0, tf.ebx, s.current)), tf, Blocking);
      if t.fault.Some? then t else t.(current := None)
  }

  /** Queue a sleep clock; its process is no longer current. */
  function StartClock(s: State, clock: Clock): State {
    s.(sleeping := s.sleeping + [clock], current := None)
  }

  function SleepCall(s: State, tf: TrapFrame): State {
    if s.flow.KernelThread? then Halt(s, InvalidSource)
    else
      var t := Leave(s, tf, Blocking);
      if t.fault.Some? then t else StartClock(t, Clock(TICKS_PER_SECOND * tf.ebx, s.current.value))
  }

  /** switch_to_process: keep the kernel's context and enter the process. */
  function SwitchTo(s: State, kernel: Context): State {
    s.(kernelContext := kernel, flow := ProcessThread)
  }

  /** One pass of the scheduler loop; the loop only runs in the kernel thread. */
  function DispatchNext(s: State, kernel: Context): State {
    if s.flow.ProcessThread? || s.ready == [] then s
    else
      var p := s.ready[0];
      SwitchTo(s.(ready := s.ready[1..], procs := SetStatus(s.procs, p, Running),
                  running := s.running + [p], current := Some(p)), kernel)
  }

  function Selector(index: nat): U32
    requires index <= GDT_SIZE
  {
    index * 8 + 3
  }

  /** Two descriptors of its own, the user stack, the entry point. */
  function FirstContext(gdtIndex: nat, entry: U32, pageDirectory: U32): Context
    requires gdtIndex + 1 < GDT_SIZE
  {
    var data := Selector(gdtIndex + 1);
    ZERO_CONTEXT.(cs := Selector(gdtIndex), ds := data, es := data, fs := data, gs := data,
                  ss := data, esp := USER_STACK - 4, eip := entry, pageDirectory := pageDirectory)
  }

  /** The process record and queue effects of execv. */
  function ExecProcess(s: State, entry: U32, pageDirectory: U32): State {
    if s.flow.ProcessThread? then s
    else if s.gdtIndex + 1 >= GDT_SIZE then Halt(s, GdtFull)
    else
      s.(procs := s.procs + [Process(Ready, FirstContext(s.gdtIndex, entry, pageDirectory))],
         ready := s.ready + [|s.procs|], gdtIndex := s.gdtIndex + 2)
  }

  function Next(s: State, step: Step): State {
    if s.fault.Some? then s
    else match step
      case Exec(_, entry, pageDirectory) => ExecProcess(s, entry, pageDirectory)
      case Dispatch(kernel) => DispatchNext(s, kernel)
      case Timer(tf) => TimerInterrupt(s, tf)
      case Key(data) => OnFeed(s, FeedByte(s.scanCode, data))
      case SysGets(tf) => GetsCall(s, tf)
      case SysSleep(tf) => SleepCall(s, tf)
  }

  function Run(s: State, steps: seq<Step>): State
    decreases |steps|
  {
    if steps == [] then s else Run(Next(s, steps[0]), steps[1..])
  }

  // ---------------------------------------------------------------- invariants

  /** `q` holds exactly the processes with `status`, each once. */
  ghost predicate Queue(procs: seq<Process>, q: seq<nat>, status: Status) {
    && Distinct(q)
    && (forall p :: p in q ==> p < |procs| && procs[p].status == status)
    && (forall p :: 0 <= p < |procs| && procs[p].status == status ==> p in q)
  }

  ghost predicate QueuesOk(s: State) {
    && Queue(s.procs, s.ready, Ready)
    && Queue(s.procs, s.running, Running)
    && Queue(s.procs, s.blocking, Blocking)
  }

  ghost predicate FlowOk(s: State) {
    if s.flow.ProcessThread? then s.current.Some? && s.running == [s.current.value]
    else s.running == []
  }

  ghost predicate ClocksDistinct(clocks: seq<Clock>) {
    forall i, j :: 0 <= i < j < |clocks| ==> clocks[i].process != clocks[j].process
  }

  ghost predicate GetsOk(s: State) {
    && s.gets.enabled == s.gets.waiter.Some?
    && (!s.gets.enabled ==> s.gets.count == 0)
    && (s.gets.waiter.Some? ==>
          && s.gets.waiter.value in s.blocking
          && (forall i :: 0 <= i < |s.sleeping| ==> s.sleeping[i].process != s.gets.waiter.value))
  }

  ghost predicate NoQueueFault(s: State) {
    s.fault != Some(ElemNotFound) && s.fault != Some(NullProcess)
  }

  /** What every step keeps, whatever the arguments of the system calls. */
  ghost predicate Inv(s: State) {
    && QueuesOk(s)
    && FlowOk(s)
    && ClocksDistinct(s.sleeping)
    && (forall i :: 0 <= i < |s.sleeping| ==> s.sleeping[i].process in s.blocking)
    && GetsOk(s)
    && s.gdtIndex == 4 + 2 * |s.procs| <= GDT_SIZE
    && NoQueueFault(s)
  }

  /** A blocked process that nothing will ever wake. */
  ghost predicate Stranded(s: State, p: nat) {
    && p in s.blocking
    && (forall c :: c in s.sleeping && c.process == p ==> c.countDown <= 0)
    && (s.gets.waiter == Some(p) ==> s.gets.already >= s.gets.count)
  }

  ghost predicate NoneStranded(s: State) { forall p :: p in s.blocking ==> !Stranded(s, p) }

  /** What a system call's caller can check: sleep at least a second; read at least one character,
      and only while nobody else is reading. */
  predicate Sound(s: State, step: Step) {
    match step
    case SysSleep(tf) => s.flow.ProcessThread? ==> tf.ebx >= 1
    case SysGets(tf) =>
      s.flow.ProcessThread? && tf.ecx <= MAX_COPY ==> tf.ecx >= 1 && s.gets.waiter.None?
    case _ => true
  }

  predicate AllSound(s: State, steps: seq<Step>)
    decreases |steps|
  {
    steps == [] || (Sound(s, steps[0]) && AllSound(Next(s, steps[0]), steps[1..]))
  }
}
