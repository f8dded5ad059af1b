/** The interrupt handlers and system calls as they run: linked queues, heap and globals changed in
    place. Every method is proved to do the node operations that `SchedulerNodes` lists and, unless one
    of them halts the machine, to take the state exactly where `Scheduler` says. */
module Kernel {
  import opened Words
  import opened Seqs
  import opened Contexts
  import opened Keyboard
  import opened LinkedLists
  import opened Queues
  import opened NodeMemory
  import opened SchedulerNodes
  import I = SchedulerInvariant
  import R = SchedulerRuns
  import H = HeapModel
  import S = Scheduler

  class Machine {
    const queues: QueueSet
    var procs: seq<S.Process>
    var gets: S.Gets
    var scanCode: nat
    var pressed: KeyTable
    var memory: map<nat, char>
    var current: Option<nat>
    var flow: S.Flow
    var kernelContext: Context
    var gdtIndex: nat
    var fault: Option<S.Fatal>

    ghost function Repr(): set<object>
      reads this, queues
    {
      {this} + queues.Repr
    }

    ghost predicate Valid()
      reads this, queues, queues.Repr
    {
      queues.Valid() && this !in queues.Repr
    }

    ghost function View(): S.State
      reads this, queues
    {
      S.State(procs, queues.view.ready, queues.view.running, queues.view.blocking, queues.view.sleeping, gets,
              scanCode, pressed, memory, current, flow, kernelContext, gdtIndex, fault)
    }

    /** The nodes and the heap. */
    ghost function Nodes(): Mem
      reads this, queues
    {
      queues.view.mem
    }

    /** A malloc or free halted the machine. */
    predicate OutOfMemory()
      reads this, queues
    {
      queues.heap.halted
    }

    constructor (heap: H.State)
      ensures Valid() && fresh(Repr()) && View() == S.BOOT && Nodes() == Mem([], [], [], [], heap)
    {
      queues := new QueueSet(heap);
      procs, gets, scanCode, pressed, memory := [], S.NO_GETS, 0, NoKeys(), map[];
      current, flow, kernelContext, gdtIndex, fault := None, S.KernelThread, ZERO_CONTEXT, 4, None;
    }

    /** blocking_queue.remove(p); ready_queue.push_back(p); p->status = Ready */
    method Wake(p: nat)
      requires Valid() && !OutOfMemory()
      modifies Repr()
      ensures Valid() && fresh(Repr() - old(Repr()))
      ensures Nodes() == DoAll(old(Nodes()), WakeOps(old(View()), p))
      ensures !OutOfMemory() ==> View() == S.Wake(old(View()), p)
      ensures queues.sleepList.Spine == old(queues.sleepList.Spine)
    {
      var found := queues.MoveWoken(p);
      if !found {
        fault := Some(S.ElemNotFound);
        return;
      }
      procs := S.SetStatus(procs, p, S.Ready);
    }

    method Requeue(p: nat, status: S.Status)
      requires Valid() && !OutOfMemory() && status != S.Running
      modifies Repr()
      ensures Valid() && fresh(Repr() - old(Repr()))
      ensures Nodes() == DoAll(old(Nodes()), MoveOps(RunningQ, old(View()).running, p, QueueOf(status)))
      ensures !OutOfMemory() ==> View() == S.Requeue(old(View()), p, status)
    {
      var found := queues.MoveStopped(p, status);
      if found {
        Mark(p, status);
      } else {
        Stop(S.ElemNotFound);
      }
    }

    /** The process's new status; the kernel thread goes on. */
    method Mark(p: nat, status: S.Status)
      requires Valid()
      modifies this
      ensures Valid() && queues.view == old(queues.view)
      ensures View() == old(View()).(procs := S.SetStatus(old(procs), p, status), flow := S.KernelThread)
    {
      procs := S.SetStatus(procs, p, status);
      flow := S.KernelThread;
    }

    /** fatal */
    method Stop(f: S.Fatal)
      requires Valid()
      modifies this
      ensures Valid() && queues.view == old(queues.view) && View() == S.Halt(old(View()), f)
    {
      fault := Some(f);
    }

    /** save_context_from_trapframe, then from the running queue to `status`'s queue. */
    method Leave(tf: TrapFrame, status: S.Status)
      requires Valid() && !OutOfMemory() && status != S.Running
      modifies Repr()
      ensures Valid() && fresh(Repr() - old(Repr()))
      ensures Nodes() == DoAll(old(Nodes()), LeaveOps(old(View()), status))
      ensures !OutOfMemory() ==> View() == S.Leave(old(View()), tf, status)
    {
      if current.None? {
        fault := Some(S.NullProcess);
        return;
      }
      var p := current.value;
      procs := S.SetContext(procs, p, SaveContext(S.ContextOf(procs, p), tf));
      Requeue(p, status);
    }

    /** The timer's for_each and filter over the sleep queue. */
    method Tick()
      requires Valid() && !OutOfMemory() && fault.None?
      modifies Repr()
      ensures Valid() && fresh(Repr() - old(Repr()))
      ensures Nodes() == DoAll(old(Nodes()), TickOps(old(View())))
      ensures !OutOfMemory() ==> View() == S.Tick(old(View()))
    {
      ghost var goal, end := S.TickFrom(View(), 0), DoAll(Nodes(), TickFromOps(View(), 0));
      TickAllOps(View(), Nodes());
      Age(goal, end);
      if queues.heap.halted {
        HaltSticks(end, DropOps(goal.sleeping, S.Counting, 0));
      } else if fault.None? {
        queues.FilterSleeping(S.Counting);
      }
    }

    /** The timer's for_each. */
    method Age(ghost goal: S.State, ghost end: Mem)
      requires Valid() && !OutOfMemory() && fault.None? && Left(View(), Nodes(), 0, goal, end)
      modifies Repr()
      ensures Valid() && fresh(Repr() - old(Repr()))
      ensures Nodes() == end && (!OutOfMemory() ==> View() == goal)
    {
      ghost var k := 0;
      ghost var spine := queues.sleepList.Spine;
      queues.ClockNode(k);
      var cur := queues.sleepList.head.next;
      while cur != null && fault.None? && !queues.heap.halted
        invariant Valid() && fresh(Repr() - old(Repr())) && queues.sleepList.Spine == spine
        invariant k < |spine| == |queues.view.sleeping| + 1
        invariant cur == if k + 1 < |spine| then spine[k + 1] else null
        invariant Left(View(), Nodes(), k, goal, end)
        decreases |spine| - k
      {
        cur := AgeClock(cur, k, goal, end);
        k := k + 1;
      }
      AgeEnds(View(), Nodes(), k, goal, end);
    }

    /** One pass of for_each. */
    method AgeClock(cur: Node<S.Clock>, ghost k: nat, ghost goal: S.State, ghost end: Mem)
      returns (next: Node?<S.Clock>)
      requires Valid() && !OutOfMemory() && fault.None?
      requires k < |queues.view.sleeping| && cur == queues.sleepList.Spine[k + 1]
      requires Left(View(), Nodes(), k, goal, end)
      modifies Repr()
      ensures Valid() && fresh(Repr() - old(Repr()))
      ensures queues.sleepList.Spine == old(queues.sleepList.Spine)
      ensures |queues.view.sleeping| == |old(queues.view.sleeping)|
      ensures next == if k + 1 < |queues.view.sleeping| then queues.sleepList.Spine[k + 2] else null
      ensures Left(View(), Nodes(), k + 1, goal, end)
    {
      ghost var s, m := View(), Nodes();
      next := TickAndStep(cur, k);
      AgeStep(s, m, k, View(), Nodes(), goal, end);
    }

    /** The callback on the clock behind position `k`, and on to the next node. */
    method TickAndStep(cur: Node<S.Clock>, ghost k: nat) returns (next: Node?<S.Clock>)
      requires Valid() && !OutOfMemory() && fault.None?
      requires k < |queues.view.sleeping| && cur == queues.sleepList.Spine[k + 1]
      modifies Repr()
      ensures Valid() && fresh(Repr() - old(Repr()))
      ensures queues.sleepList.Spine == old(queues.sleepList.Spine)
      ensures Nodes() == DoAll(old(Nodes()), TickOneOps(old(View()), k))
      ensures !OutOfMemory() ==> View() == I.TickOne(old(View()), k)
      ensures |queues.view.sleeping| == |old(queues.view.sleeping)|
      ensures next == if k + 1 < |queues.view.sleeping| then queues.sleepList.Spine[k + 2] else null
    {
      TickOneClock(cur, k);
      queues.ClockNode(k + 1);
      next := cur.next;
    }

    /** The for_each callback. */
    method TickOneClock(cur: Node<S.Clock>, ghost k: nat)
      requires Valid() && !OutOfMemory() && fault.None?
      requires k < |queues.view.sleeping| && cur == queues.sleepList.Spine[k + 1]
      modifies Repr()
      ensures Valid() && fresh(Repr() - old(Repr()))
      ensures queues.sleepList.Spine == old(queues.sleepList.Spine)
      ensures Nodes() == DoAll(old(Nodes()), TickOneOps(old(View()), k))
      ensures !OutOfMemory() ==> View() == I.TickOne(old(View()), k)
      ensures |queues.view.sleeping| == |old(queues.view.sleeping)|
    {
      var aged := queues.AgeNode(cur, k);
      if aged.countDown == 0 {
        Wake(aged.process);
      }
    }

    /** hardware_interrupt_handler, IRQ_TIMER. The frame returned to is the kernel's when a process
        was preempted. */
    method TimerInterrupt(tf: TrapFrame) returns (out: TrapFrame)
      requires Valid() && !OutOfMemory() && fault.None?
      modifies Repr()
      ensures Valid() && fresh(Repr() - old(Repr()))
      ensures Nodes() == DoAll(old(Nodes()), TimerOps(old(View())))
      ensures !OutOfMemory() ==> View() == S.TimerInterrupt(old(View()), tf)
      ensures !OutOfMemory() && fault.None? ==>
                && kernelContext == old(kernelContext)
                && out == if old(flow).ProcessThread? then RestoreContext(kernelContext, tf) else tf
    {
      out := tf;
      ghost var s := View();
      TimerAllOps(s, Nodes());
      R.TickKeeps(s);
      Tick();
      if queues.heap.halted {
        HaltSticks(Nodes(), LeaveOps(S.Tick(s), S.Ready));
        return;
      }
      if fault.Some? || flow.KernelThread? {
        return;
      }
      Leave(tf, S.Ready);
      out := RestoreContext(kernelContext, tf);
    }

    method StoreChar(c: char)
      requires Valid()
      modifies this
      ensures Valid() && View() == S.StoreChar(old(View()), c) && queues.view == old(queues.view)
    {
      if gets.enabled {
        memory := memory[Wrap32(gets.buffer + gets.already) := c];
        gets := gets.(already := gets.already + 1);
        if gets.already == gets.count {
          gets := gets.(enabled := false);
        }
      }
    }

    /** response_scancode after to_event_id */
    method Respond(event: Byte)
      requires Valid()
      modifies this
      ensures Valid() && View() == S.Respond(old(View()), event) && queues.view == old(queues.view)
    {
      scanCode := 0;
      var key := EventKey(event);
      pressed := pressed[key.key := key.pressed];
      if IsValidChar(key.key) && key.pressed {
        StoreChar(ToChar(pressed, key.key));
      }
    }

    /** hardware_interrupt_handler, IRQ_KEYBOARD, with ps2_keyboard_interrupt. */
    method KeyboardInterrupt(data: Byte)
      requires Valid() && !OutOfMemory() && fault.None?
      modifies Repr()
      ensures Valid() && fresh(Repr() - old(Repr()))
      ensures var feed := FeedByte(old(scanCode), data);
              && Nodes() == DoAll(old(Nodes()), KeyOps(old(View()), feed))
              && (!OutOfMemory() ==> View() == S.OnFeed(old(View()), feed))
    {
      var code := Wrap64(scanCode * 256 + data);
      if IsComplete(code) {
        var event := ConvertCode(code);
        if event.None? {
          fault := Some(S.InvalidScanCode);
          return;
        }
        Respond(event.value);
      } else {
        scanCode := code;
      }
      ResumeReader();
    }

    method ResumeReader()
      requires Valid() && !OutOfMemory() && fault.None?
      modifies Repr()
      ensures Valid() && fresh(Repr() - old(Repr()))
      ensures Nodes() == DoAll(old(Nodes()), CompleteOps(old(View())))
      ensures !OutOfMemory() ==> View() == S.CompleteGets(old(View()))
    {
      if gets.enabled || gets.count == 0 {
        return;
      }
      if gets.waiter.None? {
        fault := Some(S.NullProcess);
        return;
      }
      var p := gets.waiter.value;
      procs := S.SetContext(procs, p, S.ContextOf(procs, p).(eax := gets.buffer));
      Release(p);
    }

    /** Wake the reader and clear the reader globals. */
    method Release(p: nat)
      requires Valid() && !OutOfMemory() && fault.None?
      modifies Repr()
      ensures Valid() && fresh(Repr() - old(Repr()))
      ensures Nodes() == DoAll(old(Nodes()), WakeOps(old(View()), p))
      ensures !OutOfMemory() ==>
                var t := S.Wake(old(View()), p);
                View() == if t.fault.Some? then t else t.(gets := S.NO_GETS)
    {
      Wake(p);
      if fault.None? {
        gets := S.NO_GETS;
      }
    }

    /** system_entry, SYSCALL_GETS */
    method SysGets(tf: TrapFrame) returns (out: TrapFrame)
      requires Valid() && !OutOfMemory() && fault.None?
      modifies Repr()
      ensures Valid() && fresh(Repr() - old(Repr()))
      ensures Nodes() == DoAll(old(Nodes()), GetsOps(old(View()), tf))
      ensures !OutOfMemory() ==> View() == S.GetsCall(old(View()), tf)
      ensures !OutOfMemory() && fault.None? ==>
                kernelContext == old(kernelContext) && out == RestoreContext(kernelContext, tf)
    {
      out := tf;
      if tf.ecx > S.MAX_COPY {
        fault := Some(S.CountTooLarge);
        return;
      }
      if flow != S.ProcessThread {
        fault := Some(S.InvalidSource);
        return;
      }
      gets := S.Gets(true, tf.ecx, 0, tf.ebx, current);
      StopReader(tf);
      out := RestoreContext(kernelContext, tf);
    }

    method StopReader(tf: TrapFrame)
      requires Valid() && !OutOfMemory() && fault.None?
      modifies Repr()
      ensures Valid() && fresh(Repr() - old(Repr()))
      ensures Nodes() == DoAll(old(Nodes()), LeaveOps(old(View()), S.Blocking))
      ensures !OutOfMemory() ==>
                var t := S.Leave(old(View()), tf, S.Blocking);
                View() == if t.fault.Some? then t else t.(current := None)
    {
      Leave(tf, S.Blocking);
      if fault.None? {
        current := None;
      }
    }

    method StartClock(clock: S.Clock)
      requires Valid() && !OutOfMemory()
      modifies Repr()
      ensures Valid() && fresh(Repr() - old(Repr()))
      ensures Nodes() == Do(old(Nodes()), Insert(SleepQ))
      ensures !OutOfMemory() ==> View() == S.StartClock(old(View()), clock)
    {
      queues.PushSleeping(clock);
      current := None;
    }

    /** system_entry, SYSCALL_SLEEP */
    method SysSleep(tf: TrapFrame) returns (out: TrapFrame)
      requires Valid() && !OutOfMemory() && fault.None?
      modifies Repr()
      ensures Valid() && fresh(Repr() - old(Repr()))
      ensures Nodes() == DoAll(old(Nodes()), SleepOps(old(View())))
      ensures !OutOfMemory() ==> View() == S.SleepCall(old(View()), tf)
      ensures !OutOfMemory() && fault.None? ==>
                kernelContext == old(kernelContext) && out == RestoreContext(kernelContext, tf)
    {
      out := tf;
      if flow != S.ProcessThread {
        fault := Some(S.InvalidSource);
        return;
      }
      var p := current;
      SleepAllOps(View(), Nodes(), tf);
      Leave(tf, S.Blocking);
      if queues.heap.halted || fault.Some? {
        return;
      }
      StartClock(S.Clock(S.TICKS_PER_SECOND * tf.ebx, p.value));
      out := RestoreContext(kernelContext, tf);
    }

    method SwitchTo(kernel: Context)
      requires Valid()
      modifies this
      ensures Valid() && View() == S.SwitchTo(old(View()), kernel) && queues.view == old(queues.view)
    {
      kernelContext := kernel;
      flow := S.ProcessThread;
    }

    /** One pass of the loop in schedular(). Returns the process switched to, if any. */
    method Dispatch(kernel: Context) returns (chosen: Option<nat>)
      requires Valid() && !OutOfMemory() && fault.None? && flow == S.KernelThread
      modifies Repr()
      ensures Valid() && fresh(Repr() - old(Repr()))
      ensures Nodes() == DoAll(old(Nodes()), DispatchOps(old(View())))
      ensures !OutOfMemory() ==>
                && View() == S.DispatchNext(old(View()), kernel)
                && chosen == (if old(View()).ready == [] then None else Some(old(View()).ready[0]))
                && (chosen.Some? ==> kernelContext == kernel && current == chosen && flow == S.ProcessThread)
    {
      DoTwo(Nodes(), Delete(ReadyQ, 0), Insert(RunningQ));
      chosen := queues.PopReady();
      if chosen.Some? && !queues.heap.halted {
        Enter(chosen.value, kernel);
      }
    }

    /** Mark `p` running, queue it, and switch to it. */
    method Enter(p: nat, kernel: Context)
      requires Valid() && !OutOfMemory()
      modifies Repr()
      ensures Valid() && fresh(Repr() - old(Repr()))
      ensures Nodes() == Do(old(Nodes()), Insert(RunningQ))
      ensures !OutOfMemory() ==>
                var s := old(View());
                View() == S.SwitchTo(s.(procs := S.SetStatus(s.procs, p, S.Running),
                                        running := s.running + [p], current := Some(p)), kernel)
    {
      queues.PushRunning(p);
      procs, current := S.SetStatus(procs, p, S.Running), Some(p);
      SwitchTo(kernel);
    }

    /** The record and queue effects of execv, which runs in the kernel thread. */
    method Exec(file: S.FileSize, entry: U32, pageDirectory: U32)
      requires Valid() && !OutOfMemory() && fault.None? && flow == S.KernelThread
      modifies Repr()
      ensures Valid() && fresh(Repr() - old(Repr()))
      ensures Nodes() == DoAll(old(Nodes()), ExecOps(old(View()), file))
      ensures !OutOfMemory() ==> View() == S.ExecProcess(old(View()), entry, pageDirectory)
    {
      ExecAllOps(View(), Nodes(), file);
      AllocateProcess(file);
      if queues.heap.halted {
        return;
      }
      if gdtIndex + 1 >= S.GDT_SIZE {
        fault := Some(S.GdtFull);
        return;
      }
      Create(entry, pageDirectory);
    }

    /** The file's buffer, then the process record. */
    method AllocateProcess(file: S.FileSize)
      requires Valid() && !OutOfMemory()
      modifies queues
      ensures Valid() && Repr() == old(Repr()) && View() == old(View())
      ensures Nodes() == Do(Do(old(Nodes()), Block(file)), Block(PROCESS_SIZE))
    {
      queues.Allocate(file);
      if !queues.heap.halted {
        queues.Allocate(PROCESS_SIZE);
      }
    }

    /** The two descriptors, the first context and the ready queue. */
    method Create(entry: U32, pageDirectory: U32)
      requires Valid() && !OutOfMemory() && fault.None? && flow == S.KernelThread && gdtIndex + 1 < S.GDT_SIZE
      modifies Repr()
      ensures Valid() && fresh(Repr() - old(Repr()))
      ensures Nodes() == Do(old(Nodes()), Insert(ReadyQ))
      ensures !OutOfMemory() ==> View() == S.ExecProcess(old(View()), entry, pageDirectory)
    {
      var process := S.Process(S.Ready, S.FirstContext(gdtIndex, entry, pageDirectory));
      queues.PushReady(|procs|);
      procs, gdtIndex := procs + [process], gdtIndex + 2;
    }
  }

  /** From clock `k` on, for_each takes the state to `goal` and the nodes to `end`. The two equations
      stand under quantifiers over the one index so that methods that only pass them on do not unfold
      the recursive functions in them. */
  ghost predicate Left(s: S.State, m: Mem, k: nat, goal: S.State, end: Mem) {
    && k <= |s.sleeping|
    && (forall i {:trigger S.TickFrom(s, i)} | i == k :: !m.heap.halted ==> S.TickFrom(s, i) == goal)
    && (forall i {:trigger TickFromOps(s, i)} | i == k :: DoAll(m, TickFromOps(s, i)) == end)
  }

  lemma AgeOnce(s: S.State, m: Mem, k: nat, s': S.State, m': Mem)
    requires k < |s.sleeping| == |s'.sleeping| && s.fault.None?
    requires m' == DoAll(m, TickOneOps(s, k)) && (!m'.heap.halted ==> s' == I.TickOne(s, k))
    ensures !m'.heap.halted ==> S.TickFrom(s', k + 1) == S.TickFrom(s, k)
    ensures DoAll(m', TickFromOps(s', k + 1)) == DoAll(m, TickFromOps(s, k))
  {
    TickStepOps(s, m, k);
    if m'.heap.halted {
      HaltSticks(m', TickFromOps(s', k + 1));
      HaltSticks(m', TickFromOps(I.TickOne(s, k), k + 1));
    } else {
      I.TickFromStep(s, k);
    }
  }

  lemma AgeStep(s: S.State, m: Mem, k: nat, s': S.State, m': Mem, goal: S.State, end: Mem)
    requires k < |s.sleeping| == |s'.sleeping| && s.fault.None? && !m.heap.halted && Left(s, m, k, goal, end)
    requires m' == DoAll(m, TickOneOps(s, k)) && (!m'.heap.halted ==> s' == I.TickOne(s, k))
    ensures Left(s', m', k + 1, goal, end)
  {
    AgeOnce(s, m, k, s', m');
  }

  lemma AgeEnds(s: S.State, m: Mem, k: nat, goal: S.State, end: Mem)
    requires Left(s, m, k, goal, end) && (m.heap.halted || s.fault.Some? || k == |s.sleeping|)
    ensures m == end && (!m.heap.halted ==> s == goal)
  {
    assert S.TickFrom(s, k) == S.TickFrom(s, k) && DoAll(m, TickFromOps(s, k)) == end;
    if m.heap.halted {
      HaltSticks(m, TickFromOps(s, k));
    }
  }
}
