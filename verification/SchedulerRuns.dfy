/** What holds over whole runs: exact sleep times, first-come first-served dispatch, untouched
    contexts, and the text a `gets` delivers. */
module SchedulerRuns {
  import opened Seqs
  import opened Contexts
  import opened Keyboard
  import opened Scheduler
  import opened SchedulerInvariant
  import opened SchedulerStranding

  lemma {:induction false} RunConcat(s: State, a: seq<Step>, b: seq<Step>)
    ensures Run(s, a + b) == Run(Run(s, a), b)
    decreases |a|
  {
    if a == [] {
      assert a + b == b;
    } else {
      assert (a + b)[1..] == a[1..] + b;
      RunConcat(Next(s, a[0]), a[1..], b);
    }
  }

  lemma {:induction false} FaultSticks(s: State, steps: seq<Step>)
    requires s.fault.Some?
    ensures Run(s, steps) == s
    decreases |steps|
  {
    if steps != [] {
      FaultSticks(Next(s, steps[0]), steps[1..]);
    }
  }

  // ---------------------------------------------------------------- sleep

  function Timers(steps: seq<Step>): nat {
    if steps == [] then 0 else (if steps[0].Timer? then 1 else 0) + Timers(steps[1..])
  }

  lemma FeedSleepers(s: State, feed: Feed)
    ensures OnFeed(s, feed).sleeping == s.sleeping && OnFeed(s, feed).flow == s.flow
  {
  }

  /** One step and one clock: a timer interrupt takes it down by one and at 1 releases the process;
      no other step touches it. */
  lemma NextClock(s: State, step: Step, n: int, p: nat)
    requires Inv(s) && s.fault.None? && n >= 1 && Clock(n, p) in s.sleeping
    ensures var t := Next(s, step);
            if !step.Timer? then Clock(n, p) in t.sleeping
            else if n > 1 then Clock(n - 1, p) in t.sleeping
            else p in t.ready
  {
    match step
    case Timer(tf) =>
      TickInv(s);
      ClockProcess(s, n, p);
      var aged := Clock(n - 1, p);
      assert Clock(aged.countDown + 1, aged.process) == Clock(n, p);
      var u := Tick(s);
      assert n > 1 ==> aged in u.sleeping;
      TimerInv(s, tf);
      TimerReady(s, tf, p);
    case Key(data) => FeedSleepers(s, FeedByte(s.scanCode, data));
    case _ =>
  }

  /** After a timer interrupt nobody runs, so whoever is not blocked is ready. */
  lemma TimerReady(s: State, tf: TrapFrame, p: nat)
    requires Inv(s) && s.fault.None? && p in s.blocking
    ensures var t := TimerInterrupt(s, tf);
            t.sleeping == Tick(s).sleeping && (Clock(1, p) in s.sleeping ==> p in t.ready)
  {
    TickInv(s);
    TimerInv(s, tf);
    var t := TimerInterrupt(s, tf);
    assert p < |t.procs| && t.running == [];
    if Clock(1, p) in s.sleeping {
      assert p !in Tick(s).blocking;
      assert p !in t.blocking;
    }
  }

  lemma ClockStep(s: State, step: Step, n: int, p: nat)
    requires Inv(s) && Next(s, step).fault.None? && Clock(n, p) in s.sleeping
    requires n > (if step.Timer? then 1 else 0)
    ensures Clock(n - (if step.Timer? then 1 else 0), p) in Next(s, step).sleeping
  {
    NextClock(s, step, n, p);
  }

  lemma {:induction false} TimersSnoc(steps: seq<Step>, step: Step)
    ensures Timers(steps + [step]) == Timers(steps) + if step.Timer? then 1 else 0
  {
    if steps != [] {
      assert (steps + [step])[1..] == steps[1..] + [step];
      TimersSnoc(steps[1..], step);
    }
  }

  lemma RunSnoc(s: State, steps: seq<Step>, step: Step)
    ensures Run(s, steps + [step]) == Next(Run(s, steps), step)
  {
    RunConcat(s, steps, [step]);
    assert Run(Run(s, steps), [step]) == Run(Next(Run(s, steps), step), [step][1..]);
  }

  lemma NotHaltedBefore(s: State, step: Step)
    requires Next(s, step).fault.None?
    ensures s.fault.None?
  {
  }

  lemma {:induction false} ClockCounts(s: State, steps: seq<Step>, n: int, p: nat)
    requires Inv(s) && Clock(n, p) in s.sleeping && Timers(steps) < n
    requires Run(s, steps).fault.None?
    ensures Clock(n - Timers(steps), p) in Run(s, steps).sleeping
    decreases |steps|
  {
    if steps != [] {
      var past, step := steps[..|steps| - 1], steps[|steps| - 1];
      assert steps == past + [step];
      RunSnoc(s, past, step);
      TimersSnoc(past, step);
      var e := Run(s, past);
      NotHaltedBefore(e, step);
      RunInv(s, past);
      ClockCounts(s, past, n, p);
      ClockStep(e, step, n - Timers(past), p);
    }
  }

  /** A process that sleeps `sec >= 1` seconds is blocked through the next 1000 * sec - 1 timer
      interrupts, whatever else happens, and the following one makes it ready. */
  lemma SleepWakes(s: State, call: TrapFrame, steps: seq<Step>, tf: TrapFrame)
    requires Inv(s) && s.fault.None? && s.flow.ProcessThread? && call.ebx >= 1
    requires Timers(steps) < 1000 * call.ebx
    requires Run(Next(s, SysSleep(call)), steps).fault.None?
    ensures var p, e := s.current.value, Run(Next(s, SysSleep(call)), steps);
            && p < |e.procs| && e.procs[p].status == Blocking && p !in e.ready
            && Clock(1000 * call.ebx - Timers(steps), p) in e.sleeping
            && (Timers(steps) == 1000 * call.ebx - 1
                ==> p in Next(e, Timer(tf)).ready && p !in Next(e, Timer(tf)).blocking)
  {
    SleepStarts(s, call);
    ClockRuns(Next(s, SysSleep(call)), steps, 1000 * call.ebx, s.current.value, tf);
  }

  /** A clock at n: its process stays blocked for n - 1 ticks, and the next makes it ready. */
  lemma ClockRuns(s: State, steps: seq<Step>, n: int, p: nat, tf: TrapFrame)
    requires Inv(s) && Clock(n, p) in s.sleeping && Timers(steps) < n && Run(s, steps).fault.None?
    ensures var e := Run(s, steps);
            && p < |e.procs| && e.procs[p].status == Blocking && p !in e.ready
            && Clock(n - Timers(steps), p) in e.sleeping
            && (Timers(steps) == n - 1 ==> p in Next(e, Timer(tf)).ready && p !in Next(e, Timer(tf)).blocking)
  {
    ClockAge(s, steps, n, p);
    var e := Run(s, steps);
    ClockBlocks(e, n - Timers(steps), p);
    if Timers(steps) == n - 1 {
      LastTick(e, p, tf);
    }
  }

  lemma ClockAge(s: State, steps: seq<Step>, n: int, p: nat)
    requires Inv(s) && Clock(n, p) in s.sleeping && Timers(steps) < n && Run(s, steps).fault.None?
    ensures Inv(Run(s, steps)) && Clock(n - Timers(steps), p) in Run(s, steps).sleeping
  {
    ClockCounts(s, steps, n, p);
    RunInv(s, steps);
  }

  lemma ClockBlocks(s: State, n: int, p: nat)
    requires Inv(s) && Clock(n, p) in s.sleeping
    ensures p < |s.procs| && s.procs[p].status == Blocking && p !in s.ready
  {
    ClockProcess(s, n, p);
    BlockedOnly(s, p);
  }

  lemma LastTick(s: State, p: nat, tf: TrapFrame)
    requires Inv(s) && s.fault.None? && Clock(1, p) in s.sleeping
    ensures p in Next(s, Timer(tf)).ready && p !in Next(s, Timer(tf)).blocking
  {
    NextClock(s, Timer(tf), 1, p);
    NextInv(s, Timer(tf));
    ReadyOnly(Next(s, Timer(tf)), p);
  }

  lemma SleepStarts(s: State, call: TrapFrame)
    requires Inv(s) && s.fault.None? && s.flow.ProcessThread?
    ensures var t := Next(s, SysSleep(call));
            Inv(t) && Clock(1000 * call.ebx, s.current.value) in t.sleeping
  {
    var t := Next(s, SysSleep(call));
    assert s.current.value in s.running;
    NextInv(s, SysSleep(call));
    assert t.sleeping[|s.sleeping|] == Clock(1000 * call.ebx, s.current.value);
  }

  lemma BlockedOnly(s: State, p: nat)
    requires Inv(s) && p in s.blocking
    ensures p < |s.procs| && s.procs[p].status == Blocking && p !in s.ready
  {
  }

  lemma ReadyOnly(s: State, p: nat)
    requires Inv(s) && p in s.ready
    ensures p !in s.blocking
  {
  }

  // ---------------------------------------------------------------- dispatch order

  predicate Dispatches(s: State, step: Step) {
    step.Dispatch? && s.fault.None? && s.flow.KernelThread? && s.ready != []
  }

  function DispatchCount(s: State, steps: seq<Step>): nat
    decreases |steps|
  {
    if steps == [] then 0
    else (if Dispatches(s, steps[0]) then 1 else 0) + DispatchCount(Next(s, steps[0]), steps[1..])
  }

  lemma {:induction false} TickFromReady(s: State, i: nat)
    requires i <= |s.sleeping|
    ensures s.ready <= TickFrom(s, i).ready
    decreases |s.sleeping| - i
  {
    if s.fault.None? && i < |s.sleeping| {
      TickFromReady(TickOne(s, i), i + 1);
      assert s.ready <= TickOne(s, i).ready;
    }
  }

  lemma FeedReady(s: State, feed: Feed)
    ensures s.ready <= OnFeed(s, feed).ready
  {
  }

  lemma NextReady(s: State, step: Step)
    ensures (if Dispatches(s, step) then s.ready[1..] else s.ready) <= Next(s, step).ready
  {
    if s.fault.None? {
      match step
      case Timer(tf) => TickFromReady(s, 0);
      case Key(data) => FeedReady(s, FeedByte(s.scanCode, data));
      case _ =>
    }
  }

  /** Wake-ups, preemptions and blockings only ever append: after `d` dispatches the ready queue
      still begins with what stood behind the first `d` entries. */
  lemma {:induction false} ReadyPrefix(s: State, steps: seq<Step>)
    requires DispatchCount(s, steps) <= |s.ready|
    ensures s.ready[DispatchCount(s, steps)..] <= Run(s, steps).ready
    decreases |steps|
  {
    if steps != [] {
      var t := Next(s, steps[0]);
      NextReady(s, steps[0]);
      ReadyPrefix(t, steps[1..]);
      var d := DispatchCount(t, steps[1..]);
      if Dispatches(s, steps[0]) {
        assert s.ready[d + 1..] == s.ready[1..][d..];
        assert s.ready[1..][d..] <= t.ready[d..];
      } else {
        assert s.ready[d..] <= t.ready[d..];
      }
    }
  }

  /** Bounded overtaking: the process at position `k` is chosen by exactly the (k+1)-th dispatch. */
  lemma FirstComeFirstServed(s: State, steps: seq<Step>, k: nat, kernel: Context)
    requires k < |s.ready| && DispatchCount(s, steps) == k
    requires Dispatches(Run(s, steps), Dispatch(kernel))
    ensures Next(Run(s, steps), Dispatch(kernel)).current == Some(s.ready[k])
  {
    ReadyPrefix(s, steps);
    assert s.ready[k..][0] == s.ready[k];
  }

  // ---------------------------------------------------------------- the way back to the kernel

  lemma TickKeeps(s: State)
    ensures Tick(s).flow == s.flow && Tick(s).kernelContext == s.kernelContext
  {
    TickFromKeeps(s, 0);
  }

  lemma {:induction false} TickFromKeeps(s: State, i: nat)
    requires i <= |s.sleeping|
    ensures TickFrom(s, i).flow == s.flow && TickFrom(s, i).kernelContext == s.kernelContext
    decreases |s.sleeping| - i
  {
    if i < |s.sleeping| && s.fault.None? {
      TickFromStep(s, i);
      TickFromKeeps(TickOne(s, i), i + 1);
    }
  }

  lemma NextKernel(s: State, step: Step)
    requires !Dispatches(s, step)
    ensures Next(s, step).kernelContext == s.kernelContext
  {
    if s.fault.None? {
      match step
      case Timer(tf) => TickKeeps(s);
      case Key(data) => FeedKernel(s, FeedByte(s.scanCode, data));
      case _ =>
    }
  }

  lemma FeedKernel(s: State, feed: Feed)
    ensures OnFeed(s, feed).kernelContext == s.kernelContext
  {
  }

  lemma {:induction false} KernelKept(s: State, steps: seq<Step>)
    requires DispatchCount(s, steps) == 0
    ensures Run(s, steps).kernelContext == s.kernelContext
    decreases |steps|
  {
    if steps != [] {
      NextKernel(s, steps[0]);
      KernelKept(Next(s, steps[0]), steps[1..]);
    }
  }

  /** The interrupt or call that takes a process off the processor returns to the kernel where its own
      dispatch left it, register by register, whatever happened in between. */
  lemma ReturnsToDispatcher(s: State, kernel: Context, steps: seq<Step>, leave: Step)
    requires Dispatches(s, Dispatch(kernel)) && DispatchCount(Next(s, Dispatch(kernel)), steps) == 0
    requires Leaves(Run(Next(s, Dispatch(kernel)), steps), leave)
    ensures var e := Run(Next(s, Dispatch(kernel)), steps);
            && e.kernelContext == kernel && Next(e, leave).kernelContext == kernel
            && SameRegisters(kernel, RestoreContext(Next(e, leave).kernelContext, leave.tf))
  {
    var t := Next(s, Dispatch(kernel));
    KernelKept(t, steps);
    NextKernel(Run(t, steps), leave);
    SaveRestoreIdentity(kernel, leave.tf, leave.tf);
  }

  // ---------------------------------------------------------------- contexts

  /** `p` is not running in any state the run passes through. */
  predicate Idle(s: State, steps: seq<Step>, p: nat)
    decreases |steps|
  {
    && p < |s.procs|
    && s.procs[p].status != Running
    && (steps == [] || Idle(Next(s, steps[0]), steps[1..], p))
  }

  function ContextAfter(before: State, after: State, p: nat): Context
    requires p < |before.procs| && p < |after.procs|
  {
    if before.gets.waiter == Some(p) && after.procs[p].status == Ready
    then before.procs[p].context.(eax := before.gets.buffer)
    else before.procs[p].context
  }

  lemma TimerContext(s: State, tf: TrapFrame, p: nat)
    requires Inv(s) && s.fault.None? && p < |s.procs| && s.procs[p].status != Running
    ensures var t := TimerInterrupt(s, tf);
            && t.gets == s.gets && p < |t.procs|
            && t.procs[p].context == s.procs[p].context
            && (s.procs[p].status == Ready ==> t.procs[p].status == Ready)
            && (s.gets.waiter == Some(p) ==> t.procs[p].status == Blocking)
  {
    TickInv(s);
    TimerInv(s, tf);
    var u := Tick(s);
    var t := TimerInterrupt(s, tf);
    assert u.procs[p].context == s.procs[p].context;
    if u.flow.ProcessThread? {
      var q := u.current.value;
      assert q in u.running && q in s.running;
      assert t.procs[p] == u.procs[p];
    }
    if s.procs[p].status == Ready {
      assert p !in u.blocking;
      assert p !in u.running;
    }
    if s.gets.waiter == Some(p) {
      assert Clock(1, p) !in s.sleeping;
      assert p in u.blocking;
    }
  }

  lemma FeedContext(s: State, feed: Feed, p: nat)
    requires Inv(s) && s.fault.None? && p < |s.procs|
    ensures var t := OnFeed(s, feed);
            && |t.procs| == |s.procs|
            && t.procs[p].context == (if s.gets.waiter == Some(p) && t.gets.waiter != Some(p)
                                      then s.procs[p].context.(eax := s.gets.buffer)
                                      else s.procs[p].context)
            && t.procs[p].status == (if s.gets.waiter == Some(p) && t.gets.waiter != Some(p)
                                     then Ready else s.procs[p].status)
            && (t.gets.waiter == s.gets.waiter ==> t.gets.buffer == s.gets.buffer)
            && (t.gets.waiter != s.gets.waiter ==> t.gets.waiter == None)
  {
    if feed.Event? {
      var t := Respond(s, feed.event);
      if s.gets.enabled && !t.gets.enabled && t.gets.count != 0 {
        CompleteGetsInv(t, s.gets.waiter.value);
      }
    }
  }

  lemma NextIdle(s: State, step: Step, p: nat)
    requires Inv(s) && s.fault.None? && p < |s.procs| && s.procs[p].status != Running
    ensures var t := Next(s, step);
            && p < |t.procs|
            && (s.gets.waiter != Some(p) ==>
                  && t.gets.waiter != Some(p)
                  && t.procs[p].context == s.procs[p].context)
            && (s.gets.waiter == Some(p) ==>
                  || (t.gets.waiter == Some(p) && t.gets.buffer == s.gets.buffer
                      && t.procs[p] == s.procs[p])
                  || (t.gets.waiter != Some(p)
                      && t.procs[p] == Process(Ready, s.procs[p].context.(eax := s.gets.buffer)))
                  || (Stranded(t, p) && t.gets.waiter != Some(p) && t.procs[p] == s.procs[p]))
            && (s.procs[p].status == Ready && t.procs[p].status != Running ==> t.procs[p].status == Ready)
  {
    match step
    case Timer(tf) => TimerContext(s, tf, p);
    case Key(data) =>
      FeedContext(s, FeedByte(s.scanCode, data), p);
    case SysGets(_) => SyscallIdle(s, step, p);
    case SysSleep(_) => SyscallIdle(s, step, p);
    case _ =>
      assert s.gets.waiter == Some(p) ==> p !in s.ready;
  }

  lemma SyscallIdle(s: State, step: Step, p: nat)
    requires Inv(s) && s.fault.None? && p < |s.procs| && s.procs[p].status != Running
    requires step.SysGets? || step.SysSleep?
    ensures var t := Next(s, step);
            && p < |t.procs| && t.procs[p] == s.procs[p]
            && (s.gets.waiter != Some(p) ==> t.gets.waiter != Some(p))
            && (s.gets.waiter == Some(p) ==>
                  || (t.gets.waiter == Some(p) && t.gets.buffer == s.gets.buffer)
                  || (Stranded(t, p) && t.gets.waiter != Some(p)))
  {
    if s.flow.ProcessThread? {
      var q := s.current.value;
      assert q in s.running;
      assert q != p;
    }
  }

  /** While a process is not running no step writes its saved context, except for the single `eax`
      that a completed `gets` hands to its reader. */
  lemma {:induction false} ContextKept(s: State, steps: seq<Step>, p: nat)
    requires Inv(s) && Idle(s, steps, p)
    ensures var e := Run(s, steps);
            p < |e.procs| && e.procs[p].context == ContextAfter(s, e, p)
            && (s.procs[p].status == Ready ==> e.procs[p].status == Ready)
    decreases |steps|
  {
    if s.fault.Some? {
      FaultSticks(s, steps);
      assert s.gets.waiter == Some(p) ==> p in s.blocking;
    } else if steps == [] {
      assert s.gets.waiter == Some(p) ==> p in s.blocking;
    } else {
      var t := Next(s, steps[0]);
      NextIdle(s, steps[0], p);
      NextInv(s, steps[0]);
      ContextKept(t, steps[1..], p);
      if Stranded(t, p) {
        StrandedForever(t, steps[1..], p);
        RunInv(t, steps[1..]);
      }
    }
  }

  predicate Leaves(s: State, step: Step) {
    s.fault.None? && s.flow.ProcessThread?
    && (step.Timer? || step.SysGets? || step.SysSleep?)
    && Next(s, step).fault.None?
  }

  /** The saved context right after the running process is preempted or makes a blocking call. */
  lemma LeaveSaves(s: State, step: Step)
    requires Inv(s) && Leaves(s, step)
    ensures var p, t := s.current.value, Next(s, step);
            && p < |s.procs| && p < |t.procs|
            && t.procs[p].context == SaveContext(s.procs[p].context, step.tf)
            && t.procs[p].status != Running
            && (t.gets.waiter == Some(p) <==> step.SysGets?)
            && (step.SysGets? ==> t.gets.buffer == step.tf.ebx)
            && t.flow == KernelThread && t.current == (if step.Timer? then Some(p) else None)
  {
    var p := s.current.value;
    assert p in s.running;
    assert s.gets.waiter != Some(p);
    if step.Timer? {
      TickInv(s);
      assert p in Tick(s).running;
    }
  }

  /** A process resumes with the registers it left with: between the step that took it off the
      processor and its next dispatch nothing is lost, and only a `gets` result is added. */
  lemma ResumesWhereItLeft(s: State, leave: Step, steps: seq<Step>, kernel: Context)
    requires Inv(s) && Leaves(s, leave)
    requires Idle(Next(s, leave), steps, s.current.value)
    requires var e := Run(Next(s, leave), steps);
             Dispatches(e, Dispatch(kernel)) && e.ready[0] == s.current.value
    ensures var p := s.current.value;
            var r := Next(Run(Next(s, leave), steps), Dispatch(kernel));
            var left := SaveContext(s.procs[p].context, leave.tf);
            && r.current == Some(p) && p < |r.procs|
            && r.procs[p].context == (if leave.SysGets? then left.(eax := leave.tf.ebx) else left)
            && SameRegisters(r.procs[p].context,
                             if leave.SysGets? then leave.tf.(eax := leave.tf.ebx) else leave.tf)
  {
    SaveRestoreIdentity(s.procs[s.current.value].context, leave.tf, leave.tf);
    var p := s.current.value;
    var t := Next(s, leave);
    LeaveSaves(s, leave);
    NextInv(s, leave);
    RunInv(t, steps);
    ContextKept(t, steps, p);
    assert p in Run(t, steps).ready;
  }
}
