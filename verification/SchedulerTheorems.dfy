/** The scheduler invariant read off for every state reachable from boot. */
module SchedulerTheorems {
  import opened Words
  import opened Seqs
  import opened Contexts
  import opened Scheduler
  import opened SchedulerInvariant
  import opened SchedulerStranding
  import opened SchedulerRuns

  lemma BootOk()
    ensures Inv(BOOT) && NoneStranded(BOOT)
  {
  }

  lemma {:induction false} CountDistinct(q: seq<nat>, p: nat)
    requires Distinct(q)
    ensures multiset(q)[p] == if p in q then 1 else 0
  {
    if q != [] {
      assert q == [q[0]] + q[1..];
      assert Distinct(q[1..]);
      CountDistinct(q[1..], p);
      assert q[0] !in q[1..];
    }
  }

  /** What the invariant says of one process: it is on exactly one queue, once, the one its status
      names. */
  lemma OnOneQueue(s: State, p: nat)
    requires Inv(s)
    ensures multiset(s.ready + s.running + s.blocking)[p] == if p < |s.procs| then 1 else 0
    ensures p < |s.procs| ==> (p in s.ready <==> s.procs[p].status == Ready)
                              && (p in s.running <==> s.procs[p].status == Running)
                              && (p in s.blocking <==> s.procs[p].status == Blocking)
  {
    CountDistinct(s.ready, p);
    CountDistinct(s.running, p);
    CountDistinct(s.blocking, p);
    assert multiset(s.ready + s.running + s.blocking) == multiset(s.ready) + multiset(s.running) + multiset(s.blocking);
    assert p < |s.procs| ==> p in s.ready || p in s.running || p in s.blocking;
  }

  /** In every sound run a blocked process sleeps on a positive clock or reads with characters still
      to come, never both and never neither. */
  lemma BlockedSleepsOrReads(steps: seq<Step>, p: nat)
    requires AllSound(BOOT, steps)
    ensures var s := Run(BOOT, steps);
            && (p in s.blocking <==> (exists n :: n > 0 && Clock(n, p) in s.sleeping)
                                     || (s.gets.waiter == Some(p) && s.gets.already < s.gets.count))
            && !((exists n :: n > 0 && Clock(n, p) in s.sleeping) && s.gets.waiter == Some(p))
            && (forall c :: c in s.sleeping && c.process == p ==> c.countDown > 0)
  {
    var s := Run(BOOT, steps);
    BootOk();
    RunInv(BOOT, steps);
    SoundRun(BOOT, steps);
    if n :| n > 0 && Clock(n, p) in s.sleeping {
      ClockProcess(s, n, p);
    }
    forall c | c in s.sleeping && c.process == p ensures c.countDown > 0 {
      assert c == Clock(c.countDown, p);
      ClockProcess(s, c.countDown, p);
      if c.countDown <= 0 {
        OnlyClock(s, c);
      }
    }
    if p in s.blocking && s.gets.waiter != Some(p) {
      assert !Stranded(s, p);
      var c :| c in s.sleeping && c.process == p && c.countDown > 0;
      assert Clock(c.countDown, p) in s.sleeping;
    }
    if p in s.blocking && s.gets.waiter == Some(p) && s.gets.already >= s.gets.count {
      ReaderStranded(s, p);
    }
  }

  /** A sleeper whose one clock is not positive is stranded. */
  lemma OnlyClock(s: State, c: Clock)
    requires Inv(s) && c in s.sleeping && c.countDown <= 0
    ensures Stranded(s, c.process)
  {
    ClockProcess(s, c.countDown, c.process);
    forall d | d in s.sleeping && d.process == c.process ensures d.countDown <= 0 {
      assert d == Clock(d.countDown, c.process) && c == Clock(c.countDown, c.process);
    }
  }

  /** A reader has no clock, so one that wants no more characters is stranded. */
  lemma ReaderStranded(s: State, p: nat)
    requires Inv(s) && s.gets.waiter == Some(p) && s.gets.already >= s.gets.count
    ensures Stranded(s, p)
  {
  }

  // ---------------------------------------------------------------- the timer, in closed form

  /** Processes whose clock stands at 1, in the order they went to sleep. */
  function Expiring(clocks: seq<Clock>): seq<nat> {
    if clocks == [] then []
    else (if clocks[0].countDown == 1 then [clocks[0].process] else []) + Expiring(clocks[1..])
  }

  /** The clocks left, each one lower. */
  function Remaining(clocks: seq<Clock>): seq<Clock> {
    if clocks == [] then []
    else (if clocks[0].countDown > 1 then [Aged(clocks[0])] else []) + Remaining(clocks[1..])
  }

  lemma {:induction false} KeepAged(before: seq<Clock>, after: seq<Clock>)
    requires |after| == |before| && forall j :: 0 <= j < |before| ==> after[j] == Aged(before[j])
    ensures Keep(after, Counting) == Remaining(before)
  {
    if before != [] {
      assert after[0] == Aged(before[0]);
      KeepAged(before[1..], after[1..]);
    }
  }

  lemma TickOneReady(s: State, i: nat)
    requires i < |s.sleeping| && TickOk(s, i)
    ensures TickOne(s, i).ready + Expiring(TickOne(s, i).sleeping[i + 1..]) == s.ready + Expiring(s.sleeping[i..])
  {
    var next := TickOne(s, i);
    TickOneOk(s, i);
    assert s.sleeping[i..][0] == s.sleeping[i];
    assert s.sleeping[i..][1..] == next.sleeping[i + 1..];
  }

  lemma {:induction false} TickReady(s: State, i: nat)
    requires TickOk(s, i)
    ensures TickFrom(s, i).ready == s.ready + Expiring(s.sleeping[i..])
    decreases |s.sleeping| - i
  {
    if i < |s.sleeping| {
      var next := TickOne(s, i);
      TickOneOk(s, i);
      TickOneReady(s, i);
      TickReady(next, i + 1);
      TickFromStep(s, i);
    }
  }

  /** A timer interrupt wakes the sleepers whose time is up in the order they went to sleep, behind
      everyone already ready; a preempted process goes behind them, with its frame saved; the other
      clocks go down by one; nobody runs afterwards. */
  lemma TimerClosedForm(s: State, tf: TrapFrame)
    requires Inv(s) && s.fault.None?
    ensures var t := Next(s, Timer(tf));
            && t.ready == s.ready + Expiring(s.sleeping)
                          + (if s.flow.ProcessThread? then [s.current.value] else [])
            && t.sleeping == Remaining(s.sleeping)
            && t.running == [] && t.flow == KernelThread
            && (s.flow.ProcessThread? ==>
                  && s.current.value < |s.procs| == |t.procs|
                  && t.procs[s.current.value].context == SaveContext(s.procs[s.current.value].context, tf))
            && t.gets == s.gets && t.memory == s.memory
  {
    TickFromOk(s, 0);
    TickReady(s, 0);
    assert s.sleeping[0..] == s.sleeping;
    KeepAged(s.sleeping, TickFrom(s, 0).sleeping);
    TimerInv(s, tf);
    if s.flow.ProcessThread? {
      assert s.current.value in s.running;
      LeaveSaves(s, Timer(tf));
    }
  }

  // ---------------------------------------------------------------- a process starts

  /** Ring-3 selectors of the two descriptors the process got, the stack's last word, the entry. */
  ghost predicate StartContext(c: Context, n: nat, entry: U32, pageDirectory: U32) {
    && c.cs == 8 * (4 + 2 * n) + 3
    && c.ds == c.es == c.fs == c.gs == c.ss == c.cs + 8
    && c.esp == 0x0fef_fffc && c.eip == entry && c.pageDirectory == pageDirectory
    && c.eax == c.ebx == c.ecx == c.edx == c.esi == c.edi == c.ebp == 0
  }

  /** The n-th process is first dispatched exactly as execv set it up, whatever ran before it; no two
      processes have a selector in common. */
  lemma StartsAsCreated(s: State, file: FileSize, entry: U32, pageDirectory: U32, steps: seq<Step>, kernel: Context)
    requires Inv(s) && s.fault.None? && s.flow.KernelThread? && |s.procs| < 254
    requires Idle(Next(s, Exec(file, entry, pageDirectory)), steps, |s.procs|)
    requires var e := Run(Next(s, Exec(file, entry, pageDirectory)), steps);
             Dispatches(e, Dispatch(kernel)) && e.ready[0] == |s.procs|
    ensures var n := |s.procs|;
            var r := Next(Run(Next(s, Exec(file, entry, pageDirectory)), steps), Dispatch(kernel));
            && r.current == Some(n) && n < |r.procs|
            && StartContext(r.procs[n].context, n, entry, pageDirectory)
  {
    var n := |s.procs|;
    var t := Next(s, Exec(file, entry, pageDirectory));
    NextInv(s, Exec(file, entry, pageDirectory));
    NotWaiting(s, n);
    RunInv(t, steps);
    ContextKept(t, steps, n);
  }

  /** execv in the kernel thread makes one more process, ready behind all others, exactly while there are
      fewer than 254. */
  lemma ExecMakesProcess(s: State, file: FileSize, entry: U32, pageDirectory: U32)
    requires Inv(s) && s.fault.None? && s.flow.KernelThread?
    ensures var t := Next(s, Exec(file, entry, pageDirectory));
            && (t.fault.None? <==> |s.procs| < 254)
            && (|s.procs| < 254 ==> |t.procs| == |s.procs| + 1 && t.ready == s.ready + [|s.procs|])
  {
  }

  /** A `gets` of a running process goes through exactly up to 4 MB. */
  lemma GetsBound(s: State, call: TrapFrame)
    requires Inv(s) && s.fault.None? && s.flow.ProcessThread?
    ensures Next(s, SysGets(call)).fault.None? <==> call.ecx <= 0x40_0000
  {
    assert s.current.value in s.running;
  }

  lemma NotWaiting(s: State, p: nat)
    requires Inv(s) && p >= |s.procs|
    ensures s.gets.waiter != Some(p)
  {
  }

  // ---------------------------------------------------------------- lost processes

  /** An unsound call loses a process for good: somebody is blocked after every continuation. */
  lemma UnsoundCallLosesProcess(s: State, step: Step) returns (p: nat)
    requires Inv(s) && s.fault.None? && NoneStranded(s) && !Sound(s, step)
    ensures forall steps :: p in Run(Next(s, step), steps).blocking
  {
    SoundIffNoneStranded(s, step);
    NextInv(s, step);
    p :| p in Next(s, step).blocking && Stranded(Next(s, step), p);
    forall steps ensures p in Run(Next(s, step), steps).blocking {
      StrandedForever(Next(s, step), steps, p);
    }
  }

  const ZERO_FRAME := TrapFrame(0, 0, 0, 0, 0, 0, 0, 0, 0, 0, 0, 0, 0, 0, 0, 0, 0, 0, 0)

  /** Three such runs from boot: `sleep(0)`, `gets` of no characters, and a second `gets` while the
      first reader waits. */
  function Started(): State {
    Next(Next(Next(BOOT, Exec(52, 0, 0)), Exec(52, 0, 0)), Dispatch(ZERO_CONTEXT))
  }

  lemma FirstRuns()
    ensures var s := Started();
            Inv(s) && NoneStranded(s) && s.fault.None? && s.flow.ProcessThread? && s.current == Some(0)
            && s.ready == [1] && s.gets == NO_GETS
  {
    BootOk();
    var a := Next(BOOT, Exec(52, 0, 0));
    var b := Next(a, Exec(52, 0, 0));
    NextInv(BOOT, Exec(52, 0, 0));
    NextInv(a, Exec(52, 0, 0));
    NextInv(b, Dispatch(ZERO_CONTEXT));
  }

  lemma SleepZeroStrands(s: State, call: TrapFrame, p: nat)
    requires Inv(s) && s.fault.None? && s.flow.ProcessThread? && s.current == Some(p) && call.ebx == 0
    ensures Inv(Next(s, SysSleep(call))) && Stranded(Next(s, SysSleep(call)), p)
  {
    NextInv(s, SysSleep(call));
    assert p in s.running && p !in s.blocking;
  }

  lemma SleepZeroNeverWakes(steps: seq<Step>)
    ensures 0 in Run(Next(Started(), SysSleep(ZERO_FRAME)), steps).blocking
  {
    FirstRuns();
    SleepZeroStrands(Started(), ZERO_FRAME, 0);
    StrandedForever(Next(Started(), SysSleep(ZERO_FRAME)), steps, 0);
  }

  /** The caller of `gets` waits; if it asked for nothing, for ever. */
  lemma GetsWaits(s: State, call: TrapFrame, p: nat)
    requires Inv(s) && s.fault.None? && s.flow.ProcessThread? && s.current == Some(p) && call.ecx <= MAX_COPY
    ensures var t := Next(s, SysGets(call));
            && Inv(t) && t.fault.None? && t.flow.KernelThread? && t.ready == s.ready && t.gets.waiter == Some(p)
            && (call.ecx == 0 ==> Stranded(t, p))
  {
    NextInv(s, SysGets(call));
    assert p in s.running && p !in s.blocking;
  }

  lemma GetsZeroNeverReturns(steps: seq<Step>)
    ensures 0 in Run(Next(Started(), SysGets(ZERO_FRAME)), steps).blocking
  {
    FirstRuns();
    GetsWaits(Started(), ZERO_FRAME, 0);
    StrandedForever(Next(Started(), SysGets(ZERO_FRAME)), steps, 0);
  }

  /** A second reader leaves the first with nobody to wake it. */
  lemma SecondReader(s: State, call: TrapFrame, p: nat)
    requires Inv(s) && s.fault.None? && s.flow.ProcessThread? && s.gets.waiter == Some(p) && call.ecx <= MAX_COPY
    ensures Inv(Next(s, SysGets(call))) && Stranded(Next(s, SysGets(call)), p)
  {
    NextInv(s, SysGets(call));
    assert s.current.value in s.running && s.current.value !in s.blocking;
  }

  lemma DispatchRuns(s: State)
    requires Inv(s) && s.fault.None? && s.flow.KernelThread? && s.ready != []
    ensures var t := Next(s, Dispatch(ZERO_CONTEXT));
            Inv(t) && t.fault.None? && t.flow.ProcessThread? && t.gets == s.gets
  {
    NextInv(s, Dispatch(ZERO_CONTEXT));
  }

  lemma SecondReaderStrandsFirst(steps: seq<Step>)
    ensures var call := ZERO_FRAME.(ecx := 1);
            var waiting := Next(Next(Started(), SysGets(call)), Dispatch(ZERO_CONTEXT));
            0 in Run(Next(waiting, SysGets(call)), steps).blocking
  {
    var call := ZERO_FRAME.(ecx := 1);
    FirstRuns();
    GetsWaits(Started(), call, 0);
    DispatchRuns(Next(Started(), SysGets(call)));
    var waiting := Next(Next(Started(), SysGets(call)), Dispatch(ZERO_CONTEXT));
    SecondReader(waiting, call, 0);
    StrandedForever(Next(waiting, SysGets(call)), steps, 0);
  }
}
