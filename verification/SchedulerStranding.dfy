/** A process can be blocked for good. Which steps cause it, and that it never ends. */
module SchedulerStranding {
  import opened Seqs
  import opened Contexts
  import opened Keyboard
  import opened Scheduler
  import opened SchedulerInvariant

  lemma EffectStranded(s: State, t: State, p: nat)
    requires TickEffect(s, t, t.sleeping) && p in s.blocking
    ensures Stranded(s, p) ==> Stranded(t, p)
    ensures !Stranded(s, p) && p in t.blocking ==> !Stranded(t, p)
  {
    if Stranded(s, p) {
      forall c | c in t.sleeping && c.process == p ensures c.countDown <= 0 {
        assert Clock(c.countDown + 1, c.process) in s.sleeping;
      }
    } else if p in t.blocking && (s.gets.waiter != Some(p) || s.gets.already >= s.gets.count) {
      var c :| c in s.sleeping && c.process == p && c.countDown > 0;
      assert c == Clock(c.countDown, p);
      var aged := Clock(c.countDown - 1, p);
      assert Clock(aged.countDown + 1, aged.process) == c;
      assert aged in t.sleeping;
    }
  }

  lemma TimerStranded(s: State, tf: TrapFrame, p: nat)
    requires Inv(s) && s.fault.None? && p in s.blocking
    ensures var t := TimerInterrupt(s, tf);
            && (Stranded(s, p) ==> Stranded(t, p))
            && (!Stranded(s, p) && p in t.blocking ==> !Stranded(t, p))
  {
    TickInv(s);
    EffectStranded(s, Tick(s), p);
  }

  lemma FeedStranded(s: State, feed: Feed, p: nat)
    requires Inv(s) && s.fault.None? && p in s.blocking
    ensures var t := OnFeed(s, feed);
            && (Stranded(s, p) ==> Stranded(t, p))
            && (!Stranded(s, p) && p in t.blocking ==> !Stranded(t, p))
            && (forall o :: o in t.blocking ==> o in s.blocking)
  {
    if feed.Event? {
      var t := Respond(s, feed.event);
      if s.gets.enabled && !t.gets.enabled && t.gets.count != 0 {
        CompleteGetsInv(t, s.gets.waiter.value);
      }
    }
  }

  /** Once stranded, stranded after every step whatever it is: nothing ever wakes the process. */
  lemma NextStranded(s: State, step: Step, p: nat)
    requires Inv(s) && Stranded(s, p)
    ensures Stranded(Next(s, step), p)
  {
    if s.fault.None? {
      match step
      case Timer(tf) => TimerStranded(s, tf, p);
      case Key(data) => FeedStranded(s, FeedByte(s.scanCode, data), p);
      case _ =>
        if s.flow.ProcessThread? {
          assert s.current.value in s.running;
        }
    }
  }

  lemma {:induction false} StrandedForever(s: State, steps: seq<Step>, p: nat)
    requires Inv(s) && Stranded(s, p)
    ensures Stranded(Run(s, steps), p) && p !in Run(s, steps).ready
    decreases |steps|
  {
    RunInv(s, steps);
    if steps != [] {
      NextInv(s, steps[0]);
      NextStranded(s, steps[0], p);
      StrandedForever(Next(s, steps[0]), steps[1..], p);
    } else {
      assert p < |s.procs| && s.procs[p].status == Blocking;
    }
  }

  lemma SyscallStranding(s: State, step: Step)
    requires Inv(s) && s.fault.None? && NoneStranded(s) && (step.SysGets? || step.SysSleep?)
    ensures NoneStranded(Next(s, step)) <==> Sound(s, step)
  {
    var t := Next(s, step);
    if s.flow.ProcessThread? && !(step.SysGets? && step.tf.ecx > MAX_COPY) {
      var p := s.current.value;
      assert p in s.running;
      assert t.blocking == s.blocking + [p];
      assert forall c :: c in s.sleeping ==> c in t.sleeping;
      if step.SysSleep? {
        SleepStranding(s, step.tf, p);
      } else {
        GetsStranding(s, step.tf, p);
      }
    }
  }

  lemma SleepStranding(s: State, tf: TrapFrame, p: nat)
    requires Inv(s) && s.fault.None? && NoneStranded(s) && s.flow.ProcessThread? && s.current == Some(p)
    ensures NoneStranded(Next(s, SysSleep(tf))) <==> tf.ebx >= 1
  {
    var t := Next(s, SysSleep(tf));
    var clock := Clock(TICKS_PER_SECOND * tf.ebx, p);
    assert p in s.running && p !in s.blocking;
    assert t.sleeping == s.sleeping + [clock] && t.blocking == s.blocking + [p];
    assert clock in t.sleeping && p in t.blocking;
    forall o | o in s.blocking ensures !Stranded(t, o) {
      assert !Stranded(s, o);
      if s.gets.waiter != Some(o) || s.gets.already >= s.gets.count {
        var c :| c in s.sleeping && c.process == o && c.countDown > 0;
        assert c in t.sleeping;
      }
    }
    assert Stranded(t, p) <==> tf.ebx < 1;
  }

  lemma GetsStranding(s: State, tf: TrapFrame, p: nat)
    requires Inv(s) && s.fault.None? && NoneStranded(s) && s.flow.ProcessThread? && s.current == Some(p)
    requires tf.ecx <= MAX_COPY
    ensures NoneStranded(Next(s, SysGets(tf))) <==> tf.ecx >= 1 && s.gets.waiter.None?
  {
    var t := Next(s, SysGets(tf));
    assert p in s.running && p !in s.blocking;
    assert t.sleeping == s.sleeping && t.blocking == s.blocking + [p];
    assert p in t.blocking;
    assert Stranded(t, p) <==> tf.ecx < 1;
    forall o | o in s.blocking ensures Stranded(t, o) <==> s.gets.waiter == Some(o) {
      assert !Stranded(s, o) && o in t.blocking;
    }
    if s.gets.waiter.Some? {
      assert s.gets.waiter.value in t.blocking;
    }
  }

  /** From a state where every blocked process can still be woken, a step keeps it so exactly when it
      is sound: `sleep(0)`, `gets` of 0 bytes and a second concurrent `gets` each strand somebody. */
  lemma SoundIffNoneStranded(s: State, step: Step)
    requires Inv(s) && s.fault.None? && NoneStranded(s)
    ensures NoneStranded(Next(s, step)) <==> Sound(s, step)
  {
    match step
    case Timer(tf) =>
      TickInv(s);
      forall p | p in Next(s, step).blocking ensures !Stranded(Next(s, step), p) {
        TimerStranded(s, tf, p);
      }
    case Key(data) =>
      var feed := FeedByte(s.scanCode, data);
      forall p | p in OnFeed(s, feed).blocking ensures !Stranded(OnFeed(s, feed), p) {
        FeedBlocking(s, feed, p);
        FeedStranded(s, feed, p);
      }
    case SysGets(_) => SyscallStranding(s, step);
    case SysSleep(_) => SyscallStranding(s, step);
    case _ =>
  }

  lemma FeedBlocking(s: State, feed: Feed, p: nat)
    requires Inv(s) && s.fault.None? && p in OnFeed(s, feed).blocking
    ensures p in s.blocking
  {
    if s.blocking != [] {
      FeedStranded(s, feed, s.blocking[0]);
    }
  }

  /** So in a run of sound steps from boot no process is ever lost. */
  lemma {:induction false} SoundRun(s: State, steps: seq<Step>)
    requires Inv(s) && NoneStranded(s) && AllSound(s, steps)
    ensures NoneStranded(Run(s, steps))
    decreases |steps|
  {
    if steps != [] {
      NextInv(s, steps[0]);
      if s.fault.None? {
        SoundIffNoneStranded(s, steps[0]);
      }
      SoundRun(Next(s, steps[0]), steps[1..]);
    }
  }
}
