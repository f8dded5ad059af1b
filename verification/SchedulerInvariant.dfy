/** Every step keeps the scheduler invariant, and exactly the sound steps strand nobody. */
module SchedulerInvariant {
  import opened Words
  import opened Seqs
  import opened Contexts
  import opened Keyboard
  import opened Scheduler

  // ---------------------------------------------------------------- moving one process

  /** Taking `p` off its queue when its status changes keeps that queue exact. */
  lemma QueueDrop(procs: seq<Process>, q: seq<nat>, from: Status, p: nat, procs': seq<Process>)
    requires Queue(procs, q, from) && p < |procs| == |procs'|
    requires forall o :: 0 <= o < |procs| && o != p ==> procs'[o].status == procs[o].status
    requires procs'[p].status != from
    ensures Queue(procs', Without(q, p), from)
  {
    WithoutDistinct(q, p);
  }

  /** Appending `p` to the queue of its new status keeps that queue exact. */
  lemma QueueAdd(procs: seq<Process>, q: seq<nat>, to: Status, p: nat, procs': seq<Process>)
    requires Queue(procs, q, to) && p < |procs'| && |procs| <= |procs'| <= |procs| + 1
    requires p < |procs| ==> procs[p].status != to
    requires |procs'| == |procs| + 1 ==> p == |procs|
    requires forall o :: 0 <= o < |procs| && o != p ==> procs'[o].status == procs[o].status
    requires procs'[p].status == to
    ensures Queue(procs', q + [p], to)
  {
    DistinctSnoc(q, p);
  }

  /** A queue of a status that `p` neither leaves nor takes is untouched. */
  lemma QueueKept(procs: seq<Process>, q: seq<nat>, other: Status, p: nat, procs': seq<Process>)
    requires Queue(procs, q, other) && p < |procs'| && |procs| <= |procs'| <= |procs| + 1
    requires |procs'| == |procs| + 1 ==> p == |procs|
    requires p < |procs| ==> procs[p].status != other
    requires procs'[p].status != other
    requires forall o :: 0 <= o < |procs| && o != p ==> procs'[o].status == procs[o].status
    ensures Queue(procs', q, other)
  {
  }

  lemma WakeQueues(s: State, p: nat)
    requires QueuesOk(s) && p in s.blocking
    ensures QueuesOk(Wake(s, p))
    ensures forall o :: o in Wake(s, p).blocking <==> o in s.blocking && o != p
  {
    var t := Wake(s, p);
    QueueDrop(s.procs, s.blocking, Blocking, p, t.procs);
    QueueAdd(s.procs, s.ready, Ready, p, t.procs);
    QueueKept(s.procs, s.running, Running, p, t.procs);
    WithoutDistinct(s.blocking, p);
  }

  lemma LeaveQueues(s: State, tf: TrapFrame, status: Status)
    requires QueuesOk(s) && FlowOk(s) && s.flow.ProcessThread? && status != Running
    ensures var t := Leave(s, tf, status);
            QueuesOk(t) && FlowOk(t) && t.fault == s.fault
  {
    var t := Leave(s, tf, status);
    var p := s.current.value;
    assert s.running[0] == p;
    QueueDrop(s.procs, s.running, Running, p, t.procs);
    if status.Ready? {
      QueueAdd(s.procs, s.ready, Ready, p, t.procs);
      QueueKept(s.procs, s.blocking, Blocking, p, t.procs);
    } else {
      QueueAdd(s.procs, s.blocking, Blocking, p, t.procs);
      QueueKept(s.procs, s.ready, Ready, p, t.procs);
    }
  }

  // ---------------------------------------------------------------- the timer

  ghost predicate Due(s: State, i: nat, p: nat)
    requires i <= |s.sleeping|
  {
    Clock(1, p) in s.sleeping[i..]
  }

  /** The state of the for_each between clocks `i - 1` and `i`. */
  ghost predicate TickOk(s: State, i: nat) {
    && i <= |s.sleeping|
    && QueuesOk(s) && FlowOk(s) && ClocksDistinct(s.sleeping) && s.fault.None?
    && (forall j :: i <= j < |s.sleeping| ==> s.sleeping[j].process in s.blocking)
    && (forall j :: 0 <= j < i && Counting(s.sleeping[j]) ==> s.sleeping[j].process in s.blocking)
  }

  ghost predicate SameContexts(before: seq<Process>, after: seq<Process>) {
    |before| == |after| && forall p :: 0 <= p < |before| ==> after[p].context == before[p].context
  }

  function Aged(c: Clock): Clock { c.(countDown := c.countDown - 1) }

  /** The body of the for_each at clock `i`. */
  function TickOne(s: State, i: nat): State
    requires i < |s.sleeping|
  {
    var c := s.sleeping[i];
    var aged := s.(sleeping := s.sleeping[i := Aged(c)]);
    if c.countDown == 1 then Wake(aged, c.process) else aged
  }

  lemma TickFromStep(s: State, i: nat)
    requires i < |s.sleeping| && s.fault.None?
    ensures |TickOne(s, i).sleeping| == |s.sleeping| && TickFrom(s, i) == TickFrom(TickOne(s, i), i + 1)
  {
  }

  lemma TickOneOk(s: State, i: nat)
    requires i < |s.sleeping| && TickOk(s, i)
    ensures var t := TickOne(s, i);
            && TickOk(t, i + 1)
            && t.sleeping == s.sleeping[i := Aged(s.sleeping[i])]
            && (forall p :: p in t.blocking <==> p in s.blocking && s.sleeping[i] != Clock(1, p))
            && t == s.(sleeping := t.sleeping, blocking := t.blocking, ready := t.ready, procs := t.procs)
            && SameContexts(s.procs, t.procs)
  {
    var c := s.sleeping[i];
    var aged := s.(sleeping := s.sleeping[i := Aged(c)]);
    assert QueuesOk(aged);
    if c.countDown == 1 {
      WakeQueues(aged, c.process);
    }
  }

  /** Clocks from `i` on are one lower, those at 1 have woken their process, and no context changed. */
  ghost predicate Ticked(s: State, t: State, i: nat)
    requires i <= |s.sleeping|
  {
    && |t.sleeping| == |s.sleeping|
    && (forall j :: 0 <= j < i ==> t.sleeping[j] == s.sleeping[j])
    && (forall j :: i <= j < |s.sleeping| ==> t.sleeping[j] == Aged(s.sleeping[j]))
    && (forall p :: p in t.blocking <==> p in s.blocking && !Due(s, i, p))
    && t == s.(sleeping := t.sleeping, blocking := t.blocking, ready := t.ready, procs := t.procs)
    && SameContexts(s.procs, t.procs)
  }

  /** The for_each never meets a missing element; it decrements every clock once and moves to the
      ready queue exactly the processes whose clock stood at 1. */
  lemma {:induction false} TickFromOk(s: State, i: nat)
    requires TickOk(s, i)
    ensures TickOk(TickFrom(s, i), |TickFrom(s, i).sleeping|) && Ticked(s, TickFrom(s, i), i)
    decreases |s.sleeping| - i
  {
    if i < |s.sleeping| {
      var next := TickOne(s, i);
      TickOneOk(s, i);
      TickFromOk(next, i + 1);
      TickFromStep(s, i);
      DueStep(s, next, i);
      TickedStep(s, next, TickFrom(next, i + 1), i);
    }
  }

  /** The callback at clock `i`, then the rest. */
  lemma TickedStep(s: State, next: State, t: State, i: nat)
    requires i < |s.sleeping| && next.sleeping == s.sleeping[i := Aged(s.sleeping[i])]
    requires forall p :: p in next.blocking <==> p in s.blocking && s.sleeping[i] != Clock(1, p)
    requires next == s.(sleeping := next.sleeping, blocking := next.blocking, ready := next.ready, procs := next.procs)
    requires SameContexts(s.procs, next.procs)
    requires forall p :: Due(s, i, p) <==> s.sleeping[i] == Clock(1, p) || Due(next, i + 1, p)
    requires Ticked(next, t, i + 1)
    ensures Ticked(s, t, i)
  {
  }

  lemma DueStep(s: State, next: State, i: nat)
    requires i < |s.sleeping| && next.sleeping == s.sleeping[i := Aged(s.sleeping[i])]
    ensures forall p :: Due(s, i, p) <==> s.sleeping[i] == Clock(1, p) || Due(next, i + 1, p)
  {
    assert s.sleeping[i..] == [s.sleeping[i]] + next.sleeping[i + 1..];
  }

  /** Filtering keeps the clocks' order, hence their distinctness. */
  lemma {:induction false} KeepClocksDistinct(clocks: seq<Clock>)
    requires ClocksDistinct(clocks)
    ensures ClocksDistinct(Keep(clocks, Counting))
  {
    if clocks != [] {
      var rest := Keep(clocks[1..], Counting);
      KeepClocksDistinct(clocks[1..]);
      KeepMembers(clocks[1..], Counting);
      assert forall c :: c in rest ==> c.process != clocks[0].process;
      assert ClocksDistinct([clocks[0]] + rest);
    }
  }

  ghost predicate TickEffect(s: State, u: State, kept: seq<Clock>) {
    && (forall p :: p in u.blocking <==> p in s.blocking && Clock(1, p) !in s.sleeping)
    && (forall c {:trigger c in kept} :: c in kept <==> Counting(c) && Clock(c.countDown + 1, c.process) in s.sleeping)
    && u == s.(sleeping := u.sleeping, blocking := u.blocking, ready := u.ready, procs := u.procs)
    && SameContexts(s.procs, u.procs)
  }

  lemma TickClocks(s: State)
    requires Inv(s) && s.fault.None?
    ensures var u := TickFrom(s, 0);
            TickOk(u, |u.sleeping|) && TickEffect(s, u, Keep(u.sleeping, Counting))
  {
    TickFromOk(s, 0);
    var u := TickFrom(s, 0);
    assert s.sleeping[0..] == s.sleeping;
    KeepMembers(u.sleeping, Counting);
    AgedMembers(s.sleeping, u.sleeping);
  }

  lemma FilterInv(s: State, u: State, kept: seq<Clock>)
    requires Inv(s) && s.fault.None? && TickOk(u, |u.sleeping|)
    requires kept == Keep(u.sleeping, Counting) && TickEffect(s, u, kept)
    ensures Inv(u.(sleeping := kept))
  {
    KeepClocksDistinct(u.sleeping);
    forall i | 0 <= i < |kept|
      ensures kept[i].process in u.blocking && s.gets.waiter != Some(kept[i].process)
    {
      var c := kept[i];
      assert c in kept;
      ClockProcess(s, c.countDown + 1, c.process);
    }
    if s.gets.waiter.Some? {
      assert Clock(1, s.gets.waiter.value) !in s.sleeping;
    }
  }

  /** A whole tick: clocks above 1 go down by one, clocks at 1 wake their process, the rest vanish. */
  lemma TickInv(s: State)
    requires Inv(s) && s.fault.None?
    ensures Inv(Tick(s)) && Tick(s).fault.None? && TickEffect(s, Tick(s), Tick(s).sleeping)
  {
    TickClocks(s);
    var u := TickFrom(s, 0);
    FilterInv(s, u, Keep(u.sleeping, Counting));
  }

  /** Under the invariant a process has one clock at most, is blocked, and is not the reader. */
  lemma ClockProcess(s: State, n: int, p: nat)
    requires Inv(s) && Clock(n, p) in s.sleeping
    ensures p in s.blocking && s.gets.waiter != Some(p)
    ensures forall m :: Clock(m, p) in s.sleeping ==> m == n
  {
  }

  lemma AgedMembers(before: seq<Clock>, after: seq<Clock>)
    requires |before| == |after|
    requires forall j :: 0 <= j < |before| ==> after[j] == Aged(before[j])
    ensures forall c: Clock :: c in after <==> Clock(c.countDown + 1, c.process) in before
  {
    forall c: Clock | Clock(c.countDown + 1, c.process) in before ensures c in after {
      var j :| 0 <= j < |before| && before[j] == Clock(c.countDown + 1, c.process);
      assert after[j] == c;
    }
  }

  // ---------------------------------------------------------------- each step keeps Inv

  lemma TimerInv(s: State, tf: TrapFrame)
    requires Inv(s) && s.fault.None?
    ensures Inv(TimerInterrupt(s, tf)) && TimerInterrupt(s, tf).fault.None?
  {
    TickInv(s);
    var t := Tick(s);
    if t.flow.ProcessThread? {
      LeaveQueues(t, tf, Ready);
    }
  }

  lemma CompleteGetsInv(s: State, p: nat)
    requires Inv(s.(gets := s.gets.(enabled := true))) && s.fault.None?
    requires s.gets.waiter == Some(p) && !s.gets.enabled && s.gets.count != 0
    ensures var t := CompleteGets(s);
            && Inv(t) && t.fault.None?
            && (forall o :: o in t.blocking <==> o in s.blocking && o != p)
            && p < |s.procs|
            && t == s.(blocking := t.blocking, ready := s.ready + [p], gets := NO_GETS,
                       procs := s.procs[p := Process(Ready, s.procs[p].context.(eax := s.gets.buffer))])
  {
    var context := ContextOf(s.procs, p).(eax := s.gets.buffer);
    var u := s.(procs := SetContext(s.procs, p, context));
    assert QueuesOk(u);
    WakeQueues(u, p);
  }

  lemma FeedInv(s: State, feed: Feed)
    requires Inv(s) && s.fault.None?
    ensures Inv(OnFeed(s, feed))
  {
    if feed.Event? {
      var t := Respond(s, feed.event);
      if s.gets.enabled && !t.gets.enabled {
        if t.gets.count != 0 {
          CompleteGetsInv(t, s.gets.waiter.value);
        }
      }
    }
  }

  lemma SyscallInv(s: State, step: Step)
    requires Inv(s) && s.fault.None? && (step.SysGets? || step.SysSleep?)
    ensures Inv(Next(s, step))
  {
    if s.flow.ProcessThread? {
      LeaveQueues(s, step.tf, Blocking);
      var p := s.current.value;
      assert p in s.running;
      assert p !in s.blocking;
    }
  }

  lemma DispatchInv(s: State, kernel: Context)
    requires Inv(s) && s.fault.None?
    ensures Inv(DispatchNext(s, kernel))
  {
    if s.flow.KernelThread? && s.ready != [] {
      var p := s.ready[0];
      var t := DispatchNext(s, kernel);
      assert Without(s.ready, p) == s.ready[1..];
      assert p in s.ready;
      QueueDrop(s.procs, s.ready, Ready, p, t.procs);
      QueueAdd(s.procs, s.running, Running, p, t.procs);
      QueueKept(s.procs, s.blocking, Blocking, p, t.procs);
    }
  }

  lemma ExecInv(s: State, entry: U32, pageDirectory: U32)
    requires Inv(s) && s.fault.None?
    ensures Inv(ExecProcess(s, entry, pageDirectory))
  {
    var t := ExecProcess(s, entry, pageDirectory);
    if |t.procs| > |s.procs| {
      var p := |s.procs|;
      QueueAdd(s.procs, s.ready, Ready, p, t.procs);
      QueueKept(s.procs, s.running, Running, p, t.procs);
      QueueKept(s.procs, s.blocking, Blocking, p, t.procs);
    }
  }

  /** Every step from every invariant state, with any arguments, keeps the invariant: each process
      is on exactly the queue its status names, and no `remove` meets a missing element. */
  lemma NextInv(s: State, step: Step)
    requires Inv(s)
    ensures Inv(Next(s, step))
  {
    if s.fault.None? {
      match step
      case Exec(_, entry, pageDirectory) => ExecInv(s, entry, pageDirectory);
      case Dispatch(kernel) => DispatchInv(s, kernel);
      case Timer(tf) => TimerInv(s, tf);
      case Key(data) => FeedInv(s, FeedByte(s.scanCode, data));
      case SysGets(_) => SyscallInv(s, step);
      case SysSleep(_) => SyscallInv(s, step);
    }
  }

  /** Hence in every run. */
  lemma {:induction false} RunInv(s: State, steps: seq<Step>)
    requires Inv(s)
    ensures Inv(Run(s, steps))
    decreases |steps|
  {
    if steps != [] {
      NextInv(s, steps[0]);
      RunInv(Next(s, steps[0]), steps[1..]);
    }
  }
}
