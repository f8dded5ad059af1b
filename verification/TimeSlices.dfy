/** How long processes that never block can run. One alone uses up a record with every dispatch and
    every preemption; two leave, with every dispatch, a free block that nothing merges with
    (src/memory_management.cpp:40-113). */
module TimeSlices {
  import opened Words
  import opened Seqs
  import opened Contexts
  import opened Scheduler
  import opened SchedulerNodes
  import opened NodeMemory
  import opened SchedulerMachine
  import H = HeapModel
  import M = MachineTheorems
  import R = SchedulerRuns

  // ---------------------------------------------------------------- the allocator

  /** Nothing follows the block: it becomes a new free-table entry, or the table is full. */
  lemma FreeAppends(s: H.State, p: int)
    requires H.Inv(s) && !s.halted && H.LiveAt(s, p)
    requires forall i :: 0 <= i < |s.free| ==> s.free[i].start != H.RecordAt(s, p).end
    ensures H.Free(s, p).halted <==> |s.free| == H.FREE_TABLE
    ensures !H.Free(s, p).halted ==> H.Free(s, p).free == s.free + [H.RecordAt(s, p)]
    ensures |H.Free(s, p).records| == |s.records|
  {
  }

  /** The first free block follows it: they merge. */
  lemma FreeMergesFirst(s: H.State, p: int)
    requires H.Inv(s) && !s.halted && H.LiveAt(s, p) && s.free != []
    requires s.free[0].start == H.RecordAt(s, p).end
    ensures var a, b := H.RecordAt(s, p), s.free[0];
            && !H.Free(s, p).halted
            && H.Free(s, p).free == s.free[0 := b.(start := a.start, size := b.size + a.size)]
    ensures |H.Free(s, p).records| == |s.records|
  {
    assert H.StartsAt(s.free[0], H.RecordAt(s, p).end);
  }

  lemma MallocFirst(s: H.State, size: H.Size)
    requires H.Inv(s) && !s.halted && s.free != [] && s.free[0].size >= H.RoundUp(size)
    requires |s.records| < H.RECORD_TABLE
    ensures var (t, p) := H.Malloc(s, size);
            var b, n := s.free[0], H.RoundUp(size);
            && !t.halted && p == Some(b.start) && t.free == s.free[0 := b.(start := b.start + n, size := b.size - n)]
            && |t.records| == |s.records| + 1
  {
    assert H.Fits(s.free[0], H.RoundUp(size));
  }

  ghost predicate NodeAt(s: H.State, p: int) {
    H.LiveAt(s, p) && H.RecordAt(s, p) == H.Block(p, p + 8, 8, true)
  }

  // ---------------------------------------------------------------- two processes

  /** Two ready nodes, the second right before the first free block, and no free block right behind the
      first node. */
  ghost predicate Slicing(m: Mem) {
    && MemOk(m) && |m.ready| == 2 && m.running == [] && m.heap.free != []
    && var u, v, free := m.ready[0], m.ready[1], m.heap.free;
    && u < v && NodeAt(m.heap, u) && NodeAt(m.heap, v) && free[0].start == v + 8
    && forall i :: 1 <= i < |free| ==> free[i].start < v && free[i].start != u + 8
  }

  const ENTER: seq<NodeOp> := [Delete(ReadyQ, 0), Insert(RunningQ)]
  const LEAVE: seq<NodeOp> := [Delete(RunningQ, 0), Insert(ReadyQ)]

  /** Place for n more records, and for `bytes` in the first free block. */
  predicate Spare(s: H.State, n: nat, bytes: nat) {
    |s.records| + n <= H.RECORD_TABLE && s.free != [] && s.free[0].size >= bytes
  }

  /** pop_front of the first node. */
  lemma PopSlice(m: Mem)
    requires Slicing(m)
    ensures var t := Do(m, Delete(ReadyQ, 0));
            && (t.heap.halted <==> |m.heap.free| == H.FREE_TABLE)
            && (!t.heap.halted ==>
                  && MemOk(t) && t.ready == [m.ready[1]] && t.running == [] && |t.heap.records| == |m.heap.records|
                  && NodeAt(t.heap, m.ready[1])
                  && t.heap.free == m.heap.free + [H.Block(m.ready[0], m.ready[0] + 8, 8, true)])
  {
    var u, v, free := m.ready[0], m.ready[1], m.heap.free;
    assert H.WellFormed(H.RecordAt(m.heap, u)) && H.WellFormed(H.RecordAt(m.heap, v));
    assert forall i :: 0 <= i < |free| ==> free[i].start != u + 8;
    FreeAppends(m.heap, u);
    if !H.Free(m.heap, u).halted {
      DeleteOk(m, ReadyQ, 0);
      H.FreeRecords(m.heap, u, v);
      assert Splice(m.ready, 0) == [v];
    }
  }

  /** push_back on an empty queue of a node cut from the first free block. */
  lemma PushSlice(m: Mem, q: QueueId, p: int)
    requires MemOk(m) && !q.SleepQ? && Spare(m.heap, 1, 8) && NodeAt(m.heap, p)
    ensures var t, b := Do(m, Insert(q)), m.heap.free[0];
            && MemOk(t) && Addresses(t, q) == Addresses(m, q) + [b.start]
            && t == WithQueue(m, q, Addresses(t, q), t.heap)
            && t.heap.free == m.heap.free[0 := b.(start := b.start + 8, size := b.size - 8)]
            && |t.heap.records| == |m.heap.records| + 1
            && NodeAt(t.heap, p) && NodeAt(t.heap, b.start) && p != b.start
  {
    MallocFirst(m.heap, 8);
    InsertOk(m, q);
    H.MallocLive(m.heap, 8);
    H.MallocRecords(m.heap, 8, p);
    H.MallocRecords(m.heap, 8, m.heap.free[0].start);
  }

  /** remove of the running node, which lies right before the first free block. */
  lemma StopSlice(m: Mem, p: int)
    requires MemOk(m) && |m.running| == 1 && m.heap.free != [] && NodeAt(m.heap, p) && NodeAt(m.heap, m.running[0])
    requires m.heap.free[0].start == m.running[0] + 8 && p != m.running[0]
    ensures var t, b := Do(m, Delete(RunningQ, 0)), m.heap.free[0];
            && MemOk(t) && t == m.(running := [], heap := t.heap)
            && t.heap.free == m.heap.free[0 := b.(start := b.start - 8, size := b.size + 8)]
            && |t.heap.records| == |m.heap.records| && NodeAt(t.heap, p)
  {
    var w := m.running[0];
    FreeMergesFirst(m.heap, w);
    DeleteOk(m, RunningQ, 0);
    H.FreeRecords(m.heap, w, p);
    assert Splice(m.running, 0) == [];
  }

  /** The first process enters; with the free table full, nothing goes on. */
  lemma EnterPair(m: Mem)
    requires Slicing(m) && Spare(m.heap, 2, 8)
    ensures var t := DoAll(m, ENTER);
            && (t.heap.halted <==> |m.heap.free| == H.FREE_TABLE)
            && (!t.heap.halted ==> t == Do(Do(m, Delete(ReadyQ, 0)), Insert(RunningQ)))
  {
    var a := Do(m, Delete(ReadyQ, 0));
    DoTwo(m, Delete(ReadyQ, 0), Insert(RunningQ));
    PopSlice(m);
    if !a.heap.halted {
      PushSlice(a, RunningQ, m.ready[1]);
    }
  }

  /** The second node is left ready, and the running one lies behind it. */
  lemma EnterSlice(m: Mem) returns (b: Mem)
    requires Slicing(m) && Spare(m.heap, 2, 8) && |m.heap.free| < H.FREE_TABLE
    ensures b == DoAll(m, ENTER) && MemOk(b) && |b.heap.records| == |m.heap.records| + 1
    ensures var u, v, big := m.ready[0], m.ready[1], m.heap.free[0];
            && b.ready == [v] && b.running == [v + 8] && NodeAt(b.heap, v) && NodeAt(b.heap, v + 8)
            && b.heap.free == (m.heap.free + [H.Block(u, u + 8, 8, true)])
                              [0 := big.(start := v + 16, size := big.size - 8)]
  {
    EnterPair(m);
    PopSlice(m);
    var a := Do(m, Delete(ReadyQ, 0));
    PushSlice(a, RunningQ, m.ready[1]);
    b := Do(a, Insert(RunningQ));
  }

  /** A slice moves the pair of nodes up by one, and the freed first node stays behind in the free
      table. */
  lemma SlicePair(m: Mem, n: nat)
    requires Slicing(m) && Spare(m.heap, 2 * n, 8 * n) && n >= 1 && |m.heap.free| < H.FREE_TABLE
    ensures var t := DoAll(DoAll(m, ENTER), LEAVE);
            Slicing(t) && |t.heap.free| == |m.heap.free| + 1 && Spare(t.heap, 2 * n - 2, 8 * n - 8)
  {
    var v := m.ready[1];
    var b := EnterSlice(m);
    DoTwo(b, Delete(RunningQ, 0), Insert(ReadyQ));
    StopSlice(b, v);
    PushSlice(Do(b, Delete(RunningQ, 0)), ReadyQ, v);
  }

  // ---------------------------------------------------------------- one process alone

  /** One process node, right before the first free block. */
  ghost predicate Lone(m: Mem, q: QueueId) {
    && MemOk(m) && m.heap.free != [] && (q == ReadyQ || q == RunningQ)
    && |Addresses(m, q)| == 1 && Addresses(m, if q == ReadyQ then RunningQ else ReadyQ) == []
    && NodeAt(m.heap, Addresses(m, q)[0]) && m.heap.free[0].start == Addresses(m, q)[0] + 8
  }

  /** Its node goes back into the first free block and is cut from it again: only a record is lost. */
  lemma LoneMoves(m: Mem, q: QueueId, to: QueueId)
    requires Lone(m, q) && to == if q == ReadyQ then RunningQ else ReadyQ
    ensures var t := DoAll(m, [Delete(q, 0), Insert(to)]);
            && (t.heap.halted <==> |m.heap.records| == H.RECORD_TABLE)
            && (!t.heap.halted ==> Lone(t, to) && |t.heap.records| == |m.heap.records| + 1)
  {
    var p := Addresses(m, q)[0];
    var a := Do(m, Delete(q, 0));
    DoTwo(m, Delete(q, 0), Insert(to));
    FreeMergesFirst(m.heap, p);
    DeleteOk(m, q, 0);
    assert Splice(Addresses(m, q), 0) == [];
    H.MallocServedIff(a.heap, 8);
    assert a.heap.free[0].size >= H.RoundUp(8) by {
      assert H.WellFormed(m.heap.free[0]);
    }
    if |m.heap.records| < H.RECORD_TABLE {
      MallocFirst(a.heap, 8);
      InsertOk(a, to);
      H.MallocRecords(a.heap, 8, a.heap.free[0].start);
    }
  }

  // ---------------------------------------------------------------- what a run asks of the allocator

  /** The processes neither block nor end: besides time slices there are only keys and idle ticks. */
  predicate Busy(steps: seq<Step>) { forall step :: step in steps ==> step.Dispatch? || step.Timer? || step.Key? }

  /** `c` processes, all ready, in the kernel thread; or one of them running. */
  predicate Shared(s: State, c: nat) {
    && s.fault.None? && s.sleeping == [] && s.gets == NO_GETS
    && if s.flow.KernelThread? then |s.ready| == c >= 1 && s.running == []
       else |s.ready| + 1 == c && s.current.Some? && s.running == [s.current.value]
  }

  lemma EnterStep(s: State, c: nat, kernel: Context)
    requires Shared(s, c) && s.flow.KernelThread?
    ensures R.Dispatches(s, Dispatch(kernel)) && StepOps(s, Dispatch(kernel)) == ENTER
    ensures var t := Next(s, Dispatch(kernel)); Shared(t, c) && t.flow.ProcessThread?
  {
  }

  lemma LeaveStep(s: State, c: nat, tf: TrapFrame)
    requires Shared(s, c) && s.flow.ProcessThread?
    ensures StepOps(s, Timer(tf)) == LEAVE
    ensures var t := Next(s, Timer(tf)); Shared(t, c) && t.flow.KernelThread?
  {
    var p := s.current.value;
    assert Tick(s) == s && p in s.running;
    assert Position(s.running, p) == 0 && Without(s.running, p) == [];
    assert TickOps(s) == [];
  }

  /** Idle ticks, dispatches while a process runs, and keys touch no node. */
  lemma QuietStep(s: State, c: nat, step: Step)
    requires Shared(s, c)
    requires step.Key? || (if s.flow.KernelThread? then step.Timer? else step.Dispatch?)
    ensures StepOps(s, step) == [] && !R.Dispatches(s, step)
    ensures var t := Next(s, step); t.fault.Some? || (Shared(t, c) && t.flow == s.flow)
  {
    if step.Timer? {
      assert Tick(s) == s && TickOps(s) == [];
    }
  }

  /** The first n moves of dispatch, preemption, dispatch, ... */
  function Moves(n: nat, enter: bool): seq<NodeOp> {
    if n == 0 then [] else (if enter then ENTER else LEAVE) + Moves(n - 1, !enter)
  }

  /** How many of them are dispatches. */
  function Entries(n: nat, enter: bool): nat {
    if n == 0 then 0 else (if enter then 1 else 0) + Entries(n - 1, !enter)
  }

  lemma {:induction false} HalfEnter(n: nat, enter: bool)
    ensures 2 * Entries(n, enter) == n + if n % 2 == 0 then 0 else if enter then 1 else -1
    decreases n
  {
    if n > 0 {
      HalfEnter(n - 1, !enter);
    }
  }

  lemma {:induction false} FaultRunsNothing(s: State, steps: seq<Step>)
    requires s.fault.Some?
    ensures M.RunOps(s, steps) == [] && R.DispatchCount(s, steps) == 0
    decreases |steps|
  {
    if steps != [] {
      FaultRunsNothing(Next(s, steps[0]), steps[1..]);
    }
  }

  /** What one step does in such a run: a move, or nothing. */
  lemma BusyStep(s: State, c: nat, step: Step) returns (moved: bool)
    requires Shared(s, c) && (step.Dispatch? || step.Timer? || step.Key?)
    ensures StepOps(s, step) == if !moved then [] else if s.flow.KernelThread? then ENTER else LEAVE
    ensures R.Dispatches(s, step) <==> moved && s.flow.KernelThread?
    ensures var t := Next(s, step);
            if moved then Shared(t, c) && t.flow != s.flow else t.fault.Some? || (Shared(t, c) && t.flow == s.flow)
  {
    moved := if s.flow.KernelThread? then step.Dispatch? else step.Timer?;
    if !moved {
      QuietStep(s, c, step);
    } else if s.flow.KernelThread? {
      EnterStep(s, c, step.kernel);
    } else {
      LeaveStep(s, c, step.tf);
    }
  }

  lemma JoinOps(s: State, steps: seq<Step>, moved: bool, n: nat, enter: bool)
    requires steps != [] && StepOps(s, steps[0]) == if !moved then [] else if enter then ENTER else LEAVE
    requires M.RunOps(Next(s, steps[0]), steps[1..]) == Moves(n, if moved then !enter else enter)
    ensures M.RunOps(s, steps) == Moves(if moved then n + 1 else n, enter)
  {
    assert M.RunOps(s, steps) == StepOps(s, steps[0]) + M.RunOps(Next(s, steps[0]), steps[1..]);
  }

  lemma JoinCount(s: State, steps: seq<Step>, moved: bool, n: nat, enter: bool)
    requires steps != [] && (R.Dispatches(s, steps[0]) <==> moved && enter)
    requires R.DispatchCount(Next(s, steps[0]), steps[1..]) == Entries(n, if moved then !enter else enter)
    ensures R.DispatchCount(s, steps) == Entries(if moved then n + 1 else n, enter)
  {
  }

  /** Every such run is a sequence of moves, and its dispatches are the entries among them. */
  lemma {:induction false} BusyRun(s: State, c: nat, steps: seq<Step>) returns (n: nat)
    requires Shared(s, c) && Busy(steps)
    ensures M.RunOps(s, steps) == Moves(n, s.flow.KernelThread?)
    ensures R.DispatchCount(s, steps) == Entries(n, s.flow.KernelThread?)
    decreases |steps|
  {
    if steps == [] {
      return 0;
    }
    var t, rest := Next(s, steps[0]), steps[1..];
    assert steps[0] in steps;
    var moved := BusyStep(s, c, steps[0]);
    if t.fault.Some? {
      FaultRunsNothing(t, rest);
      n := 0;
    } else {
      n := BusyRun(t, c, rest);
    }
    JoinOps(s, steps, moved, n, s.flow.KernelThread?);
    JoinCount(s, steps, moved, n, s.flow.KernelThread?);
    n := if moved then n + 1 else n;
  }

  // ---------------------------------------------------------------- how many moves are served

  /** The nodes and the heap after n moves. */
  function After(m: Mem, n: nat, enter: bool): Mem
    decreases n
  {
    if n == 0 then m else After(DoAll(m, if enter then ENTER else LEAVE), n - 1, !enter)
  }

  lemma {:induction false} AfterMoves(m: Mem, n: nat, enter: bool)
    ensures DoAll(m, Moves(n, enter)) == After(m, n, enter)
    decreases n
  {
    if n > 0 {
      var move := if enter then ENTER else LEAVE;
      DoConcat(m, move, Moves(n - 1, !enter));
      AfterMoves(DoAll(m, move), n - 1, !enter);
    }
  }

  lemma {:induction false} HaltedAfter(m: Mem, n: nat, enter: bool)
    requires m.heap.halted
    ensures After(m, n, enter) == m
    decreases n
  {
    if n > 0 {
      HaltSticks(m, if enter then ENTER else LEAVE);
      HaltedAfter(m, n - 1, !enter);
    }
  }

  lemma {:induction false} LoneMany(m: Mem, n: nat, enter: bool)
    requires Lone(m, if enter then ReadyQ else RunningQ)
    ensures After(m, n, enter).heap.halted <==> |m.heap.records| + n > H.RECORD_TABLE
    decreases n
  {
    if n > 0 {
      var t := DoAll(m, if enter then ENTER else LEAVE);
      LoneMoves(m, if enter then ReadyQ else RunningQ, if enter then RunningQ else ReadyQ);
      if t.heap.halted {
        HaltedAfter(t, n - 1, !enter);
      } else {
        LoneMany(t, n - 1, !enter);
      }
    }
  }

  /** Two nodes to slice, and the free table full after `left - 1` more dispatches. */
  ghost predicate Paired(m: Mem, left: nat) {
    Slicing(m) && |m.heap.free| + left == H.FREE_TABLE + 1 && left >= 1 && Spare(m.heap, 2 * left, 8 * left)
  }

  /** A whole slice, with room for another. */
  lemma PairSlice(m: Mem, n: nat, left: nat) returns (t: Mem)
    requires Paired(m, left) && n >= 2 && left >= 2
    ensures After(m, n, true) == After(t, n - 2, true)
    ensures Paired(t, left - 1)
  {
    SlicePair(m, left);
    t := DoAll(DoAll(m, ENTER), LEAVE);
  }

  /** The last dispatch: served, or not when the free table is full. */
  lemma PairEnd(m: Mem, n: nat, left: nat) returns (end: Mem)
    requires Paired(m, left) && (n <= 1 || left == 1)
    ensures end == After(m, n, true) && (end.heap.halted <==> n >= 1 && left == 1)
  {
    if n == 0 {
      return m;
    }
    EnterPair(m);
    var a := DoAll(m, ENTER);
    if a.heap.halted {
      HaltedAfter(a, n - 1, false);
    }
    return a;
  }

  /** The free table grows by one entry a slice, to its end. */
  lemma {:induction false} PairMany(m: Mem, n: nat, left: nat) returns (end: Mem)
    requires Paired(m, left)
    ensures end == After(m, n, true) && (end.heap.halted <==> n + 1 >= 2 * left)
    decreases n
  {
    if n <= 1 || left == 1 {
      end := PairEnd(m, n, left);
    } else {
      var t := PairSlice(m, n, left);
      end := PairMany(t, n - 2, left - 1);
    }
  }

  // ---------------------------------------------------------------- from boot

  lemma CutBlock(m: Mem, size: H.Size, p: int)
    requires MemOk(m) && 1 <= size <= WORD - 8 && Spare(m.heap, 1, H.RoundUp(size))
    ensures var t, b, n := Do(m, Block(size)), m.heap.free[0], H.RoundUp(size);
            && MemOk(t) && t == m.(heap := t.heap)
            && t.heap.free == m.heap.free[0 := b.(start := b.start + n, size := b.size - n)]
            && |t.heap.records| == |m.heap.records| + 1
            && (NodeAt(m.heap, p) ==> NodeAt(t.heap, p))
  {
    MallocFirst(m.heap, size);
    DoOk(m, Block(size));
    H.MallocRecords(m.heap, size, p);
  }

  lemma CutNode(m: Mem, p: int)
    requires MemOk(m) && Spare(m.heap, 1, 8)
    ensures var t, b := Do(m, Insert(ReadyQ)), m.heap.free[0];
            && MemOk(t) && t == m.(ready := m.ready + [b.start], heap := t.heap)
            && t.heap.free == m.heap.free[0 := b.(start := b.start + 8, size := b.size - 8)]
            && |t.heap.records| == |m.heap.records| + 1
            && NodeAt(t.heap, b.start) && (NodeAt(m.heap, p) ==> NodeAt(t.heap, p))
  {
    MallocFirst(m.heap, 8);
    InsertOk(m, ReadyQ);
    H.MallocRecords(m.heap, 8, p);
    H.MallocRecords(m.heap, 8, m.heap.free[0].start);
  }

  /** The blocks and the node of an execv, cut from the first free block. */
  lemma ThreeCuts(m: Mem, file: FileSize, p: int)
    requires MemOk(m) && file <= 0x100_0000 && Spare(m.heap, 3, 0x200_0000)
    ensures var t, b := Do(Do(Do(m, Block(file)), Block(PROCESS_SIZE)), Insert(ReadyQ)), m.heap.free[0];
            && MemOk(t) && Spare(t.heap, 0, 0) && |t.heap.free| == |m.heap.free|
            && |t.heap.records| == |m.heap.records| + 3
            && t.heap.free[0].start >= b.start + 8 && t.heap.free[0].size >= b.size - 0x100_1000
            && t == m.(ready := m.ready + [t.heap.free[0].start - 8], heap := t.heap)
            && NodeAt(t.heap, t.heap.free[0].start - 8) && (NodeAt(m.heap, p) ==> NodeAt(t.heap, p))
  {
    H.RoundUpProps(file);
    CutBlock(m, file, p);
    var a := Do(m, Block(file));
    CutBlock(a, PROCESS_SIZE, p);
    CutNode(Do(a, Block(PROCESS_SIZE)), p);
  }

  /** Two of them leave two ready nodes to slice. */
  lemma TwoCuts(m0: Mem, file1: FileSize, file2: FileSize) returns (m: Mem, t: Mem)
    requires MemOk(m0) && m0.ready == [] && m0.running == [] && |m0.heap.free| == 1
    requires file1 <= 0x100_0000 && file2 <= 0x100_0000 && Spare(m0.heap, 2054, 0x400_0000)
    ensures m == Do(Do(Do(m0, Block(file1)), Block(PROCESS_SIZE)), Insert(ReadyQ))
    ensures t == Do(Do(Do(m, Block(file2)), Block(PROCESS_SIZE)), Insert(ReadyQ))
    ensures Slicing(t) && |t.heap.free| == 1 && Spare(t.heap, 2048, 8192)
  {
    ThreeCuts(m0, file1, 0);
    m := Do(Do(Do(m0, Block(file1)), Block(PROCESS_SIZE)), Insert(ReadyQ));
    t := SecondCut(m, file2, m.ready[0]);
    TwoNodes(t);
  }

  lemma SecondCut(m: Mem, file: FileSize, p: int) returns (t: Mem)
    requires MemOk(m) && file <= 0x100_0000 && Spare(m.heap, 3, 0x200_0000) && NodeAt(m.heap, p)
    ensures t == Do(Do(Do(m, Block(file)), Block(PROCESS_SIZE)), Insert(ReadyQ))
    ensures MemOk(t) && |t.heap.free| == |m.heap.free| && |t.heap.records| == |m.heap.records| + 3
    ensures t.heap.free != [] && t.heap.free[0].start >= m.heap.free[0].start + 8
    ensures t.heap.free[0].size >= m.heap.free[0].size - 0x100_1000
    ensures t.running == m.running && t.ready == m.ready + [t.heap.free[0].start - 8]
    ensures NodeAt(t.heap, t.heap.free[0].start - 8) && NodeAt(t.heap, p)
  {
    t := Do(Do(Do(m, Block(file)), Block(PROCESS_SIZE)), Insert(ReadyQ));
    ThreeCuts(m, file, p);
  }

  lemma TwoNodes(t: Mem)
    requires MemOk(t) && |t.ready| == 2 && t.running == [] && |t.heap.free| == 1
    requires t.heap.free[0].start == t.ready[1] + 8 && t.ready[0] < t.ready[1]
    requires NodeAt(t.heap, t.ready[0]) && NodeAt(t.heap, t.ready[1])
    ensures Slicing(t)
  {
  }

  lemma OneStarted(a: Step)
    requires a.Exec?
    ensures Shared(Next(BOOT, a), 1) && Next(BOOT, a).flow.KernelThread? && Next(BOOT, a).gdtIndex == 6
  {
  }

  lemma TwoStarted(s: State, b: Step)
    requires b.Exec? && Shared(s, 1) && s.flow.KernelThread? && s.gdtIndex == 6
    ensures Shared(Next(s, b), 2) && Next(s, b).flow.KernelThread?
  {
  }

  /** One program of at most 16 MB, alone: whatever keys and idle ticks come between its time slices, the
      machine stops at the 5117th dispatch, with the record table full. */
  lemma OneProcessHalts(a: Step, steps: seq<Step>)
    requires a.Exec? && a.file <= 0x100_0000 && Busy(steps)
    ensures OutOfMemory(MachineRun(START, [a] + steps)) <==> R.DispatchCount(Next(BOOT, a), steps) >= 5117
  {
    var s := Next(BOOT, a);
    StartOk();
    BootMem();
    OneStarted(a);
    var n := BusyRun(s, 1, steps);
    M.RunIsOps(START, [a] + steps);
    assert ([a] + steps)[1..] == steps;
    DoConcat(BOOT_MEM, ExecOps(BOOT, a.file), M.RunOps(s, steps));
    ExecAllOps(BOOT, BOOT_MEM, a.file);
    ThreeCuts(BOOT_MEM, a.file, 0);
    HalfEnter(n, true);
    AfterMoves(DoAll(BOOT_MEM, ExecOps(BOOT, a.file)), n, true);
    LoneMany(DoAll(BOOT_MEM, ExecOps(BOOT, a.file)), n, true);
  }

  /** Two programs of at most 16 MB that never block: whatever keys and idle ticks come between their time
      slices, the machine stops at the 1024th dispatch, with the free table full. */
  lemma TwoProcessesHalt(a: Step, b: Step, steps: seq<Step>)
    requires a.Exec? && b.Exec? && a.file <= 0x100_0000 && b.file <= 0x100_0000 && Busy(steps)
    ensures OutOfMemory(MachineRun(START, [a, b] + steps))
            <==> R.DispatchCount(Next(Next(BOOT, a), b), steps) >= 1024
  {
    var s1 := Next(BOOT, a);
    var s2 := Next(s1, b);
    StartOk();
    BootMem();
    OneStarted(a);
    TwoStarted(s1, b);
    var n := BusyRun(s2, 2, steps);
    M.RunIsOps(START, [a, b] + steps);
    RunTwoOps(BOOT, a, b, steps);
    TwoExecs(BOOT_MEM, a.file, b.file, s1, Moves(n, true));
    var m1, m2 := TwoCuts(BOOT_MEM, a.file, b.file);
    HalfEnter(n, true);
    AfterMoves(m2, n, true);
    var end := PairMany(m2, n, 1024);
  }

  lemma RunTwoOps(s: State, a: Step, b: Step, rest: seq<Step>)
    ensures M.RunOps(s, [a, b] + rest)
            == StepOps(s, a) + (StepOps(Next(s, a), b) + M.RunOps(Next(Next(s, a), b), rest))
  {
    var steps := [a, b] + rest;
    assert steps[1..] == [b] + rest && steps[1..][1..] == rest;
  }

  lemma TwoExecs(m: Mem, file1: FileSize, file2: FileSize, s1: State, rest: seq<NodeOp>)
    requires s1.flow.KernelThread? && s1.gdtIndex == 6
    ensures var m1 := Do(Do(Do(m, Block(file1)), Block(PROCESS_SIZE)), Insert(ReadyQ));
            var m2 := Do(Do(Do(m1, Block(file2)), Block(PROCESS_SIZE)), Insert(ReadyQ));
            DoAll(m, ExecOps(BOOT, file1) + (ExecOps(s1, file2) + rest)) == DoAll(m2, rest)
  {
    var m1 := DoAll(m, ExecOps(BOOT, file1));
    DoConcat(m, ExecOps(BOOT, file1), ExecOps(s1, file2) + rest);
    DoConcat(m1, ExecOps(s1, file2), rest);
    ExecAllOps(BOOT, m, file1);
    ExecAllOps(s1, m1, file2);
  }
}
