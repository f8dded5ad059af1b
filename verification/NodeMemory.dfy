/** The heap under the queues: every insertion is one malloc of a node, every removal one free of it
    (src/linked_list.h, src/memory_management.cpp). */
module NodeMemory {
  import opened Words
  import opened Seqs
  import H = HeapModel

  datatype QueueId = ReadyQ | RunningQ | BlockingQ | SleepQ

  /** sizeof(Node): a process pointer, or a 64-bit count and a process pointer, and the link. */
  function NodeSize(q: QueueId): H.Size { if q.SleepQ? then 16 else 8 }

  datatype NodeOp =
    | Insert(q: QueueId)
    | Delete(q: QueueId, k: nat)    // the node at position k of the queue
    | Block(size: H.Size)           // a malloc of execv's own

  /** Addresses of the queues' nodes, front to back, and the heap they come from. */
  datatype Mem = Mem(ready: seq<int>, running: seq<int>, blocking: seq<int>, sleeping: seq<int>, heap: H.State)

  function Addresses(m: Mem, q: QueueId): seq<int> {
    match q
    case ReadyQ => m.ready
    case RunningQ => m.running
    case BlockingQ => m.blocking
    case SleepQ => m.sleeping
  }

  function WithQueue(m: Mem, q: QueueId, nodes: seq<int>, heap: H.State): Mem {
    match q
    case ReadyQ => m.(ready := nodes, heap := heap)
    case RunningQ => m.(running := nodes, heap := heap)
    case BlockingQ => m.(blocking := nodes, heap := heap)
    case SleepQ => m.(sleeping := nodes, heap := heap)
  }

  /** The node's address joins the queue once malloc has returned it. */
  function InsertNode(m: Mem, q: QueueId): Mem {
    var (heap, p) := H.Malloc(m.heap, NodeSize(q));
    WithQueue(m, q, if p.Some? then Addresses(m, q) + [p.value] else Addresses(m, q), heap)
  }

  function DeleteNode(m: Mem, q: QueueId, k: nat): Mem {
    var nodes := Addresses(m, q);
    if k < |nodes| then WithQueue(m, q, Splice(nodes, k), H.Free(m.heap, nodes[k])) else m
  }

  /** An insertion, given what malloc returned. */
  lemma InsertIs(m: Mem, q: QueueId, heap: H.State, node: Option<int>)
    requires !m.heap.halted && (heap, node) == H.Malloc(m.heap, NodeSize(q))
    ensures Do(m, Insert(q))
            == WithQueue(m, q, if node.Some? then Addresses(m, q) + [node.value] else Addresses(m, q), heap)
    ensures node.None? <==> heap.halted
  {
  }

  /** What a node takes: 8 bytes for a process pointer and a link, 16 for a clock and a link. */
  lemma NodeBytes(m: Mem, q: QueueId)
    requires !m.heap.halted
    ensures Do(m, Insert(q)).heap == H.Malloc(m.heap, if q == SleepQ then 16 else 8).0
  {
  }

  function Do(m: Mem, op: NodeOp): Mem {
    if m.heap.halted then m
    else match op
      case Insert(q) => InsertNode(m, q)
      case Delete(q, k) => DeleteNode(m, q, k)
      case Block(size) => m.(heap := H.Malloc(m.heap, size).0)
  }

  function DoAll(m: Mem, ops: seq<NodeOp>): Mem
    decreases |ops|, m    // with `m`, so that short constant sequences are not unrolled
  {
    if ops == [] then m else DoAll(Do(m, ops[0]), ops[1..])
  }

  /** The removals of a filter over the sleep queue, whose kept elements stay at positions 0 to k - 1. */
  function DropOps<T>(clocks: seq<T>, keep: T -> bool, k: nat): seq<NodeOp> {
    if clocks == [] then []
    else if keep(clocks[0]) then DropOps(clocks[1..], keep, k + 1)
    else [Delete(SleepQ, k)] + DropOps(clocks[1..], keep, k)
  }

  lemma {:induction false} DoConcat(m: Mem, a: seq<NodeOp>, b: seq<NodeOp>)
    ensures DoAll(m, a + b) == DoAll(DoAll(m, a), b)
    decreases |a|
  {
    if a == [] {
      assert a + b == b;
    } else {
      assert (a + b)[1..] == a[1..] + b;
      DoConcat(Do(m, a[0]), a[1..], b);
    }
  }

  lemma DoOne(m: Mem, op: NodeOp)
    ensures DoAll(m, [op]) == Do(m, op)
  {
    assert [op][1..] == [];
  }

  lemma DoTwo(m: Mem, a: NodeOp, b: NodeOp)
    ensures DoAll(m, [a, b]) == Do(Do(m, a), b)
  {
    assert [a, b][1..] == [b];
    DoOne(Do(m, a), b);
  }

  lemma {:induction false} HaltSticks(m: Mem, ops: seq<NodeOp>)
    requires m.heap.halted
    ensures DoAll(m, ops) == m
    decreases |ops|
  {
    if ops != [] {
      HaltSticks(Do(m, ops[0]), ops[1..]);
    }
  }

  // ---------------------------------------------------------------- no node is shared or freed twice

  function Nodes(m: Mem): multiset<int> {
    multiset(m.ready) + multiset(m.running) + multiset(m.blocking) + multiset(m.sleeping)
  }

  /** Every queue node is a live heap block of its own. */
  ghost predicate Own(m: Mem) {
    forall a {:trigger Nodes(m)[a]} :: Nodes(m)[a] <= if H.LiveAt(m.heap, a) then 1 else 0
  }

  ghost predicate MemOk(m: Mem) { H.Inv(m.heap) && H.NoEmptyLive(m.heap) && !m.heap.halted && Own(m) }

  /** A size that malloc can round and that is not empty. */
  predicate Sized(op: NodeOp) { op.Block? ==> 1 <= op.size <= WORD - 8 }

  predicate AllSized(ops: seq<NodeOp>) { forall op :: op in ops ==> Sized(op) }

  lemma InsertOk(m: Mem, q: QueueId)
    requires MemOk(m) && !Do(m, Insert(q)).heap.halted
    ensures var t := Do(m, Insert(q));
            && MemOk(t) && |t.heap.records| == |m.heap.records| + 1 && |t.heap.free| == |m.heap.free|
            && |Addresses(t, q)| == |Addresses(m, q)| + 1
  {
    var (heap, p) := H.Malloc(m.heap, NodeSize(q));
    H.MallocLive(m.heap, NodeSize(q));
    InsertNodes(m, q, p.value);
    OwnAfterMalloc(m, Do(m, Insert(q)), p.value);
  }

  lemma SpliceCount(s: seq<int>, k: nat)
    requires k < |s|
    ensures multiset(s) == multiset(Splice(s, k)) + multiset{s[k]}
  {
    assert s == s[..k] + ([s[k]] + s[k + 1..]);
  }

  lemma NodeLive(m: Mem, q: QueueId, k: nat)
    requires MemOk(m) && k < |Addresses(m, q)|
    ensures H.LiveAt(m.heap, Addresses(m, q)[k])
  {
    var a := Addresses(m, q)[k];
    assert a in multiset(Addresses(m, q));
    assert Nodes(m)[a] >= 1;
  }

  lemma DeleteOk(m: Mem, q: QueueId, k: nat)
    requires MemOk(m) && k < |Addresses(m, q)| && !Do(m, Delete(q, k)).heap.halted
    ensures var t := Do(m, Delete(q, k));
            && MemOk(t) && |t.heap.records| == |m.heap.records| && |t.heap.free| <= |m.heap.free| + 1
            && |Addresses(t, q)| == |Addresses(m, q)| - 1
  {
    var nodes := Addresses(m, q);
    var p := nodes[k];
    NodeLive(m, q, k);
    H.FreeLive(m.heap, p);
    DeleteNodes(m, q, k);
    OwnAfterFree(m, Do(m, Delete(q, k)), p);
  }

  lemma DeleteNodes(m: Mem, q: QueueId, k: nat)
    requires !m.heap.halted && k < |Addresses(m, q)|
    ensures var t := Do(m, Delete(q, k));
            && t.heap == H.Free(m.heap, Addresses(m, q)[k])
            && Nodes(m) == Nodes(t) + multiset{Addresses(m, q)[k]}
            && |Addresses(t, q)| == |Addresses(m, q)| - 1
  {
    SpliceCount(Addresses(m, q), k);
  }

  lemma OwnAfterFree(m: Mem, t: Mem, p: int)
    requires Own(m) && Nodes(m) == Nodes(t) + multiset{p}
    requires forall a :: H.LiveAt(t.heap, a) <==> H.LiveAt(m.heap, a) && a != p
    ensures Own(t)
  {
    forall a ensures Nodes(t)[a] <= if H.LiveAt(t.heap, a) then 1 else 0 {
      assert Nodes(m)[a] <= if H.LiveAt(m.heap, a) then 1 else 0;
    }
  }

  lemma OwnAfterMalloc(m: Mem, t: Mem, p: int)
    requires Own(m) && Nodes(t) == Nodes(m) + multiset{p} && !H.LiveAt(m.heap, p)
    requires forall a :: H.LiveAt(t.heap, a) <==> H.LiveAt(m.heap, a) || a == p
    ensures Own(t)
  {
    forall a ensures Nodes(t)[a] <= if H.LiveAt(t.heap, a) then 1 else 0 {
      assert Nodes(m)[a] <= if H.LiveAt(m.heap, a) then 1 else 0;
    }
  }

  lemma InsertNodes(m: Mem, q: QueueId, p: int)
    requires !m.heap.halted && H.Malloc(m.heap, NodeSize(q)).1 == Some(p)
    ensures var t := Do(m, Insert(q));
            && t.heap == H.Malloc(m.heap, NodeSize(q)).0
            && Nodes(t) == Nodes(m) + multiset{p}
            && |Addresses(t, q)| == |Addresses(m, q)| + 1
  {
    assert multiset(Addresses(m, q) + [p]) == multiset(Addresses(m, q)) + multiset{p};
  }

  /** One operation keeps every node a block of its own. */
  lemma DoOk(m: Mem, op: NodeOp)
    requires MemOk(m) && Sized(op) && !Do(m, op).heap.halted
    ensures var t := Do(m, op);
            && MemOk(t)
            && |t.heap.records| == |m.heap.records| + (if op.Delete? then 0 else 1)
            && |t.heap.free| <= |m.heap.free| + (if op.Delete? then 1 else 0)
  {
    match op
    case Insert(q) => InsertOk(m, q);
    case Delete(q, k) => if k < |Addresses(m, q)| { DeleteOk(m, q, k); }
    case Block(size) =>
      H.MallocLive(m.heap, size);
      var t := Do(m, op);
      assert Nodes(t) == Nodes(m);
      forall a ensures Nodes(t)[a] <= if H.LiveAt(t.heap, a) then 1 else 0 {
        assert Nodes(m)[a] <= if H.LiveAt(m.heap, a) then 1 else 0;
      }
  }

  // ---------------------------------------------------------------- exactly when the allocator can serve

  /** What the next operation finds in the allocator's tables. */
  ghost predicate CanDo(m: Mem, op: NodeOp) {
    match op
    case Insert(q) => H.CanMalloc(m.heap, NodeSize(q))
    case Delete(q, k) => k < |Addresses(m, q)| ==> H.Takes(m.heap, Addresses(m, q)[k])
    case Block(size) => H.CanMalloc(m.heap, size)
  }

  /** Each operation in its turn finds a large enough free block and an unused record, or, when it
      frees, an unused free-table entry or a free block behind the node. */
  ghost predicate Served(m: Mem, ops: seq<NodeOp>)
    decreases |ops|
  {
    ops == [] || (CanDo(m, ops[0]) && Served(Do(m, ops[0]), ops[1..]))
  }

  lemma DoServed(m: Mem, op: NodeOp)
    requires MemOk(m)
    ensures Do(m, op).heap.halted <==> !CanDo(m, op)
  {
    match op
    case Insert(q) => H.MallocServedIff(m.heap, NodeSize(q));
    case Delete(q, k) =>
      if k < |Addresses(m, q)| {
        NodeLive(m, q, k);
        H.FreeHaltsIff(m.heap, Addresses(m, q)[k]);
      }
    case Block(size) => H.MallocServedIff(m.heap, size);
  }

  function Inserts(ops: seq<NodeOp>): nat {
    if ops == [] then 0 else (if ops[0].Insert? then 1 else 0) + Inserts(ops[1..])
  }

  function Blocks(ops: seq<NodeOp>): nat {
    if ops == [] then 0 else (if ops[0].Block? then 1 else 0) + Blocks(ops[1..])
  }

  function Deletes(ops: seq<NodeOp>): nat {
    if ops == [] then 0 else (if ops[0].Delete? then 1 else 0) + Deletes(ops[1..])
  }

  /** A sequence of operations goes through exactly when each is served in turn; then every node is
      still a live block of its own, and one record is used up per insertion and per block. */
  lemma {:induction false} DoAllServed(m: Mem, ops: seq<NodeOp>)
    requires MemOk(m) && AllSized(ops)
    ensures DoAll(m, ops).heap.halted <==> !Served(m, ops)
    ensures Served(m, ops) ==>
              && MemOk(DoAll(m, ops))
              && |DoAll(m, ops).heap.records| == |m.heap.records| + Inserts(ops) + Blocks(ops)
    decreases |ops|
  {
    if ops != [] {
      assert Sized(ops[0]);
      DoServed(m, ops[0]);
      if CanDo(m, ops[0]) {
        DoOk(m, ops[0]);
        DoAllServed(Do(m, ops[0]), ops[1..]);
      } else {
        HaltSticks(Do(m, ops[0]), ops[1..]);
      }
    }
  }

  // ---------------------------------------------------------------- enough room

  function Bytes(op: NodeOp): nat {
    match op
    case Insert(q) => NodeSize(q)
    case Block(size) => H.RoundUp(size)
    case Delete(_, _) => 0
  }

  function AllBytes(ops: seq<NodeOp>): nat {
    if ops == [] then 0 else Bytes(ops[0]) + AllBytes(ops[1..])
  }

  /** Records, free-table entries and bytes of the first free block for the whole sequence. */
  predicate Room(heap: H.State, ops: seq<NodeOp>) {
    && |heap.records| + Inserts(ops) + Blocks(ops) <= H.RECORD_TABLE
    && |heap.free| + Deletes(ops) <= H.FREE_TABLE
    && heap.free != [] && heap.free[0].size >= AllBytes(ops)
  }

  lemma RoomStep(m: Mem, op: NodeOp, rest: seq<NodeOp>)
    requires MemOk(m) && Sized(op) && Room(m.heap, [op] + rest)
    ensures CanDo(m, op) && Room(Do(m, op).heap, rest)
  {
    var ops := [op] + rest;
    assert ops[1..] == rest;
    if op.Delete? {
      if op.k < |Addresses(m, op.q)| {
        NodeLive(m, op.q, op.k);
        DoServed(m, op);
        DoOk(m, op);
        FirstGrows(m.heap, Addresses(m, op.q)[op.k]);
      }
    } else {
      var size := if op.Insert? then NodeSize(op.q) else op.size;
      assert m.heap.free[0].size >= H.RoundUp(size);
      DoServed(m, op);
      DoOk(m, op);
    }
  }

  /** Freeing never shrinks the first free block. */
  lemma FirstGrows(s: H.State, p: int)
    requires H.Inv(s) && s.free != [] && H.LiveAt(s, p) && !H.Free(s, p).halted
    ensures H.Free(s, p).free != [] && H.Free(s, p).free[0].size >= s.free[0].size
  {
    var a := s.records[H.FirstAt(s.records, p, 0)];
    assert H.WellFormed(a);
  }

  /** With that much room the allocator serves everything. */
  lemma {:induction false} RoomServes(m: Mem, ops: seq<NodeOp>)
    requires MemOk(m) && AllSized(ops) && Room(m.heap, ops)
    ensures Served(m, ops)
    decreases |ops|
  {
    if ops != [] {
      assert Sized(ops[0]);
      assert ops == [ops[0]] + ops[1..];
      RoomStep(m, ops[0], ops[1..]);
      DoServed(m, ops[0]);
      DoOk(m, ops[0]);
      RoomServes(Do(m, ops[0]), ops[1..]);
    }
  }

  lemma {:induction false} CountsConcat(a: seq<NodeOp>, b: seq<NodeOp>)
    ensures Inserts(a + b) == Inserts(a) + Inserts(b) && Blocks(a + b) == Blocks(a) + Blocks(b)
    ensures Deletes(a + b) == Deletes(a) + Deletes(b) && AllBytes(a + b) == AllBytes(a) + AllBytes(b)
  {
    if a == [] {
      assert a + b == b;
    } else {
      assert (a + b)[1..] == a[1..] + b;
      CountsConcat(a[1..], b);
    }
  }

  // ---------------------------------------------------------------- the heap at boot

  /** The task state segment, and the four blocks of the allocator's self-test, which stay. */
  const BOOT_MALLOCS: seq<H.Op> :=
    [H.MallocOp(104), H.MallocOp(4), H.MallocOp(4), H.MallocOp(25), H.MallocOp(1)]

  const BOOT_MEM := Mem([], [], [], [], H.Run(H.INITIAL, BOOT_MALLOCS))

  lemma FirstBlock(s: H.State, size: H.Size)
    requires !s.halted && |s.free| == 1 && s.free[0].valid && s.free[0].size >= H.RoundUp(size)
    requires |s.records| < H.RECORD_TABLE
    ensures var t, n, b := H.Apply(s, H.MallocOp(size)), H.RoundUp(size), s.free[0];
            && !t.halted && t.free == [b.(start := b.start + n, size := b.size - n)]
            && |t.records| == |s.records| + 1
  {
    assert H.FirstFit(s.free, H.RoundUp(size), 0) == 0;
  }

  lemma RunFive(s: H.State, a: H.Op, b: H.Op, c: H.Op, d: H.Op, e: H.Op)
    ensures H.Run(s, [a, b, c, d, e]) == H.Apply(H.Apply(H.Apply(H.Apply(H.Apply(s, a), b), c), d), e)
  {
    var s2 := H.Apply(H.Apply(s, a), b);
    assert [a, b, c, d, e][1..] == [b, c, d, e] && [b, c, d, e][1..] == [c, d, e];
    assert H.Run(s, [a, b, c, d, e]) == H.Run(s2, [c, d, e]);
    assert [c, d, e][1..] == [d, e] && [d, e][1..] == [e] && [e][1..] == [];
    assert H.Run(s2, [c, d, e]) == H.Run(H.Apply(s2, c), [d, e]);
    assert H.Run(H.Apply(s2, c), [d, e]) == H.Run(H.Apply(H.Apply(s2, c), d), [e]);
  }

  lemma BootTables()
    ensures var s := H.Run(H.INITIAL, BOOT_MALLOCS);
            && !s.halted && |s.records| == 5
            && s.free == [H.Block(H.HEAP_START + 160, H.HEAP_END, H.HEAP_LENGTH - 160, true)]
  {
    var a := H.Apply(H.INITIAL, H.MallocOp(104));
    var b := H.Apply(a, H.MallocOp(4));
    var c := H.Apply(b, H.MallocOp(4));
    var d := H.Apply(c, H.MallocOp(25));
    FirstBlock(H.INITIAL, 104);
    FirstBlock(a, 4);
    FirstBlock(b, 4);
    FirstBlock(c, 25);
    FirstBlock(d, 1);
    RunFive(H.INITIAL, H.MallocOp(104), H.MallocOp(4), H.MallocOp(4), H.MallocOp(25), H.MallocOp(1));
  }

  /** Boot leaves five records and one free block 160 bytes into the heap. */
  lemma BootMem()
    ensures MemOk(BOOT_MEM) && |BOOT_MEM.heap.records| == 5
    ensures BOOT_MEM.heap.free
            == [H.Block(H.HEAP_START + 160, H.HEAP_END, H.HEAP_LENGTH - 160, true)]
  {
    BootTables();
    BootHistory(BOOT_MALLOCS);
  }

  lemma BootHistory(ops: seq<H.Op>)
    requires !H.Run(H.INITIAL, ops).halted && forall op :: op in ops ==> H.Sized(op)
    ensures H.Inv(H.Run(H.INITIAL, ops)) && H.NoEmptyLive(H.Run(H.INITIAL, ops))
  {
    H.InitialInv();
    H.HistoryInv(H.INITIAL, ops);
    H.HistoryNonEmpty(H.INITIAL, ops);
  }
}
