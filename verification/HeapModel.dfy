/** The first-fit allocator on its two tables (src/memory_management.cpp), and what its history keeps. */
module HeapModel {
  import opened Words
  import opened Seqs

  const FREE_TABLE := 1024
  const RECORD_TABLE := 10240
  const HEAP_START := 0x5900_5000
  const HEAP_LENGTH := 1024 * 1024 * 500
  const HEAP_END := HEAP_START + HEAP_LENGTH

  type Size = U32

  datatype Block = Block(start: int, end: int, size: int, valid: bool)

  /** `free` and `records` are the used prefixes of Free_blocks and Allocated_blocks. */
  datatype State = State(free: seq<Block>, records: seq<Block>, halted: bool)

  const INITIAL := State([Block(HEAP_START, HEAP_END, HEAP_LENGTH, true)], [], false)

  // ---------------------------------------------------------------- the operations

  /** Sizes are uint32_t: the last seven wrap to 0. */
  function RoundUp(size: Size): Size {
    if size % 8 == 0 then size
    else if size + (8 - size % 8) < WORD then size + (8 - size % 8)
    else 0
  }

  predicate Fits(b: Block, size: int) { b.valid && b.size >= size }

  function FirstFit(free: seq<Block>, size: int, i: nat): (k: nat)
    requires i <= |free|
    ensures i <= k <= |free| && (k < |free| ==> Fits(free[k], size))
    ensures forall j :: i <= j < k ==> !Fits(free[j], size)
    decreases |free| - i
  {
    if i == |free| || Fits(free[i], size) then i else FirstFit(free, size, i + 1)
  }

  predicate StartsAt(b: Block, p: int) { b.valid && b.start == p }

  /** First live record, or first free block, that starts at `p`. */
  function FirstAt(blocks: seq<Block>, p: int, i: nat): (k: nat)
    requires i <= |blocks|
    ensures i <= k <= |blocks| && (k < |blocks| ==> StartsAt(blocks[k], p))
    ensures forall j :: i <= j < k ==> !StartsAt(blocks[j], p)
    decreases |blocks| - i
  {
    if i == |blocks| || StartsAt(blocks[i], p) then i else FirstAt(blocks, p, i + 1)
  }

  /** Some live record starts at `p`. */
  predicate LiveAt(s: State, p: int) { FirstAt(s.records, p, 0) < |s.records| }

  /** _malloc_array after rounding; `None` is a fatal. */
  function Carve(s: State, size: int): (State, Option<int>) {
    var k := FirstFit(s.free, size, 0);
    if k == |s.free| then (s.(halted := true), None)
    else
      var b := s.free[k];
      var free := s.free[k := b.(start := b.start + size, size := b.size - size)];
      if |s.records| == RECORD_TABLE then (s.(free := free, halted := true), None)
      else (s.(free := free, records := s.records + [Block(b.start, b.start + size, size, true)]),
            Some(b.start))
  }

  function Malloc(s: State, size: Size): (State, Option<int>) { Carve(s, RoundUp(size)) }

  /** Merge a released block into the first free block that begins where it ends, or append it. */
  function Release(s: State, a: Block): State {
    var k := FirstAt(s.free, a.end, 0);
    if k < |s.free| then
      s.(free := s.free[k := s.free[k].(start := a.start, size := s.free[k].size + a.size)])
    else if |s.free| == FREE_TABLE then s.(halted := true)
    else s.(free := s.free + [a])
  }

  /** _free_array */
  function Free(s: State, p: int): State {
    var k := FirstAt(s.records, p, 0);
    if k == |s.records| then s.(halted := true)
    else Release(s.(records := s.records[k := s.records[k].(valid := false)]), s.records[k])
  }

  // ---------------------------------------------------------------- who owns a byte

  predicate Covers(b: Block, x: int) { b.valid && b.start <= x < b.end }

  function One(b: Block, x: int): nat { if Covers(b, x) then 1 else 0 }

  /** How many of the blocks hold byte `x`. */
  function Owners(blocks: seq<Block>, x: int): nat {
    if blocks == [] then 0 else One(blocks[0], x) + Owners(blocks[1..], x)
  }

  ghost predicate WellFormed(b: Block) {
    && b.start <= b.end && b.size == b.end - b.start
    && b.start % 8 == 0 && b.size % 8 == 0
    && HEAP_START <= b.start && b.end <= HEAP_END
  }

  ghost predicate AllWellFormed(blocks: seq<Block>) {
    forall i :: 0 <= i < |blocks| && blocks[i].valid ==> WellFormed(blocks[i])
  }

  predicate InHeap(x: int) { HEAP_START <= x < HEAP_END }

  /** Every byte of the heap is in exactly one block, free or live; no other byte is in any. */
  ghost predicate Partition(s: State) {
    forall x {:trigger Owners(s.free, x)} ::
      Owners(s.free, x) + Owners(s.records, x) == if InHeap(x) then 1 else 0
  }

  ghost predicate Inv(s: State) {
    && AllWellFormed(s.free) && AllWellFormed(s.records)
    && (forall i :: 0 <= i < |s.free| ==> s.free[i].valid)
    && Partition(s)
    && |s.free| <= FREE_TABLE && |s.records| <= RECORD_TABLE
  }

  // ---------------------------------------------------------------- counting owners

  lemma {:induction false} OwnersConcat(a: seq<Block>, b: seq<Block>, x: int)
    ensures Owners(a + b, x) == Owners(a, x) + Owners(b, x)
  {
    if a == [] {
      assert a + b == b;
    } else {
      assert (a + b)[1..] == a[1..] + b;
      OwnersConcat(a[1..], b, x);
    }
  }

  lemma OwnersUpdate(blocks: seq<Block>, k: nat, b: Block, x: int)
    requires k < |blocks|
    ensures Owners(blocks[k := b], x) == Owners(blocks, x) - One(blocks[k], x) + One(b, x)
    ensures Owners(blocks, x) >= One(blocks[k], x)
  {
    var rest := blocks[k + 1..];
    assert blocks == blocks[..k] + ([blocks[k]] + rest);
    assert blocks[k := b] == blocks[..k] + ([b] + rest);
    OwnersConcat(blocks[..k], [blocks[k]] + rest, x);
    OwnersConcat(blocks[..k], [b] + rest, x);
    assert ([blocks[k]] + rest)[1..] == rest && ([b] + rest)[1..] == rest;
  }

  lemma OwnersAppend(blocks: seq<Block>, b: Block, x: int)
    ensures Owners(blocks + [b], x) == Owners(blocks, x) + One(b, x)
  {
    OwnersConcat(blocks, [b], x);
    assert Owners([b][1..], x) == 0;
  }

  /** Two different blocks over one byte count twice. */
  lemma OwnersTwo(blocks: seq<Block>, i: nat, j: nat, x: int)
    requires i < j < |blocks| && Covers(blocks[i], x) && Covers(blocks[j], x)
    ensures Owners(blocks, x) >= 2
  {
    OwnersUpdate(blocks, i, blocks[i].(valid := false), x);
    OwnersUpdate(blocks[i := blocks[i].(valid := false)], j, blocks[j], x);
  }

  lemma {:induction false} OwnersNone(blocks: seq<Block>, x: int)
    requires Owners(blocks, x) > 0
    ensures exists i :: 0 <= i < |blocks| && Covers(blocks[i], x)
  {
    if Covers(blocks[0], x) {
    } else {
      OwnersNone(blocks[1..], x);
      var i :| 0 <= i < |blocks[1..]| && Covers(blocks[1..][i], x);
      assert Covers(blocks[i + 1], x);
    }
  }

  // ---------------------------------------------------------------- every operation keeps Inv

  lemma InitialInv()
    ensures Inv(INITIAL)
  {
    forall x ensures Owners(INITIAL.free, x) + Owners(INITIAL.records, x) == if InHeap(x) then 1 else 0 {
      assert Owners(INITIAL.free[1..], x) == 0;
    }
  }

  lemma RoundUpProps(size: Size)
    ensures RoundUp(size) % 8 == 0
    ensures size <= RoundUp(size) < size + 8 <==> size <= WORD - 8
    ensures size > WORD - 8 ==> RoundUp(size) == 0
  {
  }

  /** Carving moves exactly the bytes of the new block from free to live. */
  lemma CarveOwners(s: State, size: int, x: int)
    requires size >= 0 && FirstFit(s.free, size, 0) < |s.free| && |s.records| < RECORD_TABLE
    requires AllWellFormed(s.free)
    ensures var (t, p) := Carve(s, size);
            var block := Block(p.value, p.value + size, size, true);
            && Owners(t.free, x) == Owners(s.free, x) - One(block, x)
            && Owners(t.records, x) == Owners(s.records, x) + One(block, x)
  {
    var k := FirstFit(s.free, size, 0);
    var b := s.free[k];
    OwnersUpdate(s.free, k, b.(start := b.start + size, size := b.size - size), x);
    OwnersAppend(s.records, Block(b.start, b.start + size, size, true), x);
  }

  /** Both parts of a carved block are well formed. */
  lemma CarveWellFormed(b: Block, n: int)
    requires WellFormed(b) && 0 <= n <= b.size && n % 8 == 0
    ensures WellFormed(b.(start := b.start + n, size := b.size - n))
    ensures WellFormed(Block(b.start, b.start + n, n, true))
  {
  }

  lemma CarveTables(s: State, n: int)
    requires Inv(s) && n >= 0 && n % 8 == 0 && !Carve(s, n).0.halted
    ensures var t := Carve(s, n).0;
            && AllWellFormed(t.free) && AllWellFormed(t.records)
            && (forall i :: 0 <= i < |t.free| ==> t.free[i].valid)
            && |t.free| == |s.free| && |t.records| == |s.records| + 1 <= RECORD_TABLE
  {
    var k := FirstFit(s.free, n, 0);
    if k < |s.free| {
      CarveWellFormed(s.free[k], n);
    }
  }

  lemma CarveInv(s: State, n: int)
    requires Inv(s) && n >= 0 && n % 8 == 0 && !Carve(s, n).0.halted
    ensures Inv(Carve(s, n).0)
  {
    var t := Carve(s, n).0;
    CarveTables(s, n);
    forall x ensures Owners(t.free, x) + Owners(t.records, x) == if InHeap(x) then 1 else 0 {
      CarveOwners(s, n, x);
      assert Owners(s.free, x) + Owners(s.records, x) == if InHeap(x) then 1 else 0;
    }
  }

  lemma MallocInv(s: State, size: Size)
    requires Inv(s) && !Malloc(s, size).0.halted
    ensures Inv(Malloc(s, size).0)
  {
    RoundUpProps(size);
    CarveInv(s, RoundUp(size));
  }

  /** Releasing a block gives its bytes, and no others, to the free table. */
  lemma ReleaseOwners(s: State, a: Block, x: int)
    requires a.valid && WellFormed(a) && AllWellFormed(s.free) && !Release(s, a).halted
    ensures Owners(Release(s, a).free, x) == Owners(s.free, x) + One(a, x)
  {
    var k := FirstAt(s.free, a.end, 0);
    if k < |s.free| {
      var b := s.free[k];
      OwnersUpdate(s.free, k, b.(start := a.start, size := b.size + a.size), x);
    } else {
      OwnersAppend(s.free, a, x);
    }
  }

  lemma FreeOwners(s: State, p: int, x: int)
    requires AllWellFormed(s.free) && AllWellFormed(s.records) && !Free(s, p).halted
    ensures var k := FirstAt(s.records, p, 0);
            && k < |s.records|
            && Owners(Free(s, p).free, x) == Owners(s.free, x) + One(s.records[k], x)
            && Owners(Free(s, p).records, x) == Owners(s.records, x) - One(s.records[k], x)
  {
    var k := FirstAt(s.records, p, 0);
    var dead := s.records[k].(valid := false);
    OwnersUpdate(s.records, k, dead, x);
    ReleaseOwners(s.(records := s.records[k := dead]), s.records[k], x);
  }

  lemma FreeInv(s: State, p: int)
    requires Inv(s) && !Free(s, p).halted
    ensures Inv(Free(s, p))
  {
    var t := Free(s, p);
    var k := FirstAt(s.records, p, 0);
    var a := s.records[k];
    assert WellFormed(a);
    var j := FirstAt(s.free, a.end, 0);
    assert forall i :: 0 <= i < |t.free| && i != j && i < |s.free| ==> t.free[i] == s.free[i];
    if j < |s.free| {
      assert WellFormed(s.free[j]);
    }
    assert WellFormed(t.free[j]);
    forall x ensures Owners(t.free, x) + Owners(t.records, x) == if InHeap(x) then 1 else 0 {
      FreeOwners(s, p, x);
    }
  }

  // ---------------------------------------------------------------- histories

  datatype Op = MallocOp(size: Size) | FreeOp(p: int)

  function Apply(s: State, op: Op): State {
    if s.halted then s
    else match op
      case MallocOp(size) => Malloc(s, size).0
      case FreeOp(p) => Free(s, p)
  }

  function Run(s: State, ops: seq<Op>): State
    decreases |ops|
  {
    if ops == [] then s else Run(Apply(s, ops[0]), ops[1..])
  }

  lemma {:induction false} HaltSticks(s: State, ops: seq<Op>)
    requires s.halted
    ensures Run(s, ops) == s
    decreases |ops|
  {
    if ops != [] {
      HaltSticks(Apply(s, ops[0]), ops[1..]);
    }
  }

  /** Over any history that does not halt, free and live blocks tile the heap byte for byte. */
  lemma {:induction false} HistoryInv(s: State, ops: seq<Op>)
    requires Inv(s) && !Run(s, ops).halted
    ensures Inv(Run(s, ops))
    ensures forall x {:trigger Owners(Run(s, ops).free, x)} ::
              Owners(Run(s, ops).free, x) + Owners(Run(s, ops).records, x)
              == if 0x5900_5000 <= x < 0x7840_5000 then 1 else 0
    decreases |ops|
  {
    if ops != [] {
      var t := Apply(s, ops[0]);
      if s.halted || t.halted {
        HaltSticks(t, ops[1..]);
      } else {
        match ops[0]
        case MallocOp(size) => MallocInv(s, size);
        case FreeOp(p) => FreeInv(s, p);
      }
      HistoryInv(t, ops[1..]);
    }
  }

  ghost predicate Disjoint(a: Block, b: Block) { a.end <= b.start || b.end <= a.start || a.start == a.end || b.start == b.end }

  /** What `Inv` means block by block: no two valid blocks overlap, and none strays. */
  lemma BlocksDisjoint(s: State, i: nat, j: nat)
    requires Inv(s)
    requires var all := s.free + s.records; i < j < |all| && all[i].valid && all[j].valid
    ensures var all := s.free + s.records; Disjoint(all[i], all[j])
  {
    var all := s.free + s.records;
    var a, b := all[i], all[j];
    assert WellFormed(a) && WellFormed(b);
    if !Disjoint(a, b) {
      var x := if a.start <= b.start then b.start else a.start;
      OwnersTwo(all, i, j, x);
      OwnersConcat(s.free, s.records, x);
    }
  }

  // ---------------------------------------------------------------- what callers get

  /** malloc halts exactly when no free block is large enough or the record table is full. */
  lemma MallocHaltsIff(s: State, size: Size)
    requires Inv(s) && !s.halted
    ensures Malloc(s, size).0.halted
            <==> (forall i :: 0 <= i < |s.free| ==> s.free[i].size < RoundUp(size)) || |s.records| == RECORD_TABLE
  {
    var k := FirstFit(s.free, RoundUp(size), 0);
    if k < |s.free| {
      assert !(s.free[k].size < RoundUp(size));
    }
  }

  /** A successful malloc hands out an 8-aligned block of bytes that were all free, and every byte
      of the request is in it exactly when the size does not wrap. */
  lemma MallocGives(s: State, size: Size)
    requires Inv(s) && !Malloc(s, size).0.halted
    ensures var (t, p) := Malloc(s, size);
            var n := RoundUp(size);
            && p.Some? && p.value % 8 == 0
            && (forall x :: p.value <= x < p.value + n ==> Owners(s.free, x) == 1 && Owners(t.free, x) == 0)
            && (forall x :: !(p.value <= x < p.value + n) ==> Owners(t.free, x) == Owners(s.free, x))
            && (size <= 0xffff_fff8 ==> n % 8 == 0 && size <= n < size + 8)
            && (size > 0xffff_fff8 ==> n == 0)
  {
    var (t, p) := Malloc(s, size);
    var n := RoundUp(size);
    RoundUpProps(size);
    assert WellFormed(s.free[FirstFit(s.free, n, 0)]);
    forall x
      ensures p.value <= x < p.value + n ==> Owners(s.free, x) == 1 && Owners(t.free, x) == 0
      ensures !(p.value <= x < p.value + n) ==> Owners(t.free, x) == Owners(s.free, x)
    {
      CarveOwners(s, n, x);
      assert Owners(s.free, x) + Owners(s.records, x) == if InHeap(x) then 1 else 0;
    }
  }

  /** A pointer names one live block: with sizes that do not round to 0, two live records never start
      at the same address. */
  lemma LiveStartsUnique(s: State, i: nat, j: nat)
    requires Inv(s) && i < j < |s.records|
    requires s.records[i].valid && s.records[j].valid && s.records[i].size > 0 && s.records[j].size > 0
    ensures s.records[i].start != s.records[j].start
  {
    var m := |s.free|;
    BlocksDisjoint(s, m + i, m + j);
    assert WellFormed(s.records[i]) && WellFormed(s.records[j]);
  }

  ghost predicate Releases(s: State, t: State, b: Block) {
    forall x {:trigger Owners(t.free, x)} :: Owners(t.free, x) == Owners(s.free, x) + One(b, x)
  }

  lemma FreeReleasesFirst(s: State, p: int)
    requires Inv(s) && !Free(s, p).halted
    ensures FirstAt(s.records, p, 0) < |s.records|
    ensures Releases(s, Free(s, p), s.records[FirstAt(s.records, p, 0)])
  {
    forall x
      ensures FirstAt(s.records, p, 0) < |s.records|
      ensures Owners(Free(s, p).free, x) == Owners(s.free, x) + One(s.records[FirstAt(s.records, p, 0)], x)
    {
      FreeOwners(s, p, x);
    }
  }

  /** free of a live block's pointer releases exactly that block's bytes, unless an older live record
      that is empty starts at the same address: then it never does. */
  lemma FreeReleasesIff(s: State, i: nat)
    requires Inv(s) && i < |s.records| && s.records[i].valid && s.records[i].size > 0
    requires !Free(s, s.records[i].start).halted
    ensures Releases(s, Free(s, s.records[i].start), s.records[i])
            <==> forall j :: 0 <= j < i && StartsAt(s.records[j], s.records[i].start) ==> s.records[j].size > 0
  {
    var p := s.records[i].start;
    var k := FirstAt(s.records, p, 0);
    var t := Free(s, p);
    FreeReleasesFirst(s, p);
    assert WellFormed(s.records[i]) && WellFormed(s.records[k]);
    if k < i {
      if s.records[k].size > 0 {
        LiveStartsUnique(s, k, i);
      }
      assert Owners(t.free, p) == Owners(s.free, p) + One(s.records[k], p);
    }
  }

  // ---------------------------------------------------------------- malloc, then free

  lemma {:induction false} FirstAtAppend(blocks: seq<Block>, b: Block, p: int, i: nat)
    requires i <= |blocks| && StartsAt(b, p)
    ensures FirstAt(blocks + [b], p, i) == FirstAt(blocks, p, i)
    decreases |blocks| - i
  {
    if i < |blocks| && !StartsAt(blocks[i], p) {
      FirstAtAppend(blocks, b, p, i + 1);
    }
  }

  ghost predicate SameFreeBytes(s: State, t: State) {
    forall x {:trigger Owners(t.free, x)} :: Owners(t.free, x) == Owners(s.free, x)
  }

  ghost function MallocFree(s: State, size: Size): State
    requires Malloc(s, size).1.Some?
  {
    Free(Malloc(s, size).0, Malloc(s, size).1.value)
  }

  /** Some free block begins where the carved block ends, so the block merges back. */
  lemma CarveLeavesNeighbour(s: State, size: Size)
    requires Inv(s) && !Malloc(s, size).0.halted
    ensures var (t, p) := Malloc(s, size);
            p.Some? && FirstAt(t.free, p.value + RoundUp(size), 0) < |t.free|
  {
    var n := RoundUp(size);
    var t := Malloc(s, size).0;
    var k := FirstFit(s.free, n, 0);
    assert StartsAt(t.free[k], s.free[k].start + n);
  }

  lemma RoundTripUnshadowed(s: State, size: Size)
    requires Inv(s) && !Malloc(s, size).0.halted && !LiveAt(s, Malloc(s, size).1.value)
    ensures !MallocFree(s, size).halted && SameFreeBytes(s, MallocFree(s, size))
  {
    var (t, p) := Malloc(s, size);
    var n := RoundUp(size);
    var block := Block(p.value, p.value + n, n, true);
    FirstAtAppend(s.records, block, p.value, 0);
    CarveLeavesNeighbour(s, size);
    MallocInv(s, size);
    forall x ensures Owners(MallocFree(s, size).free, x) == Owners(s.free, x) {
      CarveOwners(s, n, x);
      FreeOwners(t, p.value, x);
    }
  }

  lemma ShadowedRelease(s: State, size: Size, x: int)
    requires Inv(s) && !Malloc(s, size).0.halted && LiveAt(s, Malloc(s, size).1.value)
    requires !MallocFree(s, size).halted
    ensures var p := Malloc(s, size).1.value;
            var n := RoundUp(size);
            var older := s.records[FirstAt(s.records, p, 0)];
            Owners(MallocFree(s, size).free, x)
            == Owners(s.free, x) - One(Block(p, p + n, n, true), x) + One(older, x)
  {
    var (t, p) := Malloc(s, size);
    var n := RoundUp(size);
    FirstAtAppend(s.records, Block(p.value, p.value + n, n, true), p.value, 0);
    MallocInv(s, size);
    CarveOwners(s, n, x);
    FreeOwners(t, p.value, x);
  }

  /** A shadowing record is empty unless the new block is. */
  lemma ShadowSize(s: State, size: Size)
    requires Inv(s) && !Malloc(s, size).0.halted && LiveAt(s, Malloc(s, size).1.value)
    ensures RoundUp(size) > 0 ==> s.records[FirstAt(s.records, Malloc(s, size).1.value, 0)].size == 0
  {
    var k := FirstFit(s.free, RoundUp(size), 0);
    var j := FirstAt(s.records, s.free[k].start, 0);
    assert WellFormed(s.free[k]) && WellFormed(s.records[j]);
    if RoundUp(size) > 0 {
      var all := s.free + s.records;
      assert all[k] == s.free[k] && all[|s.free| + j] == s.records[j];
      BlocksDisjoint(s, k, |s.free| + j);
    }
  }

  lemma RoundTripShadowedEmpty(s: State, size: Size)
    requires Inv(s) && !Malloc(s, size).0.halted && LiveAt(s, Malloc(s, size).1.value)
    requires RoundUp(size) == 0 == s.records[FirstAt(s.records, Malloc(s, size).1.value, 0)].size
    ensures !MallocFree(s, size).halted && SameFreeBytes(s, MallocFree(s, size))
  {
    var (t, p) := Malloc(s, size);
    FirstAtAppend(s.records, Block(p.value, p.value, 0, true), p.value, 0);
    assert WellFormed(s.records[FirstAt(s.records, p.value, 0)]);
    CarveLeavesNeighbour(s, size);
    forall x ensures Owners(MallocFree(s, size).free, x) == Owners(s.free, x) {
      ShadowedRelease(s, size, x);
    }
  }

  /** Where the first free block large enough for the request begins. */
  function Target(s: State, size: Size): int
    requires FirstFit(s.free, RoundUp(size), 0) < |s.free|
  {
    s.free[FirstFit(s.free, RoundUp(size), 0)].start
  }

  /** malloc followed at once by free of its result restores the set of free bytes, unless an older
      live record of another size starts where the first large enough free block does. Then it never
      does. */
  lemma RoundTripIff(s: State, size: Size)
    requires Inv(s) && !s.halted
    requires FirstFit(s.free, RoundUp(size), 0) < |s.free| && |s.records| < RECORD_TABLE
    ensures Malloc(s, size).1 == Some(Target(s, size))
    ensures !MallocFree(s, size).halted && SameFreeBytes(s, MallocFree(s, size))
            <==> (var p := Target(s, size);
                  !LiveAt(s, p) || s.records[FirstAt(s.records, p, 0)].size == RoundUp(size))
  {
    var p := Malloc(s, size).1.value;
    if !LiveAt(s, p) {
      RoundTripUnshadowed(s, size);
    } else {
      ShadowSize(s, size);
      var older := s.records[FirstAt(s.records, p, 0)];
      assert WellFormed(older);
      if older.size == RoundUp(size) {
        RoundTripShadowedEmpty(s, size);
      } else if !MallocFree(s, size).halted {
        ShadowedRelease(s, size, p);
        assert Owners(MallocFree(s, size).free, p) != Owners(s.free, p);
      }
    }
  }

  /** malloc(0) from the start leaves an empty live record that shadows the next block: malloc(8) then
      free does not give its bytes back. */
  lemma RoundTripFails()
    ensures var s := Run(INITIAL, [MallocOp(0)]);
            !s.halted && Malloc(s, 8).1.Some? && !SameFreeBytes(s, MallocFree(s, 8))
  {
    var s := Run(INITIAL, [MallocOp(0)]);
    EmptyFirst();
    HistoryInv(INITIAL, [MallocOp(0)]);
    RoundTripIff(s, 8);
  }

  lemma EmptyFirst()
    ensures var s := Run(INITIAL, [MallocOp(0)]);
            s == State(INITIAL.free, [Block(HEAP_START, HEAP_START, 0, true)], false)
  {
    var op := MallocOp(0);
    assert [op][1..] == [];
    assert Run(INITIAL, [op]) == Apply(INITIAL, op);
  }

  /** In the same way free of the second block releases nothing. */
  lemma FreeReleasesFails()
    ensures var s := Run(INITIAL, [MallocOp(0), MallocOp(8)]);
            && !s.halted && |s.records| == 2 && StartsAt(s.records[1], HEAP_START) && s.records[1].size == 8
            && !Free(s, HEAP_START).halted && !Releases(s, Free(s, HEAP_START), s.records[1])
  {
    var t := Run(INITIAL, [MallocOp(0)]);
    var s := Apply(t, MallocOp(8));
    EmptyFirst();
    assert [MallocOp(0), MallocOp(8)][1..] == [MallocOp(8)] && [MallocOp(8)][1..] == [];
    assert Run(INITIAL, [MallocOp(0), MallocOp(8)]) == s;
    HistoryInv(INITIAL, [MallocOp(0), MallocOp(8)]);
    assert s.free == [Block(HEAP_START + 8, HEAP_END, HEAP_LENGTH - 8, true)];
    assert FirstAt(s.records, HEAP_START, 0) == 0;
    FreeReleasesIff(s, 1);
  }

  /** Live blocks are non-empty: kept by every history whose requests are 1 to 2^32 - 8 bytes. */
  ghost predicate NoEmptyLive(s: State) {
    forall i :: 0 <= i < |s.records| && s.records[i].valid ==> s.records[i].size > 0
  }

  predicate Sized(op: Op) { op.MallocOp? ==> 1 <= op.size <= WORD - 8 }

  lemma {:induction false} HistoryNonEmpty(s: State, ops: seq<Op>)
    requires Inv(s) && NoEmptyLive(s) && !Run(s, ops).halted
    requires forall op :: op in ops ==> Sized(op)
    ensures NoEmptyLive(Run(s, ops))
    decreases |ops|
  {
    if ops != [] {
      var t := Apply(s, ops[0]);
      assert Sized(ops[0]);
      if s.halted || t.halted {
        HaltSticks(t, ops[1..]);
      } else {
        match ops[0] {
          case MallocOp(size) =>
            RoundUpProps(size);
            MallocInv(s, size);
          case FreeOp(p) => FreeInv(s, p);
        }
        HistoryNonEmpty(t, ops[1..]);
      }
    }
  }

  /** So on the sizes the allocator is meant for, malloc then free is always the identity on bytes. */
  lemma RoundTrip(ops: seq<Op>, size: Size)
    requires forall op :: op in ops ==> Sized(op)
    requires 1 <= size <= WORD - 8
    requires !Run(INITIAL, ops).halted && !Malloc(Run(INITIAL, ops), size).0.halted
    ensures var s := Run(INITIAL, ops);
            !MallocFree(s, size).halted && SameFreeBytes(s, MallocFree(s, size))
  {
    var s := Run(INITIAL, ops);
    InitialInv();
    HistoryInv(INITIAL, ops);
    HistoryNonEmpty(INITIAL, ops);
    RoundUpProps(size);
    RoundTripIff(s, size);
    var p := Malloc(s, size).1.value;
    if LiveAt(s, p) {
      ShadowSize(s, size);
    }
  }

  // ---------------------------------------------------------------- live pointers

  /** A place for the block at `p` in the free table: an unused entry, or the free block that begins
      where it ends. */
  ghost predicate Takes(s: State, p: int) {
    |s.free| < FREE_TABLE
    || exists i :: 0 <= i < |s.free| && LiveAt(s, p) && s.free[i].start == s.records[FirstAt(s.records, p, 0)].end
  }

  ghost predicate CanMalloc(s: State, size: Size) {
    |s.records| < RECORD_TABLE && exists i :: 0 <= i < |s.free| && s.free[i].size >= RoundUp(size)
  }

  /** The live record that free finds for `p`. */
  function RecordAt(s: State, p: int): Block
    requires LiveAt(s, p)
  {
    s.records[FirstAt(s.records, p, 0)]
  }

  lemma {:induction false} FirstAtKeeps(before: seq<Block>, after: seq<Block>, p: int, i: nat)
    requires i <= |before| <= |after|
    requires forall j :: 0 <= j < |before| ==> (StartsAt(after[j], p) <==> StartsAt(before[j], p))
    requires FirstAt(before, p, i) < |before|
    ensures FirstAt(after, p, i) == FirstAt(before, p, i)
    decreases |before| - i
  {
    if !StartsAt(before[i], p) {
      FirstAtKeeps(before, after, p, i + 1);
    }
  }

  /** malloc leaves every live record as it is and adds its own. */
  lemma MallocRecords(s: State, size: Size, a: int)
    requires Inv(s) && NoEmptyLive(s) && 1 <= size <= WORD - 8 && !Malloc(s, size).0.halted
    ensures var (t, p) := Malloc(s, size);
            && (LiveAt(s, a) ==> LiveAt(t, a) && RecordAt(t, a) == RecordAt(s, a))
            && (p == Some(a) ==> LiveAt(t, a) && RecordAt(t, a) == Block(a, a + RoundUp(size), RoundUp(size), true))
  {
    var (t, p) := Malloc(s, size);
    MallocLive(s, size);
    if LiveAt(s, a) {
      FirstAtKeeps(s.records, t.records, a, 0);
    } else if p == Some(a) {
      assert StartsAt(t.records[FirstAt(t.records, a, 0)], a);
    }
  }

  lemma FreeRecords(s: State, p: int, a: int)
    requires Inv(s) && NoEmptyLive(s) && LiveAt(s, p) && !Free(s, p).halted && LiveAt(s, a) && a != p
    ensures LiveAt(Free(s, p), a) && RecordAt(Free(s, p), a) == RecordAt(s, a)
  {
    FreeLive(s, p);
    FirstAtKeeps(s.records, Free(s, p).records, a, 0);
  }

  /** free halts exactly when the pointer is not live, or nothing follows its block and the free table
      is full. */
  lemma FreeHaltsIff(s: State, p: int)
    requires Inv(s) && !s.halted
    ensures Free(s, p).halted <==> !LiveAt(s, p) || !Takes(s, p)
  {
    if LiveAt(s, p) {
      var a := s.records[FirstAt(s.records, p, 0)];
      var k := FirstAt(s.free, a.end, 0);
      if k < |s.free| {
        assert s.free[k].start == a.end;
      }
      if i :| 0 <= i < |s.free| && s.free[i].start == a.end {
        assert StartsAt(s.free[i], a.end);
      }
    }
  }

  lemma MallocServedIff(s: State, size: Size)
    requires Inv(s) && !s.halted
    ensures Malloc(s, size).0.halted <==> !CanMalloc(s, size)
    ensures Malloc(s, size).0.halted <==> Malloc(s, size).1.None?
  {
    MallocHaltsIff(s, size);
  }

  /** malloc of a size that does not round to 0 returns a pointer that was not live and now is. */
  lemma MallocLive(s: State, size: Size)
    requires Inv(s) && NoEmptyLive(s) && 1 <= size <= WORD - 8 && !Malloc(s, size).0.halted
    ensures var (t, p) := Malloc(s, size);
            && Inv(t) && NoEmptyLive(t) && p.Some? && !LiveAt(s, p.value)
            && |t.records| == |s.records| + 1 && |t.free| == |s.free|
            && forall a :: LiveAt(t, a) <==> LiveAt(s, a) || a == p.value
  {
    var (t, p) := Malloc(s, size);
    RoundUpProps(size);
    MallocInv(s, size);
    if LiveAt(s, p.value) {
      ShadowSize(s, size);
    }
    var n := |s.records|;
    assert forall i :: 0 <= i < n ==> t.records[i] == s.records[i];
    forall a ensures LiveAt(t, a) <==> LiveAt(s, a) || a == p.value {
      if LiveAt(s, a) {
        assert StartsAt(t.records[FirstAt(s.records, a, 0)], a);
      }
      assert StartsAt(t.records[n], p.value);
    }
  }

  /** free of a live pointer ends that pointer's life and no other's. */
  lemma FreeLive(s: State, p: int)
    requires Inv(s) && NoEmptyLive(s) && LiveAt(s, p) && !Free(s, p).halted
    ensures var t := Free(s, p);
            && Inv(t) && NoEmptyLive(t) && |t.records| == |s.records| && |t.free| <= |s.free| + 1
            && forall a :: LiveAt(t, a) <==> LiveAt(s, a) && a != p
  {
    var t := Free(s, p);
    var k := FirstAt(s.records, p, 0);
    FreeInv(s, p);
    assert t.records == s.records[k := s.records[k].(valid := false)];
    forall a ensures LiveAt(t, a) <==> LiveAt(s, a) && a != p {
      var j := FirstAt(s.records, a, 0);
      if LiveAt(s, a) && a != p {
        assert StartsAt(t.records[j], a);
      }
      var i := FirstAt(t.records, a, 0);
      if LiveAt(t, a) {
        assert StartsAt(s.records[i], a);
        if a == p && i != k {
          LiveStartsUnique(s, if i < k then i else k, if i < k then k else i);
        }
      }
    }
  }

  // ---------------------------------------------------------------- the record table

  function Mallocs(ops: seq<Op>): nat {
    if ops == [] then 0 else (if ops[0].MallocOp? then 1 else 0) + Mallocs(ops[1..])
  }

  /** Records are never reclaimed: a history makes one per malloc, freed or not, so at most 10240
      allocations, whatever is freed between them. */
  lemma {:induction false} RecordsCountMallocs(s: State, ops: seq<Op>)
    requires Inv(s) && !Run(s, ops).halted
    ensures |Run(s, ops).records| == |s.records| + Mallocs(ops)
    ensures |s.records| + Mallocs(ops) <= RECORD_TABLE
    decreases |ops|
  {
    if ops != [] {
      var t := Apply(s, ops[0]);
      if s.halted || t.halted {
        HaltSticks(t, ops[1..]);
      } else {
        match ops[0] {
          case MallocOp(size) => MallocInv(s, size);
          case FreeOp(p) => FreeInv(s, p);
        }
        RecordsCountMallocs(t, ops[1..]);
      }
    }
  }
}
