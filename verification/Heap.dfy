/** The allocator as it runs: two fixed tables of blocks searched and updated in place. */
module Heap {
  import opened Seqs
  import opened HeapModel

  class Allocator {
    const freeBlocks: array<Block>
    const recordBlocks: array<Block>
    var freeCount: nat
    var recordCount: nat
    var initialized: bool
    var halted: bool

    ghost predicate Valid()
      reads this
    {
      && freeBlocks.Length == FREE_TABLE && recordBlocks.Length == RECORD_TABLE
      && freeBlocks != recordBlocks
      && freeCount <= FREE_TABLE && recordCount <= RECORD_TABLE
      && (!initialized ==> freeCount == 0 && recordCount == 0)
    }

    ghost function View(): State
      requires Valid()
      reads this, freeBlocks, recordBlocks
    {
      if initialized then State(freeBlocks[..freeCount], recordBlocks[..recordCount], halted)
      else INITIAL.(halted := halted)
    }

    constructor ()
      ensures Valid() && fresh(freeBlocks) && fresh(recordBlocks) && View() == INITIAL
    {
      freeBlocks := new Block[FREE_TABLE](_ => Block(0, 0, 0, false));
      recordBlocks := new Block[RECORD_TABLE](_ => Block(0, 0, 0, false));
      freeCount, recordCount, initialized, halted := 0, 0, false, false;
    }

    /** _malloc_array_init */
    method Init()
      requires Valid() && !initialized
      modifies this, freeBlocks, recordBlocks
      ensures Valid() && initialized && View() == old(View())
    {
      for i := 0 to FREE_TABLE
        invariant Valid() && !initialized && View() == old(View())
      {
        freeBlocks[i] := Block(0, 0, 0, false);
      }
      freeBlocks[freeCount] := Block(HEAP_START, HEAP_START + HEAP_LENGTH, HEAP_LENGTH, true);
      freeCount := freeCount + 1;
      for i := 0 to RECORD_TABLE
        invariant freeCount == 1 && recordCount == 0 && !initialized && halted == old(halted)
        invariant freeBlocks[0] == Block(HEAP_START, HEAP_START + HEAP_LENGTH, HEAP_LENGTH, true)
      {
        recordBlocks[i] := Block(0, 0, 0, false);
      }
      initialized := true;
      assert freeBlocks[..1] == [freeBlocks[0]];
    }

    /** _malloc_array; `None` comes with `halted`. */
    method Malloc(size: Size) returns (p: Option<int>)
      requires Valid() && !halted
      modifies this, freeBlocks, recordBlocks
      ensures Valid() && (View(), p) == HeapModel.Malloc(old(View()), size)
    {
      if !initialized {
        Init();
      }
      p := Carve(RoundUp(size));
    }

    method Carve(n: Size) returns (p: Option<int>)
      requires Valid() && !halted && initialized
      modifies this, freeBlocks, recordBlocks
      ensures Valid() && (View(), p) == HeapModel.Carve(old(View()), n)
    {
      ghost var s := View();
      var i := 0;
      while i < freeCount
        invariant i <= freeCount
        invariant FirstFit(s.free, n, 0) == FirstFit(s.free, n, i)
      {
        var block := freeBlocks[i];
        if block.valid && block.size >= n {
          freeBlocks[i] := block.(start := block.start + n, size := block.size - n);
          assert freeBlocks[..freeCount] == s.free[i := freeBlocks[i]];
          if recordCount == RECORD_TABLE {
            halted := true;
            return None;
          }
          recordBlocks[recordCount] := Block(block.start, block.start + n, n, true);
          recordCount := recordCount + 1;
          assert recordBlocks[..recordCount] == s.records + [recordBlocks[recordCount - 1]];
          assert freeBlocks[..freeCount] == s.free[i := freeBlocks[i]];
          return Some(block.start);
        }
        i := i + 1;
      }
      halted := true;
      return None;
    }

    /** _free_array */
    method Free(p: int)
      requires Valid() && !halted
      modifies this, freeBlocks, recordBlocks
      ensures Valid() && View() == HeapModel.Free(old(View()), p)
    {
      ghost var s := View();
      var i := 0;
      while i < recordCount && !(recordBlocks[i].valid && recordBlocks[i].start == p)
        invariant i <= recordCount
        invariant FirstAt(s.records, p, 0) == FirstAt(s.records, p, i)
      {
        i := i + 1;
      }
      if i == recordCount {
        halted := true;
        return;
      }
      var block := recordBlocks[i];
      recordBlocks[i] := block.(valid := false);
      assert recordBlocks[..recordCount] == s.records[i := recordBlocks[i]];
      Release(block);
    }

    method Release(block: Block)
      requires Valid() && !halted && initialized
      modifies this, freeBlocks
      ensures Valid() && View() == HeapModel.Release(old(View()), block)
    {
      ghost var s := View();
      var i := 0;
      while i < freeCount
        invariant i <= freeCount
        invariant FirstAt(s.free, block.end, 0) == FirstAt(s.free, block.end, i)
      {
        var b := freeBlocks[i];
        if b.valid && block.end == b.start {
          freeBlocks[i] := b.(start := block.start, size := b.size + block.size);
          assert freeBlocks[..freeCount] == s.free[i := freeBlocks[i]];
          return;
        }
        i := i + 1;
      }
      if freeCount == FREE_TABLE {
        halted := true;
        return;
      }
      freeBlocks[freeCount] := block;
      freeCount := freeCount + 1;
      assert freeBlocks[..freeCount] == s.free + [block];
    }
  }
}
