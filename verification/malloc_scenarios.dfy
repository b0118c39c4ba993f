/** Concrete runs of the allocator in a 4096-byte kernel window starting at
    0x1000: reuse after free, exhaustion, and the absence of coalescing. */
module MallocScenarios {
  import opened Wrappers
  import opened MemBlock
  import opened Allocator

  const Window: Arena := Kernel(0x1000, 0x2000)

  /** The sentinel alone, and after one 100-byte request (rounded to 104). */
  const Sentinel: Block := Block(0x1000, SentinelWord)
  const AfterFirst: Heap := Heap([Sentinel, Block(0x1010, 105)])
  const AfterFree: Heap := Heap([Sentinel, Block(0x1010, 104)])

  /** malloc(100) on a fresh heap creates the sentinel and a block right
      behind it; after free, malloc(50) gets the same pointer back; a
      4000-byte request then no longer fits the window. */
  lemma ReuseThenExhaust()
    ensures Malloc(Heap([]), Window, 100) == Success(Allocation(AfterFirst, Window, 1, 0x1018))
    ensures Valid(AfterFirst) && Allocated(AfterFirst, 0x1018)
    ensures Free(AfterFirst, 0x1018) == AfterFree
    ensures Malloc(AfterFree, Window, 50) == Success(Allocation(AfterFirst, Window, 1, 0x1018))
    ensures Malloc(AfterFirst, Window, 4000) == Failure(OutOfMemory)
  {
    FirstAllocation(100, 104, 105);
    var f := Free(AfterFirst, 0x1018);
    assert f.blocks[0] == Sentinel;
    assert f.blocks == AfterFree.blocks;
    assert AlignTo(50, MinAlign) == 56;
    FindBlockIsFirstFit(AfterFree, 56, MinAlign, 1);
    assert MarkUsed(104) == 105;
    assert AfterFree.blocks[1 := Block(0x1010, 105)] == AfterFirst.blocks;
    assert Reuse(AfterFree, Window, 1) == Allocation(AfterFirst, Window, 1, 0x1018);
    assert FindBlock(AfterFirst, 4000, MinAlign) == None;
    assert FirstSlot(0x1084, MinAlign) == 0x1088;
  }

  /** The first small request on a fresh heap: sentinel at 0x1000, the block
      at 0x100C rounded up to 0x1010 so that its payload is 8-aligned. */
  lemma FirstAllocation(size: nat, rounded: nat, word: nat)
    requires rounded == AlignTo(size, MinAlign) && word == rounded + 1 && rounded <= 0x100
    ensures Malloc(Heap([]), Window, size)
              == Success(Allocation(Heap([Sentinel, Block(0x1010, word)]), Window, 1, 0x1018))
  {
    var h1 := Heap([Sentinel]);
    assert FirstSlot(0x1000, MinAlign) == 0x1000;
    assert Setup(Heap([]), Window, MinAlign) == (h1, Window);
    assert FindBlock(h1, rounded, MinAlign) == None;
    assert TopEnd(h1) == 0x100C;
    assert FirstSlot(0x100C, MinAlign) == 0x1010;
    assert AlignTo(0x100C + HeaderSize, MinAlign) == 0x1018;
    assert NewBlock(h1, rounded, MinAlign) == Heap([Sentinel, Block(0x1010, word)]);
  }

  const TwoBlocks: Heap := Heap([Sentinel, Block(0x1010, 65), Block(0x1060, 65)])
  const BothFreed: Heap := Heap([Sentinel, Block(0x1010, 64), Block(0x1060, 64)])

  /** Two 64-byte requests on a fresh heap: the blocks sit back to back. */
  lemma TwoAllocations()
    ensures Malloc(Heap([]), Window, 64).Success?
    ensures Malloc(Malloc(Heap([]), Window, 64).value.heap, Window, 64)
              == Success(Allocation(TwoBlocks, Window, 2, 0x1068))
  {
    FirstAllocation(64, 64, 65);
    var one := Heap([Sentinel, Block(0x1010, 65)]);
    assert FindBlock(one, 64, MinAlign) == None;
    assert TopEnd(one) == 0x105C;
    assert FirstSlot(0x105C, MinAlign) == 0x1060;
    assert AlignTo(0x105C + HeaderSize, MinAlign) == 0x1068;
    assert NewBlock(one, 64, MinAlign) == TwoBlocks;
  }

  /** Two 64-byte blocks, both freed, do not serve a 120-byte request although
      together they span 144 bytes of payload space: free blocks are never
      merged, so the heap grows instead. */
  lemma NoCoalescing()
    ensures Malloc(Heap([]), Window, 64).Success?
    ensures Malloc(Malloc(Heap([]), Window, 64).value.heap, Window, 64)
              == Success(Allocation(TwoBlocks, Window, 2, 0x1068))
    ensures Valid(TwoBlocks) && Allocated(TwoBlocks, 0x1018)
    ensures Allocated(Free(TwoBlocks, 0x1018), 0x1068)
    ensures Free(Free(TwoBlocks, 0x1018), 0x1068) == BothFreed
    ensures Valid(BothFreed)
    ensures var c := Malloc(BothFreed, Window, 120);
              && c.Success?
              && c.value.ptr == 0x10B8
              && |c.value.heap.blocks| == 4
              && c.value.heap.blocks[..3] == BothFreed.blocks
  {
    TwoAllocations();
    FreeBoth();
    GrowsPastFreed();
  }

  /** The 120-byte request on BothFreed: no block fits, so a fourth block is
      appended at 0x10B0 behind the two freed ones. */
  lemma GrowsPastFreed()
    ensures Valid(BothFreed)
    ensures var c := Malloc(BothFreed, Window, 120);
              && c.Success?
              && c.value.ptr == 0x10B8
              && |c.value.heap.blocks| == 4
              && c.value.heap.blocks[..3] == BothFreed.blocks
  {
    assert FindBlock(BothFreed, 120, MinAlign) == None;
    assert FirstSlot(0x10AC, MinAlign) == 0x10B0;
  }

  /** Freeing both blocks of TwoBlocks, one after the other, clears their
      used bits and nothing else. */
  lemma FreeBoth()
    ensures Valid(TwoBlocks) && Allocated(TwoBlocks, 0x1018)
    ensures Allocated(Free(TwoBlocks, 0x1018), 0x1068)
    ensures Free(Free(TwoBlocks, 0x1018), 0x1068) == BothFreed
  {
    assert Payload(TwoBlocks.blocks[1]) == 0x1018;
    var f1 := Free(TwoBlocks, 0x1018);
    assert f1.blocks == [Sentinel, Block(0x1010, 64), Block(0x1060, 65)];
    assert Payload(f1.blocks[2]) == 0x1068;
    var f2 := Free(f1, 0x1068);
    assert f2.blocks == BothFreed.blocks;
  }
}
